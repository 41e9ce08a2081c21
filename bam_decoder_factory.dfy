/** BamAlignmentDecoderFactory: the list of input formats a build
    accepts, the parser of a CRAM range `ref[:start[-end]]`, and the choice
    of decoder `construct` makes from the input options, or the error it
    raises. A build with io_lib also accepts `sam` and `cram`; the flag
    ioLib stands for that compile-time choice. The decoders themselves are
    named, not built. Strings are byte sequences. */
module DecoderFactory {
  import opened Base
  import opened StreamNumber
  import opened NameMap

  const COLON: byte := ':' as byte
  const MINUS: byte := '-' as byte
  const COMMA: byte := ',' as byte

  const BAM: seq<byte> := ['b' as byte, 'a' as byte, 'm' as byte]
  const SAM: seq<byte> := ['s' as byte, 'a' as byte, 'm' as byte]
  const CRAM: seq<byte> := ['c' as byte, 'r' as byte, 'a' as byte, 'm' as byte]
  /** The file name that stands for standard input. */
  const DASH: seq<byte> := [MINUS]

  // -------------------------------------------------------------------------
  // Valid input formats

  /** getValidInputFormatsSet: bam always, sam and cram only with io_lib,
      and nothing else. */
  function ValidInputFormatsSet(ioLib: bool): (r: set<seq<byte>>)
    ensures BAM in r && (SAM in r <==> ioLib) && (CRAM in r <==> ioLib)
    ensures forall f :: f in r ==> f == BAM || f == SAM || f == CRAM
  {
    if ioLib then {BAM, SAM, CRAM} else {BAM}
  }

  /** The same set in the order a std::set iterates it. */
  function FormatList(ioLib: bool): seq<seq<byte>>
  {
    if ioLib then [BAM, CRAM, SAM] else [BAM]
  }

  predicate StrictlyIncreasing(xs: seq<seq<byte>>)
  {
    forall i, j :: 0 <= i < j < |xs| ==> LexLess(xs[i], xs[j])
  }

  /** The list holds the set's elements in increasing order, bam among
      them. */
  lemma FormatListOrdered(ioLib: bool)
    ensures StrictlyIncreasing(FormatList(ioLib))
    ensures forall x :: x in FormatList(ioLib) <==> x in ValidInputFormatsSet(ioLib)
    ensures BAM in FormatList(ioLib)
  {
    if ioLib {
      assert LexLess(BAM, CRAM) && LexLess(CRAM, SAM);
      LexTransitive(BAM, CRAM, SAM);
    }
  }

  /** The elements with a comma between neighbours. */
  function JoinComma(xs: seq<seq<byte>>): seq<byte>
    decreases |xs|
  {
    if |xs| == 0 then []
    else if |xs| == 1 then xs[0]
    else xs[0] + [COMMA] + JoinComma(xs[1..])
  }

  lemma {:induction false} JoinCommaSnoc(xs: seq<seq<byte>>, x: seq<byte>)
    requires |xs| > 0
    ensures JoinComma(xs + [x]) == JoinComma(xs) + [COMMA] + x
    decreases |xs|
  {
    if |xs| == 1 {
      assert xs + [x] == [xs[0], x];
      assert [xs[0], x][1..] == [x];
    } else {
      assert (xs + [x])[1..] == xs[1..] + [x];
      JoinCommaSnoc(xs[1..], x);
    }
  }

  /** The pieces of s between commas. */
  function SplitComma(s: seq<byte>): (r: seq<seq<byte>>)
    ensures |r| > 0
    decreases |s|
  {
    if COMMA in s then
      var i := FirstIndex(s, COMMA);
      [s[..i]] + SplitComma(s[i + 1..])
    else [s]
  }

  /** Splitting the join of comma-free names gives the names back. */
  lemma {:induction false} SplitJoin(xs: seq<seq<byte>>)
    requires |xs| > 0 && forall i :: 0 <= i < |xs| ==> COMMA !in xs[i]
    ensures SplitComma(JoinComma(xs)) == xs
    decreases |xs|
  {
    if |xs| > 1 {
      SplitFirst(xs[0], JoinComma(xs[1..]));
      SplitJoin(xs[1..]);
    }
  }

  /** A comma-free piece followed by a comma splits off first. */
  lemma SplitFirst(a: seq<byte>, rest: seq<byte>)
    requires COMMA !in a
    ensures SplitComma(a + [COMMA] + rest) == [a] + SplitComma(rest)
  {
    var s := a + [COMMA] + rest;
    assert s[|a|] == COMMA;
    assert forall k :: 0 <= k < |a| ==> s[k] == a[k];
    assert FirstIndex(s, COMMA) == |a|;
    assert s[..|a|] == a && s[|a| + 1..] == rest;
  }

  /** getValidInputFormats: the set's elements in order, comma-separated. */
  method GetValidInputFormats(ioLib: bool) returns (r: seq<byte>)
    ensures r == JoinComma(FormatList(ioLib))
  {
    var S := FormatList(ioLib);
    r := [];
    for i := 0 to |S|
      invariant i == 0 ==> r == []
      invariant i > 0 ==> r == JoinComma(S[..i])
    {
      if i == 0 {
        assert S[..1] == [S[0]];
        r := r + S[i];
      } else {
        JoinCommaSnoc(S[..i], S[i]);
        assert S[..i + 1] == S[..i] + [S[i]];
        r := r + [COMMA] + S[i];
      }
    }
    assert S[..|S|] == S;
  }

  /** The list reads back as the set, bam included. */
  lemma ValidInputFormatsRoundTrip(ioLib: bool)
    ensures SplitComma(JoinComma(FormatList(ioLib))) == FormatList(ioLib)
    ensures BAM in SplitComma(JoinComma(FormatList(ioLib)))
  {
    SplitJoin(FormatList(ioLib));
    FormatListOrdered(ioLib);
  }

  // -------------------------------------------------------------------------
  // CRAM ranges

  /** A reference name and a 0-based interval on it; -1 as the end means
      to the end of the reference. */
  datatype CramRange = CramRange(rangeref: seq<byte>, rangestart: int, rangeend: int)

  const RANGE_NOT_A_NUMBER: string := "CramRange(): cannot parse CRAM input range (part after colon contains no minus and is not a number)"
  const RANGE_BAD_START: string := "CramRange(): cannot parse CRAM input range (start point is not a number)"
  const RANGE_BAD_END: string := "CramRange(): cannot parse CRAM input range (end point is not a number)"

  /** A run of decimal digits, or the error when it holds anything else;
      an empty run is 0. */
  function DecimalOrErr(s: seq<byte>, err: string): (r: Result<int>)
  {
    if AllDigits(s) then Ok(DigitsValue(s)) else Err(err)
  }

  /** The range `ref`, `ref:start`, `ref:start-end`, split at the first
      colon. */
  function ParseRange(range: seq<byte>): Result<CramRange>
  {
    if COLON !in range then Ok(CramRange(range, 0, -1))
    else
      var colpos := FirstIndex(range, COLON);
      ParseRangeRest(range[..colpos], range[colpos + 1..])
  }

  /** The part after the colon: a start, or a start and an end split at
      the first minus. */
  function ParseRangeRest(rangeref: seq<byte>, rangerest: seq<byte>): Result<CramRange>
  {
    if MINUS !in rangerest then
      match DecimalOrErr(rangerest, RANGE_NOT_A_NUMBER)
      case Err(m) => Err(m)
      case Ok(start) => Ok(CramRange(rangeref, start, -1))
    else
      var minpos := FirstIndex(rangerest, MINUS);
      match DecimalOrErr(rangerest[..minpos], RANGE_BAD_START)
      case Err(m) => Err(m)
      case Ok(start) =>
        match DecimalOrErr(rangerest[minpos + 1..], RANGE_BAD_END)
        case Err(m) => Err(m)
        case Ok(end) => Ok(CramRange(rangeref, start, end))
  }

  /** The digit loop: rangestart (or rangeend) = 10 * it + digit for each
      character, and an error at the first non-digit. */
  method ReadDecimal(s: seq<byte>, err: string) returns (r: Result<int>)
    ensures r == DecimalOrErr(s, err)
  {
    var v := 0;
    for i := 0 to |s|
      invariant AllDigits(s[..i]) && v == DigitsValue(s[..i])
    {
      if !IsDigit(s[i]) {
        return Err(err);
      }
      assert s[..i + 1][..i] == s[..i];
      v := v * 10 + (s[i] as int - 48);
    }
    assert s[..|s|] == s;
    r := Ok(v);
  }

  /** The CramRange constructor from a string. */
  method NewCramRange(range: seq<byte>) returns (r: Result<CramRange>)
    ensures r == ParseRange(range)
  {
    if COLON !in range {
      return Ok(CramRange(range, 0, -1));
    }
    var colpos := FirstIndex(range, COLON);
    var rangeref := range[..colpos];
    var rangerest := range[colpos + 1..];
    r := NewCramRangeRest(rangeref, rangerest);
  }

  /** The constructor's reading of the part after the colon. */
  method NewCramRangeRest(rangeref: seq<byte>, rangerest: seq<byte>) returns (r: Result<CramRange>)
    ensures r == ParseRangeRest(rangeref, rangerest)
  {
    if MINUS !in rangerest {
      var start := ReadDecimal(rangerest, RANGE_NOT_A_NUMBER);
      if start.Err? {
        return Err(start.msg);
      }
      r := Ok(CramRange(rangeref, start.value, -1));
    } else {
      var minpos := FirstIndex(rangerest, MINUS);
      var start := ReadDecimal(rangerest[..minpos], RANGE_BAD_START);
      if start.Err? {
        return Err(start.msg);
      }
      var end := ReadDecimal(rangerest[minpos + 1..], RANGE_BAD_END);
      if end.Err? {
        return Err(end.msg);
      }
      r := Ok(CramRange(rangeref, start.value, end.value));
    }
  }

  /** The first occurrence of b in a + [b] + c, when a holds no b, is at
      |a|. */
  lemma FirstIndexAfter(a: seq<byte>, b: byte, c: seq<byte>)
    requires b !in a
    ensures b in a + [b] + c && FirstIndex(a + [b] + c, b) == |a|
    ensures (a + [b] + c)[..|a|] == a && (a + [b] + c)[|a| + 1..] == c
  {
    var s := a + [b] + c;
    assert s[|a|] == b;
    assert forall k :: 0 <= k < |a| ==> s[k] == a[k];
  }

  /** Ranges written out read back: a bare name, and a name and a
      start. */
  lemma RangeRoundTrip(ref: seq<byte>, start: nat)
    requires COLON !in ref
    ensures ParseRange(ref) == Ok(CramRange(ref, 0, -1))
    ensures ParseRange(ref + [COLON] + Decimal(start)) == Ok(CramRange(ref, start, -1))
  {
    DecimalValue(start);
    FirstIndexAfter(ref, COLON, Decimal(start));
    assert MINUS !in Decimal(start);
  }

  /** A name and an interval read back, and so does a name with an empty
      interval, whose empty bounds are 0. */
  lemma RangeIntervalRoundTrip(ref: seq<byte>, start: nat, end: nat)
    requires COLON !in ref
    ensures ParseRange(ref + [COLON] + (Decimal(start) + [MINUS] + Decimal(end))) == Ok(CramRange(ref, start, end))
    ensures ParseRange(ref + [COLON] + [MINUS]) == Ok(CramRange(ref, 0, 0))
  {
    var rest := Decimal(start) + [MINUS] + Decimal(end);
    FirstIndexAfter(ref, COLON, rest);
    assert ParseRange(ref + [COLON] + rest) == ParseRangeRest(ref, rest);
    IntervalRest(ref, start, end);
    EmptyInterval(ref);
  }

  /** The part after the colon of a written-out interval reads back. */
  lemma IntervalRest(ref: seq<byte>, start: nat, end: nat)
    ensures ParseRangeRest(ref, Decimal(start) + [MINUS] + Decimal(end)) == Ok(CramRange(ref, start, end))
  {
    DecimalValue(start);
    DecimalValue(end);
    assert MINUS !in Decimal(start);
    FirstIndexAfter(Decimal(start), MINUS, Decimal(end));
  }

  lemma EmptyInterval(ref: seq<byte>)
    requires COLON !in ref
    ensures ParseRange(ref + [COLON] + [MINUS]) == Ok(CramRange(ref, 0, 0))
  {
    FirstIndexAfter(ref, COLON, [MINUS]);
    FirstIndexAfter([], MINUS, []);
    assert [] + [MINUS] + [] == [MINUS];
  }

  /** The part after the colon is digits, or digits, a minus and
      digits. */
  predicate RangeRestShape(rest: seq<byte>)
  {
    AllDigits(rest) ||
    exists m :: 0 <= m < |rest| && rest[m] == MINUS && AllDigits(rest[..m]) && AllDigits(rest[m + 1..])
  }

  /** A minus splits such a part only at its one minus. */
  lemma MinusSplit(rest: seq<byte>, m: nat)
    requires m < |rest| && rest[m] == MINUS && AllDigits(rest[..m])
    ensures MINUS in rest && FirstIndex(rest, MINUS) == m
  {
  }

  /** After the colon the range is accepted exactly when it has that
      shape. */
  lemma RangeAccepted(rangeref: seq<byte>, rest: seq<byte>)
    ensures ParseRangeRest(rangeref, rest).Ok? <==> RangeRestShape(rest)
  {
    if MINUS in rest {
      var m := FirstIndex(rest, MINUS);
      assert !AllDigits(rest) by {
        assert !IsDigit(rest[m]);
      }
      if exists m' :: 0 <= m' < |rest| && rest[m'] == MINUS && AllDigits(rest[..m']) && AllDigits(rest[m' + 1..]) {
        var m' :| 0 <= m' < |rest| && rest[m'] == MINUS && AllDigits(rest[..m']) && AllDigits(rest[m' + 1..]);
        MinusSplit(rest, m');
      }
    } else {
      forall m | 0 <= m < |rest|
        ensures rest[m] != MINUS
      {
        assert rest[m] in rest;
      }
    }
  }

  // -------------------------------------------------------------------------
  // Choosing a decoder

  /** The decoder construct builds; every one of them also carries the
      putrank flag, passed on unchanged. */
  datatype DecoderKind =
    | BamStdin(copy: bool)                 // BamDecoderWrapper on stdin, copying to copystr or not
    | BamFile                              // BamDecoderWrapper on the file
    | BamRangeFile                         // BamRangeDecoderWrapper on the file and range
    | BamParallelStdin(copy: bool)         // BamParallelDecoderWrapper on stdin
    | BamParallelFile                      // BamParallelDecoderWrapper on the file
    | ScramStdin(mode: seq<byte>)          // ScramDecoderWrapper on "-", mode "rs" (sam) or "rc" (cram)
    | ScramFile(mode: seq<byte>)           // ScramDecoderWrapper on the file
    | ScramRange(range: CramRange)         // ScramDecoderWrapper on the file and a CRAM range

  const RS: seq<byte> := ['r' as byte, 's' as byte]
  const RC: seq<byte> := ['r' as byte, 'c' as byte]

  const RANGE_ON_STDIN: string := "BamAlignmentDecoderFactory::construct(): ranges are not supported for input via stdin"
  const COPY_ON_FILE: string := "BamAlignmentDecoderFactory::construct(): Stream copy option is not valid for file based input"
  const RANGE_PARALLEL: string := "BamAlignmentDecoderFactory::construct(): ranges are not supported for parallel input"
  const COPY_ON_IO_LIB: string := "BamAlignmentDecoderFactory::construct(): Stream copy option is not valid for io_lib based input"
  const RANGE_NOT_BAM: string := "BamAlignmentDecoderFactory::construct(): ranges are only supported for BAM input format"
  const INVALID_FORMAT: string := "Invalid input input format"

  /** An empty file name or `-` means standard input. */
  predicate IsStdin(inputfilename: seq<byte>)
  {
    |inputfilename| == 0 || inputfilename == DASH
  }

  /** construct: the decoder for the options, or the error raised. copy
      says whether a copy stream was given. */
  function Construct(inputfilename: seq<byte>, inputformat: seq<byte>, inputthreads: nat,
                     copy: bool, range: seq<byte>, ioLib: bool): (r: Result<DecoderKind>)
    ensures r.Ok? ==> inputformat in ValidInputFormatsSet(ioLib)
    ensures r.Ok? ==> (ReadsStdin(r.value) <==> IsStdin(inputfilename))
    ensures r.Ok? ==> (Copies(r.value) <==> copy)
    ensures r.Ok? && |range| > 0 ==> !IsStdin(inputfilename) && !Parallel(r.value)
  {
    var inputisstdin := IsStdin(inputfilename);
    if inputformat == BAM then
      if inputthreads <= 1 then
        if inputisstdin then
          if |range| > 0 then Err(RANGE_ON_STDIN) else Ok(BamStdin(copy))
        else if copy then Err(COPY_ON_FILE)
        else if |range| > 0 then Ok(BamRangeFile)
        else Ok(BamFile)
      else if |range| > 0 then Err(RANGE_PARALLEL)
      else if inputisstdin then Ok(BamParallelStdin(copy))
      else if copy then Err(COPY_ON_FILE)
      else Ok(BamParallelFile)
    else if ioLib && inputformat == SAM then
      if copy then Err(COPY_ON_IO_LIB)
      else if |range| > 0 then Err(RANGE_NOT_BAM)
      else if inputisstdin then Ok(ScramStdin(RS))
      else Ok(ScramFile(RS))
    else if ioLib && inputformat == CRAM then
      if copy then Err(COPY_ON_IO_LIB)
      else if |range| > 0 && inputisstdin then Err(RANGE_ON_STDIN)
      else
        var cramrange := if |range| > 0 then ParseRange(range) else Ok(CramRange([], -1, -1));
        match cramrange
        case Err(m) => Err(m)
        case Ok(c) =>
          if inputisstdin then Ok(ScramStdin(RC))
          else if |c.rangeref| > 0 then Ok(ScramRange(c))
          else Ok(ScramFile(RC))
    else Err(INVALID_FORMAT)
  }

  predicate Parallel(k: DecoderKind)
  {
    k.BamParallelStdin? || k.BamParallelFile?
  }

  predicate ReadsStdin(k: DecoderKind)
  {
    k.BamStdin? || k.BamParallelStdin? || k.ScramStdin?
  }

  predicate Copies(k: DecoderKind)
  {
    (k.BamStdin? || k.BamParallelStdin?) && k.copy
  }

  /** For bam, construct fails exactly when a range comes with standard
      input or with more than one thread, or a copy stream with a file. */
  lemma ConstructBamErrors(inputfilename: seq<byte>, inputthreads: nat, copy: bool, range: seq<byte>, ioLib: bool)
    ensures Construct(inputfilename, BAM, inputthreads, copy, range, ioLib).Err? <==>
            (|range| > 0 && (IsStdin(inputfilename) || inputthreads > 1)) ||
            (copy && !IsStdin(inputfilename))
  {
  }

  /** A bam decoder reads in parallel exactly when more than one thread is
      asked for, reads standard input exactly when the name says so, reads
      a range exactly when one is given, and copies exactly when a copy
      stream is given. */
  lemma ConstructBamKind(inputfilename: seq<byte>, inputthreads: nat, copy: bool, range: seq<byte>, ioLib: bool)
    requires Construct(inputfilename, BAM, inputthreads, copy, range, ioLib).Ok?
    ensures var k := Construct(inputfilename, BAM, inputthreads, copy, range, ioLib).value;
            (Parallel(k) <==> inputthreads > 1) &&
            (ReadsStdin(k) <==> IsStdin(inputfilename)) &&
            (k.BamRangeFile? <==> |range| > 0) &&
            (Copies(k) <==> copy)
  {
  }

  /** A format outside the build's valid set is an error, and one inside
      it never gives that error. */
  lemma ConstructFormats(inputfilename: seq<byte>, inputformat: seq<byte>, inputthreads: nat,
                         copy: bool, range: seq<byte>, ioLib: bool)
    ensures Construct(inputfilename, inputformat, inputthreads, copy, range, ioLib) == Err(INVALID_FORMAT) <==>
            inputformat !in ValidInputFormatsSet(ioLib)
  {
  }

  /** A copy stream is only ever honoured for bam read from standard
      input. */
  lemma ConstructCopyOnlyBamStdin(inputfilename: seq<byte>, inputformat: seq<byte>, inputthreads: nat,
                                  copy: bool, range: seq<byte>, ioLib: bool)
    requires copy && Construct(inputfilename, inputformat, inputthreads, copy, range, ioLib).Ok?
    ensures inputformat == BAM && IsStdin(inputfilename)
    ensures Copies(Construct(inputfilename, inputformat, inputthreads, copy, range, ioLib).value)
  {
  }

  /** A cram file with a range naming a reference is read over that range
      as parsed. */
  lemma ConstructCramRange(inputfilename: seq<byte>, inputthreads: nat, range: seq<byte>)
    requires !IsStdin(inputfilename) && |range| > 0
    requires ParseRange(range).Ok? && |ParseRange(range).value.rangeref| > 0
    ensures Construct(inputfilename, CRAM, inputthreads, false, range, true) == Ok(ScramRange(ParseRange(range).value))
  {
  }
}
