/** FastAIndex: a `.fai` index (one line per sequence: name, length,
    offset, bases per line, bytes per line, separated by tabs), the map
    from short names to sequence ids, the reads of whole sequences and of
    base ranges out of the FASTA file, and the binary serialisation of
    the index. */
module FaiIndex {
  import opened Base
  import opened NumberSerialisation
  import opened FastAEntry
  import opened FastALayout
  import opened NameMap
  import opened StreamNumber
  import opened Folds

  const NEWLINE: byte := 10
  const TAB: byte := 9

  // -------------------------------------------------------------------------
  // Splitting text into lines and fields

  /** The pieces of s between occurrences of sep, empty pieces included:
      getline at '\n' for lines, and the field splitting of a line at
      '\t'. */
  function Split(s: seq<byte>, sep: byte): (r: seq<Text>)
    ensures |r| > 0
    ensures forall i :: 0 <= i < |r| ==> sep !in r[i]
    decreases |s|
  {
    if sep !in s then [s]
    else
      var i := FirstIndex(s, sep);
      assert sep !in s[..i];
      [s[..i]] + Split(s[i + 1..], sep)
  }

  function Join(parts: seq<Text>, sep: byte): Text
    requires |parts| > 0
  {
    if |parts| == 1 then parts[0] else parts[0] + [sep] + Join(parts[1..], sep)
  }

  /** Joining the pieces with the separator gives the text back. */
  lemma {:induction false} SplitJoin(s: seq<byte>, sep: byte)
    ensures Join(Split(s, sep), sep) == s
    decreases |s|
  {
    if sep in s {
      var i := FirstIndex(s, sep);
      SplitJoin(s[i + 1..], sep);
      assert s == s[..i] + [sep] + s[i + 1..];
    }
  }

  function Lines(text: Text): seq<Text>
  {
    Split(text, NEWLINE)
  }

  function Tokens(line: Text): seq<Text>
  {
    Split(line, TAB)
  }

  // -------------------------------------------------------------------------
  // Short names

  /** computeShortName as a definition: the bytes before the first white
      space. */
  function ShortName(s: Text): (r: Text)
    ensures |r| <= |s| && r == s[..|r|]
    ensures forall i :: 0 <= i < |r| ==> !IsSpace(r[i])
    ensures |r| < |s| ==> IsSpace(s[|r|])
  {
    if |s| == 0 || IsSpace(s[0]) then [] else [s[0]] + ShortName(s[1..])
  }

  /** A short name is its own short name. */
  lemma ShortNameIdempotent(s: Text)
    ensures ShortName(ShortName(s)) == ShortName(s)
  {
    ShortNameOfPlain(ShortName(s));
  }

  lemma {:induction false} ShortNameOfPlain(s: Text)
    requires forall i :: 0 <= i < |s| ==> !IsSpace(s[i])
    ensures ShortName(s) == s
  {
    if |s| > 0 {
      ShortNameOfPlain(s[1..]);
    }
  }

  /** computeShortName: scan up to the first white space. */
  method ComputeShortName(s: Text) returns (r: Text)
    ensures r == ShortName(s)
  {
    var i := 0;
    while i < |s| && !IsSpace(s[i])
      invariant i <= |s|
      invariant forall k :: 0 <= k < i ==> !IsSpace(s[k])
    {
      i := i + 1;
    }
    r := s[..i];
    ShortNameUnique(s, r);
  }

  /** ShortName is the only prefix free of white space that ends at white
      space or at the end. */
  lemma {:induction false} ShortNameUnique(s: Text, p: Text)
    requires |p| <= |s| && p == s[..|p|]
    requires forall i :: 0 <= i < |p| ==> !IsSpace(p[i])
    requires |p| < |s| ==> IsSpace(s[|p|])
    ensures p == ShortName(s)
  {
    if |p| > 0 {
      ShortNameUnique(s[1..], p[1..]);
    }
  }

  // -------------------------------------------------------------------------
  // Parsing the text index

  /** parseNumber: the token read as an unsigned 64-bit number, or an
      error when the stream fails. */
  function ParseNumber(tok: Text): (r: Result<nat>)
    ensures r.Ok? <==> ExtractNumber(tok).Ok?
    ensures r.Ok? ==> r.value == ExtractNumber(tok).value.value && r.value < UINT64_LIMIT
  {
    match ExtractNumber(tok)
    case Err(m) => Err("cannot parse token as number")
    case Ok(d) => Ok(d.value)
  }

  /** A decimal number parses back to itself. */
  lemma ParseNumberDecimal(n: nat)
    requires n < UINT64_LIMIT
    ensures ParseNumber(Decimal(n)) == Ok(n)
  {
    ExtractDecimal(n, []);
    assert Decimal(n) + [] == Decimal(n);
  }

  /** The stream fails, and so does parseNumber, on a blank token, on one
      whose first non-blank byte is neither a digit nor a sign, on a sign
      not followed by a digit, and on a decimal number beyond 2^64 - 1. */
  lemma ParseNumberRejects(tok: Text, n: nat)
    ensures var t := SkipSpace(tok);
            |t| == 0 || (!IsDigit(t[0]) && t[0] != '-' as byte && t[0] != '+' as byte) ==> ParseNumber(tok).Err?
    ensures var t := SkipSpace(tok);
            |t| > 0 && (t[0] == '-' as byte || t[0] == '+' as byte) && (|t| == 1 || !IsDigit(t[1])) ==> ParseNumber(tok).Err?
    ensures n >= UINT64_LIMIT ==> ParseNumber(Decimal(n)).Err?
  {
    if n >= UINT64_LIMIT {
      var d := Decimal(n);
      assert SkipSpace(d) == d by {
        assert IsDigit(d[0]);
      }
      DigitRunPrefix(d, []);
      assert d + [] == d && d[..|d|] == d;
      DecimalValue(n);
    }
  }

  /** A line that makes an entry: non-empty, with at least five fields. */
  predicate IsRecord(line: Text)
  {
    |line| > 0 && |Tokens(line)| >= 5
  }

  /** The entry a record line describes, if its four numbers parse. */
  function ParseEntry(tok: seq<Text>): (r: Result<Entry>)
    requires |tok| >= 5
    ensures r.Ok? <==> ParseNumber(tok[1]).Ok? && ParseNumber(tok[2]).Ok? &&
                       ParseNumber(tok[3]).Ok? && ParseNumber(tok[4]).Ok?
    ensures r.Ok? ==> r.value.name == tok[0] && r.value.length < UINT64_LIMIT &&
                      r.value.offset < UINT64_LIMIT && r.value.basesperline < UINT64_LIMIT &&
                      r.value.bytesperline < UINT64_LIMIT
  {
    match ParseNumber(tok[1])
    case Err(m) => Err(m)
    case Ok(length) =>
      match ParseNumber(tok[2])
      case Err(m) => Err(m)
      case Ok(offset) =>
        match ParseNumber(tok[3])
        case Err(m) => Err(m)
        case Ok(bases) =>
          match ParseNumber(tok[4])
          case Err(m) => Err(m)
          case Ok(bytes) => Ok(Entry(tok[0], length, offset, bases, bytes))
  }

  /** The two members of an index. */
  datatype Table = Table(sequences: seq<Entry>, names: Assoc)

  /** One line of the text constructor's loop. */
  function ParseLine(t: Table, line: Text): (r: Result<Table>)
  {
    if !IsRecord(line) then Ok(t)
    else
      var tok := Tokens(line);
      match ParseEntry(tok)
      case Err(m) => Err(m)
      case Ok(e) => Ok(Table(t.sequences + [e], Insert(t.names, ShortName(tok[0]), |t.sequences|)))
  }

  /** The text constructor FastAIndex(in): every line in turn. */
  function ParseText(text: Text): Result<Table>
  {
    FoldResult(ParseLine, Table([], []), Lines(text))
  }

  /** A line whose four numbers parse, or that is not a record. */
  predicate LineParses(line: Text)
  {
    IsRecord(line) ==> ParseEntry(Tokens(line)).Ok?
  }

  /** Parsing fails exactly when a record line has a field that is not a
      number. */
  lemma ParseTextOk(text: Text)
    ensures ParseText(text).Ok? <==> forall i :: 0 <= i < |Lines(text)| ==> LineParses(Lines(text)[i])
  {
    forall t, line
      ensures ParseLine(t, line).Ok? <==> LineParses(line)
    {
    }
    FoldOk(ParseLine, LineParses, Table([], []), Lines(text));
  }

  /** The names of the entries, in order. */
  function Names(es: seq<Entry>): (r: seq<Text>)
    ensures |r| == |es| && forall i :: 0 <= i < |es| ==> r[i] == es[i].name
  {
    if |es| == 0 then [] else [es[0].name] + Names(es[1..])
  }

  function TableNames(t: Table): seq<Text>
  {
    Names(t.sequences)
  }

  /** The name a line contributes: the first field of a record line. */
  function RecordName(line: Text): (r: seq<Text>)
  {
    if IsRecord(line) then [Tokens(line)[0]] else []
  }

  /** One line appends an entry named by its first field when it is a
      record, and changes no entry otherwise. */
  lemma ParseLineNames(t: Table, line: Text)
    requires ParseLine(t, line).Ok?
    ensures TableNames(ParseLine(t, line).value) == TableNames(t) + RecordName(line)
  {
    if IsRecord(line) {
      var e := ParseEntry(Tokens(line)).value;
      assert ParseLine(t, line).value.sequences == t.sequences + [e];
      assert Names(t.sequences + [e]) == Names(t.sequences) + [e.name];
    }
  }

  /** A parsed index has one entry per record line, in the order of the
      lines, named by the line's first field. */
  lemma ParseTextNames(text: Text)
    requires ParseText(text).Ok?
    ensures Names(ParseText(text).value.sequences) == ConcatMap(RecordName, Lines(text))
  {
    forall t, line | ParseLine(t, line).Ok?
      ensures TableNames(ParseLine(t, line).value) == TableNames(t) + RecordName(line)
    {
      ParseLineNames(t, line);
    }
    FoldAppends(ParseLine, TableNames, RecordName, Table([], []), Lines(text));
  }

  /** The last entry whose short name is key. */
  function LastNamed(es: seq<Entry>, key: Text): (r: Option<nat>)
    ensures r.Some? ==> r.value < |es| && ShortName(es[r.value].name) == key &&
                        forall j :: r.value < j < |es| ==> ShortName(es[j].name) != key
    ensures r.None? ==> forall j :: 0 <= j < |es| ==> ShortName(es[j].name) != key
  {
    if |es| == 0 then None
    else if ShortName(es[|es| - 1].name) == key then Some(|es| - 1)
    else
      var r := LastNamed(es[..|es| - 1], key);
      assert forall j :: 0 <= j < |es| - 1 ==> es[j] == es[..|es| - 1][j];
      r
  }

  /** The map sends every short name to the last entry carrying it, and
      its keys are in order. */
  ghost predicate Consistent(t: Table)
  {
    NameMap.Sorted(t.names) &&
    forall key :: Lookup(t.names, key) == LastNamed(t.sequences, key)
  }

  /** Each line keeps the map consistent with the entries. */
  lemma ParseLineConsistent(t: Table, line: Text)
    requires Consistent(t) && ParseLine(t, line).Ok?
    ensures Consistent(ParseLine(t, line).value)
  {
    if IsRecord(line) {
      var tok := Tokens(line);
      var e := ParseEntry(tok).value;
      var t' := ParseLine(t, line).value;
      InsertSorted(t.names, ShortName(tok[0]), |t.sequences|);
      forall key
        ensures Lookup(t'.names, key) == LastNamed(t'.sequences, key)
      {
        LookupInsert(t.names, ShortName(tok[0]), |t.sequences|, key);
        assert t'.sequences[..|t.sequences|] == t.sequences;
      }
    }
  }

  /** In a parsed index, the short name of any query maps to the last
      entry with that short name, and to nothing when there is none. */
  lemma ParsedLookup(text: Text, s: Text)
    requires ParseText(text).Ok?
    ensures var t := ParseText(text).value;
            Lookup(t.names, ShortName(s)) == LastNamed(t.sequences, ShortName(s))
  {
    forall t, line | Consistent(t) && ParseLine(t, line).Ok?
      ensures Consistent(ParseLine(t, line).value)
    {
      ParseLineConsistent(t, line);
    }
    FoldInvariant(ParseLine, Consistent, Table([], []), Lines(text));
  }

  /** In a parsed index, looking up any entry's own name finds that entry
      or a later one with the same short name. */
  lemma ParsedFindsEntry(text: Text, k: nat)
    requires ParseText(text).Ok? && k < |ParseText(text).value.sequences|
    ensures var t := ParseText(text).value;
            var key := ShortName(t.sequences[k].name);
            Lookup(t.names, key).Some? && k <= Lookup(t.names, key).value < |t.sequences| &&
            ShortName(t.sequences[Lookup(t.names, key).value].name) == key
  {
    var t := ParseText(text).value;
    ParsedLookup(text, t.sequences[k].name);
  }

  // -------------------------------------------------------------------------
  // The binary serialisation

  predicate PairFits(p: (Text, nat))
  {
    |p.0| < UINT64_LIMIT && p.1 < UINT64_LIMIT
  }

  ghost predicate TableFits(t: Table)
  {
    |t.sequences| < UINT64_LIMIT && |t.names| < UINT64_LIMIT &&
    (forall i :: 0 <= i < |t.sequences| ==> Fits(t.sequences[i])) &&
    (forall i :: 0 <= i < |t.names| ==> PairFits(t.names[i]))
  }

  /** One (key, value) pair of the map: the key as a string, then the
      value as a number. */
  function EncodePair(p: (Text, nat)): seq<byte>
    requires PairFits(p)
  {
    SerialiseString(p.0) + SerialiseNumber(p.1)
  }

  function DecodePair(s: seq<byte>): Result<Decoded<(Text, nat)>>
  {
    match DeserialiseString(s)
    case Err(msg) => Err(msg)
    case Ok(k) =>
      match DeserialiseNumber(k.rest)
      case Err(msg) => Err(msg)
      case Ok(v) => Ok(Decoded((k.value, v.value), v.rest))
  }

  lemma PairRoundTrip(p: (Text, nat), rest: seq<byte>)
    requires PairFits(p)
    ensures DecodePair(EncodePair(p) + rest) == Ok(Decoded(p, rest))
  {
    assert EncodePair(p) + rest == SerialiseString(p.0) + (SerialiseNumber(p.1) + rest);
    StringRoundTrip(p.0, SerialiseNumber(p.1) + rest);
    NumberRoundTrip(p.1, rest);
  }

  /** map[key] = value, as the map loop of deserialise stores a pair. */
  function InsertPair(m: Assoc, p: (Text, nat)): Assoc
  {
    Insert(m, p.0, p.1)
  }

  /** serialise: the entry count and the entries, then the map size and
      the (key, value) pairs in key order. */
  function EncodeIndex(t: Table): seq<byte>
    requires TableFits(t)
  {
    EncodeCounted(SerialiseEntry, t.sequences) + EncodeCounted(EncodePair, t.names)
  }

  /** deserialise: the index read back, and the bytes after it. The
      entries are appended in order; the pairs are stored one by one with
      map[key] = value. */
  function DecodeIndex(s: seq<byte>): Result<Decoded<Table>>
  {
    match DecodeCounted(DeserialiseEntry, Snoc, [], s)
    case Err(m) => Err(m)
    case Ok(es) =>
      match DecodeCounted(DecodePair, InsertPair, [], es.rest)
      case Err(m) => Err(m)
      case Ok(ps) => Ok(Decoded(Table(es.value, ps.value), ps.rest))
  }

  /** The entries read back are the entries serialise wrote. */
  lemma EntriesRoundTrip(es: seq<Entry>, rest: seq<byte>)
    requires |es| < UINT64_LIMIT && forall i :: 0 <= i < |es| ==> Fits(es[i])
    ensures DecodeCounted(DeserialiseEntry, Snoc, [], EncodeCounted(SerialiseEntry, es) + rest) ==
            Ok(Decoded(es, rest))
  {
    forall i, r | 0 <= i < |es|
      ensures DeserialiseEntry(SerialiseEntry(es[i]) + r) == Ok(Decoded(es[i], r))
    {
      EntryRoundTrip(es[i], r);
    }
    DecodeEncodeCounted(SerialiseEntry, DeserialiseEntry, Snoc, [], es, rest);
    StepsSnoc([], es);
    assert [] + es == es;
  }

  /** The map read back from a map with sorted keys is that map. */
  lemma PairsRoundTrip(ps: Assoc, rest: seq<byte>)
    requires |ps| < UINT64_LIMIT && forall i :: 0 <= i < |ps| ==> PairFits(ps[i])
    requires NameMap.Sorted(ps)
    ensures DecodeCounted(DecodePair, InsertPair, [], EncodeCounted(EncodePair, ps) + rest) ==
            Ok(Decoded(ps, rest))
  {
    forall i, r | 0 <= i < |ps|
      ensures DecodePair(EncodePair(ps[i]) + r) == Ok(Decoded(ps[i], r))
    {
      PairRoundTrip(ps[i], r);
    }
    DecodeEncodeCounted(EncodePair, DecodePair, InsertPair, [], ps, rest);
    StepsInsertAll([], ps);
    assert [] + ps == ps;
    InsertAllSorted([], ps);
  }

  lemma {:induction false} StepsInsertAll(m: Assoc, ps: Assoc)
    ensures Steps(InsertPair, m, ps) == InsertAll(m, ps)
    decreases |ps|
  {
    if |ps| > 0 {
      StepsInsertAll(InsertPair(m, ps[0]), ps[1..]);
    }
  }

  /** deserialise rebuilds the sequences and the map serialise wrote, and
      leaves the bytes after them. */
  lemma IndexRoundTrip(t: Table, rest: seq<byte>)
    requires TableFits(t) && NameMap.Sorted(t.names)
    ensures DecodeIndex(EncodeIndex(t) + rest) == Ok(Decoded(t, rest))
  {
    var names := EncodeCounted(EncodePair, t.names) + rest;
    assert EncodeIndex(t) + rest == EncodeCounted(SerialiseEntry, t.sequences) + names;
    EntriesRoundTrip(t.sequences, names);
    PairsRoundTrip(t.names, rest);
  }

  // -------------------------------------------------------------------------
  // The index object

  /** lineskip = bytesperline - basesperline as the source computes it.
      A difference the int64 cast turns negative makes every ignore fail:
      it is modelled as more bytes than the file holds. */
  function Lineskip(e: Entry, fileSize: nat): (r: nat)
    ensures e.basesperline <= e.bytesperline < e.basesperline + INT64_LIMIT ==>
              r + e.basesperline == e.bytesperline
    ensures !(e.basesperline <= e.bytesperline < e.basesperline + INT64_LIMIT) ==> r > fileSize
  {
    if e.basesperline <= e.bytesperline < e.basesperline + INT64_LIMIT
    then e.bytesperline - e.basesperline
    else fileSize + 1
  }

  class FastAIndex {
    var sequences: seq<Entry>
    var shortNameToId: Assoc

    /** The default constructor: no sequences, an empty map. */
    constructor()
      ensures sequences == [] && shortNameToId == []
    {
      sequences := [];
      shortNameToId := [];
    }

    /** getSequenceIdByName: the id stored under the query's short name, or
        an error when the map has none. */
    function GetSequenceIdByName(s: Text): (r: Result<nat>)
      reads this
      ensures r.Ok? <==> exists i :: 0 <= i < |shortNameToId| && shortNameToId[i].0 == ShortName(s)
      ensures r.Ok? ==> exists i :: 0 <= i < |shortNameToId| && shortNameToId[i] == (ShortName(s), r.value)
    {
      match Lookup(shortNameToId, ShortName(s))
      case None => Err("sequence is not in database")
      case Some(id) => Ok(id)
    }

    /** readSequence: the bases of sequence seqid, read line by line from
        its offset. An id out of range or a short read is an error. */
    method ReadSequence(file: seq<byte>, seqid: int) returns (r: Result<seq<byte>>)
      requires (0 <= seqid < |sequences| && sequences[seqid].basesperline == 0 && sequences[seqid].length > 0) ==>
               sequences[seqid].bytesperline > 0
      ensures !(0 <= seqid < |sequences|) ==> r.Err?
      ensures 0 <= seqid < |sequences| ==>
                var e := sequences[seqid];
                var skip := Lineskip(e, |file|);
                (r.Ok? <==> e.length == 0 ||
                            (e.basesperline > 0 && Spot(e.offset, e.length - 1, e.basesperline, skip) < |file|)) &&
                (r.Ok? ==> |r.value| == e.length) &&
                (r.Ok? && e.length > 0 ==> e.basesperline > 0 && Holds(file, r.value, e.offset, 0, e.basesperline, skip))
    {
      if seqid < 0 || seqid >= |sequences| {
        return Err("sequence id is out of range");
      }
      var e := sequences[seqid];
      var skip := Lineskip(e, |file|);
      if e.basesperline == 0 {
        // every round reads no base and ignores the line terminator, until
        // the file ends
        if e.length == 0 {
          return Ok([]);
        }
        return Err("failed to read sequence");
      }
      var A := new byte[e.length];
      var ok := ReadLines(file, A, 0, e.offset, e.basesperline, skip);
      if !ok {
        return Err("failed to read sequence");
      }
      r := Ok(A[..]);
    }

    /** readSequenceRange: bases [low, high) of sequence seqid, read from
        the seek position offset + (low / bpl) * bytesperline + low % bpl.
        An id out of range, a range outside [0, length], or a short read
        is an error. */
    method ReadSequenceRange(file: seq<byte>, seqid: int, low: int, high: int) returns (r: Result<seq<byte>>)
      requires 0 <= seqid < |sequences| && 0 <= low <= high <= sequences[seqid].length ==>
               sequences[seqid].basesperline > 0
      ensures !(0 <= seqid < |sequences|) ==> r.Err?
      ensures 0 <= seqid < |sequences| && !(0 <= low <= high <= sequences[seqid].length) ==> r.Err?
      ensures 0 <= seqid < |sequences| && 0 <= low <= high <= sequences[seqid].length ==>
                var e := sequences[seqid];
                var bpl := e.basesperline;
                var skip := Lineskip(e, |file|);
                var base := e.offset + (low / bpl) * e.bytesperline;
                (r.Ok? <==> low == high || Spot(base, low % bpl + (high - low) - 1, bpl, skip) < |file|) &&
                (r.Ok? ==> |r.value| == high - low && Holds(file, r.value, base, low % bpl, bpl, skip))
    {
      if seqid < 0 || seqid >= |sequences| {
        return Err("sequence id is out of range");
      }
      var e := sequences[seqid];
      if low < 0 || high > e.length || low > high {
        return Err("invalid range");
      }
      var skip := Lineskip(e, |file|);
      var bpl := e.basesperline;
      var A := new byte[high - low];
      var ok := ReadRange(file, A, e.offset + (low / bpl) * e.bytesperline, low % bpl, bpl, skip);
      if !ok {
        return Err("failed to read sequence");
      }
      r := Ok(A[..]);
    }

    /** serialise: the bytes written and their count. */
    method Serialise() returns (out: seq<byte>, s: nat)
      requires TableFits(Table(sequences, shortNameToId))
      ensures out == EncodeIndex(Table(sequences, shortNameToId)) && s == |out|
    {
      out := SerialiseNumber(|sequences|);
      out := WriteAll(out, SerialiseEntry, sequences);
      ghost var entries := out;
      out := out + SerialiseNumber(|shortNameToId|);
      out := WriteAll(out, EncodePair, shortNameToId);
      assert out == entries + EncodeCounted(EncodePair, shortNameToId);
      s := |out|;
    }

    /** deserialise: replace both members by what the stream holds; returns
        the bytes after the index. A short read is an error. */
    method Deserialise(input: seq<byte>) returns (r: Result<seq<byte>>)
      modifies this
      ensures r.Ok? <==> DecodeIndex(input).Ok?
      ensures r.Ok? ==> Table(sequences, shortNameToId) == DecodeIndex(input).value.value &&
                        r.value == DecodeIndex(input).value.rest
    {
      sequences := [];
      var nseq := DeserialiseNumber(input);
      if nseq.Err? {
        return Err(nseq.msg);
      }
      var es := ReadAll(DeserialiseEntry, Snoc, sequences, nseq.value.rest, nseq.value.value);
      if es.Err? {
        return Err(es.msg);
      }
      sequences := es.value.value;
      var nshort := DeserialiseNumber(es.value.rest);
      if nshort.Err? {
        return Err(nshort.msg);
      }
      shortNameToId := [];
      var ps := ReadAll(DecodePair, InsertPair, shortNameToId, nshort.value.rest, nshort.value.value);
      if ps.Err? {
        return Err(ps.msg);
      }
      shortNameToId := ps.value.value;
      r := Ok(ps.value.rest);
    }
  }

  /** The text constructor: every record line appends an entry and maps
      its short name to the entry's id; a field that is not a number is
      an error. */
  method Parse(text: Text) returns (r: Result<FastAIndex>)
    ensures r.Ok? <==> ParseText(text).Ok?
    ensures r.Ok? ==> fresh(r.value) &&
                      Table(r.value.sequences, r.value.shortNameToId) == ParseText(text).value
  {
    var index := new FastAIndex();
    var lines := Lines(text);
    for i := 0 to |lines|
      invariant ParseText(text) == FoldResult(ParseLine, Table(index.sequences, index.shortNameToId), lines[i..])
    {
      var line := lines[i];
      if |line| > 0 {
        var tokens := Tokens(line);
        if |tokens| >= 5 {
          var name := ComputeShortName(tokens[0]);
          var e := ParseEntry(tokens);
          if e.Err? {
            return Err(e.msg);
          }
          index.shortNameToId := Insert(index.shortNameToId, name, |index.sequences|);
          index.sequences := index.sequences + [e.value];
        }
      }
      assert lines[i..][1..] == lines[i + 1..];
    }
    r := Ok(index);
  }
}
