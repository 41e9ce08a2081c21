/** GammaDifferenceDecoder: reads back a sequence of integers stored as
    gamma-coded differences. The file ends with the 8-byte position of a
    small index holding the number of values n and the first value prim;
    each decoded value is the previous one plus the next gamma code plus
    the constant mindif. A one-value peek slot lets a caller look at the
    next value without consuming it.

    The gamma codes themselves come from GammaDecoder, which is not part of
    this model: the codes it would produce from the start of the file are
    the sequence `codes`. */
module GammaDifference {
  import opened Base
  import opened NumberSerialisation

  // -------------------------------------------------------------------------
  // numberCast for UnsignedInteger<k>

  const WORD_LIMIT: nat := 0x1_0000_0000

  /** The words of an UnsignedInteger<k>: k 32-bit words, least
      significant first. */
  predicate IsWords(v: seq<nat>)
  {
    forall i :: 0 <= i < |v| ==> v[i] < WORD_LIMIT
  }

  /** The number an UnsignedInteger<k> holds. */
  function WordsValue(v: seq<nat>): nat
  {
    if |v| == 0 then 0 else v[0] + WORD_LIMIT * WordsValue(v[1..])
  }

  /** numberCast for UnsignedInteger<k> with k == |v|: no words give 0, one
      word its value, and otherwise the two lowest words joined into 64 bits
      (the or of `v[1] << 32` and `v[0]` sets disjoint bits, so it is their
      sum) and read as an int64_t. */
  function NumberCastWords(v: seq<nat>): (r: int)
    requires IsWords(v)
    ensures -(INT64_LIMIT as int) <= r < INT64_LIMIT
    ensures |v| <= 1 ==> r == WordsValue(v)
  {
    if |v| == 0 then 0
    else if |v| == 1 then v[0]
    else
      MulLe(v[1], WORD_LIMIT - 1, WORD_LIMIT);
      ToInt64(v[1] * WORD_LIMIT + v[0])
  }

  /** numberCast keeps the low 64 bits of the number and reads them as a
      two's complement int64_t: higher words are dropped. */
  lemma NumberCastTruncates(v: seq<nat>)
    requires IsWords(v)
    ensures WordsValue(v) % UINT64_LIMIT < UINT64_LIMIT
    ensures NumberCastWords(v) == ToInt64(WordsValue(v) % UINT64_LIMIT)
  {
    if |v| == 0 {
    } else if |v| == 1 {
      assert WordsValue(v[1..]) == 0;
      ModSmall(v[0], UINT64_LIMIT);
    } else {
      var low := v[1] * WORD_LIMIT + v[0];
      MulLe(v[1], WORD_LIMIT - 1, WORD_LIMIT);
      var high := WordsValue(v[2..]);
      assert v[1..][1..] == v[2..];
      TwoWords(v[0], v[1], high);
      ModAddMultiple(low, high, UINT64_LIMIT);
      ModSmall(low, UINT64_LIMIT);
    }
  }

  lemma TwoWords(w0: nat, w1: nat, high: nat)
    ensures w0 + WORD_LIMIT * (w1 + WORD_LIMIT * high) == (w1 * WORD_LIMIT + w0) + high * UINT64_LIMIT
  {
    MulFacts(w1, WORD_LIMIT * high, WORD_LIMIT);
  }

  // -------------------------------------------------------------------------
  // The header read by setup

  /** What setup reads: the number of values and the first value. */
  datatype Header = Header(n: nat, prim: int)

  /** The index position stored in the last eight bytes of the file. */
  function IndexPos(file: seq<byte>): (p: nat)
    requires |file| >= 8
    ensures p < UINT64_LIMIT
  {
    DeserialiseNumber(file[|file| - 8..]).value.value
  }

  /** setup: read indexpos from the last eight bytes, then n and the signed
      prim at indexpos. A file shorter than eight bytes, or an index
      position with fewer than eight bytes after it, makes deserialiseNumber
      throw; deserialiseSignedNumber reports no error of its own. */
  function ReadHeader(file: seq<byte>): (r: Result<Header>)
    ensures r.Ok? <==> |file| >= 8 && IndexPos(file) + 8 <= |file|
    ensures r.Ok? ==> r.value.n < UINT64_LIMIT
  {
    if |file| < 8 then Err(NUMBER_EOF)
    else
      var indexpos := IndexPos(file);
      if indexpos > |file| then Err(NUMBER_EOF)
      else
        match DeserialiseNumber(file[indexpos..])
        case Err(e) => Err(e)
        case Ok(d) => Ok(Header(d.value, SignedDecoding(d.rest).value))
  }

  /** The layout a writer produces: the coded body, then n, prim and the
      position of n, reads back as the header it was written with. */
  lemma HeaderRoundTrip(body: seq<byte>, n: nat, prim: int)
    requires n < UINT64_LIMIT && |body| < UINT64_LIMIT
    requires -(INT64_LIMIT as int) < prim < INT64_LIMIT
    ensures ReadHeader(body + SerialiseNumber(n) + SignedEncoding(prim) + SerialiseNumber(|body|))
            == Ok(Header(n, prim))
  {
    var tail := SerialiseNumber(|body|);
    var after := SignedEncoding(prim) + tail;
    var file := body + SerialiseNumber(n) + SignedEncoding(prim) + tail;
    TrailerIndexPos(body + SerialiseNumber(n) + SignedEncoding(prim), |body|);
    assert file[|body|..] == SerialiseNumber(n) + after;
    NumberRoundTrip(n, after);
    SignedRoundTrip(prim, tail);
    ReadHeaderAt(file, |body|);
  }

  /** The last eight bytes written by serialiseNumber(p) read back as p. */
  lemma TrailerIndexPos(front: seq<byte>, p: nat)
    requires p < UINT64_LIMIT
    ensures IndexPos(front + SerialiseNumber(p)) == p
  {
    var file := front + SerialiseNumber(p);
    assert file[|file| - 8..] == SerialiseNumber(p) + [];
    NumberRoundTrip(p, []);
  }

  /** ReadHeader with the index position known to lie in the file. */
  lemma ReadHeaderAt(file: seq<byte>, p: nat)
    requires |file| >= 8 && IndexPos(file) == p && p + 8 <= |file|
    ensures var d := DeserialiseNumber(file[p..]).value;
            ReadHeader(file) == Ok(Header(d.value, SignedDecoding(d.rest).value))
  {
  }

  // -------------------------------------------------------------------------
  // The decoder's state machine

  /** The fields decode and peek update: the gamma codes still to come,
      the peek slot and whether it is filled, the previous value, the
      number of values still to decode, and whether the input streams are
      still held (they are released once decode runs dry). */
  datatype DecoderState = DecoderState(codes: seq<nat>, slot: int, filled: bool, prev: int, n: nat, open: bool)

  /** Every value still to decode has its gamma code. */
  predicate WellFormed(s: DecoderState)
  {
    s.n <= |s.codes|
  }

  /** The values still to be returned: the one in the peek slot, if
      filled, and the n still to decode. */
  function Pending(s: DecoderState): nat
  {
    s.n + if s.filled then 1 else 0
  }

  predicate Exhausted(s: DecoderState)
  {
    Pending(s) == 0
  }

  /** What decode or peek returns (None for `false`) and the state after
      it. */
  datatype Step = Step(out: Option<int>, next: DecoderState)

  /** decode(v): return and clear a filled peek slot; otherwise, while
      values remain, add the next code plus mindif to the previous value;
      otherwise release the streams and return false. */
  function DecodeStep(s: DecoderState, mindif: int): (r: Step)
    requires WellFormed(s)
    ensures WellFormed(r.next)
    ensures r.out.None? <==> Exhausted(s)
    ensures r.out.Some? ==> Pending(r.next) + 1 == Pending(s)
  {
    if s.filled then Step(Some(s.slot), s.(filled := false))
    else if s.n > 0 then
      var v := s.prev + (s.codes[0] + mindif);
      Step(Some(v), s.(codes := s.codes[1..], prev := v, n := s.n - 1))
    else Step(None, s.(open := false))
  }

  /** peek(v): fill the slot by a decode unless it is filled already, and
      return what it holds. */
  function PeekStep(s: DecoderState, mindif: int): (r: Step)
    requires WellFormed(s)
    ensures WellFormed(r.next)
    ensures r.out.Some? <==> r.next.filled
    ensures r.out.Some? ==> r.out.value == r.next.slot
    ensures Pending(r.next) == Pending(s)
  {
    if s.filled then Step(Some(s.slot), s)
    else
      var d := DecodeStep(s, mindif);
      match d.out
      case Some(v) => Step(Some(v), d.next.(slot := v, filled := true))
      case None => Step(None, d.next)
  }

  /** peek(): the peeked value as an int64_t, or -1 when there is none. */
  function PeekNumber(s: DecoderState, mindif: int): (r: int)
    requires WellFormed(s)
  {
    match PeekStep(s, mindif).out
    case Some(v) => v
    case None => -1
  }

  /** Two states that behave alike: they differ at most in a stale value
      left in an empty peek slot. */
  predicate Alike(s: DecoderState, t: DecoderState)
  {
    s.codes == t.codes && s.filled == t.filled && (s.filled ==> s.slot == t.slot) &&
    s.prev == t.prev && s.n == t.n && s.open == t.open
  }

  /** Peeking does not consume: a second peek returns the same value and
      leaves the same state. */
  lemma PeekIdempotent(s: DecoderState, mindif: int)
    requires WellFormed(s)
    ensures PeekStep(PeekStep(s, mindif).next, mindif) == PeekStep(s, mindif)
  {
  }

  /** A peek returns the value the next decode returns, and a decode after
      a peek behaves as the decode alone would. */
  lemma DecodeAfterPeek(s: DecoderState, mindif: int)
    requires WellFormed(s)
    ensures PeekStep(s, mindif).out == DecodeStep(s, mindif).out
    ensures DecodeStep(PeekStep(s, mindif).next, mindif).out == DecodeStep(s, mindif).out
    ensures Alike(DecodeStep(PeekStep(s, mindif).next, mindif).next, DecodeStep(s, mindif).next)
  {
  }

  /** Alike states decode alike. */
  lemma DecodeAlike(s: DecoderState, t: DecoderState, mindif: int)
    requires WellFormed(s) && WellFormed(t) && Alike(s, t)
    ensures DecodeStep(s, mindif).out == DecodeStep(t, mindif).out
    ensures Alike(DecodeStep(s, mindif).next, DecodeStep(t, mindif).next)
  {
  }

  /** The values repeated decodes return until the first false. */
  function Run(s: DecoderState, mindif: int): (r: seq<int>)
    requires WellFormed(s)
    decreases Pending(s)
  {
    var d := DecodeStep(s, mindif);
    match d.out
    case None => []
    case Some(v) => [v] + Run(d.next, mindif)
  }

  /** The state setup leaves: empty peek slot, prev = prim, n values to
      decode. */
  function Fresh(h: Header, codes: seq<nat>): DecoderState
  {
    DecoderState(codes, 0, false, h.prim, h.n, true)
  }

  function Sum(xs: seq<nat>): nat
  {
    if |xs| == 0 then 0 else xs[0] + Sum(xs[1..])
  }

  /** Without a peeked value, decoding returns exactly the n values prev
      plus the prefix sums of the codes and of mindif. */
  lemma {:induction false} RunPrefixSums(s: DecoderState, mindif: int)
    requires WellFormed(s) && !s.filled
    ensures |Run(s, mindif)| == s.n
    ensures forall i :: 0 <= i < s.n ==>
              Run(s, mindif)[i] == s.prev + Sum(s.codes[..i + 1]) + (i + 1) * mindif
    decreases s.n
  {
    if s.n > 0 {
      var d := DecodeStep(s, mindif);
      var v := s.prev + (s.codes[0] + mindif);
      RunPrefixSums(d.next, mindif);
      var r := Run(s, mindif);
      assert r == [v] + Run(d.next, mindif);
      forall i | 0 <= i < s.n
        ensures r[i] == s.prev + Sum(s.codes[..i + 1]) + (i + 1) * mindif
      {
        SumFront(s.codes, i);
        MulSucc(i, mindif);
        if i > 0 {
          assert r[i] == Run(d.next, mindif)[i - 1];
        }
      }
    }
  }

  lemma SumFront(codes: seq<nat>, i: nat)
    requires i < |codes|
    ensures Sum(codes[..i + 1]) == codes[0] + Sum(codes[1..][..i])
  {
    assert codes[..i + 1][1..] == codes[1..][..i];
  }

  lemma MulSucc(i: nat, m: int)
    ensures (i + 1) * m == i * m + m
  {
  }

  /** A fresh decoder returns exactly n values: prim plus the prefix sums
      of the first n codes, each code raised by mindif. */
  lemma FreshRun(h: Header, codes: seq<nat>, mindif: int)
    requires h.n <= |codes|
    ensures |Run(Fresh(h, codes), mindif)| == h.n
    ensures forall i :: 0 <= i < h.n ==>
              Run(Fresh(h, codes), mindif)[i] == h.prim + Sum(codes[..i + 1]) + (i + 1) * mindif
  {
    RunPrefixSums(Fresh(h, codes), mindif);
  }

  /** With mindif >= 1 every value decoded exceeds the one before: the run
      is strictly increasing and starts above prev. */
  lemma {:induction false} RunIncreasing(s: DecoderState, mindif: int)
    requires WellFormed(s) && !s.filled && mindif >= 1
    ensures forall i :: 0 <= i < |Run(s, mindif)| ==> s.prev < Run(s, mindif)[i]
    ensures forall i, j :: 0 <= i < j < |Run(s, mindif)| ==> Run(s, mindif)[i] < Run(s, mindif)[j]
    decreases s.n
  {
    if s.n > 0 {
      var d := DecodeStep(s, mindif);
      RunIncreasing(d.next, mindif);
      var r := Run(s, mindif);
      var r' := Run(d.next, mindif);
      assert r == [d.next.prev] + r';
      forall i, j | 0 <= i < j < |r|
        ensures r[i] < r[j]
      {
        assert r[j] == r'[j - 1];
      }
    }
  }

  /** From a fresh decoder with mindif >= 1 the values strictly increase
      from prim on. */
  lemma FreshIncreasing(h: Header, codes: seq<nat>, mindif: int)
    requires h.n <= |codes| && mindif >= 1
    ensures forall i :: 0 <= i < |Run(Fresh(h, codes), mindif)| ==> h.prim < Run(Fresh(h, codes), mindif)[i]
    ensures forall i, j :: 0 <= i < j < |Run(Fresh(h, codes), mindif)| ==>
              Run(Fresh(h, codes), mindif)[i] < Run(Fresh(h, codes), mindif)[j]
  {
    RunIncreasing(Fresh(h, codes), mindif);
  }

  /** peek() returns -1 once the values are exhausted; when every value
      is non-negative (prev, a peeked value and mindif all >= 0), only
      then. */
  lemma PeekNumberEnd(s: DecoderState, mindif: int)
    requires WellFormed(s)
    ensures Exhausted(s) ==> PeekNumber(s, mindif) == -1
    ensures mindif >= 0 && s.prev >= 0 && (s.filled ==> s.slot >= 0) ==>
            (PeekNumber(s, mindif) == -1 <==> Exhausted(s))
  {
  }

  /** With a negative value in the data, -1 is also a value: peek() then
      returns -1 although a value remains. */
  lemma PeekNumberAmbiguous()
    ensures var s := DecoderState([0], 0, false, -2, 1, true);
            WellFormed(s) && !Exhausted(s) && PeekNumber(s, 1) == -1
  {
  }

  // -------------------------------------------------------------------------
  // The decoder object

  class GammaDifferenceDecoder {
    const mindif: int
    /** The codes Gdec->decode() still yields. */
    var codes: seq<nat>
    var peekslot: int
    var peekslotfilled: bool
    var prim: int
    var prev: int
    var n: nat
    /** Whether Gdec, Sin and Pin are still held. */
    var open: bool

    ghost predicate Valid()
      reads this
    {
      n <= |codes|
    }

    function Current(): DecoderState
      reads this
    {
      DecoderState(codes, peekslot, peekslotfilled, prev, n, open)
    }

    /** The fields once setup has read the header. */
    constructor(h: Header, codes: seq<nat>, mindif: int)
      requires h.n <= |codes|
      ensures Valid() && Current() == Fresh(h, codes)
      ensures this.prim == h.prim && this.mindif == mindif
    {
      this.mindif := mindif;
      this.codes := codes;
      peekslot := 0;
      peekslotfilled := false;
      prim := h.prim;
      prev := h.prim;
      n := h.n;
      open := true;
    }

    /** decode(v): None stands for a `false` return. */
    method Decode() returns (r: Option<int>)
      requires Valid()
      modifies this
      ensures Valid()
      ensures r == DecodeStep(old(Current()), mindif).out
      ensures Current() == DecodeStep(old(Current()), mindif).next
      ensures prim == old(prim)
    {
      if peekslotfilled {
        r := Some(peekslot);
        peekslotfilled := false;
      } else if n > 0 {
        var dif := codes[0] + mindif;
        codes := codes[1..];
        var v := prev + dif;
        prev := v;
        n := n - 1;
        r := Some(v);
      } else {
        open := false;
        r := None;
      }
    }

    /** peek(v): None stands for a `false` return. */
    method Peek() returns (r: Option<int>)
      requires Valid()
      modifies this
      ensures Valid()
      ensures r == PeekStep(old(Current()), mindif).out
      ensures Current() == PeekStep(old(Current()), mindif).next
      ensures prim == old(prim)
    {
      if !peekslotfilled {
        var d := Decode();
        if d.Some? {
          peekslot := d.value;
          peekslotfilled := true;
        }
      }
      if peekslotfilled {
        r := Some(peekslot);
      } else {
        r := None;
      }
    }

    /** peek(): the next value, or -1. */
    method PeekValue() returns (r: int)
      requires Valid()
      modifies this
      ensures Valid()
      ensures r == PeekNumber(old(Current()), mindif)
      ensures Current() == PeekStep(old(Current()), mindif).next
      ensures prim == old(prim)
    {
      var p := Peek();
      if p.Some? {
        r := p.value;
      } else {
        r := -1;
      }
    }
  }

  /** The stream constructor: setup reads the header, and the decoder
      starts fresh; a file whose header cannot be read is an error. */
  method Open(file: seq<byte>, codes: seq<nat>, mindif: int) returns (r: Result<GammaDifferenceDecoder>)
    requires ReadHeader(file).Ok? ==> ReadHeader(file).value.n <= |codes|
    ensures r.Ok? <==> ReadHeader(file).Ok?
    ensures r.Ok? ==> fresh(r.value) && r.value.Valid() && r.value.mindif == mindif &&
                      r.value.Current() == Fresh(ReadHeader(file).value, codes)
  {
    if |file| < 8 {
      return Err(NUMBER_EOF);
    }
    var indexpos := DeserialiseNumber(file[|file| - 8..]).value.value;
    if indexpos > |file| {
      return Err(NUMBER_EOF);
    }
    var nr := DeserialiseNumber(file[indexpos..]);
    if nr.Err? {
      return Err(nr.msg);
    }
    var prim := DeserialiseSignedNumber(nr.value.rest);
    var d := new GammaDifferenceDecoder(Header(nr.value.value, prim), codes, mindif);
    r := Ok(d);
  }
}
