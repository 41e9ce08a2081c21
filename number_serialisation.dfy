/** Big-endian fixed-width integer codec, length-prefixed number vectors and
    the sign/length-prefixed variable-width signed integer codec
    (util/NumberSerialisation.hpp). An output stream is the sequence of bytes
    written so far; an input stream is the sequence of bytes not yet read. */
module NumberSerialisation {
  import opened Base

  // ---------------------------------------------------------------------------
  // Specification: big-endian byte strings

  /** The k low-order bytes of n, most significant first. */
  function Encode(n: nat, k: nat): (r: seq<byte>)
    ensures |r| == k
  {
    if k == 0 then [] else Encode(n / 256, k - 1) + [(n % 256) as byte]
  }

  /** The number whose big-endian byte string is s. */
  function Value(s: seq<byte>): nat
  {
    if s == [] then 0 else Value(s[..|s| - 1]) * 256 + s[|s| - 1] as nat
  }

  lemma ValueSnoc(s: seq<byte>, b: byte)
    ensures Value(s + [b]) == Value(s) * 256 + b as nat
  {
    assert (s + [b])[..|s|] == s;
  }

  lemma {:induction false} ValueBound(s: seq<byte>)
    ensures Value(s) < Pow256(|s|)
  {
    if s != [] {
      var p := s[..|s| - 1];
      ValueBound(p);
      assert Value(s) <= (Pow256(|p|) - 1) * 256 + 255;
    }
  }

  /** Byte i of Encode(n, k) is `(n >> 8(k-i-1)) & 0xFF`. */
  lemma {:induction false} EncodeByte(n: nat, k: nat, i: nat)
    requires i < k
    ensures Encode(n, k)[i] as nat == n / Pow256(k - 1 - i) % 256
  {
    if i < k - 1 {
      EncodeByte(n / 256, k - 1, i);
      DivDiv(n, 256, Pow256(k - 2 - i));
    }
  }

  /** Decoding an encoding gives back the number, truncated to k bytes. */
  lemma {:induction false} ValueOfEncode(n: nat, k: nat)
    ensures Value(Encode(n, k)) == n % Pow256(k)
  {
    if k > 0 {
      ValueOfEncode(n / 256, k - 1);
      ValueSnoc(Encode(n / 256, k - 1), (n % 256) as byte);
      ModSplit(n, 256, Pow256(k - 1));
    }
  }

  /** Encoding the value of a byte string gives back the byte string. */
  lemma {:induction false} EncodeOfValue(s: seq<byte>)
    ensures Encode(Value(s), |s|) == s
  {
    if s != [] {
      var p := s[..|s| - 1];
      EncodeOfValue(p);
      var v := Value(s);
      assert v / 256 == Value(p) && v % 256 == s[|s| - 1] as nat by {
        DivisionUnique(v, 256, Value(p), s[|s| - 1] as nat);
      }
    }
  }

  lemma EncodeRoundTrip(n: nat, k: nat)
    requires n < Pow256(k)
    ensures Value(Encode(n, k)) == n
  {
    ValueOfEncode(n, k);
  }

  // ---------------------------------------------------------------------------
  // serialiseNumber(out, n, k) and its 16/32-bit variants

  /** Writes the k low bytes of n, most significant first, and returns k.
      The shift `(k-i-1)*8` must stay below the operand's width, so k <= 8;
      the 16- and 32-bit variants run the same loop on a narrower n. */
  method SerialiseNumberK(out: seq<byte>, n: nat, k: nat) returns (out': seq<byte>, written: nat)
    requires n < UINT64_LIMIT && k <= 8
    ensures out' == out + Encode(n, k)
    ensures written == k
  {
    out' := out;
    var i := 0;
    while i < k
      invariant 0 <= i <= k
      invariant |out'| == |out| + i && out'[..|out|] == out
      invariant forall j :: 0 <= j < i ==> out'[|out| + j] == Encode(n, k)[j]
    {
      EncodeByte(n, k, i);
      out' := out' + [(n / Pow256(k - i - 1) % 256) as byte];
      i := i + 1;
    }
    assert out'[|out|..] == Encode(n, k);
    assert out' == out'[..|out|] + out'[|out|..];
    written := k;
  }

  // ---------------------------------------------------------------------------
  // Fixed-width serialisers (straight-line byte expressions)

  /** serialiseNumber(out, n): 8 bytes, most significant first. */
  function SerialiseNumber(n: nat): (r: seq<byte>)
    requires n < UINT64_LIMIT
    ensures |r| == 8
  {
    Encode(n, 8)
  }

  /** Byte i of serialiseNumber is n shifted right by 8 * (7 - i) bits,
      masked to its low 8 bits. */
  lemma SerialiseNumberBytes(n: nat)
    requires n < UINT64_LIMIT
    ensures SerialiseNumber(n) ==
            [(n / 0x100_0000_0000_0000 % 256) as byte, (n / 0x1_0000_0000_0000 % 256) as byte,
             (n / 0x100_0000_0000 % 256) as byte, (n / 0x1_0000_0000 % 256) as byte,
             (n / 0x100_0000 % 256) as byte, (n / 0x1_0000 % 256) as byte,
             (n / 0x100 % 256) as byte, (n % 256) as byte]
  {
    Pow256Values();
    forall i | 0 <= i < 8 ensures SerialiseNumber(n)[i] as nat == n / Pow256(7 - i) % 256 {
      EncodeByte(n, 8, i);
    }
  }

  /** serialiseNumber16(out, n): 2 bytes, most significant first. */
  function SerialiseNumber16(n: nat): (r: seq<byte>)
    requires n < 0x1_0000
    ensures r == Encode(n, 2)
  {
    var r := [(n / 0x100 % 256) as byte, (n % 256) as byte];
    assert r == Encode(n, 2) by {
      Pow256Values();
      EncodeByte(n, 2, 0);
      EncodeByte(n, 2, 1);
    }
    r
  }

  /** serialiseNumber32(out, n): 4 bytes, most significant first. */
  function SerialiseNumber32(n: nat): (r: seq<byte>)
    requires n < 0x1_0000_0000
    ensures r == Encode(n, 4)
  {
    var r := [(n / 0x100_0000 % 256) as byte, (n / 0x1_0000 % 256) as byte,
              (n / 0x100 % 256) as byte, (n % 256) as byte];
    assert r == Encode(n, 4) by {
      Pow256Values();
      forall i | 0 <= i < 4 ensures r[i] == Encode(n, 4)[i] {
        EncodeByte(n, 4, i);
      }
    }
    r
  }

  // ---------------------------------------------------------------------------
  // Fixed-width deserialisers: all bytes are read, then one EOF check

  const NUMBER_EOF := "EOF/failure in deserialiseNumber()"

  /** A decoded value together with the input that follows it. */
  datatype Decoded<T> = Decoded(value: T, rest: seq<byte>)

  /** deserialiseNumber(in): fails when fewer than 8 bytes remain. */
  function DeserialiseNumber(s: seq<byte>): (r: Result<Decoded<nat>>)
    ensures r.Ok? <==> |s| >= 8
    ensures r.Ok? ==> |r.value.rest| + 8 == |s| && r.value.value < UINT64_LIMIT
  {
    if |s| < 8 then Err(NUMBER_EOF)
    else
      ValueBound(s[..8]);
      Pow256Values();
      Ok(Decoded(Value(s[..8]), s[8..]))
  }

  /** deserialiseNumber shifts the eight bytes in, most significant first. */
  lemma DeserialiseNumberBytes(s: seq<byte>)
    requires |s| >= 8
    ensures DeserialiseNumber(s).value.value ==
            s[0] as nat * 0x100_0000_0000_0000 + s[1] as nat * 0x1_0000_0000_0000
            + s[2] as nat * 0x100_0000_0000 + s[3] as nat * 0x1_0000_0000
            + s[4] as nat * 0x100_0000 + s[5] as nat * 0x1_0000
            + s[6] as nat * 0x100 + s[7] as nat
  {
    forall i | 1 <= i <= 8 ensures Value(s[..i]) == Value(s[..i - 1]) * 256 + s[i - 1] as nat {
      assert s[..i] == s[..i - 1] + [s[i - 1]];
      ValueSnoc(s[..i - 1], s[i - 1]);
    }
    assert s[..0] == [];
  }

  /** deserialiseNumber16(in): fails when fewer than 2 bytes remain. */
  function DeserialiseNumber16(s: seq<byte>): (r: Result<Decoded<nat>>)
    ensures r.Ok? <==> |s| >= 2
    ensures r.Ok? ==> r.value == Decoded(Value(s[..2]), s[2..])
  {
    if |s| < 2 then Err("EOF/failure in deserialiseNumber16()")
    else
      var u := s[0] as nat * 0x100 + s[1] as nat;
      assert u == Value(s[..2]) by {
        assert s[..2] == s[..1] + [s[1]] && s[..1] == [] + [s[0]];
        ValueSnoc(s[..1], s[1]);
        ValueSnoc([], s[0]);
      }
      Ok(Decoded(u, s[2..]))
  }

  /** deserialiseNumber32(in): fails when fewer than 4 bytes remain. */
  function DeserialiseNumber32(s: seq<byte>): (r: Result<Decoded<nat>>)
    ensures r.Ok? <==> |s| >= 4
    ensures r.Ok? ==> r.value == Decoded(Value(s[..4]), s[4..])
  {
    if |s| < 4 then Err("EOF/failure in deserialiseNumber32()")
    else
      var u := s[0] as nat * 0x100_0000 + s[1] as nat * 0x1_0000 + s[2] as nat * 0x100 + s[3] as nat;
      assert u == Value(s[..4]) by {
        forall i | 1 <= i <= 4 ensures Value(s[..i]) == Value(s[..i - 1]) * 256 + s[i - 1] as nat {
          assert s[..i] == s[..i - 1] + [s[i - 1]];
          ValueSnoc(s[..i - 1], s[i - 1]);
        }
        assert s[..0] == [];
      }
      Ok(Decoded(u, s[4..]))
  }

  /** The fixed 8-byte codec is a bijection on 64-bit values. */
  lemma NumberRoundTrip(n: nat, rest: seq<byte>)
    requires n < UINT64_LIMIT
    ensures DeserialiseNumber(SerialiseNumber(n) + rest) == Ok(Decoded(n, rest))
  {
    var s := SerialiseNumber(n) + rest;
    assert s[..8] == Encode(n, 8) && s[8..] == rest;
    Pow256Values();
    EncodeRoundTrip(n, 8);
  }

  /** deserialiseNumberCount(in, s): the number deserialiseNumber reads,
      with the byte counter s advanced by the bytes it takes. */
  function DeserialiseNumberCount(input: seq<byte>, s: nat): (r: Result<(Decoded<nat>, nat)>)
    ensures r.Ok? <==> |input| >= 8
    ensures r.Ok? ==> r.value.1 == s + (|input| - |r.value.0.rest|)
  {
    match DeserialiseNumber(input)
    case Ok(d) => Ok((d, s + 8))
    case Err(e) => Err(e)
  }

  /** Reading a serialised number back with the counter yields the number
      and eight more bytes counted. */
  lemma NumberCountRoundTrip(n: nat, rest: seq<byte>, s: nat)
    requires n < UINT64_LIMIT
    ensures DeserialiseNumberCount(SerialiseNumber(n) + rest, s) == Ok((Decoded(n, rest), s + 8))
  {
    NumberRoundTrip(n, rest);
  }

  lemma Number16RoundTrip(n: nat, rest: seq<byte>)
    requires n < 0x1_0000
    ensures DeserialiseNumber16(SerialiseNumber16(n) + rest) == Ok(Decoded(n, rest))
  {
    var s := SerialiseNumber16(n) + rest;
    assert s[..2] == Encode(n, 2) && s[2..] == rest;
    Pow256Values();
    EncodeRoundTrip(n, 2);
  }

  lemma Number32RoundTrip(n: nat, rest: seq<byte>)
    requires n < 0x1_0000_0000
    ensures DeserialiseNumber32(SerialiseNumber32(n) + rest) == Ok(Decoded(n, rest))
  {
    var s := SerialiseNumber32(n) + rest;
    assert s[..4] == Encode(n, 4) && s[4..] == rest;
    Pow256Values();
    EncodeRoundTrip(n, 4);
  }

  /** Every 8-byte input decodes, and re-encoding the value restores the bytes. */
  lemma NumberDecodeEncode(s: seq<byte>)
    requires |s| >= 8
    ensures DeserialiseNumber(s).Ok?
    ensures SerialiseNumber(DeserialiseNumber(s).value.value) + DeserialiseNumber(s).value.rest == s
  {
    ValueBound(s[..8]);
    Pow256Values();
    EncodeOfValue(s[..8]);
    assert s == s[..8] + s[8..];
  }

  // ---------------------------------------------------------------------------
  // deserialiseNumber(in, k) and its 16/32-bit variants

  /** Shifting one byte into an accumulator modulo m = mp * 256 (`v <<= 8; v |= u`). */
  lemma ShiftIn(a: nat, c: nat, mp: nat)
    requires c < 256 && mp >= 1
    ensures (a % (mp * 256) * 256) % (mp * 256) + c == (a * 256 + c) % (mp * 256)
  {
    var m := mp * 256;
    var q, ra := a / mp, a % mp;
    var d := q % 256;
    ModSplit(a, mp, 256);
    assert a % m == d * mp + ra;
    assert 256 * ra + c < m by {
      MulLe(ra, mp - 1, 256);
      MulFacts(mp - 1, 1, 256);
    }
    assert (a % m * 256) % m == 256 * ra by {
      ShiftProduct(d, mp, ra);
      DivisionUnique(a % m * 256, m, d, 256 * ra);
    }
    assert (a * 256 + c) % m == 256 * ra + c by {
      ShiftProduct(q, mp, ra);
      assert a == q * mp + ra;
      DivisionUnique(a * 256 + c, m, q, 256 * ra + c);
    }
  }

  lemma ShiftProduct(q: nat, mp: nat, r: nat)
    ensures (q * mp + r) * 256 == q * (mp * 256) + 256 * r
  {
  }

  /** Shifting one byte into a w-byte accumulator. */
  lemma ShiftInByte(a: nat, c: nat, w: nat)
    requires c < 256 && w >= 1
    ensures (a % Pow256(w) * 256) % Pow256(w) + c == (a * 256 + c) % Pow256(w)
  {
    assert Pow256(w) == Pow256(w - 1) * 256;
    ShiftIn(a, c, Pow256(w - 1));
  }

  /** deserialiseNumber{,16,32}(in, k): accumulates k bytes into an unsigned
      accumulator of w bytes (8, 2 or 4), so that earlier bytes are shifted
      out when k > w; fails as soon as a byte is missing. */
  method DeserialiseNumberK(s: seq<byte>, k: nat, w: nat) returns (r: Result<Decoded<nat>>)
    requires 1 <= w <= 8
    ensures r.Ok? <==> |s| >= k
    ensures r.Ok? ==> r.value == Decoded(Value(s[..k]) % Pow256(w), s[k..])
  {
    var v := 0;
    var i := 0;
    assert s[..0] == [];
    ModSmall(0, Pow256(w));
    while i < k
      invariant 0 <= i <= k && i <= |s|
      invariant v == Value(s[..i]) % Pow256(w)
    {
      if i >= |s| {
        return Err(NUMBER_EOF);
      }
      var u := s[i] as nat;
      AccumulateStep(s, i, w);
      v := (v * 256) % Pow256(w) + u;
      i := i + 1;
    }
    r := Ok(Decoded(v, s[k..]));
  }

  lemma AccumulateStep(s: seq<byte>, i: nat, w: nat)
    requires i < |s| && w >= 1
    ensures (Value(s[..i]) % Pow256(w) * 256) % Pow256(w) + s[i] as nat == Value(s[..i + 1]) % Pow256(w)
  {
    ShiftInByte(Value(s[..i]), s[i] as nat, w);
    assert s[..i + 1] == s[..i] + [s[i]];
    ValueSnoc(s[..i], s[i]);
  }

  /** deserialiseNumber(in, k) inverts serialiseNumber(out, n, k) for n < 256^k. */
  lemma NumberKRoundTrip(n: nat, k: nat, w: nat, rest: seq<byte>)
    requires k <= w && n < Pow256(k)
    ensures (Encode(n, k) + rest)[..k] == Encode(n, k)
    ensures Value(Encode(n, k)) % Pow256(w) == n
  {
    assert (Encode(n, k) + rest)[..k] == Encode(n, k);
    EncodeRoundTrip(n, k);
    Pow256Monotone(k, w);
    ModSmall(n, Pow256(w));
  }

  // ---------------------------------------------------------------------------
  // Vectors, sets and deques: an 8-byte count, then the elements

  /** The encoding of a number sequence with w bytes per element. */
  function EncodeElements(V: seq<nat>, w: nat): (r: seq<byte>)
    ensures V == [] ==> r == []
  {
    if V == [] then [] else EncodeElements(V[..|V| - 1], w) + Encode(V[|V| - 1], w)
  }

  lemma {:induction false} EncodeElementsLength(V: seq<nat>, w: nat)
    ensures |EncodeElements(V, w)| == |V| * w
  {
    if V != [] {
      EncodeElementsLength(V[..|V| - 1], w);
      MulLe(|V| - 1, |V| - 1, w);
    }
  }

  /** serialiseNumber{,16,32}Vector, -Set and -Deque: the count, then each element
      truncated to w bytes. */
  function EncodeVector(V: seq<nat>, w: nat): seq<byte>
    requires |V| < UINT64_LIMIT
  {
    Encode(|V|, 8) + EncodeElements(V, w)
  }

  /** Appending element i to the encoded prefix V[..i]. */
  lemma EncodeElementsStep(head: seq<byte>, V: seq<nat>, i: nat, w: nat, cur: seq<byte>)
    requires i < |V|
    requires cur == head + EncodeElements(V[..i], w)
    ensures cur + Encode(V[i] % Pow256(w), w) == head + EncodeElements(V[..i + 1], w)
  {
    assert V[..i + 1][..i] == V[..i];
    EncodeTruncate(V[i], w);
  }

  /** Only the k low bytes of n are written. */
  lemma EncodeTruncate(n: nat, k: nat)
    ensures Encode(n % Pow256(k), k) == Encode(n, k)
  {
    ValueOfEncode(n, k);
    EncodeOfValue(Encode(n, k));
  }

  lemma TruncatedFits(x: nat, w: nat)
    requires w <= 8
    ensures x % Pow256(w) < UINT64_LIMIT
  {
    Pow256Values();
    Pow256Monotone(w, 8);
  }

  /** serialiseNumber{,16,32}Vector(out, V): returns the number of bytes written. */
  method SerialiseNumberVector(out: seq<byte>, V: seq<nat>, w: nat) returns (out': seq<byte>, s: nat)
    requires w <= 8
    requires |V| < UINT64_LIMIT
    ensures out' == out + EncodeVector(V, w)
    ensures s == |EncodeVector(V, w)|
  {
    var written;
    out', written := SerialiseNumberK(out, |V|, 8);
    s := written;
    var i := 0;
    while i < |V|
      invariant 0 <= i <= |V|
      invariant out' == out + Encode(|V|, 8) + EncodeElements(V[..i], w)
      invariant s == |out'| - |out|
    {
      EncodeElementsStep(out + Encode(|V|, 8), V, i, w, out');
      TruncatedFits(V[i], w);
      out', written := SerialiseNumberK(out', V[i] % Pow256(w), w);
      s := s + written;
      i := i + 1;
    }
    assert V[..|V|] == V;
  }

  /** The element loop of deserialiseNumber{,16,32}Vector: count elements of w bytes each. */
  function DecodeElements(s: seq<byte>, count: nat, w: nat): (r: Result<Decoded<seq<nat>>>)
    ensures r.Ok? ==> |r.value.value| == count
  {
    if count == 0 then Ok(Decoded([], s))
    else
      match DecodeElements(s, count - 1, w)
      case Err(e) => Err(e)
      case Ok(d) =>
        if |d.rest| < w then Err(NUMBER_EOF)
        else Ok(Decoded(d.value + [Value(d.rest[..w])], d.rest[w..]))
  }

  /** count elements of w bytes, as a sum. */
  function Span(count: nat, w: nat): nat
  {
    if count == 0 then 0 else Span(count - 1, w) + w
  }

  lemma {:induction false} SpanIsProduct(count: nat, w: nat)
    ensures Span(count, w) == count * w
  {
    if count > 0 {
      SpanIsProduct(count - 1, w);
      MulLe(count - 1, count - 1, w);
    }
  }

  lemma {:induction false} DecodeElementsSpan(s: seq<byte>, count: nat, w: nat)
    ensures DecodeElements(s, count, w).Ok? <==> |s| >= Span(count, w)
    ensures DecodeElements(s, count, w).Ok? ==> DecodeElements(s, count, w).value.rest == s[Span(count, w)..]
  {
    if count > 0 {
      DecodeElementsSpan(s, count - 1, w);
      var r := DecodeElements(s, count - 1, w);
      if r.Ok? && |r.value.rest| >= w {
        assert r.value.rest[w..] == s[Span(count, w)..];
      }
    }
  }

  /** The element loop succeeds exactly when count * w bytes are available, and
      consumes exactly those. */
  lemma DecodeElementsLength(s: seq<byte>, count: nat, w: nat)
    ensures DecodeElements(s, count, w).Ok? <==> |s| >= count * w
    ensures DecodeElements(s, count, w).Ok? ==> DecodeElements(s, count, w).value.rest == s[count * w..]
  {
    DecodeElementsSpan(s, count, w);
    SpanIsProduct(count, w);
  }

  /** Once the element loop has failed, further elements do not change the error. */
  lemma {:induction false} DecodeElementsErr(s: seq<byte>, j: nat, n: nat, w: nat)
    requires j <= n && DecodeElements(s, j, w).Err?
    ensures DecodeElements(s, n, w) == DecodeElements(s, j, w)
  {
    if j < n {
      DecodeElementsErr(s, j, n - 1, w);
    }
  }

  /** deserialiseNumber{,16,32}Vector(in): the 8-byte count, then that many elements. */
  method DeserialiseNumberVector(s: seq<byte>, w: nat) returns (r: Result<Decoded<seq<nat>>>)
    requires 1 <= w <= 8
    ensures DeserialiseNumber(s).Err? ==> r == Err(DeserialiseNumber(s).msg)
    ensures DeserialiseNumber(s).Ok? ==> r == DecodeElements(DeserialiseNumber(s).value.rest, DeserialiseNumber(s).value.value, w)
  {
    var c := DeserialiseNumber(s);
    if c.Err? {
      return Err(c.msg);
    }
    var n := c.value.value;
    var V: seq<nat> := [];
    var rest := c.value.rest;
    var i := 0;
    while i < n
      invariant 0 <= i <= n
      invariant DecodeElements(c.value.rest, i, w) == Ok(Decoded(V, rest))
    {
      var e := DeserialiseNumberK(rest, w, w);
      if e.Err? {
        DecodeElementsShort(c.value.rest, i, w, V, rest);
        DecodeElementsErr(c.value.rest, i + 1, n, w);
        return Err(NUMBER_EOF);
      }
      DecodeElementsNext(c.value.rest, i, w, V, rest);
      V := V + [e.value.value];
      rest := e.value.rest;
      i := i + 1;
    }
    r := Ok(Decoded(V, rest));
  }

  lemma DecodeElementsShort(s: seq<byte>, i: nat, w: nat, V: seq<nat>, rest: seq<byte>)
    requires DecodeElements(s, i, w) == Ok(Decoded(V, rest)) && |rest| < w
    ensures DecodeElements(s, i + 1, w) == Err(NUMBER_EOF)
  {
  }

  lemma DecodeElementsNext(s: seq<byte>, i: nat, w: nat, V: seq<nat>, rest: seq<byte>)
    requires DecodeElements(s, i, w) == Ok(Decoded(V, rest)) && |rest| >= w
    ensures DecodeElements(s, i + 1, w) == Ok(Decoded(V + [Value(rest[..w]) % Pow256(w)], rest[w..]))
  {
    ValueBound(rest[..w]);
    ModSmall(Value(rest[..w]), Pow256(w));
  }

  lemma {:induction false} ElementsRoundTrip(V: seq<nat>, w: nat, rest: seq<byte>)
    requires forall i :: 0 <= i < |V| ==> V[i] < Pow256(w)
    ensures DecodeElements(EncodeElements(V, w) + rest, |V|, w) == Ok(Decoded(V, rest))
  {
    if V != [] {
      var p, x := V[..|V| - 1], V[|V| - 1];
      LastElement(V, w, rest);
      ElementsRoundTrip(p, w, Encode(x, w) + rest);
      EncodeRoundTrip(x, w);
      ElementsLast(EncodeElements(V, w) + rest, V, p, Encode(x, w), x, w, rest);
    } else {
      assert EncodeElements(V, w) + rest == rest;
    }
  }

  lemma LastElement(V: seq<nat>, w: nat, rest: seq<byte>)
    requires V != []
    ensures V == V[..|V| - 1] + [V[|V| - 1]]
    ensures EncodeElements(V, w) + rest == EncodeElements(V[..|V| - 1], w) + (Encode(V[|V| - 1], w) + rest)
  {
    var a, b := EncodeElements(V[..|V| - 1], w), Encode(V[|V| - 1], w);
    assert EncodeElements(V, w) == a + b;
    ConcatAssoc(a, b, rest);
  }

  lemma ConcatAssoc(a: seq<byte>, b: seq<byte>, c: seq<byte>)
    ensures a + b + c == a + (b + c)
  {
  }

  /** Decoding one more element after the prefix p. */
  lemma ElementsLast(s: seq<byte>, V: seq<nat>, p: seq<nat>, e: seq<byte>, x: nat, w: nat, rest: seq<byte>)
    requires V == p + [x]
    requires |e| == w && Value(e) == x && x < Pow256(w)
    requires DecodeElements(s, |p|, w) == Ok(Decoded(p, e + rest))
    ensures DecodeElements(s, |V|, w) == Ok(Decoded(V, rest))
  {
    assert (e + rest)[..w] == e && (e + rest)[w..] == rest;
    DecodeElementsNext(s, |p|, w, p, e + rest);
    ModSmall(x, Pow256(w));
  }

  /** deserialiseNumberVector restores the sequence serialiseNumberVector wrote. */
  lemma VectorRoundTrip(V: seq<nat>, w: nat, rest: seq<byte>)
    requires 1 <= w <= 8
    requires |V| < UINT64_LIMIT
    requires forall i :: 0 <= i < |V| ==> V[i] < Pow256(w)
    ensures DeserialiseNumber(EncodeVector(V, w) + rest).Ok?
    ensures DecodeElements(DeserialiseNumber(EncodeVector(V, w) + rest).value.rest,
                           DeserialiseNumber(EncodeVector(V, w) + rest).value.value, w)
            == Ok(Decoded(V, rest))
  {
    var tail := EncodeElements(V, w) + rest;
    assert EncodeVector(V, w) + rest == SerialiseNumber(|V|) + tail;
    NumberRoundTrip(|V|, tail);
    ElementsRoundTrip(V, w, rest);
  }

  /** deserialiseNumber{,16,32}Set(in): the elements read, as a set. */
  function DeserialiseNumberSet(s: seq<byte>, w: nat): (r: Result<Decoded<set<nat>>>)
    requires 1 <= w <= 8
    ensures r.Ok? <==> DeserialiseNumber(s).Ok? &&
                       DecodeElements(DeserialiseNumber(s).value.rest, DeserialiseNumber(s).value.value, w).Ok?
  {
    match DeserialiseNumber(s)
    case Err(e) => Err(e)
    case Ok(c) =>
      match DecodeElements(c.rest, c.value, w)
      case Err(e) => Err(e)
      case Ok(d) => Ok(Decoded((set x | x in d.value :: x), d.rest))
  }

  /** A std::set is written in ascending order; reading it back gives the same set. */
  lemma SetRoundTrip(S: seq<nat>, w: nat, rest: seq<byte>)
    requires 1 <= w <= 8
    requires |S| < UINT64_LIMIT
    requires forall i, j :: 0 <= i < j < |S| ==> S[i] < S[j]
    requires forall i :: 0 <= i < |S| ==> S[i] < Pow256(w)
    ensures DeserialiseNumberSet(EncodeVector(S, w) + rest, w) == Ok(Decoded((set x | x in S :: x), rest))
  {
    VectorRoundTrip(S, w, rest);
  }

  // ---------------------------------------------------------------------------
  // countBytes and the signed variable-width codec

  /** The minimal number of bytes that holds n. */
  function MinBytes(n: nat): nat
  {
    if n == 0 then 0 else 1 + MinBytes(n / 256)
  }

  lemma {:induction false} MinBytesBounds(n: nat)
    ensures n < Pow256(MinBytes(n))
    ensures n > 0 ==> Pow256(MinBytes(n) - 1) <= n
  {
    if n > 0 {
      MinBytesBounds(n / 256);
      if n / 256 > 0 {
        assert Pow256(MinBytes(n / 256) - 1) * 256 <= n / 256 * 256;
      }
    }
  }

  lemma {:induction false} MinBytesUnique(n: nat, c: nat)
    requires n < Pow256(c)
    requires n == 0 ==> c == 0
    requires n > 0 ==> c > 0 && Pow256(c - 1) <= n
    ensures c == MinBytes(n)
  {
    if n > 0 {
      assert c > 0;
      assert n / 256 < Pow256(c - 1);
      if n / 256 != 0 {
        assert c > 1;
        assert Pow256(c - 2) * 256 <= n;
        assert Pow256(c - 2) <= n / 256;
        MinBytesUnique(n / 256, c - 1);
      }
    }
  }

  lemma MinBytesAtMost8(n: nat)
    requires n < UINT64_LIMIT
    ensures MinBytes(n) <= 8
  {
    MinBytesBounds(n);
    Pow256Values();
    if MinBytes(n) > 8 {
      Pow256Monotone(8, MinBytes(n) - 1);
    }
  }

  /** countBytes(n): narrows n by 4, 2, 1 and 1 bytes, counting the bytes shifted out. */
  method CountBytes(n: nat) returns (c: nat)
    requires n < UINT64_LIMIT
    ensures c == MinBytes(n) && c <= 8
    ensures n < Pow256(c) && (n > 0 ==> Pow256(c - 1) <= n)
  {
    Pow256Values();
    c := 0;
    var x := n;
    if x > 0xFFFF_FFFF {
      c := c + 4;
      x := x / 0x1_0000_0000;
    }
    assert x <= 0xFFFF_FFFF && x == n / Pow256(c);
    if x > 0xFFFF {
      DivDiv(n, Pow256(c), Pow256(2));
      Pow256Add(c, 2);
      c := c + 2;
      x := x / 0x1_0000;
    }
    assert x <= 0xFFFF && x == n / Pow256(c);
    if x > 0xFF {
      DivDiv(n, Pow256(c), Pow256(1));
      Pow256Add(c, 1);
      c := c + 1;
      x := x / 0x100;
    }
    assert x <= 0xFF && x == n / Pow256(c);
    if x > 0 {
      assert Pow256(c) <= n;
      DivDiv(n, Pow256(c), Pow256(1));
      Pow256Add(c, 1);
      c := c + 1;
      x := x / 0x100;
    }
    assert x == 0 && x == n / Pow256(c);
    MinBytesUnique(n, c);
    MinBytesAtMost8(n);
  }

  /** The magnitude written for a negative number: its b-byte complement. */
  function Complement(n: nat, b: nat): nat
    requires n < Pow256(b)
  {
    Pow256(b) - 1 - n
  }

  /** The encoding serialiseSignedNumber writes for m: a flag byte holding the sign
      (0x80 set for m >= 0) and the byte length b (b itself for m >= 0, 8-b for
      m < 0), then b bytes of |m|, complemented within b bytes when m < 0. */
  function SignedEncoding(m: int): (r: seq<byte>)
    requires -(INT64_LIMIT as int) < m < INT64_LIMIT
    ensures |r| == 1 + MinBytes(if m < 0 then -m else m)
  {
    var n: nat := if m < 0 then -m else m;
    MinBytesAtMost8(n);
    MinBytesBounds(n);
    var b := MinBytes(n);
    if m < 0 then [(8 - b) as byte] + Encode(Complement(n, b), b)
    else [(0x80 + b) as byte] + Encode(n, b)
  }

  lemma SignedEncodingShape(m: int, n: nat, b: nat)
    requires -(INT64_LIMIT as int) < m < INT64_LIMIT
    requires n == (if m < 0 then -m else m) && b == MinBytes(n)
    ensures b <= 8 && n < Pow256(b)
    ensures m < 0 ==> SignedEncoding(m) == [(8 - b) as byte] + Encode(Complement(n, b), b)
    ensures m >= 0 ==> SignedEncoding(m) == [(0x80 + b) as byte] + Encode(n, b)
  {
    MinBytesAtMost8(n);
    MinBytesBounds(n);
  }

  /** serialiseSignedNumber(P, m): returns the number of bytes written. INT64_MIN,
      whose negation overflows, is excluded. */
  method SerialiseSignedNumber(out: seq<byte>, m: int) returns (out': seq<byte>, o: nat)
    requires -(INT64_LIMIT as int) < m < INT64_LIMIT
    ensures out' == out + SignedEncoding(m)
    ensures o == |SignedEncoding(m)|
  {
    var f: byte;
    var b: nat;
    var n: nat;
    if m < 0 {
      n := -m;
      b := CountBytes(n);
      SignedEncodingShape(m, n, b);
      f := (8 - b) as byte;
      n := Complement(n, b);
    } else {
      n := m;
      b := CountBytes(n);
      SignedEncodingShape(m, n, b);
      f := (0x80 + b) as byte;
    }
    Pow256Monotone(b, 8);
    Pow256Values();
    // the b bytes of n are written by the loop of serialiseNumber(out, n, b)
    var written;
    out', written := SerialiseNumberK(out + [f], n, b);
    ConcatAssoc(out, [f], Encode(n, b));
    o := 1 + written;
  }

  /** The byte at position i of the input as `get()` returns it: -1 at end of input. */
  function Get(s: seq<byte>, i: nat): int
  {
    if i < |s| then s[i] as int else -1
  }

  /** What deserialiseSignedNumber reads from s: the value and the number of get()
      calls. At end of input the flag byte reads as 0xFF and an accumulated byte
      sets all 64 bits (`n |= -1`); nothing is reported as an error. */
  datatype SignedRead = SignedRead(value: int, consumed: nat)

  /** The flag byte as a uint8_t. */
  function Flag(s: seq<byte>): nat
  {
    if |s| > 0 then s[0] as nat else 0xFF
  }

  /** The byte length the flag announces (`f & 0x7F` or `8 - (f & 0x7F)` as uint8_t). */
  function LengthOfFlag(f: nat): nat
  {
    if f >= 0x10 then f % 0x80 else (256 + 8 - f % 0x80) % 256
  }

  /** The 64-bit magnitude accumulated from the b bytes after the flag. */
  function Magnitude(s: seq<byte>, b: nat): (r: nat)
    ensures r < UINT64_LIMIT
  {
    Pow256Values();
    if b == 0 then 0
    else if 1 + b <= |s| then Value(s[1..1 + b]) % UINT64_LIMIT
    else UINT64_MAX
  }

  function SignedDecoding(s: seq<byte>): SignedRead
  {
    var f := Flag(s);
    var b := LengthOfFlag(f);
    var n := Magnitude(s, b);
    if f >= 0x10 then SignedRead(ToInt64(n), 1 + b)
    else
      var n' := if 1 <= b <= 8 then (Pow256(b) - 1 - n + UINT64_LIMIT) % UINT64_LIMIT else n;
      SignedRead(NegInt64(ToInt64(n')), 1 + b)
  }

  /** One more magnitude byte shifts the accumulator left by eight bits. */
  lemma MagnitudeStep(s: seq<byte>, ib: nat)
    requires 1 + ib < |s|
    ensures Magnitude(s, ib + 1) == (Magnitude(s, ib) * 256) % UINT64_LIMIT + s[1 + ib] as nat
  {
    Pow256Values();
    ShiftInByte(Value(s[1..1 + ib]), s[1 + ib] as nat, 8);
    assert s[1..1 + ib + 1] == s[1..1 + ib] + [s[1 + ib]];
    ValueSnoc(s[1..1 + ib], s[1 + ib]);
  }

  /** The accumulation loop of deserialiseSignedNumber: `n <<= 8; n |= G.get()`. */
  method AccumulateMagnitude(s: seq<byte>, b: nat) returns (n: nat)
    ensures n == Magnitude(s, b)
  {
    Pow256Values();
    n := 0;
    var ib := 0;
    while ib < b
      invariant 0 <= ib <= b
      invariant n == Magnitude(s, ib)
    {
      var c := Get(s, 1 + ib);
      if c < 0 {
        n := UINT64_MAX;
      } else {
        MagnitudeStep(s, ib);
        n := (n * 256) % UINT64_LIMIT + c;
      }
      ib := ib + 1;
    }
  }

  /** deserialiseSignedNumber(G). */
  method DeserialiseSignedNumber(s: seq<byte>) returns (m: int)
    ensures m == SignedDecoding(s).value
  {
    var f := Flag(s);
    var b: nat;
    if f >= 0x10 {
      b := f % 0x80;
    } else {
      b := (256 + 8 - f % 0x80) % 256;
    }
    var n := AccumulateMagnitude(s, b);
    if f >= 0x10 {
      m := ToInt64(n);
    } else {
      if 1 <= b <= 8 {
        n := (Pow256(b) - 1 - n + UINT64_LIMIT) % UINT64_LIMIT;
      }
      m := NegInt64(ToInt64(n));
    }
  }

  /** deserialiseSignedNumberCount(G, s): adds one to s for every get(). */
  method DeserialiseSignedNumberCount(input: seq<byte>, s: nat) returns (m: int, s': nat)
    ensures m == SignedDecoding(input).value
    ensures s' == s + SignedDecoding(input).consumed
  {
    var f := Flag(input);
    s' := s + 1;
    var b := LengthOfFlag(f);
    var n := AccumulateMagnitude(input, b);
    s' := s' + b;
    m := SignedDecoding(input).value;
  }

  /** The magnitude bytes written for a b-byte value read back as that value. */
  lemma MagnitudeOfEncoding(f: byte, x: nat, b: nat, rest: seq<byte>)
    requires b <= 8 && x < Pow256(b)
    ensures Magnitude([f] + Encode(x, b) + rest, b) == x
  {
    var s := [f] + Encode(x, b) + rest;
    if b > 0 {
      assert s[1..1 + b] == Encode(x, b);
      EncodeRoundTrip(x, b);
      Pow256Monotone(b, 8);
      Pow256Values();
      ModSmall(x, UINT64_LIMIT);
    }
  }

  /** What is read after a flag byte 0x80 + b and the magnitude n. */
  lemma NonNegativeDecoding(s: seq<byte>, b: nat, n: nat)
    requires b <= 8 && |s| > 0 && s[0] as nat == 0x80 + b
    requires Magnitude(s, b) == n && n < INT64_LIMIT
    ensures SignedDecoding(s) == SignedRead(n, 1 + b)
  {
    assert Flag(s) == 0x80 + b;
    assert LengthOfFlag(0x80 + b) == b;
  }

  /** What is read after a flag byte 8 - b and the complemented magnitude x of n. */
  lemma NegativeDecoding(s: seq<byte>, b: nat, x: nat, n: nat)
    requires 1 <= b <= 8 && |s| > 0 && s[0] as nat == 8 - b
    requires Magnitude(s, b) == x && x + n == Pow256(b) - 1 && 0 < n < INT64_LIMIT
    ensures SignedDecoding(s) == SignedRead(-(n as int), 1 + b)
  {
    assert Flag(s) == 8 - b;
    NegativeFlagLength(b);
    assert (Pow256(b) - 1 - x + UINT64_LIMIT) % UINT64_LIMIT == n by {
      DivisionUnique(n + UINT64_LIMIT, UINT64_LIMIT, 1, n);
    }
  }

  lemma NegativeFlagLength(b: nat)
    requires 1 <= b <= 8
    ensures LengthOfFlag(8 - b) == b
  {
  }

  lemma SignedRoundTripNonNegative(m: nat, rest: seq<byte>)
    requires m < INT64_LIMIT
    ensures SignedDecoding(SignedEncoding(m) + rest) == SignedRead(m, |SignedEncoding(m)|)
  {
    MinBytesAtMost8(m);
    MinBytesBounds(m);
    var b := MinBytes(m);
    var f := (0x80 + b) as byte;
    var s := SignedEncoding(m) + rest;
    assert s == [f] + Encode(m, b) + rest;
    MagnitudeOfEncoding(f, m, b, rest);
    NonNegativeDecoding(s, b, m);
  }

  lemma SignedRoundTripNegative(m: int, rest: seq<byte>)
    requires -(INT64_LIMIT as int) < m < 0
    ensures SignedDecoding(SignedEncoding(m) + rest) == SignedRead(m, |SignedEncoding(m)|)
  {
    var n: nat := -m;
    MinBytesAtMost8(n);
    MinBytesBounds(n);
    var b := MinBytes(n);
    var f := (8 - b) as byte;
    var x := Complement(n, b);
    var s := SignedEncoding(m) + rest;
    assert s == [f] + Encode(x, b) + rest;
    MagnitudeOfEncoding(f, x, b, rest);
    NegativeDecoding(s, b, x, n);
  }

  /** deserialiseSignedNumber inverts serialiseSignedNumber and reads exactly the
      bytes that were written. */
  lemma SignedRoundTrip(m: int, rest: seq<byte>)
    requires -(INT64_LIMIT as int) < m < INT64_LIMIT
    ensures SignedDecoding(SignedEncoding(m) + rest) == SignedRead(m, |SignedEncoding(m)|)
  {
    if m < 0 {
      SignedRoundTripNegative(m, rest);
    } else {
      SignedRoundTripNonNegative(m, rest);
    }
  }

  /** recodeSignedNumber(n): serialise, then deserialise. */
  method RecodeSignedNumber(n: int) returns (r: int)
    requires -(INT64_LIMIT as int) < n < INT64_LIMIT
    ensures r == n
  {
    var bytes, _ := SerialiseSignedNumber([], n);
    r := DeserialiseSignedNumber(bytes);
    SignedRoundTrip(n, []);
    assert bytes == SignedEncoding(n) + [];
  }
}
