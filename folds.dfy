/** The loop shapes shared by the index readers and writers: a fallible
    step applied to the elements of a sequence in order (the first error
    stops it), and a counted decode loop over a byte stream. Their lemmas
    hold for any step, so they are proved once, here. */
module Folds {
  import opened Base
  import opened NumberSerialisation

  /** Apply f to the state and each element in turn; the first error is
      the result. */
  function FoldResult<S, X>(f: (S, X) -> Result<S>, s: S, xs: seq<X>): Result<S>
    decreases |xs|
  {
    if |xs| == 0 then Ok(s)
    else
      match f(s, xs[0])
      case Err(m) => Err(m)
      case Ok(s') => FoldResult(f, s', xs[1..])
  }

  /** When whether a step succeeds depends only on its element, the fold
      succeeds exactly when every element's step does. */
  lemma {:induction false} FoldOk<S, X>(f: (S, X) -> Result<S>, ok: X -> bool, s: S, xs: seq<X>)
    requires forall s', x :: f(s', x).Ok? <==> ok(x)
    ensures FoldResult(f, s, xs).Ok? <==> forall i :: 0 <= i < |xs| ==> ok(xs[i])
    decreases |xs|
  {
    if |xs| > 0 && f(s, xs[0]).Ok? {
      FoldOk(f, ok, f(s, xs[0]).value, xs[1..]);
      assert forall i :: 1 <= i < |xs| ==> xs[i] == xs[1..][i - 1];
    }
  }

  /** A property every successful step keeps holds of the fold's result. */
  lemma {:induction false} FoldInvariant<S, X>(f: (S, X) -> Result<S>, inv: S -> bool, s: S, xs: seq<X>)
    requires inv(s)
    requires forall s', x :: inv(s') && f(s', x).Ok? ==> inv(f(s', x).value)
    requires FoldResult(f, s, xs).Ok?
    ensures inv(FoldResult(f, s, xs).value)
    decreases |xs|
  {
    if |xs| > 0 {
      FoldInvariant(f, inv, f(s, xs[0]).value, xs[1..]);
    }
  }

  /** The concatenation of out(x) over the elements, in order. */
  function ConcatMap<X, E>(out: X -> seq<E>, xs: seq<X>): seq<E>
    decreases |xs|
  {
    if |xs| == 0 then [] else out(xs[0]) + ConcatMap(out, xs[1..])
  }

  /** When every step appends out(x) to the part proj of the state, the
      fold appends out of every element, in order. */
  lemma {:induction false} FoldAppends<S, X, E>(f: (S, X) -> Result<S>, proj: S -> seq<E>, out: X -> seq<E>, s: S, xs: seq<X>)
    requires forall s', x :: f(s', x).Ok? ==> proj(f(s', x).value) == proj(s') + out(x)
    requires FoldResult(f, s, xs).Ok?
    ensures proj(FoldResult(f, s, xs).value) == proj(s) + ConcatMap(out, xs)
    decreases |xs|
  {
    if |xs| > 0 {
      FoldAppends(f, proj, out, f(s, xs[0]).value, xs[1..]);
      assert proj(s) + out(xs[0]) + ConcatMap(out, xs[1..]) == proj(s) + ConcatMap(out, xs);
    }
  }

  // -------------------------------------------------------------------------
  // Counted decode loops

  /** Every element encoded, in order. */
  function EncodeAll<T>(enc: T --> seq<byte>, xs: seq<T>): seq<byte>
    requires forall i :: 0 <= i < |xs| ==> enc.requires(xs[i])
    decreases |xs|
  {
    if |xs| == 0 then [] else enc(xs[0]) + EncodeAll(enc, xs[1..])
  }

  /** Adding one element adds its encoding at the end. */
  lemma {:induction false} EncodeAllSnoc<T>(enc: T --> seq<byte>, xs: seq<T>, x: T)
    requires forall i :: 0 <= i < |xs| ==> enc.requires(xs[i])
    requires enc.requires(x)
    ensures forall i :: 0 <= i < |xs + [x]| ==> enc.requires((xs + [x])[i])
    ensures EncodeAll(enc, xs + [x]) == EncodeAll(enc, xs) + enc(x)
    decreases |xs|
  {
    if |xs| > 0 {
      assert (xs + [x])[1..] == xs[1..] + [x];
      EncodeAllSnoc(enc, xs[1..], x);
    } else {
      assert xs + [x] == [x];
    }
  }

  /** Append the encoding of every element, one element at a time. */
  method WriteAll<T>(out0: seq<byte>, enc: T --> seq<byte>, xs: seq<T>) returns (out: seq<byte>)
    requires forall i :: 0 <= i < |xs| ==> enc.requires(xs[i])
    ensures out == out0 + EncodeAll(enc, xs)
  {
    out := out0;
    for i := 0 to |xs|
      invariant out == out0 + EncodeAll(enc, xs[..i])
    {
      EncodeAllSnoc(enc, xs[..i], xs[i]);
      assert xs[..i + 1] == xs[..i] + [xs[i]];
      out := out + enc(xs[i]);
    }
    assert xs[..|xs|] == xs;
  }

  /** Decode n elements one after another, combining each into acc. */
  function DecodeFold<T, A>(dec: seq<byte> -> Result<Decoded<T>>, step: (A, T) -> A, acc: A, s: seq<byte>, n: nat): Result<Decoded<A>>
    decreases n
  {
    if n == 0 then Ok(Decoded(acc, s))
    else
      match dec(s)
      case Err(m) => Err(m)
      case Ok(d) => DecodeFold(dec, step, step(acc, d.value), d.rest, n - 1)
  }

  /** Decode n elements one at a time, combining each into the result. */
  method ReadAll<T, A>(dec: seq<byte> -> Result<Decoded<T>>, step: (A, T) -> A, acc0: A, s0: seq<byte>, n: nat)
    returns (r: Result<Decoded<A>>)
    ensures r == DecodeFold(dec, step, acc0, s0, n)
  {
    var acc := acc0;
    var s := s0;
    var i := 0;
    while i < n
      invariant i <= n
      invariant DecodeFold(dec, step, acc0, s0, n) == DecodeFold(dec, step, acc, s, n - i)
    {
      var d := dec(s);
      if d.Err? {
        return Err(d.msg);
      }
      acc := step(acc, d.value.value);
      s := d.value.rest;
      i := i + 1;
    }
    r := Ok(Decoded(acc, s));
  }

  /** acc combined with every element, in order. */
  function Steps<T, A>(step: (A, T) -> A, acc: A, xs: seq<T>): A
    decreases |xs|
  {
    if |xs| == 0 then acc else Steps(step, step(acc, xs[0]), xs[1..])
  }

  /** When dec reads back what enc writes, the decode loop reads back every
      element of an encoded sequence and leaves what follows. */
  lemma {:induction false} DecodeEncodeAll<T, A>(enc: T --> seq<byte>, dec: seq<byte> -> Result<Decoded<T>>,
                                                step: (A, T) -> A, acc: A, xs: seq<T>, rest: seq<byte>)
    requires forall i :: 0 <= i < |xs| ==> enc.requires(xs[i])
    requires forall i, r :: 0 <= i < |xs| ==> dec(enc(xs[i]) + r) == Ok(Decoded(xs[i], r))
    ensures DecodeFold(dec, step, acc, EncodeAll(enc, xs) + rest, |xs|) == Ok(Decoded(Steps(step, acc, xs), rest))
    decreases |xs|
  {
    if |xs| == 0 {
      assert EncodeAll(enc, xs) + rest == rest;
    } else {
      var tail := EncodeAll(enc, xs[1..]) + rest;
      assert EncodeAll(enc, xs) + rest == enc(xs[0]) + tail;
      assert dec(enc(xs[0]) + tail) == Ok(Decoded(xs[0], tail));
      forall i, r | 0 <= i < |xs[1..]|
        ensures dec(enc(xs[1..][i]) + r) == Ok(Decoded(xs[1..][i], r))
      {
        assert xs[1..][i] == xs[i + 1];
      }
      DecodeEncodeAll(enc, dec, step, step(acc, xs[0]), xs[1..], rest);
    }
  }

  /** A container written as its element count, as a number, then its
      elements. */
  function EncodeCounted<T>(enc: T --> seq<byte>, xs: seq<T>): seq<byte>
    requires |xs| < UINT64_LIMIT
    requires forall i :: 0 <= i < |xs| ==> enc.requires(xs[i])
  {
    SerialiseNumber(|xs|) + EncodeAll(enc, xs)
  }

  /** Read an element count, then that many elements. */
  function DecodeCounted<T, A>(dec: seq<byte> -> Result<Decoded<T>>, step: (A, T) -> A, acc: A, s: seq<byte>): Result<Decoded<A>>
  {
    match DeserialiseNumber(s)
    case Err(m) => Err(m)
    case Ok(n) => DecodeFold(dec, step, acc, n.rest, n.value)
  }

  /** A counted container reads back as every element combined in order. */
  lemma DecodeEncodeCounted<T, A>(enc: T --> seq<byte>, dec: seq<byte> -> Result<Decoded<T>>,
                                  step: (A, T) -> A, acc: A, xs: seq<T>, rest: seq<byte>)
    requires |xs| < UINT64_LIMIT
    requires forall i :: 0 <= i < |xs| ==> enc.requires(xs[i])
    requires forall i, r :: 0 <= i < |xs| ==> dec(enc(xs[i]) + r) == Ok(Decoded(xs[i], r))
    ensures DecodeCounted(dec, step, acc, EncodeCounted(enc, xs) + rest) == Ok(Decoded(Steps(step, acc, xs), rest))
  {
    var count := SerialiseNumber(|xs|);
    var all := EncodeAll(enc, xs);
    var body := all + rest;
    assert EncodeCounted(enc, xs) == count + all;
    ConcatAssoc(count, all, rest);
    NumberRoundTrip(|xs|, body);
    DecodeEncodeAll(enc, dec, step, acc, xs, rest);
  }

  function Snoc<T>(a: seq<T>, x: T): seq<T>
  {
    a + [x]
  }

  /** Combining by appending appends the elements. */
  lemma {:induction false} StepsSnoc<T>(acc: seq<T>, xs: seq<T>)
    ensures Steps(Snoc, acc, xs) == acc + xs
    decreases |xs|
  {
    if |xs| == 0 {
      assert acc + xs == acc;
    } else {
      StepsSnoc(acc + [xs[0]], xs[1..]);
      assert acc + [xs[0]] + xs[1..] == acc + xs;
    }
  }
}
