/** Formatted extraction of an unsigned 64-bit number from a character
    stream (`istr >> n` with `n` a uint64_t, in the "C" locale): skip
    white space, take an optional sign, then the longest run of decimal
    digits. No digit, or a value beyond 2^64 - 1, fails the stream; a
    minus sign negates modulo 2^64. The stream is the byte sequence it
    still holds; `rest` is what remains after the number. */
module StreamNumber {
  import opened Base
  import opened NumberSerialisation

  /** isspace in the "C" locale: blank, \t, \n, \v, \f and \r. */
  predicate IsSpace(b: byte)
  {
    b == 32 || 9 <= b <= 13
  }

  predicate IsDigit(b: byte)
  {
    48 <= b <= 57
  }

  /** What remains once leading white space is skipped. */
  function SkipSpace(s: seq<byte>): (r: seq<byte>)
    ensures |r| <= |s|
  {
    if |s| > 0 && IsSpace(s[0]) then SkipSpace(s[1..]) else s
  }

  /** SkipSpace drops exactly the white space s starts with. */
  lemma {:induction false} SkipSpaceSuffix(s: seq<byte>)
    ensures var r := SkipSpace(s);
            r == s[|s| - |r|..] && (|r| > 0 ==> !IsSpace(r[0])) &&
            forall i :: 0 <= i < |s| - |r| ==> IsSpace(s[i])
  {
    if |s| > 0 && IsSpace(s[0]) {
      SkipSpaceSuffix(s[1..]);
    }
  }

  predicate AllDigits(s: seq<byte>)
  {
    forall i :: 0 <= i < |s| ==> IsDigit(s[i])
  }

  /** The length of the run of digits s starts with. */
  function DigitRun(s: seq<byte>): (k: nat)
    ensures k <= |s|
  {
    if |s| > 0 && IsDigit(s[0]) then 1 + DigitRun(s[1..]) else 0
  }

  /** DigitRun counts the leading digits and stops at the first
      non-digit. */
  lemma {:induction false} DigitRunDigits(s: seq<byte>)
    ensures forall i :: 0 <= i < DigitRun(s) ==> IsDigit(s[i])
    ensures DigitRun(s) < |s| ==> !IsDigit(s[DigitRun(s)])
  {
    if |s| > 0 && IsDigit(s[0]) {
      DigitRunDigits(s[1..]);
    }
  }

  /** The number a run of decimal digits denotes. */
  function DigitsValue(d: seq<byte>): nat
    requires forall i :: 0 <= i < |d| ==> IsDigit(d[i])
  {
    if |d| == 0 then 0
    else
      var last := d[|d| - 1];
      assert IsDigit(last);
      DigitsValue(d[..|d| - 1]) * 10 + (last as int - 48)
  }

  /** `in >> n` for a uint64_t n. */
  function ExtractNumber(s: seq<byte>): (r: Result<Decoded<nat>>)
    ensures r.Ok? ==> r.value.value < UINT64_LIMIT && |r.value.rest| < |s|
  {
    var t := SkipSpace(s);
    var negative := |t| > 0 && t[0] == '-' as byte;
    var u := if |t| > 0 && (t[0] == '-' as byte || t[0] == '+' as byte) then t[1..] else t;
    var k := DigitRun(u);
    if k == 0 then Err("no digits")
    else
      DigitRunDigits(u);
      var v := DigitsValue(u[..k]);
      if v >= UINT64_LIMIT then Err("number out of range")
      else Ok(Decoded(if negative then (UINT64_LIMIT - v) % UINT64_LIMIT else v, u[k..]))
  }

  // -------------------------------------------------------------------------
  // Decimal rendering, the form `out << n` writes and extraction reads back

  function DigitByte(d: nat): (b: byte)
    requires d < 10
    ensures IsDigit(b) && b as int - 48 == d
  {
    (48 + d) as byte
  }

  function Decimal(n: nat): (r: seq<byte>)
    ensures |r| > 0 && forall i :: 0 <= i < |r| ==> IsDigit(r[i])
  {
    if n < 10 then [DigitByte(n)] else Decimal(n / 10) + [DigitByte(n % 10)]
  }

  lemma {:induction false} DecimalValue(n: nat)
    ensures DigitsValue(Decimal(n)) == n
  {
    if n >= 10 {
      DecimalValue(n / 10);
      assert Decimal(n)[..|Decimal(n)| - 1] == Decimal(n / 10);
    }
  }

  /** A decimal rendering followed by anything but a digit reads back as
      the number, leaving what follows it. */
  lemma ExtractDecimal(n: nat, rest: seq<byte>)
    requires n < UINT64_LIMIT
    requires |rest| > 0 ==> !IsDigit(rest[0])
    ensures ExtractNumber(Decimal(n) + rest) == Ok(Decoded(n, rest))
  {
    var d := Decimal(n);
    var s := d + rest;
    assert s[0] == d[0] && IsDigit(d[0]);
    assert SkipSpace(s) == s;
    DigitRunPrefix(d, rest);
    assert s[..|d|] == d && s[|d|..] == rest;
    DecimalValue(n);
  }

  /** After a minus sign the same rendering reads back negated modulo
      2^64. */
  lemma ExtractNegated(n: nat, rest: seq<byte>)
    requires n < UINT64_LIMIT
    requires |rest| > 0 ==> !IsDigit(rest[0])
    ensures ExtractNumber(['-' as byte] + Decimal(n) + rest) ==
            Ok(Decoded((UINT64_LIMIT - n) % UINT64_LIMIT, rest))
  {
    var d := Decimal(n);
    var s := ['-' as byte] + d + rest;
    assert SkipSpace(s) == s;
    assert s[1..] == d + rest;
    DigitRunPrefix(d, rest);
    assert (d + rest)[..|d|] == d && (d + rest)[|d|..] == rest;
    DecimalValue(n);
  }

  lemma {:induction false} DigitRunPrefix(d: seq<byte>, rest: seq<byte>)
    requires forall i :: 0 <= i < |d| ==> IsDigit(d[i])
    requires |rest| > 0 ==> !IsDigit(rest[0])
    ensures DigitRun(d + rest) == |d|
  {
    if |d| > 0 {
      assert (d + rest)[1..] == d[1..] + rest;
      DigitRunPrefix(d[1..], rest);
    } else {
      assert d + rest == rest;
    }
  }
}
