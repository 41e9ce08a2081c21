/** Shared vocabulary of the model: bytes, fixed-width integer bounds,
    optional and fallible results, and the few facts about powers and
    integer division that the codecs rely on. */
module Base {

  /** One byte of a stream (a C++ `unsigned char`). */
  newtype byte = x: int | 0 <= x < 256

  const UINT64_LIMIT: nat := 0x1_0000_0000_0000_0000
  const UINT64_MAX: nat := 0xFFFF_FFFF_FFFF_FFFF
  const INT64_LIMIT: nat := 0x8000_0000_0000_0000

  datatype Option<T> = None | Some(value: T)

  /** The outcome of an operation that throws a LibMausException on failure. */
  datatype Result<T> = Ok(value: T) | Err(msg: string)

  /** The first position of b in s. */
  function FirstIndex(s: seq<byte>, b: byte): (i: nat)
    requires b in s
    ensures i < |s| && s[i] == b && forall k :: 0 <= k < i ==> s[k] != b
  {
    if s[0] == b then 0 else 1 + FirstIndex(s[1..], b)
  }

  /** 256 to the power k. */
  function Pow256(k: nat): (r: nat)
    ensures r >= 1
  {
    if k == 0 then 1 else 256 * Pow256(k - 1)
  }

  /** 2 to the power k. */
  function Pow2(k: nat): (r: nat)
    ensures r >= 1
  {
    if k == 0 then 1 else 2 * Pow2(k - 1)
  }

  lemma {:induction false} Pow256Add(a: nat, b: nat)
    ensures Pow256(a + b) == Pow256(a) * Pow256(b)
  {
    if a > 0 {
      Pow256Add(a - 1, b);
      assert Pow256(a + b) == 256 * Pow256(a - 1 + b);
    }
  }

  lemma {:induction false} Pow256Monotone(a: nat, b: nat)
    requires a <= b
    ensures Pow256(a) <= Pow256(b)
  {
    if a < b {
      Pow256Monotone(a, b - 1);
    }
  }

  lemma Pow256Values()
    ensures Pow256(1) == 0x100 && Pow256(2) == 0x1_0000 && Pow256(3) == 0x100_0000
    ensures Pow256(4) == 0x1_0000_0000 && Pow256(5) == 0x100_0000_0000
    ensures Pow256(6) == 0x1_0000_0000_0000 && Pow256(7) == 0x100_0000_0000_0000
    ensures Pow256(8) == UINT64_LIMIT
  {
  }

  /** The 64-bit conversion of an unsigned value to `int64_t` (two's complement). */
  function ToInt64(n: nat): (r: int)
    requires n < UINT64_LIMIT
    ensures -(INT64_LIMIT as int) <= r < INT64_LIMIT
    ensures (r + UINT64_LIMIT) % UINT64_LIMIT == n
  {
    if n >= INT64_LIMIT then n - UINT64_LIMIT else n
  }

  /** Negation of an `int64_t`, which leaves INT64_MIN unchanged. */
  function NegInt64(x: int): (r: int)
    requires -(INT64_LIMIT as int) <= x < INT64_LIMIT
    ensures -(INT64_LIMIT as int) <= r < INT64_LIMIT
    ensures x != -(INT64_LIMIT as int) ==> r == -x
  {
    if x == -(INT64_LIMIT as int) then x else -x
  }

  lemma DivisionUnique(n: nat, d: nat, q: nat, r: nat)
    requires d > 0 && r < d && n == q * d + r
    ensures n / d == q && n % d == r
  {
    var q', r' := n / d, n % d;
    assert n == q' * d + r';
    if q' > q {
      MulLe(q + 1, q', d);
      assert false;
    } else if q' < q {
      MulLe(q' + 1, q, d);
      assert false;
    }
  }

  lemma ModSmall(x: nat, m: nat)
    requires x < m
    ensures x % m == x && x / m == 0
  {
    DivisionUnique(x, m, 0, x);
  }

  lemma MulLe(a: nat, b: nat, c: nat)
    requires a <= b
    ensures a * c <= b * c && (a + 1) * c == a * c + c
  {
  }

  lemma MulFacts(x: nat, y: nat, z: nat)
    ensures (x + y) * z == x * z + y * z
    ensures x * (y * z) == (x * z) * y
  {
  }

  lemma DivMod(n: nat, d: nat)
    requires d > 0
    ensures n == (n / d) * d + n % d && n % d < d
  {
  }

  lemma Recombine(q: nat, b: nat, d: nat, a: nat, r: nat)
    ensures (q * b + d) * a + r == q * (a * b) + (d * a + r)
  {
    MulFacts(q * b, d, a);
    MulFacts(q, a, b);
  }

  lemma DigitBound(d: nat, b: nat, a: nat, r: nat)
    requires d < b && r < a
    ensures d * a + r < a * b
  {
    MulLe(d, b - 1, a);
    MulFacts(b - 1, 1, a);
  }

  /** Dividing by a * b is dividing by a, then by b; the remainder is the
      next digit base a followed by the remainder modulo a. */
  lemma DivModSplit(n: nat, a: nat, b: nat)
    requires a > 0 && b > 0
    ensures n / a / b == n / (a * b)
    ensures (n / a % b) * a + n % a == n % (a * b)
  {
    var p, r0 := n / a, n % a;
    DivMod(n, a);
    var q, r1 := p / b, p % b;
    DivMod(p, b);
    Recombine(q, b, r1, a, r0);
    DigitBound(r1, b, a, r0);
    DivisionUnique(n, a * b, q, r1 * a + r0);
  }

  /** Shifting right by a then by b bits is shifting by a + b bits. */
  lemma DivDiv(n: nat, a: nat, b: nat)
    requires a > 0 && b > 0
    ensures n / a / b == n / (a * b)
  {
    DivModSplit(n, a, b);
  }

  /** Taking the low a*b part of n is taking the low a part plus the next digit. */
  lemma ModSplit(n: nat, a: nat, b: nat)
    requires a > 0 && b > 0
    ensures (n / a % b) * a + n % a == n % (a * b)
  {
    DivModSplit(n, a, b);
  }

  /** Adding a multiple of m does not change the remainder modulo m. */
  lemma ModAddMultiple(a: nat, k: nat, m: nat)
    requires m > 0
    ensures (a + k * m) % m == a % m
  {
    DivMod(a, m);
    MulFacts(a / m, k, m);
    DivisionUnique(a + k * m, m, a / m + k, a % m);
  }
}
