/**
 * Integer arithmetic shared by the codec, the random source and the
 * generators: powers, and the JavaScript bit operators the library applies
 * to non-negative integers (`>>>`, `|`; a mask `& (2^k - 1)` is `% 2^k`).
 */
module Arith {

  /** b^e. */
  function Pow(b: nat, e: nat): (r: nat)
    ensures b > 0 ==> r > 0
  {
    if e == 0 then 1 else b * Pow(b, e - 1)
  }

  function Pow2(e: nat): (r: nat)
    ensures r > 0
  {
    Pow(2, e)
  }

  lemma {:induction false} PowAdd(b: nat, m: nat, n: nat)
    ensures Pow(b, m + n) == Pow(b, m) * Pow(b, n)
  {
    if n > 0 {
      PowAdd(b, m, n - 1);
      calc {
        Pow(b, m + n);
        b * Pow(b, m + n - 1);
        b * (Pow(b, m) * Pow(b, n - 1));
        { MulAssoc(b, Pow(b, m), Pow(b, n - 1)); }
        Pow(b, m) * (b * Pow(b, n - 1));
      }
    }
  }

  /** The powers of two and sixteen the field layout, the random sources and
      the time fields use. */
  lemma PowValues()
    ensures Pow2(1) == 2 && Pow2(2) == 4 && Pow2(3) == 8 && Pow2(4) == 16
    ensures Pow2(6) == 64 && Pow2(8) == 0x100 && Pow2(12) == 0x1000
    ensures Pow2(14) == 0x4000 && Pow2(16) == 0x1_0000 && Pow2(20) == 0x10_0000 && Pow2(23) == 0x80_0000
    ensures Pow2(28) == 0x1000_0000 && Pow2(30) == 0x4000_0000 && Pow2(32) == 0x1_0000_0000
    ensures Pow2(53) == 0x20_0000_0000_0000
    ensures Pow2(40) == 0x100_0000_0000 && Pow2(48) == 0x1_0000_0000_0000
    ensures Pow2(60) == 0x1000_0000_0000_0000
    ensures Pow(16, 2) == 0x100 && Pow(16, 3) == 0x1000 && Pow(16, 4) == 0x1_0000
    ensures Pow(16, 8) == 0x1_0000_0000 && Pow(16, 12) == 0x1_0000_0000_0000
  {
    assert Pow2(8) == 0x100;
    PowAdd(2, 8, 4);
    PowAdd(2, 12, 2);
    PowAdd(2, 8, 8);
    PowAdd(2, 16, 12);
    PowAdd(2, 28, 2);
    PowAdd(2, 16, 16);
    PowAdd(2, 32, 8);
    PowAdd(2, 32, 16);
    PowAdd(2, 48, 12);
    PowAdd(2, 16, 4);
    PowAdd(2, 20, 3);
    PowAdd(2, 23, 30);
    assert Pow(16, 2) == 0x100;
    PowAdd(16, 2, 1);
    PowAdd(16, 2, 2);
    PowAdd(16, 4, 4);
    PowAdd(16, 8, 4);
  }

  lemma MulAssoc(a: int, b: int, c: int)
    ensures a * (b * c) == b * (a * c)
  {
  }

  lemma MulAssocLeft(a: int, b: int, c: int)
    ensures a * (b * c) == (a * b) * c
  {
  }

  lemma Distrib(a: int, x: int, y: int)
    ensures a * (x + y) == a * x + a * y
  {
  }

  /** Multiplication by a non-negative factor is monotone. */
  lemma MulMono(x: int, y: int, d: nat)
    ensures x <= y ==> x * d <= y * d
  {
  }

  /** The quotient is the unique q with n == d * q + r and 0 <= r < d. */
  lemma DivUnique(n: nat, d: nat, q: nat, r: nat)
    requires d > 0 && r < d && n == d * q + r
    ensures n / d == q && n % d == r
  {
    var q', r' := n / d, n % d;
    assert d * q' + r' == n;
    assert (q - q') * d == r' - r;
    MulMono(1, q - q', d);
    MulMono(q - q', -1, d);
  }

  /** A value below d1 * d2 has a quotient by d1 below d2. */
  lemma DivBound(n: nat, d1: nat, d2: nat)
    requires d1 > 0 && d2 > 0 && n < d1 * d2
    ensures n / d1 < d2
  {
    assert d1 * (n / d1) <= n;
    MulMono(d2, n / d1, d1);
  }

  /** Dividing twice is dividing by the product. */
  lemma DivDiv(n: nat, a: nat, b: nat)
    requires a > 0 && b > 0
    ensures n / a / b == n / (a * b)
  {
    var q, r := QuotRem(n, a);
    var q2, r2 := QuotRem(q, b);
    Distrib(a, b * q2, r2);
    MulAssocLeft(a, b, q2);
    assert n == (a * b) * q2 + (a * r2 + r);
    MulMono(r2, b - 1, a);
    Distrib(a, b - 1, 1);
    DivUnique(n, a * b, q2, a * r2 + r);
  }

  /** Taking the low bits in two steps. */
  lemma ModMod(n: nat, a: nat, b: nat)
    requires a > 0 && b > 0
    ensures n % (a * b) % a == n % a
  {
    var q, r := QuotRem(n, a * b);
    var q2, r2 := QuotRem(r, a);
    MulMono(0, q, b);
    var s: nat := b * q + q2;
    assert n == a * s + r2;
    DivUnique(n, a, s, r2);
  }

  /** Quotient and remainder of a non-negative integer by a positive one. */
  lemma QuotRem(n: nat, d: nat) returns (q: nat, r: nat)
    requires d > 0
    ensures q == n / d && r == n % d && n == d * q + r && r < d
  {
    q, r := n / d, n % d;
  }

  /** The low a*b part is the low a part plus a times the low b part of the quotient by a. */
  lemma ModSplit(n: nat, a: nat, b: nat)
    requires a > 0 && b > 0
    ensures n % (a * b) == n % a + a * (n / a % b)
  {
    var q, r := QuotRem(n, a * b);
    DivSplit(n, a, b, q, r);
    var q2, r2 := QuotRem(r, a);
    DivBound(r, a, b);
    ModMod(n, a, b);
    assert n / a == b * q + q2;
    DivUnique(n / a, b, q, q2);
  }

  /** The quotient by a of the low a*b part is the low b part of the quotient by a. */
  lemma ModDiv(n: nat, a: nat, b: nat)
    requires a > 0 && b > 0
    ensures n % (a * b) / a == n / a % b
  {
    var q, r := n / (a * b), n % (a * b);
    DivDiv(n, a, b);
    assert n / a / b == q;
    DivSplit(n, a, b, q, r);
  }

  lemma DivSplit(n: nat, a: nat, b: nat, q: nat, r: nat)
    requires a > 0 && b > 0 && r < a * b && n == (a * b) * q + r
    ensures n / a == b * q + r / a
  {
    var s := b * q + r / a;
    assert a * s == (a * b) * q + a * (r / a);
    assert n == a * s + r % a;
    DivUnique(n, a, s, r % a);
  }

  /** a shifted right by k bits: the quotient by 2^k. */
  function Shr(a: nat, k: nat): nat
  {
    a / Pow2(k)
  }

  /** Shifting k * 2^a right by a gives back k. */
  lemma ShrExact(k: nat, a: nat)
    ensures Shr(k * Pow2(a), a) == k
  {
    DivUnique(k * Pow2(a), Pow2(a), k, 0);
  }

  /** JavaScript `a >>> s` for a non-negative integer a: the operand is
      taken modulo 2^32 and the shift count modulo 32. */
  function UShr(a: nat, s: nat): nat
  {
    (a % 0x1_0000_0000) / Pow2(s % 32)
  }

  /** On a 32-bit operand and a shift count below 32, `>>>` is a plain shift. */
  lemma UShrSmall(a: nat, s: nat)
    requires a < 0x1_0000_0000 && s < 32
    ensures UShr(a, s) == Shr(a, s)
  {
  }

  /** Bitwise OR of two non-negative integers (JavaScript `|` on values below 2^31). */
  function Or(a: nat, b: nat): nat
  {
    if a == 0 then b
    else if b == 0 then a
    else 2 * Or(a / 2, b / 2) + (if a % 2 == 1 || b % 2 == 1 then 1 else 0)
  }

  /** OR-ing a value into bits that are zero is addition: `(k << m) | r == (k << m) + r` when r < 2^m. */
  lemma {:induction false} OrDisjoint(k: nat, m: nat, r: nat)
    requires r < Pow2(m)
    ensures Or(k * Pow2(m), r) == k * Pow2(m) + r
  {
    if m > 0 && k != 0 && r != 0 {
      var a := k * Pow2(m);
      assert Pow2(m) == 2 * Pow2(m - 1);
      assert a == 2 * (k * Pow2(m - 1));
      assert a / 2 == k * Pow2(m - 1) && a % 2 == 0;
      assert r / 2 < Pow2(m - 1);
      OrDisjoint(k, m - 1, r / 2);
    } else if m == 0 {
      assert r == 0;
    }
  }

  /** `|` is commutative. */
  lemma {:induction false} OrComm(a: nat, b: nat)
    ensures Or(a, b) == Or(b, a)
  {
    if a != 0 && b != 0 {
      OrComm(a / 2, b / 2);
    }
  }

  /** `a | 1` sets the lowest bit. */
  lemma OrOne(a: nat)
    ensures Or(a, 1) == a / 2 * 2 + 1
  {
    if a != 0 {
      assert Or(a / 2, 0) == a / 2;
    }
  }
}
