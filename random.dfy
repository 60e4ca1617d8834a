/**
 * `UUID._getRandomInt(x)`: an unsigned x-bit random integer, from one of two
 * sources. The random draws are parameters: a `Math.random()` result is a
 * multiple of 2^-53 in [0, 1), written here as its numerator m < 2^53, and
 * `crypto.getRandomValues` fills 32-bit words w < 2^32. Both sources return
 * `NaN` (here `None`) for x outside 0..53.
 */
module Random {
  import opened Arith
  import opened Uuid

  /** `Math.random()` as the integer m with `Math.random() == m / 2^53`. */
  predicate IsMathDraw(m: nat)
  {
    m < 0x20_0000_0000_0000
  }

  /** A 32-bit word from a `Uint32Array`. */
  predicate IsWord(w: nat)
  {
    w < 0x1_0000_0000
  }

  /** The `Math.random()` source. `0 | Math.random() * 2^30` is the top 30
      bits of the first draw (the product by a power of two is exact), and
      `0 | Math.random() * (1 << (x - 30))` the top x - 30 bits of the second. */
  function MathRandomInt(x: int, m1: nat, m2: nat): (r: Option<nat>)
    requires IsMathDraw(m1) && IsMathDraw(m2)
    ensures r.None? <==> x < 0 || x > 53
  {
    if x < 0 || x > 53 then None
    else
      var n := Shr(m1, 23);
      if x > 30 then Some(n + Shr(m2, 83 - x) * 0x4000_0000)
      else Some(UShr(n, 30 - x))
  }

  /** The Web Cryptography source as written: one word for x <= 32, two
      words for x > 32. */
  function CryptoRandomIntAsWritten(x: int, w0: nat, w1: nat): (r: Option<nat>)
    requires IsWord(w0) && IsWord(w1)
    ensures r.None? <==> x < 0 || x > 53
  {
    if x < 0 || x > 53 then None
    else if x > 32 then Some(w0 + UShr(w1, 64 - x) * 0x1_0000_0000)
    else Some(UShr(w0, 32 - x))
  }

  /** The Web Cryptography source with x == 0 answered by 0, as the
      documented range `0 <= f(x) < 2^x` requires. */
  function CryptoRandomInt(x: int, w0: nat, w1: nat): (r: Option<nat>)
    requires IsWord(w0) && IsWord(w1)
    ensures r.None? <==> x < 0 || x > 53
  {
    if x == 0 then Some(0) else CryptoRandomIntAsWritten(x, w0, w1)
  }

  // Splitting powers of two

  lemma PowSplit(a: nat, b: nat)
    ensures Pow2(a + b) == Pow2(a) * Pow2(b)
  {
    PowAdd(2, a, b);
  }

  /** n < 2^(a + b) shifted right by a is below 2^b. */
  lemma ShiftBound(n: nat, a: nat, b: nat)
    requires n < Pow2(a + b)
    ensures Shr(n, a) < Pow2(b)
  {
    PowSplit(a, b);
    DivBound(n, Pow2(a), Pow2(b));
  }

  /** hi * 2^a + lo with hi < 2^b and lo < 2^a is below 2^(a + b). */
  lemma JoinBound(hi: nat, lo: nat, a: nat, b: nat)
    requires hi < Pow2(b) && lo < Pow2(a)
    ensures lo + hi * Pow2(a) < Pow2(a + b)
  {
    PowSplit(a, b);
    MulMono(hi, Pow2(b) - 1, Pow2(a));
  }

  // Math.random()

  /** The first draw's top 30 bits. */
  lemma MathHigh30(m1: nat)
    requires IsMathDraw(m1)
    ensures Shr(m1, 23) < 0x4000_0000
  {
    PowValues();
    ShiftBound(m1, 23, 30);
  }

  /** Every result of the `Math.random()` source is an x-bit integer. */
  lemma MathRandomBound(x: int, m1: nat, m2: nat)
    requires IsMathDraw(m1) && IsMathDraw(m2) && 0 <= x <= 53
    ensures MathRandomInt(x, m1, m2).value < Pow2(x)
  {
    MathHigh30(m1);
    if x > 30 {
      MathWideBound(x, m1, m2);
    } else {
      MathNarrowBound(x, m1);
    }
  }

  lemma MathWideBound(x: nat, m1: nat, m2: nat)
    requires IsMathDraw(m1) && IsMathDraw(m2) && 30 < x <= 53
    ensures Shr(m1, 23) + Shr(m2, 83 - x) * 0x4000_0000 < Pow2(x)
  {
    PowValues();
    MathHigh30(m1);
    ShiftBound(m2, 83 - x, x - 30);
    JoinBound(Shr(m2, 83 - x), Shr(m1, 23), 30, x - 30);
  }

  lemma MathNarrowBound(x: nat, m1: nat)
    requires IsMathDraw(m1) && x <= 30
    ensures UShr(Shr(m1, 23), 30 - x) < Pow2(x)
  {
    var n := Shr(m1, 23);
    MathHigh30(m1);
    PowValues();
    UShrSmall(n, 30 - x);
    ShiftBound(n, 30 - x, x);
  }

  /** Every x-bit integer is a possible result of the `Math.random()` source:
      the draws below produce it. */
  lemma MathRandomOnto(x: int, v: nat) returns (m1: nat, m2: nat)
    requires 0 <= x <= 53 && v < Pow2(x)
    ensures IsMathDraw(m1) && IsMathDraw(m2) && MathRandomInt(x, m1, m2) == Some(v)
  {
    PowValues();
    if x > 30 {
      m1, m2 := MathWideOnto(x, v);
    } else {
      m1 := MathNarrowOnto(x, v);
      m2 := 0;
    }
  }

  lemma MathWideOnto(x: nat, v: nat) returns (m1: nat, m2: nat)
    requires 30 < x <= 53 && v < Pow2(x)
    ensures IsMathDraw(m1) && IsMathDraw(m2)
    ensures Shr(m1, 23) + Shr(m2, 83 - x) * 0x4000_0000 == v
  {
    PowValues();
    var hi, lo := QuotRem(v, Pow2(30));
    ShiftBound(v, 30, x - 30);
    m1 := lo * Pow2(23);
    m2 := hi * Pow2(83 - x);
    JoinBound(lo, 0, 23, 30);
    JoinBound(hi, 0, 83 - x, x - 30);
    ShrExact(lo, 23);
    ShrExact(hi, 83 - x);
  }

  lemma MathNarrowOnto(x: nat, v: nat) returns (m1: nat)
    requires x <= 30 && v < Pow2(x)
    ensures IsMathDraw(m1) && UShr(Shr(m1, 23), 30 - x) == v
  {
    PowValues();
    var n := v * Pow2(30 - x);
    JoinBound(v, 0, 30 - x, x);
    m1 := n * Pow2(23);
    JoinBound(n, 0, 23, 30);
    ShrExact(n, 23);
    UShrSmall(n, 30 - x);
    ShrExact(v, 30 - x);
  }

  // Web Cryptography

  /** For 1 <= x <= 53 the source as written returns an x-bit integer. */
  lemma CryptoRandomBound(x: int, w0: nat, w1: nat)
    requires IsWord(w0) && IsWord(w1) && 1 <= x <= 53
    ensures CryptoRandomIntAsWritten(x, w0, w1).value < Pow2(x)
  {
    if x > 32 {
      CryptoWideBound(x, w0, w1);
    } else {
      CryptoNarrowBound(x, w0);
    }
  }

  lemma CryptoWideBound(x: nat, w0: nat, w1: nat)
    requires IsWord(w0) && IsWord(w1) && 32 < x <= 53
    ensures w0 + UShr(w1, 64 - x) * 0x1_0000_0000 < Pow2(x)
  {
    PowValues();
    assert w1 < Pow2((64 - x) + (x - 32));
    ShiftBound(w1, 64 - x, x - 32);
    UShrSmall(w1, 64 - x);
    JoinBound(UShr(w1, 64 - x), w0, 32, x - 32);
  }

  lemma CryptoNarrowBound(x: nat, w0: nat)
    requires IsWord(w0) && 0 < x <= 32
    ensures UShr(w0, 32 - x) < Pow2(x)
  {
    PowValues();
    assert w0 < Pow2((32 - x) + x);
    ShiftBound(w0, 32 - x, x);
    UShrSmall(w0, 32 - x);
  }

  /** `_getRandomInt(0)` can return 1: `ns[0] >>> 32` shifts by 32 mod 32,
      that is by nothing, so the whole 32-bit word comes back. */
  lemma CryptoZeroBits()
    ensures CryptoRandomIntAsWritten(0, 1, 0) == Some(1) && 1 >= Pow2(0)
  {
    assert Pow2(0) == 1;
  }

  /** The corrected source returns an x-bit integer for every x in 0..53,
      and agrees with the source as written for x != 0. */
  lemma CryptoRandomCorrect(x: int, w0: nat, w1: nat)
    requires IsWord(w0) && IsWord(w1)
    ensures 0 <= x <= 53 ==> CryptoRandomInt(x, w0, w1).value < Pow2(x)
    ensures x != 0 ==> CryptoRandomInt(x, w0, w1) == CryptoRandomIntAsWritten(x, w0, w1)
  {
    if 1 <= x <= 53 {
      CryptoRandomBound(x, w0, w1);
    }
  }

  /** Every x-bit integer is a possible result of the corrected source. */
  lemma CryptoRandomOnto(x: int, v: nat) returns (w0: nat, w1: nat)
    requires 0 <= x <= 53 && v < Pow2(x)
    ensures IsWord(w0) && IsWord(w1) && CryptoRandomInt(x, w0, w1) == Some(v)
  {
    if x > 32 {
      w0, w1 := CryptoWideOnto(x, v);
    } else if x == 0 {
      w0, w1 := 0, 0;
    } else {
      w0 := CryptoNarrowOnto(x, v);
      w1 := 0;
    }
  }

  lemma CryptoWideOnto(x: nat, v: nat) returns (w0: nat, w1: nat)
    requires 32 < x <= 53 && v < Pow2(x)
    ensures IsWord(w0) && IsWord(w1) && w0 + UShr(w1, 64 - x) * 0x1_0000_0000 == v
  {
    PowValues();
    var hi, lo := QuotRem(v, Pow2(32));
    ShiftBound(v, 32, x - 32);
    w0 := lo;
    w1 := hi * Pow2(64 - x);
    JoinBound(hi, 0, 64 - x, x - 32);
    ShrExact(hi, 64 - x);
    UShrSmall(w1, 64 - x);
  }

  lemma CryptoNarrowOnto(x: nat, v: nat) returns (w0: nat)
    requires 0 < x <= 32 && v < Pow2(x)
    ensures IsWord(w0) && UShr(w0, 32 - x) == v
  {
    PowValues();
    w0 := v * Pow2(32 - x);
    JoinBound(v, 0, 32 - x, x);
    ShrExact(v, 32 - x);
    UShrSmall(w0, 32 - x);
  }
}
