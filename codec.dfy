/**
 * The field codec of UUID.js: `Number.prototype.toString(radix)`, the
 * zero-filling aligners `_hexAligner` / `_binAligner` (the same doubling
 * loop, in base 16 and base 2) and `parseInt(s, radix)`, which reads a field
 * string back.
 */
module Codec {
  import opened Arith

  /** The two radixes the library writes and reads: binary and hexadecimal. */
  predicate ValidRadix(b: nat) { b == 2 || b == 16 }

  /** The digit `toString(radix)` writes for a value below 16: 0-9, then lower-case a-f. */
  function DigitChar(d: nat): (c: char)
    requires d < 16
    ensures IsLowerHex(c)
  {
    if d < 10 then ('0' as int + d) as char else ('a' as int + d - 10) as char
  }

  /** A character of the canonical (lower-case) hexadecimal form. */
  predicate IsLowerHex(c: char)
  {
    '0' <= c <= '9' || 'a' <= c <= 'f'
  }

  /** The value `parseInt` gives a digit character, either case; 36 for a character that is no digit. */
  function DigitValue(c: char): nat
  {
    if '0' <= c <= '9' then (c - '0') as nat
    else if 'a' <= c <= 'z' then (c - 'a') as nat + 10
    else if 'A' <= c <= 'Z' then (c - 'A') as nat + 10
    else 36
  }

  /** ASCII lower-casing, as `toLowerCase` acts on the characters a UUID string may hold. */
  function LowerChar(c: char): char
  {
    if 'A' <= c <= 'Z' then (c - 'A' + 'a') as char else c
  }

  function Lower(s: string): (r: string)
    ensures |r| == |s| && forall i :: 0 <= i < |s| ==> r[i] == LowerChar(s[i])
  {
    seq(|s|, i requires 0 <= i < |s| => LowerChar(s[i]))
  }

  predicate AllDigits(s: string, b: nat)
  {
    forall i :: 0 <= i < |s| ==> DigitValue(s[i]) < b
  }

  lemma AllDigitsConcat(s: string, t: string, b: nat)
    requires AllDigits(s, b) && AllDigits(t, b)
    ensures AllDigits(s + t, b)
  {
    forall i | 0 <= i < |s + t|
      ensures DigitValue((s + t)[i]) < b
    {
      if i >= |s| {
        assert (s + t)[i] == t[i - |s|];
      }
    }
  }

  /** A digit written by `toString` reads back as itself, and lower-casing a digit gives its canonical character. */
  lemma DigitRoundTrip(d: nat, c: char)
    requires d < 16
    ensures DigitValue(DigitChar(d)) == d
    ensures DigitValue(c) < 16 ==> DigitChar(DigitValue(c)) == LowerChar(c)
  {
  }

  /** `n.toString(b)`: the shortest base-b numeral of n (a single "0" for zero). */
  function ToRadix(n: nat, b: nat): (s: string)
    requires ValidRadix(b)
    ensures |s| >= 1 && AllDigits(s, b)
    decreases n
  {
    if n < b then [DigitChar(n)] else ToRadix(n / b, b) + [DigitChar(n % b)]
  }

  /** k copies of "0". */
  function Zeros(k: nat): (z: string)
    ensures |z| == k
  {
    seq(k, _ => '0')
  }

  /** What both aligners return: the base-b digits of n left-padded with
      exactly `length - |digits|` zeros, or the digits alone when they are
      already at least `length` long (never truncated). */
  function ZeroFill(n: nat, b: nat, length: int): string
    requires ValidRadix(b)
  {
    var d := ToRadix(n, b);
    Zeros(if length > |d| then length - |d| else 0) + d
  }

  /** The k lowest base-b digits of n, most significant first. */
  function FixedDigits(n: nat, b: nat, k: nat): (s: string)
    requires ValidRadix(b)
    ensures |s| == k && AllDigits(s, b)
    ensures forall i :: 0 <= i < k ==> IsLowerHex(s[i])
  {
    if k == 0 then [] else FixedDigits(n / b, b, k - 1) + [DigitChar(n % b)]
  }

  /** `parseInt(s, b)` on a string made only of base-b digits: a numeral of
      |s| digits is below b^|s|. (`parseInt("")` is NaN; every string parsed
      here is a digit group of at least one character.) */
  function ParseRadix(s: string, b: nat): (r: nat)
    requires ValidRadix(b) && AllDigits(s, b)
    ensures r < Pow(b, |s|)
  {
    if s == [] then 0
    else
      var p := ParseRadix(s[..|s| - 1], b);
      MulMono(p, Pow(b, |s| - 1) - 1, b);
      p * b + DigitValue(s[|s| - 1])
  }

  /** The doubling zero-fill loop shared by `_hexAligner` and `_binAligner`:
      each set bit of the missing length prepends a block of 2^k zeros. */
  method Align(num: nat, length: int, radix: nat) returns (str: string)
    requires ValidRadix(radix)
    ensures str == ZeroFill(num, radix, length)
  {
    str := ToRadix(num, radix);
    ghost var digits := str;
    var i := length - |str|;
    var z := "0";
    ghost var pad := i;
    ghost var added: nat := 0;
    while i > 0
      invariant z == Zeros(|z|) && |z| >= 1
      invariant str == Zeros(added) + digits
      invariant pad <= 0 ==> i == pad && added == 0
      invariant pad > 0 ==> i >= 0 && added + i * |z| == pad
      decreases i
    {
      ghost var w := |z|;
      if i % 2 == 1 {
        str := z + str;
        added := added + w;
      }
      HalveStep(i, w);
      i := i / 2;
      z := z + z;
    }
  }

  /** One round of the doubling loop keeps `zeros added + i * |z|` constant. */
  lemma HalveStep(i: int, w: nat)
    requires i > 0
    ensures (if i % 2 == 1 then w else 0) + (i / 2) * (2 * w) == i * w
  {
    var h := i / 2;
    assert i == 2 * h + i % 2;
    assert i * w == (2 * h) * w + (i % 2) * w;
  }

  /** `_hexAligner(num, length)`. */
  method HexAligner(num: nat, length: int) returns (str: string)
    ensures str == ZeroFill(num, 16, length)
  {
    str := Align(num, length, 16);
  }

  /** `_binAligner(num, length)`. */
  method BinAligner(num: nat, length: int) returns (str: string)
    ensures str == ZeroFill(num, 2, length)
  {
    str := Align(num, length, 2);
  }

  /** The numeral of a value below b^k has at most k digits. */
  lemma {:induction false} ToRadixLength(n: nat, b: nat, k: nat)
    requires ValidRadix(b) && k >= 1 && n < Pow(b, k)
    ensures |ToRadix(n, b)| <= k
  {
    if n >= b {
      var q := ShiftDown(n, b, k);
      ToRadixLength(q, b, k - 1);
      ToRadixStep(n, b);
    }
  }

  /** Dropping the last digit of a value of at least two digits. */
  lemma ShiftDown(n: nat, b: nat, k: nat) returns (q: nat)
    requires ValidRadix(b) && k >= 1 && n < Pow(b, k) && n >= b
    ensures q == n / b && k >= 2 && q < Pow(b, k - 1)
  {
    assert Pow(b, 1) == b;
    var p := Pow(b, k - 1);
    assert Pow(b, k) == b * p;
    DivBound(n, b, p);
    q := n / b;
  }

  lemma ToRadixStep(n: nat, b: nat)
    requires ValidRadix(b) && n >= b
    ensures ToRadix(n, b) == ToRadix(n / b, b) + [DigitChar(n % b)]
  {
  }

  /** Zero-filling a value that fits in k digits gives exactly its k low digits. */
  lemma {:induction false} ZeroFillFixed(n: nat, b: nat, k: nat)
    requires ValidRadix(b) && k >= 1 && n < Pow(b, k)
    ensures ZeroFill(n, b, k) == FixedDigits(n, b, k)
  {
    if n < b {
      ZeroFillDigit(n, b, k);
    } else {
      var q := ShiftDown(n, b, k);
      ZeroFillFixed(q, b, k - 1);
      ZeroFillStep(n, b, k);
    }
  }

  /** A value below b has one digit. */
  lemma OneDigit(v: nat, b: nat)
    requires ValidRadix(b) && v < b
    ensures FixedDigits(v, b, 1) == [DigitChar(v)]
  {
    DivUnique(v, b, 0, v);
  }

  /** A single digit, zero-filled to k places. */
  lemma ZeroFillDigit(n: nat, b: nat, k: nat)
    requires ValidRadix(b) && k >= 1 && n < b
    ensures ZeroFill(n, b, k) == FixedDigits(n, b, k)
  {
    FixedStep(n, b, k);
    FixedZeros(b, k - 1);
    DivUnique(n, b, 0, n);
  }

  /** Zero-filling n to k places extends zero-filling n / b to k - 1 places by the last digit. */
  lemma ZeroFillStep(n: nat, b: nat, k: nat)
    requires ValidRadix(b) && k >= 2 && n >= b && n < Pow(b, k)
    requires ZeroFill(n / b, b, k - 1) == FixedDigits(n / b, b, k - 1)
    ensures ZeroFill(n, b, k) == FixedDigits(n, b, k)
  {
    var q := ShiftDown(n, b, k);
    ToRadixLength(q, b, k - 1);
    ToRadixStep(n, b);
    FixedStep(n, b, k);
    var d := ToRadix(q, b);
    assert ZeroFill(n, b, k) == Zeros(k - 1 - |d|) + d + [DigitChar(n % b)];
  }

  /** The digits of zero are zeros. */
  lemma {:induction false} FixedZeros(b: nat, k: nat)
    requires ValidRadix(b)
    ensures FixedDigits(0, b, k) == Zeros(k)
  {
    if k > 0 {
      FixedZeros(b, k - 1);
    }
  }

  /** Reading back the k digits of a value below b^k gives the value. */
  lemma {:induction false} ParseFixed(n: nat, b: nat, k: nat)
    requires ValidRadix(b) && n < Pow(b, k)
    ensures ParseRadix(FixedDigits(n, b, k), b) == n
  {
    if k > 0 {
      var hi := FixedDigits(n / b, b, k - 1);
      var d := n % b;
      FixedStep(n, b, k);
      ParseSnoc(hi, DigitChar(d), b);
      PowStep(b, k);
      DivBound(n, b, Pow(b, k - 1));
      ParseFixed(n / b, b, k - 1);
      DigitRoundTrip(d, ' ');
    }
  }

  lemma FixedStep(n: nat, b: nat, k: nat)
    requires ValidRadix(b) && k > 0
    ensures FixedDigits(n, b, k) == FixedDigits(n / b, b, k - 1) + [DigitChar(n % b)]
  {
  }

  lemma ParseSnoc(s: string, c: char, b: nat)
    requires ValidRadix(b) && AllDigits(s + [c], b)
    ensures AllDigits(s, b) && ParseRadix(s + [c], b) == ParseRadix(s, b) * b + DigitValue(c)
  {
    assert (s + [c])[..|s|] == s;
  }

  lemma PowStep(b: nat, k: nat)
    requires k > 0
    ensures Pow(b, k) == b * Pow(b, k - 1)
  {
  }

  /** Writing back what `parseInt` read gives the same digits in lower case. */
  lemma {:induction false} FixedParse(s: string, b: nat)
    requires ValidRadix(b) && AllDigits(s, b)
    ensures FixedDigits(ParseRadix(s, b), b, |s|) == Lower(s)
  {
    if s != [] {
      var k := |s|;
      var init, c := s[..k - 1], s[k - 1];
      assert s == init + [c];
      ParseSnoc(init, c, b);
      var p := ParseRadix(init, b);
      var v := DigitValue(c);
      var n := ParseRadix(s, b);
      DivUnique(n, b, p, v);
      calc {
        FixedDigits(n, b, k);
      == { FixedStep(n, b, k); }
        FixedDigits(p, b, k - 1) + [DigitChar(v)];
      == { FixedParse(init, b); DigitRoundTrip(0, c); }
        Lower(init) + [LowerChar(c)];
      == { LowerSnoc(init, c); }
        Lower(s);
      }
    }
  }

  lemma LowerSnoc(s: string, c: char)
    ensures Lower(s + [c]) == Lower(s) + [LowerChar(c)]
  {
  }

  /** The (j+m)-digit form of n is the j digits of hi = n / b^m followed by the m low digits of n. */
  lemma {:induction false} FixedSplit(n: nat, b: nat, j: nat, m: nat) returns (hi: nat)
    requires ValidRadix(b)
    ensures hi == n / Pow(b, m)
    ensures FixedDigits(n, b, j + m) == FixedDigits(hi, b, j) + FixedDigits(n, b, m)
  {
    if m == 0 {
      hi := n;
    } else {
      var q, r := n / b, n % b;
      var hq := FixedSplit(q, b, j, m - 1);
      hi := hq;
      DivPow(n, b, m);
      FixedStep(n, b, j + m);
      FixedStep(n, b, m);
      AssocSnoc(FixedDigits(hi, b, j), FixedDigits(q, b, m - 1), DigitChar(r));
    }
  }

  /** Dividing by b and then by b^(m-1) is dividing by b^m. */
  lemma DivPow(n: nat, b: nat, m: nat)
    requires b > 0 && m > 0
    ensures n / b / Pow(b, m - 1) == n / Pow(b, m)
  {
    PowStep(b, m);
    DivDiv(n, b, Pow(b, m - 1));
  }

  lemma AssocSnoc(x: string, y: string, c: char)
    ensures (x + y) + [c] == x + (y + [c])
  {
  }
}
