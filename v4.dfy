/**
 * Version 4 (random) UUIDs: `UUID.genV4()` builds a UUID object from random
 * field values with the version and variant bits set, and `UUID.generate()`
 * produces the same text directly. The random integers `_getRandomInt(k)`
 * supplies are parameters, each below 2^k.
 */
module V4 {
  import opened Arith
  import opened Codec
  import opened Uuid

  /** `UUID.genV4()`: `0x4000 | rand(12)` sets version 4 and `0x80 | rand(6)`
      the variant bits `10`. The fields are within their widths and carry the
      random bits unchanged. */
  function GenV4(r32: nat, r16: nat, r12: nat, r6: nat, r8: nat, r48: nat): (u: Uuid)
    requires r32 < 0x1_0000_0000 && r16 < 0x1_0000 && r12 < 0x1000
    requires r6 < 0x40 && r8 < 0x100 && r48 < 0x1_0000_0000_0000
    ensures InWidths(u.intFields) && u.intFields == [r32, r16, 0x4000 + r12, 0x80 + r6, r8, r48]
    ensures u.version == 4 && u.intFields[3] / 0x40 == 2
  {
    SetBits(r12, r6);
    FromFields([r32, r16, Or(0x4000, r12), Or(0x80, r6), r8, r48])
  }

  /** The text of a version 4 UUID reads `4` at position 14 and one of `8`,
      `9`, `a`, `b` at position 19. */
  lemma GenV4Layout(r32: nat, r16: nat, r12: nat, r6: nat, r8: nat, r48: nat)
    requires r32 < 0x1_0000_0000 && r16 < 0x1_0000 && r12 < 0x1000
    requires r6 < 0x40 && r8 < 0x100 && r48 < 0x1_0000_0000_0000
    ensures var u := GenV4(r32, r16, r12, r6, r8, r48);
      u.hexString[14] == '4' && u.hexString[19] in "89ab"
  {
    var f := [r32, r16, 0x4000 + r12, 0x80 + r6, r8, r48];
    assert GenV4(r32, r16, r12, r6, r8, r48) == FromFields(f);
    VersionDigit(f);
    VariantDigit(f);
    assert DigitChar(4) == '4';
  }

  /** `0x4000 | r` and `0x80 | r` add the constant when r fits below it. */
  lemma SetBits(r12: nat, r6: nat)
    requires r12 < 0x1000 && r6 < 0x40
    ensures Or(0x4000, r12) == 0x4000 + r12 && Or(0x80, r6) == 0x80 + r6
  {
    assert Pow2(12) == 0x1000 && Pow2(6) == 0x40;
    OrDisjoint(4, 12, r12);
    OrDisjoint(2, 6, r6);
  }

  /** The digit at position 19 is the top hexadecimal digit of `clockSeqHiAndReserved`. */
  lemma VariantDigit(f: seq<nat>)
    requires InWidths(f) && 0x80 <= f[3] < 0xC0
    ensures FromFields(f).hexString[19] in "89ab"
  {
    HexFieldsShape(f);
    FieldDigits(f, 3);
    TwoDigits(f[3]);
    DelimitAt19(HexFields(f));
    VariantNibble(f[3]);
  }

  lemma DelimitAt19(h: seq<string>)
    requires |h| == 6 && |h[0]| == 8 && |h[1]| == 4 && |h[2]| == 4 && |h[3]| == 2
    ensures Delimit(h)[19] == h[3][0]
  {
  }

  lemma VariantNibble(n: nat)
    requires 0x80 <= n < 0xC0
    ensures DigitChar(n / 16 % 16) in "89ab"
  {
    var d := n / 16 % 16;
    assert 8 <= d < 12;
    assert DigitChar(8) == '8' && DigitChar(9) == '9' && DigitChar(10) == 'a' && DigitChar(11) == 'b';
  }

  /** Two hexadecimal digits. */
  lemma TwoDigits(n: nat)
    ensures FixedDigits(n, 16, 2) == [DigitChar(n / 16 % 16), DigitChar(n % 16)]
  {
    FixedStep(n, 16, 2);
    FixedStep(n / 16, 16, 1);
  }

  /** Two hexadecimal digits depend only on the value modulo 256. */
  lemma TwoDigitsLow(n: nat)
    ensures FixedDigits(n, 16, 2) == FixedDigits(n % 0x100, 16, 2)
  {
    TwoDigits(n);
    TwoDigits(n % 0x100);
    ModMod(n, 16, 16);
    ModDiv(n, 16, 16);
  }

  /** `UUID.generate()`: the five groups zero-filled by `_hexAligner`, with
      `0x8000 | rand(14)` supplying both clock-sequence bytes. It produces the
      `hexString` of the `genV4()` object whose `clockSeqHiAndReserved` takes
      the top six of the fourteen random bits and `clockSeqLow` the low eight. */
  method Generate(r32: nat, r16: nat, r12: nat, r14: nat, r48: nat) returns (s: string)
    requires r32 < 0x1_0000_0000 && r16 < 0x1_0000 && r12 < 0x1000 && r14 < 0x4000 && r48 < 0x1_0000_0000_0000
    ensures s == GenV4(r32, r16, r12, r14 / 0x100, r14 % 0x100, r48).hexString
    ensures IsCanonical(s) && s[14] == '4' && s[19] in "89ab"
  {
    var g0 := HexAligner(r32, 8);
    var g1 := HexAligner(r16, 4);
    var g2 := HexAligner(Or(0x4000, r12), 4);
    var g3 := HexAligner(Or(0x8000, r14), 4);
    var g4 := HexAligner(r48, 12);
    s := g0 + "-" + g1 + "-" + g2 + "-" + g3 + "-" + g4;
    GenerateText(r32, r16, r12, r14, r48);
    GenerateShape(r32, r16, r12, r14, r48);
  }

  /** The five zero-filled groups of `generate()`, joined by dashes, are the
      `hexString` of the corresponding `genV4()` object. */
  lemma GenerateText(r32: nat, r16: nat, r12: nat, r14: nat, r48: nat)
    requires r32 < 0x1_0000_0000 && r16 < 0x1_0000 && r12 < 0x1000 && r14 < 0x4000 && r48 < 0x1_0000_0000_0000
    ensures ZeroFill(r32, 16, 8) + "-" + ZeroFill(r16, 16, 4) + "-" + ZeroFill(Or(0x4000, r12), 16, 4) + "-"
            + ZeroFill(Or(0x8000, r14), 16, 4) + "-" + ZeroFill(r48, 16, 12)
            == GenV4(r32, r16, r12, r14 / 0x100, r14 % 0x100, r48).hexString
  {
    var f := [r32, r16, Or(0x4000, r12), Or(0x80, r14 / 0x100), r14 % 0x100, r48];
    HexFieldsOf(r32, r16, Or(0x4000, r12), Or(0x80, r14 / 0x100), r14 % 0x100, r48);
    ClockSeqGroup(r14);
    DelimitPairs(HexFields(f), ZeroFill(Or(0x8000, r14), 16, 4));
  }

  /** The hexadecimal fields of six given values. */
  lemma HexFieldsOf(a: nat, b: nat, c: nat, d: nat, e: nat, g: nat)
    ensures var h := HexFields([a, b, c, d, e, g]);
      && h[0] == ZeroFill(a, 16, 8) && h[1] == ZeroFill(b, 16, 4) && h[2] == ZeroFill(c, 16, 4)
      && h[3] == ZeroFill(d, 16, 2) && h[4] == ZeroFill(e, 16, 2) && h[5] == ZeroFill(g, 16, 12)
  {
  }

  /** `hexString` reads as five dash-separated groups, the fourth being the two clock-sequence bytes. */
  lemma DelimitPairs(h: seq<string>, g: string)
    requires |h| == 6 && h[3] + h[4] == g
    ensures Delimit(h) == h[0] + "-" + h[1] + "-" + h[2] + "-" + g + "-" + h[5]
  {
    var p := h[0] + "-" + h[1] + "-" + h[2] + "-";
    assert p + h[3] + h[4] == p + (h[3] + h[4]);
  }

  /** The text of a version 4 UUID built from the draws of `generate()`. */
  lemma GenerateShape(r32: nat, r16: nat, r12: nat, r14: nat, r48: nat)
    requires r32 < 0x1_0000_0000 && r16 < 0x1_0000 && r12 < 0x1000 && r14 < 0x4000 && r48 < 0x1_0000_0000_0000
    ensures var s := GenV4(r32, r16, r12, r14 / 0x100, r14 % 0x100, r48).hexString;
      IsCanonical(s) && s[14] == '4' && s[19] in "89ab"
  {
    GenV4Layout(r32, r16, r12, r14 / 0x100, r14 % 0x100, r48);
    DerivedForms(GenV4(r32, r16, r12, r14 / 0x100, r14 % 0x100, r48).intFields);
  }

  /** `0x8000 | r14` renders as the two bytes `0x80 | r14 >> 8` and `r14 & 0xff`. */
  lemma ClockSeqGroup(r14: nat)
    requires r14 < 0x4000
    ensures Or(0x8000, r14) == 0x8000 + r14 && Or(0x80, r14 / 0x100) == 0x80 + r14 / 0x100
    ensures ZeroFill(0x8000 + r14, 16, 4) == ZeroFill(0x80 + r14 / 0x100, 16, 2) + ZeroFill(r14 % 0x100, 16, 2)
  {
    ClockSeqBits(r14);
    var hi, lo := QuotRem(r14, 0x100);
    GroupBytes(0x8000 + r14, 0x80 + hi, lo);
  }

  lemma ClockSeqBits(r14: nat)
    requires r14 < 0x4000
    ensures Or(0x8000, r14) == 0x8000 + r14 && Or(0x80, r14 / 0x100) == 0x80 + r14 / 0x100
  {
    PowValues();
    OrDisjoint(2, 14, r14);
    SetBits(0, r14 / 0x100);
  }

  /** Four hexadecimal digits are the two of the high byte then the two of the low byte. */
  lemma GroupBytes(n: nat, hi: nat, lo: nat)
    requires n < 0x1_0000 && hi < 0x100 && lo < 0x100 && n == 0x100 * hi + lo
    ensures ZeroFill(n, 16, 4) == ZeroFill(hi, 16, 2) + ZeroFill(lo, 16, 2)
  {
    assert Pow(16, 4) == 0x1_0000 && Pow(16, 2) == 0x100;
    ZeroFillFixed(n, 16, 4);
    ZeroFillFixed(hi, 16, 2);
    ZeroFillFixed(lo, 16, 2);
    var top := FixedSplit(n, 16, 2, 2);
    DivUnique(n, 0x100, hi, lo);
    TwoDigitsLow(n);
  }
}
