/**
 * The UUID object of UUID.js: six integer fields in the RFC 4122 layout
 * (section 4.1.2; the layout is superseded by RFC 9562 but still used by the
 * library), their binary and hexadecimal renderings, and the string forms
 * derived from them. A UUID object never changes after construction, so it
 * is a value here; the constructor's filling loop is the method `New`.
 */
module Uuid {
  import opened Arith
  import opened Codec

  datatype Option<T> = None | Some(value: T)

  /** `UUID.FIELD_SIZES`: the width of each field in bits. */
  const FieldSizes: seq<nat> := [32, 16, 16, 8, 8, 48]

  /** What a UUID object holds. `intFields`, `bitFields` and `hexFields` are
      indexed 0-5: `timeLow`, `timeMid`, `timeHiAndVersion`,
      `clockSeqHiAndReserved`, `clockSeqLow`, `node`. */
  datatype Uuid = Uuid(
    intFields: seq<nat>,
    bitFields: seq<string>,
    hexFields: seq<string>,
    version: nat,
    bitString: string,
    hexNoDelim: string,
    hexString: string,
    urn: string)
  {
    /** `toString()`. */
    function ToString(): string
    {
      hexString
    }
  }

  /** `Array.prototype.join("")`. */
  function Join(ss: seq<string>): string
  {
    if ss == [] then [] else Join(ss[..|ss| - 1]) + ss[|ss| - 1]
  }

  /** `(timeHiAndVersion >>> 12) & 0xf`: of a 16-bit field, the top four bits. */
  function VersionOf(timeHiAndVersion: nat): (v: nat)
    ensures timeHiAndVersion < 0x1_0000 ==> v == timeHiAndVersion / 0x1000 < 16
  {
    PowValues();
    assert timeHiAndVersion < 0x1_0000 ==> timeHiAndVersion / 0x1000 < 16 by {
      if timeHiAndVersion < 0x1_0000 {
        DivBound(timeHiAndVersion, 0x1000, 16);
      }
    }
    UShr(timeHiAndVersion, 12) % 16
  }

  /** `h0-h1-h2-h3h4-h5`. */
  function Delimit(h: seq<string>): string
    requires |h| == 6
  {
    h[0] + "-" + h[1] + "-" + h[2] + "-" + h[3] + h[4] + "-" + h[5]
  }

  /** `bitFields`: each field in binary, zero-filled to its size in `FieldSizes`. */
  function BinFields(f: seq<nat>): seq<string>
    requires |f| == 6
  {
    seq(6, i requires 0 <= i < 6 => ZeroFill(f[i], 2, FieldSizes[i]))
  }

  /** `hexFields`: each field in hexadecimal, zero-filled to a quarter of its size. */
  function HexFields(f: seq<nat>): seq<string>
    requires |f| == 6
  {
    seq(6, i requires 0 <= i < 6 => ZeroFill(f[i], 16, FieldSizes[i] / 4))
  }

  /** The UUID object the constructor builds from six non-negative field values. */
  function FromFields(f: seq<nat>): Uuid
    requires |f| == 6
  {
    var hs := Delimit(HexFields(f));
    Uuid(f, BinFields(f), HexFields(f), VersionOf(f[2]), Join(BinFields(f)), Join(HexFields(f)), hs, "urn:uuid:" + hs)
  }

  /** Every UUID object is the constructor's result for its own integer fields. */
  predicate Wf(u: Uuid)
  {
    |u.intFields| == 6 && u == FromFields(u.intFields)
  }

  /** 2 to the power of each field's size. */
  const FieldLimits: seq<nat> := [0x1_0000_0000, 0x1_0000, 0x1_0000, 0x100, 0x100, 0x1_0000_0000_0000]

  /** Each field value is below 2 to the power of its size. */
  predicate InWidths(f: seq<nat>)
  {
    |f| == 6 && forall i :: 0 <= i < 6 ==> f[i] < FieldLimits[i]
  }

  /** The private constructor: one pass over the six fields filling the
      integer, binary and hexadecimal arrays, then the derived strings. */
  method New(f: seq<nat>) returns (u: Uuid)
    requires |f| == 6
    ensures u == FromFields(f)
  {
    var ints, bits, hexs := Fill(f);
    var fs, bfs, hfs := ints[..], bits[..], hexs[..];
    SameSeq(fs, f);
    SameSeq(bfs, BinFields(f));
    SameSeq(hfs, HexFields(f));
    var hexString := Delimit(hfs);
    u := Uuid(fs, bfs, hfs, VersionOf(fs[2]), Join(bfs), Join(hfs), hexString, "urn:uuid:" + hexString);
  }

  /** The constructor's loop: `intFields[i]`, `bitFields[i]` and `hexFields[i]` for i = 0..5. */
  method Fill(f: seq<nat>) returns (ints: array<nat>, bits: array<string>, hexs: array<string>)
    requires |f| == 6
    ensures ints.Length == 6 && bits.Length == 6 && hexs.Length == 6
    ensures forall j :: 0 <= j < 6 ==> ints[j] == f[j]
    ensures forall j :: 0 <= j < 6 ==> bits[j] == BinFields(f)[j]
    ensures forall j :: 0 <= j < 6 ==> hexs[j] == HexFields(f)[j]
  {
    ints := new nat[6];
    bits := new string[6];
    hexs := new string[6];
    for i := 0 to 6
      invariant forall j :: 0 <= j < i ==> ints[j] == f[j] && bits[j] == BinFields(f)[j] && hexs[j] == HexFields(f)[j]
    {
      var b := BinAligner(f[i], FieldSizes[i]);
      var h := HexAligner(f[i], FieldSizes[i] / 4);
      ints[i] := f[i];
      bits[i] := b;
      hexs[i] := h;
    }
  }

  lemma SameSeq<T>(a: seq<T>, b: seq<T>)
    requires |a| == |b| && forall j :: 0 <= j < |a| ==> a[j] == b[j]
    ensures a == b
  {
  }

  /** `equals(other)`: false for anything that is not a UUID, otherwise a
      field-by-field comparison that stops at the first difference. */
  method Equals(u: Uuid, other: Option<Uuid>) returns (eq: bool)
    requires |u.intFields| == 6 && (other.Some? ==> |other.value.intFields| == 6)
    ensures eq <==> other.Some? && forall i :: 0 <= i < 6 ==> u.intFields[i] == other.value.intFields[i]
  {
    if other.None? {
      return false;
    }
    var v := other.value;
    for i := 0 to 6
      invariant forall j :: 0 <= j < i ==> u.intFields[j] == v.intFields[j]
    {
      if u.intFields[i] != v.intFields[i] {
        return false;
      }
    }
    return true;
  }

  /** `UUID.NIL`. */
  const Nil: Uuid := FromFields([0, 0, 0, 0, 0, 0])

  /** Field widths in hexadecimal and binary digits. */
  lemma FieldPowers(i: nat)
    requires i < 6
    ensures FieldSizes[i] / 4 >= 1 && Pow(16, FieldSizes[i] / 4) == Pow2(FieldSizes[i]) == FieldLimits[i]
  {
    PowValues();
  }

  /** A field value within its width is rendered in hexadecimal as exactly its fixed-width digits. */
  lemma FieldDigits(f: seq<nat>, i: nat)
    requires InWidths(f) && i < 6
    ensures HexFields(f)[i] == FixedDigits(f[i], 16, FieldSizes[i] / 4)
  {
    FieldPowers(i);
    ZeroFillFixed(f[i], 16, FieldSizes[i] / 4);
  }

  /** A field value within its width is rendered in binary as exactly its fixed-width digits. */
  lemma BitDigits(f: seq<nat>, i: nat)
    requires InWidths(f) && i < 6
    ensures BinFields(f)[i] == FixedDigits(f[i], 2, FieldSizes[i])
  {
    FieldPowers(i);
    ZeroFillFixed(f[i], 2, FieldSizes[i]);
  }

  /** The six hexadecimal renderings of in-width fields are their fixed-width digits. */
  lemma HexFixed(f: seq<nat>)
    requires InWidths(f)
    ensures var h := HexFields(f);
      && h[0] == FixedDigits(f[0], 16, 8) && h[1] == FixedDigits(f[1], 16, 4) && h[2] == FixedDigits(f[2], 16, 4)
      && h[3] == FixedDigits(f[3], 16, 2) && h[4] == FixedDigits(f[4], 16, 2) && h[5] == FixedDigits(f[5], 16, 12)
  {
    FieldDigits(f, 0);
    FieldDigits(f, 1);
    FieldDigits(f, 2);
    FieldDigits(f, 3);
    FieldDigits(f, 4);
    FieldDigits(f, 5);
  }

  /** The six binary renderings of in-width fields are their fixed-width digits. */
  lemma BinFixed(f: seq<nat>)
    requires InWidths(f)
    ensures var b := BinFields(f);
      && b[0] == FixedDigits(f[0], 2, 32) && b[1] == FixedDigits(f[1], 2, 16) && b[2] == FixedDigits(f[2], 2, 16)
      && b[3] == FixedDigits(f[3], 2, 8) && b[4] == FixedDigits(f[4], 2, 8) && b[5] == FixedDigits(f[5], 2, 48)
  {
    BitDigits(f, 0);
    BitDigits(f, 1);
    BitDigits(f, 2);
    BitDigits(f, 3);
    BitDigits(f, 4);
    BitDigits(f, 5);
  }

  lemma JoinSnoc(ss: seq<string>, k: nat)
    requires 0 < k <= |ss|
    ensures Join(ss[..k]) == Join(ss[..k - 1]) + ss[k - 1]
  {
    assert ss[..k][..k - 1] == ss[..k - 1];
  }

  /** Joining six strings. */
  lemma Join6(ss: seq<string>)
    requires |ss| == 6
    ensures Join(ss) == ss[0] + ss[1] + ss[2] + ss[3] + ss[4] + ss[5]
  {
    assert ss[..6] == ss;
    JoinSnoc(ss, 6);
    JoinSnoc(ss, 5);
    JoinSnoc(ss, 4);
    JoinSnoc(ss, 3);
    JoinSnoc(ss, 2);
    JoinSnoc(ss, 1);
  }

  /** For field values within their widths, each binary field has as many
      characters as the field has bits, each hexadecimal field a quarter of
      that, and both read back (`parseInt`) as the integer field. */
  lemma FieldsRoundTrip(f: seq<nat>)
    requires InWidths(f)
    ensures var u := FromFields(f);
      forall i :: 0 <= i < 6 ==>
        && u.intFields[i] == f[i]
        && |u.bitFields[i]| == FieldSizes[i]
        && |u.hexFields[i]| == FieldSizes[i] / 4
        && AllDigits(u.bitFields[i], 2) && ParseRadix(u.bitFields[i], 2) == f[i]
        && AllDigits(u.hexFields[i], 16) && ParseRadix(u.hexFields[i], 16) == f[i]
  {
    HexRoundTrip(f);
    BinRoundTrip(f);
  }

  lemma HexRoundTrip(f: seq<nat>)
    requires InWidths(f)
    ensures forall i :: 0 <= i < 6 ==>
      |HexFields(f)[i]| == FieldSizes[i] / 4 && AllDigits(HexFields(f)[i], 16) && ParseRadix(HexFields(f)[i], 16) == f[i]
  {
    forall i | 0 <= i < 6
      ensures |HexFields(f)[i]| == FieldSizes[i] / 4 && AllDigits(HexFields(f)[i], 16) && ParseRadix(HexFields(f)[i], 16) == f[i]
    {
      HexFieldRoundTrip(f, i);
    }
  }

  lemma HexFieldRoundTrip(f: seq<nat>, i: nat)
    requires InWidths(f) && i < 6
    ensures |HexFields(f)[i]| == FieldSizes[i] / 4 && AllDigits(HexFields(f)[i], 16) && ParseRadix(HexFields(f)[i], 16) == f[i]
  {
    FieldDigits(f, i);
    FieldPowers(i);
    ParseFixed(f[i], 16, FieldSizes[i] / 4);
  }

  lemma BinRoundTrip(f: seq<nat>)
    requires InWidths(f)
    ensures forall i :: 0 <= i < 6 ==>
      |BinFields(f)[i]| == FieldSizes[i] && AllDigits(BinFields(f)[i], 2) && ParseRadix(BinFields(f)[i], 2) == f[i]
  {
    forall i | 0 <= i < 6
      ensures |BinFields(f)[i]| == FieldSizes[i] && AllDigits(BinFields(f)[i], 2) && ParseRadix(BinFields(f)[i], 2) == f[i]
    {
      BinFieldRoundTrip(f, i);
    }
  }

  lemma BinFieldRoundTrip(f: seq<nat>, i: nat)
    requires InWidths(f) && i < 6
    ensures |BinFields(f)[i]| == FieldSizes[i] && AllDigits(BinFields(f)[i], 2) && ParseRadix(BinFields(f)[i], 2) == f[i]
  {
    BitDigits(f, i);
    FieldPowers(i);
    ParseFixed(f[i], 2, FieldSizes[i]);
  }

  /** Every character is a lower-case hexadecimal digit. */
  predicate LowerHexString(s: string)
  {
    forall i :: 0 <= i < |s| ==> IsLowerHex(s[i])
  }

  /** The canonical 8-4-4-4-12 form: 36 characters, dashes at 8, 13, 18 and
      23, lower-case hexadecimal digits in the five groups between them. */
  predicate IsCanonical(s: string)
  {
    && |s| == 36
    && s[8] == '-' && s[13] == '-' && s[18] == '-' && s[23] == '-'
    && LowerHexString(s[..8]) && LowerHexString(s[9..13]) && LowerHexString(s[14..18])
    && LowerHexString(s[19..23]) && LowerHexString(s[24..])
  }

  /** For field values within their widths the derived strings have the
      documented shape: `hexString` is the canonical 8-4-4-4-12 form, and it
      is `hexNoDelim` (32 digits) with four dashes inserted; `bitString` has
      128 binary digits; `urn` is `urn:uuid:` followed by `hexString`, which
      is also what `toString()` returns. */
  lemma DerivedForms(f: seq<nat>)
    requires InWidths(f)
    ensures var u := FromFields(f);
      && IsCanonical(u.hexString)
      && |u.hexNoDelim| == 32
      && u.hexString == u.hexNoDelim[..8] + "-" + u.hexNoDelim[8..12] + "-" + u.hexNoDelim[12..16] + "-"
                        + u.hexNoDelim[16..20] + "-" + u.hexNoDelim[20..]
      && |u.bitString| == 128 && AllDigits(u.bitString, 2)
      && u.urn == "urn:uuid:" + u.hexString && u.ToString() == u.hexString
  {
    HexFieldsShape(f);
    DelimitShape(HexFields(f));
    BinShape(f);
  }

  /** Six groups of 8, 4, 4, 2, 2 and 12 lower-case hexadecimal digits. */
  predicate HexGroups(h: seq<string>)
  {
    && |h| == 6
    && |h[0]| == 8 && |h[1]| == 4 && |h[2]| == 4 && |h[3]| == 2 && |h[4]| == 2 && |h[5]| == 12
    && LowerHexString(h[0]) && LowerHexString(h[1]) && LowerHexString(h[2])
    && LowerHexString(h[3]) && LowerHexString(h[4]) && LowerHexString(h[5])
  }

  lemma HexFieldsShape(f: seq<nat>)
    requires InWidths(f)
    ensures HexGroups(HexFields(f))
  {
    HexFixed(f);
  }

  lemma LowerHexConcat(s: string, t: string)
    requires LowerHexString(s) && LowerHexString(t)
    ensures LowerHexString(s + t)
  {
    forall i | 0 <= i < |s + t|
      ensures IsLowerHex((s + t)[i])
    {
      if i >= |s| {
        assert (s + t)[i] == t[i - |s|];
      }
    }
  }

  /** Joined and delimited forms of six hexadecimal groups. */
  lemma DelimitShape(h: seq<string>)
    requires HexGroups(h)
    ensures IsCanonical(Delimit(h)) && |Join(h)| == 32
    ensures Delimit(h) == Join(h)[..8] + "-" + Join(h)[8..12] + "-" + Join(h)[12..16] + "-"
                          + Join(h)[16..20] + "-" + Join(h)[20..]
  {
    Join6(h);
    LowerHexConcat(h[3], h[4]);
    var nd := h[0] + h[1] + h[2] + h[3] + h[4] + h[5];
    assert nd[..8] == h[0] && nd[8..12] == h[1] && nd[12..16] == h[2];
    assert nd[16..20] == h[3] + h[4] && nd[20..] == h[5];
    var hs := Delimit(h);
    assert hs[..8] == h[0] && hs[9..13] == h[1] && hs[14..18] == h[2];
    assert hs[19..23] == h[3] + h[4] && hs[24..] == h[5];
  }

  lemma BinShape(f: seq<nat>)
    requires InWidths(f)
    ensures |Join(BinFields(f))| == 128 && AllDigits(Join(BinFields(f)), 2)
  {
    BinFixed(f);
    var b := BinFields(f);
    Join6(b);
    AllDigitsConcat(b[0], b[1], 2);
    AllDigitsConcat(b[0] + b[1], b[2], 2);
    AllDigitsConcat(b[0] + b[1] + b[2], b[3], 2);
    AllDigitsConcat(b[0] + b[1] + b[2] + b[3], b[4], 2);
    AllDigitsConcat(b[0] + b[1] + b[2] + b[3] + b[4], b[5], 2);
  }

  /** The version number is the top four bits of `timeHiAndVersion`, which is
      the hexadecimal digit at position 14 of `hexString`. */
  lemma VersionDigit(f: seq<nat>)
    requires InWidths(f)
    ensures FromFields(f).version == f[2] / 0x1000 < 16
    ensures FromFields(f).hexString[14] == DigitChar(FromFields(f).version)
  {
    HexFixed(f);
    FirstDigit(f[2]);
    DelimitAt14(HexFields(f));
  }

  lemma DelimitAt14(h: seq<string>)
    requires |h| == 6 && |h[0]| == 8 && |h[1]| == 4 && |h[2]| == 4
    ensures Delimit(h)[14] == h[2][0]
  {
  }

  /** The first of four hexadecimal digits of a 16-bit value. */
  lemma FirstDigit(t: nat)
    requires t < 0x1_0000
    ensures t / 0x1000 < 16 && FixedDigits(t, 16, 4)[0] == DigitChar(t / 0x1000)
  {
    DivBound(t, 0x1000, 16);
    assert Pow(16, 3) == 0x1000;
    var hi := FixedSplit(t, 16, 1, 3);
    OneDigit(hi, 16);
  }

  /** Two UUID objects are equal values exactly when their integer fields are. */
  lemma EqualIffFields(u: Uuid, v: Uuid)
    requires Wf(u) && Wf(v)
    ensures u == v <==> forall i :: 0 <= i < 6 ==> u.intFields[i] == v.intFields[i]
  {
    if forall i :: 0 <= i < 6 ==> u.intFields[i] == v.intFields[i] {
      assert u.intFields == v.intFields;
    }
  }

  lemma ZeroLiterals()
    ensures Zeros(8) == "00000000" && Zeros(4) == "0000" && Zeros(2) == "00" && Zeros(12) == "000000000000"
  {
    assert Zeros(8) == "00000000";
    assert Zeros(4) == "0000";
    assert Zeros(2) == "00";
    assert Zeros(12) == "000000000000";
  }

  /** `UUID.NIL` has six zero fields and the all-zero canonical form. */
  lemma NilValue()
    ensures Wf(Nil) && InWidths(Nil.intFields)
    ensures forall i :: 0 <= i < 6 ==> Nil.intFields[i] == 0
    ensures Nil.hexString == "00000000-0000-0000-0000-000000000000"
    ensures Nil.version == 0
  {
    NilHexString();
  }

  lemma NilHexString()
    ensures Delimit(HexFields([0, 0, 0, 0, 0, 0])) == "00000000-0000-0000-0000-000000000000"
  {
    NilHexFields();
  }

  lemma NilHexFields()
    ensures var h := HexFields([0, 0, 0, 0, 0, 0]);
      h[0] == "00000000" && h[1] == "0000" && h[2] == "0000" && h[3] == "00" && h[4] == "00" && h[5] == "000000000000"
  {
    HexFixed([0, 0, 0, 0, 0, 0]);
    FixedZeros(16, 8);
    FixedZeros(16, 4);
    FixedZeros(16, 2);
    FixedZeros(16, 12);
    ZeroLiterals();
  }
}
