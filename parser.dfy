/**
 * `UUID.parse(strId)`: the pattern
 *   ^\s*(urn:uuid:|\{)?(8 hex)-(4 hex)-(4 hex)-(2 hex)(2 hex)-(12 hex)(\})?\s*$
 * matched case-insensitively, followed by the check that the optional
 * prefix and suffix are one of: neither, `{` with `}`, or `urn:uuid:`
 * alone. `Parse` below is the scan the pattern performs (trim white space,
 * peel the prefix and suffix, check the 36-character body); the lemmas
 * relate it to the decomposition the pattern describes, in both directions.
 */
module Parser {
  import opened Arith
  import opened Codec
  import opened Uuid

  /** The characters `\s` matches in a JavaScript regular expression:
      WhiteSpace (tab, vertical tab, form feed, space, no-break space, the
      byte order mark and the Unicode space separators) and LineTerminator
      (line feed, carriage return, line and paragraph separators). */
  predicate IsJsSpace(c: char)
  {
    var n := c as int;
    || n == 0x09 || n == 0x0A || n == 0x0B || n == 0x0C || n == 0x0D || n == 0x20
    || n == 0xA0 || n == 0x1680 || (0x2000 <= n <= 0x200A) || n == 0x2028 || n == 0x2029
    || n == 0x202F || n == 0x205F || n == 0x3000 || n == 0xFEFF
  }

  predicate AllSpace(w: string)
  {
    forall i :: 0 <= i < |w| ==> IsJsSpace(w[i])
  }

  /** `^\s*`: drop the leading white space. */
  function TrimStart(s: string): (r: string)
    ensures |r| <= |s|
  {
    if s != [] && IsJsSpace(s[0]) then TrimStart(s[1..]) else s
  }

  /** `\s*$`: drop the trailing white space. */
  function TrimEnd(s: string): (r: string)
    ensures |r| <= |s|
  {
    if s != [] && IsJsSpace(s[|s| - 1]) then TrimEnd(s[..|s| - 1]) else s
  }

  /** A hexadecimal digit of either case (`[0-9a-f]` under the `i` flag). */
  predicate IsHexDigit(c: char)
  {
    DigitValue(c) < 16
  }

  /** Position of a dash in the 36-character body. */
  predicate IsDashPos(i: int)
  {
    i == 8 || i == 13 || i == 18 || i == 23
  }

  /** The 36-character body of the pattern: hexadecimal digits of either
      case in groups of 8, 4, 4, 4 and 12, separated by dashes. */
  predicate IsBody(body: string)
  {
    |body| == 36 && forall i :: 0 <= i < 36 ==> if IsDashPos(i) then body[i] == '-' else IsHexDigit(body[i])
  }

  /** The prefix and suffix combinations `parse` accepts (the prefix `urn:uuid:` in any case). */
  predicate Wrapped(pre: string, suf: string)
  {
    || (pre == "" && suf == "")
    || (pre == "{" && suf == "}")
    || (|pre| == 9 && Lower(pre) == "urn:uuid:" && suf == "")
  }

  /** Start and end (exclusive) in the body of the six captured groups; the
      fourth and fifth are the two halves of the fourth dash-separated group. */
  const GroupBounds: seq<(nat, nat)> := [(0, 8), (9, 13), (14, 18), (19, 21), (21, 23), (24, 36)]

  /** The i-th captured group of a body. */
  function Group(body: string, i: nat): (g: string)
    requires |body| == 36 && i < 6
    ensures |g| == FieldSizes[i] / 4
  {
    body[GroupBounds[i].0..GroupBounds[i].1]
  }

  lemma GroupDigits(body: string, i: nat)
    requires IsBody(body) && i < 6
    ensures AllDigits(Group(body, i), 16)
  {
    var (lo, hi) := GroupBounds[i];
    forall k | 0 <= k < hi - lo
      ensures DigitValue(Group(body, i)[k]) < 16
    {
      assert Group(body, i)[k] == body[lo + k];
      assert !IsDashPos(lo + k);
    }
  }

  /** The six captured groups, each read with `parseInt(group, 16)`. */
  function Groups(body: string): (f: seq<nat>)
    requires IsBody(body)
    ensures |f| == 6
  {
    seq(6, i requires 0 <= i < 6 => ParseRadix(Group(body, i), 16))
  }

  /** Splits the trimmed input into the optional prefix and the rest. */
  function SplitPrefix(core: string): (string, string)
  {
    if |core| >= 9 && Lower(core[..9]) == "urn:uuid:" then (core[..9], core[9..])
    else if |core| >= 1 && core[0] == '{' then ("{", core[1..])
    else ("", core)
  }

  /** Splits the rest into the body and the optional suffix. */
  function SplitSuffix(rest: string): (string, string)
  {
    if |rest| >= 1 && rest[|rest| - 1] == '}' then (rest[..|rest| - 1], "}") else (rest, "")
  }

  /** `UUID.parse(strId)`: the UUID object, or `None` for `null`. Whatever
      the case of the input, the object has fields within their widths and
      the canonical lower-case text forms. */
  function Parse(s: string): (r: Option<Uuid>)
    ensures r.Some? ==> InWidths(r.value.intFields) && IsCanonical(r.value.hexString)
    ensures r.Some? ==> r.value.urn == "urn:uuid:" + r.value.hexString
  {
    var core := TrimEnd(TrimStart(s));
    var (pre, rest) := SplitPrefix(core);
    var (body, suf) := SplitSuffix(rest);
    if IsBody(body) && Wrapped(pre, suf) then
      GroupsInWidths(body);
      DerivedForms(Groups(body));
      Some(FromFields(Groups(body)))
    else None
  }

  // Trimming

  lemma {:induction false} TrimStartSpace(w: string, t: string)
    requires AllSpace(w) && (t == [] || !IsJsSpace(t[0]))
    ensures TrimStart(w + t) == t
  {
    if w != [] {
      assert (w + t)[1..] == w[1..] + t;
      TrimStartSpace(w[1..], t);
    }
  }

  lemma {:induction false} TrimEndSpace(t: string, w: string)
    requires AllSpace(w) && (t == [] || !IsJsSpace(t[|t| - 1]))
    ensures TrimEnd(t + w) == t
  {
    if w != [] {
      assert (t + w)[..|t + w| - 1] == t + w[..|w| - 1];
      TrimEndSpace(t, w[..|w| - 1]);
    } else {
      assert t + w == t;
    }
  }

  lemma {:induction false} TrimStartSplit(s: string) returns (w: string)
    ensures s == w + TrimStart(s) && AllSpace(w)
    ensures TrimStart(s) == [] || !IsJsSpace(TrimStart(s)[0])
  {
    if s != [] && IsJsSpace(s[0]) {
      var w' := TrimStartSplit(s[1..]);
      w := [s[0]] + w';
    } else {
      w := [];
    }
  }

  lemma {:induction false} TrimEndSplit(s: string) returns (w: string)
    ensures s == TrimEnd(s) + w && AllSpace(w)
    ensures TrimEnd(s) == [] || !IsJsSpace(TrimEnd(s)[|TrimEnd(s)| - 1])
  {
    if s != [] && IsJsSpace(s[|s| - 1]) {
      var w' := TrimEndSplit(s[..|s| - 1]);
      w := w' + [s[|s| - 1]];
    } else {
      w := [];
    }
  }

  // The pattern, both directions

  /** The pattern's decomposition of an accepted string. */
  predicate Decomposes(s: string, w1: string, pre: string, body: string, suf: string, w2: string)
  {
    && s == w1 + pre + body + suf + w2
    && AllSpace(w1) && AllSpace(w2)
    && Wrapped(pre, suf) && IsBody(body)
  }

  /** Every string the pattern and the prefix/suffix check accept parses, to
      the UUID object of the six groups of its body. */
  lemma ParseComplete(w1: string, pre: string, body: string, suf: string, w2: string)
    requires Decomposes(w1 + pre + body + suf + w2, w1, pre, body, suf, w2)
    ensures Parse(w1 + pre + body + suf + w2) == Some(FromFields(Groups(body)))
  {
    TrimWrapped(w1, pre, body, suf, w2);
    SplitWrapped(pre, body, suf);
  }

  /** Trimming removes exactly the surrounding white space. */
  lemma TrimWrapped(w1: string, pre: string, body: string, suf: string, w2: string)
    requires Decomposes(w1 + pre + body + suf + w2, w1, pre, body, suf, w2)
    ensures TrimEnd(TrimStart(w1 + pre + body + suf + w2)) == pre + body + suf
  {
    var core := pre + body + suf;
    assert w1 + pre + body + suf + w2 == w1 + (core + w2);
    assert !IsJsSpace(body[0]) && !IsJsSpace(body[35]);
    assert (core + w2)[0] == (if pre == [] then body[0] else pre[0]);
    TrimStartSpace(w1, core + w2);
    assert core[|core| - 1] == (if suf == [] then body[35] else '}');
    TrimEndSpace(core, w2);
  }

  /** The prefix and suffix are peeled off exactly. */
  lemma SplitWrapped(pre: string, body: string, suf: string)
    requires Wrapped(pre, suf) && IsBody(body)
    ensures SplitPrefix(pre + body + suf) == (pre, body + suf)
    ensures SplitSuffix(body + suf) == (body, suf)
  {
    var rest := body + suf;
    assert rest[0] == body[0];
    if pre == "" {
      NoPrefix(rest, body[0]);
      assert pre + rest == rest;
    } else if pre == "{" {
      BracePrefix(rest);
    } else {
      UrnPrefix(pre, rest);
    }
    assert pre + body + suf == pre + rest;
    if suf == "" {
      assert rest == body;
      assert body[35] != '}';
    } else {
      assert rest[..|rest| - 1] == body;
    }
  }

  lemma NoPrefix(rest: string, c: char)
    requires |rest| >= 36 && rest[0] == c && DigitValue(c) < 16
    ensures SplitPrefix(rest) == ("", rest)
  {
    assert Lower(rest[..9])[0] == LowerChar(c);
  }

  lemma BracePrefix(rest: string)
    requires |rest| >= 36 && DigitValue(rest[0]) < 16
    ensures SplitPrefix("{" + rest) == ("{", rest)
  {
    var core := "{" + rest;
    assert Lower(core[..9])[0] == LowerChar('{');
    assert core[1..] == rest;
  }

  lemma UrnPrefix(pre: string, rest: string)
    requires |pre| == 9 && Lower(pre) == "urn:uuid:"
    ensures SplitPrefix(pre + rest) == (pre, rest)
  {
    var core := pre + rest;
    assert core[..9] == pre;
    assert core[9..] == rest;
  }

  /** Every string that parses decomposes as the pattern describes, with a
      prefix and suffix the check accepts, and the result is the UUID object
      of the body's six groups. */
  lemma ParseSound(s: string) returns (w1: string, pre: string, body: string, suf: string, w2: string)
    requires Parse(s).Some?
    ensures Decomposes(s, w1, pre, body, suf, w2)
    ensures Parse(s) == Some(FromFields(Groups(body)))
  {
    w1 := TrimStartSplit(s);
    var t := TrimStart(s);
    w2 := TrimEndSplit(t);
    var core := TrimEnd(t);
    var rest;
    pre, rest := SplitPrefix(core).0, SplitPrefix(core).1;
    body, suf := SplitSuffix(rest).0, SplitSuffix(rest).1;
    PrefixParts(core);
    SuffixParts(rest);
    Reassociate(s, w1, t, w2, core, pre, rest, body, suf);
  }

  /** Putting the five pieces back together. */
  lemma Reassociate(s: string, w1: string, t: string, w2: string, core: string, pre: string, rest: string, body: string, suf: string)
    requires s == w1 + t && t == core + w2 && core == pre + rest && rest == body + suf
    ensures s == w1 + pre + body + suf + w2
  {
    assert core == pre + body + suf;
    assert t == pre + body + suf + w2;
  }

  lemma PrefixParts(core: string)
    ensures core == SplitPrefix(core).0 + SplitPrefix(core).1
  {
  }

  lemma SuffixParts(rest: string)
    ensures rest == SplitSuffix(rest).0 + SplitSuffix(rest).1
  {
  }

  // Round trips with the constructor's canonical forms

  /** The groups of a delimited string are the six strings delimited. */
  lemma GroupsOfDelimit(h: seq<string>)
    requires HexGroups(h)
    ensures |Delimit(h)| == 36 && forall i :: 0 <= i < 6 ==> Group(Delimit(h), i) == h[i]
  {
    var hs := Delimit(h);
    assert hs[..8] == h[0] && hs[9..13] == h[1] && hs[14..18] == h[2];
    assert hs[19..21] == h[3] && hs[21..23] == h[4] && hs[24..] == h[5];
  }

  /** A canonical 8-4-4-4-12 string matches the body of the pattern. */
  lemma CanonicalIsBody(s: string)
    requires IsCanonical(s)
    ensures IsBody(s)
  {
    forall i | 0 <= i < 36 && !IsDashPos(i)
      ensures IsHexDigit(s[i])
    {
      if i < 8 {
        assert s[..8][i] == s[i];
      } else if i < 13 {
        assert s[9..13][i - 9] == s[i];
      } else if i < 18 {
        assert s[14..18][i - 14] == s[i];
      } else if i < 23 {
        assert s[19..23][i - 19] == s[i];
      } else {
        assert s[24..][i - 24] == s[i];
      }
    }
  }

  /** For field values within their widths, `hexString` matches the body
      pattern and its six groups read back as the fields. */
  lemma GroupsOfHexString(f: seq<nat>)
    requires InWidths(f)
    ensures IsBody(FromFields(f).hexString) && Groups(FromFields(f).hexString) == f
  {
    var h := HexFields(f);
    HexFieldsShape(f);
    DelimitShape(h);
    CanonicalIsBody(Delimit(h));
    GroupsOfDelimit(h);
    HexRoundTrip(f);
    SameSeq(Groups(Delimit(h)), f);
  }

  /** `UUID.parse` inverts the constructor's `hexString`, its braced form and
      its `urn`: each parses back to the same UUID object. */
  lemma ParseHexString(f: seq<nat>)
    requires InWidths(f)
    ensures Parse(FromFields(f).hexString) == Some(FromFields(f))
    ensures Parse("{" + FromFields(f).hexString + "}") == Some(FromFields(f))
    ensures Parse(FromFields(f).urn) == Some(FromFields(f))
  {
    GroupsOfHexString(f);
    var hs := FromFields(f).hexString;
    ParseBody(hs);
    ParseBraced(hs);
    ParseUrn(hs);
  }

  lemma ParseBody(body: string)
    requires IsBody(body)
    ensures Parse(body) == Some(FromFields(Groups(body)))
  {
    assert "" + "" + body + "" + "" == body;
    ParseComplete("", "", body, "", "");
  }

  lemma ParseBraced(body: string)
    requires IsBody(body)
    ensures Parse("{" + body + "}") == Some(FromFields(Groups(body)))
  {
    assert "" + "{" + body + "}" + "" == "{" + body + "}";
    ParseComplete("", "{", body, "}", "");
  }

  lemma ParseUrn(body: string)
    requires IsBody(body)
    ensures Parse("urn:uuid:" + body) == Some(FromFields(Groups(body)))
  {
    UrnLower();
    assert "" + "urn:uuid:" + body + "" + "" == "urn:uuid:" + body;
    ParseComplete("", "urn:uuid:", body, "", "");
  }

  lemma UrnLower()
    ensures Lower("urn:uuid:") == "urn:uuid:"
  {
    var u := "urn:uuid:";
    assert Lower(u)[0] == u[0] && Lower(u)[1] == u[1] && Lower(u)[2] == u[2];
    assert Lower(u)[3] == u[3] && Lower(u)[4] == u[4] && Lower(u)[5] == u[5];
    assert Lower(u)[6] == u[6] && Lower(u)[7] == u[7] && Lower(u)[8] == u[8];
  }

  /** `UUID.parse(UUID.NIL)` is the nil UUID object. */
  lemma ParseNil()
    ensures Parse("00000000-0000-0000-0000-000000000000") == Some(Nil)
  {
    NilValue();
    ParseHexString([0, 0, 0, 0, 0, 0]);
  }

  // What a parsed UUID object holds

  /** The groups of a body are within their fields' widths. */
  lemma GroupsInWidths(body: string)
    requires IsBody(body)
    ensures InWidths(Groups(body))
  {
    forall i | 0 <= i < 6
      ensures Groups(body)[i] < FieldLimits[i]
    {
      GroupDigits(body, i);
      FieldPowers(i);
    }
  }

  /** Re-rendering a parsed group gives the group in lower case. */
  lemma GroupHex(body: string, i: nat)
    requires IsBody(body) && i < 6
    ensures HexFields(Groups(body))[i] == Lower(Group(body, i))
  {
    GroupsInWidths(body);
    FieldDigits(Groups(body), i);
    GroupDigits(body, i);
    FixedParse(Group(body, i), 16);
  }

  /** Delimiting the lower-cased groups gives the lower-cased body. */
  lemma DelimitLower(body: string, h: seq<string>)
    requires IsBody(body) && |h| == 6
    requires forall i :: 0 <= i < 6 ==> h[i] == Lower(Group(body, i))
    ensures Delimit(h) == Lower(body)
  {
    var l := Lower(body);
    forall i | 0 <= i < 6
      ensures l[GroupBounds[i].0..GroupBounds[i].1] == h[i]
    {
      LowerGroup(body, i);
    }
    Reassemble(l);
  }

  lemma LowerGroup(body: string, i: nat)
    requires |body| == 36 && i < 6
    ensures Lower(body)[GroupBounds[i].0..GroupBounds[i].1] == Lower(Group(body, i))
  {
  }

  lemma Reassemble(l: string)
    requires |l| == 36 && l[8] == '-' && l[13] == '-' && l[18] == '-' && l[23] == '-'
    ensures l == l[..8] + "-" + l[9..13] + "-" + l[14..18] + "-" + l[19..21] + l[21..23] + "-" + l[24..]
  {
  }

  /** The UUID object `parse` builds from a body has its fields within their
      widths, and its `hexString` is the body in lower case (so `toString()`
      of a parsed UUID is the input's body with the letters lowered). */
  lemma ParsedForm(body: string)
    requires IsBody(body)
    ensures InWidths(FromFields(Groups(body)).intFields)
    ensures FromFields(Groups(body)).hexString == Lower(body)
    ensures FromFields(Groups(body)).urn == "urn:uuid:" + Lower(body)
  {
    GroupsInWidths(body);
    forall i | 0 <= i < 6
      ensures HexFields(Groups(body))[i] == Lower(Group(body, i))
    {
      GroupHex(body, i);
    }
    DelimitLower(body, HexFields(Groups(body)));
  }

  /** Whatever the case, wrapper or surrounding white space of an accepted
      input, the parsed UUID object's `hexString` is in the canonical
      lower-case 8-4-4-4-12 form: the input's body with its letters lowered. */
  lemma ParseCanonical(s: string) returns (body: string)
    requires Parse(s).Some?
    ensures IsBody(body) && exists w1, pre, suf, w2 :: Decomposes(s, w1, pre, body, suf, w2)
    ensures Parse(s).value.hexString == Lower(body) && IsCanonical(Parse(s).value.hexString)
    ensures Parse(s).value.urn == "urn:uuid:" + Lower(body)
  {
    var w1, pre, suf, w2;
    w1, pre, body, suf, w2 := ParseSound(s);
    ParsedForm(body);
    DerivedForms(Groups(body));
  }
}
