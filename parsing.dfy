/** `parseComplexString` (main.js:60-100): the text on the display read back as a complex
    value. The anchored pattern `^(-?\d*\.?\d*)([+\-]\d*\.?\d*)?(i)?$` is replaced by a
    scanner that reads each part as far as it goes; the lemmas show that it finds a match
    exactly when the pattern has one, and that the match it finds is the one a backtracking
    engine reports, the one whose first group is longest. */
module Parsing {
  import opened Wrappers
  import opened Numerals
  import opened ComplexNumbers

  // Trimming (`String.prototype.trim`).

  /** The white space and line terminators of ECMAScript, which `trim` removes. */
  predicate IsSpace(c: char) {
    c == ' ' || '\t' <= c <= '\r' || c == '\U{A0}' || c == '\U{1680}'
    || '\U{2000}' <= c <= '\U{200A}' || c == '\U{2028}' || c == '\U{2029}'
    || c == '\U{202F}' || c == '\U{205F}' || c == '\U{3000}' || c == '\U{FEFF}'
  }

  function TrimStart(s: string): (r: string)
    ensures |r| <= |s| && r == s[|s| - |r|..]
    ensures r == [] || !IsSpace(r[0])
    ensures forall k :: 0 <= k < |s| - |r| ==> IsSpace(s[k])
  {
    if s != [] && IsSpace(s[0]) then TrimStart(s[1..]) else s
  }

  function TrimEnd(s: string): (r: string)
    ensures |r| <= |s| && r == s[..|r|]
    ensures r == [] || !IsSpace(r[|r| - 1])
    ensures forall k :: |r| <= k < |s| ==> IsSpace(s[k])
  {
    if s != [] && IsSpace(s[|s| - 1]) then TrimEnd(s[..|s| - 1]) else s
  }

  function Trim(s: string): string {
    TrimEnd(TrimStart(s))
  }

  /** Where the trimmed text starts in the input. */
  function TrimOffset(s: string): nat {
    |s| - |TrimStart(s)|
  }

  /** Trimming keeps a slice of the input, drops only white space around it, and leaves
      none at either end. */
  lemma TrimSlice(s: string)
    ensures var t, i := Trim(s), TrimOffset(s);
      i + |t| <= |s| && t == s[i..i + |t|]
      && (forall k :: 0 <= k < i ==> IsSpace(s[k]))
      && (forall k :: i + |t| <= k < |s| ==> IsSpace(s[k]))
      && (t == [] || (!IsSpace(t[0]) && !IsSpace(t[|t| - 1])))
  {
    var u := TrimStart(s);
    var i := |s| - |u|;
    TrimEndSlice(s, i, u);
  }

  lemma TrimEndSlice(s: string, i: nat, u: string)
    requires i <= |s| && u == s[i..] && (u == [] || !IsSpace(u[0]))
    ensures var t := TrimEnd(u);
      i + |t| <= |s| && t == s[i..i + |t|]
      && (forall k :: i + |t| <= k < |s| ==> IsSpace(s[k]))
      && (t == [] || (!IsSpace(t[0]) && !IsSpace(t[|t| - 1])))
  {
    var t := TrimEnd(u);
    assert t == s[i..i + |t|];
    forall k | i + |t| <= k < |s|
      ensures IsSpace(s[k])
    {
      assert s[k] == u[k - i];
    }
    if t != [] {
      assert t[0] == u[0];
    }
  }

  /** Text that does not start or end with white space is left alone. */
  lemma TrimUnchanged(s: string)
    requires s == [] || (!IsSpace(s[0]) && !IsSpace(s[|s| - 1]))
    ensures Trim(s) == s
  {
  }

  /** Text made only of white space trims to nothing. */
  lemma TrimAllSpace(s: string)
    requires forall k :: 0 <= k < |s| ==> IsSpace(s[k])
    ensures Trim(s) == ""
  {
  }

  // The pattern, stated declaratively.

  /** `\d*\.?\d*`: digits, then optionally a `.` and more digits. */
  predicate IsBody(t: string) {
    var a := DigitPrefix(t);
    var rest := t[|a|..];
    rest == [] || (rest[0] == '.' && AllDigits(rest[1..]))
  }

  /** Group 1, `-?\d*\.?\d*`. */
  predicate IsFirst(t: string) {
    IsBody(t) || (t != [] && t[0] == '-' && IsBody(t[1..]))
  }

  /** Group 2, `[+\-]\d*\.?\d*`. */
  predicate IsSigned(t: string) {
    t != [] && (t[0] == '+' || t[0] == '-') && IsBody(t[1..])
  }

  /** The three groups of a match; `signed` is None when group 2 takes no part. */
  datatype Groups = Groups(first: string, signed: Option<string>, hasI: bool)

  function SignedText(g: Groups): string {
    if g.signed.Some? then g.signed.value else ""
  }

  function Text(g: Groups): string {
    g.first + SignedText(g) + (if g.hasI then "i" else "")
  }

  /** `g` splits `s` the way the pattern allows. */
  predicate Matches(s: string, g: Groups) {
    IsFirst(g.first) && (g.signed.Some? ==> IsSigned(g.signed.value)) && s == Text(g)
  }

  // The scanner.

  /** The longest prefix of `u` of the form `\d*\.?\d*`. */
  function BodyPrefix(u: string): (r: string)
    ensures |r| <= |u|
  {
    var a := DigitPrefix(u);
    var rest := u[|a|..];
    if rest != [] && rest[0] == '.' then a + "." + DigitPrefix(rest[1..]) else a
  }

  lemma BodyPrefixSound(u: string)
    ensures BodyPrefix(u) <= u && IsBody(BodyPrefix(u))
  {
    var a := DigitPrefix(u);
    var rest := u[|a|..];
    assert u == a + rest;
    if rest != [] && rest[0] == '.' {
      var b := DigitPrefix(rest[1..]);
      DigitPrefixOf(a, "." + b);
      assert a + "." + b == a + ("." + b);
      assert (a + "." + b)[|a|..] == "." + b;
      assert ("." + b)[1..] == b;
      assert rest == "." + rest[1..];
    } else {
      DigitPrefixOf(a, []);
      assert a + [] == a;
    }
  }

  /** Something that cannot continue a body: the end, or neither a digit nor a `.`. */
  predicate EndsBody(w: string) {
    w == [] || (!IsDigit(w[0]) && w[0] != '.')
  }

  lemma BodyPrefixWhole(a: string, w: string)
    requires AllDigits(a) && EndsBody(w)
    ensures BodyPrefix(a + w) == a
  {
    DigitPrefixOf(a, w);
    assert (a + w)[|a|..] == w;
  }

  lemma BodyPrefixDot(a: string, d: string, w: string)
    requires AllDigits(a) && AllDigits(d) && EndsBody(w)
    ensures BodyPrefix(a + "." + d + w) == a + "." + d
  {
    var u := a + "." + d + w;
    var rest := "." + d + w;
    assert u == a + rest;
    DigitPrefixOf(a, rest);
    assert u[|a|..] == rest;
    assert rest[1..] == d + w;
    DigitPrefixOf(d, w);
  }

  /** A body followed by something that cannot continue it is read exactly. */
  lemma BodyPrefixOf(p: string, w: string)
    requires IsBody(p) && EndsBody(w)
    ensures BodyPrefix(p + w) == p
  {
    var a := DigitPrefix(p);
    var rp := p[|a|..];
    assert p == a + rp;
    if rp == [] {
      assert p == a;
      BodyPrefixWhole(a, w);
    } else {
      var d := rp[1..];
      assert p == a + "." + d;
      BodyPrefixDot(a, d, w);
    }
  }

  /** Group 1 as the scanner reads it: an optional `-` and the longest body after it. */
  function ScanFirst(s: string): (r: string)
    ensures |r| <= |s|
  {
    if s != [] && s[0] == '-' then "-" + BodyPrefix(s[1..]) else BodyPrefix(s)
  }

  /** Group 2 as the scanner reads it from `rest`, the text after group 1. */
  function ScanSigned(rest: string): (r: Option<string>)
    ensures r.Some? ==> |r.value| <= |rest|
  {
    if rest != [] && (rest[0] == '+' || rest[0] == '-') then
      Some([rest[0]] + BodyPrefix(rest[1..]))
    else None
  }

  /** Reads the groups of `s`, or None when the pattern does not match it. */
  function Scan(s: string): Option<Groups> {
    var first := ScanFirst(s);
    var rest := s[|first|..];
    var signed := ScanSigned(rest);
    var tail := if signed.Some? then rest[|signed.value|..] else rest;
    if tail == [] then Some(Groups(first, signed, false))
    else if tail == "i" then Some(Groups(first, signed, true))
    else None
  }

  lemma ScanFirstSound(s: string)
    ensures ScanFirst(s) <= s && IsFirst(ScanFirst(s))
  {
    if s != [] && s[0] == '-' {
      var b := BodyPrefix(s[1..]);
      BodyPrefixSound(s[1..]);
      assert ("-" + b)[1..] == b;
    } else {
      BodyPrefixSound(s);
    }
  }

  lemma ScanSignedSound(rest: string)
    ensures var r := ScanSigned(rest); r.Some? ==> r.value <= rest && IsSigned(r.value)
  {
    if rest != [] && (rest[0] == '+' || rest[0] == '-') {
      var b := BodyPrefix(rest[1..]);
      BodyPrefixSound(rest[1..]);
      assert ([rest[0]] + b)[1..] == b;
    }
  }

  /** Groups read off one after another make up the text they were read from. */
  lemma MatchesOf(s: string, first: string, signed: Option<string>, tail: string)
    requires first <= s && IsFirst(first)
    requires signed.Some? ==> IsSigned(signed.value) && s[|first|..] == signed.value + tail
    requires signed.None? ==> s[|first|..] == tail
    requires tail == [] || tail == "i"
    ensures Matches(s, Groups(first, signed, tail == "i"))
  {
    var g := Groups(first, signed, tail == "i");
    assert s == s[..|first|] + s[|first|..];
    assert tail == (if g.hasI then "i" else "");
    assert s == first + (SignedText(g) + tail);
  }

  /** Soundness: what the scanner reports is a match. */
  lemma ScanSound(s: string)
    ensures Scan(s).Some? ==> Matches(s, Scan(s).value)
  {
    var first := ScanFirst(s);
    var rest := s[|first|..];
    ScanFirstSound(s);
    if ScanSigned(rest).Some? {
      ScanSoundSigned(s, first, rest);
    } else if rest == [] || rest == "i" {
      MatchesOf(s, first, None, rest);
    }
  }

  lemma ScanSoundSigned(s: string, first: string, rest: string)
    requires first == ScanFirst(s) && first <= s && IsFirst(first) && rest == s[|first|..]
    requires ScanSigned(rest).Some?
    ensures Scan(s).Some? ==> Matches(s, Scan(s).value)
  {
    var v := ScanSigned(rest).value;
    var tail := rest[|v|..];
    ScanSignedSound(rest);
    assert rest == v + tail;
    if tail == [] || tail == "i" {
      MatchesOf(s, first, Some(v), tail);
    }
  }

  /** Text that can follow group 1 in a match: the end, a sign or `i`. */
  predicate FollowsFirst(w: string) {
    w == [] || w[0] == '+' || w[0] == '-' || w[0] == 'i'
  }

  /** Group 1 followed by what a match lets follow it is read exactly, unless it is empty
      and a `-` follows: then the `-` is read as part of group 1. */
  lemma ScanFirstFinds(first: string, w: string)
    requires IsFirst(first) && FollowsFirst(w)
    requires first != [] || w == [] || w[0] != '-'
    ensures ScanFirst(first + w) == first
  {
    var s := first + w;
    if first != [] && first[0] == '-' && IsBody(first[1..]) {
      assert s[1..] == first[1..] + w;
      BodyPrefixOf(first[1..], w);
      assert "-" + first[1..] == first;
    } else {
      if first != [] {
        assert IsDigit(first[0]) || first[0] == '.';
      }
      BodyPrefixOf(first, w);
    }
  }

  /** Group 2 followed by what a match lets follow it is read exactly. */
  lemma ScanSignedFinds(v: string, iText: string)
    requires IsSigned(v) && (iText == [] || iText == "i")
    ensures ScanSigned(v + iText) == Some(v)
  {
    var rest := v + iText;
    assert rest[1..] == v[1..] + iText;
    BodyPrefixOf(v[1..], iText);
    assert [v[0]] + v[1..] == v;
  }

  /** The scanner finds every match whose first group is not empty, or that does not start
      with `-`. */
  lemma ScanFinds(s: string, g: Groups)
    requires Matches(s, g)
    requires g.first != [] || s == [] || s[0] != '-'
    ensures Scan(s) == Some(g)
  {
    var iText := if g.hasI then "i" else "";
    var w := SignedText(g) + iText;
    assert s == g.first + w;
    ScanFirstFinds(g.first, w);
    var rest := s[|g.first|..];
    assert rest == w;
    if g.signed.Some? {
      var v := g.signed.value;
      ScanSignedFinds(v, iText);
      assert rest[|v|..] == iText;
    }
  }

  /** Completeness: the scanner finds a match whenever the pattern has one. */
  lemma ScanComplete(s: string, g: Groups)
    requires Matches(s, g)
    ensures Scan(s).Some?
  {
    if g.first != [] || s == [] || s[0] != '-' {
      ScanFinds(s, g);
    } else {
      var h := LongerSplit(s, g);
      ScanFinds(s, h);
    }
  }

  /** A match with an empty group 1 and a group 2 that starts with `-` has a counterpart in
      which the `-` and its digits form group 1 instead. */
  lemma LongerSplit(s: string, g: Groups) returns (h: Groups)
    requires Matches(s, g) && g.first == [] && s != [] && s[0] == '-'
    ensures Matches(s, h) && h.first != []
  {
    var iText := if g.hasI then "i" else "";
    assert s == SignedText(g) + iText;
    assert g.signed.Some?;
    h := Groups(g.signed.value, None, g.hasI);
    assert Text(h) == s;
  }

  /** The match the scanner reports is the one with the longest group 1, and no other match
      has a group 1 of the same length: it is the match a backtracking engine, trying the
      optional `-` and the digits greedily, stops at first. */
  lemma ScanLongest(s: string, g: Groups)
    requires Matches(s, g)
    ensures Scan(s).Some?
    ensures |g.first| <= |Scan(s).value.first|
    ensures |g.first| == |Scan(s).value.first| ==> g == Scan(s).value
  {
    if g.first != [] || s == [] || s[0] != '-' {
      ScanFinds(s, g);
    } else {
      var h := LongerSplit(s, g);
      ScanFinds(s, h);
    }
  }

  // Decoding the groups (main.js:72-99).

  /** The value a match stands for. With `i` and a signed part, the real part is
      parseFloat of group 1 (NaN when it is empty) and a sign alone counts as 1; with `i`
      alone, group 1 (when there is one) is the imaginary part; without `i`, group 2 is
      dropped. */
  function Decode(g: Groups): Complex
    requires g.signed.Some? ==> g.signed.value != []
  {
    if g.hasI then
      if g.signed.Some? then
        var v := g.signed.value;
        var sign := v[..1];
        var digits := v[1..];
        Complex(ParseFloat(g.first), ParseFloat(sign + (if digits == "" then "1" else digits)))
      else if g.first != "" then Complex(Fin(0.0), ParseFloat(g.first))
      else Complex(Fin(0.0), Fin(1.0))
    else Complex(ParseFloat(g.first), Fin(0.0))
  }

  function ParseComplexString(str: string): Complex {
    var t := Trim(str);
    if t == "" then Zero
    else match Scan(t)
      case None => Invalid
      case Some(g) =>
        if t == "i" then Complex(Fin(0.0), Fin(1.0))
        else if t == "-i" then Complex(Fin(0.0), Fin(-1.0))
        else Decode(g)
  }

  /** Input that trims to nothing reads as 0. */
  lemma ParseBlank(str: string)
    requires forall k :: 0 <= k < |str| ==> IsSpace(str[k])
    ensures ParseComplexString(str) == Zero
  {
    TrimAllSpace(str);
  }

  /** Input outside the pattern reads as NaN in both parts. */
  lemma ParseNoMatch(str: string)
    requires Trim(str) != ""
    requires forall g :: !Matches(Trim(str), g)
    ensures ParseComplexString(str) == Invalid
  {
    ScanSound(Trim(str));
  }

  /** A body is made of digits and `.`. */
  lemma BodyChars(t: string)
    requires IsBody(t)
    ensures AllValueChars(t)
  {
    var a := DigitPrefix(t);
    var rest := t[|a|..];
    assert t == a + rest;
    assert AllValueChars(a);
    if rest != [] {
      assert rest == [rest[0]] + rest[1..];
      assert AllValueChars(rest[1..]);
      ConcatValueChars([rest[0]], rest[1..]);
    }
    ConcatValueChars(a, rest);
  }

  /** Text the pattern matches is made of digits, `.`, signs and `i`. */
  lemma MatchChars(s: string, g: Groups)
    requires Matches(s, g)
    ensures AllValueChars(s)
  {
    if IsBody(g.first) {
      BodyChars(g.first);
    } else {
      BodyChars(g.first[1..]);
      assert g.first == "-" + g.first[1..];
      ConcatValueChars("-", g.first[1..]);
    }
    if g.signed.Some? {
      var v := g.signed.value;
      BodyChars(v[1..]);
      assert v == [v[0]] + v[1..];
      ConcatValueChars([v[0]], v[1..]);
    }
    ConcatValueChars(g.first, SignedText(g));
    ConcatValueChars(g.first + SignedText(g), if g.hasI then "i" else "");
  }

  /** Input holding, after trimming, any character other than a digit, `.`, a sign or `i`
      reads as NaN in both parts. */
  lemma ParseForeignChar(str: string, k: nat)
    requires k < |Trim(str)| && !IsValueChar(Trim(str)[k])
    ensures ParseComplexString(str) == Invalid
  {
    var t := Trim(str);
    forall g: Groups
      ensures !Matches(t, g)
    {
      if Matches(t, g) {
        MatchChars(t, g);
      }
    }
    ParseNoMatch(str);
  }

  /** A body holds digits and at most one `.`. */
  lemma BodyShape(t: string)
    requires IsBody(t)
    ensures forall k :: 0 <= k < |t| ==> IsDigit(t[k]) || t[k] == '.'
    ensures forall j, k :: 0 <= j < k < |t| && t[j] == '.' ==> t[k] != '.'
  {
    var a := DigitPrefix(t);
    var rest := t[|a|..];
    assert t == a + rest;
    forall k | 0 <= k < |t|
      ensures IsDigit(t[k]) || t[k] == '.'
      ensures t[k] == '.' ==> k == |a|
    {
      if k < |a| {
        assert t[k] == a[k];
      } else if k > |a| {
        assert t[k] == rest[1..][k - |a| - 1];
      }
    }
  }

  /** Group 1 holds no `+`, and a `-` only at its start. */
  lemma FirstSigns(f: string)
    requires IsFirst(f)
    ensures forall j :: 0 <= j < |f| ==> f[j] != '+' && (f[j] == '-' ==> j == 0)
  {
    if IsBody(f) {
      BodyShape(f);
    } else {
      BodyShape(f[1..]);
      assert forall j :: 1 <= j < |f| ==> f[j] == f[1..][j - 1];
    }
  }

  /** Group 2 holds no sign after its first character. */
  lemma SignedSigns(v: string)
    requires IsSigned(v)
    ensures forall j :: 1 <= j < |v| ==> v[j] != '+' && v[j] != '-'
  {
    BodyShape(v[1..]);
    assert forall j :: 1 <= j < |v| ==> v[j] == v[1..][j - 1];
  }

  /** No `+` in `t` is directly followed by a sign. */
  predicate NoPlusSign(t: string) {
    forall k :: 0 <= k < |t| - 1 && t[k] == '+' ==> t[k + 1] != '+' && t[k + 1] != '-'
  }

  lemma PartsNoPlusSign(f: string, v: string, iText: string)
    requires forall j :: 0 <= j < |f| ==> f[j] != '+'
    requires v == [] || forall j :: 1 <= j < |v| ==> v[j] != '+' && v[j] != '-'
    requires iText == [] || iText == "i"
    ensures NoPlusSign(f + v + iText)
  {
    var t := f + v + iText;
    assert forall j :: 0 <= j < |f| ==> t[j] == f[j];
    assert forall j :: 0 <= j < |v| ==> t[|f| + j] == v[j];
    assert forall j :: 0 <= j < |iText| ==> t[|f| + |v| + j] == iText[j];
  }

  /** Text the pattern matches has no `+` directly followed by a sign. */
  lemma MatchNoPlusSign(t: string, g: Groups)
    requires Matches(t, g)
    ensures NoPlusSign(t)
  {
    FirstSigns(g.first);
    if g.signed.Some? {
      SignedSigns(g.signed.value);
    }
    PartsNoPlusSign(g.first, SignedText(g), if g.hasI then "i" else "");
  }

  /** Text whose trimmed form has a `+` directly followed by a sign is not a complex value:
      a `+` can only open group 2, which holds no further sign. */
  lemma ParsePlusSign(str: string, k: nat)
    requires var t := Trim(str); k + 1 < |t| && t[k] == '+' && (t[k + 1] == '+' || t[k + 1] == '-')
    ensures ParseComplexString(str) == Invalid
  {
    var t := Trim(str);
    forall g: Groups
      ensures !Matches(t, g)
    {
      if Matches(t, g) {
        MatchNoPlusSign(t, g);
      }
    }
    ParseNoMatch(str);
  }

  /** Every two `.` in `t` have a sign between them. */
  predicate PointsApart(t: string) {
    forall j, k :: 0 <= j < k < |t| && t[j] == '.' && t[k] == '.' ==>
      exists m :: j < m < k && (t[m] == '+' || t[m] == '-')
  }

  lemma PartsPointsApart(f: string, v: string, iText: string)
    requires forall j, k :: 0 <= j < k < |f| && f[j] == '.' ==> f[k] != '.'
    requires forall j, k :: 0 <= j < k < |v| && v[j] == '.' ==> v[k] != '.'
    requires v != [] ==> v[0] == '+' || v[0] == '-'
    requires iText == [] || iText == "i"
    ensures PointsApart(f + v + iText)
  {
    var t := f + v + iText;
    assert forall j :: 0 <= j < |f| ==> t[j] == f[j];
    assert forall j :: 0 <= j < |v| ==> t[|f| + j] == v[j];
    assert forall j :: 0 <= j < |iText| ==> t[|f| + |v| + j] == iText[j];
    forall j, k | 0 <= j < k < |t| && t[j] == '.' && t[k] == '.'
      ensures exists m :: j < m < k && (t[m] == '+' || t[m] == '-')
    {
      assert j < |f| <= k;
      assert t[|f|] == v[0];
    }
  }

  /** In text the pattern matches, every two `.` have a sign between them: each part is a
      single numeral. */
  lemma MatchPointsApart(t: string, g: Groups)
    requires Matches(t, g)
    ensures PointsApart(t)
  {
    var f := g.first;
    if IsBody(f) {
      BodyShape(f);
    } else {
      BodyShape(f[1..]);
      assert forall j :: 1 <= j < |f| ==> f[j] == f[1..][j - 1];
    }
    if g.signed.Some? {
      var v := g.signed.value;
      BodyShape(v[1..]);
      assert forall j :: 1 <= j < |v| ==> v[j] == v[1..][j - 1];
    }
    PartsPointsApart(f, SignedText(g), if g.hasI then "i" else "");
  }

  /** Text whose trimmed form has two `.` with no sign between them is not a complex value. */
  lemma ParseTwoPoints(str: string, j: nat, k: nat)
    requires var t := Trim(str); j < k < |t| && t[j] == '.' && t[k] == '.'
    requires var t := Trim(str); forall m :: j < m < k ==> t[m] != '+' && t[m] != '-'
    ensures ParseComplexString(str) == Invalid
  {
    var t := Trim(str);
    forall g: Groups
      ensures !Matches(t, g)
    {
      if Matches(t, g) {
        MatchPointsApart(t, g);
      }
    }
    ParseNoMatch(str);
  }

  /** Input the pattern matches, other than `i` and `-i`, reads as the value of its match:
      of `g` itself unless `g` leaves group 1 empty before a group 2 that starts with `-`
      (the one other split, which the pattern does not report), and in any case of a match
      the scanner reports. */
  lemma ParseMatch(str: string, g: Groups)
    requires var t := Trim(str); t != "" && t != "i" && t != "-i" && Matches(t, g)
    ensures (g.first != [] || Trim(str)[0] != '-') ==> ParseComplexString(str) == Decode(g)
    ensures Scan(Trim(str)).Some? && Matches(Trim(str), Scan(Trim(str)).value)
    ensures ParseComplexString(str) == Decode(Scan(Trim(str)).value)
  {
    var t := Trim(str);
    ScanComplete(t, g);
    ScanSound(t);
    if g.first != [] || t[0] != '-' {
      ScanFinds(t, g);
    }
  }

  /** Trimmed input with a match the scanner finds reads as the value of that match. */
  lemma ParseFound(t: string, g: Groups)
    requires t != "" && t != "i" && t != "-i"
    requires !IsSpace(t[0]) && !IsSpace(t[|t| - 1])
    requires Matches(t, g) && (g.first != [] || t[0] != '-')
    ensures ParseComplexString(t) == Decode(g)
  {
    TrimUnchanged(t);
    ScanFinds(t, g);
    ScanSound(t);
  }

  // Reading back what the display shows.

  /** The printed magnitude of a number is a body that starts with a digit. */
  lemma MagnitudeBody(y: real, d: nat)
    requires y >= 0.0
    ensures var m := MagnitudeText(y, d); m != [] && IsDigit(m[0]) && IsBody(m)
  {
    var (a, b) := MagnitudeDigits(y, d);
    if b == [] {
      DigitPrefixOf(a, []);
      assert a + [] == a;
    } else {
      DigitPrefixOf(a, "." + b);
      assert a + "." + b == a + ("." + b);
      assert (a + ("." + b))[|a|..] == "." + b;
      assert ("." + b)[1..] == b;
    }
  }

  /** A printed number is a group 1, and not a `-` alone. */
  lemma NumberTextFirst(x: real)
    ensures IsFirst(NumberText(x)) && NumberText(x) != "-"
  {
    var m := MagnitudeText(Abs(x), FractionDigits);
    MagnitudeBody(Abs(x), FractionDigits);
    if x < 0.0 && Truncated(-x, FractionDigits) > 0 {
      assert NumberText(x) == "-" + m;
      assert ("-" + m)[1..] == m;
    } else {
      assert NumberText(x) == m;
    }
  }

  /** A number that is not negative prints as a body. */
  lemma NumberTextBody(y: real)
    requires y >= 0.0
    ensures IsBody(NumberText(y))
  {
    assert NumberText(y) == MagnitudeText(y, FractionDigits);
    MagnitudeBody(y, FractionDigits);
  }

  /** Digits, signs, `.` and `i` are not white space. */
  lemma PatternCharNotSpace(c: char)
    requires IsDigit(c) || c == '.' || c == '-' || c == '+' || c == 'i'
    ensures !IsSpace(c)
  {
  }

  /** The last character of a printed number is a digit or a `.`, or it is its only one. */
  lemma NumberTextEnds(x: real)
    ensures var t := NumberText(x); t != [] && !IsSpace(t[0]) && !IsSpace(t[|t| - 1])
  {
    var t := NumberText(x);
    NumberTextShape(x);
    NumberTextChars(x);
    PatternCharNotSpace(t[0]);
    PatternCharNotSpace(t[|t| - 1]);
  }

  /** Trimmed text that is a group 1 alone, without `i`, reads as its group says. */
  lemma RealFound(u: string)
    requires u != [] && IsFirst(u) && 'i' !in u
    requires !IsSpace(u[0]) && !IsSpace(u[|u| - 1])
    ensures ParseComplexString(u) == Decode(Groups(u, None, false))
  {
    var g := Groups(u, None, false);
    assert Text(g) == u + "" + "";
    assert u != "i" && u != "-i" by {
      assert 'i' in "i" && 'i' in "-i";
    }
    ParseFound(u, g);
  }

  /** Trimmed text that is a group 1 and `i` reads as its group says. */
  lemma ImaginaryFound(u: string)
    requires u != [] && u != "-" && IsFirst(u) && !IsSpace(u[0])
    ensures ParseComplexString(u + "i") == Decode(Groups(u, None, true))
  {
    var t := u + "i";
    var g := Groups(u, None, true);
    assert Text(g) == u + "" + "i";
    assert t != "-i" by {
      if |t| == 2 {
        assert u == [t[0]];
      }
    }
    assert t[0] == u[0] && t[|t| - 1] == 'i';
    ParseFound(t, g);
  }

  /** A printed number with nothing after it reads back as that real with no imaginary part. */
  lemma RealRoundTrip(x: real)
    requires Printable(x)
    ensures ParseComplexString(NumberText(x)) == Complex(Fin(x), Fin(0.0))
  {
    NumberTextFirst(x);
    NumberTextNoUnit(x);
    NumberTextEnds(x);
    RealFound(NumberText(x));
    NumberRoundTrip(x);
  }

  /** A printed number followed by `i` reads back as a pure imaginary value. */
  lemma ImaginaryRoundTrip(y: real)
    requires Printable(y)
    ensures ParseComplexString(NumberText(y) + "i") == Complex(Fin(0.0), Fin(y))
  {
    NumberTextFirst(y);
    NumberTextEnds(y);
    ImaginaryFound(NumberText(y));
    NumberRoundTrip(y);
  }

  /** A sign alone reads as 1 or -1. */
  lemma SignAloneValue(sign: string)
    requires sign == "+" || sign == "-"
    ensures ParseFloat(sign + "1") == Fin(if sign == "-" then -1.0 else 1.0)
  {
    ReadInteger("1");
    assert (sign + "1")[1..] == "1";
  }

  /** Reading a sign and the printed magnitude shown after it, which is empty for 1. */
  lemma SignedPartRoundTrip(y: real, sign: string, m: string)
    requires y != 0.0 && Printable(y)
    requires sign == (if y >= 0.0 then "+" else "-")
    requires m == (if Abs(y) == 1.0 then "" else NumberText(Abs(y)))
    ensures IsSigned(sign + m)
    ensures ParseFloat(sign + (if m == "" then "1" else m)) == Fin(y)
  {
    var v := sign + m;
    assert v[1..] == m;
    if m == "" {
      assert DigitPrefix("") == "";
      SignAloneValue(sign);
    } else {
      if y < 0.0 {
        FitsNegate(y, FractionDigits);
      }
      NumberTextBody(Abs(y));
      SignedRoundTrip(sign[0], Abs(y));
      assert [sign[0]] + m == sign + m;
    }
  }

  /** Trimmed text made of a nonempty group 1, group 2 and `i` reads as its groups say. */
  lemma PairTextFound(u: string, v: string)
    requires u != [] && IsFirst(u) && !IsSpace(u[0]) && IsSigned(v)
    ensures ParseComplexString(u + v + "i") == Decode(Groups(u, Some(v), true))
  {
    var t := u + v + "i";
    var g := Groups(u, Some(v), true);
    assert Text(g) == t;
    assert t[0] == u[0] && t[|t| - 1] == 'i';
    ParseFound(t, g);
  }

  /** A printed number, a group 2 and `i` read as their groups say. */
  lemma PairFound(x: real, v: string)
    requires IsSigned(v)
    ensures ParseComplexString(NumberText(x) + v + "i") == Decode(Groups(NumberText(x), Some(v), true))
  {
    NumberTextFirst(x);
    NumberTextEnds(x);
    PairTextFound(NumberText(x), v);
  }

  /** The groups of a printed value with both parts nonzero stand for that value. */
  lemma PairDecode(x: real, y: real, sign: string, m: string)
    requires y != 0.0 && Printable(x) && Printable(y)
    requires sign == (if y >= 0.0 then "+" else "-")
    requires m == (if Abs(y) == 1.0 then "" else NumberText(Abs(y)))
    ensures IsSigned(sign + m)
    ensures Decode(Groups(NumberText(x), Some(sign + m), true)) == Complex(Fin(x), Fin(y))
  {
    SignedPartRoundTrip(y, sign, m);
    NumberRoundTrip(x);
    assert (sign + m)[..1] == sign && (sign + m)[1..] == m;
  }

  /** A value with both parts nonzero reads back from its display text. */
  lemma PairRoundTrip(x: real, y: real)
    requires x != 0.0 && y != 0.0 && Printable(x) && Printable(y)
    ensures ParseComplexString(ToString(Complex(Fin(x), Fin(y)))) == Complex(Fin(x), Fin(y))
  {
    var sign, m := ToStringPair(x, y);
    PairDecode(x, y, sign, m);
    PairFound(x, sign + m);
  }

  /** Round trip: reading back the display text of a finite value whose parts print exactly
      gives that value. */
  lemma ToStringRoundTrip(z: Complex)
    requires IsFinite(z) && Printable(z.re.value) && Printable(z.im.value)
    ensures ParseComplexString(ToString(z)) == z
  {
    var x, y := z.re.value, z.im.value;
    if y == 0.0 {
      RealRoundTrip(x);
    } else if x == 0.0 {
      if y == 1.0 || y == -1.0 {
        assert ToString(z) == if y == 1.0 then "i" else "-i";
        ParseUnit();
      } else {
        ImaginaryRoundTrip(y);
      }
    } else {
      PairRoundTrip(x, y);
    }
  }

  /** The display text of a value with a NaN part reads back as NaN in both parts. */
  lemma ErrorRoundTrip(z: Complex)
    requires !IsFinite(z)
    ensures ParseComplexString(ToString(z)) == Invalid
  {
    assert ToString(z) == "Error";
    ParseError();
  }

  lemma ParseError()
    ensures ParseComplexString("Error") == Invalid
  {
    TrimUnchanged("Error");
    ParseForeignChar("Error", 0);
  }

  lemma ParseUnit()
    ensures ParseComplexString("i") == Complex(Fin(0.0), Fin(1.0))
    ensures ParseComplexString("-i") == Complex(Fin(0.0), Fin(-1.0))
  {
    assert Trim("i") == "i" && Scan("i").Some?;
    assert Trim("-i") == "-i" && Scan("-i").Some?;
  }

  // Whole numbers and the shapes the display comments in main.js list.

  /** Concatenation regrouped, stated apart so that the proofs using it see only this fact. */
  lemma Regroup(a: string, b: string, c: string, d: string)
    ensures a + (b + c) + d == a + b + c + d
  {
  }

  /** A nonempty digit string is a body and reads as the whole number it spells. */
  lemma IntegerText(a: string)
    requires a != [] && AllDigits(a)
    ensures IsBody(a) && ParseFloat(a) == Fin(DigitsValue(a) as real)
    ensures !IsSpace(a[0]) && !IsSpace(a[|a| - 1]) && 'i' !in a
  {
    DigitPrefixOf(a, []);
    assert a + [] == a;
    ReadInteger(a);
    PatternCharNotSpace(a[0]);
    PatternCharNotSpace(a[|a| - 1]);
  }

  /** A sign and a digit string form a group 2 that reads as the signed whole number. */
  lemma SignedInteger(sign: char, b: string)
    requires b != [] && AllDigits(b) && (sign == '+' || sign == '-')
    ensures IsSigned([sign] + b)
    ensures ParseFloat([sign] + b)
         == Fin(if sign == '-' then -(DigitsValue(b) as real) else DigitsValue(b) as real)
  {
    IntegerText(b);
    assert ([sign] + b)[1..] == b;
  }

  /** Digits alone: a real value. */
  lemma ParseWhole(a: string)
    requires a != [] && AllDigits(a)
    ensures ParseComplexString(a) == Complex(Fin(DigitsValue(a) as real), Fin(0.0))
  {
    IntegerText(a);
    RealFound(a);
  }

  /** Digits and `i`: a pure imaginary value. */
  lemma ParseWholeImaginary(a: string)
    requires a != [] && AllDigits(a)
    ensures ParseComplexString(a + "i") == Complex(Fin(0.0), Fin(DigitsValue(a) as real))
  {
    IntegerText(a);
    ImaginaryFound(a);
  }

  /** Digits, a sign, digits and `i`: both parts. */
  lemma ParseWholePair(a: string, sign: char, b: string)
    requires a != [] && AllDigits(a) && b != [] && AllDigits(b) && (sign == '+' || sign == '-')
    ensures ParseComplexString(a + [sign] + b + "i")
         == Complex(Fin(DigitsValue(a) as real),
                    Fin(if sign == '-' then -(DigitsValue(b) as real) else DigitsValue(b) as real))
  {
    IntegerText(a);
    SignedInteger(sign, b);
    PairTextFound(a, [sign] + b);
    Regroup(a, [sign], b, "i");
    assert ([sign] + b)[..1] == [sign] && ([sign] + b)[1..] == b;
  }

  /** Digits, a sign and `i`: a sign alone stands for 1. */
  lemma ParseWholeUnit(a: string, sign: char)
    requires a != [] && AllDigits(a) && (sign == '+' || sign == '-')
    ensures ParseComplexString(a + [sign] + "i")
         == Complex(Fin(DigitsValue(a) as real), Fin(if sign == '-' then -1.0 else 1.0))
  {
    IntegerText(a);
    assert DigitPrefix([]) == [];
    assert IsSigned([sign]);
    PairTextFound(a, [sign]);
    SignAloneValue([sign]);
    assert [sign][1..] == [];
    assert [sign][..1] == [sign];
  }

  /** A `+` with nothing before it leaves group 1 empty, and parseFloat of the empty string
      is NaN: the real part is NaN. */
  lemma ParseMissingReal(b: string)
    requires AllDigits(b)
    ensures ParseComplexString("+" + b + "i")
         == Complex(NaN, Fin(if b == [] then 1.0 else DigitsValue(b) as real))
  {
    var g := Groups("", Some("+" + b), true);
    var t := "+" + b + "i";
    assert DigitPrefix("") == "";
    if b == [] {
      assert IsBody(b);
      SignAloneValue("+");
    } else {
      SignedInteger('+', b);
      assert ['+'] + b == "+" + b;
    }
    assert Text(g) == t;
    assert ("+" + b)[..1] == "+" && ("+" + b)[1..] == b;
    assert t != "i" && t != "-i" by {
      assert t[0] == '+';
    }
    ParseFound(t, g);
  }

  /** Without `i`, group 2 is matched but dropped. */
  lemma ParseDropsSigned(a: string, sign: char, b: string)
    requires a != [] && AllDigits(a) && AllDigits(b) && (sign == '+' || sign == '-')
    ensures ParseComplexString(a + ([sign] + b)) == Complex(Fin(DigitsValue(a) as real), Fin(0.0))
  {
    IntegerText(a);
    var v := [sign] + b;
    assert v[1..] == b;
    if b == [] {
      assert DigitPrefix([]) == [];
      PatternCharNotSpace(sign);
    } else {
      IntegerText(b);
      assert v[|v| - 1] == b[|b| - 1];
    }
    DropsSignedFound(a, v);
  }

  lemma DropsSignedFound(a: string, v: string)
    requires a != [] && IsFirst(a) && !IsSpace(a[0]) && a[0] != '-'
    requires IsSigned(v) && !IsSpace(v[|v| - 1])
    ensures ParseComplexString(a + v) == Decode(Groups(a, Some(v), false))
  {
    var t := a + v;
    var g := Groups(a, Some(v), false);
    assert Text(g) == t;
    assert t[0] == a[0] && t[|t| - 1] == v[|v| - 1];
    ParseFound(t, g);
  }

  // Examples.

  /** The text of 3i, stated apart from the parse for the same reason as `Regroup`. */
  lemma SpellImaginary()
    ensures "3" + "i" == "3i"
  {
  }

  /** "5" reads as 5. */
  lemma ExampleWhole()
    ensures ParseComplexString("5") == Complex(Fin(5.0), Fin(0.0))
  {
    ParseWhole("5");
  }

  /** "3i" reads as 3i. */
  lemma ExampleImaginary()
    ensures ParseComplexString("3i") == Complex(Fin(0.0), Fin(3.0))
  {
    ParseWholeImaginary("3");
    SpellImaginary();
  }

  /** "abc" is not a complex value. */
  lemma ExampleLetters()
    ensures ParseComplexString("abc") == Invalid
  {
    TrimUnchanged("abc");
    ParseForeignChar("abc", 0);
  }

  /** "(2)" is not a complex value. */
  lemma ExampleParenthesis()
    ensures ParseComplexString("(2)") == Invalid
  {
    TrimUnchanged("(2)");
    ParseForeignChar("(2)", 0);
  }

  /** "+-i" is not a complex value. */
  lemma ExamplePlusMinus()
    ensures ParseComplexString("+-i") == Invalid
  {
    TrimUnchanged("+-i");
    ParsePlusSign("+-i", 0);
  }

  /** "1.2.3i" is not a complex value. */
  lemma ExampleTwoPoints()
    ensures ParseComplexString("1.2.3i") == Invalid
  {
    TrimUnchanged("1.2.3i");
    ParseTwoPoints("1.2.3i", 1, 3);
  }
}
