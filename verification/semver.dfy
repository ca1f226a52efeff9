/** Semantic versions as golang.org/x/mod/semver reads them (`v` prefix required,
    shorthands `v1` and `v1.2`, dot-separated pre-release identifiers, ignored build
    metadata), plus the release pattern `^v?\d+\.\d+\.\d+$` used to pick "zero" releases. */
module Semver {
  import opened Wrappers
  import opened Strings
  import opened Ordering

  /** A pre-release identifier: numeric ones compare by value and come before
      alphanumeric ones, which compare as strings. */
  datatype Ident = Num(n: nat) | Word(w: string)

  /** A parsed version; `majorText` and `minorText` keep the digits as written. */
  datatype Version = Version(
    majorText: string, minorText: string,
    major: nat, minor: nat, patch: nat,
    pre: seq<Ident>)

  predicate IsIdentChar(c: char) {
    IsDigit(c) || 'a' <= c <= 'z' || 'A' <= c <= 'Z' || c == '-'
  }

  predicate IdentChars(s: string) {
    forall i :: 0 <= i < |s| ==> IsIdentChar(s[i])
  }

  /** A numeric identifier with a superfluous leading zero, which semver forbids. */
  predicate BadNum(p: string) {
    |p| > 1 && AllDigits(p) && p[0] == '0'
  }

  predicate ValidPreIdent(p: string) {
    |p| > 0 && IdentChars(p) && !BadNum(p)
  }

  /** Build metadata: nonempty dot-separated identifiers (leading zeros allowed). */
  predicate ValidBuild(b: string) {
    var parts := Split(b, '.');
    forall i :: 0 <= i < |parts| ==> |parts[i]| > 0 && IdentChars(parts[i])
  }

  function ToIdent(p: string): Ident {
    if AllDigits(p) then Num(DigitsValue(p)) else Word(p)
  }

  /** A major, minor or patch number: a digit run with no leading zero unless it is
      "0" itself; returns the digits and the rest of the string. */
  function ParseNumber(s: string): (r: Option<(string, string)>)
    ensures r.Some? ==> |r.value.0| > 0 && AllDigits(r.value.0) && r.value.0 + r.value.1 == s
    ensures r.Some? ==> r.value.0[0] != '0' || |r.value.0| == 1
    ensures r.Some? ==> |r.value.1| == 0 || !IsDigit(r.value.1[0])
    ensures r.None? ==> |s| == 0 || !IsDigit(s[0]) || (s[0] == '0' && 1 < |s| && IsDigit(s[1]))
  {
    var n := DigitPrefixLength(s);
    if n == 0 || (s[0] == '0' && n > 1) then None
    else
      assert s[..n] + s[n..] == s;
      Some((s[..n], s[n..]))
  }

  /** What follows the patch number: nothing, `-pre`, `+build` or `-pre+build`. */
  function ParseSuffix(r: string): Option<seq<Ident>>
  {
    if |r| == 0 then Some([])
    else if r[0] == '-' then
      var k := IndexOf(r, '+');
      var parts := Split(r[1..k], '.');
      if (forall i :: 0 <= i < |parts| ==> ValidPreIdent(parts[i])) && (k == |r| || ValidBuild(r[k + 1..]))
      then Some(seq(|parts|, i requires 0 <= i < |parts| => ToIdent(parts[i])))
      else None
    else if r[0] == '+' then
      if ValidBuild(r[1..]) then Some([]) else None
    else None
  }

  /** Go's `semver.parse`; `None` for an invalid version string. */
  function Parse(v: string): Option<Version>
  {
    if |v| == 0 || v[0] != 'v' then None else ParseMajor(v[1..])
  }

  /** The major number, alone (`v1` means `v1.0.0`) or followed by `.minor`. */
  function ParseMajor(s: string): Option<Version>
  {
    match ParseNumber(s)
    case None => None
    case Some((major, rest)) =>
      if |rest| == 0 then Some(Version(major, "0", DigitsValue(major), 0, 0, []))
      else if rest[0] != '.' then None
      else ParseMinor(major, rest[1..])
  }

  /** The minor number, alone (`v1.2` means `v1.2.0`) or followed by `.patch`. */
  function ParseMinor(major: string, s: string): Option<Version>
    requires AllDigits(major)
  {
    match ParseNumber(s)
    case None => None
    case Some((minor, rest)) =>
      if |rest| == 0 then Some(Version(major, minor, DigitsValue(major), DigitsValue(minor), 0, []))
      else if rest[0] != '.' then None
      else ParsePatch(major, minor, rest[1..])
  }

  /** The patch number and the optional pre-release and build suffixes. */
  function ParsePatch(major: string, minor: string, s: string): Option<Version>
    requires AllDigits(major) && AllDigits(minor)
  {
    match ParseNumber(s)
    case None => None
    case Some((patch, rest)) =>
      match ParseSuffix(rest)
      case None => None
      case Some(pre) => Some(Version(major, minor, DigitsValue(major), DigitsValue(minor), DigitsValue(patch), pre))
  }

  /** `semver.IsValid`. */
  predicate IsValid(v: string) {
    Parse(v).Some?
  }

  /** `semver.MajorMinor`: "v1.2.3-rc.1" gives "v1.2", "v1" gives "v1.0", an invalid
      string gives "". */
  function MajorMinor(v: string): string {
    match Parse(v)
    case None => ""
    case Some(p) => "v" + p.majorText + "." + p.minorText
  }

  /** `semver.Prerelease(v) != ""`. */
  predicate IsPrerelease(v: string) {
    Parse(v).Some? && |Parse(v).value.pre| > 0
  }

  function CmpIdent(a: Ident, b: Ident): int {
    match (a, b)
    case (Num(x), Num(y)) => CmpInt(x, y)
    case (Num(_), Word(_)) => -1
    case (Word(_), Num(_)) => 1
    case (Word(x), Word(y)) => StrCmp(x, y)
  }

  /** No pre-release ranks above any pre-release; otherwise identifier by identifier. */
  function CmpPrerelease(a: seq<Ident>, b: seq<Ident>): int {
    if a == b then 0
    else if |a| == 0 then 1
    else if |b| == 0 then -1
    else SeqCmp(a, b, CmpIdent)
  }

  function CmpVersion(p: Version, q: Version): int {
    if p.major != q.major then CmpInt(p.major, q.major)
    else if p.minor != q.minor then CmpInt(p.minor, q.minor)
    else if p.patch != q.patch then CmpInt(p.patch, q.patch)
    else CmpPrerelease(p.pre, q.pre)
  }

  /** `semver.Compare`: -1, 0 or 1; invalid strings are equal to each other and below
      every valid version. */
  function Compare(v: string, w: string): int {
    match (Parse(v), Parse(w))
    case (None, None) => 0
    case (None, Some(_)) => -1
    case (Some(_), None) => 1
    case (Some(p), Some(q)) => CmpVersion(p, q)
  }

  lemma CmpIdentLaws()
    ensures Preorder(CmpIdent) && Exact(CmpIdent)
  {
    forall a: Ident, b: Ident ensures CmpIdent(a, b) == -CmpIdent(b, a) && (CmpIdent(a, b) == 0 <==> a == b) {
      if a.Word? && b.Word? {
        StrCmpLaws(a.w, b.w, b.w);
      }
    }
    forall a: Ident, b: Ident, c: Ident | CmpIdent(a, b) >= 0 && CmpIdent(b, c) >= 0
      ensures CmpIdent(a, c) >= 0
    {
      if a.Word? && b.Word? && c.Word? {
        StrCmpLaws(a.w, b.w, c.w);
      }
    }
  }

  lemma CmpPrereleaseLaws(a: seq<Ident>, b: seq<Ident>, c: seq<Ident>)
    ensures CmpPrerelease(a, b) == -CmpPrerelease(b, a)
    ensures CmpPrerelease(a, b) == 0 <==> a == b
    ensures CmpPrerelease(a, b) >= 0 && CmpPrerelease(b, c) >= 0 ==> CmpPrerelease(a, c) >= 0
  {
    CmpIdentLaws();
    SeqCmpAntisymmetric(a, b, CmpIdent);
    SeqCmpExact(a, b, CmpIdent);
    if CmpPrerelease(a, b) >= 0 && CmpPrerelease(b, c) >= 0 && a != b && b != c && |a| > 0 && |b| > 0 && |c| > 0 {
      SeqCmpTransitive(a, b, c, CmpIdent);
    }
  }

  lemma CmpVersionLaws(p: Version, q: Version, s: Version)
    ensures CmpVersion(p, q) == -CmpVersion(q, p)
    ensures CmpVersion(p, q) >= 0 && CmpVersion(q, s) >= 0 ==> CmpVersion(p, s) >= 0
  {
    CmpPrereleaseLaws(p.pre, q.pre, s.pre);
    CmpPrereleaseLaws(p.pre, s.pre, q.pre);
  }

  /** `semver.Compare` is a total preorder: swapping the arguments negates the answer,
      and "at least" is transitive. */
  lemma CompareLaws(v: string, w: string, x: string)
    ensures Compare(v, w) == -Compare(w, v)
    ensures Compare(v, v) == 0
    ensures Compare(v, w) >= 0 && Compare(w, x) >= 0 ==> Compare(v, x) >= 0
  {
    if Parse(v).Some? && Parse(w).Some? && Parse(x).Some? {
      CmpVersionLaws(Parse(v).value, Parse(w).value, Parse(x).value);
    } else if Parse(v).Some? && Parse(w).Some? {
      CmpVersionLaws(Parse(v).value, Parse(w).value, Parse(w).value);
    }
  }

  lemma CompareIsPreorder()
    ensures Preorder(Compare)
  {
    forall v, w ensures Compare(v, w) == -Compare(w, v) {
      CompareLaws(v, w, w);
    }
    forall v, w, x | Compare(v, w) >= 0 && Compare(w, x) >= 0 ensures Compare(v, x) >= 0 {
      CompareLaws(v, w, x);
    }
  }

  /** One or more ASCII digits (`\d+`). */
  predicate IsNumeral(s: string) {
    |s| > 0 && AllDigits(s)
  }

  /** A numeral as semver writes it: no leading zero unless it is "0". */
  predicate IsCanonicalNumeral(s: string) {
    IsNumeral(s) && (s[0] != '0' || |s| == 1)
  }

  lemma ParseNumberOf(d: string, rest: string)
    requires IsCanonicalNumeral(d)
    requires |rest| == 0 || !IsDigit(rest[0])
    ensures ParseNumber(d + rest) == Some((d, rest))
  {
    DigitPrefixOf(d, rest);
    assert (d + rest)[..|d|] == d && (d + rest)[|d|..] == rest;
  }

  /** A plain release `vA.B.C` parses to its three numbers with no pre-release. */
  lemma ParseRelease(a: string, b: string, c: string)
    requires IsCanonicalNumeral(a) && IsCanonicalNumeral(b) && IsCanonicalNumeral(c)
    ensures Parse("v" + a + "." + b + "." + c)
         == Some(Version(a, b, DigitsValue(a), DigitsValue(b), DigitsValue(c), []))
  {
    ParseVersionWithSuffix(a, b, c, "", []);
    assert "v" + a + "." + b + "." + c + "" == "v" + a + "." + b + "." + c;
  }

  /** What the release filter reads off a plain release `vA.B.C`: it is valid, not a
      pre-release, of line `vA.B`, with patch string `C`. */
  lemma ReleaseFacts(a: string, b: string, c: string)
    requires IsCanonicalNumeral(a) && IsCanonicalNumeral(b) && IsCanonicalNumeral(c)
    ensures var v := "v" + a + "." + b + "." + c;
      && Parse(v) == Some(Version(a, b, DigitsValue(a), DigitsValue(b), DigitsValue(c), []))
      && IsValid(v) && !IsPrerelease(v)
      && MajorMinor(v) == "v" + a + "." + b
      && PatchVersion(v) == c
  {
    ParseRelease(a, b, c);
    PatchVersionOfRelease("v", a, b, c);
  }

  /** Once both strings are parsed, `Compare` is the comparison of the parsed versions. */
  lemma CompareParsed(v: string, w: string, p: Version, q: Version)
    requires Parse(v) == Some(p) && Parse(w) == Some(q)
    ensures Compare(v, w) == CmpVersion(p, q)
  {
  }

  /** `vA.B.C` followed by a suffix parses to the suffix's pre-release. */
  lemma ParseVersionWithSuffix(a: string, b: string, c: string, suffix: string, pre: seq<Ident>)
    requires IsCanonicalNumeral(a) && IsCanonicalNumeral(b) && IsCanonicalNumeral(c)
    requires |suffix| == 0 || !IsDigit(suffix[0])
    requires ParseSuffix(suffix) == Some(pre)
    ensures Parse("v" + a + "." + b + "." + c + suffix)
         == Some(Version(a, b, DigitsValue(a), DigitsValue(b), DigitsValue(c), pre))
  {
    var r2 := "." + (c + suffix);
    var r1 := "." + (b + r2);
    ParseNumberOf(c, suffix);
    assert ParsePatch(a, b, c + suffix) == Some(Version(a, b, DigitsValue(a), DigitsValue(b), DigitsValue(c), pre));
    ParseNumberOf(b, r2);
    assert r2[1..] == c + suffix;
    assert ParseMinor(a, b + r2) == ParsePatch(a, b, c + suffix);
    ParseNumberOf(a, r1);
    assert r1[1..] == b + r2;
    assert ParseMajor(a + r1) == ParseMinor(a, b + r2);
    assert ("v" + (a + r1))[1..] == a + r1;
    VersionText(a, b, c, suffix);
  }

  lemma VersionText(a: string, b: string, c: string, suffix: string)
    ensures "v" + a + "." + b + "." + c + suffix == "v" + (a + ("." + (b + ("." + (c + suffix)))))
  {
  }

  /** The text after an optional leading `v`. */
  function ReleaseBody(v: string): string {
    if |v| > 0 && v[0] == 'v' then v[1..] else v
  }

  /** `getPatchVersion`: the third number of a string matching `^v?\d+\.\d+\.\d+$`
      (leading zeros allowed), and "" for anything else. */
  function PatchVersion(v: string): string {
    var parts := Split(ReleaseBody(v), '.');
    if |parts| == 3 && IsNumeral(parts[0]) && IsNumeral(parts[1]) && IsNumeral(parts[2]) then parts[2]
    else ""
  }

  lemma JoinThree(a: string, b: string, c: string)
    ensures Join([a, b, c], '.') == a + "." + b + "." + c
  {
    var parts := [a, b, c];
    assert parts[1..][1..] == [c];
    assert Join(parts[1..], '.') == b + "." + c;
  }

  lemma NumeralHasNoDot(a: string)
    requires IsNumeral(a)
    ensures '.' !in a
  {
    assert forall k :: 0 <= k < |a| ==> IsDigit(a[k]);
  }

  /** Every string of the release pattern yields its third number. */
  lemma PatchVersionOfRelease(prefix: string, a: string, b: string, c: string)
    requires prefix == "" || prefix == "v"
    requires IsNumeral(a) && IsNumeral(b) && IsNumeral(c)
    ensures PatchVersion(prefix + a + "." + b + "." + c) == c
  {
    var body := a + "." + b + "." + c;
    assert prefix + a + "." + b + "." + c == prefix + body;
    assert ReleaseBody(prefix + body) == body by {
      if prefix == "v" {
        assert (prefix + body)[1..] == body;
      } else {
        assert (prefix + body)[0] == a[0];
      }
    }
    JoinThree(a, b, c);
    NumeralHasNoDot(a);
    NumeralHasNoDot(b);
    NumeralHasNoDot(c);
    SplitJoin([a, b, c], '.');
  }

  /** Conversely, a nonempty result comes from a string of the release pattern, and
      the result is its third number. */
  lemma PatchVersionShape(v: string) returns (prefix: string, a: string, b: string)
    requires PatchVersion(v) != ""
    ensures prefix == "" || prefix == "v"
    ensures IsNumeral(a) && IsNumeral(b) && IsNumeral(PatchVersion(v))
    ensures v == prefix + ReleaseBody(v)
    ensures ReleaseBody(v) == a + "." + b + "." + PatchVersion(v)
  {
    var parts := Split(ReleaseBody(v), '.');
    assert |parts| == 3 && PatchVersion(v) == parts[2];
    a, b := parts[0], parts[1];
    var c := parts[2];
    assert parts == [a, b, c];
    JoinThree(a, b, c);
    var body := a + "." + b + "." + c;
    assert ReleaseBody(v) == body;
    if |v| > 0 && v[0] == 'v' {
      prefix := "v";
      assert v == [v[0]] + v[1..];
    } else {
      prefix := "";
    }
  }

  /** A string of the release pattern holds only `v`, dots and digits. */
  lemma ReleaseCharacters(prefix: string, a: string, b: string, c: string, i: nat)
    requires prefix == "" || prefix == "v"
    requires IsNumeral(a) && IsNumeral(b) && IsNumeral(c)
    requires i < |prefix + (a + "." + b + "." + c)|
    ensures var v := prefix + (a + "." + b + "." + c);
      v[i] == 'v' || v[i] == '.' || IsDigit(v[i])
  {
  }

  /** The cases the release filter depends on: a ".0" release gives "0", while a
      release candidate of it and a two-component shorthand give "". */
  lemma PatchVersionExamples()
    ensures PatchVersion("v1.2.0") == "0"
    ensures PatchVersion("v1.2.0-rc.1") == ""
    ensures PatchVersion("v1.2") == ""
  {
    PatchVersionOfRelease("v", "1", "2", "0");
    assert "v1.2.0" == "v" + "1" + "." + "2" + "." + "0";
    NotReleaseAt("v1.2.0-rc.1", 6);
    if PatchVersion("v1.2") != "" {
      var prefix, a, b := PatchVersionShape("v1.2");
    }
  }

  /** A string with a character other than `v`, `.` or a digit is no release. */
  lemma NotReleaseAt(v: string, i: nat)
    requires i < |v| && v[i] != 'v' && v[i] != '.' && !IsDigit(v[i])
    ensures PatchVersion(v) == ""
  {
    if PatchVersion(v) != "" {
      var prefix, a, b := PatchVersionShape(v);
      ReleaseCharacters(prefix, a, b, PatchVersion(v), i);
    }
  }
}
