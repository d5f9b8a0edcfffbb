/** Versions as three unbounded numbers, their canonical text
    `"{major}.{minor}.{patch}"`, the parser the bump logic uses
    (`map(int, version.split('.'))`), and the bump itself. */
module SemVer {
  import opened Wrappers
  import opened Text
  import opened Scan

  datatype Version = Version(major: nat, minor: nat, patch: nat)

  datatype BumpKind = Major | Minor | Patch

  /** Lexicographic order on (major, minor, patch). */
  predicate Less(a: Version, b: Version)
  {
    a.major < b.major
    || (a.major == b.major && a.minor < b.minor)
    || (a.major == b.major && a.minor == b.minor && a.patch < b.patch)
  }

  function DigitValue(c: char): nat
    requires IsDigit(c)
  {
    (c as int - '0' as int) as nat
  }

  function DigitChar(d: nat): char
    requires d < 10
  {
    ('0' as int + d) as char
  }

  /** Python `int(s)` on a string of ASCII digits; leading zeros are allowed. */
  function ParseNat(s: string): nat
    requires AllDigits(s)
    decreases |s|
  {
    if s == [] then 0 else ParseNat(s[..|s| - 1]) * 10 + DigitValue(s[|s| - 1])
  }

  /** Python `str(n)` / `f"{n}"` on a non-negative integer. */
  function NatToString(n: nat): (s: string)
    ensures IsDigits(s)
  {
    if n < 10 then [DigitChar(n)] else NatToString(n / 10) + [DigitChar(n % 10)]
  }

  /** Printing a number and parsing it back gives the number. */
  lemma {:induction false} ParseNatToString(n: nat)
    ensures ParseNat(NatToString(n)) == n
  {
    if n >= 10 {
      var s := NatToString(n);
      assert s[..|s| - 1] == NatToString(n / 10);
      ParseNatToString(n / 10);
    }
  }

  /** Printing drops leading zeros: only zero prints with a leading '0'. */
  lemma {:induction false} NatToStringCanonical(n: nat)
    ensures n > 0 ==> NatToString(n)[0] != '0'
  {
    if n >= 10 {
      NatToStringCanonical(n / 10);
    }
  }

  /** The canonical text of a version, as the bump logic formats it. */
  function Print(v: Version): string
  {
    NatToString(v.major) + "." + NatToString(v.minor) + "." + NatToString(v.patch)
  }

  /** `major, minor, patch = map(int, version.split('.'))`: exactly three
      parts, each a run of ASCII digits. The parser accepts exactly the texts
      the `^\d+\.\d+\.\d+$` validator accepts. */
  function ParseVersion(s: string): (r: Option<Version>)
    ensures r.Some? <==> IsSemVer(s)
  {
    var parts := Split(s, '.');
    ParseAgreesWithValidator(s);
    if |parts| == 3 && IsDigits(parts[0]) && IsDigits(parts[1]) && IsDigits(parts[2]) then
      Some(Version(ParseNat(parts[0]), ParseNat(parts[1]), ParseNat(parts[2])))
    else None
  }

  predicate ThreeDigitParts(parts: seq<string>)
  {
    |parts| == 3 && IsDigits(parts[0]) && IsDigits(parts[1]) && IsDigits(parts[2])
  }

  lemma {:induction false} DigitRunAll(d: string)
    requires AllDigits(d)
    ensures DigitRun(d) == |d|
  {
    if d != [] {
      DigitRunAll(d[1..]);
    }
  }

  /** A digit run followed by a dot extends a match by one more component. */
  lemma DigitsDot(d: string, x: string, n: nat)
    requires IsDigits(d)
    ensures MatchRuns(d + "." + x, n + 1)
         == if MatchRuns(x, n).Some? then Some(|d| + 1 + MatchRuns(x, n).value) else None
  {
    DigitsDotShape(d, x);
    MatchRunsAfterDot(d + "." + x, |d|, n);
  }

  /** Where the digits of `d` end, the dot follows and then `x`. */
  lemma DigitsDotShape(d: string, x: string)
    requires IsDigits(d)
    ensures var s := d + "." + x;
            DigitRun(s) == |d| && s[|d|] == '.' && s[|d| + 1..] == x
  {
    var s := d + "." + x;
    assert s == d + ("." + x);
    DigitRunAll(d);
    DigitRunConcat(d, "." + x);
  }

  lemma {:induction false} JoinThree(p0: string, p1: string, p2: string)
    ensures Join([p0, p1, p2], '.') == p0 + "." + p1 + "." + p2
  {
    assert [p0, p1, p2][1..] == [p1, p2];
    assert [p1, p2][1..] == [p2];
    assert Join([p1, p2], '.') == p1 + ['.'] + p2;
    assert Join([p0, p1, p2], '.') == p0 + ['.'] + (p1 + ['.'] + p2);
  }

  lemma {:induction false} DigitsHaveNoDot(d: string)
    requires AllDigits(d)
    ensures '.' !in d
  {
  }

  lemma ThreePartsMatch(p0: string, p1: string, p2: string)
    requires IsDigits(p0) && IsDigits(p1) && IsDigits(p2)
    ensures IsSemVer(p0 + "." + p1 + "." + p2)
  {
    var rest := p1 + "." + p2;
    TwoPartsMatch(p1, p2);
    DigitsDot(p0, rest, 1);
    DotsAssoc(p0, p1, p2, rest);
  }

  /** Two digit runs joined by a dot match two components in full. */
  lemma TwoPartsMatch(p1: string, p2: string)
    requires IsDigits(p1) && IsDigits(p2)
    ensures MatchRuns(p1 + "." + p2, 1) == Some(|p1 + "." + p2|)
  {
    DigitRunAll(p2);
    DigitsDot(p1, p2, 0);
  }

  lemma ThreePartsAreSemVer(p0: string, p1: string, p2: string)
    requires IsDigits(p0) && IsDigits(p1) && IsDigits(p2)
    ensures IsSemVer(p0 + "." + p1 + "." + p2)
    ensures Split(p0 + "." + p1 + "." + p2, '.') == [p0, p1, p2]
  {
    ThreePartsMatch(p0, p1, p2);
    DigitsHaveNoDot(p0);
    DigitsHaveNoDot(p1);
    DigitsHaveNoDot(p2);
    JoinThree(p0, p1, p2);
    SplitJoin([p0, p1, p2], '.');
  }

  /** A validated version is three digit runs joined by dots. */
  lemma SemVerParts(s: string) returns (p0: string, p1: string, p2: string)
    requires IsSemVer(s)
    ensures IsDigits(p0) && IsDigits(p1) && IsDigits(p2)
    ensures s == p0 + "." + p1 + "." + p2
  {
    var rest;
    p0, rest := RunThenDot(s, 1);
    p1, p2 := RunThenDot(rest, 0);
    WholeRun(p2);
    DotsAssoc(p0, p1, p2, rest);
  }

  /** A match of more than one component over all of `s` is digits, a dot,
      and a match of one component fewer over the rest. */
  lemma RunThenDot(s: string, n: nat) returns (d: string, rest: string)
    requires MatchRuns(s, n + 1) == Some(|s|)
    ensures IsDigits(d) && s == d + "." + rest && MatchRuns(rest, n) == Some(|rest|)
  {
    var a := DigitRun(s);
    MatchRunsHead(s, n);
    SplitAtRun(s);
    d, rest := s[..a], s[a + 1..];
    assert |rest| == |s| - a - 1;
  }

  /** A text cut at the dot that ends its first digit run. */
  lemma SplitAtRun(s: string)
    requires 0 < DigitRun(s) < |s| && s[DigitRun(s)] == '.'
    ensures IsDigits(s[..DigitRun(s)]) && s == s[..DigitRun(s)] + "." + s[DigitRun(s) + 1..]
  {
    DigitRunDigits(s);
    SplitAtDot(s, DigitRun(s));
  }

  /** A text cut at a dot that follows only digits. */
  lemma SplitAtDot(s: string, a: nat)
    requires 0 < a < |s| && s[a] == '.' && forall k :: 0 <= k < a ==> IsDigit(s[k])
    ensures IsDigits(s[..a]) && s == s[..a] + "." + s[a + 1..]
  {
    assert s == s[..a] + [s[a]] + s[a + 1..];
  }

  lemma DotsAssoc(p0: string, p1: string, p2: string, rest: string)
    requires rest == p1 + "." + p2
    ensures p0 + "." + rest == p0 + "." + p1 + "." + p2
  {
  }

  /** A match of one component over all of `s` is a digit run. */
  lemma WholeRun(s: string)
    requires MatchRuns(s, 0) == Some(|s|)
    ensures IsDigits(s)
  {
    DigitRunDigits(s);
  }

  lemma ParseAgreesWithValidator(s: string)
    ensures ThreeDigitParts(Split(s, '.')) <==> IsSemVer(s)
  {
    if IsSemVer(s) {
      var p0, p1, p2 := SemVerParts(s);
      ThreePartsAreSemVer(p0, p1, p2);
    }
    var parts := Split(s, '.');
    if ThreeDigitParts(parts) {
      JoinSplit(s, '.');
      JoinThree(parts[0], parts[1], parts[2]);
      assert parts == [parts[0], parts[1], parts[2]];
      ThreePartsAreSemVer(parts[0], parts[1], parts[2]);
    }
  }

  /** What every validated version looks like: it begins and ends with a
      digit, holds only digits and dots, and holds exactly two dots. */
  lemma SemVerShape(s: string)
    requires IsSemVer(s)
    ensures |s| > 0 && IsDigit(s[0]) && IsDigit(s[|s| - 1])
    ensures forall k :: 0 <= k < |s| ==> IsVersionChar(s[k])
    ensures multiset(s)['.'] == 2
  {
    var p0, p1, p2 := SemVerParts(s);
    SemVerChars(s, 2);
    DigitsHaveNoDot(p0);
    DigitsHaveNoDot(p1);
    DigitsHaveNoDot(p2);
    assert multiset(s) == multiset(p0) + multiset{'.'} + multiset(p1) + multiset{'.'} + multiset(p2);
  }

  /** A text without exactly two dots is not a version. */
  lemma NotSemVerDots(s: string)
    requires multiset(s)['.'] != 2
    ensures !IsSemVer(s)
  {
    if IsSemVer(s) {
      SemVerShape(s);
    }
  }

  /** A text holding anything other than digits and dots is not a version. */
  lemma NotSemVerChar(s: string, k: nat)
    requires k < |s| && !IsVersionChar(s[k])
    ensures !IsSemVer(s)
  {
    if IsSemVer(s) {
      SemVerShape(s);
    }
  }

  /** Printing a version and parsing it back gives the version, and the
      printed text passes the validator. */
  lemma PrintParse(v: Version)
    ensures IsSemVer(Print(v))
    ensures ParseVersion(Print(v)) == Some(v)
  {
    ThreePartsAreSemVer(NatToString(v.major), NatToString(v.minor), NatToString(v.patch));
    ParseNatToString(v.major);
    ParseNatToString(v.minor);
    ParseNatToString(v.patch);
  }

  /** The bump kind named by a string: case-sensitive, exactly as the
      `bump_type not in ["major", "minor", "patch"]` test. */
  function KindOf(s: string): (r: Option<BumpKind>)
    ensures r.Some? <==> s in ["major", "minor", "patch"]
  {
    if s == "major" then Some(Major)
    else if s == "minor" then Some(Minor)
    else if s == "patch" then Some(Patch)
    else None
  }

  /** Increment one component and zero the lower ones: the result is
      strictly greater. */
  function Bump(v: Version, k: BumpKind): (w: Version)
    ensures Less(v, w)
  {
    match k
    case Major => Version(v.major + 1, 0, 0)
    case Minor => Version(v.major, v.minor + 1, 0)
    case Patch => Version(v.major, v.minor, v.patch + 1)
  }
}
