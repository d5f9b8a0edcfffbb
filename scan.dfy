/** The regular expression `\d+\.\d+\.\d+` that the version manager uses to
    validate (`re.match` with `^...$`), to find (`re.search`) and to replace
    (`re.sub`) version numbers. Python's backtracking matcher never gives a
    shorter digit run than the longest one here, because a shorter run is
    followed by a digit and not by the `.` the pattern needs next; so the
    match at a position is the greedy one computed by `MatchRuns`. */
module Scan {
  import opened Wrappers
  import opened Text

  /** Length of the run of digits at the start of `s`. */
  function DigitRun(s: string): (n: nat)
    ensures n <= |s|
  {
    if |s| > 0 && IsDigit(s[0]) then 1 + DigitRun(s[1..]) else 0
  }

  /** Length of the match of `\d+(\.\d+){n}` at the start of `s`, if any. */
  function MatchRuns(s: string, n: nat): (r: Option<nat>)
    ensures r.Some? ==> 0 < r.value <= |s|
    decreases n
  {
    var a := DigitRun(s);
    if a == 0 then None
    else if n == 0 then Some(a)
    else if a == |s| || s[a] != '.' then None
    else match MatchRuns(s[a + 1..], n - 1)
      case None => None
      case Some(m) => Some(a + 1 + m)
  }

  /** Length of the match of `\d+\.\d+\.\d+` at the start of `s`, if any. */
  function Match(s: string): Option<nat>
  {
    MatchRuns(s, 2)
  }

  /** `^\d+\.\d+\.\d+$` over the whole of `s`. */
  predicate IsSemVer(s: string)
  {
    Match(s) == Some(|s|)
  }

  /** `re.search(r'\d+\.\d+\.\d+', s)`: the leftmost position where a match starts. */
  function Search(s: string): (r: Option<nat>)
    ensures r.Some? ==> r.value < |s| && Match(s[r.value..]).Some?
    ensures forall j {:trigger Match(s[j..])} :: 0 <= j < |s| && (r.None? || j < r.value) ==> Match(s[j..]).None?
    decreases |s|
  {
    if s == [] then None
    else if Match(s).Some? then Some(0)
    else
      match Search(s[1..])
      case None => ShiftNoMatch(s, |s|); None
      case Some(k) => ShiftNoMatch(s, k); Some(k + 1)
  }

  /** No match in the first `k` positions after the first character, and
      none at the first: then none in the first `k + 1`. */
  lemma ShiftNoMatch(s: string, k: nat)
    requires s != [] && Match(s).None?
    requires forall j {:trigger Match(s[1..][j..])} :: 0 <= j < |s| - 1 && j < k ==> Match(s[1..][j..]).None?
    ensures forall j {:trigger Match(s[j..])} :: 0 <= j < |s| && j < k + 1 ==> Match(s[j..]).None?
    ensures k < |s| - 1 ==> s[1..][k..] == s[k + 1..]
  {
    forall j | 0 <= j < |s| && j < k + 1
      ensures Match(s[j..]).None?
    {
      if j == 0 {
        assert s[0..] == s;
      } else {
        assert s[j..] == s[1..][j - 1..];
      }
    }
  }

  /** The text of the leftmost X.Y.Z in `line`, as `re.search(...).group(0)`. */
  function FindVersion(line: string): (r: Option<string>)
    ensures r.None? <==> Search(line).None?
    ensures r.Some? ==> IsSemVer(r.value)
  {
    match Search(line)
    case None => None
    case Some(k) =>
      var m := Match(line[k..]).value;
      MatchTruncate(line[k..], m);
      Some(line[k..][..m])
  }

  /** `re.sub(r'\d+\.\d+\.\d+', v, s)`: every non-overlapping match, taken
      left to right, replaced by `v`. */
  function SubAll(s: string, v: string): (r: string)
    ensures v != [] ==> (r == [] <==> s == [])
    decreases |s|
  {
    if s == [] then []
    else match Match(s)
      case Some(m) => v + SubAll(s[m..], v)
      case None => [s[0]] + SubAll(s[1..], v)
  }

  predicate IsVersionChar(c: char) { IsDigit(c) || c == '.' }

  // ----------------------------------------------------------- digit runs

  lemma {:induction false} DigitRunDigits(s: string)
    ensures forall k :: 0 <= k < DigitRun(s) ==> IsDigit(s[k])
  {
    if |s| > 0 && IsDigit(s[0]) {
      DigitRunDigits(s[1..]);
      assert forall k :: 1 <= k < DigitRun(s) ==> s[k] == s[1..][k - 1];
    }
  }

  /** A digit run stops at a non-digit or at the end. */
  lemma {:induction false} DigitRunStops(s: string)
    ensures DigitRun(s) < |s| ==> !IsDigit(s[DigitRun(s)])
  {
    if |s| > 0 && IsDigit(s[0]) {
      DigitRunStops(s[1..]);
      if DigitRun(s) < |s| {
        assert s[1..][DigitRun(s[1..])] == s[DigitRun(s)];
      }
    }
  }

  /** A match stops at a non-digit or at the end. */
  lemma {:induction false} MatchStops(s: string, n: nat)
    requires MatchRuns(s, n).Some?
    ensures MatchRuns(s, n).value < |s| ==> !IsDigit(s[MatchRuns(s, n).value])
    decreases n
  {
    var a := DigitRun(s);
    if n == 0 {
      DigitRunStops(s);
    } else {
      var m := MatchRuns(s[a + 1..], n - 1).value;
      MatchStops(s[a + 1..], n - 1);
      if a + 1 + m < |s| {
        assert s[a + 1..][m] == s[a + 1 + m];
      }
    }
  }

  lemma {:induction false} DigitRunConcat(x: string, y: string)
    ensures DigitRun(x + y) == if DigitRun(x) < |x| then DigitRun(x) else |x| + DigitRun(y)
    decreases |x|
  {
    if x != [] {
      assert (x + y)[1..] == x[1..] + y;
      if IsDigit(x[0]) { DigitRunConcat(x[1..], y); }
    } else {
      assert x + y == y;
    }
  }

  /** A match that covers all of `x` is unaffected by text after it that does
      not start with a digit, and conversely. */
  lemma {:induction false} MatchRunsConcat(x: string, y: string, n: nat)
    requires y == [] || !IsDigit(y[0])
    ensures MatchRuns(x + y, n) == Some(|x|) <==> MatchRuns(x, n) == Some(|x|)
    decreases n, 1
  {
    if y == [] {
      assert x + y == x;
    } else if DigitRun(x) == |x| {
      MatchRunsWhole(x, y, n);
    } else if DigitRun(x) == 0 || n == 0 || x[DigitRun(x)] != '.' {
      MatchRunsShort(x, y, n);
    } else {
      MatchRunsConcatDot(x, y, n);
    }
  }

  /** The case of `MatchRunsConcat` where the first digit run of `x` ends
      inside `x` at a dot. */
  lemma {:induction false} MatchRunsConcatDot(x: string, y: string, n: nat)
    requires y != [] && !IsDigit(y[0])
    requires 0 < DigitRun(x) < |x| && n > 0 && x[DigitRun(x)] == '.'
    ensures MatchRuns(x + y, n) == Some(|x|) <==> MatchRuns(x, n) == Some(|x|)
    decreases n, 0
  {
    var a := DigitRun(x);
    var rest := x[a + 1..];
    ConcatAfterDot(x, y, a);
    MatchRunsConcat(rest, y, n - 1);
    MatchRunsDot(x, a, n, |rest|, rest);
    MatchRunsDot(x + y, a, n, |rest|, rest + y);
  }

  /** Text after `x` does not move the dot that ends the first digit run
      inside `x`. */
  lemma ConcatAfterDot(x: string, y: string, a: nat)
    requires 0 < a < |x| && DigitRun(x) == a && x[a] == '.'
    ensures DigitRun(x + y) == a && (x + y)[a] == '.' && (x + y)[a + 1..] == x[a + 1..] + y
    ensures a + 1 + |x[a + 1..]| == |x|
  {
    DigitRunConcat(x, y);
  }

  /** A match whose first digit run ends at a dot goes on after the dot. */
  lemma MatchRunsDot(s: string, a: nat, n: nat, m: nat, tail: string)
    requires 0 < a < |s| && n > 0 && DigitRun(s) == a && s[a] == '.' && tail == s[a + 1..]
    ensures MatchRuns(s, n) == Some(a + 1 + m) <==> MatchRuns(tail, n - 1) == Some(m)
  {
  }

  /** A match of more than one component over all of `s`: digits, a dot,
      and a match of the others over all of the rest. */
  lemma MatchRunsHead(s: string, n: nat)
    requires MatchRuns(s, n + 1) == Some(|s|)
    ensures 0 < DigitRun(s) < |s| && s[DigitRun(s)] == '.'
    ensures MatchRuns(s[DigitRun(s) + 1..], n) == Some(|s| - DigitRun(s) - 1)
  {
  }

  /** One step of `MatchRuns` past the dot that ends the first digit run. */
  lemma MatchRunsAfterDot(s: string, a: nat, n: nat)
    requires 0 < a < |s| && DigitRun(s) == a && s[a] == '.'
    ensures MatchRuns(s, n + 1)
         == if MatchRuns(s[a + 1..], n).Some? then Some(a + 1 + MatchRuns(s[a + 1..], n).value) else None
  {
  }

  /** No match covers `x` when its first digit run stops inside it and
      cannot go on. */
  lemma MatchRunsShort(x: string, y: string, n: nat)
    requires y != [] && !IsDigit(y[0])
    requires DigitRun(x) < |x| && (DigitRun(x) == 0 || n == 0 || x[DigitRun(x)] != '.')
    ensures MatchRuns(x + y, n) != Some(|x|) && MatchRuns(x, n) != Some(|x|)
  {
    DigitRunConcat(x, y);
    assert (x + y)[DigitRun(x)] == x[DigitRun(x)];
  }

  /** When `x` is all digits, a non-digit after it changes nothing. */
  lemma MatchRunsWhole(x: string, y: string, n: nat)
    requires y != [] && !IsDigit(y[0])
    requires DigitRun(x) == |x|
    ensures MatchRuns(x + y, n) == Some(|x|) <==> MatchRuns(x, n) == Some(|x|)
  {
    DigitRunConcat(x, y);
    assert (x + y)[|x|] == y[0];
  }

  lemma MatchTruncate(s: string, m: nat)
    requires Match(s) == Some(m)
    ensures IsSemVer(s[..m])
  {
    assert s == s[..m] + s[m..];
    MatchStops(s, 2);
    MatchRunsConcat(s[..m], s[m..], 2);
  }

  lemma {:induction false} MatchRunsMono(s: string, n: nat)
    requires n > 0 && MatchRuns(s, n).Some?
    ensures MatchRuns(s, n - 1).Some?
    decreases n
  {
    var a := DigitRun(s);
    if n > 1 {
      MatchRunsMono(s[a + 1..], n - 1);
    }
  }

  /** A digit in front of a match start gives a match start one earlier. */
  lemma {:induction false} DigitPrepend(d: char, x: string, n: nat)
    requires IsDigit(d) && MatchRuns(x, n).Some?
    ensures MatchRuns([d] + x, n).Some?
  {
    DigitRunConcat([d], x);
    var a := DigitRun(x);
    if n > 0 {
      assert ([d] + x)[a + 1..] == x[a..];
      assert ([d] + x)[a + 1 + 1..] == x[a + 1..];
    }
  }

  /** Whether a match starts inside `q` does not depend on what follows `q`,
      as long as `q` ends with a non-digit and a match starts right after it. */
  lemma {:induction false} MatchIndependent(q: string, x: string, y: string, n: nat)
    requires q != [] && !IsDigit(q[|q| - 1])
    requires MatchRuns(x, n).Some? && MatchRuns(y, n).Some?
    ensures MatchRuns(q + x, n).Some? == MatchRuns(q + y, n).Some?
    decreases n
  {
    DigitRunConcat(q, x);
    DigitRunConcat(q, y);
    var a := DigitRun(q);
    DigitRunDigits(q);
    assert a < |q|;
    if a > 0 && n > 0 && q[a] == '.' {
      assert (q + x)[a] == q[a] && (q + y)[a] == q[a];
      assert (q + x)[a + 1..] == q[a + 1..] + x;
      assert (q + y)[a + 1..] == q[a + 1..] + y;
      MatchRunsMono(x, n);
      MatchRunsMono(y, n);
      if a + 1 == |q| {
        assert q[a + 1..] + x == x;
        assert q[a + 1..] + y == y;
      } else {
        MatchIndependent(q[a + 1..], x, y, n - 1);
      }
    } else if a > 0 && n > 0 {
      assert (q + x)[a] == q[a] && (q + y)[a] == q[a];
    }
  }

  // --------------------------------------------------------------- search

  /** Search is determined by its two ensures clauses. */
  lemma SearchIs(s: string, i: nat)
    requires i < |s| && Match(s[i..]).Some?
    requires forall j :: 0 <= j < i ==> Match(s[j..]).None?
    ensures Search(s) == Some(i)
  {
    var r := Search(s);
    if r.None? {
      assert false;
    } else if r.value < i {
      assert false;
    } else if r.value > i {
      assert false;
    }
  }

  /** The character before the leftmost match is not a digit. */
  lemma LeftmostPreceded(s: string)
    requires Search(s).Some? && Search(s).value > 0
    ensures !IsDigit(s[Search(s).value - 1])
  {
    NoMatchBefore(s, Search(s).value);
  }

  /** A digit just before a match start would start a match itself. */
  lemma NoMatchBefore(s: string, i: nat)
    requires 0 < i < |s| && Match(s[i..]).Some? && Match(s[i - 1..]).None?
    ensures !IsDigit(s[i - 1])
  {
    assert s[i - 1..] == [s[i - 1]] + s[i..];
    if IsDigit(s[i - 1]) {
      DigitPrepend(s[i - 1], s[i..], 2);
      assert false;
    }
  }

  lemma PrefixNoMatch(p: string, x: string, y: string, j: nat)
    requires j < |p| && !IsDigit(p[|p| - 1])
    requires Match(x).Some? && Match(y).Some?
    requires Match((p + x)[j..]).None?
    ensures Match((p + y)[j..]).None?
  {
    assert (p + x)[j..] == p[j..] + x;
    assert (p + y)[j..] == p[j..] + y;
    MatchIndependent(p[j..], x, y, 2);
  }

  /** Replacing the leftmost match by another string that also starts with a
      match keeps the leftmost match where it was. */
  lemma SearchReplaced(s: string, y: string)
    requires Search(s).Some? && Match(y).Some?
    ensures Search(s[..Search(s).value] + y) == Some(Search(s).value)
  {
    var i := Search(s).value;
    var p, x := s[..i], s[i..];
    assert s == p + x;
    if i > 0 {
      LeftmostPreceded(s);
      forall j | 0 <= j < i
        ensures Match((p + y)[j..]).None?
      {
        PrefixNoMatch(p, x, y, j);
      }
    }
    assert (p + y)[i..] == y;
    SearchIs(p + y, i);
  }

  /** Text without digits holds no version. */
  lemma NoDigitNoVersion(s: string)
    requires forall k :: 0 <= k < |s| ==> !IsDigit(s[k])
    ensures Search(s).None?
  {
    if Search(s).Some? {
      assert false;
    }
  }

  /** A digit-free prefix only shifts where the leftmost match is found. */
  lemma NonDigitPrefix(x: string, y: string)
    requires forall k :: 0 <= k < |x| ==> !IsDigit(x[k])
    requires Match(y).Some?
    ensures Search(x + y) == Some(|x|)
  {
    var s := x + y;
    assert s[|x|..] == y;
    forall j | 0 <= j < |x| ensures Match(s[j..]).None? {
      assert s[j..][0] == x[j];
    }
    SearchIs(s, |x|);
  }

  /** A version followed by a non-digit (or by nothing) is found exactly. */
  lemma FindAfterNonDigits(x: string, v: string, y: string)
    requires forall k :: 0 <= k < |x| ==> !IsDigit(x[k])
    requires IsSemVer(v) && (y == [] || !IsDigit(y[0]))
    ensures FindVersion(x + v + y) == Some(v)
  {
    MatchRunsConcat(v, y, 2);
    assert x + v + y == x + (v + y);
    NonDigitPrefix(x, v + y);
    assert (x + v + y)[|x|..] == v + y;
    assert (v + y)[..|v|] == v;
  }

  // ------------------------------------------------------------ sub (all)

  lemma {:induction false} SubAllNoMatch(s: string, v: string)
    requires Search(s).None?
    ensures SubAll(s, v) == s
    decreases |s|
  {
    if s != [] {
      assert Match(s[0..]).None?;
      assert s[0..] == s;
      assert Search(s[1..]).None? by {
        if Search(s[1..]).Some? {
          assert false;
        }
      }
      SubAllNoMatch(s[1..], v);
    }
  }

  /** `re.sub` keeps the text before the leftmost match, replaces the match,
      and carries on after it. */
  lemma SubAllSplit(s: string, v: string, i: nat, m: nat)
    requires Search(s) == Some(i) && Match(s[i..]) == Some(m)
    ensures i + m <= |s| && SubAll(s, v) == s[..i] + v + SubAll(s[i + m..], v)
  {
    SubAllCopies(s, v, i);
    SubAllAt(s, v, i, m);
    Assoc3(s[..i], v, SubAll(s[i + m..], v));
  }

  lemma Assoc3(a: string, b: string, c: string)
    ensures a + (b + c) == a + b + c
  {
  }

  /** A match at `i` is replaced, and `re.sub` carries on after it. */
  lemma SubAllAt(s: string, v: string, i: nat, m: nat)
    requires i < |s| && Match(s[i..]) == Some(m)
    ensures i + m <= |s| && SubAll(s[i..], v) == v + SubAll(s[i + m..], v)
  {
    assert s[i..][m..] == s[i + m..];
  }

  /** With no match before `i`, `re.sub` copies the text before `i`. */
  lemma {:induction false} SubAllCopies(s: string, v: string, i: nat)
    requires i <= |s|
    requires forall j {:trigger Match(s[j..])} :: 0 <= j < i ==> Match(s[j..]).None?
    ensures SubAll(s, v) == s[..i] + SubAll(s[i..], v)
  {
    if i == 0 {
      assert s[0..] == s;
    } else {
      SubAllCopies(s, v, i - 1);
      SubAllCons(s, v, i - 1);
      SnocSlices(s, i, SubAll(s[i..], v));
    }
  }

  /** The character before `i` moved from the front of the rest to the
      end of the prefix. */
  lemma SnocSlices(s: string, i: nat, x: string)
    requires 0 < i <= |s|
    ensures s[..i - 1] + ([s[i - 1]] + x) == s[..i] + x
  {
    assert s[..i - 1] + [s[i - 1]] == s[..i];
  }

  /** No match at position `k`: `re.sub` copies the character there. */
  lemma SubAllCons(s: string, v: string, k: nat)
    requires k < |s| && Match(s[k..]).None?
    ensures SubAll(s[k..], v) == [s[k]] + SubAll(s[k + 1..], v)
  {
    assert s[k..][1..] == s[k + 1..];
  }

  lemma SubAllHead(s: string, v: string)
    requires s != [] && !IsDigit(s[0])
    ensures SubAll(s, v) == [s[0]] + SubAll(s[1..], v)
  {
    assert DigitRun(s) == 0;
  }

  /** Put a version, followed by a non-digit or by nothing, in place of the
      leftmost match: the leftmost version found is then that version. */
  lemma FindReplaced(s: string, v: string, r: string)
    requires Search(s).Some? && IsSemVer(v) && (r == [] || !IsDigit(r[0]))
    ensures FindVersion(s[..Search(s).value] + v + r) == Some(v)
    ensures Search(s[..Search(s).value] + v + r) == Search(s)
  {
    var i := Search(s).value;
    MatchRunsConcat(v, r, 2);
    SearchReplaced(s, v + r);
    ReplacedSlices(s[..i], v, r);
    FoundAt(s[..i] + v + r, i, v, r);
  }

  /** A version followed by a non-digit at the leftmost match is what
      `FindVersion` returns. */
  lemma FoundAt(t: string, i: nat, v: string, r: string)
    requires Search(t) == Some(i) && t[i..] == v + r && Match(v + r) == Some(|v|)
    ensures FindVersion(t) == Some(v)
  {
    assert (v + r)[..|v|] == v;
  }

  /** Text after a match starts with a non-digit, and so does its `re.sub`. */
  lemma AfterMatch(s: string, v: string, i: nat)
    requires i < |s| && Match(s[i..]).Some?
    ensures var rest := s[i + Match(s[i..]).value..];
            (rest == [] || !IsDigit(rest[0])) && (SubAll(rest, v) == [] || !IsDigit(SubAll(rest, v)[0]))
  {
    var m := Match(s[i..]).value;
    var rest := s[i + m..];
    if rest != [] {
      MatchStops(s[i..], 2);
      assert rest[0] == s[i..][m];
      SubAllHead(rest, v);
    }
  }

  /** After `re.sub` with a version, the leftmost version is that version. */
  lemma FindAfterSubAll(s: string, v: string)
    requires Search(s).Some? && IsSemVer(v)
    ensures FindVersion(SubAll(s, v)) == Some(v)
  {
    var i := Search(s).value;
    var m := Match(s[i..]).value;
    var r := SubAll(s[i + m..], v);
    SubAllSplit(s, v, i, m);
    AfterMatch(s, v, i);
    FindReplaced(s, v, r);
  }

  /** `re.sub` with a version is idempotent. */
  lemma {:induction false} SubAllIdempotent(s: string, v: string)
    requires IsSemVer(v)
    ensures SubAll(SubAll(s, v), v) == SubAll(s, v)
    decreases |s|
  {
    if Search(s).None? {
      SubAllNoMatch(s, v);
    } else {
      var i := Search(s).value;
      var m := Match(s[i..]).value;
      var rest := s[i + m..];
      var r := SubAll(rest, v);
      SubAllSplit(s, v, i, m);
      AfterMatch(s, v, i);
      FindReplaced(s, v, r);
      var t := s[..i] + v + r;
      ReplacedSlices(s[..i], v, r);
      MatchRunsConcat(v, r, 2);
      SubAllSplit(t, v, i, |v|);
      SubAllIdempotent(rest, v);
    }
  }

  /** The three parts of a replaced text, taken apart again. */
  lemma ReplacedSlices(p: string, v: string, r: string)
    ensures var t := p + v + r;
            t == p + (v + r) && t[..|p|] == p && t[|p|..] == v + r && t[|p| + |v|..] == r
  {
    var t := p + v + r;
    assert t == p + (v + r);
  }

  lemma {:induction false} SemVerChars(s: string, n: nat)
    requires MatchRuns(s, n) == Some(|s|)
    ensures forall k :: 0 <= k < |s| ==> IsVersionChar(s[k])
    decreases n
  {
    var a := DigitRun(s);
    DigitRunDigits(s);
    if n > 0 {
      SemVerChars(s[a + 1..], n - 1);
      assert forall k :: a + 1 <= k < |s| ==> s[k] == s[a + 1..][k - a - 1];
    }
  }

  /** Every character of `re.sub`'s result comes from the text or from the replacement. */
  lemma {:induction false} SubAllChars(s: string, v: string, c: char)
    requires c in SubAll(s, v)
    ensures c in s || c in v
    decreases |s|
  {
    if s != [] {
      match Match(s)
      case Some(m) =>
        if c !in v {
          SubAllChars(s[m..], v, c);
          assert c in s[m..];
        }
      case None =>
        if c != s[0] {
          SubAllChars(s[1..], v, c);
        }
    }
  }

  lemma {:induction false} ContainsSuffix(s: string, k: nat, w: string)
    requires k <= |s| && Contains(s[k..], w)
    ensures Contains(s, w)
    decreases k
  {
    if k > 0 {
      assert s[1..][k - 1..] == s[k..];
      ContainsSuffix(s[1..], k - 1, w);
    }
  }

  lemma {:induction false} PrefixSubAll(u: string, t: string, v: string)
    requires forall k :: 0 <= k < |u| ==> !IsVersionChar(u[k])
    requires v != [] && IsVersionChar(v[0])
    requires IsPrefix(u, SubAll(t, v))
    ensures IsPrefix(u, t)
    decreases |t|
  {
    if u != [] && t != [] {
      match Match(t)
      case Some(m) =>
        SubAllStartsWith(t, v);
        assert false;
      case None =>
        assert SubAll(t, v) == [t[0]] + SubAll(t[1..], v);
        PrefixUncons(u, t[0], SubAll(t[1..], v));
        PrefixSubAll(u[1..], t[1..], v);
        PrefixCons(u, t);
    }
  }

  /** Where a match starts at the front, `re.sub` output starts with the
      replacement. */
  lemma SubAllStartsWith(t: string, v: string)
    requires t != [] && Match(t).Some? && v != []
    ensures SubAll(t, v)[0] == v[0]
  {
  }

  /** `re.sub` with a version creates no occurrence of a word made of
      characters that never appear in a version. */
  lemma {:induction false} ContainsSubAll(s: string, v: string, w: string)
    requires |w| > 0 && forall k :: 0 <= k < |w| ==> !IsVersionChar(w[k])
    requires |v| > 0 && forall k :: 0 <= k < |v| ==> IsVersionChar(v[k])
    requires Contains(SubAll(s, v), w)
    ensures Contains(s, w)
    decreases |s|
  {
    if IsPrefix(w, SubAll(s, v)) {
      PrefixSubAll(w, s, v);
    } else if s != [] {
      match Match(s)
      case Some(m) =>
        ContainsSkip(v, SubAll(s[m..], v), w);
        ContainsSubAll(s[m..], v, w);
        ContainsSuffix(s, m, w);
      case None =>
        assert SubAll(s, v)[1..] == SubAll(s[1..], v);
        ContainsSubAll(s[1..], v, w);
        ContainsSuffix(s, 1, w);
    }
  }
}
