/** String helpers with the meaning of the Python built-ins the version manager
    uses: `str.strip`, `str.split`/`str.join` on one separator, the `in`
    substring test, `str.lower` and `str.replace` on single characters.
    Everything is restricted to ASCII. */
module Text {

  predicate IsDigit(c: char) { '0' <= c <= '9' }

  /** ASCII characters that Python's `str.strip()` and `\s` treat as whitespace:
      tab, line feed, vertical tab, form feed, carriage return, the four
      information separators 0x1C-0x1F, and space. */
  predicate IsSpace(c: char) { ('\t' <= c <= '\r') || ('\U{001C}' <= c <= ' ') }

  predicate AllDigits(s: string) { forall k :: 0 <= k < |s| ==> IsDigit(s[k]) }

  /** One or more ASCII digits: what `\d+` matches and what `int()` parses here. */
  predicate IsDigits(s: string) { |s| > 0 && AllDigits(s) }

  predicate AllSpace(s: string) { forall k :: 0 <= k < |s| ==> IsSpace(s[k]) }

  // ---------------------------------------------------------------- strip

  /** Number of leading whitespace characters. */
  function LeadingSpace(s: string): (a: nat)
    ensures a <= |s| && AllSpace(s[..a])
    ensures a < |s| ==> !IsSpace(s[a])
  {
    if |s| > 0 && IsSpace(s[0]) then 1 + LeadingSpace(s[1..]) else 0
  }

  /** Length of `s` once its trailing whitespace is removed. */
  function TrailingCut(s: string): (b: nat)
    ensures b <= |s| && AllSpace(s[b..])
    ensures b > 0 ==> !IsSpace(s[b - 1])
  {
    if |s| > 0 && IsSpace(s[|s| - 1]) then
      var b := TrailingCut(s[..|s| - 1]);
      assert s[b..] == s[..|s| - 1][b..] + [s[|s| - 1]];
      b
    else |s|
  }

  /** Python `s.strip()` restricted to ASCII whitespace. */
  function Strip(s: string): (r: string)
    ensures r == [] || (!IsSpace(r[0]) && !IsSpace(r[|r| - 1]))
  {
    var t := s[LeadingSpace(s)..];
    t[..TrailingCut(t)]
  }

  /** Strip removes exactly the surrounding whitespace: padding a string that
      has no whitespace at either end with whitespace on both sides, then
      stripping, gives the string back. */
  lemma {:induction false} StripPadded(pre: string, x: string, post: string)
    requires AllSpace(pre) && AllSpace(post)
    requires x == [] || (!IsSpace(x[0]) && !IsSpace(x[|x| - 1]))
    ensures Strip(pre + x + post) == x
  {
    var s := pre + x + post;
    LeadingSpaceOf(pre, x + post);
    assert s == pre + (x + post);
    var t := s[|pre|..];
    assert t == x + post;
    TrailingCutOf(x, post);
  }

  lemma {:induction false} LeadingSpaceOf(pre: string, y: string)
    requires AllSpace(pre)
    requires y == [] || !IsSpace(y[0]) || AllSpace(y)
    ensures y == [] || !IsSpace(y[0]) ==> LeadingSpace(pre + y) == |pre|
  {
    if pre != [] {
      assert (pre + y)[1..] == pre[1..] + y;
      LeadingSpaceOf(pre[1..], y);
    } else {
      assert pre + y == y;
    }
  }

  lemma {:induction false} TrailingCutOf(x: string, post: string)
    requires AllSpace(post)
    requires x == [] || !IsSpace(x[|x| - 1])
    ensures TrailingCut(x + post) == |x|
    ensures (x + post)[..|x|] == x
    decreases |post|
  {
    if post != [] {
      var s := x + post;
      assert s[..|s| - 1] == x + post[..|post| - 1];
      TrailingCutOf(x, post[..|post| - 1]);
    } else {
      assert x + post == x;
      if x != [] { assert !IsSpace(x[|x| - 1]); }
    }
  }

  /** Stripping twice is stripping once. */
  lemma StripIdempotent(s: string)
    ensures Strip(Strip(s)) == Strip(s)
  {
    var r := Strip(s);
    StripPadded([], r, []);
    assert [] + r + [] == r;
  }

  // ------------------------------------------------------------ sequences

  /** Below `i`, the tail of a sequence holds each element one place earlier. */
  lemma TailShift<T>(xs: seq<T>, i: nat)
    requires i <= |xs|
    ensures forall j {:trigger xs[1..][j]} :: 0 <= j < i - 1 ==> xs[1..][j] == xs[j + 1]
  {
  }

  // ---------------------------------------------------------- split / join

  /** Index of the first `c` in `s`, or `|s|` when there is none. */
  function IndexOf(s: string, c: char): (k: nat)
    ensures k <= |s|
    ensures k < |s| ==> s[k] == c
    ensures forall j :: 0 <= j < k ==> s[j] != c
  {
    if |s| == 0 || s[0] == c then 0 else 1 + IndexOf(s[1..], c)
  }

  /** Python `s.split(c)` for a one-character separator: never empty, and no
      part contains the separator. */
  function Split(s: string, c: char): (parts: seq<string>)
    ensures |parts| > 0
    ensures forall k :: 0 <= k < |parts| ==> c !in parts[k]
    decreases |s|
  {
    var k := IndexOf(s, c);
    if k == |s| then [s] else [s[..k]] + Split(s[k + 1..], c)
  }

  /** Python `c.join(parts)`. */
  function Join(parts: seq<string>, c: char): string
  {
    if |parts| == 0 then ""
    else if |parts| == 1 then parts[0]
    else parts[0] + [c] + Join(parts[1..], c)
  }

  /** Joining the parts of a split gives back the original text. */
  lemma {:induction false} JoinSplit(s: string, c: char)
    ensures Join(Split(s, c), c) == s
    decreases |s|
  {
    var k := IndexOf(s, c);
    if k < |s| {
      JoinSplit(s[k + 1..], c);
      assert s == s[..k] + [c] + s[k + 1..];
    }
  }

  /** Splitting a join of separator-free parts gives back the parts. */
  lemma {:induction false} SplitJoin(parts: seq<string>, c: char)
    requires |parts| > 0
    requires forall k :: 0 <= k < |parts| ==> c !in parts[k]
    ensures Split(Join(parts, c), c) == parts
  {
    if |parts| > 1 {
      var s := Join(parts, c);
      var p := parts[0];
      assert s == p + ([c] + Join(parts[1..], c));
      IndexOfPrefix(p, [c] + Join(parts[1..], c), c);
      assert s[..|p|] == p;
      assert s[|p| + 1..] == Join(parts[1..], c);
      SplitJoin(parts[1..], c);
    } else {
      IndexOfPrefix(parts[0], [], c);
      assert parts[0] + [] == parts[0];
    }
  }

  lemma {:induction false} IndexOfPrefix(p: string, y: string, c: char)
    requires c !in p
    requires y == [] || y[0] == c
    ensures IndexOf(p + y, c) == |p|
  {
    if p != [] {
      assert (p + y)[1..] == p[1..] + y;
      IndexOfPrefix(p[1..], y, c);
    } else {
      assert p + y == y;
    }
  }

  /** The text ends with the separator exactly when its split has at least
      two parts and the last one is empty. */
  lemma {:induction false} EndsWithSeparator(parts: seq<string>, c: char)
    requires |parts| > 0
    requires forall k :: 0 <= k < |parts| ==> c !in parts[k]
    ensures var s := Join(parts, c);
            (|s| > 0 && s[|s| - 1] == c) <==> (|parts| > 1 && parts[|parts| - 1] == "")
  {
    if |parts| > 1 {
      EndsWithSeparator(parts[1..], c);
      var j := Join(parts[1..], c);
      assert Join(parts, c) == parts[0] + [c] + j;
      if |parts| == 2 {
        assert j == parts[1];
      }
    } else {
      var p := parts[0];
      if |p| > 0 { assert p[|p| - 1] in p; }
    }
  }

  // -------------------------------------------------------------- contains

  predicate IsPrefix(w: string, s: string) { |w| <= |s| && s[..|w|] == w }

  /** A prefix of `[c] + r` starts with `c`, and the rest of it is a prefix
      of `r`. */
  lemma PrefixUncons(u: string, c: char, r: string)
    requires u != [] && IsPrefix(u, [c] + r)
    ensures u[0] == c && IsPrefix(u[1..], r)
  {
    assert r[..|u| - 1] == ([c] + r)[1..|u|];
  }

  /** A string whose head and tail agree with those of `s` is a prefix of it. */
  lemma PrefixCons(u: string, s: string)
    requires u != [] && s != [] && u[0] == s[0] && IsPrefix(u[1..], s[1..])
    ensures IsPrefix(u, s)
  {
    assert u == [u[0]] + u[1..];
    assert s[..|u|] == [s[0]] + s[1..][..|u| - 1];
  }

  /** Python `w in s`. */
  predicate Contains(s: string, w: string)
    decreases |s|
  {
    IsPrefix(w, s) || (|s| > 0 && Contains(s[1..], w))
  }

  /** Every character of a contained string occurs in the containing one. */
  lemma {:induction false} ContainsChars(s: string, w: string, j: nat)
    requires Contains(s, w) && j < |w|
    ensures w[j] in s
    decreases |s|
  {
    if IsPrefix(w, s) {
      assert s[j] == w[j];
    } else {
      ContainsChars(s[1..], w, j);
    }
  }

  lemma {:induction false} ContainsAt(x: string, w: string, y: string)
    ensures Contains(x + w + y, w)
    decreases |x|
  {
    if x == [] {
      assert (x + w + y)[..|w|] == w;
    } else {
      assert (x + w + y)[1..] == x[1..] + w + y;
      ContainsAt(x[1..], w, y);
    }
  }

  /** An occurrence of `w` cannot start inside `x` when `x` lacks `w`'s first
      character, so it lies in `y`. */
  lemma {:induction false} ContainsSkip(x: string, y: string, w: string)
    requires |w| > 0 && w[0] !in x
    ensures Contains(x + y, w) <==> Contains(y, w)
    decreases |x|
  {
    if x != [] {
      assert (x + y)[1..] == x[1..] + y;
      assert !IsPrefix(w, x + y) by { assert (x + y)[0] == x[0]; }
      ContainsSkip(x[1..], y, w);
    } else {
      assert x + y == y;
    }
  }

  // ------------------------------------------------------ character maps

  function LowerChar(c: char): char
  {
    if 'A' <= c <= 'Z' then (c as int + 32) as char else c
  }

  /** Python `s.lower()` on ASCII text. */
  function Lower(s: string): (r: string)
    ensures |r| == |s|
    ensures forall k :: 0 <= k < |s| ==> r[k] == LowerChar(s[k])
  {
    if s == [] then [] else [LowerChar(s[0])] + Lower(s[1..])
  }

  /** Python `s.replace(a, b)` for single characters. */
  function ReplaceChar(s: string, a: char, b: char): (r: string)
    ensures |r| == |s|
    ensures forall k :: 0 <= k < |s| ==> r[k] == (if s[k] == a then b else s[k])
  {
    if s == [] then [] else [if s[0] == a then b else s[0]] + ReplaceChar(s[1..], a, b)
  }
}
