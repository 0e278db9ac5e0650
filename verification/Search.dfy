/** Substring search and replacement on byte strings, as `str::find`, `str::contains`,
    `str::replace` and `eq_ignore_ascii_case` do them. */
module Search {
  import opened Options
  import opened Utf8

  lemma Slices(t: Text, a: nat, b: nat, c: nat)
    requires a <= b <= c <= |t|
    ensures t[a..c] == t[a..b] + t[b..c]
  {
  }

  lemma Join(x: Text, y: Text, z: Text, b: Text, a: Text)
    requires a == x + b && b == y + z
    ensures a == (x + y) + z
  {
  }

  /** A slice of a suffix. */
  lemma SuffixSlice(t: Text, k: nat, a: nat, b: nat)
    requires a <= b && k + b <= |t|
    ensures t[k..][a..b] == t[k + a..k + b]
    ensures t[k..][b..] == t[k + b..]
  {
  }

  /** The first `c`, or the length. */
  function IndexOf(s: Text, c: char): (i: nat)
    ensures i <= |s| && c !in s[..i] && (i < |s| ==> s[i] == c) && (i < |s| <==> c in s)
    ensures forall k | 0 <= k < i :: s[k] != c
  {
    if s == [] || s[0] == c then 0
    else
      var i := IndexOf(s[1..], c);
      assert s[..i + 1] == [s[0]] + s[1..][..i];
      i + 1
  }

  function Lower(c: char): char {
    if 'A' <= c <= 'Z' then c - 'A' + 'a' else c
  }

  /** `to_ascii_lowercase`. */
  function LowerText(s: Text): (r: Text)
    ensures |r| == |s|
  {
    seq(|s|, i requires 0 <= i < |s| => Lower(s[i]))
  }

  /** `needle` occurs at `i`, ASCII letters compared without case. */
  predicate MatchesCi(s: Text, i: nat, needle: Text) {
    i + |needle| <= |s| && forall j | 0 <= j < |needle| :: Lower(s[i + j]) == Lower(needle[j])
  }

  lemma MatchesShift(p: Text, s: Text, i: nat, needle: Text)
    ensures MatchesCi(p + s, |p| + i, needle) == MatchesCi(s, i, needle)
  {
    var t := p + s;
    if i + |needle| <= |s| {
      assert t[|p| + i..|p| + i + |needle|] == s[i..i + |needle|];
    }
  }

  predicate MatchesAt(s: Text, i: nat, needle: Text) {
    i + |needle| <= |s| && s[i..i + |needle|] == needle
  }

  predicate Contains(s: Text, needle: Text) {
    exists i | 0 <= i <= |s| :: MatchesAt(s, i, needle)
  }

  predicate ContainsCi(s: Text, needle: Text) {
    exists i | 0 <= i <= |s| :: MatchesCi(s, i, needle)
  }

  /** Leftmost occurrence at or after `i`. */
  function Find(s: Text, i: nat, needle: Text): (r: Option<nat>)
    decreases |s| - i
    ensures r.Some? ==> i <= r.value && MatchesAt(s, r.value, needle)
    ensures r.Some? ==> forall k | i <= k < r.value :: !MatchesAt(s, k, needle)
    ensures r.None? ==> forall k | i <= k :: !MatchesAt(s, k, needle)
  {
    if MatchesAt(s, i, needle) then Some(i)
    else if i < |s| then Find(s, i + 1, needle)
    else None
  }

  function FindCi(s: Text, i: nat, needle: Text): (r: Option<nat>)
    decreases |s| - i
    ensures r.Some? ==> i <= r.value && MatchesCi(s, r.value, needle)
    ensures r.Some? ==> forall k | i <= k < r.value :: !MatchesCi(s, k, needle)
    ensures r.None? ==> forall k | i <= k :: !MatchesCi(s, k, needle)
  {
    if MatchesCi(s, i, needle) then Some(i)
    else if i < |s| then FindCi(s, i + 1, needle)
    else None
  }

  /** `str::replace` for a nonempty pattern: leftmost occurrences, without overlap. */
  function Replace(s: Text, pattern: Text, replacement: Text): Text
    requires pattern != []
    decreases |s|
  {
    if s == [] then []
    else if pattern <= s then replacement + Replace(s[|pattern|..], pattern, replacement)
    else [s[0]] + Replace(s[1..], pattern, replacement)
  }

  lemma ReplaceCopies(s: Text, pattern: Text, m: Text)
    requires pattern != [] && s != [] && !(pattern <= s)
    ensures Replace(s, pattern, m) == s[..1] + Replace(s[1..], pattern, m)
  {
  }

  lemma ReplaceOfNothing(pattern: Text, m: Text)
    requires pattern != []
    ensures Replace([], pattern, m) == []
  {
  }

  lemma ReplaceHere(s: Text, pattern: Text, m: Text)
    requires pattern != [] && pattern <= s
    ensures Replace(s, pattern, m) == m + Replace(s[|pattern|..], pattern, m)
  {
  }

  /** `pattern` opens nowhere in `a`, whatever comes behind it. */
  predicate NoStart(a: Text, pattern: Text)
    requires |pattern| > 1
  {
    forall k | 0 <= k < |a| :: a[k] != pattern[0] || (k + 1 < |a| && a[k + 1] != pattern[1])
  }

  /** Such a front is copied. */
  lemma {:induction false} ReplaceSkips(a: Text, s: Text, pattern: Text, m: Text)
    requires |pattern| > 1 && NoStart(a, pattern)
    ensures Replace(a + s, pattern, m) == a + Replace(s, pattern, m)
    decreases |a|
  {
    hide Replace;
    if a == [] {
      assert a + s == s && a + Replace(s, pattern, m) == Replace(s, pattern, m);
    } else {
      var t := a + s;
      assert t[0] == a[0] && (|a| > 1 ==> t[1] == a[1]);
      assert t[..1] == a[..1] && t[1..] == a[1..] + s;
      ReplaceCopies(t, pattern, m);
      ReplaceSkips(a[1..], s, pattern, m);
      assert a[..1] + a[1..] == a;
    }
  }

  lemma ContainsPiece(s: Text, a: nat, b: nat, needle: Text)
    requires a <= b <= |s| && Contains(s[a..b], needle)
    ensures Contains(s, needle)
  {
    var i :| 0 <= i <= b - a && MatchesAt(s[a..b], i, needle);
    var j := i + |needle|;
    assert forall k | i <= k < j :: s[a..b][i..j][k - i] == s[a..b][k] == s[a + k];
    assert s[a..b][i..j] == s[a + i..a + j];
    assert MatchesAt(s, a + i, needle);
  }

  lemma PrefixIsMatch(s: Text, needle: Text)
    ensures needle <= s <==> MatchesAt(s, 0, needle)
  {
  }

  /** Occurrences in `[c] + s` are at the front or inside `s`. */
  lemma ContainsCons(c: char, s: Text, needle: Text)
    ensures Contains([c] + s, needle) <==> needle <= [c] + s || Contains(s, needle)
  {
    var t := [c] + s;
    PrefixIsMatch(t, needle);
    if Contains(t, needle) && !(needle <= t) {
      var i :| 0 <= i <= |t| && MatchesAt(t, i, needle);
      assert t[i..i + |needle|] == s[i - 1..i - 1 + |needle|];
      assert MatchesAt(s, i - 1, needle);
    }
    if needle <= t {
      assert MatchesAt(t, 0, needle);
    }
    if Contains(s, needle) {
      assert t[1..|t|] == s;
      ContainsPiece(t, 1, |t|, needle);
    }
  }

  /** `bar` cannot take part in an occurrence of `needle` that starts outside it: it opens with a
      byte the needle does not have, and no occurrence can start inside it. */
  predicate Bars(bar: Text, needle: Text) {
    needle != [] && bar != [] && bar[0] !in needle && needle[0] !in bar
  }

  /** An occurrence behind a bar lies wholly behind it. */
  lemma {:induction false} ContainsBehind(bar: Text, s: Text, needle: Text)
    requires needle != [] && needle[0] !in bar
    ensures Contains(bar + s, needle) ==> Contains(s, needle)
    decreases |bar|
  {
    if bar == [] {
      assert bar + s == s;
    } else {
      assert bar + s == [bar[0]] + (bar[1..] + s);
      ContainsCons(bar[0], bar[1..] + s, needle);
      assert bar[0] in bar;
      assert (bar + s)[0] == bar[0] != needle[0];
      ContainsBehind(bar[1..], s, needle);
    }
  }

  /** An occurrence at the front of a replaced text was at the front of the original. */
  lemma {:induction false} PrefixOfReplaced(s: Text, pattern: Text, replacement: Text, n: Text)
    requires pattern != [] && replacement != [] && replacement[0] !in n
    requires n <= Replace(s, pattern, replacement)
    ensures n <= s
    decreases |s|
  {
    if n != [] && s != [] {
      var r := Replace(s, pattern, replacement);
      assert n[0] == r[0] && n[0] in n;
      assert r[1..] == Replace(s[1..], pattern, replacement);
      assert n[1..] <= r[1..];
      PrefixOfReplaced(s[1..], pattern, replacement, n[1..]);
      assert n == [s[0]] + n[1..] && s == [s[0]] + s[1..];
    }
  }

  /** A replacement that bars a needle creates no occurrence of it. */
  lemma {:induction false} ReplaceKeepsAbsent(s: Text, pattern: Text, replacement: Text, needle: Text)
    requires pattern != [] && Bars(replacement, needle) && !Contains(s, needle)
    ensures !Contains(Replace(s, pattern, replacement), needle)
    decreases |s|
  {
    if s == [] {
    } else if pattern <= s {
      AbsentTail(s, |pattern|, needle);
      ReplaceKeepsAbsent(s[|pattern|..], pattern, replacement, needle);
      var rest := Replace(s[|pattern|..], pattern, replacement);
      if Contains(replacement + rest, needle) {
        ContainsBehind(replacement, rest, needle);
      }
    } else {
      AbsentTail(s, 1, needle);
      ReplaceKeepsAbsent(s[1..], pattern, replacement, needle);
      ContainsCons(s[0], Replace(s[1..], pattern, replacement), needle);
      PrefixIsMatch(s, needle);
      if needle <= Replace(s, pattern, replacement) {
        PrefixOfReplaced(s, pattern, replacement, needle);
      }
    }
  }

  lemma AbsentTail(s: Text, i: nat, needle: Text)
    requires i <= |s| && !Contains(s, needle)
    ensures !Contains(s[i..], needle)
  {
    assert s[i..|s|] == s[i..];
    if Contains(s[i..], needle) {
      ContainsPiece(s, i, |s|, needle);
    }
  }

  /** Replacing a needle by a text that bars it removes every occurrence. */
  lemma {:induction false} ReplaceRemoves(s: Text, needle: Text, replacement: Text)
    requires Bars(replacement, needle)
    ensures !Contains(Replace(s, needle, replacement), needle)
    decreases |s|
  {
    if s == [] {
    } else if needle <= s {
      var rest := Replace(s[|needle|..], needle, replacement);
      ReplaceRemoves(s[|needle|..], needle, replacement);
      if Contains(replacement + rest, needle) {
        ContainsBehind(replacement, rest, needle);
      }
    } else {
      ReplaceRemoves(s[1..], needle, replacement);
      ContainsCons(s[0], Replace(s[1..], needle, replacement), needle);
      if needle <= Replace(s, needle, replacement) {
        PrefixOfReplaced(s, needle, replacement, needle);
      }
    }
  }

  /** A text without the pattern is left alone. */
  lemma {:induction false} ReplaceAbsent(s: Text, pattern: Text, replacement: Text)
    requires pattern != [] && !Contains(s, pattern)
    ensures Replace(s, pattern, replacement) == s
    decreases |s|
  {
    if s != [] {
      PrefixIsMatch(s, pattern);
      AbsentTail(s, 1, pattern);
      ReplaceAbsent(s[1..], pattern, replacement);
    }
  }

  /** No byte of `s` is `c` in either case. */
  predicate Lacks(s: Text, c: char) {
    forall d | d in s :: Lower(d) != c
  }

  lemma LacksConcat(a: Text, b: Text, c: char)
    requires Lacks(a, c) && Lacks(b, c)
    ensures Lacks(a + b, c)
  {
  }

  lemma LacksSlice(s: Text, a: nat, b: nat, c: char)
    requires a <= b <= |s| && Lacks(s, c)
    ensures Lacks(s[a..b], c) && Lacks(s[..b], c) && Lacks(s[b..], c)
  {
  }

  /** A needle with a byte that the text lacks does not occur. */
  lemma LacksMeansAbsent(s: Text, needle: Text, k: nat)
    requires k < |needle| && Lacks(s, Lower(needle[k]))
    ensures !Contains(s, needle) && !ContainsCi(s, needle)
  {
    forall i | 0 <= i <= |s| ensures !MatchesAt(s, i, needle) && !MatchesCi(s, i, needle) {
      assert i + |needle| <= |s| ==> s[i + k] in s && s[i..i + |needle|][k] == s[i + k];
    }
  }
}
