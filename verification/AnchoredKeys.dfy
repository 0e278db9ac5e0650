/** What a key reads: two texts that agree up to a marker agree on every structured key. */
module AnchoredKeys {
  import opened AnchoredScan
  import opened Search
  import opened Utf8

  /** The texts agree up to `d`; there both end, or `t` goes on with a marker. */
  predicate Agree(s: Text, t: Text, d: nat) {
    && d <= |s| && d <= |t|
    && (forall j | 0 <= j < d :: s[j] == t[j])
    && (d == |s| == |t| || (d < |t| && t[d] == '['))
  }

  /** The texts agree before `v`, and at `v` they agree too, or both end, or `t` has a marker. */
  predicate Follows(s: Text, t: Text, v: nat) {
    && v <= |s| && v <= |t|
    && (forall j | 0 <= j < v :: s[j] == t[j])
    && (v == |s| == |t| || (v < |t| && (t[v] == '[' || (v < |s| && s[v] == t[v]))))
  }

  predicate IsSeparator(c: char) {
    IsBlank(c) || IsQuote(c) || IsDelimiter(c)
  }

  /** A structured key is followed by a `_hex` suffix or by a separator. */
  lemma KeyIsFollowed(hyphen: bool, s: Text, c: nat)
    requires c <= |s| && ValueStart(hyphen, s, c).Some?
    ensures c < |s| && ValueStart(hyphen, s, c).value > c
    ensures SuffixAt(s, c) || IsSeparator(s[c])
  {
  }

  lemma {:induction false} BlankAgrees(s: Text, t: Text, i: nat, d: nat)
    requires Agree(s, t, d) && i <= d
    ensures SkipBlank(t, i) <= d
    ensures SkipBlank(t, i) < d || d == |s| ==> SkipBlank(s, i) == SkipBlank(t, i)
    ensures SkipBlank(s, i) >= SkipBlank(t, i)
    decreases d - i
  {
    if i < d && IsBlank(t[i]) {
      BlankAgrees(s, t, i + 1, d);
    }
  }

  lemma {:induction false} PadAgrees(s: Text, t: Text, i: nat, d: nat)
    requires Agree(s, t, d) && i <= d
    ensures SkipPad(t, i) <= d
    ensures SkipPad(t, i) < d || d == |s| ==> SkipPad(s, i) == SkipPad(t, i)
    decreases d - i
  {
    if i < d && IsPad(t[i]) {
      PadAgrees(s, t, i + 1, d);
    }
  }

  lemma {:induction false} NumericAgrees(s: Text, t: Text, i: nat, d: nat)
    requires Agree(s, t, d) && i <= d && Numeric(t, i)
    ensures Numeric(s, i)
    decreases d - i
  {
    if i < d && !IsBlank(t[i]) && !IsNewline(t[i]) {
      NumericAgrees(s, t, i + 1, d);
    }
  }

  lemma OpenValueAgrees(s: Text, t: Text, i: nat, d: nat)
    requires Agree(s, t, d) && i <= d
    ensures OpenValue(t, i) <= d
    ensures OpenValue(t, i) < d || d == |s| ==> OpenValue(s, i) == OpenValue(t, i)
  {
    PadAgrees(s, t, i, d);
  }

  /** A key of `t` that is followed by a suffix or separator ends, with them, before the marker. */
  lemma KeyEndAgrees(s: Text, t: Text, c: nat, d: nat)
    requires Agree(s, t, d) && c <= d && c < |t| && (SuffixAt(t, c) || IsSeparator(t[c]))
    requires KeyEnd(t, c) < |t| && t[KeyEnd(t, c)] != '['
    ensures c < d && (SuffixAt(t, c) ==> c + 4 <= d)
    ensures KeyEnd(t, c) <= d && KeyEnd(s, c) == KeyEnd(t, c)
  {
    if SuffixAt(t, c) {
    } else if SuffixAt(s, c) {
      assert false;
    }
  }

  lemma ValueAfterTransfers(f': bool, t: Text, f: bool, s: Text, c: nat, d: nat)
    requires Agree(s, t, d) && c <= d && (f' ==> f)
    requires ValueAfter(f', t, c).Some?
    ensures ValueAfter(f, s, c).Some?
    ensures ValueAfter(f', t, c).value <= d
    ensures ValueAfter(f', t, c).value < d || d == |s| ==> ValueAfter(f, s, c) == ValueAfter(f', t, c)
  {
    var gap := SkipBlank(t, c);
    BlankAgrees(s, t, c, d);
    if DelimiterAt(t, gap) {
      assert gap < d;
      OpenValueAgrees(s, t, gap + 1, d);
    } else {
      OpenValueAgrees(s, t, gap, d);
      if gap < d || d == |s| {
        if Numeric(t, gap) {
          NumericAgrees(s, t, gap, d);
        }
      }
    }
  }

  /** What makes a key structured before a marker made it structured in the text the marker
      replaced: a marker adds no structure. */
  lemma TailTransfers(f': bool, t: Text, f: bool, s: Text, c: nat, d: nat)
    requires Agree(s, t, d) && c <= d && (f' ==> f)
    requires ValueStart(f', t, c).Some?
    ensures ValueStart(f, s, c).Some?
    ensures ValueStart(f', t, c).value <= d
    ensures ValueStart(f', t, c).value < d || d == |s| ==> ValueStart(f, s, c) == ValueStart(f', t, c)
    ensures c < d && (SuffixAt(t, c) ==> c + 4 <= d)
  {
    KeyIsFollowed(f', t, c);
    KeyEndAgrees(s, t, c, d);
    ValueAfterTransfers(f', t, f, s, KeyEnd(t, c), d);
  }

  lemma {:induction false} BlankFollows(s: Text, t: Text, i: nat, v: nat)
    requires Follows(s, t, v) && i <= v && SkipBlank(s, i) <= v
    ensures SkipBlank(t, i) == SkipBlank(s, i)
    decreases v - i
  {
    if i < v && IsBlank(s[i]) {
      BlankFollows(s, t, i + 1, v);
    }
  }

  lemma {:induction false} OpenValueFollows(s: Text, t: Text, i: nat, v: nat)
    requires Follows(s, t, v) && i <= v && OpenValue(s, i) == v
    ensures OpenValue(t, i) == v
    decreases v - i
  {
    if i < v && IsPad(s[i]) {
      OpenValueFollows(s, t, i + 1, v);
    }
  }

  lemma KeyEndFollows(s: Text, t: Text, c: nat, v: nat)
    requires Follows(s, t, v) && c < v && KeyEnd(s, c) < v && c < |t|
    requires SuffixAt(s, c) || IsSeparator(s[c])
    requires SuffixAt(t, c) || IsSeparator(t[c])
    ensures KeyEnd(t, c) == KeyEnd(s, c)
  {
    if SuffixAt(s, c) {
    } else if SuffixAt(t, c) {
      assert false;
    }
  }

  lemma ValueAfterFollows(f: bool, s: Text, g: bool, t: Text, c: nat)
    requires c <= |s| && c <= |t|
    requires ValueAfter(f, s, c).Some? && Follows(s, t, ValueAfter(f, s, c).value)
    requires ValueAfter(g, t, c).Some?
    ensures ValueAfter(g, t, c) == ValueAfter(f, s, c)
  {
    var v := ValueAfter(f, s, c).value;
    var gap := SkipBlank(s, c);
    BlankFollows(s, t, c, v);
    assert DelimiterAt(s, gap) == DelimiterAt(t, gap);
    OpenValueFollows(s, t, if DelimiterAt(s, gap) then gap + 1 else gap, v);
  }

  /** A key of `s` reads the same in any text that follows `s` up to the value it found. */
  lemma SameTail(f: bool, s: Text, g: bool, t: Text, c: nat)
    requires c <= |s| && c <= |t|
    requires ValueStart(f, s, c).Some? && Follows(s, t, ValueStart(f, s, c).value)
    requires ValueStart(g, t, c).Some?
    ensures ValueStart(g, t, c) == ValueStart(f, s, c)
  {
    KeyIsFollowed(f, s, c);
    KeyIsFollowed(g, t, c);
    KeyEndFollows(s, t, c, ValueStart(f, s, c).value);
    ValueAfterFollows(f, s, g, t, KeyEnd(s, c));
  }

  // ---------------------------------------------------------------------------------------------
  // Which key is found

  /** A key found before a marker, and followed by what makes it structured, is the key that was
      found in the text the marker replaced. */
  lemma KeyTransfers(keys: KeyTable, f': bool, t: Text, s: Text, i: nat, d: nat)
    requires Agree(s, t, d) && i <= d
    requires FindKey(keys, t, i).Some? && ValueStart(f', t, FindKey(keys, t, i).value.end).Some?
    ensures FindKey(keys, s, i) == FindKey(keys, t, i) && FindKey(keys, t, i).value.end < d
  {
    var key := FindKey(keys, t, i).value;
    assert key.end <= d;
    TailTransfers(f', t, f', s, key.end, d);
    KeyIsFollowed(f', t, key.end);
    SameEntry(keys, s, t, i, d);
  }

  lemma SameEntry(keys: KeyTable, s: Text, t: Text, i: nat, d: nat)
    requires Agree(s, t, d)
    requires FindKey(keys, t, i).Some?
    requires var end := FindKey(keys, t, i).value.end;
      end < d && ((SuffixAt(t, end) && end + 4 <= d) || IsSeparator(t[end]))
    ensures FindKey(keys, s, i) == FindKey(keys, t, i)
  {
    hide SuffixAt, IsSeparator, KeyBytes, FindEntry, IsKey;
    var k := FindEntry(keys, t, i, 0).value;
    var end := FindKey(keys, t, i).value.end;
    assert MatchesCi(s, i, keys[k].name);
    var m := FindEntry(keys, s, i, 0).value;
    if m < k {
      LongerKey(keys[m], s, t, i, end, d);
      assert false;
    }
  }

  lemma LongerKey(e: Entry, s: Text, t: Text, i: nat, end: nat, d: nat)
    requires IsKey(e) && MatchesCi(s, i, e.name)
    requires Agree(s, t, d) && i <= end < d
    requires (SuffixAt(t, end) && end + 4 <= d) || IsSeparator(t[end])
    ensures MatchesCi(t, i, e.name)
  {
    KeyBytesOf(e, s, i);
    if SuffixAt(t, end) {
    }
    assert i + |e.name| <= d;
  }

  // ---------------------------------------------------------------------------------------------
  // Whole secrets

  /** A marker adds no structured secret: what is structured before it was structured already, and
      starts at the same place unless the marker itself is the value. */
  lemma ParseTransfers(keys: KeyTable, f': bool, t: Text, f: bool, s: Text, i: nat, d: nat)
    requires Agree(s, t, d) && i <= d && (f' ==> f)
    requires Parse(keys, f', t, i).Some?
    ensures Parse(keys, f, s, i).Some? && Parse(keys, f, s, i).value.kind == Parse(keys, f', t, i).value.kind
    ensures Parse(keys, f', t, i).value.start <= d
    ensures Parse(keys, f', t, i).value.start < d || d == |s| ==>
      Parse(keys, f, s, i).value.start == Parse(keys, f', t, i).value.start
  {
    KeyTransfers(keys, f', t, s, i, d);
    TailTransfers(f', t, f, s, FindKey(keys, t, i).value.end, d);
  }

  lemma SeparatorsBeforeValue(f: bool, s: Text, c: nat)
    requires c <= |s| && ValueStart(f, s, c).Some?
    ensures SkipSuffix(s, c) < ValueStart(f, s, c).value
    ensures forall j | SkipSuffix(s, c) <= j < ValueStart(f, s, c).value :: IsSeparator(s[j])
  {
  }

  predicate OpensWith(c: char) {
    var l := Lower(c);
    l == 'c' || l == 's' || l == 'w' || l == 'r' || l == 'm'
  }

  /** No key opens between a key and its value. */
  lemma BetweenKeyAndValue(f: bool, s: Text, c: nat, i: nat)
    requires c <= |s| && ValueStart(f, s, c).Some? && c <= i < ValueStart(f, s, c).value
    ensures !OpensWith(s[i])
  {
    SeparatorsBeforeValue(f, s, c);
    if i < SkipSuffix(s, c) {
    }
  }

  /** A key is not followed, inside a longer key, by what makes it structured. */
  lemma NoShorterKey(kind: Kind, inner: Kind, s: Text, t: Text, i: nat, short: nat, end: nat)
    requires KeyBytes(kind, s, 0, end) && KeyBytes(inner, t, i, short) && short < |t| && end <= |t|
    requires forall j | 0 <= j < end :: s[j] == t[j]
    requires SuffixAt(t, short) || IsSeparator(t[short])
    ensures short >= end
  {
    assert Lower(s[end - 1]) == Lower(t[end - 1]);
    if SuffixAt(t, short) {
    }
  }

  lemma NoLongerKey(kind: Kind, s: Text, t: Text, v: nat, i: nat, end: nat, long: nat)
    requires KeyBytes(kind, t, i, long) && i < end < v <= |s| && v <= |t|
    requires forall j | 0 <= j < v :: s[j] == t[j]
    requires (SuffixAt(s, end) && end + 4 <= v) || IsSeparator(s[end])
    ensures long <= end
  {
    var last := Lower(t[long - 1]);
    assert t[end] == s[end];
    if SuffixAt(s, end) {
      assert t[end + 1] == s[end + 1] && t[end + 2] == s[end + 2] && t[end + 3] == s[end + 3];
    }
  }

  /** Two structured keys that overlap end together, and so have the same kind. */
  lemma SameKeyEnd(s: Text, t: Text, v: nat, i: nat, outer: Key, inner: Key)
    requires v <= |s| && v <= |t| && forall j | 0 <= j < v :: s[j] == t[j]
    requires KeyBytes(outer.kind, s, 0, outer.end) && KeyBytes(inner.kind, t, i, inner.end)
    requires i < outer.end < v && inner.end < |t|
    requires (SuffixAt(s, outer.end) && outer.end + 4 <= v) || IsSeparator(s[outer.end])
    requires SuffixAt(t, inner.end) || IsSeparator(t[inner.end])
    ensures inner == outer
  {
    NoShorterKey(outer.kind, inner.kind, s, t, i, inner.end, outer.end);
    NoLongerKey(inner.kind, s, t, v, i, outer.end, inner.end);
    assert t[outer.end - 1] == s[outer.end - 1] && t[outer.end - 2] == s[outer.end - 2];
  }

  /** Every structured secret that starts inside a secret's key is that secret. */
  lemma KeyInterior(keys: KeyTable, f: bool, s: Text, g: bool, t: Text, i: nat)
    requires Parse(keys, f, s, 0).Some? && Follows(s, t, Parse(keys, f, s, 0).value.start)
    requires i < Parse(keys, f, s, 0).value.start && Parse(keys, g, t, i).Some?
    ensures Parse(keys, g, t, i).value.kind == Parse(keys, f, s, 0).value.kind
    ensures Parse(keys, g, t, i).value.start == Parse(keys, f, s, 0).value.start
  {
    var outer, inner := FindKey(keys, s, 0).value, FindKey(keys, t, i).value;
    KeyIsFollowed(f, s, outer.end);
    KeyIsFollowed(g, t, inner.end);
    SeparatorsBeforeValue(f, s, outer.end);
    KeyOpensInKey(f, s, g, t, i, outer, inner);
    SameKeyEnd(s, t, Parse(keys, f, s, 0).value.start, i, outer, inner);
    SameTail(f, s, g, t, outer.end);
  }

  lemma KeyOpensInKey(f: bool, s: Text, g: bool, t: Text, i: nat, outer: Key, inner: Key)
    requires outer.end <= |s| && ValueStart(f, s, outer.end).Some?
    requires i < ValueStart(f, s, outer.end).value <= |t| && s[i] == t[i]
    requires KeyBytes(inner.kind, t, i, inner.end)
    ensures i < outer.end
  {
    assert OpensWith(t[i]);
    if i >= outer.end {
      BetweenKeyAndValue(f, s, outer.end, i);
    }
  }

  // ---------------------------------------------------------------------------------------------
  // Reading the other way: what was structured before a marker still is

  /** At `d` a marker replaces what no run of digits and no marker can reach across: a value, which has a
      separator before it, or something that opens with a byte of neither. */
  predicate Barrier(s: Text, d: nat) {
    && d < |s|
    && ((0 < d && IsSeparator(s[d - 1]))
        || (s[d] !in REDACTED_PREFIX && !IsDigit(s[d]) && !IsBlank(s[d]) && !IsNewline(s[d])))
  }

  lemma KeyBack(keys: KeyTable, s: Text, t: Text, i: nat, d: nat)
    requires Agree(s, t, d) && FindKey(keys, s, i).Some? && FindKey(keys, s, i).value.end <= d
    ensures FindKey(keys, t, i) == FindKey(keys, s, i)
  {
    hide KeyBytes, FindEntry, IsKey;
    var k := FindEntry(keys, s, i, 0).value;
    assert MatchesCi(t, i, keys[k].name);
    var m := FindEntry(keys, t, i, 0).value;
    if m < k {
      NameBack(keys[m], s, t, i, d);
    }
  }

  /** A name does not reach into a marker. */
  lemma NameBack(e: Entry, s: Text, t: Text, i: nat, d: nat)
    requires IsKey(e) && MatchesCi(t, i, e.name) && Agree(s, t, d) && i <= d
    ensures MatchesCi(s, i, e.name)
  {
    KeyBytesOf(e, t, i);
    assert d < |t| ==> !IsKeyChar(Lower(t[d]));
    assert i + |e.name| <= d;
  }

  lemma {:induction false} NumericBack(s: Text, t: Text, i: nat, d: nat)
    requires Agree(s, t, d) && Barrier(s, d) && i < d && Numeric(s, i)
    ensures Numeric(t, i)
    decreases d - i
  {
    if !IsBlank(s[i]) && !IsNewline(s[i]) && i + 1 < d {
      NumericBack(s, t, i + 1, d);
    }
  }

  lemma TailBack(f: bool, s: Text, t: Text, c: nat, d: nat)
    requires Agree(s, t, d) && Barrier(s, d) && c <= |s|
    requires ValueStart(f, s, c).Some? && ValueStart(f, s, c).value < d
    ensures c <= |t| && ValueStart(f, t, c) == ValueStart(f, s, c)
  {
    KeyEndBack(f, s, t, c, d);
    hide KeyEnd, ValueAfter;
    ValueAfterBack(f, s, t, KeyEnd(s, c), d);
  }

  lemma KeyEndBack(f: bool, s: Text, t: Text, c: nat, d: nat)
    requires Agree(s, t, d) && c <= |s|
    requires ValueStart(f, s, c).Some? && ValueStart(f, s, c).value < d
    ensures c <= |t| && KeyEnd(t, c) == KeyEnd(s, c)
  {
    KeyIsFollowed(f, s, c);
  }

  lemma ValueAfterBack(f: bool, s: Text, t: Text, e: nat, d: nat)
    requires Agree(s, t, d) && Barrier(s, d) && e <= |s|
    requires ValueAfter(f, s, e).Some? && ValueAfter(f, s, e).value < d
    ensures e <= |t| && ValueAfter(f, t, e) == ValueAfter(f, s, e)
  {
    var v, gap := ValueAfter(f, s, e).value, SkipBlank(s, e);
    BlankFollows(s, t, e, v);
    assert DelimiterAt(s, gap) == DelimiterAt(t, gap);
    if !DelimiterAt(s, gap) && !f {
      NumericBack(s, t, gap, d);
    }
    OpenValueFollows(s, t, if DelimiterAt(s, gap) then gap + 1 else gap, v);
  }

  lemma ParseBack(keys: KeyTable, f: bool, s: Text, t: Text, i: nat, d: nat)
    requires Agree(s, t, d) && Barrier(s, d)
    requires Parse(keys, f, s, i).Some? && Parse(keys, f, s, i).value.start < d
    ensures Parse(keys, f, t, i).Some? && Parse(keys, f, t, i).value.kind == Parse(keys, f, s, i).value.kind
    ensures Parse(keys, f, t, i).value.start == Parse(keys, f, s, i).value.start
  {
    hide FindKey, ValueStart, ValueEnd;
    var key := FindKey(keys, s, i).value;
    KeyBack(keys, s, t, i, d);
    TailBack(f, s, t, key.end, d);
  }
}
