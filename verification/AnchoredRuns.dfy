/** Scanning a text that the anchored pass has already written. */
module AnchoredRuns {
  import opened AnchoredScan
  import opened Options
  import opened Search
  import opened Utf8

  // ---------------------------------------------------------------------------------------------
  // Reading from a later place

  function Shift(h: Option<Hit>, n: nat): Option<Hit> {
    match h
    case None => None
    case Some(x) => Some(Hit(x.kind, n + x.start, n + x.end))
  }

  lemma {:induction false} EntryShift(table: seq<Entry>, p: Text, s: Text, i: nat, k: nat)
    requires k <= |table|
    ensures FindEntry(table, p + s, |p| + i, k) == FindEntry(table, s, i, k)
    decreases |table| - k
  {
    if k < |table| {
      MatchesShift(p, s, i, table[k].name);
      EntryShift(table, p, s, i, k + 1);
    }
  }

  lemma KeyShift(keys: KeyTable, p: Text, s: Text, i: nat)
    ensures FindKey(keys, p + s, |p| + i) ==
      match FindKey(keys, s, i) case None => None case Some(k) => Some(Key(k.kind, |p| + k.end))
  {
    hide FindEntry, KeyBytes;
    EntryShift(keys, p, s, i, 0);
  }

  lemma {:induction false} BlankShift(p: Text, s: Text, i: nat)
    requires i <= |s|
    ensures SkipBlank(p + s, |p| + i) == |p| + SkipBlank(s, i)
    decreases |s| - i
  {
    if i < |s| && IsBlank(s[i]) {
      BlankShift(p, s, i + 1);
    }
  }

  lemma {:induction false} PadShift(p: Text, s: Text, i: nat)
    requires i <= |s|
    ensures SkipPad(p + s, |p| + i) == |p| + SkipPad(s, i)
    decreases |s| - i
  {
    if i < |s| && IsPad(s[i]) {
      PadShift(p, s, i + 1);
    }
  }

  lemma {:induction false} NumericShift(p: Text, s: Text, i: nat)
    requires i <= |s|
    ensures Numeric(p + s, |p| + i) == Numeric(s, i)
    decreases |s| - i
  {
    if i < |s| {
      NumericShift(p, s, i + 1);
    }
  }

  lemma {:induction false} EndShift(kind: Kind, p: Text, s: Text, i: nat)
    requires i <= |s|
    ensures ValueEnd(kind, p + s, |p| + i) == |p| + ValueEnd(kind, s, i)
    decreases |s| - i
  {
    if i < |s| && !EndsValue(kind, s[i]) {
      EndShift(kind, p, s, i + 1);
    }
  }

  lemma KeyEndShift(p: Text, s: Text, c: nat)
    requires c <= |s|
    ensures KeyEnd(p + s, |p| + c) == |p| + KeyEnd(s, c)
  {
  }

  lemma ValueAfterShift(f: bool, p: Text, s: Text, c: nat)
    requires c <= |s|
    ensures ValueAfter(f, p + s, |p| + c) == Add(ValueAfter(f, s, c), |p|)
  {
    BlankShift(p, s, c);
    var gap := SkipBlank(s, c);
    NumericShift(p, s, gap);
    PadShift(p, s, gap);
    if gap < |s| {
      PadShift(p, s, gap + 1);
    }
  }

  function Add(v: Option<nat>, n: nat): Option<nat> {
    match v case None => None case Some(x) => Some(n + x)
  }

  lemma HitShift(f: bool, kind: Kind, p: Text, s: Text, c: nat)
    requires c <= |s|
    ensures HitAt(kind, p + s, ValueStart(f, p + s, |p| + c)) == Shift(HitAt(kind, s, ValueStart(f, s, c)), |p|)
  {
    hide KeyEnd, ValueAfter, ValueEnd;
    KeyEndShift(p, s, c);
    ValueAfterShift(f, p, s, KeyEnd(s, c));
    var v := ValueStart(f, s, c);
    assert ValueStart(f, p + s, |p| + c) == Add(v, |p|);
    if v.Some? {
      EndShift(kind, p, s, v.value);
    }
  }

  /** What the pass reads at a place depends on the text from there on. */
  lemma ParseShift(keys: KeyTable, f: bool, p: Text, s: Text, i: nat)
    ensures Parse(keys, f, p + s, |p| + i) == Shift(Parse(keys, f, s, i), |p|)
  {
    hide FindKey, HitAt, ValueStart;
    KeyShift(keys, p, s, i);
    var found := FindKey(keys, s, i);
    if found.Some? {
      HitShift(f, found.value.kind, p, s, found.value.end);
    }
  }

  /** The same, for a suffix of `t`. */
  lemma ParseSuffix(keys: KeyTable, f: bool, t: Text, k: nat)
    requires k <= |t|
    ensures Parse(keys, f, t, k) == Shift(Parse(keys, f, t[k..], 0), k)
  {
    hide Parse;
    assert t[..k] + t[k..] == t;
    ParseShift(keys, f, t[..k], t[k..], 0);
  }

  // ---------------------------------------------------------------------------------------------
  // The hyphen of the line

  lemma {:induction false} AfterConcat(f: bool, a: Text, b: Text)
    ensures After(f, a + b) == After(After(f, a), b)
  {
    if b == [] {
      assert a + b == a;
    } else {
      var n := |b| - 1;
      assert (a + b)[..|a + b| - 1] == a + b[..n];
      AfterConcat(f, a, b[..n]);
    }
  }

  lemma AfterNext(f: bool, t: Text, k: nat)
    requires k < |t|
    ensures After(f, t[..k + 1]) == Update(After(f, t[..k]), t[k])
  {
    assert t[..k + 1][..k] == t[..k];
  }

  lemma AfterPrefix(f: bool, t: Text, k: nat, m: nat)
    requires k <= m <= |t|
    ensures After(f, t[..m]) == After(After(f, t[..k]), t[k..m])
  {
    assert t[..m] == t[..k] + t[k..m];
    AfterConcat(f, t[..k], t[k..m]);
  }

  lemma {:induction false} AfterMonotone(f': bool, f: bool, s: Text)
    requires f' ==> f
    ensures After(f', s) ==> After(f, s)
  {
    if s != [] {
      AfterMonotone(f', f, s[..|s| - 1]);
    }
  }

  predicate OnOneLine(s: Text) { forall c | c in s :: !IsNewline(c) }

  lemma {:induction false} AfterKeepsHyphen(f: bool, s: Text)
    requires OnOneLine(s)
    ensures f ==> After(f, s)
    ensures '-' !in s ==> After(f, s) == f
  {
    if s != [] {
      assert s[|s| - 1] in s;
      assert forall c | c in s[..|s| - 1] :: c in s;
      AfterKeepsHyphen(f, s[..|s| - 1]);
    }
  }

  // ---------------------------------------------------------------------------------------------
  // Places where a second scan changes nothing

  predicate IsMarked(value: Text) {
    value == [] || REDACTED_PREFIX <= value
  }

  /** Nothing to redact at `k` of a text whose first line starts with `f`: no structured secret, or
      one whose value is empty or marked and ends by `end`. */
  predicate Cold(keys: KeyTable, f: bool, t: Text, k: nat, end: nat)
    requires k <= |t|
  {
    IsCold(Parse(keys, After(f, t[..k]), t, k), t, end)
  }

  predicate IsCold(found: Option<Hit>, t: Text, end: nat)
    requires found.Some? ==> found.value.start <= found.value.end <= |t|
  {
    found.Some? ==> found.value.end <= end && IsMarked(t[found.value.start..found.value.end])
  }

  lemma {:induction false} ColdRun(keys: KeyTable, f: bool, t: Text, k: nat, end: nat)
    requires k <= end <= |t|
    requires forall j | k <= j < end :: Cold(keys, f, t, j, end)
    ensures Scan(keys, After(f, t[..k]), t[k..]) == t[k..end] + Scan(keys, After(f, t[..end]), t[end..])
    decreases end - k
  {
    hide Parse, After, Write, IsMarked;
    if k < end {
      ParseSuffix(keys, After(f, t[..k]), t, k);
      assert Cold(keys, f, t, k, end);
      var found := Parse(keys, After(f, t[..k]), t[k..], 0);
      var next := if found.Some? then k + found.value.end else k + 1;
      ColdStep(keys, f, t, k, found);
      ColdRun(keys, f, t, next, end);
      Slices(t, k, next, end);
      Join(t[k..next], t[next..end], Scan(keys, After(f, t[..end]), t[end..]),
           Scan(keys, After(f, t[..next]), t[next..]), Scan(keys, After(f, t[..k]), t[k..]));
    } else {
      assert t[k..k] == [];
    }
  }

  lemma ColdStep(keys: KeyTable, f: bool, t: Text, k: nat, found: Option<Hit>)
    requires k < |t|
    requires found.Some? ==> 0 < found.value.start <= found.value.end && k + found.value.end <= |t|
    requires found.Some? ==> IsMarked(t[k + found.value.start..k + found.value.end])
    ensures var next := if found.Some? then k + found.value.end else k + 1;
      Write(keys, After(f, t[..k]), t[k..], found) ==
        t[k..next] + Scan(keys, After(f, t[..next]), t[next..])
  {
    hide Scan, After, Mark, IsMarked;
    if found.Some? {
      ColdHit(f, t, k, found.value);
    } else {
      AfterNext(f, t, k);
      SuffixSlice(t, k, 0, 1);
    }
  }

  lemma HitSlices(t: Text, k: nat, h: Hit)
    requires 0 < h.start <= h.end && k + h.end <= |t|
    ensures t[k..][h.start..h.end] == t[k + h.start..k + h.end] && t[k..][..h.end] == t[k..k + h.end]
    ensures t[k..][..h.start] + t[k + h.start..k + h.end] == t[k..k + h.end]
    ensures t[k..][h.end..] == t[k + h.end..]
  {
    SuffixSlice(t, k, h.start, h.end);
    SuffixSlice(t, k, 0, h.end);
    SuffixSlice(t, k, 0, h.start);
    Slices(t, k, k + h.start, k + h.end);
  }

  lemma MarkedStays(value: Text)
    requires IsMarked(value)
    ensures Mark(value) == value
  {
  }

  lemma ColdHit(f: bool, t: Text, k: nat, h: Hit)
    requires 0 < h.start <= h.end && k + h.end <= |t|
    requires IsMarked(t[k + h.start..k + h.end])
    ensures t[k..][..h.start] + Mark(t[k..][h.start..h.end]) == t[k..k + h.end]
    ensures After(After(f, t[..k]), t[k..][..h.end]) == After(f, t[..k + h.end])
    ensures t[k..][h.end..] == t[k + h.end..]
  {
    MarkedStays(t[k + h.start..k + h.end]);
    hide After, Mark, IsMarked;
    HitSlices(t, k, h);
    AfterPrefix(f, t, k, k + h.end);
  }

  /** No key opens inside a marker. */
  lemma MarkerOpensNoKey(keys: KeyTable, t: Text, v: nat, length: nat, j: nat)
    requires var m := Redaction(length, REDACTED); v + |m| <= |t| && t[v..v + |m|] == m && v <= j < v + |m|
    ensures FindKey(keys, t, j).None?
  {
    hide FindKey;
    var m := Redaction(length, REDACTED);
    assert t[j] == m[j - v];
    assert j + 1 < v + |m| ==> t[j + 1] == m[j + 1 - v];
    var o := j - v;
    assert o >= 10 ==> m[o] == '*';
    assert o < 10 ==> m[o] == REDACTED[o];
    assert o + 1 < 10 ==> m[o + 1] == REDACTED[o + 1];
  }
}
