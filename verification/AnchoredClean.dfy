/** Texts in which the pass would find nothing more, at any place: exactly when the passes write such a text. */
module AnchoredClean {
  import opened AnchoredIdempotence
  import opened AnchoredKeys
  import opened AnchoredRuns
  import opened AnchoredScan
  import opened Options
  import opened Search
  import opened Utf8

  /** At every place of the text, scanned or not: either no key is structured, or its value is empty
      or opens with a marker. `f` says whether the line of the text's first byte holds a hyphen. */
  predicate Clean(keys: KeyTable, f: bool, t: Text) {
    CleanBut([], keys, f, t)
  }

  /** The same, but for values that open with one of `ps`, which are still to be replaced. */
  predicate CleanBut(ps: seq<Text>, keys: KeyTable, f: bool, t: Text) {
    forall k | 0 <= k < |t| :: ColdBut(ps, keys, f, t, k)
  }

  predicate ColdBut(ps: seq<Text>, keys: KeyTable, f: bool, t: Text, k: nat)
    requires k <= |t|
  {
    IsColdBut(ps, Parse(keys, After(f, t[..k]), t, k), t)
  }

  predicate IsColdBut(ps: seq<Text>, found: Option<Hit>, t: Text)
    requires found.Some? ==> found.value.start <= found.value.end <= |t|
  {
    found.Some? ==> IsMarked(t[found.value.start..found.value.end]) || Opens(ps, t, found.value.start)
  }

  predicate Opens(ps: seq<Text>, t: Text, v: nat)
    requires v <= |t|
  {
    exists p | p in ps :: p <= t[v..]
  }

  lemma ColdIsBut(ps: seq<Text>, keys: KeyTable, f: bool, t: Text, k: nat, end: nat)
    requires k <= |t| && end <= |t| && Cold(keys, f, t, k, end)
    ensures ColdBut(ps, keys, f, t, k)
  {
    hide Parse, After, IsMarked;
  }

  lemma ColdBehind(ps: seq<Text>, keys: KeyTable, f: bool, a: Text, t: Text, k: nat)
    requires k <= |t|
    ensures ColdBut(ps, keys, f, a + t, |a| + k) == ColdBut(ps, keys, After(f, a), t, k)
  {
    hide Parse, After, IsMarked;
    assert (a + t)[..|a| + k] == a + t[..k];
    AfterConcat(f, a, t[..k]);
    var g := After(f, a + t[..k]);
    ParseShift(keys, g, a, t, k);
    var found := Parse(keys, g, t, k);
    if found.Some? {
      assert (a + t)[|a| + found.value.start..|a| + found.value.end] == t[found.value.start..found.value.end];
      assert (a + t)[|a| + found.value.start..] == t[found.value.start..];
    }
  }

  /** A text is clean if its front is, as the text goes on, and what follows. */
  lemma CleanParts(ps: seq<Text>, keys: KeyTable, f: bool, a: Text, t: Text)
    ensures CleanBut(ps, keys, f, a + t) <==>
      (forall k | 0 <= k < |a| :: ColdBut(ps, keys, f, a + t, k)) && CleanBut(ps, keys, After(f, a), t)
  {
    hide ColdBut, After;
    forall k | 0 <= k < |t| ensures ColdBut(ps, keys, f, a + t, |a| + k) == ColdBut(ps, keys, After(f, a), t, k) {
      ColdBehind(ps, keys, f, a, t, k);
    }
    if (forall k | 0 <= k < |a| :: ColdBut(ps, keys, f, a + t, k)) && CleanBut(ps, keys, After(f, a), t) {
      forall k | 0 <= k < |a + t| ensures ColdBut(ps, keys, f, a + t, k) {
        if k >= |a| {
          assert ColdBut(ps, keys, After(f, a), t, k - |a|);
          assert |a| + (k - |a|) == k;
        }
      }
    }
  }

  /** A suffix of a clean text, taken for a line of its own, is clean. */
  lemma CleanSuffix(keys: KeyTable, f: bool, t: Text, n: nat)
    requires n <= |t| && Clean(keys, f, t)
    ensures Clean(keys, false, t[n..])
  {
    hide Parse, After, ColdBut;
    assert t[..n] + t[n..] == t;
    CleanParts([], keys, f, t[..n], t[n..]);
    var u, g := t[n..], After(f, t[..n]);
    forall k | 0 <= k < |u| ensures ColdBut([], keys, false, u, k) {
      WeakerIsCold(keys, g, u, k);
    }
  }

  lemma WeakerIsCold(keys: KeyTable, g: bool, u: Text, k: nat)
    requires k < |u| && ColdBut([], keys, g, u, k)
    ensures ColdBut([], keys, false, u, k)
  {
    hide Parse, After;
    AfterMonotone(false, g, u[..k]);
    var weak, strong := After(false, u[..k]), After(g, u[..k]);
    if Parse(keys, weak, u, k).Some? {
      ParseTransfers(keys, weak, u, strong, u, k, |u|);
      ParseEnd(keys, weak, u, k);
      ParseEnd(keys, strong, u, k);
    }
  }

  /** A clean text is left alone. */
  lemma CleanIsFixed(keys: KeyTable, f: bool, t: Text)
    requires Clean(keys, f, t)
    ensures Scan(keys, f, t) == t
  {
    hide Scan, Write, Parse, After, IsMarked;
    forall k | 0 <= k < |t| ensures Cold(keys, f, t, k, |t|) {
      assert ColdBut([], keys, f, t, k);
    }
    ColdRun(keys, f, t, 0, |t|);
    AfterNothing(f, t);
    assert t[0..|t|] == t && t[|t|..] == [];
    ScanNothing(keys, After(f, t[..|t|]));
  }

  lemma ScanNothing(keys: KeyTable, f: bool)
    ensures Scan(keys, f, []) == []
  {
  }

  // ---------------------------------------------------------------------------------------------
  // Places before a marker

  /** No pattern that opens at `v` reaches beyond `d`. */
  predicate StopAt(ps: seq<Text>, s: Text, v: nat, d: nat)
    requires v <= |s|
  {
    forall p | p in ps && p <= s[v..] :: v + |p| <= d
  }

  predicate BracketFree(ps: seq<Text>) { forall p | p in ps :: '[' !in p }

  /** A value that starts before the marker is the same kind of value before and after. */
  lemma ValueBack(ps: seq<Text>, kind: Kind, s: Text, t: Text, v: nat, d: nat)
    requires Agree(s, t, d) && Barrier(s, d) && v < d && BracketFree(ps) && StopAt(ps, s, v, d)
    ensures var es, et := ValueEnd(kind, s, v), ValueEnd(kind, t, v);
      && (IsMarked(t[v..et]) <==> IsMarked(s[v..es]))
      && (Opens(ps, t, v) <==> Opens(ps, s, v))
  {
    MarkerBack(kind, s, t, v, d);
    forall p | p in ps ensures p <= t[v..] <==> p <= s[v..] {
      if p <= t[v..] {
        assert t[v..][..|p|] == p;
        assert forall k | 0 <= k < |p| :: t[v + k] == p[k] && p[k] in p;
        assert v + |p| <= d by {
          assert d < |t| ==> t[d] == '[';
        }
        assert s[v..v + |p|] == t[v..v + |p|] == p;
      }
    }
  }

  lemma MarkerBack(kind: Kind, s: Text, t: Text, v: nat, d: nat)
    requires Agree(s, t, d) && Barrier(s, d) && v < d
    ensures var es, et := ValueEnd(kind, s, v), ValueEnd(kind, t, v);
      IsMarked(t[v..et]) <==> IsMarked(s[v..es])
  {
    var es, et := ValueEnd(kind, s, v), ValueEnd(kind, t, v);
    assert (et == v) <==> (es == v);
    if es > v && REDACTED_PREFIX <= s[v..es] {
      assert s[v..v + 9] == s[v..es][..9];
      ReachesNot(s, v, d);
      assert t[v..v + 9] == s[v..v + 9];
      MarkedValue(kind, t, v);
    }
    if et > v && REDACTED_PREFIX <= t[v..et] {
      assert t[v..v + 9] == t[v..et][..9];
      OnceBracket(t, v, d);
      assert t[v..v + 9] == s[v..v + 9];
      MarkedValue(kind, s, v);
    }
  }

  /** A marker's name does not reach across the barrier. */
  lemma ReachesNot(s: Text, v: nat, d: nat)
    requires Barrier(s, d) && v < d && v + 9 <= |s| && s[v..v + 9] == REDACTED_PREFIX
    ensures v + 9 <= d
  {
    if d < v + 9 {
      assert s[d] == REDACTED_PREFIX[d - v] && s[d - 1] == REDACTED_PREFIX[d - 1 - v];
      PrefixBytes(d - v);
      PrefixBytes(d - 1 - v);
    }
  }

  lemma OnceBracket(t: Text, v: nat, d: nat)
    requires v < d < |t| && t[d] == '[' && v + 9 <= |t| && t[v..v + 9] == REDACTED_PREFIX
    ensures v + 9 <= d
  {
    forall k | v < k < v + 9 ensures t[k] != '[' {
      InnerByte(k - v);
      assert t[k] == t[v..v + 9][k - v];
    }
  }

  lemma InnerByte(k: nat)
    requires 0 < k < 9
    ensures REDACTED_PREFIX[k] != '['
  {
  }

  /** A place whose value, if it has one, starts before the marker is cold before and after alike. */
  lemma ColdBack(ps: seq<Text>, keys: KeyTable, g: bool, s: Text, t: Text, j: nat, d: nat)
    requires Agree(s, t, d) && Barrier(s, d) && j < d && BracketFree(ps)
    requires var found := Parse(keys, After(g, s[..j]), s, j);
      found.Some? ==> found.value.start < d && StopAt(ps, s, found.value.start, d)
    ensures ColdBut(ps, keys, g, t, j) <==> ColdBut(ps, keys, g, s, j)
  {
    hide Parse, After, Agree, Barrier, IsMarked, Opens;
    assert d <= |s| && d <= |t| && t[..j] == s[..j] by { Prefixes(s, t, d, j); }
    var g' := After(g, s[..j]);
    if Parse(keys, g', s, j).Some? {
      ParseBack(keys, g', s, t, j, d);
      ParseEnd(keys, g', s, j);
      ParseEnd(keys, g', t, j);
      ValueBack(ps, Parse(keys, g', s, j).value.kind, s, t, Parse(keys, g', s, j).value.start, d);
    } else if Parse(keys, g', t, j).Some? {
      ParseTransfers(keys, g', t, g', s, j, d);
    }
  }

  lemma Prefixes(s: Text, t: Text, d: nat, j: nat)
    requires Agree(s, t, d) && j <= d
    ensures d <= |s| && d <= |t| && t[..j] == s[..j]
  {
  }

  // ---------------------------------------------------------------------------------------------
  // The anchored pass

  /** The pass, on its way through `s`, copies no marked value with a place inside that is not cold. `g` is
      the hyphen of the line that is written, `f` of the line that is read. */
  predicate NoHot(ps: seq<Text>, keys: KeyTable, f: bool, g: bool, s: Text)
    decreases |s|
  {
    s == [] ||
    match Parse(keys, f, s, 0)
    case None => NoHot(ps, keys, After(f, s[..1]), After(g, s[..1]), s[1..])
    case Some(h) =>
      && (REDACTED_PREFIX <= s[h.start..h.end] ==> forall j | h.start <= j < h.end :: ColdBut(ps, keys, g, s, j))
      && NoHot(ps, keys, After(f, s[..h.end]), After(g, Segment(s, h)), s[h.end..])
  }

  /** Patterns that can wait: no key opens inside one. */
  predicate CanWait(ps: seq<Text>) {
    BracketFree(ps) && forall p | p in ps :: NoKeyInside(p)
  }

  /** The first value that the pass masks: the place of its key. */
  lemma {:induction false} EditHasKey(keys: KeyTable, f: bool, s: Text) returns (k: nat, f': bool)
    requires FirstEdit(keys, f, s) < |s|
    ensures k < FirstEdit(keys, f, s) && f' == After(f, s[..k])
    ensures Parse(keys, f', s, k).Some? && Parse(keys, f', s, k).value.start == FirstEdit(keys, f, s)
    ensures var h := Parse(keys, f', s, k).value; !IsMarked(s[h.start..h.end])
    decreases |s|
  {
    hide Parse, After, IsMarked, FirstEdit;
    assert s != [] by { EditOfNothing(keys, f); }
    var found := Parse(keys, f, s, 0);
    if Copies(s, found) {
      FirstEditStep(keys, f, s);
      var n := NextPlace(found);
      var m, g := EditHasKey(keys, After(f, s[..n]), s[n..]);
      AfterPrefix(f, s, n, n + m);
      SuffixSlice(s, n, 0, m);
      HitBehind(keys, g, s, n, m);
      k, f' := n + m, g;
    } else {
      AfterNothing(f, s);
      EditHere(keys, f, s);
      k, f' := 0, f;
    }
  }

  lemma EditOfNothing(keys: KeyTable, f: bool)
    ensures FirstEdit(keys, f, []) == 0
  {
  }

  lemma EditHere(keys: KeyTable, f: bool, s: Text)
    requires s != [] && !Copies(s, Parse(keys, f, s, 0))
    ensures FirstEdit(keys, f, s) == Parse(keys, f, s, 0).value.start
  {
  }

  lemma HitBehind(keys: KeyTable, g: bool, s: Text, n: nat, m: nat)
    requires n <= |s| && Parse(keys, g, s[n..], m).Some?
    ensures var h, found := Parse(keys, g, s[n..], m).value, Parse(keys, g, s, n + m);
      && found.Some? && found.value.start == n + h.start
      && s[found.value.start..found.value.end] == s[n..][h.start..h.end]
  {
    hide Parse;
    assert s[..n] + s[n..] == s;
    ParseShift(keys, g, s[..n], s[n..], m);
    var h := Parse(keys, g, s[n..], m).value;
    SuffixSlice(s, n, h.start, h.end);
  }

  /** A separator stands before the value of a structured key. */
  lemma SeparatorBefore(keys: KeyTable, f: bool, s: Text, k: nat)
    requires Parse(keys, f, s, k).Some?
    ensures var v := Parse(keys, f, s, k).value.start; 0 < v && IsSeparator(s[v - 1])
  {
    var key := FindKey(keys, s, k).value;
    SeparatorsBeforeValue(f, s, key.end);
  }

  lemma NoStraddle(kind: Kind, s: Text, j: nat, end: nat, h: nat, outer: Kind)
    requires KeyBytes(kind, s, j, end) && j < h < |s| && EndsValue(outer, s[h])
    ensures end <= h
  {
  }

  /** A key inside a value does not reach, with its own value, to that of a key behind the first one. */
  lemma StartsBefore(
      keys: KeyTable, g: bool, s: Text, j: nat, outer: Kind, h: nat, k: nat, f: bool)
    requires j < h <= k && h < |s| && EndsValue(outer, s[h])
    requires Parse(keys, g, s, j).Some? && Parse(keys, f, s, k).Some?
    ensures Parse(keys, g, s, j).value.start <= k
  {
    var key, later := FindKey(keys, s, j).value, FindKey(keys, s, k).value;
    var v := Parse(keys, g, s, j).value.start;
    NoStraddle(key.kind, s, j, key.end, h, outer);
    assert OpensWith(s[k]);
    if k < v {
      BetweenKeyAndValue(g, s, key.end, k);
    }
  }

  lemma PatternsStop(ps: seq<Text>, keys: KeyTable, s: Text, v: nat, k: nat, d: nat)
    requires CanWait(ps) && FindKey(keys, s, k).Some? && v <= k && k + 1 < d <= |s|
    ensures StopAt(ps, s, v, d)
  {
    var key := FindKey(keys, s, k).value;
    forall p | p in ps && p <= s[v..] ensures v + |p| <= d {
      assert NoKeyInside(p);
      forall i | v <= i && i + 1 < v + |p| ensures !OpensAnchor(Lower(s[i]), Lower(s[i + 1])) {
        assert s[i] == s[v..][i - v] == p[i - v] && s[i + 1] == s[v..][i + 1 - v] == p[i + 1 - v];
      }
    }
  }

  lemma {:induction false} NoEdit(keys: KeyTable, f: bool, s: Text)
    requires FirstEdit(keys, f, s) == |s|
    ensures Scan(keys, f, s) == s
    decreases |s|
  {
    hide Parse, After, IsMarked, Write;
    if s == [] {
      ScanNothing(keys, f);
    } else if Copies(s, Parse(keys, f, s, 0)) {
      FirstEditStep(keys, f, s);
      CopyStep(keys, f, s);
      var n := NextPlace(Parse(keys, f, s, 0));
      NoEdit(keys, After(f, s[..n]), s[n..]);
      assert s[..n] + s[n..] == s;
    } else {
      EditIsInside(keys, f, s);
    }
  }

  /** The first marker that the anchored pass writes. */
  lemma {:induction false} EditWritesMarker(keys: KeyTable, f: bool, s: Text)
    requires FirstEdit(keys, f, s) < |s|
    ensures var e := FirstEdit(keys, f, s);
      e + 9 <= |Scan(keys, f, s)| && Scan(keys, f, s)[e..e + 9] == REDACTED_PREFIX
    decreases |s|
  {
    hide Parse, After, IsMarked, FirstEdit, Scan;
    assert s != [] by { EditOfNothing(keys, f); }
    var found := Parse(keys, f, s, 0);
    if Copies(s, found) {
      FirstEditStep(keys, f, s);
      CopyStep(keys, f, s);
      var n := NextPlace(found);
      var y := Scan(keys, After(f, s[..n]), s[n..]);
      EditWritesMarker(keys, After(f, s[..n]), s[n..]);
      var e := FirstEdit(keys, After(f, s[..n]), s[n..]);
      BehindSlice(s[..n], y, e, e + 9);
    } else {
      EditHere(keys, f, s);
      StepWrites(keys, f, s, found.value);
      FreshMarker(s, found.value, Scan(keys, After(f, s[..found.value.end]), s[found.value.end..]));
    }
  }

  lemma BehindSlice(a: Text, y: Text, i: nat, j: nat)
    requires i <= j <= |y|
    ensures (a + y)[|a| + i..|a| + j] == y[i..j]
  {
  }

  lemma FreshMarker(s: Text, h: Hit, y: Text)
    requires h.start <= h.end <= |s| && !IsMarked(s[h.start..h.end])
    ensures var t := Segment(s, h) + y; h.start + 9 <= |t| && t[h.start..h.start + 9] == REDACTED_PREFIX
  {
    var r := Redaction(h.end - h.start, REDACTED);
    assert r[..10] == REDACTED && REDACTED[..9] == REDACTED_PREFIX && r[..9] == r[..10][..9];
    var t := Segment(s, h) + y;
    assert t == s[..h.start] + r + y;
    assert t[h.start..h.start + 9] == r[..9];
  }

  /** The pass leaves a text alone exactly if it comes to no value to mask. */
  lemma EditIff(keys: KeyTable, f: bool, t: Text)
    ensures FirstEdit(keys, f, t) == |t| <==> Scan(keys, f, t) == t
  {
    hide Parse, After, FirstEdit, Scan, IsMarked;
    if FirstEdit(keys, f, t) == |t| {
      NoEdit(keys, f, t);
    } else {
      EditWritesMarker(keys, f, t);
      var k, g := EditHasKey(keys, f, t);
      ParseEnd(keys, g, t, k);
      var h := Parse(keys, g, t, k).value;
      if Scan(keys, f, t) == t {
        MarkedValue(h.kind, t, h.start);
        MarkedIsMarked(t, h.start, h.end);
      }
    }
  }

  lemma EditIsInside(keys: KeyTable, f: bool, s: Text)
    requires s != [] && !Copies(s, Parse(keys, f, s, 0))
    ensures FirstEdit(keys, f, s) < |s|
  {
  }

  /** A place inside a copied value is cold in the output exactly if it is in the input. */
  lemma InsideSame(ps: seq<Text>, keys: KeyTable, f: bool, g: bool, s: Text, h: Hit, j: nat)
    requires CanWait(ps) && Parse(keys, f, s, 0) == Some(h)
    requires REDACTED_PREFIX <= s[h.start..h.end] && h.start <= j < h.end
    ensures j < |Scan(keys, f, s)|
    ensures ColdBut(ps, keys, g, Scan(keys, f, s), j) <==> ColdBut(ps, keys, g, s, j)
  {
    hide Parse, After, Scan, Write, ColdBut, FirstEdit, StopAt;
    var d := FirstEdit(keys, f, s);
    if d == |s| {
      NoEdit(keys, f, s);
    } else {
      FirstEditAgrees(keys, f, s);
      FirstEditStep(keys, f, s);
      var k, f' := EditHasKey(keys, After(f, s[..h.end]), s[h.end..]);
      assert s[..h.end] + s[h.end..] == s;
      ParseShift(keys, f', s[..h.end], s[h.end..], k);
      InsideBack(ps, keys, f', g, s, Scan(keys, f, s), h, j, h.end + k, d, f);
    }
  }

  lemma InsideBack(
      ps: seq<Text>, keys: KeyTable, f': bool, g: bool, s: Text, t: Text, h: Hit, j: nat, k: nat, d: nat, f: bool)
    requires CanWait(ps) && Parse(keys, f, s, 0) == Some(h) && h.start <= j < h.end <= k < d < |s| && Agree(s, t, d)
    requires Parse(keys, f', s, k).Some? && Parse(keys, f', s, k).value.start == d
    ensures j < |t| && (ColdBut(ps, keys, g, t, j) <==> ColdBut(ps, keys, g, s, j))
  {
    hide Parse, After, ColdBut, StopAt, FindKey;
    ParseEnd(keys, f, s, 0);
    SeparatorBefore(keys, f', s, k);
    HasKey(keys, f', s, k);
    var found := Parse(keys, After(g, s[..j]), s, j);
    if found.Some? {
      StartsBefore(keys, After(g, s[..j]), s, j, h.kind, h.end, k, f');
      PatternsStop(ps, keys, s, found.value.start, k, d);
    }
    ColdBack(ps, keys, g, s, t, j, d);
  }

  lemma HasKey(keys: KeyTable, f: bool, s: Text, k: nat)
    requires Parse(keys, f, s, k).Some?
    ensures FindKey(keys, s, k).Some? && k + 1 < Parse(keys, f, s, k).value.start
  {
  }

  /** A byte that opened no secret: the output is clean exactly if it is behind that byte. */
  lemma CleanNone(ps: seq<Text>, keys: KeyTable, f: bool, g: bool, s: Text)
    requires (g ==> f) && s != [] && Parse(keys, f, s, 0).None?
    ensures CleanBut(ps, keys, g, Scan(keys, f, s)) <==>
      CleanBut(ps, keys, After(g, s[..1]), Scan(keys, After(f, s[..1]), s[1..]))
  {
    hide CleanBut, ColdBut;
    var y := Scan(keys, After(f, s[..1]), s[1..]);
    CopyStep(keys, f, s);
    var t := s[..1] + y;
    FirstEditAgrees(keys, f, s);
    if Parse(keys, g, t, 0).Some? {
      ParseTransfers(keys, g, t, f, s, 0, FirstEdit(keys, f, s));
    }
    AfterNothing(g, t);
    NoneIsColdBut(ps, keys, g, t, 0);
    CleanParts(ps, keys, g, s[..1], y);
  }

  lemma NoneIsColdBut(ps: seq<Text>, keys: KeyTable, g: bool, t: Text, k: nat)
    requires k <= |t| && Parse(keys, After(g, t[..k]), t, k).None?
    ensures ColdBut(ps, keys, g, t, k)
  {
  }

  /** A secret: the output is clean exactly if it is behind the secret and no place inside a copied value is
      hot. */
  lemma CleanHit(ps: seq<Text>, keys: KeyTable, f: bool, g: bool, s: Text, h: Hit)
    requires CanWait(ps) && Parse(keys, f, s, 0) == Some(h)
    ensures CleanBut(ps, keys, g, Scan(keys, f, s)) <==>
      && (REDACTED_PREFIX <= s[h.start..h.end] ==> forall j | h.start <= j < h.end :: ColdBut(ps, keys, g, s, j))
      && CleanBut(ps, keys, After(g, Segment(s, h)), Scan(keys, After(f, s[..h.end]), s[h.end..]))
  {
    hide Parse, Scan, Write, ColdBut, CleanBut, After, CanWait;
    var m, y := Segment(s, h), Scan(keys, After(f, s[..h.end]), s[h.end..]);
    StepWrites(keys, f, s, h);
    TailGoesOn(keys, f, s, h, After(f, s[..h.end]));
    CleanParts(ps, keys, g, m, y);
    if REDACTED_PREFIX <= s[h.start..h.end] {
      Slices(s, 0, h.start, h.end);
      assert s[0..h.start] == s[..h.start] && s[0..h.end] == s[..h.end];
      assert m == s[..h.end];
      forall j | 0 <= j < h.end
        ensures j < h.start ==> ColdBut(ps, keys, g, m + y, j)
        ensures j >= h.start ==> (ColdBut(ps, keys, g, m + y, j) <==> ColdBut(ps, keys, g, s, j))
      {
        if j < h.start {
          BeforeMarked(ps, keys, f, g, s, h, y, j);
        } else {
          InsideSame(ps, keys, f, g, s, h, j);
        }
      }
    } else {
      forall k | 0 <= k < |m| ensures ColdBut(ps, keys, g, m + y, k) {
        SegmentCold(keys, f, g, s, h, y, k);
        ColdIsBut(ps, keys, g, m + y, k, |m|);
      }
    }
  }

  lemma BeforeMarked(ps: seq<Text>, keys: KeyTable, f: bool, g: bool, s: Text, h: Hit, z: Text, j: nat)
    requires Parse(keys, f, s, 0) == Some(h) && GoesOn(s, h, z)
    requires REDACTED_PREFIX <= s[h.start..h.end] && j < h.start
    ensures ColdBut(ps, keys, g, s[..h.end] + z, j)
  {
    hide Parse, After;
    MarkedReads(keys, f, g, s, h, z, j);
    assert (s[..h.end] + z)[h.start..h.end] == s[h.start..h.end];
  }

  /** The pass writes a clean text exactly if it copies no marked value with a hot place inside. */
  lemma {:induction false} ScanCleanIff(ps: seq<Text>, keys: KeyTable, f: bool, g: bool, s: Text)
    requires (g ==> f) && CanWait(ps)
    ensures CleanBut(ps, keys, g, Scan(keys, f, s)) <==> NoHot(ps, keys, f, g, s)
    decreases |s|
  {
    hide Parse, Write, After, ColdBut, CanWait;
    if s == [] {
      ScanNothing(keys, f);
    } else {
      match Parse(keys, f, s, 0)
      case None =>
        AfterMonotone(g, f, s[..1]);
        ScanCleanIff(ps, keys, After(f, s[..1]), After(g, s[..1]), s[1..]);
        CleanNone(ps, keys, f, g, s);
      case Some(h) =>
        SegmentHyphen(keys, f, g, s, h);
        ScanCleanIff(ps, keys, After(f, s[..h.end]), After(g, Segment(s, h)), s[h.end..]);
        CleanHit(ps, keys, f, g, s, h);
    }
  }

  // ---------------------------------------------------------------------------------------------
  // Guards that need no second look at the text

  /** No key at all opens inside a marked value that the pass copies. */
  predicate CopiesKeyless(keys: KeyTable, f: bool, s: Text)
    decreases |s|
  {
    s == [] ||
    match Parse(keys, f, s, 0)
    case None => CopiesKeyless(keys, After(f, s[..1]), s[1..])
    case Some(h) =>
      && (REDACTED_PREFIX <= s[h.start..h.end] ==> forall j | h.start <= j < h.end :: FindKey(keys, s, j).None?)
      && CopiesKeyless(keys, After(f, s[..h.end]), s[h.end..])
  }

  lemma {:induction false} KeylessIsNotHot(ps: seq<Text>, keys: KeyTable, f: bool, g: bool, s: Text)
    requires CopiesKeyless(keys, f, s)
    ensures NoHot(ps, keys, f, g, s)
    decreases |s|
  {
    hide Parse, After, FindKey, ColdBut;
    if s != [] {
      match Parse(keys, f, s, 0)
      case None => KeylessIsNotHot(ps, keys, After(f, s[..1]), After(g, s[..1]), s[1..]);
      case Some(h) =>
        KeylessIsNotHot(ps, keys, After(f, s[..h.end]), After(g, Segment(s, h)), s[h.end..]);
        forall j | h.start <= j < h.end && FindKey(keys, s, j).None? ensures ColdBut(ps, keys, g, s, j) {
          NoKeyIsColdBut(ps, keys, g, s, j);
        }
    }
  }

  lemma NoKeyIsColdBut(ps: seq<Text>, keys: KeyTable, g: bool, t: Text, j: nat)
    requires j <= |t| && FindKey(keys, t, j).None?
    ensures ColdBut(ps, keys, g, t, j)
  {
  }

  /** No marker of the text stands where a value could open with it: right behind a separator. */
  predicate MarkersStandApart(s: Text) {
    forall p | 0 < p <= |s| && MatchesAt(s, p, REDACTED_PREFIX) :: !IsSeparator(s[p - 1])
  }

  lemma ApartBehind(s: Text, n: nat)
    requires n <= |s| && MarkersStandApart(s)
    ensures MarkersStandApart(s[n..])
  {
    var t := s[n..];
    forall p | 0 < p <= |t| && MatchesAt(t, p, REDACTED_PREFIX) ensures !IsSeparator(t[p - 1]) {
      SuffixSlice(s, n, p, p + 9);
      assert MatchesAt(s, n + p, REDACTED_PREFIX);
      assert t[p - 1] == s[n + p - 1];
    }
  }

  /** In such a text no value is marked. */
  lemma {:induction false} ApartIsKeyless(keys: KeyTable, f: bool, s: Text)
    requires MarkersStandApart(s)
    ensures CopiesKeyless(keys, f, s)
    decreases |s|
  {
    hide Parse, After, MarkersStandApart, FindKey;
    if s != [] {
      match Parse(keys, f, s, 0)
      case None =>
        ApartBehind(s, 1);
        ApartIsKeyless(keys, After(f, s[..1]), s[1..]);
      case Some(h) =>
        SeparatorBefore(keys, f, s, 0);
        NotMarkedHere(s, h.start, h.end);
        ApartBehind(s, h.end);
        ApartIsKeyless(keys, After(f, s[..h.end]), s[h.end..]);
    }
  }

  lemma PrefixMatches(s: Text, a: nat, b: nat)
    requires a <= b <= |s|
    ensures REDACTED_PREFIX <= s[a..b] ==> MatchesAt(s, a, REDACTED_PREFIX)
  {
    assert REDACTED_PREFIX <= s[a..b] ==> s[a..a + 9] == s[a..b][..9];
  }

  lemma NotMarkedHere(s: Text, a: nat, b: nat)
    requires 0 < a <= b <= |s| && IsSeparator(s[a - 1]) && MarkersStandApart(s)
    ensures !(REDACTED_PREFIX <= s[a..b])
  {
    PrefixMatches(s, a, b);
  }

  lemma UnmarkedStandsApart(s: Text)
    requires !Contains(s, REDACTED_PREFIX)
    ensures MarkersStandApart(s)
  {
  }

  // ---------------------------------------------------------------------------------------------
  // Replacing a fixed pattern by a marker

  predicate NoKeyInside(m: Text) {
    && (m != [] ==> !OpensWith(m[|m| - 1]))
    && forall j | 0 <= j < |m| - 1 :: !OpensAnchor(Lower(m[j]), Lower(m[j + 1]))
  }

  predicate IsQuiet(m: Text) { OnOneLine(m) && '-' !in m }

  /** A byte that neither a key nor what stands between a key and its value can hold or end with. */
  predicate IsForeign(c: char) {
    && c !in REDACTED_PREFIX && !IsDigit(c) && !IsSeparator(c) && !IsNewline(c)
    && Lower(c) !in {'d', 's', 'n', 'c', '_', '-', '.', 'h', 'e', 'x'}
  }

  predicate EndsKey(c: char, d: char) { ClosesAnchor(Token, c, d) || ClosesAnchor(Line, c, d) }

  predicate KeyEndsAt(s: Text, e: nat) {
    2 <= e <= |s| && EndsKey(Lower(s[e - 2]), Lower(s[e - 1]))
  }

  /** A pattern that no key and no tail of a key reaches into, and its replacement. */
  predicate IsMarkerPair(pattern: Text, m: Text) {
    && |pattern| > 1 && IsForeign(pattern[0]) && IsQuiet(pattern) && NoKeyInside(pattern)
    && !IsKeyChar(Lower(pattern[|pattern| - 1]))
    && (forall k | 0 < k < |pattern| :: !EndsKey(Lower(pattern[k - 1]), Lower(pattern[k])))
    && REDACTED_PREFIX <= m && IsQuiet(m) && NoKeyInside(m)
  }

  lemma {:induction false} ReplaceAgrees(s: Text, pattern: Text, m: Text) returns (d: nat)
    requires IsMarkerPair(pattern, m)
    ensures Agree(s, Replace(s, pattern, m), d)
    ensures d < |s| ==> pattern <= s[d..] && m <= Replace(s, pattern, m)[d..]
    ensures d == |s| ==> Replace(s, pattern, m) == s
    ensures forall k | 0 <= k < d :: !(pattern <= s[k..])
    decreases |s|
  {
    if s == [] {
      d := 0;
    } else if pattern <= s {
      assert m[0] == REDACTED_PREFIX[0];
      assert s[0..] == s;
      d := 0;
    } else {
      ReplaceCopies(s, pattern, m);
      var e := ReplaceAgrees(s[1..], pattern, m);
      d := 1 + e;
      ReplaceAgreesBehind(s, pattern, m, e, Replace(s[1..], pattern, m), Replace(s, pattern, m));
      forall k | 0 <= k < d ensures !(pattern <= s[k..]) {
        if k == 0 {
          assert s[0..] == s;
        } else {
          assert s[1..][k - 1..] == s[k..];
        }
      }
    }
  }

  lemma ReplaceAgreesBehind(s: Text, pattern: Text, m: Text, e: nat, r: Text, t: Text)
    requires s != [] && t == s[..1] + r && Agree(s[1..], r, e)
    requires e < |s[1..]| ==> pattern <= s[1..][e..] && m <= r[e..]
    requires e == |s[1..]| ==> r == s[1..]
    ensures Agree(s, t, 1 + e)
    ensures 1 + e < |s| ==> pattern <= s[1 + e..] && m <= t[1 + e..]
    ensures 1 + e == |s| ==> t == s
  {
    AgreeBehind(s, 1, r, e, t);
    SuffixSlice(s, 1, 0, e);
    assert t[1..] == r;
    SuffixSlice(t, 1, 0, e);
  }

  lemma QuietKeeps(f: bool, head: Text, pattern: Text, m: Text)
    requires head == pattern && IsQuiet(pattern) && IsQuiet(m)
    ensures After(f, head) == f && After(f, m) == f
  {
    AfterKeepsHyphen(f, pattern);
    AfterKeepsHyphen(f, m);
  }

  /** A structured key ahead of a pattern has its value before it, or in its place. */
  lemma StartsUpTo(keys: KeyTable, g: bool, s: Text, d: nat, pattern: Text, m: Text)
    requires IsMarkerPair(pattern, m) && 0 < d < |s| && pattern <= s[d..]
    requires Parse(keys, g, s, 0).Some?
    ensures Parse(keys, g, s, 0).value.start <= d
  {
    var key := FindKey(keys, s, 0).value;
    var v := Parse(keys, g, s, 0).value.start;
    assert s[d] == s[d..][0] == pattern[0];
    KeyEndsBefore(key.kind, s, key.end, d, pattern, m);
    if d < v {
      ForeignInTail(g, s, key.end, d);
    }
  }

  lemma KeyEndsBefore(kind: Kind, s: Text, end: nat, d: nat, pattern: Text, m: Text)
    requires IsMarkerPair(pattern, m) && 0 < d < |s| && pattern <= s[d..] && KeyBytes(kind, s, 0, end)
    ensures end <= d
  {
    assert forall k | d <= k < d + |pattern| :: s[k] == s[d..][k - d] == pattern[k - d];
    var last := d + |pattern| - 1;
    assert !IsKeyChar(Lower(s[last]));
    forall e | d < e <= last ensures !KeyEndsAt(s, e) {
      if e > d + 1 {
        assert s[e - 2] == pattern[e - 2 - d] && s[e - 1] == pattern[e - 1 - d];
      }
    }
    assert KeyEndsAt(s, end);
  }

  lemma ForeignInTail(g: bool, s: Text, c: nat, d: nat)
    requires c <= d < |s| && ValueStart(g, s, c).Some? && d < ValueStart(g, s, c).value
    ensures !IsForeign(s[d])
  {
    SeparatorsBeforeValue(g, s, c);
    if d < SkipSuffix(s, c) {
    }
  }

  /** Two patterns cannot overlap, the second opening inside the first. */
  predicate Disjoint(q: Text, p: Text)
    requires |p| > 1
  {
    forall k | 0 < k < |q| :: q[k] != p[0] || (k + 1 < |q| && q[k + 1] != p[1])
  }

  predicate CanFollow(ps: seq<Text>, pattern: Text)
    requires |pattern| > 1
  {
    BracketFree(ps) && forall q | q in ps :: Disjoint(q, pattern)
  }

  lemma DisjointStop(q: Text, p: Text, s: Text, v: nat, d: nat)
    requires |p| > 1 && Disjoint(q, p) && v < d <= |s| && q <= s[v..] && p <= s[d..]
    ensures v + |q| <= d
  {
    assert s[d] == s[d..][0] == p[0] && s[d + 1] == s[d..][1] == p[1];
    forall i | v < i < v + |q| ensures s[i] != p[0] || (i + 1 < v + |q| && s[i + 1] != p[1]) {
      assert s[i] == s[v..][i - v] == q[i - v];
      assert i + 1 < v + |q| ==> s[i + 1] == s[v..][i + 1 - v] == q[i + 1 - v];
    }
  }

  /** Where a pattern first occurs behind the first byte. */
  predicate FirstAt(s: Text, t: Text, pattern: Text, m: Text, d: nat) {
    && Agree(s, t, d)
    && (d < |s| ==> pattern <= s[d..] && m <= t[d..])
    && (d == |s| ==> t == s)
    && forall k | 0 <= k < d :: !(pattern <= s[k..])
  }

  /** The first byte of a text, copied by the replacement: it is as cold after, the other patterns still to
      be replaced, as it was before. */
  lemma ReplacedHead(ps: seq<Text>, keys: KeyTable, f: bool, s: Text, pattern: Text, m: Text)
    requires IsMarkerPair(pattern, m) && CanFollow(ps, pattern) && s != [] && !(pattern <= s)
    ensures var t := Replace(s, pattern, m);
      t != [] && (ColdBut(ps, keys, f, t, 0) <==> ColdBut(ps + [pattern], keys, f, s, 0))
  {
    hide Parse, ColdBut, IsMarkerPair, CanFollow;
    var t := Replace(s, pattern, m);
    var d := ReplaceAgrees(s, pattern, m);
    assert s[0..] == s;
    ReplaceCopies(s, pattern, m);
    HeadSame(ps, keys, f, s, t, pattern, m, d);
  }

  lemma HeadSame(ps: seq<Text>, keys: KeyTable, f: bool, s: Text, t: Text, pattern: Text, m: Text, d: nat)
    requires IsMarkerPair(pattern, m) && CanFollow(ps, pattern) && d > 0 && FirstAt(s, t, pattern, m, d) && t != []
    ensures ColdBut(ps, keys, f, t, 0) <==> ColdBut(ps + [pattern], keys, f, s, 0)
  {
    hide Parse, IsMarkerPair, CanFollow, IsMarked;
    AfterNothing(f, t);
    AfterNothing(f, s);
    if Parse(keys, f, s, 0).None? {
      if Parse(keys, f, t, 0).Some? {
        ParseTransfers(keys, f, t, f, s, 0, d);
      }
    } else if d < |s| && Parse(keys, f, s, 0).value.start >= d {
      AtPattern(ps, keys, f, s, t, pattern, m, d);
      AtMarker(ps, keys, f, s, t, pattern, m, d);
    } else {
      var v := Parse(keys, f, s, 0).value.start;
      OpensMore(ps, pattern, s, t, m, v, d);
      if d < |s| {
        ForeignIsBarrier(s, d, pattern, m);
        PatternsApart(ps, pattern, m, s, v, d);
        ColdBack(ps, keys, f, s, t, 0, d);
      }
    }
  }

  lemma ForeignIsBarrier(s: Text, d: nat, pattern: Text, m: Text)
    requires IsMarkerPair(pattern, m) && d < |s| && pattern <= s[d..]
    ensures Barrier(s, d)
  {
    assert s[d] == s[d..][0] == pattern[0];
  }

  lemma PatternsApart(ps: seq<Text>, pattern: Text, m: Text, s: Text, v: nat, d: nat)
    requires IsMarkerPair(pattern, m) && CanFollow(ps, pattern) && v < d <= |s| && pattern <= s[d..]
    ensures BracketFree(ps) && StopAt(ps, s, v, d)
  {
    forall q | q in ps && q <= s[v..] ensures v + |q| <= d {
      DisjointStop(q, pattern, s, v, d);
    }
  }

  lemma OpensMore(ps: seq<Text>, pattern: Text, s: Text, t: Text, m: Text, v: nat, d: nat)
    requires IsMarkerPair(pattern, m) && FirstAt(s, t, pattern, m, d) && v <= |s| && (v < d || d == |s|)
    ensures Opens(ps + [pattern], s, v) <==> Opens(ps, s, v)
  {
    assert forall p :: p in ps + [pattern] <==> p in ps || p == pattern;
    assert !(pattern <= s[v..]);
  }

  /** A value in the pattern's place opens with the pattern before and with the marker after. */
  lemma AtPattern(ps: seq<Text>, keys: KeyTable, f: bool, s: Text, t: Text, pattern: Text, m: Text, d: nat)
    requires IsMarkerPair(pattern, m) && 0 < d < |s| && FirstAt(s, t, pattern, m, d)
    requires Parse(keys, f, s, 0).Some? && Parse(keys, f, s, 0).value.start >= d
    ensures IsColdBut(ps + [pattern], Parse(keys, f, s, 0), s)
  {
    StartsUpTo(keys, f, s, d, pattern, m);
    PairMarker(pattern, m);
    hide Parse, IsMarkerPair, IsMarked, FirstAt, Opens;
    FirstFacts(s, t, pattern, m, d);
    OpensLast(ps, pattern, s, d);
  }

  lemma AtMarker(ps: seq<Text>, keys: KeyTable, f: bool, s: Text, t: Text, pattern: Text, m: Text, d: nat)
    requires IsMarkerPair(pattern, m) && 0 < d < |s| && FirstAt(s, t, pattern, m, d)
    requires Parse(keys, f, s, 0).Some? && Parse(keys, f, s, 0).value.start >= d
    ensures IsColdBut(ps, Parse(keys, f, t, 0), t)
  {
    PairMarker(pattern, m);
    hide Parse, IsMarkerPair, IsMarked, FirstAt, Opens;
    FirstFacts(s, t, pattern, m, d);
    if Parse(keys, f, t, 0).Some? {
      ParseTransfers(keys, f, t, f, s, 0, d);
      ParseEnd(keys, f, t, 0);
      MarkedValue(Parse(keys, f, t, 0).value.kind, t, d);
      MarkedIsMarked(t, d, Parse(keys, f, t, 0).value.end);
    }
  }

  lemma PairMarker(pattern: Text, m: Text)
    requires IsMarkerPair(pattern, m)
    ensures REDACTED_PREFIX <= m
  {
  }

  lemma FirstFacts(s: Text, t: Text, pattern: Text, m: Text, d: nat)
    requires FirstAt(s, t, pattern, m, d) && d < |s| && REDACTED_PREFIX <= m
    ensures Agree(s, t, d) && pattern <= s[d..] && d + 9 <= |t| && t[d..d + 9] == REDACTED_PREFIX
  {
    assert t[d..d + 9] == t[d..][..9] == m[..9];
  }

  lemma OpensLast(ps: seq<Text>, pattern: Text, s: Text, d: nat)
    requires d <= |s| && pattern <= s[d..]
    ensures Opens(ps + [pattern], s, d)
  {
    assert pattern in ps + [pattern];
  }

  lemma MarkedIsMarked(t: Text, v: nat, end: nat)
    requires v <= end <= |t| && REDACTED_PREFIX <= t[v..end]
    ensures IsMarked(t[v..end])
  {
  }

  /** Replacing a pattern by its marker gives a clean text, the other patterns still to be replaced, exactly
      if the text was clean but for values that open with this pattern, too. */
  lemma {:induction false} ReplaceCleanIff(ps: seq<Text>, keys: KeyTable, f: bool, s: Text, pattern: Text, m: Text)
    requires IsMarkerPair(pattern, m) && CanFollow(ps, pattern)
    ensures CleanBut(ps, keys, f, Replace(s, pattern, m)) <==> CleanBut(ps + [pattern], keys, f, s)
    decreases |s|
  {
    hide *;
    PairFacts(pattern, m);
    if s == [] {
      ReplaceOfNothing(pattern, m);
      NothingIsClean(ps, keys, f);
      NothingIsClean(ps + [pattern], keys, f);
    } else if pattern <= s {
      ReplaceCleanIff(ps, keys, f, s[|pattern|..], pattern, m);
      ReplacedFront(ps, keys, f, s, pattern, m);
    } else {
      ReplaceCleanIff(ps, keys, After(f, s[..1]), s[1..], pattern, m);
      CopiedFront(ps, keys, f, s, pattern, m);
    }
  }

  lemma ReplacedFront(ps: seq<Text>, keys: KeyTable, f: bool, s: Text, pattern: Text, m: Text)
    requires IsMarkerPair(pattern, m) && pattern <= s
    ensures CleanBut(ps, keys, f, Replace(s, pattern, m)) <==>
      CleanBut(ps, keys, f, Replace(s[|pattern|..], pattern, m))
    ensures CleanBut(ps + [pattern], keys, f, s) <==> CleanBut(ps + [pattern], keys, f, s[|pattern|..])
  {
    hide *;
    PairFacts(pattern, m);
    var rest := s[|pattern|..];
    ReplaceHere(s, pattern, m);
    QuietKeeps(f, pattern, pattern, m);
    KeylessFront(ps, keys, f, m, Replace(rest, pattern, m));
    KeylessFront(ps + [pattern], keys, f, pattern, rest);
    assert pattern + rest == s;
  }

  lemma CopiedFront(ps: seq<Text>, keys: KeyTable, f: bool, s: Text, pattern: Text, m: Text)
    requires IsMarkerPair(pattern, m) && CanFollow(ps, pattern) && s != [] && !(pattern <= s)
    requires var g := After(f, s[..1]);
      CleanBut(ps, keys, g, Replace(s[1..], pattern, m)) <==> CleanBut(ps + [pattern], keys, g, s[1..])
    ensures CleanBut(ps, keys, f, Replace(s, pattern, m)) <==> CleanBut(ps + [pattern], keys, f, s)
  {
    hide *;
    PairFacts(pattern, m);
    ReplaceCopies(s, pattern, m);
    ReplacedHead(ps, keys, f, s, pattern, m);
    CleanCons(ps, keys, f, s[..1], Replace(s[1..], pattern, m));
    CleanCons(ps + [pattern], keys, f, s[..1], s[1..]);
    assert s[..1] + s[1..] == s;
  }

  lemma CleanCons(ps: seq<Text>, keys: KeyTable, f: bool, a: Text, t: Text)
    requires |a| == 1
    ensures CleanBut(ps, keys, f, a + t) <==>
      ColdBut(ps, keys, f, a + t, 0) && CleanBut(ps, keys, After(f, a), t)
  {
    hide ColdBut, CleanBut, After;
    CleanParts(ps, keys, f, a, t);
  }

  lemma PairFacts(pattern: Text, m: Text)
    requires IsMarkerPair(pattern, m)
    ensures |pattern| > 1 && NoKeyInside(pattern) && IsQuiet(pattern) && NoKeyInside(m) && IsQuiet(m)
  {
  }

  lemma NothingIsClean(ps: seq<Text>, keys: KeyTable, f: bool)
    ensures CleanBut(ps, keys, f, [])
  {
  }

  lemma NoKeyAt(keys: KeyTable, m: Text, t: Text, k: nat)
    requires NoKeyInside(m) && k < |m|
    ensures FindKey(keys, m + t, k).None?
  {
    hide FindKey;
    var u := m + t;
    var found := FindKey(keys, u, k);
    assert u[k] == m[k] && (k + 1 < |m| ==> u[k + 1] == m[k + 1]);
    assert found.Some? ==> OpensAnchor(Lower(u[k]), Lower(u[k + 1]));
  }

  /** A front in which no key opens adds nothing. */
  lemma KeylessFront(ps: seq<Text>, keys: KeyTable, f: bool, m: Text, t: Text)
    requires NoKeyInside(m)
    ensures CleanBut(ps, keys, f, m + t) <==> CleanBut(ps, keys, After(f, m), t)
  {
    hide CleanBut, ColdBut;
    forall k | 0 <= k < |m| ensures ColdBut(ps, keys, f, m + t, k) {
      NoKeyAt(keys, m, t, k);
      NoKeyIsColdBut(ps, keys, f, m + t, k);
    }
    CleanParts(ps, keys, f, m, t);
  }
}
