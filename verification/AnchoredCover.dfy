/** Which secrets the anchored pass comes to, and whether it masks all of every one, even of those that it does
    not come to. */
module AnchoredCover {
  import opened AnchoredClean
  import opened AnchoredIdempotence
  import opened AnchoredKeys
  import opened AnchoredPass
  import opened AnchoredRuns
  import opened AnchoredScan
  import opened Markers
  import opened Options
  import opened Redactor
  import opened Scripts
  import opened Search
  import opened Utf8

  /** A key is structured at `i`, its value is a secret, and byte `k` belongs to it. */
  predicate SecretAt(keys: KeyTable, f: bool, s: Text, i: nat, k: nat)
    requires i <= |s|
  {
    var found := Parse(keys, After(f, s[..i]), s, i);
    found.Some? && found.value.start <= k < found.value.end && IsSecret(s[found.value.start..found.value.end])
  }

  // ---------------------------------------------------------------------------------------------
  // The places that the pass comes to

  /** The pass looks for a key at place `p`. */
  predicate Visits(keys: KeyTable, f: bool, s: Text, p: nat)
    decreases |s|
  {
    p == 0 || (s != [] &&
      match Parse(keys, f, s, 0)
      case None => Visits(keys, After(f, s[..1]), s[1..], p - 1)
      case Some(h) => h.end <= p && Visits(keys, After(f, s[..h.end]), s[h.end..], p - h.end))
  }

  /** What it has written when it comes there. */
  function Before(keys: KeyTable, f: bool, s: Text, p: nat): Text
    decreases |s|
  {
    if p == 0 || s == [] then []
    else match Parse(keys, f, s, 0)
      case None => s[..1] + Before(keys, After(f, s[..1]), s[1..], p - 1)
      case Some(h) =>
        if h.end > p then [] else Segment(s, h) + Before(keys, After(f, s[..h.end]), s[h.end..], p - h.end)
  }

  function StepText(s: Text, found: Option<Hit>): Text
    requires s != [] && (found.Some? ==> found.value.start <= found.value.end <= |s|)
  {
    if found.Some? then Segment(s, found.value) else s[..1]
  }

  lemma VisitsStep(keys: KeyTable, f: bool, s: Text, p: nat)
    requires s != [] && p > 0
    ensures 0 < NextPlace(Parse(keys, f, s, 0)) <= |s|
    ensures var n := NextPlace(Parse(keys, f, s, 0));
      Visits(keys, f, s, p) <==> n <= p && Visits(keys, After(f, s[..n]), s[n..], p - n)
  {
    hide Parse, After;
  }

  lemma BeforeStep(keys: KeyTable, f: bool, s: Text, p: nat)
    requires s != [] && p > 0 && NextPlace(Parse(keys, f, s, 0)) <= p
    ensures NextPlace(Parse(keys, f, s, 0)) <= |s|
    ensures var found := Parse(keys, f, s, 0); var n := NextPlace(found);
      Before(keys, f, s, p) == StepText(s, found) + Before(keys, After(f, s[..n]), s[n..], p - n)
  {
    hide Parse, After, Segment;
  }

  /** One step of the pass, as a script. */
  lemma ScriptStep(keys: KeyTable, f: bool, s: Text, k: nat)
    requires s != []
    ensures var found := Parse(keys, f, s, 0); var n := NextPlace(found); var m := |StepText(s, found)|;
      var sc, next := ScanScript(keys, f, s), ScanScript(keys, After(f, s[..n]), s[n..]);
      Hidden(sc, n + k) == Hidden(next, k) && Image(sc, n + k) == m + Image(next, k)
  {
    hide Parse, After, Segment;
    var found := Parse(keys, f, s, 0);
    if found.Some? {
      HitScriptHides(s, found.value, ScanScript(keys, After(f, s[..found.value.end]), s[found.value.end..]), k);
    }
  }

  lemma StepIsWritten(keys: KeyTable, f: bool, s: Text)
    requires s != []
    ensures var found := Parse(keys, f, s, 0); var n := NextPlace(found);
      Scan(keys, f, s) == StepText(s, found) + Scan(keys, After(f, s[..n]), s[n..])
  {
    hide Parse, After, Scan, Write, Segment;
    var found := Parse(keys, f, s, 0);
    if found.Some? {
      StepWrites(keys, f, s, found.value);
    } else {
      CopyStep(keys, f, s);
    }
  }

  lemma HitScriptHides(s: Text, h: Hit, next: Script, k: nat)
    requires h.start <= h.end <= |s|
    ensures var value := s[h.start..h.end];
      var sc := Keep(s[..h.start], ValueScript(value, next));
      && Hidden(sc, h.end + k) == Hidden(next, k) && Image(sc, h.end + k) == |Segment(s, h)| + Image(next, k)
      && (forall i | h.start <= i < h.end :: Hidden(sc, i) <==> !IsMarked(value))
      && (forall i | 0 <= i < h.start :: !Hidden(sc, i))
  {
  }

  /** The text from place `p` on, seen from an earlier one. */
  lemma RestOf(f: bool, s: Text, n: nat, p: nat)
    requires n <= p <= |s|
    ensures s[n..][p - n..] == s[p..] && After(After(f, s[..n]), s[n..][..p - n]) == After(f, s[..p])
  {
    hide After;
    AfterPrefix(f, s, n, p);
    assert s[n..][..p - n] == s[n..p];
  }

  /** What is written from a place that the pass comes to, and before it. */
  lemma {:induction false} VisitWrites(keys: KeyTable, f: bool, s: Text, p: nat)
    requires Visits(keys, f, s, p)
    ensures p <= |s| && Scan(keys, f, s) == Before(keys, f, s, p) + Scan(keys, After(f, s[..p]), s[p..])
    decreases |s|
  {
    hide *;
    AtStart(keys, f, s);
    if p == 0 {
      assert [] + Scan(keys, f, s) == Scan(keys, f, s);
    } else {
      VisitsNothing(keys, f, s, p);
      var found := Parse(keys, f, s, 0);
      var n := NextPlace(found);
      VisitsStep(keys, f, s, p);
      BeforeStep(keys, f, s, p);
      VisitWrites(keys, After(f, s[..n]), s[n..], p - n);
      RestOf(f, s, n, p);
      StepIsWritten(keys, f, s);
      var g := After(f, s[..n]);
      Regrouped(StepText(s, found), Before(keys, g, s[n..], p - n), Scan(keys, After(f, s[..p]), s[p..]));
    }
  }

  lemma Regrouped(x: Text, y: Text, z: Text)
    ensures x + (y + z) == (x + y) + z
  {
  }

  /** From a place that the pass comes to, the rest is scanned by itself. */
  lemma {:induction false} VisitSplit(keys: KeyTable, f: bool, s: Text, p: nat, k: nat)
    requires Visits(keys, f, s, p)
    ensures p <= |s|
    ensures var sc, sub := ScanScript(keys, f, s), ScanScript(keys, After(f, s[..p]), s[p..]);
      Hidden(sc, p + k) == Hidden(sub, k) && Image(sc, p + k) == |Before(keys, f, s, p)| + Image(sub, k)
    decreases |s|
  {
    hide *;
    AtStart(keys, f, s);
    if p > 0 {
      VisitsNothing(keys, f, s, p);
      var n := NextPlace(Parse(keys, f, s, 0));
      VisitsStep(keys, f, s, p);
      BeforeStep(keys, f, s, p);
      VisitSplit(keys, After(f, s[..n]), s[n..], p - n, k);
      RestOf(f, s, n, p);
      ScriptStep(keys, f, s, p - n + k);
      assert n + (p - n + k) == p + k;
    }
  }

  lemma AtStart(keys: KeyTable, f: bool, s: Text)
    ensures Visits(keys, f, s, 0) && Before(keys, f, s, 0) == []
    ensures After(f, s[..0]) == f && s[0..] == s
  {
  }

  lemma VisitsNothing(keys: KeyTable, f: bool, s: Text, p: nat)
    requires p > 0 && Visits(keys, f, s, p)
    ensures s != []
  {
  }

  /** Coming to a place and from there to another one. */
  lemma {:induction false} VisitsThrough(keys: KeyTable, f: bool, s: Text, p: nat, q: nat)
    requires Visits(keys, f, s, p) && p <= |s| && Visits(keys, After(f, s[..p]), s[p..], q)
    ensures Visits(keys, f, s, p + q)
    decreases |s|
  {
    hide *;
    AtStart(keys, f, s);
    if p > 0 {
      VisitsNothing(keys, f, s, p);
      var n := NextPlace(Parse(keys, f, s, 0));
      VisitsStep(keys, f, s, p);
      VisitsStep(keys, f, s, p + q);
      RestOf(f, s, n, p);
      VisitsThrough(keys, After(f, s[..n]), s[n..], p - n, q);
      assert p - n + q == p + q - n;
    }
  }

  lemma {:induction false} BeforeThrough(keys: KeyTable, f: bool, s: Text, p: nat, q: nat)
    requires Visits(keys, f, s, p) && p <= |s| && Visits(keys, After(f, s[..p]), s[p..], q)
    ensures Before(keys, f, s, p + q) == Before(keys, f, s, p) + Before(keys, After(f, s[..p]), s[p..], q)
    decreases |s|
  {
    hide *;
    AtStart(keys, f, s);
    if p > 0 {
      VisitsNothing(keys, f, s, p);
      var found := Parse(keys, f, s, 0);
      var n := NextPlace(found);
      VisitsStep(keys, f, s, p);
      BeforeStep(keys, f, s, p);
      BeforeStep(keys, f, s, p + q);
      var g := After(f, s[..n]);
      RestOf(f, s, n, p);
      assert p - n + q == p + q - n;
      BeforeThrough(keys, g, s[n..], p - n, q);
      Regrouped(StepText(s, found), Before(keys, g, s[n..], p - n), Before(keys, After(f, s[..p]), s[p..], q));
    } else {
      assert [] + Before(keys, f, s, q) == Before(keys, f, s, q);
    }
  }

  lemma OneStep(keys: KeyTable, f: bool, s: Text)
    requires s != []
    ensures var found := Parse(keys, f, s, 0); var n := NextPlace(found);
      Visits(keys, f, s, n) && n <= |s| && Before(keys, f, s, n) == StepText(s, found)
  {
    hide Parse, After, Visits, Before;
    var n := NextPlace(Parse(keys, f, s, 0));
    VisitsStep(keys, f, s, n);
    BeforeStep(keys, f, s, n);
    AtStart(keys, After(f, s[..n]), s[n..]);
  }

  /** Where no key opens the pass goes on byte by byte. */
  lemma {:induction false} KeylessRun(keys: KeyTable, f: bool, s: Text, n: nat)
    requires n <= |s| && forall j | 0 <= j < n :: FindKey(keys, s, j).None?
    ensures Visits(keys, f, s, n) && Before(keys, f, s, n) == s[..n]
    decreases n
  {
    hide After, Visits, Before, FindKey;
    AtStart(keys, f, s);
    if n > 0 {
      KeylessRun(keys, f, s, n - 1);
      var g, u := After(f, s[..n - 1]), s[n - 1..];
      KeyOfSuffix(keys, s, n - 1);
      NoKeyNoHit(keys, g, u);
      OneStep(keys, g, u);
      VisitsThrough(keys, f, s, n - 1, 1);
      BeforeThrough(keys, f, s, n - 1, 1);
      assert s[..n - 1] + u[..1] == s[..n];
    }
  }

  lemma KeyOfSuffix(keys: KeyTable, s: Text, k: nat)
    requires k <= |s|
    ensures FindKey(keys, s[k..], 0).None? <==> FindKey(keys, s, k).None?
  {
    hide FindKey;
    assert s[..k] + s[k..] == s;
    KeyShift(keys, s[..k], s[k..], 0);
  }

  lemma NoKeyNoHit(keys: KeyTable, f: bool, s: Text)
    requires FindKey(keys, s, 0).None?
    ensures Parse(keys, f, s, 0).None?
  {
  }

  /** The byte at a place that the pass comes to is copied. */
  lemma FirstKept(keys: KeyTable, f: bool, s: Text)
    requires s != []
    ensures !Hidden(ScanScript(keys, f, s), 0) && Image(ScanScript(keys, f, s), 0) == 0
  {
    hide Parse, After;
    var found := Parse(keys, f, s, 0);
    if found.Some? {
      var h := found.value;
      HitScriptHides(s, h, ScanScript(keys, After(f, s[..h.end]), s[h.end..]), 0);
    }
  }

  /** Every place is one that the pass comes to, or it lies inside the secret that the pass finds at one. */
  lemma {:induction false} HitOf(keys: KeyTable, f: bool, s: Text, i: nat) returns (p: nat)
    requires i < |s|
    ensures p <= i && Visits(keys, f, s, p)
    ensures p == i ||
      var found := Parse(keys, After(f, s[..p]), s[p..], 0); found.Some? && i < p + found.value.end
    decreases |s|
  {
    hide Parse, After, Visits;
    AtStart(keys, f, s);
    var n := NextPlace(Parse(keys, f, s, 0));
    if i == 0 || i < n {
      p := 0;
    } else {
      var g := After(f, s[..n]);
      OneStep(keys, f, s);
      var q := HitOf(keys, g, s[n..], i - n);
      VisitsThrough(keys, f, s, n, q);
      RestOf(f, s, n, n + q);
      p := n + q;
    }
  }

  // ---------------------------------------------------------------------------------------------
  // Secrets that reach beyond the one that the pass has found

  /** The text is nothing but credentials that the patterns replace. */
  predicate Spelled(t: Text)
    decreases |t|
  {
    t == [] || (CredentialAt(t).Some? && Spelled(t[|CredentialAt(t).value.text|..]))
  }

  /** The pass has found `h` at the front. Inside its value, at place `j`, another key is structured, and that
      one's value is a secret that ends behind it. With `patterns`, values that lie wholly behind and are nothing
      but credentials are left to the replacements. */
  predicate Outruns(patterns: bool, keys: KeyTable, f: bool, s: Text, h: Hit, j: nat)
    requires j <= |s|
  {
    var found := Parse(keys, After(f, s[..j]), s, j);
    found.Some? &&
    var x := found.value;
    && x.end > h.end && IsSecret(s[x.start..x.end])
    && !(patterns && x.start > h.end && Spelled(s[x.start..x.end]))
  }

  /** What the pass finds at the front is copied only if it is a mere marker, and a token that it masks has no key
      inside whose secret outruns it. A value that runs to the end of its line cannot be outrun. */
  predicate HitCovers(patterns: bool, keys: KeyTable, f: bool, s: Text, h: Hit)
    requires h.start <= h.end <= |s|
  {
    var value := s[h.start..h.end];
    if IsMarked(value) then !IsSecret(value)
    else h.kind.Token? ==> forall j | h.start <= j < h.end :: !Outruns(patterns, keys, f, s, h, j)
  }

  predicate CoversAt(patterns: bool, keys: KeyTable, f: bool, s: Text, p: nat)
    requires p <= |s|
  {
    var g, u := After(f, s[..p]), s[p..];
    match Parse(keys, g, u, 0)
    case None => true
    case Some(h) => HitCovers(patterns, keys, g, u, h)
  }

  /** This holds of everything that the pass finds. */
  predicate Covers(patterns: bool, keys: KeyTable, f: bool, s: Text) {
    forall p | 0 <= p < |s| && Visits(keys, f, s, p) :: CoversAt(patterns, keys, f, s, p)
  }

  /** Every secret of the text, at whatever place its key is, is masked from its first byte to its last. */
  predicate MasksAll(keys: KeyTable, f: bool, s: Text) {
    forall i, k | 0 <= i < |s| && 0 <= k < |s| && SecretAt(keys, f, s, i, k) :: Hidden(ScanScript(keys, f, s), k)
  }

  // ---------------------------------------------------------------------------------------------
  // The places around one secret

  /** From the key of a secret, any part of it, the same value is found. */
  lemma KeyPlace(keys: KeyTable, f: bool, s: Text, h: Hit, g: bool, i: nat)
    requires Parse(keys, f, s, 0) == Some(h) && i < h.start && Parse(keys, g, s, i).Some?
    ensures Parse(keys, g, s, i) == Some(h)
  {
    hide Parse;
    KeyInterior(keys, f, s, g, s, i);
    ParseEnd(keys, f, s, 0);
    ParseEnd(keys, g, s, i);
  }

  /** A secret of a line is not outrun. */
  lemma LineHoldsAll(keys: KeyTable, f: bool, s: Text, h: Hit, g: bool, j: nat)
    requires Parse(keys, f, s, 0) == Some(h) && h.kind.Line? && h.start <= j < h.end && Parse(keys, g, s, j).Some?
    ensures Parse(keys, g, s, j).value.end <= h.end
  {
    if h.end < |s| {
      var key := FindKey(keys, s, j).value;
      NoStraddle(key.kind, s, j, key.end, h.end, Line);
      SeparatorsBeforeValue(g, s, key.end);
      var v := Parse(keys, g, s, j).value.start;
      assert IsNewline(s[h.end]);
      assert v <= h.end by { NewlineStops(s, key.end, v, h.end); }
    }
  }

  lemma NewlineStops(s: Text, c: nat, v: nat, e: nat)
    requires c <= e < |s| && IsNewline(s[e]) && v <= |s| && SkipSuffix(s, c) <= v
    requires forall j | SkipSuffix(s, c) <= j < v :: IsSeparator(s[j])
    ensures v <= e
  {
  }

  /** Between a masked token and a value that begins behind it there are only separators. */
  lemma GapIsSeparators(keys: KeyTable, f: bool, s: Text, h: Hit, g: bool, j: nat)
    requires Parse(keys, f, s, 0) == Some(h) && h.kind.Token? && h.start <= j < h.end
    requires Parse(keys, g, s, j).Some? && Parse(keys, g, s, j).value.start > h.end
    ensures h.end < |s| && IsTerminator(s[h.end])
    ensures forall m | h.end <= m < Parse(keys, g, s, j).value.start :: IsSeparator(s[m])
  {
    var key := FindKey(keys, s, j).value;
    assert EndsValue(Token, s[h.end]);
    NoStraddle(key.kind, s, j, key.end, h.end, Token);
    SeparatorsBeforeValue(g, s, key.end);
    SuffixHasNoTerminator(s, key.end, h.end);
  }

  lemma SuffixHasNoTerminator(s: Text, c: nat, e: nat)
    requires c <= e < |s| && IsTerminator(s[e])
    ensures SkipSuffix(s, c) <= e
  {
  }

  lemma SeparatorOpensNothing(keys: KeyTable, s: Text, m: nat)
    requires m < |s| && IsSeparator(s[m])
    ensures FindKey(keys, s, m).None?
  {
    hide FindKey;
    assert m + 1 < |s| ==> !OpensAnchor(Lower(s[m]), Lower(s[m + 1]));
  }

  /** The pass comes to the place where such a value begins. */
  lemma GapVisits(keys: KeyTable, f: bool, s: Text, h: Hit, v: nat)
    requires Parse(keys, f, s, 0) == Some(h) && h.end <= v <= |s|
    requires forall m | h.end <= m < v :: IsSeparator(s[m])
    ensures Visits(keys, f, s, v) && Before(keys, f, s, v) == Segment(s, h) + s[h.end..v]
  {
    hide Parse, After, Visits, Before, FindKey, IsSeparator, Segment;
    var g, u := After(f, s[..h.end]), s[h.end..];
    forall m | 0 <= m < v - h.end ensures FindKey(keys, u, m).None? {
      assert u[m] == s[h.end + m];
      SeparatorOpensNothing(keys, u, m);
    }
    assert s != [];
    OneStep(keys, f, s);
    KeylessRun(keys, g, u, v - h.end);
    VisitsThrough(keys, f, s, h.end, v - h.end);
    BeforeThrough(keys, f, s, h.end, v - h.end);
    assert u[..v - h.end] == s[h.end..v];
  }

  /** The byte where the pass goes on is copied. */
  lemma VisitedIsKept(keys: KeyTable, f: bool, s: Text, p: nat)
    requires Visits(keys, f, s, p) && p < |s|
    ensures !Hidden(ScanScript(keys, f, s), p)
  {
    hide Parse, After, Visits, Before, ScanScript, Hidden, Image;
    VisitSplit(keys, f, s, p, 0);
    FirstKept(keys, After(f, s[..p]), s[p..]);
  }

  lemma HitHides(keys: KeyTable, f: bool, s: Text, h: Hit)
    requires Parse(keys, f, s, 0) == Some(h)
    ensures forall k | h.start <= k < h.end :: Hidden(ScanScript(keys, f, s), k) <==> !IsMarked(s[h.start..h.end])
  {
    hide Parse, After, Segment;
    HitScriptHides(s, h, ScanScript(keys, After(f, s[..h.end]), s[h.end..]), 0);
  }

  /** A value wholly behind the secret `h`, nothing but credentials. */
  predicate LeftToPatterns(keys: KeyTable, f: bool, s: Text, h: Hit, i: nat)
    requires i <= |s|
  {
    var found := Parse(keys, After(f, s[..i]), s, i);
    found.Some? && found.value.start > h.end && Spelled(s[found.value.start..found.value.end])
  }

  /** When what the pass finds at the front covers the places up to its end, the secrets there are masked, or
      left to the patterns. */
  lemma CoveredPlace(patterns: bool, keys: KeyTable, f: bool, s: Text, h: Hit, i: nat, k: nat)
    requires Parse(keys, f, s, 0) == Some(h) && HitCovers(patterns, keys, f, s, h)
    requires i < h.end && SecretAt(keys, f, s, i, k)
    ensures Hidden(ScanScript(keys, f, s), k)
         || (patterns && h.kind.Token? && h.start <= i && LeftToPatterns(keys, f, s, h, i))
  {
    hide Parse, After, IsMarked, Hidden, ScanScript, FindKey, Spelled, IsMarker;
    var g := After(f, s[..i]);
    var x := Parse(keys, g, s, i).value;
    HitHides(keys, f, s, h);
    if i < h.start {
      KeyPlace(keys, f, s, h, g, i);
    } else if IsMarked(s[h.start..h.end]) {
      ParseEnd(keys, f, s, 0);
      assert s[h.start..h.end] != [];
      MarkerHasNoKey(keys, s, h.start, h.end, h.kind, i);
      NoKeyNoHitAt(keys, g, s, i);
    } else if h.kind.Line? {
      LineHoldsAll(keys, f, s, h, g, i);
    } else {
      assert !Outruns(patterns, keys, f, s, h, i);
    }
  }

  lemma NoKeyNoHitAt(keys: KeyTable, f: bool, s: Text, i: nat)
    requires FindKey(keys, s, i).None?
    ensures Parse(keys, f, s, i).None?
  {
  }

  /** When it does not cover them, a byte of a secret is copied: of a marker that is not all there is, the byte
      behind a token, or the first byte of a value that begins later. */
  lemma UncoveredPlace(patterns: bool, keys: KeyTable, f: bool, s: Text, h: Hit) returns (i: nat, k: nat)
    requires Parse(keys, f, s, 0) == Some(h) && !HitCovers(patterns, keys, f, s, h)
    ensures i < h.end && k < |s| && SecretAt(keys, f, s, i, k) && !Hidden(ScanScript(keys, f, s), k)
    ensures s[k] == '[' || IsTerminator(s[k]) ||
      (h.start <= i && h.kind.Token? &&
       var x := Parse(keys, After(f, s[..i]), s, i).value;
       k == x.start && x.start > h.end && !(patterns && Spelled(s[x.start..x.end])))
  {
    hide Parse, After, Hidden, ScanScript, FindKey, Spelled, IsMarker, Visits, Before, IsTerminator;
    HitHides(keys, f, s, h);
    AfterNothing(f, s);
    if IsMarked(s[h.start..h.end]) {
      i, k := 0, h.start;
      assert s[h.start] == s[h.start..h.end][0];
    } else {
      i :| h.start <= i < h.end && Outruns(patterns, keys, f, s, h, i);
      var g := After(f, s[..i]);
      var x := Parse(keys, g, s, i).value;
      if x.start <= h.end {
        k := h.end;
        TokenEnds(keys, f, s, h);
        GapVisits(keys, f, s, h, h.end);
      } else {
        k := x.start;
        GapIsSeparators(keys, f, s, h, g, i);
        GapVisits(keys, f, s, h, x.start);
      }
      VisitedIsKept(keys, f, s, k);
    }
  }

  lemma TokenEnds(keys: KeyTable, f: bool, s: Text, h: Hit)
    requires Parse(keys, f, s, 0) == Some(h) && h.kind.Token? && h.end < |s|
    ensures IsTerminator(s[h.end])
  {
    assert EndsValue(Token, s[h.end]);
  }

  // ---------------------------------------------------------------------------------------------
  // The whole text

  /** A place seen from one that the pass comes to. */
  lemma SecretFrom(keys: KeyTable, f: bool, s: Text, p: nat, i: nat, k: nat)
    requires p + i <= |s|
    ensures SecretAt(keys, f, s, p + i, p + k) == SecretAt(keys, After(f, s[..p]), s[p..], i, k)
  {
    hide Parse, After, IsSecret;
    RestOf(f, s, p, p + i);
    var g, u := After(f, s[..p + i]), s[p..];
    assert s[..p] + u == s;
    ParseShift(keys, g, s[..p], u, i);
    var found := Parse(keys, g, u, i);
    if found.Some? {
      SuffixSlice(s, p, found.value.start, found.value.end);
    }
  }

  /** The pass masks all of every secret exactly if everything that it finds covers the places up to its end. */
  lemma MasksAllIff(keys: KeyTable, f: bool, s: Text)
    ensures MasksAll(keys, f, s) <==> Covers(false, keys, f, s)
  {
    hide Parse, After, SecretAt, Hidden, Image, ScanScript, Visits, Before, HitCovers;
    if Covers(false, keys, f, s) {
      forall i, k | 0 <= i < |s| && 0 <= k < |s| && SecretAt(keys, f, s, i, k)
        ensures Hidden(ScanScript(keys, f, s), k)
      {
        MaskedPlace(keys, f, s, i, k);
      }
    } else {
      var p :| 0 <= p < |s| && Visits(keys, f, s, p) && !CoversAt(false, keys, f, s, p);
      var g, u := After(f, s[..p]), s[p..];
      var i, k := UncoveredPlace(false, keys, g, u, Parse(keys, g, u, 0).value);
      SecretFrom(keys, f, s, p, i, k);
      VisitSplit(keys, f, s, p, k);
      assert SecretAt(keys, f, s, p + i, p + k) && !Hidden(ScanScript(keys, f, s), p + k);
    }
  }

  lemma MaskedPlace(keys: KeyTable, f: bool, s: Text, i: nat, k: nat)
    requires Covers(false, keys, f, s) && i < |s| && SecretAt(keys, f, s, i, k)
    ensures Hidden(ScanScript(keys, f, s), k)
  {
    hide Parse, After, Hidden, Image, ScanScript, Visits, Before, HitCovers, IsSecret;
    var p := HitOf(keys, f, s, i);
    assert CoversAt(false, keys, f, s, p);
    SecretIsBehind(keys, f, s, i, k);
    SecretFrom(keys, f, s, p, i - p, k - p);
    VisitSplit(keys, f, s, p, k - p);
    var g, u := After(f, s[..p]), s[p..];
    assert u[..0] == [] && After(g, []) == g by { AfterNothing(g, u); }
    CoveredPlace(false, keys, g, u, Parse(keys, g, u, 0).value, i - p, k - p);
  }

  lemma SecretIsBehind(keys: KeyTable, f: bool, s: Text, i: nat, k: nat)
    requires i <= |s| && SecretAt(keys, f, s, i, k)
    ensures i < k < |s|
  {
  }
}
