/** Exactly which texts come out of the redactor with a byte of a secret in clear. */
module Exposure {
  import opened AnchoredClean
  import opened AnchoredCover
  import opened AnchoredIdempotence
  import opened AnchoredKeys
  import opened AnchoredPass
  import opened AnchoredRuns
  import opened AnchoredScan
  import opened CleanOutput
  import opened Markers
  import opened Options
  import opened PrivateKeyCoverage
  import opened PrivateKeys
  import opened Redactor
  import opened Scripts
  import opened Search
  import opened Utf8

  /** Byte `k` is masked by the anchored pass or belongs to a credential that the patterns replace. */
  predicate BothHide(keys: KeyTable, f: bool, s: Text, k: nat) {
    var sc := ScanScript(keys, f, s);
    Hidden(sc, k) || Hidden(PatternScript(Scan(keys, f, s)), Image(sc, k))
  }

  /** No byte of a secret of the text that the private-key pass has written is copied into the output. */
  ghost predicate HidesSecrets(v: Text) {
    forall i, k | 0 <= i < |v| && 0 <= k < |v| && SecretAt(SECRET_ANCHORS, false, v, i, k) :: !Shows(LastScripts(v), k)
  }

  lemma ShownIff(v: Text, k: nat)
    requires k < |v|
    ensures Shows(LastScripts(v), k) <==> !BothHide(SECRET_ANCHORS, false, v, k)
  {
    hide Scan, ScanScript, PatternScript, Shows, Hidden, Image, RedactPatterns;
    ScanScriptIsPass(SECRET_ANCHORS, false, v);
    OnePassIsPatterns(RedactAnchored(v));
    ShowsTwo(ScanScript(SECRET_ANCHORS, false, v), PatternScript(RedactAnchored(v)), k);
  }

  // ---------------------------------------------------------------------------------------------
  // Bytes that are never part of a credential, and where a credential cannot open

  predicate InCredential(c: char) {
    c in USER_AND_PASSWORD || c in BASIC_AUTH_PATTERN
  }

  predicate OpensCredential(c: char) { c == 'a' || c == 'Y' }

  lemma CredentialFacts(s: Text)
    requires CredentialAt(s).Some?
    ensures s != [] && OpensCredential(s[0])
    ensures forall k | 0 <= k < |CredentialAt(s).value.text| :: InCredential(s[k])
    ensures NoKeyInside(CredentialAt(s).value.text) && '[' !in CredentialAt(s).value.text
  {
    CredentialHeads();
    UserIsFront();
    PatternsOpenNoKey();
    NeedlesAndMarker();
    hide USER_AND_PASSWORD, BASIC_AUTH_PATTERN, RPC_USER, NoKeyInside;
    var w := CredentialAt(s).value.text;
    forall k | 0 <= k < |w| ensures InCredential(s[k]) {
      assert s[k] == w[k] && w[k] in w;
    }
  }

  lemma UserIsFront()
    ensures forall c | c in RPC_USER :: c in USER_AND_PASSWORD
  {
  }

  lemma Outside(c: char)
    requires c == '[' || IsTerminator(c)
    ensures !InCredential(c)
  {
  }

  lemma SeparatorOpensNone(c: char)
    requires IsSeparator(c)
    ensures !OpensCredential(c)
  {
  }

  lemma {:induction false} PatternsHideTheirs(t: Text, q: nat)
    requires Hidden(PatternScript(t), q)
    ensures q < |t| && InCredential(t[q])
    decreases |t|
  {
    hide CredentialAt, InCredential;
    match CredentialAt(t)
    case None => PatternsHideTheirs(t[1..], q - 1);
    case Some(c) =>
      CredentialFacts(t);
      if q >= |c.text| {
        PatternsHideTheirs(t[|c.text|..], q - |c.text|);
      }
  }

  /** Behind a byte that no credential has, and then bytes that open none, a credential can open anew. */
  lemma {:induction false} SealedSplit(a: Text, b: Text, r: int, m: nat)
    requires -1 <= r < |a| && (r >= 0 ==> !InCredential(a[r]))
    requires forall j | r < j < |a| :: !OpensCredential(a[j])
    ensures Hidden(PatternScript(a + b), |a| + m) == Hidden(PatternScript(b), m)
    decreases |a|
  {
    hide InCredential, OpensCredential, CredentialAt;
    var s := a + b;
    if a == [] {
      assert s == b;
    } else {
      match CredentialAt(s)
      case None =>
        assert s[1..] == a[1..] + b;
        SealedSplit(a[1..], b, if r > 0 then r - 1 else -1, m);
      case Some(c) =>
        CredentialFacts(s);
        assert s[0] == a[0];
        assert r >= 0 && |c.text| <= r by { assert s[r] == a[r]; }
        assert s[|c.text|..] == a[|c.text|..] + b;
        SealedSplit(a[|c.text|..], b, r - |c.text|, m);
    }
  }

  // ---------------------------------------------------------------------------------------------
  // Credentials at a place that the anchored pass comes to

  lemma WordIsKeyless(keys: KeyTable, s: Text, w: Text)
    requires w <= s && NoKeyInside(w)
    ensures forall j | 0 <= j < |w| :: FindKey(keys, s, j).None?
  {
    hide FindKey, NoKeyInside;
    assert w + s[|w|..] == s;
    forall j | 0 <= j < |w| ensures FindKey(keys, s, j).None? {
      NoKeyAt(keys, w, s[|w|..], j);
    }
  }

  /** A credential there is copied. */
  lemma WordIsCopied(keys: KeyTable, f: bool, s: Text, w: Text)
    requires w <= s && NoKeyInside(w)
    ensures Visits(keys, f, s, |w|) && Before(keys, f, s, |w|) == w
    ensures Scan(keys, f, s) == w + Scan(keys, After(f, w), s[|w|..])
  {
    hide Scan, After, Visits, Before, NoKeyInside, FindKey;
    WordIsKeyless(keys, s, w);
    KeylessRun(keys, f, s, |w|);
    VisitWrites(keys, f, s, |w|);
    assert s[..|w|] == w;
  }

  /** A text without brackets at the front of what is written was at the front of what is read. */
  lemma WordWasThere(keys: KeyTable, f: bool, s: Text, w: Text)
    requires w <= Scan(keys, f, s) && '[' !in w
    ensures w <= s
  {
    hide Scan, FirstEdit;
    FirstEditAgrees(keys, f, s);
    var t, d := Scan(keys, f, s), FirstEdit(keys, f, s);
    assert forall k | 0 <= k < |w| :: t[k] == w[k] && w[k] in w;
    assert |w| <= d;
  }

  lemma CredentialSame(keys: KeyTable, f: bool, s: Text)
    ensures CredentialAt(Scan(keys, f, s)) == CredentialAt(s)
  {
    PatternsOpenNoKey();
    NeedlesAndMarker();
    hide Scan, NoKeyInside, USER_AND_PASSWORD, BASIC_AUTH_PATTERN, RPC_USER, After;
    WordSame(keys, f, s, USER_AND_PASSWORD);
    WordSame(keys, f, s, BASIC_AUTH_PATTERN);
    WordSame(keys, f, s, RPC_USER);
  }

  lemma WordSame(keys: KeyTable, f: bool, s: Text, w: Text)
    requires NoKeyInside(w) && '[' !in w
    ensures w <= Scan(keys, f, s) <==> w <= s
  {
    hide Scan, NoKeyInside, After;
    if w <= s {
      WordIsCopied(keys, f, s, w);
    }
    if w <= Scan(keys, f, s) {
      WordWasThere(keys, f, s, w);
    }
  }

  predicate AllHide(keys: KeyTable, f: bool, s: Text, a: nat, b: nat) {
    forall k | a <= k < b :: BothHide(keys, f, s, k)
  }

  /** The same bytes, counted from another place. */
  lemma AllHideFrom(keys: KeyTable, f: bool, s: Text, a: nat, b: nat, g: bool, u: Text)
    requires a <= b && forall k | a <= k < b :: BothHide(keys, f, s, k) == BothHide(keys, g, u, k - a)
    ensures AllHide(keys, f, s, a, b) <==> AllHide(keys, g, u, 0, b - a)
  {
    hide BothHide;
    if AllHide(keys, f, s, a, b) {
      forall k | 0 <= k < b - a ensures BothHide(keys, g, u, k) {
        assert BothHide(keys, f, s, a + k);
        assert a + k - a == k;
      }
    }
  }

  lemma NothingHides(keys: KeyTable, f: bool, s: Text)
    requires s != [] && CredentialAt(s).None?
    ensures !BothHide(keys, f, s, 0)
  {
    hide Scan, ScanScript, CredentialAt;
    CredentialSame(keys, f, s);
    FirstKept(keys, f, s);
  }

  /** A credential at the front is hidden, and what follows is on its own. */
  lemma WordHides(keys: KeyTable, f: bool, s: Text, k: nat)
    requires CredentialAt(s).Some?
    ensures var n := |CredentialAt(s).value.text|;
      && 0 < n <= |s| && (k < n ==> BothHide(keys, f, s, k))
      && (k >= n ==> BothHide(keys, f, s, k) == BothHide(keys, After(f, s[..n]), s[n..], k - n))
  {
    hide Scan, ScanScript, CredentialAt, After, Visits, Before, NoKeyInside, InCredential, Image;
    var w := CredentialAt(s).value.text;
    var n := |w|;
    CredentialFacts(s);
    CredentialSame(keys, f, s);
    WordIsCopied(keys, f, s, w);
    assert s[..n] == w && Scan(keys, f, s)[n..] == Scan(keys, After(f, w), s[n..]);
    if k < n {
      WordImage(keys, f, s, w, k);
    } else {
      VisitSplit(keys, f, s, n, k - n);
    }
  }

  lemma WordImage(keys: KeyTable, f: bool, s: Text, w: Text, k: nat)
    requires w <= s && NoKeyInside(w) && k < |w|
    ensures Image(ScanScript(keys, f, s), k) == k
  {
    hide ScanScript, After, Visits, Before, NoKeyInside, FindKey, Image, Hidden;
    WordIsKeyless(keys, s, w);
    KeylessRun(keys, f, s, k);
    VisitSplit(keys, f, s, k, 0);
    FirstKept(keys, After(f, s[..k]), s[k..]);
  }

  /** The first `n` bytes are all hidden exactly if they are nothing but credentials. */
  lemma {:induction false} SpelledIff(keys: KeyTable, f: bool, s: Text, n: nat)
    requires n <= |s| && (n < |s| ==> !InCredential(s[n]))
    ensures AllHide(keys, f, s, 0, n) <==> Spelled(s[..n])
    decreases n
  {
    hide BothHide, CredentialAt, InCredential, After;
    if n > 0 {
      SameWord(s, n);
      match CredentialAt(s)
      case None =>
        NothingHides(keys, f, s);
        assert !AllHide(keys, f, s, 0, n);
      case Some(c) =>
        var m := |c.text|;
        WordHides(keys, f, s, 0);
        var g, u := After(f, s[..m]), s[m..];
        SpelledIff(keys, g, u, n - m);
        assert u[..n - m] == s[..n][m..];
        forall k | 0 <= k < n
          ensures k < m ==> BothHide(keys, f, s, k)
          ensures k >= m ==> BothHide(keys, f, s, k) == BothHide(keys, g, u, k - m)
        {
          WordHides(keys, f, s, k);
        }
        AllHideFrom(keys, f, s, m, n, g, u);
    }
  }

  /** A credential does not reach beyond a byte that none has. */
  lemma SameWord(s: Text, n: nat)
    requires 0 < n <= |s| && (n < |s| ==> !InCredential(s[n]))
    ensures CredentialAt(s[..n]) == CredentialAt(s)
    ensures CredentialAt(s).Some? ==> |CredentialAt(s).value.text| <= n
  {
    InCredentials(s, n, USER_AND_PASSWORD);
    InCredentials(s, n, BASIC_AUTH_PATTERN);
    UserIsFront();
    InCredentials(s, n, RPC_USER);
  }

  lemma InCredentials(s: Text, n: nat, w: Text)
    requires n <= |s| && (n < |s| ==> !InCredential(s[n])) && forall c | c in w :: InCredential(c)
    ensures w <= s[..n] <==> w <= s
    ensures w <= s ==> |w| <= n
  {
    hide InCredential;
    assert forall k | 0 <= k < |w| :: w[k] in w && InCredential(w[k]);
  }

  // ---------------------------------------------------------------------------------------------
  // Main result

  /** Where a credential can open anew, the rest is on its own. */
  lemma HiddenFrom(keys: KeyTable, f: bool, s: Text, p: nat, r: nat, k: nat)
    requires Visits(keys, f, s, p) && p <= |s|
    requires var a := Before(keys, f, s, p);
      r < |a| && !InCredential(a[r]) && forall j | r < j < |a| :: !OpensCredential(a[j])
    ensures BothHide(keys, f, s, p + k) == BothHide(keys, After(f, s[..p]), s[p..], k)
  {
    hide Scan, ScanScript, After, Visits, Before, InCredential, OpensCredential, PatternScript, Hidden, Image;
    VisitWrites(keys, f, s, p);
    VisitSplit(keys, f, s, p, k);
    var g, u := After(f, s[..p]), s[p..];
    SealedSplit(Before(keys, f, s, p), Scan(keys, g, u), r, Image(ScanScript(keys, g, u), k));
  }

  /** The place where a value begins behind a masked token is such a place. */
  lemma LaterValue(keys: KeyTable, f: bool, s: Text, p: nat, h: Hit, i: nat, k: nat)
    requires p <= |s| && Visits(keys, f, s, p)
    requires var g, u := After(f, s[..p]), s[p..];
      && Parse(keys, g, u, 0) == Some(h) && h.kind.Token? && h.start <= i < h.end
      && var found := Parse(keys, After(g, u[..i]), u, i); found.Some? && found.value.start > h.end
    ensures var g, u := After(f, s[..p]), s[p..]; var x := Parse(keys, After(g, u[..i]), u, i).value;
      k >= p + x.start ==>
        BothHide(keys, f, s, k) == BothHide(keys, After(f, s[..p + x.start]), s[p + x.start..], k - p - x.start)
  {
    hide Parse, After, Visits, Before, BothHide, Segment, IsSeparator, InCredential, OpensCredential;
    var g, u := After(f, s[..p]), s[p..];
    var v := Parse(keys, After(g, u[..i]), u, i).value.start;
    GapIsSeparators(keys, g, u, h, After(g, u[..i]), i);
    GapVisits(keys, g, u, h, v);
    VisitsThrough(keys, f, s, p, v);
    BeforeThrough(keys, f, s, p, v);
    var a, m := Before(keys, f, s, p) + Segment(u, h), u[h.end..v];
    Regrouped(Before(keys, f, s, p), Segment(u, h), m);
    SeparatorRun(a, u, h.end, v);
    Outside(u[h.end]);
    if k >= p + v {
      HiddenFrom(keys, f, s, p + v, |a|, k - p - v);
    }
  }

  lemma SeparatorRun(a: Text, u: Text, e: nat, v: nat)
    requires e < v <= |u| && forall m | e <= m < v :: IsSeparator(u[m])
    ensures var b := a + u[e..v];
      |a| < |b| && b[|a|] == u[e] && forall j | |a| < j < |b| :: !OpensCredential(b[j])
  {
    hide IsSeparator, OpensCredential;
    var b := a + u[e..v];
    forall j | |a| < j < |b| ensures !OpensCredential(b[j]) {
      assert b[j] == u[e + (j - |a|)];
      SeparatorOpensNone(b[j]);
    }
  }

  /** Such a value is hidden, all of it, exactly if it is nothing but credentials. */
  lemma LaterSpelled(keys: KeyTable, f: bool, s: Text, p: nat, h: Hit, i: nat)
    requires p <= |s| && Visits(keys, f, s, p)
    requires var g, u := After(f, s[..p]), s[p..];
      && Parse(keys, g, u, 0) == Some(h) && h.kind.Token? && h.start <= i < h.end
      && var found := Parse(keys, After(g, u[..i]), u, i); found.Some? && found.value.start > h.end
    ensures var g, u := After(f, s[..p]), s[p..]; var x := Parse(keys, After(g, u[..i]), u, i).value;
      AllHide(keys, f, s, p + x.start, p + x.end) <==> Spelled(u[x.start..x.end])
  {
    hide Parse, After, Visits, BothHide, InCredential, Spelled;
    var g, u := After(f, s[..p]), s[p..];
    var x := Parse(keys, After(g, u[..i]), u, i).value;
    var a, b := p + x.start, p + x.end;
    var g', u' := After(f, s[..a]), s[a..];
    SuffixSlice(s, p, x.start, x.end);
    SuffixSlice(s, a, 0, b - a);
    forall k | a <= k < b ensures BothHide(keys, f, s, k) == BothHide(keys, g', u', k - a) {
      LaterValue(keys, f, s, p, h, i, k);
    }
    AllHideFrom(keys, f, s, a, b, g', u');
    ParseEnd(keys, After(g, u[..i]), u, i);
    ValueStops(x.kind, u, x.start);
    assert b - a < |u'| ==> u'[b - a] == u[x.end];
    SpelledIff(keys, g', u', b - a);
    assert u'[..b - a] == u[x.start..x.end];
  }

  lemma ValueStops(kind: Kind, s: Text, v: nat)
    requires v <= |s|
    ensures var e := ValueEnd(kind, s, v); e < |s| ==> !InCredential(s[e])
  {
    var e := ValueEnd(kind, s, v);
    if e < |s| {
      Outside(s[e]);
    }
  }

  /** A byte that the anchored pass copies and that no credential has is seen in the end. */
  lemma CopiedIsSeen(keys: KeyTable, f: bool, s: Text, k: nat)
    requires k < |s| && !Hidden(ScanScript(keys, f, s), k) && !InCredential(s[k])
    ensures !BothHide(keys, f, s, k)
  {
    hide Scan, ScanScript, InCredential, Hidden, Image, PatternScript;
    ScanScriptIsPass(keys, f, s);
    var sc := ScanScript(keys, f, s);
    OriginOfImage(sc, k);
    if Hidden(PatternScript(Scan(keys, f, s)), Image(sc, k)) {
      PatternsHideTheirs(Scan(keys, f, s), Image(sc, k));
    }
  }

  lemma HiddenPlace(keys: KeyTable, f: bool, s: Text, i: nat, k: nat)
    requires Covers(true, keys, f, s) && i < |s| && SecretAt(keys, f, s, i, k)
    ensures BothHide(keys, f, s, k)
  {
    hide Parse, After, Hidden, Image, ScanScript, Visits, Before, HitCovers, IsSecret, Spelled, PatternScript, Scan;
    var p := HitOf(keys, f, s, i);
    assert CoversAt(true, keys, f, s, p);
    SecretIsBehind(keys, f, s, i, k);
    SecretFrom(keys, f, s, p, i - p, k - p);
    VisitSplit(keys, f, s, p, k - p);
    var g, u := After(f, s[..p]), s[p..];
    assert u[..0] == [] && After(g, []) == g by { AfterNothing(g, u); }
    var h := Parse(keys, g, u, 0).value;
    CoveredPlace(true, keys, g, u, h, i - p, k - p);
    if !Hidden(ScanScript(keys, f, s), k) {
      LaterSpelled(keys, f, s, p, h, i - p);
      var x := Parse(keys, After(g, u[..i - p]), u, i - p).value;
      assert AllHide(keys, f, s, p + x.start, p + x.end);
    }
  }

  lemma SeenPlace(keys: KeyTable, f: bool, s: Text) returns (i: nat, k: nat)
    requires !Covers(true, keys, f, s)
    ensures i < |s| && k < |s| && SecretAt(keys, f, s, i, k) && !BothHide(keys, f, s, k)
  {
    hide Parse, After, Hidden, Image, ScanScript, Visits, Before, HitCovers, Spelled, BothHide;
    hide InCredential, IsTerminator;
    var p :| 0 <= p < |s| && Visits(keys, f, s, p) && !CoversAt(true, keys, f, s, p);
    var g, u := After(f, s[..p]), s[p..];
    var h := Parse(keys, g, u, 0).value;
    var a, b := UncoveredPlace(true, keys, g, u, h);
    SecretFrom(keys, f, s, p, a, b);
    VisitSplit(keys, f, s, p, b);
    i, k := p + a, p + b;
    if u[b] == '[' || IsTerminator(u[b]) {
      Outside(u[b]);
      CopiedIsSeen(keys, f, s, k);
    } else {
      LaterSpelled(keys, f, s, p, h, a);
      var x := Parse(keys, After(g, u[..a]), u, a).value;
      k :| p + x.start <= k < p + x.end && !BothHide(keys, f, s, k);
      SecretFrom(keys, f, s, p, a, k - p);
    }
  }

  /** No byte of a secret is seen in the output exactly if everything that the anchored pass finds, in what the
      private-key pass has written, covers the places up to its end. */
  lemma HidesSecretsIff(v: Text)
    ensures HidesSecrets(v) <==> Covers(true, SECRET_ANCHORS, false, v)
  {
    hide Covers, SecretAt, Shows, BothHide;
    if Covers(true, SECRET_ANCHORS, false, v) {
      forall i, k | 0 <= i < |v| && 0 <= k < |v| && SecretAt(SECRET_ANCHORS, false, v, i, k)
        ensures !Shows(LastScripts(v), k)
      {
        HiddenPlace(SECRET_ANCHORS, false, v, i, k);
        ShownIff(v, k);
      }
    } else {
      var i, k := SeenPlace(SECRET_ANCHORS, false, v);
      ShownIff(v, k);
    }
  }

  // ---------------------------------------------------------------------------------------------
  // Guards that need no second look at the text

  /** Every value that is copied as marked is a mere marker. */
  predicate MarkersAlone(keys: KeyTable, f: bool, s: Text) {
    forall p | 0 <= p < |s| && Visits(keys, f, s, p) :: AloneAt(keys, f, s, p)
  }

  predicate AloneAt(keys: KeyTable, f: bool, s: Text, p: nat)
    requires p <= |s|
  {
    var found := Parse(keys, After(f, s[..p]), s[p..], 0);
    found.Some? ==>
    var value := s[p..][found.value.start..found.value.end];
    IsMarked(value) ==> !IsSecret(value)
  }

  /** No key name occurs inside a token that is masked. */
  predicate TokensKeyless(keys: KeyTable, f: bool, s: Text) {
    forall p | 0 <= p < |s| && Visits(keys, f, s, p) :: KeylessAt(keys, f, s, p)
  }

  predicate KeylessAt(keys: KeyTable, f: bool, s: Text, p: nat)
    requires p <= |s|
  {
    var found := Parse(keys, After(f, s[..p]), s[p..], 0);
    found.Some? && found.value.kind.Token? ==>
    forall j | found.value.start <= j < found.value.end :: FindKey(keys, s[p..], j).None?
  }

  /** Mere markers and tokens without key names are covered. */
  lemma KeylessCovers(patterns: bool, keys: KeyTable, f: bool, s: Text)
    requires MarkersAlone(keys, f, s) && TokensKeyless(keys, f, s)
    ensures Covers(patterns, keys, f, s)
  {
    hide Parse, After, Visits, IsSecret, IsMarked, FindKey, Spelled;
    forall p | 0 <= p < |s| && Visits(keys, f, s, p) ensures CoversAt(patterns, keys, f, s, p) {
      var g, u := After(f, s[..p]), s[p..];
      assert AloneAt(keys, f, s, p) && KeylessAt(keys, f, s, p);
      if Parse(keys, g, u, 0).Some? {
        var h := Parse(keys, g, u, 0).value;
        forall j | h.start <= j < h.end && FindKey(keys, u, j).None? ensures !Outruns(patterns, keys, g, u, h, j) {
          NoKeyNoHitAt(keys, After(g, u[..j]), u, j);
        }
      }
    }
  }

  predicate IsGuarded(v: Text) {
    MarkersAlone(SECRET_ANCHORS, false, v) && TokensKeyless(SECRET_ANCHORS, false, v)
  }

  lemma GuardedHides(v: Text)
    requires IsGuarded(v)
    ensures HidesSecrets(v)
  {
    hide MarkersAlone, TokensKeyless, HidesSecrets, Covers;
    KeylessCovers(true, SECRET_ANCHORS, false, v);
    HidesSecretsIff(v);
  }

  /** Where no marker stands right behind a separator, none is copied as a value. */
  lemma ApartIsAlone(keys: KeyTable, f: bool, s: Text)
    requires MarkersStandApart(s)
    ensures MarkersAlone(keys, f, s)
  {
    hide Parse, After, Visits, MarkersStandApart, IsMarker, IsSeparator;
    forall p | 0 <= p < |s| && Visits(keys, f, s, p) ensures AloneAt(keys, f, s, p) {
      var g, u := After(f, s[..p]), s[p..];
      if Parse(keys, g, u, 0).Some? {
        var h := Parse(keys, g, u, 0).value;
        ApartBehind(s, p);
        SeparatorBefore(keys, g, u, 0);
        NotMarkedHere(u, h.start, h.end);
      }
    }
  }

  /** Text as a service writes it, without a marker and without a block header, has only its tokens to look
      at. */
  lemma ServiceTextHides(value: Text)
    requires !Contains(value, REDACTED_PREFIX) && !ContainsCi(value, BEGIN)
    requires TokensKeyless(SECRET_ANCHORS, false, value)
    ensures RedactPrivateKeys(value) == value && HidesSecrets(value)
  {
    hide Contains, ContainsCi, Redact, MarkersStandApart, MarkersAlone, TokensKeyless, HidesSecrets;
    NothingToRedact(value);
    UnmarkedStandsApart(value);
    ApartIsAlone(SECRET_ANCHORS, false, value);
    GuardedHides(value);
  }

  /** So has text with a block whose marker cannot be taken for a value. */
  lemma BlockTextHides(head: Text, body: Text, tail: Text)
    requires '-' !in head && '-' !in body && !ContainsCi(tail, BEGIN)
    requires !Contains(head, REDACTED_PREFIX) && !Contains(tail, REDACTED_PREFIX)
    requires head != [] ==> !IsSeparator(head[|head| - 1])
    requires TokensKeyless(SECRET_ANCHORS, false, RedactPrivateKeys(head + BlockOf(body) + tail))
    ensures HidesSecrets(RedactPrivateKeys(head + BlockOf(body) + tail))
  {
    hide Contains, ContainsCi, Redact, MarkersStandApart, MarkersAlone, TokensKeyless, HidesSecrets, BlockOf;
    hide IsSeparator;
    BlockStandsApart(head, body, tail);
    var v := RedactPrivateKeys(head + BlockOf(body) + tail);
    ApartIsAlone(SECRET_ANCHORS, false, v);
    GuardedHides(v);
  }

  // ---------------------------------------------------------------------------------------------
  // What callers see

  /** Byte `j` of the output was copied from a byte of a secret. */
  predicate FromSecret(v: Text, j: nat) {
    var o := OriginThrough(LastScripts(v), j);
    o.Some? && exists i | 0 <= i < |v| :: SecretAt(SECRET_ANCHORS, false, v, i, o.value)
  }

  lemma NoneIsCopied(v: Text, j: nat)
    requires HidesSecrets(v)
    ensures !FromSecret(v, j)
  {
    hide SecretAt, OriginThrough, LastScripts, Shows;
    OriginShows(LastScripts(v), j);
    if FromSecret(v, j) {
      var o := OriginThrough(LastScripts(v), j).value;
      var i :| 0 <= i < |v| && SecretAt(SECRET_ANCHORS, false, v, i, o);
      SecretIsBehind(SECRET_ANCHORS, false, v, i, o);
    }
  }

  lemma OriginShows(scs: seq<Script>, j: nat)
    ensures OriginThrough(scs, j).Some? ==> Shows(scs, OriginThrough(scs, j).value)
  {
  }

  /** No byte of the tail is one of a secret, wherever it was cut. */
  lemma TailHidesSecrets(value: Text, j: nat)
    requires Covers(true, SECRET_ANCHORS, false, RedactPrivateKeys(value)) && j < |RedactedTail(value)|
    ensures var n := |RedactText(value)| - |RedactedTail(value)|;
      && n >= 0 && RedactedTail(value)[j] == RedactText(value)[n + j]
      && !FromSecret(RedactPrivateKeys(value), n + j)
  {
    hide Covers, FromSecret, HidesSecrets, RedactText, Boundary, Redact;
    HidesSecretsIff(RedactPrivateKeys(value));
    NoneIsCopied(RedactPrivateKeys(value), |RedactText(value)| - |RedactedTail(value)| + j);
  }

  /** Nor is one of the head, whatever the bound; behind it there is only the cut marker. */
  lemma HeadHidesSecrets(value: Text, maximum: nat, j: nat)
    requires Covers(true, SECRET_ANCHORS, false, RedactPrivateKeys(value)) && j < |RedactedHead(value, maximum)|
    ensures var head, out := RedactedHead(value, maximum), RedactText(value);
      || (j < |out| && head[j] == out[j] && !FromSecret(RedactPrivateKeys(value), j))
      || (|head| - j <= |TRUNCATION_MARKER| && head[j..] == TRUNCATION_MARKER[|TRUNCATION_MARKER| - (|head| - j)..])
  {
    hide Covers, FromSecret, HidesSecrets, RedactText, BoundaryBefore, Redact, TRUNCATION_MARKER;
    HidesSecretsIff(RedactPrivateKeys(value));
    NoneIsCopied(RedactPrivateKeys(value), j);
    var out := RedactText(value);
    if |out| > maximum {
      var marker := if maximum > |TRUNCATION_MARKER| then TRUNCATION_MARKER else "";
      CutParts(out[..BoundaryBefore(out, maximum - |marker|)], marker, j);
    }
  }

  lemma CutParts(a: Text, m: Text, j: nat)
    requires j < |a| + |m|
    ensures j < |a| ==> (a + m)[j] == a[j]
    ensures j >= |a| ==> (a + m)[j..] == m[j - |a|..]
  {
  }
}
