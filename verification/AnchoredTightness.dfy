/** Every orphan is one inserted value away from a text that the pass changes twice. */
module AnchoredTightness {
  import opened AnchoredIdempotence
  import opened AnchoredKeys
  import opened AnchoredRuns
  import opened AnchoredScan
  import opened Options
  import opened Search
  import opened Utf8

  /** An unmarked secret, in one piece: whatever goes on behind it, its value is found inside it. */
  ghost predicate IsPayload(keys: KeyTable, z: Text) {
    && (forall c | c in z :: !IsTerminator(c))
    && forall f: bool, w: Text :: PayloadIn(keys, f, z, w)
  }

  predicate PayloadIn(keys: KeyTable, f: bool, z: Text, w: Text) {
    var found := Parse(keys, f, z + w, 0);
    found.Some? && found.value.start < |z| && found.value.start < found.value.end && z[found.value.start] != '['
  }

  lemma PrefixLetters(k: nat)
    requires k < 9
    ensures OpensWith(REDACTED_PREFIX[k]) ==> k == 1 || k == 5
    ensures REDACTED_PREFIX[1] == 'R' && REDACTED_PREFIX[2] == 'E' && REDACTED_PREFIX[6] == 'T'
  {
  }

  lemma PrefixOpensNoKey(keys: KeyTable, t: Text, v: nat, j: nat)
    requires v + 9 <= |t| && t[v..v + 9] == REDACTED_PREFIX && v <= j < v + 9
    ensures FindKey(keys, t, j).None?
  {
    hide FindKey, REDACTED_PREFIX;
    PrefixLetters(j - v);
    assert t[j] == t[v..v + 9][j - v];
    assert t[v + 2] == t[v..v + 9][2] && t[v + 6] == t[v..v + 9][6];
  }

  lemma MarkOpens(value: Text)
    requires value != [] && !(REDACTED_PREFIX <= value)
    ensures Mark(value) != [] && Mark(value)[0] == '['
  {
  }

  /** A scan that reaches an unmarked secret changes it. */
  lemma PayloadChanges(keys: KeyTable, f: bool, z: Text, w: Text)
    requires PayloadIn(keys, f, z, w)
    ensures Scan(keys, f, z + w) != z + w
  {
    var u := z + w;
    var h := Parse(keys, f, u, 0).value;
    var value := u[h.start..h.end];
    assert value[0] == u[h.start] == z[h.start];
    MarkOpens(value);
    WrittenAt(u[..h.start], Mark(value), Scan(keys, After(f, u[..h.end]), u[h.end..]));
  }

  lemma WrittenAt(a: Text, m: Text, y: Text)
    requires m != []
    ensures (a + m + y)[|a|] == m[0]
  {
  }

  /** The planted text around its first orphan. */
  function Planted(s: Text, h: Hit, z: Text): Text
    requires h.start + 9 <= |s|
  {
    s[..h.start + 9] + z + s[h.start + 9..]
  }

  lemma PlantedParse(keys: KeyTable, f: bool, s: Text, h: Hit, z: Text)
    requires Parse(keys, f, s, 0) == Some(h) && REDACTED_PREFIX <= s[h.start..h.end]
    requires forall c | c in z :: !IsTerminator(c)
    ensures h.start + 9 <= |s|
    ensures var p := Planted(s, h, z); var found := Parse(keys, f, p, 0);
      found.Some? && found.value.start == h.start && found.value.end >= h.start + 9 + |z| &&
      REDACTED_PREFIX <= p[h.start..found.value.end]
  {
    PlantedHere(s, h, z);
    var p := Planted(s, h, z);
    assert p[h.start] == s[h.start] == '[';
    assert Follows(s, p, h.start);
    ParseTransfers(keys, f, s, f, p, 0, h.start);
    KeyInterior(keys, f, s, f, p, 0);
    ParseEnd(keys, f, p, 0);
    PlantedValue(h.kind, s, h, z);
  }

  lemma PlantedValue(kind: Kind, s: Text, h: Hit, z: Text)
    requires h.start + 9 <= h.end <= |s| && REDACTED_PREFIX <= s[h.start..h.end]
    requires forall c | c in z :: !IsTerminator(c)
    ensures var p := Planted(s, h, z); var end := ValueEnd(kind, p, h.start);
      end >= h.start + 9 + |z| && REDACTED_PREFIX <= p[h.start..end]
  {
    var p := Planted(s, h, z);
    var head := s[..h.start + 9];
    assert s[h.start..h.end][..9] == s[h.start..h.start + 9] == head[h.start..];
    assert p[..h.start + 9] == head && p[h.start..h.start + 9] == p[..h.start + 9][h.start..];
    MarkedValue(kind, p, h.start);
    var end := ValueEnd(kind, p, h.start);
    forall k | h.start + 9 <= k < h.start + 9 + |z| ensures !EndsValue(kind, p[k]) {
      assert p[k] == z[k - h.start - 9];
      assert p[k] in z;
    }
  }

  /** Up to the planted text a second scan finds nothing: the key is no longer structured. */
  lemma OrphanRun(keys: KeyTable, f: bool, g: bool, s: Text, h: Hit, z: Text, w: Text)
    requires Parse(keys, f, s, 0) == Some(h) && IsOrphan(keys, g, s, h) && h.start + 9 <= |s|
    ensures var y := s[..h.start + 9] + z + w; var n := h.start + 9;
      Scan(keys, g, y) == s[..n] + Scan(keys, After(g, s[..n]), z + w)
  {
    hide Parse, After, Scan, Write;
    var n := h.start + 9;
    var y := s[..n] + z + w;
    assert s[h.start] == s[h.start..h.end][0] == '[';
    assert Agree(s, y, h.start);
    OrphanSlices(s, h, z, w);
    forall j | 0 <= j < n ensures Cold(keys, g, y, j, n) {
      if j < h.start {
        OrphanPlace(keys, g, s, h, y, j, n);
      } else {
        PrefixOpensNoKey(keys, y, h.start, j);
        NoKeyIsCold(keys, g, y, j, n);
      }
    }
    ColdRun(keys, g, y, 0, n);
    AfterNothing(g, y);
  }

  lemma NoKeyIsCold(keys: KeyTable, g: bool, t: Text, j: nat, end: nat)
    requires j <= |t| && FindKey(keys, t, j).None?
    ensures Cold(keys, g, t, j, end)
  {
  }

  lemma OrphanPlace(keys: KeyTable, g: bool, s: Text, h: Hit, y: Text, j: nat, end: nat)
    requires h.start <= h.end <= |s| && IsOrphan(keys, g, s, h)
    requires Agree(s, y, h.start) && j < h.start
    ensures Cold(keys, g, y, j, end)
  {
    assert !StructuredAt(keys, g, s, j);
    assert y[..j] == s[..j];
    var g' := After(g, s[..j]);
    if Parse(keys, g', y, j).Some? {
      ParseTransfers(keys, g', y, g', s, j, h.start);
    }
  }

  lemma OrphanSlices(s: Text, h: Hit, z: Text, w: Text)
    requires h.start + 9 <= h.end <= |s| && REDACTED_PREFIX <= s[h.start..h.end]
    ensures var n := h.start + 9; var y := s[..n] + z + w;
      y[0..n] == s[..n] && y[..n] == s[..n] && y[n..] == z + w && y[h.start..n] == REDACTED_PREFIX
  {
    var n := h.start + 9;
    var y := s[..n] + z + w;
    assert y[h.start..n] == s[h.start..n] == s[h.start..h.end][..9];
  }

  lemma OrphanBreaks(keys: KeyTable, f: bool, g: bool, s: Text, h: Hit, z: Text)
    requires Parse(keys, f, s, 0) == Some(h) && IsOrphan(keys, g, s, h) && IsPayload(keys, z)
    ensures h.start + 9 <= |s|
    ensures var y := Scan(keys, f, Planted(s, h, z)); Scan(keys, g, y) != y
  {
    hide Parse, After, Scan, Write;
    PlantedParse(keys, f, s, h, z);
    var p := Planted(s, h, z);
    var n := h.start + 9;
    var end := Parse(keys, f, p, 0).value.end;
    CopyStep(keys, f, p);
    var rest := Scan(keys, After(f, p[..end]), p[end..]);
    var w := p[n + |z|..end] + rest;
    PlantedCopy(s, h, z, end, rest);
    OrphanRun(keys, f, g, s, h, z, w);
    assert PayloadIn(keys, After(g, s[..n]), z, w);
    PayloadChanges(keys, After(g, s[..n]), z, w);
    BehindDiffers(s[..n], Scan(keys, After(g, s[..n]), z + w), z + w);
    assert s[..n] + (z + w) == s[..n] + z + w;
  }

  lemma BehindDiffers(a: Text, x: Text, y: Text)
    requires x != y
    ensures a + x != a + y
  {
    assert (a + x)[|a|..] == x && (a + y)[|a|..] == y;
  }

  lemma PlantedCopy(s: Text, h: Hit, z: Text, end: nat, rest: Text)
    requires h.start + 9 <= |s| && h.start + 9 + |z| <= end <= |Planted(s, h, z)|
    ensures var n := h.start + 9; var p := Planted(s, h, z);
      p[..end] + rest == s[..n] + z + (p[n + |z|..end] + rest)
  {
    var n := h.start + 9;
    var p := Planted(s, h, z);
    assert p[..n] == s[..n] && p[n..n + |z|] == z;
    Slices(p, 0, n, end);
    Slices(p, n, n + |z|, end);
    assert p[0..end] == p[..end] && p[0..n] == p[..n];
  }

  lemma {:induction false} OrphanIsInside(keys: KeyTable, f: bool, g: bool, s: Text)
    requires !NoOrphan(keys, f, g, s)
    ensures PlantAt(keys, f, g, s) > 0
  {
  }

  /** A step in front of the first orphan reads the same once the text is planted. */
  lemma SameStep(keys: KeyTable, f: bool, g: bool, s: Text, p: Text, d: nat)
    requires s != [] && p != [] && Agree(s, p, d) && Agree(p, s, d)
    requires NextPlace(Parse(keys, f, s, 0)) < d
    ensures Parse(keys, f, p, 0) == Parse(keys, f, s, 0)
  {
    var found := Parse(keys, f, s, 0);
    if found.Some? {
      ParseEnd(keys, f, s, 0);
      var h := found.value;
      ParseTransfers(keys, f, s, f, p, 0, d);
      ParseEnd(keys, f, p, 0);
      SameEndInside(h.kind, s, p, h.start, h.end);
    } else if Parse(keys, f, p, 0).Some? {
      ParseTransfers(keys, f, p, f, s, 0, d);
    }
  }

  lemma {:induction false} SameEndInside(kind: Kind, s: Text, t: Text, v: nat, end: nat)
    requires v <= end < |s| && end < |t| && ValueEnd(kind, s, v) == end
    requires forall j | v <= j <= end :: s[j] == t[j]
    ensures ValueEnd(kind, t, v) == end
    decreases end - v
  {
    if v < end {
      SameEndInside(kind, s, t, v + 1, end);
    }
  }

  lemma SameHeld(keys: KeyTable, g: bool, s: Text, p: Text, d: nat, start: nat)
    requires Agree(p, s, d) && start < d && Held(keys, g, s, start)
    ensures Held(keys, g, p, start)
  {
    hide Parse, After;
    var j :| 0 <= j < start && StructuredAt(keys, g, s, j);
    assert p[..j] == s[..j];
    ParseTransfers(keys, After(g, s[..j]), s, After(g, s[..j]), p, j, d);
    assert StructuredAt(keys, g, p, j);
  }

  lemma AgreeingSlices(s: Text, p: Text, d: nat, a: nat, b: nat)
    requires Agree(s, p, d) && a <= b < d
    ensures b <= |p| && p[a..b] == s[a..b] && p[..a] == s[..a] && p[..b] == s[..b]
  {
  }

  /** One step of the two passes over a planted text, in front of its first orphan. */
  lemma PlantedStep(keys: KeyTable, f: bool, g: bool, s: Text, p: Text, d: nat)
    requires (g ==> f) && s != [] && p != [] && Agree(s, p, d) && Agree(p, s, d)
    requires NextPlace(Parse(keys, f, s, 0)) < d && !FoundOrphan(keys, g, s, Parse(keys, f, s, 0))
    ensures var found := Parse(keys, f, s, 0); var k := NextPlace(found);
      var m := if found.Some? then Segment(s, found.value) else s[..1];
      var y := Scan(keys, After(f, s[..k]), p[k..]);
      k <= |p| && Scan(keys, f, p) == m + y && Scan(keys, g, m + y) == m + Scan(keys, After(g, m), y)
  {
    hide Parse, Scan, Write, After, Agree, Held, Mark;
    SameStep(keys, f, g, s, p, d);
    var found := Parse(keys, f, s, 0);
    var k := NextPlace(found);
    AgreeingSlices(s, p, d, 0, k);
    if found.Some? {
      var h := found.value;
      AgreeingSlices(s, p, d, h.start, h.end);
      if REDACTED_PREFIX <= s[h.start..h.end] {
        SameHeld(keys, g, s, p, d, h.start);
      }
      StepHit(keys, f, g, p, h);
    } else {
      StepNone(keys, f, g, p);
    }
  }

  lemma {:induction false} PlantBreaks(keys: KeyTable, f: bool, g: bool, s: Text, z: Text)
    requires (g ==> f) && !NoOrphan(keys, f, g, s) && IsPayload(keys, z)
    ensures var y := Scan(keys, f, Plant(keys, f, g, s, z)); Scan(keys, g, y) != y
    decreases |s|
  {
    var found := Parse(keys, f, s, 0);
    if FoundOrphan(keys, g, s, found) {
      PlantHere(keys, f, g, s, z);
      OrphanBreaks(keys, f, g, s, found.value, z);
    } else {
      PlantBreaksBehind(keys, f, g, s, z);
    }
  }

  lemma {:induction false} PlantBreaksBehind(keys: KeyTable, f: bool, g: bool, s: Text, z: Text)
    requires (g ==> f) && !NoOrphan(keys, f, g, s) && IsPayload(keys, z)
    requires !FoundOrphan(keys, g, s, Parse(keys, f, s, 0))
    ensures var y := Scan(keys, f, Plant(keys, f, g, s, z)); Scan(keys, g, y) != y
    decreases |s|, 0
  {
    hide Parse, Scan, Write, After, Held, Plant, PlantAt, NoOrphan, IsPayload;
    assert s != [] by { EmptyHasNoOrphan(keys, f, g); }
    var found := Parse(keys, f, s, 0);
    var k := NextPlace(found);
    var f1, g1 := After(f, s[..k]), Written(g, s, found);
    var p, p1 := Plant(keys, f, g, s, z), Plant(keys, f1, g1, s[k..], z);
    PlantStep(keys, f, g, s, z);
    StepHyphen(keys, f, g, s);
    OrphanIsInside(keys, f1, g1, s[k..]);
    PlantAgrees(keys, f, g, s, z);
    PlantedStep(keys, f, g, s, p, PlantAt(keys, f, g, s));
    assert p[k..] == p1;
    PlantBreaks(keys, f1, g1, s[k..], z);
    var m := if found.Some? then Segment(s, found.value) else s[..1];
    BehindDiffers(m, Scan(keys, g1, Scan(keys, f1, p1)), Scan(keys, f1, p1));
  }

  lemma EmptyHasNoOrphan(keys: KeyTable, f: bool, g: bool)
    ensures NoOrphan(keys, f, g, [])
  {
  }

  lemma StepHyphen(keys: KeyTable, f: bool, g: bool, s: Text)
    requires (g ==> f) && s != []
    ensures var found := Parse(keys, f, s, 0);
      Written(g, s, found) ==> After(f, s[..NextPlace(found)])
  {
    var found := Parse(keys, f, s, 0);
    if found.Some? {
      SegmentHyphen(keys, f, g, s, found.value);
    } else {
      AfterMonotone(g, f, s[..1]);
    }
  }

  // ---------------------------------------------------------------------------------------------
  // The real key table

  const PAYLOAD: Text := "rpcpass=0"

  lemma EarlierEntries(k: nat)
    requires k < 16
    ensures |ANCHOR_TABLE[k].name| > 0 && ANCHOR_TABLE[k].name[0] != 'r' && Lower(ANCHOR_TABLE[k].name[0]) != 'r'
  {
    if k < 8 { FirstEntries(k); } else { NextEntries(k); }
  }

  lemma FirstEntries(k: nat)
    requires k < 8
    ensures |ANCHOR_TABLE[k].name| > 0 && ANCHOR_TABLE[k].name[0] in {'c', 's'}
  {
  }

  lemma NextEntries(k: nat)
    requires 8 <= k < 16
    ensures |ANCHOR_TABLE[k].name| > 0 && ANCHOR_TABLE[k].name[0] in {'c', 'w'}
  {
  }

  lemma TheEntry()
    ensures |ANCHOR_TABLE| == 20 && ANCHOR_TABLE[17] == Entry("rpcpass", Token)
    ensures |ANCHOR_TABLE[16].name| > 7 && ANCHOR_TABLE[16].name[7] == 'w'
  {
  }

  /** `rpcpass`, followed by something else than `rpcpassword` is. */
  predicate AtRpcPass(u: Text) {
    && |u| > 8 && u[7] != 'w' && u[7] != 'W'
    && u[0] == 'r' && u[1] == 'p' && u[2] == 'c' && u[3] == 'p' && u[4] == 'a' && u[5] == 's' && u[6] == 's'
  }

  lemma NotEarlier(u: Text, k: nat)
    requires AtRpcPass(u) && k < 16
    ensures !MatchesCi(u, 0, ANCHOR_TABLE[k].name)
  {
    EarlierEntries(k);
    assert Lower(u[0 + 0]) != Lower(ANCHOR_TABLE[k].name[0]);
  }

  lemma NotLonger(u: Text)
    requires AtRpcPass(u)
    ensures !MatchesCi(u, 0, ANCHOR_TABLE[16].name)
  {
    TheEntry();
    assert Lower(u[0 + 7]) != Lower(ANCHOR_TABLE[16].name[7]);
  }

  lemma IsRpcPass(u: Text)
    requires AtRpcPass(u)
    ensures MatchesCi(u, 0, "rpcpass")
  {
  }

  lemma KeyOfEntry(keys: KeyTable, u: Text, k: nat)
    requires k < |keys| && MatchesCi(u, 0, keys[k].name)
    requires forall m | 0 <= m < k :: !MatchesCi(u, 0, keys[m].name)
    ensures FindKey(keys, u, 0) == Some(Key(keys[k].kind, |keys[k].name|))
  {
    assert FindEntry(keys, u, 0, 0) == Some(k);
  }

  lemma RpcPassKey(u: Text)
    requires AtRpcPass(u)
    ensures FindKey(SECRET_ANCHORS, u, 0) == Some(Key(Token, 7))
  {
    hide FindKey, MatchesCi;
    TheEntry();
    IsRpcPass(u);
    forall k | 0 <= k < 17 ensures !MatchesCi(u, 0, SECRET_ANCHORS[k].name) {
      if k < 16 { NotEarlier(u, k); } else { NotLonger(u); }
    }
    KeyOfEntry(SECRET_ANCHORS, u, 17);
  }

  /** All that the examples need of a key table. */
  ghost predicate KnowsRpcPass(keys: KeyTable) {
    forall u: Text | AtRpcPass(u) :: FindKey(keys, u, 0) == Some(Key(Token, 7))
  }

  lemma RpcPassIsKnown()
    ensures KnowsRpcPass(SECRET_ANCHORS)
  {
    forall u: Text | AtRpcPass(u) ensures FindKey(SECRET_ANCHORS, u, 0) == Some(Key(Token, 7)) {
      RpcPassKey(u);
    }
  }

  lemma RpcPassParse(keys: KeyTable, f: bool, u: Text)
    requires KnowsRpcPass(keys) && AtRpcPass(u)
    ensures Parse(keys, f, u, 0) == HitAt(Token, u, ValueStart(f, u, 7))
  {
  }

  /** The value of `rpcpass=` and one byte that needs no quoting. */
  lemma RpcPassValue(f: bool, u: Text)
    requires AtRpcPass(u) && u[7] == '=' && (u[8] == '0' || u[8] == '-')
    ensures ValueStart(f, u, 7) == Some(8) && ValueEnd(Token, u, 8) > 8
    ensures |u| > 9 && u[9] == ' ' ==> ValueEnd(Token, u, 8) == 9
  {
  }

  lemma PayloadIsUnmarked(keys: KeyTable, f: bool, w: Text)
    requires KnowsRpcPass(keys)
    ensures PayloadIn(keys, f, PAYLOAD, w)
  {
    hide FindKey;
    RpcPassParse(keys, f, PAYLOAD + w);
    RpcPassValue(f, PAYLOAD + w);
  }

  lemma PayloadBytes()
    ensures forall c | c in PAYLOAD :: !IsTerminator(c)
  {
  }

  lemma PayloadWorks(keys: KeyTable)
    requires KnowsRpcPass(keys)
    ensures IsPayload(keys, PAYLOAD)
  {
    hide FindKey, PayloadIn;
    PayloadBytes();
    forall f: bool, w: Text ensures PayloadIn(keys, f, PAYLOAD, w) {
      PayloadIsUnmarked(keys, f, w);
    }
  }

  // ---------------------------------------------------------------------------------------------
  // Main results

  /** No already-marked value of the text hangs on a hyphen that the pass takes away. */
  predicate OrphanFree(value: Text) {
    NoOrphan(SECRET_ANCHORS, false, false, value)
  }

  /** `value` with `z` inserted behind the marker of its first orphan, if it has one. */
  function BehindOrphan(value: Text, z: Text): Text {
    Plant(SECRET_ANCHORS, false, false, value, z)
  }

  predicate Idempotent(value: Text) {
    RedactAnchored(RedactAnchored(value)) == RedactAnchored(value)
  }

  lemma OrphanFreeSettles(value: Text)
    requires OrphanFree(value)
    ensures Idempotent(value)
  {
    Settles(SECRET_ANCHORS, false, false, value);
  }

  /** The guard is exact: a text is orphan-free iff the pass is idempotent on it whatever is
      inserted behind the marker of an orphan. */
  lemma OrphanFreeIff(value: Text)
    ensures OrphanFree(value) <==> forall z: Text :: Idempotent(BehindOrphan(value, z))
  {
    hide Idempotent;
    if OrphanFree(value) {
      forall z: Text ensures Idempotent(BehindOrphan(value, z)) {
        PlantNothing(SECRET_ANCHORS, false, false, value, z);
        OrphanFreeSettles(value);
      }
    } else {
      PlantedFails(value);
    }
  }

  lemma PlantedFails(value: Text)
    requires !OrphanFree(value)
    ensures !Idempotent(BehindOrphan(value, PAYLOAD))
  {
    RpcPassIsKnown();
    PayloadWorks(SECRET_ANCHORS);
    PlantBreaks(SECRET_ANCHORS, false, false, value, PAYLOAD);
  }

  // ---------------------------------------------------------------------------------------------
  // A text on which the pass is not idempotent

  /** A key in space form, with nothing but a marker for a value. */
  predicate IsSpaced(u: Text) {
    |u| == 17 && AtRpcPass(u) && u[7] == ' ' && u[8..17] == REDACTED_PREFIX
  }

  lemma SpaceFormValue(f: bool, u: Text)
    requires IsSpaced(u)
    ensures ValueStart(f, u, 7) == if f then Some(8) else None
    ensures ValueEnd(Token, u, 8) == 17
  {
    assert u[8] == u[8..17][0] == '[';
    MarkedValue(Token, u, 8);
  }

  lemma SpaceFormParse(keys: KeyTable, f: bool, u: Text)
    requires KnowsRpcPass(keys) && IsSpaced(u)
    ensures Parse(keys, f, u, 0) == if f then Some(Hit(Token, 8, 17)) else None
  {
    hide FindKey, ValueStart, ValueEnd;
    RpcPassParse(keys, f, u);
    SpaceFormValue(f, u);
  }

  lemma SpaceFormInterior(keys: KeyTable, u: Text, f: bool, j: nat)
    requires IsSpaced(u) && 1 <= j < 8
    ensures Parse(keys, f, u, j).None?
  {
    assert u[8] == u[8..17][0] == '[';
    assert !OpensAnchor(Lower(u[j]), Lower(u[j + 1]));
  }

  lemma SpaceFormIsOrphan(keys: KeyTable, u: Text)
    requires KnowsRpcPass(keys) && IsSpaced(u)
    ensures IsOrphan(keys, false, u, Hit(Token, 8, 17))
  {
    hide Parse;
    forall j | 0 <= j < 8 ensures !StructuredAt(keys, false, u, j) {
      if j == 0 {
        AfterNothing(false, u);
        SpaceFormParse(keys, false, u);
      } else {
        SpaceFormInterior(keys, u, After(false, u[..j]), j);
      }
    }
    SpacedMarker(u);
  }

  lemma SpacedMarker(u: Text)
    requires IsSpaced(u)
    ensures u[8..17] == REDACTED_PREFIX
  {
  }

  lemma PlantSpaced(keys: KeyTable, u: Text, z: Text)
    requires KnowsRpcPass(keys) && IsSpaced(u)
    ensures !NoOrphan(keys, true, false, u) && Plant(keys, true, false, u, z) == u + z
  {
    hide Parse, IsOrphan;
    SpaceFormParse(keys, true, u);
    SpaceFormIsOrphan(keys, u);
    PlantHere(keys, true, false, u, z);
    assert u[..17] == u && u[17..] == "";
  }

  lemma PlantBlank(keys: KeyTable, s: Text, z: Text)
    requires s != [] && s[0] == ' '
    ensures NoOrphan(keys, true, false, s) == NoOrphan(keys, true, false, s[1..])
    ensures Plant(keys, true, false, s, z) == s[..1] + Plant(keys, true, false, s[1..], z)
  {
    hide Parse, Plant, NoOrphan;
    BlankOpensNothing(keys, s);
    PlantStep(keys, true, false, s, z);
    AfterNext(true, s, 0);
    AfterNext(false, s, 0);
  }

  lemma BlankOpensNothing(keys: KeyTable, s: Text)
    requires s != [] && s[0] == ' '
    ensures Parse(keys, true, s, 0).None?
  {
  }

  /** `rpcpass=-` and a blank. */
  predicate IsHyphened(s: Text) {
    |s| > 9 && AtRpcPass(s) && s[7] == '=' && s[8] == '-' && s[9] == ' '
  }

  lemma HyphenedHyphens(s: Text)
    requires IsHyphened(s)
    ensures var h := Hit(Token, 8, 9);
      After(false, s[..9]) && !After(false, Segment(s, h)) && !(REDACTED_PREFIX <= s[8..9])
  {
    AfterNext(false, s, 8);
    assert s[8..9] == ['-'];
    var key, marker := s[..8], Redaction(1, REDACTED);
    MarkIsQuiet(1);
    forall c | c in key ensures !IsNewline(c) && c != '-' {
      var j :| 0 <= j < 8 && key[j] == c;
      assert c == s[j];
    }
    AfterKeepsHyphen(false, key);
    AfterKeepsHyphen(false, marker);
    AfterConcat(false, key, marker);
  }

  lemma HyphenedParse(keys: KeyTable, s: Text)
    requires KnowsRpcPass(keys) && IsHyphened(s)
    ensures Parse(keys, false, s, 0) == Some(Hit(Token, 8, 9))
  {
    hide FindKey, ValueStart, ValueEnd;
    RpcPassParse(keys, false, s);
    RpcPassValue(false, s);
  }

  lemma PlantHyphened(keys: KeyTable, s: Text, z: Text)
    requires KnowsRpcPass(keys) && IsHyphened(s)
    ensures NoOrphan(keys, false, false, s) == NoOrphan(keys, true, false, s[9..])
    ensures Plant(keys, false, false, s, z) == s[..9] + Plant(keys, true, false, s[9..], z)
  {
    hide Parse, Held, Segment, After, Plant, NoOrphan;
    HyphenedParse(keys, s);
    HyphenedHyphens(s);
    PlantStep(keys, false, false, s, z);
  }

  /** The hyphen that structures the second key is the value of the first. */
  lemma OrphanedText(keys: KeyTable, s: Text, z: Text)
    requires KnowsRpcPass(keys) && IsHyphened(s) && IsSpaced(s[10..])
    ensures !NoOrphan(keys, false, false, s) && Plant(keys, false, false, s, z) == s + z
  {
    hide Plant, NoOrphan, IsSpaced;
    PlantHyphened(keys, s, z);
    assert s[9..][1..] == s[10..] && s[9..][0] == ' ';
    PlantBlank(keys, s[9..], z);
    PlantSpaced(keys, s[10..], z);
    assert s[..9] + (s[9..][..1] + (s[10..] + z)) == s + z;
  }

  lemma ExampleBytes()
    ensures var s := "rpcpass=- rpcpass [REDACTED"; IsHyphened(s) && IsSpaced(s[10..])
    ensures "rpcpass=- rpcpass [REDACTED" + PAYLOAD == "rpcpass=- rpcpass [REDACTEDrpcpass=0"
  {
    assert "rpcpass=- rpcpass [REDACTED"[10..] == "rpcpass [REDACTED";
    assert "rpcpass [REDACTED"[8..17] == REDACTED_PREFIX;
  }

  /** The pass is not idempotent: its second run on this text redacts the `0`. */
  lemma NotIdempotent()
    ensures !Idempotent("rpcpass=- rpcpass [REDACTEDrpcpass=0")
  {
    hide Plant, NoOrphan, Idempotent;
    RpcPassIsKnown();
    ExampleBytes();
    OrphanedText(SECRET_ANCHORS, "rpcpass=- rpcpass [REDACTED", PAYLOAD);
    PlantedFails("rpcpass=- rpcpass [REDACTED");
  }
}
