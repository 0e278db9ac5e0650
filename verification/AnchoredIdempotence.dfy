/** When redacting anchored values twice is the same as redacting them once. */
module AnchoredIdempotence {
  import opened AnchoredKeys
  import opened AnchoredRuns
  import opened AnchoredScan
  import opened Options
  import opened Search
  import opened Utf8

  // ---------------------------------------------------------------------------------------------
  // Where the output first differs from the input

  /** How far the pass copies before its first new marker; the whole text when it writes none. */
  function FirstEdit(keys: KeyTable, f: bool, s: Text): (d: nat)
    ensures d <= |s|
    decreases |s|
  {
    if s == [] then 0
    else match Parse(keys, f, s, 0)
      case None => 1 + FirstEdit(keys, Update(f, s[0]), s[1..])
      case Some(h) =>
        if IsMarked(s[h.start..h.end]) then h.end + FirstEdit(keys, After(f, s[..h.end]), s[h.end..])
        else h.start
  }

  lemma AgreeBehind(s: Text, k: nat, t: Text, d: nat, u: Text)
    requires k <= |s| && Agree(s[k..], t, d) && u == s[..k] + t
    ensures Agree(s, u, k + d)
  {
    forall j | 0 <= j < k + d ensures s[j] == u[j] {
      if j >= k {
        assert s[j] == s[k..][j - k] && u[j] == t[j - k];
      }
    }
    assert d < |t| ==> u[k + d] == t[d];
  }

  lemma AgreeAtMarker(s: Text, h: Hit, length: nat, rest: Text)
    requires h.start <= |s|
    ensures Agree(s, s[..h.start] + Redaction(length, REDACTED) + rest, h.start)
  {
  }

  predicate Copies(s: Text, found: Option<Hit>)
    requires found.Some? ==> found.value.start <= found.value.end <= |s|
  {
    found.Some? ==> IsMarked(s[found.value.start..found.value.end])
  }

  function NextPlace(found: Option<Hit>): nat {
    if found.Some? then found.value.end else 1
  }

  /** A step that writes no marker copies what it passes over. */
  lemma CopyStep(keys: KeyTable, f: bool, s: Text)
    requires s != [] && Copies(s, Parse(keys, f, s, 0))
    ensures var next := NextPlace(Parse(keys, f, s, 0));
      next <= |s| && Scan(keys, f, s) == s[..next] + Scan(keys, After(f, s[..next]), s[next..])
  {
    var found := Parse(keys, f, s, 0);
    ColdStep(keys, f, s, 0, found);
    assert s[0..] == s && s[..0] == [];
    assert s[0..NextPlace(found)] == s[..NextPlace(found)];
  }

  lemma {:induction false} FirstEditAgrees(keys: KeyTable, f: bool, s: Text)
    ensures Agree(s, Scan(keys, f, s), FirstEdit(keys, f, s))
    decreases |s|
  {
    if s != [] {
      var found := Parse(keys, f, s, 0);
      if Copies(s, found) {
        var next := NextPlace(found);
        FirstEditAgrees(keys, After(f, s[..next]), s[next..]);
        AgreesAfterCopy(keys, f, s);
      } else {
        AgreesAtEdit(keys, f, s);
      }
    }
  }

  lemma AgreesAtEdit(keys: KeyTable, f: bool, s: Text)
    requires s != [] && !Copies(s, Parse(keys, f, s, 0))
    ensures Agree(s, Scan(keys, f, s), FirstEdit(keys, f, s))
  {
    var h := Parse(keys, f, s, 0).value;
    AgreeAtMarker(s, h, h.end - h.start, Scan(keys, After(f, s[..h.end]), s[h.end..]));
  }

  lemma AgreesAfterCopy(keys: KeyTable, f: bool, s: Text)
    requires s != [] && Copies(s, Parse(keys, f, s, 0))
    requires var next := NextPlace(Parse(keys, f, s, 0)); var g := After(f, s[..next]);
      Agree(s[next..], Scan(keys, g, s[next..]), FirstEdit(keys, g, s[next..]))
    ensures Agree(s, Scan(keys, f, s), FirstEdit(keys, f, s))
  {
    hide Scan, Parse, FirstEdit;
    var next := NextPlace(Parse(keys, f, s, 0));
    var g := After(f, s[..next]);
    CopyStep(keys, f, s);
    FirstEditStep(keys, f, s);
    AgreeBehind(s, next, Scan(keys, g, s[next..]), FirstEdit(keys, g, s[next..]), Scan(keys, f, s));
  }

  lemma FirstEditStep(keys: KeyTable, f: bool, s: Text)
    requires s != [] && Copies(s, Parse(keys, f, s, 0))
    ensures var next := NextPlace(Parse(keys, f, s, 0));
      FirstEdit(keys, f, s) == next + FirstEdit(keys, After(f, s[..next]), s[next..])
  {
    AfterNext(f, s, 0);
  }

  // ---------------------------------------------------------------------------------------------
  // One step of the two passes

  /** A byte that opened no secret opens none in the output. */
  lemma StepNone(keys: KeyTable, f: bool, f': bool, s: Text)
    requires (f' ==> f) && s != [] && Parse(keys, f, s, 0).None?
    ensures var y := Scan(keys, After(f, s[..1]), s[1..]);
      Scan(keys, f, s) == s[..1] + y &&
      Scan(keys, f', s[..1] + y) == s[..1] + Scan(keys, After(f', s[..1]), y)
  {
    var y := Scan(keys, After(f, s[..1]), s[1..]);
    CopyStep(keys, f, s);
    var t := s[..1] + y;
    FirstEditAgrees(keys, f, s);
    if Parse(keys, f', t, 0).Some? {
      ParseTransfers(keys, f', t, f, s, 0, FirstEdit(keys, f, s));
    }
    CopyStep(keys, f', t);
    assert t[..1] == s[..1] && t[1..] == y;
  }

  /** What the pass writes for a secret. */
  function Segment(s: Text, h: Hit): Text
    requires h.start <= h.end <= |s|
  {
    s[..h.start] + Mark(s[h.start..h.end])
  }

  lemma StepWrites(keys: KeyTable, f: bool, s: Text, h: Hit)
    requires Parse(keys, f, s, 0) == Some(h)
    ensures Scan(keys, f, s) == Segment(s, h) + Scan(keys, After(f, s[..h.end]), s[h.end..])
  {
  }

  /** `z` goes on after the secret as `s` does: with the byte that ended the value, or not at all. */
  predicate GoesOn(s: Text, h: Hit, z: Text)
    requires h.end <= |s|
  {
    if h.end == |s| then z == [] else z != [] && z[0] == s[h.end]
  }

  /** A byte that opens no key is copied. */
  lemma ScanHead(keys: KeyTable, f: bool, s: Text)
    requires s != [] && !OpensWith(s[0])
    ensures Scan(keys, f, s) != [] && Scan(keys, f, s)[0] == s[0]
  {
    CopyStep(keys, f, s);
  }

  lemma TailGoesOn(keys: KeyTable, f: bool, s: Text, h: Hit, g: bool)
    requires Parse(keys, f, s, 0) == Some(h)
    ensures GoesOn(s, h, Scan(keys, g, s[h.end..]))
  {
    if h.end < |s| {
      assert EndsValue(h.kind, s[h.end]);
      ScanHead(keys, g, s[h.end..]);
    }
  }

  /** Every place of a segment that carries a new marker, or an empty value, is cold. */
  lemma SegmentCold(keys: KeyTable, f: bool, g: bool, s: Text, h: Hit, z: Text, j: nat)
    requires Parse(keys, f, s, 0) == Some(h) && GoesOn(s, h, z)
    requires !(REDACTED_PREFIX <= s[h.start..h.end]) && j < |Segment(s, h)|
    ensures Cold(keys, g, Segment(s, h) + z, j, |Segment(s, h)|)
  {
    var m := Segment(s, h);
    var t := m + z;
    if j >= h.start {
      assert t[h.start..|m|] == Redaction(h.end - h.start, REDACTED);
      MarkerOpensNoKey(keys, t, h.start, h.end - h.start, j);
    } else if Parse(keys, After(g, t[..j]), t, j).Some? {
      SegmentFollows(s, h, z);
      KeyInterior(keys, f, s, After(g, t[..j]), t, j);
      SegmentValue(s, h, z);
    }
  }

  lemma SegmentFollows(s: Text, h: Hit, z: Text)
    requires 0 < h.start <= h.end <= |s| && GoesOn(s, h, z)
    ensures Follows(s, Segment(s, h) + z, h.start)
  {
    var t := Segment(s, h) + z;
    assert forall j | 0 <= j < h.start :: s[j] == t[j];
    if h.start == h.end {
      assert h.end < |s| ==> t[h.start] == z[0];
    } else if REDACTED_PREFIX <= s[h.start..h.end] {
      assert t[h.start] == s[h.start..h.end][0] == '[';
    } else {
      assert t[h.start] == REDACTED[0];
    }
  }

  lemma PrefixBytes(k: nat)
    requires k < 9
    ensures 'A' <= REDACTED_PREFIX[k] <= '['
  {
  }

  /** A value that opens with the marker runs at least to the end of its name. */
  lemma MarkedValue(kind: Kind, t: Text, v: nat)
    requires v + 9 <= |t| && t[v..v + 9] == REDACTED_PREFIX
    ensures ValueEnd(kind, t, v) >= v + 9 && REDACTED_PREFIX <= t[v..ValueEnd(kind, t, v)]
  {
    var end := ValueEnd(kind, t, v);
    forall k | v <= k < v + 9 ensures !EndsValue(kind, t[k]) {
      PrefixBytes(k - v);
      assert t[k] == t[v..v + 9][k - v];
    }
    assert t[v..end][..9] == t[v..v + 9];
  }

  /** The value a second scan finds in such a segment. */
  lemma SegmentValue(s: Text, h: Hit, z: Text)
    requires 0 < h.start <= h.end <= |s| && GoesOn(s, h, z)
    requires h.end < |s| ==> EndsValue(h.kind, s[h.end])
    requires !(REDACTED_PREFIX <= s[h.start..h.end])
    ensures var m := Segment(s, h); var t := m + z;
      ValueEnd(h.kind, t, h.start) <= |m| && IsMarked(t[h.start..ValueEnd(h.kind, t, h.start)])
  {
    var m := Segment(s, h);
    var t := m + z;
    assert |m| < |t| ==> t[|m|] == z[0];
    if h.start < h.end {
      FreshValue(s, h, z);
    }
  }

  lemma FreshValue(s: Text, h: Hit, z: Text)
    requires 0 < h.start < h.end <= |s| && !(REDACTED_PREFIX <= s[h.start..h.end])
    ensures var t := Segment(s, h) + z; var end := ValueEnd(h.kind, t, h.start);
      REDACTED_PREFIX <= t[h.start..end] && (h.kind.Token? ==> end == h.start + 9)
  {
    var t := Segment(s, h) + z;
    var r := Redaction(h.end - h.start, REDACTED);
    assert t[h.start..h.start + |r|] == r;
    SuffixSlice(t, h.start, 0, 10);
    assert r[..10] == REDACTED && r[..9] == REDACTED_PREFIX;
    assert t[h.start..h.start + 9] == r[..9];
    MarkedValue(h.kind, t, h.start);
    assert t[h.start + 9] == r[9] == ']';
  }

  // ---------------------------------------------------------------------------------------------
  // Values that already carry a marker

  predicate StructuredAt(keys: KeyTable, f: bool, s: Text, j: nat)
    requires j <= |s|
  {
    Parse(keys, After(f, s[..j]), s, j).Some?
  }

  /** Some part of the key before `start` is still a structured key when the line began with `f`. */
  predicate Held(keys: KeyTable, f: bool, s: Text, start: nat)
    requires start <= |s|
  {
    exists j | 0 <= j < start :: StructuredAt(keys, f, s, j)
  }

  lemma ParseEnd(keys: KeyTable, f: bool, s: Text, j: nat)
    requires Parse(keys, f, s, j).Some?
    ensures var h := Parse(keys, f, s, j).value; h.end == ValueEnd(h.kind, s, h.start)
  {
  }

  lemma MarkedAgrees(s: Text, h: Hit, z: Text)
    requires h.start <= h.end <= |s| && GoesOn(s, h, z) && REDACTED_PREFIX <= s[h.start..h.end]
    ensures Agree(s, s[..h.end] + z, h.start) && Agree(s[..h.end] + z, s, h.start)
    ensures Follows(s, s[..h.end] + z, h.start)
  {
    assert s[h.start] == s[h.start..h.end][0] == '[';
  }

  /** A secret whose value is already marked reads the same in the text the pass writes. */
  lemma MarkedReads(keys: KeyTable, f: bool, g: bool, s: Text, h: Hit, z: Text, j: nat)
    requires Parse(keys, f, s, 0) == Some(h) && GoesOn(s, h, z)
    requires REDACTED_PREFIX <= s[h.start..h.end] && j < h.start
    ensures StructuredAt(keys, g, s[..h.end] + z, j) == StructuredAt(keys, g, s, j)
    ensures StructuredAt(keys, g, s, j) ==>
      Parse(keys, After(g, (s[..h.end] + z)[..j]), s[..h.end] + z, j) == Some(h)
  {
    hide Parse, After, Agree, Follows;
    ParseEnd(keys, f, s, 0);
    var t := s[..h.end] + z;
    MarkedAgrees(s, h, z);
    var f' := After(g, s[..j]);
    assert t[..j] == s[..j];
    if Parse(keys, f', t, j).Some? {
      ParseTransfers(keys, f', t, f', s, j, h.start);
    }
    if Parse(keys, f', s, j).Some? {
      ParseTransfers(keys, f', s, f', t, j, h.start);
      KeyInterior(keys, f, s, f', t, j);
      SameEnd(h.kind, s, t, h.start, h.end);
      ParseEnd(keys, f', t, j);
    }
  }

  lemma {:induction false} SameEnd(kind: Kind, s: Text, t: Text, v: nat, end: nat)
    requires v <= end <= |s| && end <= |t| && ValueEnd(kind, s, v) == end
    requires forall j | v <= j < end :: s[j] == t[j]
    requires if end == |s| then |t| == end else end < |t| && t[end] == s[end]
    ensures ValueEnd(kind, t, v) == end
    decreases end - v
  {
    if v < end {
      SameEnd(kind, s, t, v + 1, end);
    }
  }

  /** The first place at or after `k` where the key is still structured. */
  lemma {:induction false} FirstHeld(keys: KeyTable, f: bool, s: Text, k: nat, start: nat) returns (j: nat)
    requires k <= start <= |s| && exists i | k <= i < start :: StructuredAt(keys, f, s, i)
    ensures k <= j < start && StructuredAt(keys, f, s, j)
    ensures forall i | k <= i < j :: !StructuredAt(keys, f, s, i)
    decreases start - k
  {
    hide StructuredAt;
    if StructuredAt(keys, f, s, k) {
      j := k;
    } else {
      j := FirstHeld(keys, f, s, k + 1, start);
    }
  }

  /** A marked value whose key is still structured is copied whole by a second scan. */
  lemma HeldStep(keys: KeyTable, f: bool, g: bool, s: Text, h: Hit, z: Text)
    requires Parse(keys, f, s, 0) == Some(h) && GoesOn(s, h, z)
    requires REDACTED_PREFIX <= s[h.start..h.end] && Held(keys, g, s, h.start)
    ensures Scan(keys, g, s[..h.end] + z) == s[..h.end] + Scan(keys, After(g, s[..h.end]), z)
  {
    hide Parse, Scan, Write, After;
    var t := s[..h.end] + z;
    var j := FirstHeld(keys, g, s, 0, h.start);
    forall i | 0 <= i < j ensures Cold(keys, g, t, i, j) {
      MarkedReads(keys, f, g, s, h, z, i);
    }
    ColdRun(keys, g, t, 0, j);
    MarkedReads(keys, f, g, s, h, z, j);
    HeldHit(keys, g, t, j, h);
    MarkedSlices(s, h, z, j);
    Join(t[0..j], t[j..h.end], Scan(keys, After(g, t[..h.end]), t[h.end..]),
         Scan(keys, After(g, t[..j]), t[j..]), Scan(keys, After(g, t[..0]), t[0..]));
    assert After(g, t[..0]) == g by { AfterNothing(g, t); }
  }

  lemma AfterNothing(g: bool, t: Text)
    ensures After(g, t[..0]) == g && t[0..] == t
  {
  }

  lemma MarkedSlices(s: Text, h: Hit, z: Text, j: nat)
    requires j <= h.start <= h.end <= |s|
    requires REDACTED_PREFIX <= s[h.start..h.end]
    ensures var t := s[..h.end] + z;
      t[..h.end] == s[..h.end] && t[h.end..] == z && t[0..j] + t[j..h.end] == s[..h.end]
  {
    var t := s[..h.end] + z;
    Slices(t, 0, j, h.end);
  }

  lemma HeldHit(keys: KeyTable, g: bool, t: Text, j: nat, h: Hit)
    requires j < h.start <= h.end <= |t|
    requires Parse(keys, After(g, t[..j]), t, j) == Some(h) && IsMarked(t[h.start..h.end])
    ensures Scan(keys, After(g, t[..j]), t[j..]) == t[j..h.end] + Scan(keys, After(g, t[..h.end]), t[h.end..])
  {
    hide Parse, Write, After;
    ParseSuffix(keys, After(g, t[..j]), t, j);
    ColdStep(keys, g, t, j, Parse(keys, After(g, t[..j]), t[j..], 0));
  }

  /** A second scan copies what the first one wrote for a secret, and goes on behind it. */
  lemma SegmentStep(keys: KeyTable, f: bool, g: bool, s: Text, h: Hit, z: Text)
    requires Parse(keys, f, s, 0) == Some(h) && GoesOn(s, h, z)
    requires REDACTED_PREFIX <= s[h.start..h.end] ==> Held(keys, g, s, h.start)
    ensures var m := Segment(s, h); Scan(keys, g, m + z) == m + Scan(keys, After(g, m), z)
  {
    hide Parse, Scan, Write, After;
    var m := Segment(s, h);
    var t := m + z;
    if REDACTED_PREFIX <= s[h.start..h.end] {
      Slices(s, 0, h.start, h.end);
      assert s[0..h.start] == s[..h.start] && s[0..h.end] == s[..h.end];
      HeldStep(keys, f, g, s, h, z);
    } else {
      forall j | 0 <= j < |m| ensures Cold(keys, g, t, j, |m|) {
        SegmentCold(keys, f, g, s, h, z, j);
      }
      ColdRun(keys, g, t, 0, |m|);
      AfterNothing(g, t);
      assert t[0..|m|] == m && t[..|m|] == m && t[|m|..] == z;
    }
  }

  /** A step of the two passes at a secret. */
  lemma StepHit(keys: KeyTable, f: bool, g: bool, s: Text, h: Hit)
    requires Parse(keys, f, s, 0) == Some(h)
    requires REDACTED_PREFIX <= s[h.start..h.end] ==> Held(keys, g, s, h.start)
    ensures var m := Segment(s, h); var y := Scan(keys, After(f, s[..h.end]), s[h.end..]);
      Scan(keys, f, s) == m + y && Scan(keys, g, m + y) == m + Scan(keys, After(g, m), y)
  {
    TailGoesOn(keys, f, s, h, After(f, s[..h.end]));
    SegmentStep(keys, f, g, s, h, Scan(keys, After(f, s[..h.end]), s[h.end..]));
  }

  /** No hyphen is seen in the output that was not in the input. */
  lemma SegmentHyphen(keys: KeyTable, f: bool, g: bool, s: Text, h: Hit)
    requires (g ==> f) && Parse(keys, f, s, 0) == Some(h)
    ensures After(g, Segment(s, h)) ==> After(f, s[..h.end])
  {
    var a, old', m := s[..h.start], s[h.start..h.end], Mark(s[h.start..h.end]);
    Slices(s, 0, h.start, h.end);
    assert s[0..h.start] == a && s[0..h.end] == s[..h.end];
    AfterConcat(f, a, old');
    AfterConcat(g, a, m);
    AfterMonotone(g, f, a);
    if IsMarked(old') {
      AfterMonotone(After(g, a), After(f, a), old');
    } else {
      ValueOnOneLine(h.kind, s, h.start);
      MarkIsQuiet(h.end - h.start);
      AfterKeepsHyphen(After(f, a), old');
      AfterKeepsHyphen(After(g, a), m);
    }
  }

  lemma ValueOnOneLine(kind: Kind, s: Text, v: nat)
    requires v <= |s|
    ensures OnOneLine(s[v..ValueEnd(kind, s, v)])
  {
  }

  lemma MarkIsQuiet(n: nat)
    ensures var m := Redaction(n, REDACTED); OnOneLine(m) && '-' !in m
  {
    var m := Redaction(n, REDACTED);
    forall c | c in m ensures !IsNewline(c) && c != '-' {
      assert c in REDACTED || c == '*';
    }
  }

  // ---------------------------------------------------------------------------------------------
  // Exactly when the pass settles

  /** The value of the secret `h` is already marked, and its key is structured for the first pass
      alone: the hyphen that made it a command-line key is gone from what the pass has written. */
  predicate IsOrphan(keys: KeyTable, g: bool, s: Text, h: Hit)
    requires h.start <= h.end <= |s|
  {
    REDACTED_PREFIX <= s[h.start..h.end] && !Held(keys, g, s, h.start)
  }

  /** No marked value of the text is an orphan. `f` is the hyphen of the line as the pass reads it,
      `g` as it has written it; both can be computed in one pass over the input. */
  predicate NoOrphan(keys: KeyTable, f: bool, g: bool, s: Text)
    decreases |s|
  {
    s == [] ||
    match Parse(keys, f, s, 0)
    case None => NoOrphan(keys, After(f, s[..1]), After(g, s[..1]), s[1..])
    case Some(h) =>
      !IsOrphan(keys, g, s, h) &&
      NoOrphan(keys, After(f, s[..h.end]), After(g, Segment(s, h)), s[h.end..])
  }

  /** Without orphans the pass leaves its own output alone. */
  lemma {:induction false} Settles(keys: KeyTable, f: bool, g: bool, s: Text)
    requires (g ==> f) && NoOrphan(keys, f, g, s)
    ensures Scan(keys, g, Scan(keys, f, s)) == Scan(keys, f, s)
    decreases |s|
  {
    hide Parse, After, Held;
    if s != [] {
      match Parse(keys, f, s, 0)
      case None =>
        StepNone(keys, f, g, s);
        AfterMonotone(g, f, s[..1]);
        Settles(keys, After(f, s[..1]), After(g, s[..1]), s[1..]);
      case Some(h) =>
        StepHit(keys, f, g, s, h);
        SegmentHyphen(keys, f, g, s, h);
        Settles(keys, After(f, s[..h.end]), After(g, Segment(s, h)), s[h.end..]);
    }
  }

  /** The text with `z` inserted right behind the marker of its first orphan; without orphans, the
      text itself. */
  function Plant(keys: KeyTable, f: bool, g: bool, s: Text, z: Text): Text
    decreases |s|
  {
    if s == [] then []
    else match Parse(keys, f, s, 0)
      case None => s[..1] + Plant(keys, After(f, s[..1]), After(g, s[..1]), s[1..], z)
      case Some(h) =>
        if IsOrphan(keys, g, s, h) then s[..h.start + 9] + z + s[h.start + 9..]
        else s[..h.end] + Plant(keys, After(f, s[..h.end]), After(g, Segment(s, h)), s[h.end..], z)
  }

  /** Where the planted text goes in. */
  function PlantAt(keys: KeyTable, f: bool, g: bool, s: Text): (d: nat)
    ensures d <= |s|
    decreases |s|
  {
    if s == [] then 0
    else match Parse(keys, f, s, 0)
      case None => 1 + PlantAt(keys, After(f, s[..1]), After(g, s[..1]), s[1..])
      case Some(h) =>
        if IsOrphan(keys, g, s, h) then h.start
        else h.end + PlantAt(keys, After(f, s[..h.end]), After(g, Segment(s, h)), s[h.end..])
  }

  lemma AgreeBack(s: Text, k: nat, t: Text, d: nat, u: Text)
    requires k <= |s| && Agree(t, s[k..], d) && u == s[..k] + t
    ensures Agree(u, s, k + d)
  {
    forall j | 0 <= j < k + d ensures s[j] == u[j] {
      if j >= k {
        assert s[j] == s[k..][j - k] && u[j] == t[j - k];
      }
    }
    assert d < |s[k..]| ==> s[k + d] == s[k..][d];
  }

  lemma PlantedHere(s: Text, h: Hit, z: Text)
    requires h.start <= h.end <= |s| && REDACTED_PREFIX <= s[h.start..h.end]
    ensures var p := s[..h.start + 9] + z + s[h.start + 9..]; Agree(s, p, h.start) && Agree(p, s, h.start)
    ensures h.start + 9 <= h.end
  {
    assert s[h.start] == s[h.start..h.end][0] == '[';
  }

  predicate FoundOrphan(keys: KeyTable, g: bool, s: Text, found: Option<Hit>)
    requires found.Some? ==> found.value.start <= found.value.end <= |s|
  {
    found.Some? && IsOrphan(keys, g, s, found.value)
  }

  /** The hyphen of the written line after a step. */
  function Written(g: bool, s: Text, found: Option<Hit>): bool
    requires s != [] && (found.Some? ==> found.value.start <= found.value.end <= |s|)
  {
    After(g, if found.Some? then Segment(s, found.value) else s[..1])
  }

  lemma PlantStep(keys: KeyTable, f: bool, g: bool, s: Text, z: Text)
    requires s != [] && !FoundOrphan(keys, g, s, Parse(keys, f, s, 0))
    ensures var found := Parse(keys, f, s, 0); var next := NextPlace(found);
      var f1, g1 := After(f, s[..next]), Written(g, s, found);
      next <= |s| && Plant(keys, f, g, s, z) == s[..next] + Plant(keys, f1, g1, s[next..], z) &&
      PlantAt(keys, f, g, s) == next + PlantAt(keys, f1, g1, s[next..]) &&
      NoOrphan(keys, f, g, s) == NoOrphan(keys, f1, g1, s[next..])
  {
  }

  lemma PlantHere(keys: KeyTable, f: bool, g: bool, s: Text, z: Text)
    requires s != [] && FoundOrphan(keys, g, s, Parse(keys, f, s, 0))
    ensures var h := Parse(keys, f, s, 0).value;
      Plant(keys, f, g, s, z) == s[..h.start + 9] + z + s[h.start + 9..] &&
      PlantAt(keys, f, g, s) == h.start && h.start + 9 <= h.end
  {
  }

  lemma {:induction false} PlantAgrees(keys: KeyTable, f: bool, g: bool, s: Text, z: Text)
    ensures var p := Plant(keys, f, g, s, z); var d := PlantAt(keys, f, g, s);
      Agree(s, p, d) && Agree(p, s, d)
    decreases |s|
  {
    hide Parse, After, Segment, Held, Agree;
    if s == [] {
      NothingAgrees();
    } else if FoundOrphan(keys, g, s, Parse(keys, f, s, 0)) {
      PlantHere(keys, f, g, s, z);
      PlantedHere(s, Parse(keys, f, s, 0).value, z);
    } else {
      PlantStep(keys, f, g, s, z);
      var next := NextPlace(Parse(keys, f, s, 0));
      var f1, g1 := After(f, s[..next]), Written(g, s, Parse(keys, f, s, 0));
      PlantAgrees(keys, f1, g1, s[next..], z);
      PlantAgreesBehind(keys, f, g, s, z, next, f1, g1);
    }
  }

  lemma PlantAgreesBehind(keys: KeyTable, f: bool, g: bool, s: Text, z: Text, k: nat, f1: bool, g1: bool)
    requires k <= |s|
    requires Plant(keys, f, g, s, z) == s[..k] + Plant(keys, f1, g1, s[k..], z)
    requires PlantAt(keys, f, g, s) == k + PlantAt(keys, f1, g1, s[k..])
    requires var p := Plant(keys, f1, g1, s[k..], z); var d := PlantAt(keys, f1, g1, s[k..]);
      Agree(s[k..], p, d) && Agree(p, s[k..], d)
    ensures var p := Plant(keys, f, g, s, z); var d := PlantAt(keys, f, g, s);
      Agree(s, p, d) && Agree(p, s, d)
  {
    hide *;
    var p, d := Plant(keys, f1, g1, s[k..], z), PlantAt(keys, f1, g1, s[k..]);
    AgreeBehind(s, k, p, d, Plant(keys, f, g, s, z));
    AgreeBack(s, k, p, d, Plant(keys, f, g, s, z));
  }

  lemma NothingAgrees()
    ensures Agree([], [], 0)
  {
  }

  lemma {:induction false} PlantNothing(keys: KeyTable, f: bool, g: bool, s: Text, z: Text)
    requires NoOrphan(keys, f, g, s)
    ensures Plant(keys, f, g, s, z) == s
    decreases |s|
  {
    hide Parse, After, Segment, Held;
    if s != [] {
      PlantStep(keys, f, g, s, z);
      var next := NextPlace(Parse(keys, f, s, 0));
      PlantNothing(keys, After(f, s[..next]), Written(g, s, Parse(keys, f, s, 0)), s[next..], z);
      assert s[..next] + s[next..] == s;
    }
  }
}
