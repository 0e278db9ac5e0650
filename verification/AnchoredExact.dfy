/** Exactly when redacting anchored values twice is the same as redacting them once. */
module AnchoredExact {
  import opened AnchoredClean
  import opened AnchoredIdempotence
  import opened AnchoredRuns
  import opened AnchoredScan
  import opened AnchoredTightness
  import opened Options
  import opened Search
  import opened Utf8

  /** No key opens inside the value of `h`. */
  predicate Keyless(keys: KeyTable, s: Text, h: Hit) {
    forall j | h.start <= j < h.end :: FindKey(keys, s, j).None?
  }

  /** An orphan in whose value a second pass may find a key. */
  predicate IsLoose(keys: KeyTable, g: bool, s: Text, h: Hit)
    requires h.start <= h.end <= |s|
  {
    IsOrphan(keys, g, s, h) && !Keyless(keys, s, h)
  }

  /** Every marked value of the text keeps its key, or holds none. */
  predicate NoLoose(keys: KeyTable, f: bool, g: bool, s: Text)
    decreases |s|
  {
    s == [] ||
    match Parse(keys, f, s, 0)
    case None => NoLoose(keys, After(f, s[..1]), After(g, s[..1]), s[1..])
    case Some(h) =>
      !IsLoose(keys, g, s, h) &&
      NoLoose(keys, After(f, s[..h.end]), After(g, Segment(s, h)), s[h.end..])
  }

  /** Behind the marker of the first loose orphan, in the rest of its value and what the pass has written for
      the text after it, a further pass comes to no value to mask. */
  predicate Rests(keys: KeyTable, f: bool, g: bool, s: Text)
    decreases |s|
  {
    s == [] ||
    match Parse(keys, f, s, 0)
    case None => Rests(keys, After(f, s[..1]), After(g, s[..1]), s[1..])
    case Some(h) =>
      if IsLoose(keys, g, s, h) then
        var n := h.start + 9;
        var rest := s[n..h.end] + Scan(keys, After(f, s[..h.end]), s[h.end..]);
        FirstEdit(keys, After(g, s[..n]), rest) == |rest|
      else Rests(keys, After(f, s[..h.end]), After(g, Segment(s, h)), s[h.end..])
  }

  // ---------------------------------------------------------------------------------------------
  // A step at a secret

  /** A value without keys is copied by a second scan, whether or not its key is still structured. */
  lemma KeylessStep(keys: KeyTable, f: bool, g: bool, s: Text, h: Hit, z: Text)
    requires Parse(keys, f, s, 0) == Some(h) && GoesOn(s, h, z)
    requires IsOrphan(keys, g, s, h) && Keyless(keys, s, h)
    ensures Scan(keys, g, s[..h.end] + z) == s[..h.end] + Scan(keys, After(g, s[..h.end]), z)
  {
    hide Parse, After, Scan, Write, FindKey, Held;
    ParseEnd(keys, f, s, 0);
    var t := s[..h.end] + z;
    MarkedAgrees(s, h, z);
    forall j | 0 <= j < h.end ensures Cold(keys, g, t, j, h.end) {
      if j < h.start {
        OrphanPlace(keys, g, s, h, t, j, h.end);
      } else {
        StillNoKey(keys, h.kind, s, h, z, j);
        NoKeyIsCold(keys, g, t, j, h.end);
      }
    }
    ColdRun(keys, g, t, 0, h.end);
    AfterNothing(g, t);
    assert t[0..h.end] == t[..h.end] == s[..h.end] && t[h.end..] == z;
  }

  /** A name does not reach beyond the end of the value it opens in. */
  lemma StillNoKey(keys: KeyTable, kind: Kind, s: Text, h: Hit, z: Text, j: nat)
    requires h.start <= j < h.end <= |s| && GoesOn(s, h, z) && (h.end < |s| ==> EndsValue(kind, s[h.end]))
    requires FindKey(keys, s, j).None?
    ensures FindKey(keys, s[..h.end] + z, j).None?
  {
    hide KeyBytes, IsKey;
    var t := s[..h.end] + z;
    forall k | 0 <= k < |keys| ensures !MatchesCi(t, j, keys[k].name) {
      if MatchesCi(t, j, keys[k].name) {
        NameInside(keys[k], kind, s, h, z, j);
      }
    }
  }

  lemma NameInside(e: Entry, kind: Kind, s: Text, h: Hit, z: Text, j: nat)
    requires h.start <= j < h.end <= |s| && GoesOn(s, h, z) && (h.end < |s| ==> EndsValue(kind, s[h.end]))
    requires IsKey(e) && MatchesCi(s[..h.end] + z, j, e.name)
    ensures MatchesCi(s, j, e.name)
  {
    var t := s[..h.end] + z;
    KeyBytesOf(e, t, j);
    assert h.end < |t| ==> t[h.end] == z[0] && !IsKeyChar(Lower(t[h.end]));
    assert j + |e.name| <= h.end;
    forall i | 0 <= i < |e.name| ensures Lower(s[j + i]) == Lower(e.name[i]) {
      assert s[j + i] == t[j + i];
    }
  }

  /** A step of the two passes at a secret that is no loose orphan. */
  lemma StepInStep(keys: KeyTable, f: bool, g: bool, s: Text, h: Hit)
    requires Parse(keys, f, s, 0) == Some(h) && !IsLoose(keys, g, s, h)
    ensures var m := Segment(s, h); var y := Scan(keys, After(f, s[..h.end]), s[h.end..]);
      Scan(keys, f, s) == m + y && Scan(keys, g, m + y) == m + Scan(keys, After(g, m), y)
  {
    hide Parse, Scan, Write, After, Held, Keyless;
    if IsOrphan(keys, g, s, h) {
      var y := Scan(keys, After(f, s[..h.end]), s[h.end..]);
      StepWrites(keys, f, s, h);
      TailGoesOn(keys, f, s, h, After(f, s[..h.end]));
      Slices(s, 0, h.start, h.end);
      assert s[0..h.start] == s[..h.start] && s[0..h.end] == s[..h.end];
      KeylessStep(keys, f, g, s, h, y);
    } else {
      StepHit(keys, f, g, s, h);
    }
  }

  /** At a loose orphan the second pass goes on right behind the marker's name. */
  lemma StepBehind(keys: KeyTable, f: bool, g: bool, s: Text, h: Hit)
    requires Parse(keys, f, s, 0) == Some(h) && IsOrphan(keys, g, s, h)
    ensures h.start + 9 <= h.end
    ensures var n := h.start + 9; var rest := s[n..h.end] + Scan(keys, After(f, s[..h.end]), s[h.end..]);
      Scan(keys, f, s) == s[..n] + rest && Scan(keys, g, s[..n] + rest) == s[..n] + Scan(keys, After(g, s[..n]), rest)
  {
    hide Parse, Scan, Write, After, Held;
    var n, y := h.start + 9, Scan(keys, After(f, s[..h.end]), s[h.end..]);
    OrphanPieces(s, h, y);
    StepWrites(keys, f, s, h);
    OrphanRun(keys, f, g, s, h, s[n..h.end], y);
  }

  lemma OrphanPieces(s: Text, h: Hit, y: Text)
    requires h.start <= h.end <= |s| && REDACTED_PREFIX <= s[h.start..h.end]
    ensures h.start + 9 <= h.end
    ensures var n := h.start + 9;
      Segment(s, h) + y == s[..n] + (s[n..h.end] + y) && s[..n] + s[n..h.end] + y == s[..n] + (s[n..h.end] + y)
  {
    var n := h.start + 9;
    Slices(s, 0, h.start, h.end);
    Slices(s, 0, n, h.end);
    assert s[0..h.start] == s[..h.start] && s[0..h.end] == s[..h.end] && s[0..n] == s[..n];
  }

  // ---------------------------------------------------------------------------------------------
  // Main results

  lemma {:induction false} RestsIff(keys: KeyTable, f: bool, g: bool, s: Text)
    requires g ==> f
    ensures Scan(keys, g, Scan(keys, f, s)) == Scan(keys, f, s) <==> Rests(keys, f, g, s)
    decreases |s|
  {
    hide Parse, After, Write, IsLoose, FirstEdit;
    if s != [] {
      match Parse(keys, f, s, 0)
      case None =>
        StepNone(keys, f, g, s);
        AfterMonotone(g, f, s[..1]);
        RestsIff(keys, After(f, s[..1]), After(g, s[..1]), s[1..]);
        SameBehind(s[..1], Scan(keys, After(f, s[..1]), s[1..]), After(g, s[..1]), keys);
      case Some(h) =>
        if IsLoose(keys, g, s, h) {
          LooseStep(keys, f, g, s, h);
        } else {
          StepInStep(keys, f, g, s, h);
          SegmentHyphen(keys, f, g, s, h);
          RestsIff(keys, After(f, s[..h.end]), After(g, Segment(s, h)), s[h.end..]);
          SameBehind(Segment(s, h), Scan(keys, After(f, s[..h.end]), s[h.end..]), After(g, Segment(s, h)), keys);
        }
    }
  }

  lemma SameBehind(a: Text, y: Text, g: bool, keys: KeyTable)
    ensures a + Scan(keys, g, y) == a + y <==> Scan(keys, g, y) == y
  {
    hide Scan;
    if Scan(keys, g, y) != y {
      BehindDiffers(a, Scan(keys, g, y), y);
    }
  }

  lemma LooseStep(keys: KeyTable, f: bool, g: bool, s: Text, h: Hit)
    requires s != [] && Parse(keys, f, s, 0) == Some(h) && IsLoose(keys, g, s, h)
    ensures Scan(keys, g, Scan(keys, f, s)) == Scan(keys, f, s) <==> Rests(keys, f, g, s)
  {
    hide Parse, After, Scan, Held, Keyless, FirstEdit;
    StepBehind(keys, f, g, s, h);
    var n := h.start + 9;
    var rest := s[n..h.end] + Scan(keys, After(f, s[..h.end]), s[h.end..]);
    SameBehind(s[..n], rest, After(g, s[..n]), keys);
    EditIff(keys, After(g, s[..n]), rest);
  }

  lemma {:induction false} NoLooseRests(keys: KeyTable, f: bool, g: bool, s: Text)
    requires NoLoose(keys, f, g, s)
    ensures Rests(keys, f, g, s)
    decreases |s|
  {
    hide Parse, After, IsLoose, Scan, FirstEdit;
    if s != [] {
      match Parse(keys, f, s, 0)
      case None => NoLooseRests(keys, After(f, s[..1]), After(g, s[..1]), s[1..]);
      case Some(h) => NoLooseRests(keys, After(f, s[..h.end]), After(g, Segment(s, h)), s[h.end..]);
    }
  }

  /** The pass is idempotent on a text exactly if it rests behind the first loose orphan. */
  lemma IdempotentIff(value: Text)
    ensures Idempotent(value) <==> Rests(SECRET_ANCHORS, false, false, value)
  {
    RestsIff(SECRET_ANCHORS, false, false, value);
  }

  /** A guard on the input alone. It lets more texts pass than either of the next two. */
  lemma NoLooseSettles(value: Text)
    requires NoLoose(SECRET_ANCHORS, false, false, value)
    ensures Idempotent(value)
  {
    hide NoLoose, Rests, Idempotent;
    NoLooseRests(SECRET_ANCHORS, false, false, value);
    IdempotentIff(value);
  }

  lemma {:induction false} OrphanFreeHasNoLoose(keys: KeyTable, f: bool, g: bool, s: Text)
    requires NoOrphan(keys, f, g, s)
    ensures NoLoose(keys, f, g, s)
    decreases |s|
  {
    hide Parse, After, Held, Keyless;
    if s != [] {
      match Parse(keys, f, s, 0)
      case None => OrphanFreeHasNoLoose(keys, After(f, s[..1]), After(g, s[..1]), s[1..]);
      case Some(h) => OrphanFreeHasNoLoose(keys, After(f, s[..h.end]), After(g, Segment(s, h)), s[h.end..]);
    }
  }

  lemma {:induction false} KeylessHasNoLoose(keys: KeyTable, f: bool, g: bool, s: Text)
    requires CopiesKeyless(keys, f, s)
    ensures NoLoose(keys, f, g, s)
    decreases |s|
  {
    hide Parse, After, Held, FindKey;
    if s != [] {
      match Parse(keys, f, s, 0)
      case None => KeylessHasNoLoose(keys, After(f, s[..1]), After(g, s[..1]), s[1..]);
      case Some(h) => KeylessHasNoLoose(keys, After(f, s[..h.end]), After(g, Segment(s, h)), s[h.end..]);
    }
  }

  // ---------------------------------------------------------------------------------------------
  // An orphan that does no harm

  lemma SpacedIsKeyless(keys: KeyTable, u: Text)
    requires KnowsRpcPass(keys) && IsSpaced(u)
    ensures CopiesKeyless(keys, true, u)
  {
    SpacedMarker(u);
    SpaceFormParse(keys, true, u);
    hide Parse, FindKey, KnowsRpcPass, IsSpaced;
    forall j | 8 <= j < 17 ensures FindKey(keys, u, j).None? {
      PrefixOpensNoKey(keys, u, 8, j);
    }
    assert u[17..] == [];
    NothingIsKeyless(keys, After(true, u[..17]));
  }

  lemma NothingIsKeyless(keys: KeyTable, f: bool)
    ensures CopiesKeyless(keys, f, [])
  {
  }

  lemma HyphenedIsKeyless(keys: KeyTable, s: Text)
    requires KnowsRpcPass(keys) && IsHyphened(s) && IsSpaced(s[10..])
    ensures CopiesKeyless(keys, false, s)
  {
    HyphenedParse(keys, s);
    HyphenedHyphens(s);
    SpacedIsKeyless(keys, s[10..]);
    var u := s[9..];
    assert u[0] == ' ' && u[1..] == s[10..];
    BlankOpensNothing(keys, u);
    AfterNext(true, u, 0);
    assert After(true, u[..1]) == true;
    hide Parse, FindKey, KnowsRpcPass, IsSpaced, IsHyphened;
    assert CopiesKeyless(keys, true, u);
  }

  /** An orphan alone does not make the pass change its own output. */
  lemma HarmlessOrphan()
    ensures var value := "rpcpass=- rpcpass [REDACTED"; !OrphanFree(value) && Idempotent(value)
  {
    var value := "rpcpass=- rpcpass [REDACTED";
    RpcPassIsKnown();
    ExampleBytes();
    hide Plant, NoOrphan, Idempotent, CopiesKeyless, NoLoose;
    OrphanedText(SECRET_ANCHORS, value, PAYLOAD);
    HyphenedIsKeyless(SECRET_ANCHORS, value);
    KeylessHasNoLoose(SECRET_ANCHORS, false, false, value);
    NoLooseSettles(value);
  }
}
