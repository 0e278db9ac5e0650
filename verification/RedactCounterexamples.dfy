/** Texts that a second redaction changes. */
module RedactCounterexamples {
  import opened AnchoredClean
  import opened AnchoredIdempotence
  import opened AnchoredRuns
  import opened AnchoredScan
  import opened AnchoredTightness
  import opened Markers
  import opened Options
  import opened PrivateKeyCoverage
  import opened PrivateKeys
  import opened Redactor
  import opened RedactTwice
  import opened Search
  import opened Utf8

  lemma LacksMark(value: Text, c: char)
    requires Lacks(value, c) && Lacks(REDACTED, c) && c != '*'
    ensures Lacks(Mark(value), c)
  {
    if !IsMarked(value) {
      forall d | d in Mark(value) ensures Lower(d) != c {
        assert d in REDACTED || d == '*';
      }
    }
  }

  /** The anchored pass adds no other bytes than those of its marker. */
  lemma {:induction false} LacksScan(keys: KeyTable, f: bool, s: Text, c: char)
    requires Lacks(s, c) && Lacks(REDACTED, c) && c != '*'
    ensures Lacks(Scan(keys, f, s), c)
    decreases |s|
  {
    hide Parse, After, Lacks, Mark;
    if s != [] {
      match Parse(keys, f, s, 0)
      case None =>
        CopyStep(keys, f, s);
        LacksSlice(s, 0, 1, c);
        LacksScan(keys, After(f, s[..1]), s[1..], c);
        LacksConcat(s[..1], Scan(keys, After(f, s[..1]), s[1..]), c);
      case Some(h) =>
        StepWrites(keys, f, s, h);
        LacksSlice(s, h.start, h.end, c);
        LacksSlice(s, 0, h.start, c);
        LacksMark(s[h.start..h.end], c);
        LacksConcat(s[..h.start], Mark(s[h.start..h.end]), c);
        LacksScan(keys, After(f, s[..h.end]), s[h.end..], c);
        LacksConcat(Segment(s, h), Scan(keys, After(f, s[..h.end]), s[h.end..]), c);
    }
  }

  /** A text with none of the bytes `g`, `1` and `y` meets the anchored pass only. */
  predicate IsPlain(s: Text) { Lacks(s, 'g') && Lacks(s, '1') && Lacks(s, 'y') }

  lemma PlainConcat(a: Text, b: Text)
    requires IsPlain(a) && IsPlain(b)
    ensures IsPlain(a + b)
  {
  }

  lemma PlainNeedles()
    ensures Lower(BEGIN[7]) == 'g' && Lower(RPC_USER[5]) == '1' && Lower(USER_AND_PASSWORD[5]) == '1'
    ensures Lower(BASIC_AUTH_PATTERN[0]) == 'y' && |BEGIN| == 11
    ensures IsPlain(REDACTED)
  {
  }

  lemma PlainRedact(s: Text)
    requires IsPlain(s)
    ensures RedactText(s) == RedactAnchored(s) && IsPlain(RedactAnchored(s))
  {
    hide Lacks, Contains, ContainsCi, Replace, Scan, Redact;
    PlainNeedles();
    LacksMeansAbsent(s, BEGIN, 7);
    NothingToRedact(s);
    LacksScan(SECRET_ANCHORS, false, s, 'g');
    LacksScan(SECRET_ANCHORS, false, s, '1');
    LacksScan(SECRET_ANCHORS, false, s, 'y');
    var out := RedactAnchored(s);
    LacksMeansAbsent(out, RPC_USER, 5);
    LacksMeansAbsent(out, USER_AND_PASSWORD, 5);
    LacksMeansAbsent(out, BASIC_AUTH_PATTERN, 0);
    PatternsLeaveFree(out);
  }

  lemma PlainFails(value: Text)
    requires IsPlain(value) && !Idempotent(value)
    ensures !RedactsOnce(value)
  {
    hide RedactText, RedactAnchored, IsPlain;
    PlainRedact(value);
    PlainRedact(RedactAnchored(value));
  }

  lemma OrphanExampleKeys()
    ensures IsPlain("rpcpass=- ") && IsPlain("rpcpass ")
  {
  }

  lemma OrphanExampleTail()
    ensures IsPlain(REDACTED_PREFIX) && IsPlain(PAYLOAD)
  {
  }

  lemma OrphanExampleIsPlain()
    ensures IsPlain("rpcpass=- rpcpass [REDACTEDrpcpass=0")
  {
    OrphanExampleKeys();
    OrphanExampleTail();
    hide IsPlain;
    PlainConcat("rpcpass=- ", "rpcpass ");
    PlainConcat(REDACTED_PREFIX, PAYLOAD);
    PlainConcat("rpcpass=- " + "rpcpass ", REDACTED_PREFIX + PAYLOAD);
    assert "rpcpass=- rpcpass [REDACTEDrpcpass=0" == ("rpcpass=- " + "rpcpass ") + (REDACTED_PREFIX + PAYLOAD);
  }

  /** A hyphen that the first redaction takes away: the second one redacts the `0`. */
  lemma OrphanFails()
    ensures !RedactsOnce("rpcpass=- rpcpass [REDACTEDrpcpass=0")
  {
    hide RedactText, Idempotent, IsPlain;
    OrphanExampleIsPlain();
    NotIdempotent();
    PlainFails("rpcpass=- rpcpass [REDACTEDrpcpass=0");
  }

  /** `rpcpass=` and a marked value that runs to the end. */
  predicate IsMarkedPass(u: Text, end: nat) {
    && 17 <= end <= |u| && AtRpcPass(u) && u[7] == '=' && u[8..17] == REDACTED_PREFIX
    && (forall j | 17 <= j < end :: !IsTerminator(u[j])) && (end < |u| ==> IsTerminator(u[end]))
  }

  lemma MarkedPassParse(f: bool, u: Text, end: nat)
    requires IsMarkedPass(u, end)
    ensures Parse(SECRET_ANCHORS, f, u, 0) == Some(Hit(Token, 8, end)) && IsMarked(u[8..end])
  {
    RpcPassIsKnown();
    hide FindKey, ValueStart, ValueEnd;
    RpcPassParse(SECRET_ANCHORS, f, u);
    MarkedPassStart(f, u, end);
    MarkedValue(Token, u, 8);
    MarkedPassEnd(u, end);
    assert u[8..end][..9] == u[8..17];
  }

  lemma MarkedPassStart(f: bool, u: Text, end: nat)
    requires IsMarkedPass(u, end)
    ensures ValueStart(f, u, 7) == Some(8)
  {
    assert u[8] == u[8..17][0] == '[';
  }

  lemma MarkedPassEnd(u: Text, end: nat)
    requires IsMarkedPass(u, end) && ValueEnd(Token, u, 8) >= 17
    ensures ValueEnd(Token, u, 8) == end
  {
    var e := ValueEnd(Token, u, 8);
    assert e < |u| ==> IsTerminator(u[e]);
  }

  /** A marked value behind a whole line is copied, and the pass goes on. */
  lemma MarkedPassScan(u: Text, end: nat)
    requires IsMarkedPass(u, end)
    ensures RedactAnchored(u) == u[..end] + Scan(SECRET_ANCHORS, After(false, u[..end]), u[end..])
    ensures OrphanFree(u) <==> NoOrphan(SECRET_ANCHORS, After(false, u[..end]), After(false, u[..end]), u[end..])
  {
    MarkedPassParse(false, u, end);
    hide Parse, Write, After, IsMarkedPass, IsMarked;
    CopyStep(SECRET_ANCHORS, false, u);
    AfterNothing(false, u);
    assert StructuredAt(SECRET_ANCHORS, false, u, 0);
    assert Held(SECRET_ANCHORS, false, u, 8);
    MarkedStays(u[8..end]);
    Slices(u, 0, 8, end);
    assert u[0..8] == u[..8] && u[0..end] == u[..end];
  }

  const MARKED_PASS: Text := "rpcpass=[REDACTED"

  lemma MarkedPassBytes()
    ensures |MARKED_PASS| == 17 && MARKED_PASS[8..17] == REDACTED_PREFIX && MARKED_PASS[7] == '='
    ensures forall c | c in RPC_USER + PAYLOAD :: !IsTerminator(c)
    ensures REDACTED == REDACTED_PREFIX + "]"
  {
  }

  lemma ThreeParts(x: Text, y: Text, z: Text)
    ensures (x + y + z)[..|x|] == x && (x + y + z)[|x|..] == y + z
    ensures (x + y + z)[..|x| + |y|] == x + y && (x + y + z)[|x| + |y|..] == z
  {
  }

  lemma UserBehindMarker()
    ensures IsMarkedPass(MARKED_PASS + RPC_USER + PAYLOAD, |MARKED_PASS + RPC_USER + PAYLOAD|)
  {
    var u := MARKED_PASS + RPC_USER + PAYLOAD;
    MarkedPassBytes();
    ThreeParts(MARKED_PASS, RPC_USER, PAYLOAD);
    assert u[8..17] == u[..17][8..17];
    hide IsTerminator;
    forall j | 17 <= j < |u| ensures !IsTerminator(u[j]) {
      assert u[j] == u[17..][j - 17] && u[17..][j - 17] in RPC_USER + PAYLOAD;
    }
  }

  lemma MarkerBehindMarker()
    ensures IsMarkedPass(MARKED_PASS + REDACTED + PAYLOAD, 26)
  {
    var u := MARKED_PASS + REDACTED + PAYLOAD;
    MarkedPassBytes();
    ThreeParts(MARKED_PASS, REDACTED, PAYLOAD);
    assert u[8..17] == u[..17][8..17];
    forall j | 17 <= j < 26 ensures !IsTerminator(u[j]) {
      assert u[j] == REDACTED[j - 17] == REDACTED_PREFIX[j - 17];
      PrefixBytes(j - 17);
    }
    assert u[26] == REDACTED[9] == ']';
  }

  /** The first occurrence of a pattern is replaced. */
  lemma ReplaceFirst(a: Text, pattern: Text, b: Text, m: Text)
    requires |pattern| > 1 && NoStart(a, pattern)
    ensures Replace(a + pattern + b, pattern, m) == a + m + Replace(b, pattern, m)
  {
    hide Replace;
    ReplaceSkips(a, pattern + b, pattern, m);
    assert a + pattern + b == a + (pattern + b) && (pattern + b)[|pattern|..] == b;
    ReplaceHere(pattern + b, pattern, m);
  }

  lemma NoUserAhead()
    ensures RPC_USER[0] == 'a' && RPC_USER[1] == 'd' && |RPC_USER| == 6 && |MARKED_PASS| == 17
    ensures forall k | 0 <= k < 17 :: MARKED_PASS[k] != 'a' || (k + 1 < 17 && MARKED_PASS[k + 1] != 'd')
  {
  }

  lemma UserIsReplaced()
    ensures Replace(MARKED_PASS + RPC_USER + PAYLOAD, RPC_USER, REDACTED) == MARKED_PASS + REDACTED + PAYLOAD
  {
    assert Lacks(PAYLOAD, '1') && Lower(RPC_USER[5]) == '1';
    hide Lacks, Contains, ContainsCi, Replace;
    LacksMeansAbsent(PAYLOAD, RPC_USER, 5);
    ReplaceAbsent(PAYLOAD, RPC_USER, REDACTED);
    NoUserAhead();
    ReplaceFirst(MARKED_PASS, RPC_USER, PAYLOAD, REDACTED);
  }

  lemma UserLacks()
    ensures Lacks(MARKED_PASS + RPC_USER + PAYLOAD, 'b') && Lacks(MARKED_PASS + RPC_USER + PAYLOAD, ':')
    ensures Lacks(MARKED_PASS + RPC_USER + PAYLOAD, 'y')
  {
    forall c | c == 'b' || c == ':' || c == 'y' ensures Lacks(MARKED_PASS + RPC_USER + PAYLOAD, c) {
      PartsLack(c);
      LacksConcat(MARKED_PASS, RPC_USER, c);
      LacksConcat(MARKED_PASS + RPC_USER, PAYLOAD, c);
    }
  }

  lemma PartsLack(c: char)
    requires c == 'b' || c == ':' || c == 'y'
    ensures Lacks(MARKED_PASS, c) && Lacks(RPC_USER, c) && Lacks(PAYLOAD, c)
  {
  }

  lemma OtherNeedles()
    ensures |USER_AND_PASSWORD| == 10 && Lower(USER_AND_PASSWORD[6]) == ':'
    ensures |BEGIN| == 11 && Lower(BEGIN[5]) == 'b' && Lower(BASIC_AUTH_PATTERN[0]) == 'y'
  {
  }

  lemma UserRedacted()
    ensures var value := MARKED_PASS + RPC_USER + PAYLOAD;
      RedactText(value) == MARKED_PASS + REDACTED + PAYLOAD && OrphanFree(value)
  {
    UserBehindMarker();
    UserLacks();
    OtherNeedles();
    hide Lacks, Contains, ContainsCi, Replace, Scan, Redact, NoOrphan;
    var value := MARKED_PASS + RPC_USER + PAYLOAD;
    LacksMeansAbsent(value, BEGIN, 5);
    NothingToRedact(value);
    MarkedPassScan(value, |value|);
    assert value[|value|..] == [] && value[..|value|] == value && value + [] == value;
    ScanNothing(SECRET_ANCHORS, After(false, value));
    EmptyHasNoOrphan(SECRET_ANCHORS, After(false, value), After(false, value));
    LacksMeansAbsent(value, USER_AND_PASSWORD, 6);
    ReplaceAbsent(value, USER_AND_PASSWORD, REDACTED);
    LacksMeansAbsent(value, BASIC_AUTH_PATTERN, 0);
    ReplaceAbsent(value, BASIC_AUTH_PATTERN, REDACTED_BASIC_AUTH);
    UserIsReplaced();
  }

  lemma BracketScan(f: bool)
    ensures Scan(SECRET_ANCHORS, f, "]" + PAYLOAD) != "]" + PAYLOAD
  {
    var u := "]" + PAYLOAD;
    BracketOpensNothing(SECRET_ANCHORS, f, u);
    CopyStep(SECRET_ANCHORS, f, u);
    assert u[..1] == "]" && u[1..] == PAYLOAD;
    hide Scan, Parse;
    RpcPassIsKnown();
    PayloadIsUnmarked(SECRET_ANCHORS, After(f, u[..1]), []);
    assert PAYLOAD + [] == PAYLOAD;
    PayloadChanges(SECRET_ANCHORS, After(f, u[..1]), PAYLOAD, []);
    BehindDiffers("]", Scan(SECRET_ANCHORS, After(f, u[..1]), PAYLOAD), PAYLOAD);
  }

  lemma BracketOpensNothing(keys: KeyTable, f: bool, u: Text)
    requires u != [] && u[0] == ']'
    ensures Parse(keys, f, u, 0).None?
  {
  }

  /** A credential inside a marked value: its own marker ends the value early, and the second redaction masks
      what now stands behind. No orphan is needed. */
  lemma PatternFails()
    ensures var value := "rpcpass=[REDACTED" + "admin1" + "rpcpass=0"; OrphanFree(value) && !RedactsOnce(value)
  {
    UserRedacted();
    var value, out := MARKED_PASS + RPC_USER + PAYLOAD, MARKED_PASS + REDACTED + PAYLOAD;
    MarkerBehindMarker();
    hide RedactText, Scan, OrphanFree, IsMarkedPass;
    MarkedPassScan(out, 26);
    BracketScan(After(false, out[..26]));
    CutAtBracket();
    BehindDiffers(out[..26], Scan(SECRET_ANCHORS, After(false, out[..26]), out[26..]), out[26..]);
    RedactsOnceIff(value);
  }

  lemma CutAtBracket()
    ensures var out := MARKED_PASS + REDACTED + PAYLOAD;
      |out| > 26 && out[26..] == "]" + PAYLOAD && out[..26] + out[26..] == out
  {
    MarkedPassBytes();
    ThreeParts(MARKED_PASS + REDACTED_PREFIX, "]", PAYLOAD);
    assert MARKED_PASS + REDACTED + PAYLOAD == MARKED_PASS + REDACTED_PREFIX + "]" + PAYLOAD;
  }

  /** No key opens in it, and it has none of two bytes that every credential has one of. */
  predicate IsInert(s: Text) { NoKeyInside(s) && Lacks(s, '1') && Lacks(s, '=') }

  lemma InertConcat(a: Text, b: Text)
    requires IsInert(a) && IsInert(b)
    ensures IsInert(a + b)
  {
    hide NoKeyInside, Lacks;
    KeylessConcat(a, b);
    LacksConcat(a, b, '1');
    LacksConcat(a, b, '=');
  }

  lemma DashesAreInert()
    ensures IsInert(DASHES)
  {
  }

  lemma OuterIsInert()
    ensures IsInert(OUTER)
  {
    assert OUTER == DASHES + ("BEG" + "IN A") && IsInert("BEG") && IsInert("IN A");
    hide IsInert;
    DashesAreInert();
    InertConcat("BEG", "IN A");
    InertConcat(DASHES, "BEG" + "IN A");
  }

  lemma KeyMarkerIsInert(n: nat)
    ensures IsInert(Redaction(n, KEY_MARKER))
  {
    PaddedOpensNoKey(KEY_MARKER, if n <= |KEY_MARKER| then 0 else n - |KEY_MARKER|);
    assert Lacks(KEY_MARKER, '1') && Lacks(KEY_MARKER, '=');
    hide NoKeyInside;
  }

  lemma CredentialBytes()
    ensures Lower(RPC_USER[5]) == '1' && Lower(USER_AND_PASSWORD[5]) == '1'
    ensures |BASIC_AUTH_PATTERN| == 16 && Lower(BASIC_AUTH_PATTERN[15]) == '='
  {
  }

  /** Such a text goes through the last two passes as it is. */
  lemma InertPasses(s: Text)
    requires IsInert(s)
    ensures RedactPatterns(RedactAnchored(s)) == s
  {
    CredentialBytes();
    assert s + [] == s;
    NothingIsClean([], SECRET_ANCHORS, After(false, s));
    KeylessFront([], SECRET_ANCHORS, false, s, []);
    hide NoKeyInside, Lacks, Contains, ContainsCi, Scan, CleanBut, Replace;
    CleanIsFixed(SECRET_ANCHORS, false, s);
    LacksMeansAbsent(s, RPC_USER, 5);
    LacksMeansAbsent(s, USER_AND_PASSWORD, 5);
    LacksMeansAbsent(s, BASIC_AUTH_PATTERN, 15);
    PatternsLeaveFree(s);
  }

  /** A block in the label of an open header: masked, it makes that header one of a private key. */
  lemma NestedFails(body: Text)
    requires '-' !in body
    ensures !RedactsOnce(OUTER + BlockOf(body) + DASHES)
  {
    var value, r := OUTER + BlockOf(body) + DASHES, Redaction(52 + |body|, KEY_MARKER);
    NestedOnce(body);
    NestedBlockTwice(body);
    OuterIsInert();
    DashesAreInert();
    KeyMarkerIsInert(52 + |body|);
    hide IsInert, Redact, BlockOf, Redaction, Scan, RedactPatterns, OUTER, DASHES;
    InertConcat(OUTER, r);
    InertConcat(OUTER + r, DASHES);
    InertPasses(OUTER + r + DASHES);
    RedactsOnceIff(value);
  }
}
