/** Which texts come out of the redactor such that the anchored pass would find nothing more in them, at any
    place, and which do not. */
module CleanOutput {
  import opened AnchoredClean
  import opened AnchoredKeys
  import opened AnchoredRuns
  import opened AnchoredScan
  import opened AnchoredTightness
  import opened Markers
  import opened Options
  import opened PrivateKeys
  import opened PrivateKeyCoverage
  import opened Redactor
  import opened Search
  import opened Utf8

  // ---------------------------------------------------------------------------------------------
  // The three patterns

  const PATTERNS: seq<Text> := [RPC_USER, BASIC_AUTH_PATTERN, USER_AND_PASSWORD]

  lemma UserPieces()
    ensures NoKeyInside("adm" + "in1") && NoKeyInside(":123")
  {
  }

  lemma AuthPieces()
    ensures NoKeyInside("YWRt") && NoKeyInside("aW4x") && NoKeyInside("OjEy") && NoKeyInside("Mw==")
  {
  }

  lemma PatternsOpenNoKey()
    ensures NoKeyInside(RPC_USER) && NoKeyInside(USER_AND_PASSWORD) && NoKeyInside(BASIC_AUTH_PATTERN)
  {
    hide NoKeyInside;
    UserPieces();
    AuthPieces();
    assert RPC_USER == "adm" + "in1" && USER_AND_PASSWORD == RPC_USER + ":123";
    KeylessConcat(RPC_USER, ":123");
    assert BASIC_AUTH_PATTERN == ("YWRt" + "aW4x") + ("OjEy" + "Mw==");
    KeylessConcat("YWRt", "aW4x");
    KeylessConcat("OjEy", "Mw==");
    KeylessConcat("YWRt" + "aW4x", "OjEy" + "Mw==");
  }

  lemma AllQuiet()
    ensures IsQuiet(RPC_USER) && IsQuiet(USER_AND_PASSWORD) && IsQuiet(BASIC_AUTH_PATTERN)
    ensures IsQuiet(REDACTED) && IsQuiet(REDACTED_BASIC_AUTH)
  {
  }

  lemma MarkersOpen()
    ensures REDACTED_PREFIX <= REDACTED && REDACTED_PREFIX <= REDACTED_BASIC_AUTH
  {
  }

  /** No key and no tail of a key reaches into the pattern. */
  predicate StandsAlone(p: Text) {
    && |p| > 1 && IsForeign(p[0]) && !IsKeyChar(Lower(p[|p| - 1]))
    && forall k | 0 < k < |p| :: !EndsKey(Lower(p[k - 1]), Lower(p[k]))
  }

  lemma UserStandsAlone()
    ensures StandsAlone(RPC_USER) && StandsAlone(USER_AND_PASSWORD)
  {
  }

  lemma AuthStandsAlone()
    ensures StandsAlone(BASIC_AUTH_PATTERN)
  {
    AuthEdges();
    AuthClosesNoKey();
    hide IsForeign, IsKeyChar;
    forall k | 0 < k < 16 ensures !EndsKey(Lower(BASIC_AUTH_PATTERN[k - 1]), Lower(BASIC_AUTH_PATTERN[k])) {
      assert BASIC_AUTH_PATTERN[k] in BASIC_AUTH_PATTERN;
    }
  }

  lemma AuthEdges()
    ensures |BASIC_AUTH_PATTERN| == 16
    ensures IsForeign(BASIC_AUTH_PATTERN[0]) && !IsKeyChar(Lower(BASIC_AUTH_PATTERN[15]))
  {
  }

  lemma AuthClosesNoKey()
    ensures forall c | c in BASIC_AUTH_PATTERN :: Lower(c) !in {'d', 's', 'n', 'c'}
  {
  }

  lemma MarkerPairs()
    ensures IsMarkerPair(RPC_USER, REDACTED) && IsMarkerPair(USER_AND_PASSWORD, REDACTED)
    ensures IsMarkerPair(BASIC_AUTH_PATTERN, REDACTED_BASIC_AUTH)
  {
    hide IsQuiet, NoKeyInside, EndsKey, IsForeign;
    PatternsOpenNoKey();
    MarkersOpenNoKey();
    AllQuiet();
    MarkersOpen();
    UserStandsAlone();
    AuthStandsAlone();
  }

  lemma PatternsFollow()
    ensures |RPC_USER| > 1 && |BASIC_AUTH_PATTERN| > 1 && |USER_AND_PASSWORD| > 1
    ensures CanFollow([], RPC_USER) && CanFollow([RPC_USER], BASIC_AUTH_PATTERN)
    ensures CanFollow([RPC_USER, BASIC_AUTH_PATTERN], USER_AND_PASSWORD)
  {
    assert Disjoint(RPC_USER, BASIC_AUTH_PATTERN) && Disjoint(RPC_USER, USER_AND_PASSWORD);
    assert Disjoint(BASIC_AUTH_PATTERN, USER_AND_PASSWORD);
    NoBrackets();
  }

  lemma NoBrackets()
    ensures '[' !in RPC_USER && '[' !in BASIC_AUTH_PATTERN && '[' !in USER_AND_PASSWORD
  {
  }

  lemma PatternsCanWait()
    ensures CanWait(PATTERNS)
  {
    NoBrackets();
    PatternsOpenNoKey();
    hide NoKeyInside;
  }

  /** The patterns leave a clean text exactly if the values that open with theirs were the only unmarked ones. */
  lemma PatternsCleanIff(s: Text)
    ensures Clean(SECRET_ANCHORS, false, RedactPatterns(s)) <==> CleanBut(PATTERNS, SECRET_ANCHORS, false, s)
  {
    MarkerPairs();
    PatternsFollow();
    hide Replace, CleanBut, IsMarkerPair, CanFollow;
    var s1 := Replace(s, USER_AND_PASSWORD, REDACTED);
    var s2 := Replace(s1, BASIC_AUTH_PATTERN, REDACTED_BASIC_AUTH);
    ReplaceCleanIff([], SECRET_ANCHORS, false, s2, RPC_USER, REDACTED);
    ReplaceCleanIff([RPC_USER], SECRET_ANCHORS, false, s1, BASIC_AUTH_PATTERN, REDACTED_BASIC_AUTH);
    ReplaceCleanIff([RPC_USER, BASIC_AUTH_PATTERN], SECRET_ANCHORS, false, s, USER_AND_PASSWORD, REDACTED);
    assert [] + [RPC_USER] == [RPC_USER] && [RPC_USER] + [BASIC_AUTH_PATTERN] == [RPC_USER, BASIC_AUTH_PATTERN];
    assert [RPC_USER, BASIC_AUTH_PATTERN] + [USER_AND_PASSWORD] == PATTERNS;
  }

  // ---------------------------------------------------------------------------------------------
  // Exactly when the output is clean

  /** At no place of the text is there a structured key with a value that is not marked. */
  predicate IsClean(s: Text) {
    Clean(SECRET_ANCHORS, false, s)
  }

  /** A value that is marked already, the marker of a private-key block included, is copied. No place inside
      one, in the text behind the private-key pass, has an unmarked value of its own. */
  predicate CopiesNoHot(value: Text) {
    NoHot(PATTERNS, SECRET_ANCHORS, false, false, RedactPrivateKeys(value))
  }

  /** The redacted text is clean exactly if no marked value had another unmarked one inside. */
  lemma IsCleanIff(value: Text)
    ensures IsClean(RedactText(value)) <==> CopiesNoHot(value)
  {
    PatternsCanWait();
    hide Clean, CleanBut, NoHot, Scan, RedactPatterns, Redact, CanWait;
    var v1 := RedactPrivateKeys(value);
    PatternsCleanIff(RedactAnchored(v1));
    ScanCleanIff(PATTERNS, SECRET_ANCHORS, false, false, v1);
  }

  /** A guard that looks for key names only: none occurs inside a marked value. */
  predicate IsKeyless(value: Text) {
    CopiesKeyless(SECRET_ANCHORS, false, RedactPrivateKeys(value))
  }

  lemma KeylessIsClean(value: Text)
    requires IsKeyless(value)
    ensures IsClean(RedactText(value))
  {
    hide Clean, NoHot, CopiesKeyless, Redact, RedactText;
    KeylessIsNotHot(PATTERNS, SECRET_ANCHORS, false, false, RedactPrivateKeys(value));
    IsCleanIff(value);
  }

  /** Text without a marker and without a block header, as a service writes it, passes the guard. */
  lemma WrittenByService(value: Text)
    requires !Contains(value, REDACTED_PREFIX) && !ContainsCi(value, BEGIN)
    ensures IsKeyless(value) && RedactPrivateKeys(value) == value
  {
    hide Contains, ContainsCi, CopiesKeyless, Redact, MarkersStandApart;
    NothingToRedact(value);
    UnmarkedStandsApart(value);
    ApartIsKeyless(SECRET_ANCHORS, false, value);
  }

  /** The marker of a block that does not stand behind a separator cannot be taken for a value. */
  lemma BlockStandsApart(head: Text, body: Text, tail: Text)
    requires '-' !in head && '-' !in body && !ContainsCi(tail, BEGIN)
    requires !Contains(head, REDACTED_PREFIX) && !Contains(tail, REDACTED_PREFIX)
    requires head != [] ==> !IsSeparator(head[|head| - 1])
    ensures var v := RedactPrivateKeys(head + BlockOf(body) + tail); MarkersStandApart(v) && !ContainsCi(v, BEGIN)
  {
    hide Contains, ContainsCi, Redact, BlockOf, Redaction, MarkersStandApart, IsSeparator;
    OneBlockOnly(head, body, tail);
    RedactionMarks(52 + |body|);
    RedactionHasNoDash(52 + |body|);
    OneMarkerOnly(head, Redaction(52 + |body|, KEY_MARKER), tail);
    NoHeaderAround(head + Redaction(52 + |body|, KEY_MARKER), tail);
  }

  /** Text with such a block passes the guard, too. */
  lemma BlockPasses(head: Text, body: Text, tail: Text)
    requires '-' !in head && '-' !in body && !ContainsCi(tail, BEGIN)
    requires !Contains(head, REDACTED_PREFIX) && !Contains(tail, REDACTED_PREFIX)
    requires head != [] ==> !IsSeparator(head[|head| - 1])
    ensures IsKeyless(head + BlockOf(body) + tail)
    ensures !ContainsCi(RedactPrivateKeys(head + BlockOf(body) + tail), BEGIN)
  {
    hide Contains, ContainsCi, CopiesKeyless, Redact, BlockOf, MarkersStandApart, IsSeparator;
    BlockStandsApart(head, body, tail);
    ApartIsKeyless(SECRET_ANCHORS, false, RedactPrivateKeys(head + BlockOf(body) + tail));
  }

  lemma RedactionMarks(n: nat)
    ensures var r := Redaction(n, KEY_MARKER); r != [] && r[0] == '[' && forall k | 0 < k < |r| :: r[k] != '['
  {
    assert |KEY_MARKER| == 23 && KEY_MARKER[0] == '[' && forall k | 0 < k < 23 :: KEY_MARKER[k] != '[';
  }

  lemma OneMarkerOnly(head: Text, r: Text, tail: Text)
    requires !Contains(head, REDACTED_PREFIX) && !Contains(tail, REDACTED_PREFIX)
    requires head != [] ==> !IsSeparator(head[|head| - 1])
    requires r != [] && r[0] == '[' && forall k | 0 < k < |r| :: r[k] != '['
    ensures MarkersStandApart(head + r + tail)
  {
    hide IsSeparator, MatchesAt, Contains;
    var s, m := head + r + tail, |head|;
    forall p | 0 < p <= |s| && MatchesAt(s, p, REDACTED_PREFIX) ensures !IsSeparator(s[p - 1]) {
      if p < m {
        NoneInFront(head, r, tail, p);
      } else if p > m {
        NoneBehind(head, r, tail, p);
      }
    }
  }

  lemma NoneInFront(head: Text, r: Text, tail: Text, p: nat)
    requires !Contains(head, REDACTED_PREFIX) && p < |head| && r != [] && r[0] == '['
    ensures !MatchesAt(head + r + tail, p, REDACTED_PREFIX)
  {
    var s, m := head + r + tail, |head|;
    assert !MatchesAt(head, p, REDACTED_PREFIX);
    assert s[m] == '[' && |REDACTED_PREFIX| == 9;
    if p + 9 <= m {
      assert s[p..p + 9] == head[p..p + 9];
    } else {
      InnerByte(m - p);
      assert p + 9 <= |s| ==> s[p..p + 9][m - p] == s[m];
    }
  }

  lemma NoneBehind(head: Text, r: Text, tail: Text, p: nat)
    requires !Contains(tail, REDACTED_PREFIX) && |head| < p && forall k | 0 < k < |r| :: r[k] != '['
    ensures !MatchesAt(head + r + tail, p, REDACTED_PREFIX)
  {
    var s, n := head + r + tail, |head| + |r|;
    assert REDACTED_PREFIX[0] == '[' && |REDACTED_PREFIX| == 9;
    if p < n {
      assert s[p] == r[p - |head|];
      assert p + 9 <= |s| ==> s[p..p + 9][0] == s[p];
    } else if p + 9 <= |s| {
      assert s[p..p + 9] == tail[p - n..p - n + 9];
      assert !MatchesAt(tail, p - n, REDACTED_PREFIX);
    }
  }

  lemma NoHeaderAround(a: Text, tail: Text)
    requires '-' !in a && !ContainsCi(tail, BEGIN)
    ensures !ContainsCi(a + tail, BEGIN)
  {
    var s := a + tail;
    hide MatchesCi, BEGIN;
    forall i | 0 <= i <= |s| ensures !MatchesCi(s, i, BEGIN) {
      if i >= |a| {
        assert |a| + (i - |a|) == i;
        MatchesShift(a, tail, i - |a|, BEGIN);
      } else {
        assert s[i] == a[i] && a[i] in a;
        if MatchesCi(s, i, BEGIN) {
          HeaderBytes(s, i);
        }
      }
    }
  }

  /** The tail that a caller receives is clean if the whole is, wherever it was cut. */
  lemma TailIsClean(value: Text)
    requires CopiesNoHot(value)
    ensures IsClean(RedactedTail(value))
  {
    hide Clean, NoHot, RedactText, Boundary;
    IsCleanIff(value);
    var out := RedactText(value);
    if |out| > MAX_DIAGNOSTIC_BYTES {
      CleanSuffix(SECRET_ANCHORS, false, out, Boundary(out, |out| - MAX_DIAGNOSTIC_BYTES));
    }
  }

  // ---------------------------------------------------------------------------------------------
  // A text that does not come out clean

  /** `mnemonic: ` and a value without quotes. */
  predicate AtMnemonic(u: Text) {
    && |u| > 10 && u[8] == ':' && u[9] == ' ' && !IsPad(u[10]) && !IsQuote(u[10])
    && u[0] == 'm' && u[1] == 'n' && u[2] == 'e' && u[3] == 'm'
    && u[4] == 'o' && u[5] == 'n' && u[6] == 'i' && u[7] == 'c'
  }

  lemma MnemonicEntries()
    ensures |ANCHOR_TABLE| == 20 && ANCHOR_TABLE[19] == Entry("mnemonic", Line)
    ensures forall k | 16 <= k < 18 :: |ANCHOR_TABLE[k].name| > 0 && ANCHOR_TABLE[k].name[0] == 'r'
    ensures |ANCHOR_TABLE[18].name| > 1 && ANCHOR_TABLE[18].name[1] == 'a'
  {
  }

  lemma NotBeforeMnemonic(u: Text, k: nat)
    requires AtMnemonic(u) && k < 19
    ensures |ANCHOR_TABLE| == 20 && !MatchesCi(u, 0, ANCHOR_TABLE[k].name)
  {
    hide MatchesCi;
    MnemonicEntries();
    if k < 8 {
      FirstEntries(k);
    } else if k < 16 {
      NextEntries(k);
    }
    if k < 18 {
      DiffersAt(u, ANCHOR_TABLE[k].name, 0);
    } else {
      DiffersAt(u, ANCHOR_TABLE[k].name, 1);
    }
  }

  lemma DiffersAt(u: Text, needle: Text, j: nat)
    requires j < |needle| && j < |u| && Lower(u[j]) != Lower(needle[j])
    ensures !MatchesCi(u, 0, needle)
  {
    assert Lower(u[0 + j]) != Lower(needle[j]);
  }

  lemma IsMnemonic(u: Text)
    requires AtMnemonic(u)
    ensures MatchesCi(u, 0, "mnemonic")
  {
  }

  lemma MnemonicKey(u: Text)
    requires AtMnemonic(u)
    ensures FindKey(SECRET_ANCHORS, u, 0) == Some(Key(Line, 8))
  {
    hide FindKey, MatchesCi, AtMnemonic;
    MnemonicEntries();
    IsMnemonic(u);
    forall k | 0 <= k < 19 ensures !MatchesCi(u, 0, SECRET_ANCHORS[k].name) {
      NotBeforeMnemonic(u, k);
    }
    KeyOfEntry(SECRET_ANCHORS, u, 19);
  }

  lemma MnemonicStart(f: bool, u: Text)
    requires AtMnemonic(u)
    ensures ValueStart(f, u, 8) == Some(10)
  {
  }

  /** The value of a mnemonic runs to the end of the line. */
  lemma MnemonicParse(f: bool, u: Text)
    requires AtMnemonic(u) && forall c | c in u[10..] :: !IsNewline(c)
    ensures Parse(SECRET_ANCHORS, f, u, 0) == Some(Hit(Line, 10, |u|))
  {
    hide FindKey, ValueStart;
    MnemonicKey(u);
    MnemonicStart(f, u);
  }

  /** A payload behind `a`, read at its own place: its value lies inside it. */
  predicate PayloadFound(found: Option<Hit>, a: Text) {
    && found.Some? && |a| + 7 < found.value.start < found.value.end
    && found.value.start < |a| + |PAYLOAD| && PAYLOAD[found.value.start - |a|] != '['
  }

  lemma PayloadAt(g: bool, a: Text)
    ensures PayloadFound(Parse(SECRET_ANCHORS, g, a + PAYLOAD, |a|), a)
  {
    PayloadFront(g);
    hide Parse, PayloadFound, Shift;
    ParseShift(SECRET_ANCHORS, g, a, PAYLOAD, 0);
    PayloadMoves(Parse(SECRET_ANCHORS, g, PAYLOAD, 0), a);
  }

  lemma PayloadMoves(found: Option<Hit>, a: Text)
    requires PayloadFound(found, [])
    ensures PayloadFound(Shift(found, |a|), a)
  {
  }

  lemma PayloadFront(g: bool)
    ensures PayloadFound(Parse(SECRET_ANCHORS, g, PAYLOAD, 0), [])
  {
    RpcPassIsKnown();
    hide KnowsRpcPass, FindKey;
    PayloadIsUnmarked(SECRET_ANCHORS, g, []);
    assert PAYLOAD + [] == PAYLOAD;
  }

  lemma PayloadIsHot(f: bool, a: Text)
    ensures !ColdBut(PATTERNS, SECRET_ANCHORS, f, a + PAYLOAD, |a|)
  {
    var u, g := a + PAYLOAD, After(f, a);
    assert u[..|a|] == a;
    PayloadAt(g, a);
    hide Parse, After, PATTERNS, PAYLOAD;
    var h := Parse(SECRET_ANCHORS, g, u, |a|).value;
    PayloadIsNoPattern(u, h.start, h.start - |a|);
    hide Opens;
    assert u[h.start..h.end][0] == u[h.start];
  }

  lemma PayloadIsNoPattern(u: Text, v: nat, k: nat)
    requires v < |u| && 7 < k < |PAYLOAD| && u[v] == PAYLOAD[k]
    ensures !Opens(PATTERNS, u, v)
  {
    assert PAYLOAD[8] == '0';
    forall p | p in PATTERNS ensures !(p <= u[v..]) {
      assert p == RPC_USER || p == BASIC_AUTH_PATTERN || p == USER_AND_PASSWORD;
      assert p[0] != '0' && u[v..][0] == u[v];
    }
  }

  /** Behind a block's marker, on the line of a mnemonic, nothing is looked at. */
  lemma HotBehindMarker(r: Text)
    requires KEY_MARKER <= r && forall c | c in r :: !IsNewline(c)
    ensures !NoHot(PATTERNS, SECRET_ANCHORS, false, false, "mnemonic: " + r + (" " + PAYLOAD))
  {
    var u := "mnemonic: " + r + (" " + PAYLOAD);
    var a := "mnemonic: " + r + " ";
    MnemonicLine(r);
    PayloadIsHot(false, a);
    Regroup("mnemonic: ", r, " ", PAYLOAD);
    HotInside(SECRET_ANCHORS, u, Hit(Line, 10, |u|), |a|);
  }

  lemma HotInside(keys: KeyTable, u: Text, h: Hit, j: nat)
    requires Parse(keys, false, u, 0) == Some(h) && REDACTED_PREFIX <= u[h.start..h.end]
    requires h.start <= j < h.end && !ColdBut(PATTERNS, keys, false, u, j)
    ensures !NoHot(PATTERNS, keys, false, false, u)
  {
    hide Parse, ColdBut, After;
  }

  lemma Regroup(x: Text, y: Text, z: Text, w: Text)
    ensures x + y + z + w == x + y + (z + w)
  {
  }

  lemma MnemonicLine(r: Text)
    requires KEY_MARKER <= r && forall c | c in r :: !IsNewline(c)
    ensures var u := "mnemonic: " + r + (" " + PAYLOAD);
      && Parse(SECRET_ANCHORS, false, u, 0) == Some(Hit(Line, 10, |u|)) && REDACTED_PREFIX <= u[10..|u|]
  {
    var head, tail := "mnemonic: ", " " + PAYLOAD;
    var u := head + r + tail;
    assert |KEY_MARKER| == 23 && KEY_MARKER[..9] == REDACTED_PREFIX;
    assert u[10..] == u[10..|u|] == r + tail && (r + tail)[..9] == r[..9] == KEY_MARKER[..9];
    assert u[10] == r[0] == KEY_MARKER[0];
    TailHasNoNewline();
    hide Parse;
    MnemonicParse(false, u);
  }

  lemma TailHasNoNewline()
    ensures forall c | c in " " + PAYLOAD :: !IsNewline(c)
  {
  }

  /** One text per key body: behind a masked block, on the line of a mnemonic, a password is left. Such a
      text need not hold any marker when it comes in. */
  lemma BlockHidesKey(body: Text)
    requires '-' !in body
    ensures var value := "mnemonic: " + BlockOf(body) + (" " + PAYLOAD);
      && !IsClean(RedactText(value)) && ('[' !in body ==> !Contains(value, REDACTED_PREFIX))
  {
    var r, tail := Redaction(52 + |body|, KEY_MARKER), " " + PAYLOAD;
    var value := "mnemonic: " + BlockOf(body) + tail;
    NoHeaderInTail();
    hide RedactText, Redact, BlockOf, Clean, NoHot, Contains, ContainsCi;
    OneBlockOnly("mnemonic: ", body, tail);
    MarkerOnOneLine(52 + |body|);
    HotBehindMarker(r);
    IsCleanIff(value);
    if '[' !in body {
      NoMarkerIn(body);
    }
  }

  lemma NoHeaderInTail()
    ensures !ContainsCi(" " + PAYLOAD, BEGIN) && '-' !in "mnemonic: "
  {
    assert |BEGIN| == 11 && |" " + PAYLOAD| == 10;
  }

  lemma MarkerOnOneLine(n: nat)
    ensures forall c | c in Redaction(n, KEY_MARKER) :: !IsNewline(c)
  {
    assert forall c | c in KEY_MARKER :: !IsNewline(c);
  }

  lemma NoMarkerIn(body: Text)
    requires '[' !in body
    ensures !Contains("mnemonic: " + BlockOf(body) + (" " + PAYLOAD), REDACTED_PREFIX)
  {
    assert Lacks("mnemonic: ", '[') && Lacks(" " + PAYLOAD, '[') && Lacks(body, '[');
    assert Lacks(BEGIN, '[') && Lacks(PRIVATE_KEY, '[') && Lacks(DASHES, '[') && Lacks(END_MARKER, '[');
    hide Lacks;
    LacksConcat(PRIVATE_KEY, DASHES, '[');
    LacksConcat(BEGIN, PRIVATE_KEY + DASHES, '[');
    LacksConcat(body, END_MARKER, '[');
    LacksConcat(HeaderLine(), body + END_MARKER, '[');
    LacksConcat("mnemonic: ", BlockOf(body), '[');
    LacksConcat("mnemonic: " + BlockOf(body), " " + PAYLOAD, '[');
    assert REDACTED_PREFIX[0] == '[';
    LacksMeansAbsent("mnemonic: " + BlockOf(body) + (" " + PAYLOAD), REDACTED_PREFIX, 0);
  }
}
