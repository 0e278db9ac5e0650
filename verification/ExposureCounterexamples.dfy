/** Texts with a secret that redaction leaves in clear. */
module ExposureCounterexamples {
  import opened AnchoredClean
  import opened AnchoredCover
  import opened AnchoredIdempotence
  import opened AnchoredRuns
  import opened AnchoredScan
  import opened AnchoredTightness
  import opened CleanOutput
  import opened Exposure
  import opened Markers
  import opened Options
  import opened PrivateKeyCoverage
  import opened PrivateKeys
  import opened RedactCounterexamples
  import opened Redactor
  import opened Search
  import opened Utf8

  // ---------------------------------------------------------------------------------------------
  // Words behind a marker

  const MNEMONIC: Text := "mnemonic: "

  lemma MnemonicFront(t: Text)
    requires t != [] && !IsPad(t[0]) && !IsQuote(t[0])
    ensures AtMnemonic(MNEMONIC + t) && |MNEMONIC| == 10 && (MNEMONIC + t)[10..] == t
  {
  }

  lemma MarkedLine(t: Text)
    requires REDACTED_PREFIX <= t && forall c | c in t :: !IsNewline(c)
    ensures var u := MNEMONIC + t;
      Parse(SECRET_ANCHORS, false, u, 0) == Some(Hit(Line, 10, |u|)) && |u| > 10 && u[10..|u|] == t
  {
    var u := MNEMONIC + t;
    assert t[0] == '[';
    MnemonicFront(t);
    hide Parse, AtMnemonic, MNEMONIC;
    MnemonicParse(false, u);
    assert u[10..|u|] == u[10..];
  }

  /** The rest of a marked line is copied, whatever it is. */
  lemma BehindMarker(t: Text)
    requires REDACTED_PREFIX <= t && forall c | c in t :: !IsNewline(c)
    ensures RedactAnchored(MNEMONIC + t) == MNEMONIC + t
    ensures !IsMarker(t) ==> !HidesSecrets(MNEMONIC + t)
  {
    hide Parse, HidesSecrets, Covers, MNEMONIC, Scan, IsMarker;
    var u := MNEMONIC + t;
    MarkedLine(t);
    CopyStep(SECRET_ANCHORS, false, u);
    assert u[..|u|] == u && u[|u|..] == [] && u + [] == u;
    NothingScanned(After(false, u));
    if !IsMarker(t) {
      MarkedIsNotCovered(u);
      HidesSecretsIff(u);
    }
  }

  lemma NothingScanned(f: bool)
    ensures Scan(SECRET_ANCHORS, f, []) == []
  {
  }

  lemma MarkedIsNotCovered(u: Text)
    requires |u| >= 10 && Parse(SECRET_ANCHORS, false, u, 0) == Some(Hit(Line, 10, |u|))
    requires REDACTED_PREFIX <= u[10..|u|] && !IsMarker(u[10..|u|])
    ensures !Covers(true, SECRET_ANCHORS, false, u)
  {
    hide Parse, After, IsMarker;
    AtStart(SECRET_ANCHORS, false, u);
    assert !CoversAt(true, SECRET_ANCHORS, false, u, 0);
  }

  /** A marker and its padding go on with stars only. */
  lemma GoesOnOtherwise(value: Text, k: nat)
    requires 23 <= k < |value| && value[k] != '*'
    ensures !IsMarker(value)
  {
    MarkersAreShort();
    forall m | m in MARKERS ensures !(value <= m + Stars(|value|)) {
      assert (m + Stars(|value|))[k] == '*';
    }
  }

  lemma MarkersAreShort()
    ensures forall m | m in MARKERS :: |m| <= 23
  {
  }

  const SEED: Text := " able"

  lemma SeedBytes()
    ensures |SEED| == 5 && SEED[0] == ' ' && (forall c | c in SEED :: !IsNewline(c))
    ensures Lacks(SEED, 'g') && Lacks(SEED, '1') && Lacks(SEED, 'y')
  {
  }

  lemma MarkedSeedIsNoMarker()
    ensures !IsMarker(REDACTED + SEED)
  {
    SeedBytes();
    var value := REDACTED + SEED;
    assert |REDACTED| == 10 && value[9] == ']' && value[10] == ' ';
    NinthBytes();
    forall m | m in MARKERS ensures !(value <= m + Stars(|value|)) {
      var whole := m + Stars(|value|);
      assert whole[9] == m[9] && (m == REDACTED ==> whole[10] == '*');
    }
  }

  lemma NinthBytes()
    ensures REDACTED_BASIC_AUTH != [] && |REDACTED_BASIC_AUTH| > 9 && REDACTED_BASIC_AUTH[9] == ':'
    ensures |KEY_MARKER| > 9 && KEY_MARKER[9] == ':'
  {
  }

  /** A seed behind a marker stays. */
  lemma SeedBehindMarker()
    ensures var value := "mnemonic: [REDACTED] able";
      RedactText(value) == value && !HidesSecrets(RedactPrivateKeys(value))
  {
    var value := MNEMONIC + (REDACTED + SEED);
    SeedExampleSpelled();
    SeedExampleIsPlain();
    SeedBytes();
    RedactedOnOneLine();
    hide HidesSecrets, RedactText, RedactAnchored, Redact, Lacks, MNEMONIC, SEED, REDACTED;
    MarkedSeedIsNoMarker();
    BehindMarker(REDACTED + SEED);
    PlainRedact(value);
    PlainHasNoBlock(value);
  }

  lemma RedactedOnOneLine()
    ensures REDACTED_PREFIX <= REDACTED + SEED && forall c | c in REDACTED :: !IsNewline(c)
  {
    assert (REDACTED + SEED)[..9] == REDACTED[..9] == REDACTED_PREFIX;
  }

  lemma SeedExampleSpelled()
    ensures "mnemonic: [REDACTED] able" == MNEMONIC + (REDACTED + SEED)
  {
  }

  lemma SeedExampleIsPlain()
    ensures IsPlain(MNEMONIC + (REDACTED + SEED))
  {
    assert IsPlain(MNEMONIC) && IsPlain(REDACTED) && IsPlain(SEED);
    hide IsPlain;
    PlainConcat(REDACTED, SEED);
    PlainConcat(MNEMONIC, REDACTED + SEED);
  }

  lemma PlainHasNoBlock(s: Text)
    requires IsPlain(s)
    ensures RedactPrivateKeys(s) == s
  {
    PlainNeedles();
    hide Lacks, ContainsCi, Contains, Redact;
    LacksMeansAbsent(s, BEGIN, 7);
    NothingToRedact(s);
  }

  /** So does one behind a block, for every body: the block's marker makes the line count as redacted. */
  lemma SeedBehindBlock(body: Text)
    requires '-' !in body
    ensures !HidesSecrets(RedactPrivateKeys(MNEMONIC + BlockOf(body) + SEED))
  {
    hide *;
    var r := Redaction(52 + |body|, KEY_MARKER);
    NoHeaderInSeed();
    OneBlockOnly(MNEMONIC, body, SEED);
    KeyMarkerStart(52 + |body|);
    PaddedSeed(r);
    MarkerOnOneLine(52 + |body|);
    SeedOnOneLine(r);
    BehindMarker(r + SEED);
    Regrouped(MNEMONIC, r, SEED);
  }

  lemma PaddedSeed(r: Text)
    requires |r| >= 23
    ensures !IsMarker(r + SEED)
  {
    SeedBytes();
    GoesOnOtherwise(r + SEED, |r|);
  }

  lemma SeedOnOneLine(r: Text)
    requires forall c | c in r :: !IsNewline(c)
    ensures forall c | c in r + SEED :: !IsNewline(c)
  {
    SeedBytes();
    hide SEED;
  }

  lemma NoHeaderInSeed()
    ensures !ContainsCi(SEED, BEGIN) && '-' !in MNEMONIC
  {
    assert |BEGIN| == 11 && |SEED| == 5;
  }

  lemma KeyMarkerStart(n: nat)
    requires n >= 23
    ensures var r := Redaction(n, KEY_MARKER); |r| == n && REDACTED_PREFIX <= r + SEED
  {
    var r := Redaction(n, KEY_MARKER);
    assert |KEY_MARKER| == 23 && KEY_MARKER[..9] == REDACTED_PREFIX;
    assert (r + SEED)[..9] == r[..9] == KEY_MARKER[..9];
  }

  // ---------------------------------------------------------------------------------------------
  // A key inside a token

  const TOKEN: Text := "rpcpass=mnemonic:"

  /** `rpcpass=mnemonic: ` and words. */
  predicate AtToken(u: Text) {
    && |u| > 18 && AtRpcPass(u) && u[7] == '=' && AtMnemonic(u[8..])
  }

  lemma TokenParse(f: bool, u: Text)
    requires AtToken(u)
    ensures Parse(SECRET_ANCHORS, f, u, 0) == Some(Hit(Token, 8, 17)) && u[8] == 'm' && u[17] == ' '
  {
    RpcPassIsKnown();
    TokenBytes(u);
    hide FindKey, AtToken, AtMnemonic, AtRpcPass;
    RpcPassParse(SECRET_ANCHORS, f, u);
  }

  lemma TokenBytes(u: Text)
    requires AtToken(u)
    ensures AtRpcPass(u) && u[8] == 'm' && u[17] == ' ' && ValueEnd(Token, u, 8) == 17
    ensures forall f :: ValueStart(f, u, 7) == Some(8)
  {
    var w := u[8..];
    assert u[8] == w[0] && u[9] == w[1] && u[10] == w[2] && u[11] == w[3] && u[12] == w[4];
    assert u[13] == w[5] && u[14] == w[6] && u[15] == w[7] && u[16] == w[8] && u[17] == w[9];
  }

  /** The token takes the key of the words with it, and the words stay. */
  lemma KeyInsideToken(u: Text)
    requires AtToken(u) && (forall c | c in u[18..] :: !IsNewline(c)) && IsSecret(u[18..]) && !Spelled(u[18..])
    ensures Parse(SECRET_ANCHORS, After(false, u[..8]), u, 8) == Some(Hit(Line, 18, |u|))
    ensures !HidesSecrets(u)
  {
    hide Parse, After, IsSecret, Spelled, HidesSecrets, AtMnemonic, AtRpcPass;
    TokenParse(false, u);
    var g, w := After(false, u[..8]), u[8..];
    assert w[10..] == u[18..];
    MnemonicParse(g, w);
    ParseSuffix(SECRET_ANCHORS, g, u, 8);
    assert u[18..|u|] == u[18..];
    var h := Hit(Token, 8, 17);
    assert u[8..17][0] == 'm';
    assert Outruns(true, SECRET_ANCHORS, false, u, h, 8);
    AtStart(SECRET_ANCHORS, false, u);
    assert !CoversAt(true, SECRET_ANCHORS, false, u, 0);
    HidesSecretsIff(u);
  }

  lemma TokenSpelled()
    ensures "rpcpass=mnemonic: able" == TOKEN + SEED && "rpcpass=[REDACTED] able" == "rpcpass=" + REDACTED + SEED
    ensures AtToken(TOKEN + SEED) && |TOKEN| == 17 && TOKEN[..8] == "rpcpass=" && TOKEN[8] == 'm'
  {
    assert (TOKEN + SEED)[8..] == MNEMONIC + "able";
    assert AtMnemonic(MNEMONIC + "able");
  }

  lemma TokenIsPlain()
    ensures IsPlain(TOKEN + SEED)
  {
    SeedBytes();
    assert IsPlain("rpcpass=") && IsPlain("mnemonic:") && TOKEN == "rpcpass=" + "mnemonic:";
    hide Lacks, TOKEN, SEED;
    PlainConcat("rpcpass=", "mnemonic:");
    PlainConcat(TOKEN, SEED);
  }

  lemma SeedScan(f: bool)
    ensures Scan(SECRET_ANCHORS, f, SEED) == SEED
  {
    SeedOpensNoKey();
    assert SEED + [] == SEED;
    hide Scan, After, SEED, FindKey;
    WordIsCopied(SECRET_ANCHORS, f, SEED, SEED);
    NothingScanned(After(f, SEED));
    assert SEED[|SEED|..] == [];
  }

  lemma SeedOpensNoKey()
    ensures NoKeyInside(SEED)
  {
  }

  lemma WordsAreSecret()
    ensures IsSecret("able") && !Spelled("able") && "able" != []
  {
    CredentialHeads();
    assert REDACTED_PREFIX[0] == '[';
    assert "able"[0] == 'a' && "able"[1] == 'b';
    hide USER_AND_PASSWORD, BASIC_AUTH_PATTERN, RPC_USER;
  }

  /** Neither marker nor header, and the seed stays: its key is masked with the token it stands in. */
  lemma SeedBehindToken()
    ensures var value := "rpcpass=mnemonic: able";
      && RedactPrivateKeys(value) == value && !Contains(value, REDACTED_PREFIX)
      && RedactText(value) == "rpcpass=[REDACTED] able" && !HidesSecrets(value)
  {
    var value := TOKEN + SEED;
    TokenSpelled();
    TokenIsPlain();
    WordsAreSecret();
    SeedSlices();
    TokenHasNoBracket();
    hide HidesSecrets, RedactText, Redact, Lacks, TOKEN, SEED, REDACTED, AtToken, IsPlain, IsSecret, Spelled;
    hide Scan, Parse, Contains;
    KeyInsideToken(value);
    PlainRedact(value);
    PlainHasNoBlock(value);
    TokenParse(false, value);
    StepWrites(SECRET_ANCHORS, false, value, Hit(Token, 8, 17));
    SeedScan(After(false, value[..17]));
  }

  lemma SeedSlices()
    ensures var value := TOKEN + SEED;
      && |value| == 22 && value[..8] == "rpcpass=" && value[17..] == SEED && value[18..] == "able"
      && Segment(value, Hit(Token, 8, 17)) == "rpcpass=" + REDACTED
  {
    var value := TOKEN + SEED;
    assert value[..17] == TOKEN && value[17..] == SEED && value[8..17] == TOKEN[8..17];
    assert value[..8] == TOKEN[..17][..8];
    assert value[18..] == SEED[1..];
    MarkNine(value[8..17]);
  }

  lemma MarkNine(value: Text)
    requires |value| == 9 && value[0] != '['
    ensures Mark(value) == REDACTED
  {
    assert |REDACTED| == 10 && Stars(0) == [];
  }

  lemma TokenHasNoBracket()
    ensures !Contains(TOKEN + SEED, REDACTED_PREFIX) && forall c | c in "able" :: !IsNewline(c)
  {
    assert Lacks(TOKEN, '[') && Lacks(SEED, '[') && REDACTED_PREFIX[0] == '[';
    hide Lacks, Contains, ContainsCi;
    LacksConcat(TOKEN, SEED, '[');
    LacksMeansAbsent(TOKEN + SEED, REDACTED_PREFIX, 0);
  }
}
