/** The diagnostics redactor: private keys, then anchored values, then fixed credential spellings;
    then a bounded cut between two characters. */
module Redactor {
  import opened AnchoredPass
  import opened AnchoredScan
  import opened Options
  import opened PrivateKeys
  import opened Scripts
  import opened Search
  import opened Utf8

  const RPC_USER: Text := "admin1"
  const USER_AND_PASSWORD: Text := "admin1:123"
  const BASIC_AUTH_PATTERN: Text := "YWRtaW4xOjEyMw=="
  const REDACTED_BASIC_AUTH: Text := "[REDACTED::AUTH]"

  const MAX_DIAGNOSTIC_BYTES: nat := 16 * 1024
  const MAX_REDACTION_CONTEXT_BYTES: nat := 32
  const TRUNCATION_MARKER: Text := "[TRUNCATED]"

  /** The three pattern replacements, in order. */
  function RedactPatterns(s: Text): Text {
    var s1 := Replace(s, USER_AND_PASSWORD, REDACTED);
    var s2 := Replace(s1, BASIC_AUTH_PATTERN, REDACTED_BASIC_AUTH);
    Replace(s2, RPC_USER, REDACTED)
  }

  function RedactText(value: Text): Text {
    RedactPatterns(RedactAnchored(RedactPrivateKeys(value)))
  }

  function Utf8Tail(value: Text, maximum: nat): Text {
    if |value| <= maximum then value else value[Boundary(value, |value| - maximum)..]
  }

  /** A bound too small for the truncation marker keeps text instead. */
  function Utf8Head(value: Text, maximum: nat): Text {
    if |value| <= maximum then value
    else
      var marker := if maximum > |TRUNCATION_MARKER| then TRUNCATION_MARKER else "";
      value[..BoundaryBefore(value, maximum - |marker|)] + marker
  }

  function RedactedTail(value: Text): Text {
    Utf8Tail(RedactText(value), MAX_DIAGNOSTIC_BYTES)
  }

  function RedactedHead(value: Text, maximum: nat): Text {
    Utf8Head(RedactText(value), maximum)
  }

  function JoinDiagnostics(existing: Text, addition: Text): Text {
    if existing == "" then RedactedTail(addition) else RedactedTail(existing + "; " + addition)
  }

  // ---------------------------------------------------------------------------------------------
  // No credential is left

  /** None of the fixture credentials, in any of the spellings that are redacted. */
  predicate CredentialFree(s: Text) {
    !Contains(s, RPC_USER) && !Contains(s, USER_AND_PASSWORD) && !Contains(s, BASIC_AUTH_PATTERN)
  }

  lemma MarkersBarUser()
    ensures Bars(REDACTED, RPC_USER) && Bars(REDACTED, BASIC_AUTH_PATTERN)
  {
  }

  lemma AuthBars()
    ensures Bars(REDACTED_BASIC_AUTH, BASIC_AUTH_PATTERN)
  {
  }

  lemma UserIsInside(s: Text)
    requires Contains(s, USER_AND_PASSWORD)
    ensures Contains(s, RPC_USER)
  {
    var i :| 0 <= i <= |s| && MatchesAt(s, i, USER_AND_PASSWORD);
    assert USER_AND_PASSWORD[..6] == RPC_USER;
    assert s[i..i + 6] == s[i..i + 10][..6];
    assert MatchesAt(s, i, RPC_USER);
  }

  /** Whatever the text was, the patterns leave no credential. */
  lemma PatternsRemoveCredentials(s: Text)
    ensures CredentialFree(RedactPatterns(s))
  {
    var s1 := Replace(s, USER_AND_PASSWORD, REDACTED);
    var s2 := Replace(s1, BASIC_AUTH_PATTERN, REDACTED_BASIC_AUTH);
    var s3 := Replace(s2, RPC_USER, REDACTED);
    MarkersBarUser();
    AuthBars();
    hide Replace, Contains;
    ReplaceRemoves(s1, BASIC_AUTH_PATTERN, REDACTED_BASIC_AUTH);
    ReplaceKeepsAbsent(s2, RPC_USER, REDACTED, BASIC_AUTH_PATTERN);
    ReplaceRemoves(s2, RPC_USER, REDACTED);
    if Contains(s3, USER_AND_PASSWORD) {
      UserIsInside(s3);
    }
  }

  lemma SuffixIsFree(s: Text, i: nat)
    requires CredentialFree(s) && i <= |s|
    ensures CredentialFree(s[i..])
  {
    hide Contains;
    AbsentTail(s, i, RPC_USER);
    AbsentTail(s, i, USER_AND_PASSWORD);
    AbsentTail(s, i, BASIC_AUTH_PATTERN);
  }

  /** Nothing appears across a cut that is closed by the truncation marker. */
  lemma {:induction false} AbsentBeforeMarker(s: Text, needle: Text)
    requires needle != [] && '[' !in needle && !Contains(s, needle) && needle[0] !in TRUNCATION_MARKER
    ensures !Contains(s + TRUNCATION_MARKER, needle)
    decreases |s|
  {
    if s == [] {
      assert s + TRUNCATION_MARKER == TRUNCATION_MARKER;
      assert TRUNCATION_MARKER == TRUNCATION_MARKER + [];
      if Contains(TRUNCATION_MARKER, needle) {
        ContainsBehind(TRUNCATION_MARKER, [], needle);
      }
    } else {
      AbsentTail(s, 1, needle);
      AbsentBeforeMarker(s[1..], needle);
      ContainsCons(s[0], s[1..] + TRUNCATION_MARKER, needle);
      assert [s[0]] + (s[1..] + TRUNCATION_MARKER) == s + TRUNCATION_MARKER;
      NotAcross(s, needle);
    }
  }

  lemma NotAcross(s: Text, needle: Text)
    requires needle != [] && '[' !in needle && !Contains(s, needle)
    ensures !(needle <= s + TRUNCATION_MARKER)
  {
    var t := s + TRUNCATION_MARKER;
    PrefixIsMatch(s, needle);
    assert t[|s|] == '[';
    if |needle| > |s| {
      assert needle[|s|] in needle;
    } else {
      assert t[..|needle|] == s[..|needle|];
    }
  }

  lemma PrefixIsFree(s: Text, i: nat, needle: Text)
    requires !Contains(s, needle) && i <= |s|
    ensures !Contains(s[..i], needle)
  {
    assert s[0..i] == s[..i];
    if Contains(s[0..i], needle) {
      ContainsPiece(s, 0, i, needle);
    }
  }

  lemma HeadIsFree(s: Text, i: nat)
    requires CredentialFree(s) && i <= |s|
    ensures CredentialFree(s[..i]) && CredentialFree(s[..i] + TRUNCATION_MARKER)
  {
    PrefixIsFree(s, i, RPC_USER);
    PrefixIsFree(s, i, USER_AND_PASSWORD);
    PrefixIsFree(s, i, BASIC_AUTH_PATTERN);
    NeedlesAndMarker();
    hide Contains;
    AbsentBeforeMarker(s[..i], RPC_USER);
    AbsentBeforeMarker(s[..i], USER_AND_PASSWORD);
    AbsentBeforeMarker(s[..i], BASIC_AUTH_PATTERN);
  }

  lemma NeedlesAndMarker()
    ensures '[' !in RPC_USER && '[' !in USER_AND_PASSWORD && '[' !in BASIC_AUTH_PATTERN
    ensures RPC_USER[0] !in TRUNCATION_MARKER && USER_AND_PASSWORD[0] !in TRUNCATION_MARKER
    ensures BASIC_AUTH_PATTERN[0] !in TRUNCATION_MARKER
  {
  }

  /** The patterns leave a text without credentials alone. */
  lemma PatternsLeaveFree(s: Text)
    requires CredentialFree(s)
    ensures RedactPatterns(s) == s
  {
    hide Replace, Contains;
    ReplaceAbsent(s, USER_AND_PASSWORD, REDACTED);
    ReplaceAbsent(s, BASIC_AUTH_PATTERN, REDACTED_BASIC_AUTH);
    ReplaceAbsent(s, RPC_USER, REDACTED);
  }

  // ---------------------------------------------------------------------------------------------
  // UTF-8

  lemma {:induction false} ReplaceKeepsUtf8(s: Text, pattern: Text, m: Text, st: State)
    requires pattern != [] && (forall c | c in pattern :: IsAscii(c)) && (forall c | c in m :: IsAscii(c))
    requires Reachable(st) && Run(st, s) == Start
    ensures Run(st, Replace(s, pattern, m)) == Start
    decreases |s|
  {
    hide Step;
    if s == [] {
    } else if pattern <= s {
      assert s[0] == pattern[0] && pattern[0] in pattern;
      PendingOrStart(st, s);
      RunAscii(pattern);
      RunAscii(m);
      assert s == pattern + s[|pattern|..];
      RunConcat(Start, pattern, s[|pattern|..]);
      ReplaceKeepsUtf8(s[|pattern|..], pattern, m, Start);
      RunConcat(Start, m, Replace(s[|pattern|..], pattern, m));
    } else {
      StepReachable(st, s[0]);
      ReplaceKeepsUtf8(s[1..], pattern, m, Step(st, s[0]));
      var r := Replace(s, pattern, m);
      assert r[1..] == Replace(s[1..], pattern, m);
    }
  }

  lemma PatternsAreAscii()
    ensures forall c | c in USER_AND_PASSWORD :: IsAscii(c)
    ensures forall c | c in BASIC_AUTH_PATTERN :: IsAscii(c)
    ensures forall c | c in RPC_USER :: IsAscii(c)
    ensures forall c | c in REDACTED :: IsAscii(c)
    ensures forall c | c in REDACTED_BASIC_AUTH :: IsAscii(c)
    ensures forall c | c in TRUNCATION_MARKER :: IsAscii(c)
  {
  }

  lemma RedactKeepsUtf8(value: Text)
    requires Valid(value)
    ensures Valid(RedactText(value))
  {
    PatternsAreAscii();
    hide Run, Replace, Scan, Redact, IsAscii;
    WholeIsSlice(value);
    KeepsUtf8(value, 0);
    var v1 := RedactPrivateKeys(value);
    StartIsReachable();
    ScanKeepsUtf8(SECRET_ANCHORS, false, v1, Start);
    var v2 := RedactAnchored(v1);
    ReplaceKeepsUtf8(v2, USER_AND_PASSWORD, REDACTED, Start);
    var v3 := Replace(v2, USER_AND_PASSWORD, REDACTED);
    ReplaceKeepsUtf8(v3, BASIC_AUTH_PATTERN, REDACTED_BASIC_AUTH, Start);
    var v4 := Replace(v3, BASIC_AUTH_PATTERN, REDACTED_BASIC_AUTH);
    ReplaceKeepsUtf8(v4, RPC_USER, REDACTED, Start);
  }

  lemma StartIsReachable()
    ensures Reachable(Start)
  {
  }

  // ---------------------------------------------------------------------------------------------
  // Main results on what callers see

  predicate Rendered(s: Text, maximum: nat) {
    |s| <= maximum && Valid(s) && CredentialFree(s)
  }

  /** The tail that is kept is bounded, valid UTF-8 and free of credentials. */
  lemma TailIsRendered(value: Text)
    requires Valid(value)
    ensures Rendered(RedactedTail(value), MAX_DIAGNOSTIC_BYTES)
  {
    hide RedactText, Valid, CredentialFree;
    var out := RedactText(value);
    RedactKeepsUtf8(value);
    RedactedIsFree(value);
    if |out| > MAX_DIAGNOSTIC_BYTES {
      var i := Boundary(out, |out| - MAX_DIAGNOSTIC_BYTES);
      ValidSplit(out, i);
      SuffixIsFree(out, i);
    }
  }

  lemma RedactedIsFree(value: Text)
    ensures CredentialFree(RedactText(value))
  {
    hide RedactAnchored, RedactPrivateKeys, RedactPatterns;
    PatternsRemoveCredentials(RedactAnchored(RedactPrivateKeys(value)));
  }

  /** So is the head, whatever the bound. */
  lemma HeadIsRendered(value: Text, maximum: nat)
    requires Valid(value)
    ensures Rendered(RedactedHead(value, maximum), maximum)
  {
    hide RedactText, Valid, CredentialFree;
    var out := RedactText(value);
    RedactKeepsUtf8(value);
    RedactedIsFree(value);
    if |out| > maximum {
      var marker := if maximum > |TRUNCATION_MARKER| then TRUNCATION_MARKER else "";
      var i := BoundaryBefore(out, maximum - |marker|);
      CutIsValid(out, i);
      HeadIsFree(out, i);
      MarkerIsValid();
      ValidConcat(out[..i], TRUNCATION_MARKER);
      assert out[..i] + "" == out[..i];
    }
  }

  lemma CutIsValid(s: Text, i: nat)
    requires Valid(s) && i <= |s| && (i == 0 || IsCharBoundary(s, i))
    ensures Valid(s[..i])
  {
    if i > 0 {
      ValidSplit(s, i);
    }
  }

  lemma MarkerIsValid()
    ensures Valid(TRUNCATION_MARKER) && Valid("; ")
  {
    PatternsAreAscii();
    RunAscii(TRUNCATION_MARKER);
    RunAscii("; ");
  }

  lemma JoinIsRendered(existing: Text, addition: Text)
    requires Valid(existing) && Valid(addition)
    ensures Rendered(JoinDiagnostics(existing, addition), MAX_DIAGNOSTIC_BYTES)
  {
    hide RedactedTail, Valid, Rendered;
    if existing == "" {
      TailIsRendered(addition);
    } else {
      MarkerIsValid();
      ValidConcat(existing, "; ");
      ValidConcat(existing + "; ", addition);
      TailIsRendered(existing + "; " + addition);
    }
  }

  /** The cut wastes nothing: no longer valid suffix fits the bound. */
  lemma TailIsLongest(value: Text, maximum: nat, k: nat)
    requires Valid(value) && k <= |value| && Valid(value[k..]) && |value| - k <= maximum
    ensures |value[k..]| <= |Utf8Tail(value, maximum)|
  {
    if k < |value| {
      LeadCharacter(value[k..]);
      assert value[k] == value[k..][0];
      assert IsCharBoundary(value, k);
    }
  }

  // ---------------------------------------------------------------------------------------------
  // All passes as scripts

  datatype Credential = Credential(text: Text, marker: Text)

  /** The credential that a text opens with, the longest spelling first. */
  function CredentialAt(s: Text): (c: Option<Credential>)
    ensures c.Some? ==> c.value.text != [] && c.value.text <= s
  {
    if USER_AND_PASSWORD <= s then Some(Credential(USER_AND_PASSWORD, REDACTED))
    else if BASIC_AUTH_PATTERN <= s then Some(Credential(BASIC_AUTH_PATTERN, REDACTED_BASIC_AUTH))
    else if RPC_USER <= s then Some(Credential(RPC_USER, REDACTED))
    else None
  }

  /** All credentials, in one pass from the front. */
  function PatternScript(s: Text): Script
    decreases |s|
  {
    if s == [] then Done
    else match CredentialAt(s)
      case None => Keep(s[..1], PatternScript(s[1..]))
      case Some(c) => Mask(c.text, c.marker, PatternScript(s[|c.text|..]))
  }

  lemma CredentialHeads()
    ensures |USER_AND_PASSWORD| == 10 && USER_AND_PASSWORD[0] == 'a' && USER_AND_PASSWORD[1] == 'd'
    ensures |RPC_USER| == 6 && RPC_USER[0] == 'a' && RPC_USER[1] == 'd'
    ensures |BASIC_AUTH_PATTERN| == 16 && BASIC_AUTH_PATTERN[0] == 'Y' && BASIC_AUTH_PATTERN[1] == 'W'
  {
  }

  lemma MarkersSpellNone()
    ensures 'a' !in REDACTED && 'Y' !in REDACTED && 'a' !in REDACTED_BASIC_AUTH
    ensures REDACTED != [] && REDACTED[0] == '[' && REDACTED_BASIC_AUTH != [] && REDACTED_BASIC_AUTH[0] == '['
  {
  }

  lemma AuthHasNoHead()
    ensures |BASIC_AUTH_PATTERN| == 16
    ensures forall k | 0 <= k < 16 :: BASIC_AUTH_PATTERN[k] != 'a' || (k + 1 < 16 && BASIC_AUTH_PATTERN[k + 1] != 'd')
  {
  }

  lemma UserHasNoHead()
    ensures |RPC_USER| == 6 && 'Y' !in RPC_USER && 'a' !in RPC_USER[1..]
  {
  }

  /** No credential opens inside a marker or inside the rest of another one. */
  lemma NoneInside()
    ensures |USER_AND_PASSWORD| > 1 && |BASIC_AUTH_PATTERN| > 1 && |RPC_USER| > 1
    ensures NoStart(REDACTED, BASIC_AUTH_PATTERN) && NoStart(REDACTED, RPC_USER)
    ensures NoStart(REDACTED_BASIC_AUTH, RPC_USER) && NoStart(BASIC_AUTH_PATTERN, USER_AND_PASSWORD)
    ensures NoStart(RPC_USER[1..], USER_AND_PASSWORD) && NoStart(RPC_USER, BASIC_AUTH_PATTERN)
  {
    CredentialHeads();
    MarkersSpellNone();
    AuthHasNoHead();
    UserHasNoHead();
    hide REDACTED, REDACTED_BASIC_AUTH, BASIC_AUTH_PATTERN, USER_AND_PASSWORD, RPC_USER;
    LacksHead(REDACTED, BASIC_AUTH_PATTERN);
    LacksHead(REDACTED, RPC_USER);
    LacksHead(REDACTED_BASIC_AUTH, RPC_USER);
    LacksHead(RPC_USER[1..], USER_AND_PASSWORD);
    LacksHead(RPC_USER, BASIC_AUTH_PATTERN);
  }

  lemma LacksHead(a: Text, pattern: Text)
    requires |pattern| > 1 && pattern[0] !in a
    ensures NoStart(a, pattern)
  {
  }

  /** The three replacements in a row do what the one pass does. */
  lemma {:induction false} OnePassIsPatterns(s: Text)
    ensures Source(PatternScript(s)) == s && Target(PatternScript(s)) == RedactPatterns(s)
    decreases |s|
  {
    NoneInside();
    hide Replace, NoStart, RPC_USER, USER_AND_PASSWORD, BASIC_AUTH_PATTERN, REDACTED, REDACTED_BASIC_AUTH;
    if s == [] {
      ReplaceOfNothing(USER_AND_PASSWORD, REDACTED);
      ReplaceOfNothing(BASIC_AUTH_PATTERN, REDACTED_BASIC_AUTH);
      ReplaceOfNothing(RPC_USER, REDACTED);
    } else {
      var n := if CredentialAt(s).Some? then |CredentialAt(s).value.text| else 1;
      assert s == s[..n] + s[n..];
      OnePassIsPatterns(s[n..]);
      if USER_AND_PASSWORD <= s {
        PairReplaced(s);
      } else if BASIC_AUTH_PATTERN <= s {
        AuthReplaced(s);
      } else if RPC_USER <= s {
        UserReplaced(s);
      } else {
        ByteCopied(s);
      }
    }
  }

  lemma PairReplaced(s: Text)
    requires USER_AND_PASSWORD <= s
    ensures RedactPatterns(s) == REDACTED + RedactPatterns(s[|USER_AND_PASSWORD|..])
  {
    NoneInside();
    hide Replace, NoStart, RPC_USER, USER_AND_PASSWORD, BASIC_AUTH_PATTERN, REDACTED, REDACTED_BASIC_AUTH;
    var y1 := Replace(s[|USER_AND_PASSWORD|..], USER_AND_PASSWORD, REDACTED);
    ReplaceHere(s, USER_AND_PASSWORD, REDACTED);
    ReplaceSkips(REDACTED, y1, BASIC_AUTH_PATTERN, REDACTED_BASIC_AUTH);
    ReplaceSkips(REDACTED, Replace(y1, BASIC_AUTH_PATTERN, REDACTED_BASIC_AUTH), RPC_USER, REDACTED);
  }

  lemma AuthReplaced(s: Text)
    requires BASIC_AUTH_PATTERN <= s
    ensures RedactPatterns(s) == REDACTED_BASIC_AUTH + RedactPatterns(s[|BASIC_AUTH_PATTERN|..])
  {
    NoneInside();
    hide Replace, NoStart, RPC_USER, USER_AND_PASSWORD, BASIC_AUTH_PATTERN, REDACTED, REDACTED_BASIC_AUTH;
    var rest := s[|BASIC_AUTH_PATTERN|..];
    var y1 := Replace(rest, USER_AND_PASSWORD, REDACTED);
    assert s == BASIC_AUTH_PATTERN + rest;
    ReplaceSkips(BASIC_AUTH_PATTERN, rest, USER_AND_PASSWORD, REDACTED);
    assert (BASIC_AUTH_PATTERN + y1)[|BASIC_AUTH_PATTERN|..] == y1;
    ReplaceHere(BASIC_AUTH_PATTERN + y1, BASIC_AUTH_PATTERN, REDACTED_BASIC_AUTH);
    ReplaceSkips(REDACTED_BASIC_AUTH, Replace(y1, BASIC_AUTH_PATTERN, REDACTED_BASIC_AUTH), RPC_USER, REDACTED);
  }

  lemma UserReplaced(s: Text)
    requires RPC_USER <= s && !(USER_AND_PASSWORD <= s)
    ensures RedactPatterns(s) == REDACTED + RedactPatterns(s[|RPC_USER|..])
  {
    NoneInside();
    hide Replace, NoStart, RPC_USER, USER_AND_PASSWORD, BASIC_AUTH_PATTERN, REDACTED, REDACTED_BASIC_AUTH;
    var rest := s[|RPC_USER|..];
    var y1 := Replace(rest, USER_AND_PASSWORD, REDACTED);
    assert s[..1] == RPC_USER[..1] && s[1..] == RPC_USER[1..] + rest && RPC_USER[..1] + RPC_USER[1..] == RPC_USER;
    ReplaceCopies(s, USER_AND_PASSWORD, REDACTED);
    ReplaceSkips(RPC_USER[1..], rest, USER_AND_PASSWORD, REDACTED);
    assert RPC_USER[..1] + (RPC_USER[1..] + y1) == RPC_USER + y1;
    var y2 := Replace(y1, BASIC_AUTH_PATTERN, REDACTED_BASIC_AUTH);
    ReplaceSkips(RPC_USER, y1, BASIC_AUTH_PATTERN, REDACTED_BASIC_AUTH);
    assert (RPC_USER + y2)[|RPC_USER|..] == y2;
    ReplaceHere(RPC_USER + y2, RPC_USER, REDACTED);
  }

  lemma ByteCopied(s: Text)
    requires s != [] && CredentialAt(s).None?
    ensures RedactPatterns(s) == s[..1] + RedactPatterns(s[1..])
  {
    NeedlesAndMarker();
    CredentialHeads();
    MarkersSpellNone();
    hide Replace, RPC_USER, USER_AND_PASSWORD, BASIC_AUTH_PATTERN, REDACTED, REDACTED_BASIC_AUTH;
    var s1, y1 := Replace(s, USER_AND_PASSWORD, REDACTED), Replace(s[1..], USER_AND_PASSWORD, REDACTED);
    ReplaceCopies(s, USER_AND_PASSWORD, REDACTED);
    if BASIC_AUTH_PATTERN <= s1 {
      PrefixOfReplaced(s, USER_AND_PASSWORD, REDACTED, BASIC_AUTH_PATTERN);
    }
    assert s1[1..] == y1 && s1[..1] == s[..1];
    ReplaceCopies(s1, BASIC_AUTH_PATTERN, REDACTED_BASIC_AUTH);
    var s2 := Replace(s1, BASIC_AUTH_PATTERN, REDACTED_BASIC_AUTH);
    var y2 := Replace(y1, BASIC_AUTH_PATTERN, REDACTED_BASIC_AUTH);
    if RPC_USER <= s2 {
      PrefixOfReplaced(s1, BASIC_AUTH_PATTERN, REDACTED_BASIC_AUTH, RPC_USER);
      PrefixOfReplaced(s, USER_AND_PASSWORD, REDACTED, RPC_USER);
    }
    assert s2[1..] == y2 && s2[..1] == s1[..1];
    ReplaceCopies(s2, RPC_USER, REDACTED);
  }

  lemma MarkersFit()
    ensures |REDACTED| >= |USER_AND_PASSWORD| && |REDACTED| >= |RPC_USER|
    ensures |REDACTED_BASIC_AUTH| >= |BASIC_AUTH_PATTERN|
    ensures BarsCi(REDACTED, BEGIN) && BarsCi(REDACTED_BASIC_AUTH, BEGIN)
  {
  }

  lemma {:induction false} PatternScriptGrows(s: Text)
    ensures Growing(PatternScript(s)) && AllBar(PatternScript(s), BEGIN)
    decreases |s|
  {
    MarkersFit();
    hide BarsCi, RPC_USER, USER_AND_PASSWORD, BASIC_AUTH_PATTERN, REDACTED, REDACTED_BASIC_AUTH;
    if s != [] {
      match CredentialAt(s)
      case None => PatternScriptGrows(s[1..]);
      case Some(c) => PatternScriptGrows(s[|c.text|..]);
    }
  }

  /** What the anchored pass and the patterns do to the output of the private-key pass. */
  function LastScripts(v: Text): seq<Script> {
    [ScanScript(SECRET_ANCHORS, false, v), PatternScript(RedactAnchored(v))]
  }

  function RedactScripts(value: Text): seq<Script> {
    [PemScript(value, 0)] + LastScripts(RedactPrivateKeys(value))
  }

  /** Redaction is three such scripts in a row, none of which ever shrinks what it hides. */
  lemma ScriptsAreRedact(value: Text)
    ensures var scs := RedactScripts(value);
      && |scs| == 3 && Chained(scs) && (forall sc | sc in scs :: Growing(sc))
      && Source(scs[0]) == value && Target(scs[2]) == RedactText(value)
  {
    hide PemScript, Redact, ScanScript, Scan, PatternScript, RedactPatterns, Growing, AllBar;
    var v1 := RedactPrivateKeys(value);
    var scs := RedactScripts(value);
    PemScriptIsPass(value, 0);
    assert value[0..] == value;
    ScanScriptIsPass(SECRET_ANCHORS, false, v1);
    OnePassIsPatterns(RedactAnchored(v1));
    PatternScriptGrows(RedactAnchored(v1));
    forall i | 0 < i < |scs| ensures Source(scs[i]) == Target(scs[i - 1]) {
      assert i == 1 || i == 2;
    }
  }

  lemma RedactNeverShrinks(value: Text)
    ensures |RedactText(value)| >= |value|
  {
    hide RedactScripts, RedactText, Growing;
    var scs := RedactScripts(value);
    ScriptsAreRedact(value);
    GrowingLength(scs[0]);
    GrowingLength(scs[1]);
    GrowingLength(scs[2]);
  }

  /** The boundary slack: a byte of the kept tail that was copied from the text was copied from its
      last MAX_DIAGNOSTIC_BYTES bytes. In a window that holds the context bytes on top of these, the
      leading context bytes never reach the caller, so no partial credential in them does. */
  lemma TailDropsContext(value: Text, j: nat)
    requires |RedactText(value)| - |RedactedTail(value)| <= j
    requires OriginThrough(RedactScripts(value), j).Some?
    ensures var o := OriginThrough(RedactScripts(value), j).value;
      && o < |value| && j < |RedactText(value)| && RedactText(value)[j] == value[o]
      && o >= |value| - MAX_DIAGNOSTIC_BYTES
      && (|value| >= MAX_DIAGNOSTIC_BYTES + MAX_REDACTION_CONTEXT_BYTES ==> o >= MAX_REDACTION_CONTEXT_BYTES)
  {
    hide RedactScripts, RedactText, Growing, Chained, OriginThrough;
    ScriptsAreRedact(value);
    SlackThrough(RedactScripts(value), j);
  }

  // ---------------------------------------------------------------------------------------------
  // The methods

  method RedactDiagnostics(value: Text) returns (redacted: Text)
    requires Valid(value)
    ensures redacted == RedactText(value)
  {
    hide Replace, Scan, Redact, Valid;
    var privateKeysRedacted := RedactPrivateKeyBlocks(value);
    WholeIsSlice(value);
    KeepsUtf8(value, 0);
    redacted := RedactAnchoredValues(privateKeysRedacted);
    redacted := Replace(redacted, USER_AND_PASSWORD, REDACTED);
    redacted := Replace(redacted, BASIC_AUTH_PATTERN, REDACTED_BASIC_AUTH);
    redacted := Replace(redacted, RPC_USER, REDACTED);
  }

  method KeepTail(value: Text, maximum: nat) returns (r: Text)
    ensures r == Utf8Tail(value, maximum)
  {
    if |value| <= maximum {
      return value;
    }
    var start := |value| - maximum;
    while !IsCharBoundary(value, start)
      invariant |value| - maximum <= start <= |value|
      invariant Boundary(value, start) == Boundary(value, |value| - maximum)
      decreases |value| - start
    {
      start := start + 1;
    }
    return value[start..];
  }

  method KeepHead(value: Text, maximum: nat) returns (r: Text)
    ensures r == Utf8Head(value, maximum)
  {
    if |value| <= maximum {
      return value;
    }
    var marker := if maximum > |TRUNCATION_MARKER| then TRUNCATION_MARKER else "";
    var end := maximum - |marker|;
    while end != 0 && !IsCharBoundary(value, end)
      invariant 0 <= end <= maximum - |marker|
      invariant BoundaryBefore(value, end) == BoundaryBefore(value, maximum - |marker|)
    {
      end := end - 1;
    }
    return value[..end] + marker;
  }
}
