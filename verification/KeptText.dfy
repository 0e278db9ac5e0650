/** What callers see of a redacted text: all of it when it fits the bound, and otherwise as much of its front
    or of its end as fits. */
module KeptText {
  import opened AnchoredScan
  import opened MaskedForms
  import opened PrivateKeys
  import opened Redactor
  import opened Search
  import opened Utf8

  // ---------------------------------------------------------------------------------------------
  // The cut

  /** `out[..k]` is the longest piece of well-formed text at the front of `out` within the bound. */
  ghost predicate IsLongestHead(out: Text, k: nat, bound: nat) {
    && k <= |out| && k <= bound && Valid(out[..k])
    && forall n: nat | n <= |out| && n <= bound && Valid(out[..n]) :: n <= k
  }

  ghost predicate IsLongestTail(out: Text, k: nat, bound: nat) {
    && k <= |out| && |out| - k <= bound && Valid(out[k..])
    && forall n: nat | n <= |out| && |out| - n <= bound && Valid(out[n..]) :: k <= n
  }

  /** A bound that is too small to announce the cut keeps text instead. */
  function CutMarker(maximum: nat): Text {
    if maximum > 11 then "[TRUNCATED]" else ""
  }

  lemma CutMarkerIs(maximum: nat)
    ensures |CutMarker(maximum)| == (if maximum > 11 then 11 else 0)
    ensures CutMarker(maximum) == if maximum > |TRUNCATION_MARKER| then TRUNCATION_MARKER else ""
  {
  }

  lemma HeadIsLongest(s: Text, maximum: nat) returns (k: nat)
    requires Valid(s) && |s| > maximum
    ensures IsLongestHead(s, k, maximum - |CutMarker(maximum)|)
    ensures Utf8Head(s, maximum) == s[..k] + CutMarker(maximum)
  {
    hide CutMarker, Valid;
    CutMarkerIs(maximum);
    var bound := maximum - |CutMarker(maximum)|;
    k := BoundaryBefore(s, bound);
    CutIsValid(s, k);
    forall n: nat | k < n <= bound ensures !Valid(s[..n]) {
      ValidSplitIff(s, n);
    }
  }

  lemma ValidSplitIff(s: Text, n: nat)
    requires Valid(s) && n <= |s|
    ensures Valid(s[..n]) <==> n == 0 || IsCharBoundary(s, n)
    ensures Valid(s[n..]) ==> IsCharBoundary(s, n)
  {
    BoundaryIffBetweenCharacters(s, n);
    if n == 0 {
      assert s[..0] == [];
    }
    if n < |s| && Valid(s[n..]) {
      LeadCharacter(s[n..]);
      assert s[n] == s[n..][0];
    }
  }

  lemma TailIsLongestTail(s: Text, maximum: nat) returns (k: nat)
    requires Valid(s) && |s| > maximum
    ensures IsLongestTail(s, k, maximum) && Utf8Tail(s, maximum) == s[k..]
  {
    hide Valid;
    k := Boundary(s, |s| - maximum);
    ValidSplit(s, k);
    forall n: nat | |s| - maximum <= n < k ensures !Valid(s[n..]) {
      ValidSplitIff(s, n);
    }
  }

  // ---------------------------------------------------------------------------------------------
  // What callers get

  /** A redacted text within the bound is returned unchanged. A longer one is cut: what is returned is the
      longest well-formed front of it that leaves room for the marker, and the marker. */
  lemma HeadIs(value: Text, maximum: nat) returns (k: nat)
    requires Valid(value)
    ensures var out, head := RedactText(value), RedactedHead(value, maximum);
      if |out| <= maximum then head == out
      else IsLongestHead(out, k, maximum - |CutMarker(maximum)|) && head == out[..k] + CutMarker(maximum)
  {
    CutMarkerIs(maximum);
    hide RedactText, Valid, IsLongestHead, CutMarker;
    RedactKeepsUtf8(value);
    k := 0;
    if |RedactText(value)| > maximum {
      k := HeadIsLongest(RedactText(value), maximum);
    }
  }

  /** A text that names no secret, spells no credential and has no block header is left alone. */
  ghost predicate IsPlainText(s: Text) {
    NoNameBefore(s, |s|) && !Contains(s, "admin1") && !Contains(s, "YWRtaW4xOjEyMw==") && !ContainsCi(s, "-----BEGIN ")
  }

  lemma PlainIsKept(s: Text)
    requires IsPlainText(s)
    ensures RedactText(s) == s
  {
    SpelledOut();
    hide Contains, ContainsCi, NoNameBefore;
    if Contains(s, USER_AND_PASSWORD) {
      UserIsInside(s);
    }
    NothingToRedact(s);
    NamelessIsKept(false, s);
    PatternsLeaveFree(s);
  }

  lemma SpelledOut()
    ensures RPC_USER == "admin1" && BASIC_AUTH_PATTERN == "YWRtaW4xOjEyMw==" && BEGIN == "-----BEGIN "
  {
  }

  /** The credentials of the fixture are replaced where they stand, the user with the password before the user
      alone. */
  lemma CredentialsAre(rest: Text)
    ensures RedactPatterns("admin1:123" + rest) == "[REDACTED]" + RedactPatterns(rest)
    ensures RedactPatterns("YWRtaW4xOjEyMw==" + rest) == "[REDACTED::AUTH]" + RedactPatterns(rest)
    ensures !(":123" <= rest) ==> RedactPatterns("admin1" + rest) == "[REDACTED]" + RedactPatterns(rest)
  {
    CredentialTexts();
    hide RedactPatterns, USER_AND_PASSWORD, BASIC_AUTH_PATTERN, RPC_USER, REDACTED, REDACTED_BASIC_AUTH;
    PairReplaced(USER_AND_PASSWORD + rest);
    AuthReplaced(BASIC_AUTH_PATTERN + rest);
    assert (USER_AND_PASSWORD + rest)[|USER_AND_PASSWORD|..] == rest;
    assert (BASIC_AUTH_PATTERN + rest)[|BASIC_AUTH_PATTERN|..] == rest;
    var s := RPC_USER + rest;
    assert s[|RPC_USER|..] == rest;
    if !(":123" <= rest) {
      UserReplaced(s);
    }
  }

  lemma CredentialTexts()
    ensures USER_AND_PASSWORD == "admin1:123" && BASIC_AUTH_PATTERN == "YWRtaW4xOjEyMw==" && RPC_USER == "admin1"
    ensures REDACTED == "[REDACTED]" && REDACTED_BASIC_AUTH == "[REDACTED::AUTH]"
    ensures |RPC_USER| == 6 && USER_AND_PASSWORD == RPC_USER + ":123"
  {
  }

  /** Of a longer text the tail is the longest well-formed end of at most 16384 bytes. */
  lemma TailIs(value: Text) returns (k: nat)
    requires Valid(value)
    ensures var out, tail := RedactText(value), RedactedTail(value);
      if |out| <= 16384 then tail == out else IsLongestTail(out, k, 16384) && tail == out[k..]
  {
    hide RedactText, Valid, IsLongestTail;
    RedactKeepsUtf8(value);
    k := 0;
    if |RedactText(value)| > 16384 {
      k := TailIsLongestTail(RedactText(value), 16384);
    }
  }

  /** Diagnostics are joined by a semicolon and a space, then redacted together; nothing of either is dropped
      but by that cut. */
  lemma JoinIs(existing: Text, addition: Text) returns (k: nat)
    requires Valid(existing) && Valid(addition)
    ensures var out := RedactText(if existing == "" then addition else existing + "; " + addition);
      var joined := JoinDiagnostics(existing, addition);
      if |out| <= 16384 then joined == out else IsLongestTail(out, k, 16384) && joined == out[k..]
  {
    hide RedactText, RedactedTail, Valid, IsLongestTail;
    if existing == "" {
      k := TailIs(addition);
    } else {
      MarkerIsValid();
      ValidConcat(existing, "; ");
      ValidConcat(existing + "; ", addition);
      k := TailIs(existing + "; " + addition);
    }
  }

  /** Of a plain text that fits, all is kept. */
  lemma PlainJoin(existing: Text, addition: Text)
    requires Valid(existing) && Valid(addition) && existing != "" && |existing| + |addition| + 2 <= 16384
    requires IsPlainText(existing + "; " + addition)
    ensures JoinDiagnostics(existing, addition) == existing + "; " + addition
  {
    PlainIsKept(existing + "; " + addition);
    var k := JoinIs(existing, addition);
    hide RedactText, JoinDiagnostics;
  }

  /** So a joined text is as long as both together, or fills the bound but for less than a character. */
  lemma JoinKeepsBoth(existing: Text, addition: Text)
    requires Valid(existing) && Valid(addition) && existing != ""
    ensures |JoinDiagnostics(existing, addition)| >= |existing| + 2 + |addition| ||
      |JoinDiagnostics(existing, addition)| > 16384 - 4
  {
    hide RedactText, Valid;
    var both := existing + "; " + addition;
    RedactNeverShrinks(both);
    MarkerIsValid();
    ValidConcat(existing, "; ");
    ValidConcat(existing + "; ", addition);
    RedactKeepsUtf8(both);
    var out := RedactText(both);
    if |out| > 16384 {
      BoundaryIsNear(out, |out| - 16384);
    }
  }

  /** From any place a character boundary is less than four bytes away. */
  lemma BoundaryIsNear(s: Text, i: nat)
    requires Valid(s) && i <= |s|
    ensures Boundary(s, i) < i + 4
  {
    if Boundary(s, i) >= i + 3 {
      var b := BoundaryBefore(s, i);
      FirstIsLead(s);
      ValidSplit(s, b);
      LeadCharacter(s[b..]);
      var n := LeadLength(s[b]);
      assert b + n < |s| ==> s[b..][n] == s[b + n];
      assert IsCharBoundary(s, b + n);
    }
  }

  lemma FirstIsLead(s: Text)
    requires Valid(s)
    ensures IsCharBoundary(s, 0)
  {
    if s != [] {
      LeadCharacter(s);
    }
  }
}
