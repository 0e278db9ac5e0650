/** When redacting a text that was redacted before changes nothing. */
module RedactTwice {
  import opened AnchoredClean
  import opened AnchoredIdempotence
  import opened AnchoredKeys
  import opened AnchoredPass
  import opened AnchoredRuns
  import opened AnchoredScan
  import opened CleanOutput
  import opened PrivateKeyCoverage
  import opened PrivateKeys
  import opened Redactor
  import opened Scripts
  import opened Search
  import opened Utf8

  predicate RedactsOnce(value: Text) {
    RedactText(RedactText(value)) == RedactText(value)
  }

  // ---------------------------------------------------------------------------------------------
  // The first change of either pass is there to stay

  /** Where the private-key pass first changes the text; its length when it does not. */
  function FirstBlock(s: Text): (d: nat)
    ensures d <= |s|
  {
    var bs := Blocks(s, 0);
    if bs == [] then |s| else bs[0].begin
  }

  lemma {:induction false} BlockOpens(s: Text, cursor: nat)
    requires cursor <= |s| && Blocks(s, cursor) != []
    ensures s[Blocks(s, cursor)[0].begin] == '-'
    decreases |s| - cursor
  {
    hide IsPrivate, BlockEnd, Blocks;
    if NextHeader(s, cursor).None? {
      LastStep(s, cursor);
    } else {
      var h := NextHeader(s, cursor).value;
      if IsPrivate(s, h) {
        PrivateStep(s, cursor, h);
        HeaderBytes(s, h.begin);
      } else {
        PublicStep(s, cursor, h);
        BlockOpens(s, h.labelEnd);
      }
    }
  }

  lemma {:induction false} OrderedFirst(bs: seq<Block>, k: nat)
    requires Ordered(bs) && k < |bs| && forall b | b in bs :: b.begin < b.end
    ensures bs[0].begin <= bs[k].begin
    decreases k
  {
    if k > 0 {
      OrderedFirst(bs, k - 1);
      assert bs[k - 1] in bs;
    }
  }

  lemma MasksFromStart(s: Text)
    ensures var out := RedactPrivateKeys(s);
      |out| == |s| && forall j | 0 <= j < |s| :: out[j] == ByteAt(s, Blocks(s, 0), j)
  {
    hide Blocks, Redact, ByteAt;
    MasksInPlace(s, 0);
    forall j | 0 <= j < |s| ensures RedactPrivateKeys(s)[j] == ByteAt(s, Blocks(s, 0), j) {
      assert j - 0 == j;
    }
  }

  /** Up to its first block the pass copies; there it writes a marker. */
  lemma PemAgrees(s: Text)
    ensures |RedactPrivateKeys(s)| == |s| && Agree(s, RedactPrivateKeys(s), FirstBlock(s))
    ensures FirstBlock(s) < |s| ==> s[FirstBlock(s)] == '-'
    ensures FirstBlock(s) == |s| ==> RedactPrivateKeys(s) == s
  {
    hide Blocks, Redact;
    BlocksOrdered(s, 0);
    var bs, out, d := Blocks(s, 0), RedactPrivateKeys(s), FirstBlock(s);
    MasksFromStart(s);
    forall j | 0 <= j < d ensures out[j] == s[j] {
      forall b | b in bs ensures !InBlock(b, j) {
        var k :| 0 <= k < |bs| && bs[k] == b;
        OrderedFirst(bs, k);
      }
      OutsideBlocks(s, bs, j);
    }
    if bs != [] {
      assert bs[0] in bs;
      assert out[d] == ByteAt(s, bs, d) == Redaction(bs[0].end - d, KEY_MARKER)[0] == KEY_MARKER[0];
      BlockOpens(s, 0);
    }
  }

  /** `s` is `out` up to `e`, and goes on with (the front of) a marker up to `n`. */
  predicate Fronted(out: Text, s: Text, e: nat, n: nat) {
    && e <= |out| && e < n <= e + 9 && n <= |s|
    && s[..e] == out[..e] && s[e..n] == REDACTED_PREFIX[..n - e]
  }

  lemma {:induction false} NothingReplaced(s: Text, pattern: Text, m: Text, n: nat)
    requires pattern != [] && n <= |s| && forall k | 0 <= k < n :: !(pattern <= s[k..])
    ensures n <= |Replace(s, pattern, m)| && Replace(s, pattern, m)[..n] == s[..n]
    decreases n
  {
    if n > 0 {
      assert s[0..] == s;
      forall k | 0 <= k < n - 1 ensures !(pattern <= s[1..][k..]) {
        assert s[1..][k..] == s[k + 1..];
      }
      NothingReplaced(s[1..], pattern, m, n - 1);
    }
  }

  lemma NoPatternInFront(out: Text, s: Text, e: nat, n: nat, pattern: Text, k: nat)
    requires Fronted(out, s, e, n) && !Contains(out, pattern) && k < n
    requires pattern != [] && '[' !in pattern && pattern[0] !in REDACTED_PREFIX
    ensures !(pattern <= s[k..])
  {
    forall i | e <= i < n ensures s[i] in REDACTED_PREFIX {
      assert s[i] == s[e..n][i - e] == REDACTED_PREFIX[i - e];
    }
    assert s[e] == s[e..n][0] == '[';
    assert forall i | 0 <= i < |pattern| :: pattern[i] != '[';
    if pattern <= s[k..] {
      assert forall i | 0 <= i < |pattern| :: s[k + i] == pattern[i];
      assert s[k + 0] == pattern[0];
      if k < e && k + |pattern| <= e {
        assert forall i | 0 <= i < e :: s[i] == s[..e][i] == out[i];
        assert out[k..k + |pattern|] == pattern;
        assert MatchesAt(out, k, pattern);
      }
    }
  }

  lemma FrontKept(out: Text, s: Text, e: nat, n: nat, pattern: Text, m: Text)
    requires Fronted(out, s, e, n) && !Contains(out, pattern)
    requires pattern != [] && '[' !in pattern && pattern[0] !in REDACTED_PREFIX
    ensures Fronted(out, Replace(s, pattern, m), e, n)
  {
    hide Contains, Replace;
    forall k | 0 <= k < n ensures !(pattern <= s[k..]) {
      NoPatternInFront(out, s, e, n, pattern, k);
    }
    NothingReplaced(s, pattern, m, n);
    var t := Replace(s, pattern, m);
    assert t[..e] == t[..n][..e] == s[..n][..e] == s[..e] && t[e..n] == t[..n][e..] == s[..n][e..] == s[e..n];
  }

  lemma FrontByte(out: Text, s: Text, e: nat, n: nat)
    ensures Fronted(out, s, e, n) ==> s[e] == '['
  {
    assert Fronted(out, s, e, n) ==> s[e] == s[e..n][0];
  }

  lemma PatternHeads()
    ensures RPC_USER[0] !in REDACTED_PREFIX && USER_AND_PASSWORD[0] !in REDACTED_PREFIX
    ensures BASIC_AUTH_PATTERN[0] !in REDACTED_PREFIX
  {
  }

  /** The patterns do not undo a marker that stands where the credentials end. */
  lemma PatternsKeepFront(out: Text, s: Text, e: nat, n: nat)
    requires CredentialFree(out) && Fronted(out, s, e, n)
    ensures Fronted(out, RedactPatterns(s), e, n) && RedactPatterns(s)[e] == '['
  {
    PatternHeads();
    NeedlesAndMarker();
    FrontByte(out, RedactPatterns(s), e, n);
    hide Fronted, Contains, Replace;
    FrontKept(out, s, e, n, USER_AND_PASSWORD, REDACTED);
    var s1 := Replace(s, USER_AND_PASSWORD, REDACTED);
    FrontKept(out, s1, e, n, BASIC_AUTH_PATTERN, REDACTED_BASIC_AUTH);
    var s2 := Replace(s1, BASIC_AUTH_PATTERN, REDACTED_BASIC_AUTH);
    FrontKept(out, s2, e, n, RPC_USER, REDACTED);
  }

  /** A marker that the anchored pass writes before the first masked block is new. */
  lemma EditIsNew(out: Text, p: Text, d: nat)
    requires Agree(out, p, d) && (d < |out| ==> out[d] == '-') && (d == |out| ==> p == out)
    requires FirstEdit(SECRET_ANCHORS, false, p) < d
    ensures var e := FirstEdit(SECRET_ANCHORS, false, p);
      e + 9 <= |out| ==> out[e..e + 9] != REDACTED_PREFIX
  {
    hide Parse, After, FirstEdit, IsMarked, IsKeyTable;
    var keys, e := SECRET_ANCHORS, FirstEdit(SECRET_ANCHORS, false, p);
    var k, f := EditHasKey(keys, false, p);
    ParseEnd(keys, f, p, k);
    var kind := Parse(keys, f, p, k).value.kind;
    if e + 9 <= |out| && out[e..e + 9] == REDACTED_PREFIX {
      MarkedValue(kind, out, e);
      MarkedIsMarked(out, e, ValueEnd(kind, out, e));
      if d < |out| {
        MarkerBack(kind, out, p, e, d);
      }
    }
  }

  lemma FrontAtEdit(out: Text, p: Text, q: Text, e: nat, d: nat)
    requires Agree(out, p, d) && Agree(p, q, e) && e < d
    requires e + 9 <= |q| && q[e..e + 9] == REDACTED_PREFIX
    ensures Fronted(out, q, e, e + 9)
  {
    assert q[..e] == p[..e] == out[..e];
    assert REDACTED_PREFIX[..9] == REDACTED_PREFIX;
  }

  lemma FrontAtBlock(out: Text, p: Text, q: Text, e: nat, d: nat)
    requires Agree(out, p, d) && Agree(p, q, e) && d <= e && d < |out|
    ensures Fronted(out, q, d, d + 1)
  {
    assert q[..d] == p[..d] == out[..d];
    assert d < |p| && p[d] == '[';
    assert d < |q| && q[d] == '[';
    assert q[d..d + 1] == ['['] && REDACTED_PREFIX[..1] == ['['];
  }

  /** A change of the first two passes is still there in the end. */
  lemma ChangeStays(out: Text)
    requires CredentialFree(out) && RedactText(out) == out
    ensures FirstBlock(out) == |out| && FirstEdit(SECRET_ANCHORS, false, RedactPrivateKeys(out)) == |out|
  {
    hide Scan, RedactPatterns, Redact, CredentialFree, FirstEdit, FirstBlock, Agree;
    PemAgrees(out);
    var p, d := RedactPrivateKeys(out), FirstBlock(out);
    var q, e := RedactAnchored(p), FirstEdit(SECRET_ANCHORS, false, p);
    FirstEditAgrees(SECRET_ANCHORS, false, p);
    if e < d {
      EditWritesMarker(SECRET_ANCHORS, false, p);
      EditIsNew(out, p, d);
      FrontAtEdit(out, p, q, e, d);
      PatternsKeepFront(out, q, e, e + 9);
    } else if d < |out| {
      FrontAtBlock(out, p, q, e, d);
      PatternsKeepFront(out, q, d, d + 1);
    }
  }

  /** Redaction leaves a text without credentials alone exactly if each of its first two passes, on its own,
      does. */
  lemma SettlesIff(out: Text)
    requires CredentialFree(out)
    ensures RedactText(out) == out <==> RedactPrivateKeys(out) == out && RedactAnchored(out) == out
  {
    PatternsLeaveFree(out);
    hide Scan, RedactPatterns, Redact, CredentialFree, FirstEdit, FirstBlock;
    if RedactText(out) == out {
      ChangeStays(out);
      PemAgrees(out);
      NoEdit(SECRET_ANCHORS, false, out);
    }
  }

  // ---------------------------------------------------------------------------------------------
  // Main results

  lemma RedactsOnceIff(value: Text)
    ensures var out := RedactText(value);
      RedactsOnce(value) <==> RedactPrivateKeys(out) == out && RedactAnchored(out) == out
  {
    hide RedactText, RedactAnchored, Redact, CredentialFree;
    RedactedIsFree(value);
    SettlesIff(RedactText(value));
  }

  lemma PemLeavesIff(s: Text)
    ensures RedactPrivateKeys(s) == s <==> Blocks(s, 0) == []
  {
    hide Redact;
    PemAgrees(s);
    assert Blocks(s, 0) != [] ==> Blocks(s, 0)[0] in Blocks(s, 0);
  }

  /** When the output is clean, only a private-key block that is complete in it makes a second redaction
      change anything. */
  lemma OnceIffNoBlock(value: Text)
    requires CopiesNoHot(value)
    ensures RedactsOnce(value) <==> Blocks(RedactText(value), 0) == []
  {
    hide RedactText, Redact, Blocks, Clean, NoHot, Scan;
    RedactsOnceIff(value);
    IsCleanIff(value);
    CleanIsFixed(SECRET_ANCHORS, false, RedactText(value));
    PemLeavesIff(RedactText(value));
  }

  lemma AbsentThrough(sc: Script)
    requires AllBar(sc, BEGIN) && !ContainsCi(Source(sc), BEGIN)
    ensures !ContainsCi(Target(sc), BEGIN)
  {
    var t := Target(sc);
    if ContainsCi(t, BEGIN) {
      var i :| 0 <= i <= |t| && MatchesCi(t, i, BEGIN);
      KeepsAbsentCi(sc, BEGIN, i);
    }
  }

  /** No block header appears that was not there. */
  lemma NoHeaderAppears(value: Text)
    requires !ContainsCi(value, BEGIN)
    ensures !ContainsCi(RedactPatterns(RedactAnchored(value)), BEGIN)
  {
    hide ScanScript, Scan, PatternScript, RedactPatterns, Growing, AllBar, ContainsCi, Source, Target;
    ScanScriptIsPass(SECRET_ANCHORS, false, value);
    AbsentThrough(ScanScript(SECRET_ANCHORS, false, value));
    OnePassIsPatterns(RedactAnchored(value));
    PatternScriptGrows(RedactAnchored(value));
    AbsentThrough(PatternScript(RedactAnchored(value)));
  }

  /** No header is left by the private-key pass, and no marked value behind it has an unmarked one inside. */
  predicate IsSettled(value: Text) {
    CopiesNoHot(value) && !ContainsCi(RedactPrivateKeys(value), BEGIN)
  }

  /** Such a text is redacted for good, whether or not it held blocks and markers. */
  lemma SettledRedactsOnce(value: Text)
    requires IsSettled(value)
    ensures RedactsOnce(value)
  {
    hide RedactPatterns, Redact, Scan, ContainsCi, NoHot, Clean;
    var out := RedactText(value);
    NoHeaderAppears(RedactPrivateKeys(value));
    NothingToRedact(out);
    IsCleanIff(value);
    CleanIsFixed(SECRET_ANCHORS, false, out);
    RedactsOnceIff(value);
  }

  /** Text with a block in it, if its marker cannot be taken for a value, is such a text. */
  lemma BlockRedactsOnce(head: Text, body: Text, tail: Text)
    requires '-' !in head && '-' !in body && !ContainsCi(tail, BEGIN)
    requires !Contains(head, REDACTED_PREFIX) && !Contains(tail, REDACTED_PREFIX)
    requires head != [] ==> !IsSeparator(head[|head| - 1])
    ensures var value := head + BlockOf(body) + tail; IsClean(RedactText(value)) && RedactsOnce(value)
  {
    hide Contains, ContainsCi, BlockOf, RedactText, Redact, CopiesKeyless, Clean, NoHot;
    var value := head + BlockOf(body) + tail;
    BlockPasses(head, body, tail);
    KeylessIsClean(value);
    IsCleanIff(value);
    SettledRedactsOnce(value);
  }

  lemma NoHeaderInSuffix(s: Text, i: nat)
    requires !ContainsCi(s, BEGIN) && i <= |s|
    ensures !ContainsCi(s[i..], BEGIN)
  {
    assert s[..i] + s[i..] == s;
    if ContainsCi(s[i..], BEGIN) {
      ContainsCiBehind(s[..i], s[i..], BEGIN);
    }
  }

  /** A tail that was kept from it is not changed when it is rendered again. */
  lemma TailRedactsOnce(value: Text)
    requires IsSettled(value)
    ensures RedactedTail(RedactedTail(value)) == RedactedTail(value)
  {
    hide RedactText, Redact, ContainsCi, CredentialFree, Boundary, NoHot, Clean, Scan;
    var out := RedactText(value);
    var tail := RedactedTail(value);
    TailIsClean(value);
    RedactedIsFree(value);
    NoHeaderInOutput(value);
    if |out| > MAX_DIAGNOSTIC_BYTES {
      var i := Boundary(out, |out| - MAX_DIAGNOSTIC_BYTES);
      SuffixIsFree(out, i);
      NoHeaderInSuffix(out, i);
    }
    CleanIsFixed(SECRET_ANCHORS, false, tail);
    NothingToRedact(tail);
    SettlesIff(tail);
  }

  lemma NoHeaderInOutput(value: Text)
    requires !ContainsCi(RedactPrivateKeys(value), BEGIN)
    ensures !ContainsCi(RedactText(value), BEGIN)
  {
    hide RedactPatterns, Redact, Scan, ContainsCi;
    NoHeaderAppears(RedactPrivateKeys(value));
  }
}
