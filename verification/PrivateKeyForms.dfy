/** What the private-key pass writes for a block of any label: from `-----BEGIN ` to the end marker of the same
    label, or to the end of the text. */
module PrivateKeyForms {
  import opened AnchoredScan
  import opened Options
  import opened PrivateKeyCoverage
  import opened PrivateKeys
  import opened Search
  import opened Utf8

  /** The marker of a block, drawn out with stars to the block's length. */
  function MaskedBlock(length: nat): Text {
    "[REDACTED::PRIVATE KEY]" + seq(if length > 23 then length - 23 else 0, _ => '*')
  }

  /** A header line of any label, its first words in letters of either case. */
  predicate IsHeaderLine(line: Text, name: Text) {
    && '-' !in name && |line| == 16 + |name|
    && LowerText(line[..11]) == "-----begin " && line[11..] == name + "-----"
  }

  predicate IsEndLine(line: Text, name: Text) {
    LowerText(line) == LowerText("-----END " + name + "-----")
  }

  /** The label says so, in letters of either case. */
  predicate NamesPrivateKey(name: Text) {
    exists i: nat | i <= |name| :: SaysPrivateKey(name, i)
  }

  predicate SaysPrivateKey(name: Text, i: nat) {
    i + 11 <= |name| && LowerText(name[i..i + 11]) == "private key"
  }

  lemma PrivateLabelIff(name: Text)
    ensures ContainsCi(name, PRIVATE_KEY) <==> NamesPrivateKey(name)
  {
    PrivateKeyLower();
    var key := LowerText(PRIVATE_KEY);
    assert forall j | 0 <= j < 11 :: key[j] == Lower(PRIVATE_KEY[j]);
    forall i: nat | i <= |name| ensures MatchesCi(name, i, PRIVATE_KEY) <==> SaysPrivateKey(name, i) {
      if i + 11 <= |name| {
        var low := LowerText(name[i..i + 11]);
        assert forall j | 0 <= j < 11 :: low[j] == Lower(name[i + j]);
      }
    }
    hide MatchesCi, LowerText;
  }

  lemma PrivateKeyLower()
    ensures |PRIVATE_KEY| == 11 && LowerText(PRIVATE_KEY) == "private key"
    ensures |BEGIN| == 11 && LowerText(BEGIN) == "-----begin " && BEGIN[0] == '-' && DASHES == "-----"
  {
  }

  lemma BeginMatches(s: Text, p: nat, begin: Text)
    requires At(s, p, begin) && LowerText(begin) == "-----begin "
    ensures MatchesCi(s, p, BEGIN)
  {
    PrivateKeyLower();
    var low, lower := LowerText(BEGIN), LowerText(begin);
    hide BEGIN;
    forall j | 0 <= j < 11 ensures Lower(s[p + j]) == Lower(BEGIN[j]) {
      assert s[p + j] == s[p..p + 11][j] == begin[j];
      assert lower[j] == Lower(begin[j]) && low[j] == Lower(BEGIN[j]);
    }
  }

  lemma DashesFound(s: Text, a: nat, name: Text)
    requires At(s, a, name) && At(s, a + |name|, DASHES) && '-' !in name
    ensures Find(s, a, DASHES) == Some(a + |name|)
  {
    assert |DASHES| == 5 && DASHES[0] == '-';
    hide DASHES;
    assert MatchesAt(s, a + |name|, DASHES);
    forall k | a <= k < a + |name| ensures !MatchesAt(s, k, DASHES) {
      assert s[k] == s[a..a + |name|][k - a] == name[k - a] && name[k - a] in name;
      assert k + 5 <= |s| ==> s[k..k + 5][0] == s[k];
    }
  }

  /** A header line in a text is a header with this label. */
  lemma LineIsHeader(s: Text, p: nat, line: Text, name: Text)
    requires At(s, p, line) && IsHeaderLine(line, name)
    ensures var h := Header(p, p + 11 + |name|);
      && IsHeader(s, h) && Label(s, h) == name && (IsPrivate(s, h) <==> NamesPrivateKey(name))
      && At(s, h.labelEnd, "-----")
  {
    PrivateKeyLower();
    assert line == line[..11] + (name + "-----");
    AtMoved(s, p, line[..11], name + "-----");
    AtMoved(s, p + 11, name, "-----");
    BeginMatches(s, p, line[..11]);
    DashesFound(s, p + 11, name);
    PrivateLabelIff(name);
    hide LowerText, MatchesCi, NamesPrivateKey, ContainsCi, BEGIN;
  }

  /** The first header of a text whose front has no dash. */
  lemma FirstLine(s: Text, p: nat, h: Header)
    requires IsHeader(s, h) && h.begin == p <= |s| && forall k | 0 <= k < p :: s[k] != '-'
    ensures NextHeader(s, 0) == Some(h)
  {
    forall k: nat | k < p ensures !MatchesCi(s, k, BEGIN) {
      assert s[k] != '-';
      if MatchesCi(s, k, BEGIN) {
        HeaderBytes(s, k);
      }
    }
    hide MatchesCi;
  }

  lemma EndMarkerHead(name: Text)
    ensures EndMarker(name) != [] && EndMarker(name)[0] == '-'
    ensures EndMarker(name) == "-----END " + name + "-----"
  {
  }

  /** Where no dash is, no end marker begins. */
  lemma NoEndHere(s: Text, from: nat, to: nat, name: Text)
    requires to <= |s| && forall k | from <= k < to :: s[k] != '-'
    ensures forall k: nat | from <= k < to :: !MatchesCi(s, k, EndMarker(name))
    ensures to == |s| ==> forall k: nat | from <= k :: !MatchesCi(s, k, EndMarker(name))
  {
    EndMarkerHead(name);
    hide EndMarker;
    forall k: nat | from <= k < to ensures !MatchesCi(s, k, EndMarker(name)) {
      assert Lower(s[k + 0]) != Lower(EndMarker(name)[0]);
    }
  }

  lemma EndsThere(s: Text, h: Header, n: nat, end: Text, name: Text)
    requires IsHeader(s, h) && Label(s, h) == name && h.labelEnd + 5 <= n && At(s, n, end) && IsEndLine(end, name)
    requires forall k | h.labelEnd + 5 <= k < n :: s[k] != '-'
    ensures BlockEnd(s, h) == n + |end|
  {
    PrivateKeyLower();
    EndMarkerHead(name);
    var marker := EndMarker(name);
    hide IsHeader, Label, EndMarker;
    NoEndHere(s, h.labelEnd + 5, n, name);
    var a, b := LowerText(end), LowerText(marker);
    forall j | 0 <= j < |marker| ensures Lower(s[n + j]) == Lower(marker[j]) {
      assert s[n + j] == s[n..n + |end|][j] == end[j];
      assert a[j] == Lower(end[j]) && b[j] == Lower(marker[j]);
    }
    assert MatchesCi(s, n, marker);
    hide MatchesCi;
    assert FindCi(s, h.labelEnd + 5, marker) == Some(n);
  }

  lemma RedactionIs(n: nat)
    ensures Redaction(n, KEY_MARKER) == MaskedBlock(n)
  {
    assert |KEY_MARKER| == 23;
  }

  /** A block that stands in a text, its body free of dashes. */
  lemma BlockStands(s: Text, p: nat, line: Text, name: Text, body: Text, end: Text)
    requires At(s, p, line + body + end) && '-' !in body
    requires IsHeaderLine(line, name) && NamesPrivateKey(name) && IsEndLine(end, name)
    ensures var h := Header(p, p + 11 + |name|);
      IsHeader(s, h) && IsPrivate(s, h) && BlockEnd(s, h) == p + |line| + |body| + |end| <= |s|
  {
    PrivateKeyLower();
    var h, n := Header(p, p + 11 + |name|), p + |line| + |body|;
    AtMoved(s, p, line + body, end);
    AtMoved(s, p, line, body);
    LineIsHeader(s, p, line, name);
    forall k | h.labelEnd + 5 <= k < n ensures s[k] != '-' {
      assert s[k] == s[p + |line|..p + |line| + |body|][k - p - |line|] == body[k - p - |line|];
    }
    hide IsHeader, IsPrivate, BlockEnd, NamesPrivateKey, IsEndLine, Label;
    EndsThere(s, h, n, end, name);
  }

  /** A closed block, in front of a text without another header. */
  lemma BlockIsMasked(head: Text, line: Text, name: Text, body: Text, end: Text, tail: Text)
    requires '-' !in head && '-' !in body && !ContainsCi(tail, BEGIN)
    requires IsHeaderLine(line, name) && NamesPrivateKey(name) && IsEndLine(end, name)
    ensures RedactPrivateKeys(head + (line + body + end) + tail) ==
      head + MaskedBlock(|line| + |body| + |end|) + tail
  {
    hide IsHeader, IsPrivate, BlockEnd, NamesPrivateKey, ContainsCi, IsEndLine, IsHeaderLine, Redact, NextHeader, Label;
    hide MaskedBlock;
    var block := line + body + end;
    var s, h := head + block + tail, Header(|head|, |head| + 11 + |name|);
    TwoPieces(head, block, tail);
    BlockStands(s, |head|, line, name, body, end);
    assert forall k | 0 <= k < |head| :: s[k] == head[k];
    FirstLine(s, |head|, h);
    PrivateStep(s, 0, h);
    RedactionIs(|block|);
    NoHeaderBehind(head + block, tail);
    LastStep(s, |head + block|);
    ThreeSlices(head, block, tail);
  }

  /** A header line behind a text without dashes is the first header. */
  lemma LineIsFirst(head: Text, line: Text, name: Text, rest: Text)
    requires '-' !in head && IsHeaderLine(line, name)
    ensures var s := head + line + rest; var h := Header(|head|, |head| + 11 + |name|);
      && IsHeader(s, h) && Label(s, h) == name && (IsPrivate(s, h) <==> NamesPrivateKey(name))
      && NextHeader(s, 0) == Some(h) && At(s, h.labelEnd, "-----")
  {
    var s, h := head + line + rest, Header(|head|, |head| + 11 + |name|);
    TwoPieces(head, line, rest);
    hide IsHeader, IsPrivate, NamesPrivateKey, IsHeaderLine, NextHeader, Label, At;
    LineIsHeader(s, |head|, line, name);
    assert forall k | 0 <= k < |head| :: s[k] == head[k];
    FirstLine(s, |head|, h);
  }

  /** A block that is never closed is masked to the end of the text. */
  lemma OpenBlockIsMasked(head: Text, line: Text, name: Text, body: Text)
    requires '-' !in head && '-' !in body && IsHeaderLine(line, name) && NamesPrivateKey(name)
    ensures RedactPrivateKeys(head + line + body) == head + MaskedBlock(|line| + |body|)
  {
    var s, h := head + line + body, Header(|head|, |head| + 11 + |name|);
    LineIsFirst(head, line, name, body);
    assert |DASHES| == 5 && |line| == 16 + |name|;
    NoDashBehind(head + line, body);
    hide *;
    NeverEnds(s, h, name);
    PrivateStep(s, 0, h);
    RedactionIs(|line| + |body|);
    AtEnd(s);
    ThreeSlices(head, line, body);
  }

  lemma NoDashBehind(front: Text, body: Text)
    requires '-' !in body
    ensures forall k | |front| <= k < |front| + |body| :: (front + body)[k] != '-'
  {
  }

  lemma NeverEnds(s: Text, h: Header, name: Text)
    requires IsHeader(s, h) && Label(s, h) == name && forall k | h.labelEnd + 5 <= k < |s| :: s[k] != '-'
    ensures BlockEnd(s, h) == |s|
  {
    assert |DASHES| == 5;
    hide IsHeader, Label, EndMarker, MatchesCi;
    NoEndHere(s, h.labelEnd + 5, |s|, name);
  }

  lemma AtEnd(s: Text)
    ensures RedactPrivateKeys(s) == Redact(s, 0) && Redact(s, |s|) == []
  {
    PrivateKeyLower();
  }

  /** A block of another kind, a certificate for instance, is left alone. */
  lemma PublicBlockIsKept(head: Text, line: Text, name: Text, rest: Text)
    requires '-' !in head && IsHeaderLine(line, name) && !NamesPrivateKey(name)
    requires !ContainsCi("-----" + rest, BEGIN)
    ensures RedactPrivateKeys(head + line + rest) == head + line + rest
  {
    var s, h := head + line + rest, Header(|head|, |head| + 11 + |name|);
    LineIsFirst(head, line, name, rest);
    assert |line| == 16 + |name|;
    hide IsHeader, IsPrivate, NamesPrivateKey, IsHeaderLine, Redact, NextHeader, Label, ContainsCi;
    PublicStep(s, 0, h);
    BehindLabel(s, h.labelEnd, head + line, rest);
    NoHeaderBehind(s[..h.labelEnd], "-----" + rest);
    LastStep(s, h.labelEnd);
    AtEnd(s);
    assert s[0..h.labelEnd] + s[h.labelEnd..] == s;
  }

  lemma BehindLabel(s: Text, e: nat, front: Text, rest: Text)
    requires s == front + rest && |front| == e + 5 && At(s, e, "-----")
    ensures s == s[..e] + ("-----" + rest)
  {
    assert s[e..] == s[e..e + 5] + s[e + 5..] && s[e + 5..] == rest;
  }
}
