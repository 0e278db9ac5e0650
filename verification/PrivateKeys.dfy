/** The private-key pass of the diagnostics redactor. Block boundaries are those of section 2 of
    RFC 7468, found without regard to case. */
module PrivateKeys {
  import opened AnchoredScan
  import opened Options
  import opened Scripts
  import opened Search
  import opened Utf8

  const BEGIN: Text := "-----BEGIN "
  const DASHES: Text := "-----"
  const PRIVATE_KEY: Text := "PRIVATE KEY"
  const KEY_MARKER: Text := "[REDACTED::PRIVATE KEY]"

  /** A header: where it begins and where its label ends. */
  datatype Header = Header(begin: nat, labelEnd: nat)

  predicate IsHeader(s: Text, h: Header) {
    && MatchesCi(s, h.begin, BEGIN)
    && h.begin + |BEGIN| <= h.labelEnd
    && Find(s, h.begin + |BEGIN|, DASHES) == Some(h.labelEnd)
  }

  function Label(s: Text, h: Header): Text
    requires IsHeader(s, h)
  {
    s[h.begin + |BEGIN|..h.labelEnd]
  }

  predicate IsPrivate(s: Text, h: Header)
    requires IsHeader(s, h)
  {
    ContainsCi(Label(s, h), PRIVATE_KEY)
  }

  function EndMarker(name: Text): Text {
    "-----END " + name + "-----"
  }

  /** A block runs to the end of its end marker, or of the text when there is none. */
  function BlockEnd(s: Text, h: Header): (e: nat)
    requires IsHeader(s, h)
    ensures h.labelEnd + |DASHES| <= e <= |s|
  {
    match FindCi(s, h.labelEnd + |DASHES|, EndMarker(Label(s, h)))
    case None => |s|
    case Some(at) => at + |EndMarker(Label(s, h))|
  }

  /** The next header at or after `cursor`; none when its label is not closed. */
  function NextHeader(s: Text, cursor: nat): (r: Option<Header>)
    ensures r.Some? ==> IsHeader(s, r.value) && cursor <= r.value.begin
  {
    match FindCi(s, cursor, BEGIN)
    case None => None
    case Some(b) =>
      match Find(s, b + |BEGIN|, DASHES)
      case None => None
      case Some(le) => Some(Header(b, le))
  }

  function Redact(s: Text, cursor: nat): Text
    requires cursor <= |s|
    decreases |s| - cursor
  {
    match NextHeader(s, cursor)
    case None => s[cursor..]
    case Some(h) =>
      if !IsPrivate(s, h) then s[cursor..h.labelEnd] + Redact(s, h.labelEnd)
      else
        var end := BlockEnd(s, h);
        s[cursor..h.begin] + Redaction(end - h.begin, KEY_MARKER) + Redact(s, end)
  }

  function RedactPrivateKeys(value: Text): Text {
    Redact(value, 0)
  }

  // ---------------------------------------------------------------------------------------------
  // Exactly the blocks are masked, in place

  datatype Block = Block(begin: nat, end: nat)

  predicate InBlock(b: Block, j: nat) { b.begin <= j < b.end }

  function Blocks(s: Text, cursor: nat): (bs: seq<Block>)
    requires cursor <= |s|
    ensures forall b | b in bs :: cursor <= b.begin < b.end <= |s|
    decreases |s| - cursor
  {
    match NextHeader(s, cursor)
    case None => []
    case Some(h) =>
      if !IsPrivate(s, h) then Blocks(s, h.labelEnd)
      else [Block(h.begin, BlockEnd(s, h))] + Blocks(s, BlockEnd(s, h))
  }

  /** What the pass writes at `j`: its block's byte of the padded marker, or what was there. */
  function ByteAt(s: Text, bs: seq<Block>, j: nat): char
    requires j < |s|
  {
    if bs == [] then s[j]
    else if InBlock(bs[0], j) then Redaction(bs[0].end - bs[0].begin, KEY_MARKER)[j - bs[0].begin]
    else ByteAt(s, bs[1..], j)
  }

  predicate Ordered(bs: seq<Block>) {
    forall i | 0 < i < |bs| :: bs[i - 1].end <= bs[i].begin
  }

  /** A block is at least as long as its marker. */
  lemma BlockLength(s: Text, h: Header)
    requires IsHeader(s, h) && IsPrivate(s, h)
    ensures BlockEnd(s, h) - h.begin >= |KEY_MARKER|
  {
    assert |KEY_MARKER| == 23 && |BEGIN| == 11 && |PRIVATE_KEY| == 11 && |DASHES| == 5;
    var i :| 0 <= i <= |Label(s, h)| && MatchesCi(Label(s, h), i, PRIVATE_KEY);
  }

  lemma {:induction false} OutsideBlocks(s: Text, bs: seq<Block>, j: nat)
    requires j < |s| && forall b | b in bs :: !InBlock(b, j)
    ensures ByteAt(s, bs, j) == s[j]
  {
    if bs != [] {
      assert bs[0] in bs;
      assert forall b | b in bs[1..] :: b in bs;
      OutsideBlocks(s, bs[1..], j);
    }
  }

  lemma PrivateStep(s: Text, cursor: nat, h: Header)
    requires cursor <= |s| && NextHeader(s, cursor) == Some(h) && IsPrivate(s, h)
    ensures var end := BlockEnd(s, h);
      Redact(s, cursor) == s[cursor..h.begin] + Redaction(end - h.begin, KEY_MARKER) + Redact(s, end) &&
      Blocks(s, cursor) == [Block(h.begin, end)] + Blocks(s, end)
  {
  }

  lemma PublicStep(s: Text, cursor: nat, h: Header)
    requires cursor <= |s| && NextHeader(s, cursor) == Some(h) && !IsPrivate(s, h)
    ensures Redact(s, cursor) == s[cursor..h.labelEnd] + Redact(s, h.labelEnd)
    ensures Blocks(s, cursor) == Blocks(s, h.labelEnd)
  {
  }

  lemma LastStep(s: Text, cursor: nat)
    requires cursor <= |s| && NextHeader(s, cursor).None?
    ensures Redact(s, cursor) == s[cursor..] && Blocks(s, cursor) == []
  {
  }

  lemma ThreePieces(s: Text, cursor: nat, begin: nat, mask: Text, rest: Text, j: nat)
    requires cursor <= begin <= |s| && cursor <= j < begin + |mask| + |rest|
    ensures (s[cursor..begin] + mask + rest)[j - cursor] ==
      if j < begin then s[j] else if j < begin + |mask| then mask[j - begin] else rest[j - begin - |mask|]
  {
  }

  /** The pass keeps every byte's place: outside the blocks it changes nothing, and a block is
      overwritten by its marker, padded to the block's own length. */
  lemma {:induction false} MasksInPlace(s: Text, cursor: nat)
    requires cursor <= |s|
    ensures var out := Redact(s, cursor); var bs := Blocks(s, cursor);
      |out| == |s| - cursor && forall j | cursor <= j < |s| :: out[j - cursor] == ByteAt(s, bs, j)
    decreases |s| - cursor
  {
    hide NextHeader, IsPrivate, BlockEnd, Redact, Blocks, ByteAt, Redaction;
    var next := NextHeader(s, cursor);
    if next.None? {
      LastStep(s, cursor);
      NoBlocks(s, cursor);
    } else if IsPrivate(s, next.value) {
      var h := next.value;
      PrivateStep(s, cursor, h);
      BlockLength(s, h);
      MasksInPlace(s, BlockEnd(s, h));
      MasksBlock(s, cursor, h, BlockEnd(s, h), Blocks(s, BlockEnd(s, h)), Redact(s, BlockEnd(s, h)));
    } else {
      var h := next.value;
      PublicStep(s, cursor, h);
      MasksInPlace(s, h.labelEnd);
      CopiesLabel(s, cursor, h.labelEnd, Blocks(s, h.labelEnd), Redact(s, h.labelEnd));
    }
  }

  lemma NoBlocks(s: Text, cursor: nat)
    requires cursor <= |s|
    ensures forall j | cursor <= j < |s| :: s[cursor..][j - cursor] == ByteAt(s, [], j)
  {
  }

  lemma CopiesLabel(s: Text, cursor: nat, to: nat, bs: seq<Block>, rest: Text)
    requires cursor <= to <= |s| && |rest| == |s| - to && forall b | b in bs :: to <= b.begin
    requires forall j | to <= j < |s| :: rest[j - to] == ByteAt(s, bs, j)
    ensures forall j | cursor <= j < |s| :: (s[cursor..to] + rest)[j - cursor] == ByteAt(s, bs, j)
  {
    forall j | cursor <= j < |s| ensures (s[cursor..to] + rest)[j - cursor] == ByteAt(s, bs, j) {
      if j < to {
        OutsideBlocks(s, bs, j);
      }
    }
  }

  lemma MasksBlock(s: Text, cursor: nat, h: Header, end: nat, bs: seq<Block>, rest: Text)
    requires cursor <= h.begin < end <= |s| && end - h.begin >= |KEY_MARKER|
    requires |rest| == |s| - end && forall b | b in bs :: end <= b.begin
    requires forall j | end <= j < |s| :: rest[j - end] == ByteAt(s, bs, j)
    ensures var out := s[cursor..h.begin] + Redaction(end - h.begin, KEY_MARKER) + rest;
      forall j | cursor <= j < |s| :: out[j - cursor] == ByteAt(s, [Block(h.begin, end)] + bs, j)
  {
    var m := Redaction(end - h.begin, KEY_MARKER);
    var out := s[cursor..h.begin] + m + rest;
    forall j | cursor <= j < |s| ensures out[j - cursor] == ByteAt(s, [Block(h.begin, end)] + bs, j) {
      ThreePieces(s, cursor, h.begin, m, rest, j);
      assert ([Block(h.begin, end)] + bs)[1..] == bs;
      if j < h.begin {
        OutsideBlocks(s, bs, j);
      }
    }
  }

  lemma {:induction false} BlocksOrdered(s: Text, cursor: nat)
    requires cursor <= |s|
    ensures Ordered(Blocks(s, cursor))
    decreases |s| - cursor
  {
    match NextHeader(s, cursor)
    case None =>
    case Some(h) =>
      if !IsPrivate(s, h) {
        BlocksOrdered(s, h.labelEnd);
      } else {
        var rest := Blocks(s, BlockEnd(s, h));
        BlocksOrdered(s, BlockEnd(s, h));
        assert rest != [] ==> rest[0] in rest;
      }
  }

  lemma BeginByte(j: nat)
    requires j < 11
    ensures |BEGIN| == 11 && (j < 5 <==> Lower(BEGIN[j]) == '-')
  {
  }

  lemma HeaderBytes(s: Text, b: nat)
    requires MatchesCi(s, b, BEGIN)
    ensures b + 11 <= |s| && forall k | b <= k < b + 11 :: (k < b + 5 <==> s[k] == '-')
    ensures MatchesAt(s, b, DASHES)
  {
    BeginByte(0);
    forall k | b <= k < b + 11 ensures k < b + 5 <==> s[k] == '-' {
      BeginByte(k - b);
      assert Lower(s[b + (k - b)]) == Lower(BEGIN[k - b]);
    }
    assert s[b..b + 5] == DASHES;
  }

  /** Two headers do not overlap, and a header does not open inside another one's label. */
  lemma HeadersApart(s: Text, h: Header, b: nat)
    requires IsHeader(s, h) && MatchesCi(s, b, BEGIN) && h.begin < b
    ensures h.labelEnd <= b
  {
    HeaderBytes(s, h.begin);
    HeaderBytes(s, b);
    assert s[b] == '-' && s[b + 4] == '-';
  }

  // ---------------------------------------------------------------------------------------------
  // The pass as a script

  function PemScript(s: Text, cursor: nat): Script
    requires cursor <= |s|
    decreases |s| - cursor
  {
    match NextHeader(s, cursor)
    case None => Keep(s[cursor..], Done)
    case Some(h) =>
      if !IsPrivate(s, h) then Keep(s[cursor..h.labelEnd], PemScript(s, h.labelEnd))
      else
        var end := BlockEnd(s, h);
        Keep(s[cursor..h.begin], Mask(s[h.begin..end], Redaction(end - h.begin, KEY_MARKER), PemScript(s, end)))
  }

  lemma {:induction false} PemScriptIsPass(s: Text, cursor: nat)
    requires cursor <= |s|
    ensures var sc := PemScript(s, cursor);
      Source(sc) == s[cursor..] && Target(sc) == Redact(s, cursor) && Growing(sc)
    decreases |s| - cursor
  {
    hide NextHeader, IsPrivate, BlockEnd;
    var next := NextHeader(s, cursor);
    if next.Some? {
      var h := next.value;
      if IsPrivate(s, h) {
        PemScriptIsPass(s, BlockEnd(s, h));
        BlockScript(s, cursor, h.begin, BlockEnd(s, h), PemScript(s, BlockEnd(s, h)));
      } else {
        PemScriptIsPass(s, h.labelEnd);
        LabelScript(s, cursor, h.labelEnd, PemScript(s, h.labelEnd));
      }
    }
  }

  lemma LabelScript(s: Text, cursor: nat, to: nat, next: Script)
    requires cursor <= to <= |s| && Source(next) == s[to..]
    ensures Source(Keep(s[cursor..to], next)) == s[cursor..]
  {
    Slices(s, cursor, to, |s|);
    assert s[cursor..|s|] == s[cursor..] && s[to..|s|] == s[to..];
  }

  lemma BlockScript(s: Text, cursor: nat, begin: nat, end: nat, next: Script)
    requires cursor <= begin <= end <= |s| && Source(next) == s[end..] && Growing(next)
    ensures var m := Redaction(end - begin, KEY_MARKER);
      var sc := Keep(s[cursor..begin], Mask(s[begin..end], m, next));
      Source(sc) == s[cursor..] && Growing(sc) && Target(sc) == s[cursor..begin] + m + Target(next)
  {
    var m := Redaction(end - begin, KEY_MARKER);
    var inner := Mask(s[begin..end], m, next);
    LabelScript(s, begin, end, next);
    assert Source(inner) == s[begin..];
    LabelScript(s, cursor, begin, inner);
    Join(s[cursor..begin], m, Target(next), m + Target(next), s[cursor..begin] + (m + Target(next)));
  }

  /** A text without a block header is left alone. */
  lemma NothingToRedact(s: Text)
    requires !ContainsCi(s, BEGIN)
    ensures RedactPrivateKeys(s) == s
  {
    assert s[0..] == s;
  }

  // ---------------------------------------------------------------------------------------------
  // UTF-8

  /** Behind an ASCII byte of valid text no character is pending. */
  lemma BehindAscii(s: Text, i: nat)
    requires Valid(s) && 0 < i <= |s| && IsAscii(s[i - 1])
    ensures Valid(s[..i]) && Valid(s[i..])
  {
    BoundaryIffBetweenCharacters(s, i - 1);
    assert s[..i] == s[..i - 1] + [s[i - 1]];
    RunConcat(Start, s[..i - 1], [s[i - 1]]);
    assert Run(Step(Start, s[i - 1]), [s[i - 1]][1..]) == Start;
    assert s[..i] + s[i..] == s;
    RunConcat(Start, s[..i], s[i..]);
  }

  lemma BeforeAscii(s: Text, i: nat)
    requires Valid(s) && i < |s| && IsAscii(s[i])
    ensures Valid(s[..i]) && Valid(s[i..])
  {
    ValidSplit(s, i);
  }

  lemma RedactionIsAscii(n: nat, marker: Text)
    requires forall c | c in marker :: IsAscii(c)
    ensures Valid(Redaction(n, marker))
  {
    var r := Redaction(n, marker);
    forall c | c in r ensures IsAscii(c) {
      assert c in marker || c == '*';
    }
    RunAscii(r);
  }

  /** A block begins and ends between two characters. */
  lemma BlockBoundaries(s: Text, h: Header)
    requires Valid(s) && IsHeader(s, h)
    ensures Valid(s[..h.begin]) && Valid(s[h.begin..])
    ensures Valid(s[..h.labelEnd]) && Valid(s[h.labelEnd..])
    ensures Valid(s[..BlockEnd(s, h)]) && Valid(s[BlockEnd(s, h)..])
  {
    HeaderDashes(s, h);
    EndIsAscii(s, h);
    hide Valid, BlockEnd, IsHeader;
    BeforeAscii(s, h.begin);
    BeforeAscii(s, h.labelEnd);
    var end := BlockEnd(s, h);
    if end < |s| {
      BehindAscii(s, end);
    } else {
      EmptyIsValid();
      assert s[..end] == s && s[end..] == [];
    }
  }

  lemma HeaderDashes(s: Text, h: Header)
    requires IsHeader(s, h)
    ensures h.begin < |s| && s[h.begin] == '-' && h.labelEnd < |s| && s[h.labelEnd] == '-'
  {
    HeaderBytes(s, h.begin);
    assert s[h.begin..h.begin + 5][0] == '-';
    assert s[h.labelEnd..h.labelEnd + 5][0] == '-';
  }

  lemma EmptyIsValid()
    ensures Valid([])
  {
  }

  lemma EndIsAscii(s: Text, h: Header)
    requires IsHeader(s, h)
    ensures var end := BlockEnd(s, h); end == |s| || (0 < end && IsAscii(s[end - 1]))
  {
    hide IsHeader;
    var m := EndMarker(Label(s, h));
    var found := FindCi(s, h.labelEnd + |DASHES|, m);
    if found.Some? {
      var last := |m| - 1;
      assert m[last] == '-';
      assert Lower(s[found.value + last]) == Lower(m[last]);
    }
  }

  lemma ValidSlice(s: Text, a: nat, b: nat)
    requires a <= b <= |s| && Valid(s[a..]) && Valid(s[b..])
    ensures Valid(s[a..b])
  {
    RunReachable(Start, s[a..b]);
    assert s[a..] == s[a..b] + s[b..];
    RunConcat(Start, s[a..b], s[b..]);
    EndsPending(Run(Start, s[a..b]), s[b..]);
  }

  /** Valid text does not complete a pending character. */
  lemma EndsPending(st: State, s: Text)
    requires Reachable(st) && Valid(s) && Run(st, s) == Start
    ensures st == Start
  {
    if s != [] {
      LeadCharacter(s);
      PendingNeedsContinuation(st, s);
    }
  }

  lemma {:induction false} KeepsUtf8(s: Text, cursor: nat)
    requires cursor <= |s| && Valid(s) && Valid(s[cursor..])
    ensures Valid(Redact(s, cursor))
    decreases |s| - cursor
  {
    hide NextHeader, IsPrivate, BlockEnd, Redact, Valid;
    var next := NextHeader(s, cursor);
    if next.None? {
      LastStep(s, cursor);
    } else {
      var h := next.value;
      BlockBoundaries(s, h);
      if IsPrivate(s, h) {
        var end := BlockEnd(s, h);
        var kept, mask := s[cursor..h.begin], Redaction(end - h.begin, KEY_MARKER);
        PrivateStep(s, cursor, h);
        KeepsUtf8(s, end);
        ValidSlice(s, cursor, h.begin);
        MarkerIsAscii(end - h.begin);
        ValidConcat(kept, mask);
        ValidConcat(kept + mask, Redact(s, end));
      } else {
        PublicStep(s, cursor, h);
        KeepsUtf8(s, h.labelEnd);
        ValidSlice(s, cursor, h.labelEnd);
        ValidConcat(s[cursor..h.labelEnd], Redact(s, h.labelEnd));
      }
    }
  }

  lemma MarkerIsAscii(n: nat)
    ensures Valid(Redaction(n, KEY_MARKER))
  {
    RedactionIsAscii(n, KEY_MARKER);
  }

  // ---------------------------------------------------------------------------------------------
  // The loop

  /** `push_redaction`. */
  method PushRedaction(output: Text, originalLength: nat, marker: Text) returns (r: Text)
    ensures r == output + Redaction(originalLength, marker)
  {
    r := output + marker;
    var n := |marker|;
    while n < originalLength
      invariant |marker| <= n && (originalLength >= |marker| ==> n <= originalLength)
      invariant originalLength < |marker| ==> n == |marker|
      invariant r == output + (marker + Stars(n - |marker|))
    {
      assert Stars(n + 1 - |marker|) == Stars(n - |marker|) + "*";
      r := r + "*";
      n := n + 1;
    }
    assert n - |marker| == if originalLength <= |marker| then 0 else originalLength - |marker|;
  }

  /** `redact_private_key_blocks`. Every cut it makes falls between two characters, as its lemma
      calls show; in the source a cut anywhere else would panic. */
  method RedactPrivateKeyBlocks(value: Text) returns (output: Text)
    requires Valid(value)
    ensures output == RedactPrivateKeys(value)
  {
    hide Redact, Blocks, BlockEnd, NextHeader, IsPrivate, Valid;
    output := [];
    var cursor := 0;
    WholeIsSlice(value);
    while true
      invariant cursor <= |value| && Valid(value[cursor..])
      invariant output + Redact(value, cursor) == RedactPrivateKeys(value)
      decreases |value| - cursor
    {
      var next := NextHeader(value, cursor);
      if next.None? {
        break;
      }
      var h := next.value;
      BlockBoundaries(value, h);
      if !IsPrivate(value, h) {
        PublicStep(value, cursor, h);
        output := output + value[cursor..h.labelEnd];
        cursor := h.labelEnd;
      } else {
        PrivateStep(value, cursor, h);
        output := output + value[cursor..h.begin];
        var blockEnd := FindBlockEnd(value, h);
        output := PushRedaction(output, blockEnd - h.begin, KEY_MARKER);
        cursor := blockEnd;
      }
    }
    LastStep(value, cursor);
    output := output + value[cursor..];
  }

  lemma WholeIsSlice(value: Text)
    requires Valid(value)
    ensures Valid(value[0..])
  {
    assert value[0..] == value;
  }

  method FindBlockEnd(value: Text, h: Header) returns (blockEnd: nat)
    requires IsHeader(value, h)
    ensures blockEnd == BlockEnd(value, h)
  {
    var endMarker := EndMarker(value[h.begin + |BEGIN|..h.labelEnd]);
    var end := FindCi(value, h.labelEnd + 5, endMarker);
    blockEnd := if end.None? then |value| else end.value + |endMarker|;
  }
}
