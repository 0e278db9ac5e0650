/** Which private-key blocks are masked as a whole, and texts on which the pass does less than it is meant
    to. */
module PrivateKeyCoverage {
  import opened AnchoredScan
  import opened Options
  import opened PrivateKeys
  import opened Search
  import opened Utf8

  /** Byte `k` lies in a block. */
  predicate MaskedAt(bs: seq<Block>, k: nat) {
    exists b | b in bs :: InBlock(b, k)
  }

  /** Every private-key block of the text ahead of the cursor is masked as a whole, from the first byte of
      its header to the last of its end marker, or begins inside another masked block. */
  lemma {:induction false} EveryBlockMet(s: Text, cursor: nat, h: Header)
    requires cursor <= h.begin && cursor <= |s| && IsHeader(s, h) && IsPrivate(s, h)
    ensures Block(h.begin, BlockEnd(s, h)) in Blocks(s, cursor)
         || exists b | b in Blocks(s, cursor) :: b.begin < h.begin < b.end
    decreases |s| - cursor
  {
    hide BlockEnd, IsPrivate, Blocks, Redact;
    NextIsBefore(s, cursor, h);
    hide IsHeader, NextHeader;
    var n := NextHeader(s, cursor).value;
    if IsPrivate(s, n) {
      PrivateStep(s, cursor, n);
      assert Block(n.begin, BlockEnd(s, n)) in Blocks(s, cursor);
    } else {
      PublicStep(s, cursor, n);
    }
    if n.begin < h.begin {
      HeadersApart(s, n, h.begin);
      if !IsPrivate(s, n) {
        EveryBlockMet(s, n.labelEnd, h);
      } else if h.begin >= BlockEnd(s, n) {
        EveryBlockMet(s, BlockEnd(s, n), h);
      }
    }
  }

  /** With a header ahead, the next header is that one or one before it. */
  lemma NextIsBefore(s: Text, cursor: nat, h: Header)
    requires cursor <= h.begin && cursor <= |s| && IsHeader(s, h)
    ensures MatchesCi(s, h.begin, BEGIN)
    ensures NextHeader(s, cursor).Some?
    ensures NextHeader(s, cursor).value == h || NextHeader(s, cursor).value.begin < h.begin
  {
    var first := FindCi(s, cursor, BEGIN).value;
    assert first <= h.begin;
    assert Find(s, first + |BEGIN|, DASHES).Some?;
  }

  predicate WhollyMasked(s: Text, cursor: nat, h: Header)
    requires cursor <= |s| && IsHeader(s, h)
  {
    forall k | h.begin <= k < BlockEnd(s, h) :: MaskedAt(Blocks(s, cursor), k)
  }

  /** Each masked block that ends inside the block of `h` is followed at once by another masked one. */
  predicate NoneEndsInside(s: Text, cursor: nat, h: Header)
    requires cursor <= |s| && IsHeader(s, h)
  {
    forall b | b in Blocks(s, cursor) && h.begin < b.end < BlockEnd(s, h) :: MaskedAt(Blocks(s, cursor), b.end)
  }

  /** No byte of a private-key block is left exactly if no other masked block ends inside it with an
      unmasked byte behind. */
  lemma WhollyMaskedIff(s: Text, cursor: nat, h: Header)
    requires cursor <= h.begin && cursor <= |s| && IsHeader(s, h) && IsPrivate(s, h)
    ensures WhollyMasked(s, cursor, h) <==> NoneEndsInside(s, cursor, h)
  {
    hide Blocks, BlockEnd;
    if NoneEndsInside(s, cursor, h) {
      EveryBlockMet(s, cursor, h);
      var bs := Blocks(s, cursor);
      assert MaskedAt(bs, h.begin) by {
        if Block(h.begin, BlockEnd(s, h)) in bs {
          assert InBlock(Block(h.begin, BlockEnd(s, h)), h.begin);
        } else {
          var b :| b in bs && b.begin < h.begin < b.end;
          assert InBlock(b, h.begin);
        }
      }
      for k := h.begin to BlockEnd(s, h)
        invariant k < BlockEnd(s, h) ==> MaskedAt(bs, k)
        invariant forall m | h.begin <= m < k :: MaskedAt(bs, m)
      {
        var b :| b in bs && InBlock(b, k);
        assert k + 1 < b.end ==> InBlock(b, k + 1);
      }
    }
  }

  /** A block that no other one overlaps is masked wholly. */
  lemma ApartIsMasked(s: Text, cursor: nat, h: Header)
    requires cursor <= h.begin && cursor <= |s| && IsHeader(s, h) && IsPrivate(s, h)
    requires forall b | b in Blocks(s, cursor) :: !(b.begin < h.begin < b.end)
    ensures WhollyMasked(s, cursor, h)
  {
    hide Blocks, BlockEnd;
    EveryBlockMet(s, cursor, h);
    forall k | h.begin <= k < BlockEnd(s, h) ensures MaskedAt(Blocks(s, cursor), k) {
      assert InBlock(Block(h.begin, BlockEnd(s, h)), k);
    }
  }

  // ---------------------------------------------------------------------------------------------
  // A block that is not masked

  const END_MARKER: Text := "-----END PRIVATE KEY-----"

  predicate At(s: Text, p: nat, piece: Text) {
    p + |piece| <= |s| && s[p..p + |piece|] == piece
  }

  /** A private-key header at `p`. */
  lemma HeaderAt(s: Text, p: nat)
    requires At(s, p, BEGIN) && At(s, p + 11, PRIVATE_KEY) && At(s, p + 22, DASHES)
    ensures var h := Header(p, p + 22); IsHeader(s, h) && Label(s, h) == PRIVATE_KEY && IsPrivate(s, h)
  {
    assert |BEGIN| == 11 && |PRIVATE_KEY| == 11 && |DASHES| == 5;
    forall j | 0 <= j < 11 ensures Lower(s[p + j]) == Lower(BEGIN[j]) {
      assert s[p + j] == s[p..p + 11][j];
    }
    forall k | p + 11 <= k < p + 22 ensures !MatchesAt(s, k, DASHES) {
      assert s[k] == s[p + 11..p + 22][k - p - 11] == PRIVATE_KEY[k - p - 11];
      assert k + 5 <= |s| ==> s[k..k + 5][0] == s[k];
    }
    assert MatchesAt(s, p + 22, DASHES);
    assert MatchesCi(PRIVATE_KEY, 0, PRIVATE_KEY);
  }

  /** The end marker of such a block is the first one behind its label. */
  lemma EndAt(s: Text, p: nat, n: nat)
    requires IsHeader(s, Header(p, p + 22)) && Label(s, Header(p, p + 22)) == PRIVATE_KEY
    requires p + 27 <= n && At(s, n, END_MARKER) && forall k | p + 27 <= k < n :: s[k] != '-'
    ensures BlockEnd(s, Header(p, p + 22)) == n + 25
  {
    hide IsHeader, Label;
    EndMarkerIs();
    EndFound(s, p + 27, n);
    hide EndMarker, END_MARKER;
  }

  lemma EndMarkerIs()
    ensures EndMarker(PRIVATE_KEY) == END_MARKER && |END_MARKER| == 25 && END_MARKER[0] == '-' && |DASHES| == 5
  {
  }

  lemma EndFound(s: Text, from: nat, n: nat)
    requires from <= n && At(s, n, END_MARKER) && forall k | from <= k < n :: s[k] != '-'
    ensures FindCi(s, from, END_MARKER) == Some(n)
  {
    EndMarkerIs();
    hide END_MARKER;
    forall j | 0 <= j < 25 ensures Lower(s[n + j]) == Lower(END_MARKER[j]) {
      assert s[n + j] == s[n..n + 25][j];
    }
    forall k: nat | from <= k < n ensures !MatchesCi(s, k, END_MARKER) {
      assert Lower(s[k]) == '-' <==> s[k] == '-';
      assert Lower(s[k + 0]) != Lower(END_MARKER[0]);
    }
    assert MatchesCi(s, n, END_MARKER);
  }

  lemma TwoPieces(a: Text, b: Text, c: Text)
    ensures At(a + b + c, |a|, b) && forall k | |a| <= k < |a| + |b| :: (a + b + c)[k] == b[k - |a|]
  {
    assert (a + b + c)[|a|..|a| + |b|] == b;
  }

  lemma AtMoved(s: Text, p: nat, a: Text, b: Text)
    requires At(s, p, a + b)
    ensures At(s, p, a) && At(s, p + |a|, b)
  {
    assert s[p..p + |a|] == s[p..p + |a| + |b|][..|a|] && s[p + |a|..p + |a| + |b|] == s[p..p + |a| + |b|][|a|..];
  }

  function HeaderLine(): Text { BEGIN + (PRIVATE_KEY + DASHES) }

  /** One block with a body that has no dash. */
  function BlockOf(body: Text): Text { HeaderLine() + (body + END_MARKER) }

  lemma BlockAt(s: Text, p: nat, body: Text)
    requires At(s, p, BlockOf(body)) && '-' !in body
    ensures var h := Header(p, p + 22);
      IsHeader(s, h) && IsPrivate(s, h) && BlockEnd(s, h) == p + 52 + |body| && |BlockOf(body)| == 52 + |body|
  {
    assert |BEGIN| == 11 && |PRIVATE_KEY| == 11 && |DASHES| == 5 && |END_MARKER| == 25;
    AtMoved(s, p, HeaderLine(), body + END_MARKER);
    AtMoved(s, p, BEGIN, PRIVATE_KEY + DASHES);
    AtMoved(s, p + 11, PRIVATE_KEY, DASHES);
    AtMoved(s, p + 27, body, END_MARKER);
    hide IsHeader, IsPrivate, BlockEnd;
    HeaderAt(s, p);
    forall k | p + 27 <= k < p + 27 + |body| ensures s[k] != '-' {
      assert s[k] == s[p + 27..p + 27 + |body|][k - p - 27] && body[k - p - 27] in body;
    }
    EndAt(s, p, p + 27 + |body|);
  }

  /** A text with one block and no header before or behind it. */
  lemma OneBlockOnly(head: Text, body: Text, tail: Text)
    requires '-' !in head && '-' !in body && !ContainsCi(tail, BEGIN)
    ensures var s := head + BlockOf(body) + tail; var end := |head| + 52 + |body|;
      && Blocks(s, 0) == [Block(|head|, end)] && end + |tail| == |s|
      && RedactPrivateKeys(s) == head + Redaction(52 + |body|, KEY_MARKER) + tail
  {
    hide IsHeader, IsPrivate, BlockEnd, Redaction, BlockOf, Blocks, Redact, NextHeader, ContainsCi;
    var block := BlockOf(body);
    var s := head + block + tail;
    var p := |head|;
    TwoPieces(head, block, tail);
    BlockAt(s, p, body);
    var end, h := p + |block|, Header(p, p + 22);
    forall k | 0 <= k < p ensures s[k] != '-' {
      assert s[k] == head[k] && head[k] in head;
    }
    FirstHeader(s, p);
    PrivateStep(s, 0, h);
    NoHeaderBehind(head + block, tail);
    LastStep(s, end);
    ThreeSlices(head, block, tail);
  }

  lemma ThreeSlices(a: Text, b: Text, c: Text)
    ensures var s := a + b + c; s[0..|a|] == a && s[|a| + |b|..] == c && |s| == |a| + |b| + |c|
  {
  }

  /** Nothing before the first dash is a header. */
  lemma FirstHeader(s: Text, p: nat)
    requires IsHeader(s, Header(p, p + 22)) && p <= |s| && forall k | 0 <= k < p :: s[k] != '-'
    ensures NextHeader(s, 0) == Some(Header(p, p + 22))
  {
    forall k | 0 <= k < p ensures !MatchesCi(s, k, BEGIN) {
      assert s[k] != '-';
      if MatchesCi(s, k, BEGIN) {
        HeaderBytes(s, k);
      }
    }
  }

  lemma NoHeaderBehind(a: Text, tail: Text)
    requires !ContainsCi(tail, BEGIN)
    ensures NextHeader(a + tail, |a|).None?
  {
    var s := a + tail;
    if FindCi(s, |a|, BEGIN).Some? {
      var k := FindCi(s, |a|, BEGIN).value;
      assert |a| + (k - |a|) == k;
      MatchesShift(a, tail, k - |a|, BEGIN);
    }
  }

  /** `BEGIN PRIVATE KEY-----`, its dashes in front missing, a body and an end marker. */
  function Undashed(body: Text): Text { "BEGIN " + (PRIVATE_KEY + DASHES) + (body + END_MARKER) }

  lemma PiecesLackB()
    ensures Lacks("EGIN ", 'b') && Lacks(PRIVATE_KEY, 'b') && Lacks(DASHES, 'b') && Lacks(END_MARKER, 'b')
    ensures |BEGIN| == 11 && Lower(BEGIN[5]) == 'b' && "BEGIN " == ['B'] + "EGIN "
  {
  }

  lemma UndashedOpensNone(body: Text)
    requires Lacks(body, 'b')
    ensures !ContainsCi(Undashed(body), BEGIN)
  {
    PiecesLackB();
    var rest := "EGIN " + (PRIVATE_KEY + DASHES) + (body + END_MARKER);
    LacksConcat(PRIVATE_KEY, DASHES, 'b');
    LacksConcat(body, END_MARKER, 'b');
    LacksConcat("EGIN ", PRIVATE_KEY + DASHES, 'b');
    LacksConcat("EGIN " + (PRIVATE_KEY + DASHES), body + END_MARKER, 'b');
    FirstOnly(['B'], "EGIN ", PRIVATE_KEY + DASHES, body + END_MARKER);
    OnlyAtFront('B', rest);
  }

  lemma FirstOnly(b: Text, x: Text, y: Text, z: Text)
    ensures (b + x) + y + z == b + (x + y + z)
  {
  }

  lemma OnlyAtFront(b: char, rest: Text)
    requires Lacks(rest, 'b') && |BEGIN| == 11 && Lower(BEGIN[5]) == 'b'
    ensures !ContainsCi([b] + rest, BEGIN)
  {
    hide BEGIN;
    var t := [b] + rest;
    forall i | 0 <= i <= |t| ensures !MatchesCi(t, i, BEGIN) {
      if i + 11 <= |t| {
        assert t[i + 5] == rest[i + 4] && rest[i + 4] in rest;
      }
    }
  }

  lemma SharedDashes(a: Text, body: Text)
    ensures BlockOf(a) + Undashed(body) ==
      (HeaderLine() + (a + "-----END PRIVATE KEY")) + BlockOf(body)
  {
    assert END_MARKER == "-----END PRIVATE KEY" + DASHES;
    assert BEGIN == DASHES + "BEGIN ";
    var x, y, z := HeaderLine() + (a + "-----END PRIVATE KEY"), "BEGIN ", PRIVATE_KEY + DASHES;
    assert BlockOf(a) == x + DASHES;
    assert BlockOf(body) == (DASHES + y) + z + (body + END_MARKER);
  }

  lemma SharedHeader(a: Text, body: Text)
    requires '-' !in body
    ensures var s := BlockOf(a) + Undashed(body); var h := Header(47 + |a|, 69 + |a|);
      IsHeader(s, h) && IsPrivate(s, h) && BlockEnd(s, h) == 99 + |a| + |body|
  {
    var front := HeaderLine() + (a + "-----END PRIVATE KEY");
    SharedDashes(a, body);
    assert |HeaderLine()| == 27 && |front| == 47 + |a|;
    hide IsHeader, IsPrivate, BlockEnd, BlockOf, Undashed, HeaderLine;
    TwoPieces(front, BlockOf(body), []);
    assert front + BlockOf(body) + [] == front + BlockOf(body);
    BlockAt(front + BlockOf(body), 47 + |a|, body);
  }

  /** Two blocks that share five dashes: the second one begins inside the first one's end marker, and its
      whole body is copied. */
  lemma SharedDashesLeak(a: Text, body: Text)
    requires '-' !in a && '-' !in body && Lacks(body, 'b')
    ensures var s := BlockOf(a) + Undashed(body); var h := Header(47 + |a|, 69 + |a|);
      && IsHeader(s, h) && IsPrivate(s, h) && !WhollyMasked(s, 0, h)
      && RedactPrivateKeys(s) == Redaction(52 + |a|, KEY_MARKER) + Undashed(body)
  {
    var s := BlockOf(a) + Undashed(body);
    UndashedOpensNone(body);
    OneBlockOnly([], a, Undashed(body));
    assert [] + BlockOf(a) == BlockOf(a) && [] + Redaction(52 + |a|, KEY_MARKER) == Redaction(52 + |a|, KEY_MARKER);
    SharedHeader(a, body);
    hide IsHeader, IsPrivate, BlockEnd, Blocks, Redact, BlockOf, Undashed, Redaction;
    assert !MaskedAt([Block(0, 52 + |a|)], 52 + |a|);
  }

  // ---------------------------------------------------------------------------------------------
  // A block inside another label

  const OUTER: Text := "-----BEGIN A"

  lemma OneBlockBehind(front: Text, body: Text, tail: Text)
    requires '-' !in body && !ContainsCi(tail, BEGIN)
    ensures Redact(front + BlockOf(body) + tail, |front|) == Redaction(52 + |body|, KEY_MARKER) + tail
  {
    hide IsHeader, IsPrivate, BlockEnd, Redaction, BlockOf, Blocks, Redact, NextHeader, ContainsCi;
    var block := BlockOf(body);
    var s := front + block + tail;
    var p := |front|;
    TwoPieces(front, block, tail);
    BlockAt(s, p, body);
    HeaderHere(s, p);
    PrivateStep(s, p, Header(p, p + 22));
    NoHeaderBehind(front + block, tail);
    LastStep(s, p + |block|);
    ThreeSlices(front, block, tail);
    NothingBefore(s, p, Redaction(52 + |body|, KEY_MARKER), tail);
  }

  lemma NothingBefore(s: Text, p: nat, m: Text, tail: Text)
    requires p <= |s|
    ensures s[p..p] + m + tail == m + tail
  {
  }

  lemma HeaderHere(s: Text, p: nat)
    requires IsHeader(s, Header(p, p + 22)) && p <= |s|
    ensures NextHeader(s, p) == Some(Header(p, p + 22))
  {
  }

  lemma OuterHeader(middle: Text, tail: Text)
    requires '-' !in middle && At(tail, 0, DASHES)
    ensures var s := OUTER + middle + tail; var h := Header(0, 12 + |middle|);
      && NextHeader(s, 0) == Some(h) && IsHeader(s, h) && Label(s, h) == "A" + middle && |OUTER| == 12
  {
    var s := OUTER + middle + tail;
    var n := 12 + |middle|;
    assert |BEGIN| == 11 && |DASHES| == 5 && OUTER == BEGIN + "A";
    assert forall j | 0 <= j < 11 :: s[0 + j] == BEGIN[j];
    assert MatchesCi(s, 0, BEGIN);
    assert s[n..n + 5] == tail[0..5] == DASHES;
    forall k | 11 <= k < n ensures !MatchesAt(s, k, DASHES) {
      assert s[k] == if k == 11 then 'A' else middle[k - 12];
      assert k > 11 ==> middle[k - 12] in middle;
      assert k + 5 <= |s| ==> s[k..k + 5][0] == s[k] && DASHES[0] == '-';
    }
    assert s[11..n] == "A" + middle;
    assert FindCi(s, 0, BEGIN) == Some(0);
    assert MatchesAt(s, n, DASHES);
    var found := Find(s, 11, DASHES);
    assert found == Some(n);
  }

  lemma MarkerHoldsLabel(length: nat)
    ensures ContainsCi("A" + Redaction(length, KEY_MARKER), PRIVATE_KEY)
  {
    var name := "A" + Redaction(length, KEY_MARKER);
    assert KEY_MARKER == "[REDACTED::" + PRIVATE_KEY + "]";
    assert forall j | 0 <= j < 11 :: name[12 + j] == KEY_MARKER[11 + j] == PRIVATE_KEY[j];
    assert MatchesCi(name, 12, PRIVATE_KEY);
  }

  lemma AIsNotPrivate()
    ensures !ContainsCi("A" + [], PRIVATE_KEY)
  {
    assert |PRIVATE_KEY| == 11;
  }

  /** The pass is not idempotent: masking a block puts the words it looks for into the label of an outer,
      open header, and the second run masks that one, too. */
  lemma NestedBlockTwice(body: Text)
    requires '-' !in body
    ensures var out := RedactPrivateKeys(OUTER + BlockOf(body) + DASHES);
      RedactPrivateKeys(out) != out
  {
    var block, r := BlockOf(body), Redaction(52 + |body|, KEY_MARKER);
    var s := OUTER + block + DASHES;
    NestedOnce(body);
    var out := OUTER + r + DASHES;
    RedactionIsAscii(52 + |body|, KEY_MARKER);
    RedactionHasNoDash(52 + |body|);
    assert DASHES[0..5] == DASHES;
    OuterHeader(r, DASHES);
    MarkerHoldsLabel(52 + |body|);
    hide Redact, BlockEnd, Redaction, BlockOf, NextHeader;
    PrivateStep(out, 0, Header(0, 12 + |r|));
    assert Redact(out, 0)[0] == KEY_MARKER[0] == '[' by {
      var e := BlockEnd(out, Header(0, 12 + |r|));
      assert KEY_MARKER <= Redaction(e - 0, KEY_MARKER);
    }
    assert out[0] == OUTER[0] == '-';
  }

  lemma RedactionHasNoDash(n: nat)
    ensures '-' !in Redaction(n, KEY_MARKER)
  {
    assert '-' !in KEY_MARKER;
  }

  lemma NestedOnce(body: Text)
    requires '-' !in body
    ensures RedactPrivateKeys(OUTER + BlockOf(body) + DASHES) == OUTER + Redaction(52 + |body|, KEY_MARKER) + DASHES
  {
    var block := BlockOf(body);
    var s := OUTER + block + DASHES;
    assert s == OUTER + [] + (block + DASHES);
    assert (block + DASHES)[0..5] == DASHES by {
      assert BEGIN == DASHES + "BEGIN ";
    }
    OuterHeader([], block + DASHES);
    AIsNotPrivate();
    assert |DASHES| == 5 && |BEGIN| == 11;
    OneBlockBehind(OUTER, body, DASHES);
    hide Redact, BlockOf, Redaction, NextHeader;
    PublicStep(s, 0, Header(0, 12));
    assert s[0..12] == OUTER;
  }
}
