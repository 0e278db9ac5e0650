/** The anchored pass as the loop that the source runs, as a script, and on UTF-8. */
module AnchoredPass {
  import opened AnchoredIdempotence
  import opened AnchoredKeys
  import opened AnchoredRuns
  import opened AnchoredScan
  import opened Options
  import opened PrivateKeys
  import opened Scripts
  import opened Search
  import opened Utf8

  // ---------------------------------------------------------------------------------------------
  // UTF-8

  lemma HitEdges(keys: KeyTable, f: bool, s: Text, h: Hit)
    requires Parse(keys, f, s, 0) == Some(h)
    ensures IsAscii(s[h.start - 1]) && (h.end < |s| ==> IsAscii(s[h.end]))
  {
    hide FindKey, ValueStart, IsSeparator;
    SeparatorsBeforeValue(f, s, FindKey(keys, s, 0).value.end);
    SeparatorIsAscii(s[h.start - 1]);
    assert h.end < |s| ==> EndsValue(h.kind, s[h.end]);
  }

  lemma SeparatorIsAscii(c: char)
    ensures IsSeparator(c) ==> IsAscii(c)
  {
  }

  lemma HitBoundaries(keys: KeyTable, f: bool, s: Text, h: Hit)
    requires Valid(s) && Parse(keys, f, s, 0) == Some(h)
    ensures Valid(s[..h.start]) && Valid(s[h.start..]) && Valid(s[h.end..])
  {
    hide Parse;
    HitEdges(keys, f, s, h);
    BehindAscii(s, h.start);
    if h.end < |s| {
      BeforeAscii(s, h.end);
    } else {
      assert s[h.end..] == [];
    }
  }

  lemma SegmentIsUtf8(keys: KeyTable, f: bool, s: Text, h: Hit)
    requires Valid(s) && Parse(keys, f, s, 0) == Some(h)
    ensures Valid(Segment(s, h)) && Valid(s[h.end..])
  {
    hide Parse, Valid;
    HitBoundaries(keys, f, s, h);
    ValidSlice(s, h.start, h.end);
    var value := s[h.start..h.end];
    if !IsMarked(value) {
      RedactedIsAscii(|value|);
    }
    ValidConcat(s[..h.start], Mark(value));
  }

  lemma RedactedIsAscii(n: nat)
    ensures Valid(Redaction(n, REDACTED))
  {
    RedactionIsAscii(n, REDACTED);
  }

  /** The pass keeps text valid; `st` is the character pending before `s`, if any. */
  lemma {:induction false} ScanKeepsUtf8(keys: KeyTable, f: bool, s: Text, st: State)
    requires Reachable(st) && Run(st, s) == Start
    ensures Run(st, Scan(keys, f, s)) == Start
    decreases |s|
  {
    hide Parse, After, Step;
    if s != [] {
      match Parse(keys, f, s, 0)
      case None =>
        CopyStep(keys, f, s);
        StepReachable(st, s[0]);
        ScanKeepsUtf8(keys, After(f, s[..1]), s[1..], Step(st, s[0]));
        assert Scan(keys, f, s)[1..] == Scan(keys, After(f, s[..1]), s[1..]);
      case Some(h) =>
        KeyIsAscii(keys, f, s);
        RunReachable(st, s);
        PendingOrStart(st, s);
        SegmentIsUtf8(keys, f, s, h);
        ScanKeepsUtf8(keys, After(f, s[..h.end]), s[h.end..], Start);
        StepWrites(keys, f, s, h);
        ValidConcat(Segment(s, h), Scan(keys, After(f, s[..h.end]), s[h.end..]));
    }
  }

  lemma StepReachable(st: State, c: char)
    requires Reachable(st)
    ensures Reachable(Step(st, c))
  {
  }

  lemma PendingOrStart(st: State, s: Text)
    requires Reachable(st) && Run(st, s) == Start && s != [] && IsAscii(s[0])
    ensures st == Start
  {
    PendingNeedsContinuation(st, s);
  }

  lemma KeyIsAscii(keys: KeyTable, f: bool, s: Text)
    requires Parse(keys, f, s, 0).Some?
    ensures IsAscii(s[0])
  {
  }

  // ---------------------------------------------------------------------------------------------
  // The pass as a script

  function ScanScript(keys: KeyTable, f: bool, s: Text): Script
    decreases |s|
  {
    if s == [] then Done
    else match Parse(keys, f, s, 0)
      case None => Keep(s[..1], ScanScript(keys, After(f, s[..1]), s[1..]))
      case Some(h) =>
        var value := s[h.start..h.end];
        var next := ScanScript(keys, After(f, s[..h.end]), s[h.end..]);
        Keep(s[..h.start], ValueScript(value, next))
  }

  /** A value that is marked already is kept, any other one masked. */
  function ValueScript(value: Text, next: Script): Script {
    if IsMarked(value) then Keep(value, next) else Mask(value, Redaction(|value|, REDACTED), next)
  }

  lemma {:induction false} ScanScriptIsPass(keys: KeyTable, f: bool, s: Text)
    ensures var sc := ScanScript(keys, f, s);
      Source(sc) == s && Target(sc) == Scan(keys, f, s) && Growing(sc) && AllBar(sc, BEGIN)
    decreases |s|
  {
    hide Parse, After;
    if s != [] {
      match Parse(keys, f, s, 0)
      case None =>
        CopyStep(keys, f, s);
        ScanScriptIsPass(keys, After(f, s[..1]), s[1..]);
        assert s[..1] + s[1..] == s;
      case Some(h) =>
        StepWrites(keys, f, s, h);
        ScanScriptIsPass(keys, After(f, s[..h.end]), s[h.end..]);
        HitScript(s, h, ScanScript(keys, After(f, s[..h.end]), s[h.end..]));
    }
  }

  lemma HitScript(s: Text, h: Hit, next: Script)
    requires h.start <= h.end <= |s| && Source(next) == s[h.end..] && Growing(next) && AllBar(next, BEGIN)
    ensures var value := s[h.start..h.end];
      var sc := Keep(s[..h.start], ValueScript(value, next));
      Source(sc) == s && Target(sc) == Segment(s, h) + Target(next) && Growing(sc) && AllBar(sc, BEGIN)
  {
    var value := s[h.start..h.end];
    RedactedBarsBegin(|value|);
    assert s == s[..h.start] + (value + s[h.end..]);
    var rest := Mark(value) + Target(next);
    Join(s[..h.start], Mark(value), Target(next), rest, s[..h.start] + rest);
  }

  lemma RedactedBarsBegin(n: nat)
    ensures BarsCi(Redaction(n, REDACTED), BEGIN)
  {
    var r := Redaction(n, REDACTED);
    forall c | c in r ensures Lower(c) != '-' {
      assert c in REDACTED || c == '*';
    }
    assert r[0] == REDACTED[0] == '[';
    assert forall c | c in BEGIN :: Lower(c) != '[';
  }

  // ---------------------------------------------------------------------------------------------
  // The loop

  /** Just behind the last line break before `i`. */
  function LineStart(value: Text, i: nat): (r: nat)
    requires i <= |value|
    ensures r <= i
  {
    if i == 0 then 0 else if IsNewline(value[i - 1]) then i else LineStart(value, i - 1)
  }

  function TokenEnd(value: Text, i: nat): (r: nat)
    requires i <= |value|
    ensures i <= r <= |value|
    decreases |value| - i
  {
    if i == |value| || IsBlank(value[i]) || IsNewline(value[i]) then i else TokenEnd(value, i + 1)
  }

  /** `space_form_is_structured`: a command-line key, or a value of digits. */
  predicate SpaceFormIsStructured(value: Text, anchorStart: nat, valueStart: nat)
    requires anchorStart <= |value| && valueStart <= |value|
  {
    var cliKey := '-' in value[LineStart(value, anchorStart)..anchorStart];
    var token := value[valueStart..TokenEnd(value, valueStart)];
    cliKey || forall c | c in token :: IsDigit(c)
  }

  lemma {:induction false} CliKeyIsAfter(value: Text, i: nat)
    requires i <= |value|
    ensures After(false, value[..i]) == ('-' in value[LineStart(value, i)..i])
  {
    if i > 0 {
      AfterNext(false, value, i - 1);
      CliKeyIsAfter(value, i - 1);
      if !IsNewline(value[i - 1]) {
        var l := LineStart(value, i);
        Slices(value, l, i - 1, i);
        assert value[i - 1..i] == [value[i - 1]];
      }
    }
  }

  lemma {:induction false} NumericIsToken(value: Text, i: nat)
    requires i <= |value|
    ensures Numeric(value, i) == forall c | c in value[i..TokenEnd(value, i)] :: IsDigit(c)
    decreases |value| - i
  {
    if i < |value| && !IsBlank(value[i]) && !IsNewline(value[i]) {
      NumericIsToken(value, i + 1);
      var e := TokenEnd(value, i);
      Slices(value, i, i + 1, e);
      assert value[i..i + 1] == [value[i]];
    }
  }

  lemma SpaceFormMeaning(value: Text, anchorStart: nat, valueStart: nat)
    requires anchorStart <= |value| && valueStart <= |value|
    ensures SpaceFormIsStructured(value, anchorStart, valueStart) ==
      (After(false, value[..anchorStart]) || Numeric(value, valueStart))
  {
    CliKeyIsAfter(value, anchorStart);
    NumericIsToken(value, valueStart);
  }

  /** What is still to be written at `index`. */
  ghost function Rest(value: Text, index: nat): Text
    requires index <= |value|
  {
    Scan(SECRET_ANCHORS, After(false, value[..index]), value[index..])
  }

  ghost function FoundAt(value: Text, index: nat): (r: Option<Hit>)
    requires index <= |value|
    ensures r.Some? ==> index + 7 < r.value.start <= r.value.end <= |value|
  {
    Parse(SECRET_ANCHORS, After(false, value[..index]), value, index)
  }

  lemma NextCharacter(value: Text, index: nat)
    requires index < |value| && Valid(value[index..]) && FoundAt(value, index).None?
    ensures var next := index + LeadLength(value[index]);
      next <= |value| && Valid(value[next..]) && Rest(value, index) == value[index..next] + Rest(value, next)
  {
    hide Parse, Scan, Write, Cold, Valid, After;
    var next := index + LeadLength(value[index]);
    CharacterBytes(value, index);
    forall j | index <= j < next ensures Cold(SECRET_ANCHORS, false, value, j, next) {
      if next == index + 1 {
        NoneIsCold(value, index, next);
      } else {
        NonAsciiOpensNothing(SECRET_ANCHORS, value, j, next);
      }
    }
    ColdRun(SECRET_ANCHORS, false, value, index, next);
  }

  lemma CharacterBytes(value: Text, index: nat)
    requires index < |value| && Valid(value[index..])
    ensures index + LeadLength(value[index]) <= |value| && Valid(value[index + LeadLength(value[index])..])
    ensures LeadLength(value[index]) > 1 ==>
      forall j | index <= j < index + LeadLength(value[index]) :: !IsAscii(value[j])
  {
    var u := value[index..];
    LeadCharacter(u);
    SuffixSlice(value, index, 0, LeadLength(u[0]));
    assert forall j | index <= j < index + LeadLength(u[0]) :: value[j] == u[j - index];
  }

  lemma NoneIsCold(value: Text, j: nat, end: nat)
    requires j <= |value| && FoundAt(value, j).None?
    ensures Cold(SECRET_ANCHORS, false, value, j, end)
  {
  }

  lemma NonAsciiOpensNothing(keys: KeyTable, s: Text, j: nat, end: nat)
    requires j < |s| && !IsAscii(s[j])
    ensures Cold(keys, false, s, j, end)
  {
    assert FindKey(keys, s, j).None?;
  }

  lemma FoundHere(value: Text, index: nat, h: Hit)
    requires index < |value| && FoundAt(value, index) == Some(h)
    ensures Parse(SECRET_ANCHORS, After(false, value[..index]), value[index..], 0) ==
      Some(Hit(h.kind, h.start - index, h.end - index))
  {
    hide Parse;
    ParseSuffix(SECRET_ANCHORS, After(false, value[..index]), value, index);
  }

  lemma NextSecret(value: Text, index: nat, h: Hit)
    requires index < |value| && Valid(value[index..]) && FoundAt(value, index) == Some(h)
    ensures Valid(value[h.start..]) && Valid(value[h.end..])
    ensures Rest(value, index) == value[index..h.start] + Mark(value[h.start..h.end]) + Rest(value, h.end)
  {
    hide Parse, Scan, Write, Valid, After, Mark, FoundAt;
    var f := After(false, value[..index]);
    var u := value[index..];
    var found := Hit(h.kind, h.start - index, h.end - index);
    FoundHere(value, index, h);
    HitBoundaries(SECRET_ANCHORS, f, u, found);
    StepWrites(SECRET_ANCHORS, f, u, found);
    SuffixSlice(value, index, 0, found.start);
    SuffixSlice(value, index, 0, found.end);
    SuffixSlice(value, index, found.start, found.end);
    AfterPrefix(false, value, index, h.end);
    assert u[0..found.start] == u[..found.start] && u[0..found.end] == u[..found.end];
  }

  /** `push_next_character`. */
  method PushNextCharacter(value: Text, output: Text, index: nat) returns (output': Text, index': nat)
    requires index < |value| && Valid(value[index..]) && FoundAt(value, index).None?
    ensures index < index' <= |value| && Valid(value[index'..])
    ensures output' + Rest(value, index') == output + Rest(value, index)
  {
    hide FoundAt, Rest, Valid;
    NextCharacter(value, index);
    var n := LeadLength(value[index]);
    output' := output + value[index..index + n];
    index' := index + n;
  }

  method PassBlank(value: Text, start: nat) returns (cursor: nat)
    requires start <= |value|
    ensures cursor == SkipBlank(value, start)
  {
    cursor := start;
    while cursor < |value| && IsBlank(value[cursor])
      invariant start <= cursor <= |value| && SkipBlank(value, cursor) == SkipBlank(value, start)
    {
      cursor := cursor + 1;
    }
  }

  method PassPadding(value: Text, start: nat) returns (cursor: nat)
    requires start <= |value|
    ensures cursor == OpenValue(value, start)
  {
    cursor := start;
    while cursor < |value| && IsPad(value[cursor])
      invariant start <= cursor <= |value| && SkipPad(value, cursor) == SkipPad(value, start)
    {
      cursor := cursor + 1;
    }
    if cursor < |value| && IsQuote(value[cursor]) {
      cursor := cursor + 1;
    }
  }

  method PassKey(value: Text, end: nat) returns (cursor: nat)
    requires end <= |value|
    ensures cursor == KeyEnd(value, end)
  {
    cursor := end;
    if SuffixAt(value, cursor) {
      cursor := cursor + 4;
    }
    if cursor < |value| && IsQuote(value[cursor]) {
      cursor := cursor + 1;
    }
  }

  /** The value start that the pass finds behind the key that ends at `end`, or that the key is no
      structured one. */
  method FindValueStart(value: Text, anchorStart: nat, end: nat) returns (r: Option<nat>)
    requires anchorStart <= end <= |value|
    ensures r == ValueStart(After(false, value[..anchorStart]), value, end)
  {
    hide KeyEnd, OpenValue, SkipBlank, SpaceFormIsStructured, After, Numeric;
    var whitespaceStart := PassKey(value, end);
    var cursor := PassBlank(value, whitespaceStart);
    if cursor < |value| && IsDelimiter(value[cursor]) {
      cursor := cursor + 1;
    } else {
      SpaceFormMeaning(value, anchorStart, cursor);
      if cursor == whitespaceStart || !SpaceFormIsStructured(value, anchorStart, cursor) {
        return None;
      }
    }
    cursor := PassPadding(value, cursor);
    return Some(cursor);
  }

  method FindValueEnd(value: Text, kind: Kind, start: nat) returns (end: nat)
    requires start <= |value|
    ensures end == ValueEnd(kind, value, start)
  {
    end := start;
    match kind
    case Token =>
      while end < |value| && !IsTerminator(value[end])
        invariant start <= end <= |value| && ValueEnd(kind, value, end) == ValueEnd(kind, value, start)
      {
        end := end + 1;
      }
    case Line =>
      while end < |value| && !IsNewline(value[end])
        invariant start <= end <= |value| && ValueEnd(kind, value, end) == ValueEnd(kind, value, start)
      {
        end := end + 1;
      }
  }

  /** The structured secret at `index`, if there is one. */
  method FindSecret(value: Text, index: nat) returns (r: Option<Hit>)
    requires index < |value|
    ensures r == FoundAt(value, index)
  {
    var key := FindKey(SECRET_ANCHORS, value, index);
    if key.None? {
      return None;
    }
    var start := FindValueStart(value, index, key.value.end);
    if start.None? {
      return None;
    }
    var end := FindValueEnd(value, key.value.kind, start.value);
    return Some(Hit(key.value.kind, start.value, end));
  }

  /** An empty value and one that is marked already stay as they are. */
  method PushValue(value: Text, output: Text, h: Hit) returns (r: Text)
    requires h.start <= h.end <= |value|
    ensures r == output + Mark(value[h.start..h.end])
  {
    if h.start == h.end || REDACTED_PREFIX <= value[h.start..h.end] {
      r := output + value[h.start..h.end];
    } else {
      r := PushRedaction(output, h.end - h.start, REDACTED);
    }
  }

  /** `redact_anchored_values`. Every cut it makes falls between two characters. */
  method RedactAnchoredValues(value: Text) returns (redacted: Text)
    requires Valid(value)
    ensures redacted == RedactAnchored(value)
  {
    hide FoundAt, Rest, Valid, RedactAnchored, Redaction;
    redacted := [];
    var index := 0;
    StartsHere(value);
    while index < |value|
      invariant index <= |value| && Valid(value[index..])
      invariant redacted + Rest(value, index) == RedactAnchored(value)
    {
      var found := FindSecret(value, index);
      if found.None? {
        redacted, index := PushNextCharacter(value, redacted, index);
        continue;
      }
      var h := found.value;
      NextSecret(value, index, h);
      redacted := PushValue(value, redacted + value[index..h.start], h);
      index := h.end;
    }
    EndsHere(value);
  }

  lemma StartsHere(value: Text)
    requires Valid(value)
    ensures Valid(value[0..]) && Rest(value, 0) == RedactAnchored(value)
  {
    assert value[0..] == value;
  }

  lemma EndsHere(value: Text)
    ensures Rest(value, |value|) == []
  {
  }
}
