/** Redaction of caller-supplied values that a node echoes, wholly or in part, in an HTTP error; and
    the bounded read of an HTTP body. */
module Echo {
  import opened Options
  import opened Scripts
  import opened Search
  import opened Utf8

  const SENSITIVE_ANCHOR_BYTES: nat := 12
  const ECHO_MARKER: Text := "[redacted]"

  // ---------------------------------------------------------------------------------------------
  // One value

  /** The leading bytes that are recognised as an echo, cut between two characters. */
  function AnchorOf(value: Text): Text {
    if |value| <= SENSITIVE_ANCHOR_BYTES then value
    else value[..BoundaryBefore(value, SENSITIVE_ANCHOR_BYTES)]
  }

  /** Bytes of the longest run of equal leading characters. */
  function Matched(value: Text, echoed: Text): (n: nat)
    ensures n <= |value| && n <= |echoed| && value[..n] == echoed[..n]
    decreases |value|
  {
    if value == [] || echoed == [] then 0
    else
      var n := LeadLength(value[0]);
      if n <= |value| && n <= |echoed| && value[..n] == echoed[..n] then
        var rest := Matched(value[n..], echoed[n..]);
        MatchedStep(value, echoed, n, rest);
        n + rest
      else 0
  }

  lemma MatchedStep(value: Text, echoed: Text, n: nat, rest: nat)
    requires n <= |value| && n <= |echoed| && value[..n] == echoed[..n]
    requires n + rest <= |value| && n + rest <= |echoed| && value[n..][..rest] == echoed[n..][..rest]
    ensures value[..n + rest] == echoed[..n + rest]
  {
    assert value[..n + rest] == value[..n] + value[n..][..rest];
    assert echoed[..n + rest] == echoed[..n] + echoed[n..][..rest];
  }

  lemma AnchorIsPrefix(value: Text)
    requires Valid(value) && value != []
    ensures var a := AnchorOf(value); a != [] && a <= value && Valid(a)
  {
    if |value| > SENSITIVE_ANCHOR_BYTES {
      var i := BoundaryBefore(value, SENSITIVE_ANCHOR_BYTES);
      LeadCharacter(value);
      assert IsCharBoundary(value, LeadLength(value[0]));
      ValidSplit(value, i);
    }
  }

  /** What is equal up to a character boundary is matched at least that far. */
  lemma {:induction false} MatchedCovers(a: Text, value: Text, echoed: Text)
    requires Valid(a) && a <= value && a <= echoed
    ensures Matched(value, echoed) >= |a|
    decreases |a|
  {
    if a != [] {
      LeadCharacter(a);
      var n := LeadLength(a[0]);
      assert value[..n] == a[..n] == echoed[..n];
      assert a[n..] <= value[n..] && a[n..] <= echoed[n..];
      MatchedCovers(a[n..], value[n..], echoed[n..]);
    }
  }

  /** A match ends between two characters, and the next characters differ. */
  lemma {:induction false} MatchedIsMaximal(value: Text, echoed: Text)
    requires Valid(value) && Valid(echoed)
    ensures var n := Matched(value, echoed);
      && Valid(value[n..]) && Valid(echoed[n..])
      && (n == |value| || n == |echoed| || Differ(value[n..], echoed[n..]))
    decreases |value|
  {
    hide Run, Step;
    if value != [] && echoed != [] {
      LeadCharacter(value);
      LeadCharacter(echoed);
      var n := LeadLength(value[0]);
      if n <= |echoed| && value[..n] == echoed[..n] {
        assert value[0] == value[..n][0] == echoed[..n][0] == echoed[0];
        MatchedIsMaximal(value[n..], echoed[n..]);
        var m := Matched(value[n..], echoed[n..]);
        SuffixSlice(value, n, 0, m);
        SuffixSlice(echoed, n, 0, m);
      } else {
        assert value[0..] == value && echoed[0..] == echoed;
      }
    }
  }

  /** The first characters of two texts are not the same. */
  predicate Differ(a: Text, b: Text) {
    a != [] && b != [] && !(LeadLength(a[0]) <= |a| && LeadLength(a[0]) <= |b| &&
                            a[..LeadLength(a[0])] == b[..LeadLength(a[0])])
  }

  lemma EchoAdvances(text: Text, value: Text, at: nat)
    requires Valid(text) && Valid(value) && value != [] && MatchesAt(text, at, AnchorOf(value))
    ensures |AnchorOf(value)| <= Matched(value, text[at..]) && AnchorOf(value) != []
    ensures Valid(text[..at]) && Valid(text[at..])
    ensures Valid(text[at + Matched(value, text[at..])..])
  {
    var a := AnchorOf(value);
    AnchorIsPrefix(value);
    assert text[at..][..|a|] == text[at..at + |a|] == a;
    LeadCharacter(a);
    assert text[at] == a[0];
    ValidSplit(text, at);
    MatchedCovers(a, value, text[at..]);
    MatchedIsMaximal(value, text[at..]);
    SuffixSlice(text, at, 0, Matched(value, text[at..]));
  }

  function RedactValue(text: Text, value: Text): Text
    requires Valid(text) && Valid(value) && value != []
    decreases |text|
  {
    match Find(text, 0, AnchorOf(value))
    case None => text
    case Some(at) =>
      EchoAdvances(text, value, at);
      text[..at] + ECHO_MARKER + RedactValue(text[at + Matched(value, text[at..])..], value)
  }

  lemma {:induction false} ValueKeepsUtf8(text: Text, value: Text)
    requires Valid(text) && Valid(value) && value != []
    ensures Valid(RedactValue(text, value))
    decreases |text|
  {
    hide Run, AnchorOf, Matched;
    match Find(text, 0, AnchorOf(value))
    case None =>
    case Some(at) =>
      EchoAdvances(text, value, at);
      var rest := text[at + Matched(value, text[at..])..];
      ValueKeepsUtf8(rest, value);
      MarkerIsUtf8();
      ValidConcat(text[..at], ECHO_MARKER);
      ValidConcat(text[..at] + ECHO_MARKER, RedactValue(rest, value));
  }

  lemma MarkerIsUtf8()
    ensures Valid(ECHO_MARKER)
  {
    RunAscii(ECHO_MARKER);
  }

  // ---------------------------------------------------------------------------------------------
  // Exactly when an anchor is gone

  /** The needle cannot straddle an edge of the marker: no part of it is one of the marker's ends, and the
      marker is not inside it. */
  predicate Apart(needle: Text) {
    && needle != []
    && (forall k | 0 < k < |needle| && k <= 10 :: !EndsOverlap(needle, k))
    && (forall k | 0 < k && k + 10 < |needle| :: !MatchesAt(needle, k, ECHO_MARKER))
  }

  /** `k` bytes of the needle, at one end, are the `k` bytes at the other end of the marker. */
  predicate EndsOverlap(needle: Text, k: nat)
    requires k <= |needle| && k <= 10
  {
    assert |ECHO_MARKER| == 10;
    needle[..k] == ECHO_MARKER[10 - k..] || needle[|needle| - k..] == ECHO_MARKER[..k]
  }

  lemma SliceOf(t: Text, i: nat, needle: Text, a: nat, b: nat)
    requires MatchesAt(t, i, needle) && i <= a <= b <= i + |needle|
    ensures needle[a - i..b - i] == t[a..b]
  {
    assert forall k | a <= k < b :: t[k] == t[i..i + |needle|][k - i] == needle[k - i];
    assert |needle[a - i..b - i]| == |t[a..b]|;
    assert forall k | 0 <= k < b - a :: needle[a - i..b - i][k] == needle[a - i + k] == t[a + k] == t[a..b][k];
  }

  lemma MarkerIsThere(x: Text, y: Text)
    ensures var t := x + ECHO_MARKER + y; |ECHO_MARKER| == 10 && MatchesAt(t, |x|, ECHO_MARKER)
    ensures (x + ECHO_MARKER + y)[..|x|] == x && (x + ECHO_MARKER + y)[|x| + 10..] == y
  {
    EchoLength();
    hide ECHO_MARKER;
    MiddleOf(x, ECHO_MARKER, y);
  }

  lemma EchoLength()
    ensures |ECHO_MARKER| == 10
  {
  }

  lemma MiddleOf(x: Text, m: Text, y: Text)
    ensures var t := x + m + y; t[|x|..|x| + |m|] == m && t[..|x|] == x && t[|x| + |m|..] == y
  {
  }

  lemma AcrossFront(t: Text, i: nat, needle: Text, m: nat)
    requires MatchesAt(t, i, needle) && MatchesAt(t, m, ECHO_MARKER) && |ECHO_MARKER| == 10
    requires i < m < i + |needle| <= m + 10
    ensures EndsOverlap(needle, i + |needle| - m)
  {
    hide ECHO_MARKER, MatchesAt;
    SliceOf(t, i, needle, m, i + |needle|);
    SliceOf(t, m, ECHO_MARKER, m, i + |needle|);
  }

  lemma AcrossBack(t: Text, i: nat, needle: Text, m: nat)
    requires MatchesAt(t, i, needle) && MatchesAt(t, m, ECHO_MARKER) && |ECHO_MARKER| == 10
    requires m <= i < m + 10 < i + |needle|
    ensures EndsOverlap(needle, m + 10 - i)
  {
    hide ECHO_MARKER, MatchesAt;
    SliceOf(t, i, needle, i, m + 10);
    SliceOf(t, m, ECHO_MARKER, i, m + 10);
  }

  lemma AcrossBoth(t: Text, i: nat, needle: Text, m: nat)
    requires MatchesAt(t, i, needle) && MatchesAt(t, m, ECHO_MARKER) && |ECHO_MARKER| == 10
    requires i < m && m + 10 < i + |needle|
    ensures MatchesAt(needle, m - i, ECHO_MARKER)
  {
    hide ECHO_MARKER;
    SliceOf(t, i, needle, m, m + 10);
    assert m + 10 - i == (m - i) + 10;
  }

  lemma NoStraddle(t: Text, i: nat, needle: Text, m: nat)
    requires Apart(needle) && MatchesAt(t, i, needle) && MatchesAt(t, m, ECHO_MARKER) && |ECHO_MARKER| == 10
    ensures i + |needle| <= m || i >= m + 10 || m <= i <= i + |needle| <= m + 10
  {
    hide ECHO_MARKER, EndsOverlap, MatchesAt;
    if i < m && m + 10 < i + |needle| {
      AcrossBoth(t, i, needle, m);
    } else if i < m < i + |needle| {
      AcrossFront(t, i, needle, m);
    } else if m <= i < m + 10 < i + |needle| {
      AcrossBack(t, i, needle, m);
    }
  }

  /** An occurrence is in front of the marker, in it, or behind it. */
  lemma SplitAtMarker(x: Text, y: Text, needle: Text)
    requires Apart(needle) && Contains(x + ECHO_MARKER + y, needle)
    ensures Contains(x, needle) || Contains(ECHO_MARKER, needle) || Contains(y, needle)
  {
    var t := x + ECHO_MARKER + y;
    var i :| 0 <= i <= |t| && MatchesAt(t, i, needle);
    var e, m := i + |needle|, |x|;
    MarkerIsThere(x, y);
    NoStraddle(t, i, needle, m);
    hide ECHO_MARKER, Apart;
    if e <= m {
      assert x[i..e] == t[..m][i..e] == t[i..e];
      assert MatchesAt(x, i, needle);
    } else if i >= m + 10 {
      SuffixSlice(t, m + 10, i - m - 10, e - m - 10);
      assert MatchesAt(y, i - m - 10, needle);
    } else {
      SliceOf(t, m, ECHO_MARKER, i, e);
      assert MatchesAt(ECHO_MARKER, i - m, needle);
    }
  }

  /** Redacting a value brings in no such needle but those inside the marker. */
  lemma {:induction false} ValueKeepsAbsent(text: Text, value: Text, needle: Text)
    requires Valid(text) && Valid(value) && value != []
    requires Apart(needle) && !Contains(text, needle) && !Contains(ECHO_MARKER, needle)
    ensures !Contains(RedactValue(text, value), needle)
    decreases |text|
  {
    hide Contains, AnchorOf, Matched, Valid, Apart, ECHO_MARKER;
    match Find(text, 0, AnchorOf(value))
    case None =>
    case Some(at) =>
      EchoAdvances(text, value, at);
      var from := at + Matched(value, text[at..]);
      AbsentTail(text, from, needle);
      ValueKeepsAbsent(text[from..], value, needle);
      AbsentHead(text, at, needle);
      if Contains(RedactValue(text, value), needle) {
        SplitAtMarker(text[..at], RedactValue(text[from..], value), needle);
      }
  }

  lemma AbsentHead(text: Text, i: nat, needle: Text)
    requires i <= |text| && !Contains(text, needle)
    ensures !Contains(text[..i], needle)
  {
    assert text[0..i] == text[..i];
    if Contains(text[0..i], needle) {
      ContainsPiece(text, 0, i, needle);
    }
  }

  lemma BeforeFirst(text: Text, at: nat, needle: Text)
    requires at <= |text| && needle != [] && forall k | 0 <= k < at :: !MatchesAt(text, k, needle)
    ensures !Contains(text[..at], needle)
  {
    forall k | 0 <= k <= at ensures !MatchesAt(text[..at], k, needle) {
      if k < at {
        assert !MatchesAt(text, k, needle);
        assert k + |needle| <= at ==> text[..at][k..k + |needle|] == text[k..k + |needle|];
      }
    }
  }

  lemma FindIff(text: Text, needle: Text)
    ensures Find(text, 0, needle).Some? <==> Contains(text, needle)
  {
  }

  lemma {:induction false} AnchorRemoved(text: Text, value: Text)
    requires Valid(text) && Valid(value) && value != []
    requires Apart(AnchorOf(value)) && !Contains(ECHO_MARKER, AnchorOf(value))
    ensures !Contains(RedactValue(text, value), AnchorOf(value))
    decreases |text|
  {
    hide Valid, AnchorOf, Matched, RedactValue, EchoScript, Apart, Contains, Find, ECHO_MARKER;
    var a := AnchorOf(value);
    FindIff(text, a);
    match Find(text, 0, a)
    case None => ValueLast(text, value);
    case Some(at) =>
      EchoAdvances(text, value, at);
      ValueStep(text, value, at);
      var from := at + Matched(value, text[at..]);
      AnchorRemoved(text[from..], value);
      BeforeFirst(text, at, a);
      if Contains(RedactValue(text, value), a) {
        SplitAtMarker(text[..at], RedactValue(text[from..], value), a);
      }
  }

  lemma MarkerCarries(x: Text, y: Text, needle: Text)
    requires Contains(ECHO_MARKER, needle)
    ensures Contains(x + ECHO_MARKER + y, needle)
  {
    var t := x + ECHO_MARKER + y;
    MarkerIsThere(x, y);
    hide ECHO_MARKER;
    ContainsPiece(t, |x|, |x| + 10, needle);
  }

  /** An anchor is still in the output exactly when it was in the text and the marker spells it. */
  lemma AnchorLeftIff(text: Text, value: Text)
    requires Valid(text) && Valid(value) && value != [] && Apart(AnchorOf(value))
    ensures Contains(RedactValue(text, value), AnchorOf(value)) <==>
      Contains(text, AnchorOf(value)) && Contains(ECHO_MARKER, AnchorOf(value))
  {
    hide AnchorOf, Matched, Valid, Apart, RedactValue, EchoScript, Contains, Find, ECHO_MARKER;
    var a := AnchorOf(value);
    FindIff(text, a);
    if !Contains(ECHO_MARKER, a) {
      AnchorRemoved(text, value);
    } else if Find(text, 0, a).None? {
      ValueLast(text, value);
    } else {
      var at := Find(text, 0, a).value;
      EchoAdvances(text, value, at);
      ValueStep(text, value, at);
      MarkerCarries(text[..at], RedactValue(text[at + Matched(value, text[at..])..], value), a);
    }
  }

  lemma {:induction false} MatchesAll(value: Text, rest: Text)
    requires Valid(value)
    ensures Matched(value, value + rest) == |value|
  {
    MatchedCovers(value, value, value + rest);
  }

  /** An anchor that overlaps the marker can be left: one that opens with the bracket that closes the marker
      is spelled again by the marker and what follows. */
  lemma OverlapIsLeft(value: Text)
    requires Valid(value) && value != [] && value[0] == ']'
    ensures var a := AnchorOf(value); a != [] && var text := value + a[1..];
      Valid(text) && Contains(RedactValue(text, value), a)
  {
    AnchorIsPrefix(value);
    var a := AnchorOf(value);
    BracketIsWhole(a);
    ValidConcat(value, a[1..]);
    SpelledAgain(a);
    hide Valid, AnchorOf, RedactValue, Contains;
    OverlapRedacted(value, a[1..]);
  }

  lemma OverlapRedacted(value: Text, rest: Text)
    requires Valid(value) && value != [] && Valid(rest) && Valid(value + rest)
    requires AnchorOf(value) <= value && |rest| < |AnchorOf(value)|
    ensures RedactValue(value + rest, value) == ECHO_MARKER + rest
  {
    hide Valid, AnchorOf, Matched, RedactValue, EchoScript, ECHO_MARKER, MatchesAt;
    var text := value + rest;
    MatchesAll(value, rest);
    assert text[0..] == text && text[|value|..] == rest;
    FoundAtFront(text, AnchorOf(value));
    FoundInNone(rest, AnchorOf(value));
    ValueStep(text, value, 0);
    ValueLast(rest, value);
    assert text[..0] + ECHO_MARKER + rest == ECHO_MARKER + rest;
  }

  lemma FoundAtFront(text: Text, a: Text)
    requires a <= text
    ensures Find(text, 0, a) == Some(0)
  {
    PrefixIsMatch(text, a);
    assert MatchesAt(text, 0, a);
  }

  lemma FoundInNone(text: Text, a: Text)
    requires |text| < |a|
    ensures Find(text, 0, a).None?
  {
  }

  lemma SpelledAgain(a: Text)
    requires a != [] && a[0] == ']'
    ensures Contains(ECHO_MARKER + a[1..], a)
  {
    var t := ECHO_MARKER + a[1..];
    assert |ECHO_MARKER| == 10 && ECHO_MARKER[9] == ']';
    assert t[9..9 + |a|] == a;
    assert MatchesAt(t, 9, a);
  }

  lemma BracketIsWhole(a: Text)
    requires Valid(a) && a != [] && a[0] == ']'
    ensures Valid(a[1..])
  {
    LeadCharacter(a);
    assert a[..1] + a[1..] == a;
  }

  // ---------------------------------------------------------------------------------------------
  // What is replaced

  function EchoScript(text: Text, value: Text): Script
    requires Valid(text) && Valid(value) && value != []
    decreases |text|
  {
    match Find(text, 0, AnchorOf(value))
    case None => Keep(text, Done)
    case Some(at) =>
      EchoAdvances(text, value, at);
      var from := at + Matched(value, text[at..]);
      Keep(text[..at], Mask(text[at..from], ECHO_MARKER, EchoScript(text[from..], value)))
  }

  /** Every mask hides a prefix of the value that is at least the anchor and cannot be extended by
      what follows in the text; no kept piece holds the anchor. */
  predicate MasksEchoes(sc: Script, value: Text) {
    match sc
    case Done => true
    case Keep(text, next) => !Contains(text, AnchorOf(value)) && MasksEchoes(next, value)
    case Mask(old', new', next) =>
      && new' == ECHO_MARKER
      && AnchorOf(value) <= old' <= value
      && (old' == value || Source(next) == [] || Differ(value[|old'|..], Source(next)))
      && MasksEchoes(next, value)
  }

  lemma ValueStep(text: Text, value: Text, at: nat)
    requires Valid(text) && Valid(value) && value != [] && Find(text, 0, AnchorOf(value)) == Some(at)
    ensures var from := at + Matched(value, text[at..]);
      && from <= |text| && Valid(text[from..])
      && RedactValue(text, value) == text[..at] + ECHO_MARKER + RedactValue(text[from..], value)
    ensures var from := at + Matched(value, text[at..]);
      EchoScript(text, value) == Keep(text[..at], Mask(text[at..from], ECHO_MARKER, EchoScript(text[from..], value)))
  {
    hide AnchorOf, Matched, Valid, Find;
    EchoAdvances(text, value, at);
  }

  lemma {:induction false} EchoScriptIsRedact(text: Text, value: Text)
    requires Valid(text) && Valid(value) && value != []
    ensures var sc := EchoScript(text, value);
      Source(sc) == text && Target(sc) == RedactValue(text, value) && MasksEchoes(sc, value)
    decreases |text|
  {
    var a := AnchorOf(value);
    var found := Find(text, 0, a);
    if found.Some? {
      hide Valid, AnchorOf, Matched, RedactValue, EchoScript, Find, Differ;
      var at := found.value;
      EchoAdvances(text, value, at);
      var from := at + Matched(value, text[at..]);
      ValueStep(text, value, at);
      EchoScriptIsRedact(text[from..], value);
      BeforeFirst(text, at, a);
      MaskIsEcho(text, value, at);
      EchoPieces(text, at, from, EchoScript(text[from..], value));
      assert |text[at..from]| == Matched(value, text[at..]);
    }
  }

  lemma EchoPieces(text: Text, at: nat, from: nat, next: Script)
    requires at <= from <= |text| && Source(next) == text[from..]
    ensures var sc := Keep(text[..at], Mask(text[at..from], ECHO_MARKER, next));
      Source(sc) == text && Target(sc) == text[..at] + ECHO_MARKER + Target(next)
  {
    Slices(text, at, from, |text|);
    assert text[at..|text|] == text[at..] && text[from..|text|] == text[from..];
    assert text == text[..at] + text[at..];
    Join(text[..at], ECHO_MARKER, Target(next), ECHO_MARKER + Target(next), text[..at] + (ECHO_MARKER + Target(next)));
  }

  lemma MaskIsEcho(text: Text, value: Text, at: nat)
    requires Valid(text) && Valid(value) && value != [] && MatchesAt(text, at, AnchorOf(value))
    ensures var n := Matched(value, text[at..]); var from := at + n;
      && from <= |text| && AnchorOf(value) <= text[at..from] <= value
      && (text[at..from] == value || text[from..] == [] || Differ(value[n..], text[from..]))
  {
    hide Valid, AnchorOf, Matched, Differ;
    var a := AnchorOf(value);
    EchoAdvances(text, value, at);
    AnchorIsPrefix(value);
    var n := Matched(value, text[at..]);
    MatchedIsMaximal(value, text[at..]);
    EchoSlices(text, at, n, a, value);
  }

  lemma EchoSlices(text: Text, at: nat, n: nat, a: Text, value: Text)
    requires at + n <= |text| && n <= |value| && value[..n] == text[at..][..n] && |a| <= n && a <= value
    ensures a <= text[at..at + n] <= value && (n == |value| ==> text[at..at + n] == value)
    ensures text[at..][n..] == text[at + n..] && (n == |text[at..]| ==> text[at + n..] == [])
  {
    SuffixSlice(text, at, 0, n);
    assert text[at..at + n] == text[at..][..n];
    assert a == value[..n][..|a|];
  }

  // ---------------------------------------------------------------------------------------------
  // All values

  predicate AllValid(values: seq<Text>) { forall v | v in values :: Valid(v) }

  /** The fold over the nonempty values. */
  function RedactSensitive(text: Text, values: seq<Text>): (r: Text)
    requires Valid(text) && AllValid(values)
    ensures Valid(r)
    decreases |values|
  {
    if values == [] then text
    else
      assert values[0] in values && forall v | v in values[1..] :: v in values;
      if values[0] == "" then RedactSensitive(text, values[1..])
      else
        ValueKeepsUtf8(text, values[0]);
        RedactSensitive(RedactValue(text, values[0]), values[1..])
  }

  /** A needle that the markers neither spell nor help to spell. */
  predicate IsUnmarked(needle: Text) {
    Apart(needle) && !Contains(ECHO_MARKER, needle)
  }

  lemma {:induction false} SensitiveKeepsAbsent(text: Text, values: seq<Text>, needle: Text)
    requires Valid(text) && AllValid(values) && IsUnmarked(needle) && !Contains(text, needle)
    ensures !Contains(RedactSensitive(text, values), needle)
    decreases |values|
  {
    if values != [] {
      assert values[0] in values && forall v | v in values[1..] :: v in values;
      if values[0] != "" {
        ValueKeepsAbsent(text, values[0], needle);
        ValueKeepsUtf8(text, values[0]);
        SensitiveKeepsAbsent(RedactValue(text, values[0]), values[1..], needle);
      } else {
        SensitiveKeepsAbsent(text, values[1..], needle);
      }
    }
  }

  /** After all values no anchor is left of any nonempty one whose anchor the markers cannot spell,
      whatever the other values are. */
  lemma {:induction false} NoAnchorLeft(text: Text, values: seq<Text>, v: Text)
    requires Valid(text) && AllValid(values) && v in values && v != "" && IsUnmarked(AnchorOf(v))
    ensures !Contains(RedactSensitive(text, values), AnchorOf(v))
    decreases |values|
  {
    assert values[0] in values && forall w | w in values[1..] :: w in values;
    if values[0] == v {
      AnchorRemoved(text, v);
      ValueKeepsUtf8(text, v);
      SensitiveKeepsAbsent(RedactValue(text, v), values[1..], AnchorOf(v));
    } else if values[0] == "" {
      NoAnchorLeft(text, values[1..], v);
    } else {
      ValueKeepsUtf8(text, values[0]);
      NoAnchorLeft(RedactValue(text, values[0]), values[1..], v);
    }
  }

  // ---------------------------------------------------------------------------------------------
  // The loops

  /** `anchor_of`. */
  method FindAnchorOf(value: Text) returns (anchor: Text)
    ensures anchor == AnchorOf(value)
  {
    if |value| <= SENSITIVE_ANCHOR_BYTES {
      return value;
    }
    var end := SENSITIVE_ANCHOR_BYTES;
    while end != 0 && !IsCharBoundary(value, end)
      invariant 0 <= end <= SENSITIVE_ANCHOR_BYTES
      invariant BoundaryBefore(value, end) == BoundaryBefore(value, SENSITIVE_ANCHOR_BYTES)
    {
      end := end - 1;
    }
    return value[..end];
  }

  /** `redact_value`. It ends because every echo is at least as long as a nonempty anchor. */
  method RedactOneValue(text: Text, value: Text) returns (redacted: Text)
    requires Valid(text) && Valid(value) && value != []
    ensures redacted == RedactValue(text, value)
  {
    hide Valid, Matched, AnchorOf, RedactValue, EchoScript, Find;
    var anchor := FindAnchorOf(value);
    redacted := [];
    var rest := text;
    var offset := Find(rest, 0, anchor);
    while offset.Some?
      invariant Valid(rest) && offset == Find(rest, 0, anchor)
      invariant redacted + RedactValue(rest, value) == RedactValue(text, value)
      decreases |rest|
    {
      EchoAdvances(rest, value, offset.value);
      ValueStep(rest, value, offset.value);
      redacted := redacted + rest[..offset.value];
      var matched := Matched(value, rest[offset.value..]);
      redacted := redacted + ECHO_MARKER;
      rest := rest[offset.value + matched..];
      offset := Find(rest, 0, anchor);
    }
    ValueLast(rest, value);
    redacted := redacted + rest;
  }

  lemma ValueLast(text: Text, value: Text)
    requires Valid(text) && Valid(value) && value != [] && Find(text, 0, AnchorOf(value)).None?
    ensures RedactValue(text, value) == text
  {
  }

  // ---------------------------------------------------------------------------------------------
  // The bounded body

  /** A chunk of the response, or the transport error that ends it. */
  datatype Chunk = Data(bytes: Text) | TransportError

  datatype Body = Body(bytes: Text, exceeded: bool) | Failed

  function Concat(chunks: seq<Chunk>): Text {
    if chunks == [] then []
    else (if chunks[0].Data? then chunks[0].bytes else []) + Concat(chunks[1..])
  }

  predicate AllData(chunks: seq<Chunk>) { forall c | c in chunks :: c.Data? }

  lemma {:induction false} ConcatNext(chunks: seq<Chunk>, i: nat)
    requires i < |chunks| && chunks[i].Data?
    ensures Concat(chunks[..i + 1]) == Concat(chunks[..i]) + chunks[i].bytes
  {
    if i > 0 {
      ConcatNext(chunks[1..], i - 1);
      assert chunks[1..][..i] == chunks[..i + 1][1..] && chunks[1..][..i - 1] == chunks[..i][1..];
    } else {
      assert chunks[..1][1..] == [];
    }
  }

  lemma {:induction false} ConcatLonger(chunks: seq<Chunk>, i: nat)
    requires i <= |chunks|
    ensures |Concat(chunks[..i])| <= |Concat(chunks)| && Concat(chunks)[..|Concat(chunks[..i])|] == Concat(chunks[..i])
  {
    if i > 0 {
      ConcatLonger(chunks[1..], i - 1);
      assert chunks[1..][..i - 1] == chunks[..i][1..];
    }
  }

  /** A transport error that is read: before it there is only data, within the limit. */
  predicate ErrorAt(chunks: seq<Chunk>, limit: nat, k: nat) {
    k < |chunks| && chunks[k].TransportError? && AllData(chunks[..k]) && |Concat(chunks[..k])| <= limit
  }

  predicate FailsWithin(chunks: seq<Chunk>, limit: nat) {
    exists k | 0 <= k < |chunks| :: ErrorAt(chunks, limit, k)
  }

  function Bounded(all: Text, limit: nat): Body {
    Body(if |all| <= limit then all else all[..limit], |all| > limit)
  }

  /** The read loop of `send`: how the bytes were cut into chunks does not matter. The body is the
      first `limit` bytes of them all and says whether there were more, unless a transport error
      comes before the limit is exceeded. */
  method ReadBody(chunks: seq<Chunk>, limit: nat) returns (r: Body)
    ensures r == if FailsWithin(chunks, limit) then Failed else Bounded(Concat(chunks), limit)
  {
    var body: Text := [];
    var i := 0;
    while i < |chunks|
      invariant 0 <= i <= |chunks| && AllData(chunks[..i])
      invariant body == Concat(chunks[..i]) && |body| <= limit
    {
      if chunks[i].TransportError? {
        assert ErrorAt(chunks, limit, i);
        return Failed;
      }
      var chunk := chunks[i].bytes;
      var remaining := limit - |body|;
      ConcatNext(chunks, i);
      assert chunks[..i + 1] == chunks[..i] + [chunks[i]];
      if |chunk| > remaining {
        Exceeded(chunks, i, limit);
        body := body + chunk[..remaining];
        return Body(body, true);
      }
      body := body + chunk[..|chunk|];
      i := i + 1;
    }
    assert chunks[..i] == chunks;
    AllDataDoesNotFail(chunks, limit);
    r := Body(body, false);
  }

  lemma AllDataDoesNotFail(chunks: seq<Chunk>, limit: nat)
    requires AllData(chunks)
    ensures !FailsWithin(chunks, limit)
  {
    forall k | 0 <= k < |chunks| ensures !ErrorAt(chunks, limit, k) {
      assert chunks[k] in chunks;
    }
  }

  lemma Exceeded(chunks: seq<Chunk>, i: nat, limit: nat)
    requires i < |chunks| && AllData(chunks[..i + 1])
    requires |Concat(chunks[..i])| <= limit < |Concat(chunks[..i + 1])|
    requires chunks[i].Data? && Concat(chunks[..i + 1]) == Concat(chunks[..i]) + chunks[i].bytes
    ensures !FailsWithin(chunks, limit)
    ensures var n := |Concat(chunks[..i])|;
      && n <= limit < |Concat(chunks)| && limit - n <= |chunks[i].bytes|
      && Concat(chunks)[..limit] == Concat(chunks[..i]) + chunks[i].bytes[..limit - n]
  {
    ConcatLonger(chunks, i + 1);
    var upTo := Concat(chunks[..i + 1]);
    assert Concat(chunks)[..limit] == Concat(chunks)[..|upTo|][..limit];
    forall k | 0 <= k < |chunks| ensures !ErrorAt(chunks, limit, k) {
      if k <= i {
        assert chunks[k] == chunks[..i + 1][k] && chunks[k] in chunks[..i + 1];
      } else {
        ConcatLonger(chunks[..k], i + 1);
        assert chunks[..k][..i + 1] == chunks[..i + 1];
      }
    }
  }
}
