/** The grammar of keyed secrets, written out: which names, which forms, and where a value ends. The anchored
    pass finds a secret exactly where a text has one of these forms. */
module AnchoredGrammar {
  import opened AnchoredRuns
  import opened AnchoredScan
  import opened Options
  import opened Search
  import opened Utf8

  // ---------------------------------------------------------------------------------------------
  // Names

  /** Names whose value is one token. */
  const TOKEN_NAMES: seq<Text> := [
    "rpcpassword", "rpcpass", "macaroon",
    "walletpassword", "wallet_password", "wallet-password", "wallet.password"]

  /** Names whose value takes the rest of the line. */
  const LINE_NAMES: seq<Text> := [
    "mnemonic",
    "cipherseed", "cipher_seed", "cipher-seed", "cipher.seed",
    "seedmnemonic", "seed_mnemonic", "seed-mnemonic", "seed.mnemonic",
    "cipherseedmnemonic", "cipher_seed_mnemonic", "cipher-seed-mnemonic", "cipher.seed.mnemonic"]

  predicate IsName(kind: Kind, name: Text) {
    name in (if kind.Token? then TOKEN_NAMES else LINE_NAMES)
  }

  // ---------------------------------------------------------------------------------------------
  // Forms

  /** Where the parts of a keyed secret end: the name, an optional `_hex`, an optional closing quote, blanks,
      an optional delimiter, padding, an optional opening quote, and the value. */
  datatype Parts = Parts(
    name: nat, suffix: nat, closing: nat, gap: nat, delimiter: nat, pad: nat, opening: nat, value: nat)

  predicate InOrder(u: Text, x: Parts) {
    x.name <= x.suffix <= x.closing <= x.gap <= x.delimiter <= x.pad <= x.opening <= x.value <= |u|
  }

  predicate AreBlank(s: Text) { forall c | c in s :: c == ' ' || c == '\t' || c == 12 as char }

  predicate ArePadding(s: Text) { forall c | c in s :: c == ' ' || c == '\t' }

  predicate IsOptionalQuote(s: Text) { s == "" || s == "'" || s == "\"" }

  /** The text does not open with one of these bytes. */
  predicate OpensWithNone(s: Text, bytes: Text) { s == "" || s[0] !in bytes }

  /** What comes before the next ASCII whitespace, or the end, is all digits. */
  predicate OpensWithNumber(s: Text) {
    exists n: nat | n <= |s| :: IsNumber(s, n)
  }

  predicate IsNumber(s: Text, n: nat)
    requires n <= |s|
  {
    && (forall k | 0 <= k < n :: '0' <= s[k] <= '9')
    && (n == |s| || s[n] == ' ' || s[n] == '\t' || s[n] == '\r' || s[n] == '\n' || s[n] == 12 as char)
  }

  /** An assignment: a `=` or a `:`, whatever the blanks before it. */
  predicate IsAssignment(u: Text, x: Parts)
    requires InOrder(u, x)
  {
    u[x.gap..x.delimiter] == "=" || u[x.gap..x.delimiter] == ":"
  }

  /** The space form: blanks alone, on a line that had a `-` before the name, or before a number. */
  predicate IsSpaced(hyphen: bool, u: Text, x: Parts)
    requires InOrder(u, x)
  {
    && x.closing < x.gap == x.delimiter && OpensWithNone(u[x.gap..], " \t=:" + [12 as char])
    && (hyphen || OpensWithNumber(u[x.gap..]))
  }

  /** The value and where it ends: a token stops at whitespace, a quote, a comma or a closing bracket, a line
      at its end. */
  predicate IsValue(kind: Kind, u: Text, x: Parts)
    requires InOrder(u, x)
  {
    var stops := if kind.Token? then " \t\r\n'\",}])" else "\r\n";
    && (forall c | c in u[x.opening..x.value] :: c !in stops)
    && (x.value < |u| ==> u[x.value] in stops)
  }

  /** The parts behind the name. */
  predicate HasForm(kind: Kind, hyphen: bool, u: Text, x: Parts) {
    && InOrder(u, x)
    && LowerText(u[x.name..x.suffix]) in ["", "_hex", "-hex", ".hex"]
    && IsOptionalQuote(u[x.suffix..x.closing])
    && AreBlank(u[x.closing..x.gap])
    && (IsAssignment(u, x) || IsSpaced(hyphen, u, x))
    && ArePadding(u[x.delimiter..x.pad]) && OpensWithNone(u[x.pad..], " \t")
    && IsOptionalQuote(u[x.pad..x.opening]) && (x.pad == x.opening ==> OpensWithNone(u[x.pad..], "'\""))
    && IsValue(kind, u, x)
  }

  /** `u` opens with a keyed secret of these parts, on a line that had a `-` before, or not. The name may be in
      letters of either case. */
  predicate IsSecret(kind: Kind, hyphen: bool, u: Text, x: Parts) {
    HasForm(kind, hyphen, u, x) && IsName(kind, LowerText(u[..x.name]))
  }

  predicate EndsNoLine(s: Text, i: nat) {
    forall k | i <= k < |s| :: s[k] != '\r' && s[k] != '\n'
  }

  /** The line so far holds a `-`. */
  predicate LineHasHyphen(hyphen: bool, s: Text) {
    (hyphen && EndsNoLine(s, 0)) || exists k: nat | k < |s| :: s[k] == '-' && EndsNoLine(s, k)
  }

  lemma {:induction false} HyphenIff(hyphen: bool, s: Text)
    ensures After(hyphen, s) <==> LineHasHyphen(hyphen, s)
  {
    if s != [] {
      var n := |s| - 1;
      HyphenIff(hyphen, s[..n]);
      assert forall k: nat | k <= n :: EndsNoLine(s, k) <==> EndsNoLine(s[..n], k) && !IsNewline(s[n]);
    }
  }

  // ---------------------------------------------------------------------------------------------
  // The parts as the pass skips them

  /** The steps of the pass, as parts. */
  function PartsOf(kind: Kind, u: Text, name: nat): (x: Parts)
    requires name <= |u|
    ensures InOrder(u, x) && x.name == name
  {
    var suffix := SkipSuffix(u, name);
    var closing := SkipQuote(u, suffix);
    var gap := SkipBlank(u, closing);
    var delimiter := if DelimiterAt(u, gap) then gap + 1 else gap;
    var pad := SkipPad(u, delimiter);
    var opening := SkipQuote(u, pad);
    Parts(name, suffix, closing, gap, delimiter, pad, opening, ValueEnd(kind, u, opening))
  }

  lemma {:induction false} NumericIff(s: Text, i: nat)
    requires i <= |s|
    ensures Numeric(s, i) <==> OpensWithNumber(s[i..])
    decreases |s| - i
  {
    var w := s[i..];
    if i < |s| && IsDigit(s[i]) {
      NumericIff(s, i + 1);
      assert s[i + 1..] == w[1..];
      assert !IsNumber(w, 0);
      forall n: nat | 0 < n <= |w| ensures IsNumber(w, n) <==> IsNumber(w[1..], n - 1) {
        assert forall k | 0 < k < n :: w[k] == w[1..][k - 1];
      }
      forall n: nat | n <= |w[1..]| && IsNumber(w[1..], n) ensures IsNumber(w, n + 1) {
      }
      hide IsNumber;
    } else {
      assert IsNumber(w, 0) <==> Numeric(s, i);
      assert i < |s| ==> forall n: nat | 0 < n <= |w| :: !IsNumber(w, n);
    }
  }

  lemma QuoteIff(u: Text, a: nat, b: nat)
    requires a <= b <= |u|
    ensures IsOptionalQuote(u[a..b]) <==> a == b || (b == a + 1 && IsQuote(u[a]))
  {
  }

  lemma SuffixIff(u: Text, a: nat, b: nat)
    requires a <= b <= |u|
    ensures LowerText(u[a..b]) in ["", "_hex", "-hex", ".hex"] <==> a == b || (b == a + 4 && SuffixAt(u, a))
  {
    var s, low := u[a..b], LowerText(u[a..b]);
    if b == a + 4 {
      assert forall k | 0 <= k < 4 :: low[k] == Lower(u[a + k]);
      SuffixLetters(low);
    }
  }

  lemma SuffixLetters(low: Text)
    requires |low| == 4
    ensures low in ["", "_hex", "-hex", ".hex"] <==>
      (low[0] == '_' || low[0] == '-' || low[0] == '.') && low[1] == 'h' && low[2] == 'e' && low[3] == 'x'
  {
    assert low == [low[0], low[1], low[2], low[3]];
  }

  lemma RunsIff(u: Text, a: nat, b: nat)
    requires a <= b <= |u|
    ensures AreBlank(u[a..b]) <==> forall k | a <= k < b :: IsBlank(u[k])
    ensures ArePadding(u[a..b]) <==> forall k | a <= k < b :: IsPad(u[k])
  {
    Elements(u, a, b);
  }

  lemma Elements(u: Text, a: nat, b: nat)
    requires a <= b <= |u|
    ensures forall k | a <= k < b :: u[k] in u[a..b]
  {
    forall k | a <= k < b ensures u[k] in u[a..b] {
      assert u[a..b][k - a] == u[k];
    }
  }

  lemma OpensIff(u: Text, a: nat)
    requires a <= |u|
    ensures OpensWithNone(u[a..], " \t=:" + [12 as char]) <==> a == |u| || !(IsBlank(u[a]) || IsDelimiter(u[a]))
    ensures OpensWithNone(u[a..], " \t") <==> a == |u| || !IsPad(u[a])
    ensures OpensWithNone(u[a..], "'\"") <==> a == |u| || !IsQuote(u[a])
  {
  }

  lemma StopsIff(kind: Kind, c: char)
    ensures c in (if kind.Token? then " \t\r\n'\",}])" else "\r\n") <==> EndsValue(kind, c)
  {
  }

  lemma ValueIff(kind: Kind, u: Text, x: Parts)
    requires InOrder(u, x)
    ensures IsValue(kind, u, x) <==> x.value == ValueEnd(kind, u, x.opening)
  {
    hide EndsValue;
    forall c ensures c in (if kind.Token? then " \t\r\n'\",}])" else "\r\n") <==> EndsValue(kind, c) {
      StopsIff(kind, c);
    }
    Elements(u, x.opening, x.value);
    var e := ValueEnd(kind, u, x.opening);
    assert e < x.value ==> EndsValue(kind, u[e]);
    assert x.value < e ==> !EndsValue(kind, u[x.value]);
  }

  lemma AssignmentIff(u: Text, x: Parts)
    requires InOrder(u, x)
    ensures IsAssignment(u, x) <==> x.delimiter == x.gap + 1 && IsDelimiter(u[x.gap])
  {
  }

  /** The same of single bytes. */
  predicate HasFormAt(kind: Kind, hyphen: bool, u: Text, x: Parts)
    requires InOrder(u, x)
  {
    && (x.name == x.suffix || (x.suffix == x.name + 4 && SuffixAt(u, x.name)))
    && (x.suffix == x.closing || (x.closing == x.suffix + 1 && IsQuote(u[x.suffix])))
    && (forall k | x.closing <= k < x.gap :: IsBlank(u[k]))
    && ((x.delimiter == x.gap + 1 && IsDelimiter(u[x.gap])) ||
        (x.closing < x.gap == x.delimiter && (x.gap == |u| || !(IsBlank(u[x.gap]) || IsDelimiter(u[x.gap])))
         && (hyphen || Numeric(u, x.gap))))
    && (forall k | x.delimiter <= k < x.pad :: IsPad(u[k])) && (x.pad == |u| || !IsPad(u[x.pad]))
    && (x.pad == x.opening || (x.opening == x.pad + 1 && IsQuote(u[x.pad])))
    && (x.pad == x.opening ==> x.pad == |u| || !IsQuote(u[x.pad]))
    && x.value == ValueEnd(kind, u, x.opening)
  }

  lemma HasFormIff(kind: Kind, hyphen: bool, u: Text, x: Parts)
    requires InOrder(u, x)
    ensures HasForm(kind, hyphen, u, x) <==> HasFormAt(kind, hyphen, u, x)
  {
    SuffixIff(u, x.name, x.suffix);
    QuoteIff(u, x.suffix, x.closing);
    RunsIff(u, x.closing, x.gap);
    AssignmentIff(u, x);
    OpensIff(u, x.gap);
    NumericIff(u, x.gap);
    RunsIff(u, x.delimiter, x.pad);
    OpensIff(u, x.pad);
    QuoteIff(u, x.pad, x.opening);
    ValueIff(kind, u, x);
    hide IsOptionalQuote, LowerText, AreBlank, ArePadding, OpensWithNone, Numeric, OpensWithNumber, IsValue;
    hide IsAssignment, IsBlank, IsPad, IsQuote, SuffixAt, IsDelimiter, ValueEnd;
  }

  /** What stands before the gap's end can be read in one way only: neither a suffix nor a quote is a blank or a
      delimiter. */
  lemma FrontIsSkipped(kind: Kind, hyphen: bool, u: Text, x: Parts)
    requires InOrder(u, x) && HasFormAt(kind, hyphen, u, x)
    ensures x.suffix == SkipSuffix(u, x.name) && x.closing == SkipQuote(u, x.suffix)
    ensures x.gap == SkipBlank(u, x.closing)
  {
    hide Numeric, ValueEnd;
    assert x.gap < |u| ==> !IsBlank(u[x.gap]);
  }

  lemma BackIsSkipped(kind: Kind, hyphen: bool, u: Text, x: Parts)
    requires InOrder(u, x) && HasFormAt(kind, hyphen, u, x)
    ensures x.pad == SkipPad(u, x.delimiter) && x.opening == SkipQuote(u, x.pad)
  {
    hide Numeric, ValueEnd;
  }

  /** The parts of a form are those that the pass skips, and the value is found where they end. */
  lemma FormIff(kind: Kind, hyphen: bool, u: Text, x: Parts)
    requires InOrder(u, x)
    ensures HasForm(kind, hyphen, u, x) <==>
      x == PartsOf(kind, u, x.name) && ValueStart(hyphen, u, x.name) == Some(x.opening)
  {
    HasFormIff(kind, hyphen, u, x);
    if HasFormAt(kind, hyphen, u, x) {
      FrontIsSkipped(kind, hyphen, u, x);
      BackIsSkipped(kind, hyphen, u, x);
      hide HasForm, Numeric, SkipPad, SkipBlank, ValueEnd, SkipQuote, SkipSuffix, IsBlank;
    } else if x == PartsOf(kind, u, x.name) && ValueStart(hyphen, u, x.name) == Some(x.opening) {
      SkippedHasForm(kind, hyphen, u, x);
    }
  }

  lemma SkippedHasForm(kind: Kind, hyphen: bool, u: Text, x: Parts)
    requires InOrder(u, x)
    requires x == PartsOf(kind, u, x.name) && ValueStart(hyphen, u, x.name) == Some(x.opening)
    ensures HasFormAt(kind, hyphen, u, x)
  {
    hide Numeric, ValueEnd;
  }

  // ---------------------------------------------------------------------------------------------
  // The names and the table

  lemma TokenNamesInTable(name: Text)
    ensures name in TOKEN_NAMES <==> Entry(name, Token) in ANCHOR_TABLE
  {
  }

  lemma LineNamesInTable(name: Text)
    ensures name in LINE_NAMES <==> Entry(name, Line) in ANCHOR_TABLE
  {
  }

  /** The first bytes and the lengths of the table's names. */
  const HEADS: Text := "ccccssssccccwwwwrrmm"
  const LENGTHS: seq<nat> := [20, 20, 20, 18, 13, 13, 13, 12, 11, 11, 11, 10, 15, 15, 15, 14, 11, 7, 8, 8]

  lemma SizesOfLines(k: nat)
    requires k < 12
    ensures |ANCHOR_TABLE[k].name| == LENGTHS[k] && ANCHOR_TABLE[k].name[0] == HEADS[k]
  {
  }

  lemma SizesOfTokens(k: nat)
    requires 12 <= k < 20
    ensures |ANCHOR_TABLE[k].name| == LENGTHS[k] && ANCHOR_TABLE[k].name[0] == HEADS[k]
  {
  }

  lemma SizesFall(k: nat, m: nat)
    requires k < m < 20
    ensures HEADS[k] == HEADS[m] ==> LENGTHS[k] >= LENGTHS[m]
  {
  }

  /** No name of the table is the front of a later one. */
  lemma LongerFirst(k: nat, m: nat)
    requires k < m < 20
    ensures |ANCHOR_TABLE| == 20 && !(ANCHOR_TABLE[k].name < ANCHOR_TABLE[m].name)
  {
    SizesFall(k, m);
    if k < 12 { SizesOfLines(k); } else { SizesOfTokens(k); }
    if m < 12 { SizesOfLines(m); } else { SizesOfTokens(m); }
  }

  /** `u` opens with this name, in letters of either case. */
  lemma NameMatches(kind: Kind, u: Text, n: nat)
    requires n <= |u|
    ensures IsName(kind, LowerText(u[..n])) <==>
      exists m: nat | m < 20 :: ANCHOR_TABLE[m] == Entry(LowerText(u[..n]), kind)
  {
    var name := LowerText(u[..n]);
    TableSize();
    TokenNamesInTable(name);
    LineNamesInTable(name);
    hide LowerText, ANCHOR_TABLE, TOKEN_NAMES, LINE_NAMES;
  }

  lemma TableSize()
    ensures |ANCHOR_TABLE| == 20
  {
  }

  lemma MatchIsLower(u: Text, e: Entry)
    requires IsKey(e)
    ensures MatchesCi(u, 0, e.name) <==> |e.name| <= |u| && LowerText(u[..|e.name|]) == e.name
  {
    var n := |e.name|;
    assert forall j | 0 <= j < n :: IsKeyChar(e.name[j]) && Lower(e.name[j]) == e.name[j];
    if n <= |u| {
      var low := LowerText(u[..n]);
      assert forall j | 0 <= j < n :: low[j] == Lower(u[0 + j]);
    }
  }

  /** The key that the pass reads at the front is a listed name. */
  lemma KeyIsName(u: Text, key: Key)
    requires FindKey(SECRET_ANCHORS, u, 0) == Some(key)
    ensures key.end <= |u| && IsName(key.kind, LowerText(u[..key.end]))
  {
    TableSize();
    hide MatchesCi, LowerText, IsName, IsKey;
    var k := FindEntry(SECRET_ANCHORS, u, 0, 0).value;
    MatchIsLower(u, SECRET_ANCHORS[k]);
    NameMatches(key.kind, u, key.end);
  }

  /** No longer key opens a text whose name is followed by one of the forms. */
  lemma NotContinued(kind: Kind, hyphen: bool, u: Text, x: Parts, other: Kind, end: nat)
    requires InOrder(u, x) && HasFormAt(kind, hyphen, u, x) && x.name < end
    ensures !KeyBytes(other, u, 0, end)
  {
    hide Numeric, ValueEnd;
    var c := x.name;
    if end <= |u| {
      if x.suffix == x.name {
        assert IsQuote(u[c]) || IsBlank(u[c]) || IsDelimiter(u[c]);
        assert !IsKeyChar(Lower(u[c]));
      } else {
        assert !IsKeyChar(Lower(u[c + 3]));
        assert end <= c + 3 ==> Lower(u[end - 1]) in "_-.he";
      }
    }
  }

  /** Of the entries that occur at the front, the first in the table is the longest. */
  lemma EarlierIsSame(u: Text, n: nat, k: nat, m: nat)
    requires n <= |u| && k <= m < 20 && |ANCHOR_TABLE| == 20 && ANCHOR_TABLE[m].name == LowerText(u[..n])
    requires MatchesCi(u, 0, ANCHOR_TABLE[k].name) && |ANCHOR_TABLE[k].name| <= n
    ensures ANCHOR_TABLE[k] == ANCHOR_TABLE[m]
  {
    AnchorsAreKeys();
    hide IsKey, MatchesCi, LowerText, ANCHOR_TABLE;
    MatchIsLower(u, ANCHOR_TABLE[k]);
    FrontOfLower(u, |ANCHOR_TABLE[k].name|, n);
    if k < m {
      LongerFirst(k, m);
    }
    SameNameSameKind(ANCHOR_TABLE[k], ANCHOR_TABLE[m]);
  }

  lemma LongestWins(u: Text, n: nat, m: nat)
    requires n <= |u| && m < 20 && |ANCHOR_TABLE| == 20 && ANCHOR_TABLE[m].name == LowerText(u[..n])
    requires forall k | 0 <= k < 20 :: MatchesCi(u, 0, ANCHOR_TABLE[k].name) ==> |ANCHOR_TABLE[k].name| <= n
    ensures FindKey(SECRET_ANCHORS, u, 0) == Some(Key(ANCHOR_TABLE[m].kind, n))
  {
    AnchorsAreKeys();
    hide IsKey, MatchesCi, LowerText, ANCHOR_TABLE, FindEntry;
    MatchIsLower(u, ANCHOR_TABLE[m]);
    var k := FindEntry(SECRET_ANCHORS, u, 0, 0).value;
    EarlierIsSame(u, n, k, m);
  }

  /** A listed name that is followed by one of the forms is the key that the pass reads. */
  lemma NameIsKey(kind: Kind, hyphen: bool, u: Text, x: Parts)
    requires InOrder(u, x) && HasFormAt(kind, hyphen, u, x) && IsName(kind, LowerText(u[..x.name]))
    ensures FindKey(SECRET_ANCHORS, u, 0) == Some(Key(kind, x.name))
  {
    TableSize();
    AnchorsAreKeys();
    hide HasFormAt, IsName, MatchesCi, KeyBytes, IsKey, LowerText, ANCHOR_TABLE, FindKey;
    NameMatches(kind, u, x.name);
    var m: nat :| m < 20 && ANCHOR_TABLE[m] == Entry(LowerText(u[..x.name]), kind);
    forall k | 0 <= k < 20 && MatchesCi(u, 0, ANCHOR_TABLE[k].name) ensures |ANCHOR_TABLE[k].name| <= x.name {
      KeyBytesOf(ANCHOR_TABLE[k], u, 0);
      if |ANCHOR_TABLE[k].name| > x.name {
        NotContinued(kind, hyphen, u, x, ANCHOR_TABLE[k].kind, |ANCHOR_TABLE[k].name|);
      }
    }
    LongestWins(u, x.name, m);
  }

  lemma FrontOfLower(u: Text, a: nat, b: nat)
    ensures a <= b <= |u| ==> LowerText(u[..a]) <= LowerText(u[..b])
  {
  }

  lemma SameNameSameKind(a: Entry, b: Entry)
    requires IsKey(a) && IsKey(b) && a.name == b.name
    ensures a == b
  {
  }

  /** At the front of a text the pass finds a secret exactly when the text opens with one of the forms; the
      value is the form's. */
  lemma FrontIff(hyphen: bool, u: Text, h: Hit)
    ensures Parse(SECRET_ANCHORS, hyphen, u, 0) == Some(h) <==>
      exists x :: IsSecret(h.kind, hyphen, u, x) && h.start == x.opening && h.end == x.value
  {
    hide FindKey, HasForm, HasFormAt, IsName, ValueStart, LowerText;
    if Parse(SECRET_ANCHORS, hyphen, u, 0) == Some(h) {
      var key := FindKey(SECRET_ANCHORS, u, 0).value;
      KeyIsName(u, key);
      var x := PartsOf(h.kind, u, key.end);
      ValueStartIsOpening(h.kind, hyphen, u, key.end);
      FormIff(h.kind, hyphen, u, x);
      assert IsSecret(h.kind, hyphen, u, x);
    }
    if x :| IsSecret(h.kind, hyphen, u, x) && h.start == x.opening && h.end == x.value {
      FormInOrder(h.kind, hyphen, u, x);
      HasFormIff(h.kind, hyphen, u, x);
      FormIff(h.kind, hyphen, u, x);
      NameIsKey(h.kind, hyphen, u, x);
    }
  }

  lemma FormInOrder(kind: Kind, hyphen: bool, u: Text, x: Parts)
    requires HasForm(kind, hyphen, u, x)
    ensures InOrder(u, x)
  {
  }

  lemma ValueStartIsOpening(kind: Kind, hyphen: bool, u: Text, c: nat)
    requires c <= |u| && ValueStart(hyphen, u, c).Some?
    ensures ValueStart(hyphen, u, c) == Some(PartsOf(kind, u, c).opening)
  {
    hide ValueEnd;
  }

  /** At any place of a text, on a line that had a `-` before that place or not. */
  lemma SecretIff(s: Text, i: nat, h: Hit)
    requires i <= |s|
    ensures Parse(SECRET_ANCHORS, After(false, s[..i]), s, i) == Some(h) <==>
      exists x :: IsSecretAt(s, i, h, x)
  {
    hide *;
    var u, f := s[i..], LineHasHyphen(false, s[..i]);
    HyphenIff(false, s[..i]);
    ParseMoves(SECRET_ANCHORS, f, s, i, h);
    if h.start >= i && h.end >= i {
      FrontIff(f, u, Hit(h.kind, h.start - i, h.end - i));
    }
    SecretAtMeans(s, i, h);
  }

  lemma SecretAtMeans(s: Text, i: nat, h: Hit)
    requires i <= |s|
    ensures (exists x :: IsSecretAt(s, i, h, x)) <==> h.start >= i && h.end >= i && exists x ::
      IsSecret(h.kind, LineHasHyphen(false, s[..i]), s[i..], x) && h.start - i == x.opening && h.end - i == x.value
  {
    hide IsSecret, LineHasHyphen;
    if x :| IsSecretAt(s, i, h, x) {
      assert IsSecret(h.kind, LineHasHyphen(false, s[..i]), s[i..], x);
    }
    if h.start >= i && h.end >= i {
      forall x | IsSecret(h.kind, LineHasHyphen(false, s[..i]), s[i..], x)
                 && h.start - i == x.opening && h.end - i == x.value
        ensures IsSecretAt(s, i, h, x)
      {
      }
    }
  }

  lemma ParseMoves(keys: KeyTable, f: bool, s: Text, i: nat, h: Hit)
    requires i <= |s|
    ensures Parse(keys, f, s, i) == Some(h) <==>
      h.start >= i && h.end >= i && Parse(keys, f, s[i..], 0) == Some(Hit(h.kind, h.start - i, h.end - i))
  {
    hide Parse;
    ParseSuffix(keys, f, s, i);
    var front := Parse(keys, f, s[i..], 0);
    assert front.Some? ==>
      Parse(keys, f, s, i) == Some(Hit(front.value.kind, i + front.value.start, i + front.value.end));
  }

  /** The text from `i` on is a keyed secret with these parts, and its value lies where the hit says. */
  predicate IsSecretAt(s: Text, i: nat, h: Hit, x: Parts)
    requires i <= |s|
  {
    && IsSecret(h.kind, LineHasHyphen(false, s[..i]), s[i..], x)
    && h.start == i + x.opening && h.end == i + x.value
  }
}
