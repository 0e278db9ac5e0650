/** The anchored pass of the diagnostics redactor: values after a secret-bearing key are masked. */
module AnchoredScan {
  import opened Options
  import opened Search
  import opened Utf8

  const REDACTED: Text := "[REDACTED]"
  const REDACTED_PREFIX: Text := "[REDACTED"

  /** Token secrets stop at a structural delimiter, line secrets take the rest of the line. */
  datatype Kind = Token | Line

  datatype Entry = Entry(name: Text, kind: Kind)

  /** The secret-bearing keys; longer spellings come before their prefixes. */
  const ANCHOR_TABLE: seq<Entry> := [
    Entry("cipher_seed_mnemonic", Line),
    Entry("cipher-seed-mnemonic", Line),
    Entry("cipher.seed.mnemonic", Line),
    Entry("cipherseedmnemonic", Line),
    Entry("seed_mnemonic", Line),
    Entry("seed-mnemonic", Line),
    Entry("seed.mnemonic", Line),
    Entry("seedmnemonic", Line),
    Entry("cipher_seed", Line),
    Entry("cipher-seed", Line),
    Entry("cipher.seed", Line),
    Entry("cipherseed", Line),
    Entry("wallet_password", Token),
    Entry("wallet-password", Token),
    Entry("wallet.password", Token),
    Entry("walletpassword", Token),
    Entry("rpcpassword", Token),
    Entry("rpcpass", Token),
    Entry("macaroon", Token),
    Entry("mnemonic", Line)
  ]

  /** The first entry of the table, from entry `k` on, that occurs at `i`. */
  function FindEntry(table: seq<Entry>, s: Text, i: nat, k: nat): (r: Option<nat>)
    requires k <= |table|
    ensures r.Some? ==> k <= r.value < |table| && MatchesCi(s, i, table[r.value].name)
    ensures r.Some? ==> forall m | k <= m < r.value :: !MatchesCi(s, i, table[m].name)
    ensures r.None? ==> forall m | k <= m < |table| :: !MatchesCi(s, i, table[m].name)
    decreases |table| - k
  {
    if k == |table| then None
    else if MatchesCi(s, i, table[k].name) then Some(k)
    else FindEntry(table, s, i, k + 1)
  }

  predicate IsNewline(c: char) { c == '\r' || c == '\n' }

  predicate IsPad(c: char) { c == ' ' || c == '\t' }

  /** ASCII whitespace that does not end a line: space, tab and form feed. */
  predicate IsBlank(c: char) { IsPad(c) || c == 12 as char }

  predicate IsQuote(c: char) { c == '\'' || c == '"' }

  predicate IsDelimiter(c: char) { c == '=' || c == ':' }

  predicate IsTerminator(c: char) {
    IsPad(c) || IsNewline(c) || IsQuote(c) || c == ',' || c == '}' || c == ']' || c == ')'
  }

  /** One of `_hex`, `-hex` and `.hex`, in either case. */
  predicate SuffixAt(s: Text, i: nat) {
    && i + 4 <= |s|
    && (s[i] == '_' || s[i] == '-' || s[i] == '.')
    && Lower(s[i + 1]) == 'h' && Lower(s[i + 2]) == 'e' && Lower(s[i + 3]) == 'x'
  }

  function SkipSuffix(s: Text, i: nat): nat {
    if SuffixAt(s, i) then i + 4 else i
  }

  function SkipQuote(s: Text, i: nat): nat {
    if i < |s| && IsQuote(s[i]) then i + 1 else i
  }

  function SkipBlank(s: Text, i: nat): (r: nat)
    requires i <= |s|
    ensures i <= r <= |s|
    ensures forall j | i <= j < r :: IsBlank(s[j])
    ensures r < |s| ==> !IsBlank(s[r])
    decreases |s| - i
  {
    if i < |s| && IsBlank(s[i]) then SkipBlank(s, i + 1) else i
  }

  function SkipPad(s: Text, i: nat): (r: nat)
    requires i <= |s|
    ensures i <= r <= |s|
    ensures forall j | i <= j < r :: IsPad(s[j])
    ensures r < |s| ==> !IsPad(s[r])
    decreases |s| - i
  {
    if i < |s| && IsPad(s[i]) then SkipPad(s, i + 1) else i
  }

  /** The text from `i` to the next ASCII whitespace is all digits (or empty). */
  predicate Numeric(s: Text, i: nat)
    requires i <= |s|
    decreases |s| - i
  {
    i == |s| || IsBlank(s[i]) || IsNewline(s[i]) || (IsDigit(s[i]) && Numeric(s, i + 1))
  }

  /** Where the value of `kind` that starts at `i` ends. */
  function ValueEnd(kind: Kind, s: Text, i: nat): (r: nat)
    requires i <= |s|
    ensures i <= r <= |s|
    ensures forall j | i <= j < r :: !EndsValue(kind, s[j])
    ensures r < |s| ==> EndsValue(kind, s[r])
    decreases |s| - i
  {
    if i < |s| && !EndsValue(kind, s[i]) then ValueEnd(kind, s, i + 1) else i
  }

  predicate EndsValue(kind: Kind, c: char) {
    if kind.Token? then IsTerminator(c) else IsNewline(c)
  }

  /** Past the optional suffix and closing quote of a key that ends at `c`. */
  function KeyEnd(s: Text, c: nat): (r: nat)
    requires c <= |s|
    ensures c <= r <= |s|
  {
    SkipQuote(s, SkipSuffix(s, c))
  }

  /** Past the padding and the opening quote of a value. */
  function OpenValue(s: Text, i: nat): (r: nat)
    requires i <= |s|
    ensures i <= r <= |s|
  {
    SkipQuote(s, SkipPad(s, i))
  }

  predicate DelimiterAt(s: Text, i: nat) {
    i < |s| && IsDelimiter(s[i])
  }

  /** After a whole key that ends at `c`: where its value starts, when the key is structured, in
      assignment or space form. `hyphen` says that the line holds a `-` before the key, as a
      command-line option does. */
  function ValueAfter(hyphen: bool, s: Text, c: nat): (r: Option<nat>)
    requires c <= |s|
    ensures r.Some? ==> c < r.value <= |s|
  {
    var gap := SkipBlank(s, c);
    if DelimiterAt(s, gap) then Some(OpenValue(s, gap + 1))
    else if gap == c || !(hyphen || Numeric(s, gap)) then None
    else Some(OpenValue(s, gap))
  }

  function ValueStart(hyphen: bool, s: Text, c: nat): (r: Option<nat>)
    requires c <= |s|
    ensures r.Some? ==> c < r.value <= |s|
  {
    ValueAfter(hyphen, s, KeyEnd(s, c))
  }

  /** A structured secret: its value is `s[start..end]`. */
  datatype Hit = Hit(kind: Kind, start: nat, end: nat)

  /** A key of the table occurs at `i` and ends at `end`. */
  datatype Key = Key(kind: Kind, end: nat)

  function FindKey(keys: KeyTable, s: Text, i: nat): (r: Option<Key>)
    ensures r.Some? ==> KeyBytes(r.value.kind, s, i, r.value.end)
  {
    match FindEntry(keys, s, i, 0)
    case None => None
    case Some(k) =>
      KeyBytesOf(keys[k], s, i);
      Some(Key(keys[k].kind, i + |keys[k].name|))
  }

  function Parse(keys: KeyTable, hyphen: bool, s: Text, i: nat): (r: Option<Hit>)
    ensures r.Some? ==> i + 7 < r.value.start <= r.value.end <= |s|
  {
    match FindKey(keys, s, i)
    case None => None
    case Some(key) => HitAt(key.kind, s, ValueStart(hyphen, s, key.end))
  }

  function HitAt(kind: Kind, s: Text, start: Option<nat>): Option<Hit>
    requires start.Some? ==> start.value <= |s|
  {
    match start
    case None => None
    case Some(v) => Some(Hit(kind, v, ValueEnd(kind, s, v)))
  }

  function Stars(n: nat): Text {
    seq(n, _ => '*')
  }

  /** `push_redaction`: the marker, padded with stars to the length it replaces. */
  function Redaction(length: nat, marker: Text): (r: Text)
    ensures |r| == if length <= |marker| then |marker| else length
    ensures marker <= r
  {
    marker + Stars(if length <= |marker| then 0 else length - |marker|)
  }

  /** What the pass writes for a value: nothing and already-marked values stay as they are. */
  function Mark(value: Text): (r: Text)
    ensures |r| >= |value|
  {
    if value == [] || REDACTED_PREFIX <= value then value else Redaction(|value|, REDACTED)
  }

  /** Whether the line holds a `-` so far, one byte later. */
  function Update(hyphen: bool, c: char): bool {
    if IsNewline(c) then false else hyphen || c == '-'
  }

  function After(hyphen: bool, s: Text): bool {
    if s == [] then hyphen else Update(After(hyphen, s[..|s| - 1]), s[|s| - 1])
  }

  /** The pass, from a place whose line so far holds a hyphen or not. */
  function Scan(keys: KeyTable, hyphen: bool, s: Text): Text
    decreases |s|, 1
  {
    if s == [] then [] else Write(keys, hyphen, s, Parse(keys, hyphen, s, 0))
  }

  /** The pass on nonempty `s`, once it is known what was found at its front. */
  function Write(keys: KeyTable, hyphen: bool, s: Text, found: Option<Hit>): Text
    requires s != [] && (found.Some? ==> 0 < found.value.start <= found.value.end <= |s|)
    decreases |s|, 0
  {
    match found
    case None => [s[0]] + Scan(keys, Update(hyphen, s[0]), s[1..])
    case Some(h) =>
      s[..h.start] + Mark(s[h.start..h.end]) + Scan(keys, After(hyphen, s[..h.end]), s[h.end..])
  }

  function RedactAnchored(value: Text): Text {
    Scan(SECRET_ANCHORS, false, value)
  }

  // ---------------------------------------------------------------------------------------------
  // The anchor table

  /** Bytes that anchors are made of; none of them has an `x`, so none can contain a `_hex` suffix. */
  predicate IsKeyChar(c: char) {
    ('a' <= c <= 'z' && c != 'x') || c == '_' || c == '-' || c == '.'
  }

  predicate OpensAnchor(c: char, d: char) {
    || (c == 'c' && d == 'i')
    || (c == 's' && d == 'e')
    || (c == 'w' && d == 'a')
    || (c == 'r' && d == 'p')
    || (c == 'm' && (d == 'a' || d == 'n'))
  }

  predicate ClosesAnchor(kind: Kind, c: char, d: char) {
    match kind
    case Token => (c == 'r' && d == 'd') || (c == 's' && d == 's') || (c == 'o' && d == 'n')
    case Line => (c == 'i' && d == 'c') || (c == 'e' && d == 'd')
  }

  /** A key has at least seven key bytes, and opening and closing pairs that tell the kinds apart. */
  predicate IsKey(e: Entry) {
    var a := e.name;
    && |a| >= 7
    && OpensAnchor(a[0], a[1])
    && ClosesAnchor(e.kind, a[|a| - 2], a[|a| - 1])
    && forall j | 0 <= j < |a| :: IsKeyChar(a[j])
  }

  predicate IsKeyTable(table: seq<Entry>) {
    forall k | 0 <= k < |table| :: IsKey(table[k])
  }

  /** The pass works for any table of such keys; only this is used of the real one. */
  type KeyTable = table: seq<Entry> | IsKeyTable(table) witness []

  const SECRET_ANCHORS: KeyTable := (AnchorsAreKeys(); ANCHOR_TABLE)

  /** The same of `s[i..end]`, in either case. */
  predicate KeyBytes(kind: Kind, s: Text, i: nat, end: nat) {
    && i + 7 <= end <= |s|
    && OpensAnchor(Lower(s[i]), Lower(s[i + 1]))
    && ClosesAnchor(kind, Lower(s[end - 2]), Lower(s[end - 1]))
    && forall j | i <= j < end :: IsKeyChar(Lower(s[j]))
  }

  lemma KeyBytesOf(e: Entry, s: Text, i: nat)
    requires IsKey(e) && MatchesCi(s, i, e.name)
    ensures KeyBytes(e.kind, s, i, i + |e.name|)
  {
    forall j | i <= j < i + |e.name| ensures Lower(s[j]) == e.name[j - i] {
      assert Lower(s[i + (j - i)]) == Lower(e.name[j - i]);
      assert IsKeyChar(e.name[j - i]);
    }
  }

  lemma AnchorsAreKeys()
    ensures IsKeyTable(ANCHOR_TABLE)
  {
    forall k | 0 <= k < |ANCHOR_TABLE| ensures IsKey(ANCHOR_TABLE[k]) {
      if k < 4 { LongSeedKeys(k); }
      else if k < 8 { ShortSeedKeys(k); }
      else if k < 12 { CipherKeys(k); }
      else { TokenKeys(k); }
    }
  }

  lemma LongSeedKeys(k: nat)
    requires k < 4
    ensures IsKey(ANCHOR_TABLE[k])
  {
  }

  lemma ShortSeedKeys(k: nat)
    requires 4 <= k < 8
    ensures IsKey(ANCHOR_TABLE[k])
  {
  }

  lemma CipherKeys(k: nat)
    requires 8 <= k < 12
    ensures IsKey(ANCHOR_TABLE[k])
  {
  }

  lemma TokenKeys(k: nat)
    requires 12 <= k < |ANCHOR_TABLE|
    ensures IsKey(ANCHOR_TABLE[k])
  {
  }
}
