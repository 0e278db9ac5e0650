/** What the anchored pass writes for each form of a keyed secret: the form as it is, its value masked. */
module MaskedForms {
  import opened AnchoredCover
  import opened AnchoredGrammar
  import opened AnchoredRuns
  import opened AnchoredScan
  import opened Options
  import opened Search
  import opened Utf8

  /** The marker, drawn out with stars to the length of what it replaces. */
  function Masked(length: nat): Text {
    "[REDACTED]" + seq(if length > 10 then length - 10 else 0, _ => '*')
  }

  predicate IsUnmarked(value: Text) {
    value != "" && !("[REDACTED" <= value)
  }

  lemma MarkIs(value: Text)
    ensures Mark(value) == if IsUnmarked(value) then Masked(|value|) else value
  {
    var r := Redaction(|value|, REDACTED);
    assert |REDACTED| == 10;
    assert r == Masked(|value|);
  }

  /** A text that opens with a form is written with the form's value masked, if it has one that is not marked. */
  lemma FormIsMasked(kind: Kind, hyphen: bool, u: Text, x: Parts)
    requires IsSecret(kind, hyphen, u, x)
    ensures x.opening <= x.value <= |u|
    ensures var value := u[x.opening..x.value];
      Scan(SECRET_ANCHORS, hyphen, u) ==
        u[..x.opening] + (if IsUnmarked(value) then Masked(|value|) else value) +
        Scan(SECRET_ANCHORS, LineHasHyphen(hyphen, u[..x.value]), u[x.value..])
  {
    var h := Hit(kind, x.opening, x.value);
    FrontIff(hyphen, u, h);
    HyphenIff(hyphen, u[..x.value]);
    MarkIs(u[x.opening..x.value]);
    hide Parse, After, LineHasHyphen, Mark, Masked, IsUnmarked, HasForm;
    ScanHit(hyphen, u, h);
  }

  lemma ScanHit(hyphen: bool, u: Text, h: Hit)
    requires Parse(SECRET_ANCHORS, hyphen, u, 0) == Some(h)
    ensures 0 < h.start <= h.end <= |u|
    ensures Scan(SECRET_ANCHORS, hyphen, u) == u[..h.start] + Mark(u[h.start..h.end]) +
      Scan(SECRET_ANCHORS, After(hyphen, u[..h.end]), u[h.end..])
  {
    hide Parse, Mark, After;
  }

  // ---------------------------------------------------------------------------------------------
  // As texts

  /** The texts of the parts. */
  datatype Words = Words(
    name: Text, suffix: Text, closing: Text, gap: Text, delimiter: Text, pad: Text, opening: Text, value: Text)

  /** All that stands before the value. */
  function Head(w: Words): Text {
    w.name + (w.suffix + (w.closing + (w.gap + (w.delimiter + (w.pad + w.opening)))))
  }

  /** Some way to write a key and its value in front of `rest`. */
  predicate IsKeyed(kind: Kind, hyphen: bool, w: Words, rest: Text) {
    var stops := if kind.Token? then " \t\r\n'\",}])" else "\r\n";
    var after := w.opening + (w.value + rest);
    && IsName(kind, LowerText(w.name)) && LowerText(w.suffix) in ["", "_hex", "-hex", ".hex"]
    && IsOptionalQuote(w.closing) && AreBlank(w.gap)
    && (w.delimiter == "=" || w.delimiter == ":" ||
        (w.delimiter == w.pad == "" && w.gap != "" && OpensWithNone(after, " \t=:" + [12 as char])
         && (hyphen || OpensWithNumber(after))))
    && ArePadding(w.pad) && OpensWithNone(after, " \t")
    && IsOptionalQuote(w.opening) && (w.opening == "" ==> OpensWithNone(after, "'\""))
    && (forall c | c in w.value :: c !in stops) && (rest != "" ==> rest[0] in stops)
  }

  /** Where the parts of a text end. */
  function Ends(w: Words): (x: Parts) {
    var name := |w.name|;
    var suffix := name + |w.suffix|;
    var closing := suffix + |w.closing|;
    var gap := closing + |w.gap|;
    var delimiter := gap + |w.delimiter|;
    var pad := delimiter + |w.pad|;
    var opening := pad + |w.opening|;
    Parts(name, suffix, closing, gap, delimiter, pad, opening, opening + |w.value|)
  }

  lemma Peel(u: Text, a: nat, p: Text, q: Text)
    requires a <= |u| && u[a..] == p + q
    ensures a + |p| <= |u| && u[a..a + |p|] == p && u[a + |p|..] == q
  {
    assert u[a..a + |p|] == (p + q)[..|p|];
    assert u[a + |p|..] == (p + q)[|p|..];
  }

  lemma Nested(w: Words, t: Text)
    ensures Head(w) + t == w.name + (w.suffix + (w.closing + (w.gap + (w.delimiter + (w.pad + (w.opening + t))))))
  {
    var h6 := w.pad + w.opening;
    var h5 := w.delimiter + h6;
    var h4 := w.gap + h5;
    var h3 := w.closing + h4;
    Regrouped(w.name, w.suffix + h3, t);
    Regrouped(w.suffix, h3, t);
    Regrouped(w.closing, h4, t);
    Regrouped(w.gap, h5, t);
    Regrouped(w.delimiter, h6, t);
    Regrouped(w.pad, w.opening, t);
  }

  lemma FrontPieces(w: Words, t: Text)
    ensures var u, x := Head(w) + t, Ends(w);
      && x.gap <= |u| && u[..x.name] == w.name && u[x.name..x.suffix] == w.suffix
      && u[x.suffix..x.closing] == w.closing && u[x.closing..x.gap] == w.gap
      && u[x.gap..] == w.delimiter + (w.pad + (w.opening + t))
  {
    Nested(w, t);
    FourPieces(Head(w) + t, w.name, w.suffix, w.closing, w.gap, w.delimiter + (w.pad + (w.opening + t)));
    hide Head;
  }

  lemma FourPieces(u: Text, a: Text, b: Text, c: Text, d: Text, e: Text)
    requires u == a + (b + (c + (d + e)))
    ensures var i, j, k := |a| + |b|, |a| + |b| + |c|, |a| + |b| + |c| + |d|;
      && |u| == k + |e| && u[..|a|] == a && u[|a|..i] == b && u[i..j] == c && u[j..k] == d && u[k..] == e
  {
    assert u[0..] == u;
    Peel(u, 0, a, b + (c + (d + e)));
    Peel(u, |a|, b, c + (d + e));
    Peel(u, |a| + |b|, c, d + e);
    Peel(u, |a| + |b| + |c|, d, e);
  }

  lemma BackPieces(u: Text, w: Words, rest: Text)
    requires var x := Ends(w);
      x.gap <= |u| && u[x.gap..] == w.delimiter + (w.pad + (w.opening + (w.value + rest)))
    ensures var x := Ends(w);
      && x.value <= |u| && u[x.gap..x.delimiter] == w.delimiter
      && u[x.delimiter..x.pad] == w.pad && u[x.pad..] == w.opening + (w.value + rest)
      && u[x.pad..x.opening] == w.opening && u[x.opening..x.value] == w.value && u[x.value..] == rest
  {
    var x := Ends(w);
    Peel(u, x.gap, w.delimiter, w.pad + (w.opening + (w.value + rest)));
    Peel(u, x.delimiter, w.pad, w.opening + (w.value + rest));
    Peel(u, x.pad, w.opening, w.value + rest);
    Peel(u, x.opening, w.value, rest);
  }

  /** The parts of a written form lie where they were written. */
  lemma Pieces(w: Words, rest: Text)
    ensures var u, x := Head(w) + (w.value + rest), Ends(w);
      && InOrder(u, x) && u[..x.name] == w.name && u[x.name..x.suffix] == w.suffix
      && u[x.suffix..x.closing] == w.closing && u[x.closing..x.gap] == w.gap
      && u[x.gap..x.delimiter] == w.delimiter && u[x.gap..] == w.delimiter + (w.pad + (w.opening + (w.value + rest)))
      && u[x.delimiter..x.pad] == w.pad && u[x.pad..] == w.opening + (w.value + rest)
      && u[x.pad..x.opening] == w.opening && u[x.opening..x.value] == w.value && u[x.value..] == rest
      && u[..x.opening] == Head(w) && u[..x.value] == Head(w) + w.value
  {
    var u := Head(w) + (w.value + rest);
    FrontPieces(w, w.value + rest);
    BackPieces(u, w, rest);
    assert |Head(w)| == Ends(w).opening;
    hide Head;
    Regrouped(Head(w), w.value, rest);
  }

  /** So every written form is a form. */
  lemma KeyedIsSecret(kind: Kind, hyphen: bool, w: Words, rest: Text)
    requires IsKeyed(kind, hyphen, w, rest)
    ensures IsSecret(kind, hyphen, Head(w) + (w.value + rest), Ends(w))
  {
    Pieces(w, rest);
    hide Head, Ends, IsName, LowerText, IsOptionalQuote, AreBlank, ArePadding, OpensWithNumber, OpensWithNone;
    var u, x := Head(w) + (w.value + rest), Ends(w);
    assert "" + ("" + w.opening) == w.opening;
  }

  /** How a written form comes out: with its value masked, if it has one that is not marked. */
  function MaskedForm(w: Words): Text {
    Head(w) + (if IsUnmarked(w.value) then Masked(|w.value|) else w.value)
  }

  /** What follows it is redacted on its own, on a line that has a `-` by then or not. */
  lemma WrittenIsMasked(kind: Kind, hyphen: bool, w: Words, rest: Text)
    requires IsKeyed(kind, hyphen, w, rest)
    ensures Scan(SECRET_ANCHORS, hyphen, Head(w) + w.value + rest) ==
      MaskedForm(w) + Scan(SECRET_ANCHORS, LineHasHyphen(hyphen, Head(w) + w.value), rest)
  {
    KeyedIsSecret(kind, hyphen, w, rest);
    Regrouped(Head(w), w.value, rest);
    FormIsMasked(kind, hyphen, Head(w) + (w.value + rest), Ends(w));
    Pieces(w, rest);
    hide Head, Ends, IsSecret, IsKeyed, IsUnmarked, Masked, LineHasHyphen, Scan;
  }

  /** `s[i..i + n]` is a listed name, in letters of either case. */
  predicate NameSpans(s: Text, i: nat, n: nat) {
    i + n <= |s| && LowerText(s[i..i + n]) in TOKEN_NAMES + LINE_NAMES
  }

  ghost predicate NameAt(s: Text, i: nat) {
    exists n: nat :: NameSpans(s, i, n)
  }

  ghost predicate NoNameBefore(s: Text, n: nat) {
    forall i: nat | i < n :: !NameAt(s, i)
  }

  lemma NoNameNoKey(s: Text, i: nat)
    requires i < |s| && !NameAt(s, i)
    ensures FindKey(SECRET_ANCHORS, s, i).None?
  {
    hide FindKey, IsName, LowerText, NameSpans;
    KeyOfSuffix(SECRET_ANCHORS, s, i);
    var found := FindKey(SECRET_ANCHORS, s[i..], 0);
    if found.Some? {
      KeyIsName(s[i..], found.value);
      NameIsListed(s, i, found.value.kind, found.value.end);
    }
  }

  lemma NameIsListed(s: Text, i: nat, kind: Kind, n: nat)
    requires i + n <= |s| && IsName(kind, LowerText(s[i..][..n]))
    ensures NameSpans(s, i, n)
  {
    assert s[i..][..n] == s[i..i + n];
    hide LowerText, TOKEN_NAMES, LINE_NAMES;
  }

  /** The same behind a text in which no listed name opens. */
  lemma MaskedBehind(kind: Kind, front: Text, w: Words, rest: Text)
    requires IsKeyed(kind, LineHasHyphen(false, front), w, rest)
    requires NoNameBefore(front + Head(w) + w.value + rest, |front|)
    ensures RedactAnchored(front + Head(w) + w.value + rest) == front + MaskedForm(w) +
      Scan(SECRET_ANCHORS, LineHasHyphen(false, front + Head(w) + w.value), rest)
  {
    var form := Head(w) + w.value;
    var s := front + (form + rest);
    WrittenIsMasked(kind, LineHasHyphen(false, front), w, rest);
    HyphenIff(false, front);
    HyphenIff(LineHasHyphen(false, front), form);
    HyphenIff(false, front + form);
    AfterConcat(false, front, form);
    Regrouped(front, Head(w), w.value);
    Regrouped(front, form, rest);
    hide Head, IsKeyed, MaskedForm, LineHasHyphen, Scan, FindKey, After, Visits, Before, NameAt;
    forall j | 0 <= j < |front| ensures FindKey(SECRET_ANCHORS, s, j).None? {
      NoNameNoKey(s, j);
    }
    KeylessRun(SECRET_ANCHORS, false, s, |front|);
    VisitWrites(SECRET_ANCHORS, false, s, |front|);
    assert s[..|front|] == front && s[|front|..] == form + rest;
    Regrouped(front, MaskedForm(w), Scan(SECRET_ANCHORS, LineHasHyphen(false, front + form), rest));
  }

  // ---------------------------------------------------------------------------------------------
  // The usual forms

  predicate IsTokenValue(v: Text) {
    IsUnmarked(v) && forall c | c in v :: c !in " \t\r\n'\",}])"
  }

  predicate EndsToken(rest: Text) { rest != "" ==> rest[0] in " \t\r\n'\",}])" }

  /** The text `head + v + rest` comes out with `v` masked, and `rest` redacted on its own. */
  predicate Masks(head: Text, v: Text, rest: Text) {
    RedactAnchored(head + v + rest) ==
      head + Masked(|v|) + Scan(SECRET_ANCHORS, LineHasHyphen(false, head + v), rest)
  }

  lemma TokenOpens(v: Text, rest: Text)
    requires IsTokenValue(v)
    ensures OpensWithNone("" + (v + rest), " \t") && OpensWithNone("" + (v + rest), "'\"")
    ensures OpensWithNone("\"" + (v + rest), " \t")
  {
    assert v[0] in v;
    assert "" + (v + rest) == v + rest;
  }

  /** A form with nothing in front. */
  lemma FrontMasks(kind: Kind, w: Words, rest: Text, head: Text)
    requires IsKeyed(kind, false, w, rest) && IsUnmarked(w.value) && Head(w) == head
    ensures Masks(head, w.value, rest)
  {
    WrittenIsMasked(kind, false, w, rest);
    hide IsKeyed, Head, Masked, Scan, LineHasHyphen;
  }

  /** A form behind a text without names. */
  lemma BehindMasks(kind: Kind, front: Text, w: Words, rest: Text, head: Text)
    requires IsKeyed(kind, LineHasHyphen(false, front), w, rest) && IsUnmarked(w.value) && front + Head(w) == head
    requires NoNameBefore(head + w.value + rest, |front|)
    ensures Masks(head, w.value, rest)
  {
    MaskedBehind(kind, front, w, rest);
    Regrouped(front, Head(w), Masked(|w.value|));
    hide IsKeyed, Head, Masked, Scan, LineHasHyphen, NoNameBefore;
  }

  /** `name="v"`. */
  lemma QuotedIsMasked(name: Text, v: Text, rest: Text)
    requires IsName(Token, LowerText(name)) && IsTokenValue(v)
    ensures Masks(name + "=\"", v, "\"" + rest)
  {
    var w := Words(name, "", "", "", "=", "", "\"", v);
    TokenOpens(v, "\"" + rest);
    assert Head(w) == name + "=\"";
    hide OpensWithNone, IsName, Head;
    FrontMasks(Token, w, "\"" + rest, name + "=\"");
  }

  /** `"name": "v"`, as in JSON, behind a text without names. */
  lemma JsonIsMasked(front: Text, name: Text, v: Text, rest: Text)
    requires IsName(Token, LowerText(name)) && IsTokenValue(v)
    requires NoNameBefore(front + "\"" + name + "\": \"" + v + ("\"" + rest), |front| + 1)
    ensures Masks(front + "\"" + name + "\": \"", v, "\"" + rest)
  {
    var w := Words(name, "", "\"", "", ":", " ", "\"", v);
    TokenOpens(v, "\"" + rest);
    assert Head(w) == name + "\": \"";
    Regrouped(front + "\"", name, "\": \"");
    hide OpensWithNone, IsName, Head, LineHasHyphen, NoNameBefore;
    BehindMasks(Token, front + "\"", w, "\"" + rest, front + "\"" + name + "\": \"");
  }

  /** `name_hex=v`, and so on. */
  lemma SuffixedIsMasked(name: Text, suffix: Text, v: Text, rest: Text)
    requires IsName(Token, LowerText(name)) && LowerText(suffix) in ["_hex", "-hex", ".hex"]
    requires IsTokenValue(v) && EndsToken(rest)
    ensures Masks(name + suffix + "=", v, rest)
  {
    var w := Words(name, suffix, "", "", "=", "", "", v);
    TokenOpens(v, rest);
    assert Head(w) == name + suffix + "=";
    hide OpensWithNone, IsName, Head, LowerText;
    FrontMasks(Token, w, rest, name + suffix + "=");
  }

  /** `--name v`, an option on a command line. */
  lemma OptionIsMasked(name: Text, v: Text, rest: Text)
    requires IsName(Token, LowerText(name)) && IsTokenValue(v) && EndsToken(rest)
    requires v[0] != '=' && v[0] != ':' && v[0] != 12 as char
    ensures Masks("--" + name + " ", v, rest)
  {
    var w := Words(name, "", "", " ", "", "", "", v);
    TokenOpens(v, rest);
    OptionValue(v, rest);
    assert Head(w) == name + " ";
    Regrouped("--", name, " ");
    var head := "--" + name + " ";
    HyphenOpensNoName(head + v + rest, 0);
    HyphenOpensNoName(head + v + rest, 1);
    assert EndsNoLine("--", 0) && LineHasHyphen(false, "--");
    hide OpensWithNone, IsName, Head, LowerText, LineHasHyphen, NameAt;
    BehindMasks(Token, "--", w, rest, head);
  }

  lemma OptionValue(v: Text, rest: Text)
    requires IsTokenValue(v) && v[0] != '=' && v[0] != ':' && v[0] != 12 as char
    ensures OpensWithNone("" + (v + rest), " \t=:" + [12 as char])
  {
    assert v[0] in v;
    assert "" + (v + rest) == v + rest;
  }

  lemma HyphenOpensNoName(s: Text, i: nat)
    requires i < |s| && s[i] == '-'
    ensures !NameAt(s, i)
  {
    forall n: nat ensures !NameSpans(s, i, n) {
      if NameSpans(s, i, n) {
        NamesOpenWithLetters(LowerText(s[i..i + n]));
      }
    }
  }

  lemma NamesOpenWithLetters(name: Text)
    requires name in TOKEN_NAMES + LINE_NAMES
    ensures name != "" && name[0] in "cmrsw"
  {
  }

  /** `name: v`, to the end of the line, for the names whose value is a line. */
  lemma LineIsMasked(name: Text, v: Text, rest: Text)
    requires IsName(Line, LowerText(name)) && IsUnmarked(v) && v[0] !in " \t'\""
    requires (forall c | c in v :: c !in "\r\n") && (rest != "" ==> rest[0] in "\r\n")
    ensures Masks(name + ": ", v, rest)
  {
    var w := Words(name, "", "", "", ":", " ", "", v);
    assert Head(w) == name + ": ";
    assert "" + (v + rest) == v + rest;
    hide IsName, LowerText, Head;
    FrontMasks(Line, w, rest, name + ": ");
  }

  /** A text in which no listed name opens is left alone. */
  lemma NamelessIsKept(hyphen: bool, s: Text)
    requires NoNameBefore(s, |s|)
    ensures Scan(SECRET_ANCHORS, hyphen, s) == s
  {
    forall j | 0 <= j < |s| ensures FindKey(SECRET_ANCHORS, s, j).None? {
      NoNameNoKey(s, j);
    }
    hide FindKey, After, Visits, Before, NameAt;
    KeylessRun(SECRET_ANCHORS, hyphen, s, |s|);
    VisitWrites(SECRET_ANCHORS, hyphen, s, |s|);
    assert s[|s|..] == [] && s[..|s|] == s;
  }
}
