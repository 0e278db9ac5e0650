/** The markers that redaction puts in, and what else a value with a marker in front can hold. */
module Markers {
  import opened AnchoredClean
  import opened AnchoredKeys
  import opened AnchoredScan
  import opened PrivateKeys
  import opened Redactor
  import opened Search
  import opened Utf8

  const MARKERS: seq<Text> := [REDACTED, REDACTED_BASIC_AUTH, KEY_MARKER]

  /** The front, from its name on, of a marker of this redactor and its padding: there is nothing else in it. */
  predicate IsMarker(value: Text) {
    REDACTED_PREFIX <= value && exists m | m in MARKERS :: value <= m + Stars(|value|)
  }

  /** What should not be left. */
  predicate IsSecret(value: Text) {
    value != [] && !IsMarker(value)
  }

  lemma KeylessConcat(a: Text, b: Text)
    requires NoKeyInside(a) && NoKeyInside(b)
    ensures NoKeyInside(a + b)
  {
    assert a != [] ==> !OpensWith(a[|a| - 1]);
  }

  lemma PrefixOpensNone()
    ensures NoKeyInside(REDACTED_PREFIX)
  {
    assert REDACTED_PREFIX == "[RED" + "ACTED";
    KeylessConcat("[RED", "ACTED");
  }

  lemma MarkerPieces()
    ensures NoKeyInside("]") && NoKeyInside("::A") && NoKeyInside("UTH]")
  {
  }

  lemma KeyMarkerPieces()
    ensures NoKeyInside("::PRI") && NoKeyInside("VATE ") && NoKeyInside("KEY]")
  {
  }

  lemma MarkersSpelled()
    ensures REDACTED == REDACTED_PREFIX + "]" && REDACTED_BASIC_AUTH == REDACTED_PREFIX + ("::A" + "UTH]")
    ensures KEY_MARKER == REDACTED_PREFIX + (("::PRI" + "VATE ") + "KEY]")
  {
  }

  lemma MarkersOpenNoKey()
    ensures NoKeyInside(REDACTED) && NoKeyInside(REDACTED_BASIC_AUTH) && NoKeyInside(KEY_MARKER)
  {
    PrefixOpensNone();
    MarkerPieces();
    KeyMarkerPieces();
    MarkersSpelled();
    hide NoKeyInside, REDACTED, REDACTED_BASIC_AUTH, KEY_MARKER, REDACTED_PREFIX;
    KeylessConcat(REDACTED_PREFIX, "]");
    KeylessConcat("::A", "UTH]");
    KeylessConcat(REDACTED_PREFIX, "::A" + "UTH]");
    KeylessConcat("::PRI", "VATE ");
    KeylessConcat("::PRI" + "VATE ", "KEY]");
    KeylessConcat(REDACTED_PREFIX, ("::PRI" + "VATE ") + "KEY]");
  }

  /** Nor does a padded one. */
  lemma PaddedOpensNoKey(m: Text, n: nat)
    requires m in MARKERS
    ensures NoKeyInside(m + Stars(n))
  {
    MarkersOpenNoKey();
    assert NoKeyInside(Stars(n));
    assert m == REDACTED || m == REDACTED_BASIC_AUTH || m == KEY_MARKER;
    hide NoKeyInside;
    KeylessConcat(m, Stars(n));
  }

  /** No key opens inside a mere marker. */
  lemma MarkerHasNoKey(keys: KeyTable, s: Text, a: nat, b: nat, kind: Kind, j: nat)
    requires a <= j < b <= |s| && IsMarker(s[a..b]) && (b < |s| ==> EndsValue(kind, s[b]))
    ensures FindKey(keys, s, j).None?
  {
    hide FindKey, NoKeyInside, MARKERS;
    var value := s[a..b];
    var m :| m in MARKERS && value <= m + Stars(|value|);
    PaddedOpensNoKey(m, |value|);
    FrontOpensNone(m + Stars(|value|), s, a, b, kind, j);
  }

  lemma FrontOpensNone(whole: Text, s: Text, a: nat, b: nat, kind: Kind, j: nat)
    requires a <= j < b <= |s| && s[a..b] <= whole && NoKeyInside(whole) && (b < |s| ==> EndsValue(kind, s[b]))
    ensures j + 1 < |s| ==> !OpensAnchor(Lower(s[j]), Lower(s[j + 1]))
  {
    assert forall k | a <= k < b :: s[k] == s[a..b][k - a] == whole[k - a];
    assert j - a < |whole|;
  }
}
