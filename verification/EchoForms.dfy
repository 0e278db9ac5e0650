/** What the redaction of an echoed value writes, read off the text. */
module EchoForms {
  import opened Echo
  import opened KeptText
  import opened Options
  import opened Redactor
  import opened Search
  import opened Utf8

  /** An echo is recognised by the whole value, or by as much of its front as fits into twelve bytes. */
  lemma AnchorIs(value: Text) returns (k: nat)
    requires Valid(value)
    ensures if |value| <= 12 then AnchorOf(value) == value
      else IsLongestHead(value, k, 12) && AnchorOf(value) == value[..k]
  {
    hide Valid;
    k := 0;
    if |value| > 12 {
      k := BoundaryBefore(value, 12);
      CutIsValid(value, k);
      forall n: nat | k < n <= 12 ensures !Valid(value[..n]) {
        ValidSplitIff(value, n);
      }
    }
  }

  /** The match of a value with an echo that goes on differently, or not at all. */
  lemma {:induction false} MatchIs(echo: Text, value: Text, echoed: Text)
    requires Valid(echo) && echo <= value && echo <= echoed
    requires echo == value || echo == echoed || Differ(value[|echo|..], echoed[|echo|..])
    ensures Matched(value, echoed) == |echo|
    decreases |echo|
  {
    if echo == [] {
      assert value[0..] == value && echoed[0..] == echoed;
    } else {
      LeadCharacter(echo);
      var n := LeadLength(echo[0]);
      assert value[..n] == echo[..n] == echoed[..n];
      SuffixSlice(value, n, |echo| - n, |value| - n);
      SuffixSlice(echoed, n, |echo| - n, |echoed| - n);
      assert value[n..][|echo| - n..] == value[|echo|..] && echoed[n..][|echo| - n..] == echoed[|echo|..];
      MatchIs(echo[n..], value[n..], echoed[n..]);
    }
  }

  /** The front of a value, as far as the text repeats it, is replaced by the marker, and what follows is
      redacted on its own. */
  lemma EchoIsMasked(head: Text, echo: Text, tail: Text, value: Text)
    requires Valid(value) && value != [] && Valid(echo) && Valid(head + echo + tail) && Valid(tail)
    requires AnchorOf(value) <= echo <= value
    requires echo == value || tail == [] || Differ(value[|echo|..], tail)
    requires forall i | 0 <= i < |head| :: !MatchesAt(head + echo + tail, i, AnchorOf(value))
    ensures RedactValue(head + echo + tail, value) == head + "[redacted]" + RedactValue(tail, value)
  {
    var text, anchor := head + echo + tail, AnchorOf(value);
    hide AnchorOf, Valid, RedactValue, Differ;
    assert text[|head|..] == echo + tail;
    assert text[|head|..|head| + |anchor|] == echo[..|anchor|] == anchor;
    assert MatchesAt(text, |head|, anchor);
    assert Find(text, 0, anchor) == Some(|head|);
    assert (echo + tail)[|echo|..] == tail;
    assert tail == [] ==> echo + tail == echo;
    MatchIs(echo, value, echo + tail);
    OneEcho(text, value, |head|);
    assert text[..|head|] == head && text[|head| + |echo|..] == tail;
  }

  lemma OneEcho(text: Text, value: Text, at: nat)
    requires Valid(text) && Valid(value) && value != [] && Find(text, 0, AnchorOf(value)) == Some(at)
    ensures var n := Matched(value, text[at..]);
      && at + n <= |text| && Valid(text[at + n..])
      && RedactValue(text, value) == text[..at] + "[redacted]" + RedactValue(text[at + n..], value)
  {
    hide AnchorOf, Valid, Matched, Find;
    assert MatchesAt(text, at, AnchorOf(value));
    EchoAdvances(text, value, at);
    hide MatchesAt;
  }
}
