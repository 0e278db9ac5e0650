/** Byte strings and UTF-8 well-formedness (sections 3 and 4 of RFC 3629).

    A Rust `&str` is modelled by its UTF-8 bytes: one Dafny `char` per byte, code 0..255. Validity is
    a byte automaton, so it can be followed through a rewriting pass one byte at a time. */
module Utf8 {
  type Text = string

  /** Automaton state: between characters, inside one (how many bytes are missing and the
      range allowed for the next one), or broken. */
  datatype State = Start | Need(n: nat, lo: char, hi: char) | Bad

  const CONT_LO: char := 0x80 as char
  const CONT_HI: char := 0xBF as char

  predicate IsContinuation(c: char) {
    CONT_LO <= c <= CONT_HI
  }

  predicate IsAscii(c: char) {
    c < CONT_LO
  }

  predicate IsDigit(c: char) { '0' <= c <= '9' }

  function Step(st: State, c: char): State {
    match st
    case Bad => Bad
    case Need(n, lo, hi) =>
      if !(lo <= c <= hi) then Bad
      else if n <= 1 then Start
      else Need(n - 1, CONT_LO, CONT_HI)
    case Start =>
      var b := c as int;
      if b < 0x80 then Start
      else if 0xC2 <= b <= 0xDF then Need(1, CONT_LO, CONT_HI)
      else if b == 0xE0 then Need(2, 0xA0 as char, CONT_HI)
      else if b == 0xED then Need(2, CONT_LO, 0x9F as char)
      else if 0xE1 <= b <= 0xEF then Need(2, CONT_LO, CONT_HI)
      else if b == 0xF0 then Need(3, 0x90 as char, CONT_HI)
      else if 0xF1 <= b <= 0xF3 then Need(3, CONT_LO, CONT_HI)
      else if b == 0xF4 then Need(3, CONT_LO, 0x8F as char)
      else Bad
  }

  function Run(st: State, s: Text): State
    decreases |s|
  {
    if s == [] then st else Run(Step(st, s[0]), s[1..])
  }

  /** The type invariant of a Rust `str`. */
  predicate Valid(s: Text) {
    Run(Start, s) == Start
  }

  /** A state the automaton can be in: every range it asks for lies in the continuation bytes. */
  predicate Reachable(st: State) {
    st.Need? ==> st.n > 0 && CONT_LO <= st.lo && st.hi <= CONT_HI
  }

  /** `str::is_char_boundary`, decided from the byte at `i` alone. */
  predicate IsCharBoundary(s: Text, i: nat) {
    i == |s| || (i < |s| && !IsContinuation(s[i]))
  }

  /** The first character boundary at or after `i`. */
  function Boundary(value: Text, i: nat): (r: nat)
    requires i <= |value|
    ensures i <= r <= |value| && IsCharBoundary(value, r)
    ensures forall k | i <= k < r :: !IsCharBoundary(value, k)
    decreases |value| - i
  {
    if IsCharBoundary(value, i) then i else Boundary(value, i + 1)
  }

  /** The last character boundary at or before `i`; 0 is one. */
  function BoundaryBefore(value: Text, i: nat): (r: nat)
    requires i <= |value|
    ensures r <= i && (r == 0 || IsCharBoundary(value, r))
    ensures forall k | r < k <= i :: !IsCharBoundary(value, k)
  {
    if i == 0 || IsCharBoundary(value, i) then i else BoundaryBefore(value, i - 1)
  }

  lemma {:induction false} RunBad(s: Text)
    ensures Run(Bad, s) == Bad
  {
    if s != [] {
      RunBad(s[1..]);
    }
  }

  lemma {:induction false} RunConcat(st: State, a: Text, b: Text)
    ensures Run(st, a + b) == Run(Run(st, a), b)
    decreases |a|
  {
    if a == [] {
      assert a + b == b;
    } else {
      assert (a + b)[0] == a[0] && (a + b)[1..] == a[1..] + b;
      RunConcat(Step(st, a[0]), a[1..], b);
    }
  }

  lemma {:induction false} RunReachable(st: State, s: Text)
    requires Reachable(st)
    ensures Reachable(Run(st, s))
    decreases |s|
  {
    if s != [] {
      RunReachable(Step(st, s[0]), s[1..]);
    }
  }

  lemma {:induction false} RunAscii(s: Text)
    requires forall c | c in s :: IsAscii(c)
    ensures Run(Start, s) == Start
  {
    if s != [] {
      assert s[0] in s;
      assert forall c | c in s[1..] :: c in s;
      RunAscii(s[1..]);
    }
  }

  /** From a well-formed continuation of `st`, a byte that is no continuation byte means that no
      character was pending. */
  lemma PendingNeedsContinuation(st: State, s: Text)
    requires Reachable(st) && Run(st, s) != Bad
    requires s != [] && !IsContinuation(s[0])
    ensures st == Start
  {
    if st != Start {
      assert Step(st, s[0]) == Bad;
      RunBad(s[1..]);
    }
  }

  /** In valid text the byte test finds exactly the places between two characters. */
  lemma BoundaryIffBetweenCharacters(s: Text, i: nat)
    requires Valid(s) && i <= |s|
    ensures IsCharBoundary(s, i) <==> Run(Start, s[..i]) == Start
  {
    var st := Run(Start, s[..i]);
    assert s[..i] + s[i..] == s;
    RunConcat(Start, s[..i], s[i..]);
    RunReachable(Start, s[..i]);
    if i < |s| {
      if !IsContinuation(s[i]) {
        PendingNeedsContinuation(st, s[i..]);
      } else if st == Start {
        RunBad(s[i..][1..]);
      }
    } else {
      assert s[..i] == s;
    }
  }

  lemma {:induction false} ValidConcat(a: Text, b: Text)
    requires Valid(a) && Valid(b)
    ensures Valid(a + b)
  {
    RunConcat(Start, a, b);
  }

  /** Slicing at character boundaries keeps both halves valid. */
  lemma ValidSplit(s: Text, i: nat)
    requires Valid(s) && IsCharBoundary(s, i)
    ensures i <= |s| && Valid(s[..i]) && Valid(s[i..])
  {
    BoundaryIffBetweenCharacters(s, i);
    RunConcat(Start, s[..i], s[i..]);
    assert s[..i] + s[i..] == s;
  }

  /** `char::len_utf8` of the character whose first byte is `c`. */
  function LeadLength(c: char): (n: nat)
    ensures 1 <= n <= 4
  {
    var b := c as int;
    if b < 0x80 then 1 else if b < 0xE0 then 2 else if b < 0xF0 then 3 else 4
  }

  /** The character starting valid text: its length is given by its lead byte, it ends on a
      boundary, and every byte after the first is a continuation byte. */
  lemma LeadCharacter(s: Text)
    requires Valid(s) && s != []
    ensures var n := LeadLength(s[0]);
      n <= |s| && IsCharBoundary(s, n) && Valid(s[n..]) && !IsContinuation(s[0])
      && (forall j | 1 <= j < n :: IsContinuation(s[j]))
      && (n > 1 <==> !IsAscii(s[0]))
  {
    var n := LeadLength(s[0]);
    var st := Step(Start, s[0]);
    RunBad(s[1..]);
    assert st != Bad;
    if n > 1 {
      assert st.Need? && st.n == n - 1;
      PendingRun(st, s[1..]);
      assert s[1..][n - 1..] == s[n..];
      forall j | 1 <= j < n ensures IsContinuation(s[j]) {
        assert s[j] == s[1..][j - 1];
      }
    }
    assert s[..n] + s[n..] == s;
    RunConcat(Start, s[..n], s[n..]);
    assert Run(Start, s[n..]) == Start;
    if n < |s| && IsContinuation(s[n]) {
      RunBad(s[n..][1..]);
    }
  }

  lemma {:induction false} PendingRun(st: State, s: Text)
    requires st.Need? && Reachable(st) && Run(st, s) == Start
    ensures st.n <= |s|
    ensures forall j | 0 <= j < st.n :: IsContinuation(s[j])
    ensures Run(st, s[..st.n]) == Start && Run(Start, s[st.n..]) == Start
    decreases st.n
  {
    RunBad(s[1..]);
    var next := Step(st, s[0]);
    if next.Need? {
      PendingRun(next, s[1..]);
      var m := next.n;
      assert s[1..][..m] == s[..st.n][1..];
      assert s[1..][m..] == s[st.n..];
      forall j | 0 <= j < st.n ensures IsContinuation(s[j]) {
        assert j > 0 ==> s[j] == s[1..][j - 1];
      }
    } else {
      assert s[..1][1..] == [];
    }
  }
}
