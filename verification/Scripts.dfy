/** Rewriting a text piece by piece: what is copied, and what is masked by what. */
module Scripts {
  import opened Options
  import opened Search
  import opened Utf8

  datatype Script =
    | Done
    | Keep(text: Text, next: Script)
    | Mask(old': Text, new': Text, next: Script)

  function Source(sc: Script): Text {
    match sc
    case Done => []
    case Keep(text, next) => text + Source(next)
    case Mask(old', _, next) => old' + Source(next)
  }

  function Target(sc: Script): Text {
    match sc
    case Done => []
    case Keep(text, next) => text + Target(next)
    case Mask(_, new', next) => new' + Target(next)
  }

  /** No mask is shorter than what it hides. */
  predicate Growing(sc: Script) {
    match sc
    case Done => true
    case Keep(_, next) => Growing(next)
    case Mask(old', new', next) => |old'| <= |new'| && Growing(next)
  }

  /** Where in the source the byte at `j` of the target was copied from; masks come from nowhere. */
  function Origin(sc: Script, j: nat): Option<nat> {
    match sc
    case Done => None
    case Keep(text, next) =>
      if j < |text| then Some(j) else Later(Origin(next, j - |text|), |text|)
    case Mask(old', new', next) =>
      if j < |new'| then None else Later(Origin(next, j - |new'|), |old'|)
  }

  function Later(o: Option<nat>, n: nat): Option<nat> {
    match o case None => None case Some(x) => Some(n + x)
  }

  /** A copied byte is the byte it was copied from, and a growing script leaves at least as much
      text from it to the end as there was. */
  lemma {:induction false} Slack(sc: Script, j: nat)
    requires Growing(sc) && Origin(sc, j).Some?
    ensures j < |Target(sc)| && Origin(sc, j).value < |Source(sc)|
    ensures Target(sc)[j] == Source(sc)[Origin(sc, j).value]
    ensures |Target(sc)| - j >= |Source(sc)| - Origin(sc, j).value
  {
    match sc
    case Keep(text, next) =>
      GrowingLength(next);
      if j >= |text| {
        Slack(next, j - |text|);
      }
    case Mask(old', new', next) =>
      Slack(next, j - |new'|);
  }

  lemma {:induction false} GrowingLength(sc: Script)
    requires Growing(sc)
    ensures |Target(sc)| >= |Source(sc)|
  {
    match sc
    case Done =>
    case Keep(_, next) => GrowingLength(next);
    case Mask(_, _, next) => GrowingLength(next);
  }

  /** The scripts of consecutive passes: each starts from what the one before it wrote. */
  predicate Chained(scs: seq<Script>) {
    forall i | 0 < i < |scs| :: Source(scs[i]) == Target(scs[i - 1])
  }

  /** Through all passes, last one first. */
  function OriginThrough(scs: seq<Script>, j: nat): Option<nat> {
    if scs == [] then Some(j)
    else match Origin(scs[|scs| - 1], j)
      case None => None
      case Some(m) => OriginThrough(scs[..|scs| - 1], m)
  }

  lemma {:induction false} SlackThrough(scs: seq<Script>, j: nat)
    requires scs != [] && Chained(scs) && (forall sc | sc in scs :: Growing(sc))
    requires OriginThrough(scs, j).Some?
    ensures var o := OriginThrough(scs, j).value;
      var s, t := Source(scs[0]), Target(scs[|scs| - 1]);
      j < |t| && o < |s| && t[j] == s[o] && |t| - j >= |s| - o
  {
    var last := |scs| - 1;
    Slack(scs[last], j);
    if last > 0 {
      SlackThrough(scs[..last], Origin(scs[last], j).value);
    }
  }

  // ---------------------------------------------------------------------------------------------
  // Which bytes are hidden

  /** Byte `k` of the source lies in a masked piece. */
  predicate Hidden(sc: Script, k: nat) {
    match sc
    case Done => false
    case Keep(text, next) => k >= |text| && Hidden(next, k - |text|)
    case Mask(old', _, next) => k < |old'| || Hidden(next, k - |old'|)
  }

  /** Where byte `k` of the source goes, when it is not hidden. */
  function Image(sc: Script, k: nat): nat {
    match sc
    case Done => 0
    case Keep(text, next) => if k < |text| then k else |text| + Image(next, k - |text|)
    case Mask(old', new', next) => if k < |old'| then 0 else |new'| + Image(next, k - |old'|)
  }

  lemma {:induction false} ImageOfOrigin(sc: Script, j: nat)
    requires Origin(sc, j).Some?
    ensures var k := Origin(sc, j).value; !Hidden(sc, k) && Image(sc, k) == j
  {
    match sc
    case Keep(text, next) =>
      if j >= |text| {
        ImageOfOrigin(next, j - |text|);
      }
    case Mask(old', new', next) => ImageOfOrigin(next, j - |new'|);
  }

  lemma {:induction false} OriginOfImage(sc: Script, k: nat)
    requires k < |Source(sc)| && !Hidden(sc, k)
    ensures var j := Image(sc, k); j < |Target(sc)| && Target(sc)[j] == Source(sc)[k] && Origin(sc, j) == Some(k)
  {
    match sc
    case Keep(text, next) =>
      if k >= |text| {
        OriginOfImage(next, k - |text|);
      }
    case Mask(old', new', next) => OriginOfImage(next, k - |old'|);
  }

  /** Some byte that the scripts write in the end was copied, through all of them, from byte `k`. */
  ghost predicate Shows(scs: seq<Script>, k: nat) {
    exists j: nat :: OriginThrough(scs, j) == Some(k)
  }

  lemma OriginThroughTwo(a: Script, b: Script, j: nat)
    ensures OriginThrough([a, b], j) == match Origin(b, j) case None => None case Some(m) => Origin(a, m)
  {
    assert [a, b][..1] == [a] && [a][..0] == [];
    if Origin(b, j).Some? {
      var m := Origin(b, j).value;
      assert OriginThrough([a], m) == Origin(a, m) by {
        assert Origin(a, m).Some? ==> OriginThrough([], Origin(a, m).value) == Origin(a, m);
      }
    }
  }

  /** A byte is seen behind two scripts exactly if neither hides it. */
  lemma ShowsTwo(a: Script, b: Script, k: nat)
    requires Target(a) == Source(b) && k < |Source(a)|
    ensures Shows([a, b], k) <==> !Hidden(a, k) && !Hidden(b, Image(a, k))
  {
    if Shows([a, b], k) {
      var j: nat :| OriginThrough([a, b], j) == Some(k);
      OriginThroughTwo(a, b, j);
      ImageOfOrigin(b, j);
      ImageOfOrigin(a, Origin(b, j).value);
    } else if !Hidden(a, k) && !Hidden(b, Image(a, k)) {
      OriginOfImage(a, k);
      OriginOfImage(b, Image(a, k));
      OriginThroughTwo(a, b, Image(b, Image(a, k)));
    }
  }

  // ---------------------------------------------------------------------------------------------
  // Masks that a needle cannot reach into

  predicate BarsCi(bar: Text, needle: Text) {
    && needle != [] && bar != []
    && (forall c | c in needle :: Lower(c) != Lower(bar[0]))
    && (forall c | c in bar :: Lower(c) != Lower(needle[0]))
  }

  predicate AllBar(sc: Script, needle: Text) {
    match sc
    case Done => true
    case Keep(_, next) => AllBar(next, needle)
    case Mask(_, new', next) => BarsCi(new', needle) && AllBar(next, needle)
  }

  /** What a needle's tail matches at the front of the target it matches in the source. */
  lemma {:induction false} FrontTransfers(sc: Script, needle: Text, k: nat)
    requires AllBar(sc, needle) && k <= |needle| && MatchesCi(Target(sc), 0, needle[k..])
    ensures MatchesCi(Source(sc), 0, needle[k..])
  {
    match sc
    case Done =>
    case Keep(text, next) =>
      var n := needle[k..];
      if |n| <= |text| {
        FrontCopied(text, Target(next), Source(next), n);
      } else {
        var m := k + |text|;
        FrontMatch(text, Target(next), n);
        assert n[|text|..] == needle[m..];
        FrontTransfers(next, needle, m);
        BackMatch(text, Target(next), Source(next), n);
      }
    case Mask(_, new', next) =>
      BarStops(new', Target(next), needle, k);
  }

  lemma FrontMatch(a: Text, t: Text, n: Text)
    requires |a| <= |n| && MatchesCi(a + t, 0, n)
    ensures MatchesCi(t, 0, n[|a|..])
  {
    forall j | 0 <= j < |n| - |a| ensures Lower(t[0 + j]) == Lower(n[|a|..][j]) {
      assert Lower((a + t)[0 + (|a| + j)]) == Lower(n[|a| + j]);
    }
  }

  lemma BackMatch(a: Text, t: Text, s: Text, n: Text)
    requires |a| <= |n| && MatchesCi(a + t, 0, n) && MatchesCi(s, 0, n[|a|..])
    ensures MatchesCi(a + s, 0, n)
  {
    forall j | 0 <= j < |n| ensures Lower((a + s)[0 + j]) == Lower(n[j]) {
      if j < |a| {
        assert Lower((a + t)[0 + j]) == Lower(n[j]);
      } else {
        assert Lower(s[0 + (j - |a|)]) == Lower(n[|a|..][j - |a|]);
      }
    }
  }

  lemma FrontCopied(a: Text, t: Text, s: Text, n: Text)
    requires |n| <= |a| && MatchesCi(a + t, 0, n)
    ensures MatchesCi(a + s, 0, n)
  {
    forall j | 0 <= j < |n| ensures Lower((a + s)[0 + j]) == Lower(n[j]) {
      assert Lower((a + t)[0 + j]) == Lower(n[j]);
    }
  }

  lemma BarStops(bar: Text, t: Text, needle: Text, k: nat)
    requires BarsCi(bar, needle) && k <= |needle| && MatchesCi(bar + t, 0, needle[k..])
    ensures k == |needle|
  {
    assert (bar + t)[0 + 0] == bar[0];
    var c := needle[if k < |needle| then k else 0];
    assert c in needle && Lower(c) != Lower(bar[0]);
  }

  lemma NotInside(bar: Text, t: Text, i: nat, needle: Text)
    requires BarsCi(bar, needle) && MatchesCi(bar + t, i, needle)
    ensures i >= |bar|
  {
    assert Lower((bar + t)[i + 0]) == Lower(needle[0]);
  }

  /** Masks that bar a needle create no occurrence of it. */
  lemma {:induction false} KeepsAbsentCi(sc: Script, needle: Text, i: nat)
    requires needle != [] && AllBar(sc, needle) && MatchesCi(Target(sc), i, needle)
    ensures ContainsCi(Source(sc), needle)
  {
    match sc
    case Done =>
    case Keep(text, next) =>
      if i < |text| {
        var sub := Keep(text[i..], next);
        assert text == text[..i] + text[i..];
        assert Target(sc) == text[..i] + Target(sub) && Source(sc) == text[..i] + Source(sub);
        MatchesShift(text[..i], Target(sub), 0, needle);
        assert needle[0..] == needle;
        FrontTransfers(sub, needle, 0);
        MatchesShift(text[..i], Source(sub), 0, needle);
        assert MatchesCi(Source(sc), i, needle);
      } else {
        MatchesShift(text, Target(next), i - |text|, needle);
        KeepsAbsentCi(next, needle, i - |text|);
        ContainsCiBehind(text, Source(next), needle);
      }
    case Mask(old', new', next) =>
      NotInside(new', Target(next), i, needle);
      MatchesShift(new', Target(next), i - |new'|, needle);
      KeepsAbsentCi(next, needle, i - |new'|);
      ContainsCiBehind(old', Source(next), needle);
  }

  lemma ContainsCiBehind(a: Text, s: Text, needle: Text)
    requires ContainsCi(s, needle)
    ensures ContainsCi(a + s, needle)
  {
    var i :| 0 <= i <= |s| && MatchesCi(s, i, needle);
    MatchesShift(a, s, i, needle);
    assert MatchesCi(a + s, |a| + i, needle);
  }
}
