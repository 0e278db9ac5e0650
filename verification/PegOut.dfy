/** Choosing the one output of a transaction that the simulated federation pays. */
module PegOut {
  import opened Hex
  import opened Options
  import opened PegOutScript
  import opened Utf8

  /** An output as the node reports it; value and asset are missing when they are blinded. */
  datatype Output = Output(scriptHex: Text, value: Option<Text>, asset: Option<Bytes>)

  /** This pair of nodes, and the two library functions that judge a destination and a value. */
  datatype Pair = Pair(
    parentGenesis: Bytes, peggedAsset: Bytes, address: Bytes -> Option<Text>, amount: Text -> Option<nat>)

  datatype Malformed =
    | ParentMismatch(named: Bytes) | SeveralPegOuts
    | DestinationNotStandard | ValueNotExplicit | ValueNotAmount(value: Text) | AssetNotPegged

  datatype PegOutError = PegOutputNotFound | PegOutputMalformed(detail: Malformed)

  datatype Payout = Payout(destination: Text, amount: nat)

  // ---------------------------------------------------------------------------------------------
  // One output

  /** What an output names, if it has the form of a peg-out. */
  function TargetOf(o: Output): Option<Target> {
    match FromHex(o.scriptHex)
    case None => None
    case Some(raw) =>
      match DecodeScript(raw)
      case Err(_) => None
      case Ok(target) => Some(target)
  }

  predicate IsOurs(pair: Pair, o: Output) {
    TargetOf(o).Some? && TargetOf(o).value.parentGenesis == pair.parentGenesis
  }

  predicate IsForeign(pair: Pair, o: Output) {
    TargetOf(o).Some? && TargetOf(o).value.parentGenesis != pair.parentGenesis
  }

  /** What a peg-out of this pair pays. */
  function PayoutOf(pair: Pair, o: Output): Result<Payout, Malformed>
    requires IsOurs(pair, o)
  {
    match pair.address(TargetOf(o).value.destination)
    case None => Err(DestinationNotStandard)
    case Some(destination) =>
      match o.value
      case None => Err(ValueNotExplicit)
      case Some(value) =>
        match pair.amount(value)
        case None => Err(ValueNotAmount(value))
        case Some(amount) =>
          if o.asset != Some(pair.peggedAsset) then Err(AssetNotPegged) else Ok(Payout(destination, amount))
  }

  /** An output that would be paid: of this pair, with a standard destination, an explicit value that is
      an amount, and the pegged asset. */
  predicate Pays(pair: Pair, o: Output, p: Payout) {
    && IsOurs(pair, o)
    && pair.address(TargetOf(o).value.destination) == Some(p.destination)
    && o.value.Some? && pair.amount(o.value.value) == Some(p.amount)
    && o.asset == Some(pair.peggedAsset)
  }

  lemma PaysIff(pair: Pair, o: Output, p: Payout)
    ensures Pays(pair, o, p) <==> IsOurs(pair, o) && PayoutOf(pair, o) == Ok(p)
  {
  }

  // ---------------------------------------------------------------------------------------------
  // All outputs

  /** The first output from `from` on for which `p` holds, or their number. */
  function First(outputs: seq<Output>, p: Output -> bool, from: nat := 0): (i: nat)
    requires from <= |outputs|
    ensures from <= i <= |outputs| && (forall k | from <= k < i :: !p(outputs[k]))
    ensures i < |outputs| ==> p(outputs[i])
    decreases |outputs| - from
  {
    if from == |outputs| || p(outputs[from]) then from else First(outputs, p, from + 1)
  }

  function FirstOurs(pair: Pair, outputs: seq<Output>, from: nat := 0): (i: nat)
    requires from <= |outputs|
    ensures from <= i <= |outputs|
    ensures i < |outputs| ==> IsOurs(pair, outputs[i])
  {
    First(outputs, (o: Output) => IsOurs(pair, o), from)
  }

  function FirstForeign(pair: Pair, outputs: seq<Output>): (i: nat)
    ensures i <= |outputs|
    ensures i < |outputs| ==> IsForeign(pair, outputs[i])
  {
    First(outputs, (o: Output) => IsForeign(pair, o))
  }

  lemma BeforeFirst(pair: Pair, outputs: seq<Output>, from: nat := 0)
    requires from <= |outputs|
    ensures forall k | from <= k < FirstOurs(pair, outputs, from) :: !IsOurs(pair, outputs[k])
    ensures forall k | 0 <= k < FirstForeign(pair, outputs) :: !IsForeign(pair, outputs[k])
  {
    hide IsOurs, IsForeign;
    var ours, foreign := (o: Output) => IsOurs(pair, o), (o: Output) => IsForeign(pair, o);
    forall k | from <= k < FirstOurs(pair, outputs, from) ensures !IsOurs(pair, outputs[k]) {
      assert !ours(outputs[k]);
    }
    forall k | 0 <= k < FirstForeign(pair, outputs) ensures !IsForeign(pair, outputs[k]) {
      assert !foreign(outputs[k]);
    }
  }

  /** The verdict on a transaction: the first peg-out of this pair is judged, and then a second one is
      refused; without any, the first foreign peg-out is named. */
  function Decode(pair: Pair, outputs: seq<Output>): Result<Payout, PegOutError> {
    var i := FirstOurs(pair, outputs);
    if i < |outputs| then
      match PayoutOf(pair, outputs[i])
      case Err(detail) => Err(PegOutputMalformed(detail))
      case Ok(payout) =>
        if FirstOurs(pair, outputs, i + 1) < |outputs| then Err(PegOutputMalformed(SeveralPegOuts)) else Ok(payout)
    else
      var f := FirstForeign(pair, outputs);
      if f < |outputs| then Err(PegOutputMalformed(ParentMismatch(TargetOf(outputs[f]).value.parentGenesis)))
      else Err(PegOutputNotFound)
  }

  /** `decode_peg_out`. */
  method DecodePegOut(pair: Pair, outputs: seq<Output>) returns (r: Result<Payout, PegOutError>)
    ensures r == Decode(pair, outputs)
  {
    hide FromHex, DecodeScript, TargetOf, IsOurs, IsForeign, PayoutOf, FirstOurs, FirstForeign, MismatchIn;
    MismatchNext(pair, outputs, 0);
    BeforeFirst(pair, outputs);
    if FirstOurs(pair, outputs) < |outputs| {
      BeforeFirst(pair, outputs, FirstOurs(pair, outputs) + 1);
    }
    var mismatch: Option<Malformed> := None;
    var selected: Option<Payout> := None;
    var next := 0;
    ghost var ours := FirstOurs(pair, outputs);
    while next < |outputs|
      invariant 0 <= next <= |outputs|
      invariant selected.None? ==> next <= ours
      invariant selected.Some? ==> ours < next && PayoutOf(pair, outputs[ours]) == Ok(selected.value)
      invariant selected.Some? ==> forall k | ours < k < next :: !IsOurs(pair, outputs[k])
      invariant mismatch == MismatchIn(pair, outputs, next)
    {
      var output := outputs[next];
      MismatchNext(pair, outputs, next);
      OutputIs(pair, output);
      next := next + 1;
      var raw := FromHex(output.scriptHex);
      if raw.None? {
        continue;
      }
      var target := DecodePegOutScript(raw.value);
      if target.Err? {
        continue;
      }
      if target.value.parentGenesis != pair.parentGenesis {
        if mismatch.None? {
          mismatch := Some(ParentMismatch(target.value.parentGenesis));
        }
        continue;
      }
      if selected.Some? {
        return Err(PegOutputMalformed(SeveralPegOuts));
      }
      var destination := pair.address(target.value.destination);
      if destination.None? {
        return Err(PegOutputMalformed(DestinationNotStandard));
      }
      if output.value.None? {
        return Err(PegOutputMalformed(ValueNotExplicit));
      }
      var amount := pair.amount(output.value.value);
      if amount.None? {
        return Err(PegOutputMalformed(ValueNotAmount(output.value.value)));
      }
      if output.asset != Some(pair.peggedAsset) {
        return Err(PegOutputMalformed(AssetNotPegged));
      }
      selected := Some(Payout(destination.value, amount.value));
    }
    MismatchNext(pair, outputs, next);
    if selected.Some? {
      return Ok(selected.value);
    }
    if mismatch.Some? {
      return Err(PegOutputMalformed(mismatch.value));
    }
    return Err(PegOutputNotFound);
  }

  /** What the steps on one output find. */
  lemma OutputIs(pair: Pair, o: Output)
    ensures var raw := FromHex(o.scriptHex);
      && (raw.None? ==> TargetOf(o).None?)
      && (raw.Some? && DecodeScript(raw.value).Err? ==> TargetOf(o).None?)
      && (raw.Some? && DecodeScript(raw.value).Ok? ==> TargetOf(o) == Some(DecodeScript(raw.value).value))
    ensures IsOurs(pair, o) <==> TargetOf(o).Some? && TargetOf(o).value.parentGenesis == pair.parentGenesis
    ensures IsForeign(pair, o) <==> TargetOf(o).Some? && TargetOf(o).value.parentGenesis != pair.parentGenesis
    ensures IsOurs(pair, o) ==>
      var destination := pair.address(TargetOf(o).value.destination);
      PayoutOf(pair, o) ==
        if destination.None? then Err(DestinationNotStandard)
        else if o.value.None? then Err(ValueNotExplicit)
        else if pair.amount(o.value.value).None? then Err(ValueNotAmount(o.value.value))
        else if o.asset != Some(pair.peggedAsset) then Err(AssetNotPegged)
        else Ok(Payout(destination.value, pair.amount(o.value.value).value))
  {
    hide FromHex, DecodeScript;
  }

  lemma MismatchNext(pair: Pair, outputs: seq<Output>, n: nat)
    requires n <= |outputs|
    ensures n == 0 ==> MismatchIn(pair, outputs, n).None?
    ensures n < |outputs| && MismatchIn(pair, outputs, n).None? && IsForeign(pair, outputs[n]) ==>
      MismatchIn(pair, outputs, n + 1) == Some(ParentMismatch(TargetOf(outputs[n]).value.parentGenesis))
    ensures n < |outputs| && !(MismatchIn(pair, outputs, n).None? && IsForeign(pair, outputs[n])) ==>
      MismatchIn(pair, outputs, n + 1) == MismatchIn(pair, outputs, n)
    ensures var f := FirstForeign(pair, outputs);
      && (f < |outputs| ==> MismatchIn(pair, outputs, |outputs|) ==
                            Some(ParentMismatch(TargetOf(outputs[f]).value.parentGenesis)))
      && (f == |outputs| ==> MismatchIn(pair, outputs, |outputs|).None?)
  {
    hide TargetOf;
  }

  function MismatchIn(pair: Pair, outputs: seq<Output>, n: nat): Option<Malformed>
    requires n <= |outputs|
  {
    var f := FirstForeign(pair, outputs);
    if f < n then Some(ParentMismatch(TargetOf(outputs[f]).value.parentGenesis)) else None
  }

  // ---------------------------------------------------------------------------------------------
  // Exactly one peg-out

  /** `o` is among the outputs once, it pays `p`, and no other output is a peg-out of this pair. */
  predicate OnlyPegOut(pair: Pair, outputs: multiset<Output>, o: Output, p: Payout) {
    outputs[o] == 1 && Pays(pair, o, p) && forall x | x in outputs :: IsOurs(pair, x) ==> x == o
  }

  lemma OnceAt(outputs: seq<Output>, i: nat)
    requires i < |outputs|
    ensures multiset(outputs)[outputs[i]] == 1 <==> forall k | 0 <= k < |outputs| && k != i :: outputs[k] != outputs[i]
  {
    var o := outputs[i];
    assert outputs == outputs[..i] + [o] + outputs[i + 1..];
    assert multiset(outputs) == multiset(outputs[..i]) + multiset{o} + multiset(outputs[i + 1..]);
    if o in outputs[..i] {
      var k :| 0 <= k < i && outputs[k] == o;
    }
    if o in outputs[i + 1..] {
      var k :| i < k < |outputs| && outputs[k] == o;
    }
    forall k | 0 <= k < |outputs| && k != i && outputs[k] == o ensures o in outputs[..i] || o in outputs[i + 1..] {
      if k < i {
        assert outputs[..i][k] == o;
      } else {
        assert outputs[i + 1..][k - i - 1] == o;
      }
    }
  }

  /** A payout is decoded exactly when one output, and only one, is a peg-out of this pair, and that one
      pays it. Nothing else about the transaction matters, its order least of all. */
  lemma DecodeOkIff(pair: Pair, outputs: seq<Output>, p: Payout)
    ensures Decode(pair, outputs) == Ok(p) <==> exists o :: OnlyPegOut(pair, multiset(outputs), o, p)
  {
    hide IsOurs, PayoutOf, IsForeign, TargetOf, Pays;
    var i := FirstOurs(pair, outputs);
    if Decode(pair, outputs) == Ok(p) {
      var o := outputs[i];
      PaysIff(pair, o, p);
      assert forall k | i < k < |outputs| :: !IsOurs(pair, outputs[k]);
      OnceAt(outputs, i);
      assert OnlyPegOut(pair, multiset(outputs), o, p);
    }
    if o :| OnlyPegOut(pair, multiset(outputs), o, p) {
      assert o in outputs;
      PaysIff(pair, o, p);
      var n :| 0 <= n < |outputs| && outputs[n] == o;
      OnceAt(outputs, n);
      PaysOurs(pair, o, p);
      assert forall k | 0 <= k < |outputs| && k != n :: outputs[k] in multiset(outputs) && !IsOurs(pair, outputs[k]);
      assert i == n;
    }
  }

  lemma PaysOurs(pair: Pair, o: Output, p: Payout)
    requires Pays(pair, o, p)
    ensures IsOurs(pair, o)
  {
  }

  /** No peg-out is found exactly when no output has the form of one. */
  lemma NotFoundIff(pair: Pair, outputs: seq<Output>)
    ensures Decode(pair, outputs) == Err(PegOutputNotFound) <==> forall o | o in outputs :: TargetOf(o).None?
  {
    hide TargetOf, PayoutOf;
    forall k | 0 <= k < |outputs| ensures outputs[k] in outputs {}
  }

  /** A mismatch is reported exactly when there are peg-outs, but none of this pair; the parent named is
      that of one of them. */
  lemma MismatchIff(pair: Pair, outputs: seq<Output>)
    ensures var r := Decode(pair, outputs);
      (r.Err? && r.error.PegOutputMalformed? && r.error.detail.ParentMismatch?) <==>
        (exists o :: o in outputs && IsForeign(pair, o)) && (forall o | o in outputs :: !IsOurs(pair, o))
  {
    hide TargetOf, IsOurs, IsForeign;
    forall k | 0 <= k < |outputs| ensures outputs[k] in outputs {}
  }

  /** The order of the outputs does not matter for what is paid, nor for whether anything is found. */
  lemma PermutationInvariant(pair: Pair, a: seq<Output>, b: seq<Output>)
    requires multiset(a) == multiset(b)
    ensures Decode(pair, a).Ok? || Decode(pair, b).Ok? ==> Decode(pair, a) == Decode(pair, b)
    ensures Decode(pair, a) == Err(PegOutputNotFound) <==> Decode(pair, b) == Err(PegOutputNotFound)
  {
    hide Decode, Pays;
    if Decode(pair, a).Ok? {
      DecodeOkIff(pair, a, Decode(pair, a).value);
      DecodeOkIff(pair, b, Decode(pair, a).value);
    }
    if Decode(pair, b).Ok? {
      DecodeOkIff(pair, a, Decode(pair, b).value);
      DecodeOkIff(pair, b, Decode(pair, b).value);
    }
    NotFoundIff(pair, a);
    NotFoundIff(pair, b);
    assert forall o :: o in a <==> o in multiset(a);
    assert forall o :: o in b <==> o in multiset(b);
  }

  /** An output that is no peg-out of this pair, put in anywhere, changes nothing about what is paid. */
  lemma OthersDoNotMatter(pair: Pair, a: seq<Output>, x: Output, b: seq<Output>)
    requires !IsOurs(pair, x)
    ensures Decode(pair, a + b).Ok? || Decode(pair, a + [x] + b).Ok? ==>
      Decode(pair, a + b) == Decode(pair, a + [x] + b)
  {
    hide Decode, Pays, IsOurs;
    var s, t := a + b, a + [x] + b;
    assert multiset(t) == multiset(s) + multiset{x};
    forall o, p ensures OnlyPegOut(pair, multiset(s), o, p) <==> OnlyPegOut(pair, multiset(t), o, p) {
      if Pays(pair, o, p) {
        PaysOurs(pair, o, p);
        assert o != x;
        assert forall y :: y in multiset(t) <==> y in multiset(s) || y == x;
      }
    }
    if Decode(pair, s).Ok? {
      DecodeOkIff(pair, s, Decode(pair, s).value);
      DecodeOkIff(pair, t, Decode(pair, s).value);
    }
    if Decode(pair, t).Ok? {
      DecodeOkIff(pair, s, Decode(pair, t).value);
      DecodeOkIff(pair, t, Decode(pair, t).value);
    }
  }

  /** A second peg-out of this pair is never paid around: with two, nothing is paid. */
  lemma NeverAmbiguous(pair: Pair, outputs: seq<Output>, i: nat, k: nat)
    requires i < k < |outputs| && IsOurs(pair, outputs[i]) && IsOurs(pair, outputs[k])
    ensures Decode(pair, outputs).Err?
  {
    hide IsOurs, PayoutOf;
  }

  /** A node's peg-out to `destination` is decoded to just that, among any outputs that are no peg-outs of
      this pair. */
  lemma WrittenIsPaid(
      pair: Pair, before: seq<Output>, after: seq<Output>, destination: Bytes, o: Output, p: Payout)
    requires |pair.parentGenesis| == HASH_BYTES && 0 < |destination| < 0x1_0000_0000
    requires o.scriptHex == LowercaseHex(EncodeScript(Target(pair.parentGenesis, destination)))
    requires pair.address(destination) == Some(p.destination)
    requires o.value.Some? && pair.amount(o.value.value) == Some(p.amount) && o.asset == Some(pair.peggedAsset)
    requires forall x | x in before + after :: !IsOurs(pair, x)
    ensures Decode(pair, before + [o] + after) == Ok(p)
  {
    WrittenTarget(Target(pair.parentGenesis, destination), o);
    hide EncodeScript, FromHex, LowercaseHex, TargetOf, DecodeScript, Decode;
    OnlyOne(pair, before, after, o, p);
    DecodeOkIff(pair, before + [o] + after, p);
  }

  lemma WrittenTarget(target: Target, o: Output)
    requires |target.parentGenesis| == HASH_BYTES && 0 < |target.destination| < 0x1_0000_0000
    requires o.scriptHex == LowercaseHex(EncodeScript(target))
    ensures TargetOf(o) == Some(target)
  {
    hide EncodeScript, FromHex, LowercaseHex, DecodeScript;
    var script := EncodeScript(target);
    ScriptRoundTrip(target, []);
    assert script + [] == script;
    LowerOfHex(script);
    HexRoundTrip(script, o.scriptHex);
  }

  lemma OnlyOne(pair: Pair, before: seq<Output>, after: seq<Output>, o: Output, p: Payout)
    requires Pays(pair, o, p) && forall x | x in before + after :: !IsOurs(pair, x)
    ensures OnlyPegOut(pair, multiset(before + [o] + after), o, p)
  {
    PaysOurs(pair, o, p);
    hide Pays, IsOurs;
    var outputs := multiset(before + [o] + after);
    assert outputs == multiset(before) + multiset{o} + multiset(after);
    assert o !in before && o !in after by {
      assert o in before || o in after ==> o in before + after;
    }
    forall x | x in outputs && x != o ensures !IsOurs(pair, x) {
      assert x in before + after;
    }
  }

  /** The parent that a mismatch names is that of the first peg-out there is. */
  lemma MismatchNamesFirst(pair: Pair, outputs: seq<Output>, n: nat)
    requires n < |outputs| && IsForeign(pair, outputs[n]) && forall k | 0 <= k < n :: TargetOf(outputs[k]).None?
    requires forall o | o in outputs :: !IsOurs(pair, o)
    ensures Decode(pair, outputs) ==
      Err(PegOutputMalformed(ParentMismatch(TargetOf(outputs[n]).value.parentGenesis)))
  {
    assert forall k | 0 <= k < n :: !IsForeign(pair, outputs[k]);
    hide TargetOf, IsOurs, IsForeign, PayoutOf, FirstOurs, FirstForeign;
    BeforeFirst(pair, outputs);
    assert forall k | 0 <= k < |outputs| :: outputs[k] in outputs;
    assert FirstOurs(pair, outputs) == |outputs|;
    assert FirstForeign(pair, outputs) == n;
  }

  /** The first peg-out of this pair decides what is wrong: its destination, its value and its asset are looked
      at in this order, and only when they are right a second peg-out is refused. */
  lemma FirstOursDecides(pair: Pair, outputs: seq<Output>, n: nat)
    requires n < |outputs| && IsOurs(pair, outputs[n]) && forall k | 0 <= k < n :: !IsOurs(pair, outputs[k])
    ensures var o, r := outputs[n], Decode(pair, outputs);
      var destination := pair.address(TargetOf(o).value.destination);
      && (destination.None? ==> r == Err(PegOutputMalformed(DestinationNotStandard)))
      && (destination.Some? && o.value.None? ==> r == Err(PegOutputMalformed(ValueNotExplicit)))
      && (destination.Some? && o.value.Some? && pair.amount(o.value.value).None? ==>
          r == Err(PegOutputMalformed(ValueNotAmount(o.value.value))))
      && (destination.Some? && o.value.Some? && pair.amount(o.value.value).Some? && o.asset != Some(pair.peggedAsset)
          ==> r == Err(PegOutputMalformed(AssetNotPegged)))
      && (destination.Some? && o.value.Some? && pair.amount(o.value.value).Some? && o.asset == Some(pair.peggedAsset)
          && (exists k | n < k < |outputs| :: IsOurs(pair, outputs[k]))
          ==> r == Err(PegOutputMalformed(SeveralPegOuts)))
  {
    OutputIs(pair, outputs[n]);
    hide TargetOf, IsOurs, IsForeign, PayoutOf;
    assert FirstOurs(pair, outputs) == n;
    BeforeFirst(pair, outputs, n + 1);
  }
}
