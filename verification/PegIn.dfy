/** A whole peg-in: one deposit, mined to the reported depth, then claimed, with one more block for
    every claim that the lagging node still finds immature. */
module PegIn {
  import opened Options
  import opened Utf8

  const CLAIM_RETRY_BLOCKS: nat := 20
  const IMMATURE_CODE: int := -8
  const IMMATURE_MESSAGE: Text := "Peg-in Bitcoin transaction needs more confirmations to be sent."

  datatype NigiriError =
    | PegInImmature(have: nat, need: nat)
    | RpcFailed(rpc: Text, code: int, message: Text)
    | PostTransactionMiningFailed(txid: Text)
    | OtherError(detail: Text)

  /** `worth_retrying`. */
  predicate WorthRetrying(e: NigiriError) {
    match e
    case PegInImmature(_, _) => true
    case RpcFailed(rpc, code, message) => code == IMMATURE_CODE && rpc == "claimpegin" && message == IMMATURE_MESSAGE
    case _ => false
  }

  // ---------------------------------------------------------------------------------------------
  // The two nodes

  /** A call to one of the two nodes. */
  datatype Action =
    | GetPegInAddress
    | Send(address: Text, amount: nat)
    | NewAddress
    | Mine(blocks: nat)
    | GetTransaction(txid: Text)
    | GetProof(txid: Text)
    | Claim(hex: Text, proof: Text)

  datatype Deposit = Deposit(confirmations: nat, hex: Text)

  /** How the nodes answer. Every answer may depend on all that was called before, the answered call
      included. */
  datatype Nodes = Nodes(
    pegInAddress: seq<Action> -> Result<Text, NigiriError>,
    send: seq<Action> -> Result<Text, NigiriError>,
    newAddress: seq<Action> -> Result<Text, NigiriError>,
    mine: seq<Action> -> Option<NigiriError>,
    transaction: seq<Action> -> Result<Deposit, NigiriError>,
    proof: seq<Action> -> Result<Text, NigiriError>,
    claim: seq<Action> -> Result<Text, NigiriError>)

  datatype PegIn = PegIn(mainchainTxid: Text, claimTxid: Text, amount: nat)

  /** What was called, and the result. */
  datatype Run<+T> = Run(history: seq<Action>, result: Result<T, NigiriError>)

  // ---------------------------------------------------------------------------------------------
  // The steps

  /** `faucet`: the deposit is sent and confirmed by one block. */
  function Faucet(n: Nodes, h: seq<Action>, address: Text, amount: nat): Run<Text> {
    var sent := h + [Send(address, amount)];
    match n.send(sent)
    case Err(e) => Run(sent, Err(e))
    case Ok(txid) =>
      var asked := sent + [NewAddress];
      var mined := asked + [Mine(1)];
      if n.newAddress(asked).Err? then Run(asked, Err(PostTransactionMiningFailed(txid)))
      else if n.mine(mined).Some? then Run(mined, Err(PostTransactionMiningFailed(txid)))
      else Run(mined, Ok(txid))
  }

  /** `fetch_matured_deposit`. */
  function FetchMaturedDeposit(n: Nodes, h: seq<Action>, depth: nat, txid: Text): Run<(Text, Text)> {
    var got := h + [GetTransaction(txid)];
    match n.transaction(got)
    case Err(e) => Run(got, Err(e))
    case Ok(deposit) =>
      if deposit.confirmations < depth then Run(got, Err(PegInImmature(deposit.confirmations, depth)))
      else
        var proven := got + [GetProof(txid)];
        match n.proof(proven)
        case Err(e) => Run(proven, Err(e))
        case Ok(proof) => Run(proven, Ok((deposit.hex, proof)))
  }

  /** The claims from attempt `attempt` on. */
  function Claims(n: Nodes, h: seq<Action>, hex: Text, proof: Text, attempt: nat): Run<Text>
    requires attempt <= CLAIM_RETRY_BLOCKS
    decreases CLAIM_RETRY_BLOCKS - attempt
  {
    var mined := if attempt > 0 then h + [Mine(1)] else h;
    if attempt > 0 && n.mine(mined).Some? then Run(mined, Err(n.mine(mined).value))
    else
      var claimed := mined + [Claim(hex, proof)];
      match n.claim(claimed)
      case Ok(txid) => Run(claimed, Ok(txid))
      case Err(e) =>
        if WorthRetrying(e) && attempt < CLAIM_RETRY_BLOCKS then Claims(n, claimed, hex, proof, attempt + 1)
        else Run(claimed, Err(e))
  }

  /** The deposit is mined to the reported depth, of which the faucet mined the first block, and fetched. */
  function Mature(n: Nodes, h: seq<Action>, depth: nat, txid: Text): Run<(Text, Text)> {
    var asked := h + [NewAddress];
    var remaining := if depth > 1 then depth - 1 else 0;
    var mined := if remaining > 0 then asked + [Mine(remaining)] else asked;
    if n.newAddress(asked).Err? then Run(asked, Err(n.newAddress(asked).error))
    else if remaining > 0 && n.mine(mined).Some? then Run(mined, Err(n.mine(mined).value))
    else FetchMaturedDeposit(n, mined, depth, txid)
  }

  /** Everything up to the first claim: the deposit's id, its hex and its proof. */
  function Prepare(n: Nodes, depth: nat, amount: nat): Run<(Text, Text, Text)> {
    var h := [GetPegInAddress];
    match n.pegInAddress(h)
    case Err(e) => Run(h, Err(e))
    case Ok(address) =>
      var funded := Faucet(n, h, address, amount);
      match funded.result
      case Err(e) => Run(funded.history, Err(e))
      case Ok(txid) =>
        var fetched := Mature(n, funded.history, depth, txid);
        match fetched.result
        case Err(e) => Run(fetched.history, Err(e))
        case Ok(pair) => Run(fetched.history, Ok((txid, pair.0, pair.1)))
  }

  function Complete(n: Nodes, depth: nat, amount: nat): Run<PegIn> {
    var ready := Prepare(n, depth, amount);
    match ready.result
    case Err(e) => Run(ready.history, Err(e))
    case Ok((txid, hex, proof)) =>
      var claimed := Claims(n, ready.history, hex, proof, 0);
      match claimed.result
      case Err(e) => Run(claimed.history, Err(e))
      case Ok(claimTxid) => Run(claimed.history, Ok(PegIn(txid, claimTxid, amount)))
  }

  /** `complete_peg_in`. */
  method CompletePegIn(n: Nodes, depth: nat, amount: nat) returns (run: Run<PegIn>)
    ensures run == Complete(n, depth, amount)
  {
    hide Prepare, WorthRetrying;
    var ready := Prepare(n, depth, amount);
    if ready.result.Err? {
      return Run(ready.history, Err(ready.result.error));
    }
    var (txid, hex, proof) := ready.result.value;
    var h := ready.history;
    var last: Option<NigiriError> := None;
    var attempt := 0;
    while attempt <= CLAIM_RETRY_BLOCKS
      invariant 0 <= attempt <= CLAIM_RETRY_BLOCKS + 1
      invariant last.Some? <==> attempt > 0
      invariant Claims(n, ready.history, hex, proof, 0) ==
        if attempt <= CLAIM_RETRY_BLOCKS then Claims(n, h, hex, proof, attempt) else Run(h, Err(last.value))
    {
      if attempt > 0 {
        h := h + [Mine(1)];
        var failed := n.mine(h);
        if failed.Some? {
          return Run(h, Err(failed.value));
        }
      }
      h := h + [Claim(hex, proof)];
      var answer := n.claim(h);
      match answer {
        case Ok(claimTxid) => return Run(h, Ok(PegIn(txid, claimTxid, amount)));
        case Err(e) =>
          if WorthRetrying(e) {
            last := Some(e);
          } else {
            return Run(h, Err(e));
          }
      }
      attempt := attempt + 1;
    }
    return Run(h, Err(last.value));
  }

  // ---------------------------------------------------------------------------------------------
  // Any nodes

  function Max(a: int, b: int): int { if a > b then a else b }

  function CountClaims(h: seq<Action>): nat {
    if h == [] then 0 else CountClaims(h[..|h| - 1]) + (if h[|h| - 1].Claim? then 1 else 0)
  }

  function CountSends(h: seq<Action>): nat {
    if h == [] then 0 else CountSends(h[..|h| - 1]) + (if h[|h| - 1].Send? then 1 else 0)
  }

  /** Blocks mined since the deposit was last sent. */
  function Confirmations(h: seq<Action>): nat {
    if h == [] || h[|h| - 1].Send? then 0
    else Confirmations(h[..|h| - 1]) + (if h[|h| - 1].Mine? then h[|h| - 1].blocks else 0)
  }

  lemma Snoc(h: seq<Action>, a: Action)
    ensures CountClaims(h + [a]) == CountClaims(h) + (if a.Claim? then 1 else 0)
    ensures CountSends(h + [a]) == CountSends(h) + (if a.Send? then 1 else 0)
    ensures Confirmations(h + [a]) == if a.Send? then 0 else Confirmations(h) + (if a.Mine? then a.blocks else 0)
  {
    assert (h + [a])[..|h|] == h;
  }

  /** The part of the history after `from` that submits claims: the same deposit and proof every time,
      one block before each claim but the first, and every claim that is followed by another call was
      refused as immature. */
  predicate RetriesWell(n: Nodes, h: seq<Action>, from: nat, hex: Text, proof: Text) {
    && from <= |h|
    && forall k | from <= k < |h| ::
         && h[k] == (if (k - from) % 2 == 0 then Claim(hex, proof) else Mine(1))
         && (h[k].Claim? && k + 1 < |h| ==> Refused(n, h, k))
  }

  predicate Refused(n: Nodes, h: seq<Action>, k: nat)
    requires k < |h|
  {
    n.claim(h[..k + 1]).Err? && WorthRetrying(n.claim(h[..k + 1]).error)
  }

  /** The last call decides the result. */
  predicate EndsWith(n: Nodes, run: Run<Text>) {
    && run.history != []
    && match run.history[|run.history| - 1]
       case Claim(_, _) => run.result == n.claim(run.history)
       case Mine(_) => n.mine(run.history).Some? && run.result == Err(n.mine(run.history).value)
       case _ => false
  }

  lemma {:induction false} ClaimsAnyNodes(n: Nodes, h: seq<Action>, hex: Text, proof: Text, attempt: nat, from: nat)
    requires attempt <= CLAIM_RETRY_BLOCKS && RetriesWell(n, h, from, hex, proof)
    requires |h| == from + (if attempt == 0 then 0 else 2 * attempt - 1)
    requires attempt > 0 ==> Refused(n, h, |h| - 1)
    requires CountSends(h) == 1
    ensures var run := Claims(n, h, hex, proof, attempt);
      && RetriesWell(n, run.history, from, hex, proof) && EndsWith(n, run)
      && |run.history| <= from + 2 * CLAIM_RETRY_BLOCKS + 1
      && CountSends(run.history) == 1
      && (run.result.Err? && WorthRetrying(run.result.error) && run.history[|run.history| - 1].Claim? ==>
          |run.history| == from + 2 * CLAIM_RETRY_BLOCKS + 1)
    decreases CLAIM_RETRY_BLOCKS - attempt
  {
    hide WorthRetrying, CountSends, CountClaims, Confirmations, RetriesWell, Claims;
    ClaimsUnfold(n, h, hex, proof, attempt);
    var mined := if attempt > 0 then h + [Mine(1)] else h;
    if attempt > 0 {
      Snoc(h, Mine(1));
      ExtendRetries(n, h, from, hex, proof, Mine(1));
    }
    if !(attempt > 0 && n.mine(mined).Some?) {
      var claimed := mined + [Claim(hex, proof)];
      Snoc(mined, Claim(hex, proof));
      ExtendRetries(n, mined, from, hex, proof, Claim(hex, proof));
      var answer := n.claim(claimed);
      if answer.Err? && WorthRetrying(answer.error) && attempt < CLAIM_RETRY_BLOCKS {
        assert claimed[..|claimed| - 1 + 1] == claimed;
        ClaimsAnyNodes(n, claimed, hex, proof, attempt + 1, from);
      }
    }
  }

  /** One attempt. */
  lemma ClaimsUnfold(n: Nodes, h: seq<Action>, hex: Text, proof: Text, attempt: nat)
    requires attempt <= CLAIM_RETRY_BLOCKS
    ensures var mined := if attempt > 0 then h + [Mine(1)] else h;
      var claimed := mined + [Claim(hex, proof)];
      Claims(n, h, hex, proof, attempt) ==
        if attempt > 0 && n.mine(mined).Some? then Run(mined, Err(n.mine(mined).value))
        else if n.claim(claimed).Err? && WorthRetrying(n.claim(claimed).error) && attempt < CLAIM_RETRY_BLOCKS then
          Claims(n, claimed, hex, proof, attempt + 1)
        else Run(claimed, n.claim(claimed))
  {
    hide WorthRetrying;
  }

  lemma ExtendRetries(n: Nodes, h: seq<Action>, from: nat, hex: Text, proof: Text, a: Action)
    requires RetriesWell(n, h, from, hex, proof)
    requires a == if (|h| - from) % 2 == 0 then Claim(hex, proof) else Mine(1)
    requires |h| > from && h[|h| - 1].Claim? ==> Refused(n, h, |h| - 1)
    ensures RetriesWell(n, h + [a], from, hex, proof)
  {
    var t := h + [a];
    forall k | from <= k < |t|
      ensures t[k] == (if (k - from) % 2 == 0 then Claim(hex, proof) else Mine(1))
      ensures t[k].Claim? && k + 1 < |t| ==> Refused(n, t, k)
    {
      if k < |h| {
        assert t[k] == h[k] && t[..k + 1] == h[..k + 1];
      }
    }
  }

  lemma FaucetCalls(n: Nodes, h: seq<Action>, address: Text, amount: nat)
    requires CountSends(h) == 0 && CountClaims(h) == 0
    ensures var run := Faucet(n, h, address, amount);
      && CountSends(run.history) == 1 && CountClaims(run.history) == 0
      && (run.result.Ok? ==> Confirmations(run.history) == 1)
  {
    hide CountSends, CountClaims, Confirmations;
    var sent := h + [Send(address, amount)];
    Snoc(h, Send(address, amount));
    Snoc(sent, NewAddress);
    Snoc(sent + [NewAddress], Mine(1));
  }

  lemma FetchCalls(n: Nodes, h: seq<Action>, depth: nat, txid: Text)
    ensures var run := FetchMaturedDeposit(n, h, depth, txid);
      && CountSends(run.history) == CountSends(h) && CountClaims(run.history) == CountClaims(h)
      && Confirmations(run.history) == Confirmations(h)
  {
    hide CountSends, CountClaims, Confirmations;
    Snoc(h, GetTransaction(txid));
    Snoc(h + [GetTransaction(txid)], GetProof(txid));
  }

  lemma MatureCalls(n: Nodes, h: seq<Action>, depth: nat, txid: Text)
    requires Confirmations(h) == 1
    ensures var run := Mature(n, h, depth, txid);
      && CountSends(run.history) == CountSends(h) && CountClaims(run.history) == CountClaims(h)
      && (run.result.Ok? ==> Confirmations(run.history) == Max(1, depth))
  {
    hide CountSends, CountClaims, Confirmations, FetchMaturedDeposit;
    var asked := h + [NewAddress];
    Snoc(h, NewAddress);
    var remaining := if depth > 1 then depth - 1 else 0;
    Snoc(asked, Mine(remaining));
    FetchCalls(n, if remaining > 0 then asked + [Mine(remaining)] else asked, depth, txid);
  }

  lemma FirstCall()
    ensures CountSends([GetPegInAddress]) == 0 && CountClaims([GetPegInAddress]) == 0
  {
    assert [GetPegInAddress] == [] + [GetPegInAddress];
    Snoc([], GetPegInAddress);
  }

  lemma PrepareCalls(n: Nodes, depth: nat, amount: nat)
    ensures var ready := Prepare(n, depth, amount);
      && CountSends(ready.history) <= 1 && CountClaims(ready.history) == 0
      && (ready.result.Ok? ==> CountSends(ready.history) == 1)
      && (ready.result.Ok? ==> Confirmations(ready.history) == Max(1, depth))
  {
    FirstCall();
    hide CountSends, CountClaims, Confirmations, Faucet, Mature;
    var h := [GetPegInAddress];
    if n.pegInAddress(h).Ok? {
      FaucetCalls(n, h, n.pegInAddress(h).value, amount);
      var funded := Faucet(n, h, n.pegInAddress(h).value, amount);
      if funded.result.Ok? {
        MatureCalls(n, funded.history, depth, funded.result.value);
      }
    }
  }

  lemma {:induction false} CountInRetries(n: Nodes, h: seq<Action>, from: nat, hex: Text, proof: Text)
    requires RetriesWell(n, h, from, hex, proof) && CountClaims(h[..from]) == 0
    ensures CountClaims(h) == (|h| - from + 1) / 2
    decreases |h|
  {
    if |h| == from {
      assert h[..from] == h;
    } else {
      var shorter := h[..|h| - 1];
      assert shorter[..from] == h[..from];
      assert forall k | from <= k < |shorter| :: shorter[k] == h[k] && shorter[..k + 1] == h[..k + 1];
      assert forall k | from <= k < |shorter| && shorter[k].Claim? && k + 1 < |shorter| ::
        Refused(n, h, k) ==> Refused(n, shorter, k);
      CountInRetries(n, shorter, from, hex, proof);
    }
  }

  /** However the nodes answer: the deposit is sent at most once; at most 21 claims are submitted, all
      of the same deposit and proof, one block before each but the first; a claim is repeated only
      after it was refused as immature; the last call decides the result; and an immature refusal is
      the result only after all 21. */
  lemma AnyNodes(n: Nodes, depth: nat, amount: nat)
    ensures var run, ready := Complete(n, depth, amount), Prepare(n, depth, amount);
      && CountSends(run.history) <= 1
      && CountClaims(run.history) <= CLAIM_RETRY_BLOCKS + 1
      && (ready.result.Err? ==> CountClaims(run.history) == 0 && run.result == Err(ready.result.error))
      && (ready.result.Ok? ==>
          && RetriesWell(n, run.history, |ready.history|, ready.result.value.1, ready.result.value.2)
          && (run.result.Ok? ==> run.result.value.amount == amount)
          && (run.result.Ok? ==> n.claim(run.history) == Ok(run.result.value.claimTxid))
          && (run.result.Err? && WorthRetrying(run.result.error) && run.history[|run.history| - 1].Claim? ==>
              CountClaims(run.history) == CLAIM_RETRY_BLOCKS + 1))
  {
    PrepareCalls(n, depth, amount);
    var ready := Prepare(n, depth, amount);
    hide Prepare, WorthRetrying, Claims;
    if ready.result.Ok? {
      var (txid, hex, proof) := ready.result.value;
      var from := |ready.history|;
      ClaimsAnyNodes(n, ready.history, hex, proof, 0, from);
      var h := Claims(n, ready.history, hex, proof, 0).history;
      ClaimsExtend(n, ready.history, hex, proof, 0);
      assert h[..from] == ready.history;
      CountInRetries(n, h, from, hex, proof);
    }
  }

  lemma {:induction false} ClaimsExtend(n: Nodes, h: seq<Action>, hex: Text, proof: Text, attempt: nat)
    requires attempt <= CLAIM_RETRY_BLOCKS
    ensures h <= Claims(n, h, hex, proof, attempt).history
    decreases CLAIM_RETRY_BLOCKS - attempt
  {
    hide WorthRetrying;
    if attempt < CLAIM_RETRY_BLOCKS {
      var mined := if attempt > 0 then h + [Mine(1)] else h;
      ClaimsExtend(n, mined + [Claim(hex, proof)], hex, proof, attempt + 1);
    }
  }

  // ---------------------------------------------------------------------------------------------
  // What a successful run did

  /** The calls up to the first claim: the deposit of `amount` to the peg-in address, its first block, the
      further blocks to the reported depth, and the two questions about it. */
  function Readied(depth: nat, amount: nat, address: Text, txid: Text): seq<Action> {
    [GetPegInAddress, Send(address, amount), NewAddress, Mine(1), NewAddress] +
    (if depth > 1 then [Mine(depth - 1)] else []) +
    [GetTransaction(txid), GetProof(txid)]
  }

  /** The nodes answered these calls: with the address and id that the calls are about, with a deposit of
      enough confirmations, and with its proof. */
  predicate Prepared(
      n: Nodes, h: seq<Action>, depth: nat, amount: nat, address: Text, txid: Text, d: Deposit, proof: Text)
  {
    && h == Readied(depth, amount, address, txid)
    && n.pegInAddress(h[..1]) == Ok(address) && n.send(h[..2]) == Ok(txid)
    && n.newAddress(h[..3]).Ok? && n.mine(h[..4]).None? && n.newAddress(h[..5]).Ok?
    && (depth > 1 ==> n.mine(h[..6]).None?)
    && n.transaction(h[..|h| - 1]) == Ok(d) && d.confirmations >= depth && n.proof(h) == Ok(proof)
  }

  lemma PrepareIs(n: Nodes, depth: nat, amount: nat, address: Text, txid: Text, d: Deposit, proof: Text)
    requires Prepared(n, Readied(depth, amount, address, txid), depth, amount, address, txid, d, proof)
    ensures Prepare(n, depth, amount) == Run(Readied(depth, amount, address, txid), Ok((txid, d.hex, proof)))
  {
    var h := Readied(depth, amount, address, txid);
    var k := |h| - 2;
    assert h[..1] == [GetPegInAddress];
    assert h[..2] == h[..1] + [Send(address, amount)] && h[..3] == h[..2] + [NewAddress];
    assert h[..4] == h[..3] + [Mine(1)] && h[..5] == h[..4] + [NewAddress];
    assert depth > 1 ==> h[..6] == h[..5] + [Mine(depth - 1)];
    assert h[..k + 1] == h[..k] + [GetTransaction(txid)] && h == h[..k + 1] + [GetProof(txid)];
    hide Readied;
    assert Faucet(n, h[..1], address, amount) == Run(h[..4], Ok(txid));
    assert FetchMaturedDeposit(n, h[..k], depth, txid) == Run(h, Ok((d.hex, proof)));
    hide FetchMaturedDeposit, Faucet;
    assert Mature(n, h[..4], depth, txid) == Run(h, Ok((d.hex, proof)));
  }

  lemma PrepareOk(n: Nodes, depth: nat, amount: nat) returns (address: Text, d: Deposit)
    requires Prepare(n, depth, amount).result.Ok?
    ensures var ready := Prepare(n, depth, amount);
      && ready.result.value.1 == d.hex
      && Prepared(n, ready.history, depth, amount, address, ready.result.value.0, d, ready.result.value.2)
  {
    var ready := Prepare(n, depth, amount);
    var txid, proof := ready.result.value.0, ready.result.value.2;
    address := n.pegInAddress([GetPegInAddress]).value;
    var h := Readied(depth, amount, address, txid);
    var k := |h| - 2;
    assert h[..1] == [GetPegInAddress];
    assert h[..2] == h[..1] + [Send(address, amount)] && h[..3] == h[..2] + [NewAddress];
    assert h[..4] == h[..3] + [Mine(1)] && h[..5] == h[..4] + [NewAddress];
    assert depth > 1 ==> h[..6] == h[..5] + [Mine(depth - 1)];
    assert h[..k + 1] == h[..k] + [GetTransaction(txid)] && h == h[..k + 1] + [GetProof(txid)];
    d := n.transaction(h[..k + 1]).value;
  }

  /** The claims in `h` from `from` on: at most 21, a block before each but the first, each refused as
      immature but the last, which is answered with the claim's id. */
  predicate ClaimedWell(n: Nodes, h: seq<Action>, from: nat, hex: Text, proof: Text, claimTxid: Text) {
    && RetriesWell(n, h, from, hex, proof) && from < |h| <= from + 2 * CLAIM_RETRY_BLOCKS + 1
    && (forall k | from <= k < |h| && h[k].Mine? :: n.mine(h[..k + 1]).None?)
    && h[|h| - 1] == Claim(hex, proof) && n.claim(h) == Ok(claimTxid)
  }

  /** The claims have come as far as `g`, and attempt `attempt` is next. */
  predicate ComesTo(n: Nodes, g: seq<Action>, from: nat, hex: Text, proof: Text, attempt: nat) {
    && attempt <= CLAIM_RETRY_BLOCKS && RetriesWell(n, g, from, hex, proof)
    && |g| == from + (if attempt == 0 then 0 else 2 * attempt - 1)
    && (attempt > 0 ==> Refused(n, g, |g| - 1))
    && forall k | from <= k < |g| && g[k].Mine? :: n.mine(g[..k + 1]).None?
  }

  /** The calls of attempt `attempt`, up to the mining and up to the claim. */
  function Mined(g: seq<Action>, attempt: nat): seq<Action> { if attempt > 0 then g + [Mine(1)] else g }

  function Claimed(g: seq<Action>, hex: Text, proof: Text, attempt: nat): seq<Action> {
    Mined(g, attempt) + [Claim(hex, proof)]
  }

  /** A run that claimed well and has come to `g` goes on with this attempt. */
  lemma NextClaim(
      n: Nodes, g: seq<Action>, hex: Text, proof: Text, attempt: nat, from: nat, h: seq<Action>, claimTxid: Text)
    requires ComesTo(n, g, from, hex, proof, attempt)
    requires g <= h && ClaimedWell(n, h, from, hex, proof, claimTxid)
    ensures attempt > 0 ==> n.mine(Mined(g, attempt)).None?
    ensures Claimed(g, hex, proof, attempt) <= h
    ensures Claimed(g, hex, proof, attempt) != h ==>
      attempt < CLAIM_RETRY_BLOCKS && Refused(n, h, |Claimed(g, hex, proof, attempt)| - 1)
  {
    hide WorthRetrying;
    assert attempt > 0 ==> g[..|g| - 1 + 1] == g;
    assert |g| == |h| ==> g == h;
    var mined := Mined(g, attempt);
    if attempt > 0 {
      assert h[|g|] == Mine(1);
      assert h[..|g| + 1] == mined;
    }
    assert |mined| < |h| && h[|mined|] == Claim(hex, proof);
    assert h[..|mined| + 1] == Claimed(g, hex, proof, attempt);
  }

  /** After an attempt that is refused as immature the next one follows. */
  lemma ComesOn(n: Nodes, g: seq<Action>, hex: Text, proof: Text, attempt: nat, from: nat)
    requires ComesTo(n, g, from, hex, proof, attempt)
    requires attempt > 0 ==> n.mine(Mined(g, attempt)).None?
    ensures var claimed := Claimed(g, hex, proof, attempt);
      && RetriesWell(n, claimed, from, hex, proof)
      && (forall k | from <= k < |claimed| && claimed[k].Mine? :: n.mine(claimed[..k + 1]).None?)
      && |claimed| == from + 2 * attempt + 1 && claimed[..|claimed|] == claimed
  {
    hide WorthRetrying;
    var mined, claimed := Mined(g, attempt), Claimed(g, hex, proof, attempt);
    if attempt > 0 {
      ExtendRetries(n, g, from, hex, proof, Mine(1));
    }
    ExtendRetries(n, mined, from, hex, proof, Claim(hex, proof));
    forall k | from <= k < |claimed| && claimed[k].Mine? ensures n.mine(claimed[..k + 1]).None? {
      if k < |g| {
        assert claimed[..k + 1] == g[..k + 1];
      } else {
        assert claimed[..k + 1] == mined;
      }
    }
  }

  lemma {:induction false} ClaimsIff(
      n: Nodes, g: seq<Action>, hex: Text, proof: Text, attempt: nat, from: nat, h: seq<Action>, claimTxid: Text)
    requires ComesTo(n, g, from, hex, proof, attempt)
    ensures Claims(n, g, hex, proof, attempt) == Run(h, Ok(claimTxid)) <==>
      g <= h && ClaimedWell(n, h, from, hex, proof, claimTxid)
    decreases CLAIM_RETRY_BLOCKS - attempt
  {
    ClaimsUnfold(n, g, hex, proof, attempt);
    var claimed := Claimed(g, hex, proof, attempt);
    hide WorthRetrying, Claims, RetriesWell;
    if g <= h && ClaimedWell(n, h, from, hex, proof, claimTxid) {
      NextClaim(n, g, hex, proof, attempt, from, h, claimTxid);
      assert claimed != h ==> h[..|claimed| - 1 + 1] == claimed;
    }
    if !(attempt > 0 && n.mine(Mined(g, attempt)).Some?) {
      ComesOn(n, g, hex, proof, attempt, from);
      if n.claim(claimed).Err? && WorthRetrying(n.claim(claimed).error) && attempt < CLAIM_RETRY_BLOCKS {
        ClaimsIff(n, claimed, hex, proof, attempt + 1, from, h, claimTxid);
      }
    }
  }

  /** A run succeeds, with this history and this result, exactly when: it deposited `amount` to the address
      that the node had given, mined to the reported depth, asked for the transaction and the proof of that
      deposit, and claimed them until the claim was answered with the id of the result. */
  predicate PegsIn(
      n: Nodes, h: seq<Action>, depth: nat, amount: nat, r: PegIn, address: Text, d: Deposit, proof: Text)
  {
    var from := |Readied(depth, amount, address, r.mainchainTxid)|;
    && from <= |h| && Prepared(n, h[..from], depth, amount, address, r.mainchainTxid, d, proof)
    && ClaimedWell(n, h, from, d.hex, proof, r.claimTxid) && r.amount == amount
  }

  lemma CompleteIff(n: Nodes, depth: nat, amount: nat, h: seq<Action>, r: PegIn)
    ensures Complete(n, depth, amount) == Run(h, Ok(r)) <==>
      exists address, d, proof :: PegsIn(n, h, depth, amount, r, address, d, proof)
  {
    var ready := Prepare(n, depth, amount);
    if Complete(n, depth, amount) == Run(h, Ok(r)) {
      var address, d := PrepareOk(n, depth, amount);
      var (txid, hex, proof) := ready.result.value;
      var from := |ready.history|;
      ClaimsIff(n, ready.history, hex, proof, 0, from, h, r.claimTxid);
      hide Prepare, Claims, ClaimedWell, Prepared;
      assert h[..from] == ready.history;
      assert PegsIn(n, h, depth, amount, r, address, d, proof);
    }
    if address, d, proof :| PegsIn(n, h, depth, amount, r, address, d, proof) {
      var from := |Readied(depth, amount, address, r.mainchainTxid)|;
      assert h[..from] == Readied(depth, amount, address, r.mainchainTxid);
      PrepareIs(n, depth, amount, address, r.mainchainTxid, d, proof);
      ClaimsIff(n, h[..from], d.hex, proof, 0, from, h, r.claimTxid);
    }
  }

  lemma ReadiedCalls(depth: nat, amount: nat, address: Text, txid: Text)
    ensures var g := Readied(depth, amount, address, txid);
      && |g| > 4 && g[1] == Send(address, amount)
      && g[|g| - 2] == GetTransaction(txid) && g[|g| - 1] == GetProof(txid)
      && (forall k | 0 <= k < |g| :: !g[k].Claim?)
      && (forall k | 0 <= k < |g| :: g[k].Send? <==> k == 1)
      && (forall k | 0 <= k < |g| :: g[k].GetTransaction? <==> k == |g| - 2)
      && (forall k | 0 <= k < |g| :: g[k].GetProof? <==> k == |g| - 1)
  {
  }

  /** In particular the one deposit is of the asked amount, to the node's own address; what is asked for and
      claimed is that deposit and nothing else; and the result names it and the last answer. */
  predicate IsAboutDeposit(
      n: Nodes, h: seq<Action>, depth: nat, amount: nat, r: PegIn, address: Text, d: Deposit, proof: Text)
  {
    && |h| > 2 && n.pegInAddress(h[..1]) == Ok(address) && n.send(h[..2]) == Ok(r.mainchainTxid)
    && (forall k | 0 <= k < |h| :: h[k].Send? <==> k == 1) && h[1] == Send(address, amount)
    && (forall k | 0 <= k < |h| && h[k].GetTransaction? ::
        h[k] == GetTransaction(r.mainchainTxid) && n.transaction(h[..k + 1]) == Ok(d) && d.confirmations >= depth)
    && (forall k | 0 <= k < |h| && h[k].GetProof? ::
        h[k] == GetProof(r.mainchainTxid) && n.proof(h[..k + 1]) == Ok(proof))
    && (forall k | 0 <= k < |h| && h[k].Claim? :: h[k] == Claim(d.hex, proof))
    && h[|h| - 1].Claim? && n.claim(h) == Ok(r.claimTxid) && r.amount == amount
  }

  lemma OnlyItsDeposit(n: Nodes, depth: nat, amount: nat) returns (address: Text, d: Deposit, proof: Text)
    requires Complete(n, depth, amount).result.Ok?
    ensures var run := Complete(n, depth, amount);
      IsAboutDeposit(n, run.history, depth, amount, run.result.value, address, d, proof)
  {
    hide Complete, PegsIn, IsAboutDeposit;
    var h, r := Complete(n, depth, amount).history, Complete(n, depth, amount).result.value;
    CompleteIff(n, depth, amount, h, r);
    address, d, proof :| PegsIn(n, h, depth, amount, r, address, d, proof);
    PegsInMeans(n, h, depth, amount, r, address, d, proof);
  }

  lemma PegsInMeans(
      n: Nodes, h: seq<Action>, depth: nat, amount: nat, r: PegIn, address: Text, d: Deposit, proof: Text)
    requires PegsIn(n, h, depth, amount, r, address, d, proof)
    ensures IsAboutDeposit(n, h, depth, amount, r, address, d, proof)
  {
    var g := Readied(depth, amount, address, r.mainchainTxid);
    ReadiedCalls(depth, amount, address, r.mainchainTxid);
    assert h[..|g|] == g && g[..|g|] == g;
    assert g[..1] == h[..1] && g[..2] == h[..2] && g[..|g| - 1] == h[..|g| - 1];
    hide Readied, Refused;
    assert forall k | 0 <= k < |g| :: h[k] == g[k];
    assert forall k | |g| <= k < |h| :: h[k] == Claim(d.hex, proof) || h[k] == Mine(1);
  }

  /** When the mining of the deposit's first block fails, the error names the deposit; when it is found with
      too few confirmations, how many it has and needs. */
  lemma DepositIsNamed(n: Nodes, depth: nat, amount: nat)
    ensures var h, result := Complete(n, depth, amount).history, Complete(n, depth, amount).result;
      && (|h| in {3, 4} ==>
          n.send(h[..2]).Ok? && result == Err(PostTransactionMiningFailed(n.send(h[..2]).value)))
      && (|h| > 4 && h[|h| - 1].GetTransaction? && n.transaction(h).Ok? ==>
          result == Err(PegInImmature(n.transaction(h).value.confirmations, depth)))
  {
    hide Claims, Faucet, Mature, FetchMaturedDeposit;
    var ready := Prepare(n, depth, amount);
    var asked := [GetPegInAddress];
    if ready.result.Ok? {
      ClaimsExtend(n, ready.history, ready.result.value.1, ready.result.value.2, 0);
      ClaimsLast(n, ready.history, ready.result.value.1, ready.result.value.2, 0);
      FaucetNames(n, asked, n.pegInAddress(asked).value, amount);
      MatureNames(n, Faucet(n, asked, n.pegInAddress(asked).value, amount).history, depth, ready.result.value.0);
    } else if n.pegInAddress(asked).Ok? {
      var funded := Faucet(n, asked, n.pegInAddress(asked).value, amount);
      FaucetNames(n, asked, n.pegInAddress(asked).value, amount);
      if funded.result.Ok? {
        MatureNames(n, funded.history, depth, funded.result.value);
      }
    }
  }

  lemma FaucetNames(n: Nodes, h: seq<Action>, address: Text, amount: nat)
    ensures var run := Faucet(n, h, address, amount);
      && |run.history| > |h| && (run.result.Ok? ==> |run.history| == |h| + 3)
      && !run.history[|run.history| - 1].GetTransaction?
      && (run.result.Err? && |run.history| > |h| + 1 ==>
          n.send(run.history[..|h| + 1]).Ok? &&
          run.result == Err(PostTransactionMiningFailed(n.send(run.history[..|h| + 1]).value)))
  {
    var run, sent := Faucet(n, h, address, amount), h + [Send(address, amount)];
    assert run.history[..|sent|] == sent;
  }

  lemma MatureNames(n: Nodes, h: seq<Action>, depth: nat, txid: Text)
    ensures var run := Mature(n, h, depth, txid);
      && |run.history| > |h|
      && (run.result.Err? && run.history[|run.history| - 1].GetTransaction? && n.transaction(run.history).Ok? ==>
          run.result == Err(PegInImmature(n.transaction(run.history).value.confirmations, depth)))
  {
  }

  lemma {:induction false} ClaimsLast(n: Nodes, h: seq<Action>, hex: Text, proof: Text, attempt: nat)
    requires attempt <= CLAIM_RETRY_BLOCKS
    ensures var run := Claims(n, h, hex, proof, attempt);
      run.history != [] && (run.history[|run.history| - 1].Claim? || run.history[|run.history| - 1].Mine?)
    decreases CLAIM_RETRY_BLOCKS - attempt
  {
    hide WorthRetrying;
    if attempt < CLAIM_RETRY_BLOCKS {
      ClaimsLast(n, Claimed(h, hex, proof, attempt), hex, proof, attempt + 1);
    }
  }

  // ---------------------------------------------------------------------------------------------
  // Faithful nodes

  /** The Bitcoin node counts the deposit's confirmations right and no call fails, except that the
      sidechain accepts the claim from `accepted` confirmations on and refuses it as immature before. */
  ghost predicate Faithful(n: Nodes, accepted: nat) {
    && (forall h :: n.pegInAddress(h).Ok? && n.send(h).Ok? && n.newAddress(h).Ok? && n.mine(h).None?)
    && (forall h :: n.transaction(h).Ok? && n.transaction(h).value.confirmations == Confirmations(h))
    && (forall h :: n.proof(h).Ok?)
    && (forall h :: if Confirmations(h) >= accepted then n.claim(h).Ok? else n.claim(h) == Err(Immature()))
  }

  function Immature(): NigiriError {
    RpcFailed("claimpegin", -8, "Peg-in Bitcoin transaction needs more confirmations to be sent.")
  }

  /** Calls of faithful nodes that do not fail. */
  lemma Answers(n: Nodes, accepted: nat, h: seq<Action>)
    requires Faithful(n, accepted)
    ensures n.pegInAddress(h).Ok? && n.send(h).Ok? && n.newAddress(h).Ok? && n.mine(h).None? && n.proof(h).Ok?
    ensures n.transaction(h).Ok? && n.transaction(h).value.confirmations == Confirmations(h)
  {
    hide Confirmations;
  }

  lemma FaucetFaithful(n: Nodes, h: seq<Action>, address: Text, amount: nat, accepted: nat)
    requires Faithful(n, accepted)
    ensures Faucet(n, h, address, amount).result.Ok?
  {
    hide Faithful;
    var sent := h + [Send(address, amount)];
    Answers(n, accepted, sent);
    Answers(n, accepted, sent + [NewAddress]);
    Answers(n, accepted, sent + [NewAddress] + [Mine(1)]);
  }

  lemma FetchFaithful(n: Nodes, h: seq<Action>, depth: nat, txid: Text, accepted: nat)
    requires Faithful(n, accepted) && Confirmations(h) >= depth
    ensures FetchMaturedDeposit(n, h, depth, txid).result.Ok?
  {
    hide Faithful, Confirmations;
    var got := h + [GetTransaction(txid)];
    Snoc(h, GetTransaction(txid));
    Answers(n, accepted, got);
    Answers(n, accepted, got + [GetProof(txid)]);
  }

  lemma MatureFaithful(n: Nodes, h: seq<Action>, depth: nat, txid: Text, accepted: nat)
    requires Faithful(n, accepted) && Confirmations(h) == 1
    ensures Mature(n, h, depth, txid).result.Ok?
  {
    hide Confirmations, Faithful, FetchMaturedDeposit;
    var asked := h + [NewAddress];
    Snoc(h, NewAddress);
    Answers(n, accepted, asked);
    var remaining := if depth > 1 then depth - 1 else 0;
    Snoc(asked, Mine(remaining));
    Answers(n, accepted, asked + [Mine(remaining)]);
    FetchFaithful(n, if remaining > 0 then asked + [Mine(remaining)] else asked, depth, txid, accepted);
  }

  lemma PrepareFaithful(n: Nodes, depth: nat, amount: nat, accepted: nat)
    requires Faithful(n, accepted)
    ensures Prepare(n, depth, amount).result.Ok?
  {
    FirstCall();
    hide CountSends, CountClaims, Confirmations, Faithful, Faucet, Mature;
    var h := [GetPegInAddress];
    Answers(n, accepted, h);
    FaucetCalls(n, h, n.pegInAddress(h).value, amount);
    FaucetFaithful(n, h, n.pegInAddress(h).value, amount, accepted);
    var funded := Faucet(n, h, n.pegInAddress(h).value, amount);
    MatureFaithful(n, funded.history, depth, funded.result.value, accepted);
  }

  /** Of the errors of a node only the immature refusal is retried. */
  lemma RetriedIsImmature(e: NigiriError)
    requires !e.PegInImmature?
    ensures WorthRetrying(e) <==> e == Immature()
  {
    MessageIs();
    hide IMMATURE_MESSAGE;
  }

  lemma MessageIs()
    ensures IMMATURE_MESSAGE == "Peg-in Bitcoin transaction needs more confirmations to be sent."
  {
  }

  lemma {:induction false} ClaimsFaithful(
      n: Nodes, h: seq<Action>, hex: Text, proof: Text, attempt: nat, accepted: nat, base: nat)
    requires attempt <= CLAIM_RETRY_BLOCKS && Faithful(n, accepted)
    requires Confirmations(h) == base + (if attempt == 0 then 0 else attempt - 1) && CountClaims(h) == attempt
    requires attempt > 0 ==> base + attempt - 1 < accepted
    ensures var run := Claims(n, h, hex, proof, attempt);
      && (run.result.Ok? <==> accepted <= base + CLAIM_RETRY_BLOCKS)
      && (run.result.Err? ==> run.result.error == Immature())
      && Confirmations(run.history) == Max(base, if run.result.Ok? then accepted else base + CLAIM_RETRY_BLOCKS)
      && CountClaims(run.history) == Confirmations(run.history) - base + 1
    decreases CLAIM_RETRY_BLOCKS - attempt
  {
    hide WorthRetrying, CountSends, CountClaims, Confirmations, Immature, Faithful, Claims;
    var mined := if attempt > 0 then h + [Mine(1)] else h;
    Snoc(h, Mine(1));
    var claimed := mined + [Claim(hex, proof)];
    Snoc(mined, Claim(hex, proof));
    assert Confirmations(claimed) == base + attempt;
    ClaimsStep(n, h, hex, proof, attempt, accepted);
    if base + attempt < accepted && attempt < CLAIM_RETRY_BLOCKS {
      ClaimsFaithful(n, claimed, hex, proof, attempt + 1, accepted, base);
    }
  }

  /** One attempt on faithful nodes. */
  lemma ClaimsStep(n: Nodes, h: seq<Action>, hex: Text, proof: Text, attempt: nat, accepted: nat)
    requires attempt <= CLAIM_RETRY_BLOCKS && Faithful(n, accepted)
    ensures var claimed := (if attempt > 0 then h + [Mine(1)] else h) + [Claim(hex, proof)];
      var run := Claims(n, h, hex, proof, attempt);
      && (Confirmations(claimed) >= accepted ==> run.history == claimed && run.result.Ok?)
      && (Confirmations(claimed) < accepted ==>
          run == if attempt < CLAIM_RETRY_BLOCKS then Claims(n, claimed, hex, proof, attempt + 1)
                 else Run(claimed, Err(Immature())))
  {
    RetriedIsImmature(Immature());
    hide WorthRetrying, Confirmations, Immature;
  }

  /** On faithful nodes, with T the confirmations from which the sidechain accepts: the peg-in succeeds
      exactly when T is at most max(1, depth) + 20; it mines exactly max(0, T - max(1, depth)) blocks
      beyond the depth, and submits one claim more than that; otherwise it stops after 21 claims with
      the last refusal. It deposits exactly once, and the fetch never finds the deposit immature. */
  lemma FaithfulPegIn(n: Nodes, depth: nat, amount: nat, accepted: nat)
    requires Faithful(n, accepted)
    ensures var run, base := Complete(n, depth, amount), Max(1, depth);
      && (run.result.Ok? <==> accepted <= base + CLAIM_RETRY_BLOCKS)
      && (run.result.Ok? ==> Confirmations(run.history) == base + Max(0, accepted - base))
      && (run.result.Ok? ==> CountClaims(run.history) == 1 + Max(0, accepted - base))
      && (run.result.Err? ==> run.result.error == Immature() && CountClaims(run.history) == 21)
      && (run.result.Err? ==> Confirmations(run.history) == base + CLAIM_RETRY_BLOCKS)
      && CountSends(run.history) == 1
  {
    PrepareFaithful(n, depth, amount, accepted);
    PrepareCalls(n, depth, amount);
    var ready := Prepare(n, depth, amount);
    hide Prepare, Claims;
    var (txid, hex, proof) := ready.result.value;
    ClaimsFaithful(n, ready.history, hex, proof, 0, accepted, Max(1, depth));
    ClaimsAnyNodes(n, ready.history, hex, proof, 0, |ready.history|);
  }
}
