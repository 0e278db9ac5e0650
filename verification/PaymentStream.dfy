/** Paying an invoice and following the stream of payment updates to one verdict. */
module PaymentStream {
  import opened Decimal
  import opened Hex
  import opened Options
  import opened Rpc
  import opened Utf8

  // ---------------------------------------------------------------------------------------------
  // Updates

  /** A payment message. `rest` stands for the fields that are only compared, never read: two updates
      have the same wire form exactly when they are equal. */
  datatype Payment = Payment(
    paymentHash: Text, valueMsat: int, feeMsat: int, status: int, preimage: Text, failureReason: int, rest: Text)

  datatype PaymentState = InFlight | Succeeded | Failed | Unknown(code: int)

  datatype PaymentRecord = PaymentRecord(
    paymentHash: Bytes, preimage: Option<Bytes>, value: nat, fee: nat, state: PaymentState)

  /** What ends a stream: LND closes it, or waiting for the next update fails. */
  datatype Stop = End | Failure(cause: Rpc.Failure)

  /** The arguments of one use of the stream. `sha256` is the hash function. */
  datatype Expectation = Expectation(
    operation: Text, hash: Bytes, amount: Option<nat>, uncertainFromStart: bool, sha256: Bytes -> Bytes)

  function StateOf(status: int): PaymentState {
    if status == 1 || status == 4 then InFlight
    else if status == 2 then Succeeded
    else if status == 3 then Failed
    else Unknown(status)
  }

  /** The conversion of one message. */
  function Convert(sha256: Bytes -> Bytes, p: Payment): Result<PaymentRecord, LndError> {
    match ParseHex(p.paymentHash)
    case None => Err(InvalidResponse("payment", PaymentHashMalformed, None))
    case Some(hash) =>
      var id := Some(LowercaseHex(hash));
      var preimage := ParseHex(p.preimage);
      if p.valueMsat < 0 || p.feeMsat < 0 then Err(InvalidResponse("payment", AmountNegative, id))
      else if p.preimage != "" && preimage.None? then Err(InvalidResponse("payment", PreimageMalformed, id))
      else if StateOf(p.status).Succeeded? && preimage.None? then
        Err(InvalidResponse("payment", PreimageMissing, id))
      else if StateOf(p.status).Succeeded? && sha256(preimage.value) != hash then
        Err(InvalidResponse("payment", PreimageProvesNothing, id))
      else
        Ok(PaymentRecord(hash, preimage, p.valueMsat, p.feeMsat, StateOf(p.status)))
  }

  /** One update as the stream accepts it: converted, for the expected hash and amount. */
  function Judge(ex: Expectation, p: Payment): Result<PaymentRecord, LndError> {
    match Convert(ex.sha256, p)
    case Err(e) => Err(WithIdentifier(e, ex.hash))
    case Ok(record) =>
      if record.paymentHash != ex.hash then Err(Invalid(ex, UpdateHashMismatch))
      else if ex.amount.Some? && record.value != ex.amount.value then Err(Invalid(ex, UpdateAmountMismatch))
      else Ok(record)
  }

  function WithIdentifier(e: LndError, hash: Bytes): LndError {
    match e
    case InvalidResponse(operation, detail, None) => InvalidResponse(operation, detail, Some(LowercaseHex(hash)))
    case _ => e
  }

  function Invalid(ex: Expectation, detail: Detail): LndError {
    InvalidResponse(ex.operation, detail, Some(LowercaseHex(ex.hash)))
  }

  /** `payment_failure_reason`. The text is far below the bound on error texts, so it is never cut. */
  function FailureReason(code: int): (reason: Text)
    requires -0x8000_0000 <= code < 0x8000_0000
    ensures |reason| <= 34
  {
    if code == 0 then "failure reason not reported"
    else if code == 1 then "payment timeout"
    else if code == 2 then "no route"
    else if code == 3 then "payment error"
    else if code == 4 then "incorrect payment details"
    else if code == 5 then "insufficient balance"
    else if code == 6 then "payment canceled"
    else
      assert Pow10(9) == 10 * Pow10(8) && Pow10(8) == 10 * Pow10(7) && Pow10(7) == 10 * Pow10(6) &&
             Pow10(6) == 10 * Pow10(5) && Pow10(5) == 10 * Pow10(4) && Pow10(4) == 10 * Pow10(3);
      DigitsAtMost(if code < 0 then -code else code, 10);
      "unknown failure reason " + Signed(code)
  }

  predicate IsInt32(v: int) { -0x8000_0000 <= v < 0x8000_0000 }

  predicate InRange(p: Payment) { IsInt32(p.failureReason) }

  predicate AllInRange(updates: seq<Payment>) { forall u | u in updates :: InRange(u) }

  // ---------------------------------------------------------------------------------------------
  // The language of traces

  predicate Nonterminal(ex: Expectation, p: Payment) {
    var j := Judge(ex, p);
    j.Ok? && !j.value.state.Succeeded? && !j.value.state.Failed?
  }

  predicate Terminal(ex: Expectation, p: Payment) {
    var j := Judge(ex, p);
    j.Ok? && (j.value.state.Succeeded? || j.value.state.Failed?)
  }

  /** The forms a trace can take: nothing but nonterminal updates; nonterminal updates and then, from
      `i` on, one terminal update repeated; a refused update `i` after nonterminal ones; or, after
      a terminal update at `i` and its repetitions, a different update `j`. What follows a refused
      or a different update is never read. */
  datatype Shape = Open | Settled(i: nat) | Early(i: nat) | Late(i: nat, j: nat)

  predicate Pending(ex: Expectation, updates: seq<Payment>, i: nat) {
    i <= |updates| && forall k | 0 <= k < i :: Nonterminal(ex, updates[k])
  }

  predicate Repeats(updates: seq<Payment>, i: nat, j: nat) {
    i < j <= |updates| && forall k | i <= k < j :: updates[k] == updates[i]
  }

  predicate HasShape(ex: Expectation, updates: seq<Payment>, shape: Shape) {
    match shape
    case Open => Pending(ex, updates, |updates|)
    case Settled(i) => Repeats(updates, i, |updates|) && Terminal(ex, updates[i]) && Pending(ex, updates, i)
    case Early(i) => i < |updates| && Judge(ex, updates[i]).Err? && Pending(ex, updates, i)
    case Late(i, j) =>
      && Repeats(updates, i, j) && Terminal(ex, updates[i]) && Pending(ex, updates, i)
      && j < |updates| && updates[j] != updates[i]
  }

  /** The result a terminal update stands for. */
  function Outcome(ex: Expectation, t: Payment): Result<PaymentRecord, LndError>
    requires Terminal(ex, t) && InRange(t)
  {
    var record := Judge(ex, t).value;
    if record.state.Succeeded? then Ok(record)
    else Err(PaymentFailed(record.paymentHash, FailureReason(t.failureReason)))
  }

  /** Why an update that comes after a terminal one and differs from it is refused. */
  function Contradiction(ex: Expectation, u: Payment): LndError {
    var j := Judge(ex, u);
    if j.Err? then j.error
    else if Terminal(ex, u) then Invalid(ex, ContradictoryTerminals)
    else Invalid(ex, ReturnedToNonterminal)
  }

  function Unfinished(ex: Expectation, seen: bool, stop: Stop): LndError {
    match stop
    case End => Invalid(ex, StreamEndedBeforeTerminal)
    case Failure(cause) =>
      if seen || ex.uncertainFromStart then OutcomeUnknown(ex.operation, Some(LowercaseHex(ex.hash)))
      else RequestError(ex.operation, cause)
  }

  function Answer(ex: Expectation, updates: seq<Payment>, stop: Stop, shape: Shape): Result<PaymentRecord, LndError>
    requires AllInRange(updates) && HasShape(ex, updates, shape)
  {
    match shape
    case Open => Err(Unfinished(ex, updates != [], stop))
    case Settled(i) => Outcome(ex, updates[i])
    case Early(i) => Err(Judge(ex, updates[i]).error)
    case Late(i, j) => Err(Contradiction(ex, updates[j]))
  }

  /** The shape of a trace; `ShapeUnique` says that there is no other. */
  function ShapeOf(ex: Expectation, updates: seq<Payment>): (shape: Shape)
    ensures HasShape(ex, updates, shape)
  {
    hide Judge;
    if updates == [] then Open
    else
      var n := |updates| - 1;
      var u := updates[n];
      match ShapeOf(ex, updates[..n])
      case Open =>
        if Nonterminal(ex, u) then Open else if Terminal(ex, u) then Settled(n) else Early(n)
      case Settled(i) => if u == updates[i] then Settled(i) else Late(i, n)
      case Early(i) => Early(i)
      case Late(i, j) => Late(i, j)
  }

  function Verdict(ex: Expectation, updates: seq<Payment>, stop: Stop): Result<PaymentRecord, LndError>
    requires AllInRange(updates)
  {
    Answer(ex, updates, stop, ShapeOf(ex, updates))
  }

  /** A trace has one shape only. */
  lemma ShapeUnique(ex: Expectation, updates: seq<Payment>, a: Shape, b: Shape)
    requires HasShape(ex, updates, a) && HasShape(ex, updates, b)
    ensures a == b
  {
    hide Judge;
    if a != Open && b != Open {
      assert a.i == b.i by {
        assert !Nonterminal(ex, updates[a.i]) && !Nonterminal(ex, updates[b.i]);
      }
    }
  }

  /** What the trace's first part decides, the rest cannot change. */
  lemma Decided(ex: Expectation, updates: seq<Payment>, stop: Stop, shape: Shape)
    requires AllInRange(updates) && HasShape(ex, updates, shape)
    ensures Verdict(ex, updates, stop) == Answer(ex, updates, stop, shape)
  {
    ShapeUnique(ex, updates, shape, ShapeOf(ex, updates));
  }

  // ---------------------------------------------------------------------------------------------
  // The stream loop

  lemma JudgeIs(ex: Expectation, u: Payment)
    ensures var c := Convert(ex.sha256, u);
      && (c.Err? ==> Judge(ex, u) == Err(WithIdentifier(c.error, ex.hash)))
      && (c.Ok? && c.value.paymentHash != ex.hash ==> Judge(ex, u) == Err(Invalid(ex, UpdateHashMismatch)))
      && (c.Ok? && c.value.paymentHash == ex.hash && ex.amount.Some? && c.value.value != ex.amount.value ==>
          Judge(ex, u) == Err(Invalid(ex, UpdateAmountMismatch)))
      && (c.Ok? && c.value.paymentHash == ex.hash && (ex.amount.None? || c.value.value == ex.amount.value) ==>
          Judge(ex, u) == c)
  {
  }

  datatype TerminalPayment = TerminalPayment(wire: Payment, result: Result<PaymentRecord, LndError>)

  /** `consume_payment_stream`: the updates are read one at a time, up to the first that decides. */
  method ConsumePaymentStream(ex: Expectation, updates: seq<Payment>, stop: Stop)
    returns (r: Result<PaymentRecord, LndError>)
    requires AllInRange(updates)
    ensures r == Verdict(ex, updates, stop)
  {
    hide Judge, Convert, FailureReason, Invalid, LowercaseHex;
    var observedHash: Option<Bytes> := None;
    var terminal: Option<TerminalPayment> := None;
    ghost var first: nat := 0;
    var next := 0;
    while next < |updates|
      invariant 0 <= next <= |updates|
      invariant observedHash == (if next == 0 then None else Some(ex.hash))
      invariant terminal.None? ==> Pending(ex, updates, next)
      invariant terminal.Some? ==> Repeats(updates, first, next) && Pending(ex, updates, first)
      invariant terminal.Some? ==> Terminal(ex, updates[first]) && InRange(updates[first])
      invariant terminal.Some? ==> terminal.value == TerminalPayment(updates[first], Outcome(ex, updates[first]))
    {
      var update := updates[next];
      assert InRange(update) by { assert update in updates; }
      JudgeIs(ex, update);
      ghost var refusal := if terminal.Some? then Late(first, next) else Early(next);
      assert Judge(ex, update).Err? ==> HasShape(ex, updates, refusal);
      var judged := Convert(ex.sha256, update);
      if judged.Err? {
        Decided(ex, updates, stop, refusal);
        return Err(WithIdentifier(judged.error, ex.hash));
      }
      var record := judged.value;
      if record.paymentHash != ex.hash {
        Decided(ex, updates, stop, refusal);
        return Err(Invalid(ex, UpdateHashMismatch));
      }
      if ex.amount.Some? && record.value != ex.amount.value {
        Decided(ex, updates, stop, refusal);
        return Err(Invalid(ex, UpdateAmountMismatch));
      }
      observedHash := Some(record.paymentHash);
      var nextTerminal := match record.state {
        case Succeeded => Some(TerminalPayment(update, Ok(record)))
        case Failed =>
          Some(TerminalPayment(update, Err(PaymentFailed(record.paymentHash, FailureReason(update.failureReason)))))
        case _ => None
      };
      if terminal.None? && nextTerminal.Some? {
        terminal := nextTerminal;
        first := next;
      } else if terminal.Some? && nextTerminal.Some? && terminal.value.wire == update {
        // The same terminal update again.
      } else if terminal.Some? {
        Decided(ex, updates, stop, refusal);
        return Err(Invalid(ex, if nextTerminal.Some? then ContradictoryTerminals else ReturnedToNonterminal));
      }
      next := next + 1;
    }
    Decided(ex, updates, stop, if terminal.Some? then Settled(first) else Open);
    if terminal.Some? {
      return terminal.value.result;
    }
    match stop
    case End =>
      return Err(Invalid(ex, StreamEndedBeforeTerminal));
    case Failure(cause) =>
      var hash := if observedHash.Some? then observedHash
                  else if ex.uncertainFromStart then Some(ex.hash) else None;
      return Err(if hash.Some? then OutcomeUnknown(ex.operation, Some(LowercaseHex(hash.value)))
                 else RequestError(ex.operation, cause));
  }

  // ---------------------------------------------------------------------------------------------
  // What a verdict means

  /** `Ok` exactly for nonterminal updates followed by one or more identical succeeded updates,
      whatever then ends the stream. */
  lemma OkIff(ex: Expectation, updates: seq<Payment>, stop: Stop, record: PaymentRecord)
    requires AllInRange(updates)
    ensures Verdict(ex, updates, stop) == Ok(record) <==>
      record.state.Succeeded? && exists i: nat ::
        HasShape(ex, updates, Settled(i)) && Judge(ex, updates[i]) == Ok(record)
  {
    hide Judge;
    if i: nat :| HasShape(ex, updates, Settled(i)) && Judge(ex, updates[i]) == Ok(record) {
      Decided(ex, updates, stop, Settled(i));
    }
  }

  /** `PaymentFailed` exactly for the same shape with a failed update, with the reason it gives. */
  lemma PaymentFailedIff(ex: Expectation, updates: seq<Payment>, stop: Stop, hash: Bytes, reason: Text)
    requires AllInRange(updates)
    ensures Verdict(ex, updates, stop) == Err(PaymentFailed(hash, reason)) <==>
      exists i: nat :: HasShape(ex, updates, Settled(i)) && FailedWith(ex, updates[i], hash, reason)
  {
    JudgeErrors(ex, updates);
    hide Judge, FailureReason;
    if i: nat :| HasShape(ex, updates, Settled(i)) && FailedWith(ex, updates[i], hash, reason) {
      Decided(ex, updates, stop, Settled(i));
    }
  }

  predicate FailedWith(ex: Expectation, u: Payment, hash: Bytes, reason: Text) {
    var j := Judge(ex, u);
    j.Ok? && j.value.state.Failed? && hash == ex.hash && InRange(u) && reason == FailureReason(u.failureReason)
  }

  /** An update is refused with an invalid response that names a payment, and accepted only for the
      expected hash. */
  lemma JudgeErrors(ex: Expectation, updates: seq<Payment>)
    ensures forall u | u in updates :: Judge(ex, u).Err? ==>
      Judge(ex, u).error.InvalidResponse? && Judge(ex, u).error.identifier.Some?
    ensures forall u | u in updates :: Judge(ex, u).Ok? ==> Judge(ex, u).value.paymentHash == ex.hash
  {
  }

  /** The outcome is unknown exactly when waiting fails before any terminal update was seen. */
  lemma OutcomeUnknownIff(ex: Expectation, updates: seq<Payment>, stop: Stop)
    requires AllInRange(updates)
    ensures var r := Verdict(ex, updates, stop);
      && (r.Err? && r.error.OutcomeUnknown? <==>
          Pending(ex, updates, |updates|) && stop.Failure? && (updates != [] || ex.uncertainFromStart))
      && (r.Err? && r.error.OutcomeUnknown? ==>
          r.error == OutcomeUnknown(ex.operation, Some(LowercaseHex(ex.hash))))
  {
    JudgeErrors(ex, updates);
    hide Judge, FailureReason;
    if Pending(ex, updates, |updates|) {
      Decided(ex, updates, stop, Open);
    }
  }

  /** Every other verdict is an invalid response that names a payment, unless nothing was read and
      the use was declared certain from the start. */
  lemma OtherwiseInvalid(ex: Expectation, updates: seq<Payment>, stop: Stop)
    requires AllInRange(updates)
    requires ex.uncertainFromStart || updates != [] || stop.End?
    ensures var r := Verdict(ex, updates, stop);
      || r.Ok? || r.error.PaymentFailed? || r.error.OutcomeUnknown?
      || (r.error.InvalidResponse? && r.error.identifier.Some?)
  {
    JudgeErrors(ex, updates);
    hide Judge, FailureReason;
  }

  /** A payment that is reported as made is proved by its preimage, has the expected hash and, where
      an amount was expected, that amount. */
  lemma OkIsProven(ex: Expectation, updates: seq<Payment>, stop: Stop, record: PaymentRecord)
    requires AllInRange(updates) && Verdict(ex, updates, stop) == Ok(record)
    ensures record.state == Succeeded && record.paymentHash == ex.hash
    ensures record.preimage.Some? && ex.sha256(record.preimage.value) == ex.hash
    ensures ex.amount.Some? ==> record.value == ex.amount.value
  {
    OkIff(ex, updates, stop, record);
    var i: nat :| HasShape(ex, updates, Settled(i)) && Judge(ex, updates[i]) == Ok(record);
  }

  // ---------------------------------------------------------------------------------------------
  // Traces with the same verdict

  function Insert(updates: seq<Payment>, k: nat, u: Payment): (w: seq<Payment>)
    requires k <= |updates|
    ensures |w| == |updates| + 1 && w[k] == u
    ensures forall i | 0 <= i < k :: w[i] == updates[i]
    ensures forall i | k < i <= |updates| :: w[i] == updates[i - 1]
    ensures AllInRange(updates) && InRange(u) ==> AllInRange(w)
  {
    updates[..k] + [u] + updates[k..]
  }

  /** The shape after an update at `k` was put in, when it is decided at `k` or later. */
  function Moved(shape: Shape): Shape {
    match shape
    case Open => Open
    case Settled(i) => Settled(i + 1)
    case Early(i) => Early(i + 1)
    case Late(i, j) => Late(i + 1, j + 1)
  }

  /** Further nonterminal updates before the first terminal one change nothing. */
  lemma InsertNonterminal(ex: Expectation, updates: seq<Payment>, k: nat, u: Payment, stop: Stop)
    requires Pending(ex, updates, k) && Nonterminal(ex, u) && InRange(u) && AllInRange(updates)
    requires ex.uncertainFromStart || updates != [] || stop.End?
    ensures Verdict(ex, Insert(updates, k, u), stop) == Verdict(ex, updates, stop)
  {
    hide Judge, Insert, FailureReason;
    var shape, w := ShapeOf(ex, updates), Insert(updates, k, u);
    if shape != Open {
      assert shape.i >= k by {
        assert !Nonterminal(ex, updates[shape.i]);
      }
      forall n | 0 <= n < shape.i + 1 ensures Nonterminal(ex, w[n]) {
        assert w[n] == if n < k then updates[n] else if n == k then u else updates[n - 1];
      }
      assert w[shape.i + 1] == updates[shape.i];
    }
    assert HasShape(ex, w, Moved(shape));
    Decided(ex, w, stop, Moved(shape));
  }

  /** Repeating the terminal update changes nothing. */
  lemma RepeatTerminal(ex: Expectation, updates: seq<Payment>, i: nat, k: nat, stop: Stop)
    requires Pending(ex, updates, i) && Repeats(updates, i, k) && Terminal(ex, updates[i])
    requires AllInRange(updates)
    ensures Verdict(ex, Insert(updates, k, updates[i]), stop) == Verdict(ex, updates, stop)
  {
    hide Judge, Insert, FailureReason;
    var shape, w := ShapeOf(ex, updates), Insert(updates, k, updates[i]);
    assert !Nonterminal(ex, updates[i]);
    assert shape != Open && shape.i == i by {
      assert shape.Settled? || shape.Late? ==> Terminal(ex, updates[shape.i]);
    }
    var moved := if shape.Late? then Late(i, shape.j + 1) else Settled(i);
    if shape.Late? {
      assert shape.j >= k;
      assert w[shape.j + 1] == updates[shape.j];
    }
    assert HasShape(ex, w, moved);
    Decided(ex, w, stop, moved);
  }

  // ---------------------------------------------------------------------------------------------
  // Paying and looking up

  const MAX_INT64: nat := 0x7FFF_FFFF_FFFF_FFFF
  const MAX_INT32: nat := 0x7FFF_FFFF

  datatype Duration = Duration(seconds: nat, nanos: nat)

  /** What of an invoice is used here, and the caller's options. */
  datatype Order = Order(hash: Bytes, amount: Option<nat>, feeLimit: nat, timeout: Duration)

  datatype SendRequest = SendRequest(feeLimitMsat: int, timeoutSeconds: int)

  /** `proto_send_payment_request`. */
  function ToSendRequest(order: Order): Result<SendRequest, LndError> {
    if order.amount.None? then Err(InvalidRequest(InvoiceWithoutAmount))
    else if order.feeLimit > MAX_INT64 then Err(InvalidRequest(FeeLimitTooLarge))
    else if order.timeout.nanos != 0 then Err(InvalidRequest(TimeoutNotWholeSeconds))
    else if order.timeout.seconds == 0 then Err(InvalidRequest(TimeoutZero))
    else if order.timeout.seconds > MAX_INT32 then Err(InvalidRequest(TimeoutTooLarge))
    else Ok(SendRequest(order.feeLimit, order.timeout.seconds))
  }

  function PayExpectation(order: Order, sha256: Bytes -> Bytes): Expectation {
    Expectation("pay invoice", order.hash, order.amount, true, sha256)
  }

  /** `pay_invoice_with`: `fits` says whether the deadline can be represented, `sent` how the request fared,
      and the rest what its stream carries. */
  function PayInvoice(
      order: Order, sha256: Bytes -> Bytes, fits: bool, sent: Reply<()>, updates: seq<Payment>, stop: Stop):
    Result<PaymentRecord, LndError>
    requires AllInRange(updates)
  {
    match ToSendRequest(order)
    case Err(e) => Err(e)
    case Ok(_) =>
      if OperationDeadline(fits).Some? then Err(OperationDeadline(fits).value)
      else
        match BoundedMutatingRequest("pay invoice", Some(LowercaseHex(order.hash)), sent)
        case Err(e) => Err(e)
        case Ok(_) => Verdict(PayExpectation(order, sha256), updates, stop)
  }

  function LookupExpectation(hash: Bytes, sha256: Bytes -> Bytes): Expectation {
    Expectation("lookup payment", hash, None, true, sha256)
  }

  /** `lookup_payment_with`. */
  function LookupPayment(
      hash: Bytes, sha256: Bytes -> Bytes, fits: bool, sent: Reply<()>, updates: seq<Payment>, stop: Stop):
    Result<PaymentRecord, LndError>
    requires AllInRange(updates)
  {
    if OperationDeadline(fits).Some? then Err(OperationDeadline(fits).value)
    else
      match BoundedRequest("lookup payment", sent)
      case Err(Timeout(_)) => Err(OutcomeUnknown("lookup payment", Some(LowercaseHex(hash))))
      case Err(e) => Err(e)
      case Ok(_) => Verdict(LookupExpectation(hash, sha256), updates, stop)
  }

  /** An order that is sent. */
  predicate IsSent(order: Order, fits: bool) { ToSendRequest(order).Ok? && fits }

  /** The request may have been acted on without an answer, or the stream breaks off before it is decided. */
  predicate BreaksOff(ex: Expectation, sent: Reply<()>, updates: seq<Payment>, stop: Stop) {
    match sent
    case Response(_) => stop.Failure? && Pending(ex, updates, |updates|)
    case NoResponse(failure) => failure.DeadlinePassed? || IsAmbiguous(failure.status)
  }

  /** An invalid request is reported exactly when nothing was sent. From then on no failure is a timeout or a
      transport failure: it is a refusal with a definitive code, a proved failure, an invalid response or an
      unknown outcome, the last two with the payment hash for a later lookup. The outcome is unknown exactly
      when the request may have been acted on without an answer, or when the stream breaks off before any
      terminal update. */
  lemma PayInvoiceErrors(
      order: Order, sha256: Bytes -> Bytes, fits: bool, sent: Reply<()>, updates: seq<Payment>, stop: Stop)
    requires AllInRange(updates)
    ensures var r := PayInvoice(order, sha256, fits, sent, updates, stop);
      && (r.Err? ==> !r.error.Timeout? && !r.error.Transport?)
      && (r.Err? && r.error.InvalidRequest? <==> !IsSent(order, fits))
      && (r.Err? && r.error.InvalidResponse? ==> r.error.identifier.Some?)
      && (r.Err? && r.error.PaymentFailed? ==> r.error.paymentHash == order.hash)
      && (r.Err? && r.error.OutcomeUnknown? ==> r.error.identifier == Some(LowercaseHex(order.hash)))
      && (r.Err? && r.error.OutcomeUnknown? <==>
          IsSent(order, fits) && BreaksOff(PayExpectation(order, sha256), sent, updates, stop))
  {
    var ex := PayExpectation(order, sha256);
    if IsSent(order, fits) && sent.Response? {
      OtherwiseInvalid(ex, updates, stop);
      OutcomeUnknownIff(ex, updates, stop);
      FailureNamesHash(ex, updates, stop);
    }
  }

  lemma FailureNamesHash(ex: Expectation, updates: seq<Payment>, stop: Stop)
    requires AllInRange(updates)
    ensures var r := Verdict(ex, updates, stop);
      r.Err? && r.error.PaymentFailed? ==> r.error.paymentHash == ex.hash
  {
    var r := Verdict(ex, updates, stop);
    if r.Err? && r.error.PaymentFailed? {
      PaymentFailedIff(ex, updates, stop, r.error.paymentHash, r.error.reason);
    }
  }

  /** A lookup never times out. It is refused as a request only when its deadline cannot be represented, and
      it fails in the transport only when the first answer does. */
  lemma LookupErrors(
      hash: Bytes, sha256: Bytes -> Bytes, fits: bool, sent: Reply<()>, updates: seq<Payment>, stop: Stop)
    requires AllInRange(updates)
    ensures var r := LookupPayment(hash, sha256, fits, sent, updates, stop);
      && (r.Err? ==> !r.error.Timeout?)
      && (r.Err? && r.error.InvalidRequest? <==> !fits)
      && (r.Err? && r.error.Transport? <==>
          fits && sent.NoResponse? && sent.failure.Refused? && true in sent.failure.status.sources)
  {
    if fits && sent.Response? {
      OtherwiseInvalid(LookupExpectation(hash, sha256), updates, stop);
    }
  }
}
