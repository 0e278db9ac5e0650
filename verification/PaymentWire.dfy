/** What the stream of payment updates means, read off the fields of the messages on the wire. */
module PaymentWire {
  import opened Decimal
  import opened Hex
  import opened Options
  import opened PaymentStream
  import opened Rpc
  import opened Utf8

  // ---------------------------------------------------------------------------------------------
  // One update

  /** LND's numbers for a payment that has succeeded and for one that has failed. */
  const WIRE_SUCCEEDED: int := 2
  const WIRE_FAILED: int := 3

  /** The preimage that an update carries is the one of the expected hash. */
  predicate Proves(ex: Expectation, u: Payment) {
    var preimage := ParseHex(u.preimage);
    preimage.Some? && ex.sha256(preimage.value) == ex.hash
  }

  /** An update that is taken: well-formed, for the expected hash and amount, and proved by its
      preimage when it says that the payment succeeded. */
  predicate Taken(ex: Expectation, u: Payment) {
    && ParseHex(u.paymentHash) == Some(ex.hash)
    && u.valueMsat >= 0 && u.feeMsat >= 0
    && (u.preimage == "" || ParseHex(u.preimage).Some?)
    && (u.status == WIRE_SUCCEEDED ==> Proves(ex, u))
    && (ex.amount.Some? ==> u.valueMsat == ex.amount.value)
  }

  predicate Waits(ex: Expectation, u: Payment) {
    Taken(ex, u) && u.status != WIRE_SUCCEEDED && u.status != WIRE_FAILED
  }

  predicate Ends(ex: Expectation, u: Payment) {
    Taken(ex, u) && (u.status == WIRE_SUCCEEDED || u.status == WIRE_FAILED)
  }

  /** The record holds what the update says. */
  predicate Reports(record: PaymentRecord, ex: Expectation, u: Payment) {
    && record.paymentHash == ex.hash && record.preimage == ParseHex(u.preimage)
    && record.value == u.valueMsat && record.fee == u.feeMsat
  }

  lemma TakenIff(ex: Expectation, u: Payment)
    ensures Judge(ex, u).Ok? <==> Taken(ex, u)
    ensures Taken(ex, u) ==> Reports(Judge(ex, u).value, ex, u)
    ensures Taken(ex, u) ==> (Judge(ex, u).value.state == Succeeded <==> u.status == WIRE_SUCCEEDED)
    ensures Taken(ex, u) ==> (Judge(ex, u).value.state == Failed <==> u.status == WIRE_FAILED)
  {
    hide ParseHex;
    EmptyIsNoHex();
  }

  lemma EmptyIsNoHex()
    ensures ParseHex("").None?
  {
  }

  /** Which updates leave the payment open and which end it. */
  lemma WaitsAndEnds(ex: Expectation, u: Payment)
    ensures Nonterminal(ex, u) <==> Waits(ex, u)
    ensures Terminal(ex, u) <==> Ends(ex, u)
  {
    TakenIff(ex, u);
    hide Judge, Taken;
  }

  /** The message is well-formed, whatever it reports. */
  predicate Readable(u: Payment) {
    && ParseHex(u.paymentHash).Some? && u.valueMsat >= 0 && u.feeMsat >= 0
    && (u.preimage == "" || ParseHex(u.preimage).Some?)
  }

  /** A message that reports a success has a preimage of the hash that the message itself names. */
  predicate Consistent(ex: Expectation, u: Payment)
    requires Readable(u)
  {
    u.status == WIRE_SUCCEEDED ==>
      u.preimage != "" && ex.sha256(ParseHex(u.preimage).value) == ParseHex(u.paymentHash).value
  }

  /** For which fault an update is refused: the first in the order in which the fields are read. */
  lemma RefusedFor(ex: Expectation, u: Payment, e: LndError)
    requires Judge(ex, u) == Err(e)
    ensures e.InvalidResponse? && e.identifier.Some?
    ensures e.detail == PaymentHashMalformed <==> ParseHex(u.paymentHash).None?
    ensures e.detail == AmountNegative <==> ParseHex(u.paymentHash).Some? && (u.valueMsat < 0 || u.feeMsat < 0)
    ensures e.detail in {PaymentHashMalformed, AmountNegative, PreimageMalformed} <==> !Readable(u)
    ensures e.detail == PreimageMissing <==> Readable(u) && u.status == WIRE_SUCCEEDED && u.preimage == ""
    ensures e.detail in {PreimageMissing, PreimageProvesNothing} <==> Readable(u) && !Consistent(ex, u)
    ensures e.detail == UpdateHashMismatch <==>
      Readable(u) && Consistent(ex, u) && ParseHex(u.paymentHash) != Some(ex.hash)
    ensures e.detail == UpdateAmountMismatch <==>
      Readable(u) && Consistent(ex, u) && ParseHex(u.paymentHash) == Some(ex.hash)
    ensures e.identifier.value == LowercaseHex(
        if ParseHex(u.paymentHash).None? || (Readable(u) && Consistent(ex, u)) then ex.hash
        else ParseHex(u.paymentHash).value)
  {
    EmptyIsNoHex();
    hide ParseHex, LowercaseHex;
  }

  // ---------------------------------------------------------------------------------------------
  // Whole streams

  /** From update `i` on there is one update only, after updates that leave the payment open. */
  predicate EndsAt(ex: Expectation, updates: seq<Payment>, i: nat) {
    && i < |updates| && Ends(ex, updates[i])
    && (forall k | 0 <= k < i :: Waits(ex, updates[k]))
    && (forall k | i <= k < |updates| :: updates[k] == updates[i])
  }

  lemma EndsAtIff(ex: Expectation, updates: seq<Payment>, i: nat)
    ensures HasShape(ex, updates, Settled(i)) <==> EndsAt(ex, updates, i)
  {
    hide Judge, Taken, Terminal, Nonterminal, Waits, Ends;
    forall k | 0 <= k < |updates|
      ensures Nonterminal(ex, updates[k]) <==> Waits(ex, updates[k])
      ensures Terminal(ex, updates[k]) <==> Ends(ex, updates[k])
    {
      WaitsAndEnds(ex, updates[k]);
    }
  }

  /** A payment is reported as made exactly when, after updates that leave it open, one update with
      status 2 is repeated to the end; the record is what that update says. */
  lemma PaidIff(ex: Expectation, updates: seq<Payment>, stop: Stop, record: PaymentRecord)
    requires AllInRange(updates)
    ensures Verdict(ex, updates, stop) == Ok(record) <==>
      record.state == Succeeded && exists i: nat ::
        EndsAt(ex, updates, i) && updates[i].status == WIRE_SUCCEEDED && Reports(record, ex, updates[i])
  {
    OkIff(ex, updates, stop, record);
    forall i: nat
      ensures HasShape(ex, updates, Settled(i)) <==> EndsAt(ex, updates, i)
      ensures i < |updates| && Taken(ex, updates[i]) && record.state == Succeeded ==>
        (Judge(ex, updates[i]) == Ok(record) <==>
          updates[i].status == WIRE_SUCCEEDED && Reports(record, ex, updates[i]))
    {
      EndsAtIff(ex, updates, i);
      if i < |updates| {
        TakenIff(ex, updates[i]);
      }
    }
    hide Verdict, HasShape, Judge, Taken, Proves;
  }

  /** A payment is reported as failed exactly for such an update with status 3, with its reason. */
  lemma FailedIff(ex: Expectation, updates: seq<Payment>, stop: Stop, hash: Bytes, reason: Text)
    requires AllInRange(updates)
    ensures Verdict(ex, updates, stop) == Err(PaymentFailed(hash, reason)) <==>
      hash == ex.hash && exists i: nat :: EndsAt(ex, updates, i) && FailsWith(updates[i], reason)
  {
    PaymentFailedIff(ex, updates, stop, hash, reason);
    forall i: nat
      ensures HasShape(ex, updates, Settled(i)) <==> EndsAt(ex, updates, i)
      ensures EndsAt(ex, updates, i) ==>
        (FailedWith(ex, updates[i], hash, reason) <==> hash == ex.hash && FailsWith(updates[i], reason))
    {
      EndsAtIff(ex, updates, i);
      if EndsAt(ex, updates, i) {
        assert InRange(updates[i]) by { assert updates[i] in updates; }
        TakenIff(ex, updates[i]);
      }
    }
    hide Verdict, HasShape, Judge, EndsAt, FailedWith, FailsWith;
  }

  predicate FailsWith(u: Payment, reason: Text) {
    u.status == WIRE_FAILED && InRange(u) && reason == FailureReason(u.failureReason)
  }

  /** The outcome is unknown exactly when waiting fails while every update so far leaves the payment open. */
  lemma UnknownIff(ex: Expectation, updates: seq<Payment>, stop: Stop)
    requires AllInRange(updates)
    ensures Verdict(ex, updates, stop) == Err(OutcomeUnknown(ex.operation, Some(LowercaseHex(ex.hash)))) <==>
      && (forall u | u in updates :: Waits(ex, u)) && stop.Failure? && (updates != [] || ex.uncertainFromStart)
  {
    OutcomeUnknownIff(ex, updates, stop);
    forall u | u in updates ensures Nonterminal(ex, u) <==> Waits(ex, u) {
      WaitsAndEnds(ex, u);
    }
    hide Verdict, Judge, Nonterminal, Waits;
    assert forall k | 0 <= k < |updates| :: updates[k] in updates;
  }

  /** Update `j` is the first that differs from the one that ended the payment. */
  predicate DiffersAt(ex: Expectation, updates: seq<Payment>, i: nat, j: nat) {
    && i < j < |updates| && EndsAt(ex, updates[..j], i) && updates[j] != updates[i]
  }

  predicate IsInvalid(r: Result<PaymentRecord, LndError>, detail: Detail) {
    r.Err? && r.error.InvalidResponse? && r.error.detail == detail
  }

  lemma DiffersIff(ex: Expectation, updates: seq<Payment>, i: nat, j: nat)
    ensures HasShape(ex, updates, Late(i, j)) <==> DiffersAt(ex, updates, i, j)
  {
    if j < |updates| {
      EndsAtIff(ex, updates[..j], i);
    }
    hide Judge, Waits, Ends, Terminal, Nonterminal;
  }

  /** A stream that stays open to its end, one that ends twice in different ways, and one that is open
      again after it ended are told apart. */
  lemma UnfinishedIff(ex: Expectation, updates: seq<Payment>, stop: Stop)
    requires AllInRange(updates)
    ensures var r := Verdict(ex, updates, stop);
      && (IsInvalid(r, StreamEndedBeforeTerminal) <==> stop.End? && forall u | u in updates :: Waits(ex, u))
      && (IsInvalid(r, ContradictoryTerminals) <==>
          exists i: nat, j: nat :: DiffersAt(ex, updates, i, j) && Ends(ex, updates[j]))
      && (IsInvalid(r, ReturnedToNonterminal) <==>
          exists i: nat, j: nat :: DiffersAt(ex, updates, i, j) && Waits(ex, updates[j]))
  {
    var shape := ShapeOf(ex, updates);
    forall i: nat, j: nat | DiffersAt(ex, updates, i, j) ensures shape == Late(i, j) {
      DiffersIff(ex, updates, i, j);
      ShapeUnique(ex, updates, shape, Late(i, j));
    }
    if forall u | u in updates :: Waits(ex, u) {
      forall k | 0 <= k < |updates| ensures Nonterminal(ex, updates[k]) {
        assert updates[k] in updates;
        WaitsAndEnds(ex, updates[k]);
      }
      ShapeUnique(ex, updates, shape, Open);
    }
    AnswerTells(ex, updates, stop, shape);
    hide Verdict, Judge, Waits, Ends, Answer, DiffersAt, HasShape;
  }

  /** The shape decides which of the three it is. */
  lemma AnswerTells(ex: Expectation, updates: seq<Payment>, stop: Stop, shape: Shape)
    requires AllInRange(updates) && HasShape(ex, updates, shape)
    ensures var r := Answer(ex, updates, stop, shape);
      && (IsInvalid(r, StreamEndedBeforeTerminal) <==> stop.End? && shape.Open?)
      && (IsInvalid(r, ContradictoryTerminals) <==> shape.Late? && Ends(ex, updates[shape.j]))
      && (IsInvalid(r, ReturnedToNonterminal) <==> shape.Late? && Waits(ex, updates[shape.j]))
    ensures shape.Open? ==> forall u | u in updates :: Waits(ex, u)
    ensures shape.Late? ==> DiffersAt(ex, updates, shape.i, shape.j)
  {
    match shape
    case Open =>
      forall u | u in updates ensures Waits(ex, u) {
        WaitsAndEnds(ex, u);
      }
    case Settled(i) =>
    case Early(i) =>
      JudgedOrNamed(ex, updates[i]);
    case Late(i, j) =>
      DiffersIff(ex, updates, i, j);
      JudgedOrNamed(ex, updates[j]);
  }

  /** An update is refused, with a detail of its own, or it ends the payment or leaves it open. */
  lemma JudgedOrNamed(ex: Expectation, u: Payment)
    ensures var j := Judge(ex, u);
      && (j.Ok? <==> Ends(ex, u) || Waits(ex, u))
      && (j.Err? ==> j.error.InvalidResponse?)
      && (j.Err? ==> j.error.detail != StreamEndedBeforeTerminal)
      && (j.Err? ==> j.error.detail != ContradictoryTerminals && j.error.detail != ReturnedToNonterminal)
    ensures Terminal(ex, u) <==> Ends(ex, u)
    ensures Nonterminal(ex, u) <==> Waits(ex, u)
  {
    WaitsAndEnds(ex, u);
    hide LowercaseHex, ParseHex;
  }

  // ---------------------------------------------------------------------------------------------
  // Reasons

  /** What LND's reason codes are called. */
  const REASONS: seq<Text> := [
    "failure reason not reported", "payment timeout", "no route", "payment error", "incorrect payment details",
    "insufficient balance", "payment canceled"]

  lemma ReasonIs(code: int)
    requires IsInt32(code)
    ensures FailureReason(code) ==
      if 0 <= code < |REASONS| then REASONS[code] else "unknown failure reason " + Signed(code)
  {
  }

  lemma SignedInjective(a: int, b: int)
    requires Signed(a) == Signed(b)
    ensures a == b
  {
    var m, n := if a < 0 then -a else a, if b < 0 then -b else b;
    assert Digits(m)[0] in Digits(m) && Digits(n)[0] in Digits(n);
    assert a < 0 <==> Signed(a)[0] == '-';
    assert b < 0 <==> Signed(b)[0] == '-';
    assert Digits(m) == if a < 0 then Signed(a)[1..] else Signed(a);
    ValueOfDigits(m);
    ValueOfDigits(n);
  }

  /** No two codes are reported with the same reason. */
  lemma ReasonInjective(a: int, b: int)
    requires IsInt32(a) && IsInt32(b) && FailureReason(a) == FailureReason(b)
    ensures a == b
  {
    ReasonIs(a);
    ReasonIs(b);
    hide FailureReason;
    KnownReasons();
    var unknown := "unknown failure reason ";
    assert unknown[0] == 'u';
    if !(0 <= a < |REASONS|) && !(0 <= b < |REASONS|) {
      assert (unknown + Signed(a))[|unknown|..] == Signed(a);
      assert (unknown + Signed(b))[|unknown|..] == Signed(b);
      SignedInjective(a, b);
    }
  }

  lemma KnownReasons()
    ensures forall k | 0 <= k < |REASONS| :: REASONS[k] != "" && REASONS[k][0] != 'u'
    ensures forall k, n | 0 <= k < n < |REASONS| :: REASONS[k] != REASONS[n]
  {
    assert REASONS[0][0] == 'f' && REASONS[1][0] == 'p' && REASONS[1][8] == 't';
    assert REASONS[2][0] == 'n' && REASONS[3][0] == 'p' && REASONS[3][8] == 'e';
    assert REASONS[4][0] == 'i' && REASONS[4][2] == 'c' && REASONS[5][0] == 'i' && REASONS[5][2] == 's';
    assert REASONS[6][0] == 'p' && REASONS[6][8] == 'c';
  }

  // ---------------------------------------------------------------------------------------------
  // Whole calls

  /** An order goes out exactly when it names an amount and both limits fit the request's fields, the
      timeout as a positive whole number of seconds; the request carries both limits unchanged. */
  lemma RequestIff(order: Order, request: SendRequest)
    ensures ToSendRequest(order) == Ok(request) <==>
      && order.amount.Some? && order.timeout.nanos == 0
      && order.feeLimit == request.feeLimitMsat <= 0x7FFF_FFFF_FFFF_FFFF
      && 0 < order.timeout.seconds == request.timeoutSeconds <= 0x7FFF_FFFF
  {
  }

  /** The stream answers an order: one update, repeated, that takes the order's hash and amount and
      reports a success with these fields. */
  predicate PaidAt(order: Order, sha256: Bytes -> Bytes, updates: seq<Payment>, i: nat, record: PaymentRecord) {
    var ex := Expectation("pay invoice", order.hash, order.amount, true, sha256);
    EndsAt(ex, updates, i) && updates[i].status == WIRE_SUCCEEDED && Reports(record, ex, updates[i])
  }

  /** An invoice is reported as paid exactly when the order was sent and answered, and the stream then
      ends in a success for the order's hash and amount. */
  lemma PayInvoiceOkIff(
      order: Order, sha256: Bytes -> Bytes, fits: bool, sent: Reply<()>, updates: seq<Payment>, stop: Stop,
      record: PaymentRecord)
    requires AllInRange(updates)
    ensures PayInvoice(order, sha256, fits, sent, updates, stop) == Ok(record) <==>
      && ToSendRequest(order).Ok? && fits && sent.Response? && record.state == Succeeded
      && exists i: nat :: PaidAt(order, sha256, updates, i, record)
  {
    var ex := PayExpectation(order, sha256);
    PaidIff(ex, updates, stop, record);
    hide Verdict, EndsAt, ToSendRequest, Reports;
    assert forall i: nat :: PaidAt(order, sha256, updates, i, record) <==>
      EndsAt(ex, updates, i) && updates[i].status == WIRE_SUCCEEDED && Reports(record, ex, updates[i]);
  }

  /** The same of a payment that is looked up by its hash, for whatever amount. */
  lemma LookupOkIff(
      hash: Bytes, sha256: Bytes -> Bytes, fits: bool, sent: Reply<()>, updates: seq<Payment>, stop: Stop,
      record: PaymentRecord)
    requires AllInRange(updates)
    ensures LookupPayment(hash, sha256, fits, sent, updates, stop) == Ok(record) <==>
      && fits && sent.Response? && record.state == Succeeded
      && exists i: nat :: FoundAt(hash, sha256, updates, i, record)
  {
    var ex := LookupExpectation(hash, sha256);
    PaidIff(ex, updates, stop, record);
    hide Verdict, EndsAt, Reports;
    assert forall i: nat :: FoundAt(hash, sha256, updates, i, record) <==>
      EndsAt(ex, updates, i) && updates[i].status == WIRE_SUCCEEDED && Reports(record, ex, updates[i]);
  }

  predicate FoundAt(hash: Bytes, sha256: Bytes -> Bytes, updates: seq<Payment>, i: nat, record: PaymentRecord) {
    var ex := Expectation("lookup payment", hash, None, true, sha256);
    EndsAt(ex, updates, i) && updates[i].status == WIRE_SUCCEEDED && Reports(record, ex, updates[i])
  }
}
