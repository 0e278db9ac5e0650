/** Proving that the channel can be used backwards: readiness payments of fresh invoices, repeated while
    they provably failed for want of a route or of balance, then the wait for the settled invoice. */
module ReverseReadiness {
  import opened Fixture
  import opened Hex
  import opened Options
  import opened PaymentStream
  import opened PaymentWire
  import opened Rpc

  const READINESS_FEE_LIMIT: nat := 10_000
  const READINESS_TIMEOUT: nat := 30

  // ---------------------------------------------------------------------------------------------
  // Which failures are waited out

  /** `is_transient_routing_failure`: told by the text of the reason. */
  predicate IsTransientRouting(e: LndError) {
    e.PaymentFailed? && (e.reason == "no route" || e.reason == "insufficient balance")
  }

  /** Though the reason passes through text, it stands for two reason codes only. */
  lemma ReasonTellsCode(code: int, hash: Bytes)
    requires IsInt32(code)
    ensures IsTransientRouting(PaymentFailed(hash, FailureReason(code))) <==> code == 2 || code == 5
  {
    var reason := FailureReason(code);
    assert "failure reason not reported"[0] == 'f' && "payment timeout"[0] == 'p';
    assert "no route"[0] == 'n' && "payment error"[0] == 'p' && "incorrect payment details"[2] == 'c';
    assert "insufficient balance"[0] == 'i' && "insufficient balance"[2] == 's' && "payment canceled"[0] == 'p';
    assert code < 0 || code > 6 ==> reason[0] == 'u';
  }

  // ---------------------------------------------------------------------------------------------
  // Paying

  /** The surroundings of one payment attempt: whether the channel was found active again, the fresh
      invoice's hash and amount, whether the payment's own deadline can be represented, how its request
      fares and what its stream carries, whether the fixture's deadline interrupts it, and how the pause
      after a failure ends. */
  datatype Attempt = Attempt(
    active: Option<FixtureError>, invoice: Result<(Bytes, Option<nat>), FixtureError>,
    fits: bool, sent: Reply<()>, updates: seq<Payment>, stop: Stop, cut: bool, pause: Option<FixtureError>)

  predicate IsPossible(a: Attempt) { AllInRange(a.updates) }

  predicate AllPossible(attempts: seq<Attempt>) { forall a | a in attempts :: IsPossible(a) }

  function OrderFor(a: Attempt): Order
    requires a.invoice.Ok?
  {
    Order(a.invoice.value.0, a.invoice.value.1, READINESS_FEE_LIMIT, Duration(READINESS_TIMEOUT, 0))
  }

  function Paid(sha256: Bytes -> Bytes, a: Attempt): Result<PaymentRecord, LndError>
    requires IsPossible(a) && a.invoice.Ok?
  {
    PayInvoice(OrderFor(a), sha256, a.fits, a.sent, a.updates, a.stop)
  }

  /** An attempt gets as far as paying. */
  predicate Pays(a: Attempt) {
    a.active.None? && a.invoice.Ok?
  }

  /** An attempt is followed by another one. */
  predicate Retried(sha256: Bytes -> Bytes, a: Attempt)
    requires IsPossible(a)
  {
    && Pays(a) && !a.cut && a.pause.None?
    && Paid(sha256, a).Err? && IsTransientRouting(Paid(sha256, a).error)
  }

  /** `verify_readiness_payment`. */
  function VerifyReadinessPayment(hash: Bytes, record: PaymentRecord): Option<FixtureError> {
    if record.paymentHash != hash || !record.state.Succeeded? then
      Some(Bootstrap(InvalidResponse("readiness payment", WrongReadinessPayment, Some(LowercaseHex(hash)))))
    else None
  }

  /** How an attempt that is not retried ends: with the hash that was paid, or with an error. */
  function AttemptEnd(sha256: Bytes -> Bytes, a: Attempt): Result<Bytes, FixtureError>
    requires IsPossible(a)
  {
    if a.active.Some? then Err(a.active.value)
    else if a.invoice.Err? then Err(a.invoice.error)
    else if a.cut then Err(DeadlineExpired)
    else
      match Paid(sha256, a)
      case Ok(record) =>
        var refused := VerifyReadinessPayment(a.invoice.value.0, record);
        if refused.Some? then Err(refused.value) else Ok(a.invoice.value.0)
      case Err(e) =>
        if IsTransientRouting(e) && a.pause.Some? then Err(a.pause.value) else Err(Bootstrap(e))
  }

  // ---------------------------------------------------------------------------------------------
  // Settling

  datatype InvoiceState = Open | Settled | Canceled | Accepted | Unknown(code: int)

  /** One look at the invoice, or the deadline. */
  datatype Look = Look(answer: Result<InvoiceState, LndError>) | LookExpired

  /** The look is followed by another one. */
  predicate Waits(look: Look) {
    look.Look? && match look.answer
                  case Ok(state) => state.Open? || state.Accepted?
                  case Err(e) => IsTransient(e)
  }

  function LookEnd(hash: Bytes, look: Look): Option<FixtureError> {
    match look
    case LookExpired => Some(DeadlineExpired)
    case Look(Err(e)) => Some(Bootstrap(e))
    case Look(Ok(state)) =>
      if state.Settled? then None
      else Some(Bootstrap(InvalidResponse("readiness invoice", InvoiceNotSettled, Some(LowercaseHex(hash)))))
  }

  /** The invoice is seen settled at look `n`, after looks that were no reason to stop. */
  predicate SettlesAt(looks: seq<Look>, n: nat) {
    n < |looks| && looks[n] == Look(Ok(InvoiceState.Settled)) && forall k | 0 <= k < n :: Waits(looks[k])
  }

  function Waiting(looks: seq<Look>): (n: nat)
    ensures n <= |looks| && (forall k | 0 <= k < n :: Waits(looks[k])) && (n < |looks| ==> !Waits(looks[n]))
  {
    if looks == [] || !Waits(looks[0]) then 0 else 1 + Waiting(looks[1..])
  }

  function SettleEnd(hash: Bytes, looks: seq<Look>): Option<FixtureError> {
    var n := Waiting(looks);
    if n == |looks| then Some(DeadlineExpired) else LookEnd(hash, looks[n])
  }

  /** `wait_for_settled_invoice`. */
  method WaitForSettledInvoice(hash: Bytes, looks: seq<Look>) returns (failed: Option<FixtureError>)
    ensures failed == SettleEnd(hash, looks)
    ensures failed.None? <==> exists n: nat :: SettlesAt(looks, n)
  {
    var next := 0;
    ghost var n := Waiting(looks);
    while next < |looks|
      invariant 0 <= next <= n
    {
      var look := looks[next];
      if look.LookExpired? {
        SettledIff(hash, looks);
        return Some(DeadlineExpired);
      }
      match look.answer {
        case Ok(Settled) =>
          SettledIff(hash, looks);
          return None;
        case Ok(Open) =>
        case Ok(Accepted) =>
        case Ok(_) =>
          SettledIff(hash, looks);
          return Some(Bootstrap(InvalidResponse("readiness invoice", InvoiceNotSettled, Some(LowercaseHex(hash)))));
        case Err(e) =>
          if !IsTransient(e) {
            SettledIff(hash, looks);
            return Some(Bootstrap(e));
          }
      }
      next := next + 1;
    }
    SettledIff(hash, looks);
    return Some(DeadlineExpired);
  }

  lemma SettledIff(hash: Bytes, looks: seq<Look>)
    ensures SettleEnd(hash, looks).None? <==> exists n: nat :: SettlesAt(looks, n)
  {
    var w := Waiting(looks);
    if n: nat :| SettlesAt(looks, n) {
      assert !Waits(looks[n]);
      assert n == w;
    } else if SettleEnd(hash, looks).None? {
      assert SettlesAt(looks, w);
    }
  }

  // ---------------------------------------------------------------------------------------------
  // The retry loop

  /** How many attempts are retried before one that ends the run, or before the deadline. */
  function Retries(sha256: Bytes -> Bytes, attempts: seq<Attempt>, from: nat := 0): (n: nat)
    requires AllPossible(attempts) && from <= |attempts|
    ensures from <= n <= |attempts|
    decreases |attempts| - from
  {
    if from == |attempts| || !RetriedAt(sha256, attempts, from) then from
    else Retries(sha256, attempts, from + 1)
  }

  lemma {:induction false} RetriesAre(sha256: Bytes -> Bytes, attempts: seq<Attempt>, from: nat := 0)
    requires AllPossible(attempts) && from <= |attempts|
    ensures var n := Retries(sha256, attempts, from);
      && (forall k | from <= k < n :: RetriedAt(sha256, attempts, k))
      && (n < |attempts| ==> !RetriedAt(sha256, attempts, n))
    decreases |attempts| - from
  {
    hide RetriedAt;
    if from < |attempts| && RetriedAt(sha256, attempts, from) {
      RetriesAre(sha256, attempts, from + 1);
    }
  }

  predicate RetriedAt(sha256: Bytes -> Bytes, attempts: seq<Attempt>, k: nat)
    requires AllPossible(attempts) && k < |attempts|
  {
    assert attempts[k] in attempts;
    Retried(sha256, attempts[k])
  }

  /** How many payments were started. */
  function PaidCount(sha256: Bytes -> Bytes, attempts: seq<Attempt>): nat
    requires AllPossible(attempts)
  {
    var n := Retries(sha256, attempts);
    if n < |attempts| && Pays(attempts[n]) then n + 1 else n
  }

  /** A whole run: the payment that was made and settled, or why there is none. */
  function ReverseReadiness(sha256: Bytes -> Bytes, attempts: seq<Attempt>, looks: seq<Look>):
    Result<Bytes, FixtureError>
    requires AllPossible(attempts)
  {
    var n := Retries(sha256, attempts);
    if n == |attempts| then Err(DeadlineExpired)
    else
      assert attempts[n] in attempts;
      match AttemptEnd(sha256, attempts[n])
      case Err(e) => Err(e)
      case Ok(hash) =>
        var failed := SettleEnd(hash, looks);
        if failed.Some? then Err(failed.value) else Ok(hash)
  }

  /** `prove_reverse_readiness_with_retry`. The attempts are used up when the deadline passes. */
  method ProveReverseReadiness(sha256: Bytes -> Bytes, attempts: seq<Attempt>, looks: seq<Look>)
    returns (r: Result<Bytes, FixtureError>, paid: seq<Bytes>)
    requires AllPossible(attempts)
    ensures r == ReverseReadiness(sha256, attempts, looks)
    ensures |paid| == PaidCount(sha256, attempts) <= |attempts|
    ensures forall k | 0 <= k < |paid| :: attempts[k].invoice.Ok? && paid[k] == attempts[k].invoice.value.0
  {
    hide PayInvoice, Waiting, Retries;
    RetriesAre(sha256, attempts);
    paid := [];
    var next := 0;
    ghost var n := Retries(sha256, attempts);
    while next < |attempts|
      invariant 0 <= next <= n && |paid| == next
      invariant forall k | 0 <= k < next :: attempts[k].invoice.Ok? && paid[k] == attempts[k].invoice.value.0
    {
      var a := attempts[next];
      assert a in attempts;
      assert next < n ==> RetriedAt(sha256, attempts, next);
      if a.active.Some? {
        return Err(a.active.value), paid;
      }
      if a.invoice.Err? {
        return Err(a.invoice.error), paid;
      }
      var (hash, _) := a.invoice.value;
      paid := paid + [hash];
      if a.cut {
        return Err(DeadlineExpired), paid;
      }
      var payment := PayInvoice(OrderFor(a), sha256, a.fits, a.sent, a.updates, a.stop);
      match payment {
        case Ok(record) =>
          var refused := VerifyReadinessPayment(hash, record);
          if refused.Some? {
            return Err(refused.value), paid;
          }
          var failed := WaitForSettledInvoice(hash, looks);
          if failed.Some? {
            return Err(failed.value), paid;
          }
          return Ok(hash), paid;
        case Err(e) =>
          if !IsTransientRouting(e) {
            return Err(Bootstrap(e)), paid;
          }
          if a.pause.Some? {
            return Err(a.pause.value), paid;
          }
      }
      next := next + 1;
    }
    return Err(DeadlineExpired), paid;
  }

  // ---------------------------------------------------------------------------------------------
  // Safety over every run

  /** What a readiness payment's stream is expected to be about: the hash and amount of its invoice. */
  function Readiness(sha256: Bytes -> Bytes, a: Attempt): Expectation
    requires a.invoice.Ok?
  {
    Expectation("pay invoice", a.invoice.value.0, a.invoice.value.1, true, sha256)
  }

  /** The payment went out: with the fixed limits, any invoice that names an amount can be paid. */
  predicate Asked(a: Attempt) {
    a.active.None? && a.invoice.Ok? && a.invoice.value.1.Some? && a.fits && !a.cut && a.sent.Response?
  }

  /** The payment of an attempt provably failed, with a reason that another attempt may cure: its
      request was answered, and its stream ended with update `i`, repeated, that takes this invoice's
      hash and amount and has status 3 and reason code 2, no route, or 5, insufficient balance. */
  predicate ProvablyFailed(sha256: Bytes -> Bytes, a: Attempt, i: nat)
    requires a.invoice.Ok?
  {
    && a.sent.Response? && EndsAt(Readiness(sha256, a), a.updates, i)
    && a.updates[i].status == 3 && a.updates[i].failureReason in {2, 5}
  }

  /** The payment was made: the stream ended with such an update of status 2. */
  predicate ProvablyPaid(sha256: Bytes -> Bytes, a: Attempt, i: nat)
    requires a.invoice.Ok?
  {
    a.sent.Response? && EndsAt(Readiness(sha256, a), a.updates, i) && a.updates[i].status == 2
  }

  /** A readiness payment is sent with a fee limit of 10 000 and a timeout of 30 seconds. */
  lemma ReadinessRequest(a: Attempt)
    requires a.invoice.Ok?
    ensures var request := ToSendRequest(OrderFor(a));
      if a.invoice.value.1.Some? then request == Ok(SendRequest(10_000, 30))
      else request == Err(InvalidRequest(InvoiceWithoutAmount))
  {
  }

  lemma RetriedMeansFailed(sha256: Bytes -> Bytes, a: Attempt)
    requires IsPossible(a) && a.invoice.Ok?
    ensures Paid(sha256, a).Err? && IsTransientRouting(Paid(sha256, a).error) <==>
      a.invoice.value.1.Some? && a.fits && exists i: nat :: ProvablyFailed(sha256, a, i)
  {
    ReadinessRequest(a);
    var ex := Readiness(sha256, a);
    assert PayExpectation(OrderFor(a), sha256) == ex;
    TransientVerdict(ex, a.updates, a.stop);
    hide Verdict, LowercaseHex, EndsAt;
    assert forall i: nat :: ProvablyFailed(sha256, a, i) <==>
      a.sent.Response? && EndsAt(ex, a.updates, i) && a.updates[i].status == 3 && a.updates[i].failureReason in {2, 5};
  }

  lemma TransientVerdict(ex: Expectation, updates: seq<Payment>, stop: Stop)
    requires AllInRange(updates)
    ensures var v := Verdict(ex, updates, stop);
      v.Err? && IsTransientRouting(v.error) <==> exists i: nat ::
        EndsAt(ex, updates, i) && updates[i].status == 3 && updates[i].failureReason in {2, 5}
  {
    var v := Verdict(ex, updates, stop);
    hide Verdict, FailureReason, EndsAt;
    if v.Err? && v.error.PaymentFailed? {
      FailedIff(ex, updates, stop, v.error.paymentHash, v.error.reason);
      var i: nat :| EndsAt(ex, updates, i) && FailsWith(updates[i], v.error.reason);
      ReasonTellsCode(updates[i].failureReason, v.error.paymentHash);
    }
    if i: nat :| EndsAt(ex, updates, i) && updates[i].status == 3 && updates[i].failureReason in {2, 5} {
      var reason := FailureReason(updates[i].failureReason);
      FailedIff(ex, updates, stop, ex.hash, reason);
      assert FailsWith(updates[i], reason);
      ReasonTellsCode(updates[i].failureReason, ex.hash);
    }
  }

  lemma PaidMeansPaid(sha256: Bytes -> Bytes, a: Attempt)
    requires IsPossible(a) && a.invoice.Ok?
    ensures Paid(sha256, a).Ok? <==>
      a.invoice.value.1.Some? && a.fits && exists i: nat :: ProvablyPaid(sha256, a, i)
  {
    ReadinessRequest(a);
    var ex := Readiness(sha256, a);
    assert PayExpectation(OrderFor(a), sha256) == ex;
    PaidVerdict(ex, a.updates, a.stop);
    hide Verdict, LowercaseHex, EndsAt;
    assert forall i: nat :: ProvablyPaid(sha256, a, i) <==>
      a.sent.Response? && EndsAt(ex, a.updates, i) && a.updates[i].status == 2;
  }

  lemma PaidVerdict(ex: Expectation, updates: seq<Payment>, stop: Stop)
    requires AllInRange(updates)
    ensures Verdict(ex, updates, stop).Ok? <==> exists i: nat :: EndsAt(ex, updates, i) && updates[i].status == 2
  {
    var v := Verdict(ex, updates, stop);
    if v.Ok? {
      PaidIff(ex, updates, stop, v.value);
    }
    if i: nat :| EndsAt(ex, updates, i) && updates[i].status == 2 {
      TakenIff(ex, updates[i]);
      PaidIff(ex, updates, stop, Judge(ex, updates[i]).value);
    }
    hide Verdict, EndsAt, Judge;
  }

  /** Nothing is paid again unless every payment before provably failed. So in any run, however it
      ends, at most one payment can have been made: the last one started. */
  lemma PaidAtMostOnce(sha256: Bytes -> Bytes, attempts: seq<Attempt>, k: nat)
    requires AllPossible(attempts) && k + 1 < PaidCount(sha256, attempts)
    ensures FailedAndWaited(sha256, attempts[k])
  {
    RetriesAre(sha256, attempts);
    assert RetriedAt(sha256, attempts, k);
    RetriedIff(sha256, attempts[k]);
  }

  /** An attempt that is followed by another: its payment was answered and provably failed, and the
      pause after it was not interrupted. */
  ghost predicate FailedAndWaited(sha256: Bytes -> Bytes, a: Attempt) {
    Asked(a) && a.pause.None? && exists i: nat :: ProvablyFailed(sha256, a, i)
  }

  lemma RetriedIff(sha256: Bytes -> Bytes, a: Attempt)
    requires IsPossible(a)
    ensures Retried(sha256, a) <==> FailedAndWaited(sha256, a)
  {
    if a.invoice.Ok? {
      RetriedMeansFailed(sha256, a);
    }
    hide PayInvoice;
  }

  /** A payment is started exactly when the channel is active and there is a fresh invoice, after
      payments that all provably failed and were waited out. */
  lemma StartedIff(sha256: Bytes -> Bytes, attempts: seq<Attempt>, k: nat)
    requires AllPossible(attempts) && k < |attempts|
    ensures k < PaidCount(sha256, attempts) <==>
      && attempts[k].active.None? && attempts[k].invoice.Ok?
      && forall j | 0 <= j < k :: FailedAndWaited(sha256, attempts[j])
  {
    RetriesAreFailures(sha256, attempts);
    var n := Retries(sha256, attempts);
    assert k < PaidCount(sha256, attempts) <==> k < n || (k == n && Pays(attempts[k])) by {
      hide Retries, Pays;
    }
    assert Pays(attempts[k]) <==> attempts[k].active.None? && attempts[k].invoice.Ok?;
    hide *;
    if k < n {
      assert FailedAndWaited(sha256, attempts[k]);
      FailedPays(sha256, attempts[k]);
    } else if k > n {
      assert !FailedAndWaited(sha256, attempts[n]);
    }
  }

  lemma FailedPays(sha256: Bytes -> Bytes, a: Attempt)
    requires FailedAndWaited(sha256, a)
    ensures Pays(a)
  {
  }

  /** The attempts before the one that ends the run are those that provably failed. */
  lemma RetriesAreFailures(sha256: Bytes -> Bytes, attempts: seq<Attempt>)
    requires AllPossible(attempts)
    ensures var n := Retries(sha256, attempts);
      && (forall k | 0 <= k < n :: FailedAndWaited(sha256, attempts[k]))
      && (n < |attempts| ==> !FailedAndWaited(sha256, attempts[n]))
  {
    RetriesAre(sha256, attempts);
    forall k | 0 <= k < |attempts|
      ensures RetriedAt(sha256, attempts, k) <==> FailedAndWaited(sha256, attempts[k])
    {
      assert attempts[k] in attempts;
      RetriedIff(sha256, attempts[k]);
    }
    hide Retries, RetriedAt, FailedAndWaited;
  }

  /** The attempt was paid, with the hash of its own, fresh invoice. */
  ghost predicate PaysFor(sha256: Bytes -> Bytes, a: Attempt, hash: Bytes) {
    Asked(a) && a.invoice.value.0 == hash && exists i: nat :: ProvablyPaid(sha256, a, i)
  }

  /** So was attempt `n`, and all before provably failed. */
  ghost predicate PaidLast(sha256: Bytes -> Bytes, attempts: seq<Attempt>, n: nat, hash: Bytes) {
    && n < |attempts| && (forall k | 0 <= k < n :: FailedAndWaited(sha256, attempts[k]))
    && PaysFor(sha256, attempts[n], hash)
  }

  /** A payment that is made always passes the check of its hash and state: that check only repeats
      what following the stream has established. */
  lemma PaidIsVerified(sha256: Bytes -> Bytes, a: Attempt)
    requires IsPossible(a) && a.invoice.Ok? && Paid(sha256, a).Ok?
    ensures var record := Paid(sha256, a).value;
      && VerifyReadinessPayment(a.invoice.value.0, record).None?
      && record.preimage.Some? && sha256(record.preimage.value) == a.invoice.value.0
  {
    OkIsProven(PayExpectation(OrderFor(a), sha256), a.updates, a.stop, Paid(sha256, a).value);
  }

  /** Readiness is proved exactly when the last of a series of attempts was paid and its invoice is
      then seen settled, while every earlier attempt provably failed. */
  lemma ReverseReadyIff(sha256: Bytes -> Bytes, attempts: seq<Attempt>, looks: seq<Look>, hash: Bytes)
    requires AllPossible(attempts)
    ensures ReverseReadiness(sha256, attempts, looks) == Ok(hash) <==>
      && (exists n: nat :: PaidLast(sha256, attempts, n, hash))
      && (exists m: nat :: SettlesAt(looks, m))
  {
    RetriesAreFailures(sha256, attempts);
    var w := Retries(sha256, attempts);
    if w < |attempts| {
      assert attempts[w] in attempts;
      PaidEnds(sha256, attempts[w], hash);
    }
    forall n: nat | PaidLast(sha256, attempts, n, hash) ensures n == w {
      assert attempts[n] in attempts;
      PaidEnds(sha256, attempts[n], hash);
    }
    SettledIff(hash, looks);
    hide AttemptEnd, SettleEnd, Retries, FailedAndWaited, PaysFor, SettlesAt;
    if ReverseReadiness(sha256, attempts, looks) == Ok(hash) {
      assert PaidLast(sha256, attempts, w, hash);
    }
  }

  /** An attempt that is paid ends the run well, and only such an attempt does. */
  lemma PaidEnds(sha256: Bytes -> Bytes, a: Attempt, hash: Bytes)
    requires IsPossible(a)
    ensures !FailedAndWaited(sha256, a) ==> (AttemptEnd(sha256, a) == Ok(hash) <==> PaysFor(sha256, a, hash))
    ensures PaysFor(sha256, a, hash) ==> !FailedAndWaited(sha256, a)
  {
    RetriedIff(sha256, a);
    if a.invoice.Ok? {
      PaidMeansPaid(sha256, a);
      AnsweredWhenPaid(sha256, a);
      if Paid(sha256, a).Ok? {
        PaidIsVerified(sha256, a);
      }
    }
    hide PayInvoice, ProvablyPaid, FailedAndWaited, LowercaseHex, VerifyReadinessPayment;
  }

  lemma AnsweredWhenPaid(sha256: Bytes -> Bytes, a: Attempt)
    requires IsPossible(a) && a.invoice.Ok?
    ensures Paid(sha256, a).Ok? ==> a.sent.Response?
  {
  }
}
