/** The error model of the Lightning adapter, and the two ways it bounds a call by a deadline. */
module Rpc {
  import opened Hex
  import opened Options
  import opened Utf8

  datatype Code =
    | CodeOk | Cancelled | CodeUnknown | InvalidArgument | DeadlineExceeded | NotFound | AlreadyExists
    | PermissionDenied | ResourceExhausted | FailedPrecondition | Aborted | OutOfRange | Unimplemented
    | Internal | Unavailable | DataLoss | Unauthenticated

  /** A gRPC status. Of its chain of error sources only this is kept: which links are transport
      errors. */
  datatype Status = Status(code: Code, sources: seq<bool>)

  /** How a call can fail to answer. */
  datatype Failure = Refused(status: Status) | DeadlinePassed

  datatype Reply<+T> = Response(value: T) | NoResponse(failure: Failure)

  /** The fixed texts of the adapter's error details, one constant each. */
  datatype Detail =
    // every call
    | DeadlineTooLarge
    // payments
    | PaymentHashMalformed | AmountNegative | PreimageMalformed | PreimageMissing | PreimageProvesNothing
    | StreamEndedBeforeTerminal | UpdateHashMismatch | UpdateAmountMismatch
    | ContradictoryTerminals | ReturnedToNonterminal
    | InvoiceWithoutAmount | FeeLimitTooLarge | TimeoutNotWholeSeconds | TimeoutZero | TimeoutTooLarge
    // channels
    | CapacityTooLarge | PushTooLarge | FundingTxidMalformed | FundingTxidMissing
    | StreamEndedBeforeOpen | PendingPointChanged | OpenedPointMissing | OpenedPointMismatch
    | UnexpectedPsbt | UpdateWithoutState
    | RemoteKeyMalformed | ChannelPointMalformed | BalanceSumOverflows | BalancesExceedCapacity
    | LocalBalanceOverflows | RemoteBalanceOverflows
    | CapacityZero | PushExceedsCapacity
    // wallets
    | PasswordTooShort | PasswordTooLong | SeedWordCount | SeedWordSize | SeedTotalSize | MacaroonSize
    | TotalMismatch | WalletSumOverflows
    // the fixture's own checks
    | FundingNotObserved | WrongReadinessPayment | InvoiceNotSettled

  datatype LndError =
    | InvalidRequest(detail: Detail)
    | Transport(operation: Text)
    | Authentication(operation: Text)
    | StatusError(code: Code, operation: Text)
    | Timeout(operation: Text)
    | InvalidResponse(operation: Text, detail: Detail, identifier: Option<Text>)
    | PaymentFailed(paymentHash: Bytes, reason: Text)
    | OutcomeUnknown(operation: Text, identifier: Option<Text>)

  // ---------------------------------------------------------------------------------------------
  // Classifying a status

  /** `has_transport_source` walks the chain of sources. */
  method HasTransportSource(status: Status) returns (found: bool)
    ensures found <==> true in status.sources
  {
    var source := 0;
    while source < |status.sources|
      invariant 0 <= source <= |status.sources| && true !in status.sources[..source]
    {
      if status.sources[source] {
        return true;
      }
      source := source + 1;
    }
    return false;
  }

  /** `map_status`. */
  function MapStatus(operation: Text, status: Status): LndError {
    if true in status.sources then Transport(operation)
    else if status.code.Unauthenticated? || status.code.PermissionDenied? then Authentication(operation)
    else StatusError(status.code, operation)
  }

  /** `mutating_status_is_ambiguous`: LND may have acted before this status was made. */
  predicate IsAmbiguous(status: Status) {
    || true in status.sources
    || status.code in {Cancelled, CodeUnknown, DeadlineExceeded, ResourceExhausted, Internal, Unavailable}
  }

  // ---------------------------------------------------------------------------------------------
  // Bounded calls

  /** `operation_deadline`: refused when the instant that far ahead cannot be represented. */
  function OperationDeadline(fits: bool): Option<LndError> {
    if fits then None else Some(InvalidRequest(DeadlineTooLarge))
  }

  /** `bounded_request_until`. */
  function BoundedRequest<T>(operation: Text, reply: Reply<T>): Result<T, LndError> {
    match reply
    case Response(value) => Ok(value)
    case NoResponse(failure) => Err(RequestError(operation, failure))
  }

  function RequestError(operation: Text, failure: Failure): (e: LndError)
    ensures !e.OutcomeUnknown? && !e.InvalidResponse? && !e.InvalidRequest? && !e.PaymentFailed?
  {
    match failure
    case Refused(status) => MapStatus(operation, status)
    case DeadlinePassed => Timeout(operation)
  }

  /** `bounded_mutating_request_until`. */
  function BoundedMutatingRequest<T>(operation: Text, identifier: Option<Text>, reply: Reply<T>):
    Result<T, LndError>
  {
    match reply
    case Response(value) => Ok(value)
    case NoResponse(Refused(status)) =>
      if IsAmbiguous(status) then Err(OutcomeUnknown(operation, identifier))
      else Err(MapStatus(operation, status))
    case NoResponse(DeadlinePassed) => Err(OutcomeUnknown(operation, identifier))
  }

  /** After a mutation was sent, a failure is definitive or says that the outcome is unknown: it is
      never a timeout or a transport failure, and it differs from the failure of a plain call exactly
      when the outcome is unknown. */
  lemma MutationNeverBlind<T>(operation: Text, identifier: Option<Text>, reply: Reply<T>)
    ensures var r := BoundedMutatingRequest(operation, identifier, reply);
      && (r.Ok? <==> reply.Response?)
      && (r.Err? ==> !r.error.Timeout? && !r.error.Transport?)
      && (r != BoundedRequest(operation, reply) <==> r == Err(OutcomeUnknown(operation, identifier)))
  {
  }

  /** Of a definitive refusal the code is known: none of those that a lost connection produces. */
  lemma DefinitiveCodes<T>(operation: Text, identifier: Option<Text>, reply: Reply<T>)
    ensures var r := BoundedMutatingRequest(operation, identifier, reply);
      (r.Err? && !r.error.OutcomeUnknown?) <==>
        (reply.NoResponse? && reply.failure.Refused? && !IsAmbiguous(reply.failure.status))
  {
  }

  // ---------------------------------------------------------------------------------------------
  // By number

  /** The numbers that gRPC gives to the codes. */
  const CODES: seq<Code> := [
    CodeOk, Cancelled, CodeUnknown, InvalidArgument, DeadlineExceeded, NotFound, AlreadyExists,
    PermissionDenied, ResourceExhausted, FailedPrecondition, Aborted, OutOfRange, Unimplemented,
    Internal, Unavailable, DataLoss, Unauthenticated]

  /** The code is one of those with these numbers. */
  predicate HasNumber(code: Code, numbers: set<nat>) {
    exists k | 0 <= k < |CODES| :: k in numbers && CODES[k] == code
  }

  /** No answer came, and nothing rules out that the request was acted on: the deadline passed, the
      connection failed, or the code is 1, 2, 4, 8, 13 or 14. */
  predicate MayHaveActed(failure: Failure) {
    match failure
    case DeadlinePassed => true
    case Refused(status) => true in status.sources || HasNumber(status.code, {1, 2, 4, 8, 13, 14})
  }

  lemma AmbiguousIff(status: Status)
    ensures IsAmbiguous(status) <==> MayHaveActed(Refused(status))
  {
    NumbersAre(status.code);
  }

  lemma NumbersAre(code: Code)
    ensures CODES[1] == Cancelled && CODES[2] == CodeUnknown && CODES[4] == DeadlineExceeded
    ensures CODES[7] == PermissionDenied && CODES[8] == ResourceExhausted && CODES[10] == Aborted
    ensures CODES[13] == Internal && CODES[14] == Unavailable && CODES[16] == Unauthenticated
    ensures |CODES| == 17
  {
  }

  /** What a call reports that is not answered, a plain one and one that changes something. The codes 7
      and 16 are a refusal of the credentials; a lost connection is reported as such, whatever its code. */
  lemma UnansweredIs<T>(operation: Text, identifier: Option<Text>, failure: Failure)
    ensures var plain: Result<T, LndError> := BoundedRequest(operation, NoResponse(failure));
      && (plain == Err(Timeout(operation)) <==> failure.DeadlinePassed?)
      && (plain == Err(Transport(operation)) <==> failure.Refused? && true in failure.status.sources)
      && (plain == Err(Authentication(operation)) <==>
          failure.Refused? && true !in failure.status.sources && HasNumber(failure.status.code, {7, 16}))
      && (failure.Refused? && true !in failure.status.sources && !HasNumber(failure.status.code, {7, 16}) <==>
          failure.Refused? && plain == Err(StatusError(failure.status.code, operation)))
    ensures var changing: Result<T, LndError> := BoundedMutatingRequest(operation, identifier, NoResponse(failure));
      changing ==
        if MayHaveActed(failure) then Err(OutcomeUnknown(operation, identifier))
        else BoundedRequest(operation, NoResponse(failure))
  {
    if failure.Refused? {
      AmbiguousIff(failure.status);
      NumbersAre(failure.status.code);
    }
    hide IsAmbiguous;
  }
}
