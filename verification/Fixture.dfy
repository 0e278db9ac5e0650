/** The errors that end a fixture's start, and which adapter errors it waits out. */
module Fixture {
  import opened Rpc
  import opened Utf8

  /** The fixture's deadline, an error of the Lightning adapter, or one of the Bitcoin client. */
  datatype FixtureError = DeadlineExpired | Bootstrap(source: LndError) | BitcoinFailed(detail: Text)

  /** `is_transient_lnd_readiness`. */
  predicate IsTransient(e: LndError) {
    match e
    case Transport(_) => true
    case Timeout(_) => true
    case StatusError(code, _) => code in {Unavailable, DeadlineExceeded, ResourceExhausted, Aborted, CodeUnknown}
    case _ => false
  }

  /** A failure that is waited out, of any call: the deadline passed, the connection failed, or the code
      is 2, 4, 8, 10 or 14. */
  predicate WillPass(failure: Failure) {
    match failure
    case DeadlinePassed => true
    case Refused(status) => true in status.sources || HasNumber(status.code, {2, 4, 8, 10, 14})
  }

  lemma TransientIff(operation: Text, failure: Failure)
    ensures IsTransient(RequestError(operation, failure)) <==> WillPass(failure)
  {
    if failure.Refused? {
      NumbersAre(failure.status.code);
    }
  }

  /** No other error is waited out. */
  lemma OnlyUnansweredIsTransient(e: LndError)
    requires IsTransient(e)
    ensures e.Timeout? || e.Transport? || (e.StatusError? && HasNumber(e.code, {2, 4, 8, 10, 14}))
  {
    if e.StatusError? {
      NumbersAre(e.code);
    }
  }
}
