/** Opening a channel: following LND's stream of open updates to the funding outpoint or to an error
    that does not pretend to know more than was seen. */
module ChannelOpen {
  import opened Decimal
  import opened Hex
  import opened Options
  import opened Rpc
  import opened Search
  import opened Utf8

  // ---------------------------------------------------------------------------------------------
  // Outpoints

  datatype FundingTxid = TxidBytes(bytes: Bytes) | TxidStr(text: Text)

  datatype ChannelPoint = ChannelPoint(fundingTxid: Option<FundingTxid>, outputIndex: nat)

  /** A transaction id in the byte order of the network; it is printed the other way round. */
  datatype OutPoint = OutPoint(txid: Bytes, vout: nat)

  function Reversed(b: Bytes): (r: Bytes)
    ensures |r| == |b| && forall i | 0 <= i < |b| :: r[i] == b[|b| - 1 - i]
  {
    seq(|b|, i requires 0 <= i < |b| => b[|b| - 1 - i])
  }

  /** How an outpoint is printed, and so how it identifies an unfinished operation. */
  function Display(p: OutPoint): Text {
    LowercaseHex(Reversed(p.txid)) + ":" + Digits(p.vout)
  }

  /** The identifier in an error determines the point. */
  lemma DisplayInjective(p: OutPoint, q: OutPoint)
    requires |p.txid| == |q.txid| && Display(p) == Display(q)
    ensures p == q
  {
    hide LowercaseHex, Digits, Value;
    Suffix(LowercaseHex(Reversed(p.txid)), Digits(p.vout), LowercaseHex(Reversed(q.txid)), Digits(q.vout));
    HexInjective(Reversed(p.txid), Reversed(q.txid));
    assert Reversed(Reversed(p.txid)) == p.txid && Reversed(Reversed(q.txid)) == q.txid;
    ValueOfDigits(p.vout);
    ValueOfDigits(q.vout);
  }

  lemma Suffix(a: Text, b: Text, x: Text, y: Text)
    requires |a| == |x| && a + ":" + b == x + ":" + y
    ensures a == x && b == y
  {
    assert a == (a + ":" + b)[..|a|] && x == (x + ":" + y)[..|a|];
    assert b == (a + ":" + b)[|a| + 1..] && y == (x + ":" + y)[|a| + 1..];
  }

  /** `channel_point`. */
  function ToOutPoint(point: ChannelPoint): Result<OutPoint, LndError> {
    match point.fundingTxid
    case Some(TxidBytes(bytes)) =>
      if |bytes| == 32 then Ok(OutPoint(bytes, point.outputIndex))
      else Err(InvalidResponse("open channel", FundingTxidMalformed, None))
    case Some(TxidStr(text)) =>
      var parsed := ParseHex(text);
      if parsed.Some? then Ok(OutPoint(Reversed(parsed.value), point.outputIndex))
      else Err(InvalidResponse("open channel", FundingTxidMalformed, None))
    case None => Err(InvalidResponse("open channel", FundingTxidMissing, None))
  }

  /** A point given in bytes is the point given in text exactly when the text is the hexadecimal of the
      bytes in reverse, in either letter case, and the indices agree. */
  lemma PointFormsAgree(bytes: Bytes, text: Text, i: nat, k: nat)
    requires |bytes| == 32
    ensures ToOutPoint(ChannelPoint(Some(TxidStr(text)), k)) == ToOutPoint(ChannelPoint(Some(TxidBytes(bytes)), i))
      <==> i == k && LowerText(text) == LowercaseHex(Reversed(bytes))
  {
    ParseHexIff(text, Reversed(bytes));
    assert Reversed(Reversed(bytes)) == bytes;
    var parsed := ParseHex(text);
    if parsed.Some? {
      assert Reversed(Reversed(parsed.value)) == parsed.value;
    }
  }

  // ---------------------------------------------------------------------------------------------
  // Updates

  datatype OpenUpdate =
    | ChanPending(txid: Bytes, outputIndex: nat)
    | ChanOpen(channelPoint: Option<ChannelPoint>)
    | PsbtFund
    | NoState

  datatype Stop = End | Failure(cause: Rpc.Failure)

  /** The point that an update announces as pending. */
  function PendingPoint(u: OpenUpdate): Option<OutPoint> {
    match u
    case ChanPending(txid, outputIndex) =>
      (match ToOutPoint(ChannelPoint(Some(TxidBytes(txid)), outputIndex))
       case Ok(point) => Some(point)
       case Err(_) => None)
    case _ => None
  }

  /** The point that an update reports as open. */
  function OpenedPoint(u: OpenUpdate): Option<OutPoint> {
    match u
    case ChanOpen(Some(channelPoint)) =>
      (match ToOutPoint(channelPoint)
       case Ok(point) => Some(point)
       case Err(_) => None)
    case _ => None
  }

  /** The first `n` updates announce one point. */
  predicate Announces(updates: seq<OpenUpdate>, n: nat) {
    && n <= |updates|
    && forall k | 0 <= k < n :: PendingPoint(updates[k]).Some? && PendingPoint(updates[k]) == PendingPoint(updates[0])
  }

  function Announced(updates: seq<OpenUpdate>, n: nat): (p: Option<OutPoint>)
    requires Announces(updates, n)
    ensures p.Some? <==> n > 0
  {
    if n == 0 then None else PendingPoint(updates[0])
  }

  /** How many updates announce one point before anything else comes. */
  function Announcements(updates: seq<OpenUpdate>): (n: nat)
    ensures Announces(updates, n)
    ensures n < |updates| ==> !Announces(updates, n + 1)
  {
    if updates == [] then 0
    else
      var last := |updates| - 1;
      var n := Announcements(updates[..last]);
      assert n < last ==> !Announces(updates, n + 1) by {
        assert n < last ==> (Announces(updates, n + 1) ==> Announces(updates[..last], n + 1));
      }
      if n == last && Announces(updates, n + 1) then n + 1 else n
  }

  function InvalidOpen(detail: Detail, point: Option<OutPoint>): LndError {
    InvalidResponse("open channel", detail, if point.Some? then Some(Display(point.value)) else None)
  }

  /** The answer when the stream stops after announcing `pending`, or nothing. */
  function AtStop(pending: Option<OutPoint>, stop: Stop): LndError {
    match stop
    case End => InvalidOpen(StreamEndedBeforeOpen, pending)
    case Failure(cause) =>
      if pending.Some? then OutcomeUnknown("open channel", Some(Display(pending.value)))
      else if cause.DeadlinePassed? || IsAmbiguous(cause.status) then OutcomeUnknown("open channel", None)
      else MapStatus("open channel", cause.status)
  }

  /** The answer to the first update that does not announce `pending` again. */
  function AtUpdate(pending: Option<OutPoint>, u: OpenUpdate): Result<OutPoint, LndError>
    requires PendingPoint(u).Some? ==> pending.Some? && pending != PendingPoint(u)
  {
    match u
    case ChanPending(txid, outputIndex) =>
      if |txid| == 32 then Err(InvalidOpen(PendingPointChanged, pending))
      else Err(InvalidResponse("open channel", FundingTxidMalformed, None))
    case ChanOpen(None) => Err(InvalidOpen(OpenedPointMissing, pending))
    case ChanOpen(Some(channelPoint)) =>
      (match ToOutPoint(channelPoint)
       case Err(e) => Err(e)
       case Ok(point) =>
         if pending.Some? && pending.value != point then Err(InvalidOpen(OpenedPointMismatch, pending))
         else Ok(point))
    case PsbtFund => Err(InvalidOpen(UnexpectedPsbt, pending))
    case NoState => Err(InvalidOpen(UpdateWithoutState, pending))
  }

  /** The verdict on a trace: what comes right after the announcements decides. */
  function Verdict(updates: seq<OpenUpdate>, stop: Stop): Result<OutPoint, LndError> {
    var n := Announcements(updates);
    if n == |updates| then Err(AtStop(Announced(updates, n), stop))
    else AtUpdate(Announced(updates, n), updates[n])
  }

  /** The announcements end where they first cannot go on. */
  lemma Decided(updates: seq<OpenUpdate>, n: nat)
    requires Announces(updates, n) && (n < |updates| ==> !Announces(updates, n + 1))
    ensures Announcements(updates) == n
  {
  }

  // ---------------------------------------------------------------------------------------------
  // The stream loop

  /** The loop of `open_channel_with`. Waiting for an update is bounded as a mutation until a point is
      pending, and as a plain request after that. */
  method FollowOpenStream(updates: seq<OpenUpdate>, stop: Stop) returns (r: Result<OutPoint, LndError>)
    ensures r == Verdict(updates, stop)
  {
    var pendingPoint: Option<OutPoint> := None;
    var next := 0;
    while true
      invariant 0 <= next <= |updates| && Announces(updates, next) && pendingPoint == Announced(updates, next)
      decreases |updates| - next
    {
      var reply: Reply<Option<OpenUpdate>> :=
        if next < |updates| then Response(Some(updates[next]))
        else match stop
          case End => Response(None)
          case Failure(cause) => NoResponse(cause);
      var bounded := if pendingPoint.Some? then BoundedRequest("open channel", reply)
                     else BoundedMutatingRequest("open channel", None, reply);
      if next == |updates| || !Announces(updates, next + 1) {
        Decided(updates, next);
      }
      if bounded.Err? {
        if pendingPoint.Some? {
          return Err(OutcomeUnknown("open channel", Some(Display(pendingPoint.value))));
        }
        return Err(bounded.error);
      }
      if bounded.value.None? {
        return Err(InvalidOpen(StreamEndedBeforeOpen, pendingPoint));
      }
      match bounded.value.value
      case ChanPending(txid, outputIndex) =>
        var point := ToOutPoint(ChannelPoint(Some(TxidBytes(txid)), outputIndex));
        if point.Err? {
          return Err(point.error);
        }
        if pendingPoint.Some? && pendingPoint.value != point.value {
          return Err(InvalidOpen(PendingPointChanged, pendingPoint));
        }
        pendingPoint := Some(point.value);
        next := next + 1;
      case ChanOpen(channelPoint) =>
        if channelPoint.None? {
          return Err(InvalidOpen(OpenedPointMissing, pendingPoint));
        }
        var point := ToOutPoint(channelPoint.value);
        if point.Err? {
          return Err(point.error);
        }
        if pendingPoint.Some? && pendingPoint.value != point.value {
          return Err(InvalidOpen(OpenedPointMismatch, pendingPoint));
        }
        return Ok(point.value);
      case PsbtFund =>
        return Err(InvalidOpen(UnexpectedPsbt, pendingPoint));
      case NoState =>
        return Err(InvalidOpen(UpdateWithoutState, pendingPoint));
    }
  }

  // ---------------------------------------------------------------------------------------------
  // What a verdict means

  /** The updates up to `i` announce `p`, if there are any, and update `i` reports it open. */
  predicate OpensAt(updates: seq<OpenUpdate>, i: nat, p: OutPoint) {
    && i < |updates| && OpenedPoint(updates[i]) == Some(p)
    && forall k | 0 <= k < i :: PendingPoint(updates[k]) == Some(p)
  }

  /** `Ok(p)` exactly for zero or more announcements of `p` followed by `p` reported open; whatever
      comes later is never read. */
  lemma OkIff(updates: seq<OpenUpdate>, stop: Stop, p: OutPoint)
    ensures Verdict(updates, stop) == Ok(p) <==> exists i: nat :: OpensAt(updates, i, p)
  {
    if i: nat :| OpensAt(updates, i, p) {
      Decided(updates, i);
    } else if Verdict(updates, stop) == Ok(p) {
      assert OpensAt(updates, Announcements(updates), p);
    }
  }

  /** Once a point is pending, any failure of the stream or the deadline leaves the outcome unknown,
      and the error carries that point. */
  lemma PendingThenFailure(updates: seq<OpenUpdate>, cause: Rpc.Failure, p: OutPoint)
    requires updates != [] && forall u | u in updates :: PendingPoint(u) == Some(p)
    ensures Verdict(updates, Failure(cause)) == Err(OutcomeUnknown("open channel", Some(Display(p))))
  {
    Decided(updates, |updates|);
  }

  /** The outcome is unknown exactly when the stream breaks off after nothing but announcements of one
      point, or before any update in a way that does not rule the opening out. */
  lemma OutcomeUnknownIff(updates: seq<OpenUpdate>, stop: Stop)
    ensures var r := Verdict(updates, stop);
      r.Err? && r.error.OutcomeUnknown? <==>
        && stop.Failure? && Announces(updates, |updates|)
        && (updates == [] ==> stop.cause.DeadlinePassed? || IsAmbiguous(stop.cause.status))
  {
    if Announces(updates, |updates|) {
      Decided(updates, |updates|);
    }
  }

  /** No failure is a timeout or a transport failure, before a point is pending or after. A refusal
      with a definitive code is only reported while nothing is pending. */
  lemma NeverBlind(updates: seq<OpenUpdate>, stop: Stop)
    ensures var r := Verdict(updates, stop);
      && (r.Err? ==> !r.error.Timeout? && !r.error.Transport?)
      && (r.Err? && (r.error.Authentication? || r.error.StatusError?) ==> updates == [])
  {
    if Announcements(updates) == |updates| && |updates| > 0 {
      assert Announced(updates, |updates|).Some?;
    }
  }

  /** An invalid response names the pending point; it names nothing when nothing is pending or when
      the update itself holds a malformed point. */
  lemma InvalidNamesPending(updates: seq<OpenUpdate>, stop: Stop)
    ensures var r := Verdict(updates, stop);
      r.Err? && r.error.InvalidResponse? ==>
        var n := Announcements(updates);
        || r.error.identifier == (if n == 0 then None else Some(Display(Announced(updates, n).value)))
        || (r.error.identifier.None? && r.error.detail in {FundingTxidMalformed, FundingTxidMissing})
  {
  }

  // ---------------------------------------------------------------------------------------------
  // The whole call

  const MAX_INT64: nat := 0x7FFF_FFFF_FFFF_FFFF

  datatype OpenRequest = OpenRequest(capacity: nat, pushAmount: nat)

  /** `proto_open_channel_request`. */
  function ToOpenRequest(request: OpenRequest): Result<(int, int), LndError> {
    if request.capacity > MAX_INT64 then Err(InvalidRequest(CapacityTooLarge))
    else if request.pushAmount > MAX_INT64 then Err(InvalidRequest(PushTooLarge))
    else Ok((request.capacity, request.pushAmount))
  }

  /** `open_channel_with`: `fits` says whether the deadline can be represented, `sent` how the request fared,
      and the rest what its stream carries. */
  function OpenChannel(request: OpenRequest, fits: bool, sent: Reply<()>, updates: seq<OpenUpdate>, stop: Stop):
    Result<OutPoint, LndError>
  {
    match ToOpenRequest(request)
    case Err(e) => Err(e)
    case Ok(_) =>
      if OperationDeadline(fits).Some? then Err(OperationDeadline(fits).value)
      else
        match BoundedMutatingRequest("open channel", None, sent)
        case Err(e) => Err(e)
        case Ok(_) => Verdict(updates, stop)
  }

  /** Of the whole call, too: an invalid request is reported exactly when nothing was sent, no failure claims a
      timeout or a transport failure, and a definitive refusal means that no point was ever announced to the
      caller. */
  lemma OpenChannelErrors(
      request: OpenRequest, fits: bool, sent: Reply<()>, updates: seq<OpenUpdate>, stop: Stop)
    ensures var r := OpenChannel(request, fits, sent, updates, stop);
      && (r.Err? ==> !r.error.Timeout? && !r.error.Transport?)
      && (r.Err? && r.error.InvalidRequest? <==> ToOpenRequest(request).Err? || !fits)
      && (r.Err? && (r.error.Authentication? || r.error.StatusError?) ==> sent.NoResponse? || updates == [])
      && (r.Ok? ==> sent.Response? && exists i: nat :: OpensAt(updates, i, r.value))
  {
    var r := OpenChannel(request, fits, sent, updates, stop);
    NeverBlind(updates, stop);
    if r.Ok? {
      OkIff(updates, stop, r.value);
    }
  }

  /** A channel is opened exactly when both amounts fit the request's fields, the request was answered, and
      the stream announces one point, if any, and then reports it open. */
  lemma OpenChannelOkIff(
      request: OpenRequest, fits: bool, sent: Reply<()>, updates: seq<OpenUpdate>, stop: Stop, p: OutPoint)
    ensures OpenChannel(request, fits, sent, updates, stop) == Ok(p) <==>
      && request.capacity <= 0x7FFF_FFFF_FFFF_FFFF && request.pushAmount <= 0x7FFF_FFFF_FFFF_FFFF
      && fits && sent.Response? && exists i: nat :: OpensAt(updates, i, p)
  {
    OkIff(updates, stop, p);
    hide Verdict, OpensAt;
  }

  // ---------------------------------------------------------------------------------------------
  // Points and refusals, read off the messages

  /** A point in bytes is taken as it is; they are 32. */
  lemma BytesPointIs(bytes: Bytes, i: nat, p: OutPoint)
    ensures ToOutPoint(ChannelPoint(Some(TxidBytes(bytes)), i)) == Ok(p) <==> |bytes| == 32 && p == OutPoint(bytes, i)
  {
  }

  /** A point in text is 64 hexadecimal digits of either case; printed, it is that text in lower case
      and the index. */
  lemma TextPointIs(text: Text, i: nat)
    ensures var r := ToOutPoint(ChannelPoint(Some(TxidStr(text)), i));
      && (r.Ok? <==> |text| == 64 && forall c | c in text :: IsHexDigit(c))
      && (r.Ok? ==> Display(r.value) == LowerText(text) + ":" + Digits(i))
      && (r.Ok? ==> Value(Digits(i)) == i)
  {
    ParsedIff(text);
    ValueOfDigits(i);
    var parsed := ParseHex(text);
    if parsed.Some? {
      ParseHexIff(text, parsed.value);
      assert Reversed(Reversed(parsed.value)) == parsed.value;
    }
    hide IsHexDigit, ParseHex, LowercaseHex;
  }

  /** The digits of an outpoint are those of its transaction id from the last byte to the first. */
  lemma DisplayDigits(p: OutPoint, k: nat)
    requires k < |p.txid|
    ensures var b, s := p.txid[|p.txid| - 1 - k], Display(p);
      && |s| > 2 * k + 1 && s[2 * k] == HEX_DIGITS[b / 16] && s[2 * k + 1] == HEX_DIGITS[b % 16]
  {
    PrintedDigits(Reversed(p.txid), k);
    hide LowercaseHex;
  }

  /** How the pending point, if any, is named in an error. */
  function Named(updates: seq<OpenUpdate>, n: nat): Option<Text>
    requires Announces(updates, n)
  {
    if n == 0 then None else Some(Display(PendingPoint(updates[0]).value))
  }

  /** The first update that does not announce the same point again, and is not that point reported open,
      is refused for what it is. */
  lemma RefusedFor(updates: seq<OpenUpdate>, stop: Stop, n: nat)
    requires n < |updates| && Announces(updates, n) && !Announces(updates, n + 1)
    ensures var u, r, named := updates[n], Verdict(updates, stop), Named(updates, n);
      && (u.PsbtFund? ==> r == Err(InvalidResponse("open channel", UnexpectedPsbt, named)))
      && (u.NoState? ==> r == Err(InvalidResponse("open channel", UpdateWithoutState, named)))
      && (u == ChanOpen(None) ==> r == Err(InvalidResponse("open channel", OpenedPointMissing, named)))
      && (OpenedPoint(u).Some? && n > 0 && OpenedPoint(u) != PendingPoint(updates[0]) ==>
          r == Err(InvalidResponse("open channel", OpenedPointMismatch, named)))
      && (u.ChanPending? && |u.txid| == 32 ==>
          r == Err(InvalidResponse("open channel", PendingPointChanged, named)))
      && (u.ChanPending? && |u.txid| != 32 ==>
          r == Err(InvalidResponse("open channel", FundingTxidMalformed, None)))
  {
    Decided(updates, n);
  }

  /** A stream that breaks off before any update tells no more than a request that was not answered. */
  lemma BrokenOff(cause: Rpc.Failure)
    ensures Verdict([], Failure(cause)) ==
      Err(if MayHaveActed(cause) then OutcomeUnknown("open channel", None) else RequestError("open channel", cause))
  {
    if cause.Refused? {
      AmbiguousIff(cause.status);
    }
    hide IsAmbiguous, MapStatus;
  }

  /** A stream that ends after nothing but announcements ended too early. */
  lemma EndedEarly(updates: seq<OpenUpdate>)
    requires Announces(updates, |updates|)
    ensures Verdict(updates, End) ==
      Err(InvalidResponse("open channel", StreamEndedBeforeOpen, Named(updates, |updates|)))
  {
    Decided(updates, |updates|);
  }
}
