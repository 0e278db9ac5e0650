/** The arithmetic of a channel: what the fixture's guards accept is accepted everywhere behind them, and
    what LND may report of such a channel converts. */
module Amounts {
  import opened ChannelOpen
  import opened Options
  import opened Rpc

  const MAX_UINT64: nat := 0xFFFF_FFFF_FFFF_FFFF
  const MAX_MONEY: nat := 21_000_000_00000000
  const FUNDING_RESERVE: nat := 200_000
  const MIN_NOMINAL_SIDE_BALANCE: nat := 100_000

  type UInt64 = n: nat | n <= 0xFFFF_FFFF_FFFF_FFFF

  // ---------------------------------------------------------------------------------------------
  // The fixture's guards

  datatype Allocation = Allocation(capacity: UInt64, push: UInt64, fundingAmount: UInt64)

  datatype Guard =
    | FundingOverflows | CapacityBeyondRequest | PushBeyondRequest | FundingBeyondMoney | PushZero | PushNotLower
    | AliceTooPoor | BobTooPoor

  /** The numeric guards of `LndPairBuilder::validate`, in order. */
  function Validate(capacity: UInt64, push: UInt64): Result<Allocation, Guard> {
    if capacity + FUNDING_RESERVE > MAX_UINT64 then Err(FundingOverflows)
    else if capacity > MAX_INT64 then Err(CapacityBeyondRequest)
    else if push > MAX_INT64 then Err(PushBeyondRequest)
    else if capacity + FUNDING_RESERVE > MAX_MONEY then Err(FundingBeyondMoney)
    else if push == 0 then Err(PushZero)
    else if push >= capacity then Err(PushNotLower)
    else if capacity - push < MIN_NOMINAL_SIDE_BALANCE then Err(AliceTooPoor)
    else if push < MIN_NOMINAL_SIDE_BALANCE then Err(BobTooPoor)
    else Ok(Allocation(capacity, push, capacity + FUNDING_RESERVE))
  }

  /** Three conditions are all that the eight guards ask for. */
  lemma ValidateIff(capacity: UInt64, push: UInt64)
    ensures Validate(capacity, push).Ok? <==>
      && push >= 100_000 && capacity - push >= 100_000
      && capacity + 200_000 <= 21_000_000 * 100_000_000
    ensures Validate(capacity, push).Ok? ==>
      Validate(capacity, push).value == Allocation(capacity, push, capacity + 200_000)
  {
  }

  /** `OpenChannelRequest::new`. */
  function NewOpenRequest(capacity: UInt64, push: UInt64): Result<OpenRequest, LndError> {
    if capacity == 0 then Err(InvalidRequest(CapacityZero))
    else if push >= capacity then Err(InvalidRequest(PushExceedsCapacity))
    else Ok(OpenRequest(capacity, push))
  }

  // ---------------------------------------------------------------------------------------------
  // Reported channels

  datatype ProtoChannel = ProtoChannel(capacity: int, localBalance: int, remoteBalance: int)

  /** Capacity in satoshis, balances in millisatoshis. */
  datatype Channel = Channel(capacity: UInt64, localBalance: UInt64, remoteBalance: UInt64)

  function Invalid(detail: Detail): LndError { InvalidResponse("list channels", detail, None) }

  /** `Millisats::try_from`. */
  function ToMillisats(sats: UInt64): Option<UInt64> {
    if sats * 1_000 <= MAX_UINT64 then Some(sats * 1_000) else None
  }

  /** The numeric part of `channel`; the reported numbers are signed 64-bit. */
  function ConvertChannel(p: ProtoChannel): Result<Channel, LndError>
    requires p.capacity <= MAX_INT64 && p.localBalance <= MAX_INT64 && p.remoteBalance <= MAX_INT64
  {
    if p.capacity < 0 || p.localBalance < 0 || p.remoteBalance < 0 then Err(Invalid(AmountNegative))
    else if p.localBalance + p.remoteBalance > MAX_UINT64 then Err(Invalid(BalanceSumOverflows))
    else if p.localBalance + p.remoteBalance > p.capacity then Err(Invalid(BalancesExceedCapacity))
    else
      var local, remote := ToMillisats(p.localBalance), ToMillisats(p.remoteBalance);
      if local.None? then Err(Invalid(LocalBalanceOverflows))
      else if remote.None? then Err(Invalid(RemoteBalanceOverflows))
      else Ok(Channel(p.capacity, local.value, remote.value))
  }

  /** `Channel::try_new` accepts these numbers; it adds and multiplies in 128 bits, so nothing overflows. */
  predicate FitsCapacity(c: Channel) {
    c.localBalance + c.remoteBalance <= c.capacity * 1_000
  }

  /** Every converted channel meets what its validated constructor demands. */
  lemma ConvertedFits(p: ProtoChannel)
    requires p.capacity <= MAX_INT64 && p.localBalance <= MAX_INT64 && p.remoteBalance <= MAX_INT64
    requires ConvertChannel(p).Ok?
    ensures FitsCapacity(ConvertChannel(p).value)
  {
  }

  /** Which reports convert, whatever channel they are of: balances that are there, fit into the capacity
      and are each below what 64 bits hold in millisatoshis. Of the guards against an overflowing sum
      none ever fires: two signed 64-bit numbers fit into 64 bits. */
  lemma ConvertIff(p: ProtoChannel)
    requires p.capacity <= MAX_INT64 && p.localBalance <= MAX_INT64 && p.remoteBalance <= MAX_INT64
    ensures ConvertChannel(p).Ok? <==>
      && 0 <= p.localBalance <= MAX_UINT64 / 1_000 && 0 <= p.remoteBalance <= MAX_UINT64 / 1_000
      && p.localBalance + p.remoteBalance <= p.capacity
    ensures ConvertChannel(p) != Err(Invalid(BalanceSumOverflows))
  {
  }

  /** An allocation that the guards accept is rejected neither by the request's constructor nor by the
      conversion to signed numbers; and of the channel it opens, any reported balances that are not
      negative and fit into the capacity convert without overflow into a channel that its validated
      constructor accepts. */
  lemma AcceptedAllTheWay(capacity: UInt64, push: UInt64, local: nat, remote: nat)
    requires Validate(capacity, push).Ok? && local + remote <= capacity
    ensures NewOpenRequest(capacity, push) == Ok(OpenRequest(capacity, push))
    ensures ToOpenRequest(OpenRequest(capacity, push)) == Ok((capacity, push))
    ensures var p := ProtoChannel(capacity, local, remote);
      && ConvertChannel(p) == Ok(Channel(capacity, local * 1_000, remote * 1_000))
      && FitsCapacity(ConvertChannel(p).value)
  {
  }

  // ---------------------------------------------------------------------------------------------
  // Reported balances

  datatype ProtoBalance = ProtoBalance(total: int, confirmed: int, unconfirmed: int)

  datatype WalletBalance = WalletBalance(total: UInt64, confirmed: UInt64, unconfirmed: UInt64)

  /** `wallet_balance`. */
  function ConvertBalance(p: ProtoBalance): Result<WalletBalance, LndError>
    requires p.total <= MAX_INT64 && p.confirmed <= MAX_INT64 && p.unconfirmed <= MAX_INT64
  {
    if p.total < 0 || p.confirmed < 0 || p.unconfirmed < 0 then
      Err(InvalidResponse("wallet balance", AmountNegative, None))
    else if p.confirmed + p.unconfirmed > MAX_UINT64 then
      Err(InvalidResponse("wallet balance", WalletSumOverflows, None))
    else if p.confirmed + p.unconfirmed != p.total then
      Err(InvalidResponse("wallet balance", TotalMismatch, None))
    else Ok(WalletBalance(p.total, p.confirmed, p.unconfirmed))
  }

  /** A balance converts exactly when its parts are there and add up, and then nothing is changed. */
  lemma BalanceIff(p: ProtoBalance, b: WalletBalance)
    requires p.total <= MAX_INT64 && p.confirmed <= MAX_INT64 && p.unconfirmed <= MAX_INT64
    ensures ConvertBalance(p) == Ok(b) <==>
      && p == ProtoBalance(b.total, b.confirmed, b.unconfirmed) && b.confirmed + b.unconfirmed == b.total
  {
  }
}
