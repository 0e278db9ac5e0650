/** Opening and confirming a channel: the open call races against polls of the mempool, and the blocks
    that confirm the channel are mined once. */
module FundingRace {
  import opened ChannelOpen
  import opened Fixture
  import opened Hex
  import opened Options
  import opened Rpc

  const CHANNEL_CONFIRMATIONS: nat := 6

  type Txid = Bytes

  type OpenResult = Result<OutPoint, FixtureError>

  /** What the surroundings do while one `select!` waits: whether the open call completes before the
      mempool answers, the answer of the mempool, and how the pause after it ends. The open call is
      looked at first, so a completion wins. */
  datatype Round = Round(
    open: Option<OpenResult>, mempool: Result<set<Txid>, FixtureError>, pause: Option<FixtureError>)

  /** A whole run: the first look at the mempool, the rounds - when they are used up, the deadline has
      passed -, the mining, and the open call if it is still awaited after the mining. */
  datatype Surroundings = Surroundings(
    baseline: Result<set<Txid>, FixtureError>, rounds: seq<Round>, mined: Option<FixtureError>, late: OpenResult)

  /** What the fixture does. `Saw` is a mempool that was fetched. */
  datatype Action = PollOpen(completes: bool) | Saw(mempool: set<Txid>) | Mine(blocks: nat)

  // ---------------------------------------------------------------------------------------------
  // The race

  datatype RaceEnd = Stopped(error: FixtureError) | Triggered(newlyObserved: set<Txid>, completed: Option<OutPoint>)

  predicate OpenWins(completed: Option<OutPoint>, r: Round) {
    completed.None? && r.open.Some?
  }

  function Race(baseline: set<Txid>, completed: Option<OutPoint>, rounds: seq<Round>): RaceEnd
    decreases |rounds|
  {
    if rounds == [] then Stopped(DeadlineExpired)
    else
      var r, rest := rounds[0], rounds[1..];
      if OpenWins(completed, r) then
        match r.open.value
        case Ok(point) => Race(baseline, Some(point), rest)
        case Err(e) => Stopped(e)
      else
        match r.mempool
        case Err(e) => Stopped(e)
        case Ok(current) =>
          if current - baseline != {} then Triggered(current - baseline, completed)
          else if r.pause.Some? then Stopped(r.pause.value)
          else Race(baseline, completed, rest)
  }

  /** What is done in one round. */
  function RoundActions(completed: Option<OutPoint>, r: Round): seq<Action> {
    if OpenWins(completed, r) then [PollOpen(true)]
    else (if completed.None? then [PollOpen(false)] else []) + (if r.mempool.Ok? then [Saw(r.mempool.value)] else [])
  }

  function RaceActions(baseline: set<Txid>, completed: Option<OutPoint>, rounds: seq<Round>): seq<Action>
    decreases |rounds|
  {
    if rounds == [] then []
    else
      var r, rest := rounds[0], rounds[1..];
      var now := RoundActions(completed, r);
      if OpenWins(completed, r) then
        match r.open.value
        case Ok(point) => now + RaceActions(baseline, Some(point), rest)
        case Err(_) => now
      else if r.mempool.Err? || r.mempool.value - baseline != {} || r.pause.Some? then now
      else now + RaceActions(baseline, completed, rest)
  }

  function NotObserved(point: OutPoint): FixtureError {
    Bootstrap(InvalidResponse("open channel", FundingNotObserved, Some(LowercaseHex(Reversed(point.txid)))))
  }

  /** The end of a run after the race. */
  function Finish(s: Surroundings, end: RaceEnd): OpenResult {
    match end
    case Stopped(e) => Err(e)
    case Triggered(newlyObserved, completed) =>
      if s.mined.Some? then Err(s.mined.value)
      else
        match (if completed.Some? then Ok(completed.value) else s.late)
        case Err(e) => Err(e)
        case Ok(point) => if point.txid in newlyObserved then Ok(point) else Err(NotObserved(point))
  }

  function FinishActions(s: Surroundings, end: RaceEnd): seq<Action> {
    match end
    case Stopped(_) => []
    case Triggered(_, completed) =>
      [Mine(CHANNEL_CONFIRMATIONS)] + (if s.mined.None? && completed.None? then [PollOpen(true)] else [])
  }

  function Confirmed(s: Surroundings): OpenResult {
    match s.baseline
    case Err(e) => Err(e)
    case Ok(baseline) => Finish(s, Race(baseline, None, s.rounds))
  }

  function Actions(s: Surroundings): seq<Action> {
    match s.baseline
    case Err(_) => []
    case Ok(baseline) =>
      [Saw(baseline)] + RaceActions(baseline, None, s.rounds) + FinishActions(s, Race(baseline, None, s.rounds))
  }

  lemma RaceExhausted(baseline: set<Txid>, completed: Option<OutPoint>)
    ensures Race(baseline, completed, []) == Stopped(DeadlineExpired) && RaceActions(baseline, completed, []) == []
  {
  }

  /** One round. */
  lemma RaceStep(baseline: set<Txid>, completed: Option<OutPoint>, rounds: seq<Round>, n: nat)
    requires n < |rounds|
    ensures var r := rounds[n];
      var end, next := Race(baseline, completed, rounds[n..]), rounds[n + 1..];
      if OpenWins(completed, r) then
        end == if r.open.value.Ok? then Race(baseline, Some(r.open.value.value), next) else Stopped(r.open.value.error)
      else if r.mempool.Err? then end == Stopped(r.mempool.error)
      else if r.mempool.value - baseline != {} then end == Triggered(r.mempool.value - baseline, completed)
      else end == if r.pause.Some? then Stopped(r.pause.value) else Race(baseline, completed, next)
    ensures var r := rounds[n];
      RaceActions(baseline, completed, rounds[n..]) == RoundActions(completed, r) +
        (if OpenWins(completed, r) then
           if r.open.value.Ok? then RaceActions(baseline, Some(r.open.value.value), rounds[n + 1..]) else []
         else if r.mempool.Err? || r.mempool.value - baseline != {} || r.pause.Some? then []
         else RaceActions(baseline, completed, rounds[n + 1..]))
  {
    assert rounds[n..][0] == rounds[n] && rounds[n..][1..] == rounds[n + 1..];
  }

  /** `open_and_confirm_channel`. */
  method OpenAndConfirmChannel(s: Surroundings) returns (r: OpenResult, actions: seq<Action>)
    ensures r == Confirmed(s) && actions == Actions(s)
  {
    hide Race, RaceActions, NotObserved;
    actions := [];
    if s.baseline.Err? {
      return Err(s.baseline.error), actions;
    }
    var baseline := s.baseline.value;
    actions := actions + [Saw(baseline)];
    var completed: Option<OutPoint> := None;
    var newlyObserved: set<Txid> := {};
    var next := 0;
    ghost var race := RaceActions(baseline, None, s.rounds);
    while newlyObserved == {}
      invariant 0 <= next <= |s.rounds|
      invariant newlyObserved == {} ==>
        && Race(baseline, completed, s.rounds[next..]) == Race(baseline, None, s.rounds)
        && actions + RaceActions(baseline, completed, s.rounds[next..]) == [Saw(baseline)] + race
      invariant newlyObserved != {} ==>
        && Race(baseline, None, s.rounds) == Triggered(newlyObserved, completed)
        && actions == [Saw(baseline)] + race
      decreases if newlyObserved == {} then 1 else 0, |s.rounds| - next
    {
      if next == |s.rounds| {
        assert s.rounds[next..] == [];
        RaceExhausted(baseline, completed);
        return Err(DeadlineExpired), actions;
      }
      var round := s.rounds[next];
      RaceStep(baseline, completed, s.rounds, next);
      next := next + 1;
      var current: Option<set<Txid>> := None;
      if completed.None? && round.open.Some? {
        actions := actions + [PollOpen(true)];
        if round.open.value.Err? {
          return Err(round.open.value.error), actions;
        }
        completed := Some(round.open.value.value);
      } else {
        if completed.None? {
          actions := actions + [PollOpen(false)];
        }
        if round.mempool.Err? {
          return Err(round.mempool.error), actions;
        }
        actions := actions + [Saw(round.mempool.value)];
        current := Some(round.mempool.value);
      }
      if current.Some? {
        newlyObserved := current.value - baseline;
        if newlyObserved == {} && round.pause.Some? {
          return Err(round.pause.value), actions;
        }
      }
    }
    actions := actions + [Mine(CHANNEL_CONFIRMATIONS)];
    if s.mined.Some? {
      return Err(s.mined.value), actions;
    }
    var channelPoint: OutPoint;
    if completed.Some? {
      channelPoint := completed.value;
    } else {
      actions := actions + [PollOpen(true)];
      if s.late.Err? {
        return Err(s.late.error), actions;
      }
      channelPoint := s.late.value;
    }
    if channelPoint.txid !in newlyObserved {
      return Err(NotObserved(channelPoint)), actions;
    }
    return Ok(channelPoint), actions;
  }

  // ---------------------------------------------------------------------------------------------
  // Safety over every run

  /** Blocks are mined only right after a mempool was seen that holds a transaction which was not in
      the first one, six of them, and only once. */
  predicate MinesSafely(actions: seq<Action>) {
    forall k | 0 <= k < |actions| && actions[k].Mine? ::
      && actions[k].blocks == CHANNEL_CONFIRMATIONS
      && k >= 2 && actions[0].Saw? && actions[k - 1].Saw?
      && actions[k - 1].mempool - actions[0].mempool != {}
      && forall n | k < n < |actions| :: !actions[n].Mine?
  }

  /** The open call is left alone once it has completed. */
  predicate PollsOpenSafely(actions: seq<Action>) {
    forall k, n | 0 <= k < n < |actions| && actions[k] == PollOpen(true) :: !actions[n].PollOpen?
  }

  predicate LastSees(actions: seq<Action>, baseline: set<Txid>, newlyObserved: set<Txid>) {
    && actions != [] && actions[|actions| - 1].Saw?
    && actions[|actions| - 1].mempool - baseline == newlyObserved
  }

  /** The race mines nothing, completes the open call at most once and leaves it alone then; it is
      triggered by the last thing it does, seeing something new. */
  lemma {:induction false} RaceIsSafe(baseline: set<Txid>, completed: Option<OutPoint>, rounds: seq<Round>)
    ensures var actions, end := RaceActions(baseline, completed, rounds), Race(baseline, completed, rounds);
      && (forall k | 0 <= k < |actions| :: !actions[k].Mine?)
      && PollsOpenSafely(actions)
      && (completed.Some? ==> forall k | 0 <= k < |actions| :: !actions[k].PollOpen?)
      && (end.Triggered? && completed.Some? ==> end.completed == completed)
      && (end.Triggered? ==> LastSees(actions, baseline, end.newlyObserved) && end.newlyObserved != {})
      && (end.Triggered? && end.completed.None? ==> forall k | 0 <= k < |actions| :: actions[k] != PollOpen(true))
    decreases |rounds|
  {
    if rounds != [] {
      var r, rest := rounds[0], rounds[1..];
      if OpenWins(completed, r) {
        if r.open.value.Ok? {
          RaceIsSafe(baseline, Some(r.open.value.value), rest);
        }
      } else if r.mempool.Ok? && r.mempool.value - baseline == {} && r.pause.None? {
        RaceIsSafe(baseline, completed, rest);
      }
    }
  }

  /** In every run: at most one mining, of six blocks, right after something new was seen; and the open
      call is never polled after it completed, before the mining or after it. */
  lemma RunIsSafe(s: Surroundings)
    ensures MinesSafely(Actions(s)) && PollsOpenSafely(Actions(s))
  {
    if s.baseline.Ok? {
      var baseline := s.baseline.value;
      RaceIsSafe(baseline, None, s.rounds);
      var race, end := RaceActions(baseline, None, s.rounds), Race(baseline, None, s.rounds);
      hide RaceActions, Race;
      MiningAfterRace(s, baseline, race, end);
      PollingAfterRace(s, baseline, race, end);
    }
  }

  lemma MiningAfterRace(s: Surroundings, baseline: set<Txid>, race: seq<Action>, end: RaceEnd)
    requires forall k | 0 <= k < |race| :: !race[k].Mine?
    requires end.Triggered? ==> LastSees(race, baseline, end.newlyObserved) && end.newlyObserved != {}
    ensures MinesSafely([Saw(baseline)] + race + FinishActions(s, end))
  {
    var head, finish := [Saw(baseline)] + race, FinishActions(s, end);
    assert forall k | 1 <= k < |head| :: head[k] == race[k - 1];
    assert finish != [] ==> head[|head| - 1] == race[|race| - 1];
    assert forall k | 0 <= k < |head| :: (head + finish)[k] == head[k];
    assert forall k | |head| <= k < |head| + |finish| :: (head + finish)[k] == finish[k - |head|];
  }

  lemma PollingAfterRace(s: Surroundings, baseline: set<Txid>, race: seq<Action>, end: RaceEnd)
    requires PollsOpenSafely(race)
    requires end.Triggered? && end.completed.None? ==> forall k | 0 <= k < |race| :: race[k] != PollOpen(true)
    ensures PollsOpenSafely([Saw(baseline)] + race + FinishActions(s, end))
  {
    var head, finish := [Saw(baseline)] + race, FinishActions(s, end);
    assert forall k | 1 <= k < |head| :: head[k] == race[k - 1];
    assert forall k | 0 <= k < |head| :: (head + finish)[k] == head[k];
    assert forall k | |head| <= k < |head| + |finish| :: (head + finish)[k] == finish[k - |head|];
  }

  /** The mining succeeded, and the funding transaction, absent at first, is among those whose appearance
      made the fixture mine. */
  predicate MinedFor(s: Surroundings, point: OutPoint, k: nat) {
    var actions := Actions(s);
    && s.mined.None? && 0 < k < |actions| && actions[0].Saw? && actions[k] == Mine(CHANNEL_CONFIRMATIONS)
    && actions[k - 1].Saw?
    && point.txid in actions[k - 1].mempool && point.txid !in actions[0].mempool
  }

  /** The point that the open call gave, in some round or after the mining. */
  predicate OpenGave(s: Surroundings, point: OutPoint) {
    || s.late == Ok(point)
    || exists r :: r in s.rounds && r.open == Some(Ok(point))
  }

  /** A channel is reported only when the open call gave it and the blocks were mined for it. */
  lemma OkIsConfirmed(s: Surroundings, point: OutPoint)
    requires Confirmed(s) == Ok(point)
    ensures OpenGave(s, point) && exists k: nat :: MinedFor(s, point, k)
  {
    var baseline := s.baseline.value;
    var race, end := RaceActions(baseline, None, s.rounds), Race(baseline, None, s.rounds);
    RaceIsSafe(baseline, None, s.rounds);
    OpenedWasGiven(baseline, None, s.rounds);
    hide RaceActions, Race;
    var actions := Actions(s);
    assert actions == [Saw(baseline)] + race + FinishActions(s, end);
    assert actions[|race| + 1] == Mine(CHANNEL_CONFIRMATIONS);
    assert actions[|race|] == race[|race| - 1];
    assert MinedFor(s, point, |race| + 1);
  }

  lemma {:induction false} OpenedWasGiven(baseline: set<Txid>, completed: Option<OutPoint>, rounds: seq<Round>)
    ensures var end := Race(baseline, completed, rounds);
      end.Triggered? && end.completed.Some? ==>
        end.completed == completed || exists r :: r in rounds && r.open == Some(Ok(end.completed.value))
    decreases |rounds|
  {
    if rounds != [] {
      var r, rest := rounds[0], rounds[1..];
      var now := if OpenWins(completed, r) && r.open.value.Ok? then Some(r.open.value.value) else completed;
      OpenedWasGiven(baseline, now, rest);
      assert forall x | x in rest :: x in rounds;
      assert r in rounds;
    }
  }

  /** Nothing is mined in a run that ends before a new transaction was seen: because the open call
      failed, the mempool could not be read, or the deadline passed. */
  lemma {:induction false} NoTriggerNoMining(s: Surroundings, k: nat)
    requires s.baseline.Err? || Race(s.baseline.value, None, s.rounds).Stopped?
    requires k < |Actions(s)|
    ensures !Actions(s)[k].Mine?
  {
    if s.baseline.Ok? {
      RaceIsSafe(s.baseline.value, None, s.rounds);
    }
  }
  // ---------------------------------------------------------------------------------------------
  // What a run means, read off the rounds

  /** The open call has not completed before round `n`. */
  predicate AwaitedAt(rounds: seq<Round>, n: nat) {
    n <= |rounds| && forall k | 0 <= k < n :: rounds[k].open.None?
  }

  /** It completes in round `n`. */
  predicate CompletesAt(rounds: seq<Round>, n: nat) {
    n < |rounds| && AwaitedAt(rounds, n) && rounds[n].open.Some?
  }

  /** Round `n` is no reason to stop: the open call completes well, or a look at the mempool shows
      nothing that was not in the first one, and the pause after it ends in time. */
  predicate IsQuiet(baseline: set<Txid>, rounds: seq<Round>, n: nat)
    requires n < |rounds|
  {
    if CompletesAt(rounds, n) then rounds[n].open.value.Ok?
    else rounds[n].mempool.Ok? && rounds[n].mempool.value <= baseline && rounds[n].pause.None?
  }

  predicate QuietUntil(baseline: set<Txid>, rounds: seq<Round>, n: nat) {
    n <= |rounds| && forall k | 0 <= k < n :: IsQuiet(baseline, rounds, k)
  }

  /** After quiet rounds, round `n` is the first whose mempool shows something new. */
  predicate ShowsNewAt(baseline: set<Txid>, rounds: seq<Round>, n: nat) {
    && n < |rounds| && QuietUntil(baseline, rounds, n) && !CompletesAt(rounds, n)
    && rounds[n].mempool.Ok? && !(rounds[n].mempool.value <= baseline)
  }

  /** The open call gives `point`: in a round before `n` or, awaited still, after the mining. */
  predicate Gives(s: Surroundings, n: nat, point: OutPoint) {
    || (s.late == Ok(point) && AwaitedAt(s.rounds, n))
    || exists k: nat | k < n :: CompletesAt(s.rounds, k) && s.rounds[k].open == Some(Ok(point))
  }

  /** A channel is reported exactly when: something new showed up while nothing had gone wrong, the
      mining for it succeeded, the open call gave this point, before or after, and the funding
      transaction is among what was new. */
  predicate ConfirmsAt(s: Surroundings, n: nat, point: OutPoint) {
    && s.baseline.Ok? && ShowsNewAt(s.baseline.value, s.rounds, n) && s.mined.None? && Gives(s, n, point)
    && point.txid in s.rounds[n].mempool.value && point.txid !in s.baseline.value
  }

  lemma ConfirmedIff(s: Surroundings, point: OutPoint)
    ensures Confirmed(s) == Ok(point) <==> exists n: nat :: ConfirmsAt(s, n, point)
  {
    if s.baseline.Ok? {
      var baseline, rounds := s.baseline.value, s.rounds;
      var w := FirstLoud(baseline, rounds);
      RaceEndsAt(baseline, rounds, w);
      GivenBy(s, baseline, w, point);
      forall n: nat | ShowsNewAt(baseline, rounds, n) ensures n == w {
        assert !IsQuiet(baseline, rounds, n);
      }
      hide Race, Gives, NotObserved;
      if Confirmed(s) == Ok(point) {
        assert ConfirmsAt(s, w, point);
      }
    }
  }

  /** When all went as well, but the transaction of the point is not among what was new, the point is refused. */
  lemma ReportedOrRefused(s: Surroundings, point: OutPoint)
    requires s.baseline.Ok? && s.mined.None?
    ensures forall n: nat | ShowsNewAt(s.baseline.value, s.rounds, n) && Gives(s, n, point) ::
      Confirmed(s) == if point.txid in s.rounds[n].mempool.value - s.baseline.value then Ok(point)
                      else Err(Bootstrap(InvalidResponse(
        "open channel", FundingNotObserved, Some(LowercaseHex(Reversed(point.txid))))))
  {
    var baseline, rounds := s.baseline.value, s.rounds;
    forall n: nat | ShowsNewAt(baseline, rounds, n) && Gives(s, n, point)
      ensures Confirmed(s) == if point.txid in rounds[n].mempool.value - baseline then Ok(point)
                              else Err(NotObserved(point))
    {
      RaceEndsAt(baseline, rounds, n);
      GivenBy(s, baseline, n, point);
      hide Race, Gives, NotObserved;
    }
  }

  /** The point that the open call has given before round `n`, if it has completed. */
  function CompletedBy(rounds: seq<Round>, n: nat): Option<OutPoint>
    requires n <= |rounds|
  {
    if n == 0 then None
    else if CompletedBy(rounds, n - 1).Some? then CompletedBy(rounds, n - 1)
    else match rounds[n - 1].open
      case Some(Ok(point)) => Some(point)
      case _ => None
  }

  lemma {:induction false} CompletedMeans(baseline: set<Txid>, rounds: seq<Round>, n: nat)
    requires QuietUntil(baseline, rounds, n)
    ensures CompletedBy(rounds, n).None? <==> AwaitedAt(rounds, n)
    ensures forall point :: CompletedBy(rounds, n) == Some(point) <==>
      exists k: nat | k < n :: CompletesAt(rounds, k) && rounds[k].open == Some(Ok(point))
  {
    if n > 0 {
      CompletedMeans(baseline, rounds, n - 1);
      assert IsQuiet(baseline, rounds, n - 1);
      assert AwaitedAt(rounds, n) <==> AwaitedAt(rounds, n - 1) && rounds[n - 1].open.None?;
    }
  }

  /** Quiet rounds leave the race open. */
  lemma {:induction false} RaceGoesOn(baseline: set<Txid>, rounds: seq<Round>, n: nat)
    requires QuietUntil(baseline, rounds, n)
    ensures Race(baseline, None, rounds) == Race(baseline, CompletedBy(rounds, n), rounds[n..])
  {
    if n == 0 {
      assert rounds[0..] == rounds;
    } else {
      RaceGoesOn(baseline, rounds, n - 1);
      CompletedMeans(baseline, rounds, n - 1);
      assert IsQuiet(baseline, rounds, n - 1);
      RaceStep(baseline, CompletedBy(rounds, n - 1), rounds, n - 1);
      hide Race;
      assert CompletesAt(rounds, n - 1) <==> OpenWins(CompletedBy(rounds, n - 1), rounds[n - 1]);
      if !CompletesAt(rounds, n - 1) {
        assert rounds[n - 1].mempool.value - baseline == {};
      }
    }
  }

  /** How many rounds pass before one that is a reason to stop. */
  function FirstLoud(baseline: set<Txid>, rounds: seq<Round>, from: nat := 0): (n: nat)
    requires QuietUntil(baseline, rounds, from)
    ensures QuietUntil(baseline, rounds, n) && (n < |rounds| ==> !IsQuiet(baseline, rounds, n))
    decreases |rounds| - from
  {
    if from < |rounds| && IsQuiet(baseline, rounds, from) then FirstLoud(baseline, rounds, from + 1) else from
  }

  lemma NothingNew(mempool: set<Txid>, baseline: set<Txid>)
    ensures mempool - baseline == {} <==> mempool <= baseline
  {
    assert forall txid | txid in mempool && txid !in baseline :: txid in mempool - baseline;
  }

  /** The error of the first round that is a reason to stop and shows nothing new; past the last round,
      the deadline. */
  function StopsWith(baseline: set<Txid>, rounds: seq<Round>, n: nat): FixtureError
    requires n < |rounds| ==> !IsQuiet(baseline, rounds, n)
  {
    if n >= |rounds| then DeadlineExpired
    else if CompletesAt(rounds, n) then rounds[n].open.value.error
    else if rounds[n].mempool.Err? then rounds[n].mempool.error
    else if rounds[n].pause.Some? then rounds[n].pause.value
    else DeadlineExpired
  }

  /** Every other run ends with the first thing that went wrong. */
  lemma FailsWithFirst(s: Surroundings, n: nat)
    requires s.baseline.Ok? ==> QuietUntil(s.baseline.value, s.rounds, n)
    requires s.baseline.Ok? && n < |s.rounds| ==> !IsQuiet(s.baseline.value, s.rounds, n)
    ensures s.baseline.Err? ==> Confirmed(s) == Err(s.baseline.error)
    ensures s.baseline.Ok? && !ShowsNewAt(s.baseline.value, s.rounds, n) ==>
      Confirmed(s) == Err(StopsWith(s.baseline.value, s.rounds, n))
    ensures s.baseline.Ok? && ShowsNewAt(s.baseline.value, s.rounds, n) && s.mined.Some? ==>
      Confirmed(s) == Err(s.mined.value)
    ensures s.baseline.Ok? && ShowsNewAt(s.baseline.value, s.rounds, n) && s.mined.None? ==>
      (s.late.Err? && AwaitedAt(s.rounds, n) ==> Confirmed(s) == Err(s.late.error))
  {
    if s.baseline.Ok? {
      RaceEndsAt(s.baseline.value, s.rounds, n);
      CompletedMeans(s.baseline.value, s.rounds, n);
    }
    hide Race, StopsWith, NotObserved, CompletedBy;
  }

  /** The race is triggered exactly where something new shows up first. */
  lemma RaceEndsAt(baseline: set<Txid>, rounds: seq<Round>, n: nat)
    requires QuietUntil(baseline, rounds, n) && (n < |rounds| ==> !IsQuiet(baseline, rounds, n))
    ensures var end := Race(baseline, None, rounds);
      && (end.Triggered? <==> ShowsNewAt(baseline, rounds, n))
      && (end.Triggered? ==> end.newlyObserved == rounds[n].mempool.value - baseline)
      && (end.Triggered? ==> end.completed == CompletedBy(rounds, n))
      && (end.Stopped? ==> end.error == StopsWith(baseline, rounds, n))
  {
    RaceGoesOn(baseline, rounds, n);
    var completed := CompletedBy(rounds, n);
    if n == |rounds| {
      assert rounds[n..] == [];
      RaceExhausted(baseline, completed);
    } else {
      CompletedMeans(baseline, rounds, n);
      RaceStep(baseline, completed, rounds, n);
      assert CompletesAt(rounds, n) <==> OpenWins(completed, rounds[n]);
      if rounds[n].mempool.Ok? {
        NothingNew(rounds[n].mempool.value, baseline);
      }
      hide Race, CompletedBy;
    }
  }

  lemma GivenBy(s: Surroundings, baseline: set<Txid>, n: nat, point: OutPoint)
    requires QuietUntil(baseline, s.rounds, n)
    ensures var completed := CompletedBy(s.rounds, n);
      Gives(s, n, point) <==> (if completed.Some? then completed == Some(point) else s.late == Ok(point))
  {
    CompletedMeans(baseline, s.rounds, n);
    hide CompletedBy;
    if CompletedBy(s.rounds, n).Some? {
      assert !AwaitedAt(s.rounds, n);
    } else {
      assert forall k: nat | k < n :: !CompletesAt(s.rounds, k);
    }
  }

  /** The blocks are mined exactly in the runs in which something new showed up while nothing had gone
      wrong. */
  lemma MinesIff(s: Surroundings)
    ensures (exists k: nat :: k < |Actions(s)| && Actions(s)[k] == Mine(CHANNEL_CONFIRMATIONS)) <==>
      s.baseline.Ok? && exists n: nat :: ShowsNewAt(s.baseline.value, s.rounds, n)
  {
    if s.baseline.Ok? {
      var baseline, rounds := s.baseline.value, s.rounds;
      var w := FirstLoud(baseline, rounds);
      RaceEndsAt(baseline, rounds, w);
      RaceIsSafe(baseline, None, rounds);
      forall n: nat | ShowsNewAt(baseline, rounds, n) ensures n == w {
        assert !IsQuiet(baseline, rounds, n);
      }
      hide Race, RaceActions, ShowsNewAt;
      var race, end := RaceActions(baseline, None, rounds), Race(baseline, None, rounds);
      var actions := Actions(s);
      assert actions == [Saw(baseline)] + race + FinishActions(s, end);
      if end.Triggered? {
        assert actions[|race| + 1] == Mine(CHANNEL_CONFIRMATIONS);
      } else {
        assert forall k | 0 <= k < |actions| :: !actions[k].Mine?;
      }
    }
  }
}
