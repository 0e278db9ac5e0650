/** Initialising a wallet: one attempt, and the retry loop around it. */
module Wallet {
  import opened Fixture
  import opened Hex
  import opened Options
  import opened Rpc
  import opened Utf8

  const MIN_WALLET_PASSWORD_BYTES: nat := 8
  const MAX_WALLET_PASSWORD_BYTES: nat := 65_536
  const CIPHER_SEED_WORDS: nat := 24
  const MAX_CIPHER_SEED_WORD_BYTES: nat := 1_024
  const MAX_CIPHER_SEED_BYTES: nat := CIPHER_SEED_WORDS * MAX_CIPHER_SEED_WORD_BYTES
  const MAX_MACAROON_BYTES: nat := 65_536
  const SEED_OPERATION: Text := "generate wallet seed"
  const INIT_OPERATION: Text := "initialize wallet"
  const SETUP_OPERATION: Text := "configure transport"

  /** What is sent to the node. */
  datatype Call = GenSeed | InitWallet(password: Bytes, seed: seq<Text>)

  // ---------------------------------------------------------------------------------------------
  // The seed

  predicate IsSeedWord(word: Text) { 0 < |word| <= MAX_CIPHER_SEED_WORD_BYTES }

  predicate IsSeed(words: seq<Text>) {
    |words| == CIPHER_SEED_WORDS && forall w | w in words :: IsSeedWord(w)
  }

  function SeedError(words: seq<Text>): Option<Detail> {
    if |words| != CIPHER_SEED_WORDS then Some(SeedWordCount)
    else if IsSeed(words) then None
    else Some(SeedWordSize)
  }

  /** `validate_cipher_seed`. The running total is checked against the sum of the word limits, so that
      check never refuses a seed. */
  method ValidateCipherSeed(words: seq<Text>) returns (refused: Option<Detail>)
    ensures refused == SeedError(words)
    ensures refused.None? <==> IsSeed(words)
  {
    if |words| != CIPHER_SEED_WORDS {
      return Some(SeedWordCount);
    }
    var total := 0;
    for i := 0 to |words|
      invariant total <= i * MAX_CIPHER_SEED_WORD_BYTES
      invariant forall w | w in words[..i] :: IsSeedWord(w)
    {
      var word := words[i];
      if |word| == 0 || |word| > MAX_CIPHER_SEED_WORD_BYTES {
        assert word in words && !IsSeedWord(word);
        return Some(SeedWordSize);
      }
      total := total + |word|;
      if total > MAX_CIPHER_SEED_BYTES {
        return Some(SeedTotalSize);
      }
      assert words[..i + 1] == words[..i] + [word];
    }
    assert words[..|words|] == words;
    return None;
  }

  // ---------------------------------------------------------------------------------------------
  // One attempt

  /** Where the fixture's own deadline interrupts an attempt. */
  datatype Cut = NoCut | AtSeed | AtInit

  /** The surroundings of one attempt: an error in setting up the transport, before the first call or
      for the finished client; the two answers of the node; and an interruption. */
  datatype Attempt = Attempt(
    setup: Option<LndError>, seed: Reply<seq<Text>>, init: Reply<Bytes>, client: Option<LndError>, cut: Cut)

  /** Setting up a transport fails with one of these, and never under the label of a call. */
  predicate IsSetupError(e: LndError) {
    e.InvalidRequest? || e == Transport(SETUP_OPERATION)
  }

  predicate IsPossible(a: Attempt) {
    && (a.setup.Some? ==> IsSetupError(a.setup.value))
    && (a.client.Some? ==> IsSetupError(a.client.value))
  }

  function PasswordError(password: Bytes): Option<LndError> {
    if |password| < MIN_WALLET_PASSWORD_BYTES then Some(InvalidRequest(PasswordTooShort))
    else if |password| > MAX_WALLET_PASSWORD_BYTES then Some(InvalidRequest(PasswordTooLong))
    else None
  }

  /** An attempt comes as far as `InitWallet`. */
  predicate SendsInit(password: Bytes, a: Attempt) {
    && PasswordError(password).None? && a.setup.None? && a.cut != AtSeed
    && a.seed.Response? && IsSeed(a.seed.value)
  }

  /** What an attempt sends. */
  function AttemptCalls(password: Bytes, a: Attempt): seq<Call> {
    if PasswordError(password).Some? || a.setup.Some? then []
    else if SendsInit(password, a) then [GenSeed, InitWallet(password, a.seed.value)]
    else [GenSeed]
  }

  predicate IsMacaroon(m: Bytes) { 0 < |m| <= MAX_MACAROON_BYTES }

  /** How an attempt ends. */
  function AttemptResult(password: Bytes, a: Attempt): Result<Bytes, FixtureError> {
    if PasswordError(password).Some? then Err(Bootstrap(PasswordError(password).value))
    else if a.setup.Some? then Err(Bootstrap(a.setup.value))
    else if a.cut == AtSeed then Err(DeadlineExpired)
    else if a.seed.NoResponse? then Err(Bootstrap(RequestError(SEED_OPERATION, a.seed.failure)))
    else if !IsSeed(a.seed.value) then
      Err(Bootstrap(InvalidResponse(SEED_OPERATION, SeedError(a.seed.value).value, None)))
    else if a.cut == AtInit then Err(DeadlineExpired)
    else if a.init.NoResponse? || !IsMacaroon(a.init.value) then
      Err(Bootstrap(OutcomeUnknown(INIT_OPERATION, None)))
    else if a.client.Some? then Err(Bootstrap(a.client.value))
    else Ok(a.init.value)
  }

  /** One call of the connector's `initialize`: `initialize_wallet`, then a client for the macaroon. */
  method InitializeWallet(password: Bytes, a: Attempt) returns (r: Result<Bytes, FixtureError>, calls: seq<Call>)
    ensures r == AttemptResult(password, a) && calls == AttemptCalls(password, a)
  {
    calls := [];
    if |password| < MIN_WALLET_PASSWORD_BYTES {
      return Err(Bootstrap(InvalidRequest(PasswordTooShort))), calls;
    }
    if |password| > MAX_WALLET_PASSWORD_BYTES {
      return Err(Bootstrap(InvalidRequest(PasswordTooLong))), calls;
    }
    if a.setup.Some? {
      return Err(Bootstrap(a.setup.value)), calls;
    }
    calls := calls + [GenSeed];
    if a.cut == AtSeed {
      return Err(DeadlineExpired), calls;
    }
    var generated := BoundedRequest(SEED_OPERATION, a.seed);
    if generated.Err? {
      return Err(Bootstrap(generated.error)), calls;
    }
    var seed := generated.value;
    var refused := ValidateCipherSeed(seed);
    if refused.Some? {
      return Err(Bootstrap(InvalidResponse(SEED_OPERATION, refused.value, None))), calls;
    }
    calls := calls + [InitWallet(password, seed)];
    if a.cut == AtInit {
      return Err(DeadlineExpired), calls;
    }
    var initialized := BoundedRequest(INIT_OPERATION, a.init);
    if initialized.Err? {
      return Err(Bootstrap(OutcomeUnknown(INIT_OPERATION, None))), calls;
    }
    var macaroon := initialized.value;
    if |macaroon| == 0 || |macaroon| > MAX_MACAROON_BYTES {
      return Err(Bootstrap(OutcomeUnknown(INIT_OPERATION, None))), calls;
    }
    if a.client.Some? {
      return Err(Bootstrap(a.client.value)), calls;
    }
    return Ok(macaroon), calls;
  }

  // ---------------------------------------------------------------------------------------------
  // The retry loop

  function OperationOf(e: LndError): Option<Text> {
    match e
    case Transport(operation) => Some(operation)
    case Timeout(operation) => Some(operation)
    case StatusError(_, operation) => Some(operation)
    case _ => None
  }

  /** `is_transient_seed_generation`: told by the label of the operation in the error. */
  predicate IsTransientSeed(e: LndError) {
    OperationOf(e) == Some(SEED_OPERATION) && IsTransient(e)
  }

  predicate Retried(password: Bytes, a: Attempt) {
    var r := AttemptResult(password, a);
    r.Err? && r.error.Bootstrap? && IsTransientSeed(r.error.source)
  }

  /** All that is sent in a run in which the attempts meet these surroundings. When they are used up, the
      deadline has passed. */
  function RunCalls(password: Bytes, attempts: seq<Attempt>): seq<Call> {
    if attempts == [] then []
    else if Retried(password, attempts[0]) then
      AttemptCalls(password, attempts[0]) + RunCalls(password, attempts[1..])
    else AttemptCalls(password, attempts[0])
  }

  function RunResult(password: Bytes, attempts: seq<Attempt>): Result<Bytes, FixtureError> {
    if attempts == [] then Err(DeadlineExpired)
    else if Retried(password, attempts[0]) then RunResult(password, attempts[1..])
    else AttemptResult(password, attempts[0])
  }

  /** `initialize_lnd_client`. */
  method InitializeLndClient(password: Bytes, attempts: seq<Attempt>)
    returns (r: Result<Bytes, FixtureError>, calls: seq<Call>)
    ensures r == RunResult(password, attempts) && calls == RunCalls(password, attempts)
  {
    hide AttemptResult, AttemptCalls, IsTransientSeed;
    calls := [];
    var next := 0;
    while next < |attempts|
      invariant 0 <= next <= |attempts|
      invariant calls + RunCalls(password, attempts[next..]) == RunCalls(password, attempts)
      invariant RunResult(password, attempts[next..]) == RunResult(password, attempts)
    {
      assert attempts[next..][0] == attempts[next] && attempts[next..][1..] == attempts[next + 1..];
      var result, sent := InitializeWallet(password, attempts[next]);
      assert calls + (sent + RunCalls(password, attempts[next + 1..])) ==
        (calls + sent) + RunCalls(password, attempts[next + 1..]);
      calls := calls + sent;
      if result.Ok? || !result.error.Bootstrap? || !IsTransientSeed(result.error.source) {
        return result, calls;
      }
      next := next + 1;
    }
    return Err(DeadlineExpired), calls;
  }

  // ---------------------------------------------------------------------------------------------
  // Safety over every run

  /** Exactly these failures are retried: no answer to `GenSeed`, with a transient failure. In
      particular nothing that happens once `InitWallet` was sent is retried, nor a refused seed, nor a
      failure to set up the transport, transient as that is. */
  lemma RetriedIff(password: Bytes, a: Attempt)
    requires IsPossible(a)
    ensures Retried(password, a) <==>
      && PasswordError(password).None? && a.setup.None? && a.cut != AtSeed
      && a.seed.NoResponse? && IsTransient(RequestError(SEED_OPERATION, a.seed.failure))
    ensures Retried(password, a) ==> AttemptCalls(password, a) == [GenSeed]
  {
    LabelsDiffer();
  }

  lemma LabelsDiffer()
    ensures SEED_OPERATION != SETUP_OPERATION && SEED_OPERATION != INIT_OPERATION
  {
    assert SEED_OPERATION[0] == 'g' && SETUP_OPERATION[0] == 'c' && INIT_OPERATION[0] == 'i';
  }

  predicate AllPossible(attempts: seq<Attempt>) { forall a | a in attempts :: IsPossible(a) }

  /** What may be sent in a run: seeds are asked for, and then, at most once and as the last thing,
      the wallet is initialised with the caller's password and a valid seed that the node has just
      given. */
  predicate IsSafe(password: Bytes, calls: seq<Call>, attempts: seq<Attempt>) {
    forall k | 0 <= k < |calls| && calls[k] != GenSeed ::
      && k == |calls| - 1 && 0 < k <= |attempts|
      && calls[k].password == password && IsSeed(calls[k].seed)
      && attempts[k - 1].seed == Response(calls[k].seed)
  }

  /** Over any run, whatever the node answers and wherever the deadline strikes. */
  lemma {:induction false} InitWalletAtMostOnce(password: Bytes, attempts: seq<Attempt>)
    requires AllPossible(attempts)
    ensures IsSafe(password, RunCalls(password, attempts), attempts)
  {
    hide AttemptResult, IsSeed, PasswordError;
    if attempts != [] {
      RetriedIff(password, attempts[0]);
      assert attempts[0] in attempts && forall a | a in attempts[1..] :: a in attempts;
      InitWalletAtMostOnce(password, attempts[1..]);
      var rest := RunCalls(password, attempts[1..]);
      if Retried(password, attempts[0]) {
        assert RunCalls(password, attempts) == [GenSeed] + rest;
        assert forall k | 0 < k <= |rest| :: ([GenSeed] + rest)[k] == rest[k - 1];
      }
    }
  }

  /** A run succeeds exactly when, after attempts that failed to get a seed in a transient way, one
      gets a valid seed and a usable macaroon in time. */
  predicate SucceedsAt(password: Bytes, attempts: seq<Attempt>, n: nat, macaroon: Bytes) {
    && n < |attempts| && (forall k | 0 <= k < n :: Retried(password, attempts[k]))
    && AttemptResult(password, attempts[n]) == Ok(macaroon)
  }

  lemma {:induction false} RunOkIff(password: Bytes, attempts: seq<Attempt>, macaroon: Bytes)
    ensures RunResult(password, attempts) == Ok(macaroon) <==>
      exists n: nat :: SucceedsAt(password, attempts, n, macaroon)
  {
    hide AttemptResult;
    if attempts != [] {
      var rest := attempts[1..];
      RunOkIff(password, rest, macaroon);
      if n: nat :| SucceedsAt(password, attempts, n, macaroon) && n > 0 {
        assert SucceedsAt(password, rest, n - 1, macaroon);
      }
      if Retried(password, attempts[0]) {
        if n: nat :| SucceedsAt(password, rest, n, macaroon) {
          assert SucceedsAt(password, attempts, n + 1, macaroon);
        }
      } else if AttemptResult(password, attempts[0]) == Ok(macaroon) {
        assert SucceedsAt(password, attempts, 0, macaroon);
      }
    }
  }

  /** When a run ends without the wallet having been asked for, the node has no wallet from it; when it
      was asked for, the run ends well, at the deadline, with an unknown outcome, or with an error of
      the finished client - never with an error that invites another attempt. */
  lemma {:induction false} AfterInit(password: Bytes, attempts: seq<Attempt>)
    requires AllPossible(attempts)
    ensures var calls, r := RunCalls(password, attempts), RunResult(password, attempts);
      && (r.Ok? ==> calls != [] && calls[|calls| - 1].InitWallet?)
      && (r.Err? && r.error.Bootstrap? ==> !IsTransientSeed(r.error.source))
      && (calls != [] && calls[|calls| - 1].InitWallet? && r.Err? && r.error.Bootstrap? ==>
          r.error.source == OutcomeUnknown(INIT_OPERATION, None) || IsSetupError(r.error.source))
  {
    if attempts != [] {
      assert attempts[0] in attempts && forall a | a in attempts[1..] :: a in attempts;
      RetriedIff(password, attempts[0]);
      AfterInit(password, attempts[1..]);
      if Retried(password, attempts[0]) {
        var rest := RunCalls(password, attempts[1..]);
        assert RunCalls(password, attempts) == [GenSeed] + rest;
      }
    }
  }

  // ---------------------------------------------------------------------------------------------
  // What a run means, read off the answers

  /** The request for a seed went out in time and was not answered, in a way that will pass. */
  predicate SeedWillCome(a: Attempt) {
    a.setup.None? && a.cut != AtSeed && a.seed.NoResponse? && WillPass(a.seed.failure)
  }

  /** The attempt gets 24 words of 1 to 1024 bytes, and for them a macaroon of 1 to 65536 bytes. */
  predicate Initializes(a: Attempt, macaroon: Bytes) {
    && a.setup.None? && a.cut.NoCut? && a.client.None?
    && a.seed.Response? && |a.seed.value| == 24 && (forall w | w in a.seed.value :: 1 <= |w| <= 1024)
    && a.init == Response(macaroon) && 1 <= |macaroon| <= 65536
  }

  /** An attempt is followed by another one exactly when the seed did not come but still may. */
  lemma RetriedMeans(password: Bytes, a: Attempt)
    requires IsPossible(a)
    ensures Retried(password, a) <==> 8 <= |password| <= 65536 && SeedWillCome(a)
  {
    RetriedIff(password, a);
    if a.seed.NoResponse? {
      TransientIff(SEED_OPERATION, a.seed.failure);
    }
    hide AttemptResult, IsTransient;
  }

  /** A run returns a macaroon exactly when the password is of 8 to 65536 bytes and, after attempts whose
      seed did not come but still might, the node gives a seed and then this macaroon. */
  lemma MacaroonIff(password: Bytes, attempts: seq<Attempt>, macaroon: Bytes)
    requires AllPossible(attempts)
    ensures RunResult(password, attempts) == Ok(macaroon) <==>
      8 <= |password| <= 65536 && exists n: nat :: InitializesAt(attempts, n, macaroon)
  {
    RunOkIff(password, attempts, macaroon);
    forall k | 0 <= k < |attempts|
      ensures Retried(password, attempts[k]) <==> 8 <= |password| <= 65536 && SeedWillCome(attempts[k])
      ensures AttemptResult(password, attempts[k]) == Ok(macaroon) <==>
        8 <= |password| <= 65536 && Initializes(attempts[k], macaroon)
    {
      assert attempts[k] in attempts;
      RetriedMeans(password, attempts[k]);
    }
    hide AttemptResult, Retried, SeedWillCome, Initializes, RunResult;
    forall n: nat
      ensures SucceedsAt(password, attempts, n, macaroon) <==>
        8 <= |password| <= 65536 && InitializesAt(attempts, n, macaroon)
    {
    }
  }

  predicate InitializesAt(attempts: seq<Attempt>, n: nat, macaroon: Bytes) {
    && n < |attempts| && (forall k | 0 <= k < n :: SeedWillCome(attempts[k]))
    && Initializes(attempts[n], macaroon)
  }

  /** What such a run sent: a request for a seed in every attempt, and in the last the password with the seed
      that the node gave. */
  lemma {:induction false} SentIs(password: Bytes, attempts: seq<Attempt>, n: nat, macaroon: Bytes)
    requires AllPossible(attempts) && InitializesAt(attempts, n, macaroon) && 8 <= |password| <= 65536
    ensures RunCalls(password, attempts) ==
      seq(n + 1, _ => GenSeed) + [InitWallet(password, attempts[n].seed.value)]
  {
    assert attempts[0] in attempts && forall a | a in attempts[1..] :: a in attempts;
    RetriedMeans(password, attempts[0]);
    if n > 0 {
      RetriedIff(password, attempts[0]);
      assert attempts[1..][n - 1] == attempts[n];
      SentIs(password, attempts[1..], n - 1, macaroon);
      assert seq(n + 1, _ => GenSeed) == [GenSeed] + seq(n, _ => GenSeed);
    } else {
      assert AttemptCalls(password, attempts[0]) == [GenSeed, InitWallet(password, attempts[0].seed.value)];
    }
  }

  /** How a run fails whose attempts before `n` are waited out and whose attempt `n` is not: a seed that the
      node refuses, or that is no seed, is reported as such; whatever goes wrong once the wallet was asked
      for leaves the outcome unknown. */
  lemma {:induction false} FailsWith(password: Bytes, attempts: seq<Attempt>, n: nat)
    requires AllPossible(attempts) && 8 <= |password| <= 65536 && n < |attempts|
    requires (forall k | 0 <= k < n :: SeedWillCome(attempts[k])) && !SeedWillCome(attempts[n])
    requires attempts[n].setup.None? && attempts[n].cut.NoCut?
    ensures var a, r := attempts[n], RunResult(password, attempts);
      && (a.seed.NoResponse? ==> r == Err(Bootstrap(RequestError("generate wallet seed", a.seed.failure))))
      && (a.seed.Response? && |a.seed.value| != 24 ==>
          r == Err(Bootstrap(InvalidResponse("generate wallet seed", SeedWordCount, None))))
      && (a.seed.Response? && |a.seed.value| == 24 && (exists w | w in a.seed.value :: !(1 <= |w| <= 1024)) ==>
          r == Err(Bootstrap(InvalidResponse("generate wallet seed", SeedWordSize, None))))
      && (a.seed.Response? && IsSeed(a.seed.value) &&
          (a.init.NoResponse? || !(1 <= |a.init.value| <= 65536)) ==>
          r == Err(Bootstrap(OutcomeUnknown("initialize wallet", None))))
  {
    assert attempts[0] in attempts && forall a | a in attempts[1..] :: a in attempts;
    RetriedMeans(password, attempts[0]);
    if n > 0 {
      assert attempts[1..][n - 1] == attempts[n];
      FailsWith(password, attempts[1..], n - 1);
    }
    hide IsTransient, WillPass;
  }
}
