/** The program's integration tests, restated on the model: each scenario
    starts from a cluster where the authority and the players hold an
    airdrop, sends the instructions the test sends at chain times it picks,
    and promises what the test asserts about the outcomes, the balances and
    the pool account. */
module Scenarios {
  import opened PoolState
  import opened Solvarn

  const AUTHORITY: Pubkey := 1
  const ALICE: Pubkey := 2
  const BOB: Pubkey := 3

  /** The tests' airdrop: 100 SOL. */
  const AIRDROP: nat := 100_000_000_000

  /** The test pool's duration in seconds. */
  const DURATION: I64 := 10

  /** Chain time at which the scenarios create their pool. */
  const T0: I64 := 1_700_000_000

  function Airdropped(): (m: map<Address, nat>)
    ensures Balance(m, Wallet(ALICE)) == AIRDROP && Balance(m, Wallet(BOB)) == AIRDROP
  {
    map[Wallet(AUTHORITY) := AIRDROP, Wallet(ALICE) := AIRDROP, Wallet(BOB) := AIRDROP]
  }

  /** A cluster after the airdrops, with the test pool created at `T0`. */
  method FreshPool() returns (chain: Chain)
    ensures fresh(chain) && chain.Valid() && chain.AllOpen()
    ensures chain.pools == map[AUTHORITY := Pool(AUTHORITY, 0, DEFAULT_PUBKEY, 0, T0 + DURATION, true, 0, DURATION)]
    ensures chain.lamports == Airdropped()
  {
    chain := new Chain(Airdropped());
    var r := chain.InitializePool(AUTHORITY, DURATION, T0);
  }

  /** The pool is created for its authority and active; creating it a
      second time fails because its account is already in use. */
  method InitializeTwice() returns (first: Outcome, second: Outcome, authority: Pubkey, active: bool)
    ensures first == Ok && authority == AUTHORITY && active
    ensures second == Err(Runtime(AccountAlreadyInUse))
  {
    var chain := new Chain(Airdropped());
    first := chain.InitializePool(AUTHORITY, DURATION, T0);
    authority, active := chain.pools[AUTHORITY].authority, chain.pools[AUTHORITY].gameActive;
    second := chain.InitializePool(AUTHORITY, 300, T0 + 1);
  }

  /** The first deposit moves exactly its amount into the pool account,
      makes the depositor the leader and restarts the timer one duration
      ahead. */
  method FirstDeposit() returns (r: Outcome, poolGain: int, aliceLoss: int, leader: Pubkey, amount: U64, end: I64)
    ensures r == Ok && poolGain == 1_000_000_000 && aliceLoss > 0
    ensures leader == ALICE && amount == 1_000_000_000
    ensures end > T0 + 1 && end == T0 + 1 + DURATION
  {
    var chain := FreshPool();
    var poolBefore, aliceBefore := Balance(chain.lamports, PoolAccount(AUTHORITY)), Balance(chain.lamports, Wallet(ALICE));
    r := chain.Deposit(AUTHORITY, AUTHORITY, ALICE, 1_000_000_000, T0 + 1);
    poolGain := Balance(chain.lamports, PoolAccount(AUTHORITY)) - poolBefore;
    aliceLoss := aliceBefore - Balance(chain.lamports, Wallet(ALICE));
    var p := chain.pools[AUTHORITY];
    leader, amount, end := p.lastDepositor, p.lastDepositAmount, p.endTimestamp;
  }

  /** A larger deposit two seconds later takes the lead and pushes the end
      time past the one the previous deposit set. */
  method DepositExtendsTimer() returns (first: Outcome, second: Outcome, leader: Pubkey, amount: U64, firstEnd: I64, end: I64)
    ensures first == Ok && second == Ok
    ensures leader == BOB && amount == 3_000_000_000
    ensures end > firstEnd && end == T0 + 3 + DURATION
  {
    var chain := FreshPool();
    first := chain.Deposit(AUTHORITY, AUTHORITY, ALICE, 2_000_000_000, T0 + 1);
    firstEnd := chain.pools[AUTHORITY].endTimestamp;
    second := chain.Deposit(AUTHORITY, AUTHORITY, BOB, 3_000_000_000, T0 + 3);
    var p := chain.pools[AUTHORITY];
    leader, amount, end := p.lastDepositor, p.lastDepositAmount, p.endTimestamp;
  }

  /** A deposit below the leading one fails with InvalidAmount, and so does
      a deposit of zero. */
  method SmallDepositsRejected() returns (lead: Outcome, smaller: Outcome, zero: Outcome)
    ensures lead == Ok
    ensures smaller == Err(Program(InvalidAmount)) && zero == Err(Program(InvalidAmount))
  {
    var chain := FreshPool();
    lead := chain.Deposit(AUTHORITY, AUTHORITY, ALICE, 4_000_000_000, T0 + 1);
    smaller := chain.Deposit(AUTHORITY, AUTHORITY, BOB, 3_000_000_000, T0 + 2);
    zero := chain.Deposit(AUTHORITY, AUTHORITY, ALICE, 0, T0 + 3);
  }

  /** After the end time the leader's claim succeeds: the pool account is
      drained and closed and the leader's balance grows. A later deposit
      finds no pool, and the authority can then create its pool again. */
  method WinnerClaims() returns (deposit: Outcome, claim: Outcome, poolBalance: nat, bobGain: int, closed: bool,
                                 late: Outcome, reopen: Outcome)
    ensures deposit == Ok && claim == Ok
    ensures poolBalance == 0 && bobGain > 0 && closed
    ensures late == Err(Runtime(AccountNotInitialized)) && reopen == Ok
  {
    var chain := FreshPool();
    deposit := chain.Deposit(AUTHORITY, AUTHORITY, BOB, 6_000_000_000, T0 + 1);
    var end := chain.pools[AUTHORITY].endTimestamp;
    var bobBefore := Balance(chain.lamports, Wallet(BOB));
    claim := chain.ClaimPrize(AUTHORITY, AUTHORITY, BOB, end + 1);
    poolBalance := Balance(chain.lamports, PoolAccount(AUTHORITY));
    bobGain := Balance(chain.lamports, Wallet(BOB)) - bobBefore;
    closed := AUTHORITY !in chain.pools;
    late := chain.Deposit(AUTHORITY, AUTHORITY, ALICE, 7_000_000_000, end + 2);
    reopen := chain.InitializePool(AUTHORITY, 5, end + 3);
  }

  /** A claim before the end time fails with GameNotEnded. */
  method ClaimBeforeEnd() returns (deposit: Outcome, claim: Outcome)
    ensures deposit == Ok && claim == Err(Program(GameNotEnded))
  {
    var chain := FreshPool();
    deposit := chain.Deposit(AUTHORITY, AUTHORITY, ALICE, 1_000_000_000, T0 + 1);
    claim := chain.ClaimPrize(AUTHORITY, AUTHORITY, ALICE, T0 + 2);
  }

  /** After the end time a claim by a player who was outbid fails with
      InvalidWinner. */
  method NonWinnerClaims() returns (first: Outcome, second: Outcome, claim: Outcome)
    ensures first == Ok && second == Ok
    ensures claim == Err(Program(InvalidWinner))
  {
    var chain := FreshPool();
    first := chain.Deposit(AUTHORITY, AUTHORITY, ALICE, 2_000_000_000, T0 + 1);
    second := chain.Deposit(AUTHORITY, AUTHORITY, BOB, 3_000_000_000, T0 + 2);
    var end := chain.pools[AUTHORITY].endTimestamp;
    claim := chain.ClaimPrize(AUTHORITY, AUTHORITY, ALICE, end + 1);
  }
}
