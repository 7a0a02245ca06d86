/** The Solvarn program as a state machine over the accounts it touches: the
    pool accounts, each at the address derived from its authority, and the
    lamport balances of every account. Each instruction samples the clock
    once (`now`), and either commits all its effects or fails and commits
    none, as a Solana transaction does. */
module Solvarn {
  import opened PoolState
  import opened InitRules
  import opened DepositRules
  import opened ClaimRules

  /** The class invariant on plain values: every stored pool satisfies the
      record invariant and its account holds at least the pot. */
  ghost predicate ValidState(pools: map<Pubkey, Pool>, lamports: map<Address, nat>)
  {
    forall k :: k in pools ==>
      PoolInvariant(k, pools[k]) && pools[k].potAmount <= Balance(lamports, PoolAccount(k))
  }

  /** An accepted deposit keeps the invariant: the pool's record and its
      balance grow by the same amount, and the depositor's wallet is no
      pool's account. */
  lemma DepositKeepsValidState(pools: map<Pubkey, Pool>, lamports: map<Address, nat>, pool: Pubkey,
                               authority: Pubkey, depositor: Pubkey, amount: U64, now: I64)
    requires ValidState(pools, lamports) && pool in pools
    requires DepositFailure(pools[pool], authority, Balance(lamports, Wallet(depositor)), amount, now) == None
    ensures ValidState(pools[pool := Deposited(pools[pool], depositor, amount, now)],
                       Transfer(lamports, Wallet(depositor), PoolAccount(pool), amount))
  {
    var pools' := pools[pool := Deposited(pools[pool], depositor, amount, now)];
    var lamports' := Transfer(lamports, Wallet(depositor), PoolAccount(pool), amount);
    DepositKeepsInvariant(pools[pool], authority, depositor, Balance(lamports, Wallet(depositor)), amount, now);
    forall k | k in pools'
      ensures PoolInvariant(k, pools'[k]) && pools'[k].potAmount <= Balance(lamports', PoolAccount(k))
    {
      if k != pool {
        assert Balance(lamports', PoolAccount(k)) == Balance(lamports, PoolAccount(k));
      }
    }
  }

  class Chain {
    /** The pool account of each authority that has one. */
    var pools: map<Pubkey, Pool>
    /** Lamport balances of all accounts. */
    var lamports: map<Address, nat>

    /** Every stored pool satisfies the record invariant and its account
        holds at least the pot. */
    ghost predicate Valid()
      reads this
    {
      ValidState(pools, lamports)
    }

    /** Every stored pool is active: the flag is cleared only by a claim,
        which closes the account in the same instruction. */
    ghost predicate AllOpen()
      reads this
    {
      forall k :: k in pools ==> pools[k].gameActive
    }

    /** A cluster with the given balances and no pool accounts. */
    constructor (balances: map<Address, nat>)
      ensures Valid() && AllOpen()
      ensures pools == map[] && lamports == balances
    {
      pools := map[];
      lamports := balances;
    }

    /** `initialize_pool` signed by `authority`. */
    method InitializePool(authority: Pubkey, durationSeconds: I64, now: I64) returns (r: Outcome)
      requires Valid()
      modifies this
      ensures Valid() && (old(AllOpen()) ==> AllOpen())
      ensures r == OutcomeOf(InitFailure(authority in old(pools), durationSeconds, now))
      ensures authority in old(pools) ==> r == Err(Runtime(AccountAlreadyInUse))
      ensures r == Err(Program(InvalidDuration)) <==> authority !in old(pools) && durationSeconds <= 0
      ensures r.Err? ==> pools == old(pools)
      ensures r.Ok? ==> pools == old(pools)[authority := NewPool(authority, durationSeconds, now)]
      ensures r.Ok? ==> pools[authority].endTimestamp == now + durationSeconds
      ensures forall k :: k != authority ==> (k in pools <==> k in old(pools))
      ensures forall k :: k != authority && k in old(pools) ==> pools[k] == old(pools)[k]
      ensures lamports == old(lamports)
    {
      // The `init` constraint: the derived address must be unused.
      if authority in pools {
        return Err(Runtime(AccountAlreadyInUse));
      }
      if !(durationSeconds > 0) {
        return Err(Program(InvalidDuration));
      }
      var end := now + durationSeconds;
      if end > I64_MAX {
        return Err(Runtime(ArithmeticOverflow));
      }
      pools := pools[authority := Pool(authority, 0, DEFAULT_PUBKEY, 0, end, true, 0, durationSeconds)];
      r := Ok;
    }

    /** `deposit` of `amount` lamports signed by `depositor` into the pool
        account of `pool`, naming `authority` as the authority account. */
    method Deposit(pool: Pubkey, authority: Pubkey, depositor: Pubkey, amount: U64, now: I64) returns (r: Outcome)
      requires Valid()
      modifies this
      ensures Valid() && (old(AllOpen()) ==> AllOpen())
      ensures pool !in old(pools) ==> r == Err(Runtime(AccountNotInitialized))
      ensures pool in old(pools) ==>
        r == OutcomeOf(DepositFailure(old(pools)[pool], authority, Balance(old(lamports), Wallet(depositor)), amount, now))
      ensures r.Err? ==> pools == old(pools) && lamports == old(lamports)
      ensures r.Ok? ==>
        && pool in old(pools)
        && pools == old(pools)[pool := Deposited(old(pools)[pool], depositor, amount, now)]
        && lamports == Transfer(old(lamports), Wallet(depositor), PoolAccount(pool), amount)
      ensures r.Ok? ==>
        Balance(lamports, PoolAccount(pool)) - pools[pool].potAmount
        == Balance(old(lamports), PoolAccount(pool)) - old(pools)[pool].potAmount
    {
      if pool !in pools {
        return Err(Runtime(AccountNotInitialized));
      }
      var p := pools[pool];
      // The `has_one = authority` constraint.
      if p.authority != authority {
        return Err(Program(InvalidAuthority));
      }
      if !(now <= p.endTimestamp && p.gameActive) {
        return Err(Program(GameEnded));
      }
      if !(amount > p.lastDepositAmount) {
        return Err(Program(InvalidAmount));
      }
      // The system-program transfer from the depositor into the pool account.
      var from, to := Wallet(depositor), PoolAccount(pool);
      if Balance(lamports, from) < amount {
        return Err(Runtime(InsufficientFunds));
      }
      var moved := Transfer(lamports, from, to, amount);
      p := p.(lastDepositor := depositor, lastDepositAmount := amount);
      // `checked_add`: failing here reverts the transfer above as well.
      if p.potAmount + amount > U64_MAX {
        return Err(Program(Overflow));
      }
      p := p.(potAmount := p.potAmount + amount);
      var end := now + p.durationSeconds;
      if !(I64_MIN <= end <= I64_MAX) {
        return Err(Runtime(ArithmeticOverflow));
      }
      p := p.(endTimestamp := end);
      DepositKeepsValidState(pools, lamports, pool, authority, depositor, amount, now);
      assert p == Deposited(pools[pool], depositor, amount, now);
      assert Balance(moved, to) - p.potAmount == Balance(lamports, to) - pools[pool].potAmount;
      pools := pools[pool := p];
      lamports := moved;
      r := Ok;
    }

    /** `claim_prize` signed by `claimer` on the pool account of `pool`,
        naming `authority` as the authority account that receives the
        closed account's lamports. */
    method ClaimPrize(pool: Pubkey, authority: Pubkey, claimer: Pubkey, now: I64) returns (r: Outcome)
      requires Valid()
      modifies this
      ensures Valid() && (old(AllOpen()) ==> AllOpen())
      ensures pool !in old(pools) ==> r == Err(Runtime(AccountNotInitialized))
      ensures pool in old(pools) ==> r == OutcomeOf(ClaimFailure(old(pools)[pool], authority, claimer, now))
      ensures r.Err? ==> pools == old(pools) && lamports == old(lamports)
      ensures r.Ok? ==> pool in old(pools) && pool !in pools && pools == old(pools) - {pool}
      ensures r.Ok? ==>
        lamports == Settled(old(lamports), PoolAccount(pool), Wallet(claimer), Wallet(authority), old(pools)[pool].potAmount)
      ensures r.Ok? ==> Balance(lamports, PoolAccount(pool)) == 0
      ensures r.Ok? && claimer != authority ==>
        Balance(lamports, Wallet(claimer)) == Balance(old(lamports), Wallet(claimer)) + old(pools)[pool].potAmount
    {
      if pool !in pools {
        return Err(Runtime(AccountNotInitialized));
      }
      var p := pools[pool];
      // The `has_one = authority` constraint.
      if p.authority != authority {
        return Err(Program(InvalidAuthority));
      }
      if !(now >= p.endTimestamp) {
        return Err(Program(GameNotEnded));
      }
      if !p.gameActive {
        return Err(Program(AlreadyClaimed));
      }
      if !(p.potAmount > 0) {
        return Err(Program(EmptyPot));
      }
      if claimer != p.lastDepositor {
        return Err(Program(InvalidWinner));
      }
      p := p.(gameActive := false);
      // The pot moves from the pool account to the claimer; Valid() keeps the
      // subtraction from going below zero.
      var account := PoolAccount(pool);
      var paid := Transfer(lamports, account, Wallet(claimer), p.potAmount);
      // `close = authority`: the remaining lamports go to the authority and
      // the account, with its record, ceases to exist.
      lamports := Transfer(paid, account, Wallet(authority), Balance(paid, account));
      pools := pools - {pool};
      r := Ok;
    }
  }
}
