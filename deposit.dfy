/** The rules of the `deposit` instruction on an existing pool: the checks in
    the order the code applies them, the updated record, and what a run of
    deposits against one pool adds up to. */
module DepositRules {
  import opened PoolState

  /** The first failure of a deposit of `amount` by a wallet holding
      `funds` lamports, into pool `p` named together with the authority
      account `authority`, at chain time `now`; None when it succeeds.
      Order: the `has_one` constraint, the time-and-active check, the amount
      check, the system transfer, the checked pot addition, and finally the
      i64 sum that resets the timer. */
  function DepositFailure(p: Pool, authority: Pubkey, funds: nat, amount: U64, now: I64): (r: Option<Failure>)
    // A deposit is accepted exactly when every check passes.
    ensures r == None
        <==> && p.authority == authority
             && now <= p.endTimestamp && p.gameActive
             && amount > p.lastDepositAmount
             && amount <= funds
             && p.potAmount + amount <= U64_MAX
             && I64_MIN <= now + p.durationSeconds <= I64_MAX
    // Once the authority matches, the time-and-active check decides before
    // the amount is looked at: a closed window reports GameEnded for every
    // amount, and only a closed window does.
    ensures p.authority == authority ==>
      (r == Some(Program(GameEnded)) <==> !(now <= p.endTimestamp && p.gameActive))
    // A zero deposit is never accepted, and within the window it fails with
    // InvalidAmount, because the last amount is never negative.
    ensures amount == 0 ==> r != None
    ensures amount == 0 && p.authority == authority && now <= p.endTimestamp && p.gameActive
        ==> r == Some(Program(InvalidAmount))
  {
    if p.authority != authority then Some(Program(InvalidAuthority))
    else if !(now <= p.endTimestamp && p.gameActive) then Some(Program(GameEnded))
    else if !(amount > p.lastDepositAmount) then Some(Program(InvalidAmount))
    else if funds < amount then Some(Runtime(InsufficientFunds))
    else if p.potAmount + amount > U64_MAX then Some(Program(Overflow))
    else if !(I64_MIN <= now + p.durationSeconds <= I64_MAX) then Some(Runtime(ArithmeticOverflow))
    else None
  }

  /** The record after an accepted deposit: the depositor leads with
      `amount`, the pot grows by `amount`, the timer restarts one duration
      after `now`, and nothing else changes. */
  function Deposited(p: Pool, depositor: Pubkey, amount: U64, now: I64): (q: Pool)
    requires p.potAmount + amount <= U64_MAX
    requires I64_MIN <= now + p.durationSeconds <= I64_MAX
    ensures q.lastDepositor == depositor && q.lastDepositAmount == amount
    ensures q.potAmount - p.potAmount == amount
    ensures q.endTimestamp - now == p.durationSeconds
    ensures q.authority == p.authority && q.durationSeconds == p.durationSeconds
    ensures q.gameActive == p.gameActive && q.bump == p.bump
  {
    p.(lastDepositor := depositor,
       lastDepositAmount := amount,
       potAmount := p.potAmount + amount,
       endTimestamp := now + p.durationSeconds)
  }

  /** An accepted deposit keeps the stored-pool invariant. */
  lemma DepositKeepsInvariant(p: Pool, authority: Pubkey, depositor: Pubkey, funds: nat, amount: U64, now: I64)
    requires PoolInvariant(p.authority, p)
    requires DepositFailure(p, authority, funds, amount, now) == None
    ensures PoolInvariant(p.authority, Deposited(p, depositor, amount, now))
    ensures Deposited(p, depositor, amount, now).lastDepositAmount > p.lastDepositAmount
  {
  }

  /** The new end time is not earlier than the old one exactly when the
      clock has not gone back before the moment the old timer was started
      (that moment is `endTimestamp - durationSeconds`, both at creation and
      at every deposit). */
  lemma TimerNeverMovesBack(p: Pool, authority: Pubkey, depositor: Pubkey, funds: nat, amount: U64, now: I64)
    requires DepositFailure(p, authority, funds, amount, now) == None
    ensures Deposited(p, depositor, amount, now).endTimestamp >= p.endTimestamp
        <==> now >= p.endTimestamp - p.durationSeconds
  {
  }

  /** One deposit attempt: who sends it, how much, the sender's lamports at
      that moment, and the chain time it executes at. */
  datatype DepositCall = DepositCall(depositor: Pubkey, amount: U64, funds: nat, now: I64)

  /** The pool after a series of deposit attempts against it in order, with
      the amounts that were accepted; a rejected attempt changes nothing. */
  function Replay(p: Pool, authority: Pubkey, calls: seq<DepositCall>): (Pool, seq<U64>)
    decreases |calls|
  {
    if calls == [] then (p, [])
    else
      var c := calls[0];
      if DepositFailure(p, authority, c.funds, c.amount, c.now) == None then
        var rest := Replay(Deposited(p, c.depositor, c.amount, c.now), authority, calls[1..]);
        (rest.0, [c.amount] + rest.1)
      else
        Replay(p, authority, calls[1..])
  }

  function Sum(amounts: seq<U64>): int
  {
    if amounts == [] then 0 else amounts[0] + Sum(amounts[1..])
  }

  ghost predicate StrictlyIncreasing(amounts: seq<U64>)
  {
    forall i, j :: 0 <= i < j < |amounts| ==> amounts[i] < amounts[j]
  }

  /** The pot grows by exactly the sum of the accepted deposits. */
  lemma {:induction false} ReplayPotIsSum(p: Pool, authority: Pubkey, calls: seq<DepositCall>)
    ensures Replay(p, authority, calls).0.potAmount == p.potAmount + Sum(Replay(p, authority, calls).1)
    decreases |calls|
  {
    if calls != [] {
      var c := calls[0];
      if DepositFailure(p, authority, c.funds, c.amount, c.now) == None {
        ReplayPotIsSum(Deposited(p, c.depositor, c.amount, c.now), authority, calls[1..]);
      } else {
        ReplayPotIsSum(p, authority, calls[1..]);
      }
    }
  }

  /** Accepted amounts strictly increase, each beats the leading amount the
      run started from, and the last one accepted is the leading amount at
      the end. */
  lemma {:induction false} ReplayBidsIncrease(p: Pool, authority: Pubkey, calls: seq<DepositCall>)
    ensures StrictlyIncreasing(Replay(p, authority, calls).1)
    ensures forall i :: 0 <= i < |Replay(p, authority, calls).1| ==> Replay(p, authority, calls).1[i] > p.lastDepositAmount
    ensures Replay(p, authority, calls).0.lastDepositAmount
         == if Replay(p, authority, calls).1 == [] then p.lastDepositAmount
            else Replay(p, authority, calls).1[|Replay(p, authority, calls).1| - 1]
    decreases |calls|
  {
    if calls != [] {
      var c := calls[0];
      if DepositFailure(p, authority, c.funds, c.amount, c.now) == None {
        var q := Deposited(p, c.depositor, c.amount, c.now);
        ReplayBidsIncrease(q, authority, calls[1..]);
        var tail := Replay(q, authority, calls[1..]).1;
        assert Replay(p, authority, calls).1 == [c.amount] + tail;
      } else {
        ReplayBidsIncrease(p, authority, calls[1..]);
      }
    }
  }

  /** Deposits never touch the authority, the duration, the active flag or
      the bump. */
  lemma {:induction false} ReplayKeepsFixedFields(p: Pool, authority: Pubkey, calls: seq<DepositCall>)
    ensures var q := Replay(p, authority, calls).0;
      q.authority == p.authority && q.durationSeconds == p.durationSeconds
      && q.gameActive == p.gameActive && q.bump == p.bump
    decreases |calls|
  {
    if calls != [] {
      var c := calls[0];
      if DepositFailure(p, authority, c.funds, c.amount, c.now) == None {
        ReplayKeepsFixedFields(Deposited(p, c.depositor, c.amount, c.now), authority, calls[1..]);
      } else {
        ReplayKeepsFixedFields(p, authority, calls[1..]);
      }
    }
  }

  ghost predicate ClockNeverGoesBack(start: int, calls: seq<DepositCall>)
  {
    && (forall i :: 0 <= i < |calls| ==> start <= calls[i].now)
    && (forall i, j :: 0 <= i < j < |calls| ==> calls[i].now <= calls[j].now)
  }

  /** If no call runs before the moment the current timer was started and
      the clock never goes back, the end time never moves earlier. */
  lemma {:induction false} ReplayTimerMonotone(p: Pool, authority: Pubkey, calls: seq<DepositCall>)
    requires ClockNeverGoesBack(p.endTimestamp - p.durationSeconds, calls)
    ensures Replay(p, authority, calls).0.endTimestamp >= p.endTimestamp
    decreases |calls|
  {
    if calls != [] {
      var c := calls[0];
      assert ClockNeverGoesBack(p.endTimestamp - p.durationSeconds, calls[1..]) by {
        forall i | 0 <= i < |calls[1..]| ensures p.endTimestamp - p.durationSeconds <= calls[1..][i].now {
          assert calls[1..][i] == calls[i + 1];
        }
        forall i, j | 0 <= i < j < |calls[1..]| ensures calls[1..][i].now <= calls[1..][j].now {
          assert calls[1..][i] == calls[i + 1] && calls[1..][j] == calls[j + 1];
        }
      }
      if DepositFailure(p, authority, c.funds, c.amount, c.now) == None {
        var q := Deposited(p, c.depositor, c.amount, c.now);
        assert q.endTimestamp - q.durationSeconds == c.now;
        assert ClockNeverGoesBack(c.now, calls[1..]) by {
          forall i | 0 <= i < |calls[1..]| ensures c.now <= calls[1..][i].now {
            assert calls[1..][i] == calls[i + 1];
          }
        }
        ReplayTimerMonotone(q, authority, calls[1..]);
      } else {
        ReplayTimerMonotone(p, authority, calls[1..]);
      }
    }
  }
}
