/** The rules of the `claim_prize` instruction: the checks in the order the
    code applies them, and the lamport movements of the payout and of the
    account close that follows it. */
module ClaimRules {
  import opened PoolState
  import DepositRules
  import InitRules

  /** The first failure of a claim by `claimer` on pool `p`, named together
      with the authority account `authority`, at chain time `now`; None when
      it succeeds. Order: the `has_one` constraint, then the handler's checks
      for the end of the game, the active flag, a non-empty pot and the
      winner. */
  function ClaimFailure(p: Pool, authority: Pubkey, claimer: Pubkey, now: I64): (r: Option<Failure>)
    // A claim succeeds exactly when the authority matches, the end time has
    // been reached, the pool is active, the pot is not empty and the
    // claimer made the leading deposit.
    ensures r == None
        <==> && p.authority == authority && now >= p.endTimestamp && p.gameActive
             && p.potAmount > 0 && claimer == p.lastDepositor
    // Before the end time every claim reports GameNotEnded, whoever makes
    // it, and only then.
    ensures p.authority == authority ==> (r == Some(Program(GameNotEnded)) <==> now < p.endTimestamp)
    // The later checks in their order: after the end time an inactive pool
    // reports AlreadyClaimed, an active one with an empty pot EmptyPot, and
    // otherwise a claimer other than the leader InvalidWinner.
    ensures p.authority == authority && now >= p.endTimestamp ==>
      && (!p.gameActive ==> r == Some(Program(AlreadyClaimed)))
      && (p.gameActive && p.potAmount == 0 ==> r == Some(Program(EmptyPot)))
      && (p.gameActive && p.potAmount > 0 && claimer != p.lastDepositor ==> r == Some(Program(InvalidWinner)))
    // Only an inactive pool reports AlreadyClaimed.
    ensures r == Some(Program(AlreadyClaimed)) ==> !p.gameActive
  {
    if p.authority != authority then Some(Program(InvalidAuthority))
    else if !(now >= p.endTimestamp) then Some(Program(GameNotEnded))
    else if !p.gameActive then Some(Program(AlreadyClaimed))
    else if !(p.potAmount > 0) then Some(Program(EmptyPot))
    else if claimer != p.lastDepositor then Some(Program(InvalidWinner))
    else None
  }

  /** The balances after a successful claim: the pot goes from the pool
      account to the claimer, then closing the account sends whatever it
      still holds to the authority. The pool account ends empty, the three
      accounts together hold what they held before, and no other account
      changes. */
  function Settled(lamports: map<Address, nat>, pool: Address, claimer: Address, authority: Address, pot: nat): (r: map<Address, nat>)
    requires pool != claimer && pool != authority
    requires pot <= Balance(lamports, pool)
    ensures Balance(r, pool) == 0
    ensures claimer != authority ==>
      && Balance(r, claimer) == Balance(lamports, claimer) + pot
      && Balance(r, authority) == Balance(lamports, authority) + (Balance(lamports, pool) - pot)
    ensures claimer == authority ==>
      Balance(r, claimer) == Balance(lamports, claimer) + Balance(lamports, pool)
    ensures forall a :: a != pool && a != claimer && a != authority ==> Balance(r, a) == Balance(lamports, a)
  {
    var paid := Transfer(lamports, pool, claimer, pot);
    Transfer(paid, pool, authority, Balance(paid, pool))
  }

  /** A pool nobody has deposited into can never be claimed: a freshly
      created pool has an empty pot, so every claim fails, and after its end
      time it fails with EmptyPot. */
  lemma FreshPoolNeverClaimable(authority: Pubkey, durationSeconds: I64, created: I64, claimer: Pubkey, now: I64)
    requires InitRules.InitFailure(false, durationSeconds, created) == None
    ensures ClaimFailure(InitRules.NewPool(authority, durationSeconds, created), authority, claimer, now) != None
    ensures now >= created + durationSeconds
        ==> ClaimFailure(InitRules.NewPool(authority, durationSeconds, created), authority, claimer, now) == Some(Program(EmptyPot))
  {
  }

  /** A pool that nobody deposits into before its end time is stranded:
      after that time every deposit fails with GameEnded and every claim
      with EmptyPot, so its account is never closed and the authority's
      address stays in use. */
  lemma UnfundedPoolStranded(authority: Pubkey, durationSeconds: I64, created: I64,
                             depositor: Pubkey, funds: nat, amount: U64, claimer: Pubkey, now: I64)
    requires InitRules.InitFailure(false, durationSeconds, created) == None
    requires now > created + durationSeconds
    ensures DepositRules.DepositFailure(InitRules.NewPool(authority, durationSeconds, created), authority, funds, amount, now)
         == Some(Program(GameEnded))
    ensures ClaimFailure(InitRules.NewPool(authority, durationSeconds, created), authority, claimer, now)
         == Some(Program(EmptyPot))
  {
  }

  /** For an active pool the deposit window (`now <= end`) and the claim
      window (`now >= end`) cover all times and overlap at exactly one
      second, `now == end`, when both time checks pass. */
  lemma TimeWindowsMeetAtEnd(p: Pool, claimer: Pubkey, funds: nat, amount: U64, now: I64)
    requires p.gameActive
    ensures DepositRules.DepositFailure(p, p.authority, funds, amount, now) != Some(Program(GameEnded))
         || ClaimFailure(p, p.authority, claimer, now) != Some(Program(GameNotEnded))
    ensures (&& DepositRules.DepositFailure(p, p.authority, funds, amount, now) != Some(Program(GameEnded))
             && ClaimFailure(p, p.authority, claimer, now) != Some(Program(GameNotEnded)))
        <==> now == p.endTimestamp
  {
  }
}
