/** The rules of the `initialize_pool` instruction: which check fails first,
    and the record written into the freshly created pool account. */
module InitRules {
  import opened PoolState

  /** The first failure of `initialize_pool` for an authority whose pool
      account does (`inUse`) or does not exist yet, or None when it succeeds.
      The `init` account constraint runs before the handler, so an existing
      account is reported before a bad duration; the handler then rejects a
      non-positive duration and computes `now + duration_seconds` in i64. */
  function InitFailure(inUse: bool, durationSeconds: I64, now: I64): (r: Option<Failure>)
    // Creation succeeds exactly when the account is free, the duration is
    // positive and the end time fits in i64.
    ensures r == None <==> !inUse && durationSeconds > 0 && now + durationSeconds <= I64_MAX
    // A second pool for the same authority is refused by the runtime,
    // whatever the duration.
    ensures inUse ==> r == Some(Runtime(AccountAlreadyInUse))
    // InvalidDuration is reported exactly when the account is free and the
    // duration is not positive.
    ensures r == Some(Program(InvalidDuration)) <==> !inUse && durationSeconds <= 0
  {
    if inUse then Some(Runtime(AccountAlreadyInUse))
    else if durationSeconds <= 0 then Some(Program(InvalidDuration))
    else if now + durationSeconds > I64_MAX then Some(Runtime(ArithmeticOverflow))
    else None
  }

  /** The record `set_inner` stores. The countdown starts at creation: the
      end lies exactly one duration after `now`. The stored bump is the one
      read from the zeroed new account, so it is 0. */
  function NewPool(authority: Pubkey, durationSeconds: I64, now: I64): (p: Pool)
    requires InitFailure(false, durationSeconds, now) == None
    ensures PoolInvariant(authority, p)
    ensures p.authority == authority && p.durationSeconds == durationSeconds
    ensures p.potAmount == 0 && p.lastDepositAmount == 0 && p.lastDepositor == DEFAULT_PUBKEY
    ensures p.gameActive && p.bump == 0
    ensures p.endTimestamp - now == durationSeconds && p.endTimestamp > now
  {
    Pool(authority, 0, DEFAULT_PUBKEY, 0, now + durationSeconds, true, 0, durationSeconds)
  }
}
