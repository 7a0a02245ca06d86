# Solvarn pool program — a Dafny model

Solvarn is a "last depositor wins" game on Solana. An authority creates a
pool account at an address derived from its own key. Players deposit
lamports into the pool, and each deposit must be strictly larger than the
last one. Every accepted deposit makes its sender the leader and restarts
a countdown of `duration_seconds`. Once the countdown has run out, the
leader claims the pot. The pool account is then closed and its remaining
lamports go to the authority. A web client lists the pools and shows a
countdown, the end state and the action buttons.

The model covers three things:

- The three instructions, `initialize_pool`, `deposit` and `claim_prize`. Each is a method of one class, `Solvarn.Chain`. The class holds the pool records, keyed by authority, and the lamport balances of all accounts. Each method performs the Anchor account checks and the handler's checks in the order the code applies them. It then either commits all its effects or fails and changes nothing, as a Solana transaction does.
- The rules of each instruction, as plain functions: the first failing check, the updated record, the payout and close. Lemmas state what they guarantee, including what a whole run of deposits against one pool adds up to.
- The client's pure display helpers: the seconds-to-milliseconds conversion of the end time, the ended flag, the `MM:SS` countdown, shortened keys, and the conditions under which a pool card offers the deposit or claim button. Each is related to the on-chain rules it mirrors.

The model is split across these files:

- `pool.dfy`, module `PoolState`: the integer widths (u64, i64, u8), keys and addresses, the `Pool` record, the error codes of `error.rs`, the runtime failures, and lamport transfers.
- `initialize_pool.dfy`, module `InitRules`: the rules of `initialize_pool`.
- `deposit.dfy`, module `DepositRules`: the rules of `deposit`, and `Replay`, which runs a series of deposits against one pool.
- `claim_prize.dfy`, module `ClaimRules`: the rules of `claim_prize`.
- `program.dfy`, module `Solvarn`: the `Chain` class with its three instructions.
- `display.dfy`, module `Display`: the helpers of `page.tsx`.
- `scenarios.dfy`, module `Scenarios`: the integration tests of `tests/solvarn.ts`, restated as methods on `Chain` whose contracts give the outcomes the tests expect.

Facts about the code that a reader of the web client might not expect:

- The countdown starts when the pool is created: `initialize_pool` sets `end_timestamp = now + duration_seconds` (`initialize_pool.rs` line 34). The client's help text says it starts with the first deposit (`page.tsx` lines 684-686); the model follows the program.
- A deposit is accepted while `now <= end_timestamp` (`deposit.rs` line 33) and a claim once `now >= end_timestamp` (`claim_prize.rs` line 36), so both time checks pass at `now == end_timestamp`.
- Before the winner check, a claim checks that the pool is active (AlreadyClaimed) and that the pot is not empty (EmptyPot) (`claim_prize.rs` lines 41-44).
- A second `initialize_pool` for the same authority fails in the runtime's `init` constraint ("already in use"), not with a program error. A deposit or claim on a pool that does not exist fails in the runtime, with "account not initialized".
- The stored `bump` is the value read from the freshly zeroed account (`initialize_pool.rs` line 36), which is 0.

One consequence of the code's order is proved as `ClaimRules.UnfundedPoolStranded`. Suppose nobody deposits into a pool before its end time. After that time every deposit fails (GameEnded) and every claim fails (EmptyPot). The account is therefore never closed, and its authority cannot create a new pool.

## Model

Paths are relative to the repository root.

| member | source | states |
|---|---|---|
| PoolState.Transfer | anchor_project/solvarn/programs/solvarn/src/instructions/deposit.rs:41-49 | The system transfer: the sender loses exactly `amount`, the receiver gains exactly `amount`, their total is conserved, and no other account changes. |
| InitRules.NewPool | anchor_project/solvarn/programs/solvarn/src/instructions/initialize_pool.rs:29-38 | The record `set_inner` writes. The authority is the signer. Pot and last amount are 0 and the last depositor is the default key. The pool is active, the duration is the argument, and the bump is 0. The end lies exactly one duration after `now`, later than `now`. The record satisfies the stored-pool invariant. |
| InitRules.InitFailure | anchor_project/solvarn/programs/solvarn/src/instructions/initialize_pool.rs:10-34 | The first failure of `initialize_pool`, in the order the `init` constraint and the handler apply their checks. Creation succeeds if and only if the account is free, the duration is positive and `now + duration` fits in i64. An existing account fails with "already in use" whatever the duration. InvalidDuration is reported if and only if the account is free and the duration is not positive. |
| DepositRules.Deposited | anchor_project/solvarn/programs/solvarn/src/instructions/deposit.rs:52-60 | An accepted deposit makes the depositor the leader with `amount`. The pot grows by exactly `amount`, the end moves to `now + duration`, and the authority, duration, flag and bump are unchanged. |
| DepositRules.DepositFailure | anchor_project/solvarn/programs/solvarn/src/instructions/deposit.rs:16-60 | The first failure of `deposit`, in the order `has_one`, the handler's checks, the transfer, `checked_add` and the i64 timer sum apply. A deposit succeeds if and only if all of these hold: the authority matches, `now <= end` and the pool is active, `amount` beats the last amount, the depositor can pay, the pot addition fits in u64, and the new end fits in i64. With the right authority, GameEnded is reported if and only if the time-and-active check fails, whatever the amount. A zero deposit never succeeds, and within the window it fails with InvalidAmount. |
| DepositRules.DepositKeepsInvariant | anchor_project/solvarn/programs/solvarn/src/instructions/deposit.rs:38-60 | An accepted deposit keeps the stored-pool invariant: the pot is at least the last amount and is empty exactly when nobody has deposited. The last amount strictly grows. |
| DepositRules.TimerNeverMovesBack | anchor_project/solvarn/programs/solvarn/src/instructions/deposit.rs:60 | The new end is not earlier than the old one if and only if `now` is not before the moment the old countdown started (`end - duration`). |
| DepositRules.ReplayPotIsSum | anchor_project/solvarn/programs/solvarn/src/instructions/deposit.rs:54-57 | After any series of deposit attempts, the pot has grown by exactly the sum of the accepted amounts. |
| DepositRules.ReplayBidsIncrease | anchor_project/solvarn/programs/solvarn/src/instructions/deposit.rs:38-53 | Accepted amounts strictly increase, and each beats the leading amount the series started from. The last one accepted is the leading amount at the end. |
| DepositRules.ReplayKeepsFixedFields | anchor_project/solvarn/programs/solvarn/src/instructions/deposit.rs:52-60 | No series of deposits changes the authority, duration, active flag or bump. |
| DepositRules.ReplayTimerMonotone | anchor_project/solvarn/programs/solvarn/src/instructions/deposit.rs:60 | If the clock never goes back, and no attempt is earlier than the start of the current countdown, the end time never moves earlier over a series of deposits. |
| ClaimRules.Settled | anchor_project/solvarn/programs/solvarn/src/instructions/claim_prize.rs:75-76 | The payout, followed by the close the `close = authority` constraint performs. The pool account ends at 0. The claimer gains exactly the pot and the authority gains the rest of the pool's lamports, or the claimer gains both when it is the authority. No other account changes. |
| ClaimRules.ClaimFailure | anchor_project/solvarn/programs/solvarn/src/instructions/claim_prize.rs:16-50 | The first failure of `claim_prize`, in the order `has_one` and the handler's checks apply. A claim succeeds if and only if all of these hold: the authority matches, `now >= end`, the pool is active, the pot is not empty, and the claimer is the last depositor. With the right authority, GameNotEnded is reported if and only if `now < end`, whoever claims. After the end time an inactive pool gives AlreadyClaimed, then an empty pot gives EmptyPot, then anyone but the leader gets InvalidWinner. Only an inactive pool reports AlreadyClaimed. |
| ClaimRules.FreshPoolNeverClaimable | anchor_project/solvarn/programs/solvarn/src/instructions/claim_prize.rs:44 | A newly created pool cannot be claimed at any time, and after its end time the claim fails with EmptyPot. |
| ClaimRules.UnfundedPoolStranded | anchor_project/solvarn/programs/solvarn/src/instructions/initialize_pool.rs:34 | A pool nobody deposited into is stuck after its end time: every deposit fails with GameEnded and every claim with EmptyPot. |
| ClaimRules.TimeWindowsMeetAtEnd | anchor_project/solvarn/programs/solvarn/src/instructions/claim_prize.rs:35-38 | For an active pool, either the deposit time check or the claim time check passes at every moment. Both pass if and only if `now == end`. |
| Solvarn.DepositKeepsValidState | anchor_project/solvarn/programs/solvarn/src/instructions/deposit.rs:41-60 | An accepted deposit keeps every stored pool valid, and keeps each pool's balance at least its pot. |
| Solvarn.Chain.InitializePool | anchor_project/solvarn/programs/solvarn/src/instructions/initialize_pool.rs:5-47 | The outcome is the first failing check. A duplicate fails with "already in use" and InvalidDuration means a non-positive duration. On failure no pool changes. On success exactly the new record is added, with end `now + duration`, and no other authority's pool or any balance changes. The invariants are kept. |
| Solvarn.Chain.Deposit | anchor_project/solvarn/programs/solvarn/src/instructions/deposit.rs:8-69 | A missing pool fails with "not initialized". Otherwise the outcome is the first failing check, and a failure changes nothing. On success the record becomes `Deposited` and exactly `amount` moves from the depositor's wallet to the pool account, so balance minus pot of the pool account is unchanged. The invariants are kept. |
| Solvarn.Chain.ClaimPrize | anchor_project/solvarn/programs/solvarn/src/instructions/claim_prize.rs:8-86 | A missing pool fails with "not initialized". Otherwise the outcome is the first failing check, and a failure changes nothing. On success the record is removed and the balances are `Settled`: the pool account holds 0 and a claimer other than the authority gains exactly the pot. With the record gone, a later deposit or claim finds no pool. The invariants are kept. |
| Display.ToView | frontend/client/src/app/page.tsx:171-182 | The fetched end time in milliseconds is a multiple of 1000 that converts back to the on-chain seconds. Every other field is copied. |
| Display.IsPoolEnded | frontend/client/src/app/page.tsx:218-222 | The ended flag; it has no contract of its own. `Display.EndedIsClaimWindow` states that on a fetched pool it is exactly the chain's claim window, and `Display.CountdownStatus` that it holds exactly when the countdown says "Ended". |
| Display.FormatTimeRemaining | frontend/client/src/app/page.tsx:201-215 | The countdown text; it has no contract of its own. `Display.CountdownStatus` states when it is "Not Started" and "Ended", and `Display.CountdownShape` that it otherwise reads back as `MM:SS` of the whole seconds remaining. |
| Display.OffersDeposit | frontend/client/src/app/page.tsx:578 | The deposit button's condition; it has no contract of its own. `Display.DepositButtonWithinWindow` and `Display.LastSecondHidden` relate it to the chain's deposit time check. |
| Display.DecimalRoundTrip | frontend/client/src/app/page.tsx:212-214 | Reading back the decimal text of a number (`toString()`) gives the number. |
| Display.PadStart | frontend/client/src/app/page.tsx:212-214 | `padStart(width, c)` has length max(len, width), ends with the original text and is `c` before it. |
| Display.PaddedDecimal | frontend/client/src/app/page.tsx:212-214 | A number's text padded with '0' to two places is all digits, keeps the number's value, is at least two long, and is exactly two long below 100. |
| Display.MinutesAndSeconds | frontend/client/src/app/page.tsx:209-210 | The seconds part is below 60, and minutes·60 + seconds are the whole seconds remaining. |
| Display.ClockTextParts | frontend/client/src/app/page.tsx:212-214 | `MM:SS` built from minutes and seconds below 60 reads back as those numbers: a colon three from the end, digits before it, and two digits after. |
| Display.CountdownShape | frontend/client/src/app/page.tsx:201-214 | While an active pool's end lies ahead, the countdown reads as `MM:SS`. Its minutes and seconds, with seconds below 60, make up the whole seconds remaining. |
| Display.CountdownStatus | frontend/client/src/app/page.tsx:201-207 | The countdown is "Not Started" if and only if the pool is inactive, and "Ended" if and only if the card shows the pool as ended. |
| Display.TruncateKey | frontend/client/src/app/page.tsx:230-232 | A shortened key is the first three characters, "..." and the last three. A key shorter than three characters appears whole on both sides. The result has length 9 for keys of three or more characters. |
| Display.CanClaim | frontend/client/src/app/page.tsx:500-504 | A card that offers the claim button never offers the deposit button (line 578 shows one or the other). `Display.ClaimButtonMatchesChain` relates the button to the chain's claim rules. |
| Display.EndedIsClaimWindow | frontend/client/src/app/page.tsx:218-222 | A fetched pool shows as ended if and only if it is active and the client's whole seconds have reached the on-chain end: the chain's claim window. |
| Display.ClaimButtonMatchesChain | frontend/client/src/app/page.tsx:500-504 | With the chain clock at the client's whole seconds, the claim button is offered to a wallet if and only if the chain would accept that wallet's claim. |
| Display.DepositButtonWithinWindow | frontend/client/src/app/page.tsx:578 | The deposit button is offered if and only if the pool is active and the client's whole seconds are before the end. Then the chain's time check passes. |
| Display.LastSecondHidden | frontend/client/src/app/page.tsx:578 | At the first millisecond of the end second, the card hides the deposit button of an active pool while the chain's deposit time check still passes. |
| Scenarios.InitializeTwice | anchor_project/solvarn/tests/solvarn.ts:28-81 | Creation succeeds with the signer as authority and the pool active, and a second creation fails with "already in use". |
| Scenarios.FirstDeposit | anchor_project/solvarn/tests/solvarn.ts:84-163 | The first deposit succeeds. The pool account gains exactly the amount and the depositor's balance falls. The depositor leads with that amount, and the end is one duration after the deposit. |
| Scenarios.DepositExtendsTimer | anchor_project/solvarn/tests/solvarn.ts:165-235 | A larger later deposit takes the lead and moves the end time past the previous one. |
| Scenarios.SmallDepositsRejected | anchor_project/solvarn/tests/solvarn.ts:237-292 | A deposit below the lead, and a zero deposit, each fail with InvalidAmount. |
| Scenarios.WinnerClaims | anchor_project/solvarn/tests/solvarn.ts:295-379 | After the end the leader's claim succeeds: the pool account holds 0, the leader's balance grows, and the record is gone (lines 345-365). The authority can then create the pool again, as the next test's setup does (lines 372-379). That a deposit after the claim fails with "not initialized" is a consequence of the model; no test sends one. |
| Scenarios.ClaimBeforeEnd | anchor_project/solvarn/tests/solvarn.ts:368-415 | A claim before the end time fails with GameNotEnded. |
| Scenarios.NonWinnerClaims | anchor_project/solvarn/tests/solvarn.ts:417-488 | After the end time, a claim by an outbid player fails with InvalidWinner. |

## Left out

- Program-derived addresses: the pool account's address is the constructor `PoolAccount(authority)`, which is injective and distinct from every wallet. Seed hashing, the bump search and the `seeds`/`bump` re-check on `deposit` and `claim_prize` are not modelled. That check always passes for a record stored at its authority's address, which the invariant guarantees.
- Account creation costs: `space`, rent and the payer of `init`. Creating a pool does not touch any balance, and a pool account starts with no lamports of its own.
- Lamport balances are unbounded: the model does not check a receiving account's u64 lamport balance for overflow.
- The clock: `Clock::get` is the parameter `now`. Signed 64-bit overflow of `now + duration_seconds` is a runtime panic (`ArithmeticOverflow`), which assumes the release profile keeps overflow checks on. The manifest that sets this is not part of this model.
- Event emission (`emit!` and the event structs), the `lib.rs` dispatcher, and the commented-out transfer path in `claim_prize`.
- Signatures and account ownership: every instruction is taken as signed by the key it names.
- The order inside a reverted transaction: the code moves the lamports before the checked pot addition. When that addition overflows, the model reports Overflow and commits nothing, which is what the reverted transaction leaves behind.
- Display: the client's numbers are JavaScript doubles. `BN.toNumber` throws above 2^53, and the model uses exact integers instead. `formatSOL` and the `parseFloat` conversions are floating point and are not modelled.
- Display: keys are strings of characters, while JavaScript `slice` counts UTF-16 code units. The two agree on base58 keys, which are ASCII.
- Display: React state, the one-second ticker that feeds `currentTime`, wallet and RPC calls, `fetchPools`, toasts and markup.
- Tests: the airdrops and block-time polling loops become fixed balances and chosen chain times in `Scenarios`.
