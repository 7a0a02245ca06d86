/** The data of the Solvarn pool program: integer widths, keys and account
    addresses, the `Pool` account, the failures an instruction can end with,
    and lamport balances with the system transfer that moves them. */
module PoolState {

  const U64_MAX: int := 0xFFFF_FFFF_FFFF_FFFF
  const I64_MIN: int := -0x8000_0000_0000_0000
  const I64_MAX: int := 0x7FFF_FFFF_FFFF_FFFF

  type U64 = x: int | 0 <= x <= U64_MAX
  type I64 = x: int | I64_MIN <= x <= I64_MAX
  type U8 = x: int | 0 <= x < 256

  /** A 32-byte public key. Only equality of keys matters here, so a key is a
      number; 0 stands for the all-zero key `Pubkey::default()`. */
  type Pubkey = nat
  const DEFAULT_PUBKEY: Pubkey := 0

  /** An account address: a wallet, or the pool account at the program-derived
      address with seeds ["pool", authority]. The derivation is injective and
      never yields a wallet's key, so it is a constructor of its own. */
  datatype Address = Wallet(key: Pubkey) | PoolAccount(authority: Pubkey)

  /** The `Pool` account record. */
  datatype Pool = Pool(
    authority: Pubkey,
    potAmount: U64,
    lastDepositor: Pubkey,
    lastDepositAmount: U64,
    endTimestamp: I64,
    gameActive: bool,
    bump: U8,
    durationSeconds: I64)

  /** The program's own error codes, in declaration order. */
  datatype PoolError =
    | InvalidDuration
    | InvalidAmount
    | GameEnded
    | GameNotEnded
    | Overflow
    | InvalidAuthority
    | InvalidWinner
    | EmptyPot
    | AlreadyClaimed

  /** Failures raised by the runtime rather than by the program's `require!`s:
      `init` on an address already in use, a pool account that does not exist,
      a system transfer from a wallet holding too few lamports, and a panic on
      signed 64-bit overflow. */
  datatype RuntimeError =
    | AccountAlreadyInUse
    | AccountNotInitialized
    | InsufficientFunds
    | ArithmeticOverflow

  datatype Failure = Program(error: PoolError) | Runtime(fault: RuntimeError)

  datatype Option<T> = None | Some(value: T)

  /** What an instruction returns: `Ok(())` or the error that aborted it. */
  datatype Outcome = Ok | Err(failure: Failure)

  function OutcomeOf(failure: Option<Failure>): (r: Outcome)
    ensures r.Ok? <==> failure.None?
    ensures r.Err? ==> failure == Some(r.failure)
  {
    match failure
    case None => Ok
    case Some(f) => Err(f)
  }

  /** Facts every stored pool satisfies: it sits at its authority's address,
      its duration is positive, the pot holds at least the leading deposit,
      and the pot is empty exactly while nobody has deposited. */
  ghost predicate PoolInvariant(key: Pubkey, p: Pool)
  {
    && p.authority == key
    && p.durationSeconds > 0
    && p.lastDepositAmount <= p.potAmount
    && (p.potAmount == 0 <==> p.lastDepositAmount == 0)
  }

  /** The lamports held at `a`; an address never funded holds none. */
  function Balance(lamports: map<Address, nat>, a: Address): nat
  {
    if a in lamports then lamports[a] else 0
  }

  /** Moves `amount` lamports from `from` to `to`: value is conserved and no
      third account changes. */
  function Transfer(lamports: map<Address, nat>, from: Address, to: Address, amount: nat): (r: map<Address, nat>)
    requires from != to
    requires amount <= Balance(lamports, from)
    ensures Balance(r, from) == Balance(lamports, from) - amount
    ensures Balance(r, to) == Balance(lamports, to) + amount
    ensures Balance(r, from) + Balance(r, to) == Balance(lamports, from) + Balance(lamports, to)
    ensures forall a :: a != from && a != to ==> Balance(r, a) == Balance(lamports, a)
  {
    lamports[from := Balance(lamports, from) - amount][to := Balance(lamports, to) + amount]
  }
}
