/** Values exchanged by the payment service: balances, requests, replies and
    the state guarded by the service's lock. */
module LedgerTypes {

  /** 2^32: the first value a Rust `u32` cannot hold. */
  const U32_LIMIT: int := 0x1_0000_0000

  /** A Rust `u32`. Arithmetic that could leave the range is done on `int`
      and checked explicitly, as the debug build of the service does. */
  newtype uint32 = x: int | 0 <= x < U32_LIMIT

  /** Addresses are opaque, caller-chosen strings; nothing validates them. */
  type Address = string

  /** An optional request field (the protobuf `optional uint32 init_amount`). */
  datatype Option<T> = None | Some(value: T) {
    function GetOr(default: T): T {
      match this
      case Some(v) => v
      case None => default
    }
  }

  /** The text of a reply, kept as structured data: one constructor per
      `format!` in the handlers, carrying the values that message names. */
  datatype Message =
    | Initialized(addr: Address, balance: uint32)
    | AlreadyExists(addr: Address)
    | Transferred(amount: uint32, from: Address, to: Address)
    | InsufficientFunds(addr: Address)
    | NeitherExists(from: Address, to: Address)
    | FromMissing(addr: Address)
    | ToMissing(addr: Address)

  /** The `Reply { successful, message }` every handler answers with. */
  datatype Reply = Reply(successful: bool, message: Message)

  /** Why a handler panicked instead of replying. */
  datatype PanicCause =
    | LockPoisoned        // `lock().expect(..)` on a mutex an earlier panic poisoned
    | MissingKey(key: Address)  // `balances[&key]` on an absent key
    | AddOverflow         // `u32 + u32` overflowed (debug build)

  /** What the caller of a handler sees. */
  datatype Outcome = Replied(reply: Reply) | Panicked(cause: PanicCause) {
    predicate Succeeded() {
      Replied? && reply.successful
    }
  }

  /** The state behind the service's `Mutex<HashMap<String, u32>>`: the map
      and whether a handler has panicked while holding the lock. */
  datatype Store = Store(balances: map<Address, uint32>, poisoned: bool)

  /** The result of one handler call: what it answered and the state after it. */
  datatype Step = Step(outcome: Outcome, after: Store)

  /** The two ledger requests of the RPC interface. */
  datatype Request =
    | InitAccountRequest(addr: Address, initAmount: Option<uint32>)
    | PaymentRequest(from: Address, to: Address, amount: uint32)
}
