/** The two ledger handlers of `BitcoinService` as functions from the state
    behind the lock to the reply and the state after it. Each handler holds
    the lock for its whole body, so one call is one step on `Store`. */
module Ledger {
  import opened LedgerTypes

  /** True when `b[to] + amount` fits in a `u32`. */
  predicate CreditFits(b: map<Address, uint32>, to: Address, amount: uint32)
    requires to in b
  {
    b[to] as int + amount as int < U32_LIMIT
  }

  /** `init_account`: insert `addr` with `init_amount`, or 0 when the request
      carries none, unless the address is already present. */
  function InitAccount(s: Store, addr: Address, initAmount: Option<uint32>): (r: Step)
    // a poisoned lock panics before the map is looked at
    ensures s.poisoned ==> r == Step(Panicked(LockPoisoned), s)
    // the handler never panics on a healthy lock
    ensures !s.poisoned ==> r.outcome.Replied? && !r.after.poisoned
    // it succeeds exactly for a fresh address, which then holds the default-0 amount
    ensures r.outcome.Succeeded() <==> !s.poisoned && addr !in s.balances
    ensures r.outcome.Succeeded() ==>
              && r.outcome.reply.message == Initialized(addr, initAmount.GetOr(0))
              && addr in r.after.balances
              && r.after.balances[addr] == initAmount.GetOr(0)
    // an existing address is reported and the whole state is left as it was
    ensures !s.poisoned && addr in s.balances ==>
              r.outcome.reply == Reply(false, AlreadyExists(addr))
    ensures !r.outcome.Succeeded() ==> r.after == s
    // the only key that can appear is `addr`; no entry present before is overwritten
    ensures r.after.balances.Keys == s.balances.Keys + (if r.outcome.Succeeded() then {addr} else {})
    ensures forall a :: a in s.balances ==> a in r.after.balances && r.after.balances[a] == s.balances[a]
  {
    if s.poisoned then
      Step(Panicked(LockPoisoned), s)
    else if addr !in s.balances then
      var initBalance := initAmount.GetOr(0);
      Step(Replied(Reply(true, Initialized(addr, initBalance))),
           Store(s.balances[addr := initBalance], false))
    else
      Step(Replied(Reply(false, AlreadyExists(addr))), s)
  }

  /** `send_payment` with the destination check meant by `contains_to` (it
      tests `to`, not `from`) and with the destination balance read after
      the debit, so that a transfer to oneself leaves the balance as it was.
      The credit is still done after the debit, as in the source: when it
      overflows, the handler panics with the debit already applied. */
  function SendPayment(s: Store, from: Address, to: Address, amount: uint32): (r: Step)
    ensures s.poisoned ==> r == Step(Panicked(LockPoisoned), s)
    // no transfer adds or removes an account
    ensures r.after.balances.Keys == s.balances.Keys
    // success exactly when both exist, the funds suffice and the credit fits
    ensures r.outcome.Succeeded() <==>
              && !s.poisoned && from in s.balances && to in s.balances
              && s.balances[from] >= amount
              && (from == to || CreditFits(s.balances, to, amount))
    ensures r.outcome.Succeeded() ==>
              r.outcome.reply.message == Transferred(amount, from, to) && !r.after.poisoned
    // a successful transfer between two accounts moves `amount` and touches nothing else
    ensures r.outcome.Succeeded() && from != to ==>
              && r.after.balances[from] as int == s.balances[from] as int - amount as int
              && r.after.balances[to] as int == s.balances[to] as int + amount as int
              && r.after.balances[from] as int + r.after.balances[to] as int
                 == s.balances[from] as int + s.balances[to] as int
              && forall a :: a in s.balances && a != from && a != to ==>
                               r.after.balances[a] == s.balances[a]
    // a transfer to oneself, or of nothing, changes nothing
    ensures r.outcome.Succeeded() && (from == to || amount == 0) ==> r.after == s
    // every rejection names its reason and leaves the state as it was
    ensures r.outcome.Replied? && !r.outcome.reply.successful ==> r.after == s
    ensures !s.poisoned && from !in s.balances && to !in s.balances ==>
              r == Step(Replied(Reply(false, NeitherExists(from, to))), s)
    ensures !s.poisoned && from !in s.balances && to in s.balances ==>
              r == Step(Replied(Reply(false, FromMissing(from))), s)
    ensures !s.poisoned && from in s.balances && to !in s.balances ==>
              r == Step(Replied(Reply(false, ToMissing(to))), s)
    ensures !s.poisoned && from in s.balances && to in s.balances && s.balances[from] < amount ==>
              r == Step(Replied(Reply(false, InsufficientFunds(from))), s)
    // the only panic reachable on a healthy lock is the overflowing credit
    ensures r.outcome.Panicked? ==> r.outcome.cause == LockPoisoned || r.outcome.cause == AddOverflow
    ensures !s.poisoned ==> r.outcome != Panicked(LockPoisoned)
    // an overflowing credit between two accounts panics after the debit is written
    ensures !s.poisoned && from != to && from in s.balances && to in s.balances
            && s.balances[from] >= amount && !CreditFits(s.balances, to, amount) ==>
              r == Step(Panicked(AddOverflow), Store(s.balances[from := s.balances[from] - amount], true))
    ensures r.outcome == Panicked(AddOverflow) ==>
              && !s.poisoned && from != to && from in s.balances && to in s.balances
              && s.balances[from] >= amount && !CreditFits(s.balances, to, amount)
              && r.after == Store(s.balances[from := s.balances[from] - amount], true)
  {
    if s.poisoned then
      Step(Panicked(LockPoisoned), s)
    else
      var b := s.balances;
      match (from in b, to in b)
      case (true, true) =>
        if b[from] >= amount then
          var debited := b[from := b[from] - amount];
          var toBalance := debited[to];
          if toBalance as int + amount as int < U32_LIMIT then
            Step(Replied(Reply(true, Transferred(amount, from, to))),
                 Store(debited[to := toBalance + amount], false))
          else
            Step(Panicked(AddOverflow), Store(debited, true))
        else
          Step(Replied(Reply(false, InsufficientFunds(from))), s)
      case (false, false) => Step(Replied(Reply(false, NeitherExists(from, to))), s)
      case (false, true) => Step(Replied(Reply(false, FromMissing(from))), s)
      case (true, false) => Step(Replied(Reply(false, ToMissing(to))), s)
  }

  /** `send_payment` as the source writes it: `contains_to` tests `from`
      again, and both balances are read before either is written. */
  function SendPaymentAsWritten(s: Store, from: Address, to: Address, amount: uint32): (r: Step)
    ensures s.poisoned ==> r == Step(Panicked(LockPoisoned), s)
    ensures r.after.balances.Keys == s.balances.Keys
    // the two arms for exactly one missing account are never taken
    ensures r.outcome.Replied? ==>
              !r.outcome.reply.message.FromMissing? && !r.outcome.reply.message.ToMissing?
    // a missing source always reports both as missing, whether or not `to` exists
    ensures !s.poisoned && from !in s.balances ==>
              r == Step(Replied(Reply(false, NeitherExists(from, to))), s)
    // a missing destination behind a funded source panics on the index, before any write
    ensures !s.poisoned && from in s.balances && s.balances[from] >= amount && to !in s.balances ==>
              r == Step(Panicked(MissingKey(to)), Store(s.balances, true))
    ensures !s.poisoned && from in s.balances && s.balances[from] < amount ==>
              r == Step(Replied(Reply(false, InsufficientFunds(from))), s)
    // a funded transfer to oneself whose credit fits succeeds and ends with the
    // balance raised by `amount`, every other entry untouched
    ensures !s.poisoned && from == to && from in s.balances && s.balances[from] >= amount
            && CreditFits(s.balances, from, amount) ==>
              && r.outcome == Replied(Reply(true, Transferred(amount, from, to)))
              && !r.after.poisoned
              && r.after.balances[from] as int == s.balances[from] as int + amount as int
              && forall a :: a in s.balances && a != from ==> r.after.balances[a] == s.balances[a]
    // one whose credit overflows panics after the debit is written
    ensures !s.poisoned && from == to && from in s.balances && s.balances[from] >= amount
            && !CreditFits(s.balances, from, amount) ==>
              r == Step(Panicked(AddOverflow), Store(s.balances[from := s.balances[from] - amount], true))
    // the panics reachable on a healthy lock are the missing key and the overflow
    ensures !s.poisoned && r.outcome.Panicked? ==>
              r.outcome.cause == MissingKey(to) || r.outcome.cause == AddOverflow
    // on every other input it behaves as the corrected handler
    ensures from != to && (from in s.balances <==> to in s.balances) ==>
              r == SendPayment(s, from, to, amount)
  {
    if s.poisoned then
      Step(Panicked(LockPoisoned), s)
    else
      var b := s.balances;
      var containsFrom := from in b;
      var containsTo := from in b;
      if containsFrom && containsTo then
        if b[from] >= amount then
          var fromBalance := b[from];
          if to !in b then
            Step(Panicked(MissingKey(to)), Store(b, true))
          else
            var toBalance := b[to];
            var debited := b[from := fromBalance - amount];
            if toBalance as int + amount as int < U32_LIMIT then
              Step(Replied(Reply(true, Transferred(amount, from, to))),
                   Store(debited[to := toBalance + amount], false))
            else
              Step(Panicked(AddOverflow), Store(debited, true))
        else
          Step(Replied(Reply(false, InsufficientFunds(from))), s)
      else if !containsFrom && !containsTo then
        Step(Replied(Reply(false, NeitherExists(from, to))), s)
      else if !containsFrom then
        Step(Replied(Reply(false, FromMissing(from))), s)
      else
        Step(Replied(Reply(false, ToMissing(to))), s)
  }
}
