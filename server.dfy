/** The `BitcoinService` object: the balances map it guards with a mutex and
    the handlers that update that map in place. A handler runs entirely while
    holding the lock, so each method here is one atomic step; its result is
    tied to the step function of the same name in `Ledger`. */
module Server {
  import opened LedgerTypes
  import Ledger

  class BitcoinService {
    var balances: map<Address, uint32>
    /** Set when a handler panics while holding the lock (mutex poisoning). */
    var poisoned: bool

    ghost function State(): Store
      reads this
    {
      Store(balances, poisoned)
    }

    /** `BitcoinService::default()`: an empty map behind a fresh lock. */
    constructor ()
      ensures balances == map[] && !poisoned
    {
      balances := map[];
      poisoned := false;
    }

    method InitAccount(addr: Address, initAmount: Option<uint32>) returns (outcome: Outcome)
      modifies this
      ensures Step(outcome, State()) == Ledger.InitAccount(old(State()), addr, initAmount)
      ensures outcome.Succeeded() ==> balances == old(balances)[addr := initAmount.GetOr(0)]
      ensures !outcome.Succeeded() ==> balances == old(balances) && poisoned == old(poisoned)
    {
      if poisoned {
        return Panicked(LockPoisoned);
      }
      if addr !in balances {
        var initBalance := initAmount.GetOr(0);
        outcome := Replied(Reply(true, Initialized(addr, initBalance)));
        balances := balances[addr := initBalance];
      } else {
        outcome := Replied(Reply(false, AlreadyExists(addr)));
      }
    }

    /** The transfer handler with both existence checks on their own
        address and the destination read after the debit. */
    method SendPayment(from: Address, to: Address, amount: uint32) returns (outcome: Outcome)
      modifies this
      ensures Step(outcome, State()) == Ledger.SendPayment(old(State()), from, to, amount)
      ensures outcome.Replied? && !outcome.reply.successful ==>
                balances == old(balances) && poisoned == old(poisoned)
    {
      if poisoned {
        return Panicked(LockPoisoned);
      }
      var containsFrom := from in balances;
      var containsTo := to in balances;
      match (containsFrom, containsTo)
      case (true, true) =>
        if balances[from] >= amount {
          balances := balances[from := balances[from] - amount];
          var toBalance := balances[to];
          if toBalance as int + amount as int >= U32_LIMIT {
            poisoned := true;
            return Panicked(AddOverflow);
          }
          balances := balances[to := toBalance + amount];
          outcome := Replied(Reply(true, Transferred(amount, from, to)));
        } else {
          outcome := Replied(Reply(false, InsufficientFunds(from)));
        }
      case (false, false) =>
        outcome := Replied(Reply(false, NeitherExists(from, to)));
      case (false, true) =>
        outcome := Replied(Reply(false, FromMissing(from)));
      case (true, false) =>
        outcome := Replied(Reply(false, ToMissing(to)));
    }

    /** The transfer handler as the source writes it: the second existence
        check looks at `from` again, and both balances are read before the
        two writes. */
    method SendPaymentAsWritten(from: Address, to: Address, amount: uint32) returns (outcome: Outcome)
      modifies this
      ensures Step(outcome, State()) == Ledger.SendPaymentAsWritten(old(State()), from, to, amount)
    {
      if poisoned {
        return Panicked(LockPoisoned);
      }
      var containsFrom := from in balances;
      var containsTo := from in balances;
      if containsFrom && containsTo {
        if balances[from] >= amount {
          var fromBalance := balances[from];
          if to !in balances {
            poisoned := true;
            return Panicked(MissingKey(to));
          }
          var toBalance := balances[to];
          balances := balances[from := fromBalance - amount];
          if toBalance as int + amount as int >= U32_LIMIT {
            poisoned := true;
            return Panicked(AddOverflow);
          }
          balances := balances[to := toBalance + amount];
          outcome := Replied(Reply(true, Transferred(amount, from, to)));
        } else {
          outcome := Replied(Reply(false, InsufficientFunds(from)));
        }
      } else if !containsFrom && !containsTo {
        outcome := Replied(Reply(false, NeitherExists(from, to)));
      } else if !containsFrom {
        outcome := Replied(Reply(false, FromMissing(from)));
      } else {
        outcome := Replied(Reply(false, ToMissing(to)));
      }
    }
  }

  /** The concrete session of two accounts and two transfers, driven
      through the object. */
  method AliceAndBobSession() returns (service: BitcoinService)
    ensures service.balances == map["alice" := 70, "bob" := 30] && !service.poisoned
  {
    service := new BitcoinService();
    var o1 := service.InitAccount("alice", Some(100));
    var o2 := service.InitAccount("bob", None);
    var o3 := service.SendPayment("alice", "bob", 30);
    var o4 := service.SendPayment("alice", "bob", 1000);
    assert o1.Succeeded() && o2.Succeeded() && o3.Succeeded();
    assert o4 == Replied(Reply(false, InsufficientFunds("alice")));
  }
}
