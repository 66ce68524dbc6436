/** Requests served one after another. The service takes its lock once per
    request and holds it for the whole handler, so any interleaving of
    concurrent callers has the effect of some sequence of whole handler
    calls; these lemmas hold for every such sequence. */
module Runs {
  import opened LedgerTypes
  import Ledger
  import Totals

  /** Which transfer handler serves payments: the source's code as written,
      or the handler with both corrections of `Ledger.SendPayment`. */
  datatype Variant = AsWritten | Corrected

  /** Dispatch one request to its handler. */
  function Serve(s: Store, req: Request, v: Variant): (r: Step)
    ensures r.after.balances.Keys <= s.balances.Keys + (if req.InitAccountRequest? then {req.addr} else {})
    ensures s.balances.Keys <= r.after.balances.Keys
    ensures s.poisoned ==> r.after == s && r.outcome == Panicked(LockPoisoned)
  {
    match req
    case InitAccountRequest(addr, initAmount) => Ledger.InitAccount(s, addr, initAmount)
    case PaymentRequest(from, to, amount) =>
      match v
      case AsWritten => Ledger.SendPaymentAsWritten(s, from, to, amount)
      case Corrected => Ledger.SendPayment(s, from, to, amount)
  }

  /** The state after serving `reqs` in order. */
  function Run(s: Store, reqs: seq<Request>, v: Variant): Store
    decreases |reqs|
  {
    if reqs == [] then s else Run(Serve(s, reqs[0], v).after, reqs[1..], v)
  }

  /** The addresses that the initialization requests of `reqs` name. */
  function InitAddresses(reqs: seq<Request>): (addrs: set<Address>)
    ensures forall i :: 0 <= i < |reqs| && reqs[i].InitAccountRequest? ==> reqs[i].addr in addrs
    ensures forall a :: a in addrs ==>
              exists i :: 0 <= i < |reqs| && reqs[i].InitAccountRequest? && reqs[i].addr == a
    decreases |reqs|
  {
    if reqs == [] then {}
    else (if reqs[0].InitAccountRequest? then {reqs[0].addr} else {}) + InitAddresses(reqs[1..])
  }

  /** After a handler has panicked under the lock, every later request
      panics too and the state no longer changes. Holds for both variants. */
  lemma {:induction false} PoisonIsFinal(s: Store, reqs: seq<Request>, v: Variant)
    requires s.poisoned
    ensures Run(s, reqs, v) == s
    decreases |reqs|
  {
    if reqs != [] {
      PoisonIsFinal(Serve(s, reqs[0], v).after, reqs[1..], v);
    }
  }

  /** Accounts are never deleted, and the only accounts that appear are
      those some initialization request names. Holds for both variants. */
  lemma {:induction false} RunKeys(s: Store, reqs: seq<Request>, v: Variant)
    ensures s.balances.Keys <= Run(s, reqs, v).balances.Keys
    ensures Run(s, reqs, v).balances.Keys <= s.balances.Keys + InitAddresses(reqs)
    decreases |reqs|
  {
    if reqs != [] {
      RunKeys(Serve(s, reqs[0], v).after, reqs[1..], v);
    }
  }

  /** Any sequence of transfers conserves the total of all balances as long
      as no handler has panicked; a panic can only lose money, never create
      it. With the corrected handler this holds for every transfer; with the
      code as written, for transfers between two different addresses. */
  lemma {:induction false} PaymentsConserveTotal(s: Store, reqs: seq<Request>, v: Variant)
    requires forall i :: 0 <= i < |reqs| ==> reqs[i].PaymentRequest?
    requires v == AsWritten ==> forall i :: 0 <= i < |reqs| ==> reqs[i].from != reqs[i].to
    ensures Totals.Total(Run(s, reqs, v).balances) <= Totals.Total(s.balances)
    ensures !Run(s, reqs, v).poisoned ==> Totals.Total(Run(s, reqs, v).balances) == Totals.Total(s.balances)
    decreases |reqs|
  {
    if reqs != [] {
      var req := reqs[0];
      var next := Serve(s, req, v);
      if v == Corrected {
        Totals.TransferConservesTotal(s, req.from, req.to, req.amount);
      } else {
        Totals.TransferConservesTotalAsWritten(s, req.from, req.to, req.amount);
      }
      assert forall i :: 0 <= i < |reqs[1..]| ==> reqs[1..][i] == reqs[i + 1];
      PaymentsConserveTotal(next.after, reqs[1..], v);
      if next.after.poisoned {
        PoisonIsFinal(next.after, reqs[1..], v);
      }
    }
  }

  /** Initializing the same fresh address twice: the first call sets the
      balance, the second is refused and leaves it untouched. */
  lemma InitTwice(s: Store, addr: Address, n: Option<uint32>, m: Option<uint32>)
    requires !s.poisoned && addr !in s.balances
    ensures var first := Ledger.InitAccount(s, addr, n);
            var second := Ledger.InitAccount(first.after, addr, m);
            && first.outcome == Replied(Reply(true, Initialized(addr, n.GetOr(0))))
            && second.outcome == Replied(Reply(false, AlreadyExists(addr)))
            && second.after.balances[addr] == n.GetOr(0)
  {
  }

  /** Two accounts created, one transfer that fits and one that is refused. */
  lemma AliceAndBob()
    ensures var s0 := Store(map[], false);
            var s1 := Ledger.InitAccount(s0, "alice", Some(100));
            var s2 := Ledger.InitAccount(s1.after, "bob", None);
            var s3 := Ledger.SendPayment(s2.after, "alice", "bob", 30);
            var s4 := Ledger.SendPayment(s3.after, "alice", "bob", 1000);
            && s1.outcome.Succeeded() && s2.outcome.Succeeded() && s3.outcome.Succeeded()
            && s4.outcome == Replied(Reply(false, InsufficientFunds("alice")))
            && s4.after.balances == map["alice" := 70, "bob" := 30]
  {
  }

  /** As written, paying a registered source into an unregistered
      destination panics and poisons the lock for every later request. */
  lemma MissingDestinationPanicsAsWritten()
    ensures var s := Store(map["alice" := 100], false);
            var r := Ledger.SendPaymentAsWritten(s, "alice", "bob", 30);
            && r.outcome == Panicked(MissingKey("bob"))
            && r.after.poisoned
            && Ledger.InitAccount(r.after, "carol", None).outcome == Panicked(LockPoisoned)
  {
  }
}
