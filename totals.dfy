/** The total of all balances in the ledger, and how each handler moves it:
    a transfer conserves it, an initialization adds the initial amount, and
    the source's self-transfer creates money. */
module Totals {
  import opened LedgerTypes
  import Ledger

  /** Some key of a non-empty map; the same one every time for the same map. */
  ghost function Pick(m: map<Address, uint32>): (k: Address)
    requires m != map[]
    ensures k in m
  {
    var k :| k in m; k
  }

  /** The sum of all balances, as an unbounded integer. */
  ghost function Total(m: map<Address, uint32>): (t: int)
    ensures t >= 0
    decreases |m|
  {
    if m == map[] then 0
    else
      var k := Pick(m);
      m[k] as int + Total(m - {k})
  }

  /** Any key can be taken out first: the total does not depend on which
      key `Pick` chooses. */
  lemma {:induction false} TotalRemove(m: map<Address, uint32>, k: Address)
    requires k in m
    ensures Total(m) == m[k] as int + Total(m - {k})
    decreases |m|
  {
    var j := Pick(m);
    if j != k {
      TotalRemove(m - {j}, k);
      TotalRemove(m - {k}, j);
      assert m - {j} - {k} == m - {k} - {j};
    }
  }

  /** Writing `v` at `k` changes the total by `v` minus what `k` held. */
  lemma TotalSet(m: map<Address, uint32>, k: Address, v: uint32)
    ensures Total(m[k := v]) == Total(m) - (if k in m then m[k] as int else 0) + v as int
  {
    TotalRemove(m[k := v], k);
    assert m[k := v] - {k} == m - {k};
    if k in m {
      TotalRemove(m, k);
    } else {
      assert m - {k} == m;
    }
  }

  /** A transfer that replies conserves the total; one whose credit
      overflows loses the debited amount; nothing else changes it. */
  lemma TransferConservesTotal(s: Store, from: Address, to: Address, amount: uint32)
    ensures var r := Ledger.SendPayment(s, from, to, amount);
            && (r.outcome.Replied? ==> Total(r.after.balances) == Total(s.balances))
            && (r.outcome == Panicked(AddOverflow) ==>
                  Total(r.after.balances) == Total(s.balances) - amount as int)
            && (r.outcome == Panicked(LockPoisoned) ==> r.after == s)
  {
    var r := Ledger.SendPayment(s, from, to, amount);
    if r.outcome.Succeeded() || r.outcome == Panicked(AddOverflow) {
      var b := s.balances;
      var debited := b[from := b[from] - amount];
      TotalSet(b, from, b[from] - amount);
      if r.outcome.Succeeded() {
        TotalSet(debited, to, debited[to] + amount);
      }
    }
  }

  /** As written, a transfer between two different addresses moves the total
      as the corrected handler does: kept unless the credit overflows, which
      loses the debited amount. */
  lemma TransferConservesTotalAsWritten(s: Store, from: Address, to: Address, amount: uint32)
    requires from != to
    ensures var r := Ledger.SendPaymentAsWritten(s, from, to, amount);
            && (r.outcome != Panicked(AddOverflow) ==> Total(r.after.balances) == Total(s.balances))
            && (r.outcome == Panicked(AddOverflow) ==>
                  Total(r.after.balances) == Total(s.balances) - amount as int)
  {
    if from in s.balances <==> to in s.balances {
      TransferConservesTotal(s, from, to, amount);
    }
  }

  /** A successful initialization adds exactly the initial balance to the total. */
  lemma InitAddsToTotal(s: Store, addr: Address, initAmount: Option<uint32>)
    ensures var r := Ledger.InitAccount(s, addr, initAmount);
            Total(r.after.balances) ==
              Total(s.balances) + (if r.outcome.Succeeded() then initAmount.GetOr(0) as int else 0)
  {
    if !s.poisoned && addr !in s.balances {
      TotalSet(s.balances, addr, initAmount.GetOr(0));
    }
  }

  /** As written, a funded transfer to oneself whose credit fits succeeds
      and raises the total by `amount`: money is created. */
  lemma SelfTransferMintsAsWritten(s: Store, a: Address, amount: uint32)
    requires !s.poisoned && a in s.balances && s.balances[a] >= amount
    requires Ledger.CreditFits(s.balances, a, amount)
    ensures var r := Ledger.SendPaymentAsWritten(s, a, a, amount);
            && r.outcome.Succeeded()
            && Total(r.after.balances) == Total(s.balances) + amount as int
  {
    var b := s.balances;
    TotalSet(b[a := b[a] - amount], a, b[a] + amount);
    TotalSet(b, a, b[a] - amount);
  }
}
