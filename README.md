# Payment ledger service, modelled in Dafny

The service keeps one in-memory map from account address to a `u32` balance behind a mutex, and answers two ledger requests:

- `init_account` creates an account with the requested initial amount, or 0 when the request carries none. It refuses an address that already exists.
- `send_payment` checks that both accounts exist and that the source has the funds. It then debits the source and credits the destination.

Each handler takes the lock once and keeps it for its whole body. One call is therefore one atomic step on the guarded state.

The model has five modules:

- `LedgerTypes` (`ledger_types.dfy`) holds the values. Balances are a `uint32` newtype. Replies are `Reply(successful, message)`; the message is a structured `Message` with one constructor per `format!` in the handlers. A handler either replies or panics (`Outcome`). The guarded state is `Store`: the map plus a `poisoned` flag. Rust sets that flag on its mutex when a thread panics while holding the guard, and every later `lock().expect(..)` then panics.
- `Ledger` (`ledger.dfy`) has each handler as a step function `Store -> Step`. It has the transfer twice: as the source writes it (`SendPaymentAsWritten`) and corrected (`SendPayment`); see Findings.
- `Totals` (`totals.dfy`) defines the sum of all balances and proves how each handler changes it.
- `Runs` (`runs.dfy`) serves a sequence of requests one after another. Because of the lock, this is what any set of concurrent callers amounts to. A `Variant` argument chooses the transfer handler: the code as written, or the corrected one. For every sequence and either handler, no account disappears, only initialized addresses appear, and a panic is final. Until a panic occurs, transfers conserve the total: with the corrected handler for every transfer, with the code as written only for transfers between two different addresses.
- `Server` (`server.dfy`) is the `BitcoinService` object. Its fields `balances` and `poisoned` are updated in place by the handler methods. Each method's postcondition ties its reply and new state to the step function of the same name.

Arithmetic follows Rust's debug build, where `u32` overflow panics. The debit `from_balance - amount` is guarded by the funds check, and the verifier proves it stays within `uint32`. The credit `to_balance + amount` can overflow. It runs after the debit has been written (src/server.rs:80-81), so an overflowing transfer panics with the source already debited and the credit lost. Both transfer models keep this behaviour. `Totals.TransferConservesTotal` states the exact loss.

Where the code departs from what its own reply messages evidently intend, both versions are modelled. The code as written can panic on client input (src/server.rs:72 and 81), and a self-transfer credits the account. `SendPaymentAsWritten` and the class method of the same name model the code literally.

## Model

| member | source | states |
|---|---|---|
| Ledger.InitAccount | src/server.rs:20-50 | A fresh address is inserted with `init_amount`, or 0 when none is given, and the reply reports success. An existing address gets an "already exists" reply and the whole state stays unchanged. The key set grows by at most the requested address. No entry that existed before is overwritten. A poisoned lock panics with nothing changed. |
| Ledger.SendPayment | src/server.rs:52-106 | Corrected transfer. It succeeds exactly when both accounts exist, the source holds at least `amount`, and the credit fits in `u32`. On success between two accounts, the source loses `amount`, the destination gains it, their sum is kept, and no other entry changes. A self-transfer or a zero amount leaves the state unchanged. Each rejection (both missing, source missing, destination missing, insufficient funds) names its reason and changes nothing. No transfer adds or removes keys. On a healthy lock, a funded transfer between two accounts whose credit does not fit always panics with the overflow, leaving the source debited and the lock poisoned. That is the only panic a healthy lock can produce. |
| Ledger.SendPaymentAsWritten | src/server.rs:65-105 | The transfer as written. Only the both-present and both-absent arms are reachable. A missing source always yields "Neither … exist". A funded source with a missing destination panics at the index, before any write, and poisons the lock. A funded self-transfer whose credit fits succeeds with the "transferred" message, raises the balance by `amount` and leaves every other entry untouched. One whose credit overflows panics with the debit written and the lock poisoned. On a healthy lock the only panics are the missing key and the overflow. Wherever `from != to` and both addresses are equally present, it agrees with `Ledger.SendPayment`. |
| Totals.TransferConservesTotal | src/server.rs:70-81 | Every transfer that replies, successful or not, leaves the sum of all balances unchanged. A transfer whose credit overflows lowers the sum by exactly `amount`. |
| Totals.TransferConservesTotalAsWritten | src/server.rs:65-81 | As written, a transfer between two different addresses keeps the total unless its credit overflows. An overflowing credit lowers the total by exactly `amount`. This holds for replies and for the missing-key panic. |
| Totals.InitAddsToTotal | src/server.rs:33-43 | A successful initialization raises the total by the initial balance. Any other outcome leaves the total unchanged. |
| Totals.SelfTransferMintsAsWritten | src/server.rs:71-81 | As written, a funded self-transfer whose credit fits succeeds and raises the total by `amount`. |
| Runs.Serve | src/server.rs:19-106 | For either transfer handler, dispatching one request never removes a key. It adds at most the address of an initialization request. On a poisoned lock it panics and changes nothing. |
| Runs.InitAddresses | src/server.rs:42 | The returned set holds exactly the addresses named by the sequence's initialization requests. |
| Runs.PoisonIsFinal | src/server.rs:60-63 | For either transfer handler: once a handler has panicked under the lock, every later request panics and the state never changes again. |
| Runs.RunKeys | src/server.rs:42 | For either transfer handler, after any sequence of requests, every account present before is still present. The only new accounts are addresses that some initialization request names. |
| Runs.PaymentsConserveTotal | src/server.rs:60-81 | Any serial order of any number of transfers keeps the total of all balances while no handler has panicked, and never raises it. With the corrected handler this holds for every transfer. With the code as written it is stated only for transfers between different addresses, since a self-transfer raises the total (`Totals.SelfTransferMintsAsWritten`). |
| Runs.InitTwice | src/server.rs:33-48 | Initializing a fresh address twice: the first call succeeds with the given balance. The second reports "already exists" and leaves that balance untouched. |
| Runs.AliceAndBob | src/server.rs:33-88 | `alice` is created with 100 and `bob` with 0. A transfer of 30 succeeds, and a transfer of 1000 is refused for insufficient funds. Afterwards alice holds 70 and bob 30. |
| Runs.MissingDestinationPanicsAsWritten | src/server.rs:66-72 | As written, paying from a registered `alice` to an unregistered `bob` panics on the missing key. After that, even an unrelated initialization panics on the poisoned lock. |
| Server.BitcoinService.constructor | src/server.rs:13-16 | The default service starts with an empty map and a healthy lock. |
| Server.BitcoinService.InitAccount | src/server.rs:20-50 | Updates the fields in place. The reply and new state are those of `Ledger.InitAccount`. On success the map is the old map with the address bound to the default-0 amount. Otherwise map and lock are unchanged. |
| Server.BitcoinService.SendPayment | src/server.rs:52-106 | Updates the fields in place. The reply and new state are those of `Ledger.SendPayment`. Every rejection leaves map and lock unchanged. |
| Server.BitcoinService.SendPaymentAsWritten | src/server.rs:52-106 | Updates the fields in place, line by line as the source does. The reply and new state are those of `Ledger.SendPaymentAsWritten`. |
| Server.AliceAndBobSession | src/server.rs:33-88 | The same concrete session driven through the object ends with alice at 70, bob at 30 and a healthy lock. |

## Findings

| source | as written | input that shows it | evidently intended | confidence | as-written member | corrected member |
|---|---|---|---|---|---|---|
| src/server.rs:66 | `contains_to` tests `from_addr`, so it always equals `contains_from` | `alice` holds 100 and `bob` is absent; pay 30 from `alice` to `bob`: the index `balances[&req.to_addr]` at line 72 panics and poisons the lock (`Runs.MissingDestinationPanicsAsWritten`) | test `to_addr`, so that "To account … doesn't exist" is answered and the service keeps working | high; not executed | Ledger.SendPaymentAsWritten | Ledger.SendPayment |
| src/server.rs:71-81 | both balances are read before either `insert`, so for `from == to` the second insert overwrites the debit | `alice` holds 100; pay 30 from `alice` to `alice`: `alice` ends with 130 and the total grows by 30 (`Totals.SelfTransferMintsAsWritten`) | a self-transfer passes the funds check and leaves the balance as it was (`Totals.TransferConservesTotal`) | medium; not executed | Totals.SelfTransferMintsAsWritten | Ledger.SendPayment |

## Left out

- The RPC transport and server bootstrap (src/server.rs:5-11, 122-132) are framework I/O. The `Request`/`Response`/`Status` wrapping is dropped too: handlers take their fields directly and return an `Outcome`.
- Async execution and the mutex itself (src/server.rs:3, 15, 28-31, 60-63): each handler is one atomic method or step. Only the mutex's poisoning after a panic is modelled.
- How a panic reaches the caller (the connection's task unwinding) is not modelled. The model records only `Panicked(cause)` and the poisoned lock.
- Release-build arithmetic: with overflow checks off, `to_balance + req.amount` wraps modulo 2^32 instead of panicking. Only the debug-build panic is modelled.
- `send_hints` and the `println!` logging (src/server.rs:24, 56, 108-119) only write output. They hold no state.
- Message text: each reply carries a structured `Message` with the addresses and amounts that its `format!` names, not the formatted string.
- src/client.rs (argument parsing, connecting, printing, exit status) is command-line glue with no ledger logic.
