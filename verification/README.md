# Cash-flow minimizer, modelled in Dafny

`CF_minimizer.py` settles a group's debts in two steps.

1. `calculate_net_amounts` turns a dictionary `debtor -> [(creditor, amount), ...]`
   into one signed balance per participant. A negative balance means the
   participant owes; a positive one means they are owed.
2. `settle_debts` puts the creditors in a min-heap keyed `(-credit, person)` and the
   debtors in a min-heap keyed `(debt, person)`. Each round it pops the largest
   creditor and the largest debtor and records a payment `(debtor, creditor, amount)`
   for the smaller of the two magnitudes. Whatever remains of either entry is pushed
   back.

The model follows the code.

- Python dictionaries keep insertion order. A dictionary of balances is a `map`
  together with a sequence giving its iteration order. The `debts` dictionary is a
  sequence of `Account`s whose debtors are distinct.
- Participants are integers, and amounts are unbounded integers.
- `heapq` is specified abstractly by `PriorityQueue.MinHeap`, a class holding a
  multiset of `(key, person)` entries. `Pop` takes out the least entry in Python's
  tuple order.

The modules are:

- `Ledger`: participants, transfers, ordered sums.
- `NetAmounts`: `calculate_net_amounts` as written. A creditor who is not a key of `debts`
  makes it fail with `KeyError`.
- `PriorityQueue`: the heaps.
- `Settlement`: `settle_debts` as a method over two `MinHeap` objects. It is proved
  equal to the ghost function `Settle` on the balances.
- `SettlementFacts`: what the transactions do to the balances.
- `AllParticipants`: the aggregation with a zero default for every participant (see
  Findings).
- `Pipeline`: the flow of `main`, from debts to balances to transactions.

## Model

| member | source | states |
|---|---|---|
| `Ledger.TransferKeepsTotal` | CF_minimizer.py:10-11 | Taking an amount off one balance and adding it to another leaves the sum of all balances unchanged. |
| `NetAmounts.CalculateNetAmounts` | CF_minimizer.py:4-12 | If some edge names a creditor that is not a debtor, the result is `KeyError` for the first such creditor. Otherwise it is a dictionary whose keys are exactly the debtors. Each balance is what that participant is owed minus what they owe, and the balances sum to zero. |
| `NetAmounts.BookRow` | CF_minimizer.py:9-11 | One debtor's pairs booked onto the balances give the balances after that row of edges, or `KeyError` for the row's first creditor that has no balance. |
| `NetAmounts.BookEdge` | CF_minimizer.py:10-11 | Subtracting from the debtor and then adding to the creditor gives the balances after one more edge. |
| `NetAmounts.NetMapStep` | CF_minimizer.py:10-11 | The balances after one more edge are the old balances, with the amount taken off the debtor and added to the creditor. |
| `NetAmounts.NetMapTotalStep` | CF_minimizer.py:10-11 | An edge between two keys does not change the total of the balances. |
| `NetAmounts.NetSumsToZero` | CF_minimizer.py:8-11 | Balances over distinct keys that include every debtor and creditor of the edges sum to zero. |
| `NetAmounts.NetSnoc` | CF_minimizer.py:10-11 | One more edge changes a participant's balance by the amount when they are its creditor, and by minus the amount when they are its debtor. |
| `NetAmounts.NetAppend` | CF_minimizer.py:8-11 | A balance over two edge lists is the sum of the balances over each. |
| `NetAmounts.SelfEdgeNeutral` | CF_minimizer.py:10-11 | An edge from a participant to themselves changes no balance. |
| `NetAmounts.FirstUnknownIsFirst` | CF_minimizer.py:8-11 | No creditor is reported exactly when every creditor is a key. A reported creditor is not a key, and every edge before its first occurrence has a known creditor. |
| `NetAmounts.FirstUnknownSnoc` | CF_minimizer.py:11 | After edges with known creditors, one more edge fails exactly when its creditor is not a key. |
| `NetAmounts.DebtorsAreKeys` | CF_minimizer.py:6-8 | The debtor of every edge is a key of the dictionary, so line 10 never fails. |
| `PriorityQueue.LeastExists` | CF_minimizer.py:27-28 | A non-empty heap has an entry that precedes all others in `(key, person)` order. |
| `PriorityQueue.LeastUnique` | CF_minimizer.py:27-28 | There is only one such least entry. |
| `PriorityQueue.Least` | CF_minimizer.py:27-28 | The entry `heappop` returns is the least entry of the heap. |
| `PriorityQueue.MinHeap.Heapify` | CF_minimizer.py:19-20 | The heap holds exactly the entries of the list. |
| `PriorityQueue.MinHeap.Pop` | CF_minimizer.py:27-28 | Returns the least entry and removes exactly that one occurrence. |
| `PriorityQueue.MinHeap.Push` | CF_minimizer.py:36-38 | Adds exactly the given entry. |
| `Settlement.CreditorsHeapified` | CF_minimizer.py:17-19 | Heapifying the creditor list of line 17 gives the creditor heap the rest of the model reasons about. |
| `Settlement.DebtorsHeapified` | CF_minimizer.py:18-20 | Heapifying the debtor list of line 18 gives the debtor heap the rest of the model reasons about. |
| `Settlement.Greedy` | CF_minimizer.py:26-38 | The greedy loop records at most as many transactions as the heaps hold entries. |
| `Settlement.RoundStep` | CF_minimizer.py:26-38 | A round appends its transaction, and what the rest of the loop records completes the same list. |
| `Settlement.RoundShrinks` | CF_minimizer.py:26-38 | Every round strictly lowers the number of heap entries, so the loop terminates. |
| `Settlement.RoundMass` | CF_minimizer.py:31-38 | A round keeps only nonzero entries in the heaps and lowers each heap's total magnitude by the settled amount. |
| `Settlement.RefillMass` | CF_minimizer.py:35-38 | Pushing back a remainder keeps the entries nonzero, and the heap's magnitude falls by exactly the settled amount. |
| `Settlement.MassPositive` | CF_minimizer.py:17-18 | A heap of nonzero entries has a non-negative total magnitude, which is zero exactly when the heap is empty. |
| `Settlement.RoundBalanced` | CF_minimizer.py:26-38 | Rounds keep the difference between creditor mass and debtor mass. |
| `Settlement.EmptyTogether` | CF_minimizer.py:26-40 | When both heaps start with equal mass, once one heap is empty the other is empty too. |
| `Settlement.PushBack` | CF_minimizer.py:35-38 | The popped entry goes back, reduced by the settled amount, exactly when some of its magnitude remains. |
| `Settlement.SettleRound` | CF_minimizer.py:27-38 | One round pops both heads, records the debtor-pays-creditor transaction for the smaller magnitude, and pushes back the remainders. |
| `Settlement.RunRounds` | CF_minimizer.py:26-40 | The loop records exactly `Greedy` of the initial heaps. It stops with one heap empty, and keeps the heaps balanced. |
| `Settlement.SettleDebts` | CF_minimizer.py:15-40 | `settle_debts` returns exactly `Settle` of the balances. |
| `SettlementFacts.HeapsOrderIndependent` | CF_minimizer.py:17-20 | The heap contents do not depend on the dictionary's iteration order. |
| `SettlementFacts.LargestCreditorIsLeast` | CF_minimizer.py:17-27 | The creditor with the largest credit, the smaller id among equals, is the head of the creditor heap. |
| `SettlementFacts.LargestDebtorIsLeast` | CF_minimizer.py:18-28 | The debtor with the largest debt, the smaller id among equals, is the head of the debtor heap. |
| `SettlementFacts.LeastIsLargestCreditor` | CF_minimizer.py:17-27 | Conversely, the head of the creditor heap is the largest creditor. |
| `SettlementFacts.LeastIsLargestDebtor` | CF_minimizer.py:18-28 | Conversely, the head of the debtor heap is the largest debtor. |
| `SettlementFacts.CreditorsAfterPay` | CF_minimizer.py:35-38 | After a payment, the creditor heap of the new balances is exactly what the round leaves: the payee popped and pushed back reduced while credit remains. |
| `SettlementFacts.DebtorsAfterPay` | CF_minimizer.py:35-36 | The same for the debtor heap and the payer. |
| `SettlementFacts.GreedyIsRound` | CF_minimizer.py:26-38 | A greedy payment on the balances is one round on their heaps. |
| `SettlementFacts.SettleStep` | CF_minimizer.py:26-38 | The transactions are the greedy payment followed by the transactions for the balances after it. |
| `SettlementFacts.SettleCases` | CF_minimizer.py:26-32 | No transaction is recorded exactly when no balance is positive or no balance is negative. Otherwise the first transaction is the largest debtor paying the largest creditor the smaller magnitude, and the rest settle the paid balances. |
| `SettlementFacts.NoCreditors` | CF_minimizer.py:17 | Without a positive balance the creditor heap is empty. |
| `SettlementFacts.NoDebtors` | CF_minimizer.py:18 | Without a negative balance the debtor heap is empty. |
| `SettlementFacts.PayEffect` | CF_minimizer.py:31-38 | A greedy payment keeps the total, and lowers both total credit and total debt by its amount. It settles the payer or the payee completely, so fewer balances stay nonzero. |
| `SettlementFacts.Advance` | CF_minimizer.py:26-38 | Paying the first transaction leaves the balances whose transactions are the rest, with fewer nonzero balances. |
| `SettlementFacts.Stopped` | CF_minimizer.py:26 | When nothing is recorded, credits or debts are all gone, and a zero-sum ledger is all zero. |
| `SettlementFacts.SettleLength` | CF_minimizer.py:26-38 | There are at most as many transactions as nonzero balances, and strictly fewer on a zero-sum ledger with a nonzero balance. |
| `SettlementFacts.SettleAtMostParticipants` | CF_minimizer.py:26-38 | There are at most as many transactions as participants, and fewer on a non-empty zero-sum ledger. This is the bound the large test asserts at line 92. |
| `SettlementFacts.SettleVolume` | CF_minimizer.py:31-32 | The transactions move in total the smaller of the total credit and the total debt. |
| `SettlementFacts.ZeroSumVolume` | CF_minimizer.py:26-40 | On a zero-sum ledger, the total transacted equals the sum of the positive balances. |
| `SettlementFacts.SettleEndpoints` | CF_minimizer.py:31-32 | Every transaction is between two different participants of the dictionary and has a positive amount. |
| `SettlementFacts.SettleSuffix` | CF_minimizer.py:26-38 | After paying the first `i` transactions, the remaining ones are what settling the paid balances records, and the total is unchanged. |
| `SettlementFacts.SettleGreedy` | CF_minimizer.py:27-32 | The `i`th transaction has a payer with a negative balance and a payee with a positive one at that point. Its amount is positive, and it is the minimum of the two magnitudes. |
| `SettlementFacts.SettleClears` | CF_minimizer.py:26-40 | Once all transactions are paid, credits or debts are all gone. On a zero-sum ledger every balance is zero and both heaps are empty. |
| `SettlementFacts.SettleOrderIndependent` | CF_minimizer.py:17-20 | The transactions do not depend on the dictionary's iteration order. |
| `SettlementFacts.HeapEntries` | CF_minimizer.py:17-18 | An entry is in the creditor heap exactly when it is `(-balance, person)` for a positive balance, and in the debtor heap exactly when it is `(balance, person)` for a negative one. No entry occurs twice, and no key is zero. |
| `SettlementFacts.CreditorMass` | CF_minimizer.py:17 | The creditor heap's magnitude is the total credit. |
| `SettlementFacts.DebtorMass` | CF_minimizer.py:18 | The debtor heap's magnitude is the total debt. |
| `SettlementFacts.ZeroSumHeaps` | CF_minimizer.py:17-18 | On a zero-sum ledger both heaps have the same magnitude. |
| `SettlementFacts.HeapsEmptyTogether` | CF_minimizer.py:26-40 | On a zero-sum ledger, when the loop stops with one heap empty, both heaps are empty. |
| `AllParticipants.OrphanCreditorFails` | CF_minimizer.py:6-11 | For `{0: [(1, 50)]}`, the aggregation as written fails on creditor 1. |
| `AllParticipants.CalculateNetAmountsAll` | CF_minimizer.py:4-12 | With a zero default, the aggregation never fails. Its keys are exactly the debtors and creditors, and each balance is credited minus debited. The balances sum to zero. |
| `AllParticipants.BookRowAll` | CF_minimizer.py:9-11 | One row booked with a zero default gives the balances after the row, over the keys extended by its new creditors. |
| `AllParticipants.RowAllStep` | CF_minimizer.py:10-11 | Booking the next pair of a row gives the balances after one more edge. |
| `AllParticipants.BookAll` | CF_minimizer.py:10-11 | Booking an edge whose creditor may be new gives the balances after that edge, over the keys extended by the creditor. |
| `AllParticipants.NetMapExtend` | CF_minimizer.py:6 | A participant on no edge so far joins the balances with zero. |
| `AllParticipants.Keyed` | CF_minimizer.py:6-11 | Adding new creditors in the order they are met keeps the keys distinct. |
| `AllParticipants.KeyedMembers` | CF_minimizer.py:6-11 | The keys after the edges are the initial keys and the edges' creditors, and nobody else. |
| `AllParticipants.BookedKeys` | CF_minimizer.py:8-11 | After any number of rows, the keys are distinct and cover every participant seen so far. |
| `AllParticipants.AgreesWithoutOrphans` | CF_minimizer.py:6-11 | When every creditor is a debtor, the corrected aggregation keeps the debtor keys in their order, so both aggregations give the same dictionary. |
| `Pipeline.NetBalancesZeroSum` | CF_minimizer.py:108 | The balances of the zero-default aggregation (`AllParticipants`) enumerate their dictionary and sum to zero. Wherever line 108 succeeds they are its balances, by `AllParticipants.AgreesWithoutOrphans`. |
| `Pipeline.SettleNetAmounts` | CF_minimizer.py:108-109 | Settling the zero-default balances of any debts dictionary gives fewer transactions than participants. The total transacted equals what the creditors are owed, and every balance is zero once all transactions are paid. Where line 108 succeeds, these are the balances line 109 settles (`AllParticipants.AgreesWithoutOrphans`, `Pipeline.SettleWithinDebtors`). |
| `Pipeline.SettleWithinDebtors` | CF_minimizer.py:101-109 | When every creditor is also a debtor, as in `main`'s input, there are fewer transactions than debtors. |

## Left out

- `test_cash_flow_minimizer`, `large_test_cash_flow_minimizer` and `main` (lines 43-121) only print and run examples. The bound asserted at line 92 is proved by `SettlementFacts.SettleAtMostParticipants`. The flow of `main` is stated by `Pipeline`.
- Printing, and the string names of participants. Participants are integers; only their order matters, for ties in the heaps.
- The binary-heap list layout of `heapq`. Only the order in which entries come out is modelled.
- Floating-point amounts. Amounts are unbounded integers.
- `heappop` on an empty heap cannot happen. The loop runs only while both heaps are non-empty, and `Pop` requires a non-empty heap.
- Amounts are not validated. The code accepts zero and negative amounts, and so does the model.
- No zero-sum check on the balances is made after aggregation, as in the code. `settle_debts` accepts any balances, and the zero-sum facts are proved separately.
- The code raises `KeyError` for a creditor who is not a key of `debts`, although the documented intent is to give such a participant a zero balance. `NetAmounts` follows the code. The intended behaviour is modelled separately in `AllParticipants`.
- No claim of optimality. Greedy matching does not always find the fewest transactions, and the source does not promise it.
- `Settlement.SettleDebts`: its heaps are local, so their final state is not stated there. It is stated for the loop by `Settlement.RunRounds` and `SettlementFacts.HeapsEmptyTogether`.
- `settle_debts` never changes `net_amounts`. The model passes the balances as a value, so this holds by construction.
- `NetAmounts.CalculateNetAmounts`: the partly updated dictionary left behind when `KeyError` is raised is not returned, because no caller can observe it.

## Findings

| source | as written | input that shows it | evidently intended | confidence | as-written member | corrected member |
|---|---|---|---|---|---|---|
| CF_minimizer.py:6-11 | Balances are seeded only from the debtor keys, so `net_amounts[creditor] += amount` raises `KeyError` for a creditor who is not a key of `debts`. | `{0: [(1, 50)]}` (in the source's terms `{"A": [("B", 50)]}`) | A participant met only as a creditor starts from a zero balance. The aggregation then succeeds for every input. | not executed | `AllParticipants.OrphanCreditorFails` | `AllParticipants.CalculateNetAmountsAll` |
