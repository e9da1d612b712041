/** What `settle_debts` does to the balances it is given: each transaction is the
    greedy match of the largest remaining debtor with the largest remaining
    creditor, and on a zero-sum ledger the transactions clear every balance. */
module SettlementFacts {
  import opened Ledger
  import opened PriorityQueue
  import opened Settlement

  /** The balances once `t.debtor` has paid `t.amount` to `t.creditor`: the
      payer's debt and the payee's credit each shrink by the amount. */
  function Pay(bal: map<Participant, int>, t: Transfer): (r: map<Participant, int>)
    requires t.debtor in bal && t.creditor in bal
    ensures r.Keys == bal.Keys
  {
    bal[t.debtor := bal[t.debtor] + t.amount][t.creditor := bal[t.creditor] - t.amount]
  }

  /** The balances once every transaction of `ts` has been paid, in order. */
  function PayAll(bal: map<Participant, int>, ts: seq<Transfer>): (r: map<Participant, int>)
    requires forall t | t in ts :: t.debtor in bal && t.creditor in bal
    ensures r.Keys == bal.Keys
    decreases |ts|
  {
    if ts == [] then bal
    else
      var t := ts[0];
      assert t in ts;
      PayAll(Pay(bal, t), ts[1..])
  }

  /** `p` has the largest credit, the smallest id among equals: the head of the
      creditor heap, keyed `(-amount, person)`. */
  ghost predicate IsLargestCreditor(bal: map<Participant, int>, order: seq<Participant>, p: Participant)
    requires forall k | k in order :: k in bal
  {
    && p in order && bal[p] > 0
    && forall q | q in order && bal[q] > 0 :: bal[q] < bal[p] || (bal[q] == bal[p] && p <= q)
  }

  /** `p` has the largest debt, the smallest id among equals: the head of the
      debtor heap, keyed `(amount, person)`. */
  ghost predicate IsLargestDebtor(bal: map<Participant, int>, order: seq<Participant>, p: Participant)
    requires forall k | k in order :: k in bal
  {
    && p in order && bal[p] < 0
    && forall q | q in order && bal[q] < 0 :: bal[p] < bal[q] || (bal[q] == bal[p] && p <= q)
  }

  /** The first key of the order contributes its entry, if any, to the heap. */
  lemma CreditorHeapHead(m: map<Participant, int>, order: seq<Participant>, e: Entry)
    requires order != [] && forall k | k in order :: k in m
    ensures CreditorHeap(m, order)[e]
         == (if e.who == order[0] && m[order[0]] > 0 && e.key == -m[order[0]] then 1 else 0) + CreditorHeap(m, order[1..])[e]
  {
    var k := order[0];
    assert k in order;
    var head := if m[k] > 0 then multiset{Entry(-m[k], k)} else multiset{};
    assert CreditorHeap(m, order) == head + CreditorHeap(m, order[1..]);
    if m[k] > 0 {
      assert head[e] == if e == Entry(-m[k], k) then 1 else 0;
    }
  }

  /** Every entry of the creditor heap occurs once, for a positive balance. */
  lemma {:induction false} CreditorCount(m: map<Participant, int>, order: seq<Participant>, e: Entry)
    requires Distinct(order) && forall k | k in order :: k in m
    ensures CreditorHeap(m, order)[e]
         == if e.who in order && m[e.who] > 0 && e.key == -m[e.who] then 1 else 0
  {
    if order != [] {
      var k := order[0];
      assert k in order;
      var rest := order[1..];
      CreditorCount(m, rest, e);
      CreditorHeapHead(m, order, e);
      if e.who == k {
        assert e.who !in rest;
      } else {
        assert e.who in order <==> e.who in rest;
      }
    }
  }

  /** The first key of the order contributes its entry, if any, to the heap. */
  lemma DebtorHeapHead(m: map<Participant, int>, order: seq<Participant>, e: Entry)
    requires order != [] && forall k | k in order :: k in m
    ensures DebtorHeap(m, order)[e]
         == (if e.who == order[0] && m[order[0]] < 0 && e.key == m[order[0]] then 1 else 0) + DebtorHeap(m, order[1..])[e]
  {
    var k := order[0];
    assert k in order;
    var head := if m[k] < 0 then multiset{Entry(m[k], k)} else multiset{};
    assert DebtorHeap(m, order) == head + DebtorHeap(m, order[1..]);
    if m[k] < 0 {
      assert head[e] == if e == Entry(m[k], k) then 1 else 0;
    }
  }

  /** Every entry of the debtor heap occurs once, for a negative balance. */
  lemma {:induction false} DebtorCount(m: map<Participant, int>, order: seq<Participant>, e: Entry)
    requires Distinct(order) && forall k | k in order :: k in m
    ensures DebtorHeap(m, order)[e]
         == if e.who in order && m[e.who] < 0 && e.key == m[e.who] then 1 else 0
  {
    if order != [] {
      var k := order[0];
      assert k in order;
      var rest := order[1..];
      DebtorCount(m, rest, e);
      DebtorHeapHead(m, order, e);
      if e.who == k {
        assert e.who !in rest;
      } else {
        assert e.who in order <==> e.who in rest;
      }
    }
  }

  /** The heaps depend on the balances only, not on the dictionary's order. */
  lemma HeapsOrderIndependent(bal: map<Participant, int>, order1: seq<Participant>, order2: seq<Participant>)
    requires Enumerates(order1, bal) && Enumerates(order2, bal)
    ensures CreditorHeap(bal, order1) == CreditorHeap(bal, order2)
    ensures DebtorHeap(bal, order1) == DebtorHeap(bal, order2)
  {
    forall e ensures CreditorHeap(bal, order1)[e] == CreditorHeap(bal, order2)[e] {
      CreditorCount(bal, order1, e);
      CreditorCount(bal, order2, e);
    }
    forall e ensures DebtorHeap(bal, order1)[e] == DebtorHeap(bal, order2)[e] {
      DebtorCount(bal, order1, e);
      DebtorCount(bal, order2, e);
    }
  }

  /** The head of the creditor heap is the entry of the largest creditor. */
  lemma LargestCreditorIsLeast(bal: map<Participant, int>, order: seq<Participant>, p: Participant)
    requires Enumerates(order, bal) && IsLargestCreditor(bal, order, p)
    ensures CreditorHeap(bal, order) != multiset{}
    ensures Least(CreditorHeap(bal, order)) == Entry(-bal[p], p)
  {
    var h := CreditorHeap(bal, order);
    var c := Entry(-bal[p], p);
    CreditorCount(bal, order, c);
    forall x | x in h ensures Precedes(c, x) {
      CreditorCount(bal, order, x);
    }
    LeastUnique(c, Least(h), h);
  }

  /** The head of the debtor heap is the entry of the largest debtor. */
  lemma LargestDebtorIsLeast(bal: map<Participant, int>, order: seq<Participant>, p: Participant)
    requires Enumerates(order, bal) && IsLargestDebtor(bal, order, p)
    ensures DebtorHeap(bal, order) != multiset{}
    ensures Least(DebtorHeap(bal, order)) == Entry(bal[p], p)
  {
    var h := DebtorHeap(bal, order);
    var d := Entry(bal[p], p);
    DebtorCount(bal, order, d);
    forall x | x in h ensures Precedes(d, x) {
      DebtorCount(bal, order, x);
    }
    LeastUnique(d, Least(h), h);
  }

  /** Whoever heads a non-empty creditor heap is the largest creditor. */
  lemma LeastIsLargestCreditor(bal: map<Participant, int>, order: seq<Participant>)
    requires Enumerates(order, bal) && CreditorHeap(bal, order) != multiset{}
    ensures IsLargestCreditor(bal, order, Least(CreditorHeap(bal, order)).who)
  {
    var h := CreditorHeap(bal, order);
    var c := Least(h);
    CreditorCount(bal, order, c);
    forall q | q in order && bal[q] > 0 ensures bal[q] < bal[c.who] || (bal[q] == bal[c.who] && c.who <= q) {
      CreditorCount(bal, order, Entry(-bal[q], q));
      assert Precedes(c, Entry(-bal[q], q));
    }
  }

  /** Whoever heads a non-empty debtor heap is the largest debtor. */
  lemma LeastIsLargestDebtor(bal: map<Participant, int>, order: seq<Participant>)
    requires Enumerates(order, bal) && DebtorHeap(bal, order) != multiset{}
    ensures IsLargestDebtor(bal, order, Least(DebtorHeap(bal, order)).who)
  {
    var h := DebtorHeap(bal, order);
    var d := Least(h);
    DebtorCount(bal, order, d);
    forall q | q in order && bal[q] < 0 ensures bal[d.who] < bal[q] || (bal[q] == bal[d.who] && d.who <= q) {
      DebtorCount(bal, order, Entry(bal[q], q));
      assert Precedes(d, Entry(bal[q], q));
    }
  }

  /** One entry's count in the heap after the payment. */
  lemma CreditorHeapEntryAfterPay(bal: map<Participant, int>, order: seq<Participant>, t: Transfer, e: Entry)
    requires Enumerates(order, bal) && t.debtor in order && t.creditor in order && t.debtor != t.creditor
    requires bal[t.debtor] < 0 && bal[t.debtor] + t.amount <= 0 && 0 < t.amount <= bal[t.creditor]
    ensures CreditorHeap(Pay(bal, t), order)[e]
         == Refill(CreditorHeap(bal, order) - multiset{Entry(-bal[t.creditor], t.creditor)}, Entry(-bal[t.creditor], t.creditor), t.amount)[e]
  {
    var after := Pay(bal, t);
    var popped := Entry(-bal[t.creditor], t.creditor);
    var n0 := CreditorHeap(bal, order)[e];
    var n1 := CreditorHeap(after, order)[e];
    var r := (CreditorHeap(bal, order) - multiset{popped})[e];
    var x := if -popped.key > t.amount && e == Entry(popped.key + t.amount, popped.who) then 1 else 0;
    CreditorCount(bal, order, e);
    CreditorCount(after, order, e);
    assert r == if e == popped then n0 - 1 else n0;
    if e.who == t.creditor {
      assert after[e.who] == bal[e.who] - t.amount;
      assert r == 0;
      assert n1 == x;
    } else if e.who == t.debtor {
      assert after[e.who] == bal[e.who] + t.amount;
      assert n1 == 0 && n0 == 0 && x == 0;
    } else {
      assert e.who in order ==> after[e.who] == bal[e.who];
      assert n1 == n0 && r == n0 && x == 0;
    }
  }

  /** After a payment from the largest debtor, the creditor heap is what the
      loop leaves: the payee's entry is popped and goes back reduced while some
      credit remains. */
  lemma CreditorsAfterPay(bal: map<Participant, int>, order: seq<Participant>, t: Transfer)
    requires Enumerates(order, bal) && t.debtor in order && t.creditor in order && t.debtor != t.creditor
    requires bal[t.debtor] < 0 && bal[t.debtor] + t.amount <= 0 && 0 < t.amount <= bal[t.creditor]
    ensures CreditorHeap(Pay(bal, t), order)
         == Refill(CreditorHeap(bal, order) - multiset{Entry(-bal[t.creditor], t.creditor)},
                   Entry(-bal[t.creditor], t.creditor), t.amount)
  {
    var left := Refill(CreditorHeap(bal, order) - multiset{Entry(-bal[t.creditor], t.creditor)}, Entry(-bal[t.creditor], t.creditor), t.amount);
    forall e ensures CreditorHeap(Pay(bal, t), order)[e] == left[e] {
      CreditorHeapEntryAfterPay(bal, order, t, e);
    }
    assert CreditorHeap(Pay(bal, t), order) == left;
  }

  /** One entry's count in the heap after the payment. */
  lemma DebtorHeapEntryAfterPay(bal: map<Participant, int>, order: seq<Participant>, t: Transfer, e: Entry)
    requires Enumerates(order, bal) && t.debtor in order && t.creditor in order && t.debtor != t.creditor
    requires bal[t.creditor] > 0 && bal[t.creditor] - t.amount >= 0 && 0 < t.amount <= -bal[t.debtor]
    ensures DebtorHeap(Pay(bal, t), order)[e]
         == Refill(DebtorHeap(bal, order) - multiset{Entry(bal[t.debtor], t.debtor)}, Entry(bal[t.debtor], t.debtor), t.amount)[e]
  {
    var after := Pay(bal, t);
    var popped := Entry(bal[t.debtor], t.debtor);
    var n0 := DebtorHeap(bal, order)[e];
    var n1 := DebtorHeap(after, order)[e];
    var r := (DebtorHeap(bal, order) - multiset{popped})[e];
    var x := if -popped.key > t.amount && e == Entry(popped.key + t.amount, popped.who) then 1 else 0;
    DebtorCount(bal, order, e);
    DebtorCount(after, order, e);
    assert r == if e == popped then n0 - 1 else n0;
    if e.who == t.debtor {
      assert after[e.who] == bal[e.who] + t.amount;
      assert r == 0;
      assert n1 == x;
    } else if e.who == t.creditor {
      assert after[e.who] == bal[e.who] - t.amount;
      assert n1 == 0 && n0 == 0 && x == 0;
    } else {
      assert e.who in order ==> after[e.who] == bal[e.who];
      assert n1 == n0 && r == n0 && x == 0;
    }
  }

  /** After a payment to the largest creditor, the debtor heap is what the loop
      leaves: the payer's entry is popped and goes back reduced while some debt
      remains. */
  lemma DebtorsAfterPay(bal: map<Participant, int>, order: seq<Participant>, t: Transfer)
    requires Enumerates(order, bal) && t.debtor in order && t.creditor in order && t.debtor != t.creditor
    requires bal[t.creditor] > 0 && bal[t.creditor] - t.amount >= 0 && 0 < t.amount <= -bal[t.debtor]
    ensures DebtorHeap(Pay(bal, t), order)
         == Refill(DebtorHeap(bal, order) - multiset{Entry(bal[t.debtor], t.debtor)},
                   Entry(bal[t.debtor], t.debtor), t.amount)
  {
    var left := Refill(DebtorHeap(bal, order) - multiset{Entry(bal[t.debtor], t.debtor)}, Entry(bal[t.debtor], t.debtor), t.amount);
    forall e ensures DebtorHeap(Pay(bal, t), order)[e] == left[e] {
      DebtorHeapEntryAfterPay(bal, order, t, e);
    }
    assert DebtorHeap(Pay(bal, t), order) == left;
  }

  /** `t` is the transaction one round records from the balances `bal`: the
      largest debtor pays the largest creditor the smaller of the two
      magnitudes. */
  ghost predicate IsGreedy(bal: map<Participant, int>, order: seq<Participant>, t: Transfer)
    requires forall k | k in order :: k in bal
  {
    && IsLargestDebtor(bal, order, t.debtor)
    && IsLargestCreditor(bal, order, t.creditor)
    && t.amount == Min(-bal[t.debtor], bal[t.creditor])
  }

  /** The creditor heap's part of a round: its head is the payee's entry, and
      what the round leaves in it is the creditor heap of the paid balances. */
  lemma CreditorRound(bal: map<Participant, int>, order: seq<Participant>, t: Transfer)
    requires Enumerates(order, bal) && IsGreedy(bal, order, t)
    ensures CreditorHeap(bal, order) != multiset{}
    ensures Least(CreditorHeap(bal, order)) == Entry(-bal[t.creditor], t.creditor)
    ensures CreditorHeap(Pay(bal, t), order)
         == Refill(CreditorHeap(bal, order) - multiset{Least(CreditorHeap(bal, order))}, Least(CreditorHeap(bal, order)), t.amount)
  {
    LargestCreditorIsLeast(bal, order, t.creditor);
    CreditorsAfterPay(bal, order, t);
  }

  /** The debtor heap's part of a round: its head is the payer's entry, and what
      the round leaves in it is the debtor heap of the paid balances. */
  lemma DebtorRound(bal: map<Participant, int>, order: seq<Participant>, t: Transfer)
    requires Enumerates(order, bal) && IsGreedy(bal, order, t)
    ensures DebtorHeap(bal, order) != multiset{}
    ensures Least(DebtorHeap(bal, order)) == Entry(bal[t.debtor], t.debtor)
    ensures DebtorHeap(Pay(bal, t), order)
         == Refill(DebtorHeap(bal, order) - multiset{Least(DebtorHeap(bal, order))}, Least(DebtorHeap(bal, order)), t.amount)
  {
    LargestDebtorIsLeast(bal, order, t.debtor);
    DebtorsAfterPay(bal, order, t);
  }

  /** The greedy transaction of the balances is what a round of the loop records
      from their heaps, and the heaps it leaves are those of the balances once
      the transaction is paid. */
  lemma GreedyIsRound(bal: map<Participant, int>, order: seq<Participant>, t: Transfer)
    requires Enumerates(order, bal) && IsGreedy(bal, order, t)
    ensures IsRound(CreditorHeap(bal, order), DebtorHeap(bal, order), t,
                    CreditorHeap(Pay(bal, t), order), DebtorHeap(Pay(bal, t), order))
  {
    CreditorRound(bal, order, t);
    DebtorRound(bal, order, t);
  }

  /** One round on the balances: the settlement of `bal` is its greedy
      transaction followed by the settlement of the balances once it is paid. */
  lemma SettleStep(bal: map<Participant, int>, order: seq<Participant>, t: Transfer)
    requires Enumerates(order, bal) && IsGreedy(bal, order, t)
    ensures Settle(bal, order) == [t] + Settle(Pay(bal, t), order)
  {
    GreedyIsRound(bal, order, t);
    RoundStep([], CreditorHeap(bal, order), DebtorHeap(bal, order), t,
              CreditorHeap(Pay(bal, t), order), DebtorHeap(Pay(bal, t), order));
    assert [] + [t] == [t];
    assert [] + Settle(bal, order) == Settle(bal, order);
  }

  /** No entry for a balance that is not positive: the creditor heap is empty
      when nobody is owed. */
  lemma NoCreditors(bal: map<Participant, int>, order: seq<Participant>)
    requires Enumerates(order, bal) && forall k | k in order :: bal[k] <= 0
    ensures CreditorHeap(bal, order) == multiset{}
  {
    forall e ensures CreditorHeap(bal, order)[e] == 0 {
      CreditorCount(bal, order, e);
    }
  }

  /** The debtor heap is empty when nobody owes. */
  lemma NoDebtors(bal: map<Participant, int>, order: seq<Participant>)
    requires Enumerates(order, bal) && forall k | k in order :: bal[k] >= 0
    ensures DebtorHeap(bal, order) == multiset{}
  {
    forall e ensures DebtorHeap(bal, order)[e] == 0 {
      DebtorCount(bal, order, e);
    }
  }

  /** The settlement is empty exactly when nobody owes or nobody is owed;
      otherwise it starts with the greedy transaction and goes on with the
      settlement of the balances once that is paid. */
  lemma SettleCases(bal: map<Participant, int>, order: seq<Participant>)
    requires Enumerates(order, bal)
    ensures Settle(bal, order) == []
        <==> (forall k | k in order :: bal[k] >= 0) || (forall k | k in order :: bal[k] <= 0)
    ensures Settle(bal, order) != [] ==>
              && IsGreedy(bal, order, Settle(bal, order)[0])
              && Settle(bal, order)[1..] == Settle(Pay(bal, Settle(bal, order)[0]), order)
  {
    var c, d := CreditorHeap(bal, order), DebtorHeap(bal, order);
    if forall k | k in order :: bal[k] <= 0 {
      NoCreditors(bal, order);
    } else if forall k | k in order :: bal[k] >= 0 {
      NoDebtors(bal, order);
    } else {
      var p :| p in order && bal[p] > 0;
      var q :| q in order && bal[q] < 0;
      CreditorCount(bal, order, Entry(-bal[p], p));
      DebtorCount(bal, order, Entry(bal[q], q));
      assert c != multiset{} && d != multiset{};
      LeastIsLargestCreditor(bal, order);
      LeastIsLargestDebtor(bal, order);
      var t := Transfer(Least(d).who, Least(c).who, Min(-bal[Least(d).who], bal[Least(c).who]));
      assert IsGreedy(bal, order, t);
      SettleStep(bal, order, t);
    }
  }

  function NonZero(a: int): int { if a != 0 then 1 else 0 }

  function Positive(a: int): int { if a > 0 then a else 0 }

  function Negative(a: int): int { if a < 0 then -a else 0 }

  /** How many participants still owe or are owed. */
  function Unsettled(bal: map<Participant, int>, order: seq<Participant>): int
    requires forall k | k in order :: k in bal
  {
    SumBy(bal, order, NonZero)
  }

  /** The sum of the positive balances. */
  function Credit(bal: map<Participant, int>, order: seq<Participant>): int
    requires forall k | k in order :: k in bal
  {
    SumBy(bal, order, Positive)
  }

  /** The sum of the magnitudes of the negative balances. */
  function Owing(bal: map<Participant, int>, order: seq<Participant>): int
    requires forall k | k in order :: k in bal
  {
    SumBy(bal, order, Negative)
  }

  /** The total amount moved by the transactions `ts`. */
  function Volume(ts: seq<Transfer>): int {
    if ts == [] then 0 else ts[0].amount + Volume(ts[1..])
  }

  /** The total is what is owed to creditors less what debtors owe. */
  lemma {:induction false} TotalSplit(bal: map<Participant, int>, order: seq<Participant>)
    requires forall k | k in order :: k in bal
    ensures Total(bal, order) == Credit(bal, order) - Owing(bal, order)
  {
    if order != [] {
      assert order[0] in order;
      TotalSplit(bal, order[1..]);
    }
  }

  /** Nobody is left unsettled only when every balance is zero. */
  lemma AllSettled(bal: map<Participant, int>, order: seq<Participant>)
    requires forall k | k in order :: k in bal
    ensures Unsettled(bal, order) >= 0
    ensures Unsettled(bal, order) == 0 <==> forall k | k in order :: bal[k] == 0
  {
    SumByNonNegative(bal, order, NonZero);
    if Unsettled(bal, order) == 0 {
      SumByZeroParts(bal, order, NonZero);
    }
    if forall k | k in order :: bal[k] == 0 {
      SumByZero(bal, order, NonZero);
    }
  }

  /** Paying `t` between two different enumerated participants changes any sum
      over the balances at those two participants only. */
  lemma PaySum(bal: map<Participant, int>, order: seq<Participant>, t: Transfer, f: int -> int)
    requires Enumerates(order, bal) && t.debtor in order && t.creditor in order && t.debtor != t.creditor
    ensures SumBy(Pay(bal, t), order, f)
         == SumBy(bal, order, f) + (f(bal[t.debtor] + t.amount) - f(bal[t.debtor]))
                                 + (f(bal[t.creditor] - t.amount) - f(bal[t.creditor]))
  {
    var paid := bal[t.debtor := bal[t.debtor] + t.amount];
    SumByUpdate(bal, order, f, t.debtor, bal[t.debtor] + t.amount);
    SumByUpdate(paid, order, f, t.creditor, bal[t.creditor] - t.amount);
  }

  /** A greedy payment keeps the balances' total, takes its amount off both the
      credit and the debt outstanding, leaves the payer still owing or settled
      and the payee still owed or settled, and settles at least one of them. */
  lemma PayEffect(bal: map<Participant, int>, order: seq<Participant>, t: Transfer)
    requires Enumerates(order, bal) && IsGreedy(bal, order, t)
    ensures Enumerates(order, Pay(bal, t))
    ensures Total(Pay(bal, t), order) == Total(bal, order)
    ensures Credit(Pay(bal, t), order) == Credit(bal, order) - t.amount
    ensures Owing(Pay(bal, t), order) == Owing(bal, order) - t.amount
    ensures Pay(bal, t)[t.debtor] <= 0 && Pay(bal, t)[t.creditor] >= 0
    ensures Pay(bal, t)[t.debtor] == 0 || Pay(bal, t)[t.creditor] == 0
    ensures Unsettled(Pay(bal, t), order)
         == Unsettled(bal, order) - NonZero(bal[t.debtor]) + NonZero(Pay(bal, t)[t.debtor])
                                  - NonZero(bal[t.creditor]) + NonZero(Pay(bal, t)[t.creditor])
  {
    PaySum(bal, order, t, Id);
    PaySum(bal, order, t, Positive);
    PaySum(bal, order, t, Negative);
    PaySum(bal, order, t, NonZero);
  }

  /** What one round does to the balances: `paid` is `bal` once the first
      recorded transaction is paid; the loop goes on with its settlement, fewer
      participants are left unsettled, the total is kept and the amount comes
      off both the credit and the debt outstanding. */
  lemma Advance(bal: map<Participant, int>, order: seq<Participant>) returns (paid: map<Participant, int>)
    requires Enumerates(order, bal) && Settle(bal, order) != []
    ensures IsGreedy(bal, order, Settle(bal, order)[0])
    ensures paid == Pay(bal, Settle(bal, order)[0]) && Enumerates(order, paid)
    ensures Settle(paid, order) == Settle(bal, order)[1..]
    ensures 0 <= Unsettled(paid, order) < Unsettled(bal, order)
    ensures Unsettled(paid, order) == 0 ==> Unsettled(bal, order) == 2
    ensures Total(paid, order) == Total(bal, order)
    ensures Credit(paid, order) == Credit(bal, order) - Settle(bal, order)[0].amount
    ensures Owing(paid, order) == Owing(bal, order) - Settle(bal, order)[0].amount
  {
    SettleCases(bal, order);
    var t := Settle(bal, order)[0];
    paid := Pay(bal, t);
    PayEffect(bal, order, t);
    AllSettled(bal, order);
    AllSettled(paid, order);
    if Unsettled(paid, order) == 0 {
      assert paid[t.debtor] == 0 && paid[t.creditor] == 0;
    }
  }

  /** Where the loop stops: nobody owes or nobody is owed, so the credit or the
      debt outstanding is zero, and on balances that sum to zero nobody is left
      unsettled. */
  lemma Stopped(bal: map<Participant, int>, order: seq<Participant>)
    requires Enumerates(order, bal) && Settle(bal, order) == []
    ensures (forall k | k in order :: bal[k] >= 0) || (forall k | k in order :: bal[k] <= 0)
    ensures Credit(bal, order) >= 0 && Owing(bal, order) >= 0
    ensures Credit(bal, order) == 0 || Owing(bal, order) == 0
    ensures Total(bal, order) == 0 ==> forall k | k in order :: bal[k] == 0
  {
    SettleCases(bal, order);
    SumByNonNegative(bal, order, Positive);
    SumByNonNegative(bal, order, Negative);
    if forall k | k in order :: bal[k] >= 0 {
      SumByZero(bal, order, Negative);
      NonNegativeTotal(bal, order);
    } else {
      SumByZero(bal, order, Positive);
      NonPositiveTotal(bal, order);
    }
  }

  /** `settle_debts` records at most one transaction per participant who owes
      or is owed, and on balances that sum to zero at least one fewer. */
  lemma {:induction false} SettleLength(bal: map<Participant, int>, order: seq<Participant>)
    requires Enumerates(order, bal)
    ensures |Settle(bal, order)| <= Unsettled(bal, order)
    ensures Total(bal, order) == 0 && Unsettled(bal, order) > 0 ==> |Settle(bal, order)| < Unsettled(bal, order)
    decreases Unsettled(bal, order)
  {
    AllSettled(bal, order);
    if Settle(bal, order) == [] {
      Stopped(bal, order);
    } else {
      var paid := Advance(bal, order);
      SettleLength(paid, order);
    }
  }

  /** No more participants are unsettled than the dictionary has keys. */
  lemma {:induction false} UnsettledBound(bal: map<Participant, int>, order: seq<Participant>)
    requires forall k | k in order :: k in bal
    ensures Unsettled(bal, order) <= |order|
  {
    if order != [] {
      assert order[0] in order;
      UnsettledBound(bal, order[1..]);
    }
  }

  /** The bound the large scenario checks: no more transactions than
      participants, and on balances that sum to zero fewer. */
  lemma SettleAtMostParticipants(bal: map<Participant, int>, order: seq<Participant>)
    requires Enumerates(order, bal)
    ensures |Settle(bal, order)| <= |order|
    ensures Total(bal, order) == 0 && order != [] ==> |Settle(bal, order)| < |order|
  {
    SettleLength(bal, order);
    UnsettledBound(bal, order);
    AllSettled(bal, order);
  }

  /** One payment of `a` taken off both sides leaves the smaller side smaller by `a`. */
  lemma VolumeStep(ts: seq<Transfer>, rest: seq<Transfer>, credit: int, owing: int,
                   credit': int, owing': int)
    requires ts != [] && rest == ts[1..] && Volume(rest) == Min(credit', owing')
    requires credit' == credit - ts[0].amount && owing' == owing - ts[0].amount
    ensures Volume(ts) == Min(credit, owing)
  {
  }

  /** The transactions move, in total, the smaller of the outstanding credit
      and the outstanding debt. */
  lemma {:induction false} SettleVolume(bal: map<Participant, int>, order: seq<Participant>)
    requires Enumerates(order, bal)
    ensures Volume(Settle(bal, order)) == Min(Credit(bal, order), Owing(bal, order))
    decreases Unsettled(bal, order)
  {
    var ts := Settle(bal, order);
    if ts == [] {
      Stopped(bal, order);
    } else {
      var paid := Advance(bal, order);
      SettleVolume(paid, order);
      VolumeStep(ts, Settle(paid, order), Credit(bal, order), Owing(bal, order),
                 Credit(paid, order), Owing(paid, order));
    }
  }

  /** On balances that sum to zero, the total moved is exactly the sum of the
      positive balances, which is also the sum of the debts. */
  lemma ZeroSumVolume(bal: map<Participant, int>, order: seq<Participant>)
    requires Enumerates(order, bal) && Total(bal, order) == 0
    ensures Volume(Settle(bal, order)) == Credit(bal, order) == Owing(bal, order)
  {
    TotalSplit(bal, order);
    SettleVolume(bal, order);
  }

  /** The recorded transactions name participants of the dictionary, move a
      positive amount, and never have someone pay themselves. */
  lemma {:induction false} SettleEndpoints(bal: map<Participant, int>, order: seq<Participant>)
    requires Enumerates(order, bal)
    ensures forall t | t in Settle(bal, order) ::
              t.debtor in order && t.creditor in order && t.debtor != t.creditor && t.amount > 0
    decreases Unsettled(bal, order)
  {
    var ts := Settle(bal, order);
    if ts != [] {
      var paid := Advance(bal, order);
      SettleEndpoints(paid, order);
      assert forall t | t in ts :: t == ts[0] || t in ts[1..];
    }
  }

  /** The balances once the first `i` recorded transactions are paid. */
  ghost function After(bal: map<Participant, int>, order: seq<Participant>, i: nat): (r: map<Participant, int>)
    requires Enumerates(order, bal) && i <= |Settle(bal, order)|
    ensures Enumerates(order, r)
  {
    SettleEndpoints(bal, order);
    var ts := Settle(bal, order);
    assert forall t | t in ts[..i] :: t in ts;
    PayAll(bal, ts[..i])
  }

  lemma TakeTail(ts: seq<Transfer>, i: nat)
    requires 0 < i <= |ts|
    ensures ts[..i][1..] == ts[1..][..i - 1]
  {
  }

  lemma PayAllHead(bal: map<Participant, int>, ts: seq<Transfer>, paid: map<Participant, int>, rest: seq<Transfer>)
    requires ts != [] && ts[0].debtor in bal && ts[0].creditor in bal && paid == Pay(bal, ts[0])
    requires forall t | t in ts :: t.debtor in bal && t.creditor in bal
    requires rest == ts[1..]
    ensures PayAll(bal, ts) == PayAll(paid, rest)
  {
  }

  /** Paying the first `i` transactions is paying the first one and then the
      next `i - 1` of the settlement that is left. */
  lemma AfterStep(bal: map<Participant, int>, order: seq<Participant>, i: nat, paid: map<Participant, int>)
    requires Enumerates(order, bal) && 0 < i <= |Settle(bal, order)|
    requires IsGreedy(bal, order, Settle(bal, order)[0])
    requires Enumerates(order, paid) && Settle(paid, order) == Settle(bal, order)[1..]
    requires paid == Pay(bal, Settle(bal, order)[0])
    ensures After(bal, order, i) == After(paid, order, i - 1)
  {
    var ts := Settle(bal, order);
    var rest := Settle(paid, order);
    SettleEndpoints(bal, order);
    assert forall t | t in ts[..i] :: t in ts;
    TakeTail(ts, i);
    PayAllHead(bal, ts[..i], paid, rest[..i - 1]);
  }

  /** The first round, seen from the balances after `i` rounds. */
  lemma AdvanceAfter(bal: map<Participant, int>, order: seq<Participant>, i: nat)
    returns (paid: map<Participant, int>)
    requires Enumerates(order, bal) && 0 < i <= |Settle(bal, order)|
    ensures Enumerates(order, paid) && Settle(paid, order) == Settle(bal, order)[1..]
    ensures Total(paid, order) == Total(bal, order)
    ensures After(bal, order, i) == After(paid, order, i - 1)
  {
    paid := Advance(bal, order);
    AfterStep(bal, order, i, paid);
  }

  /** No round has changed anything yet. */
  lemma AfterZero(bal: map<Participant, int>, order: seq<Participant>)
    requires Enumerates(order, bal)
    ensures After(bal, order, 0) == bal
  {
    assert Settle(bal, order)[..0] == [];
  }

  /** What follows the first `i - 1` items of a tail follows the first `i` of the whole. */
  lemma DropStep(ts: seq<Transfer>, rest: seq<Transfer>, i: nat, suffix: seq<Transfer>)
    requires 0 < i <= |ts| && rest == ts[1..] && suffix == rest[i - 1..]
    ensures suffix == ts[i..]
  {
  }

  /** After `i` rounds, what the loop goes on to record is the settlement of
      the balances those rounds leave, and the balances' total is unchanged. */
  lemma {:induction false} SettleSuffix(bal: map<Participant, int>, order: seq<Participant>, i: nat)
    requires Enumerates(order, bal) && i <= |Settle(bal, order)|
    ensures Settle(After(bal, order, i), order) == Settle(bal, order)[i..]
    ensures Total(After(bal, order, i), order) == Total(bal, order)
    decreases i
  {
    var ts := Settle(bal, order);
    if i == 0 {
      AfterZero(bal, order);
    } else {
      var paid := AdvanceAfter(bal, order, i);
      SettleSuffix(paid, order, i - 1);
      DropStep(ts, Settle(paid, order), i, Settle(After(paid, order, i - 1), order));
    }
  }

  /** Every recorded transaction is the greedy one for the balances left by the
      transactions before it: the payer is the largest debtor, the payee the
      largest creditor (smallest id among equals), and the amount the smaller
      of the two magnitudes, so it is positive. */
  lemma SettleGreedy(bal: map<Participant, int>, order: seq<Participant>, i: nat)
    requires Enumerates(order, bal) && i < |Settle(bal, order)|
    ensures IsGreedy(After(bal, order, i), order, Settle(bal, order)[i])
    ensures After(bal, order, i)[Settle(bal, order)[i].debtor] < 0
    ensures After(bal, order, i)[Settle(bal, order)[i].creditor] > 0
    ensures Settle(bal, order)[i].amount > 0
  {
    SettleSuffix(bal, order, i);
    SettleCases(After(bal, order, i), order);
  }

  /** When the loop stops, nobody owes or nobody is owed; on balances that sum
      to zero, every balance is then zero and both heaps are empty together. */
  lemma SettleClears(bal: map<Participant, int>, order: seq<Participant>)
    requires Enumerates(order, bal)
    ensures var final := After(bal, order, |Settle(bal, order)|);
            (forall k | k in order :: final[k] >= 0) || (forall k | k in order :: final[k] <= 0)
    ensures var final := After(bal, order, |Settle(bal, order)|);
            Total(bal, order) == 0 ==>
              && (forall k | k in order :: final[k] == 0)
              && CreditorHeap(final, order) == multiset{} && DebtorHeap(final, order) == multiset{}
  {
    var n := |Settle(bal, order)|;
    var final := After(bal, order, n);
    SettleSuffix(bal, order, n);
    Stopped(final, order);
    if Total(bal, order) == 0 {
      NoCreditors(final, order);
      NoDebtors(final, order);
    }
  }

  /** The result does not depend on the dictionary's iteration order. */
  lemma SettleOrderIndependent(bal: map<Participant, int>, order1: seq<Participant>, order2: seq<Participant>)
    requires Enumerates(order1, bal) && Enumerates(order2, bal)
    ensures Settle(bal, order1) == Settle(bal, order2)
  {
    HeapsOrderIndependent(bal, order1, order2);
  }

  /** The heaps hold one entry per participant who is owed, respectively who
      owes, with the magnitude of that balance, which is never zero; no entry
      occurs twice. */
  lemma HeapEntries(bal: map<Participant, int>, order: seq<Participant>)
    requires Enumerates(order, bal)
    ensures forall e :: e in CreditorHeap(bal, order) <==> e.who in bal && bal[e.who] > 0 && e.key == -bal[e.who]
    ensures forall e :: e in DebtorHeap(bal, order) <==> e.who in bal && bal[e.who] < 0 && e.key == bal[e.who]
    ensures forall e :: CreditorHeap(bal, order)[e] <= 1 && DebtorHeap(bal, order)[e] <= 1
    ensures NonZeroEntries(CreditorHeap(bal, order)) && NonZeroEntries(DebtorHeap(bal, order))
  {
    forall e
      ensures e in CreditorHeap(bal, order) <==> e.who in bal && bal[e.who] > 0 && e.key == -bal[e.who]
      ensures CreditorHeap(bal, order)[e] <= 1
    {
      CreditorCount(bal, order, e);
    }
    forall e
      ensures e in DebtorHeap(bal, order) <==> e.who in bal && bal[e.who] < 0 && e.key == bal[e.who]
      ensures DebtorHeap(bal, order)[e] <= 1
    {
      DebtorCount(bal, order, e);
    }
  }

  /** The creditor heap's mass is the outstanding credit. */
  lemma {:induction false} CreditorMass(bal: map<Participant, int>, order: seq<Participant>)
    requires forall k | k in order :: k in bal
    ensures Mass(CreditorHeap(bal, order)) == Credit(bal, order)
  {
    if order != [] {
      var k := order[0];
      assert k in order;
      CreditorMass(bal, order[1..]);
      var rest := CreditorHeap(bal, order[1..]);
      if bal[k] > 0 {
        var e := Entry(-bal[k], k);
        assert CreditorHeap(bal, order) == multiset{e} + rest;
        MassAdd(e, rest);
      } else {
        assert CreditorHeap(bal, order) == rest;
      }
    }
  }

  /** The debtor heap's mass is the outstanding debt. */
  lemma {:induction false} DebtorMass(bal: map<Participant, int>, order: seq<Participant>)
    requires forall k | k in order :: k in bal
    ensures Mass(DebtorHeap(bal, order)) == Owing(bal, order)
  {
    if order != [] {
      var k := order[0];
      assert k in order;
      DebtorMass(bal, order[1..]);
      var rest := DebtorHeap(bal, order[1..]);
      if bal[k] < 0 {
        var e := Entry(bal[k], k);
        assert DebtorHeap(bal, order) == multiset{e} + rest;
        MassAdd(e, rest);
      } else {
        assert DebtorHeap(bal, order) == rest;
      }
    }
  }

  /** On balances that sum to zero the two heaps `settle_debts` builds hold
      nonzero entries of equal mass, so the loop empties them in the same
      round. */
  lemma ZeroSumHeaps(bal: map<Participant, int>, order: seq<Participant>)
    requires Enumerates(order, bal) && Total(bal, order) == 0
    ensures NonZeroEntries(CreditorHeap(bal, order)) && NonZeroEntries(DebtorHeap(bal, order))
    ensures Mass(CreditorHeap(bal, order)) == Mass(DebtorHeap(bal, order))
  {
    HeapEntries(bal, order);
    CreditorMass(bal, order);
    DebtorMass(bal, order);
    TotalSplit(bal, order);
  }

  /** On balances that sum to zero, whichever of the heaps `settle_debts` builds
      runs out first, the other runs out in the same round: once the loop of
      lines 26-38 stops, both heaps are empty. */
  lemma HeapsEmptyTogether(bal: map<Participant, int>, order: seq<Participant>,
                           creditors: multiset<Entry>, debtors: multiset<Entry>)
    requires Enumerates(order, bal) && Total(bal, order) == 0
    requires Balanced(CreditorHeap(bal, order), DebtorHeap(bal, order), creditors, debtors)
    requires creditors == multiset{} || debtors == multiset{}
    ensures creditors == multiset{} && debtors == multiset{}
  {
    ZeroSumHeaps(bal, order);
    EmptyTogether(CreditorHeap(bal, order), DebtorHeap(bal, order), creditors, debtors);
  }
}
