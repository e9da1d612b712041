/** The greedy matcher, `settle_debts` (CF_minimizer.py lines 15-40): two
    min-heaps hold the creditors keyed by negated credit and the debtors keyed by
    (negative) balance; each round pops the largest creditor and the largest
    debtor, records a payment of the smaller magnitude and pushes back whatever
    remains. */
module Settlement {
  import opened Ledger
  import opened PriorityQueue

  /** Line 17: the creditor heap list, `(-amount, person)` for every positive
      balance, in dictionary order. */
  function CreditorList(net: map<Participant, int>, order: seq<Participant>): seq<Entry>
    requires forall k | k in order :: k in net
  {
    if order == [] then []
    else
      var k := order[0];
      assert k in order;
      if net[k] > 0 then [Entry(-net[k], k)] + CreditorList(net, order[1..])
      else CreditorList(net, order[1..])
  }

  /** Line 18: the debtor heap list, `(amount, person)` for every negative
      balance, in dictionary order. */
  function DebtorList(net: map<Participant, int>, order: seq<Participant>): seq<Entry>
    requires forall k | k in order :: k in net
  {
    if order == [] then []
    else
      var k := order[0];
      assert k in order;
      if net[k] < 0 then [Entry(net[k], k)] + DebtorList(net, order[1..])
      else DebtorList(net, order[1..])
  }

  /** The contents of the creditor heap that line 19 builds from `CreditorList`. */
  ghost function CreditorHeap(net: map<Participant, int>, order: seq<Participant>): multiset<Entry>
    requires forall k | k in order :: k in net
  {
    if order == [] then multiset{}
    else
      var k := order[0];
      assert k in order;
      (if net[k] > 0 then multiset{Entry(-net[k], k)} else multiset{}) + CreditorHeap(net, order[1..])
  }

  /** The contents of the debtor heap that line 20 builds from `DebtorList`. */
  ghost function DebtorHeap(net: map<Participant, int>, order: seq<Participant>): multiset<Entry>
    requires forall k | k in order :: k in net
  {
    if order == [] then multiset{}
    else
      var k := order[0];
      assert k in order;
      (if net[k] < 0 then multiset{Entry(net[k], k)} else multiset{}) + DebtorHeap(net, order[1..])
  }

  /** Heapifying the creditor list gives the creditor heap's contents. */
  lemma {:induction false} CreditorsHeapified(net: map<Participant, int>, order: seq<Participant>)
    requires forall k | k in order :: k in net
    ensures multiset(CreditorList(net, order)) == CreditorHeap(net, order)
  {
    if order != [] {
      var k := order[0];
      assert k in order;
      CreditorsHeapified(net, order[1..]);
    }
  }

  /** Heapifying the debtor list gives the debtor heap's contents. */
  lemma {:induction false} DebtorsHeapified(net: map<Participant, int>, order: seq<Participant>)
    requires forall k | k in order :: k in net
    ensures multiset(DebtorList(net, order)) == DebtorHeap(net, order)
  {
    if order != [] {
      var k := order[0];
      assert k in order;
      DebtorsHeapified(net, order[1..]);
    }
  }

  /** Lines 35-38: the heap `rest` left after popping `e` and settling `settled`
      against it; the entry goes back, reduced, only while some magnitude remains. */
  function Refill(rest: multiset<Entry>, e: Entry, settled: int): multiset<Entry> {
    if -e.key > settled then rest + multiset{Entry(e.key + settled, e.who)} else rest
  }

  /** The transactions the loop of lines 26-38 records from the heap contents
      `creditors` and `debtors`. Each round takes one entry out of a heap for
      good, so there are at most as many rounds as entries. */
  ghost function Greedy(creditors: multiset<Entry>, debtors: multiset<Entry>): (ts: seq<Transfer>)
    ensures |ts| <= |creditors| + |debtors|
    decreases |creditors| + |debtors|
  {
    if creditors == multiset{} || debtors == multiset{} then []
    else
      var c := Least(creditors);
      var d := Least(debtors);
      var settled := Min(-d.key, -c.key);
      [Transfer(d.who, c.who, settled)] + Greedy(Refill(creditors - multiset{c}, c, settled), Refill(debtors - multiset{d}, d, settled))
  }

  /** `Greedy` unfolded once, with the payment left as a parameter. */
  lemma GreedyUnfold(creditors: multiset<Entry>, debtors: multiset<Entry>, settled: int)
    requires creditors != multiset{} && debtors != multiset{}
    requires settled == Min(-Least(debtors).key, -Least(creditors).key)
    ensures Greedy(creditors, debtors)
         == [Transfer(Least(debtors).who, Least(creditors).who, settled)]
          + Greedy(Refill(creditors - multiset{Least(creditors)}, Least(creditors), settled), Refill(debtors - multiset{Least(debtors)}, Least(debtors), settled))
  {
  }

  /** The loop stops once either heap is empty. */
  lemma GreedyDone(creditors: multiset<Entry>, debtors: multiset<Entry>)
    requires creditors == multiset{} || debtors == multiset{}
    ensures Greedy(creditors, debtors) == []
  {
  }

  /** One round of the loop (lines 27-38) takes the heap contents `creditors`
      and `debtors` to `creditors'` and `debtors'` and records `t`: the largest
      debtor pays the largest creditor the smaller of the two magnitudes, and
      each popped entry goes back reduced while some of it remains. */
  ghost predicate IsRound(creditors: multiset<Entry>, debtors: multiset<Entry>, t: Transfer,
                          creditors': multiset<Entry>, debtors': multiset<Entry>)
  {
    && creditors != multiset{} && debtors != multiset{}
    && t == Transfer(Least(debtors).who, Least(creditors).who, Min(-Least(debtors).key, -Least(creditors).key))
    && creditors' == Refill(creditors - multiset{Least(creditors)}, Least(creditors), t.amount)
    && debtors' == Refill(debtors - multiset{Least(debtors)}, Least(debtors), t.amount)
  }

  /** One round of the loop, from the heaps `creditors` and `debtors` to the
      heaps `creditors'` and `debtors'` that `SettleRound` leaves: the recorded
      transactions plus what the rest of the loop records stay the same. */
  lemma RoundStep(done: seq<Transfer>, creditors: multiset<Entry>, debtors: multiset<Entry>, t: Transfer,
                  creditors': multiset<Entry>, debtors': multiset<Entry>)
    requires IsRound(creditors, debtors, t, creditors', debtors')
    ensures (done + [t]) + Greedy(creditors', debtors') == done + Greedy(creditors, debtors)
  {
    GreedyUnfold(creditors, debtors, t.amount);
    Reassociate(done, t, Greedy(creditors', debtors'), Greedy(creditors, debtors));
  }

  /** A round takes at least one entry out of the two heaps for good. */
  lemma RoundShrinks(creditors: multiset<Entry>, debtors: multiset<Entry>, t: Transfer,
                     creditors': multiset<Entry>, debtors': multiset<Entry>)
    requires IsRound(creditors, debtors, t, creditors', debtors')
    ensures |creditors'| + |debtors'| < |creditors| + |debtors|
  {
  }

  lemma Reassociate(done: seq<Transfer>, t: Transfer, rest: seq<Transfer>, all: seq<Transfer>)
    requires all == [t] + rest
    ensures (done + [t]) + rest == done + all
  {
  }

  /** Every entry of `h` stands for a nonzero magnitude: both heaps key their
      entries by a negative number. */
  ghost predicate NonZeroEntries(h: multiset<Entry>) {
    forall e | e in h :: e.key < 0
  }

  /** The sum of the magnitudes the entries of `h` stand for. */
  ghost function Mass(h: multiset<Entry>): int
    decreases |h|
  {
    if h == multiset{} then 0
    else -Least(h).key + Mass(h - multiset{Least(h)})
  }

  /** Taking any entry out of a heap takes its magnitude off the mass. */
  lemma {:induction false} MassRemove(h: multiset<Entry>, x: Entry)
    requires x in h
    ensures Mass(h) == -x.key + Mass(h - multiset{x})
    decreases |h|
  {
    var l := Least(h);
    if x != l {
      var rest := h - multiset{l};
      MassRemove(rest, x);
      var without := h - multiset{x};
      assert l in without;
      forall y | y in without ensures Precedes(l, y) {
        assert y in h;
      }
      LeastUnique(l, Least(without), without);
      assert without - multiset{l} == rest - multiset{x};
    }
  }

  /** Adding an entry adds its magnitude to the mass. */
  lemma MassAdd(e: Entry, rest: multiset<Entry>)
    ensures Mass(multiset{e} + rest) == -e.key + Mass(rest)
  {
    MassRemove(multiset{e} + rest, e);
    assert multiset{e} + rest - multiset{e} == rest;
  }

  /** A heap of nonzero entries has a positive mass unless it is empty. */
  lemma {:induction false} MassPositive(h: multiset<Entry>)
    requires NonZeroEntries(h)
    ensures h == multiset{} <==> Mass(h) == 0
    ensures Mass(h) >= 0
    decreases |h|
  {
    if h != multiset{} {
      MassPositive(h - multiset{Least(h)});
    }
  }

  /** A round keeps every entry nonzero and takes its amount off both masses. */
  lemma RoundMass(creditors: multiset<Entry>, debtors: multiset<Entry>, t: Transfer,
                  creditors': multiset<Entry>, debtors': multiset<Entry>)
    requires IsRound(creditors, debtors, t, creditors', debtors')
    requires NonZeroEntries(creditors) && NonZeroEntries(debtors)
    ensures NonZeroEntries(creditors') && NonZeroEntries(debtors')
    ensures Mass(creditors') == Mass(creditors) - t.amount
    ensures Mass(debtors') == Mass(debtors) - t.amount
  {
    var c, d := Least(creditors), Least(debtors);
    MassRemove(creditors, c);
    MassRemove(debtors, d);
    RefillMass(creditors - multiset{c}, c, t.amount);
    RefillMass(debtors - multiset{d}, d, t.amount);
  }

  /** Pushing back the remainder of a popped entry adds that remainder to the mass. */
  lemma RefillMass(rest: multiset<Entry>, e: Entry, settled: int)
    requires NonZeroEntries(rest) && e.key < 0 && 0 <= settled <= -e.key
    ensures NonZeroEntries(Refill(rest, e, settled))
    ensures Mass(Refill(rest, e, settled)) == Mass(rest) - e.key - settled
  {
    if -e.key > settled {
      var back := Entry(e.key + settled, e.who);
      MassRemove(rest + multiset{back}, back);
      assert rest + multiset{back} - multiset{back} == rest;
    }
  }

  /** Starting from heaps `creditors` and `debtors` of nonzero entries, the
      heaps `creditors'` and `debtors'` still hold nonzero entries only, and
      their masses differ as the initial ones did. */
  ghost predicate Balanced(creditors: multiset<Entry>, debtors: multiset<Entry>,
                           creditors': multiset<Entry>, debtors': multiset<Entry>)
  {
    NonZeroEntries(creditors) && NonZeroEntries(debtors) ==>
      && NonZeroEntries(creditors') && NonZeroEntries(debtors')
      && Mass(creditors') - Mass(debtors') == Mass(creditors) - Mass(debtors)
  }

  /** A round keeps the heaps balanced. */
  lemma RoundBalanced(creditors: multiset<Entry>, debtors: multiset<Entry>,
                      creditors0: multiset<Entry>, debtors0: multiset<Entry>, t: Transfer,
                      creditors': multiset<Entry>, debtors': multiset<Entry>)
    requires Balanced(creditors, debtors, creditors0, debtors0)
    requires IsRound(creditors0, debtors0, t, creditors', debtors')
    ensures Balanced(creditors, debtors, creditors', debtors')
  {
    if NonZeroEntries(creditors) && NonZeroEntries(debtors) {
      RoundMass(creditors0, debtors0, t, creditors', debtors');
    }
  }

  /** When the loop stops on balanced heaps whose masses started equal, both
      heaps are empty: they run out in the same round. */
  lemma EmptyTogether(creditors: multiset<Entry>, debtors: multiset<Entry>,
                      creditors': multiset<Entry>, debtors': multiset<Entry>)
    requires Balanced(creditors, debtors, creditors', debtors')
    requires NonZeroEntries(creditors) && NonZeroEntries(debtors) && Mass(creditors) == Mass(debtors)
    requires creditors' == multiset{} || debtors' == multiset{}
    ensures creditors' == multiset{} && debtors' == multiset{}
  {
    MassPositive(creditors');
    MassPositive(debtors');
  }

  /** What `settle_debts` returns for the dictionary `net` iterated in `order`. */
  ghost function Settle(net: map<Participant, int>, order: seq<Participant>): seq<Transfer>
    requires forall k | k in order :: k in net
  {
    Greedy(CreditorHeap(net, order), DebtorHeap(net, order))
  }

  /** Lines 35-38, for one heap: `e` goes back, reduced by `settled`, while some
      of its magnitude remains. */
  method PushBack(h: MinHeap, e: Entry, settled: int)
    modifies h
    ensures h.items == Refill(old(h.items), e, settled)
  {
    if -e.key > settled {
      h.Push(Entry(e.key + settled, e.who));
    }
  }

  /** One iteration of the loop body (lines 27-38): pop the largest creditor and
      the largest debtor, pay the smaller magnitude, push back what remains. */
  method SettleRound(creditors: MinHeap, debtors: MinHeap) returns (t: Transfer)
    requires creditors != debtors
    requires creditors.items != multiset{} && debtors.items != multiset{}
    modifies creditors, debtors
    ensures IsRound(old(creditors.items), old(debtors.items), t, creditors.items, debtors.items)
  {
    var c := creditors.Pop();
    var d := debtors.Pop();
    var settled := Min(-d.key, -c.key);
    t := Transfer(d.who, c.who, settled);
    PushBack(debtors, d, settled);
    PushBack(creditors, c, settled);
  }

  /** The loop of lines 26-38: rounds run while both heaps are non-empty, and the
      transactions recorded are exactly the greedy ones for the heaps' contents. */
  method RunRounds(creditors: MinHeap, debtors: MinHeap) returns (transactions: seq<Transfer>)
    requires creditors != debtors
    modifies creditors, debtors
    ensures transactions == Greedy(old(creditors.items), old(debtors.items))
    ensures creditors.items == multiset{} || debtors.items == multiset{}
    ensures Balanced(old(creditors.items), old(debtors.items), creditors.items, debtors.items)
  {
    transactions := [];
    ghost var c, d := creditors.items, debtors.items;
    ghost var all := Greedy(c, d);
    while !creditors.IsEmpty() && !debtors.IsEmpty()
      invariant transactions + Greedy(creditors.items, debtors.items) == all
      invariant Balanced(c, d, creditors.items, debtors.items)
      decreases |creditors.items| + |debtors.items|
    {
      ghost var c0, d0, done := creditors.items, debtors.items, transactions;
      var t := SettleRound(creditors, debtors);
      transactions := transactions + [t];
      RoundStep(done, c0, d0, t, creditors.items, debtors.items);
      RoundShrinks(c0, d0, t, creditors.items, debtors.items);
      RoundBalanced(c, d, c0, d0, t, creditors.items, debtors.items);
    }
    GreedyDone(creditors.items, debtors.items);
  }

  /** `settle_debts`: builds the two heaps from the balances and runs the loop;
      the result is the greedy transaction list for those balances. */
  method SettleDebts(net: map<Participant, int>, order: seq<Participant>) returns (transactions: seq<Transfer>)
    requires Enumerates(order, net)
    ensures transactions == Settle(net, order)
  {
    var creditors := new MinHeap.Heapify(CreditorList(net, order));
    var debtors := new MinHeap.Heapify(DebtorList(net, order));
    CreditorsHeapified(net, order);
    DebtorsHeapified(net, order);
    transactions := RunRounds(creditors, debtors);
  }
}
