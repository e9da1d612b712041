/** `calculate_net_amounts` seeds its balances from the debtors alone, so a
    creditor who is never a debtor makes line 11 raise `KeyError`. This module
    shows that on a concrete input and gives the evidently intended
    aggregation: a participant met for the first time as a creditor starts
    from a zero balance, so every participant named anywhere gets one. */
module AllParticipants {
  import opened Ledger
  import opened NetAmounts

  /** `{0: [(1, 50)]}`: participant 1 is owed but owes nothing, and the
      aggregation as written stops on it. */
  lemma OrphanCreditorFails()
    ensures var debts := [Account(0, [Owed(1, 50)])];
            Distinct(Debtors(debts)) && FirstUnknown(Edges(debts), Debtors(debts)) == Some(1)
  {
    var debts := [Account(0, [Owed(1, 50)])];
    assert Debtors(debts) == [0];
    assert Row(0, [Owed(1, 50)]) == Row(0, []) + [Transfer(0, 1, 50)];
    assert Edges(debts) == Edges([]) + Row(0, [Owed(1, 50)]);
    assert Edges(debts) == [Transfer(0, 1, 50)];
  }

  /** The creditors of `es`, in visiting order. */
  function Creditors(es: seq<Transfer>): seq<Participant> {
    if es == [] then []
    else Creditors(es[..|es| - 1]) + [es[|es| - 1].creditor]
  }

  /** Every debtor and creditor of `es` is one of `keys`. */
  ghost predicate Covers(es: seq<Transfer>, keys: seq<Participant>) {
    forall e | e in es :: e.debtor in keys && e.creditor in keys
  }

  /** A participant on no edge has a zero balance. */
  lemma {:induction false} NetUntouched(es: seq<Transfer>, p: Participant)
    requires forall e | e in es :: e.debtor != p && e.creditor != p
    ensures Net(es, p) == 0
  {
    if es != [] {
      var init := es[..|es| - 1];
      assert es[|es| - 1] in es;
      assert forall e | e in init :: e in es;
      NetUntouched(init, p);
    }
  }

  /** A participant on no edge so far joins the balances with zero. */
  lemma NetMapExtend(keys: seq<Participant>, es: seq<Transfer>, c: Participant)
    requires Covers(es, keys) && c !in keys
    ensures NetMap(keys + [c], es) == NetMap(keys, es)[c := 0]
  {
    NetUntouched(es, c);
  }

  /** The keys once `c` has been given a balance: unchanged if it had one. */
  function AddKey(keys: seq<Participant>, c: Participant): seq<Participant> {
    if c in keys then keys else keys + [c]
  }

  /** The dictionary's keys after the edges `es` have been booked onto one
      whose keys were `keys`: each creditor met for the first time is appended,
      so distinct keys stay distinct. */
  function Keyed(keys: seq<Participant>, es: seq<Transfer>): (r: seq<Participant>)
    ensures Distinct(keys) ==> Distinct(r)
  {
    if es == [] then keys
    else
      var before, c := Keyed(keys, es[..|es| - 1]), es[|es| - 1].creditor;
      if c !in before && Distinct(before) then DistinctSnoc(before, c); AddKey(before, c)
      else AddKey(before, c)
  }

  lemma KeyedSnoc(keys: seq<Participant>, es: seq<Transfer>, e: Transfer)
    ensures Keyed(keys, es + [e]) == AddKey(Keyed(keys, es), e.creditor)
  {
    assert (es + [e])[..|es|] == es;
  }

  /** Booking two edge lists one after the other. */
  lemma {:induction false} KeyedAppend(keys: seq<Participant>, a: seq<Transfer>, b: seq<Transfer>)
    ensures Keyed(keys, a + b) == Keyed(Keyed(keys, a), b)
    decreases |b|
  {
    if b != [] {
      var init := b[..|b| - 1];
      var e := b[|b| - 1];
      assert b == init + [e];
      assert a + b == (a + init) + [e];
      KeyedAppend(keys, a, init);
      KeyedSnoc(keys, a + init, e);
      KeyedSnoc(Keyed(keys, a), init, e);
    } else {
      assert a + b == a;
    }
  }

  /** The keys after `es` are the old keys and the creditors of `es`, nobody
      else. */
  lemma {:induction false} KeyedMembers(keys: seq<Participant>, es: seq<Transfer>)
    ensures forall p :: p in Keyed(keys, es) <==> p in keys || p in Creditors(es)
  {
    if es != [] {
      var init := es[..|es| - 1];
      var c := es[|es| - 1].creditor;
      KeyedMembers(keys, init);
      assert Keyed(keys, es) == AddKey(Keyed(keys, init), c);
      assert Creditors(es) == Creditors(init) + [c];
      forall p ensures p in Keyed(keys, es) <==> p in keys || p in Creditors(es) {
        assert p in Creditors(es) <==> p in Creditors(init) || p == c;
      }
    }
  }

  /** When the debtors of `es` already have balances, the keys after `es`
      include every participant of `prefix + es`. */
  lemma KeyedCovers(keys: seq<Participant>, prefix: seq<Transfer>, es: seq<Transfer>)
    requires Covers(prefix, keys)
    requires forall e | e in es :: e.debtor in keys
    ensures Covers(prefix + es, Keyed(keys, es))
  {
    KeyedMembers(keys, es);
    CreditorsMembers(es);
  }

  /** Lines 10-11 with a zero default: the balances `m` once `debtor` owes
      `creditor` another `amount`, a creditor without a balance starting from
      zero. */
  function BookDefault(m: map<Participant, int>, debtor: Participant, creditor: Participant,
                       amount: int): map<Participant, int>
    requires debtor in m
  {
    var debited := m[debtor := m[debtor] - amount];
    debited[creditor := (if creditor in debited then debited[creditor] else 0) + amount]
  }

  /** Booking one edge with a zero default for its creditor gives the balances
      after that edge, over the keys extended by the creditor if it is new. */
  lemma BookAll(keys: seq<Participant>, es: seq<Transfer>, debtor: Participant, creditor: Participant,
                amount: int, balances: map<Participant, int>)
    requires debtor in keys && Covers(es, keys) && balances == NetMap(keys, es)
    ensures BookDefault(balances, debtor, creditor, amount)
              == NetMap(AddKey(keys, creditor), es + [Transfer(debtor, creditor, amount)])
  {
    var e := Transfer(debtor, creditor, amount);
    var keys' := AddKey(keys, creditor);
    if creditor !in keys {
      NetMapExtend(keys, es, creditor);
    }
    NetMapStep(keys', es, e);
  }

  /** One pass of the loop of `BookRowAll`: booking the `j`th pair of `owes`
      onto the balances after the first `j` gives the balances after the first
      `j + 1`, over keys that grow by the new creditor if any. */
  lemma RowAllStep(keys: seq<Participant>, prefix: seq<Transfer>, debtor: Participant, owes: seq<Owed>,
                   j: nat, balances: map<Participant, int>)
    requires Distinct(keys) && debtor in keys && Covers(prefix, keys)
    requires j < |owes|
    requires balances == NetMap(Keyed(keys, Row(debtor, owes[..j])), prefix + Row(debtor, owes[..j]))
    ensures debtor in balances
    ensures BookDefault(balances, debtor, owes[j].creditor, owes[j].amount)
              == NetMap(Keyed(keys, Row(debtor, owes[..j + 1])), prefix + Row(debtor, owes[..j + 1]))
  {
    var row, row' := Row(debtor, owes[..j]), Row(debtor, owes[..j + 1]);
    var e := Transfer(debtor, owes[j].creditor, owes[j].amount);
    RowStep(debtor, owes, j);
    RowDebtor(debtor, owes[..j]);
    KeyedCovers(keys, prefix, row);
    KeyedMembers(keys, row);
    BookAll(Keyed(keys, row), prefix + row, debtor, e.creditor, e.amount, balances);
    KeyedSnoc(keys, row, e);
    SnocAssoc(prefix, row, e);
  }

  lemma SnocAssoc<T>(a: seq<T>, b: seq<T>, x: T)
    ensures a + (b + [x]) == (a + b) + [x]
  {
  }

  /** Lines 9-11 for one debtor, with a zero default for a creditor met for the
      first time: the result is the balances after this row of edges, over the
      keys extended by the row's new creditors. */
  method BookRowAll(ghost keys: seq<Participant>, ghost prefix: seq<Transfer>, net: map<Participant, int>,
                    debtor: Participant, owes: seq<Owed>)
    returns (r: map<Participant, int>)
    requires Distinct(keys) && debtor in keys && Covers(prefix, keys)
    requires net == NetMap(keys, prefix)
    ensures r == NetMap(Keyed(keys, Row(debtor, owes)), prefix + Row(debtor, owes))
  {
    var balances := net;
    assert prefix + Row(debtor, owes[..0]) == prefix;
    var j := 0;
    while j < |owes|
      invariant 0 <= j <= |owes|
      invariant balances == NetMap(Keyed(keys, Row(debtor, owes[..j])), prefix + Row(debtor, owes[..j]))
    {
      RowAllStep(keys, prefix, debtor, owes, j, balances);
      balances := BookDefault(balances, debtor, owes[j].creditor, owes[j].amount);
      j := j + 1;
    }
    assert owes[..j] == owes;
    r := balances;
  }

  /** `calculate_net_amounts` with a zero default for creditors who are not
      debtors. It never fails: the result has a balance for every debtor and
      every creditor and for nobody else, each balance is what that participant
      is owed minus what they owe, and in the ghost iteration order `order`
      the balances sum to zero. */
  method CalculateNetAmountsAll(debts: Debts) returns (net: map<Participant, int>, ghost order: seq<Participant>)
    requires Distinct(Debtors(debts))
    ensures Enumerates(order, net)
    ensures forall p :: p in net <==> p in Debtors(debts) || p in Creditors(Edges(debts))
    ensures forall p | p in net :: net[p] == Net(Edges(debts), p)
    ensures Total(net, order) == 0
  {
    ghost var debtors := Debtors(debts);
    net := map p | p in Debtors(debts) :: 0;
    assert net == NetMap(Keyed(debtors, Edges(debts[..0])), Edges(debts[..0]));
    var i := 0;
    while i < |debts|
      invariant 0 <= i <= |debts|
      invariant net == NetMap(Keyed(debtors, Edges(debts[..i])), Edges(debts[..i]))
    {
      BookedKeys(debts, i);
      assert debts[i].debtor == debtors[i];
      EdgesStep(debts, i);
      KeyedAppend(debtors, Edges(debts[..i]), Row(debts[i].debtor, debts[i].owes));
      net := BookRowAll(Keyed(debtors, Edges(debts[..i])), Edges(debts[..i]), net, debts[i].debtor, debts[i].owes);
      i := i + 1;
    }
    assert debts[..i] == debts;
    BookedKeys(debts, i);
    order := Keyed(debtors, Edges(debts));
    NetSumsToZero(order, Edges(debts));
  }

  /** After the rows of the first `i` debtors, the balances' keys are distinct
      and are the debtors and the creditors seen so far. */
  lemma BookedKeys(debts: Debts, i: nat)
    requires Distinct(Debtors(debts)) && i <= |debts|
    ensures var es := Edges(debts[..i]);
            var keys := Keyed(Debtors(debts), es);
            Distinct(keys) && Covers(es, keys) && forall p :: p in keys <==> p in Debtors(debts) || p in Creditors(es)
  {
    var es := Edges(debts[..i]);
    DebtorsAreKeys(debts);
    EdgesPrefix(debts, i);
    KeyedMembers(Debtors(debts), es);
    KeyedCovers(Debtors(debts), [], es);
    assert [] + es == es;
  }

  /** Where the aggregation as written succeeds, the corrected one keeps the
      same keys in the same order, so both compute the same dictionary. */
  lemma AgreesWithoutOrphans(debts: Debts)
    requires FirstUnknown(Edges(debts), Debtors(debts)) == None
    ensures Keyed(Debtors(debts), Edges(debts)) == Debtors(debts)
    ensures forall p :: p in Debtors(debts) || p in Creditors(Edges(debts)) <==> p in Debtors(debts)
  {
    FirstUnknownIsFirst(Edges(debts), Debtors(debts));
    KeyedKnown(Debtors(debts), Edges(debts));
    CreditorsMembers(Edges(debts));
  }

  /** Edges whose creditors all have balances add no keys. */
  lemma {:induction false} KeyedKnown(keys: seq<Participant>, es: seq<Transfer>)
    requires forall e | e in es :: e.creditor in keys
    ensures Keyed(keys, es) == keys
  {
    if es != [] {
      var init := es[..|es| - 1];
      assert es[|es| - 1] in es;
      assert forall e | e in init :: e in es;
      KeyedKnown(keys, init);
    }
  }

  /** The creditors of `es` are exactly the creditors of its edges. */
  lemma {:induction false} CreditorsMembers(es: seq<Transfer>)
    ensures forall p :: p in Creditors(es) <==> exists e | e in es :: e.creditor == p
  {
    if es != [] {
      var init := es[..|es| - 1];
      CreditorsMembers(init);
      assert es == init + [es[|es| - 1]];
      assert forall e | e in es :: e in init || e == es[|es| - 1];
      assert forall e | e in init :: e in es;
    }
  }
}
