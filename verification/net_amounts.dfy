/** Net-balance aggregation, `calculate_net_amounts` (CF_minimizer.py lines 4-12):
    every debt edge takes its amount off the debtor's balance and adds it to the
    creditor's. Balances are seeded from the debtors alone, so an edge whose
    creditor is not itself a debtor raises `KeyError`. */
module NetAmounts {
  import opened Ledger

  /** One `(creditor, amount)` pair of a debtor's list. */
  datatype Owed = Owed(creditor: Participant, amount: int)

  /** One item of the `debts` dictionary: a debtor and the pairs they owe. */
  datatype Account = Account(debtor: Participant, owes: seq<Owed>)

  /** The `debts` dictionary in its insertion order. */
  type Debts = seq<Account>

  datatype Error = KeyError(key: Participant)

  datatype Result<T> = Ok(value: T) | Err(error: Error)

  /** The keys of `debts`, in order. */
  function Debtors(debts: Debts): seq<Participant> {
    seq(|debts|, i requires 0 <= i < |debts| => debts[i].debtor)
  }

  /** The edges of one debtor's list. */
  function Row(debtor: Participant, owes: seq<Owed>): seq<Transfer> {
    if owes == [] then []
    else
      var last := owes[|owes| - 1];
      Row(debtor, owes[..|owes| - 1]) + [Transfer(debtor, last.creditor, last.amount)]
  }

  /** All debt edges in the order the nested loops visit them. */
  function Edges(debts: Debts): seq<Transfer> {
    if debts == [] then []
    else
      var last := debts[|debts| - 1];
      Edges(debts[..|debts| - 1]) + Row(last.debtor, last.owes)
  }

  /** What `p` is owed over the edges `es`. */
  function Credited(es: seq<Transfer>, p: Participant): int {
    if es == [] then 0
    else
      var e := es[|es| - 1];
      Credited(es[..|es| - 1], p) + (if e.creditor == p then e.amount else 0)
  }

  /** What `p` owes over the edges `es`. */
  function Debited(es: seq<Transfer>, p: Participant): int {
    if es == [] then 0
    else
      var e := es[|es| - 1];
      Debited(es[..|es| - 1], p) + (if e.debtor == p then e.amount else 0)
  }

  /** The net balance of `p`: positive when owed, negative when owing. */
  function Net(es: seq<Transfer>, p: Participant): int {
    Credited(es, p) - Debited(es, p)
  }

  /** The creditor of the first edge, in visiting order, whose creditor is not a
      key; that is the key the source fails on. */
  function FirstUnknown(es: seq<Transfer>, keys: seq<Participant>): Option<Participant> {
    if es == [] then None
    else if es[0].creditor !in keys then Some(es[0].creditor)
    else FirstUnknown(es[1..], keys)
  }

  /** `FirstUnknown` finds nothing exactly when every creditor is a key, and
      otherwise names an unknown creditor all of whose predecessors are keys. */
  lemma {:induction false} FirstUnknownIsFirst(es: seq<Transfer>, keys: seq<Participant>)
    ensures FirstUnknown(es, keys).None? <==> forall e | e in es :: e.creditor in keys
    ensures FirstUnknown(es, keys).Some? ==> (FirstUnknown(es, keys).value !in keys &&
      exists n | 0 <= n < |es| :: es[n].creditor == FirstUnknown(es, keys).value &&
        forall i | 0 <= i < n :: es[i].creditor in keys)
  {
    if es != [] && es[0].creditor in keys {
      var r := FirstUnknown(es[1..], keys);
      FirstUnknownIsFirst(es[1..], keys);
      assert forall e | e in es :: e == es[0] || e in es[1..];
      if r.Some? {
        var n :| 0 <= n < |es[1..]| && es[1..][n].creditor == r.value &&
                  forall i | 0 <= i < n :: es[1..][i].creditor in keys;
        assert es[n + 1].creditor == r.value;
        forall i | 0 <= i < n + 1 ensures es[i].creditor in keys {
          if i > 0 { assert es[i] == es[1..][i - 1]; }
        }
      }
    }
  }

  /** Appending an edge to edges whose creditors are all keys: the new edge is
      the first unknown one exactly when its creditor is not a key. */
  lemma {:induction false} FirstUnknownSnoc(es: seq<Transfer>, e: Transfer, keys: seq<Participant>)
    requires FirstUnknown(es, keys) == None
    ensures FirstUnknown(es + [e], keys) == if e.creditor in keys then None else Some(e.creditor)
  {
    if es != [] {
      assert (es + [e])[1..] == es[1..] + [e];
      FirstUnknownSnoc(es[1..], e, keys);
    }
  }

  lemma NetSnoc(es: seq<Transfer>, e: Transfer, p: Participant)
    ensures Net(es + [e], p)
         == Net(es, p) + (if e.creditor == p then e.amount else 0) - (if e.debtor == p then e.amount else 0)
  {
    assert (es + [e])[..|es|] == es;
  }

  lemma {:induction false} NetAppend(a: seq<Transfer>, b: seq<Transfer>, p: Participant)
    ensures Net(a + b, p) == Net(a, p) + Net(b, p)
    decreases |b|
  {
    if b != [] {
      var b' := b[..|b| - 1];
      assert a + b == (a + b') + [b[|b| - 1]];
      NetSnoc(a + b', b[|b| - 1], p);
      NetSnoc(b', b[|b| - 1], p);
      assert b == b' + [b[|b| - 1]];
      NetAppend(a, b', p);
    } else {
      assert a + b == a;
    }
  }

  /** A self-edge (a debtor listed as their own creditor) leaves every balance
      as it would be without that edge. */
  lemma {:induction false} SelfEdgeNeutral(es: seq<Transfer>, k: nat, p: Participant)
    requires k < |es| && es[k].debtor == es[k].creditor
    ensures Net(es, p) == Net(es[..k] + es[k + 1..], p)
  {
    assert es == es[..k] + [es[k]] + es[k + 1..];
    NetAppend(es[..k] + [es[k]], es[k + 1..], p);
    NetSnoc(es[..k], es[k], p);
    NetAppend(es[..k], es[k + 1..], p);
  }

  lemma {:induction false} RowPrefix(debtor: Participant, owes: seq<Owed>, j: nat)
    requires j <= |owes|
    ensures Row(debtor, owes[..j]) <= Row(debtor, owes)
    decreases |owes|
  {
    if j < |owes| {
      var init := owes[..|owes| - 1];
      assert owes[..j] == init[..j];
      RowPrefix(debtor, init, j);
    } else {
      assert owes[..j] == owes;
    }
  }

  lemma {:induction false} EdgesPrefix(debts: Debts, i: nat)
    requires i <= |debts|
    ensures Edges(debts[..i]) <= Edges(debts)
    decreases |debts|
  {
    if i < |debts| {
      var init := debts[..|debts| - 1];
      assert debts[..i] == init[..i];
      EdgesPrefix(init, i);
    } else {
      assert debts[..i] == debts;
    }
  }

  /** The first unknown creditor of a prefix is the first unknown creditor of
      the whole. */
  lemma FirstUnknownPrefix(a: seq<Transfer>, b: seq<Transfer>, keys: seq<Participant>)
    requires a <= b && FirstUnknown(a, keys).Some?
    ensures FirstUnknown(b, keys) == FirstUnknown(a, keys)
  {
    FirstUnknownIsFirst(a, keys);
    FirstUnknownIsFirst(b, keys);
    var n :| 0 <= n < |a| && a[n].creditor == FirstUnknown(a, keys).value &&
              forall i | 0 <= i < n :: a[i].creditor in keys;
    assert b[n] == a[n];
    assert forall i | 0 <= i < n :: b[i] == a[i];
  }

  lemma RowStep(debtor: Participant, owes: seq<Owed>, j: nat)
    requires j < |owes|
    ensures Row(debtor, owes[..j + 1]) == Row(debtor, owes[..j]) + [Transfer(debtor, owes[j].creditor, owes[j].amount)]
  {
    assert owes[..j + 1][..j] == owes[..j];
  }

  lemma EdgesStep(debts: Debts, i: nat)
    requires i < |debts|
    ensures Edges(debts[..i + 1]) == Edges(debts[..i]) + Row(debts[i].debtor, debts[i].owes)
  {
    assert debts[..i + 1][..i] == debts[..i];
  }

  /** Every edge's debtor is a key of `debts`. */
  lemma {:induction false} DebtorsAreKeys(debts: Debts)
    ensures forall e | e in Edges(debts) :: e.debtor in Debtors(debts)
  {
    if debts != [] {
      var init := debts[..|debts| - 1];
      var last := debts[|debts| - 1];
      DebtorsAreKeys(init);
      assert forall k | k in Debtors(init) :: k in Debtors(debts) by {
        forall k | k in Debtors(init) ensures k in Debtors(debts) {
          var n :| 0 <= n < |init| && Debtors(init)[n] == k;
          assert Debtors(debts)[n] == k;
        }
      }
      assert last.debtor == Debtors(debts)[|debts| - 1];
      RowDebtor(last.debtor, last.owes);
    }
  }

  lemma {:induction false} RowDebtor(debtor: Participant, owes: seq<Owed>)
    ensures forall e | e in Row(debtor, owes) :: e.debtor == debtor
  {
    if owes != [] {
      RowDebtor(debtor, owes[..|owes| - 1]);
    }
  }

  /** The balances after visiting the edges `es`, one per key. */
  function NetMap(keys: seq<Participant>, es: seq<Transfer>): map<Participant, int> {
    map p | p in keys :: Net(es, p)
  }

  /** The balances after one more edge: the edge's amount comes off its
      debtor's balance and goes onto its creditor's. */
  lemma NetMapStep(keys: seq<Participant>, es: seq<Transfer>, e: Transfer)
    requires e.debtor in keys && e.creditor in keys
    ensures var before := NetMap(keys, es);
            var debited := before[e.debtor := before[e.debtor] - e.amount];
            NetMap(keys, es + [e]) == debited[e.creditor := debited[e.creditor] + e.amount]
  {
    var before := NetMap(keys, es);
    var debited := before[e.debtor := before[e.debtor] - e.amount];
    var after := debited[e.creditor := debited[e.creditor] + e.amount];
    forall p | p in keys ensures after[p] == Net(es + [e], p) {
      NetSnoc(es, e, p);
    }
  }

  /** One more edge between two keys leaves the total of the balances unchanged. */
  lemma NetMapTotalStep(keys: seq<Participant>, es: seq<Transfer>, e: Transfer)
    requires Distinct(keys) && e.debtor in keys && e.creditor in keys
    ensures Total(NetMap(keys, es + [e]), keys) == Total(NetMap(keys, es), keys)
  {
    NetMapStep(keys, es, e);
    TransferKeepsTotal(NetMap(keys, es), keys, e.debtor, e.creditor, e.amount, NetMap(keys, es + [e]));
  }

  /** Lines 10-11 for one edge whose debtor and creditor are both keys: the
      balances become those of the edges visited so far plus this one. */
  lemma BookEdge(keys: seq<Participant>, es: seq<Transfer>, e: Transfer, net: map<Participant, int>)
    requires e.debtor in keys && e.creditor in keys
    requires FirstUnknown(es, keys) == None
    requires var before := NetMap(keys, es);
             var debited := before[e.debtor := before[e.debtor] - e.amount];
             net == debited[e.creditor := debited[e.creditor] + e.amount]
    ensures net == NetMap(keys, es + [e])
    ensures FirstUnknown(es + [e], keys) == None
  {
    FirstUnknownSnoc(es, e, keys);
    NetMapStep(keys, es, e);
  }

  /** The balances of a dictionary whose keys include every debtor and creditor
      sum to zero: each edge takes off one balance what it adds to another. */
  lemma {:induction false} NetSumsToZero(keys: seq<Participant>, es: seq<Transfer>)
    requires Distinct(keys)
    requires forall e | e in es :: e.debtor in keys && e.creditor in keys
    ensures Total(NetMap(keys, es), keys) == 0
  {
    if es == [] {
      SumByZero(NetMap(keys, es), keys, Id);
    } else {
      var init := es[..|es| - 1];
      var e := es[|es| - 1];
      assert es == init + [e];
      assert e in es;
      assert forall x | x in init :: x in es;
      NetSumsToZero(keys, init);
      NetMapTotalStep(keys, init, e);
    }
  }

  /** Lines 9-11 for one debtor: book each `(creditor, amount)` pair of `owes`
      against `net`, the balances after the edges `prefix`. The result is the
      missing key if some pair names a creditor that is not a key, and the
      balances after this row of edges otherwise. */
  method BookRow(ghost keys: seq<Participant>, ghost prefix: seq<Transfer>, net: map<Participant, int>,
                 debtor: Participant, owes: seq<Owed>) returns (r: Result<map<Participant, int>>)
    requires debtor in keys
    requires net == NetMap(keys, prefix) && FirstUnknown(prefix, keys) == None
    ensures FirstUnknown(prefix + Row(debtor, owes), keys).Some? ==>
              r == Err(KeyError(FirstUnknown(prefix + Row(debtor, owes), keys).value))
    ensures FirstUnknown(prefix + Row(debtor, owes), keys).None? ==>
              r == Ok(NetMap(keys, prefix + Row(debtor, owes)))
  {
    var balances := net;
    ghost var row: seq<Transfer> := [];
    assert prefix + row == prefix;
    var j := 0;
    while j < |owes|
      invariant 0 <= j <= |owes|
      invariant row == Row(debtor, owes[..j])
      invariant balances == NetMap(keys, prefix + row)
      invariant FirstUnknown(prefix + row, keys) == None
    {
      var creditor, amount := owes[j].creditor, owes[j].amount;
      ghost var e := Transfer(debtor, creditor, amount);
      RowStep(debtor, owes, j);
      assert prefix + Row(debtor, owes[..j + 1]) == (prefix + row) + [e];
      balances := balances[debtor := balances[debtor] - amount];
      if creditor !in balances {
        FirstUnknownSnoc(prefix + row, e, keys);
        RowPrefix(debtor, owes, j + 1);
        FirstUnknownPrefix(prefix + Row(debtor, owes[..j + 1]), prefix + Row(debtor, owes), keys);
        return Err(KeyError(creditor));
      }
      balances := balances[creditor := balances[creditor] + amount];
      BookEdge(keys, prefix + row, e, balances);
      row := row + [e];
      j := j + 1;
    }
    assert owes[..j] == owes;
    r := Ok(balances);
  }

  /** `calculate_net_amounts`. The result's keys are exactly the debtors; each
      balance is what that participant is owed minus what they owe; the balances
      sum to zero. If some edge names a creditor that is not a debtor, the first
      such creditor is reported as the missing key. */
  method CalculateNetAmounts(debts: Debts) returns (r: Result<map<Participant, int>>)
    requires Distinct(Debtors(debts))
    ensures FirstUnknown(Edges(debts), Debtors(debts)).Some? ==>
              r == Err(KeyError(FirstUnknown(Edges(debts), Debtors(debts)).value))
    ensures FirstUnknown(Edges(debts), Debtors(debts)).None? ==> r.Ok?
    ensures r.Ok? ==> forall p :: p in r.value <==> p in Debtors(debts)
    ensures r.Ok? ==> forall p | p in r.value :: r.value[p] == Net(Edges(debts), p)
    ensures r.Ok? ==> Total(r.value, Debtors(debts)) == 0
  {
    ghost var keys := Debtors(debts);
    var net := map p | p in Debtors(debts) :: 0;
    assert net == NetMap(keys, Edges(debts[..0]));
    var i := 0;
    while i < |debts|
      invariant 0 <= i <= |debts|
      invariant net == NetMap(keys, Edges(debts[..i]))
      invariant FirstUnknown(Edges(debts[..i]), keys) == None
    {
      assert debts[i].debtor == keys[i];
      EdgesStep(debts, i);
      var row := BookRow(keys, Edges(debts[..i]), net, debts[i].debtor, debts[i].owes);
      if row.Err? {
        EdgesPrefix(debts, i + 1);
        FirstUnknownPrefix(Edges(debts[..i + 1]), Edges(debts), keys);
        return row;
      }
      net := row.value;
      i := i + 1;
    }
    assert debts[..i] == debts;
    FirstUnknownIsFirst(Edges(debts), keys);
    DebtorsAreKeys(debts);
    NetSumsToZero(keys, Edges(debts));
    r := Ok(net);
  }
}
