/** The flow of `main` (CF_minimizer.py lines 108-109): the balances
    `calculate_net_amounts` computes are handed to `settle_debts`. The balances
    are those of the aggregation with a zero default for creditors who are not
    debtors; where the aggregation as written succeeds they are the same
    dictionary (`AllParticipants.AgreesWithoutOrphans`). */
module Pipeline {
  import opened Ledger
  import opened NetAmounts
  import opened Settlement
  import opened SettlementFacts
  import opened AllParticipants

  /** The zero-default balances of a debts dictionary, over every participant
      it names, in dictionary order: they enumerate the dictionary and sum to
      zero. */
  lemma NetBalancesZeroSum(debts: Debts)
    requires Distinct(Debtors(debts))
    ensures var keys := Keyed(Debtors(debts), Edges(debts));
            Enumerates(keys, NetMap(keys, Edges(debts))) && Total(NetMap(keys, Edges(debts)), keys) == 0
  {
    var keys := Keyed(Debtors(debts), Edges(debts));
    BookedKeys(debts, |debts|);
    assert debts[..|debts|] == debts;
    NetSumsToZero(keys, Edges(debts));
  }

  /** Settling the zero-default balances of a debts dictionary: fewer transactions than
      participants, the amount moved is exactly what the creditors are owed,
      and once every transaction is paid every balance is zero. */
  lemma SettleNetAmounts(debts: Debts)
    requires Distinct(Debtors(debts))
    ensures var keys := Keyed(Debtors(debts), Edges(debts));
            var net := NetMap(keys, Edges(debts));
            && (keys != [] ==> |Settle(net, keys)| < |keys|)
            && Volume(Settle(net, keys)) == Credit(net, keys)
            && forall p | p in keys :: After(net, keys, |Settle(net, keys)|)[p] == 0
  {
    var keys := Keyed(Debtors(debts), Edges(debts));
    var net := NetMap(keys, Edges(debts));
    NetBalancesZeroSum(debts);
    SettleAtMostParticipants(net, keys);
    ZeroSumVolume(net, keys);
    SettleClears(net, keys);
  }

  /** When every creditor is a debtor, as in the demo input of `main`, fewer
      transactions than debtors are emitted. */
  lemma SettleWithinDebtors(debts: Debts)
    requires Distinct(Debtors(debts)) && FirstUnknown(Edges(debts), Debtors(debts)) == None
    ensures debts != [] ==> |Settle(NetMap(Debtors(debts), Edges(debts)), Debtors(debts))| < |debts|
  {
    AgreesWithoutOrphans(debts);
    SettleNetAmounts(debts);
  }
}
