/** Shared vocabulary of the cash-flow minimizer: participants, transfers between
    them, and Python's insertion-ordered dictionaries of balances. */
module Ledger {

  /** A member of the group. Only identity and a total order (used to break ties
      between equal heap keys) matter. */
  type Participant = int

  /** `debtor` owes (a debt edge) or pays (a settling transaction) `amount` to
      `creditor`; both are the triple `(debtor, creditor, amount)`. */
  datatype Transfer = Transfer(debtor: Participant, creditor: Participant, amount: int)

  datatype Option<T> = None | Some(value: T)

  /** No participant occurs twice in `ks`. */
  predicate Distinct(ks: seq<Participant>) {
    ks == [] || (ks[0] !in ks[1..] && Distinct(ks[1..]))
  }

  /** Appending a participant not yet present keeps the participants distinct. */
  lemma {:induction false} DistinctSnoc(ks: seq<Participant>, k: Participant)
    requires Distinct(ks) && k !in ks
    ensures Distinct(ks + [k])
  {
    if ks != [] {
      assert (ks + [k])[1..] == ks[1..] + [k];
      DistinctSnoc(ks[1..], k);
    }
  }

  /** `order` is the iteration order of a dictionary whose keys are those of `m`:
      every key exactly once. */
  predicate Enumerates(order: seq<Participant>, m: map<Participant, int>) {
    Distinct(order) && (forall k | k in order :: k in m) && (forall k | k in m :: k in order)
  }

  function Min(a: int, b: int): int {
    if a < b then a else b
  }

  /** Sum of `f` applied to the balances, in dictionary order. */
  function SumBy(m: map<Participant, int>, order: seq<Participant>, f: int -> int): int
    requires forall k | k in order :: k in m
  {
    if order == [] then 0
    else
      var k := order[0];
      assert k in order;
      f(m[k]) + SumBy(m, order[1..], f)
  }

  function Id(a: int): int { a }

  /** `sum(net_amounts.values())`: the total of all balances. */
  function Total(m: map<Participant, int>, order: seq<Participant>): int
    requires forall k | k in order :: k in m
  {
    SumBy(m, order, Id)
  }

  /** Changing one balance changes any sum over the dictionary by the difference
      of `f` at that key, and only if the key is enumerated. */
  lemma {:induction false} SumByUpdate(m: map<Participant, int>, order: seq<Participant>,
                                       f: int -> int, k: Participant, v: int)
    requires Distinct(order) && (forall x | x in order :: x in m) && k in m
    ensures SumBy(m[k := v], order, f)
         == SumBy(m, order, f) + (if k in order then f(v) - f(m[k]) else 0)
  {
    if order != [] {
      SumByUpdate(m, order[1..], f, k, v);
      assert k in order <==> k == order[0] || k in order[1..];
    }
  }

  /** Moving `amount` from one enumerated balance to another keeps the total. */
  lemma TransferKeepsTotal(m: map<Participant, int>, order: seq<Participant>,
                           from: Participant, to: Participant, amount: int, m': map<Participant, int>)
    requires Distinct(order) && (forall x | x in order :: x in m)
    requires from in order && to in order
    requires var debited := m[from := m[from] - amount];
             m' == debited[to := debited[to] + amount]
    ensures forall x | x in order :: x in m'
    ensures Total(m', order) == Total(m, order)
  {
    var debited := m[from := m[from] - amount];
    SumByUpdate(m, order, Id, from, m[from] - amount);
    SumByUpdate(debited, order, Id, to, debited[to] + amount);
  }

  /** A sum of terms that are all zero is zero. */
  lemma {:induction false} SumByZero(m: map<Participant, int>, order: seq<Participant>, f: int -> int)
    requires forall k | k in order :: k in m && f(m[k]) == 0
    ensures SumBy(m, order, f) == 0
  {
    if order != [] {
      assert order[0] in order;
      SumByZero(m, order[1..], f);
    }
  }

  /** A sum of terms none of which is negative is not negative. */
  lemma {:induction false} SumByNonNegative(m: map<Participant, int>, order: seq<Participant>, f: int -> int)
    requires forall k | k in order :: k in m && f(m[k]) >= 0
    ensures SumBy(m, order, f) >= 0
  {
    if order != [] {
      assert order[0] in order;
      SumByNonNegative(m, order[1..], f);
    }
  }

  /** A sum of terms none of which is negative is zero only when every term is. */
  lemma {:induction false} SumByZeroParts(m: map<Participant, int>, order: seq<Participant>, f: int -> int)
    requires forall k | k in order :: k in m && f(m[k]) >= 0
    requires SumBy(m, order, f) == 0
    ensures forall k | k in order :: f(m[k]) == 0
  {
    if order != [] {
      assert order[0] in order;
      SumByNonNegative(m, order[1..], f);
      SumByZeroParts(m, order[1..], f);
      assert forall k | k in order :: k == order[0] || k in order[1..];
    }
  }

  /** A total of balances none of which is positive is at most zero, and is zero
      only when every balance is zero. */
  lemma {:induction false} NonPositiveTotal(m: map<Participant, int>, order: seq<Participant>)
    requires forall k | k in order :: k in m && m[k] <= 0
    ensures Total(m, order) <= 0
    ensures Total(m, order) == 0 ==> forall k | k in order :: m[k] == 0
  {
    if order != [] {
      assert order[0] in order;
      NonPositiveTotal(m, order[1..]);
      assert forall k | k in order :: k == order[0] || k in order[1..];
    }
  }

  /** The mirror image of `NonPositiveTotal`. */
  lemma {:induction false} NonNegativeTotal(m: map<Participant, int>, order: seq<Participant>)
    requires forall k | k in order :: k in m && m[k] >= 0
    ensures Total(m, order) >= 0
    ensures Total(m, order) == 0 ==> forall k | k in order :: m[k] == 0
  {
    if order != [] {
      assert order[0] in order;
      NonNegativeTotal(m, order[1..]);
      assert forall k | k in order :: k == order[0] || k in order[1..];
    }
  }
}
