/** The `heapq` min-heaps of `settle_debts`, specified abstractly: a heap holds a
    multiset of `(key, person)` entries, and popping takes out the least entry in
    Python's tuple order (by key, then by person). The binary-heap list layout is
    not modelled. */
module PriorityQueue {
  import opened Ledger

  /** A heap item `(key, person)`. */
  datatype Entry = Entry(key: int, who: Participant)

  /** Python's `<=` on `(key, person)` tuples. */
  predicate Precedes(a: Entry, b: Entry) {
    a.key < b.key || (a.key == b.key && a.who <= b.who)
  }

  /** `e` is in `h` and no entry of `h` comes before it. */
  predicate IsLeast(e: Entry, h: multiset<Entry>) {
    e in h && forall x {:trigger Precedes(e, x)} | x in h :: Precedes(e, x)
  }

  /** Every non-empty heap has a least entry. */
  lemma {:induction false} LeastExists(h: multiset<Entry>)
    requires h != multiset{}
    ensures exists e :: IsLeast(e, h)
    decreases |h|
  {
    var y :| y in h;
    var rest := h - multiset{y};
    if rest == multiset{} {
      assert h == multiset{y};
      assert IsLeast(y, h);
    } else {
      LeastExists(rest);
      var m :| IsLeast(m, rest);
      if Precedes(m, y) {
        forall x | x in h ensures Precedes(m, x) {
          if x != y {
            assert x in rest;
          }
        }
        assert IsLeast(m, h);
      } else {
        forall x | x in h ensures Precedes(y, x) {
          if x != y {
            assert x in rest && Precedes(m, x);
          }
        }
        assert IsLeast(y, h);
      }
    }
  }

  /** The least entry is unique: tuple order is antisymmetric. */
  lemma LeastUnique(e1: Entry, e2: Entry, h: multiset<Entry>)
    requires IsLeast(e1, h) && IsLeast(e2, h)
    ensures e1 == e2
  {
    assert Precedes(e1, e2) && Precedes(e2, e1);
  }

  /** The entry `heappop` returns. */
  ghost function Least(h: multiset<Entry>): (e: Entry)
    requires h != multiset{}
    ensures IsLeast(e, h)
  {
    LeastExists(h);
    var e :| IsLeast(e, h); e
  }

  /** A heap as the priority queue `heapq` maintains on a list. */
  class MinHeap {
    var items: multiset<Entry>

    /** `heapq.heapify(list)`. */
    constructor Heapify(list: seq<Entry>)
      ensures items == multiset(list)
    {
      items := multiset(list);
    }

    /** The truth value of the heap list: true when it holds nothing. */
    predicate IsEmpty()
      reads this
    {
      items == multiset{}
    }

    /** `heapq.heappop`: removes and returns the least entry. */
    method Pop() returns (e: Entry)
      requires items != multiset{}
      modifies this
      ensures e == Least(old(items))
      ensures items == old(items) - multiset{e}
    {
      LeastExists(items);
      e :| IsLeast(e, items);
      LeastUnique(e, Least(items), items);
      items := items - multiset{e};
    }

    /** `heapq.heappush`: adds one entry. */
    method Push(e: Entry)
      modifies this
      ensures items == old(items) + multiset{e}
    {
      items := items + multiset{e};
    }
  }
}
