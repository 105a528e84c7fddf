/** Sums of counts over the cells of one (rule, key, bucket). */
module Sums {
  import opened Base
  import opened Cells
  import opened Counters

  ghost function Total(m: Counts): nat {
    if m == map[] then 0
    else
      var id :| id in m;
      m[id] + Total(m - {id})
  }

  lemma {:induction false} TotalWithout(m: Counts, id: CellId)
    requires id in m
    ensures Total(m) == m[id] + Total(m - {id})
    decreases |m|
  {
    var x :| x in m && Total(m) == m[x] + Total(m - {x});
    if x != id {
      TotalWithout(m - {x}, id);
      TotalWithout(m - {id}, x);
      assert m - {x} - {id} == m - {id} - {x};
    }
  }

  lemma TotalWith(m: Counts, id: CellId, n: nat)
    ensures Total(m[id := n]) == Total(m - {id}) + n
    ensures Total(m) == Total(m - {id}) + CountOf(m, id)
  {
    TotalWithout(m[id := n], id);
    assert m[id := n] - {id} == m - {id};
    if id in m {
      TotalWithout(m, id);
    } else {
      assert m - {id} == m;
    }
  }

  /** Missing cells count as zero. */
  ghost predicate AtMost(a: Counts, b: Counts) {
    forall id :: id in a ==> a[id] <= CountOf(b, id)
  }

  lemma {:induction false} TotalMonotone(a: Counts, b: Counts)
    requires AtMost(a, b)
    ensures Total(a) <= Total(b)
    decreases |a|
  {
    if a != map[] {
      var id :| id in a;
      TotalWith(a, id, 0);
      TotalWith(b, id, 0);
      TotalMonotone(a - {id}, b - {id});
    }
  }

  lemma {:induction false} TotalBounded(m: Counts, max: nat)
    requires forall id :: id in m ==> m[id] <= max
    ensures Total(m) <= |m| * max
    decreases |m|
  {
    if m != map[] {
      var id :| id in m;
      TotalWithout(m, id);
      MapWithout(m, id);
      TotalBounded(m - {id}, max);
      MulStep(|m - {id}|, max);
    }
  }

  /** The cells of all origins that share an identity. */
  ghost function Group(m: Counts, k: CellIdentity): Counts {
    map id | id in m && id.Identity() == k :: m[id]
  }

  ghost function Sum(m: Counts, k: CellIdentity): nat {
    Total(Group(m, k))
  }

  lemma SumSet(m: Counts, id: CellId, n: nat, k: CellIdentity)
    ensures Sum(m[id := n], k) + (if id.Identity() == k then CountOf(m, id) else 0)
            == Sum(m, k) + if id.Identity() == k then n else 0
  {
    if id.Identity() == k {
      TotalWith(Group(m, k), id, n);
      assert Group(m[id := n], k) == Group(m, k)[id := n];
    } else {
      assert Group(m[id := n], k) == Group(m, k);
    }
  }

  lemma SumDrop(m: Counts, id: CellId, k: CellIdentity)
    requires id in m
    ensures Sum(m - {id}, k) + (if id.Identity() == k then m[id] else 0) == Sum(m, k)
  {
    if id.Identity() == k {
      TotalWithout(Group(m, k), id);
      assert Group(m - {id}, k) == Group(m, k) - {id};
    } else {
      assert Group(m - {id}, k) == Group(m, k);
    }
  }

  lemma SumMonotone(a: Counts, b: Counts, k: CellIdentity)
    requires AtMost(a, b)
    ensures Sum(a, k) <= Sum(b, k)
  {
    forall id | id in Group(a, k) ensures Group(a, k)[id] <= CountOf(Group(b, k), id) {
      assert a[id] <= CountOf(b, id);
    }
    TotalMonotone(Group(a, k), Group(b, k));
  }

  lemma SumBounded(m: Counts, max: nat, k: CellIdentity)
    requires forall id :: id in m ==> m[id] <= max
    ensures Sum(m, k) <= |m| * max
  {
    var g := Group(m, k);
    TotalBounded(g, max);
    assert g.Keys <= m.Keys;
    SubsetCardinality(g.Keys, m.Keys);
    MulMonotone(|g|, |m|, max);
  }
}
