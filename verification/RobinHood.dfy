/** The Robin Hood hash index with backshift deletion (`crdt/index.rs`).

    The index capacity is a power of two there, so `x & mask` is `x % capacity` and
    `slot.wrapping_sub(ideal) & mask` is the forward distance from `ideal` to `slot` around the
    table; both are written out here without bit operations. */
module RobinHood {
  import opened Base

  const EMPTY: nat := U32_MAX

  /** A snapshot of the two parallel columns. */
  datatype Table = Table(slots: seq<nat>, hashes: seq<nat>)

  ghost predicate Shaped(t: Table) {
    |t.slots| == |t.hashes| && |t.slots| > 0
  }

  function Ideal(hash: nat, cap: nat): (home: nat)
    requires cap > 0
    ensures home < cap
  {
    (hash % (U32_MAX + 1)) % cap
  }

  function Next(p: nat, cap: nat): (q: nat)
    requires p < cap
    ensures q < cap
  {
    if p + 1 == cap then 0 else p + 1
  }

  /** The bucket `j` places before `p`. */
  function Back(p: nat, j: nat, cap: nat): (q: nat)
    requires p < cap && j <= cap
    ensures q < cap
  {
    if j <= p then p - j else p + cap - j
  }

  /** How many steps a probe takes from `from` to `to`. */
  function Steps(from: nat, to: nat, cap: nat): (d: nat)
    requires from < cap && to < cap
    ensures d < cap
    ensures Back(to, d, cap) == from
  {
    if from <= to then to - from else to + cap - from
  }

  function ProbeDistance(p: nat, hash: nat, cap: nat): (d: nat)
    requires p < cap
    ensures d < cap
  {
    Steps(Ideal(hash, cap), p, cap)
  }

  /** Probe distance of the entry in bucket `p`, or -1 when the bucket is empty. */
  ghost function Gap(t: Table, p: nat): int
    requires Shaped(t) && p < |t.slots|
  {
    if t.slots[p] == EMPTY then -1 else ProbeDistance(p, t.hashes[p], |t.slots|)
  }

  ghost predicate OrderedAt(t: Table, p: nat)
    requires Shaped(t) && p < |t.slots|
  {
    Gap(t, p) <= Gap(t, Back(p, 1, |t.slots|)) + 1
  }

  /** The Robin Hood order: going round the table the distance rises by at most one per bucket,
      so it is at most zero just after an empty bucket. */
  ghost predicate Ordered(t: Table)
    requires Shaped(t)
  {
    forall p: nat {:trigger OrderedAt(t, p)} :: p < |t.slots| ==> OrderedAt(t, p)
  }

  /** Bucket `p` is empty or holds an entry at its own home. */
  ghost predicate Anchor(t: Table, p: nat)
    requires Shaped(t)
  {
    p < |t.slots| && Gap(t, p) <= 0
  }

  /** The table stores exactly the entries of the map `e` (slot id to hash), each once. */
  ghost predicate Represents(t: Table, e: map<nat, nat>) {
    && |t.slots| == |t.hashes|
    && EMPTY !in e
    && (forall p :: 0 <= p < |t.slots| && t.slots[p] != EMPTY ==>
          t.slots[p] in e && e[t.slots[p]] == t.hashes[p])
    && (forall s :: s in e ==> s in t.slots)
    && (forall p, q :: 0 <= p < q < |t.slots| && t.slots[p] == t.slots[q] ==> t.slots[p] == EMPTY)
  }

  /** Walking `j` buckets back lowers the distance by at most `j`. */
  lemma {:induction false} ChainBack(t: Table, p: nat, j: nat)
    requires Shaped(t) && Ordered(t) && p < |t.slots| && j <= |t.slots|
    ensures Gap(t, Back(p, j, |t.slots|)) >= Gap(t, p) - j
  {
    if j > 0 {
      ChainBack(t, p, j - 1);
      var q := Back(p, j - 1, |t.slots|);
      assert OrderedAt(t, q);
      assert Back(q, 1, |t.slots|) == Back(p, j, |t.slots|);
    }
  }

  /** A probe from an entry's home reaches the entry without meeting an empty bucket or an
      occupant closer to its own home: neither early exit of `find` can lose an entry. */
  lemma ProbeReaches(t: Table, p: nat, k: nat)
    requires Shaped(t) && Ordered(t) && p < |t.slots| && t.slots[p] != EMPTY
    requires k <= ProbeDistance(p, t.hashes[p], |t.slots|)
    ensures Gap(t, Back(p, ProbeDistance(p, t.hashes[p], |t.slots|) - k, |t.slots|)) >= k
  {
    ChainBack(t, p, ProbeDistance(p, t.hashes[p], |t.slots|) - k);
  }

  /** An entry carried to distance `capacity - 1` would need a table without an empty bucket. */
  lemma NoEmptyBucket(t: Table, p: nat, q: nat)
    requires Shaped(t) && Ordered(t) && p < |t.slots| && q < |t.slots|
    requires Gap(t, p) >= |t.slots| - 1
    ensures t.slots[q] != EMPTY
  {
    ChainBack(t, p, Steps(q, p, |t.slots|));
  }

  /** A table holding fewer entries than buckets has an empty bucket. */
  lemma EmptyBucketExists(t: Table, e: map<nat, nat>) returns (q: nat)
    requires Represents(t, e) && |e| < |t.slots|
    ensures q < |t.slots| && t.slots[q] == EMPTY
  {
    if forall p :: 0 <= p < |t.slots| ==> t.slots[p] != EMPTY {
      assert Distinct(t.slots);
      DistinctCardinality(t.slots);
      SubsetCardinality((set x | x in t.slots), e.Keys);
      assert false;
    }
    q :| 0 <= q < |t.slots| && t.slots[q] == EMPTY;
  }

  lemma PlaceRepresents(t: Table, e: map<nat, nat>, p: nat, hash: nat, slot: nat)
    requires Represents(t, e) && p < |t.slots| && t.slots[p] == EMPTY
    requires slot !in e && slot != EMPTY
    ensures Represents(Table(t.slots[p := slot], t.hashes[p := hash]), e[slot := hash])
  {
    var u := t.slots[p := slot];
    assert u[p] == slot;
    forall s | s in e ensures s in u {
      var i :| 0 <= i < |t.slots| && t.slots[i] == s;
      assert u[i] == s;
    }
  }

  lemma SwapRepresents(t: Table, e: map<nat, nat>, p: nat, hash: nat, slot: nat)
    requires Represents(t, e) && p < |t.slots| && t.slots[p] != EMPTY
    requires slot !in e && slot != EMPTY
    ensures Represents(Table(t.slots[p := slot], t.hashes[p := hash]), (e - {t.slots[p]})[slot := hash])
  {
    var u := t.slots[p := slot];
    assert u[p] == slot;
    forall s | s in e && s != t.slots[p] ensures s in u {
      var i :| 0 <= i < |t.slots| && t.slots[i] == s;
      assert u[i] == s;
    }
  }

  /** Writing an entry that has walked `Gap` steps into bucket `p` keeps the order when the bucket
      before lets it in and the bucket held a smaller gap. */
  lemma WriteKeepsOrder(t: Table, p: nat, hash: nat, slot: nat)
    requires Shaped(t) && Ordered(t) && p < |t.slots| && slot != EMPTY
    requires Gap(t, p) <= ProbeDistance(p, hash, |t.slots|)
    requires ProbeDistance(p, hash, |t.slots|) == 0
          || Gap(t, Back(p, 1, |t.slots|)) + 1 >= ProbeDistance(p, hash, |t.slots|)
    ensures Ordered(Table(t.slots[p := slot], t.hashes[p := hash]))
  {
    var u := Table(t.slots[p := slot], t.hashes[p := hash]);
    forall q: nat | q < |u.slots| ensures OrderedAt(u, q) {
      assert OrderedAt(t, q);
      assert OrderedAt(t, p);
    }
  }

  /** An insertion under way: the entry `cur` of `all` is in hand at bucket `slot`, `dist` steps from
      its home, and the table holds all the others in order. */
  ghost predicate Carrying(t: Table, all: map<nat, nat>, hole: nat, slot: nat, cur: nat, dist: nat) {
    && Shaped(t)
    && slot < |t.slots| && hole < |t.slots| && t.slots[hole] == EMPTY
    && cur in all && cur != EMPTY
    && Represents(t, all - {cur})
    && Ordered(t)
    && ProbeDistance(slot, all[cur], |t.slots|) == dist
    && (dist == 0 || Gap(t, Back(slot, 1, |t.slots|)) + 1 >= dist)
  }

  /** The occupant is at least as far from its home: the carried entry moves on. */
  lemma PassOn(t: Table, all: map<nat, nat>, hole: nat, slot: nat, cur: nat, dist: nat)
    requires Carrying(t, all, hole, slot, cur, dist)
    requires t.slots[slot] != EMPTY && Gap(t, slot) >= dist
    ensures Carrying(t, all, hole, Next(slot, |t.slots|), cur, dist + 1)
    ensures Steps(Next(slot, |t.slots|), hole, |t.slots|) < Steps(slot, hole, |t.slots|)
  {
    if dist + 1 == |t.slots| {
      NoEmptyBucket(t, slot, hole);
    }
  }

  /** The occupant is nearer its home: it gives up the bucket and is carried on instead. */
  lemma Steal(t: Table, all: map<nat, nat>, hole: nat, slot: nat, cur: nat, dist: nat)
    requires Carrying(t, all, hole, slot, cur, dist)
    requires t.slots[slot] != EMPTY && Gap(t, slot) < dist
    ensures
      var u := Table(t.slots[slot := cur], t.hashes[slot := all[cur]]);
      Carrying(u, all, hole, Next(slot, |t.slots|), t.slots[slot], Gap(t, slot) + 1)
    ensures t.slots[slot] in all && all[t.slots[slot]] == t.hashes[slot]
    ensures Steps(Next(slot, |t.slots|), hole, |t.slots|) < Steps(slot, hole, |t.slots|)
  {
    var u := Table(t.slots[slot := cur], t.hashes[slot := all[cur]]);
    var other := t.slots[slot];
    SwapRepresents(t, all - {cur}, slot, all[cur], cur);
    assert (all - {cur} - {other})[cur := all[cur]] == all - {other};
    WriteKeepsOrder(t, slot, all[cur], cur);
  }

  /** The bucket is empty: the carried entry stays there. */
  lemma Settle(t: Table, all: map<nat, nat>, hole: nat, slot: nat, cur: nat, dist: nat)
    requires Carrying(t, all, hole, slot, cur, dist) && t.slots[slot] == EMPTY
    ensures
      var u := Table(t.slots[slot := cur], t.hashes[slot := all[cur]]);
      Represents(u, all) && Ordered(u) && Anchor(u, Next(slot, |t.slots|))
  {
    PlaceRepresents(t, all - {cur}, slot, all[cur], cur);
    assert (all - {cur})[cur := all[cur]] == all;
    WriteKeepsOrder(t, slot, all[cur], cur);
    assert OrderedAt(t, Next(slot, |t.slots|));
  }

  /** Bucket `p` has received a copy of its successor's entry, one step nearer its home. */
  lemma ShiftKeepsOrder(t: Table, p: nat, anchor: nat)
    requires Shaped(t) && Ordered(t) && p < |t.slots| && t.slots[p] != EMPTY
    requires Gap(t, Next(p, |t.slots|)) > 0 && Anchor(t, anchor)
    ensures
      var n := Next(p, |t.slots|);
      var u := Table(t.slots[p := t.slots[n]], t.hashes[p := t.hashes[n]]);
      Ordered(u) && Anchor(u, anchor) && n != p
    ensures
      var n := Next(p, |t.slots|);
      Steps(Next(n, |t.slots|), anchor, |t.slots|) < Steps(n, anchor, |t.slots|)
  {
    var cap := |t.slots|;
    var n := Next(p, cap);
    var u := Table(t.slots[p := t.slots[n]], t.hashes[p := t.hashes[n]]);
    assert OrderedAt(t, n) && Back(n, 1, cap) == p;
    assert Gap(u, p) == Gap(t, n) - 1;
    forall q: nat | q < cap ensures OrderedAt(u, q) {
      assert OrderedAt(t, q);
    }
  }

  lemma ClearKeepsOrder(t: Table, p: nat)
    requires Shaped(t) && Ordered(t) && p < |t.slots|
    requires Gap(t, Next(p, |t.slots|)) <= 0
    ensures Ordered(Table(t.slots[p := EMPTY], t.hashes[p := 0]))
  {
    var u := Table(t.slots[p := EMPTY], t.hashes[p := 0]);
    forall q: nat | q < |u.slots| ensures OrderedAt(u, q) {
      assert OrderedAt(t, q);
    }
  }

  /** No entry with this hash satisfying `eq` lies fewer than `dist` steps from its home. */
  ghost predicate NoneWithin(t: Table, hash: nat, eq: nat -> bool, dist: nat)
    requires Shaped(t)
  {
    forall p: nat :: p < |t.slots| && t.slots[p] != EMPTY && t.hashes[p] == hash && eq(t.slots[p]) ==>
      ProbeDistance(p, hash, |t.slots|) >= dist
  }

  lemma NoneWithinStep(t: Table, hash: nat, eq: nat -> bool, slot: nat, dist: nat)
    requires Shaped(t) && NoneWithin(t, hash, eq, dist)
    requires slot < |t.slots| && ProbeDistance(slot, hash, |t.slots|) == dist
    requires !(t.slots[slot] != EMPTY && t.hashes[slot] == hash && eq(t.slots[slot]))
    ensures NoneWithin(t, hash, eq, dist + 1)
    ensures dist + 1 < |t.slots| ==> ProbeDistance(Next(slot, |t.slots|), hash, |t.slots|) == dist + 1
  {
  }

  /** The two early exits of a probe are sound. */
  lemma NothingBeyond(t: Table, e: map<nat, nat>, hash: nat, eq: nat -> bool, slot: nat, dist: nat)
    requires Shaped(t) && Ordered(t) && Represents(t, e) && NoneWithin(t, hash, eq, dist)
    requires slot < |t.slots| && ProbeDistance(slot, hash, |t.slots|) == dist
    requires Gap(t, slot) < dist
    ensures forall s :: s in e && e[s] == hash ==> !eq(s)
  {
    forall s | s in e && e[s] == hash ensures !eq(s) {
      var p: nat :| p < |t.slots| && t.slots[p] == s;
      if eq(s) {
        var d := ProbeDistance(p, hash, |t.slots|);
        SameProbe(p, slot, hash, |t.slots|);
        ProbeReaches(t, p, dist);
      }
    }
  }

  /** Two buckets on the probe path of one hash, `d - dist` steps apart. */
  lemma SameProbe(p: nat, slot: nat, hash: nat, cap: nat)
    requires p < cap && slot < cap
    requires ProbeDistance(slot, hash, cap) <= ProbeDistance(p, hash, cap)
    ensures Back(p, ProbeDistance(p, hash, cap) - ProbeDistance(slot, hash, cap), cap) == slot
  {
  }

  lemma NothingAnywhere(t: Table, e: map<nat, nat>, hash: nat, eq: nat -> bool)
    requires Shaped(t) && Represents(t, e) && NoneWithin(t, hash, eq, |t.slots|)
    ensures forall s :: s in e && e[s] == hash ==> !eq(s)
  {
    forall s | s in e && e[s] == hash ensures !eq(s) {
      var p: nat :| p < |t.slots| && t.slots[p] == s;
    }
  }

  /** The table with bucket `p` emptied. */
  ghost function Punch(t: Table, p: nat): Table
    requires Shaped(t) && p < |t.slots|
  {
    Table(t.slots[p := EMPTY], t.hashes[p := 0])
  }

  lemma HoleRepresents(t: Table, e: map<nat, nat>, p: nat)
    requires Shaped(t) && Represents(t, e) && p < |t.slots|
    ensures Represents(Punch(t, p), e - {t.slots[p]}) && (t.slots[p] != EMPTY ==> t.slots[p] in e)
  {
    var u := Punch(t, p).slots;
    forall s | s in e && s != t.slots[p] ensures s in u {
      var i :| 0 <= i < |t.slots| && t.slots[i] == s;
      assert u[i] == s;
    }
  }

  /** Moving the hole from `p` to its successor by copying the successor back loses no entry. */
  lemma ShiftRepresents(t: Table, e: map<nat, nat>, p: nat)
    requires Shaped(t) && p < |t.slots| && Represents(Punch(t, p), e)
    requires Next(p, |t.slots|) != p
    ensures
      var n := Next(p, |t.slots|);
      Represents(Punch(Table(t.slots[p := t.slots[n]], t.hashes[p := t.hashes[n]]), n), e)
  {
    var n := Next(p, |t.slots|);
    var v := Punch(t, p);
    var u := Punch(Table(t.slots[p := t.slots[n]], t.hashes[p := t.hashes[n]]), n);
    SwapBuckets(v, u, e, p, n);
  }

  lemma SwapBuckets(v: Table, u: Table, e: map<nat, nat>, p: nat, n: nat)
    requires Shaped(v) && Shaped(u) && |u.slots| == |v.slots| && p < |v.slots| && n < |v.slots| && Represents(v, e)
    requires u.slots == v.slots[p := v.slots[n]][n := v.slots[p]]
    requires u.hashes == v.hashes[p := v.hashes[n]][n := v.hashes[p]]
    ensures Represents(u, e)
  {
    forall s | s in e ensures s in u.slots {
      var i :| 0 <= i < |v.slots| && v.slots[i] == s;
      assert u.slots[if i == n then p else if i == p then n else i] == s;
    }
  }

  class CellIndex {
    const capacity: nat
    const slotIndexes: array<nat>
    const hashes: array<nat>
    var len: nat
    ghost var entries: map<nat, nat>

    ghost function Repr(): set<object> {
      {this, slotIndexes, hashes}
    }

    ghost function View(): Table
      reads slotIndexes, hashes
    {
      Table(slotIndexes[..], hashes[..])
    }

    ghost predicate Valid()
      reads this, slotIndexes, hashes
    {
      && slotIndexes != hashes
      && slotIndexes.Length == hashes.Length == capacity > 0
      && len == |entries|
      && Represents(View(), entries)
      && Ordered(View())
      && exists p: nat :: Anchor(View(), p)
    }

    constructor (cap: nat)
      requires cap > 0
      ensures Valid() && fresh(Repr())
      ensures capacity == cap && entries == map[] && len == 0
    {
      capacity := cap;
      slotIndexes := new nat[cap](_ => EMPTY);
      hashes := new nat[cap](_ => 0);
      len := 0;
      entries := map[];
      new;
      assert forall p: nat :: p < cap ==> slotIndexes[..][p] == EMPTY;
      forall p: nat | p < cap ensures OrderedAt(View(), p) {}
      assert Anchor(View(), 0);
    }

    /** Returns an entry exactly when one with this hash satisfies `eq`. */
    method Find(hash: nat, eq: nat -> bool) returns (r: Option<nat>)
      requires Valid()
      ensures r.Some? ==> r.value in entries && entries[r.value] == hash && eq(r.value)
      ensures r.None? ==> forall s :: s in entries && entries[s] == hash ==> !eq(s)
    {
      if len == 0 {
        return None;
      }
      var slot: nat := Ideal(hash, capacity);
      var dist: nat := 0;
      while true
        invariant dist < capacity && slot < capacity
        invariant ProbeDistance(slot, hash, capacity) == dist
        invariant NoneWithin(View(), hash, eq, dist)
        decreases capacity - dist
      {
        var storedSlot := slotIndexes[slot];
        if storedSlot == EMPTY {
          NothingBeyond(View(), entries, hash, eq, slot, dist);
          return None;
        }
        var storedHash := hashes[slot];
        var storedDist := ProbeDistance(slot, storedHash, capacity);
        if dist > storedDist {
          NothingBeyond(View(), entries, hash, eq, slot, dist);
          return None;
        }
        if storedHash == hash && eq(storedSlot) {
          return Some(storedSlot);
        }
        NoneWithinStep(View(), hash, eq, slot, dist);
        slot := Next(slot, capacity);
        dist := dist + 1;
        if dist == capacity {
          NothingAnywhere(View(), entries, hash, eq);
          return None;
        }
      }
    }

    /** Adds one entry. The source asserts `len < capacity` and leaves it to the caller that the
        slot is not already present. */
    method InsertUnchecked(hash: nat, slotIndex: nat)
      requires Valid()
      requires slotIndex != EMPTY && slotIndex !in entries && len < capacity
      modifies this, slotIndexes, hashes
      ensures Valid() && entries == old(entries)[slotIndex := hash] && len == old(len) + 1
    {
      hide Represents, Ordered;
      var slot: nat := Ideal(hash, capacity);
      var curHash, curSlot: nat, curDist: nat := hash, slotIndex, 0;
      ghost var all := entries[slotIndex := hash];
      ghost var hole: nat := EmptyBucketExists(View(), entries);
      assert all - {slotIndex} == entries;
      while slotIndexes[slot] != EMPTY
        invariant Carrying(View(), all, hole, slot, curSlot, curDist) && curHash == all[curSlot]
        invariant entries == old(entries) && len == old(len)
        decreases Steps(slot, hole, capacity)
      {
        ghost var t := View();
        var existingHash := hashes[slot];
        var existingDist := ProbeDistance(slot, existingHash, capacity);
        if curDist > existingDist {
          Steal(t, all, hole, slot, curSlot, curDist);
          var displaced := slotIndexes[slot];
          hashes[slot] := curHash;
          slotIndexes[slot] := curSlot;
          assert View() == Table(t.slots[slot := curSlot], t.hashes[slot := curHash]);
          curHash, curSlot, curDist := existingHash, displaced, existingDist;
        } else {
          PassOn(t, all, hole, slot, curSlot, curDist);
        }
        slot := Next(slot, capacity);
        curDist := curDist + 1;
      }
      ghost var t := View();
      Settle(t, all, hole, slot, curSlot, curDist);
      slotIndexes[slot] := curSlot;
      hashes[slot] := curHash;
      assert View() == Table(t.slots[slot := curSlot], t.hashes[slot := curHash]);
      len := len + 1;
      entries := all;
    }

    /** The search phase of `remove`: the bucket that holds exactly this entry. */
    method Locate(hash: nat, slotIndex: nat) returns (r: Option<nat>)
      requires Valid()
      ensures r.Some? ==> r.value < capacity && slotIndexes[r.value] == slotIndex != EMPTY && hashes[r.value] == hash
      ensures r.None? ==> !(slotIndex in entries && entries[slotIndex] == hash)
    {
      if len == 0 {
        return None;
      }
      var slot: nat := Ideal(hash, capacity);
      var dist: nat := 0;
      ghost var eq := (s: nat) => s == slotIndex;
      while true
        invariant dist < capacity && slot < capacity
        invariant ProbeDistance(slot, hash, capacity) == dist
        invariant NoneWithin(View(), hash, eq, dist)
        decreases capacity - dist
      {
        var storedSlot := slotIndexes[slot];
        if storedSlot == EMPTY {
          NothingBeyond(View(), entries, hash, eq, slot, dist);
          return None;
        }
        var storedHash := hashes[slot];
        var storedDist := ProbeDistance(slot, storedHash, capacity);
        if dist > storedDist {
          NothingBeyond(View(), entries, hash, eq, slot, dist);
          return None;
        }
        if storedHash == hash && storedSlot == slotIndex {
          return Some(slot);
        }
        NoneWithinStep(View(), hash, eq, slot, dist);
        slot := Next(slot, capacity);
        dist := dist + 1;
        if dist == capacity {
          NothingAnywhere(View(), entries, hash, eq);
          return None;
        }
      }
    }

    /** Removes the entry when it is present and leaves every other entry; otherwise does nothing. */
    method Remove(hash: nat, slotIndex: nat)
      requires Valid()
      modifies this, slotIndexes, hashes
      ensures Valid()
      ensures entries == if slotIndex in old(entries) && old(entries)[slotIndex] == hash
                         then old(entries) - {slotIndex} else old(entries)
      ensures old(len) == len + if slotIndex in old(entries) && old(entries)[slotIndex] == hash then 1 else 0
    {
      var bucket := Locate(hash, slotIndex);
      if bucket.Some? {
        Backshift(bucket.value);
        len := len - 1;
      }
    }

    /** Closes the gap left by the entry in bucket `start`: `len` is left to the caller. */
    method Backshift(start: nat)
      requires Valid() && start < capacity && slotIndexes[start] != EMPTY
      modifies `entries, slotIndexes, hashes
      ensures entries == old(entries) - {old(slotIndexes[start])} && |entries| + 1 == |old(entries)|
      ensures Represents(View(), entries) && Ordered(View())
      ensures exists p: nat :: Anchor(View(), p)
    {
      hide Represents, Ordered;
      ghost var anchor: nat :| Anchor(View(), anchor);
      ghost var rest := entries - {slotIndexes[start]};
      var slot: nat := start;
      HoleRepresents(View(), entries, slot);
      MapWithout(entries, slotIndexes[start]);
      while slotIndexes[Next(slot, capacity)] != EMPTY
        && ProbeDistance(Next(slot, capacity), hashes[Next(slot, capacity)], capacity) != 0
        invariant slot < capacity && slotIndexes[slot] != EMPTY
        invariant Ordered(View()) && Anchor(View(), anchor)
        invariant Represents(Punch(View(), slot), rest)
        invariant entries == old(entries)
        decreases Steps(Next(slot, capacity), anchor, capacity)
      {
        var next := Next(slot, capacity);
        ghost var t := View();
        ShiftKeepsOrder(t, slot, anchor);
        ShiftRepresents(t, rest, slot);
        slotIndexes[slot] := slotIndexes[next];
        hashes[slot] := hashes[next];
        assert View() == Table(t.slots[slot := t.slots[next]], t.hashes[slot := t.hashes[next]]);
        slot := next;
      }
      ghost var t := View();
      ClearKeepsOrder(t, slot);
      slotIndexes[slot] := EMPTY;
      hashes[slot] := 0;
      assert View() == Punch(t, slot);
      assert Anchor(View(), slot);
      entries := rest;
    }
  }
}
