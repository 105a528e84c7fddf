/** Identity interning (`crdt/dictionary.rs`): rule descriptors, and the bounded refcounted
    dictionary behind `RuleDictionary` and `NodeDictionary`. */
module Dictionary {
  import opened Base
  import opened FreeList
  import opened RobinHood

  const NO_SLOT: nat := U16_MAX

  datatype RuleDescriptor = RuleDescriptor(
    fingerprint: nat,
    windowMillis: nat,
    bucketMillis: nat,
    limit: nat,
    flags: nat,
    localRuleId: nat)
  {
    predicate AppliesLocally() {
      localRuleId != U32_MAX
    }

    /** `now / bucket_millis` truncated to 32 bits; 0 for a rule without buckets. */
    function CurrentEpoch(now: nat): nat {
      if bucketMillis == 0 then 0 else (now / bucketMillis) % (U32_MAX + 1)
    }

    /** `ceil(window / bucket)`, at least 1; 0 for a rule without buckets. */
    function LiveBuckets(): nat {
      if bucketMillis == 0 then 0 else Max((windowMillis + bucketMillis - 1) / bucketMillis, 1)
    }
  }

  /** The descriptor given to a rule seen on the wire only. */
  function WireOnly(fingerprint: nat): RuleDescriptor {
    RuleDescriptor(fingerprint, 60_000, 1_000, 0, 0, U32_MAX)
  }

  datatype NodeDescriptor = NodeDescriptor(nodeId: nat, incarnation: nat)

  /** A dictionary that took one key, or none when it had no slot or knew the key. */
  ghost predicate Took<K>(was: map<K, nat>, free: nat, now: map<K, nat>, left: nat, key: K) {
    if key in was || free == 0 then now.Keys == was.Keys && left == free
    else now.Keys == was.Keys + {key} && left + 1 == free
  }

  /** Index, descriptors and the abstract key-to-slot map describe the same interned slots. */
  ghost predicate Tied<D, K>(cap: nat, keyOf: D -> K, hash: K -> nat, descriptors: seq<D>, free: seq<nat>,
                             entries: map<nat, nat>, slotOf: map<K, nat>)
  {
    && |descriptors| == cap
    && (forall s :: s in entries <==> 0 <= s < cap && s !in free)
    && (forall s :: s in entries ==> entries[s] == hash(keyOf(descriptors[s])))
    && (forall s :: s in entries ==> keyOf(descriptors[s]) in slotOf && slotOf[keyOf(descriptors[s])] == s)
    && (forall k :: k in slotOf ==> slotOf[k] in entries && keyOf(descriptors[slotOf[k]]) == k)
  }

  lemma TiedIntern<D, K>(cap: nat, keyOf: D -> K, hash: K -> nat, descriptors: seq<D>, free: seq<nat>,
                         entries: map<nat, nat>, slotOf: map<K, nat>, d: D)
    requires Tied(cap, keyOf, hash, descriptors, free, entries, slotOf)
    requires free != [] && free[0] < cap && free[0] !in free[1..] && keyOf(d) !in slotOf
    ensures Tied(cap, keyOf, hash, descriptors[free[0] := d], free[1..],
                 entries[free[0] := hash(keyOf(d))], slotOf[keyOf(d) := free[0]])
    ensures free[0] !in entries
  {
    assert forall s :: s in free <==> s == free[0] || s in free[1..];
  }

  lemma TiedRefresh<D, K>(cap: nat, keyOf: D -> K, hash: K -> nat, descriptors: seq<D>, free: seq<nat>,
                          entries: map<nat, nat>, slotOf: map<K, nat>, d: D)
    requires Tied(cap, keyOf, hash, descriptors, free, entries, slotOf) && keyOf(d) in slotOf
    ensures slotOf[keyOf(d)] < cap && slotOf[keyOf(d)] !in free
    ensures Tied(cap, keyOf, hash, descriptors[slotOf[keyOf(d)] := d], free, entries, slotOf)
  {
  }

  lemma TiedRelease<D, K>(cap: nat, keyOf: D -> K, hash: K -> nat, descriptors: seq<D>, free: seq<nat>,
                          entries: map<nat, nat>, slotOf: map<K, nat>, slot: nat, blank: D)
    requires Tied(cap, keyOf, hash, descriptors, free, entries, slotOf) && slot < cap && slot !in free
    ensures slot in entries && entries[slot] == hash(keyOf(descriptors[slot]))
    ensures Tied(cap, keyOf, hash, descriptors[slot := blank], [slot] + free,
                 entries - {slot}, slotOf - {keyOf(descriptors[slot])})
  {
  }

  /** One dictionary for both uses. A rule dictionary has descriptors `RuleDescriptor` keyed by
      fingerprint; a node dictionary has descriptors that are their own key, so that rewriting the
      descriptor on a hit, which only `RuleDictionary::intern` does, changes nothing. */
  class Dictionary<D(==), K(==)> {
    const capacity: nat
    const keyOf: D -> K
    const hash: K -> nat
    const blank: D
    const index: CellIndex
    var descriptors: seq<D>
    var refcounts: seq<nat>
    var freeNext: seq<nat>
    var freeHead: nat
    var len: nat
    ghost var free: seq<nat>
    ghost var slotOf: map<K, nat>

    ghost function Repr(): set<object> {
      {this} + index.Repr()
    }

    ghost predicate Interned(slot: nat)
      reads this
    {
      slot < capacity && slot !in free
    }

    ghost predicate Valid()
      reads this, index, index.slotIndexes, index.hashes
    {
      && 0 < capacity < NO_SLOT
      && index.Valid() && index.capacity > capacity
      && |descriptors| == |refcounts| == |freeNext| == capacity
      && IsFreeList(freeHead, freeNext, free, NO_SLOT)
      && len == index.len && len + |free| == capacity
      && Tied(capacity, keyOf, hash, descriptors, free, index.entries, slotOf)
      && (forall s :: 0 <= s < capacity && s in free ==> refcounts[s] == 0 && descriptors[s] == blank)
    }

    constructor (cap: nat, keyOf: D -> K, hash: K -> nat, blank: D)
      requires 0 < cap < NO_SLOT
      ensures Valid() && fresh(Repr())
      ensures capacity == cap && this.keyOf == keyOf && this.hash == hash && this.blank == blank
      ensures slotOf == map[] && free == seq(cap, i => i) && freeHead == 0
      ensures refcounts == seq(cap, _ => 0) && descriptors == seq(cap, _ => blank)
    {
      capacity := cap;
      this.keyOf, this.hash, this.blank := keyOf, hash, blank;
      var ix := new CellIndex(IndexCapacityFor(cap));
      index := ix;
      descriptors := seq(cap, _ => blank);
      refcounts := seq(cap, _ => 0);
      freeNext := Chain(cap, NO_SLOT);
      freeHead := 0;
      len := 0;
      free := seq(cap, i => i);
      slotOf := map[];
      ChainIsFreeList(cap, NO_SLOT);
      AllFree(cap);
      IndexCapacityIff(cap);
    }

    /** Each interned key names the slot that holds it, and a free slot carries no reference. */
    lemma SlotNames(key: K)
      requires Valid()
      ensures key in slotOf ==>
                Interned(slotOf[key]) && slotOf[key] < |descriptors| && keyOf(descriptors[slotOf[key]]) == key
      ensures |descriptors| == |refcounts| == capacity
      ensures forall k :: k in slotOf ==>
                slotOf[k] < capacity && slotOf[k] !in free && keyOf(descriptors[slotOf[k]]) == k
      ensures free != [] ==> free[0] < capacity && refcounts[free[0]] == 0
    {
      hide CellIndex.Valid;
    }

    method Find(key: K) returns (r: Option<nat>)
      requires Valid()
      ensures r == if key in slotOf then Some(slotOf[key]) else None
    {
      var ds, f, cap := descriptors, keyOf, capacity;
      r := index.Find(hash(key), (s: nat) => s < |ds| && f(ds[s]) == key);
    }

    /** Find the slot of a descriptor's key or take one off the freelist. Fails exactly when the key
        is new and no slot is free; refcounts of interned slots never change. */
    method Intern(d: D) returns (r: Option<nat>)
      requires Valid()
      modifies this, index, index.slotIndexes, index.hashes
      ensures Valid()
      ensures r.None? <==> keyOf(d) !in old(slotOf) && old(free) == []
      ensures r.None? ==> unchanged(this)
      ensures r.Some? ==> r.value < capacity && descriptors == old(descriptors)[r.value := d]
      ensures r.Some? ==> slotOf == old(slotOf)[keyOf(d) := r.value] && refcounts == old(refcounts)
      ensures r.Some? && keyOf(d) in old(slotOf) ==> r.value == old(slotOf)[keyOf(d)] && free == old(free)
      ensures r.Some? && keyOf(d) !in old(slotOf) ==> r.value == old(free)[0] && free == old(free)[1..]
      ensures Took(old(slotOf), |old(free)|, slotOf, |free|, keyOf(d))
    {
      hide CellIndex.Valid, IsFreeList, Tied;
      var found := Find(keyOf(d));
      if found.Some? {
        TiedRefresh(capacity, keyOf, hash, descriptors, free, index.entries, slotOf, d);
        assert slotOf[keyOf(d) := found.value] == slotOf;
        descriptors := descriptors[found.value := d];
        return found;
      }
      HeadTells(freeHead, freeNext, free, NO_SLOT);
      if freeHead == NO_SLOT {
        return None;
      }
      var slot := freeHead;
      Pop(freeHead, freeNext, free, NO_SLOT, freeNext[slot]);
      TiedIntern(capacity, keyOf, hash, descriptors, free, index.entries, slotOf, d);
      assert freeNext[slot := freeNext[slot]] == freeNext && refcounts[slot := 0] == refcounts;
      freeHead := freeNext[slot];
      free := free[1..];
      descriptors := descriptors[slot := d];
      refcounts := refcounts[slot := 0];
      index.InsertUnchecked(hash(keyOf(d)), slot);
      len := len + 1;
      slotOf := slotOf[keyOf(d) := slot];
      return Some(slot);
    }

    method IncRef(slot: nat)
      requires Valid() && Interned(slot)
      modifies `refcounts
      ensures Valid()
      ensures refcounts == old(refcounts)[slot := SatAdd(old(refcounts)[slot], 1, U32_MAX)]
    {
      refcounts := refcounts[slot := SatAdd(refcounts[slot], 1, U32_MAX)];
    }

    /** Releases one reference; the last one frees the slot, which `Find` can then no longer return. */
    method DecRef(slot: nat) returns (freed: bool)
      requires Valid() && slot < capacity
      modifies this, index, index.slotIndexes, index.hashes
      ensures Valid()
      ensures freed <==> old(refcounts)[slot] == 1
      ensures !freed ==> descriptors == old(descriptors) && free == old(free) && slotOf == old(slotOf)
      ensures refcounts == old(refcounts)[slot := SatSub(old(refcounts)[slot], 1)]
      ensures freed ==> old(Interned(slot)) && free == [slot] + old(free)
      ensures freed ==> descriptors == old(descriptors)[slot := blank]
      ensures freed ==> slotOf == old(slotOf) - {keyOf(old(descriptors)[slot])}
    {
      hide CellIndex.Valid, IsFreeList, Tied;
      if refcounts[slot] == 0 {
        assert refcounts[slot := 0] == refcounts;
        return false;
      }
      refcounts := refcounts[slot := refcounts[slot] - 1];
      if refcounts[slot] != 0 {
        return false;
      }
      Release(slot);
      return true;
    }

    /** Gives an interned slot nothing refers to any more back to the freelist. */
    method Release(slot: nat)
      requires Valid() && Interned(slot) && refcounts[slot] == 0
      modifies `descriptors, `freeNext, `freeHead, `free, `len, `slotOf, index, index.slotIndexes, index.hashes
      ensures Valid() && free == [slot] + old(free)
      ensures descriptors == old(descriptors)[slot := blank]
      ensures slotOf == old(slotOf) - {keyOf(old(descriptors)[slot])}
    {
      hide CellIndex.Valid, IsFreeList, Tied;
      var key := keyOf(descriptors[slot]);
      TiedRelease(capacity, keyOf, hash, descriptors, free, index.entries, slotOf, slot, blank);
      index.Remove(hash(key), slot);
      descriptors := descriptors[slot := blank];
      Push(freeHead, freeNext, free, NO_SLOT, slot);
      freeNext := freeNext[slot := freeHead];
      freeHead := slot;
      free := [slot] + free;
      len := len - 1;
      slotOf := slotOf - {key};
    }
  }

  lemma AllFree(cap: nat)
    ensures var all := seq(cap, i => i); forall s: nat :: s in all <==> s < cap
  {
    var all := seq(cap, i => i);
    forall s: nat | s < cap ensures s in all {
      assert all[s] == s;
    }
  }

  /** The least power of two that is at least `n`. */
  function NextPowerOfTwo(n: nat): (p: nat)
    requires n > 0
    ensures n <= p < 2 * n
  {
    if n == 1 then 1 else 2 * NextPowerOfTwo((n + 1) / 2)
  }

  /** `pow2_index_capacity_for`. */
  function IndexCapacityFor(capacity: nat): nat {
    Max(SatMul(NextPowerOfTwo(Max(capacity, 1)), 2, U32_MAX), 2)
  }

  predicate IsPowerOfTwo(n: nat) {
    n == 1 || (n > 1 && n % 2 == 0 && IsPowerOfTwo(n / 2))
  }

  lemma {:induction false} NextPowerOfTwoIs(n: nat)
    requires n > 0
    ensures IsPowerOfTwo(NextPowerOfTwo(n))
  {
    if n > 1 {
      NextPowerOfTwoIs((n + 1) / 2);
    }
  }

  lemma {:induction false} PowersApart(p: nat, q: nat)
    requires IsPowerOfTwo(p) && IsPowerOfTwo(q) && p < q
    ensures 2 * p <= q
  {
    if p > 1 {
      PowersApart(p / 2, q / 2);
    }
  }

  /** No smaller power of two would do. */
  lemma {:induction false} NextPowerOfTwoIsLeast(n: nat, q: nat)
    requires n > 0 && IsPowerOfTwo(q) && n <= q
    ensures NextPowerOfTwo(n) <= q
  {
    if n > 1 {
      NextPowerOfTwoIsLeast((n + 1) / 2, q / 2);
    }
  }

  /** Where the 32-bit rounding is defined, the index gets a power-of-two capacity, which its mask
      needs, if and only if the store has at most 2^30 slots; it is then at most half full. */
  lemma IndexCapacityIff(capacity: nat)
    requires 0 < capacity <= 0x8000_0000
    ensures IsPowerOfTwo(IndexCapacityFor(capacity)) <==> capacity <= 0x4000_0000
    ensures capacity <= 0x4000_0000 ==> 2 * capacity <= IndexCapacityFor(capacity)
  {
    HalfRange();
    NextPowerOfTwoIs(capacity);
    hide NextPowerOfTwo;
    if capacity <= 0x4000_0000 {
      NextPowerOfTwoIsLeast(capacity, 0x4000_0000);
      Doubles(NextPowerOfTwo(capacity));
    } else {
      hide IsPowerOfTwo;
      PowersApart(0x4000_0000, NextPowerOfTwo(capacity));
      OddIsNone(U32_MAX);
    }
  }

  lemma HalfRange()
    ensures IsPowerOfTwo(0x4000_0000)
  {
    assert IsPowerOfTwo(0x80);
    assert IsPowerOfTwo(0x8000);
    assert IsPowerOfTwo(0x80_0000);
  }

  lemma Doubles(n: nat)
    requires IsPowerOfTwo(n)
    ensures IsPowerOfTwo(2 * n)
  {
  }

  lemma OddIsNone(n: nat)
    requires n > 1 && n % 2 == 1
    ensures !IsPowerOfTwo(n)
  {
  }
}
