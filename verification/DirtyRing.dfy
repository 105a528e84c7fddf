/** The bounded change ring (`crdt/dirty_ring.rs`). */
module DirtyRings {
  import opened Base
  import opened Cells

  class DirtyRing {
    const entries: array<DirtyEntry>
    var head: nat
    var len: nat
    var overflowSeq: nat
    /** Every push since construction or the last clear. */
    ghost var pushed: seq<DirtyEntry>

    ghost function Repr(): set<object> {
      {this, entries}
    }

    /** `(start + offset) % cap`, for `start < cap` and `offset < cap`. */
    static function Wrap(x: nat, cap: nat): nat {
      if x < cap then x else x - cap
    }

    function Start(): nat
      reads this
    {
      if len == entries.Length then head else 0
    }

    ghost predicate Valid()
      reads this, entries
    {
      && len == Min(|pushed|, entries.Length)
      && overflowSeq == Min(|pushed| - len, U64_MAX)
      && (if len < entries.Length then head == len else head < entries.Length || entries.Length == 0)
      && (len == 0 || Start() < entries.Length)
      && (forall k: nat {:trigger ReadsBack(k)} :: k < len ==> ReadsBack(k))
    }

    ghost predicate ReadsBack(k: nat)
      requires k < len <= entries.Length && len <= |pushed| && Start() < entries.Length
      reads this, entries
    {
      entries[Wrap(Start() + k, entries.Length)] == pushed[|pushed| - len + k]
    }

    /** The ring reads back the last `min(n, capacity)` of the `n` pushes, oldest first. */
    ghost function Contents(): (c: seq<DirtyEntry>)
      requires Valid()
      reads this, entries
      ensures |c| == len == Min(|pushed|, entries.Length)
    {
      pushed[|pushed| - len..]
    }

    constructor (capacity: nat)
      ensures Valid() && fresh(Repr()) && entries.Length == capacity
      ensures pushed == [] && overflowSeq == 0
    {
      entries := new DirtyEntry[capacity](_ => DirtyEntry(CellHandle(0, 0), 0));
      head, len, overflowSeq := 0, 0, 0;
      pushed := [];
    }

    method Push(entry: DirtyEntry)
      requires Valid()
      modifies this, entries
      ensures Valid() && pushed == old(pushed) + [entry]
    {
      var cap := entries.Length;
      if cap == 0 {
        overflowSeq := SatAdd(overflowSeq, 1, U64_MAX);
        pushed := pushed + [entry];
        return;
      }
      if len == cap {
        overflowSeq := SatAdd(overflowSeq, 1, U64_MAX);
      } else {
        len := len + 1;
      }
      entries[head] := entry;
      head := if head + 1 == cap then 0 else head + 1;
      pushed := pushed + [entry];
      forall k: nat | k < len ensures ReadsBack(k) {
        ghost var j := if old(len) == cap then k + 1 else k;
        if k + 1 < len {
          assert old(ReadsBack(j));
        }
      }
    }

    /** `ring_entry_at`: offsets count from the oldest entry. */
    function EntryAt(offset: nat): (e: DirtyEntry)
      requires Valid() && offset < len
      reads this, entries
      ensures e == Contents()[offset]
    {
      assert ReadsBack(offset);
      entries[Wrap(Start() + offset, entries.Length)]
    }

    method Clear()
      modifies this
      ensures Valid() && pushed == [] && overflowSeq == 0
    {
      head, len, overflowSeq := 0, 0, 0;
      pushed := [];
    }

    /** Nothing has been lost exactly while the overflow counter is zero. */
    lemma OverflowTells()
      requires Valid()
      ensures overflowSeq == 0 <==> Contents() == pushed
    {
      assert pushed[0..] == pushed;
    }
  }
}
