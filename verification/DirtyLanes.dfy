/** What the entries of the two dirty rings say about the cells (`dirty_entry_current`). */
module DirtyLanes {
  import opened Base
  import opened Cells
  import opened StoreImage

  /** The columns a dirty entry is checked against. `tidy` records that no generation has wrapped
      and no sequence counter has saturated so far. */
  datatype Columns = Columns(
    generations: seq<nat>, keys: seq<CompactKey>, sequences: seq<nat>, next: seq<nat>, localSlot: nat, tidy: bool)

  ghost predicate Shaped(c: Columns) {
    && |c.generations| == |c.keys| == |c.sequences|
    && (forall i: nat :: i < |c.keys| && Odd(c.generations[i]) ==> c.keys[i].origin < |c.next|)
  }

  /** `dirty_entry_current`. */
  predicate EntryCurrent(generations: seq<nat>, sequences: seq<nat>, e: DirtyEntry) {
    && e.handle.index < |generations| && e.handle.index < |sequences|
    && generations[e.handle.index] == e.handle.generation
    && sequences[e.handle.index] == e.originSequence
  }

  predicate Current(c: Columns, e: DirtyEntry) {
    EntryCurrent(c.generations, c.sequences, e)
  }

  ghost predicate OfLane(c: Columns, i: nat, local: bool)
    requires i < |c.keys|
  {
    (c.keys[i].origin == c.localSlot) == local
  }

  /** An entry names the current life of its cell. */
  ghost predicate Names(c: Columns, e: DirtyEntry) {
    e.handle.index < |c.generations| && c.generations[e.handle.index] == e.handle.generation
  }

  ghost predicate EntryOk(c: Columns, e: DirtyEntry, local: bool)
    requires Shaped(c)
  {
    && e.handle.index < |c.generations| && Odd(e.handle.generation)
    && (c.tidy ==> e.handle.generation <= c.generations[e.handle.index])
    && (c.tidy && Names(c, e) ==>
          OfLane(c, e.handle.index, local) && e.originSequence <= c.sequences[e.handle.index])
  }

  /** Later entries of one life carry later sequences. */
  ghost predicate Rising(c: Columns, pushed: seq<DirtyEntry>) {
    forall j, k :: 0 <= j < k < |pushed| && pushed[j].handle == pushed[k].handle && Names(c, pushed[k]) ==>
      pushed[j].originSequence < pushed[k].originSequence
  }

  /** Everything pushed into one lane since it was last cleared; `complete` when never cleared. */
  ghost predicate LaneOk(c: Columns, pushed: seq<DirtyEntry>, local: bool, complete: bool) {
    && Shaped(c)
    && (forall k :: 0 <= k < |pushed| ==> EntryOk(c, pushed[k], local))
    && (c.tidy ==> Rising(c, pushed))
    && (c.tidy && complete ==> forall i: nat :: i < |c.keys| && Odd(c.generations[i]) && OfLane(c, i, local) ==>
          DirtyEntry(CellHandle(i, c.generations[i]), c.sequences[i]) in pushed)
  }

  /** A sequence handed out to a live cell is at most its origin's counter. */
  ghost predicate SequencesOk(c: Columns) {
    && Shaped(c)
    && (c.tidy ==>
          forall i: nat :: i < |c.keys| && Odd(c.generations[i]) ==> c.sequences[i] <= c.next[c.keys[i].origin])
  }

  lemma EmptyLane(c: Columns, local: bool)
    requires |c.generations| == |c.keys| == |c.sequences|
    requires forall i: nat :: i < |c.generations| ==> c.generations[i] == 0
    ensures SequencesOk(c) && LaneOk(c, [], local, true)
  {
  }

  /** Dropping the entries of a lane leaves nothing false behind. */
  lemma ClearedLane(c: Columns, pushed: seq<DirtyEntry>, local: bool, complete: bool)
    requires LaneOk(c, pushed, local, complete)
    ensures LaneOk(c, [], local, false)
  {
  }

  /** A lane takes the entries of its own class of origins only. */
  function Routed(pushed: seq<DirtyEntry>, e: DirtyEntry, mine: bool): seq<DirtyEntry> {
    if mine then pushed + [e] else pushed
  }

  /** Cell `i` is stamped with the next sequence of its origin and pushed into its lane. */
  ghost function Stamped(c: Columns, i: nat, seqNo: nat): Columns
    requires Shaped(c) && i < |c.keys| && Odd(c.generations[i])
  {
    c.(sequences := c.sequences[i := seqNo], next := c.next[c.keys[i].origin := seqNo],
       tidy := c.tidy && c.next[c.keys[i].origin] < seqNo)
  }

  lemma StampedLane(c: Columns, pushed: seq<DirtyEntry>, local: bool, complete: bool, i: nat, seqNo: nat)
    requires LaneOk(c, pushed, local, complete) && SequencesOk(c)
    requires i < |c.keys| && Odd(c.generations[i]) && seqNo >= c.next[c.keys[i].origin]
    ensures Shaped(Stamped(c, i, seqNo)) && SequencesOk(Stamped(c, i, seqNo))
    ensures
      var e := DirtyEntry(CellHandle(i, c.generations[i]), seqNo);
      LaneOk(Stamped(c, i, seqNo), Routed(pushed, e, (c.keys[i].origin == c.localSlot) == local), local, complete)
  {
    var d := Stamped(c, i, seqNo);
    var more := pushed + [DirtyEntry(CellHandle(i, c.generations[i]), seqNo)];
    assert more[|pushed|] == DirtyEntry(CellHandle(i, c.generations[i]), seqNo);
    forall k | 0 <= k < |pushed| ensures EntryOk(d, pushed[k], local) {
      assert EntryOk(c, pushed[k], local);
    }
    if d.tidy && complete {
      forall j: nat | j < |d.keys| && Odd(d.generations[j]) && OfLane(d, j, local) && j != i
        ensures DirtyEntry(CellHandle(j, d.generations[j]), d.sequences[j]) in pushed
      {
        assert OfLane(c, j, local);
      }
    }
  }

  /** The dead slot `i` goes live with `key`, stamped and pushed. */
  ghost function Born(c: Columns, i: nat, key: CompactKey, seqNo: nat): Columns
    requires Shaped(c) && i < |c.keys| && key.origin < |c.next|
  {
    c.(generations := c.generations[i := Bump(c.generations[i])], keys := c.keys[i := key],
       sequences := c.sequences[i := seqNo], next := c.next[key.origin := seqNo],
       tidy := c.tidy && c.generations[i] < U32_MAX && c.next[key.origin] < seqNo)
  }

  lemma BornLane(c: Columns, pushed: seq<DirtyEntry>, local: bool, complete: bool, i: nat, key: CompactKey, seqNo: nat)
    requires LaneOk(c, pushed, local, complete) && SequencesOk(c)
    requires i < |c.keys| && c.generations[i] <= U32_MAX && !Odd(c.generations[i])
    requires key.origin < |c.next| && seqNo >= c.next[key.origin]
    ensures Shaped(Born(c, i, key, seqNo)) && SequencesOk(Born(c, i, key, seqNo))
    ensures
      var d := Born(c, i, key, seqNo);
      var e := DirtyEntry(CellHandle(i, d.generations[i]), seqNo);
      LaneOk(d, Routed(pushed, e, (key.origin == c.localSlot) == local), local, complete)
  {
    var d := Born(c, i, key, seqNo);
    BumpFlips(c.generations[i]);
    var e := DirtyEntry(CellHandle(i, d.generations[i]), seqNo);
    var mine := (key.origin == c.localSlot) == local;
    var more := Routed(pushed, e, mine);
    forall k | 0 <= k < |pushed| ensures EntryOk(d, pushed[k], local) && (d.tidy ==> pushed[k].handle != e.handle) {
      assert EntryOk(c, pushed[k], local);
    }
    if mine {
      assert more[|pushed|] == e && EntryOk(d, e, local);
    }
    if d.tidy {
      BornRising(c, d, pushed, e, mine);
    }
    if d.tidy && complete {
      forall j: nat | j < |d.keys| && Odd(d.generations[j]) && OfLane(d, j, local) && j != i
        ensures DirtyEntry(CellHandle(j, d.generations[j]), d.sequences[j]) in pushed
      {
        assert OfLane(c, j, local);
      }
    }
    hide Rising, EntryOk;
  }

  /** An entry for a life nobody has named yet keeps the order. */
  lemma BornRising(c: Columns, d: Columns, pushed: seq<DirtyEntry>, e: DirtyEntry, mine: bool)
    requires Rising(c, pushed) && (forall k :: 0 <= k < |pushed| ==> pushed[k].handle != e.handle)
    requires forall x :: Names(d, x) ==> x.handle == e.handle || Names(c, x)
    ensures Rising(d, Routed(pushed, e, mine))
  {
  }

  /** The live slot `i` dies; its origin's counter restarts when the node slot is released with it. */
  ghost function Buried(c: Columns, i: nat, releasesOrigin: bool): Columns
    requires Shaped(c) && i < |c.keys| && c.keys[i].origin < |c.next|
  {
    c.(generations := c.generations[i := Bump(c.generations[i])],
       next := if releasesOrigin then c.next[c.keys[i].origin := 0] else c.next,
       tidy := c.tidy && c.generations[i] < U32_MAX)
  }

  lemma BuriedLane(c: Columns, pushed: seq<DirtyEntry>, local: bool, complete: bool, i: nat, releasesOrigin: bool)
    requires LaneOk(c, pushed, local, complete) && SequencesOk(c)
    requires i < |c.keys| && c.generations[i] <= U32_MAX && Odd(c.generations[i])
    requires releasesOrigin ==> forall j: nat :: j < |c.keys| && Odd(c.generations[j]) && j != i ==>
               c.keys[j].origin != c.keys[i].origin
    ensures Shaped(Buried(c, i, releasesOrigin)) && SequencesOk(Buried(c, i, releasesOrigin))
    ensures LaneOk(Buried(c, i, releasesOrigin), pushed, local, complete)
  {
    var d := Buried(c, i, releasesOrigin);
    BumpFlips(c.generations[i]);
    forall k | 0 <= k < |pushed| ensures EntryOk(d, pushed[k], local) {
      assert EntryOk(c, pushed[k], local);
    }
    assert forall k :: 0 <= k < |pushed| && Names(d, pushed[k]) && d.tidy ==> Names(c, pushed[k]);
    if d.tidy && complete {
      forall j: nat | j < |d.keys| && Odd(d.generations[j]) && OfLane(d, j, local)
        ensures DirtyEntry(CellHandle(j, d.generations[j]), d.sequences[j]) in pushed
      {
        assert OfLane(c, j, local);
      }
    }
  }

  /** At most one entry of a lane is current for a cell, and none in the other lane. */
  lemma CurrentOnce(c: Columns, pushed: seq<DirtyEntry>, local: bool, complete: bool, j: nat, k: nat)
    requires LaneOk(c, pushed, local, complete) && c.tidy
    requires j < |pushed| && k < |pushed| && Current(c, pushed[j]) && Current(c, pushed[k])
    requires pushed[j].handle.index == pushed[k].handle.index
    ensures j == k && OfLane(c, pushed[k].handle.index, local)
  {
    assert EntryOk(c, pushed[k], local);
  }

  /** What the entries kept of one lane say: a cell has at most one current entry, in the lane of its
      origin class, and exactly one when nothing was lost. */
  ghost predicate RingTells(c: Columns, kept: seq<DirtyEntry>, local: bool, lossless: bool) {
    && |c.keys| == |c.generations|
    && (forall j, k :: (0 <= j < |kept| && 0 <= k < |kept| && Current(c, kept[j]) && Current(c, kept[k])
                        && kept[j].handle.index == kept[k].handle.index) ==> j == k)
    && (forall k :: 0 <= k < |kept| && Current(c, kept[k]) ==> OfLane(c, kept[k].handle.index, local))
    && (lossless ==> forall i: nat :: i < |c.keys| && Odd(c.generations[i]) && OfLane(c, i, local) ==>
          exists k :: 0 <= k < |kept| && kept[k].handle.index == i && Current(c, kept[k]))
  }

  lemma LaneReads(c: Columns, pushed: seq<DirtyEntry>, local: bool, complete: bool, kept: seq<DirtyEntry>, from: nat)
    requires LaneOk(c, pushed, local, complete) && c.tidy && from <= |pushed| && kept == pushed[from..]
    ensures RingTells(c, kept, local, complete && from == 0)
  {
    forall j, k | 0 <= j < |kept| && 0 <= k < |kept| && Current(c, kept[j]) && Current(c, kept[k])
      && kept[j].handle.index == kept[k].handle.index
      ensures j == k && OfLane(c, kept[k].handle.index, local)
    {
      CurrentOnce(c, pushed, local, complete, from + j, from + k);
    }
    if complete && from == 0 {
      forall i: nat | i < |c.keys| && Odd(c.generations[i]) && OfLane(c, i, local)
        ensures exists k :: 0 <= k < |kept| && kept[k].handle.index == i && Current(c, kept[k])
      {
        var k :| 0 <= k < |pushed| && pushed[k] == DirtyEntry(CellHandle(i, c.generations[i]), c.sequences[i]);
        assert kept[k] == pushed[k];
      }
    }
  }
}
