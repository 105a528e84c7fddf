/** What one gossip frame contains (`fill_gossip_frame`, `fill_gossip_frame_for_peer`): the local
    dirty lane, then the forwarded one, then a rotating slice of all live cells. */
module Frames {
  import opened Base
  import opened Cells
  import opened StoreImage
  import opened DirtyLanes

  /** The slots a frame already names. */
  ghost function Slots(out: seq<CellHandle>): set<nat> {
    set h | h in out :: h.index
  }

  /** A peer lacks a cell stamped after the last sequence it acknowledged for the cell's origin;
      without a peer nothing is pruned. */
  predicate Lacks(c: Columns, acks: Option<seq<nat>>, i: nat) {
    || acks.None?
    || (&& i < |c.keys| && i < |c.sequences| && c.keys[i].origin < |acks.value|
        && c.sequences[i] > acks.value[c.keys[i].origin])
  }

  predicate Eligible(c: Columns, acks: Option<seq<nat>>, e: DirtyEntry) {
    Current(c, e) && Lacks(c, acks, e.handle.index)
  }

  /** One dirty lane appended to `out`, oldest entry first, while there is room. */
  ghost function Lane(c: Columns, acks: Option<seq<nat>>, entries: seq<DirtyEntry>, out: seq<CellHandle>,
                      max: nat): seq<CellHandle> {
    if entries == [] then out
    else
      var sofar := Lane(c, acks, entries[..|entries| - 1], out, max);
      var e := entries[|entries| - 1];
      if |sofar| < max && Eligible(c, acks, e) && e.handle.index !in Slots(sofar) then sofar + [e.handle] else sofar
  }

  /** `(cursor + k) % cap` for `cursor < cap` and `k <= cap`. */
  function Rotate(cursor: nat, k: nat, cap: nat): (slot: nat)
    requires cursor < cap && k <= cap
    ensures slot < cap
  {
    if cursor + k < cap then cursor + k else cursor + k - cap
  }

  /** `k` slots from `cursor` on, each live one not yet named appended while there is room. */
  ghost function Sweep(gens: seq<nat>, cursor: nat, k: nat, out: seq<CellHandle>, max: nat): seq<CellHandle>
    requires cursor < |gens| && k <= |gens|
  {
    if k == 0 then out
    else
      var sofar := Sweep(gens, cursor, k - 1, out, max);
      var slot := Rotate(cursor, k - 1, |gens|);
      if |sofar| < max && Odd(gens[slot]) && slot !in Slots(sofar) then sofar + [CellHandle(slot, gens[slot])]
      else sofar
  }

  /** How many slots the sweep looks at before the frame is full or the rotation complete. */
  ghost function Looked(gens: seq<nat>, cursor: nat, k: nat, out: seq<CellHandle>, max: nat): (n: nat)
    requires cursor < |gens| && k <= |gens|
    ensures n <= k
  {
    if k == 0 then 0
    else if |Sweep(gens, cursor, k - 1, out, max)| < max then k
    else Looked(gens, cursor, k - 1, out, max)
  }

  /** Where the repair lane goes on in the next frame. */
  ghost function NextCursor(gens: seq<nat>, dirty: seq<CellHandle>, cursor: nat, max: nat): (next: nat)
    requires cursor < |gens|
    ensures next < |gens|
  {
    Rotate(cursor, Looked(gens, cursor, |gens|, dirty, max), |gens|)
  }

  ghost function DirtyPart(c: Columns, acks: Option<seq<nat>>, local: seq<DirtyEntry>, forwarded: seq<DirtyEntry>,
                           max: nat): seq<CellHandle> {
    Lane(c, acks, forwarded, Lane(c, acks, local, [], max), max)
  }

  ghost function Frame(c: Columns, acks: Option<seq<nat>>, local: seq<DirtyEntry>, forwarded: seq<DirtyEntry>,
                       cursor: nat, max: nat): seq<CellHandle>
    requires cursor < |c.generations|
  {
    Sweep(c.generations, cursor, |c.generations|, DirtyPart(c, acks, local, forwarded, max), max)
  }

  /** Handles of distinct live cells, within the bound. */
  ghost predicate Sound(gens: seq<nat>, out: seq<CellHandle>, max: nat) {
    && |out| <= max
    && (forall k :: 0 <= k < |out| ==>
          out[k].index < |gens| && gens[out[k].index] == out[k].generation && Odd(out[k].generation))
    && (forall j, k :: 0 <= j < k < |out| ==> out[j].index != out[k].index)
  }

  lemma SlotsOfMore(out: seq<CellHandle>, h: CellHandle)
    ensures Slots(out + [h]) == Slots(out) + {h.index}
  {
    var more := out + [h];
    assert more[|out|] == h;
    assert forall x :: x in out ==> x in more;
    assert Slots(more) <= Slots(out) + {h.index};
    assert h in more;
  }

  lemma {:induction false} LaneSound(c: Columns, acks: Option<seq<nat>>, entries: seq<DirtyEntry>, out: seq<CellHandle>,
                                     max: nat)
    requires Sound(c.generations, out, max) && forall k :: 0 <= k < |entries| ==> Odd(entries[k].handle.generation)
    ensures Sound(c.generations, Lane(c, acks, entries, out, max), max) && out <= Lane(c, acks, entries, out, max)
  {
    if entries != [] {
      LaneSound(c, acks, entries[..|entries| - 1], out, max);
    }
  }

  lemma {:induction false} SweepSound(gens: seq<nat>, cursor: nat, k: nat, out: seq<CellHandle>, max: nat)
    requires cursor < |gens| && k <= |gens| && Sound(gens, out, max)
    ensures Sound(gens, Sweep(gens, cursor, k, out, max), max) && out <= Sweep(gens, cursor, k, out, max)
  {
    if k > 0 {
      SweepSound(gens, cursor, k - 1, out, max);
    }
  }

  /** An eligible entry is in the frame unless the frame filled up first. */
  lemma {:induction false} LaneComplete(c: Columns, acks: Option<seq<nat>>, entries: seq<DirtyEntry>,
                                        out: seq<CellHandle>, max: nat, k: nat)
    requires k < |entries| && Eligible(c, acks, entries[k]) && |Lane(c, acks, entries, out, max)| < max
    ensures entries[k].handle.index in Slots(Lane(c, acks, entries, out, max))
  {
    var n := |entries| - 1;
    var sofar := Lane(c, acks, entries[..n], out, max);
    if k < n {
      LaneComplete(c, acks, entries[..n], out, max, k);
    }
    if sofar != Lane(c, acks, entries, out, max) {
      SlotsOfMore(sofar, entries[n].handle);
    }
  }

  /** Every live slot passed is in the frame unless the frame filled up first. */
  lemma {:induction false} SweepComplete(gens: seq<nat>, cursor: nat, k: nat, out: seq<CellHandle>, max: nat, j: nat)
    requires cursor < |gens| && j < k <= |gens| && Odd(gens[Rotate(cursor, j, |gens|)])
    requires |Sweep(gens, cursor, k - 1, out, max)| < max
    ensures Rotate(cursor, j, |gens|) in Slots(Sweep(gens, cursor, k, out, max))
  {
    var sofar := Sweep(gens, cursor, k - 1, out, max);
    if j < k - 1 {
      SweepGrows(gens, cursor, k - 2, k - 1, out, max);
      SweepComplete(gens, cursor, k - 1, out, max, j);
    }
    if sofar != Sweep(gens, cursor, k, out, max) {
      SlotsOfMore(sofar, CellHandle(Rotate(cursor, k - 1, |gens|), gens[Rotate(cursor, k - 1, |gens|)]));
    }
  }

  lemma {:induction false} SweepGrows(gens: seq<nat>, cursor: nat, j: nat, k: nat, out: seq<CellHandle>, max: nat)
    requires cursor < |gens| && j <= k <= |gens|
    ensures Sweep(gens, cursor, j, out, max) <= Sweep(gens, cursor, k, out, max)
  {
    if j < k {
      SweepGrows(gens, cursor, j, k - 1, out, max);
    }
  }

  lemma LaneOfNone(c: Columns, acks: Option<seq<nat>>, out: seq<CellHandle>, max: nat)
    ensures Lane(c, acks, [], out, max) == out
  {
  }

  lemma LaneStep(c: Columns, acks: Option<seq<nat>>, entries: seq<DirtyEntry>, n: nat, out: seq<CellHandle>, max: nat)
    requires n < |entries|
    ensures
      var sofar, e := Lane(c, acks, entries[..n], out, max), entries[n];
      Lane(c, acks, entries[..n + 1], out, max)
      == if |sofar| < max && Eligible(c, acks, e) && e.handle.index !in Slots(sofar) then sofar + [e.handle] else sofar
  {
    assert entries[..n + 1][..n] == entries[..n];
  }

  /** A full frame takes no more from a lane. */
  lemma {:induction false} LaneStops(c: Columns, acks: Option<seq<nat>>, entries: seq<DirtyEntry>, n: nat,
                                     out: seq<CellHandle>, max: nat)
    requires n <= |entries| && |Lane(c, acks, entries[..n], out, max)| >= max
    ensures Lane(c, acks, entries, out, max) == Lane(c, acks, entries[..n], out, max)
  {
    if n == |entries| {
      assert entries[..n] == entries;
    } else {
      var most := entries[..|entries| - 1];
      assert most[..n] == entries[..n];
      LaneStops(c, acks, most, n, out, max);
    }
  }

  lemma SweepStep(gens: seq<nat>, cursor: nat, k: nat, out: seq<CellHandle>, max: nat)
    requires cursor < |gens| && k < |gens|
    ensures
      var sofar, slot := Sweep(gens, cursor, k, out, max), Rotate(cursor, k, |gens|);
      && Sweep(gens, cursor, 0, out, max) == out && Looked(gens, cursor, 0, out, max) == 0
      && (|sofar| < max ==> Looked(gens, cursor, k + 1, out, max) == k + 1)
      && Sweep(gens, cursor, k + 1, out, max)
         == if |sofar| < max && Odd(gens[slot]) && slot !in Slots(sofar)
            then sofar + [CellHandle(slot, gens[slot])] else sofar
  {
  }

  /** A full frame ends the sweep. */
  lemma {:induction false} SweepStops(gens: seq<nat>, cursor: nat, j: nat, k: nat, out: seq<CellHandle>, max: nat)
    requires cursor < |gens| && j <= k <= |gens| && |Sweep(gens, cursor, j, out, max)| >= max
    ensures Sweep(gens, cursor, k, out, max) == Sweep(gens, cursor, j, out, max)
    ensures Looked(gens, cursor, k, out, max) == Looked(gens, cursor, j, out, max)
  {
    if j < k {
      SweepStops(gens, cursor, j, k - 1, out, max);
    }
  }

  lemma FullLane(c: Columns, acks: Option<seq<nat>>, entries: seq<DirtyEntry>, out: seq<CellHandle>, max: nat)
    requires |out| >= max
    ensures Lane(c, acks, entries, out, max) == out
  {
    assert entries[..0] == [];
    LaneStops(c, acks, entries, 0, out, max);
  }

  lemma EmptyFrame(c: Columns, acks: Option<seq<nat>>, local: seq<DirtyEntry>, forwarded: seq<DirtyEntry>)
    ensures DirtyPart(c, acks, local, forwarded, 0) == []
  {
    FullLane(c, acks, local, [], 0);
    FullLane(c, acks, forwarded, [], 0);
  }

  lemma FullSweep(gens: seq<nat>, cursor: nat, out: seq<CellHandle>, max: nat)
    requires cursor < |gens| && |out| >= max
    ensures Sweep(gens, cursor, |gens|, out, max) == out && NextCursor(gens, out, cursor, max) == cursor
  {
    SweepStops(gens, cursor, 0, |gens|, out, max);
  }

  ghost function LiveSlots(gens: seq<nat>): set<nat> {
    set i: nat | i < |gens| && Odd(gens[i])
  }

  lemma {:induction false} SoundSize(gens: seq<nat>, out: seq<CellHandle>, max: nat)
    requires Sound(gens, out, max)
    ensures Slots(out) <= LiveSlots(gens) && |Slots(out)| == |out|
  {
    if out == [] {
      assert Slots(out) == {};
    } else {
      var n := |out| - 1;
      SoundSize(gens, out[..n], max);
      assert out == out[..n] + [out[n]];
      SlotsOfMore(out[..n], out[n]);
      assert out[n].index !in Slots(out[..n]);
    }
  }

  /** How far ahead of the cursor a slot lies. */
  function Ahead(cursor: nat, slot: nat, cap: nat): (d: nat)
    requires cursor < cap && slot < cap
    ensures d < cap && Rotate(cursor, d, cap) == slot
  {
    if cursor <= slot then slot - cursor else slot + cap - cursor
  }

  /** Ring contents: every entry was pushed for a live cell. */
  ghost predicate OddEntries(entries: seq<DirtyEntry>) {
    forall k :: 0 <= k < |entries| ==> Odd(entries[k].handle.generation)
  }

  /** A whole rotation that leaves room has met every live slot. */
  lemma FullRotation(gens: seq<nat>, cursor: nat, out: seq<CellHandle>, max: nat)
    requires cursor < |gens| && |Sweep(gens, cursor, |gens|, out, max)| < max
    ensures LiveSlots(gens) <= Slots(Sweep(gens, cursor, |gens|, out, max))
  {
    SweepGrows(gens, cursor, |gens| - 1, |gens|, out, max);
    forall i | i in LiveSlots(gens) ensures i in Slots(Sweep(gens, cursor, |gens|, out, max)) {
      SweepComplete(gens, cursor, |gens|, out, max, Ahead(cursor, i, |gens|));
    }
  }

  lemma DirtySound(c: Columns, acks: Option<seq<nat>>, local: seq<DirtyEntry>, forwarded: seq<DirtyEntry>, max: nat)
    requires OddEntries(local) && OddEntries(forwarded)
    ensures Sound(c.generations, DirtyPart(c, acks, local, forwarded, max), max)
  {
    LaneSound(c, acks, local, [], max);
    LaneSound(c, acks, forwarded, Lane(c, acks, local, [], max), max);
  }

  /** A frame names exactly `min(max, live cells)` distinct cells, all of them live. */
  lemma FrameExact(c: Columns, acks: Option<seq<nat>>, local: seq<DirtyEntry>, forwarded: seq<DirtyEntry>, cursor: nat,
                   max: nat)
    requires cursor < |c.generations| && OddEntries(local) && OddEntries(forwarded)
    ensures
      var f := Frame(c, acks, local, forwarded, cursor, max);
      Sound(c.generations, f, max) && |f| == Min(max, |LiveSlots(c.generations)|)
  {
    hide Sweep, Lane, DirtyPart, OddEntries, Slots, LiveSlots;
    var gens, d := c.generations, DirtyPart(c, acks, local, forwarded, max);
    DirtySound(c, acks, local, forwarded, max);
    SweepSound(gens, cursor, |gens|, d, max);
    var f := Sweep(gens, cursor, |gens|, d, max);
    SoundSize(gens, f, max);
    SubsetCardinality(Slots(f), LiveSlots(gens));
    if |f| < max {
      FullRotation(gens, cursor, d, max);
      SubsetCardinality(LiveSlots(gens), Slots(f));
    }
  }

  /** Lane order: eligible local changes come first, then eligible forwarded ones, then repair. A later
      lane contributes only when everything eligible in the earlier lanes is already in. */
  lemma FramePriority(c: Columns, acks: Option<seq<nat>>, local: seq<DirtyEntry>, forwarded: seq<DirtyEntry>,
                      cursor: nat, max: nat)
    requires cursor < |c.generations| && OddEntries(local) && OddEntries(forwarded)
    ensures
      var first := Lane(c, acks, local, [], max);
      var dirty := DirtyPart(c, acks, local, forwarded, max);
      var f := Frame(c, acks, local, forwarded, cursor, max);
      && first <= dirty <= f
      && (forall h :: h in first ==> exists e :: e in local && Eligible(c, acks, e) && e.handle == h)
      && (forall h :: h in dirty ==> exists e :: e in local + forwarded && Eligible(c, acks, e) && e.handle == h)
      && (|first| < |f| ==> forall e :: e in local && Eligible(c, acks, e) ==> e.handle.index in Slots(first))
      && (|dirty| < |f| ==> forall e :: e in forwarded && Eligible(c, acks, e) ==> e.handle.index in Slots(dirty))
  {
    var first := Lane(c, acks, local, [], max);
    var dirty := DirtyPart(c, acks, local, forwarded, max);
    LaneSound(c, acks, local, [], max);
    LaneSound(c, acks, forwarded, first, max);
    SweepSound(c.generations, cursor, |c.generations|, dirty, max);
    LaneOnly(c, acks, local, [], max);
    LaneOnly(c, acks, forwarded, first, max);
    var f := Frame(c, acks, local, forwarded, cursor, max);
    forall h | h in dirty ensures exists e :: e in local + forwarded && Eligible(c, acks, e) && e.handle == h {
      if h in first {
        var e :| e in local && Eligible(c, acks, e) && e.handle == h;
        assert e in local + forwarded;
      } else {
        var e :| e in forwarded && Eligible(c, acks, e) && e.handle == h;
        assert e in local + forwarded;
      }
    }
    if |first| < |f| {
      forall e | e in local && Eligible(c, acks, e) ensures e.handle.index in Slots(first) {
        var k: nat :| k < |local| && local[k] == e;
        LaneComplete(c, acks, local, [], max, k);
      }
    }
    if |dirty| < |f| {
      forall e | e in forwarded && Eligible(c, acks, e) ensures e.handle.index in Slots(dirty) {
        var k: nat :| k < |forwarded| && forwarded[k] == e;
        LaneComplete(c, acks, forwarded, first, max, k);
      }
    }
  }

  lemma {:induction false} LaneOnly(c: Columns, acks: Option<seq<nat>>, entries: seq<DirtyEntry>, out: seq<CellHandle>,
                                    max: nat)
    ensures forall h :: h in Lane(c, acks, entries, out, max) ==>
              h in out || exists e :: e in entries && Eligible(c, acks, e) && e.handle == h
  {
    if entries != [] {
      var n := |entries| - 1;
      LaneOnly(c, acks, entries[..n], out, max);
      assert entries[n] in entries && forall e :: e in entries[..n] ==> e in entries;
    }
  }

  lemma {:induction false} LaneTail(c: Columns, acks: Option<seq<nat>>, entries: seq<DirtyEntry>, out: seq<CellHandle>,
                                    max: nat)
    ensures out <= Lane(c, acks, entries, out, max)
    ensures forall h :: h in Lane(c, acks, entries, out, max)[|out|..] ==>
              exists e :: e in entries && Eligible(c, acks, e) && e.handle == h
  {
    if entries != [] {
      var n := |entries| - 1;
      LaneTail(c, acks, entries[..n], out, max);
      assert entries[n] in entries && forall e :: e in entries[..n] ==> e in entries;
      var sofar, lane := Lane(c, acks, entries[..n], out, max), Lane(c, acks, entries, out, max);
      if lane != sofar {
        assert lane[|out|..] == sofar[|out|..] + [entries[n].handle];
      }
    }
  }

  /** A frame led by `n` cells of the local lane and the forwarded lane up to `d`, where `local` and `forwarded`
      are the entries owed in each: nothing else is in these parts, and a later part has cells only when all
      that is owed before it is in. */
  ghost predicate LedBy(out: seq<CellHandle>, local: set<DirtyEntry>, forwarded: set<DirtyEntry>, n: nat, d: nat) {
    && n <= d <= |out|
    && (forall h :: h in out[..n] ==> exists e :: e in local && e.handle == h)
    && (forall h :: h in out[n..d] ==> exists e :: e in forwarded && e.handle == h)
    && (n < |out| ==> forall e :: e in local ==> e.handle.index in Slots(out[..n]))
    && (d < |out| ==> forall e :: e in forwarded ==> e.handle.index in Slots(out[..d]))
  }

  ghost function EligibleOf(c: Columns, acks: Option<seq<nat>>, entries: seq<DirtyEntry>): set<DirtyEntry> {
    set e | e in entries && Eligible(c, acks, e)
  }

  lemma FrameLed(c: Columns, acks: Option<seq<nat>>, local: seq<DirtyEntry>, forwarded: seq<DirtyEntry>, cursor: nat,
                 max: nat)
    requires cursor < |c.generations| && OddEntries(local) && OddEntries(forwarded)
    ensures LedBy(Frame(c, acks, local, forwarded, cursor, max), EligibleOf(c, acks, local),
                  EligibleOf(c, acks, forwarded), |Lane(c, acks, local, [], max)|,
                  |DirtyPart(c, acks, local, forwarded, max)|)
  {
    hide Eligible, Slots, Sweep, Lane;
    var first, dirty := Lane(c, acks, local, [], max), DirtyPart(c, acks, local, forwarded, max);
    var f := Frame(c, acks, local, forwarded, cursor, max);
    FramePriority(c, acks, local, forwarded, cursor, max);
    LaneTail(c, acks, local, [], max);
    LaneTail(c, acks, forwarded, first, max);
    assert f[..|first|] == first && f[..|dirty|] == dirty && f[|first|..|dirty|] == dirty[|first|..];
    forall h | h in f[..|first|] ensures exists e :: e in EligibleOf(c, acks, local) && e.handle == h {
      var e :| e in local && Eligible(c, acks, e) && e.handle == h;
      assert e in EligibleOf(c, acks, local);
    }
    forall h | h in f[|first|..|dirty|] ensures exists e :: e in EligibleOf(c, acks, forwarded) && e.handle == h {
      var e :| e in forwarded && Eligible(c, acks, e) && e.handle == h;
      assert e in EligibleOf(c, acks, forwarded);
    }
  }

  lemma {:induction false} NothingEligible(c: Columns, acks: Option<seq<nat>>, entries: seq<DirtyEntry>,
                                           out: seq<CellHandle>, max: nat)
    requires forall e :: e in entries ==> !Eligible(c, acks, e)
    ensures Lane(c, acks, entries, out, max) == out
  {
    if entries != [] {
      assert entries[|entries| - 1] in entries;
      NothingEligible(c, acks, entries[..|entries| - 1], out, max);
    }
  }

  /** Lanes without an eligible entry contribute nothing. */
  lemma NothingDirty(c: Columns, acks: Option<seq<nat>>, local: seq<DirtyEntry>, forwarded: seq<DirtyEntry>, max: nat)
    requires forall e :: e in local || e in forwarded ==> !Eligible(c, acks, e)
    ensures DirtyPart(c, acks, local, forwarded, max) == []
  {
    NothingEligible(c, acks, local, [], max);
    NothingEligible(c, acks, forwarded, [], max);
  }

  lemma {:induction false} LookedAt(gens: seq<nat>, cursor: nat, k: nat, out: seq<CellHandle>, max: nat)
    requires cursor < |gens| && k <= |gens|
    ensures
      var n := Looked(gens, cursor, k, out, max);
      && (n > 0 ==> |Sweep(gens, cursor, n - 1, out, max)| < max)
      && (n < k ==> |Sweep(gens, cursor, n, out, max)| >= max)
      && Sweep(gens, cursor, n, out, max) == Sweep(gens, cursor, k, out, max)
      && (k > 0 && |out| < max ==> n > 0)
  {
    hide Sweep, Slots;
    if k > 0 {
      SweepStep(gens, cursor, k - 1, out, max);
      if |Sweep(gens, cursor, k - 1, out, max)| >= max {
        LookedAt(gens, cursor, k - 1, out, max);
      }
    }
  }

  lemma SlotsGrow(a: seq<CellHandle>, b: seq<CellHandle>)
    requires a <= b
    ensures Slots(a) <= Slots(b)
  {
    assert forall h :: h in a ==> h in b;
  }

  /** One frame's repair lane: what it starts from and what it may still take. */
  datatype RepairInput = RepairInput(gens: seq<nat>, dirty: seq<CellHandle>, max: nat) {
    /** The dirty lanes leave room. */
    predicate Roomy() {
      |dirty| < max
    }

    predicate Holds(slot: nat) {
      slot < |gens| && Odd(gens[slot])
    }
  }

  /** The whole frame: the dirty part, then the rotation from the cursor. */
  ghost function FrameOf(r: RepairInput, cursor: nat): seq<CellHandle>
    requires cursor < |r.gens|
  {
    Sweep(r.gens, cursor, |r.gens|, r.dirty, r.max)
  }

  lemma FrameIs(c: Columns, acks: Option<seq<nat>>, local: seq<DirtyEntry>, forwarded: seq<DirtyEntry>, cursor: nat,
                max: nat)
    requires cursor < |c.generations|
    ensures Frame(c, acks, local, forwarded, cursor, max)
            == FrameOf(RepairInput(c.generations, DirtyPart(c, acks, local, forwarded, max), max), cursor)
  {
  }

  ghost predicate RepairStep(r: RepairInput, cursor: nat, next: nat, cap: nat) {
    && cursor < cap && |r.gens| == cap
    && next == NextCursor(r.gens, r.dirty, cursor, r.max)
  }

  /** Successive frames, the cursor handed from one to the next. */
  ghost predicate RepairRun(frames: seq<RepairInput>, cursors: seq<nat>, cap: nat) {
    && |cursors| == |frames| + 1
    && forall t :: 0 <= t < |frames| ==> RepairStep(frames[t], cursors[t], cursors[t + 1], cap)
  }

  /** The frame names the cell in `slot`. */
  ghost predicate Emits(r: RepairInput, cursor: nat, slot: nat) {
    cursor < |r.gens| && slot in Slots(FrameOf(r, cursor))
  }

  /** A live slot the sweep gets past is in the frame. */
  lemma PassedIsNamed(r: RepairInput, cursor: nat, slot: nat)
    requires cursor < |r.gens| && slot < |r.gens| && Odd(r.gens[slot])
    requires Ahead(cursor, slot, |r.gens|) < Looked(r.gens, cursor, |r.gens|, r.dirty, r.max)
    ensures slot in Slots(Sweep(r.gens, cursor, |r.gens|, r.dirty, r.max))
  {
    hide Sweep, Slots, Looked;
    LookedAt(r.gens, cursor, |r.gens|, r.dirty, r.max);
    var n := Looked(r.gens, cursor, |r.gens|, r.dirty, r.max);
    SweepComplete(r.gens, cursor, n, r.dirty, r.max, Ahead(cursor, slot, |r.gens|));
  }

  /** A slot the sweep does not reach is that much closer next time. */
  lemma AheadShrinks(cursor: nat, slot: nat, n: nat, cap: nat)
    requires cursor < cap && slot < cap && n <= Ahead(cursor, slot, cap)
    ensures Ahead(Rotate(cursor, n, cap), slot, cap) == Ahead(cursor, slot, cap) - n
  {
  }

  /** How many of the frames from `start` on leave room. */
  function RoomyFrames(frames: seq<RepairInput>, start: nat): nat
    decreases |frames| - start
  {
    if start >= |frames| then 0 else (if frames[start].Roomy() then 1 else 0) + RoomyFrames(frames, start + 1)
  }

  /** A cell that stays live is named within as many frames with room as its distance from the cursor; full
      frames in between do not move the cursor. */
  lemma {:induction false} RepairReaches(frames: seq<RepairInput>, cursors: seq<nat>, cap: nat, slot: nat, start: nat)
    requires RepairRun(frames, cursors, cap) && slot < cap && start < |frames| && cursors[start] < cap
    requires Ahead(cursors[start], slot, cap) < RoomyFrames(frames, start)
    requires forall t :: start <= t < |frames| ==> frames[t].Holds(slot)
    ensures exists t :: start <= t < |frames| && Emits(frames[t], cursors[t], slot)
    decreases |frames| - start
  {
    hide Emits, Sweep, Slots;
    var r, cursor := frames[start], cursors[start];
    assert RepairStep(r, cursor, cursors[start + 1], cap);
    var n := Looked(r.gens, cursor, cap, r.dirty, r.max);
    if !r.Roomy() {
      FullSweep(r.gens, cursor, r.dirty, r.max);
      RepairReaches(frames, cursors, cap, slot, start + 1);
    } else if Ahead(cursor, slot, cap) < n {
      PassedIsNamed(r, cursor, slot);
      NamedIsEmitted(r, cursor, slot);
      assert Emits(frames[start], cursors[start], slot);
    } else {
      LookedAt(r.gens, cursor, cap, r.dirty, r.max);
      AheadShrinks(cursor, slot, n, cap);
      RepairReaches(frames, cursors, cap, slot, start + 1);
    }
  }

  lemma NamedIsEmitted(r: RepairInput, cursor: nat, slot: nat)
    requires cursor < |r.gens| && slot in Slots(Sweep(r.gens, cursor, |r.gens|, r.dirty, r.max))
    ensures Emits(r, cursor, slot)
  {
  }

  /** Anti-entropy: over any series of frames of which `cap` leave room, whatever the dirty lanes, the bounds
      and the other cells do in between, every cell live throughout is named. */
  lemma RepairCoverage(frames: seq<RepairInput>, cursors: seq<nat>, cap: nat, slot: nat)
    requires RepairRun(frames, cursors, cap) && slot < cap && RoomyFrames(frames, 0) >= cap
    requires forall t :: 0 <= t < |frames| ==> frames[t].Holds(slot)
    ensures exists t :: 0 <= t < |frames| && Emits(frames[t], cursors[t], slot)
  {
    assert RepairStep(frames[0], cursors[0], cursors[1], cap);
    RepairReaches(frames, cursors, cap, slot, 0);
  }

  /** How many of the next `k` slots are live. */
  ghost function LiveAhead(gens: seq<nat>, cursor: nat, k: nat): (n: nat)
    requires cursor < |gens| && k <= |gens|
    ensures n <= k
  {
    if k == 0 then 0
    else LiveAhead(gens, cursor, k - 1) + if Odd(gens[Rotate(cursor, k - 1, |gens|)]) then 1 else 0
  }

  ghost predicate WithinRotation(out: seq<CellHandle>, cursor: nat, k: nat, cap: nat)
    requires cursor < cap
  {
    forall h :: h in out ==> h.index < cap && Ahead(cursor, h.index, cap) < k
  }

  /** With nothing dirty the sweep takes every live slot it passes. */
  lemma {:induction false} SweepCounts(gens: seq<nat>, cursor: nat, k: nat, max: nat)
    requires cursor < |gens| && k <= |gens|
    ensures |Sweep(gens, cursor, k, [], max)| == Min(max, LiveAhead(gens, cursor, k))
    ensures WithinRotation(Sweep(gens, cursor, k, [], max), cursor, k, |gens|)
  {
    if k > 0 {
      SweepCounts(gens, cursor, k - 1, max);
    }
  }

  lemma {:induction false} LiveAheadSplits(gens: seq<nat>, cursor: nat, n: nat, k: nat)
    requires cursor < |gens| && n <= k <= |gens|
    ensures LiveAhead(gens, cursor, k) == LiveAhead(gens, cursor, n) + LiveAhead(gens, Rotate(cursor, n, |gens|), k - n)
  {
    if n < k {
      LiveAheadSplits(gens, cursor, n, k - 1);
      assert Rotate(cursor, k - 1, |gens|) == Rotate(Rotate(cursor, n, |gens|), k - 1 - n, |gens|);
    }
  }

  lemma {:induction false} LiveAheadGrows(gens: seq<nat>, cursor: nat, j: nat, k: nat)
    requires cursor < |gens| && j <= k <= |gens|
    ensures LiveAhead(gens, cursor, j) <= LiveAhead(gens, cursor, k)
  {
    if j < k {
      LiveAheadGrows(gens, cursor, j, k - 1);
    }
  }

  /** How many live cells come before `slot` in cursor order. */
  ghost function Rank(gens: seq<nat>, cursor: nat, slot: nat): nat
    requires cursor < |gens| && slot < |gens|
  {
    LiveAhead(gens, cursor, Ahead(cursor, slot, |gens|))
  }

  /** A quiet frame of `max` cells names the `max` live cells nearest the cursor; every other live
      cell moves up by exactly `max`. */
  lemma QuietFrame(gens: seq<nat>, cursor: nat, slot: nat, max: nat)
    requires cursor < |gens| && slot < |gens| && Odd(gens[slot]) && max > 0
    ensures
      var next := Rotate(cursor, Looked(gens, cursor, |gens|, [], max), |gens|);
      if Rank(gens, cursor, slot) < max
      then slot in Slots(Sweep(gens, cursor, |gens|, [], max))
      else Rank(gens, next, slot) == Rank(gens, cursor, slot) - max
  {
    hide Sweep, Looked, LiveAhead, Slots;
    var cap, d := |gens|, Ahead(cursor, slot, |gens|);
    if Rank(gens, cursor, slot) < max {
      SweepCounts(gens, cursor, d, max);
      SweepComplete(gens, cursor, d + 1, [], max, d);
      SweepGrows(gens, cursor, d + 1, cap, [], max);
      SlotsGrow(Sweep(gens, cursor, d + 1, [], max), Sweep(gens, cursor, cap, [], max));
    } else {
      var n := Looked(gens, cursor, cap, [], max);
      QuietStops(gens, cursor, d, max);
      AheadShrinks(cursor, slot, n, cap);
      LiveAheadSplits(gens, cursor, n, d);
    }
  }

  /** The sweep stops right behind the `max`-th live slot. */
  lemma QuietStops(gens: seq<nat>, cursor: nat, d: nat, max: nat)
    requires cursor < |gens| && d <= |gens| && max > 0 && LiveAhead(gens, cursor, d) >= max
    ensures Looked(gens, cursor, |gens|, [], max) <= d
    ensures LiveAhead(gens, cursor, Looked(gens, cursor, |gens|, [], max)) == max
  {
    hide Sweep, Looked;
    var cap := |gens|;
    var n := Looked(gens, cursor, cap, [], max);
    LookedAt(gens, cursor, cap, [], max);
    SweepCounts(gens, cursor, n - 1, max);
    if n > d {
      LiveAheadGrows(gens, cursor, d, n - 1);
      assert false;
    }
    SweepCounts(gens, cursor, n, max);
    SweepCounts(gens, cursor, cap, max);
    LiveAheadGrows(gens, cursor, d, cap);
  }

  /** Frames over an unchanging set of cells whose dirty lanes are quiet. */
  ghost predicate Quiet(frames: seq<RepairInput>, gens: seq<nat>, max: nat) {
    forall t :: 0 <= t < |frames| ==> frames[t] == RepairInput(gens, [], max)
  }

  lemma OneFrameLess(max: nat, left: nat)
    requires left > 0
    ensures max * left == max * (left - 1) + max && (left == 1 ==> max * left == max)
  {
  }

  lemma {:induction false} QuietReaches(frames: seq<RepairInput>, cursors: seq<nat>, gens: seq<nat>, max: nat,
                                        slot: nat, start: nat)
    requires RepairRun(frames, cursors, |gens|) && Quiet(frames, gens, max) && max > 0
    requires slot < |gens| && Odd(gens[slot]) && start < |frames| && cursors[start] < |gens|
    requires Rank(gens, cursors[start], slot) < max * (|frames| - start)
    ensures exists t :: start <= t < |frames| && Emits(frames[t], cursors[t], slot)
    decreases |frames| - start
  {
    hide Sweep, Looked, LiveAhead, Slots, Rank;
    assert RepairStep(frames[start], cursors[start], cursors[start + 1], |gens|);
    QuietFrame(gens, cursors[start], slot, max);
    OneFrameLess(max, |frames| - start);
    if Rank(gens, cursors[start], slot) < max {
      assert Emits(frames[start], cursors[start], slot);
    } else {
      QuietReaches(frames, cursors, gens, max, slot, start + 1);
    }
  }

  ghost function LiveWithin(gens: seq<nat>, cursor: nat, k: nat): set<nat>
    requires cursor < |gens|
  {
    set i: nat | i < |gens| && Odd(gens[i]) && Ahead(cursor, i, |gens|) < k
  }

  lemma LiveWithinMore(gens: seq<nat>, cursor: nat, k: nat)
    requires cursor < |gens| && k < |gens|
    ensures
      var slot := Rotate(cursor, k, |gens|);
      && slot !in LiveWithin(gens, cursor, k)
      && LiveWithin(gens, cursor, k + 1) == LiveWithin(gens, cursor, k) + if Odd(gens[slot]) then {slot} else {}
  {
  }

  lemma {:induction false} LiveAheadIsLive(gens: seq<nat>, cursor: nat, k: nat)
    requires cursor < |gens| && k <= |gens|
    ensures LiveAhead(gens, cursor, k) == |LiveWithin(gens, cursor, k)|
  {
    if k == 0 {
      assert LiveWithin(gens, cursor, k) == {};
    } else {
      hide LiveWithin;
      LiveAheadIsLive(gens, cursor, k - 1);
      LiveWithinMore(gens, cursor, k - 1);
    }
  }

  /** With `A` cells, nothing dirty and frames of `max` cells, any `ceil(A / max)` successive frames
      name every cell. */
  lemma QuietCoverage(frames: seq<RepairInput>, cursors: seq<nat>, gens: seq<nat>, max: nat, slot: nat)
    requires RepairRun(frames, cursors, |gens|) && Quiet(frames, gens, max) && max > 0
    requires slot in LiveSlots(gens) && |frames| >= (|LiveSlots(gens)| + max - 1) / max
    ensures exists t :: 0 <= t < |frames| && Emits(frames[t], cursors[t], slot)
  {
    var live, cap := |LiveSlots(gens)|, |gens|;
    assert live > 0;
    assert live <= max * |frames| by {
      CeilCovers(live, max, |frames|);
    }
    assert |frames| == 0 ==> max * |frames| == 0;
    assert RepairStep(frames[0], cursors[0], cursors[1], cap);
    var d := Ahead(cursors[0], slot, cap);
    LiveAheadGrows(gens, cursors[0], d + 1, cap);
    LiveAheadIsLive(gens, cursors[0], cap);
    assert LiveSlots(gens) == LiveWithin(gens, cursors[0], cap);
    QuietReaches(frames, cursors, gens, max, slot, 0);
  }

  lemma CeilCovers(a: nat, m: nat, n: nat)
    requires m > 0 && n >= (a + m - 1) / m
    ensures a <= m * n
  {
    var q := (a + m - 1) / m;
    assert a + m - 1 == m * q + (a + m - 1) % m;
    assert m * q <= m * n;
  }
}
