/** What a sweep over all slots (`expire`) leaves behind: cells, rules, slot lives and origins. */
module Sweeping {
  import opened Base
  import opened Cells
  import opened Dictionary
  import opened PeerFrontier
  import opened StoreImage
  import opened Counters
  import opened Expiry
  import opened Handles

  /** What the store keeps per origin: interned descriptors, sequence counters and peers' watermarks. */
  datatype Origins = Origins(free: seq<nat>, nodes: seq<NodeDescriptor>, sequences: seq<nat>, marks: Marks)

  /** An origin still interned was interned before, and nothing kept for it has changed. */
  ghost predicate OriginsKept(was: Origins, now: Origins) {
    && |now.nodes| == |was.nodes| && |now.sequences| == |was.sequences| && |now.marks| == |was.marks|
    && (forall n: nat :: n in was.free ==> n in now.free)
    && (forall n: nat :: n < |now.nodes| && n !in now.free ==> now.nodes[n] == was.nodes[n])
    && (forall n: nat :: n < |now.sequences| && n !in now.free ==> now.sequences[n] == was.sequences[n])
    && (forall p: nat :: p < |was.marks| ==> RowKept(was.marks[p], now.marks[p], now.free))
  }

  ghost predicate RowKept(was: seq<(nat, nat)>, now: seq<(nat, nat)>, free: seq<nat>) {
    |now| == |was| && forall n: nat :: n < |was| && n !in free ==> now[n] == was[n]
  }

  lemma OriginsThrough(was: Origins, mid: Origins, now: Origins)
    requires OriginsKept(was, mid) && OriginsKept(mid, now)
    ensures OriginsKept(was, now)
  {
    forall p: nat | p < |was.marks| ensures RowKept(was.marks[p], now.marks[p], now.free) {
      assert RowKept(was.marks[p], mid.marks[p], mid.free) && RowKept(mid.marks[p], now.marks[p], now.free);
    }
  }

  lemma OriginsSelf(o: Origins)
    ensures OriginsKept(o, o)
  {
  }

  /** Releasing one origin touches no other. */
  lemma OriginsDrop(was: Origins, now: Origins, node: nat)
    requires |now.nodes| == |was.nodes| && |now.sequences| == |was.sequences| && SameBut(was.marks, now.marks, node)
    requires node in now.free && (forall n :: n in was.free ==> n in now.free)
    requires forall n: nat :: n < |now.nodes| && n != node ==> now.nodes[n] == was.nodes[n]
    requires forall n: nat :: n < |now.sequences| && n != node ==> now.sequences[n] == was.sequences[n]
    ensures OriginsKept(was, now)
  {
    forall p: nat | p < |was.marks| ensures RowKept(was.marks[p], now.marks[p], now.free) {
      assert SameRowBut(was.marks[p], now.marks[p], node);
    }
  }

  lemma SameMarks(marks: Marks, node: nat)
    ensures SameBut(marks, marks, node)
  {
  }

  /** `bucket + live < current epoch`, for a rule slot both columns cover. */
  predicate Aged(keys: seq<CompactKey>, slot: nat, epochs: seq<nat>, live: seq<nat>) {
    && slot < |keys| && keys[slot].rule < |epochs| && keys[slot].rule < |live|
    && keys[slot].bucket + live[keys[slot].rule] < epochs[keys[slot].rule]
  }

  /** Slots below `s` have been looked at: `now` is what is left of `was`, and `ids` is what went. */
  ghost predicate Swept(was: map<CellId, nat>, keys: seq<CompactKey>, s: nat, epochs: seq<nat>, live: seq<nat>,
                        now: map<CellId, nat>, ids: seq<CellId>)
  {
    && (forall id :: id in now <==> id in was && !(was[id] < s && Aged(keys, was[id], epochs, live)))
    && (forall id :: id in now ==> now[id] == was[id])
    && Distinct(ids) && (forall id :: id in ids <==> id in was && was[id] < s && Aged(keys, was[id], epochs, live))
  }

  lemma SweptStart(was: map<CellId, nat>, keys: seq<CompactKey>, epochs: seq<nat>, live: seq<nat>)
    ensures Swept(was, keys, 0, epochs, live, was, [])
  {
  }

  lemma SweptKeep(was: map<CellId, nat>, keys: seq<CompactKey>, s: nat, epochs: seq<nat>, live: seq<nat>,
                  now: map<CellId, nat>, ids: seq<CellId>)
    requires Swept(was, keys, s, epochs, live, now, ids)
    requires !Aged(keys, s, epochs, live) || forall id :: id in was ==> was[id] != s
    ensures Swept(was, keys, s + 1, epochs, live, now, ids)
  {
  }

  lemma SweptEvict(was: map<CellId, nat>, keys: seq<CompactKey>, s: nat, epochs: seq<nat>, live: seq<nat>,
                   now: map<CellId, nat>, ids: seq<CellId>, id: CellId)
    requires Swept(was, keys, s, epochs, live, now, ids) && Aged(keys, s, epochs, live)
    requires id in now && now[id] == s && forall a, b :: a in was && b in was && was[a] == was[b] ==> a == b
    ensures Swept(was, keys, s + 1, epochs, live, now - {id}, ids + [id]) && id in was && was[id] == s
  {
  }

  lemma SweptEnd(was: map<CellId, nat>, keys: seq<CompactKey>, s: nat, epochs: seq<nat>, live: seq<nat>,
                 now: map<CellId, nat>, ids: seq<CellId>)
    requires Swept(was, keys, s, epochs, live, now, ids) && forall id :: id in was ==> was[id] < s
    ensures now == map id | id in was && !Aged(keys, was[id], epochs, live) :: was[id]
    ensures Distinct(ids) && forall id :: id in ids <==> id in was && Aged(keys, was[id], epochs, live)
  {
  }

  /** Rules may leave; those that stay are as they were. */
  ghost predicate Narrowed(now: map<nat, RuleDescriptor>, was: map<nat, RuleDescriptor>) {
    now.Keys <= was.Keys && forall fp :: fp in now ==> now[fp] == was[fp]
  }

  lemma NarrowedSelf(m: map<nat, RuleDescriptor>)
    ensures Narrowed(m, m)
  {
  }

  /** A rule that stays is enforced if and only if it was. */
  lemma NarrowedLocal(now: map<nat, RuleDescriptor>, was: map<nat, RuleDescriptor>, fp: nat)
    requires Narrowed(now, was) && fp in now
    ensures fp in Enforced(now) <==> fp in Enforced(was)
  {
  }

  lemma NarrowedFurther(now: map<nat, RuleDescriptor>, mid: map<nat, RuleDescriptor>, was: map<nat, RuleDescriptor>)
    requires Narrowed(now, mid) && Narrowed(mid, was)
    ensures Narrowed(now, was)
  {
  }

  /** Slots from `s` on have not been touched. */
  ghost predicate AsBefore(now: seq<nat>, was: seq<nat>, s: nat) {
    |now| == |was| && forall i: nat :: s <= i < |was| ==> now[i] == was[i]
  }

  lemma AsBeforeOn(now: seq<nat>, was: seq<nat>, s: nat, x: nat)
    requires AsBefore(now, was, s) && s < |was|
    ensures now[s] == was[s] && AsBefore(now, was, s + 1) && AsBefore(now[s := x], was, s + 1)
  {
  }

  /** Each row carries the handle its cell had and the time it last changed. */
  ghost predicate TellOrigin(rows: seq<CellExpiration>, ids: seq<CellId>, was: map<CellId, nat>, generations: seq<nat>,
                             times: seq<nat>) {
    |rows| == |ids| && forall k :: 0 <= k < |ids| ==> Originates(rows[k], ids[k], was, generations, times)
  }

  ghost predicate Originates(row: CellExpiration, id: CellId, was: map<CellId, nat>, generations: seq<nat>,
                             times: seq<nat>) {
    && id in was && was[id] < |generations| && was[id] < |times|
    && row.handle == CellHandle(was[id], generations[was[id]]) && row.lastUpdateMillis == times[was[id]]
  }

  lemma TellOriginNone(was: map<CellId, nat>, generations: seq<nat>, times: seq<nat>)
    ensures TellOrigin([], [], was, generations, times)
  {
  }

  lemma TellOriginMore(rows: seq<CellExpiration>, ids: seq<CellId>, row: CellExpiration, id: CellId,
                       was: map<CellId, nat>, generations: seq<nat>, times: seq<nat>)
    requires TellOrigin(rows, ids, was, generations, times) && Originates(row, id, was, generations, times)
    ensures TellOrigin(rows + [row], ids + [id], was, generations, times)
  {
  }

  ghost function CellsOf(slotOf: map<CellId, nat>, counts: seq<nat>): Counts {
    map id | id in slotOf && slotOf[id] < |counts| :: counts[slotOf[id]]
  }

  /** Everything about the store a sweep can change. */
  datatype Snap = Snap(
    slotOf: map<CellId, nat>, known: map<nat, RuleDescriptor>, pinned: map<nat, PinnedRule>,
    generations: seq<nat>, steps: seq<nat>, origins: Origins)

  /** The columns a sweep only reads. */
  datatype Input = Input(keys: seq<CompactKey>, counts: seq<nat>, times: seq<nat>, epochs: seq<nat>, live: seq<nat>)

  /** One cell gone, its slot one step on, pinned rules and every origin still interned as before. */
  ghost predicate Evicted(was: Snap, now: Snap, slot: nat, id: CellId) {
    && id in was.slotOf && was.slotOf[id] == slot && now.slotOf == was.slotOf - {id}
    && Narrowed(now.known, was.known) && now.pinned == was.pinned
    && slot < |was.generations| && now.generations == was.generations[slot := Bump(was.generations[slot])]
    && slot < |was.steps| && now.steps == was.steps[slot := was.steps[slot] + 1]
    && OriginsKept(was.origins, now.origins)
  }

  /** The row of a cell about to go. */
  ghost predicate RowTells(row: CellExpiration, id: CellId, slot: nat, counts: seq<nat>, times: seq<nat>, was: Snap) {
    && slot < |counts| && slot < |times| && slot < |was.generations|
    && row.key == id.Identity() && row.lastCount == counts[slot] && row.lastUpdateMillis == times[slot]
    && row.handle == CellHandle(slot, was.generations[slot])
    && id.fingerprint in was.known && row.appliesLocally == (id.fingerprint in Enforced(was.known))
  }

  /** Slots below `s` have been swept. */
  ghost predicate SweptTo(w: Snap, now: Snap, c: Input, s: nat, rows: seq<CellExpiration>, ids: seq<CellId>) {
    && Swept(w.slotOf, c.keys, s, c.epochs, c.live, now.slotOf, ids)
    && Narrowed(now.known, w.known) && now.pinned == w.pinned && AsBefore(now.generations, w.generations, s)
    && Lifetimes(w.slotOf, w.steps, now.slotOf, now.steps) && OriginsKept(w.origins, now.origins)
    && TellAll(rows, ids, CellsOf(w.slotOf, c.counts), Enforced(w.known))
    && TellOrigin(rows, ids, w.slotOf, w.generations, c.times)
  }

  /** Every cell has a slot of its own inside the columns. */
  ghost predicate OwnSlots(w: Snap, c: Input) {
    && |w.generations| == |w.steps| == |c.counts| == |c.times| == |c.keys|
    && (forall id :: id in w.slotOf ==> w.slotOf[id] < |w.steps| && Odd(w.generations[w.slotOf[id]]))
    && (forall a, b :: a in w.slotOf && b in w.slotOf && w.slotOf[a] == w.slotOf[b] ==> a == b)
  }

  lemma SweptToStart(w: Snap, c: Input)
    requires OwnSlots(w, c)
    ensures SweptTo(w, w, c, 0, [], [])
  {
    SweptStart(w.slotOf, c.keys, c.epochs, c.live);
    NarrowedSelf(w.known);
    SameLives(w.slotOf, w.steps);
    OriginsSelf(w.origins);
    TellNone(CellsOf(w.slotOf, c.counts), Enforced(w.known));
    TellOriginNone(w.slotOf, w.generations, c.times);
  }

  lemma SweptToKeep(w: Snap, now: Snap, c: Input, s: nat, rows: seq<CellExpiration>, ids: seq<CellId>)
    requires SweptTo(w, now, c, s, rows, ids) && OwnSlots(w, c) && s < |w.generations|
    requires s < |now.generations| && !(Odd(now.generations[s]) && Aged(c.keys, s, c.epochs, c.live))
    ensures SweptTo(w, now, c, s + 1, rows, ids)
  {
    hide Swept, Narrowed, Lifetimes, OriginsKept, TellAll, TellOrigin, Aged;
    SweptKeep(w.slotOf, c.keys, s, c.epochs, c.live, now.slotOf, ids);
  }

  lemma SweptToEvict(w: Snap, mid: Snap, now: Snap, c: Input, s: nat, rows: seq<CellExpiration>, ids: seq<CellId>,
                     row: CellExpiration, id: CellId)
    requires SweptTo(w, mid, c, s, rows, ids) && OwnSlots(w, c) && s < |w.generations|
    requires Aged(c.keys, s, c.epochs, c.live) && Evicted(mid, now, s, id)
    requires RowTells(row, id, s, c.counts, c.times, mid)
    ensures SweptTo(w, now, c, s + 1, rows + [row], ids + [id])
  {
    hide Swept, Narrowed, OriginsKept, TellAll, TellOrigin, Aged, Lifetimes, AsBefore;
    var cells, local := CellsOf(w.slotOf, c.counts), Enforced(w.known);
    EvictedLives(w, mid, now, c, s, rows, ids, id);
    SweptEvict(w.slotOf, c.keys, s, c.epochs, c.live, mid.slotOf, ids, id);
    NarrowedFurther(now.known, mid.known, w.known);
    NarrowedLocal(mid.known, w.known, id.fingerprint);
    AsBeforeOn(mid.generations, w.generations, s, Bump(mid.generations[s]));
    OriginsThrough(w.origins, mid.origins, now.origins);
    TellMore(rows, ids, row, id, cells, local);
    TellOriginMore(rows, ids, row, id, w.slotOf, w.generations, c.times);
  }

  lemma SweptToEnd(w: Snap, now: Snap, c: Input, rows: seq<CellExpiration>, ids: seq<CellId>)
    requires SweptTo(w, now, c, |w.steps|, rows, ids) && OwnSlots(w, c)
    ensures now.slotOf == map id | id in w.slotOf && !Aged(c.keys, w.slotOf[id], c.epochs, c.live) :: w.slotOf[id]
    ensures Distinct(ids) && forall id :: id in ids <==> id in w.slotOf && Aged(c.keys, w.slotOf[id], c.epochs, c.live)
    ensures Narrowed(now.known, w.known) && now.pinned == w.pinned
    ensures Lifetimes(w.slotOf, w.steps, now.slotOf, now.steps) && OriginsKept(w.origins, now.origins)
    ensures TellAll(rows, ids, CellsOf(w.slotOf, c.counts), Enforced(w.known))
    ensures TellOrigin(rows, ids, w.slotOf, w.generations, c.times)
  {
    hide Narrowed, OriginsKept, TellAll, TellOrigin, Aged, Lifetimes, AsBefore;
    SweptEnd(w.slotOf, c.keys, |w.steps|, c.epochs, c.live, now.slotOf, ids);
  }

  lemma EvictedLives(w: Snap, mid: Snap, now: Snap, c: Input, s: nat, rows: seq<CellExpiration>, ids: seq<CellId>,
                     id: CellId)
    requires SweptTo(w, mid, c, s, rows, ids) && OwnSlots(w, c) && Evicted(mid, now, s, id)
    ensures Lifetimes(w.slotOf, w.steps, now.slotOf, now.steps)
  {
    hide Narrowed, OriginsKept, TellAll, TellOrigin, Aged, AsBefore;
    DiedLife(mid.slotOf, mid.steps, id);
    LivesThrough(w.slotOf, w.steps, mid.slotOf, mid.steps, now.slotOf, now.steps);
  }
}
