/** How long a generation-stamped handle stays unambiguous (`alloc_slot`, `free_slot`, `resolve`). */
module Handles {
  import opened Base
  import opened Cells
  import opened StoreImage

  /** The generation of a slot after `n` lifecycle steps, each an allocation or a release. */
  function After(g: nat, n: nat): nat {
    if n == 0 then g else Bump(After(g, n - 1))
  }

  lemma {:induction false} AfterCounts(g: nat, n: nat)
    requires g <= U32_MAX
    ensures After(g, n) == (g + n) % 0x1_0000_0000
  {
    if n > 0 {
      AfterCounts(g, n - 1);
    }
  }

  lemma {:induction false} AfterAfter(m: nat, n: nat)
    ensures After(After(0, m), n) == After(0, m + n)
  {
    if n > 0 {
      AfterAfter(m, n - 1);
    }
  }

  /** A generation comes back after `n` steps exactly when `n` is a multiple of 2^32. */
  lemma ComesBack(g: nat, n: nat)
    requires g <= U32_MAX
    ensures After(g, n) == g <==> n % 0x1_0000_0000 == 0
  {
    AfterCounts(g, n);
  }

  /** A slot is live after an odd number of steps from construction. */
  lemma {:induction false} LiveByParity(n: nat)
    ensures After(0, n) <= U32_MAX && (Odd(After(0, n)) <==> n % 2 == 1)
  {
    if n > 0 {
      LiveByParity(n - 1);
      BumpFlips(After(0, n - 1));
    }
  }

  /** Every slot's generation is what its lifecycle steps since construction made it. */
  ghost predicate Stepped(generations: seq<nat>, steps: seq<nat>) {
    && |generations| == |steps|
    && forall i: nat {:trigger After(0, steps[i])} :: i < |steps| ==> generations[i] == After(0, steps[i])
  }

  lemma SteppedStart(zeros: seq<nat>)
    requires forall i: nat :: i < |zeros| ==> zeros[i] == 0
    ensures Stepped(zeros, zeros)
  {
  }

  lemma SteppedOn(generations: seq<nat>, steps: seq<nat>, i: nat)
    requires Stepped(generations, steps) && i < |steps|
    ensures Stepped(generations[i := Bump(generations[i])], steps[i := steps[i] + 1])
  {
    assert generations[i] == After(0, steps[i]);
    var next := steps[i := steps[i] + 1];
    forall j: nat | j < |next| ensures generations[i := Bump(generations[i])][j] == After(0, next[j]) {
      assert j != i ==> generations[j] == After(0, steps[j]);
    }
  }

  /** From one state of a store to a later one: steps only grow, a cell that stays keeps its slot and its
      life, and the slot of a cell that went has moved on. */
  ghost predicate Lifetimes(was: map<CellId, nat>, before: seq<nat>, now: map<CellId, nat>, after: seq<nat>) {
    && |before| == |after| && (forall i: nat :: i < |before| ==> before[i] <= after[i])
    && forall id :: id in was ==>
         && was[id] < |before|
         && if id in now then now[id] == was[id] && after[was[id]] == before[was[id]]
            else after[was[id]] > before[was[id]]
  }

  /** Steps that add cells and drop none. */
  ghost predicate OnlyBirths(was: map<CellId, nat>, before: seq<nat>, now: map<CellId, nat>, after: seq<nat>) {
    Lifetimes(was, before, now, after) && forall id :: id in was ==> id in now
  }

  lemma SameLives(slotOf: map<CellId, nat>, steps: seq<nat>)
    requires forall id :: id in slotOf ==> slotOf[id] < |steps|
    ensures OnlyBirths(slotOf, steps, slotOf, steps)
  {
  }

  lemma BornLife(slotOf: map<CellId, nat>, steps: seq<nat>, id: CellId, slot: nat)
    requires id !in slotOf && slot < |steps| && forall x :: x in slotOf ==> slotOf[x] < |steps| && slotOf[x] != slot
    ensures OnlyBirths(slotOf, steps, slotOf[id := slot], steps[slot := steps[slot] + 1])
  {
  }

  lemma BirthsThrough(was: map<CellId, nat>, s0: seq<nat>, mid: map<CellId, nat>, s1: seq<nat>, now: map<CellId, nat>,
                      s2: seq<nat>)
    requires OnlyBirths(was, s0, mid, s1) && OnlyBirths(mid, s1, now, s2)
    ensures OnlyBirths(was, s0, now, s2)
  {
    LivesThrough(was, s0, mid, s1, now, s2);
  }

  lemma DiedLife(slotOf: map<CellId, nat>, steps: seq<nat>, id: CellId)
    requires id in slotOf && forall x :: x in slotOf ==> slotOf[x] < |steps| && (x != id ==> slotOf[x] != slotOf[id])
    ensures Lifetimes(slotOf, steps, slotOf - {id}, steps[slotOf[id] := steps[slotOf[id]] + 1])
  {
  }

  /** Unless a cell went and came back in between. */
  lemma LivesThrough(was: map<CellId, nat>, s0: seq<nat>, mid: map<CellId, nat>, s1: seq<nat>, now: map<CellId, nat>,
                     s2: seq<nat>)
    requires Lifetimes(was, s0, mid, s1) && Lifetimes(mid, s1, now, s2)
    requires forall id :: id in was && id in now ==> id in mid
    ensures Lifetimes(was, s0, now, s2)
  {
    forall id | id in was
      ensures was[id] < |s0|
      ensures if id in now then now[id] == was[id] && s2[was[id]] == s0[was[id]] else s2[was[id]] > s0[was[id]]
    {
      assert s1[was[id]] <= s2[was[id]];
    }
  }

  /** Over any number of calls: steps only grow, and a slot with no step since then still holds its cell. */
  ghost predicate OneLife(was: map<CellId, nat>, before: seq<nat>, now: map<CellId, nat>, after: seq<nat>) {
    && |before| == |after| && (forall i: nat :: i < |before| ==> before[i] <= after[i])
    && (forall id :: id in was ==> was[id] < |before|)
    && (forall id :: id in was && after[was[id]] == before[was[id]] ==> id in now && now[id] == was[id])
  }

  lemma OneCall(was: map<CellId, nat>, before: seq<nat>, now: map<CellId, nat>, after: seq<nat>)
    requires Lifetimes(was, before, now, after)
    ensures OneLife(was, before, now, after)
  {
  }

  lemma OneLifeThrough(was: map<CellId, nat>, s0: seq<nat>, mid: map<CellId, nat>, s1: seq<nat>, now: map<CellId, nat>,
                       s2: seq<nat>)
    requires OneLife(was, s0, mid, s1) && OneLife(mid, s1, now, s2)
    ensures OneLife(was, s0, now, s2)
  {
    forall id | id in was
      ensures was[id] < |s0| && (s2[was[id]] == s0[was[id]] ==> id in now && now[id] == was[id])
    {
      assert s0[was[id]] <= s1[was[id]] <= s2[was[id]];
    }
  }

  /** The cells and steps of a store from one call to the next. */
  ghost predicate Calls(slotOfs: seq<map<CellId, nat>>, steps: seq<seq<nat>>) {
    && 0 < |slotOfs| == |steps|
    && forall i :: 0 <= i < |slotOfs| - 1 ==> Lifetimes(slotOfs[i], steps[i], slotOfs[i + 1], steps[i + 1])
  }

  /** Any number of calls, each of which ensures `Lifetimes`. */
  lemma {:induction false} ManyCalls(slotOfs: seq<map<CellId, nat>>, steps: seq<seq<nat>>, n: nat)
    requires Calls(slotOfs, steps) && n < |slotOfs| && forall id :: id in slotOfs[0] ==> slotOfs[0][id] < |steps[0]|
    ensures OneLife(slotOfs[0], steps[0], slotOfs[n], steps[n])
  {
    if n > 0 {
      hide Lifetimes, OneLife;
      ManyCalls(slotOfs, steps, n - 1);
      OneCall(slotOfs[n - 1], steps[n - 1], slotOfs[n], steps[n]);
      OneLifeThrough(slotOfs[0], steps[0], slotOfs[n - 1], steps[n - 1], slotOfs[n], steps[n]);
    }
  }
}
