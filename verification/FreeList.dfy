/** Intrusive singly linked freelists: `next[s]` is the free slot after `s`, `nil` ends the list.
    The cell store (`free_next`, `free_head`) and both dictionaries use the same shape. */
module FreeList {
  import opened Base

  ghost predicate LinkAt(next: seq<nat>, free: seq<nat>, nil: nat, i: nat)
    requires i < |free| && free[i] < |next|
  {
    next[free[i]] == if i + 1 < |free| then free[i + 1] else nil
  }

  /** Starting at `head` the links spell out exactly `free`, without repetition, and then stop. */
  ghost predicate IsFreeList(head: nat, next: seq<nat>, free: seq<nat>, nil: nat) {
    && |next| <= nil
    && Distinct(free)
    && (forall i :: 0 <= i < |free| ==> free[i] < |next|)
    && head == (if free == [] then nil else free[0])
    && (forall i: nat {:trigger LinkAt(next, free, nil, i)} :: i < |free| ==> LinkAt(next, free, nil, i))
  }

  /** The slot reached after `k` links, or `nil` once the list has ended. */
  ghost function Follow(head: nat, next: seq<nat>, nil: nat, k: nat): nat
    decreases k
  {
    if k == 0 || head >= |next| then head else Follow(next[head], next, nil, k - 1)
  }

  /** The list is acyclic: it visits each free slot once, in order, and has ended after `|free|` links. */
  lemma {:induction false} FollowVisits(head: nat, next: seq<nat>, free: seq<nat>, nil: nat, k: nat)
    requires IsFreeList(head, next, free, nil)
    ensures Follow(head, next, nil, k) == if k < |free| then free[k] else nil
    decreases k
  {
    if k > 0 && free != [] {
      Pop(head, next, free, nil, next[head]);
      assert next[head := next[head]] == next;
      FollowVisits(next[head], next, free[1..], nil, k - 1);
    }
  }

  /** `free_head = free_next[slot]`, whatever is then written into the popped link. */
  lemma Pop(head: nat, next: seq<nat>, free: seq<nat>, nil: nat, link: nat)
    requires IsFreeList(head, next, free, nil) && free != []
    ensures IsFreeList(next[head], next[head := link], free[1..], nil)
    ensures head == free[0] && head < |next| && head !in free[1..]
  {
    var rest := free[1..];
    var next' := next[head := link];
    assert LinkAt(next, free, nil, 0);
    forall i: nat | i < |rest| ensures LinkAt(next', rest, nil, i) {
      assert LinkAt(next, free, nil, i + 1);
    }
  }

  /** `free_next[slot] = free_head; free_head = slot`. */
  lemma Push(head: nat, next: seq<nat>, free: seq<nat>, nil: nat, slot: nat)
    requires IsFreeList(head, next, free, nil)
    requires slot < |next| && slot !in free
    ensures IsFreeList(slot, next[slot := head], [slot] + free, nil)
  {
    var more := [slot] + free;
    var next' := next[slot := head];
    forall i: nat | i < |more| ensures LinkAt(next', more, nil, i) {
      if i > 0 {
        assert LinkAt(next, free, nil, i - 1);
      }
    }
  }

  lemma HeadTells(head: nat, next: seq<nat>, free: seq<nat>, nil: nat)
    requires IsFreeList(head, next, free, nil)
    ensures head == nil <==> free == []
    ensures head != nil ==> head == free[0] && head < |next|
  {
  }

  /** The chain 0 -> 1 -> ... -> cap-1 built at construction. */
  function Chain(cap: nat, nil: nat): (next: seq<nat>)
    ensures |next| == cap
  {
    seq(cap, i requires 0 <= i < cap => if i + 1 < cap then i + 1 else nil)
  }

  lemma ChainIsFreeList(cap: nat, nil: nat)
    requires 0 < cap <= nil
    ensures IsFreeList(0, Chain(cap, nil), seq(cap, i => i), nil)
  {
  }
}
