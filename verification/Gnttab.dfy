/** gnttab.c: the free list of grant references threaded through an array. */
module Gnttab {
  import opened Seqs

  const RESERVED: nat := 8
  /** Four frames of eight-byte entries. */
  const ENTRIES: nat := 2048

  ghost function NextOf(free: seq<nat>, i: nat): nat {
    if i < |free| then free[i] else 0
  }

  /** gnttab_list links the free references, starting from entry 0 and ending in 0: no reference twice,
      none reserved, no cycle. */
  ghost predicate Chain(list: seq<nat>, free: seq<nat>) {
    && |list| == ENTRIES && Distinct(free) && list[0] == NextOf(free, 0)
    && forall i :: 0 <= i < |free| ==> RESERVED <= free[i] < ENTRIES && list[free[i]] == NextOf(free, i + 1)
  }

  lemma PushChain(list: seq<nat>, free: seq<nat>, r: nat)
    requires Chain(list, free) && RESERVED <= r < ENTRIES && r !in free
    ensures Chain(list[r := list[0]][0 := r], [r] + free)
  {
    var list', free' := list[r := list[0]][0 := r], [r] + free;
    forall i | 0 <= i < |free'|
      ensures RESERVED <= free'[i] < ENTRIES && list'[free'[i]] == NextOf(free', i + 1)
    {
      if i > 0 {
        assert free'[i] == free[i - 1] && free[i - 1] in free;
      }
    }
  }

  lemma PopChain(list: seq<nat>, free: seq<nat>)
    requires Chain(list, free) && free != []
    ensures RESERVED <= list[0] < ENTRIES && list[0] == free[0] && Chain(list[0 := list[list[0]]], free[1..])
    ensures list[0] !in free[1..]
  {
    var list', free' := list[0 := list[list[0]]], free[1..];
    forall i | 0 <= i < |free'|
      ensures RESERVED <= free'[i] < ENTRIES && list'[free'[i]] == NextOf(free', i + 1)
    {
      assert free'[i] == free[i + 1];
    }
  }

  /** The references below i that are not reserved, and no others. */
  ghost predicate Covers(free: seq<nat>, i: nat) {
    forall r :: r in free <==> RESERVED <= r < i
  }

  lemma NoneCovered()
    ensures Covers([], RESERVED)
  {}

  lemma CoversNext(free: seq<nat>, i: nat)
    requires Covers(free, i) && i >= RESERVED
    ensures i !in free && Covers([i] + free, i + 1)
  {}

  class FreeList {
    const list: array<nat>
    var sem: nat
    ghost var free: seq<nat>

    ghost predicate Valid()
      reads this, list
    {
      Chain(list[..], free) && sem == |free|
    }

    /** init_gnttab: every reference that is not reserved is put on the list. */
    constructor ()
      ensures Valid() && fresh(list) && Covers(free, ENTRIES)
    {
      list := new nat[ENTRIES](i => 0);
      sem, free := 0, [];
      new;
      var i := RESERVED;
      hide Covers;
      assert Chain(list[..], free);
      NoneCovered();
      hide Chain;
      while i < ENTRIES
        invariant RESERVED <= i <= ENTRIES && Valid() && fresh(list) && Covers(free, i)
      {
        CoversNext(free, i);
        PutFreeEntry(i);
        i := i + 1;
      }
    }

    /** put_free_entry, of a reference that is not on the list. */
    method PutFreeEntry(r: nat)
      requires Valid() && RESERVED <= r < ENTRIES && r !in free
      modifies this, list
      ensures Valid() && free == [r] + old(free)
    {
      PushChain(list[..], free, r);
      list[r] := list[0];
      list[0] := r;
      free := [r] + free;
      sem := sem + 1;
    }

    /** get_free_entry, once down(&gnttab_sem) has not blocked. */
    method GetFreeEntry() returns (r: nat)
      requires Valid() && sem > 0
      modifies this, list
      ensures Valid() && RESERVED <= r < ENTRIES && old(free) == [r] + free && r !in free
    {
      sem := sem - 1;
      PopChain(list[..], free);
      r := list[0];
      list[0] := list[r];
      free := free[1..];
    }
  }
}
