/** The doubly linked list of cache slots, linked by slot number; -1 ends it. */
module LruList {
  import opened Seqs

  ghost function LinkAt(order: seq<nat>, i: int): int {
    if 0 <= i < |order| then order[i] else -1
  }

  ghost predicate LinkOk(order: seq<nat>, next: seq<int>, prev: seq<int>, i: nat)
    requires i < |order|
  {
    && order[i] < |next| == |prev|
    && next[order[i]] == LinkAt(order, i + 1) && prev[order[i]] == LinkAt(order, i - 1)
  }

  /** Each slot of `order` points at its neighbours in it. */
  ghost predicate Links(order: seq<nat>, next: seq<int>, prev: seq<int>) {
    Distinct(order) && |next| == |prev| && forall i :: 0 <= i < |order| ==> LinkOk(order, next, prev, i)
  }

  /** `order` lists every slot once, most recently used first, and the links agree with it. */
  ghost predicate Linked(order: seq<nat>, next: seq<int>, prev: seq<int>, head: int, tail: int) {
    && 1 <= |order| == |next| && Links(order, next, prev)
    && (forall s :: 0 <= s < |order| ==> s in order)
    && head == order[0] && tail == order[|order| - 1]
  }

  function Index(order: seq<nat>, slot: nat): (i: nat)
    requires slot in order
    ensures i < |order| && order[i] == slot
  {
    if order[0] == slot then 0 else 1 + Index(order[1..], slot)
  }

  function Without(order: seq<nat>, slot: nat): (r: seq<nat>)
    requires slot in order
    ensures |r| == |order| - 1
    ensures forall s :: s in r ==> s in order
  {
    order[..Index(order, slot)] + order[Index(order, slot) + 1..]
  }

  /** Most recently used. */
  function ToFront(order: seq<nat>, slot: nat): (r: seq<nat>)
    requires slot in order
    ensures |r| == |order|
  {
    [slot] + Without(order, slot)
  }

  /** First to be reused. */
  function ToBack(order: seq<nat>, slot: nat): (r: seq<nat>)
    requires slot in order
    ensures |r| == |order|
  {
    Without(order, slot) + [slot]
  }

  /** Moving a slot loses none. */
  lemma MovedCovers(order: seq<nat>, slot: nat, s: nat)
    requires slot in order && s in order
    ensures s in ToFront(order, slot) && s in ToBack(order, slot)
  {
    var i, j := Index(order, slot), Index(order, s);
    var w := Without(order, slot);
    if j < i {
      assert w[j] == s;
    } else if j > i {
      assert w[j - 1] == s;
    }
  }

  lemma WithoutDistinct(order: seq<nat>, slot: nat)
    requires Distinct(order) && slot in order
    ensures Distinct(Without(order, slot)) && slot !in Without(order, slot)
    ensures forall k :: 0 <= k < |order| - 1 ==>
            Without(order, slot)[k] == order[if k < Index(order, slot) then k else k + 1]
  {
    hide Index;
  }

  lemma UnlinkAt(order: seq<nat>, next: seq<int>, prev: seq<int>, slot: nat, next': seq<int>, prev': seq<int>, k: nat)
    requires Links(order, next, prev) && slot in order && k < |order| - 1
    requires Distinct(Without(order, slot))
    requires forall k :: 0 <= k < |order| - 1 ==>
             Without(order, slot)[k] == order[if k < Index(order, slot) then k else k + 1]
    requires var i := Index(order, slot);
      && (if i > 0 then order[i - 1] < |next| && next' == next[order[i - 1] := LinkAt(order, i + 1)] else next' == next)
      && (if i + 1 < |order| then order[i + 1] < |prev| && prev' == prev[order[i + 1] := LinkAt(order, i - 1)]
            else prev' == prev)
    ensures LinkOk(Without(order, slot), next', prev', k)
  {
    hide Index, Without;
    var i, w := Index(order, slot), Without(order, slot);
    var m := if k < i then k else k + 1;
    assert w[k] == order[m] && LinkOk(order, next, prev, m);
    assert LinkAt(w, k + 1) == LinkAt(order, if k + 1 < i then k + 1 else k + 2);
    assert LinkAt(w, k - 1) == LinkAt(order, if k - 1 < i then k - 1 else k);
    assert i > 0 && m != i - 1 ==> order[m] != order[i - 1];
    assert i + 1 < |order| && m != i + 1 ==> order[m] != order[i + 1];
  }

  /** Taking a slot out: its neighbours are linked to each other. */
  lemma Unlink(order: seq<nat>, next: seq<int>, prev: seq<int>, slot: nat, next': seq<int>, prev': seq<int>)
    requires Links(order, next, prev) && slot in order
    requires var i := Index(order, slot);
      && (if i > 0 then order[i - 1] < |next| && next' == next[order[i - 1] := LinkAt(order, i + 1)] else next' == next)
      && (if i + 1 < |order| then order[i + 1] < |prev| && prev' == prev[order[i + 1] := LinkAt(order, i - 1)]
            else prev' == prev)
    ensures Links(Without(order, slot), next', prev') && slot !in Without(order, slot)
  {
    hide Index, Without, LinkOk, LinkAt;
    WithoutDistinct(order, slot);
    forall k | 0 <= k < |order| - 1
      ensures LinkOk(Without(order, slot), next', prev', k)
    {
      UnlinkAt(order, next, prev, slot, next', prev', k);
    }
  }

  lemma LinkFront(rest: seq<nat>, next: seq<int>, prev: seq<int>, slot: nat)
    requires Links(rest, next, prev) && rest != [] && slot !in rest && slot < |next|
    ensures rest[0] < |prev| && Links([slot] + rest, next[slot := rest[0]], prev[slot := -1][rest[0] := slot])
  {
    assert LinkOk(rest, next, prev, 0);
    var order, next', prev' := [slot] + rest, next[slot := rest[0]], prev[slot := -1][rest[0] := slot];
    forall i | 0 <= i < |order|
      ensures LinkOk(order, next', prev', i)
    {
      if i > 0 {
        assert LinkOk(rest, next, prev, i - 1) && rest[i - 1] in rest;
        assert i > 1 ==> rest[i - 1] != rest[0];
      }
    }
  }

  lemma LinkBack(rest: seq<nat>, next: seq<int>, prev: seq<int>, slot: nat)
    requires Links(rest, next, prev) && rest != [] && slot !in rest && slot < |next|
    ensures var last := rest[|rest| - 1];
      last < |next| && Links(rest + [slot], next[slot := -1][last := slot], prev[slot := last])
  {
    var last := rest[|rest| - 1];
    assert LinkOk(rest, next, prev, |rest| - 1);
    var order, next', prev' := rest + [slot], next[slot := -1][last := slot], prev[slot := last];
    forall i | 0 <= i < |order|
      ensures LinkOk(order, next', prev', i)
    {
      if i < |rest| {
        assert LinkOk(rest, next, prev, i) && rest[i] in rest;
        assert i < |rest| - 1 ==> rest[i] != last;
      }
    }
  }

  lemma NeighboursOf(order: seq<nat>, next: seq<int>, prev: seq<int>, head: int, tail: int, slot: nat)
    requires Linked(order, next, prev, head, tail) && slot in order
    ensures var i := Index(order, slot);
      && slot < |next| && next[slot] == LinkAt(order, i + 1) && prev[slot] == LinkAt(order, i - 1)
      && (slot == head <==> i == 0) && (slot == tail <==> i == |order| - 1)
      && (i > 0 ==> 0 <= prev[slot] < |next|) && (i + 1 < |order| ==> 0 <= next[slot] < |next|)
      && |prev| == |next| && 0 <= head < |next| && 0 <= tail < |next|
  {
    hide Index;
    var i := Index(order, slot);
    assert LinkOk(order, next, prev, i) && LinkOk(order, next, prev, 0) && LinkOk(order, next, prev, |order| - 1);
    assert i > 0 ==> LinkOk(order, next, prev, i - 1);
    assert i + 1 < |order| ==> LinkOk(order, next, prev, i + 1);
  }

  /** get_cache_page, for a slot that is not at the head. */
  method MoveToFront(ghost order: seq<nat>, next: seq<int>, prev: seq<int>, head: int, tail: int, slot: nat)
    returns (next': seq<int>, prev': seq<int>, head': int, tail': int)
    requires Linked(order, next, prev, head, tail) && slot in order && slot != head
    ensures Linked(ToFront(order, slot), next', prev', head', tail') && head' == slot
  {
    hide Linked, Index;
    NeighboursOf(order, next, prev, head, tail, slot);
    next', prev', tail' := next, prev, tail;
    if slot == tail {
      tail' := prev[slot];
      next' := next'[tail' := -1];
    } else {
      next' := next'[prev[slot] := next[slot]];
      prev' := prev'[next[slot] := prev[slot]];
    }
    ghost var next1, prev1 := next', prev';
    prev' := prev'[slot := -1];
    next' := next'[slot := head];
    prev' := prev'[head := slot];
    head' := slot;
    MovedToFront(order, next, prev, head, tail, slot, next1, prev1);
  }

  lemma MovedToFront(order: seq<nat>, next: seq<int>, prev: seq<int>, head: int, tail: int, slot: nat, next': seq<int>,
                     prev': seq<int>)
    requires Linked(order, next, prev, head, tail) && slot in order && slot != head && |next| == |prev|
    requires var i := Index(order, slot);
      && (if i > 0 then order[i - 1] < |next| && next' == next[order[i - 1] := LinkAt(order, i + 1)] else next' == next)
      && (if i + 1 < |order| then order[i + 1] < |prev| && prev' == prev[order[i + 1] := LinkAt(order, i - 1)]
            else prev' == prev)
    ensures slot < |next'| && 0 <= head < |prev'| && slot < |prev'|
    ensures Linked(ToFront(order, slot), next'[slot := head], prev'[slot := -1][head := slot], slot,
            if slot == tail then prev[slot] else tail)
  {
    hide Links, Index;
    NeighboursOf(order, next, prev, head, tail, slot);
    Unlink(order, next, prev, slot, next', prev');
    LinkFront(Without(order, slot), next', prev', slot);
    forall s | 0 <= s < |order|
      ensures s in ToFront(order, slot)
    {
      MovedCovers(order, slot, s);
    }
  }

  /** invalidate_cache_page, for a slot that is not at the tail. */
  method MoveToBack(ghost order: seq<nat>, next: seq<int>, prev: seq<int>, head: int, tail: int, slot: nat)
    returns (next': seq<int>, prev': seq<int>, head': int, tail': int)
    requires Linked(order, next, prev, head, tail) && slot in order && slot != tail
    ensures Linked(ToBack(order, slot), next', prev', head', tail') && tail' == slot
  {
    hide Linked, Index;
    NeighboursOf(order, next, prev, head, tail, slot);
    next', prev', head' := next, prev, head;
    if slot == head {
      head' := next[slot];
      prev' := prev'[head' := -1];
    } else {
      next' := next'[prev[slot] := next[slot]];
      prev' := prev'[next[slot] := prev[slot]];
    }
    ghost var next1, prev1 := next', prev';
    next' := next'[slot := -1];
    prev' := prev'[slot := tail];
    next' := next'[tail := slot];
    tail' := slot;
    MovedToBack(order, next, prev, head, tail, slot, next1, prev1);
  }

  lemma MovedToBack(order: seq<nat>, next: seq<int>, prev: seq<int>, head: int, tail: int, slot: nat, next': seq<int>,
                    prev': seq<int>)
    requires Linked(order, next, prev, head, tail) && slot in order && slot != tail
    requires var i := Index(order, slot);
      && (if i > 0 then order[i - 1] < |next| && next' == next[order[i - 1] := LinkAt(order, i + 1)] else next' == next)
      && (if i + 1 < |order| then order[i + 1] < |prev| && prev' == prev[order[i + 1] := LinkAt(order, i - 1)]
            else prev' == prev)
    ensures slot < |next'| && 0 <= tail < |next'| && slot < |prev'|
    ensures Linked(ToBack(order, slot), next'[slot := -1][tail := slot], prev'[slot := tail], if slot == head
            then next[slot] else head, slot)
  {
    hide Links, Index;
    NeighboursOf(order, next, prev, head, tail, slot);
    Unlink(order, next, prev, slot, next', prev');
    LinkBack(Without(order, slot), next', prev', slot);
    forall s | 0 <= s < |order|
      ensures s in ToBack(order, slot)
    {
      MovedCovers(order, slot, s);
    }
  }

  /** Moving the slot that is there already changes nothing. */
  lemma AlreadyThere(order: seq<nat>, slot: nat)
    requires slot in order && Distinct(order)
    ensures slot == order[0] ==> ToFront(order, slot) == order
    ensures slot == order[|order| - 1] ==> ToBack(order, slot) == order
  {
    hide Index;
  }
}
