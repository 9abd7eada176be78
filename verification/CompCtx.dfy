/** The compression context itself: page buffers, the linked list of cache slots and the pfn2cache table,
    updated in place. */
module CompCtx {
  import opened Seqs
  import opened Bytes
  import opened PageDelta
  import opened PageCodec
  import opened LruList
  import opened PageCache

  /** DELTA_CACHE_SIZE and PAGE_BUFFER_SIZE, in pages. */
  const SLOTS: nat := 8192
  const QUEUE: nat := 8192

  /** pfn2cache and the slots' pfns say the same. */
  ghost predicate Table(pfns: seq<int>, table: seq<int>) {
    && (forall s :: 0 <= s < |pfns| && pfns[s] != -1 ==> 0 <= pfns[s] < |table| && table[pfns[s]] == s)
    && (forall p :: 0 <= p < |table| && table[p] != -1 ==> 0 <= table[p] < |pfns| && pfns[table[p]] == p)
  }

  ghost function PageAt(base: seq<byte>, s: nat): (p: seq<byte>)
    requires PAGE * s + PAGE <= |base|
    ensures |p| == PAGE
  {
    base[PAGE * s..PAGE * s + PAGE]
  }

  ghost function Pages(base: seq<byte>, n: nat): (p: seq<seq<byte>>)
    requires |base| == PAGE * n
    ensures |p| == n && forall s :: 0 <= s < n ==> p[s] == PageAt(base, s)
  {
    seq(n, s requires 0 <= s < n => PageAt(base, s))
  }

  lemma PagesUpdate(before: seq<byte>, after: seq<byte>, n: nat, slot: nat, page: seq<byte>)
    requires |before| == PAGE * n && slot < n && |page| == PAGE
    requires after == before[..PAGE * slot] + page + before[PAGE * slot + PAGE..]
    ensures |after| == PAGE * n && Pages(after, n) == Pages(before, n)[slot := page]
  {
    forall s | 0 <= s < n
      ensures PageAt(after, s) == if s == slot then page else PageAt(before, s)
    {}
  }

  lemma TableLookup(pfns: seq<int>, table: seq<int>, p: nat)
    requires Table(pfns, table) && p < |table|
    ensures table[p] == -1 <==> p !in pfns
    ensures table[p] != -1 ==> 0 <= table[p] < |pfns| && table[p] == SlotHolding(pfns, p)
    ensures Unique(pfns)
  {
    var s := SlotHolding(pfns, p);
    hide SlotHolding;
  }

  /** A slot is taken over for a pfn that has none. */
  lemma TableTakeover(pfns: seq<int>, table: seq<int>, slot: nat, p: nat, table': seq<int>)
    requires Table(pfns, table) && slot < |pfns| && p < |table| && table[p] == -1
    requires if pfns[slot] != -1 then table' == table[pfns[slot] := -1][p := slot] else table' == table[p := slot]
    ensures Table(pfns[slot := p], table')
  {}

  lemma TableRelease(pfns: seq<int>, table: seq<int>, p: nat)
    requires Table(pfns, table) && p < |table| && table[p] != -1
    ensures 0 <= table[p] < |pfns| && Table(pfns[table[p] := -1], table[p := -1])
  {}

  ghost predicate QueueOk(queue: seq<Item>, pfns: seq<int>, pages: seq<seq<byte>>, p2mSize: nat) {
    && |queue| == |pfns| == |pages|
    && forall i :: 0 <= i < |queue| ==>
      && queue[i].pfn < p2mSize && queue[i].page == pages[i] && |pages[i]| == PAGE
      && pfns[i] == if queue[i].raw then -1 else queue[i].pfn
  }

  class Context {
    const p2mSize: nat
    const base: array<byte>
    var table: seq<int>
    var pfns: seq<int>
    var next: seq<int>
    var prev: seq<int>
    var head: int
    var tail: int
    var sendbufPfns: seq<int>
    var inputbuf: seq<seq<byte>>
    var index: nat
    ghost var order: seq<nat>
    ghost var queue: seq<Item>

    ghost predicate ListOk()
      reads this
    {
      && |order| == |pfns| == SLOTS && base.Length == PAGE * SLOTS && |table| == p2mSize
      && Linked(order, next, prev, head, tail) && Table(pfns, table)
    }

    ghost predicate Valid()
      reads this
    {
      ListOk() && QueueOk(queue, sendbufPfns, inputbuf, p2mSize) && index <= |queue| <= QUEUE
    }

    /** The cache this stands for. */
    ghost function Value(): (c: Cache)
      requires ListOk()
      reads this, base
    {
      Cache(order, pfns, Pages(base[..], SLOTS))
    }

    lemma ValueOk()
      requires ListOk()
      ensures CacheOk(Value())
    {
      hide SlotHolding;
      ListCovers(order, next, prev, head, tail);
      TableUnique(pfns, table);
      hide Linked, Table, Unique;
    }

    /** An empty cache, its slots linked in order. */
    constructor (p2mSize: nat)
      ensures Valid() && this.p2mSize == p2mSize && queue == [] && index == 0 && fresh(base)
      ensures forall s :: 0 <= s < SLOTS ==> Value().pfns[s] == -1
    {
      this.p2mSize := p2mSize;
      base := new byte[PAGE * SLOTS];
      table := seq(p2mSize, p => -1);
      pfns := seq(SLOTS, s => -1);
      next := seq(SLOTS, s => if s + 1 == SLOTS then -1 else s + 1);
      prev := seq(SLOTS, s => if s == 0 then -1 else s - 1);
      head, tail := 0, SLOTS - 1;
      sendbufPfns, inputbuf, index := [], [], 0;
      order, queue := seq(SLOTS, s => s), [];
      new;
      LinkedInOrder(order, next, prev);
    }

    /** The slot for a pfn: its own, or the one at the tail taken over from its pfn. */
    method TakeSlot(pfn: nat) returns (slot: nat, raw: bool)
      requires ListOk() && pfn < p2mSize
      modifies this`table, this`pfns
      ensures ListOk() && slot < SLOTS && slot in order && pfns == old(pfns)[slot := pfn]
      ensures slot == (if pfn in old(pfns) then SlotHolding(old(pfns), pfn) else Last(order))
      ensures raw == (pfn !in old(pfns))
    {
      hide Linked, Table, SlotHolding;
      TableLookup(pfns, table, pfn);
      LinkedEnds(order, next, prev, head, tail);
      ListCovers(order, next, prev, head, tail);
      var item := table[pfn];
      raw := item == -1;
      if raw {
        item := tail;
        TableIndex(pfns, table, item);
        ghost var pfns0, table0 := pfns, table;
        if pfns[item] != -1 {
          table := table[pfns[item] := -1];
        }
        pfns := pfns[item := pfn];
        table := table[pfn := item];
        TableTakeover(pfns0, table0, item, pfn, table);
      } else {
        assert pfns[item := pfn] == pfns;
      }
      slot := item;
    }

    /** Makes a slot the most recently used. */
    method Touch(slot: nat)
      requires ListOk() && slot in order
      modifies this`next, this`prev, this`head, this`tail, this`order
      ensures ListOk() && order == ToFront(old(order), slot)
    {
      hide Linked, Table, Index;
      LinkedEnds(order, next, prev, head, tail);
      if slot != head {
        next, prev, head, tail := MoveToFront(order, next, prev, head, tail, slot);
      } else {
        AlreadyThere(order, slot);
      }
      order := ToFront(order, slot);
    }

    /** get_cache_page. */
    method GetCachePage(pfn: nat) returns (slot: nat, raw: bool)
      requires Valid() && pfn < p2mSize
      modifies this`table, this`pfns, this`next, this`prev, this`head, this`tail, this`order
      ensures Valid() && CacheOk(old(Value())) && slot == Chosen(old(Value()), pfn) && slot < SLOTS
      ensures slot in old(order) && Value() == Get(old(Value()), pfn)
      ensures raw == (pfn !in old(pfns))
    {
      hide Linked, Table, QueueOk, ToFront, SlotHolding, CacheOk, Pages;
      ValueOk();
      slot, raw := TakeSlot(pfn);
      Touch(slot);
    }

    /** invalidate_cache_page. */
    method InvalidateCachePage(pfn: nat)
      requires Valid() && pfn < p2mSize
      modifies this`table, this`pfns, this`next, this`prev, this`head, this`tail, this`order
      ensures Valid() && CacheOk(old(Value())) && Value() == Invalidate(old(Value()), pfn)
    {
      hide Linked, Table, QueueOk, Index, SlotHolding, CacheOk, Pages;
      ValueOk();
      TableLookup(pfns, table, pfn);
      ListCovers(order, next, prev, head, tail);
      var item := table[pfn];
      if item != -1 {
        LinkedEnds(order, next, prev, head, tail);
        ghost var order0 := order;
        if item != tail {
          next, prev, head, tail := MoveToBack(order, next, prev, head, tail, item);
        } else {
          AlreadyThere(order, item);
        }
        order := ToBack(order0, item);
        TableRelease(pfns, table, pfn);
        table := table[pfn := -1];
        pfns := pfns[tail := -1];
      }
    }

    /** xc_compression_add_page.  The bound lets pfn == p2mSize through, for which there is no entry in
        pfn2cache: callers have to keep below it. */
    method AddPage(page: seq<byte>, pfn: nat, raw: bool) returns (rc: int)
      requires Valid() && |page| == PAGE && |queue| < QUEUE && pfn != p2mSize
      modifies this`table, this`pfns, this`next, this`prev, this`head, this`tail, this`order, this`sendbufPfns,
               this`inputbuf, this`queue
      ensures Valid() && CacheOk(old(Value()))
      ensures rc == -2 <==> pfn >= p2mSize
      ensures rc == -2 ==> Value() == old(Value()) && queue == old(queue)
      ensures rc != -2 ==> queue == old(queue) + [Item(pfn, page, raw)]
      ensures rc != -2 ==> Value() == if raw then Invalidate(old(Value()), pfn) else old(Value())
      ensures rc != -2 ==> (rc == -1 <==> |queue| == QUEUE) && (rc == 0 <==> |queue| < QUEUE)
    {
      hide Linked, Table, Index, SlotHolding, CacheOk, Pages;
      ValueOk();
      if pfn > p2mSize {
        return -2;
      }
      if raw {
        InvalidateCachePage(pfn);
      }
      sendbufPfns := sendbufPfns + [if raw then -1 else pfn];
      inputbuf := inputbuf + [page];
      queue := queue + [Item(pfn, page, raw)];
      rc := if |inputbuf| == QUEUE then -1 else 0;
    }

    /** One page of the batch: raw, not cached, or as a delta against the cached copy. */
    method SendItem(out: array<byte>, pos: nat, size: nat) returns (r: int)
      requires Valid() && index < |queue| && out != base && size <= out.Length
      modifies this`table, this`pfns, this`next, this`prev, this`head, this`tail, this`order, base, out
      ensures Valid() && CacheOk(old(Value())) && |queue[index].page| == PAGE
      ensures r == -1 <==> pos + Asks(old(Value()), queue[index]) > size
      ensures r == -1 ==> Value() == Refused(old(Value()), queue[index]) && out[..] == old(out[..])
      ensures r != -1 ==> Value() == Sent(old(Value()), queue[index]) && r == |Wire(old(Value()), queue[index])|
      ensures r != -1 ==> 0 <= r && pos + r <= size && out[..pos] == old(out[..pos])
      ensures r != -1 ==> out[pos..pos + r] == Wire(old(Value()), queue[index])
    {
      hide Linked, Table, Index, SlotHolding, CacheOk, Pages, Encoded, ToFront, InFormat;
      ValueOk();
      ghost var c, it, before := Value(), queue[index], base[..];
      var page, pfn := inputbuf[index], sendbufPfns[index];
      if pfn == -1 {
        r := AddFullPage(page, base, false, 0, out, pos, size);
      } else {
        var slot, raw := GetCachePage(pfn);
        assert base[..] == before;
        SlotFits(slot);
        if raw {
          r := AddFullPage(page, base, true, PAGE * slot, out, pos, size);
        } else {
          assert before[PAGE * slot..PAGE * slot + PAGE] == PageAt(before, slot) == c.pages[slot];
          EncodedBound(c.pages[slot], page);
          r := CompressPage(page, base, PAGE * slot, out, pos, size);
        }
        if r != -1 {
          PagesUpdate(before, base[..], SLOTS, slot, page);
        }
      }
    }

    /** xc_compression_compress_pages. */
    method CompressPages(out: array<byte>, size: nat) returns (rc: int, len: nat)
      requires Valid() && out != base && size <= out.Length
      modifies this, base, out
      ensures Valid() && CacheOk(old(Value())) && ItemsOk(old(queue[index..]))
      ensures old(index == |queue|) ==> rc == 0 && queue == [] && index == 0 && Value() == old(Value())
      ensures old(index < |queue|) ==>
        var b := SendAll(old(Value()), old(queue[index..]), 0, size);
        && Value() == b.c && queue == old(queue) && index == old(index) + b.count
        && len == |b.bytes| <= size && out[..len] == b.bytes
        && rc == if index == |queue| then 1 else -1
    {
      hide Linked, Table, SlotHolding, CacheOk, Pages, Asks, Wire, Sent, Refused, SendAll, Resumes;
      ValueOk();
      len := 0;
      PendingOk(queue, sendbufPfns, inputbuf, p2mSize, index);
      if |inputbuf| == 0 || index == |inputbuf| {
        sendbufPfns, inputbuf, index, queue := [], [], 0, [];
        return 0, 0;
      }
      ghost var goal, items, start := SendAll(Value(), queue[index..], 0, size), queue, index;
      rc := 1;
      assert out[..0] == [];
      ResumesFromStart(Value(), queue[index..], size);
      while index < |inputbuf|
        invariant Valid() && queue == items && start <= index && rc == 1 && len <= size
        invariant CacheOk(Value()) && ItemsOk(items[index..])
        invariant Resumes(goal, Value(), items[index..], out[..len], index - start, size)
      {
        ghost var c, it, sent := Value(), items[index], out[..len];
        assert items[index..][0] == it && items[index..][1..] == items[index + 1..];
        ResumesNext(goal, c, items[index..], sent, index - start, size);
        var r := SendItem(out, len, size);
        if r == -1 {
          rc := -1;
          assert out[..len] == sent;
          break;
        }
        assert out[..len + r] == sent + Wire(c, it);
        len := len + r;
        index := index + 1;
        ValueOk();
      }
      if rc == 1 {
        ResumesToEnd(goal, Value(), items[index..], out[..len], index - start, size);
      }
    }

    /** xc_compression_reset_pagebuf. */
    method ResetPagebuf()
      requires Valid()
      modifies this`index, this`sendbufPfns, this`inputbuf, this`queue
      ensures Valid() && queue == [] && index == 0 && Value() == old(Value())
    {
      hide Linked, Table;
      sendbufPfns, inputbuf, index, queue := [], [], 0, [];
    }
  }

  lemma SlotFits(slot: nat)
    requires slot < SLOTS
    ensures PAGE * slot + PAGE <= PAGE * SLOTS
  {}

  lemma PendingOk(queue: seq<Item>, pfns: seq<int>, pages: seq<seq<byte>>, p2mSize: nat, index: nat)
    requires QueueOk(queue, pfns, pages, p2mSize) && index <= |queue|
    ensures ItemsOk(queue[index..])
  {}

  /** What has been sent, and what the rest of the loop will send, make up the batch. */
  ghost predicate Resumes(goal: Batch, c: Cache, items: seq<Item>, sent: seq<byte>, count: nat, size: nat)
    requires CacheOk(c) && ItemsOk(items)
  {
    var b := SendAll(c, items, |sent|, size);
    goal == Batch(b.c, sent + b.bytes, count + b.count)
  }

  lemma ResumesFromStart(c: Cache, items: seq<Item>, size: nat)
    requires CacheOk(c) && ItemsOk(items)
    ensures Resumes(SendAll(c, items, 0, size), c, items, [], 0, size)
  {
    var b := SendAll(c, items, 0, size);
    hide SendAll, CacheOk;
    assert [] + b.bytes == b.bytes;
  }

  lemma ResumesNext(goal: Batch, c: Cache, items: seq<Item>, sent: seq<byte>, count: nat, size: nat)
    requires CacheOk(c) && ItemsOk(items) && items != [] && Resumes(goal, c, items, sent, count, size)
    ensures ItemsOk(items[1..])
    ensures
      if |sent| + Asks(c, items[0]) <= size
        then Resumes(goal, Sent(c, items[0]), items[1..], sent + Wire(c, items[0]), count + 1, size)
      else goal == Batch(Refused(c, items[0]), sent, count)
  {
    hide CacheOk, Asks, Wire, Sent, Refused;
    var wire := Wire(c, items[0]);
    if |sent| + Asks(c, items[0]) <= size {
      var rest := SendAll(Sent(c, items[0]), items[1..], |sent| + |wire|, size);
      assert sent + (wire + rest.bytes) == (sent + wire) + rest.bytes;
    } else {
      assert sent + [] == sent;
    }
  }

  lemma ResumesToEnd(goal: Batch, c: Cache, items: seq<Item>, sent: seq<byte>, count: nat, size: nat)
    requires CacheOk(c) && items == [] && Resumes(goal, c, items, sent, count, size)
    ensures goal == Batch(c, sent, count)
  {
    hide CacheOk;
    assert sent + [] == sent;
  }

  lemma LinkedInOrder(order: seq<nat>, next: seq<int>, prev: seq<int>)
    requires |order| == |next| == |prev| == SLOTS
    requires forall s :: 0 <= s < SLOTS ==>
             order[s] == s && next[s] == (if s + 1 == SLOTS then -1 else s + 1) && prev[s] == s - 1
    ensures Linked(order, next, prev, 0, SLOTS - 1)
  {
    forall i | 0 <= i < SLOTS
      ensures LinkOk(order, next, prev, i) && i in order
    {
      assert order[i] == i;
    }
  }

  lemma ListCovers(order: seq<nat>, next: seq<int>, prev: seq<int>, head: int, tail: int)
    requires Linked(order, next, prev, head, tail)
    ensures (forall i :: 0 <= i < |order| ==> order[i] < |order|) && forall s :: 0 <= s < |order| ==> s in order
  {
    forall i | 0 <= i < |order|
      ensures order[i] < |order|
    {
      assert LinkOk(order, next, prev, i);
    }
  }

  lemma TableIndex(pfns: seq<int>, table: seq<int>, slot: int)
    requires Table(pfns, table) && 0 <= slot < |pfns|
    ensures pfns[slot] != -1 ==> 0 <= pfns[slot] < |table|
  {}

  lemma TableUnique(pfns: seq<int>, table: seq<int>)
    requires Table(pfns, table)
    ensures Unique(pfns)
  {}

  lemma LinkedEnds(order: seq<nat>, next: seq<int>, prev: seq<int>, head: int, tail: int)
    requires Linked(order, next, prev, head, tail)
    ensures 0 <= head < |order| && 0 <= tail < |order| && head == order[0] && tail == order[|order| - 1]
    ensures Distinct(order)
  {
    assert LinkOk(order, next, prev, 0) && LinkOk(order, next, prev, |order| - 1);
  }
}
