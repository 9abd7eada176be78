/** The sender's page cache against the receiver's memory: what a batch sends, what decoding it gives,
    and when the cache stays a mirror of the receiver. */
module PageCache {
  import opened Seqs
  import opened Bytes
  import opened PageDelta
  import opened LruList

  /** Slots in order of use, the pfn each holds (-1 for none) and its page. */
  datatype Cache = Cache(order: seq<nat>, pfns: seq<int>, pages: seq<seq<byte>>)

  /** A queued page; a raw (page table) page is never cached. */
  datatype Item = Item(pfn: nat, page: seq<byte>, raw: bool)

  ghost predicate CacheOk(c: Cache) {
    && 1 <= |c.order| == |c.pfns| == |c.pages|
    && (forall i :: 0 <= i < |c.order| ==> c.order[i] < |c.pfns|)
    && (forall s :: 0 <= s < |c.pfns| ==> s in c.order)
    && (forall s :: 0 <= s < |c.pages| ==> |c.pages[s]| == PAGE)
    && Unique(c.pfns) && Distinct(c.order)
  }

  /** No pfn is held twice. */
  ghost predicate Unique(pfns: seq<int>) {
    forall s, t :: 0 <= s < t < |pfns| && pfns[s] != -1 ==> pfns[s] != pfns[t]
  }

  function Last(order: seq<nat>): nat
    requires order != []
  {
    order[|order| - 1]
  }

  function SlotHolding(pfns: seq<int>, pfn: nat): (s: nat)
    ensures s <= |pfns|
    ensures s < |pfns| ==> pfns[s] == pfn
    ensures s == |pfns| ==> pfn !in pfns
  {
    if pfns == [] then 0 else if pfns[0] == pfn then 0 else 1 + SlotHolding(pfns[1..], pfn)
  }

  /** The slot get_cache_page gives: the one that holds the pfn, or else the least recently used. */
  function Chosen(c: Cache, pfn: nat): (s: nat)
    requires c.order != []
  {
    if pfn in c.pfns then SlotHolding(c.pfns, pfn) else Last(c.order)
  }

  /** get_cache_page: the page of a slot that is taken over stays in it. */
  function Get(c: Cache, pfn: nat): Cache
    requires c.order != [] && Chosen(c, pfn) in c.order && Chosen(c, pfn) < |c.pfns|
  {
    c.(order := ToFront(c.order, Chosen(c, pfn)), pfns := c.pfns[Chosen(c, pfn) := pfn])
  }

  /** invalidate_cache_page. */
  function Invalidate(c: Cache, pfn: nat): Cache
    requires pfn in c.pfns ==> SlotHolding(c.pfns, pfn) in c.order
  {
    if pfn in c.pfns then
      c.(order := ToBack(c.order, SlotHolding(c.pfns, pfn)), pfns := c.pfns[SlotHolding(c.pfns, pfn) := -1])
    else c
  }

  lemma ChosenOk(c: Cache, pfn: nat)
    requires CacheOk(c)
    ensures Chosen(c, pfn) < |c.pfns| && Chosen(c, pfn) in c.order
    ensures c.pfns[Chosen(c, pfn)] == pfn <==> pfn in c.pfns
  {}

  lemma GetOk(c: Cache, pfn: nat, page: seq<byte>)
    requires CacheOk(c) && |page| == PAGE
    ensures Chosen(c, pfn) < |c.pfns| && Chosen(c, pfn) in c.order
    ensures CacheOk(Get(c, pfn)) && CacheOk(Stored(c, pfn, page))
  {
    ChosenOk(c, pfn);
    hide Index, SlotHolding, Chosen;
    var slot := Chosen(c, pfn);
    forall s | 0 <= s < |c.pfns|
      ensures s in ToFront(c.order, slot)
    {
      MovedCovers(c.order, slot, s);
    }
    var pfns := c.pfns[slot := pfn];
    forall s, t | 0 <= s < t < |pfns| && pfns[s] != -1
      ensures pfns[s] != pfns[t]
    {
      if s == slot || t == slot {
        assert pfn !in c.pfns || c.pfns[slot] == pfn;
      }
    }
    FrontInRange(c, slot);
    WithoutDistinct(c.order, slot);
  }

  lemma FrontInRange(c: Cache, slot: nat)
    requires CacheOk(c) && slot in c.order && slot < |c.pfns|
    ensures forall i :: 0 <= i < |c.order| ==>
            ToFront(c.order, slot)[i] < |c.pfns| && ToBack(c.order, slot)[i] < |c.pfns|
  {
    hide Index;
  }

  /** get_cache_page, and the page copied into the slot. */
  function Stored(c: Cache, pfn: nat, page: seq<byte>): Cache
    requires c.order != [] && Chosen(c, pfn) in c.order && Chosen(c, pfn) < |c.pfns| == |c.pages|
  {
    Get(c, pfn).(pages := c.pages[Chosen(c, pfn) := page])
  }

  lemma InvalidateOk(c: Cache, pfn: nat)
    requires CacheOk(c)
    ensures CacheOk(Invalidate(c, pfn)) && pfn !in Invalidate(c, pfn).pfns
    ensures forall p :: p in Invalidate(c, pfn).pfns && p != -1 ==> p in c.pfns
  {
    if pfn in c.pfns {
      var slot := SlotHolding(c.pfns, pfn);
      hide Index, SlotHolding;
      FrontInRange(c, slot);
      WithoutDistinct(c.order, slot);
      forall s | 0 <= s < |c.pfns|
        ensures s in ToBack(c.order, slot)
      {
        MovedCovers(c.order, slot, s);
      }
    }
  }

  /** The slot of an invalidated page is the next to be taken over, and every other page stays cached till then. */
  lemma InvalidatedGoesFirst(c: Cache, pfn: nat, other: nat)
    requires CacheOk(c) && pfn in c.pfns && other !in c.pfns
    ensures var c' := Invalidate(c, pfn);
            && CacheOk(c') && Chosen(c', other) == SlotHolding(c.pfns, pfn) && c'.pages == c.pages
            && forall p :: p in c.pfns && p != pfn ==> p in c'.pfns && p in Get(c', other).pfns
  {
    InvalidateOk(c, pfn);
    var slot, c' := SlotHolding(c.pfns, pfn), Invalidate(c, pfn);
    hide SlotHolding, Index;
    assert other !in c'.pfns;
    forall p | p in c.pfns && p != pfn
      ensures p in c'.pfns && p in Get(c', other).pfns
    {
      var i :| 0 <= i < |c.pfns| && c.pfns[i] == p;
      assert c'.pfns[i] == p && Get(c', other).pfns[i] == p;
    }
  }

  // ----- Sending -----------------------------------------------------------------------------------------------

  /** Room an item asks for before it is sent. */
  function Asks(c: Cache, it: Item): nat {
    if it.raw || it.pfn !in c.pfns then FULL else WORST
  }

  /** The bytes an item puts in the stream. */
  function Wire(c: Cache, it: Item): (b: seq<byte>)
    requires CacheOk(c) && |it.page| == PAGE
  {
    if it.raw || it.pfn !in c.pfns then Whole(it.page) else Encoded(c.pages[SlotHolding(c.pfns, it.pfn)], it.page)
  }

  /** The cache after the item has been sent. */
  ghost function Sent(c: Cache, it: Item): (c': Cache)
    requires CacheOk(c) && |it.page| == PAGE
    ensures CacheOk(c')
  {
    if it.raw then c
    else
      GetOk(c, it.pfn, it.page);
      Stored(c, it.pfn, it.page)
  }

  /** The cache after the item did not fit. */
  ghost function Refused(c: Cache, it: Item): (c': Cache)
    requires CacheOk(c)
    ensures CacheOk(c')
  {
    if it.raw then c
    else
      GetOk(c, it.pfn, seq(PAGE, i => 0));
      Get(c, it.pfn)
  }

  /** What a flush leaves: the cache, the bytes, and how many items they are. */
  datatype Batch = Batch(c: Cache, bytes: seq<byte>, count: nat)

  ghost predicate ItemsOk(items: seq<Item>) {
    forall i :: 0 <= i < |items| ==> |items[i].page| == PAGE
  }

  /** The loop of xc_compression_compress_pages from byte `pos` of a buffer of `size`. */
  ghost function SendAll(c: Cache, items: seq<Item>, pos: nat, size: nat): (b: Batch)
    requires CacheOk(c) && ItemsOk(items)
    ensures CacheOk(b.c) && b.count <= |items|
    decreases |items|
  {
    if items == [] then Batch(c, [], 0)
    else if pos + Asks(c, items[0]) > size then Batch(Refused(c, items[0]), [], 0)
    else
      var bytes := Wire(c, items[0]);
      var rest := SendAll(Sent(c, items[0]), items[1..], pos + |bytes|, size);
      Batch(rest.c, bytes + rest.bytes, rest.count + 1)
  }

  // ----- Receiving ------------------------------------------------------------------------------------------------

  ghost predicate MemOk(mem: seq<seq<byte>>, items: seq<Item>) {
    && (forall p :: 0 <= p < |mem| ==> |mem[p]| == PAGE)
    && (forall i :: 0 <= i < |items| ==> items[i].pfn < |mem|)
  }

  /** The receiver decodes one page after another onto its copy of each. */
  ghost function Receive(mem: seq<seq<byte>>, items: seq<Item>, bytes: seq<byte>, pos: nat): (m: seq<seq<byte>>)
    requires MemOk(mem, items)
    decreases |items|
  {
    if items == [] then mem
    else
      var d := Decode(bytes, pos, mem[items[0].pfn]);
      if d.Bad? then mem else Receive(mem[items[0].pfn := d.page], items[1..], bytes, d.pos)
  }

  /** What the receiver ought to have: each page where it belongs, in order. */
  ghost function Applied(mem: seq<seq<byte>>, items: seq<Item>): (m: seq<seq<byte>>)
    requires MemOk(mem, items) && ItemsOk(items)
    ensures |m| == |mem| && forall p :: 0 <= p < |m| ==> |m[p]| == PAGE
    decreases |items|
  {
    if items == [] then mem else Applied(mem[items[0].pfn := items[0].page], items[1..])
  }

  // ----- The mirror -------------------------------------------------------------------------------------------------

  /** Every cached page is the receiver's page. */
  ghost predicate Mirror(c: Cache, mem: seq<seq<byte>>) {
    && |c.pfns| == |c.pages|
    && forall s :: 0 <= s < |c.pfns| && c.pfns[s] != -1 ==> 0 <= c.pfns[s] < |mem| && c.pages[s] == mem[c.pfns[s]]
  }

  /** An item sent with the mirror intact decodes to its page, wherever in the stream it is. */
  lemma WireDecodes(c: Cache, it: Item, mem: seq<seq<byte>>, bytes: seq<byte>, pos: nat)
    requires CacheOk(c) && Mirror(c, mem) && |it.page| == PAGE && it.pfn < |mem| && |mem[it.pfn]| == PAGE
    requires pos + |Wire(c, it)| <= |bytes| && bytes[pos..pos + |Wire(c, it)|] == Wire(c, it)
    ensures Decode(bytes, pos, mem[it.pfn]) == Good(it.page, pos + |Wire(c, it)|)
  {
    hide Encoded, Decode, SlotHolding, CacheOk, Unique;
    if it.raw || it.pfn !in c.pfns {
      WholeRoundTrip(bytes, pos, mem[it.pfn], it.page);
    } else {
      DeltaRoundTrip(bytes, pos, mem[it.pfn], it.page);
    }
  }

  /** Sending a normal page keeps the mirror. */
  lemma NormalKeepsMirror(c: Cache, it: Item, mem: seq<seq<byte>>)
    requires CacheOk(c) && Mirror(c, mem) && |it.page| == PAGE && it.pfn < |mem| && !it.raw
    ensures Mirror(Sent(c, it), mem[it.pfn := it.page])
  {
    ChosenOk(c, it.pfn);
    hide SlotHolding, Chosen, ToFront, Index;
  }

  /** Sending a raw page keeps it exactly when the pfn is not cached with other contents. */
  lemma RawKeepsMirror(c: Cache, it: Item, mem: seq<seq<byte>>)
    requires CacheOk(c) && Mirror(c, mem) && |it.page| == PAGE && it.pfn < |mem| && it.raw
    ensures Mirror(Sent(c, it), mem[it.pfn := it.page])
       <==> (it.pfn in c.pfns ==> c.pages[SlotHolding(c.pfns, it.pfn)] == it.page)
  {
    var m := mem[it.pfn := it.page];
    if it.pfn in c.pfns {
      var s := SlotHolding(c.pfns, it.pfn);
      hide SlotHolding;
      assert c.pfns[s] == it.pfn && m[it.pfn] == it.page;
    }
  }

  /** Running out of room keeps it exactly when the pfn was cached, or the slot taken over happens to
      hold the receiver's page already. */
  lemma RefusalKeepsMirror(c: Cache, it: Item, mem: seq<seq<byte>>)
    requires CacheOk(c) && Mirror(c, mem) && it.pfn < |mem|
    ensures Mirror(Refused(c, it), mem)
       <==> it.raw || it.pfn in c.pfns || c.pages[Last(c.order)] == mem[it.pfn]
  {
    ChosenOk(c, it.pfn);
    var s, r := Chosen(c, it.pfn), Refused(c, it);
    assert it.pfn !in c.pfns ==> s == Last(c.order);
    hide SlotHolding, Chosen, ToFront, Index;
    if !it.raw {
      assert r.pfns[s] == it.pfn && r.pages == c.pages;
    }
  }
}
