/** What carelessness costs, exactly: what the receiver's memory is after any batch, and when the cache
    still mirrors it. */
module PageCacheExact {
  import opened Seqs
  import opened Wrappers
  import opened Bytes
  import opened PageDelta
  import opened LruList
  import opened PageCache
  import opened PageCacheRuns

  type Page = seq<byte>

  // ----- A flush as a fold over its items -----------------------------------------------------------------

  ghost function CachedPage(c: Cache, pfn: nat): (page: Page)
    requires CacheOk(c) && pfn in c.pfns
    ensures |page| == PAGE
  {
    c.pages[SlotHolding(c.pfns, pfn)]
  }

  /** What decoding an item leaves of the receiver's page: a whole page, or the delta's changes. */
  ghost function Decoding(c: Cache, it: Item, page: Page): (p: Page)
    requires CacheOk(c) && |it.page| == |page| == PAGE
    ensures |p| == PAGE
  {
    if it.raw || it.pfn !in c.pfns then it.page else Patch(CachedPage(c, it.pfn), it.page, page)
  }

  lemma WirePatches(c: Cache, it: Item, page: Page, bytes: seq<byte>, pos: nat)
    requires CacheOk(c) && |it.page| == |page| == PAGE
    requires pos + |Wire(c, it)| <= |bytes| && bytes[pos..pos + |Wire(c, it)|] == Wire(c, it)
    ensures Decode(bytes, pos, page) == Good(Decoding(c, it, page), pos + |Wire(c, it)|)
  {
    hide Encoded, Decode, SlotHolding, CacheOk, Unique, Patch;
    if it.raw || it.pfn !in c.pfns {
      WholeRoundTrip(bytes, pos, page, it.page);
    } else {
      DeltaPatches(bytes, pos, CachedPage(c, it.pfn), it.page, page);
    }
  }

  /** The cache and the receiver's memory after the items, in terms of those before the last. */
  ghost function CacheAfter(c: Cache, items: seq<Item>): (c': Cache)
    requires CacheOk(c) && ItemsOk(items)
    ensures CacheOk(c')
  {
    if items == [] then c else Sent(CacheAfter(c, items[..|items| - 1]), items[|items| - 1])
  }

  ghost predicate Pages(mem: seq<Page>) {
    forall p :: 0 <= p < |mem| ==> |mem[p]| == PAGE
  }

  ghost function MemAfter(c: Cache, mem: seq<Page>, items: seq<Item>): (m: seq<Page>)
    requires CacheOk(c) && ItemsOk(items) && MemOk(mem, items)
    ensures |m| == |mem| && Pages(m)
  {
    if items == [] then mem else
      var front, it := items[..|items| - 1], items[|items| - 1];
      var m := MemAfter(c, mem, front);
      m[it.pfn := Decoding(CacheAfter(c, front), it, m[it.pfn])]
  }

  lemma {:induction false} AfterFirst(c: Cache, mem: seq<Page>, items: seq<Item>)
    requires CacheOk(c) && ItemsOk(items) && MemOk(mem, items) && items != []
    ensures var it := items[0]; var m := mem[it.pfn := Decoding(c, it, mem[it.pfn])];
            && MemOk(m, items[1..])
            && CacheAfter(c, items) == CacheAfter(Sent(c, it), items[1..])
            && MemAfter(c, mem, items) == MemAfter(Sent(c, it), m, items[1..])
    decreases |items|
  {
    hide CacheOk, Sent, Decoding;
    var it, last := items[0], |items| - 1;
    if last == 0 {
      assert items[..0] == [] && items[1..] == [];
      assert CacheAfter(c, []) == c && MemAfter(c, mem, []) == mem;
    } else {
      var front := items[..last];
      AfterFirst(c, mem, front);
      assert front[0] == it && front[1..] == items[1..][..last - 1] && items[1..][last - 1] == items[last];
    }
  }

  /** With room for all, a flush and its decoding are that fold, wherever in the stream its bytes are. */
  lemma {:induction false} FlushIsFold(c: Cache, items: seq<Item>, mem: seq<Page>, pos: nat, size: nat,
                                       stream: seq<byte>, at: nat)
    requires CacheOk(c) && ItemsOk(items) && MemOk(mem, items) && pos + WORST * |items| <= size
    requires var b := SendAll(c, items, pos, size); at + |b.bytes| <= |stream| && stream[at..at + |b.bytes|] == b.bytes
    ensures SendAll(c, items, pos, size).c == CacheAfter(c, items)
    ensures Receive(mem, items, stream, at) == MemAfter(c, mem, items)
    decreases |items|
  {
    hide CacheOk, Sent, Refused, Wire, Decode, Asks, Decoding;
    if items != [] {
      var it, wire := items[0], Wire(c, items[0]);
      WireFits(c, it);
      var b, rest := SendAll(c, items, pos, size), SendAll(Sent(c, it), items[1..], pos + |wire|, size);
      assert b.bytes == wire + rest.bytes;
      assert stream[at..at + |wire|] == b.bytes[..|wire|] == wire;
      assert stream[at + |wire|..at + |wire| + |rest.bytes|] == b.bytes[|wire|..];
      WirePatches(c, it, mem[it.pfn], stream, at);
      AfterFirst(c, mem, items);
      FlushIsFold(Sent(c, it), items[1..], mem[it.pfn := Decoding(c, it, mem[it.pfn])], pos + |wire|, size, stream,
          at + |wire|);
    }
  }

  // ----- What the queue says -----------------------------------------------------------------------------

  /** The page of the last normal item for a pfn, and of the last item of either kind. */
  function LastNormal(items: seq<Item>, pfn: nat): Option<Page> {
    if items == [] then None else
      var it := items[|items| - 1];
      if it.pfn == pfn && !it.raw then Some(it.page) else LastNormal(items[..|items| - 1], pfn)
  }

  function LastItem(items: seq<Item>, pfn: nat): Option<Item> {
    if items == [] then None else
      var it := items[|items| - 1];
      if it.pfn == pfn then Some(it) else LastItem(items[..|items| - 1], pfn)
  }

  /** Word k of a pfn is stale: a raw page queued behind a normal one changed it, and no normal page
      since has changed it from what the one before the raw page had. */
  predicate Stale(items: seq<Item>, pfn: nat, k: nat)
    requires ItemsOk(items) && k < WORDS
  {
    if items == [] then false else
      var front, it := items[..|items| - 1], items[|items| - 1];
      NormalIsPage(front, pfn);
      if it.pfn != pfn then Stale(front, pfn, k)
      else
        && LastNormal(front, pfn).Some?
        && (if it.raw then Changed(LastNormal(front, pfn).value, it.page, k)
            else Stale(front, pfn, k) && !Changed(LastNormal(front, pfn).value, it.page, k))
  }

  lemma {:induction false} NormalIsPage(items: seq<Item>, pfn: nat)
    requires ItemsOk(items)
    ensures LastNormal(items, pfn).Some? ==> |LastNormal(items, pfn).value| == PAGE && LastItem(items, pfn).Some?
    ensures LastItem(items, pfn).Some? ==>
            |LastItem(items, pfn).value.page| == PAGE && LastItem(items, pfn).value in items
    ensures LastItem(items, pfn).Some? ==> LastItem(items, pfn).value.pfn == pfn
    ensures LastItem(items, pfn).Some? && !LastItem(items, pfn).value.raw ==>
              LastNormal(items, pfn) == Some(LastItem(items, pfn).value.page)
  {
    if items != [] {
      NormalIsPage(items[..|items| - 1], pfn);
    }
  }

  /** Raw pages were dropped from the cache when they were queued. */
  ghost predicate Fresh(c: Cache, items: seq<Item>) {
    forall j :: 0 <= j < |items| && items[j].raw ==> items[j].pfn !in c.pfns
  }

  // ----- The cache within one batch ------------------------------------------------------------------------

  /** The slot of a pfn is among the first n in the order of use. */
  ghost predicate Recent(c: Cache, pfn: nat, n: nat) {
    exists i :: 0 <= i < n && i < |c.order| && c.order[i] < |c.pfns| && c.pfns[c.order[i]] == pfn
  }

  lemma FrontShifts(order: seq<nat>, slot: nat, i: nat)
    requires Distinct(order) && slot in order && i < |order| && order[i] != slot
    ensures ToFront(order, slot)[i] == order[i] || (i + 1 < |order| && ToFront(order, slot)[i + 1] == order[i])
  {
    hide Index;
    var j := Index(order, slot);
    if j < i {
      assert ToFront(order, slot)[i] == Without(order, slot)[i - 1];
    } else {
      assert ToFront(order, slot)[i + 1] == Without(order, slot)[i];
    }
  }

  /** A recently used pfn outlives the next item, and its page stays. */
  lemma RecentStays(c: Cache, it: Item, pfn: nat, n: nat)
    requires CacheOk(c) && |it.page| == PAGE && Recent(c, pfn, n) && n < |c.order| && pfn != it.pfn
    ensures Recent(Sent(c, it), pfn, n + 1)
  {
    if !it.raw {
      ChosenOk(c, it.pfn);
      var i :| 0 <= i < n && i < |c.order| && c.order[i] < |c.pfns| && c.pfns[c.order[i]] == pfn;
      var slot := Chosen(c, it.pfn);
      assert c.order[i] != slot;
      FrontShifts(c.order, slot, i);
    }
  }

  lemma SlotIs(c: Cache, pfn: nat, s: nat)
    requires CacheOk(c) && s < |c.pfns| && c.pfns[s] == pfn
    ensures pfn in c.pfns && CachedPage(c, pfn) == c.pages[s]
  {
    var t := SlotHolding(c.pfns, pfn);
    hide SlotHolding;
    assert t == s;
  }

  lemma RecentCached(c: Cache, pfn: nat, n: nat)
    requires CacheOk(c) && Recent(c, pfn, n)
    ensures pfn in c.pfns
  {}

  /** An item leaves the cached pages of other pfns alone. */
  lemma OtherPage(c: Cache, it: Item, pfn: nat)
    requires CacheOk(c) && |it.page| == PAGE && pfn != it.pfn && pfn in Sent(c, it).pfns
    ensures pfn in c.pfns && CachedPage(Sent(c, it), pfn) == CachedPage(c, pfn)
  {
    if !it.raw {
      ChosenOk(c, it.pfn);
      var c', t := Sent(c, it), SlotHolding(Sent(c, it).pfns, pfn);
      hide SlotHolding, Chosen, ToFront;
      assert c'.pfns[t] == pfn && t < |c.pfns| && c.pfns[t] == pfn;
      SlotIs(c, pfn, t);
      SlotIs(c', pfn, t);
    }
  }

  /** A normal item is cached, most recently used. */
  lemma SentHolds(c: Cache, it: Item, n: nat)
    requires CacheOk(c) && |it.page| == PAGE && !it.raw && n >= 1
    ensures it.pfn in Sent(c, it).pfns && CachedPage(Sent(c, it), it.pfn) == it.page && Recent(Sent(c, it), it.pfn, n)
  {
    ChosenOk(c, it.pfn);
    var c', s := Sent(c, it), Chosen(c, it.pfn);
    assert c'.pfns[s] == it.pfn && c'.order[0] == s;
    SlotIs(c', it.pfn, s);
  }

  // ----- What a batch leaves of one pfn ------------------------------------------------------------------------

  /** The receiver's page agrees with the last normal one in every word that is not stale, and only there. */
  ghost predicate WordsTrack(items: seq<Item>, pfn: nat, normal: Page, page: Page)
    requires ItemsOk(items)
  {
    |normal| == |page| == PAGE && forall k :: 0 <= k < WORDS ==>
        (Word(page, k) == Word(normal, k) <==> !Stale(items, pfn, k))
  }

  ghost predicate CacheTracks(c: Cache, items: seq<Item>, c': Cache, pfn: nat)
    requires CacheOk(c) && CacheOk(c')
  {
    match LastNormal(items, pfn)
    case Some(x) => Recent(c', pfn, |items|) && pfn in c'.pfns && CachedPage(c', pfn) == x
    case None => pfn in c'.pfns ==> pfn in c.pfns && CachedPage(c', pfn) == CachedPage(c, pfn)
  }

  ghost predicate PageTracks(items: seq<Item>, before: Page, page: Page, pfn: nat)
    requires ItemsOk(items)
  {
    && (LastItem(items, pfn).None? ==> page == before)
    && (LastItem(items, pfn).Some? && LastItem(items, pfn).value.raw ==> page == LastItem(items, pfn).value.page)
    && (LastNormal(items, pfn).Some? ==> WordsTrack(items, pfn, LastNormal(items, pfn).value, page))
  }

  lemma {:induction false} CacheTracked(c: Cache, items: seq<Item>, pfn: nat)
    requires CacheOk(c) && ItemsOk(items) && |items| <= |c.order|
    ensures CacheTracks(c, items, CacheAfter(c, items), pfn) && |CacheAfter(c, items).order| == |c.order|
    decreases |items|
  {
    hide CacheOk, Sent, Recent, CachedPage;
    if items != [] {
      var front, it := items[..|items| - 1], items[|items| - 1];
      var before := CacheAfter(c, front);
      CacheTracked(c, front, pfn);
      SameSlots(before, it);
      if it.pfn == pfn && !it.raw {
        SentHolds(before, it, |items|);
      } else if it.pfn == pfn {
        RawLeaves(before, it);
        if LastNormal(front, pfn).Some? {
          RecentLonger(before, pfn, |front|);
        }
      } else {
        if LastNormal(front, pfn).Some? {
          RecentStays(before, it, pfn, |front|);
          RecentCached(Sent(before, it), pfn, |items|);
        }
        if pfn in Sent(before, it).pfns {
          OtherPage(before, it, pfn);
        }
      }
    }
  }

  lemma SameSlots(c: Cache, it: Item)
    requires CacheOk(c) && |it.page| == PAGE
    ensures |Sent(c, it).order| == |c.order|
  {}

  lemma RawLeaves(c: Cache, it: Item)
    requires CacheOk(c) && |it.page| == PAGE && it.raw
    ensures Sent(c, it) == c
  {}

  lemma RecentLonger(c: Cache, pfn: nat, n: nat)
    requires Recent(c, pfn, n)
    ensures Recent(c, pfn, n + 1)
  {}

  /** One more item of the pfn, decoded over a page that tracks. */
  lemma NormalTracks(front: seq<Item>, it: Item, normal: Page, page: Page)
    requires ItemsOk(front + [it]) && !it.raw && LastNormal(front, it.pfn) == Some(normal)
    requires ItemsOk(front) && WordsTrack(front, it.pfn, normal, page) && |it.page| == PAGE
    ensures WordsTrack(front + [it], it.pfn, it.page, Patch(normal, it.page, page))
  {
    hide Patch, Word;
    var all := front + [it];
    assert all[..|front|] == front && all[|front|] == it;
    var p := Patch(normal, it.page, page);
    forall k | 0 <= k < WORDS
      ensures Word(p, k) == Word(it.page, k) <==> !Stale(all, it.pfn, k)
    {
      PatchWord(normal, it.page, page, k);
    }
  }

  lemma RawTracks(front: seq<Item>, it: Item, normal: Page)
    requires ItemsOk(front + [it]) && it.raw && LastNormal(front, it.pfn) == Some(normal)
    requires |normal| == |it.page| == PAGE
    ensures WordsTrack(front + [it], it.pfn, normal, it.page)
  {
    hide Word;
    var all := front + [it];
    assert all[..|front|] == front && all[|front|] == it;
  }

  /** The first normal page of a pfn leaves nothing stale. */
  lemma FirstTracks(front: seq<Item>, it: Item)
    requires ItemsOk(front + [it]) && !it.raw && LastNormal(front, it.pfn) == None && |it.page| == PAGE
    ensures WordsTrack(front + [it], it.pfn, it.page, it.page)
  {
    hide Word;
    var all := front + [it];
    assert all[..|front|] == front && all[|front|] == it;
  }

  lemma OtherTracks(front: seq<Item>, it: Item, pfn: nat, normal: Page, page: Page)
    requires ItemsOk(front + [it]) && it.pfn != pfn && ItemsOk(front) && WordsTrack(front, pfn, normal, page)
    ensures WordsTrack(front + [it], pfn, normal, page)
  {
    hide Word;
    var all := front + [it];
    assert all[..|front|] == front && all[|front|] == it;
  }

  /** How one item changes the receiver's page. */
  lemma PageStep(c: Cache, mem: seq<Page>, items: seq<Item>, before: Cache, page: Page, pfn: nat)
    requires CacheOk(c) && CacheOk(before) && ItemsOk(items) && items != [] && pfn < |mem| && Pages(mem)
    requires Mirror(c, mem) && Fresh(c, items) && |page| == PAGE
    requires var front := items[..|items| - 1];
             CacheTracks(c, front, before, pfn) && PageTracks(front, mem[pfn], page, pfn)
    ensures var it := items[|items| - 1];
            PageTracks(items, mem[pfn], if it.pfn == pfn then Decoding(before, it, page) else page, pfn)
  {
    hide CacheOk, Mirror, WordsTrack, Patch, CachedPage, Recent, Stale;
    var front, it := items[..|items| - 1], items[|items| - 1];
    assert items == front + [it];
    NormalIsPage(front, pfn);
    if it.pfn != pfn {
      if LastNormal(front, pfn).Some? {
        OtherTracks(front, it, pfn, LastNormal(front, pfn).value, page);
      }
    } else if it.raw {
      if LastNormal(front, pfn).Some? {
        RawTracks(front, it, LastNormal(front, pfn).value);
      }
    } else if LastNormal(front, pfn).Some? {
      NormalTracks(front, it, LastNormal(front, pfn).value, page);
    } else {
      FirstTracks(front, it);
      if pfn in before.pfns {
        MirrorAt(c, mem, pfn);
        PatchSame(page, it.page);
      }
    }
  }

  lemma MirrorAt(c: Cache, mem: seq<Page>, pfn: nat)
    requires CacheOk(c) && Mirror(c, mem) && pfn in c.pfns
    ensures pfn < |mem| && CachedPage(c, pfn) == mem[pfn]
  {}

  lemma {:induction false} PageTracked(c: Cache, mem: seq<Page>, items: seq<Item>, pfn: nat)
    requires CacheOk(c) && ItemsOk(items) && MemOk(mem, items) && Mirror(c, mem) && Fresh(c, items)
    requires |items| <= |c.order| && pfn < |mem|
    ensures PageTracks(items, mem[pfn], MemAfter(c, mem, items)[pfn], pfn)
    decreases |items|
  {
    hide CacheOk, Mirror, Sent, Decoding, PageTracks, CacheTracks;
    if items == [] {
      NothingTracks(mem[pfn], pfn);
    } else {
      var front := items[..|items| - 1];
      PageTracked(c, mem, front, pfn);
      CacheTracked(c, front, pfn);
      PageStep(c, mem, items, CacheAfter(c, front), MemAfter(c, mem, front)[pfn], pfn);
    }
  }

  lemma NothingTracks(page: Page, pfn: nat)
    ensures PageTracks([], page, page, pfn)
  {}

  // ----- Whole batches -----------------------------------------------------------------------------------------

  lemma {:induction false} AppliedAt(mem: seq<Page>, items: seq<Item>, pfn: nat)
    requires ItemsOk(items) && MemOk(mem, items) && pfn < |mem|
    ensures Applied(mem, items)[pfn] == if LastItem(items, pfn).Some? then LastItem(items, pfn).value.page else mem[pfn]
    decreases |items|
  {
    if items != [] {
      var front, it := items[..|items| - 1], items[|items| - 1];
      assert items == front + [it];
      AppliedConcat(mem, front, [it]);
      assert [it][1..] == [];
      var m := Applied(mem, front);
      assert Applied(m, [it]) == m[it.pfn := it.page];
      AppliedAt(mem, front, pfn);
    }
  }

  ghost predicate StaleFree(items: seq<Item>, pfn: nat)
    requires ItemsOk(items)
  {
    forall k: nat :: k < WORDS ==> !Stale(items, pfn, k)
  }

  ghost predicate NoneStale(items: seq<Item>)
    requires ItemsOk(items)
  {
    forall p: nat :: StaleFree(items, p)
  }

  /** The last page queued for the pfn overwrote whatever was stale. */
  ghost predicate Covered(items: seq<Item>, pfn: nat)
    requires ItemsOk(items)
  {
    StaleFree(items, pfn) || (LastItem(items, pfn).Some? && LastItem(items, pfn).value.raw)
  }

  ghost predicate AllCovered(items: seq<Item>)
    requires ItemsOk(items)
  {
    forall p: nat :: Covered(items, p)
  }

  lemma {:induction false} StaleNormal(items: seq<Item>, pfn: nat, k: nat)
    requires ItemsOk(items) && k < WORDS && Stale(items, pfn, k)
    ensures LastNormal(items, pfn).Some?
  {
    if items[|items| - 1].pfn != pfn {
      StaleNormal(items[..|items| - 1], pfn, k);
    }
  }

  /** Nothing is stale of a pfn without a normal page, nor of one outside the memory. */
  lemma StaleFreeWithout(items: seq<Item>, pfn: nat)
    requires ItemsOk(items) && LastNormal(items, pfn).None?
    ensures StaleFree(items, pfn)
  {
    hide Stale;
    forall k: nat | k < WORDS
      ensures !Stale(items, pfn, k)
    {
      if Stale(items, pfn, k) {
        StaleNormal(items, pfn, k);
      }
    }
  }

  lemma StaleFreeOutside(mem: seq<Page>, items: seq<Item>, pfn: nat)
    requires ItemsOk(items) && MemOk(mem, items) && pfn >= |mem|
    ensures StaleFree(items, pfn)
  {
    hide StaleFree;
    NormalIsPage(items, pfn);
    assert LastItem(items, pfn).Some? ==> LastItem(items, pfn).value in items;
    StaleFreeWithout(items, pfn);
  }

  lemma TracksWhole(items: seq<Item>, pfn: nat, normal: Page, page: Page)
    requires ItemsOk(items) && WordsTrack(items, pfn, normal, page)
    ensures page == normal <==> StaleFree(items, pfn)
  {
    hide Stale;
    if page == normal {
      forall k: nat | k < WORDS
        ensures !Stale(items, pfn, k)
      {
        assert Word(page, k) == Word(normal, k);
      }
    }
    if StaleFree(items, pfn) {
      forall k | 0 <= k < WORDS
        ensures Word(page, k) == Word(normal, k)
      {
        assert !Stale(items, pfn, k);
      }
      SameWords(page, normal);
    }
  }

  /** One pfn of the mirror after a batch. */
  lemma MirrorPfn(c: Cache, mem: seq<Page>, items: seq<Item>, pfn: nat)
    requires CacheOk(c) && ItemsOk(items) && MemOk(mem, items) && Mirror(c, mem) && Fresh(c, items)
    requires |items| <= |c.order| && pfn < |mem|
    ensures var c', m := CacheAfter(c, items), MemAfter(c, mem, items);
            (pfn in c'.pfns ==> CachedPage(c', pfn) == m[pfn]) <==> StaleFree(items, pfn)
  {
    hide CacheOk, Mirror, CachedPage, Recent, WordsTrack, StaleFree, CacheAfter, MemAfter;
    CacheTracked(c, items, pfn);
    PageTracked(c, mem, items, pfn);
    NormalIsPage(items, pfn);
    var c', m := CacheAfter(c, items), MemAfter(c, mem, items);
    match LastNormal(items, pfn) {
      case Some(x) => TracksWhole(items, pfn, x, m[pfn]);
      case None =>
        StaleFreeWithout(items, pfn);
        if pfn in c'.pfns {
          MirrorAt(c, mem, pfn);
          FreshUnqueued(c, items, pfn);
        }
    }
  }

  lemma FreshUnqueued(c: Cache, items: seq<Item>, pfn: nat)
    requires ItemsOk(items) && Fresh(c, items) && pfn in c.pfns && LastNormal(items, pfn).None?
    ensures LastItem(items, pfn).None?
  {
    NormalIsPage(items, pfn);
  }

  ghost predicate Matches(c: Cache, mem: seq<Page>, pfn: nat)
    requires CacheOk(c) && pfn < |mem|
  {
    pfn in c.pfns ==> CachedPage(c, pfn) == mem[pfn]
  }

  lemma MirrorByPfn(c: Cache, mem: seq<Page>)
    requires CacheOk(c) && InRange(c, mem)
    ensures Mirror(c, mem) <==> forall p: nat :: p < |mem| ==> Matches(c, mem, p)
  {
    if forall p: nat :: p < |mem| ==> Matches(c, mem, p) {
      forall s | 0 <= s < |c.pfns| && c.pfns[s] != -1
        ensures c.pages[s] == mem[c.pfns[s]]
      {
        assert Matches(c, mem, c.pfns[s]);
        SlotIs(c, c.pfns[s], s);
      }
    }
  }

  /** Only pfns of the receiver's memory are cached. */
  ghost predicate InRange(c: Cache, mem: seq<Page>) {
    forall s :: 0 <= s < |c.pfns| ==> -1 <= c.pfns[s] < |mem|
  }

  lemma {:induction false} StaysInRange(c: Cache, mem: seq<Page>, items: seq<Item>)
    requires CacheOk(c) && ItemsOk(items) && MemOk(mem, items) && InRange(c, mem)
    ensures InRange(CacheAfter(c, items), mem)
    decreases |items|
  {
    if items != [] {
      var front, it := items[..|items| - 1], items[|items| - 1];
      StaysInRange(c, mem, front);
      ChosenOk(CacheAfter(c, front), it.pfn);
    }
  }

  lemma BatchMirror(c: Cache, mem: seq<Page>, items: seq<Item>)
    requires CacheOk(c) && ItemsOk(items) && MemOk(mem, items) && Mirror(c, mem) && Fresh(c, items)
    requires |items| <= |c.order|
    ensures Mirror(CacheAfter(c, items), MemAfter(c, mem, items)) <==> NoneStale(items)
  {
    assert InRange(c, mem);
    hide CacheOk, Mirror, StaleFree, CacheAfter, MemAfter, InRange;
    var c', m := CacheAfter(c, items), MemAfter(c, mem, items);
    StaysInRange(c, mem, items);
    RangeBySize(c', mem, m);
    MirrorByPfn(c', m);
    forall p: nat
      ensures p < |mem| ==> (Matches(c', m, p) <==> StaleFree(items, p))
      ensures p >= |mem| ==> StaleFree(items, p)
    {
      if p < |mem| {
        MirrorPfn(c, mem, items, p);
      } else {
        StaleFreeOutside(mem, items, p);
      }
    }
  }

  lemma RangeBySize(c: Cache, mem: seq<Page>, m: seq<Page>)
    requires InRange(c, mem) && |m| == |mem|
    ensures InRange(c, m)
  {}

  lemma MemoryPfn(c: Cache, mem: seq<Page>, items: seq<Item>, pfn: nat)
    requires CacheOk(c) && ItemsOk(items) && MemOk(mem, items) && Mirror(c, mem) && Fresh(c, items)
    requires |items| <= |c.order| && pfn < |mem|
    ensures MemAfter(c, mem, items)[pfn] == Applied(mem, items)[pfn] <==> Covered(items, pfn)
  {
    hide CacheOk, Mirror, StaleFree, MemAfter, Applied, WordsTrack;
    PageTracked(c, mem, items, pfn);
    AppliedAt(mem, items, pfn);
    NormalIsPage(items, pfn);
    match LastItem(items, pfn) {
      case None => StaleFreeWithout(items, pfn);
      case Some(it) =>
        if !it.raw {
          TracksWhole(items, pfn, it.page, MemAfter(c, mem, items)[pfn]);
        }
    }
  }

  lemma BatchMemory(c: Cache, mem: seq<Page>, items: seq<Item>)
    requires CacheOk(c) && ItemsOk(items) && MemOk(mem, items) && Mirror(c, mem) && Fresh(c, items)
    requires |items| <= |c.order|
    ensures MemAfter(c, mem, items) == Applied(mem, items) <==> AllCovered(items)
  {
    hide CacheOk, Mirror, Covered, MemAfter, Applied, StaleFree;
    var m, goal := MemAfter(c, mem, items), Applied(mem, items);
    forall p: nat
      ensures p < |mem| ==> (m[p] == goal[p] <==> Covered(items, p))
      ensures p >= |mem| ==> Covered(items, p)
    {
      if p < |mem| {
        MemoryPfn(c, mem, items, p);
      } else {
        StaleFreeOutside(mem, items, p);
        FreeIsCovered(items, p);
      }
    }
    if AllCovered(items) {
      assert forall p :: 0 <= p < |mem| ==> m[p] == goal[p];
    }
  }

  lemma FreeIsCovered(items: seq<Item>, pfn: nat)
    requires ItemsOk(items) && StaleFree(items, pfn)
    ensures Covered(items, pfn)
  {}

  // ----- Queueing a batch and flushing it ---------------------------------------------------------------------

  /** All of them queued, in order. */
  ghost function Queued(s: Sys, items: seq<Item>): (t: Sys)
    requires SysOk(s) && ItemsOk(items) && MemOk(s.mem, items)
    ensures SysOk(t) && t.mem == s.mem && t.pending == s.pending + items
    decreases |items|
  {
    if items == [] then s else
      var it := items[|items| - 1];
      var before := Queued(s, items[..|items| - 1]);
      InvalidateOk(before.c, it.pfn);
      Step(before, Queue(it))
  }

  lemma QueueFresh(s: Sys, it: Item)
    requires SysOk(s) && OpOk(s, Queue(it)) && Mirror(s.c, s.mem) && Fresh(s.c, s.pending)
    ensures var t := Step(s, Queue(it)); Mirror(t.c, t.mem) && Fresh(t.c, t.pending) && |t.c.order| == |s.c.order|
  {
    InvalidateOk(s.c, it.pfn);
    hide CacheOk, SlotHolding, ToBack;
    var t := Step(s, Queue(it));
    forall j | 0 <= j < |t.pending| && t.pending[j].raw
      ensures t.pending[j].pfn !in t.c.pfns
    {
      if j < |s.pending| {
        assert t.pending[j] == s.pending[j];
      }
    }
  }

  lemma {:induction false} QueuedFresh(s: Sys, items: seq<Item>)
    requires SysOk(s) && s.pending == [] && Mirror(s.c, s.mem) && ItemsOk(items) && MemOk(s.mem, items)
    ensures var t := Queued(s, items);
            Mirror(t.c, t.mem) && Fresh(t.c, t.pending) && |t.c.order| == |s.c.order| && t.pending == items
    decreases |items|
  {
    hide CacheOk, Mirror, Fresh, Step;
    if items == [] {
      FreshNone(s.c);
    } else {
      var front, it := items[..|items| - 1], items[|items| - 1];
      QueuedFresh(s, front);
      QueueFresh(Queued(s, front), it);
    }
    assert s.pending + items == items;
  }

  lemma FreshNone(c: Cache)
    ensures Fresh(c, [])
  {}

  /** Any batch, raw and normal pages in any order, queued on a mirror and flushed with room for the worst
      case: the cache mirrors the receiver again if and only if no word is stale, and the receiver has
      every page if and only if stale words lie only under raw pages that came last. */
  lemma BatchExact(s: Sys, items: seq<Item>, size: nat)
    requires SysOk(s) && s.pending == [] && Mirror(s.c, s.mem) && ItemsOk(items) && MemOk(s.mem, items)
    requires |items| <= |s.c.order| && WORST * |items| <= size
    ensures var t := Step(Queued(s, items), Flush(size));
            && SysOk(t) && t.pending == []
            && (Mirror(t.c, t.mem) <==> NoneStale(items))
            && (t.mem == Applied(s.mem, items) <==> AllCovered(items))
  {
    hide CacheOk, Mirror, Fresh, SendAll, Receive, Applied, CacheAfter, MemAfter, NoneStale, AllCovered;
    QueuedFresh(s, items);
    var q := Queued(s, items);
    var b := SendAll(q.c, items, 0, size);
    assert b.bytes[0..0 + |b.bytes|] == b.bytes;
    FlushIsFold(q.c, items, s.mem, 0, size, b.bytes, 0);
    AmpleRoom(q.c, items, 0, size);
    assert items[..|items|] == items && items[|items|..] == [];
    BatchMirror(q.c, s.mem, items);
    BatchMemory(q.c, s.mem, items);
  }

  /** Where a raw page came last, that no word is stale says it is the page of the last normal one. */
  lemma RawLast(items: seq<Item>, pfn: nat)
    requires ItemsOk(items) && LastNormal(items, pfn).Some?
    requires LastItem(items, pfn).Some? && LastItem(items, pfn).value.raw
    ensures StaleFree(items, pfn) <==> LastItem(items, pfn).value.page == LastNormal(items, pfn).value
  {
    NormalIsPage(items, pfn);
    RawLastTracks(items, pfn);
    hide WordsTrack, StaleFree;
    TracksWhole(items, pfn, LastNormal(items, pfn).value, LastItem(items, pfn).value.page);
  }

  lemma {:induction false} RawLastTracks(items: seq<Item>, pfn: nat)
    requires ItemsOk(items) && LastNormal(items, pfn).Some?
    requires LastItem(items, pfn).Some? && LastItem(items, pfn).value.raw
    ensures WordsTrack(items, pfn, LastNormal(items, pfn).value, LastItem(items, pfn).value.page)
  {
    hide WordsTrack;
    var front, it := items[..|items| - 1], items[|items| - 1];
    assert items == front + [it];
    NormalIsPage(front, pfn);
    if it.pfn == pfn {
      RawTracks(front, it, LastNormal(front, pfn).value);
    } else {
      RawLastTracks(front, pfn);
      OtherTracks(front, it, pfn, LastNormal(front, pfn).value, LastItem(front, pfn).value.page);
    }
  }

  // ----- Stale words, without the recursion --------------------------------------------------------------------

  /** Normal page a and raw page r of the pfn, with no normal one between and no raw one after r, and no
      normal page after r that differs from a in word k. */
  ghost predicate StaleAt(items: seq<Item>, pfn: nat, k: nat, a: nat, r: nat)
    requires ItemsOk(items) && k < WORDS
  {
    && a < r < |items| && items[a].pfn == items[r].pfn == pfn && !items[a].raw && items[r].raw
    && Changed(items[a].page, items[r].page, k)
    && (forall j :: a < j < r && items[j].pfn == pfn ==> items[j].raw)
    && (forall j :: r < j < |items| && items[j].pfn == pfn ==>
          !items[j].raw && !Changed(items[a].page, items[j].page, k))
  }

  lemma {:induction false} NormalIndex(items: seq<Item>, pfn: nat) returns (a: nat)
    requires ItemsOk(items) && LastNormal(items, pfn).Some?
    ensures a < |items| && items[a].pfn == pfn && !items[a].raw && items[a].page == LastNormal(items, pfn).value
    ensures forall j :: a < j < |items| && items[j].pfn == pfn ==> items[j].raw
  {
    var last := |items| - 1;
    if items[last].pfn == pfn && !items[last].raw {
      a := last;
    } else {
      a := NormalIndex(items[..last], pfn);
    }
  }

  lemma {:induction false} NormalUnique(items: seq<Item>, pfn: nat, a: nat)
    requires ItemsOk(items) && a < |items| && items[a].pfn == pfn && !items[a].raw
    requires forall j :: a < j < |items| && items[j].pfn == pfn ==> items[j].raw
    ensures LastNormal(items, pfn) == Some(items[a].page)
  {
    var last := |items| - 1;
    if a < last {
      NormalUnique(items[..last], pfn, a);
    }
  }

  /** Every normal page of the pfn since has word k as page a had it, the last one too. */
  lemma StaleLast(items: seq<Item>, pfn: nat, k: nat, a: nat, r: nat)
    requires ItemsOk(items) && k < WORDS && StaleAt(items, pfn, k, a, r)
    ensures LastNormal(items, pfn).Some? && |LastNormal(items, pfn).value| == PAGE
    ensures Word(LastNormal(items, pfn).value, k) == Word(items[a].page, k)
  {
    hide Word;
    SomeNormal(items, pfn, a);
    var n := NormalIndex(items, pfn);
    assert n < r ==> n == a;
  }

  lemma {:induction false} SomeNormal(items: seq<Item>, pfn: nat, a: nat)
    requires ItemsOk(items) && a < |items| && items[a].pfn == pfn && !items[a].raw
    ensures LastNormal(items, pfn).Some?
  {
    var last := |items| - 1;
    if a < last {
      SomeNormal(items[..last], pfn, a);
    }
  }

  lemma {:induction false} StaleGives(items: seq<Item>, pfn: nat, k: nat) returns (a: nat, r: nat)
    requires ItemsOk(items) && k < WORDS && Stale(items, pfn, k)
    ensures StaleAt(items, pfn, k, a, r)
  {
    hide Word;
    var last := |items| - 1;
    var front, it := items[..last], items[last];
    if it.pfn == pfn && it.raw {
      a := NormalIndex(front, pfn);
      r := last;
    } else {
      a, r := StaleGives(front, pfn, k);
      if it.pfn == pfn {
        StaleLast(front, pfn, k, a, r);
      }
    }
  }

  lemma {:induction false} StaleFollows(items: seq<Item>, pfn: nat, k: nat, a: nat, r: nat)
    requires ItemsOk(items) && k < WORDS && StaleAt(items, pfn, k, a, r)
    ensures Stale(items, pfn, k)
  {
    hide Word;
    var last := |items| - 1;
    var front := items[..last];
    if r == last {
      NormalUnique(front, pfn, a);
    } else {
      assert StaleAt(front, pfn, k, a, r);
      StaleFollows(front, pfn, k, a, r);
      StaleLast(front, pfn, k, a, r);
    }
  }

  lemma StaleMeans(items: seq<Item>, pfn: nat, k: nat)
    requires ItemsOk(items) && k < WORDS
    ensures Stale(items, pfn, k) <==> exists a, r :: StaleAt(items, pfn, k, a, r)
  {
    hide StaleAt, Stale;
    if Stale(items, pfn, k) {
      var a, r := StaleGives(items, pfn, k);
    }
    if exists a, r :: StaleAt(items, pfn, k, a, r) {
      var a, r :| StaleAt(items, pfn, k, a, r);
      StaleFollows(items, pfn, k, a, r);
    }
  }

  /** The shortest batch that fails: a page, a different raw page, and the first page again, which the
      receiver then never gets. */
  lemma FirstPageLost(s: Sys, pfn: nat, x: Page, y: Page, size: nat)
    requires SysOk(s) && s.pending == [] && Mirror(s.c, s.mem) && pfn < |s.mem| && |x| == |y| == PAGE && x != y
    requires 3 <= |s.c.order| && 3 * WORST <= size
    ensures var items := [Item(pfn, x, false), Item(pfn, y, true), Item(pfn, x, false)];
            && ItemsOk(items) && MemOk(s.mem, items)
            && var t := Step(Queued(s, items), Flush(size));
               !Mirror(t.c, t.mem) && t.mem != Applied(s.mem, items)
  {
    var items := [Item(pfn, x, false), Item(pfn, y, true), Item(pfn, x, false)];
    assert ItemsOk(items) && MemOk(s.mem, items) && |items| == 3;
    var k := SomeWord(x, y);
    assert StaleAt(items, pfn, k, 0, 1);
    StaleFollows(items, pfn, k, 0, 1);
    assert !StaleFree(items, pfn);
    assert LastItem(items, pfn) == Some(items[2]);
    hide CacheOk, Mirror, Step, Queued, Applied, StaleFree, Stale;
    assert !Covered(items, pfn);
    BatchExact(s, items, size);
  }

  lemma SomeWord(x: Page, y: Page) returns (k: nat)
    requires |x| == |y| == PAGE && x != y
    ensures k < WORDS && Changed(x, y, k)
  {
    if forall j :: 0 <= j < WORDS ==> Word(x, j) == Word(y, j) {
      SameWords(x, y);
      assert false;
    }
    k :| 0 <= k < WORDS && Word(x, k) != Word(y, k);
  }

  // ----- Sending a page again ------------------------------------------------------------------------------------

  /** A flush whose first item is cached: that item's delta comes first. */
  lemma FirstOut(s: Sys, size: nat)
    requires SysOk(s) && s.pending != [] && size >= WORST && !s.pending[0].raw && s.pending[0].pfn in s.c.pfns
    ensures var it, b := s.pending[0], SendAll(s.c, s.pending, 0, size);
            && it.pfn < |s.mem| && MemOk(s.mem, [it]) && b.count >= 1 && |s.mem[it.pfn]| == PAGE
            && Receive(s.mem, [it], b.bytes, 0)
                 == s.mem[it.pfn := Patch(CachedPage(s.c, it.pfn), it.page, s.mem[it.pfn])]
  {
    hide CacheOk, Sent, Refused, Wire, Decode, Asks, CachedPage, Patch;
    var it, b := s.pending[0], SendAll(s.c, s.pending, 0, size);
    WireFits(s.c, it);
    var wire := Wire(s.c, it);
    assert b.bytes[0..|wire|] == wire;
    WirePatches(s.c, it, s.mem[it.pfn], b.bytes, 0);
    assert [it][1..] == [];
  }

  /** Sending the page that is cached changes nothing at the receiver, whatever it has. */
  lemma ResendLeaves(s: Sys, it: Item, size: nat)
    requires SysOk(s) && s.pending == [] && !it.raw && it.pfn < |s.mem| && |it.page| == PAGE && size >= WORST
    requires it.pfn in s.c.pfns && CachedPage(s.c, it.pfn) == it.page
    ensures var t := Step(s, Queue(it)); SysOk(t) && Step(t, Flush(size)).mem == s.mem
  {
    hide CacheOk, CachedPage, SendAll, Receive, Patch;
    var t := Step(s, Queue(it));
    assert t.pending == [it];
    FirstOut(t, size);
    PatchSame(s.mem[it.pfn], it.page);
    var b := SendAll(t.c, t.pending, 0, size);
    assert t.pending[..b.count] == [it];
    assert s.mem[it.pfn := s.mem[it.pfn]] == s.mem;
  }

  // ----- Running out of room at a page that is not cached ----------------------------------------------------------

  /** The page of the least recently used slot. */
  ghost function Oldest(c: Cache): (page: Page)
    requires CacheOk(c)
    ensures |page| == PAGE
  {
    c.pages[Last(c.order)]
  }

  /** The slot the page was given still holds the page of the pfn it was taken from. */
  lemma RefusedHolds(c: Cache, it: Item)
    requires CacheOk(c) && !it.raw && it.pfn !in c.pfns
    ensures it.pfn in Refused(c, it).pfns && CachedPage(Refused(c, it), it.pfn) == Oldest(c)
  {
    ChosenOk(c, it.pfn);
    var c', s := Refused(c, it), Last(c.order);
    assert c'.pfns[s] == it.pfn;
    SlotIs(c', it.pfn, s);
  }

  /** A stop on a miss, wherever in the queue: the items before it are out, and it has a slot already. */
  lemma {:induction false} StoppedAt(c: Cache, items: seq<Item>, pos: nat, size: nat)
    requires CacheOk(c) && ItemsOk(items) && StopsOnMiss(c, items, pos, size)
    ensures var b := SendAll(c, items, pos, size);
            && b.count < |items| && !items[b.count].raw
            && var before := CacheAfter(c, items[..b.count]);
               items[b.count].pfn !in before.pfns && b.c == Refused(before, items[b.count])
    decreases |items|
  {
    hide CacheOk, Sent, Refused, Wire, Asks;
    if pos + Asks(c, items[0]) <= size {
      var wire := Wire(c, items[0]);
      StoppedAt(Sent(c, items[0]), items[1..], pos + |wire|, size);
      var n := SendAll(c, items, pos, size).count;
      AfterFirstCache(c, items[..n]);
      assert items[..n][1..] == items[1..][..n - 1];
    } else {
      assert items[..0] == [];
    }
  }

  lemma {:induction false} AfterFirstCache(c: Cache, items: seq<Item>)
    requires CacheOk(c) && ItemsOk(items) && items != []
    ensures CacheAfter(c, items) == CacheAfter(Sent(c, items[0]), items[1..])
    decreases |items|
  {
    hide CacheOk, Sent;
    var last := |items| - 1;
    if last == 0 {
      assert items[..0] == [] && items[1..] == [];
      assert CacheAfter(c, []) == c;
    } else {
      var front := items[..last];
      AfterFirstCache(c, front);
      assert front[1..] == items[1..][..last - 1] && items[1..][last - 1] == items[last];
    }
  }

  /** The mirror holds up to any point of a safe queue. */
  lemma {:induction false} PrefixMirror(c: Cache, items: seq<Item>, mem: seq<Page>, n: nat)
    requires CacheOk(c) && ItemsOk(items) && MemOk(mem, items) && Mirror(c, mem) && SafeQueue(c, items) && n <= |items|
    ensures Mirror(CacheAfter(c, items[..n]), Applied(mem, items[..n]))
    decreases n
  {
    hide CacheOk, Mirror, SafeQueue, Sent;
    if n == 0 {
      assert items[..0] == [];
    } else {
      var it := items[0];
      SafeFirst(c, items);
      SendKeepsMirror(c, it, mem);
      SafeNext(c, items);
      PrefixMirror(Sent(c, it), items[1..], mem[it.pfn := it.page], n - 1);
      AfterFirstCache(c, items[..n]);
      assert items[..n][0] == it && items[..n][1..] == items[1..][..n - 1];
    }
  }

  lemma SafeFirst(c: Cache, items: seq<Item>)
    requires SafeQueue(c, items) && items != []
    ensures items[0].raw ==> items[0].pfn !in c.pfns
  {}

  /** Words in which the page taken over agrees with the new one must be right at the receiver already. */
  ghost predicate RetryDelivers(stale: Page, now: Page, page: Page)
    requires |stale| == |now| == |page| == PAGE
  {
    forall k :: 0 <= k < WORDS && !Changed(stale, now, k) ==> Word(page, k) == Word(now, k)
  }

  lemma PatchDelivers(stale: Page, now: Page, page: Page)
    requires |stale| == |now| == |page| == PAGE
    ensures Patch(stale, now, page) == now <==> RetryDelivers(stale, now, page)
  {
    hide Patch;
    var p := Patch(stale, now, page);
    forall k | 0 <= k < WORDS
      ensures Word(p, k) == if Changed(stale, now, k) then Word(now, k) else Word(page, k)
    {
      PatchWord(stale, now, page, k);
    }
    if RetryDelivers(stale, now, page) {
      hide Word;
      SameWords(p, now);
    }
  }

  /** A flush that stops at a page that is not cached, anywhere in a queue: the pages before it have
      arrived; the mirror survives exactly when the slot taken over holds the receiver's page; and the
      retry brings the page across exactly when every word in which that slot agrees with it is right at
      the receiver. */
  lemma StopOnMiss(s: Sys, size: nat, retry: nat)
    requires Sound(s) && StopsOnMiss(s.c, s.pending, 0, size) && retry >= WORST
    ensures var n := SendAll(s.c, s.pending, 0, size).count;
            && n < |s.pending|
            && var t, it, before := Step(s, Flush(size)), s.pending[n], CacheAfter(s.c, s.pending[..n]);
               && SysOk(t) && t.pending == s.pending[n..] && t.mem == Applied(s.mem, s.pending[..n]) && it.pfn < |t.mem|
               && var stale := Oldest(before);
                  && (Mirror(t.c, t.mem) <==> stale == t.mem[it.pfn])
                  && MemOk(t.mem, [it])
                  && var u := Receive(t.mem, [it], SendAll(t.c, t.pending, 0, retry).bytes, 0);
                     u == Applied(t.mem, [it]) <==> RetryDelivers(stale, it.page, t.mem[it.pfn])
  {
    hide CacheOk, Mirror, SafeQueue, StopsOnMiss, SendAll, Receive, Refused, CacheAfter, CachedPage, Patch;
    StoppedAt(s.c, s.pending, 0, size);
    var b := SendAll(s.c, s.pending, 0, size);
    var n := b.count;
    var t, it, before := Step(s, Flush(size)), s.pending[n], CacheAfter(s.c, s.pending[..n]);
    assert b.bytes[0..0 + |b.bytes|] == b.bytes;
    BatchDelivers(s.c, s.pending, s.mem, 0, size, b.bytes, 0);
    RefusedHolds(before, it);
    assert t.pending[0] == it;
    PrefixMirror(s.c, s.pending, s.mem, n);
    RefusalKeepsMirror(before, it, t.mem);
    FirstOut(t, retry);
    var stale := Oldest(before);
    PatchDelivers(stale, it.page, t.mem[it.pfn]);
    AppliedOne(t.mem, it);
    var u := t.mem[it.pfn := Patch(stale, it.page, t.mem[it.pfn])];
    assert u[it.pfn] == Patch(stale, it.page, t.mem[it.pfn]);
    assert Applied(t.mem, [it])[it.pfn] == it.page;
  }

  lemma AppliedOne(mem: seq<Page>, it: Item)
    requires MemOk(mem, [it]) && |it.page| == PAGE && it.pfn < |mem|
    ensures ItemsOk([it]) && Applied(mem, [it]) == mem[it.pfn := it.page]
  {
    assert [it][1..] == [];
  }
}
