/** Writing changed pages, groups and index sectors to free sectors (disk_write.c). */
module DiskWrite {
  import opened Arith
  import opened Wrappers
  import opened DiskFormat
  import opened DiskIo
  import opened DiskMemory

  /** Pages that may be written: valid copies are on disk and marked for this slot. */
  ghost predicate PagesReady(io: Io, slot: bv8, pages: seq<MemPage>) {
    forall i :: 0 <= i < |pages| ==>
      && PageOnDisk(io.disk, pages[i])
      && |pages[i].vtpms| <= VTPMS_PER_SECTOR
      && (pages[i].loc != 0 ==> InUse(io.map_, slot, {pages[i].loc}))
  }

  lemma PagesReadyFrame(a: Io, b: Io, slot: bv8, pages: seq<MemPage>)
    requires Advanced(a, b, slot) && PagesReady(a, slot, pages)
    ensures PagesReady(b, slot, pages)
  {
    forall i | 0 <= i < |pages|
      ensures PageOnDisk(b.disk, pages[i])
      ensures pages[i].loc != 0 ==> InUse(b.map_, slot, {pages[i].loc})
    {
      if pages[i].loc != 0 {
        AdvancedKeeps(a, b, slot, slot, {pages[i].loc});
        assert pages[i].loc in {pages[i].loc};
      }
    }
  }

  /** `after` is `before` with pages base .. base + n given valid copies on disk. */
  ghost predicate Written(before: seq<MemPage>, after: seq<MemPage>, base: nat, n: nat) {
    && |after| == |before| && base + n <= |before|
    && (forall i :: base <= i < base + n ==>
          after[i].loc != 0 && after[i].hash == PageHash(before[i]) && after[i].vtpms == before[i].vtpms)
    && (forall i :: 0 <= i < base || base + n <= i < |before| ==> after[i] == before[i])
  }

  lemma WrittenTransitive(a: seq<MemPage>, b: seq<MemPage>, c: seq<MemPage>, base: nat, n: nat, m: nat)
    requires Written(a, b, base, n) && Written(b, c, base + n, m)
    ensures Written(a, c, base, n + m)
  {}

  // ----- How many sectors a write takes ---------------------------------------------------------

  function PageCost(p: MemPage): nat {
    if p.loc == 0 then 1 else 0
  }

  /** Pages base .. base + n that have no valid copy on disk. */
  function StalePages(pages: seq<MemPage>, base: nat, n: nat): nat
    requires base + n <= |pages|
  {
    if n == 0 then 0 else StalePages(pages, base, n - 1) + PageCost(pages[base + n - 1])
  }

  lemma {:induction false} StaleSplit(pages: seq<MemPage>, base: nat, n: nat, m: nat)
    requires base + n + m <= |pages|
    ensures StalePages(pages, base, n + m) == StalePages(pages, base, n) + StalePages(pages, base + n, m)
    decreases m
  {
    if m > 0 {
      StaleSplit(pages, base, n, m - 1);
    }
  }

  lemma {:induction false} StaleSame(pages: seq<MemPage>, pages': seq<MemPage>, base: nat, n: nat)
    requires base + n <= |pages| == |pages'| && forall i :: base <= i < base + n ==> pages'[i] == pages[i]
    ensures StalePages(pages', base, n) == StalePages(pages, base, n)
  {
    if n > 0 {
      StaleSame(pages, pages', base, n - 1);
    }
  }

  /** Index sectors above `n` entries that hang from an array of `hsize` references. */
  function IndexSectors(n: nat, hsize: nat): nat
    requires hsize >= 1
    decreases Level(n, hsize), 1, 0
  {
    var k := Level(n, hsize);
    CapacityGrows(k, 1);
    if k == 0 then 0 else ChildSectors(n, k, Width(n, Capacity(k, 1)))
  }

  /** Index sectors in and below the first `m` children. */
  function ChildSectors(n: nat, k: nat, m: nat): nat
    requires k > 0
    decreases k, 0, m
  {
    if m == 0 then 0
    else
      var c := ChildEntries(n, Capacity(k, 1), m - 1);
      ChildLevel(c, k);
      ChildSectors(n, k, m - 1) + 1 + IndexSectors(c, NR_ENTRIES_PER_ITREE)
  }

  lemma {:induction false} ChildSectorsGrow(n: nat, k: nat, i: nat, m: nat)
    requires k > 0 && i <= m
    ensures ChildSectors(n, k, i) <= ChildSectors(n, k, m)
    decreases m - i
  {
    if i < m {
      hide IndexSectors, Level, Capacity;
      ChildSectorsGrow(n, k, i, m - 1);
    }
  }

  /** What writing `n` pages and the index above them takes. */
  function TreeCost(pages: seq<MemPage>, base: nat, n: nat, hsize: nat): nat
    requires base + n <= |pages| && hsize >= 1
  {
    StalePages(pages, base, n) + IndexSectors(n, hsize)
  }

  function GroupCost(h: GroupHdr): nat {
    if h.loc != 0 || h.v.None? then 0
    else TreeCost(h.v.value.pages, 0, |h.v.value.pages|, NR_ENTRIES_PER_GROUP_BASE) + 1
  }

  function GroupsCost(gs: seq<GroupHdr>, n: nat): nat
    requires n <= |gs|
  {
    if n == 0 then 0 else GroupsCost(gs, n - 1) + GroupCost(gs[n - 1])
  }

  lemma {:induction false} GroupsCostGrows(gs: seq<GroupHdr>, i: nat, n: nat)
    requires i <= n <= |gs|
    ensures GroupsCost(gs, i) <= GroupsCost(gs, n)
    decreases n - i
  {
    if i < n {
      GroupsCostGrows(gs, i, n - 1);
    }
  }

  /** Sectors a sync of these groups takes, the root and seal list aside. */
  function SyncCost(gs: seq<GroupHdr>, hsize: nat): nat {
    GroupsCost(gs, |gs|) + if |gs| <= hsize then 0 else 1
  }

  // ----- Pages ----------------------------------------------------------------------------------

  /** disk_write_vtpm_page: nothing to do while the copy on disk is valid. */
  method WriteVtpmPage(dev: Device, p: MemPage, root: nat) returns (ok: bool, p': MemPage)
    requires dev.Valid() && PagesReady(dev.Snap(), Slot(root), [p])
    modifies dev, dev.inuse
    ensures Advanced(old(dev.Snap()), dev.Snap(), Slot(root))
    ensures ok ==> Written([p], [p'], 0, 1) && PagesReady(dev.Snap(), Slot(root), [p'])
    ensures ok ==> PageLeaf(dev.disk, p'.hash, p'.loc) == Some(Found(PageImage(p), {p'.loc}))
    ensures Spent(old(dev.inuse[..]), dev.inuse[..], PageCost(p), ok)
  {
    hide FreeCount;
    assert [p][0] == p;
    if p.loc != 0 {
      assert Since(dev.Snap(), dev.Snap()) == [];
      return true, p;
    }
    var image := DiskImage(p.vtpms);
    var loc;
    ok, loc := dev.WriteCryptSector(PageSector(image), root);
    assert loc in {loc};
    p' := MemPage(loc, OfPage(image), p.vtpms);
  }

  lemma AdvancedRefl(io: Io, slot: bv8)
    requires |io.map_| == DISK_MAX_SECTOR
    ensures Advanced(io, io, slot)
  {
    assert Since(io, io) == [];
  }

  lemma SectorsOfConcat(xs: seq<nat>, ys: seq<nat>)
    ensures SectorsOf(xs + ys) == SectorsOf(xs) + SectorsOf(ys)
  {}

  /** The sectors of a freshly written array: reserved, dynamic, and holding the walked leaves. */
  ghost predicate Reserved(io: Io, slot: bv8, sectors: set<nat>) {
    Dynamic(sectors) && InUse(io.map_, slot, sectors)
  }

  lemma ReservedFrame(a: Io, b: Io, slot: bv8, sectors: set<nat>)
    requires Advanced(a, b, slot) && Reserved(a, slot, sectors)
    ensures Reserved(b, slot, sectors) && Agree(a.disk, b.disk, sectors)
  {
    AdvancedKeeps(a, b, slot, slot, sectors);
  }

  /** Extending a walked array of leaves by one entry, after the disk has moved on. */
  lemma LeavesSnoc<T(!new)>(leaf: Leaf<T>, a: Io, b: Io, slot: bv8, hs: seq<Hash>, ls: seq<nat>, m: nat, f: Forest<T>,
                            h: Hash, l: nat, x: Found<T>)
    requires Framed(leaf) && Advanced(a, b, slot)
    requires |hs| == |ls| == m
    requires WalkLeaves(leaf, a.disk, hs, ls, m) == Some(f) && Reserved(a, slot, f.sectors)
    requires leaf(b.disk, h, l) == Some(x)
    ensures WalkLeaves(leaf, b.disk, hs + [h], ls + [l], m + 1)
         == Some(Forest(f.values + [x.value], f.sectors + x.sectors))
  {
    ReservedFrame(a, b, slot, f.sectors);
    assert (hs + [h])[..m] == hs[..m] && (ls + [l])[..m] == ls[..m];
    WalkLeavesFrame(leaf, a.disk, b.disk, hs, ls, hs + [h], ls + [l], m);
  }

  /** What one iteration of the page loop adds to the walked array. */
  lemma PagesSnoc(a: Io, b: Io, slot: bv8, pages: seq<MemPage>, base: nat, i: nat, hs: seq<Hash>, ls: seq<nat>,
                  p: MemPage)
    requires Advanced(a, b, slot) && base + i < |pages| && |hs| == |ls| == i
    requires WalkLeaves(PageLeaf, a.disk, hs, ls, i) == Some(Forest(PageImages(pages[base..base + i]), SectorsOf(ls)))
    requires Reserved(a, slot, SectorsOf(ls))
    requires PageLeaf(b.disk, p.hash, p.loc) == Some(Found(PageImage(pages[base + i]), {p.loc}))
    requires Reserved(b, slot, {p.loc})
    ensures WalkLeaves(PageLeaf, b.disk, hs + [p.hash], ls + [p.loc], i + 1) ==
            Some(Forest(PageImages(pages[base..base + i + 1]), SectorsOf(ls + [p.loc])))
    ensures Reserved(b, slot, SectorsOf(ls + [p.loc]))
  {
    hide Advanced, PageLeaf, PageImage;
    PageLeafFramed();
    LeavesSnoc(PageLeaf, a, b, slot, hs, ls, i, Forest(PageImages(pages[base..base + i]), SectorsOf(ls)),
               p.hash, p.loc, Found(PageImage(pages[base + i]), {p.loc}));
    ReservedFrame(a, b, slot, SectorsOf(ls));
    SectorsOfConcat(ls, [p.loc]);
    assert SectorsOf([p.loc]) == {p.loc};
    assert PageImages(pages[base..base + i + 1]) == PageImages(pages[base..base + i]) + [PageImage(pages[base + i])];
  }

  /** State of the page loop after `i` pages. */
  ghost predicate PagesLoop(start: Io, io: Io, slot: bv8, pages: seq<MemPage>, pages': seq<MemPage>, base: nat, i: nat,
                            hs: seq<Hash>, ls: seq<nat>)
  {
    && Advanced(start, io, slot)
    && Written(pages, pages', base, i) && PagesReady(io, slot, pages')
    && |hs| == |ls| == i && (forall j :: base <= j < base + i ==> pages'[j].loc in ls)
    && WalkLeaves(PageLeaf, io.disk, hs, ls, i) == Some(Forest(PageImages(pages[base..base + i]), SectorsOf(ls)))
    && Reserved(io, slot, SectorsOf(ls))
  }

  lemma WrittenSnoc(pages: seq<MemPage>, pages': seq<MemPage>, base: nat, i: nat, p: MemPage, ls: seq<nat>)
    requires Written(pages, pages', base, i) && base + i < |pages|
    requires p.loc != 0 && p.hash == PageHash(pages'[base + i]) && p.vtpms == pages'[base + i].vtpms
    requires forall j :: base <= j < base + i ==> pages'[j].loc in ls
    ensures Written(pages, pages'[base + i := p], base, i + 1)
    ensures var after := pages'[base + i := p]; forall j :: base <= j < base + i + 1 ==> after[j].loc in ls + [p.loc]
  {}

  lemma PagesReadyUpdate(io: Io, slot: bv8, pages: seq<MemPage>, i: nat, p: MemPage)
    requires PagesReady(io, slot, pages) && i < |pages| && PagesReady(io, slot, [p])
    ensures PagesReady(io, slot, pages[i := p])
  {
    assert [p][0] == p;
  }

  lemma PagesLoopStep(start: Io, a: Io, b: Io, slot: bv8, pages: seq<MemPage>, pages': seq<MemPage>, base: nat, i: nat,
                      hs: seq<Hash>, ls: seq<nat>, p: MemPage)
    requires PagesLoop(start, a, slot, pages, pages', base, i, hs, ls) && base + i < |pages|
    requires slot != 0 && Advanced(a, b, slot)
    requires Written([pages'[base + i]], [p], 0, 1) && PagesReady(b, slot, [p])
    requires PageLeaf(b.disk, p.hash, p.loc) == Some(Found(PageImage(pages'[base + i]), {p.loc}))
    ensures PagesLoop(start, b, slot, pages, pages'[base + i := p], base, i + 1, hs + [p.hash], ls + [p.loc])
  {
    assert [p][0] == p && [pages'[base + i]][0] == pages'[base + i];
    WrittenSnoc(pages, pages', base, i, p, ls);
    assert Advanced(start, b, slot) by {
      AdvancedTransitive(start, a, b, slot);
    }
    assert PagesReady(b, slot, pages'[base + i := p]) by {
      PagesReadyFrame(a, b, slot, pages');
      PagesReadyUpdate(b, slot, pages', base + i, p);
    }
    PagesSnoc(a, b, slot, pages, base, i, hs, ls, p);
  }

  lemma PagesLoopInit(io: Io, slot: bv8, pages: seq<MemPage>, base: nat)
    requires |io.map_| == DISK_MAX_SECTOR && PagesReady(io, slot, pages) && base <= |pages|
    ensures PagesLoop(io, io, slot, pages, pages, base, 0, [], [])
  {
    AdvancedRefl(io, slot);
    assert PageImages(pages[base..base]) == [] && SectorsOf([]) == {};
  }

  /** The next page of the loop is still as it was, and may be written. */
  lemma PagesLoopPage(start: Io, io: Io, slot: bv8, pages: seq<MemPage>, pages': seq<MemPage>, base: nat, i: nat,
                      hs: seq<Hash>, ls: seq<nat>)
    requires PagesLoop(start, io, slot, pages, pages', base, i, hs, ls)
    ensures Advanced(start, io, slot) && |pages'| == |pages|
    ensures base + i < |pages| ==> pages'[base + i] == pages[base + i] && PagesReady(io, slot, [pages'[base + i]])
  {}

  /** The leaf loop of disk_write_vtpm_itree. */
  method WriteVtpmPages(dev: Device, pages: seq<MemPage>, base: nat, n: nat, root: nat)
    returns (ok: bool, pages': seq<MemPage>, hs: seq<Hash>, ls: seq<nat>)
    requires dev.Valid() && PagesReady(dev.Snap(), Slot(root), pages) && base + n <= |pages|
    modifies dev, dev.inuse
    ensures Advanced(old(dev.Snap()), dev.Snap(), Slot(root))
    ensures ok ==> PagesLoop(old(dev.Snap()), dev.Snap(), Slot(root), pages, pages', base, n, hs, ls)
    ensures Spent(old(dev.inuse[..]), dev.inuse[..], StalePages(pages, base, n), ok)
  {
    hide Spent, PageCost, Advanced, PagesReady, PagesLoop;
    ghost var start := dev.Snap();
    SpentNone(start.map_);
    PagesLoopInit(start, Slot(root), pages, base);
    ok, pages', hs, ls := true, pages, [], [];
    for i := 0 to n
      invariant PagesLoop(start, dev.Snap(), Slot(root), pages, pages', base, i, hs, ls)
      invariant ok && Spent(start.map_, dev.inuse[..], StalePages(pages, base, i), true)
    {
      ghost var before := dev.Snap();
      var p;
      PagesLoopPage(start, before, Slot(root), pages, pages', base, i, hs, ls);
      ok, p := WriteVtpmPage(dev, pages'[base + i], root);
      SpentBoth(start.map_, before.map_, dev.inuse[..], StalePages(pages, base, i), PageCost(pages[base + i]), ok);
      if !ok {
        AdvancedTransitive(start, before, dev.Snap(), Slot(root));
        StaleSplit(pages, base, i + 1, n - i - 1);
        SpentShort(start.map_, dev.inuse[..], StalePages(pages, base, i + 1), StalePages(pages, base, n));
        return;
      }
      PagesLoopStep(start, before, dev.Snap(), Slot(root), pages, pages', base, i, hs, ls, p);
      pages' := pages'[base + i := p];
      hs, ls := hs + [p.hash], ls + [p.loc];
    }
    PagesLoopPage(start, dev.Snap(), Slot(root), pages, pages', base, n, hs, ls);
  }

  /** Extending a walked array of itree references by one child, after the disk has moved on. */
  lemma ChildrenSnoc<T(!new)>(leaf: Leaf<T>, a: Io, b: Io, slot: bv8, n: nat, k: nat, hs: seq<Hash>, ls: seq<nat>,
                              m: nat,
                              f: Forest<T>, h: seq<Hash>, l: seq<nat>, loc: nat, child: Forest<T>)
    requires Framed(leaf) && Advanced(a, b, slot)
    requires k > 0 && |hs| == |ls| == m
    requires WalkChildren(leaf, a.disk, n, k, hs, ls, m) == Some(f) && Reserved(a, slot, f.sectors)
    requires At(b.disk, loc) == ItreeSector(h, l)
    requires WalkTree(leaf, b.disk, ChildEntries(n, Capacity(k, 1), m), h, l, NR_ENTRIES_PER_ITREE) == Some(child)
    ensures WalkChildren(leaf, b.disk, n, k, hs + [OfItree(h)], ls + [loc], m + 1)
         == Some(Forest(f.values + child.values, f.sectors + {loc} + child.sectors))
  {
    ReservedFrame(a, b, slot, f.sectors);
    var hs', ls' := hs + [OfItree(h)], ls + [loc];
    assert hs'[..m] == hs[..m] && ls'[..m] == ls[..m];
    WalkChildrenFrame(leaf, a.disk, b.disk, n, k, hs, ls, hs', ls', m);
    ChildLevel(ChildEntries(n, Capacity(k, 1), m), k);
  }

  /** From `start` to `io`, pages base .. base + n were given copies on disk, all within the
      reserved sectors `s`. */
  ghost predicate Batch(start: Io, io: Io, slot: bv8, pages: seq<MemPage>, pages': seq<MemPage>, base: nat, n: nat,
                        s: set<nat>)
  {
    && Advanced(start, io, slot)
    && |pages'| == |pages| && Written(pages, pages', base, n) && PagesReady(io, slot, pages')
    && (forall j :: base <= j < base + n ==> pages'[j].loc in s)
    && Reserved(io, slot, s)
  }

  lemma BatchCompose(start: Io, a: Io, b: Io, slot: bv8, pages: seq<MemPage>, p1: seq<MemPage>, p2: seq<MemPage>,
                     base: nat, n: nat, m: nat, s1: set<nat>, s2: set<nat>)
    requires slot != 0
    requires Batch(start, a, slot, pages, p1, base, n, s1) && Batch(a, b, slot, p1, p2, base + n, m, s2)
    ensures Batch(start, b, slot, pages, p2, base, n + m, s1 + s2)
  {
    WrittenTransitive(pages, p1, p2, base, n, m);
    assert Advanced(start, b, slot) by {
      AdvancedTransitive(start, a, b, slot);
    }
    assert Reserved(b, slot, s1) by {
      ReservedFrame(a, b, slot, s1);
    }
  }

  lemma BatchExtend(start: Io, a: Io, b: Io, slot: bv8, pages: seq<MemPage>, pages': seq<MemPage>, base: nat, n: nat,
                    s: set<nat>, loc: nat)
    requires slot != 0
    requires Batch(start, a, slot, pages, pages', base, n, s) && Advanced(a, b, slot) && Reserved(b, slot, {loc})
    ensures Batch(start, b, slot, pages, pages', base, n, s + {loc})
    ensures Agree(a.disk, b.disk, s)
  {
    assert Advanced(start, b, slot) by {
      AdvancedTransitive(start, a, b, slot);
    }
    ReservedFrame(a, b, slot, s);
    assert PagesReady(b, slot, pages') by {
      PagesReadyFrame(a, b, slot, pages');
    }
  }

  lemma PageTreeFrame(d: Disk, d': Disk, n: nat, hs: seq<Hash>, ls: seq<nat>, hsize: nat, f: Forest<Image>)
    requires hsize >= 1 && WalkTree(PageLeaf, d, n, hs, ls, hsize) == Some(f) && Agree(d, d', f.sectors)
    ensures WalkTree(PageLeaf, d', n, hs, ls, hsize) == Some(f)
  {
    PageLeafFramed();
    WalkTreeFrame(PageLeaf, d, d', n, hs, ls, hsize);
  }

  /** One iteration of the itree loop: write the children of one index sector, then the sector. */
  method WriteVtpmItreeSector(dev: Device, pages: seq<MemPage>, base: nat, c: nat, root: nat)
    returns (ok: bool, pages': seq<MemPage>, h: seq<Hash>, l: seq<nat>, used: seq<nat>, loc: nat)
    requires dev.Valid() && PagesReady(dev.Snap(), Slot(root), pages) && base + c <= |pages|
    modifies dev, dev.inuse
    ensures Advanced(old(dev.Snap()), dev.Snap(), Slot(root))
    ensures ok ==> Batch(old(dev.Snap()), dev.Snap(), Slot(root), pages, pages', base, c, SectorsOf(used) + {loc})
    ensures ok ==> WalkTree(PageLeaf, dev.disk, c, h, l, NR_ENTRIES_PER_ITREE) ==
                   Some(Forest(PageImages(pages[base..base + c]), SectorsOf(used)))
    ensures ok ==> At(dev.disk, loc) == ItreeSector(h, l)
    ensures Spent(old(dev.inuse[..]), dev.inuse[..], TreeCost(pages, base, c, NR_ENTRIES_PER_ITREE) + 1, ok)
    decreases Level(c, NR_ENTRIES_PER_ITREE), 2
  {
    hide Spent, TreeCost, Level, Advanced, PagesReady, WalkTree;
    ghost var start := dev.Snap();
    ok, pages', h, l, used := WriteVtpmItree(dev, pages, base, c, NR_ENTRIES_PER_ITREE, root);
    ghost var mid := dev.Snap();
    ghost var cost := TreeCost(pages, base, c, NR_ENTRIES_PER_ITREE);
    if !ok {
      loc := 0;
      SpentShort(start.map_, mid.map_, cost, cost + 1);
      return;
    }
    ok, loc := dev.WriteCryptSector(ItreeSector(h, l), root);
    SpentBoth(start.map_, mid.map_, dev.inuse[..], cost, 1, ok);
    if !ok {
      AdvancedTransitive(start, mid, dev.Snap(), Slot(root));
      return;
    }
    BatchExtend(start, mid, dev.Snap(), Slot(root), pages, pages', base, c, SectorsOf(used), loc);
    PageTreeFrame(mid.disk, dev.disk, c, h, l, NR_ENTRIES_PER_ITREE,
        Forest(PageImages(pages[base..base + c]), SectorsOf(used)));
  }

  /** disk_write_vtpm_itree: write `n` pages and the index sectors above them. */
  method WriteVtpmItree(dev: Device, pages: seq<MemPage>, base: nat, n: nat, hsize: nat, root: nat)
    returns (ok: bool, pages': seq<MemPage>, hs: seq<Hash>, ls: seq<nat>, used: seq<nat>)
    requires dev.Valid() && PagesReady(dev.Snap(), Slot(root), pages) && base + n <= |pages| && hsize >= 1
    modifies dev, dev.inuse
    ensures Advanced(old(dev.Snap()), dev.Snap(), Slot(root))
    ensures ok ==> Batch(old(dev.Snap()), dev.Snap(), Slot(root), pages, pages', base, n, SectorsOf(used))
    ensures ok ==> WalkTree(PageLeaf, dev.disk, n, hs, ls, hsize) ==
                   Some(Forest(PageImages(pages[base..base + n]), SectorsOf(used)))
    ensures Spent(old(dev.inuse[..]), dev.inuse[..], TreeCost(pages, base, n, hsize), ok)
    decreases Level(n, hsize), 1
  {
    hide Spent, TreeCost, PagesLoop, Batch, Advanced, PagesReady, WalkTree, WalkChildren, StalePages, ChildSectors,
         Width;
    ghost var start := dev.Snap();
    var incr := Increment(n, hsize);
    TreeCostIs(pages, base, n, hsize, incr);
    if n <= hsize {
      ok, pages', hs, ls := WriteVtpmPages(dev, pages, base, n, root);
      used := ls;
      if ok {
        PagesLoopDone(start, dev.Snap(), Slot(root), pages, pages', base, n, hs, ls);
        WalkTreeLeaves(PageLeaf, dev.disk, n, hs, ls, hsize);
      }
    } else {
      assert Level(n, hsize) > 0;
      ok, pages', hs, ls, used := WriteVtpmChildren(dev, pages, base, n, incr, Level(n, hsize), root);
      if ok {
        WalkTreeChildren(PageLeaf, dev.disk, n, hs, ls, hsize, incr);
      }
    }
  }

  lemma TreeCostIs(pages: seq<MemPage>, base: nat, n: nat, hsize: nat, incr: nat)
    requires base + n <= |pages| && hsize >= 1 && 1 <= incr == Capacity(Level(n, hsize), 1)
    ensures TreeCost(pages, base, n, hsize) == StalePages(pages, base, n) +
            if n <= hsize then 0 else ChildSectors(n, Level(n, hsize), Width(n, incr))
    ensures n > hsize ==> Level(n, hsize) > 0
  {
    hide ChildSectors, StalePages, Width;
    assert n <= hsize <==> Level(n, hsize) == 0;
  }

  lemma PagesLoopDone(start: Io, io: Io, slot: bv8, pages: seq<MemPage>, pages': seq<MemPage>, base: nat, n: nat,
                      hs: seq<Hash>, ls: seq<nat>)
    requires PagesLoop(start, io, slot, pages, pages', base, n, hs, ls)
    ensures Batch(start, io, slot, pages, pages', base, n, SectorsOf(ls)) && |hs| == |ls| == n
    ensures WalkLeaves(PageLeaf, io.disk, hs, ls, n) == Some(Forest(PageImages(pages[base..base + n]), SectorsOf(ls)))
  {
    hide Advanced, PagesReady, WalkLeaves, Reserved;
  }

  /** State of the itree loop after `i` index sectors. */
  ghost predicate ChildrenLoop(start: Io, io: Io, slot: bv8, pages: seq<MemPage>, pages': seq<MemPage>, base: nat,
                               n: nat, k: nat, i: nat, hs: seq<Hash>, ls: seq<nat>, used: seq<nat>)
  {
    && k > 0 && base + n <= |pages| && |hs| == |ls| == i
    && Batch(start, io, slot, pages, pages', base, Covered(n, Capacity(k, 1), i), SectorsOf(used) + SectorsOf(ls))
    && WalkChildren(PageLeaf, io.disk, n, k, hs, ls, i) ==
       Some(Forest(PageImages(pages[base..base + Covered(n, Capacity(k, 1), i)]), SectorsOf(used) + SectorsOf(ls)))
  }

  lemma ImagesSplit(pages: seq<MemPage>, p1: seq<MemPage>, base: nat, off: nat, c: nat)
    requires Written(pages, p1, base, off) && base + off + c <= |pages|
    ensures PageImages(pages[base..base + off + c]) ==
            PageImages(pages[base..base + off]) + PageImages(p1[base + off..base + off + c])
  {}

  lemma PageChildrenSnoc(a: Io, b: Io, slot: bv8, n: nat, k: nat, hs: seq<Hash>, ls: seq<nat>, m: nat,
                         f: Forest<Image>, h: seq<Hash>, l: seq<nat>, loc: nat, child: Forest<Image>)
    requires Advanced(a, b, slot)
    requires k > 0 && |hs| == |ls| == m
    requires WalkChildren(PageLeaf, a.disk, n, k, hs, ls, m) == Some(f) && Reserved(a, slot, f.sectors)
    requires At(b.disk, loc) == ItreeSector(h, l)
    requires WalkTree(PageLeaf, b.disk, ChildEntries(n, Capacity(k, 1), m), h, l, NR_ENTRIES_PER_ITREE) == Some(child)
    ensures WalkChildren(PageLeaf, b.disk, n, k, hs + [OfItree(h)], ls + [loc], m + 1)
         == Some(Forest(f.values + child.values, f.sectors + {loc} + child.sectors))
  {
    PageLeafFramed();
    ChildrenSnoc(PageLeaf, a, b, slot, n, k, hs, ls, m, f, h, l, loc, child);
  }

  lemma ChildrenLoopInit(io: Io, slot: bv8, pages: seq<MemPage>, base: nat, n: nat, k: nat)
    requires |io.map_| == DISK_MAX_SECTOR && PagesReady(io, slot, pages) && base + n <= |pages| && k > 0
    ensures ChildrenLoop(io, io, slot, pages, pages, base, n, k, 0, [], [], [])
  {
    AdvancedRefl(io, slot);
    assert SectorsOf([]) + SectorsOf([]) == {};
    assert pages[base..base + Covered(n, Capacity(k, 1), 0)] == [];
    assert WalkChildren(PageLeaf, io.disk, n, k, [], [], 0) == Some(Forest(PageImages([]), {}));
  }

  lemma ChildrenLoopStep(start: Io, a: Io, b: Io, slot: bv8, pages: seq<MemPage>, p1: seq<MemPage>, p2: seq<MemPage>,
                         base: nat,
                         n: nat, k: nat, i: nat, off: nat, c: nat, hs: seq<Hash>, ls: seq<nat>, used: seq<nat>,
                         h: seq<Hash>, l: seq<nat>, u: seq<nat>, loc: nat)
    requires slot != 0
    requires ChildrenLoop(start, a, slot, pages, p1, base, n, k, i, hs, ls, used)
    requires off == Covered(n, Capacity(k, 1), i) && c == ChildEntries(n, Capacity(k, 1), i)
    requires Batch(a, b, slot, p1, p2, base + off, c, SectorsOf(u) + {loc})
    requires WalkTree(PageLeaf, b.disk, c, h, l, NR_ENTRIES_PER_ITREE) ==
             Some(Forest(PageImages(p1[base + off..base + off + c]), SectorsOf(u)))
    requires At(b.disk, loc) == ItreeSector(h, l)
    ensures ChildrenLoop(start, b, slot, pages, p2, base, n, k, i + 1, hs + [OfItree(h)], ls + [loc], used + u)
  {
    hide Advanced, PagesReady, InUse, WalkTree, WalkChildren, Capacity, Reserved, Written;
    var s := SectorsOf(used) + SectorsOf(ls);
    SectorsOfConcat(ls, [loc]);
    SectorsOfConcat(used, u);
    assert SectorsOf([loc]) == {loc};
    assert SectorsOf(used + u) + SectorsOf(ls + [loc]) == s + (SectorsOf(u) + {loc}) == s + {loc} + SectorsOf(u);
    BatchCompose(start, a, b, slot, pages, p1, p2, base, off, c, s, SectorsOf(u) + {loc});
    ImagesSplit(pages, p1, base, off, c);
    PageChildrenSnoc(a, b, slot, n, k, hs, ls, i, Forest(PageImages(pages[base..base + off]), s), h, l, loc,
                     Forest(PageImages(p1[base + off..base + off + c]), SectorsOf(u)));
  }

  lemma ChildrenLoopDone(start: Io, io: Io, slot: bv8, pages: seq<MemPage>, pages': seq<MemPage>, base: nat,
                         n: nat, k: nat, i: nat, hs: seq<Hash>, ls: seq<nat>, used: seq<nat>)
    requires ChildrenLoop(start, io, slot, pages, pages', base, n, k, i, hs, ls, used)
    requires Covered(n, Capacity(k, 1), i) == n && (i > 0 ==> Covered(n, Capacity(k, 1), i - 1) < n)
    requires Capacity(k, 1) >= 1
    ensures Batch(start, io, slot, pages, pages', base, n, SectorsOf(used + ls))
    ensures |hs| == |ls| == Width(n, Capacity(k, 1))
    ensures WalkChildren(PageLeaf, io.disk, n, k, hs, ls, |ls|) ==
            Some(Forest(PageImages(pages[base..base + n]), SectorsOf(used + ls)))
  {
    WidthReached(n, Capacity(k, 1), i);
    SectorsOfConcat(used, ls);
  }

  /** What the first `i` children of an array take. */
  function ChildrenCost(pages: seq<MemPage>, base: nat, n: nat, k: nat, i: nat): nat
    requires base + n <= |pages| && k > 0
  {
    StalePages(pages, base, Covered(n, Capacity(k, 1), i)) + ChildSectors(n, k, i)
  }

  lemma NoChildCost(m: SectorMap, pages: seq<MemPage>, base: nat, n: nat, k: nat)
    requires base + n <= |pages| && k > 0
    ensures Spent(m, m, ChildrenCost(pages, base, n, k, 0), true)
  {
    SpentNone(m);
  }

  lemma ChildCost(pages: seq<MemPage>, p1: seq<MemPage>, base: nat, n: nat, k: nat, i: nat, off: nat, c: nat)
    requires base + n <= |pages| == |p1| && k > 0
    requires off == Covered(n, Capacity(k, 1), i) && c == ChildEntries(n, Capacity(k, 1), i)
    requires forall j :: base + off <= j < |pages| ==> p1[j] == pages[j]
    ensures off + c == Covered(n, Capacity(k, 1), i + 1) <= n
    ensures ChildrenCost(pages, base, n, k, i + 1) ==
            ChildrenCost(pages, base, n, k, i) + TreeCost(p1, base + off, c, NR_ENTRIES_PER_ITREE) + 1
  {
    hide IndexSectors, Capacity, Level;
    StaleSplit(pages, base, off, c);
    StaleSame(pages, p1, base + off, c);
  }

  lemma ChildrenLoopCost(start: Io, a: Io, b: Io, slot: bv8, pages: seq<MemPage>, p1: seq<MemPage>, base: nat,
                         n: nat, k: nat, i: nat, hs: seq<Hash>, ls: seq<nat>, used: seq<nat>, ok: bool)
    requires ChildrenLoop(start, a, slot, pages, p1, base, n, k, i, hs, ls, used)
    requires Spent(start.map_, a.map_, ChildrenCost(pages, base, n, k, i), true)
    requires var off, c := Covered(n, Capacity(k, 1), i), ChildEntries(n, Capacity(k, 1), i);
             base + off + c <= |p1| && Spent(a.map_, b.map_, TreeCost(p1, base + off, c, NR_ENTRIES_PER_ITREE) + 1, ok)
    ensures Spent(start.map_, b.map_, ChildrenCost(pages, base, n, k, i + 1), ok)
  {
    hide Spent, ChildrenCost, TreeCost, Advanced, PagesReady, WalkChildren, Reserved, Capacity;
    var off, c := Covered(n, Capacity(k, 1), i), ChildEntries(n, Capacity(k, 1), i);
    ChildCost(pages, p1, base, n, k, i, off, c);
    SpentBoth(start.map_, a.map_, b.map_, ChildrenCost(pages, base, n, k, i),
              TreeCost(p1, base + off, c, NR_ENTRIES_PER_ITREE) + 1, ok);
  }

  lemma ChildrenLoopReady(start: Io, io: Io, slot: bv8, pages: seq<MemPage>, pages': seq<MemPage>, base: nat,
                          n: nat, k: nat, i: nat, hs: seq<Hash>, ls: seq<nat>, used: seq<nat>)
    requires ChildrenLoop(start, io, slot, pages, pages', base, n, k, i, hs, ls, used)
    ensures Advanced(start, io, slot) && PagesReady(io, slot, pages') && |pages'| == |pages|
  {
    hide Advanced, PagesReady, WalkChildren, Reserved, Capacity;
  }

  lemma WithinWidth(n: nat, incr: nat, i: nat)
    requires incr >= 1 && Covered(n, incr, i) < n
    ensures i < Width(n, incr)
  {
    CoveredIsProduct(n, incr, i);
    var w := Width(n, incr);
    if i >= w {
      Mono(w, i, incr);
    }
  }

  lemma ChildrenCostAll(pages: seq<MemPage>, base: nat, n: nat, k: nat, i: nat)
    requires base + n <= |pages| && k > 0 && Capacity(k, 1) >= 1
    requires Covered(n, Capacity(k, 1), i) == n && (i > 0 ==> Covered(n, Capacity(k, 1), i - 1) < n)
    ensures ChildrenCost(pages, base, n, k, i)
            == StalePages(pages, base, n) + ChildSectors(n, k, Width(n, Capacity(k, 1)))
  {
    WidthReached(n, Capacity(k, 1), i);
    hide Capacity, Width;
  }

  lemma ChildrenShort(m: SectorMap, m': SectorMap, pages: seq<MemPage>, base: nat, n: nat, k: nat, i: nat)
    requires base + n <= |pages| && k > 0 && Capacity(k, 1) >= 1 && i <= Width(n, Capacity(k, 1))
    requires Spent(m, m', ChildrenCost(pages, base, n, k, i), false)
    ensures Spent(m, m', StalePages(pages, base, n) + ChildSectors(n, k, Width(n, Capacity(k, 1))), false)
  {
    hide Spent, Capacity, Width, Covered;
    var off := Covered(n, Capacity(k, 1), i);
    StaleSplit(pages, base, off, n - off);
    ChildSectorsGrow(n, k, i, Width(n, Capacity(k, 1)));
    SpentShort(m, m', ChildrenCost(pages, base, n, k, i),
        StalePages(pages, base, n) + ChildSectors(n, k, Width(n, Capacity(k, 1))));
  }

  /** The itree loop of disk_write_vtpm_itree. */
  method WriteVtpmChildren(dev: Device, pages: seq<MemPage>, base: nat, n: nat, incr: nat, ghost k: nat, root: nat)
    returns (ok: bool, pages': seq<MemPage>, hs: seq<Hash>, ls: seq<nat>, used: seq<nat>)
    requires dev.Valid() && PagesReady(dev.Snap(), Slot(root), pages) && base + n <= |pages|
    requires k > 0 && incr == Capacity(k, 1) && incr >= 1
    modifies dev, dev.inuse
    ensures Advanced(old(dev.Snap()), dev.Snap(), Slot(root))
    ensures ok ==> Batch(old(dev.Snap()), dev.Snap(), Slot(root), pages, pages', base, n, SectorsOf(used))
    ensures ok ==> |hs| == |ls| == Width(n, incr)
    ensures ok ==> WalkChildren(PageLeaf, dev.disk, n, k, hs, ls, |ls|) ==
                   Some(Forest(PageImages(pages[base..base + n]), SectorsOf(used)))
    ensures Spent(old(dev.inuse[..]), dev.inuse[..], StalePages(pages, base, n) + ChildSectors(n, k, Width(n, incr)),
            ok)
    decreases k, 0
  {
    hide Advanced, PagesReady, ChildrenLoop, Batch, WalkChildren, WalkTree, Spent, ChildrenCost, TreeCost, Level;
    hide ChildSectors, StalePages, Width;
    ghost var start := dev.Snap();
    ok, pages', hs, ls, used := true, pages, [], [], [];
    var off := 0;
    ghost var i := 0;
    ChildrenLoopInit(start, Slot(root), pages, base, n, k);
    NoChildCost(start.map_, pages, base, n, k);
    AdvancedRefl(start, Slot(root));
    while off < n
      invariant ChildrenLoop(start, dev.Snap(), Slot(root), pages, pages', base, n, k, i, hs, ls, used)
      invariant Covered(n, incr, i) == if off < n then off else n
      invariant i > 0 ==> Covered(n, incr, i - 1) < n
      invariant ok && Spent(start.map_, dev.inuse[..], ChildrenCost(pages, base, n, k, i), true)
    {
      var c := if n - off < incr then n - off else incr;
      assert Covered(n, incr, i) == off && Covered(n, incr, i + 1) == off + c && ChildEntries(n, incr, i) == c;
      ghost var before := dev.Snap();
      ghost var p1 := pages';
      var h, l, u, loc;
      ChildLevel(c, k);
      ChildrenLoopReady(start, before, Slot(root), pages, pages', base, n, k, i, hs, ls, used);
      ok, pages', h, l, u, loc := WriteVtpmItreeSector(dev, pages', base + off, c, root);
      ChildrenLoopCost(start, before, dev.Snap(), Slot(root), pages, p1, base, n, k, i, hs, ls, used, ok);
      if !ok {
        AdvancedTransitive(start, before, dev.Snap(), Slot(root));
        WithinWidth(n, incr, i);
        ChildrenShort(start.map_, dev.inuse[..], pages, base, n, k, i + 1);
        return;
      }
      ChildrenLoopStep(start, before, dev.Snap(), Slot(root), pages, p1, pages', base, n, k, i, off, c, hs, ls, used, h,
          l, u, loc);
      hs, ls, used := hs + [OfItree(h)], ls + [loc], used + u;
      off := off + incr;
      i := i + 1;
    }
    ChildrenLoopDone(start, dev.Snap(), Slot(root), pages, pages', base, n, k, i, hs, ls, used);
    ChildrenCostAll(pages, base, n, k, i);
    ok := true;
    used := used + ls;
  }

  // ----- Groups ----------------------------------------------------------------------------

  /** A group that may be written: what it relies on is on disk and marked for this slot. */
  ghost predicate HdrReady(io: Io, slot: bv8, h: GroupHdr) {
    HdrOk(io.disk, h) && InUse(io.map_, slot, HdrSectors(h))
  }

  lemma HdrReadyFrame(a: Io, b: Io, slot: bv8, h: GroupHdr)
    requires Advanced(a, b, slot) && HdrReady(a, slot, h)
    ensures HdrReady(b, slot, h) && GroupOf(b.disk, h) == GroupOf(a.disk, h)
    ensures h.loc != 0 ==> GroupLeaf(b.disk, h.hash, h.loc) == GroupLeaf(a.disk, h.hash, h.loc)
  {
    AdvancedKeeps(a, b, slot, slot, HdrSectors(h));
    HdrFrame(a.disk, b.disk, h);
  }

  lemma HdrPagesReady(io: Io, slot: bv8, h: GroupHdr)
    requires HdrReady(io, slot, h) && h.loc == 0
    ensures h.v.Some? && PagesReady(io, slot, h.v.value.pages)
  {
    var pages := h.v.value.pages;
    forall i | 0 <= i < |pages|
      ensures pages[i].loc != 0 ==> InUse(io.map_, slot, {pages[i].loc})
      ensures PageOnDisk(io.disk, pages[i]) && |pages[i].vtpms| <= VTPMS_PER_SECTOR
    {
      assert pages[i] in pages;
      if pages[i].loc != 0 {
        assert pages[i].loc in PageSectors(pages);
      }
    }
  }

  /** The header after its pages and index sectors are down and its own sector is at `loc`. */
  lemma GroupWritten(start: Io, io: Io, slot: bv8, h: GroupHdr, pages: seq<MemPage>, hs: seq<Hash>, ls: seq<nat>,
                     used: seq<nat>, loc: nat, h': GroupHdr)
    requires h.loc == 0 && HdrOk(start.disk, h) && h.v.value.info.nrSeals <= NR_SEALS_PER_GROUP
    requires Batch(start, io, slot, h.v.value.pages, pages, 0, |pages|, SectorsOf(used) + {loc}) && loc != 0
    requires WalkTree(PageLeaf, io.disk, |pages|, hs, ls, NR_ENTRIES_PER_GROUP_BASE) ==
             Some(Forest(PageImages(h.v.value.pages), SectorsOf(used)))
    requires At(io.disk, loc) == GroupSector(GroupMeta(h.v.value.info, h.v.value.nrVtpms), hs, ls)
    requires h' == GroupHdr(loc, OfGroup(GroupMeta(h.v.value.info, h.v.value.nrVtpms), hs), used,
             Some(h.v.value.(pages := pages)))
    ensures HdrReady(io, slot, h') && GroupOf(io.disk, h') == GroupOf(start.disk, h)
  {
    hide Advanced, WalkTree, GroupLeaf, PagesReady, Written;
    assert HdrSectors(h') == SectorsOf(used) + {loc};
    var meta := GroupMeta(h.v.value.info, h.v.value.nrVtpms);
    BatchPages(start, io, slot, h.v.value.pages, pages, SectorsOf(used), loc);
    LeafOf(io.disk, meta, hs, ls, loc, Forest(PageImages(h.v.value.pages), SectorsOf(used)));
  }

  lemma LeafOf(d: Disk, meta: GroupMeta, hs: seq<Hash>, ls: seq<nat>, loc: nat, f: Forest<Image>)
    requires meta.info.nrSeals <= NR_SEALS_PER_GROUP && At(d, loc) == GroupSector(meta, hs, ls)
    requires WalkTree(PageLeaf, d, PageCount(meta.nrVtpms), hs, ls, NR_ENTRIES_PER_GROUP_BASE) == Some(f)
    ensures GroupLeaf(d, OfGroup(meta, hs), loc) == Some(Found(GroupTree(meta, f.values), {loc} + f.sectors))
  {
    hide WalkTree;
  }

  /** The pages a group was written from are on disk, at sectors of its tree. */
  lemma BatchPages(start: Io, io: Io, slot: bv8, before: seq<MemPage>, pages: seq<MemPage>, s: set<nat>, loc: nat)
    requires Batch(start, io, slot, before, pages, 0, |pages|, s + {loc}) && |before| == |pages|
    ensures |pages| == |before| && forall p :: p in pages ==> PageOnDisk(io.disk, p) && |p.vtpms| <= VTPMS_PER_SECTOR
    ensures PageSectors(pages) <= s + {loc}
  {
    hide Advanced;
  }

  /** disk_write_group_sector: nothing to do while the tree on disk is valid. */
  method WriteGroupSector(dev: Device, h: GroupHdr, root: nat) returns (ok: bool, h': GroupHdr)
    requires dev.Valid() && HdrReady(dev.Snap(), Slot(root), h)
    modifies dev, dev.inuse
    ensures Advanced(old(dev.Snap()), dev.Snap(), Slot(root))
    ensures ok ==> h'.loc != 0 && HdrReady(dev.Snap(), Slot(root), h')
    ensures ok ==> GroupOf(dev.disk, h') == GroupOf(old(dev.disk), h)
    ensures ok ==> (h.loc != 0 ==> h' == h) && (h.loc == 0 ==> SameGroup(h, h'))
    ensures Spent(old(dev.inuse[..]), dev.inuse[..], GroupCost(h), ok)
  {
    hide Advanced, InUse, GroupLeaf, WalkTree, Spent, TreeCost;
    ghost var start := dev.Snap();
    h' := h;
    if h.loc != 0 {
      SpentNone(start.map_);
      AdvancedRefl(start, Slot(root));
      return true, h;
    }
    HdrPagesReady(start, Slot(root), h);
    var group := h.v.value;
    var pages, hs, ls, used;
    ok, pages, hs, ls, used := WriteVtpmItree(dev, group.pages, 0, |group.pages|, NR_ENTRIES_PER_GROUP_BASE, root);
    ghost var cost := TreeCost(group.pages, 0, |group.pages|, NR_ENTRIES_PER_GROUP_BASE);
    if !ok {
      SpentShort(start.map_, dev.inuse[..], cost, cost + 1);
      return;
    }
    if group.info.nrSeals > NR_SEALS_PER_GROUP {
      return false, h;
    }
    var meta := GroupMeta(group.info, group.nrVtpms);
    ghost var mid := dev.Snap();
    var loc;
    ok, loc := dev.WriteCryptSector(GroupSector(meta, hs, ls), root);
    SpentBoth(start.map_, mid.map_, dev.inuse[..], cost, 1, ok);
    if !ok {
      AdvancedTransitive(start, mid, dev.Snap(), Slot(root));
      return;
    }
    assert group.pages[0..|group.pages|] == group.pages;
    BatchExtend(start, mid, dev.Snap(), Slot(root), group.pages, pages, 0, |pages|, SectorsOf(used), loc);
    PageTreeFrame(mid.disk, dev.disk, |pages|, hs, ls, NR_ENTRIES_PER_GROUP_BASE,
        Forest(PageImages(group.pages), SectorsOf(used)));
    assert loc in {loc};
    h' := GroupHdr(loc, OfGroup(meta, hs), used, Some(group.(pages := pages)));
    GroupWritten(start, dev.Snap(), Slot(root), h, pages, hs, ls, used, loc, h');
  }

  /** Writing changes a group's bookkeeping only, never its vTPMs. */
  ghost predicate SameGroup(h: GroupHdr, h': GroupHdr) {
    && h.v.Some? && h'.v.Some?
    && h.v.value.info == h'.v.value.info && h.v.value.nrVtpms == h'.v.value.nrVtpms
    && Written(h.v.value.pages, h'.v.value.pages, 0, |h.v.value.pages|)
  }

  ghost predicate SameGroups(gs: seq<GroupHdr>, gs': seq<GroupHdr>) {
    && |gs'| == |gs|
    && forall i :: 0 <= i < |gs| ==>
         if gs[i].loc != 0 then gs'[i] == gs[i] else SameGroup(gs[i], gs'[i]) || gs'[i] == gs[i]
  }

  ghost predicate GroupsReady(io: Io, slot: bv8, gs: seq<GroupHdr>) {
    forall i :: 0 <= i < |gs| ==> HdrReady(io, slot, gs[i])
  }

  lemma GroupsReadyFrame(a: Io, b: Io, slot: bv8, gs: seq<GroupHdr>)
    requires Advanced(a, b, slot) && GroupsReady(a, slot, gs)
    ensures GroupsReady(b, slot, gs)
    ensures forall i :: 0 <= i < |gs| ==> GroupOf(b.disk, gs[i]) == GroupOf(a.disk, gs[i])
  {
    forall i | 0 <= i < |gs|
      ensures HdrReady(b, slot, gs[i]) && GroupOf(b.disk, gs[i]) == GroupOf(a.disk, gs[i])
    {
      HdrReadyFrame(a, b, slot, gs[i]);
    }
  }

  lemma GroupLeafOf(io: Io, slot: bv8, h: GroupHdr) returns (x: Found<GroupTree>)
    requires HdrReady(io, slot, h) && h.loc != 0
    ensures GroupLeaf(io.disk, h.hash, h.loc) == Some(x) && x.value == GroupOf(io.disk, h)
    ensures Reserved(io, slot, x.sectors)
  {
    x := GroupLeaf(io.disk, h.hash, h.loc).value;
  }

  /** State of the group loop after `i` groups. */
  ghost predicate GroupsLoop(start: Io, io: Io, slot: bv8, gs: seq<GroupHdr>, gs': seq<GroupHdr>, i: nat,
                             hs: seq<Hash>, ls: seq<nat>, f: Forest<GroupTree>)
  {
    && Advanced(start, io, slot) && GroupsOk(start.disk, gs)
    && |gs'| == |gs| && i <= |gs| && |hs| == |ls| == i
    && GroupsReady(io, slot, gs') && SameGroups(gs, gs')
    && (forall j :: 0 <= j < i ==> gs'[j].loc != 0)
    && (forall j :: 0 <= j < |gs| ==> GroupOf(io.disk, gs'[j]) == GroupOf(start.disk, gs[j]))
    && (forall j :: i <= j < |gs| ==> gs'[j] == gs[j])
    && WalkLeaves(GroupLeaf, io.disk, hs, ls, i) == Some(f)
    && f.values == GroupsOf(start.disk, gs)[..i]
    && Reserved(io, slot, f.sectors)
  }

  lemma GroupsLoopInit(io: Io, slot: bv8, gs: seq<GroupHdr>)
    requires |io.map_| == DISK_MAX_SECTOR && GroupsReady(io, slot, gs)
    ensures GroupsLoop(io, io, slot, gs, gs, 0, [], [], Forest([], {}))
  {
    AdvancedRefl(io, slot);
    assert GroupsOk(io.disk, gs);
    assert GroupsOf(io.disk, gs)[..0] == [];
  }

  lemma GroupsLoopStep(start: Io, a: Io, b: Io, slot: bv8, gs: seq<GroupHdr>, gs': seq<GroupHdr>, i: nat,
                       hs: seq<Hash>, ls: seq<nat>, f: Forest<GroupTree>, h: GroupHdr) returns (f': Forest<GroupTree>)
    requires slot != 0 && i < |gs|
    requires GroupsLoop(start, a, slot, gs, gs', i, hs, ls, f)
    requires Advanced(a, b, slot) && h.loc != 0 && HdrReady(b, slot, h)
    requires GroupOf(b.disk, h) == GroupOf(a.disk, gs'[i])
    requires if gs'[i].loc != 0 then h == gs'[i] else SameGroup(gs'[i], h)
    ensures GroupsLoop(start, b, slot, gs, gs'[i := h], i + 1, hs + [h.hash], ls + [h.loc], f')
  {
    hide Advanced, HdrReady, GroupLeaf, InUse, Written, SameGroup;
    AdvancedTransitive(start, a, b, slot);
    GroupsReadyFrame(a, b, slot, gs');
    var x := GroupLeafOf(b, slot, h);
    GroupLeafSnoc(a, b, slot, hs, ls, i, f, h.hash, h.loc, x);
    f' := Forest(f.values + [x.value], f.sectors + x.sectors);
    assert GroupsOf(start.disk, gs)[..i + 1] == GroupsOf(start.disk, gs)[..i] + [GroupOf(start.disk, gs[i])];
  }

  lemma GroupsLoopHdr(start: Io, io: Io, slot: bv8, gs: seq<GroupHdr>, gs': seq<GroupHdr>, i: nat,
                      hs: seq<Hash>, ls: seq<nat>, f: Forest<GroupTree>)
    requires GroupsLoop(start, io, slot, gs, gs', i, hs, ls, f)
    ensures Advanced(start, io, slot) && |gs'| == |gs|
    ensures i < |gs| ==> gs'[i] == gs[i] && HdrReady(io, slot, gs'[i])
  {
    hide Advanced, HdrReady, WalkLeaves, Reserved, SameGroups, GroupLeaf;
  }

  lemma GroupLeafSnoc(a: Io, b: Io, slot: bv8, hs: seq<Hash>, ls: seq<nat>, m: nat, f: Forest<GroupTree>,
                      h: Hash, l: nat, x: Found<GroupTree>)
    requires Advanced(a, b, slot)
    requires |hs| == |ls| == m
    requires WalkLeaves(GroupLeaf, a.disk, hs, ls, m) == Some(f) && Reserved(a, slot, f.sectors)
    requires GroupLeaf(b.disk, h, l) == Some(x) && Reserved(b, slot, x.sectors)
    ensures WalkLeaves(GroupLeaf, b.disk, hs + [h], ls + [l], m + 1)
         == Some(Forest(f.values + [x.value], f.sectors + x.sectors))
    ensures Reserved(b, slot, f.sectors + x.sectors)
  {
    GroupLeafFramed();
    LeavesSnoc(GroupLeaf, a, b, slot, hs, ls, m, f, h, l, x);
    ReservedFrame(a, b, slot, f.sectors);
  }

  /** The leaf loop of disk_write_group_itree, which runs over all groups of the manager. */
  method WriteGroups(dev: Device, gs: seq<GroupHdr>, root: nat)
    returns (ok: bool, gs': seq<GroupHdr>, hs: seq<Hash>, ls: seq<nat>, ghost f: Forest<GroupTree>)
    requires dev.Valid() && GroupsReady(dev.Snap(), Slot(root), gs)
    modifies dev, dev.inuse
    ensures Advanced(old(dev.Snap()), dev.Snap(), Slot(root))
    ensures ok ==> GroupsLoop(old(dev.Snap()), dev.Snap(), Slot(root), gs, gs', |gs|, hs, ls, f)
    ensures Spent(old(dev.inuse[..]), dev.inuse[..], GroupsCost(gs, |gs|), ok)
  {
    hide Advanced, HdrReady, GroupsLoop, GroupsReady, Spent, GroupCost;
    ghost var start := dev.Snap();
    SpentNone(start.map_);
    ok, gs', hs, ls, f := true, gs, [], [], Forest([], {});
    GroupsLoopInit(start, Slot(root), gs);
    for i := 0 to |gs|
      invariant GroupsLoop(start, dev.Snap(), Slot(root), gs, gs', i, hs, ls, f)
      invariant ok && Spent(start.map_, dev.inuse[..], GroupsCost(gs, i), true)
    {
      ghost var before := dev.Snap();
      var h;
      GroupsLoopHdr(start, before, Slot(root), gs, gs', i, hs, ls, f);
      ok, h := WriteGroupSector(dev, gs'[i], root);
      SpentBoth(start.map_, before.map_, dev.inuse[..], GroupsCost(gs, i), GroupCost(gs[i]), ok);
      if !ok {
        AdvancedTransitive(start, before, dev.Snap(), Slot(root));
        GroupsCostGrows(gs, i + 1, |gs|);
        SpentShort(start.map_, dev.inuse[..], GroupsCost(gs, i + 1), GroupsCost(gs, |gs|));
        return;
      }
      f := GroupsLoopStep(start, before, dev.Snap(), Slot(root), gs, gs', i, hs, ls, f, h);
      gs' := gs'[i := h];
      hs, ls := hs + [h.hash], ls + [h.loc];
    }
    GroupsLoopHdr(start, dev.Snap(), Slot(root), gs, gs', |gs|, hs, ls, f);
  }

  /** Every group has a valid tree on disk, and the array (hs, ls) leads to exactly these trees. */
  ghost predicate GroupsOnDisk(start: Io, io: Io, slot: bv8, gs: seq<GroupHdr>, gs': seq<GroupHdr>,
                               hs: seq<Hash>, ls: seq<nat>, hsize: nat, sectors: set<nat>)
    requires hsize >= 1
  {
    && Advanced(start, io, slot) && GroupsOk(start.disk, gs)
    && |gs'| == |gs| && GroupsReady(io, slot, gs') && SameGroups(gs, gs')
    && (forall j :: 0 <= j < |gs| ==> gs'[j].loc != 0 && GroupOf(io.disk, gs'[j]) == GroupOf(start.disk, gs[j]))
    && WalkTree(GroupLeaf, io.disk, |gs|, hs, ls, hsize) == Some(Forest(GroupsOf(start.disk, gs), sectors))
    && Reserved(io, slot, sectors)
  }

  lemma GroupLeavesOnDisk(start: Io, io: Io, slot: bv8, gs: seq<GroupHdr>, gs': seq<GroupHdr>,
                          hs: seq<Hash>, ls: seq<nat>, f: Forest<GroupTree>, hsize: nat)
    requires GroupsLoop(start, io, slot, gs, gs', |gs|, hs, ls, f) && 1 <= hsize && |gs| <= hsize
    ensures GroupsOnDisk(start, io, slot, gs, gs', hs, ls, hsize, f.sectors)
  {
    hide Advanced, GroupsReady, SameGroups, Reserved;
    WalkTreeLeaves(GroupLeaf, io.disk, |gs|, hs, ls, hsize);
    assert GroupsOf(start.disk, gs)[..|gs|] == GroupsOf(start.disk, gs);
  }

  /** One index sector above all groups. */
  lemma GroupChildOnDisk(start: Io, a: Io, b: Io, slot: bv8, gs: seq<GroupHdr>, gs': seq<GroupHdr>,
                         h: seq<Hash>, l: seq<nat>, sectors: set<nat>, loc: nat, hsize: nat)
    requires slot != 0 && 1 <= hsize < |gs| <= NR_ENTRIES_PER_ITREE
    requires GroupsOnDisk(start, a, slot, gs, gs', h, l, NR_ENTRIES_PER_ITREE, sectors)
    requires Advanced(a, b, slot) && At(b.disk, loc) == ItreeSector(h, l) && Reserved(b, slot, {loc})
    ensures GroupsOnDisk(start, b, slot, gs, gs', [OfItree(h)], [loc], hsize, sectors + {loc})
  {
    hide Advanced, GroupLeaf, SameGroups, HdrReady;
    AdvancedTransitive(start, a, b, slot);
    GroupsReadyFrame(a, b, slot, gs');
    ReservedFrame(a, b, slot, sectors);
    GroupTreeFrame(a.disk, b.disk, |gs|, h, l, NR_ENTRIES_PER_ITREE, Forest(GroupsOf(start.disk, gs), sectors));
    SingleChild(b.disk, |gs|, hsize, h, l, loc, Forest(GroupsOf(start.disk, gs), sectors));
  }

  lemma GroupTreeFrame(d: Disk, d': Disk, n: nat, hs: seq<Hash>, ls: seq<nat>, hsize: nat, f: Forest<GroupTree>)
    requires hsize >= 1 && WalkTree(GroupLeaf, d, n, hs, ls, hsize) == Some(f) && Agree(d, d', f.sectors)
    ensures WalkTree(GroupLeaf, d', n, hs, ls, hsize) == Some(f)
  {
    GroupLeafFramed();
    WalkTreeFrame(GroupLeaf, d, d', n, hs, ls, hsize);
  }

  lemma OneLevel(n: nat, hsize: nat)
    requires 1 <= hsize < n <= NR_ENTRIES_PER_ITREE
    ensures Level(n, hsize) == 1 && Capacity(1, 1) == NR_ENTRIES_PER_ITREE
    ensures Width(n, NR_ENTRIES_PER_ITREE) == 1 && ChildEntries(n, NR_ENTRIES_PER_ITREE, 0) == n
  {
    assert Capacity(1, hsize) == NR_ENTRIES_PER_ITREE * hsize;
    assert Capacity(1, 1) == NR_ENTRIES_PER_ITREE * Capacity(0, 1);
    assert Covered(n, NR_ENTRIES_PER_ITREE, 0) == 0;
    assert Covered(n, NR_ENTRIES_PER_ITREE, 1) == n;
    WidthReached(n, NR_ENTRIES_PER_ITREE, 1);
  }

  lemma SingleChild(d: Disk, n: nat, hsize: nat, h: seq<Hash>, l: seq<nat>, loc: nat, f: Forest<GroupTree>)
    requires 1 <= hsize < n <= NR_ENTRIES_PER_ITREE
    requires At(d, loc) == ItreeSector(h, l)
    requires WalkTree(GroupLeaf, d, n, h, l, NR_ENTRIES_PER_ITREE) == Some(f)
    ensures WalkTree(GroupLeaf, d, n, [OfItree(h)], [loc], hsize) == Some(Forest(f.values, f.sectors + {loc}))
  {
    OneLevel(n, hsize);
    var hs, ls := [OfItree(h)], [loc];
    assert WalkChildren(GroupLeaf, d, n, 1, hs, ls, 0) == Some(Forest([], {}));
    assert WalkChildren(GroupLeaf, d, n, 1, hs, ls, 1) == Some(Forest([] + f.values, {} + {loc} + f.sectors));
    assert [] + f.values == f.values && {} + {loc} + f.sectors == f.sectors + {loc};
    WalkTreeChildren(GroupLeaf, d, n, hs, ls, hsize, NR_ENTRIES_PER_ITREE);
  }

  /** disk_write_group_itree.  The leaf loop always runs over all groups, so it stays within the
      arrays it fills only while one index sector can hold them all. */
  method WriteGroupItree(dev: Device, gs: seq<GroupHdr>, n: nat, hsize: nat, root: nat)
    returns (ok: bool, gs': seq<GroupHdr>, hs: seq<Hash>, ls: seq<nat>, ghost sectors: set<nat>)
    requires dev.Valid() && GroupsReady(dev.Snap(), Slot(root), gs)
    requires n == |gs| <= NR_ENTRIES_PER_ITREE && hsize >= 1
    modifies dev, dev.inuse
    ensures Advanced(old(dev.Snap()), dev.Snap(), Slot(root))
    ensures ok ==> GroupsOnDisk(old(dev.Snap()), dev.Snap(), Slot(root), gs, gs', hs, ls, hsize, sectors)
    ensures Spent(old(dev.inuse[..]), dev.inuse[..], SyncCost(gs, hsize), ok)
    decreases if n <= hsize then 0 else 1, 0
  {
    hide Advanced, GroupsOnDisk, GroupsLoop, GroupsReady, HdrReady, Level, Capacity, Spent, GroupsCost;
    ghost var start := dev.Snap();
    gs', hs, ls, sectors := gs, [], [], {};
    if n <= hsize {
      ghost var f;
      ok, gs', hs, ls, f := WriteGroups(dev, gs, root);
      if ok {
        GroupLeavesOnDisk(start, dev.Snap(), Slot(root), gs, gs', hs, ls, f, hsize);
        sectors := f.sectors;
      }
      return;
    }
    var incr := Increment(n, hsize);
    OneLevel(n, hsize);
    AdvancedRefl(start, Slot(root));
    ok := true;
    var off := 0;
    while off < n
      invariant ok
      invariant off == 0 ==> dev.Snap() == start && gs' == gs && hs == [] && ls == []
      invariant off > 0 ==> off >= n && GroupsOnDisk(start, dev.Snap(), Slot(root), gs, gs', hs, ls, hsize, sectors)
      invariant off > 0 ==> Spent(start.map_, dev.inuse[..], SyncCost(gs, hsize), true)
    {
      var c := if n - off < incr then n - off else incr;
      var h, loc;
      ok, gs', h, loc, sectors := WriteGroupItreeSector(dev, gs', c, hsize, root);
      if !ok {
        return;
      }
      assert hs + [h] == [h] && ls + [loc] == [loc];
      hs, ls := hs + [h], ls + [loc];
      off := off + incr;
    }
    GroupsOnDiskAdvanced(start, dev.Snap(), Slot(root), gs, gs', hs, ls, hsize, sectors);
  }

  /** One iteration of the itree loop: all groups, then the index sector above them. */
  method WriteGroupItreeSector(dev: Device, gs: seq<GroupHdr>, c: nat, ghost hsize: nat, root: nat)
    returns (ok: bool, gs': seq<GroupHdr>, h: Hash, loc: nat, ghost sectors: set<nat>)
    requires dev.Valid() && GroupsReady(dev.Snap(), Slot(root), gs)
    requires 1 <= hsize < c == |gs| <= NR_ENTRIES_PER_ITREE
    modifies dev, dev.inuse
    ensures Advanced(old(dev.Snap()), dev.Snap(), Slot(root))
    ensures ok ==> GroupsOnDisk(old(dev.Snap()), dev.Snap(), Slot(root), gs, gs', [h], [loc], hsize, sectors)
    ensures Spent(old(dev.inuse[..]), dev.inuse[..], SyncCost(gs, hsize), ok)
    decreases 0, 1
  {
    hide Advanced, GroupsOnDisk, GroupsReady, HdrReady, Spent, GroupsCost;
    ghost var start := dev.Snap();
    var hs, ls;
    h, loc := OfItree([]), 0;
    ok, gs', hs, ls, sectors := WriteGroupItree(dev, gs, c, NR_ENTRIES_PER_ITREE, root);
    ghost var mid := dev.Snap();
    ghost var cost := GroupsCost(gs, |gs|);
    if !ok {
      SpentShort(start.map_, mid.map_, cost, cost + 1);
      return;
    }
    GroupsOnDiskAdvanced(start, mid, Slot(root), gs, gs', hs, ls, NR_ENTRIES_PER_ITREE, sectors);
    ok, loc := dev.WriteCryptSector(ItreeSector(hs, ls), root);
    SpentBoth(start.map_, mid.map_, dev.inuse[..], cost, 1, ok);
    AdvancedTransitive(start, mid, dev.Snap(), Slot(root));
    if !ok {
      return;
    }
    h := OfItree(hs);
    GroupChildOnDisk(start, mid, dev.Snap(), Slot(root), gs, gs', hs, ls, sectors, loc, hsize);
    sectors := sectors + {loc};
  }

  lemma GroupsOnDiskAdvanced(start: Io, io: Io, slot: bv8, gs: seq<GroupHdr>, gs': seq<GroupHdr>,
                             hs: seq<Hash>, ls: seq<nat>, hsize: nat, sectors: set<nat>)
    requires hsize >= 1 && GroupsOnDisk(start, io, slot, gs, gs', hs, ls, hsize, sectors)
    ensures Advanced(start, io, slot) && |gs'| == |gs|
  {}
}
