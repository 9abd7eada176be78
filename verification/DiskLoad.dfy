/** Reading a tree back into memory at start-up (disk_read.c). */
module DiskLoad {
  import opened Wrappers
  import opened DiskFormat
  import opened DiskIo
  import opened DiskMemory
  import opened DiskRecover
  import opened DiskSync

  /** Every sector that the in-use map can describe is marked. */
  ghost predicate AllMarked(m: SectorMap, slot: bv8, sectors: set<nat>) {
    forall s :: s in sectors && s < |m| ==> m[s] & slot != 0
  }

  lemma AllMarkedKeeps(m: SectorMap, m': SectorMap, slot: bv8, sectors: set<nat>)
    requires Marked(m, m', slot) && AllMarked(m, slot, sectors)
    ensures AllMarked(m', slot, sectors)
  {
    forall s | s in sectors && s < |m'|
      ensures m'[s] & slot != 0
    {
      OrKeepsBit(m[s], slot, slot);
    }
  }

  method Mark(dev: Device, s: nat, root: nat)
    requires dev.Valid()
    modifies dev.inuse
    ensures Marked(old(dev.inuse[..]), dev.inuse[..], Slot(root))
    ensures AllMarked(dev.inuse[..], Slot(root), {s})
  {
    dev.SetUsed(s, root);
  }

  // ----- Pages -----------------------------------------------------------------------------------

  /** The vTPMs of a page whose first vTPM has number `first`. */
  function FromImage(image: Image, size: nat, first: nat): (vtpms: seq<Vtpm>)
    ensures |vtpms| == size
  {
    seq(size, i requires 0 <= i =>
      var v := if i < |image| then image[i] else ZERO_VTPM;
      Vtpm(v.uuid, v.data, v.flags, first + i))
  }

  /** Page `pgidx` of a group as load_verify_vtpm_page fills it in. */
  function LoadedPage(image: Image, h: Hash, l: nat, nrVtpms: nat, pgidx: nat): MemPage {
    MemPage(l, h, FromImage(image, PageSize(nrVtpms, pgidx), pgidx * VTPMS_PER_SECTOR))
  }

  lemma {:induction false} LeavesNone<T>(leaf: Leaf<T>, d: Disk, hs: seq<Hash>, ls: seq<nat>, i: nat, m: nat)
    requires i <= m <= |hs| && m <= |ls| && WalkLeaves(leaf, d, hs, ls, i).None?
    ensures WalkLeaves(leaf, d, hs, ls, m).None?
    decreases m - i
  {
    if i < m {
      LeavesNone(leaf, d, hs, ls, i + 1, m);
    }
  }

  lemma {:induction false} ChildrenNone<T>(leaf: Leaf<T>, d: Disk, n: nat, k: nat, hs: seq<Hash>, ls: seq<nat>, i: nat,
                                           m: nat)
    requires k > 0 && i <= m <= |hs| && m <= |ls| && WalkChildren(leaf, d, n, k, hs, ls, i).None?
    ensures WalkChildren(leaf, d, n, k, hs, ls, m).None?
    decreases m - i
  {
    if i < m {
      ChildrenNone(leaf, d, n, k, hs, ls, i + 1, m);
    }
  }

  /** Child i of an itree array: whether it is whole decides whether the first i + 1 are. */
  lemma ChildUnfolds<T>(leaf: Leaf<T>, d: Disk, n: nat, k: nat, hs: seq<Hash>, ls: seq<nat>, i: nat, c: nat)
    requires k > 0 && i < |hs| && i < |ls| && c == ChildEntries(n, Capacity(k, 1), i)
    requires WalkChildren(leaf, d, n, k, hs, ls, i).Some?
    ensures var f, node, r := WalkChildren(leaf, d, n, k, hs, ls, i).value, At(d, ls[i]),
            WalkChildren(leaf, d, n, k, hs, ls, i + 1);
      if !node.ItreeSector? || OfItree(node.hashes) != hs[i] then r.None?
      else
        var child := WalkTree(leaf, d, c, node.hashes, node.locs, NR_ENTRIES_PER_ITREE);
        if child.None? then r.None?
        else r == Some(Forest(f.values + child.value.values, f.sectors + {ls[i]} + child.value.sectors))
  {
    hide WalkTree, Level, Capacity, Covered;
  }

  lemma NoChildren<T>(leaf: Leaf<T>, d: Disk, n: nat, k: nat, hs: seq<Hash>, ls: seq<nat>)
    requires k > 0
    ensures WalkChildren(leaf, d, n, k, hs, ls, 0) == Some(Forest([], {}))
  {}

  /** The first `m` leaves have been read, and their sectors marked. */
  ghost predicate LeavesRead(d: Disk, m0: SectorMap, m: SectorMap, slot: bv8, hs: seq<Hash>, ls: seq<nat>, i: nat) {
    && i <= |hs| && i <= |ls| && Marked(m0, m, slot)
    && WalkLeaves(PageLeaf, d, hs, ls, i).Some?
    && WalkLeaves(PageLeaf, d, hs, ls, i).value.sectors == SectorsOf(ls[..i])
    && AllMarked(m, slot, SectorsOf(ls[..i]))
  }

  lemma LeavesReadStep(d: Disk, m0: SectorMap, m1: SectorMap, m2: SectorMap, slot: bv8, hs: seq<Hash>, ls: seq<nat>,
                       i: nat)
    requires LeavesRead(d, m0, m1, slot, hs, ls, i) && i < |hs| && i < |ls|
    requires Marked(m1, m2, slot) && AllMarked(m2, slot, {ls[i]}) && PageLeaf(d, hs[i], ls[i]).Some?
    ensures LeavesRead(d, m0, m2, slot, hs, ls, i + 1)
  {
    MarkedTransitive(m0, m1, m2, slot);
    AllMarkedKeeps(m1, m2, slot, SectorsOf(ls[..i]));
    assert SectorsOf(ls[..i + 1]) == SectorsOf(ls[..i]) + {ls[i]};
  }

  /** The pages in memory after `m` iterations of the load loop: the page pointer is not advanced,
      so every page is read into page `base` and only the last one stays there. */
  function PagesAfter(d: Disk, pages: seq<MemPage>, base: nat, hs: seq<Hash>, ls: seq<nat>, nrVtpms: nat,
                      m: nat): (r: seq<MemPage>)
    requires m <= |hs| && m <= |ls| && base + m <= |pages|
    ensures |r| == |pages|
  {
    if m == 0 then pages else
      var found := PageLeaf(d, hs[m - 1], ls[m - 1]);
      if found.None? then pages
      else pages[base := LoadedPage(found.value.value, hs[m - 1], ls[m - 1], nrVtpms, base + m - 1)]
  }

  /** load_verify_vtpm_pages. */
  method LoadVtpmPages(dev: Device, pages: seq<MemPage>, base: nat, n: nat, hs: seq<Hash>, ls: seq<nat>, nrVtpms: nat,
                       root: nat)
    returns (ok: bool, pages': seq<MemPage>)
    requires dev.Valid() && n <= |hs| && n <= |ls| && base + n <= |pages|
    modifies dev.inuse
    ensures Marked(old(dev.inuse[..]), dev.inuse[..], Slot(root))
    ensures ok <==> WalkLeaves(PageLeaf, dev.disk, hs, ls, n).Some?
    ensures ok ==> LeavesRead(dev.disk, old(dev.inuse[..]), dev.inuse[..], Slot(root), hs, ls, n)
    ensures ok ==> pages' == PagesAfter(dev.disk, pages, base, hs, ls, nrVtpms, n)
  {
    hide LoadedPage, AllMarked, PageLeaf, SectorsOf;
    pages' := pages;
    ghost var m0 := dev.inuse[..];
    assert LeavesRead(dev.disk, m0, m0, Slot(root), hs, ls, 0) by {
      LeavesReadInit(dev.disk, m0, Slot(root), hs, ls);
    }
    for i := 0 to n
      invariant LeavesRead(dev.disk, m0, dev.inuse[..], Slot(root), hs, ls, i)
      invariant pages' == PagesAfter(dev.disk, pages, base, hs, ls, nrVtpms, i)
    {
      ghost var m1 := dev.inuse[..];
      Mark(dev, ls[i], root);
      var found := PageLeaf(dev.disk, hs[i], ls[i]);
      if found.None? {
        MarkedTransitive(m0, m1, dev.inuse[..], Slot(root));
        LeavesNone(PageLeaf, dev.disk, hs, ls, i + 1, n);
        return false, pages';
      }
      LeavesReadStep(dev.disk, m0, m1, dev.inuse[..], Slot(root), hs, ls, i);
      pages' := pages'[base := LoadedPage(found.value.value, hs[i], ls[i], nrVtpms, base + i)];
    }
    ok := true;
  }

  lemma LeavesReadInit(d: Disk, m: SectorMap, slot: bv8, hs: seq<Hash>, ls: seq<nat>)
    ensures LeavesRead(d, m, m, slot, hs, ls, 0)
  {
    assert SectorsOf(ls[..0]) == {};
  }

  // ----- Index tree of a group --------------------------------------------------------------------

  ghost predicate FromDisk(d: Disk, p: MemPage, sectors: set<nat>) {
    PageLeaf(d, p.hash, p.loc).Some? && |p.vtpms| <= VTPMS_PER_SECTOR && p.loc in sectors
  }

  /** Pages base .. base + n after loading: each is untouched or one of the pages on disk, and of two
      or more pages the second is never filled in. */
  ghost predicate PagesLoaded(d: Disk, pages: seq<MemPage>, pages': seq<MemPage>, base: nat, n: nat, sectors: set<nat>)
  {
    && |pages'| == |pages| && base + n <= |pages|
    && (forall i :: 0 <= i < base || base + n <= i < |pages| ==> pages'[i] == pages[i])
    && (forall i :: base <= i < base + n ==> pages'[i] == pages[i] || FromDisk(d, pages'[i], sectors))
    && (n >= 2 ==> pages'[base + 1] == pages[base + 1])
  }

  /** A whole tree has been read: marked, listed in `used`, and its pages are in memory. */
  ghost predicate TreeRead(d: Disk, m0: SectorMap, m: SectorMap, slot: bv8, sectors: set<nat>, used: seq<nat>,
                           pages: seq<MemPage>, pages': seq<MemPage>, base: nat, n: nat)
  {
    && Marked(m0, m, slot) && AllMarked(m, slot, sectors) && SectorsOf(used) == sectors
    && PagesLoaded(d, pages, pages', base, n, sectors)
  }

  lemma LeavesTreeRead(d: Disk, m0: SectorMap, m: SectorMap, slot: bv8, hs: seq<Hash>, ls: seq<nat>,
                       pages: seq<MemPage>, base: nat, n: nat, nrVtpms: nat)
    requires LeavesRead(d, m0, m, slot, hs, ls, n) && base + n <= |pages|
    ensures TreeRead(d, m0, m, slot, SectorsOf(ls[..n]), ls[..n], pages, PagesAfter(d, pages, base, hs, ls, nrVtpms, n),
            base, n)
  {
    if n > 0 {
      assert ls[n - 1] == ls[..n][n - 1];
      assert PageLeaf(d, hs[n - 1], ls[n - 1]).Some?;
    }
  }

  /** State of the itree loop of load_verify_vtpm_itree after `i` index sectors. */
  ghost predicate ChildrenRead(d: Disk, m0: SectorMap, m: SectorMap, slot: bv8, n: nat, k: nat, hs: seq<Hash>,
                               ls: seq<nat>, i: nat,
                               used: seq<nat>, pages: seq<MemPage>, pages': seq<MemPage>, base: nat)
  {
    && k > 0 && i <= |hs| && i <= |ls|
    && WalkChildren(PageLeaf, d, n, k, hs, ls, i).Some?
    && var sectors := WalkChildren(PageLeaf, d, n, k, hs, ls, i).value.sectors;
       && Marked(m0, m, slot) && AllMarked(m, slot, sectors) && sectors == SectorsOf(ls[..i]) + SectorsOf(used)
       && PagesLoaded(d, pages, pages', base, Covered(n, Capacity(k, 1), i), sectors)
  }

  lemma PagesLoadedCompose(d: Disk, p0: seq<MemPage>, p1: seq<MemPage>, p2: seq<MemPage>, base: nat, n: nat, m: nat,
                           s1: set<nat>, s2: set<nat>, s: set<nat>)
    requires PagesLoaded(d, p0, p1, base, n, s1) && PagesLoaded(d, p1, p2, base + n, m, s2) && s1 <= s && s2 <= s
    requires n != 1
    ensures PagesLoaded(d, p0, p2, base, n + m, s)
  {}

  lemma ChildrenReadStep(d: Disk, m0: SectorMap, m1: SectorMap, m2: SectorMap, m3: SectorMap, slot: bv8, n: nat, k: nat,
                         hs: seq<Hash>, ls: seq<nat>, i: nat, off: nat, c: nat, used: seq<nat>, u: seq<nat>,
                         p0: seq<MemPage>, p1: seq<MemPage>, p2: seq<MemPage>, base: nat)
    requires ChildrenRead(d, m0, m1, slot, n, k, hs, ls, i, used, p0, p1, base) && i < |hs| && i < |ls|
    requires off == Covered(n, Capacity(k, 1), i) && c == ChildEntries(n, Capacity(k, 1), i) && off != 1
    requires Marked(m1, m2, slot) && AllMarked(m2, slot, {ls[i]})
    requires At(d, ls[i]).ItreeSector? && OfItree(At(d, ls[i]).hashes) == hs[i]
    requires WalkTree(PageLeaf, d, c, At(d, ls[i]).hashes, At(d, ls[i]).locs, NR_ENTRIES_PER_ITREE).Some?
    requires TreeRead(d, m2, m3, slot,
             WalkTree(PageLeaf, d, c, At(d, ls[i]).hashes, At(d, ls[i]).locs, NR_ENTRIES_PER_ITREE).value.sectors,
                      u, p1, p2, base + off, c)
    ensures ChildrenRead(d, m0, m3, slot, n, k, hs, ls, i + 1, used + u, p0, p2, base)
  {
    hide PageLeaf, WalkTree, Marked, AllMarked;
    var s1 := WalkChildren(PageLeaf, d, n, k, hs, ls, i).value.sectors;
    var s2 := WalkTree(PageLeaf, d, c, At(d, ls[i]).hashes, At(d, ls[i]).locs, NR_ENTRIES_PER_ITREE).value.sectors;
    var s := WalkChildren(PageLeaf, d, n, k, hs, ls, i + 1).value.sectors;
    assert s == s1 + {ls[i]} + s2;
    ThreeMarks(m0, m1, m2, m3, slot, s1, ls[i], s2);
    assert SectorsOf(ls[..i + 1]) == SectorsOf(ls[..i]) + {ls[i]};
    assert SectorsOf(used + u) == SectorsOf(used) + SectorsOf(u);
    PagesLoadedCompose(d, p0, p1, p2, base, off, c, s1, s2, s);
  }

  lemma ThreeMarks(m0: SectorMap, m1: SectorMap, m2: SectorMap, m3: SectorMap, slot: bv8, s1: set<nat>, l: nat,
                   s2: set<nat>)
    requires Marked(m0, m1, slot) && Marked(m1, m2, slot) && Marked(m2, m3, slot)
    requires AllMarked(m1, slot, s1) && AllMarked(m2, slot, {l}) && AllMarked(m3, slot, s2)
    ensures Marked(m0, m3, slot) && AllMarked(m3, slot, s1 + {l} + s2)
  {
    MarkedTransitive(m0, m1, m2, slot);
    MarkedTransitive(m0, m2, m3, slot);
    AllMarkedKeeps(m1, m2, slot, s1);
    AllMarkedKeeps(m2, m3, slot, s1);
    AllMarkedKeeps(m2, m3, slot, {l});
  }

  /** load_verify_vtpm_itree: succeeds exactly when the tree below (hs, ls) is whole. */
  method LoadVtpmItree(dev: Device, pages: seq<MemPage>, base: nat, n: nat, hs: seq<Hash>, ls: seq<nat>, hsize: nat,
                       nrVtpms: nat, root: nat)
    returns (ok: bool, pages': seq<MemPage>, used: seq<nat>)
    requires dev.Valid() && base + n <= |pages| && hsize >= 1
    modifies dev.inuse
    ensures Marked(old(dev.inuse[..]), dev.inuse[..], Slot(root))
    ensures ok <==> WalkTree(PageLeaf, dev.disk, n, hs, ls, hsize).Some?
    ensures ok ==> TreeRead(dev.disk, old(dev.inuse[..]), dev.inuse[..], Slot(root),
                            WalkTree(PageLeaf, dev.disk, n, hs, ls, hsize).value.sectors, used, pages, pages', base, n)
    ensures ok && n == 1 ==>
              |hs| >= 1 && |ls| >= 1 && PageLeaf(dev.disk, hs[0], ls[0]).Some? &&
              pages' == pages[base := LoadedPage(WalkTree(PageLeaf, dev.disk, n, hs, ls, hsize).value.values[0], hs[0],
                  ls[0], nrVtpms, base)]
    decreases Level(n, hsize), 1
  {
    hide Marked, TreeRead, LoadedPage;
    var incr := Increment(n, hsize);
    var w := Width(n, incr);
    pages', used := pages, [];
    ghost var m0 := dev.inuse[..];
    MarkedRefl(m0, Slot(root));
    if |hs| < w || |ls| < w {
      return false, pages', used;
    }
    if n <= hsize {
      WidthOne(n, hsize);
      ok, pages' := LoadVtpmPages(dev, pages, base, n, hs, ls, nrVtpms, root);
      used := ls[..n];
      if ok {
        LeavesTreeRead(dev.disk, m0, dev.inuse[..], Slot(root), hs, ls, pages, base, n, nrVtpms);
        if n == 1 {
          assert WalkLeaves(PageLeaf, dev.disk, hs, ls, 0) == Some(Forest([], {}));
        }
      }
    } else {
      LevelPositive(n, hsize);
      ok, pages', used := LoadVtpmChildren(dev, pages, base, n, hs, ls, incr, Level(n, hsize), nrVtpms, root);
      used := ls[..w] + used;
    }
  }

  lemma MarkedRefl(m: SectorMap, slot: bv8)
    ensures Marked(m, m, slot)
  {}

  lemma WidthOne(n: nat, hsize: nat)
    requires n <= hsize && hsize >= 1
    ensures Level(n, hsize) == 0 && Capacity(0, 1) == 1 && Width(n, 1) == n
  {}

  lemma LevelPositive(n: nat, hsize: nat)
    requires n > hsize >= 1
    ensures Level(n, hsize) > 0
  {}

  /** The itree loop of load_verify_vtpm_itree. */
  method LoadVtpmChildren(dev: Device, pages: seq<MemPage>, base: nat, n: nat, hs: seq<Hash>, ls: seq<nat>, incr: nat,
                          ghost k: nat,
                          nrVtpms: nat, root: nat)
    returns (ok: bool, pages': seq<MemPage>, used: seq<nat>)
    requires dev.Valid() && base + n <= |pages|
    requires k > 0 && 1 <= incr == Capacity(k, 1) && Width(n, incr) <= |hs| && Width(n, incr) <= |ls|
    modifies dev.inuse
    ensures Marked(old(dev.inuse[..]), dev.inuse[..], Slot(root))
    ensures ok <==> WalkChildren(PageLeaf, dev.disk, n, k, hs, ls, Width(n, incr)).Some?
    ensures ok ==> TreeRead(dev.disk, old(dev.inuse[..]), dev.inuse[..], Slot(root),
                            WalkChildren(PageLeaf, dev.disk, n, k, hs, ls, Width(n, incr)).value.sectors,
                            ls[..Width(n, incr)] + used, pages, pages', base, n)
    decreases k, 0
  {
    hide Marked, TreeRead, ChildrenRead, PageLeaf, WalkTree, WalkChildren, Level;
    pages', used := pages, [];
    ghost var m0 := dev.inuse[..];
    ChildrenReadInit(dev.disk, m0, Slot(root), n, k, hs, ls, pages, base);
    var off := 0;
    var i := 0;
    ghost var w := Width(n, incr);
    while off < n
      invariant i <= w
      invariant ChildrenRead(dev.disk, m0, dev.inuse[..], Slot(root), n, k, hs, ls, i, used, pages, pages', base)
      invariant Covered(n, incr, i) == if off < n then off else n
      invariant off == 0 || off >= incr
      invariant i > 0 ==> Covered(n, incr, i - 1) < n
    {
      var c := if n - off < incr then n - off else incr;
      BelowWidth(n, incr, i);
      assert Covered(n, incr, i) == off && ChildEntries(n, incr, i) == c;
      ghost var m1 := dev.inuse[..];
      ghost var p1 := pages';
      ChildrenReadSome(dev.disk, m0, m1, Slot(root), n, k, hs, ls, i, used, pages, p1, base);
      ChildUnfolds(PageLeaf, dev.disk, n, k, hs, ls, i, c);
      Mark(dev, ls[i], root);
      ghost var m2 := dev.inuse[..];
      ChildrenReadMarked(dev.disk, m0, m1, m2, Slot(root), n, k, hs, ls, i, used, pages, p1, base);
      var node := At(dev.disk, ls[i]);
      if !node.ItreeSector? || OfItree(node.hashes) != hs[i] {
        ChildrenNone(PageLeaf, dev.disk, n, k, hs, ls, i + 1, w);
        return false, pages', used;
      }
      ChildLevel(c, k);
      var u;
      ok, pages', u := LoadVtpmItree(dev, pages', base + off, c, node.hashes, node.locs, NR_ENTRIES_PER_ITREE, nrVtpms,
          root);
      if !ok {
        MarkedTransitive(m0, m2, dev.inuse[..], Slot(root));
        ChildrenNone(PageLeaf, dev.disk, n, k, hs, ls, i + 1, w);
        return;
      }
      IncrBig(k);
      ChildrenReadStep(dev.disk, m0, m1, m2, dev.inuse[..], Slot(root), n, k, hs, ls, i, off, c, used, u, pages, p1,
          pages', base);
      used := used + u;
      off := off + incr;
      i := i + 1;
    }
    ok := true;
    WidthReached(n, incr, i);
    ChildrenReadDone(dev.disk, m0, dev.inuse[..], Slot(root), n, k, hs, ls, used, pages, pages', base);
  }

  lemma ChildrenReadSome(d: Disk, m0: SectorMap, m: SectorMap, slot: bv8, n: nat, k: nat, hs: seq<Hash>, ls: seq<nat>,
                         i: nat,
                         used: seq<nat>, p0: seq<MemPage>, p: seq<MemPage>, base: nat)
    requires ChildrenRead(d, m0, m, slot, n, k, hs, ls, i, used, p0, p, base)
    ensures k > 0 && i <= |hs| && i <= |ls| && WalkChildren(PageLeaf, d, n, k, hs, ls, i).Some?
  {}

  lemma IncrBig(k: nat)
    requires k > 0
    ensures Capacity(k, 1) > 1
  {
    CapacityGrows(k - 1, 1);
  }

  lemma BelowWidth(n: nat, incr: nat, i: nat)
    requires incr >= 1 && i <= Width(n, incr) && Covered(n, incr, i) < n
    ensures i < Width(n, incr)
  {
    CoveredAll(n, incr);
  }

  lemma ChildrenReadInit(d: Disk, m: SectorMap, slot: bv8, n: nat, k: nat, hs: seq<Hash>, ls: seq<nat>,
                         pages: seq<MemPage>, base: nat)
    requires k > 0 && base <= |pages|
    ensures ChildrenRead(d, m, m, slot, n, k, hs, ls, 0, [], pages, pages, base)
  {
    assert SectorsOf(ls[..0]) + SectorsOf([]) == {};
  }

  lemma ChildrenReadMarked(d: Disk, m0: SectorMap, m1: SectorMap, m2: SectorMap, slot: bv8, n: nat, k: nat,
                           hs: seq<Hash>, ls: seq<nat>,
                           i: nat, used: seq<nat>, pages: seq<MemPage>, pages': seq<MemPage>, base: nat)
    requires ChildrenRead(d, m0, m1, slot, n, k, hs, ls, i, used, pages, pages', base) && Marked(m1, m2, slot)
    ensures Marked(m0, m2, slot) && |pages'| == |pages|
  {
    MarkedTransitive(m0, m1, m2, slot);
  }

  lemma ChildrenReadDone(d: Disk, m0: SectorMap, m: SectorMap, slot: bv8, n: nat, k: nat, hs: seq<Hash>, ls: seq<nat>,
                         used: seq<nat>, pages: seq<MemPage>, pages': seq<MemPage>, base: nat)
    requires Capacity(k, 1) >= 1
    requires ChildrenRead(d, m0, m, slot, n, k, hs, ls, Width(n, Capacity(k, 1)), used, pages, pages', base)
    ensures Marked(m0, m, slot)
    ensures WalkChildren(PageLeaf, d, n, k, hs, ls, Width(n, Capacity(k, 1))).Some?
    ensures TreeRead(d, m0, m, slot, WalkChildren(PageLeaf, d, n, k, hs, ls, Width(n, Capacity(k, 1))).value.sectors,
                     ls[..Width(n, Capacity(k, 1))] + used, pages, pages', base, n)
  {
    var w := Width(n, Capacity(k, 1));
    CoveredAll(n, Capacity(k, 1));
    assert SectorsOf(ls[..w] + used) == SectorsOf(ls[..w]) + SectorsOf(used);
  }

  // ----- Groups ---------------------------------------------------------------------------------------

  /** A header as load_verify_group leaves it: the group's sectors are listed, and the group is open
      exactly when one of its seals opens. */
  ghost predicate HdrLoaded(d: Disk, h: GroupHdr) {
    && GroupLeaf(d, h.hash, h.loc).Some?
    && var found := GroupLeaf(d, h.hash, h.loc).value;
       && found.sectors == {h.loc} + SectorsOf(h.inuse)
       && (h.v.Some? <==> found.value.meta.info.unsealable)
       && (h.v.Some? ==> GroupLoaded(d, found.value, h.v.value, SectorsOf(h.inuse)))
  }

  ghost predicate GroupLoaded(d: Disk, t: GroupTree, g: MemGroup, sectors: set<nat>) {
    && g.info == t.meta.info && g.nrVtpms == t.meta.nrVtpms && |g.pages| == |t.pages| == PageCount(g.nrVtpms)
    && g.info.nrSeals <= NR_SEALS_PER_GROUP
    && (forall i :: 0 <= i < |g.pages| ==> g.pages[i] == BLANK_PAGE || FromDisk(d, g.pages[i], sectors))
    && (|g.pages| == 1 ==> g.pages[0].vtpms == FromImage(t.pages[0], g.nrVtpms, 0))
    && (|g.pages| >= 2 ==> g.pages[1] == BLANK_PAGE)
  }

  lemma PagesGroupLoaded(d: Disk, meta: GroupMeta, hs: seq<Hash>, ls: seq<nat>, m0: SectorMap, m: SectorMap, slot: bv8,
                         blank: seq<MemPage>, pages: seq<MemPage>, used: seq<nat>, n: nat)
    requires n == PageCount(meta.nrVtpms) && |blank| == n && (forall i :: 0 <= i < n ==> blank[i] == BLANK_PAGE)
    requires meta.info.nrSeals <= NR_SEALS_PER_GROUP
    requires WalkTree(PageLeaf, d, n, hs, ls, NR_ENTRIES_PER_GROUP_BASE).Some?
    requires TreeRead(d, m0, m, slot, WalkTree(PageLeaf, d, n, hs, ls, NR_ENTRIES_PER_GROUP_BASE).value.sectors, used,
             blank, pages, 0, n)
    requires n == 1 ==>
               |hs| >= 1 && |ls| >= 1 &&
               pages == blank[0 := LoadedPage(WalkTree(PageLeaf, d, n, hs, ls,
                   NR_ENTRIES_PER_GROUP_BASE).value.values[0], hs[0], ls[0], meta.nrVtpms, 0)]
    ensures GroupLoaded(d, GroupTree(meta, WalkTree(PageLeaf, d, n, hs, ls, NR_ENTRIES_PER_GROUP_BASE).value.values),
                        MemGroup(meta.info, meta.nrVtpms, pages), SectorsOf(used))
  {
    hide WalkTree, PageLeaf, Marked, AllMarked;
    if n == 1 {
      assert PageSize(meta.nrVtpms, 0) == meta.nrVtpms;
    }
  }

  /** load_verify_group. */
  method LoadGroup(dev: Device, h: Hash, l: nat, root: nat) returns (ok: bool, hdr: GroupHdr)
    requires dev.Valid()
    modifies dev.inuse
    ensures Marked(old(dev.inuse[..]), dev.inuse[..], Slot(root))
    ensures ok <==> GroupLeaf(dev.disk, h, l).Some?
    ensures ok ==> hdr.loc == l && hdr.hash == h && HdrLoaded(dev.disk, hdr)
    ensures ok ==> AllMarked(dev.inuse[..], Slot(root), GroupLeaf(dev.disk, h, l).value.sectors)
  {
    hide Marked, AllMarked, WalkTree, PageLeaf, GroupLoaded, LoadedPage;
    hdr := GroupHdr(l, h, [], None);
    ghost var m0 := dev.inuse[..];
    Mark(dev, l, root);
    ghost var m1 := dev.inuse[..];
    match At(dev.disk, l) {
      case GroupSector(meta, hs, ls) =>
        if OfGroup(meta, hs) != h || meta.info.nrSeals > NR_SEALS_PER_GROUP {
          return false, hdr;
        }
        var n := PageCount(meta.nrVtpms);
        var blank := seq(n, _ => BLANK_PAGE);
        var pages, used;
        ok, pages, used := LoadVtpmItree(dev, blank, 0, n, hs, ls, NR_ENTRIES_PER_GROUP_BASE, meta.nrVtpms, root);
        MarkedTransitive(m0, m1, dev.inuse[..], Slot(root));
        if ok {
          ghost var f := WalkTree(PageLeaf, dev.disk, n, hs, ls, NR_ENTRIES_PER_GROUP_BASE).value;
          PagesGroupLoaded(dev.disk, meta, hs, ls, m1, dev.inuse[..], Slot(root), blank, pages, used, n);
          MarksUnion(m1, dev.inuse[..], Slot(root), {l}, f.sectors);
          hdr := GroupHdr(l, h, used, if meta.info.unsealable then Some(MemGroup(meta.info, meta.nrVtpms, pages))
              else None);
        }
      case _ =>
        ok := false;
    }
  }

  lemma MarksUnion(m: SectorMap, m': SectorMap, slot: bv8, s1: set<nat>, s2: set<nat>)
    requires Marked(m, m', slot) && AllMarked(m, slot, s1) && AllMarked(m', slot, s2)
    ensures AllMarked(m', slot, s1 + s2)
  {
    AllMarkedKeeps(m, m', slot, s1);
  }

  /** Loaded headers satisfy the manager's invariant and stand for the tree they were read from. */
  lemma LoadedHdrOk(d: Disk, h: GroupHdr)
    requires HdrLoaded(d, h) && Dynamic({h.loc} + SectorsOf(h.inuse))
    ensures HdrOk(d, h) && GroupOf(d, h) == GroupLeaf(d, h.hash, h.loc).value.value
  {
    hide GroupLeaf;
    assert h.loc in {h.loc} + SectorsOf(h.inuse);
    if h.v.Some? {
      forall p | p in h.v.value.pages
        ensures PageOnDisk(d, p) && |p.vtpms| <= VTPMS_PER_SECTOR
        ensures p.loc != 0 ==> p.loc in SectorsOf(h.inuse)
      {
        var i :| 0 <= i < |h.v.value.pages| && h.v.value.pages[i] == p;
      }
    }
  }

  // ----- Index tree of the root ----------------------------------------------------------------------------

  /** Headers for exactly the groups of `f`, all marked. */
  ghost predicate GroupsLoaded(d: Disk, m0: SectorMap, m: SectorMap, slot: bv8, f: Forest<GroupTree>, gs: seq<GroupHdr>)
  {
    && Marked(m0, m, slot) && AllMarked(m, slot, f.sectors)
    && |gs| == |f.values|
    && forall i :: 0 <= i < |gs| ==>
         && HdrLoaded(d, gs[i])
         && GroupLeaf(d, gs[i].hash, gs[i].loc).value.value == f.values[i]
         && GroupLeaf(d, gs[i].hash, gs[i].loc).value.sectors <= f.sectors
  }

  lemma GroupsLoadedConcat(d: Disk, m0: SectorMap, m1: SectorMap, m2: SectorMap, m3: SectorMap, slot: bv8,
                           f: Forest<GroupTree>, g: Forest<GroupTree>, l: set<nat>, gs: seq<GroupHdr>,
                           hs: seq<GroupHdr>)
    requires GroupsLoaded(d, m0, m1, slot, f, gs) && GroupsLoaded(d, m2, m3, slot, g, hs)
    requires Marked(m1, m2, slot) && AllMarked(m2, slot, l)
    ensures GroupsLoaded(d, m0, m3, slot, Forest(f.values + g.values, f.sectors + l + g.sectors), gs + hs)
  {
    hide HdrLoaded, GroupLeaf;
    assert Marked(m0, m3, slot) by {
      MarkedTransitive(m0, m1, m2, slot);
      MarkedTransitive(m0, m2, m3, slot);
    }
    assert AllMarked(m3, slot, f.sectors + l + g.sectors) by {
      MarksUnion(m1, m2, slot, f.sectors, l);
      MarksUnion(m2, m3, slot, f.sectors + l, g.sectors);
    }
  }

  lemma GroupsLoadedInit(d: Disk, m: SectorMap, slot: bv8)
    ensures GroupsLoaded(d, m, m, slot, Forest([], {}), [])
  {}

  lemma GroupsLoadedOne(d: Disk, m0: SectorMap, m: SectorMap, slot: bv8, h: GroupHdr)
    requires HdrLoaded(d, h) && Marked(m0, m, slot) && AllMarked(m, slot, GroupLeaf(d, h.hash, h.loc).value.sectors)
    ensures GroupsLoaded(d, m0, m, slot,
                         Forest([GroupLeaf(d, h.hash, h.loc).value.value], GroupLeaf(d, h.hash, h.loc).value.sectors),
                         [h])
  {}

  /** The leaf loop of load_verify_group_itree. */
  method LoadGroups(dev: Device, n: nat, hs: seq<Hash>, ls: seq<nat>, root: nat) returns (ok: bool, gs: seq<GroupHdr>)
    requires dev.Valid() && n <= |hs| && n <= |ls|
    modifies dev.inuse
    ensures Marked(old(dev.inuse[..]), dev.inuse[..], Slot(root))
    ensures ok <==> WalkLeaves(GroupLeaf, dev.disk, hs, ls, n).Some?
    ensures ok ==> GroupsLoaded(dev.disk, old(dev.inuse[..]), dev.inuse[..], Slot(root),
            WalkLeaves(GroupLeaf, dev.disk, hs, ls, n).value, gs)
  {
    hide Marked, AllMarked, GroupsLoaded, HdrLoaded, GroupLeaf;
    gs := [];
    ghost var m0 := dev.inuse[..];
    GroupsLoadedInit(dev.disk, m0, Slot(root));
    MarkedRefl(m0, Slot(root));
    for i := 0 to n
      invariant WalkLeaves(GroupLeaf, dev.disk, hs, ls, i).Some?
      invariant GroupsLoaded(dev.disk, m0, dev.inuse[..], Slot(root), WalkLeaves(GroupLeaf, dev.disk, hs, ls, i).value,
                gs)
      invariant Marked(m0, dev.inuse[..], Slot(root))
    {
      ghost var m1 := dev.inuse[..];
      ghost var f := WalkLeaves(GroupLeaf, dev.disk, hs, ls, i).value;
      var h;
      ok, h := LoadGroup(dev, hs[i], ls[i], root);
      MarkedTransitive(m0, m1, dev.inuse[..], Slot(root));
      if !ok {
        LeavesNone(GroupLeaf, dev.disk, hs, ls, i + 1, n);
        return;
      }
      GroupsLoadedSnoc(dev.disk, m0, m1, dev.inuse[..], Slot(root), f, gs, h);
      gs := gs + [h];
    }
    ok := true;
  }

  lemma GroupsLoadedSnoc(d: Disk, m0: SectorMap, m1: SectorMap, m2: SectorMap, slot: bv8, f: Forest<GroupTree>,
                         gs: seq<GroupHdr>, h: GroupHdr)
    requires GroupsLoaded(d, m0, m1, slot, f, gs)
    requires HdrLoaded(d, h) && Marked(m1, m2, slot) && AllMarked(m2, slot, GroupLeaf(d, h.hash, h.loc).value.sectors)
    ensures var x := GroupLeaf(d, h.hash, h.loc).value;
            GroupsLoaded(d, m0, m2, slot, Forest(f.values + [x.value], f.sectors + x.sectors), gs + [h])
  {
    hide HdrLoaded, GroupLeaf, Marked, AllMarked;
    HdrLoadedFound(d, h);
    var x := GroupLeaf(d, h.hash, h.loc).value;
    MarkedRefl(m1, slot);
    assert AllMarked(m1, slot, {}) by { NothingMarked(m1, slot); }
    GroupsLoadedOne(d, m1, m2, slot, h);
    GroupsLoadedConcat(d, m0, m1, m1, m2, slot, f, Forest([x.value], x.sectors), {}, gs, [h]);
    assert f.sectors + {} + x.sectors == f.sectors + x.sectors;
  }

  lemma HdrLoadedFound(d: Disk, h: GroupHdr)
    requires HdrLoaded(d, h)
    ensures GroupLeaf(d, h.hash, h.loc).Some?
  {}

  lemma NothingMarked(m: SectorMap, slot: bv8)
    ensures AllMarked(m, slot, {})
  {}

  /** load_verify_group_itree: succeeds exactly when the tree below (hs, ls) is whole. */
  method LoadGroupItree(dev: Device, n: nat, hs: seq<Hash>, ls: seq<nat>, hsize: nat, root: nat)
    returns (ok: bool, gs: seq<GroupHdr>)
    requires dev.Valid() && hsize >= 1
    modifies dev.inuse
    ensures Marked(old(dev.inuse[..]), dev.inuse[..], Slot(root))
    ensures ok <==> WalkTree(GroupLeaf, dev.disk, n, hs, ls, hsize).Some?
    ensures ok ==> GroupsLoaded(dev.disk, old(dev.inuse[..]), dev.inuse[..], Slot(root),
                                WalkTree(GroupLeaf, dev.disk, n, hs, ls, hsize).value, gs)
    decreases Level(n, hsize), 1
  {
    hide Marked, GroupsLoaded;
    var incr := Increment(n, hsize);
    var w := Width(n, incr);
    gs := [];
    ghost var m0 := dev.inuse[..];
    MarkedRefl(m0, Slot(root));
    if |hs| < w || |ls| < w {
      return false, gs;
    }
    if n <= hsize {
      WidthOne(n, hsize);
      ok, gs := LoadGroups(dev, n, hs, ls, root);
    } else {
      LevelPositive(n, hsize);
      ok, gs := LoadGroupChildren(dev, n, hs, ls, incr, Level(n, hsize), root);
    }
  }

  /** The itree loop of load_verify_group_itree. */
  method LoadGroupChildren(dev: Device, n: nat, hs: seq<Hash>, ls: seq<nat>, incr: nat, ghost k: nat, root: nat)
    returns (ok: bool, gs: seq<GroupHdr>)
    requires dev.Valid()
    requires k > 0 && 1 <= incr == Capacity(k, 1) && Width(n, incr) <= |hs| && Width(n, incr) <= |ls|
    modifies dev.inuse
    ensures Marked(old(dev.inuse[..]), dev.inuse[..], Slot(root))
    ensures ok <==> WalkChildren(GroupLeaf, dev.disk, n, k, hs, ls, Width(n, incr)).Some?
    ensures ok ==> GroupsLoaded(dev.disk, old(dev.inuse[..]), dev.inuse[..], Slot(root),
                                WalkChildren(GroupLeaf, dev.disk, n, k, hs, ls, Width(n, incr)).value, gs)
    decreases k, 0
  {
    hide Marked, AllMarked, GroupsLoaded, GroupLeaf, WalkTree, WalkChildren, Level, Capacity;
    gs := [];
    NoChildren(GroupLeaf, dev.disk, n, k, hs, ls);
    ghost var m0 := dev.inuse[..];
    GroupsLoadedInit(dev.disk, m0, Slot(root));
    MarkedRefl(m0, Slot(root));
    var off := 0;
    var i := 0;
    ghost var w := Width(n, incr);
    while off < n
      invariant i <= w
      invariant WalkChildren(GroupLeaf, dev.disk, n, k, hs, ls, i).Some?
      invariant GroupsLoaded(dev.disk, m0, dev.inuse[..], Slot(root),
                WalkChildren(GroupLeaf, dev.disk, n, k, hs, ls, i).value, gs)
      invariant Marked(m0, dev.inuse[..], Slot(root))
      invariant Covered(n, incr, i) == if off < n then off else n
      invariant i > 0 ==> Covered(n, incr, i - 1) < n
    {
      var c := if n - off < incr then n - off else incr;
      BelowWidth(n, incr, i);
      assert Covered(n, incr, i) == off && ChildEntries(n, incr, i) == c;
      ghost var f := WalkChildren(GroupLeaf, dev.disk, n, k, hs, ls, i).value;
      ChildUnfolds(GroupLeaf, dev.disk, n, k, hs, ls, i, c);
      ghost var m1 := dev.inuse[..];
      Mark(dev, ls[i], root);
      ghost var m2 := dev.inuse[..];
      MarkedTransitive(m0, m1, m2, Slot(root));
      var node := At(dev.disk, ls[i]);
      if !node.ItreeSector? || OfItree(node.hashes) != hs[i] {
        ChildrenNone(GroupLeaf, dev.disk, n, k, hs, ls, i + 1, w);
        return false, gs;
      }
      ChildLevel(c, k);
      var more;
      ok, more := LoadGroupItree(dev, c, node.hashes, node.locs, NR_ENTRIES_PER_ITREE, root);
      MarkedTransitive(m0, m2, dev.inuse[..], Slot(root));
      if !ok {
        ChildrenNone(GroupLeaf, dev.disk, n, k, hs, ls, i + 1, w);
        return;
      }
      ghost var g := WalkTree(GroupLeaf, dev.disk, c, node.hashes, node.locs, NR_ENTRIES_PER_ITREE).value;
      GroupsLoadedConcat(dev.disk, m0, m1, m2, dev.inuse[..], Slot(root), f, g, {ls[i]}, gs, more);
      gs := gs + more;
      off := off + incr;
      i := i + 1;
    }
    ok := true;
    WidthReached(n, incr, i);
  }

  // ----- Start-up ---------------------------------------------------------------------------------------------

  /** load_root_post: the groups of slot `root`, if its tree is whole and group 0 opens. */
  method LoadRootPost(dev: Device, root: nat) returns (ok: bool, gs: seq<GroupHdr>)
    requires dev.Valid() && At(dev.disk, RootLoc(root)).RootSector?
    modifies dev.inuse
    ensures Marked(old(dev.inuse[..]), dev.inuse[..], Slot(root))
    ensures ok <==> LoadPost(dev.disk, root).Some?
    ensures ok ==> var found := LoadPost(dev.disk, root).value;
                   GroupsLoaded(dev.disk, old(dev.inuse[..]), dev.inuse[..], Slot(root),
                       Forest(found.value.groups, found.sectors), gs)
  {
    hide Marked, WalkTree, GroupLeaf;
    var r := At(dev.disk, RootLoc(root));
    ok, gs := LoadGroupItree(dev, r.nrGroups, r.hashes, r.locs, NR_ENTRIES_PER_ROOT, root);
    if ok {
      if r.nrGroups == 0 {
        return false, gs;
      }
      assert HdrLoaded(dev.disk, gs[0]);
      ok := gs[0].v.Some?;
    }
  }

  lemma LoadedGroupsOk(d: Disk, m0: SectorMap, m: SectorMap, slot: bv8, f: Forest<GroupTree>, gs: seq<GroupHdr>)
    requires GroupsLoaded(d, m0, m, slot, f, gs) && Dynamic(f.sectors)
    ensures GroupsOk(d, gs) && GroupsOf(d, gs) == f.values
  {
    hide GroupLeaf, HdrOk;
    forall i | 0 <= i < |gs|
      ensures HdrOk(d, gs[i]) && GroupOf(d, gs[i]) == f.values[i]
    {
      LoadedHdrOk(d, gs[i]);
    }
  }

  /** A manager opened on slot `root` of disk `d`, with all of its groups. */
  ghost predicate OpenedOn(d: Disk, s: MgrState) {
    && s.activeRoot < 2 && s.io.disk == d && s.io.log == [] && |s.io.map_| == DISK_MAX_SECTOR
    && RootPresent(d, s.activeRoot) && s.seals == {s.activeRoot}
    && LoadPost(d, s.activeRoot).Some?
    && var found := LoadPost(d, s.activeRoot).value;
       && s.sequence == found.value.sequence && s.prior == Tree(found.value, found.sectors)
       && AllMarked(s.io.map_, Slot(s.activeRoot), found.sectors)
       && |s.groups| == |found.value.groups|
       && forall i :: 0 <= i < |s.groups| ==>
            && HdrLoaded(d, s.groups[i])
            && GroupLeaf(d, s.groups[i].hash, s.groups[i].loc).value.value == found.value.groups[i]
            && GroupLeaf(d, s.groups[i].hash, s.groups[i].loc).value.sectors <= found.sectors
  }

  /** Opening the committed slot re-establishes the shadow-paging invariant, and memory stands for
      exactly the committed tree. */
  lemma OpenedIsValid(d: Disk, s: MgrState, view: RootView, sectors: set<nat>)
    requires OpenedOn(d, s) && Committed(d, s.activeRoot, view, sectors) && |view.groups| <= NR_ENTRIES_PER_ITREE
    ensures ValidState(s) && s.prior == Tree(view, sectors) && s.sequence == view.sequence
    ensures GroupsOf(d, s.groups) == view.groups
  {
    hide GroupLeaf, HdrLoaded, HdrOk, WalkTree;
    LoadedGroupsOk(d, s.io.map_, s.io.map_, Slot(s.activeRoot), Forest(view.groups, sectors), s.groups);
  }

  /** Try one slot: load_root_post, and the manager it fills in. */
  method OpenSlot(dev: Device, root: nat) returns (ok: bool, m: Manager?)
    requires dev.Valid() && root < 2 && RootPresent(dev.disk, root) && dev.log == []
    modifies dev.inuse
    ensures ok <==> LoadPost(dev.disk, root).Some?
    ensures ok ==> m != null && fresh(m) && m.dev == dev && m.activeRoot == root && OpenedOn(dev.disk, m.State())
  {
    hide HdrLoaded, GroupLeaf;
    m := null;
    var gs;
    ok, gs := LoadRootPost(dev, root);
    if ok {
      ghost var found := LoadPost(dev.disk, root).value;
      m := new Manager.Opened(dev, root, At(dev.disk, RootLoc(root)).sequence, gs, Tree(found.value, found.sectors));
    }
  }

  /** vtpm_load_disk: ends up with the slot and tree that Recover names, or fails when it names none. */
  method LoadDisk(d: Disk) returns (ok: bool, m: Manager?)
    ensures ok <==> Recover(d).Some?
    ensures ok ==> m != null && fresh(m) && fresh(m.dev) && m.dev.Valid() && OpenedOn(d, m.State())
    ensures ok ==> Recover(d) == Some((m.activeRoot, m.prior.view))
  {
    hide LoadPost, HdrLoaded, GroupLeaf, AllMarked;
    var dev := new Device(d);
    m := null;
    var present1, present2 := RootPresent(d, 0), RootPresent(d, 1);
    if At(d, 0) == SealList {
      Mark(dev, 0, 0);
    }
    if At(d, 1) == SealList {
      Mark(dev, 1, 1);
    }
    if present1 && present2 && At(d, RootLoc(1)).sequence > At(d, RootLoc(0)).sequence {
      ok, m := OpenSlot(dev, 1);
      if ok {
        return;
      }
      present2 := false;
    }
    if present1 {
      ok, m := OpenSlot(dev, 0);
      if ok {
        return;
      }
    }
    if present2 {
      ok, m := OpenSlot(dev, 1);
      if ok {
        return;
      }
    }
    ok := false;
  }
}
