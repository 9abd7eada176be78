/** Layout of the vTPM manager's disk and the meaning of a tree stored on it.

    A disk is a map from sector numbers to sector contents.  Encryption, MACs,
    seals and SHA-256 are ideal: `Junk` is anything that does not authenticate
    under the manager's key, and a hash is a constructor term, so equal hashes
    mean equal hashed bytes.
 */
module DiskFormat {
  import opened Arith
  import opened Wrappers

  const DISK_MAX_SECTOR: nat := 0x200
  const FIRST_DYNAMIC_SECTOR: nat := 4
  const VTPMS_PER_SECTOR: nat := 48
  const NR_ENTRIES_PER_ROOT: nat := 16
  const NR_ENTRIES_PER_ITREE: nat := 112
  const NR_ENTRIES_PER_GROUP_BASE: nat := 16
  const NR_SEALS_PER_GROUP: nat := 5

  // ----- Contents ------------------------------------------------------------

  /** What a page sector keeps of one vTPM: uuid, the disk flags, 64 bytes of data. */
  datatype DiskVtpm = DiskVtpm(uuid: int, flags: bv32, data: int)

  const ZERO_VTPM := DiskVtpm(0, 0, 0)

  /** The 48 slots of a page sector. */
  type Image = seq<DiskVtpm>

  /** A group's identity, details and boot configurations; `unsealable` says whether
      one of its seals opens under the current PCR values. */
  datatype GroupInfo = GroupInfo(id: int, sequence: nat, rollback: bool, nrSeals: nat, unsealable: bool)

  datatype GroupMeta = GroupMeta(info: GroupInfo, nrVtpms: nat)

  datatype Hash =
    | OfPage(image: Image)
    | OfItree(hashes: seq<Hash>)
    | OfGroup(meta: GroupMeta, hashes: seq<Hash>)

  datatype Content =
    | Junk
    | SealList
    | PageSector(image: Image)
    | ItreeSector(hashes: seq<Hash>, locs: seq<nat>)
    | GroupSector(meta: GroupMeta, hashes: seq<Hash>, locs: seq<nat>)
    | RootSector(sequence: nat, nrGroups: nat, hashes: seq<Hash>, locs: seq<nat>)

  type Disk = map<nat, Content>

  function At(d: Disk, s: nat): Content {
    if s in d then d[s] else Junk
  }

  ghost predicate Agree(d: Disk, d': Disk, sectors: set<nat>) {
    forall s :: s in sectors ==> At(d, s) == At(d', s)
  }

  /** Sectors that disk_find_free may hand out. */
  ghost predicate Dynamic(sectors: set<nat>) {
    forall s :: s in sectors ==> FIRST_DYNAMIC_SECTOR <= s < DISK_MAX_SECTOR
  }

  function PageCount(nrVtpms: nat): nat {
    (nrVtpms + VTPMS_PER_SECTOR - 1) / VTPMS_PER_SECTOR
  }

  // ----- Shape of an index tree -------------------------------------------------

  /** Entries that fit below an array of `hsize` entries with `k` itree levels. */
  function Capacity(k: nat, hsize: nat): nat {
    if k == 0 then hsize else NR_ENTRIES_PER_ITREE * Capacity(k - 1, hsize)
  }

  lemma {:induction false} CapacityGrows(k: nat, hsize: nat)
    requires hsize >= 1
    ensures 1 <= Capacity(k, hsize) < Capacity(k + 1, hsize)
  {
    if k > 0 {
      CapacityGrows(k - 1, hsize);
    }
  }

  lemma {:induction false} CapacityShift(k: nat)
    ensures Capacity(k + 1, 1) == Capacity(k, NR_ENTRIES_PER_ITREE)
  {
    if k > 0 {
      CapacityShift(k - 1);
    }
  }

  lemma {:induction false} CapacityScale(k: nat, hsize: nat)
    ensures Capacity(k, hsize) == Capacity(k, 1) * hsize
  {
    if k > 0 {
      CapacityScale(k - 1, hsize);
      assert NR_ENTRIES_PER_ITREE * (Capacity(k - 1, 1) * hsize)
          == (NR_ENTRIES_PER_ITREE * Capacity(k - 1, 1)) * hsize;
    }
  }

  function LevelFrom(k: nat, n: nat, hsize: nat): (r: nat)
    requires hsize >= 1
    ensures k <= r && n <= Capacity(r, hsize)
    ensures forall j :: k <= j < r ==> n > Capacity(j, hsize)
    decreases n - Capacity(k, hsize)
  {
    CapacityGrows(k, hsize);
    if n <= Capacity(k, hsize) then k else LevelFrom(k + 1, n, hsize)
  }

  /** The number of itree levels the writers and loaders use for `n` entries. */
  function Level(n: nat, hsize: nat): (r: nat)
    requires hsize >= 1
    ensures n <= Capacity(r, hsize)
    ensures forall j :: 0 <= j < r ==> n > Capacity(j, hsize)
  {
    LevelFrom(0, n, hsize)
  }

  /** Number of array entries used when each covers `incr` leaves. */
  function Width(n: nat, incr: nat): (w: nat)
    requires incr >= 1
    ensures n > 0 ==> (w - 1) * incr < n <= w * incr
    ensures n == 0 ==> w == 0
  {
    if n == 0 then 0 else
      assert n - 1 == ((n - 1) / incr) * incr + (n - 1) % incr;
      assert ((n - 1) / incr + 1) * incr == ((n - 1) / incr) * incr + incr;
      1 + (n - 1) / incr
  }

  /** Leaves below the first `m` entries of an array whose entries cover `incr` leaves each. */
  function Covered(n: nat, incr: nat, m: nat): (c: nat)
    ensures c <= n
  {
    if m == 0 then 0
    else if n - Covered(n, incr, m - 1) < incr then n
    else Covered(n, incr, m - 1) + incr
  }

  lemma {:induction false} CoveredIsProduct(n: nat, incr: nat, m: nat)
    ensures Covered(n, incr, m) == if m * incr < n then m * incr else n
  {
    if m > 0 {
      CoveredIsProduct(n, incr, m - 1);
      assert (m - 1) * incr + incr == m * incr;
    }
  }

  lemma CoveredAll(n: nat, incr: nat)
    requires incr >= 1
    ensures Covered(n, incr, Width(n, incr)) == n
  {
    CoveredIsProduct(n, incr, Width(n, incr));
  }

  /** Leaves below entry `i`: the last sector is not completely full. */
  function ChildEntries(n: nat, incr: nat, i: nat): (c: nat)
    ensures c <= incr
  {
    Covered(n, incr, i + 1) - Covered(n, incr, i)
  }

  /** The loop over children ends after exactly Width(n, incr) of them. */
  lemma WidthReached(n: nat, incr: nat, i: nat)
    requires incr >= 1 && Covered(n, incr, i) == n && (i > 0 ==> Covered(n, incr, i - 1) < n)
    ensures i == Width(n, incr)
  {
    CoveredIsProduct(n, incr, i);
    var w := Width(n, incr);
    if i > 0 {
      CoveredIsProduct(n, incr, i - 1);
      if i > w {
        Mono(w, i - 1, incr);
      }
    }
    if i < w {
      Mono(i, w - 1, incr);
    }
  }

  lemma ChildLevel(n: nat, k: nat)
    requires k > 0 && n <= Capacity(k, 1)
    ensures Level(n, NR_ENTRIES_PER_ITREE) < k
  {
    CapacityShift(k - 1);
  }

  /** The loop that grows `incr` until all entries fit below `hsize` references. */
  method Increment(n: nat, hsize: nat) returns (incr: nat)
    requires hsize >= 1
    ensures incr == Capacity(Level(n, hsize), 1) && incr >= 1
  {
    incr := 1;
    ghost var k := 0;
    while n > incr * hsize
      invariant incr == Capacity(k, 1) && k <= Level(n, hsize) && incr * hsize == Capacity(k, hsize)
      decreases Level(n, hsize) - k
    {
      incr := incr * NR_ENTRIES_PER_ITREE;
      k := k + 1;
      CapacityScale(k, hsize);
    }
    CapacityGrows(k, 1);
  }

  // ----- Reading a tree back -------------------------------------------------------

  datatype Found<+T> = Found(value: T, sectors: set<nat>)
  datatype Forest<+T> = Forest(values: seq<T>, sectors: set<nat>)

  type Leaf<!T> = (Disk, Hash, nat) -> Option<Found<T>>

  /** The first `m` entries of an array of leaf references. */
  function WalkLeaves<T>(leaf: Leaf<T>, d: Disk, hs: seq<Hash>, ls: seq<nat>, m: nat): (r: Option<Forest<T>>)
    requires m <= |hs| && m <= |ls|
    ensures r.Some? ==> |r.value.values| == m
    decreases m
  {
    if m == 0 then Some(Forest([], {})) else
      var front := WalkLeaves(leaf, d, hs, ls, m - 1);
      var last := leaf(d, hs[m - 1], ls[m - 1]);
      if front.None? || last.None? then None else
        Some(Forest(front.value.values + [last.value.value], front.value.sectors + last.value.sectors))
  }

  /** The first `m` children of an itree array, each checked against its hash. */
  function WalkChildren<T>(leaf: Leaf<T>, d: Disk, n: nat, k: nat, hs: seq<Hash>, ls: seq<nat>,
                           m: nat): (r: Option<Forest<T>>)
    requires k > 0 && m <= |hs| && m <= |ls|
    ensures r.Some? ==> |r.value.values| == Covered(n, Capacity(k, 1), m)
    decreases k, 0, m
  {
    if m == 0 then Some(Forest([], {})) else
      var c := ChildEntries(n, Capacity(k, 1), m - 1);
      ChildLevel(c, k);
      var front := WalkChildren(leaf, d, n, k, hs, ls, m - 1);
      match At(d, ls[m - 1])
      case ItreeSector(hashes, locs) =>
        if OfItree(hashes) != hs[m - 1] then None else
          var child := WalkTree(leaf, d, c, hashes, locs, NR_ENTRIES_PER_ITREE);
          if front.None? || child.None? then None else
            Some(Forest(front.value.values + child.value.values,
                        front.value.sectors + {ls[m - 1]} + child.value.sectors))
      case _ => None
  }

  /** `n` leaves below an array of at most `hsize` references, as load_verify_*_itree reads them. */
  function WalkTree<T>(leaf: Leaf<T>, d: Disk, n: nat, hs: seq<Hash>, ls: seq<nat>, hsize: nat): (r: Option<Forest<T>>)
    requires hsize >= 1
    ensures r.Some? ==> |r.value.values| == n
    decreases Level(n, hsize), 1, 0
  {
    var k := Level(n, hsize);
    CapacityGrows(k, 1);
    var m := Width(n, Capacity(k, 1));
    CoveredAll(n, Capacity(k, 1));
    if |hs| < m || |ls| < m then None
    else if k == 0 then
      WalkLeaves(leaf, d, hs, ls, m)
    else
      WalkChildren(leaf, d, n, k, hs, ls, m)
  }

  lemma WalkTreeLeaves<T>(leaf: Leaf<T>, d: Disk, n: nat, hs: seq<Hash>, ls: seq<nat>, hsize: nat)
    requires hsize >= 1 && n <= hsize && |hs| == |ls| == n
    ensures WalkTree(leaf, d, n, hs, ls, hsize) == WalkLeaves(leaf, d, hs, ls, n)
  {
    assert Level(n, hsize) == 0;
    assert Width(n, 1) == n;
  }

  lemma WalkTreeChildren<T>(leaf: Leaf<T>, d: Disk, n: nat, hs: seq<Hash>, ls: seq<nat>, hsize: nat, incr: nat)
    requires n > hsize >= 1 && 1 <= incr == Capacity(Level(n, hsize), 1) && |hs| == |ls| == Width(n, incr)
    ensures Level(n, hsize) > 0
    ensures WalkTree(leaf, d, n, hs, ls, hsize) == WalkChildren(leaf, d, n, Level(n, hsize), hs, ls, Width(n, incr))
  {}

  // ----- Frames ------------------------------------------------------------------------

  /** A leaf reader that depends only on the sectors it reports. */
  ghost predicate Framed<T(!new)>(leaf: Leaf<T>) {
    forall d, d', h, s ::
      leaf(d, h, s).Some? && Agree(d, d', leaf(d, h, s).value.sectors) ==> leaf(d', h, s) == leaf(d, h, s)
  }

  lemma {:induction false} WalkLeavesFrame<T(!new)>(leaf: Leaf<T>, d: Disk, d': Disk,
                                                    hs: seq<Hash>, ls: seq<nat>, hs': seq<Hash>, ls': seq<nat>, m: nat)
    requires Framed(leaf)
    requires m <= |hs| && m <= |ls| && m <= |hs'| && m <= |ls'|
    requires hs[..m] == hs'[..m] && ls[..m] == ls'[..m]
    requires WalkLeaves(leaf, d, hs, ls, m).Some?
    requires Agree(d, d', WalkLeaves(leaf, d, hs, ls, m).value.sectors)
    ensures WalkLeaves(leaf, d', hs', ls', m) == WalkLeaves(leaf, d, hs, ls, m)
    decreases m
  {
    if m > 0 {
      assert hs[..m - 1] == hs[..m][..m - 1] == hs'[..m - 1];
      assert ls[..m - 1] == ls[..m][..m - 1] == ls'[..m - 1];
      assert hs[m - 1] == hs[..m][m - 1] == hs'[m - 1];
      assert ls[m - 1] == ls[..m][m - 1] == ls'[m - 1];
      WalkLeavesFrame(leaf, d, d', hs, ls, hs', ls', m - 1);
      assert Agree(d, d', leaf(d, hs[m - 1], ls[m - 1]).value.sectors);
    }
  }

  lemma {:induction false} WalkChildrenFrame<T(!new)>(leaf: Leaf<T>, d: Disk, d': Disk, n: nat, k: nat,
                                                      hs: seq<Hash>, ls: seq<nat>, hs': seq<Hash>, ls': seq<nat>,
                                                      m: nat)
    requires Framed(leaf)
    requires k > 0 && m <= |hs| && m <= |ls| && m <= |hs'| && m <= |ls'|
    requires hs[..m] == hs'[..m] && ls[..m] == ls'[..m]
    requires WalkChildren(leaf, d, n, k, hs, ls, m).Some?
    requires Agree(d, d', WalkChildren(leaf, d, n, k, hs, ls, m).value.sectors)
    ensures WalkChildren(leaf, d', n, k, hs', ls', m) == WalkChildren(leaf, d, n, k, hs, ls, m)
    decreases k, 0, m
  {
    hide Framed, WalkTree, Capacity, Level, Covered;
    if m > 0 {
      var c := ChildEntries(n, Capacity(k, 1), m - 1);
      ChildLevel(c, k);
      assert hs[..m - 1] == hs[..m][..m - 1] == hs'[..m - 1];
      assert ls[..m - 1] == ls[..m][..m - 1] == ls'[..m - 1];
      assert hs[m - 1] == hs[..m][m - 1] == hs'[m - 1];
      assert ls[m - 1] == ls[..m][m - 1] == ls'[m - 1];
      WalkChildrenFrame(leaf, d, d', n, k, hs, ls, hs', ls', m - 1);
      var node := At(d, ls[m - 1]);
      WalkTreeFrame(leaf, d, d', c, node.hashes, node.locs, NR_ENTRIES_PER_ITREE);
    }
  }

  /** A tree reads back the same from every disk that agrees on the sectors it occupies. */
  lemma {:induction false} WalkTreeFrame<T(!new)>(leaf: Leaf<T>, d: Disk, d': Disk, n: nat, hs: seq<Hash>,
                                                  ls: seq<nat>, hsize: nat)
    requires Framed(leaf)
    requires hsize >= 1
    requires WalkTree(leaf, d, n, hs, ls, hsize).Some?
    requires Agree(d, d', WalkTree(leaf, d, n, hs, ls, hsize).value.sectors)
    ensures WalkTree(leaf, d', n, hs, ls, hsize) == WalkTree(leaf, d, n, hs, ls, hsize)
    decreases Level(n, hsize), 1, 0
  {
    hide Framed, WalkLeaves, WalkChildren;
    var k := Level(n, hsize);
    CapacityGrows(k, 1);
    var m := Width(n, Capacity(k, 1));
    if k == 0 {
      WalkLeavesFrame(leaf, d, d', hs, ls, hs, ls, m);
    } else {
      WalkChildrenFrame(leaf, d, d', n, k, hs, ls, hs, ls, m);
    }
  }

  // ----- Pages and groups ------------------------------------------------------------------

  function PageLeaf(d: Disk, h: Hash, s: nat): Option<Found<Image>> {
    match At(d, s)
    case PageSector(image) => if OfPage(image) == h then Some(Found(image, {s})) else None
    case _ => None
  }

  datatype GroupTree = GroupTree(meta: GroupMeta, pages: seq<Image>)

  function GroupLeaf(d: Disk, h: Hash, s: nat): Option<Found<GroupTree>> {
    match At(d, s)
    case GroupSector(meta, hashes, locs) =>
      if OfGroup(meta, hashes) != h || meta.info.nrSeals > NR_SEALS_PER_GROUP then None else
        var pages := WalkTree(PageLeaf, d, PageCount(meta.nrVtpms), hashes, locs, NR_ENTRIES_PER_GROUP_BASE);
        if pages.None? then None else
          Some(Found(GroupTree(meta, pages.value.values), {s} + pages.value.sectors))
    case _ => None
  }

  lemma PageLeafFramed()
    ensures Framed(PageLeaf)
  {
    forall d, d', h, s | PageLeaf(d, h, s).Some? && Agree(d, d', PageLeaf(d, h, s).value.sectors)
      ensures PageLeaf(d', h, s) == PageLeaf(d, h, s)
    {
      assert s in PageLeaf(d, h, s).value.sectors;
    }
  }

  lemma GroupLeafFramed()
    ensures Framed(GroupLeaf)
  {
    PageLeafFramed();
    forall d, d', h, s | GroupLeaf(d, h, s).Some? && Agree(d, d', GroupLeaf(d, h, s).value.sectors)
      ensures GroupLeaf(d', h, s) == GroupLeaf(d, h, s)
    {
      assert s in GroupLeaf(d, h, s).value.sectors;
      var g := At(d, s);
      WalkTreeFrame(PageLeaf, d, d', PageCount(g.meta.nrVtpms), g.hashes, g.locs, NR_ENTRIES_PER_GROUP_BASE);
    }
  }
}
