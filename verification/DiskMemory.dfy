/** In-memory form of the manager's groups (vtpm_disk.h) and what it stands for on disk. */
module DiskMemory {
  import opened Wrappers
  import opened DiskFormat
  import opened DiskIo

  const VTPM_FLAG_DISK_MASK: bv32 := 0xFFFF

  datatype Vtpm = Vtpm(uuid: int, data: int, flags: bv32, index: nat)

  /** One page of vTPMs; `loc` is zero when the page must be rewritten. */
  datatype MemPage = MemPage(loc: nat, hash: Hash, vtpms: seq<Vtpm>)

  const BLANK_PAGE := MemPage(0, OfItree([]), [])

  /** vTPMs that page `pgidx` of a group of `nrVtpms` should hold. */
  function PageSize(nrVtpms: nat, pgidx: nat): (size: nat)
    ensures size <= VTPMS_PER_SECTOR
  {
    var first := pgidx * VTPMS_PER_SECTOR;
    if nrVtpms < first then 0
    else if nrVtpms - first > VTPMS_PER_SECTOR then VTPMS_PER_SECTOR
    else nrVtpms - first
  }

  datatype MemGroup = MemGroup(info: GroupInfo, nrVtpms: nat, pages: seq<MemPage>)

  /** A group, open (`v` present) or not; `loc` is zero when the group must be rewritten. */
  datatype GroupHdr = GroupHdr(loc: nat, hash: Hash, inuse: seq<nat>, v: Option<MemGroup>)

  /** The 48 slots that disk_write_vtpm_page stores. */
  function DiskImage(vtpms: seq<Vtpm>): (image: Image) {
    seq(VTPMS_PER_SECTOR, i requires 0 <= i =>
      if i < |vtpms| then DiskVtpm(vtpms[i].uuid, vtpms[i].flags & VTPM_FLAG_DISK_MASK, vtpms[i].data)
      else ZERO_VTPM)
  }

  function PageHash(p: MemPage): Hash {
    if p.loc != 0 then p.hash else OfPage(DiskImage(p.vtpms))
  }

  ghost predicate PageOnDisk(d: Disk, p: MemPage) {
    p.loc != 0 ==> PageLeaf(d, p.hash, p.loc).Some? && Dynamic({p.loc})
  }

  /** What a page stands for: the copy on disk while that is valid, else the vTPMs in memory. */
  function PageImage(p: MemPage): Image {
    if p.loc != 0 then (if p.hash.OfPage? then p.hash.image else DiskImage([])) else DiskImage(p.vtpms)
  }

  function PageImages(pages: seq<MemPage>): (images: seq<Image>)
    ensures |images| == |pages|
    ensures forall i :: 0 <= i < |pages| ==> images[i] == PageImage(pages[i])
  {
    seq(|pages|, i requires 0 <= i < |pages| => PageImage(pages[i]))
  }

  function SectorsOf(locs: seq<nat>): set<nat> {
    set s | s in locs
  }

  function PageSectors(pages: seq<MemPage>): set<nat> {
    set p | p in pages && p.loc != 0 :: p.loc
  }

  /** The sectors disk_populate_used_group marks. */
  function HdrSectors(h: GroupHdr): set<nat> {
    if h.loc != 0 then {h.loc} + SectorsOf(h.inuse)
    else if h.v.Some? then PageSectors(h.v.value.pages)
    else {}
  }

  /** The copies on disk that memory relies on are there, and are covered by `inuse`. */
  ghost predicate HdrOk(d: Disk, h: GroupHdr) {
    && (h.loc == 0 ==> h.v.Some?)
    && (h.loc != 0 ==>
          && GroupLeaf(d, h.hash, h.loc).Some?
          && GroupLeaf(d, h.hash, h.loc).value.sectors <= HdrSectors(h)
          && Dynamic(HdrSectors(h)))
    && (h.v.Some? ==>
          && |h.v.value.pages| == PageCount(h.v.value.nrVtpms)
          && h.v.value.info.nrSeals <= NR_SEALS_PER_GROUP
          && (forall p :: p in h.v.value.pages ==> PageOnDisk(d, p) && |p.vtpms| <= VTPMS_PER_SECTOR)
          && (h.loc != 0 ==> PageSectors(h.v.value.pages) <= SectorsOf(h.inuse)))
  }

  ghost predicate GroupsOk(d: Disk, gs: seq<GroupHdr>) {
    forall i :: 0 <= i < |gs| ==> HdrOk(d, gs[i])
  }

  /** What a group stands for: its tree on disk while that is valid, else memory. */
  function GroupOf(d: Disk, h: GroupHdr): GroupTree
    requires h.loc == 0 ==> h.v.Some?
    requires h.loc != 0 ==> GroupLeaf(d, h.hash, h.loc).Some?
  {
    if h.loc != 0 then GroupLeaf(d, h.hash, h.loc).value.value
    else GroupTree(GroupMeta(h.v.value.info, h.v.value.nrVtpms), PageImages(h.v.value.pages))
  }

  ghost function GroupsOf(d: Disk, gs: seq<GroupHdr>): (r: seq<GroupTree>)
    requires GroupsOk(d, gs)
    ensures |r| == |gs|
    ensures forall i :: 0 <= i < |gs| ==> r[i] == GroupOf(d, gs[i])
  {
    seq(|gs|, i requires 0 <= i < |gs| => GroupOf(d, gs[i]))
  }

  lemma HdrFrame(d: Disk, d': Disk, h: GroupHdr)
    requires HdrOk(d, h) && Agree(d, d', HdrSectors(h))
    ensures HdrOk(d', h)
    ensures GroupOf(d', h) == GroupOf(d, h)
    ensures h.loc != 0 ==> GroupLeaf(d', h.hash, h.loc) == GroupLeaf(d, h.hash, h.loc)
  {
    GroupLeafFramed();
    if h.loc != 0 {
      assert Agree(d, d', GroupLeaf(d, h.hash, h.loc).value.sectors);
    }
    if h.v.Some? {
      forall p | p in h.v.value.pages
        ensures PageOnDisk(d', p)
      {
        assert PageOnDisk(d, p);
        if p.loc != 0 {
          assert p.loc in PageSectors(h.v.value.pages);
        }
      }
    }
  }
}
