/** The manager's commit protocol: flush, mark, shadow-write, root, seal list
    (disk_write_all and vtpm_sync_disk). */
module DiskSync {
  import opened Wrappers
  import opened DiskFormat
  import opened DiskIo
  import opened DiskMemory
  import opened DiskWrite
  import opened DiskRecover

  // ----- Marking what is kept ------------------------------------------------------------------

  lemma MarkedTransitive(a: SectorMap, b: SectorMap, c: SectorMap, slot: bv8)
    requires Marked(a, b, slot) && Marked(b, c, slot)
    ensures Marked(a, c, slot)
  {}

  /** `m'` is `m` with the bit of `slot` added to exactly these sectors. */
  ghost predicate MarkedExactly(m: SectorMap, m': SectorMap, slot: bv8, sectors: set<nat>) {
    && |m'| == |m|
    && forall s :: 0 <= s < |m| ==> m'[s] == if s in sectors then m[s] | slot else m[s]
  }

  lemma ExactTransitive(a: SectorMap, b: SectorMap, c: SectorMap, slot: bv8, s: set<nat>, t: set<nat>)
    requires MarkedExactly(a, b, slot, s) && MarkedExactly(b, c, slot, t)
    ensures MarkedExactly(a, c, slot, s + t)
  {}

  lemma ExactMarks(m: SectorMap, m': SectorMap, slot: bv8, sectors: set<nat>)
    requires MarkedExactly(m, m', slot, sectors) && slot != 0 && Dynamic(sectors) && |m| == DISK_MAX_SECTOR
    ensures Marked(m, m', slot) && InUse(m', slot, sectors)
  {
    forall s | s in sectors
      ensures s < |m'| && m'[s] & slot != 0
    {
      OrSets(m[s], slot);
    }
  }

  lemma OrSets(x: bv8, slot: bv8)
    requires slot != 0
    ensures (x | slot) & slot != 0
  {}

  /** Marks a list of sectors (the loops of disk_populate_used_*). */
  method SetAllUsed(dev: Device, locs: seq<nat>, root: nat)
    requires dev.Valid() && Dynamic(SectorsOf(locs))
    modifies dev.inuse
    ensures MarkedExactly(old(dev.inuse[..]), dev.inuse[..], Slot(root), SectorsOf(locs))
  {
    ghost var m0 := dev.inuse[..];
    for i := 0 to |locs|
      invariant MarkedExactly(m0, dev.inuse[..], Slot(root), SectorsOf(locs[..i]))
    {
      assert locs[i] in SectorsOf(locs);
      ghost var m1 := dev.inuse[..];
      dev.SetUsed(locs[i], root);
      ExactTransitive(m0, m1, dev.inuse[..], Slot(root), SectorsOf(locs[..i]), {locs[i]});
      assert SectorsOf(locs[..i + 1]) == SectorsOf(locs[..i]) + {locs[i]};
    }
    assert locs[..|locs|] == locs;
  }

  /** disk_populate_used_vtpm over the pages of an open group. */
  method PopulatePages(dev: Device, pages: seq<MemPage>, root: nat)
    requires dev.Valid() && forall p :: p in pages ==> p.loc != 0 ==> Dynamic({p.loc})
    modifies dev.inuse
    ensures MarkedExactly(old(dev.inuse[..]), dev.inuse[..], Slot(root), PageSectors(pages))
  {
    ghost var m0 := dev.inuse[..];
    for i := 0 to |pages|
      invariant MarkedExactly(m0, dev.inuse[..], Slot(root), PageSectors(pages[..i]))
    {
      assert pages[i] in pages;
      assert pages[..i + 1] == pages[..i] + [pages[i]];
      if pages[i].loc != 0 {
        assert pages[i].loc in {pages[i].loc};
        ghost var m1 := dev.inuse[..];
        dev.SetUsed(pages[i].loc, root);
        ExactTransitive(m0, m1, dev.inuse[..], Slot(root), PageSectors(pages[..i]), {pages[i].loc});
        assert PageSectors(pages[..i + 1]) == PageSectors(pages[..i]) + {pages[i].loc};
      } else {
        assert PageSectors(pages[..i + 1]) == PageSectors(pages[..i]);
      }
    }
    assert pages[..|pages|] == pages;
  }

  /** disk_populate_used_group; its abort is unreachable because an invalidated group is open. */
  method PopulateGroup(dev: Device, h: GroupHdr, root: nat)
    requires dev.Valid() && HdrOk(dev.disk, h)
    modifies dev.inuse
    ensures MarkedExactly(old(dev.inuse[..]), dev.inuse[..], Slot(root), HdrSectors(h))
  {
    if h.loc != 0 {
      ghost var m0 := dev.inuse[..];
      dev.SetUsed(h.loc, root);
      ghost var m1 := dev.inuse[..];
      SetAllUsed(dev, h.inuse, root);
      ExactTransitive(m0, m1, dev.inuse[..], Slot(root), {h.loc}, SectorsOf(h.inuse));
    } else {
      forall p | p in h.v.value.pages && p.loc != 0
        ensures Dynamic({p.loc})
      {
        assert PageOnDisk(dev.disk, p);
      }
      PopulatePages(dev, h.v.value.pages, root);
    }
  }

  /** Every sector that memory keeps for the next tree. */
  function KeptSectors(gs: seq<GroupHdr>): set<nat> {
    if gs == [] then {} else KeptSectors(gs[..|gs| - 1]) + HdrSectors(gs[|gs| - 1])
  }

  lemma {:induction false} KeptIncludes(gs: seq<GroupHdr>, i: nat)
    requires i < |gs|
    ensures HdrSectors(gs[i]) <= KeptSectors(gs)
  {
    if i < |gs| - 1 {
      KeptIncludes(gs[..|gs| - 1], i);
    }
  }

  lemma {:induction false} KeptDynamic(d: Disk, gs: seq<GroupHdr>)
    requires GroupsOk(d, gs)
    ensures Dynamic(KeptSectors(gs))
  {
    hide HdrOk, HdrSectors;
    if gs != [] {
      var front := gs[..|gs| - 1];
      assert forall i :: 0 <= i < |front| ==> front[i] == gs[i];
      KeptDynamic(d, front);
      HdrSectorsDynamic(d, gs[|gs| - 1]);
    }
  }

  /** disk_populate_used_mgr. */
  method PopulateUsed(dev: Device, gs: seq<GroupHdr>, root: nat)
    requires dev.Valid() && GroupsOk(dev.disk, gs)
    modifies dev.inuse
    ensures MarkedExactly(old(dev.inuse[..]), dev.inuse[..], Slot(root), KeptSectors(gs))
  {
    hide HdrOk, HdrSectors;
    ghost var m0 := dev.inuse[..];
    for i := 0 to |gs|
      invariant MarkedExactly(m0, dev.inuse[..], Slot(root), KeptSectors(gs[..i]))
    {
      ghost var m1 := dev.inuse[..];
      PopulateGroup(dev, gs[i], root);
      assert gs[..i + 1][..i] == gs[..i];
      ExactTransitive(m0, m1, dev.inuse[..], Slot(root), KeptSectors(gs[..i]), HdrSectors(gs[i]));
    }
    assert gs[..|gs|] == gs;
  }

  lemma OtherSlotBit(x: bv8, root: nat)
    requires root < 2
    ensures (x & !Slot(root)) & Slot(1 - root) == x & Slot(1 - root)
  {}

  /** Flushing one slot keeps what the other slot has in use. */
  lemma FlushKeeps(m: SectorMap, m': SectorMap, root: nat, sectors: set<nat>)
    requires root < 2 && |m| == |m'| == DISK_MAX_SECTOR
    requires forall s :: FIRST_DYNAMIC_SECTOR <= s < DISK_MAX_SECTOR ==> m'[s] == m[s] & !Slot(root)
    requires Dynamic(sectors) && InUse(m, Slot(1 - root), sectors)
    ensures InUse(m', Slot(1 - root), sectors)
  {
    forall s | s in sectors
      ensures s < |m'| && m'[s] & Slot(1 - root) != 0
    {
      OtherSlotBit(m[s], root);
    }
  }

  // ----- The commit ------------------------------------------------------------------------------

  /** Where a sync stands once the new slot is flushed and everything kept is marked for it. */
  ghost predicate Prepared(d: Disk, io: Io, root: nat, prior: Prior, gs: seq<GroupHdr>) {
    && root < 2 && |io.map_| == DISK_MAX_SECTOR && io.disk == d
    && Holds(d, 1 - root, prior)
    && InUse(io.map_, Slot(1 - root), PriorSectors(prior))
    && GroupsReady(io, Slot(root), gs)
  }

  /** Sectors written to reach `io` are neither static nor part of the committed tree. */
  lemma AdvancedIsShadow(a: Io, b: Io, root: nat, prior: Prior)
    requires root < 2 && Advanced(a, b, Slot(root)) && InUse(a.map_, Slot(1 - root), PriorSectors(prior))
    ensures Shadow(Since(a, b), prior)
  {
    forall w | w in Since(a, b)
      ensures w.sector !in STATIC_SECTORS && w.sector !in PriorSectors(prior)
    {
      assert a.map_[w.sector] == 0;
    }
  }

  /** The whole new tree is reachable as soon as its root sector is written. */
  lemma NewRootLoads(start: Io, io: Io, root: nat, gs: seq<GroupHdr>, gs': seq<GroupHdr>,
                     hs: seq<Hash>, ls: seq<nat>, sectors: set<nat>, sequence: nat)
    requires root < 2 && |gs| >= 1
    requires GroupsOnDisk(start, io, Slot(root), gs, gs', hs, ls, NR_ENTRIES_PER_ROOT, sectors)
    requires GroupOf(start.disk, gs[0]).meta.info.unsealable
    ensures LoadPost(io.disk[RootLoc(root) := RootSector(sequence, |gs|, hs, ls)], root) ==
            Some(Found(RootView(sequence, GroupsOf(start.disk, gs)), sectors))
    ensures Dynamic(sectors)
  {
    hide Advanced, GroupsReady, SameGroups, GroupLeaf;
    var d := io.disk[RootLoc(root) := RootSector(sequence, |gs|, hs, ls)];
    GroupTreeFrame(io.disk, d, |gs|, hs, ls, NR_ENTRIES_PER_ROOT, Forest(GroupsOf(start.disk, gs), sectors));
  }

  /** Memory keeps relying only on intact sectors when the static sectors are rewritten. */
  lemma GroupsOkStatic(d: Disk, gs: seq<GroupHdr>, s: nat, c: Content)
    requires GroupsOk(d, gs) && s < FIRST_DYNAMIC_SECTOR
    ensures GroupsOk(d[s := c], gs)
    ensures forall i :: 0 <= i < |gs| ==> GroupOf(d[s := c], gs[i]) == GroupOf(d, gs[i])
  {
    forall i | 0 <= i < |gs|
      ensures HdrOk(d[s := c], gs[i]) && GroupOf(d[s := c], gs[i]) == GroupOf(d, gs[i])
    {
      HdrSectorsDynamic(d, gs[i]);
      HdrFrame(d, d[s := c], gs[i]);
    }
  }

  lemma HdrSectorsDynamic(d: Disk, h: GroupHdr)
    requires HdrOk(d, h)
    ensures Dynamic(HdrSectors(h))
  {
    if h.loc == 0 {
      forall s | s in HdrSectors(h)
        ensures FIRST_DYNAMIC_SECTOR <= s < DISK_MAX_SECTOR
      {
        var p :| p in h.v.value.pages && p.loc != 0 && p.loc == s;
        assert PageOnDisk(d, p);
        assert s in {p.loc};
      }
    }
  }

  /** The map once slot `root` is flushed and everything memory keeps is marked for it. */
  ghost function StartMap(m: SectorMap, root: nat, gs: seq<GroupHdr>): (m': SectorMap)
    ensures |m'| == |m|
  {
    seq(|m|, s requires 0 <= s < |m| =>
      var flushed := if s >= FIRST_DYNAMIC_SECTOR then m[s] & !Slot(root) else m[s];
      if s in KeptSectors(gs) then flushed | Slot(root) else flushed)
  }

  lemma MarkedUsed(x: bv8, root: nat)
    ensures x | Slot(root) != 0
  {}

  /** disk_flush_slot and disk_populate_used_mgr for the slot about to be written. */
  method PrepareSlot(dev: Device, gs: seq<GroupHdr>, root: nat)
    requires dev.Valid() && GroupsOk(dev.disk, gs)
    modifies dev.inuse
    ensures dev.inuse[..] == StartMap(old(dev.inuse[..]), root, gs)
    ensures forall s :: 4 <= s < 0x200 ==>
              (dev.inuse[s] == 0 <==> old(dev.inuse[s]) & !Slot(root) == 0 && s !in KeptSectors(gs))
  {
    hide HdrOk, KeptSectors;
    dev.FlushSlot(root);
    ghost var flushed := dev.inuse[..];
    PopulateUsed(dev, gs, root);
    forall s | 4 <= s < 0x200
      ensures dev.inuse[s] == 0 <==> flushed[s] == 0 && s !in KeptSectors(gs)
    {
      MarkedUsed(flushed[s], root);
    }
  }

  /** What the invariant makes of that: the committed tree stays marked, and memory's sectors are. */
  lemma StartPrepared(io: Io, root: nat, prior: Prior, gs: seq<GroupHdr>)
    requires root < 2 && |io.map_| == DISK_MAX_SECTOR && GroupsOk(io.disk, gs)
    requires Holds(io.disk, 1 - root, prior) && InUse(io.map_, Slot(1 - root), PriorSectors(prior))
    ensures Prepared(io.disk, io.(map_ := StartMap(io.map_, root, gs)), root, prior, gs)
  {
    hide Holds, HdrOk, KeptSectors, InUse;
    var m := io.map_;
    var flushed := seq(|m|, s requires 0 <= s < |m| => if s >= FIRST_DYNAMIC_SECTOR then m[s] & !Slot(root) else m[s]);
    var m' := StartMap(m, root, gs);
    PriorDynamic(io.disk, root, prior);
    FlushKeeps(m, flushed, root, PriorSectors(prior));
    KeptDynamic(io.disk, gs);
    ExactMarks(flushed, m', Slot(root), KeptSectors(gs));
    MarkedKeeps(flushed, m', Slot(root), Slot(1 - root), PriorSectors(prior));
    forall i | 0 <= i < |gs|
      ensures InUse(m', Slot(root), HdrSectors(gs[i]))
    {
      KeptIncludes(gs, i);
      InUsePart(m', Slot(root), KeptSectors(gs), HdrSectors(gs[i]));
    }
  }

  lemma InUsePart(m: SectorMap, slot: bv8, sectors: set<nat>, part: set<nat>)
    requires InUse(m, slot, sectors) && part <= sectors
    ensures InUse(m, slot, part)
  {}

  lemma PriorDynamic(d: Disk, root: nat, prior: Prior)
    requires root < 2 && Holds(d, 1 - root, prior)
    ensures Dynamic(PriorSectors(prior))
  {}

  /** The writes of one sync, in order, and what any prefix of them leaves behind. */
  lemma CommitWrites(start: Io, mid: Io, root: nat, prior: Prior, gs: seq<GroupHdr>, gs': seq<GroupHdr>,
                     hs: seq<Hash>, ls: seq<nat>, sectors: set<nat>, sequence: nat, sealed: bool)
    requires |gs| >= 1 && Prepared(start.disk, start, root, prior, gs)
    requires GroupsOnDisk(start, mid, Slot(root), gs, gs', hs, ls, NR_ENTRIES_PER_ROOT, sectors)
    requires GroupOf(start.disk, gs[0]).meta.info.unsealable
    requires prior.Tree? ==> prior.view.sequence < sequence
    requires !sealed ==> At(start.disk, root) == SealList
    ensures var content := RootSector(sequence, |gs|, hs, ls);
            var view := RootView(sequence, GroupsOf(start.disk, gs));
            var ws := SyncWrites(Since(start, mid), root, content, sealed);
            && CrashSafe(start.disk, ws, CommitIndex(start.disk, Since(start, mid), root), 1 - root, prior, root,
                 Tree(view, sectors))
            && Shadow(Since(start, mid), prior)
            && Committed(Replay(start.disk, ws), root, view, sectors)
            && Agree(start.disk, mid.disk, STATIC_SECTORS)
  {
    hide Recover, LoadPost, Committed, Holds, HdrReady, InUse, CrashSafe, GroupLeaf, Shadow;
    AdvancedIsShadow(start, mid, root, prior);
    ShadowHolds(start.disk, Since(start, mid), 1 - root, prior);
    NewRootLoads(start, mid, root, gs, gs', hs, ls, sectors, sequence);
    SyncCrashSafe(start.disk, Since(start, mid), root, prior, RootSector(sequence, |gs|, hs, ls), sealed,
                  RootView(sequence, GroupsOf(start.disk, gs)), sectors);
  }

  // ----- The manager -------------------------------------------------------------------------------

  /** The manager's state, with the tree a start-up would recover now. */
  datatype MgrState = MgrState(io: Io, sequence: nat, activeRoot: nat, groups: seq<GroupHdr>, seals: set<nat>,
      prior: Prior)

  /** Shadow-paging invariant: the committed tree is intact and every sector it reaches is marked
      for the active slot; every copy on disk that memory relies on is intact. */
  ghost predicate ValidState(s: MgrState) {
    && |s.io.map_| == DISK_MAX_SECTOR && s.activeRoot < 2 && 1 <= |s.groups| <= NR_ENTRIES_PER_ITREE
    && Holds(s.io.disk, s.activeRoot, s.prior)
    && (s.prior.Tree? ==> s.prior.view.sequence == s.sequence && |s.prior.view.groups| <= NR_ENTRIES_PER_ITREE)
    && InUse(s.io.map_, Slot(s.activeRoot), PriorSectors(s.prior))
    && GroupsOk(s.io.disk, s.groups)
    && (forall r :: r in s.seals ==> r < 2 && At(s.io.disk, r) == SealList)
  }

  /** Nothing is written while group 0 is closed or has no seals. */
  predicate WillSync(s: MgrState)
    requires |s.groups| >= 1
  {
    s.groups[0].v.Some? && s.groups[0].v.value.info.nrSeals > 0
  }

  /** Group 0, as it is to be written, opens under the current PCR values. */
  ghost predicate Reopens(s: MgrState)
    requires |s.groups| >= 1
  {
    var h := s.groups[0];
    && (h.loc == 0 ==> h.v.Some?) && (h.loc != 0 ==> GroupLeaf(s.io.disk, h.hash, h.loc).Some?)
    && GroupOf(s.io.disk, h).meta.info.unsealable
  }

  /** The tree memory stands for: what a sync of `s` commits. */
  ghost function NextView(s: MgrState): RootView
    requires GroupsOk(s.io.disk, s.groups)
  {
    RootView(s.sequence + 1, GroupsOf(s.io.disk, s.groups))
  }

  ghost predicate WroteFrom(a: Io, b: Io) {
    a.log <= b.log && b.disk == Replay(a.disk, Since(a, b))
  }

  /** No write touches a sector of the committed tree, nor one that memory keeps for the new tree. */
  ghost predicate SpareWrites(a: MgrState, ws: seq<Write>) {
    forall w :: w in ws ==>
      w.sector !in PriorSectors(a.prior) && forall i :: 0 <= i < |a.groups| ==> w.sector !in HdrSectors(a.groups[i])
  }

  // ----- A sync, by what it does --------------------------------------------------------------------

  /** What a sync leaves to be known: the device before the root write, the array the root will hold,
      and the sectors below it. */
  datatype Trace = Trace(mid: Io, hs: seq<Hash>, ls: seq<nat>, sectors: set<nat>)

  /** Where the writes of a sync start. */
  ghost function StartIo(a: MgrState): Io
    requires a.activeRoot < 2
  {
    a.io.(map_ := StartMap(a.io.map_, 1 - a.activeRoot, a.groups))
  }

  /** Sectors free for the new tree, and sectors it needs. */
  ghost function Available(a: MgrState): nat
    requires a.activeRoot < 2
  {
    FreeCount(StartIo(a).map_)
  }

  /** A sync that ran to its end: groups and index written from StartIo on, then the root and, where the
      slot needs one, the seal list. */
  ghost predicate SyncStep(a: MgrState, b: MgrState, t: Trace) {
    && a.activeRoot < 2 && |a.groups| >= 1 && WillSync(a) && GroupsOk(a.io.disk, a.groups)
    && Reopens(a)
    && GroupsOnDisk(StartIo(a), t.mid, Slot(1 - a.activeRoot), a.groups, b.groups, t.hs, t.ls, NR_ENTRIES_PER_ROOT,
         t.sectors)
    && b.activeRoot == 1 - a.activeRoot && b.sequence == a.sequence + 1 && b.seals == a.seals + {b.activeRoot}
    && b.prior == Tree(NextView(a), t.sectors)
    && b.io == EndIo(t.mid, b.activeRoot, RootSector(b.sequence, |a.groups|, t.hs, t.ls), b.activeRoot !in a.seals)
  }

  /** A sync that aborted: some of those writes, and then no sector for the next. */
  ghost predicate AbortStep(a: MgrState, io: Io) {
    && a.activeRoot < 2 && |a.groups| >= 1 && WillSync(a)
    && Advanced(StartIo(a), io, Slot(1 - a.activeRoot)) && Available(a) < SyncCost(a.groups, NR_ENTRIES_PER_ROOT)
  }

  /** The write that commits: the root, or the seal list where the slot had none. */
  ghost function Commit(a: MgrState, t: Trace): nat
    requires a.activeRoot < 2 && |a.io.log| <= |t.mid.log|
  {
    CommitIndex(a.io.disk, t.mid.log[|a.io.log|..], 1 - a.activeRoot)
  }

  /** What a completed sync comes to: the tree of memory is committed in the other slot, atomically with
      respect to a crash after any of its writes. */
  ghost predicate Synced(a: MgrState, b: MgrState, commit: nat) {
    && ValidState(b) && GroupsOk(a.io.disk, a.groups)
    && b.prior.Tree? && b.prior.view == NextView(a)
    && SameGroups(a.groups, b.groups) && (forall i :: 0 <= i < |b.groups| ==> b.groups[i].loc != 0)
    && WroteFrom(a.io, b.io) && SpareWrites(a, Since(a.io, b.io))
    && CrashSafe(a.io.disk, Since(a.io, b.io), commit, a.activeRoot, a.prior, b.activeRoot, b.prior)
  }

  /** What an aborted one does: the old tree survives every crash point. */
  ghost predicate Aborted(a: MgrState, b: Io) {
    && WroteFrom(a.io, b) && SpareWrites(a, Since(a.io, b))
    && OldTreeKept(a.io.disk, Since(a.io, b), a.activeRoot, a.prior)
  }

  /** The device after the last one or two writes of a sync. */
  ghost function EndIo(mid: Io, root: nat, content: Content, sealed: bool): Io {
    Io(if sealed then mid.disk[RootLoc(root) := content][root := SealList] else mid.disk[RootLoc(root) := content],
       mid.map_,
       mid.log + [Write(RootLoc(root), content)] + if sealed then [Write(root, SealList)] else [])
  }

  /** The root sector, then the seal list if the slot needs one (disk_write_root_sector's last write
      and disk_write_seal_list). */
  method WriteRoot(dev: Device, root: nat, content: Content, sealed: bool)
    requires dev.Valid()
    modifies dev
    ensures dev.Snap() == EndIo(old(dev.Snap()), root, content, sealed)
  {
    dev.WriteSector(RootLoc(root), content);
    if sealed {
      dev.WriteSector(root, SealList);
    }
  }

  lemma EndWrites(start: Io, mid: Io, end: Io, root: nat, content: Content, sealed: bool)
    requires start.log <= mid.log && mid.disk == Replay(start.disk, Since(start, mid))
    requires end == EndIo(mid, root, content, sealed)
    ensures WroteFrom(start, end) && Since(start, end) == SyncWrites(Since(start, mid), root, content, sealed)
  {
    var dyn := Since(start, mid);
    assert Since(start, end) == SyncWrites(dyn, root, content, sealed);
    ReplayTail(start.disk, dyn, Write(RootLoc(root), content), Write(root, SealList));
    assert SyncWrites(dyn, root, content, false) == dyn + [Write(RootLoc(root), content)];
    assert SyncWrites(dyn, root, content, true) == dyn + [Write(RootLoc(root), content)] + [Write(root, SealList)];
  }

  lemma EndGroups(mid: Io, end: Io, root: nat, gs: seq<GroupHdr>, content: Content, sealed: bool)
    requires root < 2 && GroupsReady(mid, Slot(root), gs)
    requires end == EndIo(mid, root, content, sealed)
    ensures GroupsOk(end.disk, gs)
  {
    assert GroupsOk(mid.disk, gs);
    GroupsOkStatic(mid.disk, gs, RootLoc(root), content);
    GroupsOkStatic(mid.disk[RootLoc(root) := content], gs, root, SealList);
  }

  lemma EndSeals(a: MgrState, mid: Io, end: Io, root: nat, content: Content, sealed: bool)
    requires ValidState(a) && root < 2 && Agree(a.io.disk, mid.disk, STATIC_SECTORS) && (sealed <==> root !in a.seals)
    requires end == EndIo(mid, root, content, sealed)
    ensures forall r :: r in a.seals + {root} ==> r < 2 && At(end.disk, r) == SealList
  {
    assert 0 in STATIC_SECTORS && 1 in STATIC_SECTORS;
  }

  lemma MidSpare(a: MgrState, start: Io, mid: Io, root: nat)
    requires ValidState(a) && Prepared(start.disk, start, root, a.prior, a.groups) && Advanced(start, mid, Slot(root))
    ensures SpareWrites(a, Since(start, mid))
  {
    hide HdrOk, Holds, Replay;
    AdvancedIsShadow(start, mid, root, a.prior);
    forall w, i | w in Since(start, mid) && 0 <= i < |a.groups|
      ensures w.sector !in HdrSectors(a.groups[i])
    {
      assert HdrReady(start, Slot(root), a.groups[i]);
      assert start.map_[w.sector] == 0;
    }
  }

  lemma EndSpare(a: MgrState, start: Io, mid: Io, end: Io, root: nat, content: Content, sealed: bool)
    requires ValidState(a) && start.disk == a.io.disk && Prepared(start.disk, start, root, a.prior, a.groups)
    requires Advanced(start, mid, Slot(root))
    requires start.log <= end.log
    requires Since(start, end) == SyncWrites(Since(start, mid), root, content, sealed)
    ensures SpareWrites(a, Since(start, end))
  {
    hide HdrOk, Advanced;
    MidSpare(a, start, mid, root);
    PriorDynamic(start.disk, root, a.prior);
    forall i | 0 <= i < |a.groups|
      ensures Dynamic(HdrSectors(a.groups[i]))
    {
      HdrSectorsDynamic(a.io.disk, a.groups[i]);
    }
  }

  /** Every sync that runs to its end commits the tree of memory, whole, at one of its writes, and leaves
      everything the manager relies on in place. */
  lemma SyncDone(a: MgrState, b: MgrState, t: Trace)
    requires ValidState(a) && SyncStep(a, b, t)
    ensures |a.io.log| <= |t.mid.log| && Synced(a, b, Commit(a, t))
  {
    hide HdrOk, CrashSafe, Committed, SameGroups, InUse, GroupLeaf, LoadPost, Recover, Replay, StartMap;
    var start, mid, root := StartIo(a), t.mid, b.activeRoot;
    StartPrepared(a.io, root, a.prior, a.groups);
    var content := RootSector(b.sequence, |a.groups|, t.hs, t.ls);
    var sealed := root !in a.seals;
    CommitWrites(start, mid, root, a.prior, a.groups, b.groups, t.hs, t.ls, t.sectors, b.sequence, sealed);
    EndWrites(start, mid, b.io, root, content, sealed);
    EndGroups(mid, b.io, root, b.groups, content, sealed);
    EndSeals(a, mid, b.io, root, content, sealed);
    EndSpare(a, start, mid, b.io, root, content, sealed);
    assert Since(a.io, b.io) == Since(start, b.io) && Since(a.io, mid) == Since(start, mid);
  }

  /** Every sync that aborts leaves the old tree whole at each of its writes. */
  lemma AbortKeeps(a: MgrState, mid: Io)
    requires ValidState(a) && AbortStep(a, mid)
    ensures Aborted(a, mid)
  {
    hide StartMap, Replay;
    var start := StartIo(a);
    StartPrepared(a.io, 1 - a.activeRoot, a.prior, a.groups);
    MidSpare(a, start, mid, 1 - a.activeRoot);
    AdvancedIsShadow(start, mid, 1 - a.activeRoot, a.prior);
    ShadowPrefix(start.disk, Since(start, mid), a.activeRoot, a.prior);
    assert Since(a.io, mid) == Since(start, mid);
  }

  class Manager {
    const dev: Device
    var sequence: nat
    var activeRoot: nat
    var groups: seq<GroupHdr>
    /** The slots whose seal list is known to be good (root_seals_valid). */
    var sealsValid: set<nat>
    ghost var prior: Prior

    ghost function State(): MgrState
      reads this, dev, dev.inuse
    {
      MgrState(dev.Snap(), sequence, activeRoot, groups, sealsValid, prior)
    }

    ghost predicate Valid()
      reads this, dev, dev.inuse
    {
      dev.Valid() && ValidState(State())
    }

    /** vtpm_new_disk: one empty open group, nothing on disk yet. */
    constructor New(dev: Device, info: GroupInfo)
      requires dev.Valid() && Blank(dev.disk) && info.nrSeals <= NR_SEALS_PER_GROUP
      ensures Valid() && this.dev == dev && prior == NoTree && sequence == 0
      ensures groups == [GroupHdr(0, OfItree([]), [], Some(MemGroup(info, 0, [])))]
    {
      this.dev := dev;
      sequence, activeRoot, sealsValid, prior := 0, 0, {}, NoTree;
      groups := [GroupHdr(0, OfItree([]), [], Some(MemGroup(info, 0, [])))];
    }

    /** The manager that vtpm_load_disk builds from root slot `root`. */
    constructor Opened(dev: Device, root: nat, sequence: nat, groups: seq<GroupHdr>, ghost prior: Prior)
      ensures this.dev == dev && activeRoot == root && this.sequence == sequence && this.groups == groups
      ensures sealsValid == {root} && this.prior == prior
    {
      this.dev := dev;
      activeRoot, this.sequence, this.groups, sealsValid := root, sequence, groups, {root};
      this.prior := prior;
    }

    /** vtpm_sync_disk with disk_write_all.  `ok` is false where the program aborts, which it does exactly
        when the sectors free for the new tree are fewer than it needs. */
    method SyncDisk() returns (ok: bool, ghost t: Trace)
      requires Valid()
      requires WillSync(State()) ==> Reopens(State())
      modifies this, dev, dev.inuse
      ensures !WillSync(old(State())) ==> ok && State() == old(State())
      ensures ok && old(groups[0].v.Some? && groups[0].v.value.info.nrSeals > 0) ==> sequence == old(sequence) + 1
      ensures WillSync(old(State())) ==> (ok <==> SyncCost(old(groups), NR_ENTRIES_PER_ROOT) <= Available(old(State())))
      ensures WillSync(old(State())) && ok ==> Valid() && SyncStep(old(State()), State(), t)
      ensures WillSync(old(State())) && !ok ==> AbortStep(old(State()), dev.Snap())
    {
      hide ValidState, GroupsOnDisk, Prepared, Advanced, EndIo, HdrOk, Holds, InUse, GroupLeaf, GroupsReady, StartMap,
           SyncCost, FreeCount;
      ghost var a := State();
      OpenState(a);
      ok, t := true, Trace(dev.Snap(), [], [], {});
      if groups[0].v.None? || groups[0].v.value.info.nrSeals == 0 {
        return;
      }
      sequence := sequence + 1;
      activeRoot := 1 - activeRoot;
      PrepareSlot(dev, groups, activeRoot);
      assert dev.Snap() == StartIo(a);
      StartPrepared(a.io, activeRoot, a.prior, a.groups);
      PreparedReady(dev.Snap(), activeRoot, prior, groups);
      var gs, hs, ls;
      ghost var sectors;
      ok, gs, hs, ls, sectors := WriteGroupItree(dev, groups, |groups|, NR_ENTRIES_PER_ROOT, activeRoot);
      if !ok {
        return;
      }
      t := Trace(dev.Snap(), hs, ls, sectors);
      WriteRoot(dev, activeRoot, RootSector(sequence, |groups|, hs, ls), activeRoot !in sealsValid);
      sealsValid := sealsValid + {activeRoot};
      groups := gs;
      prior := Tree(NextView(a), sectors);
      SyncedValid(a, State(), t);
    }
  }

  lemma SyncedValid(a: MgrState, b: MgrState, t: Trace)
    requires ValidState(a) && SyncStep(a, b, t)
    ensures ValidState(b)
  {
    hide ValidState, SyncStep, CrashSafe, SpareWrites, SameGroups;
    SyncDone(a, b, t);
  }

  lemma OpenState(s: MgrState)
    requires ValidState(s)
    ensures s.activeRoot < 2 && 1 <= |s.groups| <= NR_ENTRIES_PER_ITREE && GroupsOk(s.io.disk, s.groups)
    ensures Holds(s.io.disk, s.activeRoot, s.prior) && InUse(s.io.map_, Slot(s.activeRoot), PriorSectors(s.prior))
  {}

  lemma PreparedReady(io: Io, root: nat, prior: Prior, gs: seq<GroupHdr>)
    requires Prepared(io.disk, io, root, prior, gs)
    ensures GroupsReady(io, Slot(root), gs)
  {}
}
