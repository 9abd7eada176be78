/** What the manager's commands change in memory between two syncs (vtpm_disk.c, vtpm_cmd_handler.c). */
module DiskEdits {
  import opened Wrappers
  import opened DiskFormat
  import opened DiskIo
  import opened DiskMemory
  import opened DiskRecover
  import opened DiskSync
  import opened VtpmPages

  const VTPM_FLAG_OPEN: bv32 := 0x8000_0000

  /** Edits of group `gi`, or of the list of groups. */
  datatype EditOp =
    | CreateVtpm(gi: nat, uuid: int)
    | DeleteVtpm(gi: nat, index: nat)
    /** New data and flags, as SaveHashKey and opening a vTPM leave them. */
    | SetVtpm(gi: nat, index: nat, data: int, flags: bv32)
    /** vtpm_sync and vtpm_sync_group up to the sync itself. */
    | TouchVtpm(gi: nat, index: nat)
    | TouchGroup(gi: nat)
    /** A new boot configuration; the seal lists of the roots belong to group 0. */
    | Reseal(gi: nat, nrSeals: nat, unsealable: bool)
    | NewGroup(id: int)
    | DropGroup(gi: nat)

  ghost predicate NoneOpen(g: MemGroup) {
    forall j, k :: 0 <= j < |g.pages| && 0 <= k < |g.pages[j].vtpms| ==> g.pages[j].vtpms[k].flags & VTPM_FLAG_OPEN == 0
  }

  /** The command's own checks on an open group. */
  ghost predicate CanEditGroup(g: MemGroup, op: EditOp) {
    match op
    case CreateVtpm(_, _) => CanCreate(g.nrVtpms, g.pages)
    case DeleteVtpm(_, index) =>
      CanDelete(g.nrVtpms, g.pages, index) && VtpmAt(g.pages, index).flags & VTPM_FLAG_OPEN == 0
    case SetVtpm(_, index, _, _) =>
      index / VTPMS_PER_SECTOR < |g.pages| && index % VTPMS_PER_SECTOR < |g.pages[index / VTPMS_PER_SECTOR].vtpms|
    case TouchVtpm(_, index) => index / VTPMS_PER_SECTOR < |g.pages|
    case TouchGroup(_) => true
    case Reseal(_, nrSeals, _) => nrSeals <= NR_SEALS_PER_GROUP
    case NewGroup(_) => false
    case DropGroup(_) => NoneOpen(g)
  }

  ghost predicate CanEdit(s: MgrState, op: EditOp) {
    match op
    case NewGroup(_) => |s.groups| < NR_ENTRIES_PER_ITREE
    case DropGroup(gi) =>
      gi < |s.groups| && |s.groups| > 1 && (s.groups[gi].v.Some? ==> CanEditGroup(s.groups[gi].v.value, op))
    case _ => op.gi < |s.groups| && s.groups[op.gi].v.Some? && CanEditGroup(s.groups[op.gi].v.value, op)
  }

  /** The next update of the group on disk has a new sequence number. */
  function Bumped(g: MemGroup): MemGroup {
    g.(info := g.info.(sequence := g.info.sequence + 1))
  }

  ghost function EditedHdr(h: GroupHdr, op: EditOp): GroupHdr
    requires h.v.Some? && CanEditGroup(h.v.value, op)
  {
    var g := h.v.value;
    match op
    case CreateVtpm(_, uuid) =>
      h.(v := Some(g.(nrVtpms := g.nrVtpms + 1, pages := Created(g.nrVtpms, g.pages, Vtpm(uuid, 0, 0, g.nrVtpms)))))
    case DeleteVtpm(_, index) =>
      h.(v := Some(g.(nrVtpms := g.nrVtpms - 1, pages := Deleted(g.pages, index))))
    case SetVtpm(_, index, data, flags) =>
      var pgidx, vtidx := index / VTPMS_PER_SECTOR, index % VTPMS_PER_SECTOR;
      var page := g.pages[pgidx];
      var v := page.vtpms[vtidx].(data := data, flags := flags);
      h.(v := Some(g.(pages := g.pages[pgidx := page.(vtpms := page.vtpms[vtidx := v])])))
    case TouchVtpm(_, index) =>
      var pgidx := index / VTPMS_PER_SECTOR;
      h.(loc := 0, v := Some(Bumped(g.(pages := g.pages[pgidx := g.pages[pgidx].(loc := 0)]))))
    case TouchGroup(_) => h.(loc := 0, v := Some(Bumped(g)))
    case Reseal(_, nrSeals, unsealable) =>
      h.(v := Some(g.(info := g.info.(nrSeals := nrSeals, unsealable := unsealable))))
    case NewGroup(_) => h
    case DropGroup(_) => h
  }

  function FreshGroup(id: int, sequence: nat): GroupHdr {
    GroupHdr(0, OfItree([]), [], Some(MemGroup(GroupInfo(id, sequence, false, 0, false), 0, [])))
  }

  ghost function Edited(s: MgrState, op: EditOp): MgrState
    requires CanEdit(s, op)
  {
    match op
    case NewGroup(id) => s.(groups := s.groups + [FreshGroup(id, s.sequence)])
    case DropGroup(gi) => s.(groups := s.groups[..gi] + s.groups[gi + 1..])
    case Reseal(gi, _, _) =>
      s.(groups := s.groups[gi := EditedHdr(s.groups[gi], op)], seals := if gi == 0 then {} else s.seals)
    case _ => s.(groups := s.groups[op.gi := EditedHdr(s.groups[op.gi], op)])
  }

  // ----- Every edit keeps the invariant ---------------------------------------------------------------

  /** The pages of an open group rely on intact copies, listed in `listed` while the header is valid. */
  ghost predicate PagesOk(d: Disk, pages: seq<MemPage>, valid: bool, listed: set<nat>) {
    forall i :: 0 <= i < |pages| ==>
      && PageOnDisk(d, pages[i]) && |pages[i].vtpms| <= VTPMS_PER_SECTOR
      && (valid && pages[i].loc != 0 ==> pages[i].loc in listed)
  }

  /** Edits never give a page a copy on disk: it keeps the one it had, or loses it. */
  ghost predicate Fewer(pages: seq<MemPage>, pages': seq<MemPage>) {
    forall i :: 0 <= i < |pages'| ==>
      && |pages'[i].vtpms| <= VTPMS_PER_SECTOR
      && (pages'[i].loc != 0 ==> i < |pages| && pages'[i].loc == pages[i].loc && pages'[i].hash == pages[i].hash)
  }

  lemma FewerOk(d: Disk, pages: seq<MemPage>, pages': seq<MemPage>, valid: bool, listed: set<nat>)
    requires PagesOk(d, pages, valid, listed) && Fewer(pages, pages')
    ensures PagesOk(d, pages', valid, listed)
  {
    hide PageLeaf;
  }

  lemma HdrPages(d: Disk, h: GroupHdr)
    requires h.v.Some?
    ensures HdrOk(d, h) <==>
              && (h.loc != 0 ==>
                    && GroupLeaf(d, h.hash, h.loc).Some?
                    && GroupLeaf(d, h.hash, h.loc).value.sectors <= HdrSectors(h) && Dynamic(HdrSectors(h)))
              && |h.v.value.pages| == PageCount(h.v.value.nrVtpms) && h.v.value.info.nrSeals <= NR_SEALS_PER_GROUP
              && PagesOk(d, h.v.value.pages, h.loc != 0, SectorsOf(h.inuse))
  {
    hide GroupLeaf, PageLeaf, PageCount;
    var pages := h.v.value.pages;
    assert forall p :: p in pages && p.loc != 0 ==> p.loc in PageSectors(pages);
    assert forall i :: 0 <= i < |pages| ==> pages[i] in pages;
  }

  lemma EditedPages(h: GroupHdr, op: EditOp)
    requires h.v.Some? && CanEditGroup(h.v.value, op) && |h.v.value.pages| == PageCount(h.v.value.nrVtpms)
    requires forall i :: 0 <= i < |h.v.value.pages| ==> |h.v.value.pages[i].vtpms| <= VTPMS_PER_SECTOR
    ensures var g := EditedHdr(h, op).v.value; |g.pages| == PageCount(g.nrVtpms) && Fewer(h.v.value.pages, g.pages)
  {
    var g := h.v.value;
    if op.DeleteVtpm? {
      CountStep(g.nrVtpms);
    }
  }

  lemma EditedHdrOk(d: Disk, h: GroupHdr, op: EditOp)
    requires HdrOk(d, h) && h.v.Some? && CanEditGroup(h.v.value, op)
    ensures HdrOk(d, EditedHdr(h, op))
  {
    hide HdrOk, PageLeaf, GroupLeaf, PageCount, Created, Deleted, PagesOk;
    var h' := EditedHdr(h, op);
    HdrPages(d, h);
    HdrPages(d, h');
    PagesSmall(d, h.v.value.pages, h.loc != 0, SectorsOf(h.inuse));
    EditedPages(h, op);
    FewerOk(d, h.v.value.pages, h'.v.value.pages, h.loc != 0, SectorsOf(h.inuse));
    PagesWhileValid(d, h'.v.value.pages, h.loc != 0, h'.loc != 0, SectorsOf(h.inuse));
  }

  lemma PagesSmall(d: Disk, pages: seq<MemPage>, valid: bool, listed: set<nat>)
    requires PagesOk(d, pages, valid, listed)
    ensures forall i :: 0 <= i < |pages| ==> |pages[i].vtpms| <= VTPMS_PER_SECTOR
  {}

  lemma PagesWhileValid(d: Disk, pages: seq<MemPage>, valid: bool, valid': bool, listed: set<nat>)
    requires PagesOk(d, pages, valid, listed) && (valid' ==> valid)
    ensures PagesOk(d, pages, valid', listed)
  {}

  /** No command disturbs what the manager relies on, and none touches the disk. */
  lemma EditKeepsValid(s: MgrState, op: EditOp)
    requires ValidState(s) && CanEdit(s, op)
    ensures ValidState(Edited(s, op)) && Edited(s, op).prior == s.prior && Edited(s, op).io == s.io
  {
    hide HdrOk, Holds, CanEditGroup, EditedHdr;
    if op.NewGroup? {
      FreshOk(s.io.disk, op.id, s.sequence);
    } else if !op.DropGroup? {
      EditedHdrOk(s.io.disk, s.groups[op.gi], op);
    }
  }

  lemma FreshOk(d: Disk, id: int, sequence: nat)
    ensures HdrOk(d, FreshGroup(id, sequence))
  {}

  // ----- What the next sync would commit ------------------------------------------------------------------

  /** Creating, deleting, changing or resealing is seen by the next sync only once the group is
      invalidated: while its header is valid, the tree that memory stands for is the one before. */
  lemma UnseenUntilTouched(s: MgrState, op: EditOp)
    requires ValidState(s) && CanEdit(s, op) && (op.CreateVtpm? || op.DeleteVtpm? || op.SetVtpm? || op.Reseal?)
    requires s.groups[op.gi].loc != 0
    ensures ValidState(Edited(s, op)) && NextView(Edited(s, op)) == NextView(s)
  {
    hide HdrOk, GroupLeaf, Holds, CanEditGroup;
    EditKeepsValid(s, op);
    var a, b := GroupsOf(s.io.disk, s.groups), GroupsOf(s.io.disk, Edited(s, op).groups);
    forall i | 0 <= i < |a|
      ensures a[i] == b[i]
    {}
  }

  /** The command that deletes a vTPM does not sync.  The deletion is part of the next tree exactly when
      the group had already been invalidated. */
  lemma DeleteSeen(s: MgrState, op: EditOp)
    requires ValidState(s) && CanEdit(s, op) && op.DeleteVtpm?
    ensures ValidState(Edited(s, op))
    ensures NextView(Edited(s, op)) == NextView(s) <==> s.groups[op.gi].loc != 0
  {
    hide HdrOk, GroupLeaf, Holds, CanEditGroup;
    EditKeepsValid(s, op);
    if s.groups[op.gi].loc != 0 {
      UnseenUntilTouched(s, op);
    } else {
      var a, b := GroupsOf(s.io.disk, s.groups), GroupsOf(s.io.disk, Edited(s, op).groups);
      assert b[op.gi].meta.nrVtpms == s.groups[op.gi].v.value.nrVtpms - 1;
      assert a[op.gi].meta.nrVtpms == s.groups[op.gi].v.value.nrVtpms;
    }
  }

  // ----- The commands ---------------------------------------------------------------------------------------

  /** From `h` to `h'` a vTPM with this uuid, no data and no flags became number nrVtpms, in slot nrVtpms % 48 of
      page nrVtpms / 48; every other slot, and what is known of copies on disk, is as before. */
  ghost predicate CreatedIn(h: GroupHdr, h': GroupHdr, uuid: int) {
    && h.v.Some? && h'.v.Some? && h'.loc == h.loc && h'.hash == h.hash && h'.inuse == h.inuse
    && var g, g', n := h.v.value, h'.v.value, h.v.value.nrVtpms;
       var pgidx, vtidx := n / 48, n % 48;
       && g'.info == g.info && g'.nrVtpms == n + 1
       && |g'.pages| == (if pgidx < |g.pages| then |g.pages| else pgidx + 1)
       && (forall j :: 0 <= j < |g.pages| && j != pgidx ==> g'.pages[j] == g.pages[j])
       && |g'.pages[pgidx].vtpms| == vtidx + 1 && g'.pages[pgidx].vtpms[vtidx] == Vtpm(uuid, 0, 0, n)
       && (if pgidx < |g.pages| then g'.pages[pgidx] == g.pages[pgidx].(vtpms := g'.pages[pgidx].vtpms) &&
                                     g'.pages[pgidx].vtpms[..vtidx] == g.pages[pgidx].vtpms
           else pgidx == |g.pages| && vtidx == 0 && g'.pages[pgidx].loc == 0)
  }

  /** create_vtpm.  `ok` is false where the program aborts. */
  method CreateIn(m: Manager, gi: nat, uuid: int) returns (ok: bool)
    requires gi < |m.groups| && m.groups[gi].v.Some?
    modifies m
    ensures ok <==> CanEdit(old(m.State()), CreateVtpm(gi, uuid))
    ensures ok ==> m.State() == Edited(old(m.State()), CreateVtpm(gi, uuid))
    ensures ok ==> m.groups == old(m.groups)[gi := m.groups[gi]] && CreatedIn(old(m.groups[gi]), m.groups[gi], uuid)
    ensures !ok ==> m.State() == old(m.State())
  {
    var hdr := m.groups[gi];
    var n, pages := hdr.v.value.nrVtpms, hdr.v.value.pages;
    var pgidx, vtidx := n / VTPMS_PER_SECTOR, n % VTPMS_PER_SECTOR;
    if pgidx >= |pages| {
      if pgidx != |pages| {
        return false;
      }
      pages := pages + [BLANK_PAGE];
    }
    var page := pages[pgidx];
    if |page.vtpms| != vtidx {
      return false;
    }
    pages := pages[pgidx := page.(vtpms := page.vtpms + [Vtpm(uuid, 0, 0, n)])];
    m.groups := m.groups[gi := hdr.(v := Some(hdr.v.value.(nrVtpms := n + 1, pages := pages)))];
    ok := true;
  }

  /** From `h` to `h'` vTPM number `index` is gone.  In a dense group the last vTPM has taken its number, all others
      keep theirs, and the two pages touched have no valid copy on disk any more. */
  ghost predicate DeletedFrom(h: GroupHdr, h': GroupHdr, index: nat) {
    && h.v.Some? && h'.v.Some? && h'.loc == h.loc && h'.hash == h.hash && h'.inuse == h.inuse
    && var g, g' := h.v.value, h'.v.value;
       && g'.info == g.info && g'.nrVtpms + 1 == g.nrVtpms
       && (forall j :: 0 <= j < |g'.pages| && (j == index / 48 || j == |g.pages| - 1) ==> g'.pages[j].loc == 0)
       && (Dense(g.nrVtpms, g.pages) && index < g.nrVtpms ==>
             && Dense(g'.nrVtpms, g'.pages)
             && Vtpms(g'.nrVtpms, g'.pages) == SwapRemove(Vtpms(g.nrVtpms, g.pages), index))
  }

  /** delete_vtpm of vTPM number `index`: the last vTPM takes its place, unless the vTPM is open. */
  method DeleteFrom(m: Manager, gi: nat, index: nat) returns (rc: int)
    requires gi < |m.groups| && m.groups[gi].v.Some?
    requires CanDelete(m.groups[gi].v.value.nrVtpms, m.groups[gi].v.value.pages, index)
    modifies m
    ensures rc == 0 <==> CanEdit(old(m.State()), DeleteVtpm(gi, index))
    ensures rc == 0 ==> m.State() == Edited(old(m.State()), DeleteVtpm(gi, index))
    ensures rc != 0 ==> m.State() == old(m.State())
    ensures rc == 0 <==>
              old(m.groups[gi].v.value.pages[index / 48].vtpms[index % 48]).flags & 0x8000_0000 == 0
    ensures rc == 0 ==> m.groups == old(m.groups)[gi := m.groups[gi]]
    ensures rc == 0 ==> DeletedFrom(old(m.groups[gi]), m.groups[gi], index)
  {
    hide DeletedFrom;
    var hdr := m.groups[gi];
    var n, pages := hdr.v.value.nrVtpms, hdr.v.value.pages;
    var pgidx, vtidx, lastPg := index / VTPMS_PER_SECTOR, index % VTPMS_PER_SECTOR, |pages| - 1;
    var size := |pages[lastPg].vtpms|;
    var last := pages[lastPg].vtpms[size - 1];
    if pages[pgidx].vtpms[vtidx].flags & VTPM_FLAG_OPEN != 0 {
      return 1;
    }
    pages := pages[pgidx := pages[pgidx].(vtpms := pages[pgidx].vtpms[vtidx := last.(index := index)], loc := 0)];
    pages := pages[lastPg := pages[lastPg].(vtpms := pages[lastPg].vtpms[..size - 1], loc := 0)];
    if size - 1 == 0 {
      pages := pages[..lastPg];
    }
    m.groups := m.groups[gi := hdr.(v := Some(hdr.v.value.(nrVtpms := n - 1, pages := pages)))];
    rc := 0;
    DeletedMeans(hdr, m.groups[gi], index);
  }

  lemma DeletedMeans(h: GroupHdr, h': GroupHdr, index: nat)
    requires h.v.Some? && CanDelete(h.v.value.nrVtpms, h.v.value.pages, index)
    requires h' == h.(v := Some(h.v.value.(nrVtpms := h.v.value.nrVtpms - 1, pages := Deleted(h.v.value.pages, index))))
    ensures DeletedFrom(h, h', index)
  {
    hide Dense, Vtpms, SwapRemove;
    var g := h.v.value;
    if Dense(g.nrVtpms, g.pages) && index < g.nrVtpms {
      DeletedDense(g.nrVtpms, g.pages, index);
    }
  }

  /** No vTPM of the first `j` pages, nor of the first `k` slots of page `j`, has this uuid. */
  ghost predicate AbsentBefore(g: MemGroup, uuid: int, j: nat, k: nat) {
    forall j', k' :: 0 <= j' < |g.pages| && 0 <= k' < |g.pages[j'].vtpms| && (j' < j || (j' == j && k' < k)) ==>
      g.pages[j'].vtpms[k'].uuid != uuid
  }

  ghost predicate AbsentFrom(h: GroupHdr, uuid: int) {
    h.v.Some? ==> AbsentBefore(h.v.value, uuid, |h.v.value.pages|, 0)
  }

  /** find_vtpm: the first vTPM with this uuid by group, page and slot, closed groups passed over. */
  method FindVtpm(m: Manager, uuid: int) returns (found: bool, gi: nat, j: nat, k: nat)
    ensures found ==>
              && gi < |m.groups| && m.groups[gi].v.Some? && j < |m.groups[gi].v.value.pages|
              && k < |m.groups[gi].v.value.pages[j].vtpms| && m.groups[gi].v.value.pages[j].vtpms[k].uuid == uuid
              && AbsentBefore(m.groups[gi].v.value, uuid, j, k)
    ensures forall i :: 0 <= i < (if found then gi else |m.groups|) ==> AbsentFrom(m.groups[i], uuid)
  {
    for i := 0 to |m.groups|
      invariant forall i' :: 0 <= i' < i ==> AbsentFrom(m.groups[i'], uuid)
    {
      if m.groups[i].v.Some? {
        var g := m.groups[i].v.value;
        for p := 0 to |g.pages|
          invariant AbsentBefore(g, uuid, p, 0)
        {
          for v := 0 to |g.pages[p].vtpms|
            invariant AbsentBefore(g, uuid, p, v)
          {
            if g.pages[p].vtpms[v].uuid == uuid {
              return true, i, p, v;
            }
          }
        }
      }
    }
    return false, 0, 0, 0;
  }

  /** A vTPM created under a uuid that no open group had is the one found under it. */
  method CreateThenFind(m: Manager, gi: nat, uuid: int) returns (ok: bool, found: bool, fi: nat, j: nat, k: nat)
    requires gi < |m.groups| && m.groups[gi].v.Some?
    requires forall i :: 0 <= i < |m.groups| ==> AbsentFrom(m.groups[i], uuid)
    modifies m
    ensures var n := old(m.groups[gi].v.value.nrVtpms); ok ==> found && fi == gi && j == n / 48 && k == n % 48
  {
    ghost var before := m.groups;
    ok := CreateIn(m, gi, uuid);
    found, fi, j, k := FindVtpm(m, uuid);
    if ok {
      OnlyThere(before[gi], m.groups[gi], uuid);
    }
  }

  lemma OnlyThere(h: GroupHdr, h': GroupHdr, uuid: int)
    requires CreatedIn(h, h', uuid) && AbsentFrom(h, uuid)
    ensures !AbsentFrom(h', uuid)
    ensures forall j, k :: 0 <= j < |h'.v.value.pages| && 0 <= k < |h'.v.value.pages[j].vtpms| ==>
              (h'.v.value.pages[j].vtpms[k].uuid == uuid <==>
                j == h.v.value.nrVtpms / 48 && k == h.v.value.nrVtpms % 48)
  {
    var g, g', n := h.v.value, h'.v.value, h.v.value.nrVtpms;
    forall j, k | 0 <= j < |g'.pages| && 0 <= k < |g'.pages[j].vtpms|
      ensures g'.pages[j].vtpms[k].uuid == uuid <==> j == n / 48 && k == n % 48
    {
      if j != n / 48 {
        assert g'.pages[j] == g.pages[j];
      } else if k < n % 48 {
        assert g'.pages[j].vtpms[..n % 48][k] == g.pages[j].vtpms[k];
      }
    }
    assert g'.pages[n / 48].vtpms[n % 48].uuid == uuid;
  }

  // ----- What a touched group commits -------------------------------------------------------------------------

  /** What the next tree shows of a vTPM: its uuid, its data and the low 16 flags. */
  function Shown(v: Vtpm): DiskVtpm {
    DiskVtpm(v.uuid, v.flags & 0xFFFF, v.data)
  }

  /** New data, once the page is touched, is in the next tree, in the slot of the vTPM it was saved for, under its
      uuid; the other slots of the page show what they did. */
  lemma SavedSeen(s: MgrState, gi: nat, index: nat, data: int, flags: bv32)
    requires ValidState(s) && CanEdit(s, SetVtpm(gi, index, data, flags))
    ensures var a := Edited(s, SetVtpm(gi, index, data, flags));
            && CanEdit(a, TouchVtpm(gi, index))
            && var b, pgidx, vtidx := Edited(a, TouchVtpm(gi, index)), index / 48, index % 48;
               var was := s.groups[gi].v.value.pages[pgidx].vtpms;
               && ValidState(b) && pgidx < |NextView(b).groups[gi].pages|
               && NextView(b).groups[gi].meta.info.sequence == s.groups[gi].v.value.info.sequence + 1
               && var image := NextView(b).groups[gi].pages[pgidx];
                  && |image| == 48 && image[vtidx] == DiskVtpm(was[vtidx].uuid, flags & 0xFFFF, data)
                  && forall k :: 0 <= k < 48 && k != vtidx ==>
                       image[k] == if k < |was| then Shown(was[k]) else DiskVtpm(0, 0, 0)
  {
    hide HdrOk, GroupLeaf, Holds;
    var a := Edited(s, SetVtpm(gi, index, data, flags));
    EditKeepsValid(s, SetVtpm(gi, index, data, flags));
    EditKeepsValid(a, TouchVtpm(gi, index));
  }

  /** A new boot configuration, once the group is touched, is in the next tree with the group's sequence number one
      higher; and if the group is group 0, the next sync writes a seal list whichever slot it goes to. */
  lemma ResealSeen(s: MgrState, gi: nat, nrSeals: nat, unsealable: bool)
    requires ValidState(s) && CanEdit(s, Reseal(gi, nrSeals, unsealable))
    ensures var a := Edited(s, Reseal(gi, nrSeals, unsealable));
            && CanEdit(a, TouchGroup(gi))
            && var b, was := Edited(a, TouchGroup(gi)), s.groups[gi].v.value;
               && ValidState(b) && (gi == 0 ==> 0 !in b.seals && 1 !in b.seals)
               && NextView(b).groups[gi].meta ==
                    GroupMeta(GroupInfo(was.info.id, was.info.sequence + 1, was.info.rollback, nrSeals, unsealable),
                              was.nrVtpms)
  {
    hide HdrOk, GroupLeaf, Holds;
    var a := Edited(s, Reseal(gi, nrSeals, unsealable));
    EditKeepsValid(s, Reseal(gi, nrSeals, unsealable));
    EditKeepsValid(a, TouchGroup(gi));
  }

  /** A new group is the last of the next tree, empty, and the others are as they were; a dropped one is missing
      from it, and the others keep their order. */
  lemma GroupsSeen(s: MgrState, op: EditOp)
    requires ValidState(s) && CanEdit(s, op) && (op.NewGroup? || op.DropGroup?)
    ensures ValidState(Edited(s, op))
    ensures op.NewGroup? ==>
              NextView(Edited(s, op)).groups ==
                NextView(s).groups + [GroupTree(GroupMeta(GroupInfo(op.id, s.sequence, false, 0, false), 0), [])]
    ensures op.DropGroup? ==>
              NextView(Edited(s, op)).groups == NextView(s).groups[..op.gi] + NextView(s).groups[op.gi + 1..]
  {
    hide HdrOk, GroupLeaf, Holds, CanEditGroup;
    EditKeepsValid(s, op);
    var a, b := NextView(s).groups, NextView(Edited(s, op)).groups;
    var goal := if op.NewGroup? then a + [GroupTree(GroupMeta(GroupInfo(op.id, s.sequence, false, 0, false), 0), [])]
                else a[..op.gi] + a[op.gi + 1..];
    assert |b| == |goal|;
    forall i | 0 <= i < |b|
      ensures b[i] == goal[i]
    {}
  }
}
