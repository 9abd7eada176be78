/** Making a changed vTPM durable, and what a restart brings back of a group (vtpm_disk.c, disk_read.c). */
module VtpmSync {
  import opened Wrappers
  import opened DiskFormat
  import opened DiskIo
  import opened DiskMemory
  import opened DiskRecover
  import opened DiskWrite
  import opened DiskSync
  import opened DiskLoad
  import opened DiskEdits
  import opened DiskRuns
  import opened VtpmPages

  /** What the next sync writes for a touched vTPM is its page as it is in memory. */
  lemma TouchedImage(s: MgrState, gi: nat, index: nat)
    requires ValidState(s) && CanEdit(s, TouchVtpm(gi, index))
    ensures var b, pgidx := Edited(s, TouchVtpm(gi, index)), index / VTPMS_PER_SECTOR;
            && ValidState(b) && pgidx < |NextView(b).groups[gi].pages|
            && NextView(b).groups[gi].pages[pgidx] == DiskImage(s.groups[gi].v.value.pages[pgidx].vtpms)
  {
    hide HdrOk, GroupLeaf, Holds;
    EditKeepsValid(s, TouchVtpm(gi, index));
  }

  /** A sync of `a` that goes on to `b`: nothing where nothing will be written, an abort exactly when the
      sectors run out, and otherwise every write of the sync. */
  ghost predicate SyncOutcome(a: MgrState, ok: bool, b: MgrState, t: Trace) {
    && |a.groups| >= 1 && a.activeRoot < 2
    && (!WillSync(a) ==> ok && b == a)
    && (WillSync(a) ==> (ok <==> SyncCost(a.groups, NR_ENTRIES_PER_ROOT) <= Available(a)))
    && (WillSync(a) && ok ==> SyncStep(a, b, t))
    && (WillSync(a) && !ok ==> AbortStep(a, b.io))
  }

  /** Page `pgidx` of group `gi` of the committed tree is the one in memory. */
  ghost predicate PageCommitted(prior: Prior, gi: nat, pgidx: nat, pages: seq<MemPage>) {
    && prior.Tree? && gi < |prior.view.groups| && pgidx < |prior.view.groups[gi].pages| && pgidx < |pages|
    && prior.view.groups[gi].pages[pgidx] == DiskImage(pages[pgidx].vtpms)
  }

  /** vtpm_sync: aborts exactly when the sectors run out, and otherwise the committed tree holds the
      vTPM's page as it is in memory. */
  method SyncVtpm(m: Manager, gi: nat, index: nat) returns (ok: bool, ghost t: Trace)
    requires m.Valid() && CanEdit(m.State(), TouchVtpm(gi, index))
    requires WillSync(m.State()) ==> Reopens(Edited(m.State(), TouchVtpm(gi, index)))
    modifies m, m.dev, m.dev.inuse
    ensures SyncOutcome(Edited(old(m.State()), TouchVtpm(gi, index)), ok, m.State(), t)
    ensures ok && WillSync(old(m.State())) ==>
              m.Valid() && PageCommitted(m.prior, gi, index / VTPMS_PER_SECTOR, old(m.groups[gi].v.value.pages))
  {
    hide ValidState, SyncStep, AbortStep, Reopens, HdrOk, GroupLeaf, Available, SyncCost;
    ghost var a := m.State();
    ghost var b := Edited(a, TouchVtpm(gi, index));
    TouchedImage(a, gi, index);
    OpenState(a);
    var hdr := m.groups[gi];
    var g, pgidx := hdr.v.value, index / VTPMS_PER_SECTOR;
    g := g.(info := g.info.(sequence := g.info.sequence + 1), pages := g.pages[pgidx := g.pages[pgidx].(loc := 0)]);
    m.groups := m.groups[gi := hdr.(loc := 0, v := Some(g))];
    assert m.State() == b;
    ok, t := m.SyncDisk();
    assert WillSync(b) <==> WillSync(a);
    if WillSync(b) && ok {
      SyncedView(b, m.State(), t);
    }
  }

  lemma SyncedView(a: MgrState, b: MgrState, t: Trace)
    requires ValidState(a) && SyncStep(a, b, t)
    ensures ValidState(b) && GroupsOk(a.io.disk, a.groups) && b.prior.Tree? && b.prior.view == NextView(a)
  {
    hide CrashSafe, Holds, SpareWrites, SameGroups, HdrOk, GroupLeaf;
    SyncDone(a, b, t);
  }

  /** SaveHashKey for a vTPM that exists: when it returns, the committed tree has the data in the vTPM's slot, under
      its uuid, unless group 0 is closed or has no seals. */
  method SaveVtpm(m: Manager, gi: nat, index: nat, data: int) returns (ok: bool, ghost t: Trace)
    requires m.Valid() && gi < |m.groups| && m.groups[gi].v.Some?
    requires index / 48 < |m.groups[gi].v.value.pages|
    requires index % 48 < |m.groups[gi].v.value.pages[index / 48].vtpms|
    requires WillSync(m.State()) ==> Reopens(Saved(m.State(), gi, index, data))
    modifies m, m.dev, m.dev.inuse
    ensures SyncOutcome(Saved(old(m.State()), gi, index, data), ok, m.State(), t)
    ensures var was := old(m.groups[gi].v.value.pages[index / 48].vtpms[index % 48]);
            ok && old(m.groups[0].v.Some? && m.groups[0].v.value.info.nrSeals > 0) ==>
              m.Valid() && SlotCommitted(m.prior, gi, index, DiskVtpm(was.uuid, was.flags & 0xFFFF, data))
  {
    hide ValidState, SyncOutcome, PageCommitted, Reopens, Edited, CanEdit, SlotCommitted;
    ghost var a := m.State();
    OpenState(a);
    var hdr, pgidx, vtidx := m.groups[gi], index / 48, index % 48;
    var g, page := hdr.v.value, hdr.v.value.pages[pgidx];
    page := page.(vtpms := page.vtpms[vtidx := page.vtpms[vtidx].(data := data)]);
    m.groups := m.groups[gi := hdr.(v := Some(g.(pages := g.pages[pgidx := page])))];
    SetIs(a, m.State(), gi, index, data);
    ok, t := SyncVtpm(m, gi, index);
    if ok && WillSync(a) {
      SavedCommitted(a, m.State(), t, gi, index, data);
    }
  }

  /** Slot `index` of group `gi` of the committed tree. */
  ghost predicate SlotCommitted(prior: Prior, gi: nat, index: nat, v: DiskVtpm) {
    && prior.Tree? && gi < |prior.view.groups| && index / 48 < |prior.view.groups[gi].pages|
    && |prior.view.groups[gi].pages[index / 48]| == 48 && prior.view.groups[gi].pages[index / 48][index % 48] == v
  }

  lemma SetIs(a: MgrState, b: MgrState, gi: nat, index: nat, data: int)
    requires ValidState(a) && gi < |a.groups| && a.groups[gi].v.Some? && index / 48 < |a.groups[gi].v.value.pages|
    requires index % 48 < |a.groups[gi].v.value.pages[index / 48].vtpms|
    requires var h, pgidx, vtidx := a.groups[gi], index / 48, index % 48;
             var page := h.v.value.pages[pgidx];
             var page' := page.(vtpms := page.vtpms[vtidx := page.vtpms[vtidx].(data := data)]);
             b == a.(groups := a.groups[gi := h.(v := Some(h.v.value.(pages := h.v.value.pages[pgidx := page'])))])
    ensures var flags := a.groups[gi].v.value.pages[index / 48].vtpms[index % 48].flags;
            && CanEdit(a, SetVtpm(gi, index, data, flags)) && b == Edited(a, SetVtpm(gi, index, data, flags))
            && ValidState(b) && CanEdit(b, TouchVtpm(gi, index)) && 1 <= |b.groups| && 1 <= |a.groups|
            && Edited(b, TouchVtpm(gi, index)) == Saved(a, gi, index, data) && (WillSync(b) <==> WillSync(a))
  {
    hide ValidState;
    OpenState(a);
    EditKeepsValid(a, SetVtpm(gi, index, data, a.groups[gi].v.value.pages[index / 48].vtpms[index % 48].flags));
  }

  lemma SavedCommitted(a: MgrState, b: MgrState, t: Trace, gi: nat, index: nat, data: int)
    requires ValidState(a) && gi < |a.groups| && a.groups[gi].v.Some? && index / 48 < |a.groups[gi].v.value.pages|
    requires index % 48 < |a.groups[gi].v.value.pages[index / 48].vtpms| && WillSync(a)
    requires SyncOutcome(Saved(a, gi, index, data), true, b, t)
    ensures var was := a.groups[gi].v.value.pages[index / 48].vtpms[index % 48];
            SlotCommitted(b.prior, gi, index, DiskVtpm(was.uuid, was.flags & 0xFFFF, data))
  {
    hide ValidState, SyncStep, AbortStep, Available, SyncCost, Edited, CanEdit;
    var flags := a.groups[gi].v.value.pages[index / 48].vtpms[index % 48].flags;
    SavedWillSync(a, gi, index, data);
    SavedSeen(a, gi, index, data, flags);
    SyncedView(Saved(a, gi, index, data), b, t);
  }

  lemma SavedWillSync(a: MgrState, gi: nat, index: nat, data: int)
    requires gi < |a.groups| && a.groups[gi].v.Some? && index / 48 < |a.groups[gi].v.value.pages|
    requires index % 48 < |a.groups[gi].v.value.pages[index / 48].vtpms|
    ensures var flags := a.groups[gi].v.value.pages[index / 48].vtpms[index % 48].flags;
            CanEdit(a, SetVtpm(gi, index, data, flags))
    ensures |Saved(a, gi, index, data).groups| == |a.groups| && (WillSync(Saved(a, gi, index, data)) <==> WillSync(a))
  {}

  /** Memory with the data saved and the page and the group touched. */
  ghost function Saved(s: MgrState, gi: nat, index: nat, data: int): MgrState
    requires gi < |s.groups| && s.groups[gi].v.Some? && index / 48 < |s.groups[gi].v.value.pages|
    requires index % 48 < |s.groups[gi].v.value.pages[index / 48].vtpms|
  {
    var flags := s.groups[gi].v.value.pages[index / 48].vtpms[index % 48].flags;
    Edited(Edited(s, SetVtpm(gi, index, data, flags)), TouchVtpm(gi, index))
  }

  // ----- Reloading a group into memory ------------------------------------------------------------------

  /** What of a vTPM survives on disk: the open flag and other volatile flags are dropped. */
  function OnDisk(v: Vtpm): Vtpm {
    v.(flags := v.flags & VTPM_FLAG_DISK_MASK)
  }

  function AllOnDisk(vs: seq<Vtpm>): (r: seq<Vtpm>)
    ensures |r| == |vs| && forall i :: 0 <= i < |vs| ==> r[i] == OnDisk(vs[i])
  {
    seq(|vs|, i requires 0 <= i < |vs| => OnDisk(vs[i]))
  }

  /** The group tree that a sync of these pages commits. */
  ghost predicate Stored(t: GroupTree, n: nat, pages: seq<MemPage>) {
    && t.meta.nrVtpms == n && |t.pages| == |pages|
    && forall i :: 0 <= i < |pages| ==> t.pages[i] == DiskImage(pages[i].vtpms)
  }

  /** A restart brings a group's vTPMs back into memory if and only if they fit in one page: the
      load loop never advances its page pointer, so from the 49th vTPM on they are lost. */
  lemma ReloadFaithful(d: Disk, t: GroupTree, g: MemGroup, sectors: set<nat>, n: nat, pages: seq<MemPage>)
    requires Dense(n, pages) && Stored(t, n, pages) && GroupLoaded(d, t, g, sectors)
    ensures n <= VTPMS_PER_SECTOR <==> Dense(n, g.pages) && Vtpms(n, g.pages) == AllOnDisk(Vtpms(n, pages))
  {
    hide FromDisk;
    if n > VTPMS_PER_SECTOR {
      assert |g.pages| >= 2 && PageSize(n, 1) > 0 && |g.pages[1].vtpms| == 0;
    } else if n > 0 {
      assert |pages| == 1 && PageSize(n, 0) == n;
      ReloadOnePage(n, pages, g.pages, t.pages[0]);
    }
  }

  lemma ReloadOnePage(n: nat, pages: seq<MemPage>, loaded: seq<MemPage>, image: Image)
    requires 0 < n <= VTPMS_PER_SECTOR && Dense(n, pages) && |pages| == |loaded| == 1
    requires image == DiskImage(pages[0].vtpms) && loaded[0].vtpms == FromImage(image, n, 0)
    ensures Dense(n, loaded) && Vtpms(n, loaded) == AllOnDisk(Vtpms(n, pages))
  {
    assert PageSize(n, 0) == n;
    forall i | 0 <= i < n
      ensures loaded[0].vtpms[i] == OnDisk(pages[0].vtpms[i])
    {
      assert pages[0].vtpms[i].index == VTPMS_PER_SECTOR * 0 + i;
    }
    assert Dense(n, loaded);
    forall i | 0 <= i < n
      ensures Vtpms(n, loaded)[i] == AllOnDisk(Vtpms(n, pages))[i]
    {
      VtpmsAt(n, loaded, i);
      VtpmsAt(n, pages, i);
    }
  }

  /** And the loss becomes durable: once such a group is invalidated, the next sync commits an empty
      second page in place of vTPMs 48 to 95. */
  lemma LossIsDurable(s: MgrState, op: EditOp, b: MgrState, t: Trace)
    requires ValidState(s) && OpenedOn(s.io.disk, s) && (op.TouchVtpm? || op.TouchGroup?) && CanEdit(s, op)
    requires s.prior.view.groups[op.gi].meta.nrVtpms > VTPMS_PER_SECTOR
    requires SyncStep(Edited(s, op), b, t)
    ensures ValidState(b) && b.prior.Tree? && op.gi < |b.prior.view.groups|
    ensures b.prior.view.groups[op.gi].meta.nrVtpms == s.prior.view.groups[op.gi].meta.nrVtpms
    ensures |b.prior.view.groups[op.gi].pages| >= 2 && b.prior.view.groups[op.gi].pages[1] == DiskImage([])
  {
    hide HdrOk, GroupLeaf, Holds, SyncStep, LoadPost, FromDisk;
    EditKeepsValid(s, op);
    SyncedView(Edited(s, op), b, t);
    LoadedSecondPage(s, op.gi);
  }

  lemma LoadedSecondPage(s: MgrState, gi: nat)
    requires OpenedOn(s.io.disk, s) && gi < |s.groups| && s.groups[gi].v.Some?
    ensures s.groups[gi].v.value.nrVtpms == s.prior.view.groups[gi].meta.nrVtpms
    ensures s.groups[gi].v.value.nrVtpms > VTPMS_PER_SECTOR ==>
              |s.groups[gi].v.value.pages| >= 2 && s.groups[gi].v.value.pages[1] == BLANK_PAGE
  {
    hide GroupLeaf, LoadPost, FromDisk;
    assert HdrLoaded(s.io.disk, s.groups[gi]);
  }

  /** From memory to disk and back: after a sync and a restart a touched group is open exactly if one of its seals
      opens, and then has its identity, sequence and seals again; and its vTPMs, each with uuid, number, data and the
      flags that are kept, if and only if there are at most 48. */
  lemma SyncThenRestart(s: MgrState, b: MgrState, t: Trace, c: MgrState, i: nat)
    requires ValidState(s) && SyncStep(s, b, t) && RestartStep(b, c, Idle)
    requires i < |s.groups| && s.groups[i].loc == 0 && s.groups[i].v.Some?
    requires Dense(s.groups[i].v.value.nrVtpms, s.groups[i].v.value.pages)
    requires forall p :: p in s.groups[i].v.value.pages ==> PageImage(p) == DiskImage(p.vtpms)
    ensures i < |c.groups| && (c.groups[i].v.Some? <==> s.groups[i].v.value.info.unsealable)
    ensures c.groups[i].v.Some? ==>
              var g, g' := s.groups[i].v.value, c.groups[i].v.value;
              && g'.info == g.info && g'.nrVtpms == g.nrVtpms
              && (g.nrVtpms <= 48 <==>
                    Dense(g.nrVtpms, g'.pages) && Vtpms(g.nrVtpms, g'.pages) == AllOnDisk(Vtpms(g.nrVtpms, g.pages)))
  {
    hide ValidState, SyncStep, HdrOk, GroupLeaf, LoadPost, Recover, Dense, Vtpms, AllOnDisk, GroupLoaded;
    SyncedView(s, b, t);
    RestartValid(b, c, Idle);
    var g := s.groups[i].v.value;
    assert b.prior.view.groups[i] == GroupOf(s.io.disk, s.groups[i]);
    assert HdrLoaded(c.io.disk, c.groups[i]);
    if c.groups[i].v.Some? {
      var tree := GroupOf(s.io.disk, s.groups[i]);
      LoadedMeta(c.io.disk, tree, c.groups[i].v.value, SectorsOf(c.groups[i].inuse));
      ReloadFaithful(c.io.disk, tree, c.groups[i].v.value, SectorsOf(c.groups[i].inuse), g.nrVtpms, g.pages);
    }
  }

  lemma LoadedMeta(d: Disk, t: GroupTree, g: MemGroup, sectors: set<nat>)
    requires GroupLoaded(d, t, g, sectors)
    ensures g.info == t.meta.info && g.nrVtpms == t.meta.nrVtpms
  {}
}
