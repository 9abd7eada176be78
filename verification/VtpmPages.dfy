/** vTPMs packed densely into the pages of a group: what creation and swap-with-last deletion do to
    them (vtpm_disk.c). */
module VtpmPages {
  import opened DiskFormat
  import opened DiskMemory

  /** All pages but the last are full, and every vTPM knows its number. */
  ghost predicate Dense(nrVtpms: nat, pages: seq<MemPage>) {
    && |pages| == PageCount(nrVtpms)
    && (forall i :: 0 <= i < |pages| ==> |pages[i].vtpms| == PageSize(nrVtpms, i))
    && (forall i, k :: 0 <= i < |pages| && 0 <= k < |pages[i].vtpms| ==>
          pages[i].vtpms[k].index == VTPMS_PER_SECTOR * i + k)
  }

  /** Number `index` addresses a vTPM of a dense group (find_mem_vtpm_page). */
  lemma PageOfIndex(nrVtpms: nat, pages: seq<MemPage>, index: nat)
    requires Dense(nrVtpms, pages) && index < nrVtpms
    ensures index / VTPMS_PER_SECTOR < |pages|
    ensures index % VTPMS_PER_SECTOR < |pages[index / VTPMS_PER_SECTOR].vtpms|
    ensures pages[index / VTPMS_PER_SECTOR].vtpms[index % VTPMS_PER_SECTOR].index == index
  {}

  /** vTPM number `index`. */
  function VtpmAt(pages: seq<MemPage>, index: nat): Vtpm
    requires index / VTPMS_PER_SECTOR < |pages| && index % VTPMS_PER_SECTOR < |pages[index / VTPMS_PER_SECTOR].vtpms|
  {
    pages[index / VTPMS_PER_SECTOR].vtpms[index % VTPMS_PER_SECTOR]
  }

  /** The vTPMs of a dense group in order. */
  ghost function Vtpms(nrVtpms: nat, pages: seq<MemPage>): (vs: seq<Vtpm>)
    requires Dense(nrVtpms, pages)
    ensures |vs| == nrVtpms
  {
    seq(nrVtpms, i requires 0 <= i < nrVtpms => PageOfIndex(nrVtpms, pages, i); VtpmAt(pages, i))
  }

  /** Removing number `index` by moving the last vTPM into its place. */
  function SwapRemove(vs: seq<Vtpm>, index: nat): (r: seq<Vtpm>)
    requires index < |vs|
    ensures |r| == |vs| - 1
  {
    var last := |vs| - 1;
    if index == last then vs[..last] else vs[..last][index := vs[last].(index := index)]
  }

  /** Exactly one vTPM is lost; the others survive with their identity and data. */
  lemma SwapRemoveLosesOne(vs: seq<Vtpm>, index: nat)
    requires index < |vs|
    ensures multiset(Payloads(SwapRemove(vs, index))) + multiset{Payload(vs[index])} == multiset(Payloads(vs))
  {
    var last := |vs| - 1;
    var ps := Payloads(vs);
    assert ps == ps[..last] + [ps[last]];
    assert Payloads(SwapRemove(vs, index)) == if index == last then ps[..last] else ps[..last][index := ps[last]];
  }

  function Payload(v: Vtpm): (int, int, bv32) {
    (v.uuid, v.data, v.flags)
  }

  function Payloads(vs: seq<Vtpm>): (r: seq<(int, int, bv32)>)
    ensures |r| == |vs| && forall i :: 0 <= i < |vs| ==> r[i] == Payload(vs[i])
  {
    seq(|vs|, i requires 0 <= i < |vs| => Payload(vs[i]))
  }

  lemma CountStep(n: nat)
    requires n > 0
    ensures PageCount(n - 1) == PageCount(n) - if (n - 1) % VTPMS_PER_SECTOR == 0 then 1 else 0
  {}

  lemma SlotUnique(i: nat, j: nat)
    ensures i / VTPMS_PER_SECTOR == j / VTPMS_PER_SECTOR && i % VTPMS_PER_SECTOR == j % VTPMS_PER_SECTOR <==> i == j
  {}

  /** Element `i` of the vTPMs, by page and slot. */
  lemma VtpmsAt(n: nat, pages: seq<MemPage>, i: nat)
    requires Dense(n, pages) && i < n
    ensures i / VTPMS_PER_SECTOR < |pages| && i % VTPMS_PER_SECTOR < |pages[i / VTPMS_PER_SECTOR].vtpms|
    ensures Vtpms(n, pages)[i] == pages[i / VTPMS_PER_SECTOR].vtpms[i % VTPMS_PER_SECTOR]
  {
    PageOfIndex(n, pages, i);
  }

  lemma LastPage(n: nat, pages: seq<MemPage>)
    requires Dense(n, pages) && n > 0
    ensures |pages| - 1 == (n - 1) / VTPMS_PER_SECTOR
    ensures |pages[|pages| - 1].vtpms| == (n - 1) % VTPMS_PER_SECTOR + 1
  {}

  /** The pages after delete_vtpm. */
  function Deleted(pages: seq<MemPage>, index: nat): seq<MemPage>
    requires |pages| > 0 && |pages[|pages| - 1].vtpms| > 0
    requires index / VTPMS_PER_SECTOR < |pages| && index % VTPMS_PER_SECTOR < |pages[index / VTPMS_PER_SECTOR].vtpms|
  {
    var pgidx, vtidx, lastPg := index / VTPMS_PER_SECTOR, index % VTPMS_PER_SECTOR, |pages| - 1;
    var size := |pages[lastPg].vtpms|;
    var last := pages[lastPg].vtpms[size - 1];
    var p1 := pages[pgidx := pages[pgidx].(vtpms := pages[pgidx].vtpms[vtidx := last.(index := index)], loc := 0)];
    var p2 := p1[lastPg := p1[lastPg].(vtpms := p1[lastPg].vtpms[..size - 1], loc := 0)];
    if size - 1 == 0 then p2[..lastPg] else p2
  }

  /** Page and slot of every remaining vTPM: the moved one at `index`, all others where they were. */
  lemma DeletedSlot(pages: seq<MemPage>, index: nat, i: nat, k: nat)
    requires |pages| > 0 && |pages[|pages| - 1].vtpms| > 0
    requires index / VTPMS_PER_SECTOR < |pages| && index % VTPMS_PER_SECTOR < |pages[index / VTPMS_PER_SECTOR].vtpms|
    requires i < |Deleted(pages, index)| && k < |Deleted(pages, index)[i].vtpms|
    ensures k < |pages[i].vtpms|
    ensures var lastPg := |pages| - 1;
            Deleted(pages, index)[i].vtpms[k] ==
              if i == index / VTPMS_PER_SECTOR && k == index % VTPMS_PER_SECTOR
              then pages[lastPg].vtpms[|pages[lastPg].vtpms| - 1].(index := index)
              else pages[i].vtpms[k]
  {}

  lemma DeletedSize(pages: seq<MemPage>, index: nat, i: nat)
    requires |pages| > 0 && |pages[|pages| - 1].vtpms| > 0
    requires index / VTPMS_PER_SECTOR < |pages| && index % VTPMS_PER_SECTOR < |pages[index / VTPMS_PER_SECTOR].vtpms|
    requires i < |Deleted(pages, index)|
    ensures |Deleted(pages, index)[i].vtpms| == |pages[i].vtpms| - if i == |pages| - 1 then 1 else 0
    ensures |Deleted(pages, index)| == |pages| - if |pages[|pages| - 1].vtpms| == 1 then 1 else 0
  {}

  lemma DeletedIsDense(n: nat, pages: seq<MemPage>, index: nat)
    requires Dense(n, pages) && index < n
    ensures n > 0 && |pages| > 0 && |pages[|pages| - 1].vtpms| > 0
    ensures index / VTPMS_PER_SECTOR < |pages| && index % VTPMS_PER_SECTOR < |pages[index / VTPMS_PER_SECTOR].vtpms|
    ensures Dense(n - 1, Deleted(pages, index))
  {
    hide Deleted, PageCount;
    LastPage(n, pages);
    PageOfIndex(n, pages, index);
    CountStep(n);
    var after := Deleted(pages, index);
    if |after| > 0 {
      DeletedSize(pages, index, 0);
    } else {
      DeletedEmpty(pages, index);
    }
    forall i | 0 <= i < |after|
      ensures |after[i].vtpms| == PageSize(n - 1, i)
    {
      DeletedSize(pages, index, i);
    }
    forall i, k | 0 <= i < |after| && 0 <= k < |after[i].vtpms|
      ensures after[i].vtpms[k].index == VTPMS_PER_SECTOR * i + k
    {
      DeletedSlot(pages, index, i, k);
    }
  }

  lemma DeletedEmpty(pages: seq<MemPage>, index: nat)
    requires |pages| > 0 && |pages[|pages| - 1].vtpms| > 0
    requires index / VTPMS_PER_SECTOR < |pages| && index % VTPMS_PER_SECTOR < |pages[index / VTPMS_PER_SECTOR].vtpms|
    requires |Deleted(pages, index)| == 0
    ensures |pages| == 1 && |pages[0].vtpms| == 1
  {}

  lemma DeletedDense(n: nat, pages: seq<MemPage>, index: nat)
    requires Dense(n, pages) && index < n
    ensures n > 0 && |pages| > 0 && |pages[|pages| - 1].vtpms| > 0
    ensures index / VTPMS_PER_SECTOR < |pages| && index % VTPMS_PER_SECTOR < |pages[index / VTPMS_PER_SECTOR].vtpms|
    ensures Dense(n - 1, Deleted(pages, index))
    ensures Vtpms(n - 1, Deleted(pages, index)) == SwapRemove(Vtpms(n, pages), index)
  {
    hide Deleted, Dense, Vtpms;
    DeletedIsDense(n, pages, index);
    var after := Deleted(pages, index);
    forall i | 0 <= i < n - 1
      ensures Vtpms(n - 1, after)[i] == SwapRemove(Vtpms(n, pages), index)[i]
    {
      DeletedAt(n, pages, index, i);
    }
  }

  lemma DeletedAt(n: nat, pages: seq<MemPage>, index: nat, i: nat)
    requires Dense(n, pages) && index < n && i < n - 1
    requires |pages| > 0 && |pages[|pages| - 1].vtpms| > 0
    requires index / VTPMS_PER_SECTOR < |pages| && index % VTPMS_PER_SECTOR < |pages[index / VTPMS_PER_SECTOR].vtpms|
    requires Dense(n - 1, Deleted(pages, index))
    ensures Vtpms(n - 1, Deleted(pages, index))[i] ==
            if i == index then Vtpms(n, pages)[n - 1].(index := index) else Vtpms(n, pages)[i]
  {
    hide Deleted, Dense, Vtpms;
    LastPage(n, pages);
    VtpmsAt(n - 1, Deleted(pages, index), i);
    VtpmsAt(n, pages, i);
    VtpmsAt(n, pages, n - 1);
    DeletedSlot(pages, index, i / VTPMS_PER_SECTOR, i % VTPMS_PER_SECTOR);
    SlotUnique(i, index);
  }

  /** Slot `index` is there, and the last page holds its share. */
  predicate CanDelete(n: nat, pages: seq<MemPage>, index: nat) {
    && n > 0 && |pages| > 0 && |pages[|pages| - 1].vtpms| == (n - 1) % VTPMS_PER_SECTOR + 1
    && index / VTPMS_PER_SECTOR < |pages| && index % VTPMS_PER_SECTOR < |pages[index / VTPMS_PER_SECTOR].vtpms|
  }

  /** create_vtpm finds its slot: the page for number `n` is the next one or holds exactly the vTPMs before `n`. */
  predicate CanCreate(n: nat, pages: seq<MemPage>) {
    var pgidx, vtidx := n / VTPMS_PER_SECTOR, n % VTPMS_PER_SECTOR;
    if pgidx < |pages| then |pages[pgidx].vtpms| == vtidx else pgidx == |pages| && vtidx == 0
  }

  /** The pages after create_vtpm. */
  function Created(n: nat, pages: seq<MemPage>, v: Vtpm): seq<MemPage>
    requires CanCreate(n, pages)
  {
    var pgidx := n / VTPMS_PER_SECTOR;
    var padded := if pgidx < |pages| then pages else pages + [BLANK_PAGE];
    padded[pgidx := padded[pgidx].(vtpms := padded[pgidx].vtpms + [v])]
  }

  /** In a dense group creation never aborts, and appends. */
  lemma CreatedDense(n: nat, pages: seq<MemPage>, v: Vtpm)
    requires Dense(n, pages) && v.index == n
    ensures CanCreate(n, pages) && Dense(n + 1, Created(n, pages, v))
    ensures Vtpms(n + 1, Created(n, pages, v)) == Vtpms(n, pages) + [v]
  {
    var pages' := Created(n, pages, v);
    assert Dense(n + 1, pages');
    forall i | 0 <= i < n
      ensures Vtpms(n + 1, pages')[i] == Vtpms(n, pages)[i]
    {
      PageOfIndex(n, pages, i);
    }
  }
}
