/** Sector I/O and the map of sectors in use (disk_io.c).

    Every sector write is recorded in a ghost log, so that a crash is a prefix of
    the log replayed on the disk the log started from.
 */
module DiskIo {
  import opened Wrappers
  import opened DiskFormat

  // ----- Crashes as prefixes of the write log ---------------------------------------

  datatype Write = Write(sector: nat, content: Content)

  ghost function Replay(d: Disk, ws: seq<Write>): Disk {
    if ws == [] then d else
      var last := ws[|ws| - 1];
      Replay(d, ws[..|ws| - 1])[last.sector := last.content]
  }

  lemma {:induction false} ReplayConcat(d: Disk, xs: seq<Write>, ys: seq<Write>)
    ensures Replay(d, xs + ys) == Replay(Replay(d, xs), ys)
    decreases |ys|
  {
    if ys == [] {
      assert xs + ys == xs;
    } else {
      var front := ys[..|ys| - 1];
      assert (xs + ys)[..|xs + ys| - 1] == xs + front;
      ReplayConcat(d, xs, front);
    }
  }

  lemma {:induction false} ReplayUntouched(d: Disk, ws: seq<Write>, s: nat)
    requires forall w :: w in ws ==> w.sector != s
    ensures At(Replay(d, ws), s) == At(d, s)
    decreases |ws|
  {
    if ws != [] {
      var front := ws[..|ws| - 1];
      assert ws[|ws| - 1] in ws;
      assert forall w :: w in front ==> w in ws;
      ReplayUntouched(d, front, s);
    }
  }

  // ----- The in-use map -----------------------------------------------------------------

  type SectorMap = seq<bv8>

  /** 1 for root slot 0, 2 for root slot 1 (active_slot). */
  function Slot(root: nat): bv8 {
    if root == 0 then 1 else 2
  }

  ghost predicate InUse(m: SectorMap, slot: bv8, sectors: set<nat>) {
    forall s :: s in sectors ==> s < |m| && m[s] & slot != 0
  }

  /** `m'` is `m` with the bit of `slot` added to some sectors. */
  ghost predicate Marked(m: SectorMap, m': SectorMap, slot: bv8) {
    && |m| == |m'|
    && forall s :: 0 <= s < |m| ==> m'[s] == m[s] || m'[s] == m[s] | slot
  }

  lemma MarkedKeeps(m: SectorMap, m': SectorMap, slot: bv8, other: bv8, sectors: set<nat>)
    requires Marked(m, m', slot) && InUse(m, other, sectors)
    ensures InUse(m', other, sectors)
  {
    forall s | s in sectors
      ensures s < |m'| && m'[s] & other != 0
    {
      OrKeepsBit(m[s], slot, other);
    }
  }

  lemma OrKeepsBit(x: bv8, slot: bv8, other: bv8)
    requires x & other != 0
    ensures (x | slot) & other != 0
  {}

  /** The state that a sync advances: disk, in-use map, and the log of writes. */
  datatype Io = Io(disk: Disk, map_: SectorMap, log: seq<Write>)

  function Since(a: Io, b: Io): seq<Write>
    requires |a.log| <= |b.log|
  {
    b.log[|a.log|..]
  }

  /** From `a` to `b` only sectors that `a` had free were written and taken for `slot`. */
  ghost predicate Advanced(a: Io, b: Io, slot: bv8) {
    && |a.map_| == |b.map_| == DISK_MAX_SECTOR
    && a.log <= b.log
    && b.disk == Replay(a.disk, Since(a, b))
    && (forall w :: w in Since(a, b) ==> FIRST_DYNAMIC_SECTOR <= w.sector < DISK_MAX_SECTOR && a.map_[w.sector] == 0)
    && (forall s :: 0 <= s < DISK_MAX_SECTOR ==> b.map_[s] == a.map_[s] || (a.map_[s] == 0 && b.map_[s] == slot))
  }

  lemma AdvancedTransitive(a: Io, b: Io, c: Io, slot: bv8)
    requires Advanced(a, b, slot) && Advanced(b, c, slot)
    requires slot != 0
    ensures Advanced(a, c, slot)
  {
    assert Since(a, c) == Since(a, b) + Since(b, c);
    ReplayConcat(a.disk, Since(a, b), Since(b, c));
  }

  lemma AdvancedKeeps(a: Io, b: Io, slot: bv8, other: bv8, sectors: set<nat>)
    requires Advanced(a, b, slot) && InUse(a.map_, other, sectors)
    ensures InUse(b.map_, other, sectors)
    ensures Agree(a.disk, b.disk, sectors)
  {
    forall s | s in sectors
      ensures At(a.disk, s) == At(b.disk, s)
    {
      assert a.map_[s] & other != 0;
      assert a.map_[s] != 0;
      ReplayUntouched(a.disk, Since(a, b), s);
    }
  }

  // ----- Counting free sectors ------------------------------------------------------------------

  function FreeBelow(m: SectorMap, hi: nat): nat {
    if hi <= FIRST_DYNAMIC_SECTOR then 0
    else FreeBelow(m, hi - 1) + if hi - 1 < |m| && m[hi - 1] == 0 then 1 else 0
  }

  /** Sectors disk_find_free could still hand out. */
  function FreeCount(m: SectorMap): nat {
    FreeBelow(m, DISK_MAX_SECTOR)
  }

  lemma {:induction false} FreeTaken(m: SectorMap, s: nat, slot: bv8, hi: nat)
    requires FIRST_DYNAMIC_SECTOR <= s < |m| && m[s] == 0 && slot != 0
    ensures FreeBelow(m[s := slot], hi) == FreeBelow(m, hi) - if s < hi then 1 else 0
  {
    if hi > FIRST_DYNAMIC_SECTOR {
      FreeTaken(m, s, slot, hi - 1);
    }
  }

  lemma {:induction false} NoneFree(m: SectorMap, hi: nat)
    requires hi <= |m| && forall s :: FIRST_DYNAMIC_SECTOR <= s < hi ==> m[s] != 0
    ensures FreeBelow(m, hi) == 0
  {
    if hi > FIRST_DYNAMIC_SECTOR {
      NoneFree(m, hi - 1);
    }
  }

  /** Whether `cost` sectors could be taken is whether there were that many, and then just so many went. */
  ghost predicate Spent(m: SectorMap, m': SectorMap, cost: nat, ok: bool) {
    && (ok <==> cost <= FreeCount(m))
    && (ok ==> FreeCount(m') + cost == FreeCount(m))
  }

  lemma SpentNone(m: SectorMap)
    ensures Spent(m, m, 0, true)
  {}

  lemma SpentBoth(a: SectorMap, b: SectorMap, c: SectorMap, first: nat, second: nat, ok: bool)
    requires Spent(a, b, first, true) && Spent(b, c, second, ok)
    ensures Spent(a, c, first + second, ok)
  {
    hide FreeCount;
  }

  lemma SpentShort(a: SectorMap, b: SectorMap, cost: nat, total: nat)
    requires Spent(a, b, cost, false) && cost <= total
    ensures Spent(a, b, total, false)
  {
    hide FreeCount;
  }

  // ----- The device --------------------------------------------------------------------------

  class Device {
    var disk: Disk
    const inuse: array<bv8>
    ghost var log: seq<Write>

    /** A freshly started manager: nothing is marked (sector_inuse_map is zero). */
    constructor (d: Disk)
      ensures Valid() && fresh(inuse) && disk == d && log == []
      ensures forall s :: 0 <= s < DISK_MAX_SECTOR ==> inuse[s] == 0
    {
      disk := d;
      inuse := new bv8[DISK_MAX_SECTOR](_ => 0);
      log := [];
    }

    ghost predicate Valid()
      reads this
    {
      inuse.Length == DISK_MAX_SECTOR
    }

    ghost function Snap(): Io
      reads this, inuse
    {
      Io(disk, inuse[..], log)
    }

    method WriteSector(s: nat, c: Content)
      modifies this
      ensures disk == old(disk)[s := c] && log == old(log) + [Write(s, c)]
    {
      disk := disk[s := c];
      log := log + [Write(s, c)];
    }

    /** disk_set_used: sectors beyond the map are reported and ignored. */
    method SetUsed(s: nat, root: nat)
      requires Valid()
      modifies inuse
      ensures inuse[..] == if s < DISK_MAX_SECTOR then old(inuse[..])[s := old(inuse[s]) | Slot(root)]
              else old(inuse[..])
    {
      if s >= DISK_MAX_SECTOR {
        return;
      }
      inuse[s] := inuse[s] | Slot(root);
    }

    method FlushSlot(root: nat)
      requires Valid()
      modifies inuse
      ensures forall s :: 0 <= s < FIRST_DYNAMIC_SECTOR ==> inuse[s] == old(inuse[s])
      ensures forall s :: FIRST_DYNAMIC_SECTOR <= s < DISK_MAX_SECTOR ==> inuse[s] == old(inuse[s]) & !Slot(root)
    {
      for i := FIRST_DYNAMIC_SECTOR to DISK_MAX_SECTOR
        invariant forall s :: 0 <= s < FIRST_DYNAMIC_SECTOR ==> inuse[s] == old(inuse[s])
        invariant forall s :: FIRST_DYNAMIC_SECTOR <= s < i ==> inuse[s] == old(inuse[s]) & !Slot(root)
        invariant forall s :: i <= s < DISK_MAX_SECTOR ==> inuse[s] == old(inuse[s])
      {
        inuse[i] := inuse[i] & !Slot(root);
      }
    }

    /** `ok` is false exactly where disk_find_free aborts: every dynamic sector is in use. */
    method FindFree(root: nat) returns (ok: bool, s: nat)
      requires Valid()
      modifies inuse
      ensures ok <==> exists i :: FIRST_DYNAMIC_SECTOR <= i < DISK_MAX_SECTOR && old(inuse[i]) == 0
      ensures ok ==> FIRST_DYNAMIC_SECTOR <= s < DISK_MAX_SECTOR && old(inuse[s]) == 0
      ensures ok ==> inuse[..] == old(inuse[..])[s := Slot(root)]
      ensures !ok ==> inuse[..] == old(inuse[..])
    {
      for i := FIRST_DYNAMIC_SECTOR to DISK_MAX_SECTOR
        invariant forall j :: FIRST_DYNAMIC_SECTOR <= j < i ==> inuse[j] != 0
        invariant inuse[..] == old(inuse[..])
      {
        if inuse[i] == 0 {
          inuse[i] := Slot(root);
          return true, i;
        }
      }
      return false, 0;
    }

    /** disk_write_crypt_sector: allocate a sector and write it. */
    method WriteCryptSector(c: Content, root: nat) returns (ok: bool, loc: nat)
      requires Valid()
      modifies this, inuse
      ensures Advanced(old(Snap()), Snap(), Slot(root))
      ensures ok ==> Dynamic({loc}) && At(disk, loc) == c && InUse(inuse[..], Slot(root), {loc})
      ensures Spent(old(inuse[..]), inuse[..], 1, ok)
    {
      ghost var before := Snap();
      ok, loc := FindFree(root);
      TakingOne(before.map_, inuse[..], ok, loc, Slot(root));
      if ok {
        WriteSector(loc, c);
        assert Since(before, Snap()) == [Write(loc, c)];
        assert Replay(before.disk, []) == before.disk;
        assert [Write(loc, c)][..0] == [];
        assert Replay(before.disk, [Write(loc, c)]) == before.disk[loc := c];
      } else {
        assert Since(before, Snap()) == [];
      }
    }
  }

  lemma TakingOne(m: SectorMap, m': SectorMap, ok: bool, s: nat, slot: bv8)
    requires |m| == DISK_MAX_SECTOR && slot != 0
    requires ok ==> FIRST_DYNAMIC_SECTOR <= s < DISK_MAX_SECTOR && m[s] == 0 && m' == m[s := slot]
    requires !ok ==> forall i :: FIRST_DYNAMIC_SECTOR <= i < DISK_MAX_SECTOR ==> m[i] != 0
    ensures Spent(m, m', 1, ok)
  {
    if ok {
      FreeTaken(m, s, slot, DISK_MAX_SECTOR);
    } else {
      NoneFree(m, DISK_MAX_SECTOR);
    }
  }
}
