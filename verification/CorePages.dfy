/** xc_core.c: the pages of a core file and the table that names them, and the section name table. */
module CorePages {
  type Page = seq<int>

  /** Pages written at a time. */
  const INCREMENT: nat := 4096

  /** Guest frame numbers i with lo <= i < hi. */
  datatype Range = Range(lo: nat, hi: nat)

  /** An entry of .xen_p2m or .xen_pfn; Nobody is XC_CORE_INVALID_PFN. */
  datatype Entry = Nobody | Frame(pfn: nat, gmfn: nat)

  /** A domain as the dump sees it: `gmfn` gives the machine frame of a pfn that is present, `page` the
      contents of a frame that can be mapped. */
  datatype Guest = Guest(present: nat -> bool, gmfn: nat -> nat, mappable: nat -> bool, page: nat -> Page, zero: Page)

  predicate Dumpable(g: Guest, i: nat) {
    g.present(i) && g.mappable(g.gmfn(i))
  }

  // ----- What ought to be dumped -------------------------------------------------------------------------------------

  function InRange(g: Guest, lo: nat, hi: nat): seq<Entry>
    requires lo <= hi
    decreases hi - lo
  {
    if lo == hi then []
      else InRange(g, lo, hi - 1) + (if Dumpable(g, hi - 1) then [Frame(hi - 1, g.gmfn(hi - 1))] else [])
  }

  /** Every page of the memory map that can be read, in order. */
  function Readable(g: Guest, ranges: seq<Range>): seq<Entry> {
    if ranges == [] then []
    else
      var r := ranges[|ranges| - 1];
      Readable(g, ranges[..|ranges| - 1]) + (if r.lo <= r.hi then InRange(g, r.lo, r.hi) else [])
  }

  /** The first n of them, or all and then entries for no page. */
  function Expected(entries: seq<Entry>, n: nat): (t: seq<Entry>)
    ensures |t| == n
  {
    if n <= |entries| then entries[..n] else entries + seq(n - |entries|, i => Nobody)
  }

  function Contents(g: Guest, e: Entry): Page {
    if e.Frame? then g.page(e.gmfn) else g.zero
  }

  ghost predicate Named(g: Guest, table: seq<Entry>, pages: seq<Page>) {
    |table| == |pages| && forall k :: 0 <= k < |table| ==> pages[k] == Contents(g, table[k])
  }

  /** A page of the file: a frame of the memory map that is present and can be mapped, under its own number and with
      its contents, or a zero page that nobody has. */
  ghost predicate EntryOk(g: Guest, ranges: seq<Range>, e: Entry, page: Page) {
    match e
    case Nobody => page == g.zero
    case Frame(i, gmfn) =>
      && (exists m :: 0 <= m < |ranges| && ranges[m].lo <= i < ranges[m].hi)
      && g.present(i) && gmfn == g.gmfn(i) && g.mappable(gmfn) && page == g.page(gmfn)
  }

  /** No frame of the memory map that could be dumped is missing. */
  ghost predicate Complete(g: Guest, ranges: seq<Range>, table: seq<Entry>) {
    forall m, i :: 0 <= m < |ranges| && ranges[m].lo <= i < ranges[m].hi && g.present(i) && g.mappable(g.gmfn(i)) ==>
      Frame(i, g.gmfn(i)) in table
  }

  /** Memory maps list their ranges upwards and apart. */
  ghost predicate Ascending(ranges: seq<Range>) {
    forall a, b :: 0 <= a < b < |ranges| ==> ranges[a].hi <= ranges[b].lo
  }

  /** Frames come in the order of their numbers, before all entries for nobody. */
  ghost predicate Rising(t: seq<Entry>) {
    forall a, b :: 0 <= a < b < |t| && t[b].Frame? ==> t[a].Frame? && t[a].pfn < t[b].pfn
  }

  lemma {:induction false} InRangeIs(g: Guest, lo: nat, hi: nat, e: Entry)
    requires lo <= hi
    ensures e in InRange(g, lo, hi) <==>
              e.Frame? && lo <= e.pfn < hi && g.present(e.pfn) && g.mappable(g.gmfn(e.pfn)) && e.gmfn == g.gmfn(e.pfn)
    decreases hi - lo
  {
    if lo < hi {
      InRangeIs(g, lo, hi - 1, e);
    }
  }

  /** The readable frames are those of some range that are present and can be mapped. */
  lemma {:induction false} ReadableIs(g: Guest, ranges: seq<Range>, e: Entry)
    requires forall k :: 0 <= k < |ranges| ==> ranges[k].lo <= ranges[k].hi
    ensures e in Readable(g, ranges) <==>
              && e.Frame? && g.present(e.pfn) && g.mappable(g.gmfn(e.pfn)) && e.gmfn == g.gmfn(e.pfn)
              && exists m :: 0 <= m < |ranges| && ranges[m].lo <= e.pfn < ranges[m].hi
  {
    if ranges != [] {
      var last := |ranges| - 1;
      ReadableIs(g, ranges[..last], e);
      InRangeIs(g, ranges[last].lo, ranges[last].hi, e);
      hide InRange;
      if e.Frame? && exists m :: 0 <= m < |ranges| && ranges[m].lo <= e.pfn < ranges[m].hi {
        var m :| 0 <= m < |ranges| && ranges[m].lo <= e.pfn < ranges[m].hi;
        assert m < last ==> ranges[..last][m] == ranges[m];
      }
    }
  }

  lemma {:induction false} InRangeRises(g: Guest, lo: nat, hi: nat)
    requires lo <= hi
    ensures Rising(InRange(g, lo, hi))
    decreases hi - lo
  {
    if lo < hi {
      InRangeRises(g, lo, hi - 1);
      forall e | e in InRange(g, lo, hi - 1)
        ensures e.Frame? && e.pfn < hi - 1
      {
        InRangeIs(g, lo, hi - 1, e);
      }
    }
  }

  lemma {:induction false} ReadableRises(g: Guest, ranges: seq<Range>)
    requires Ascending(ranges) && forall k :: 0 <= k < |ranges| ==> ranges[k].lo <= ranges[k].hi
    ensures Rising(Readable(g, ranges))
  {
    if ranges != [] {
      var last := |ranges| - 1;
      var front, r := ranges[..last], ranges[last];
      ReadableRises(g, front);
      InRangeRises(g, r.lo, r.hi);
      forall e | e in Readable(g, front)
        ensures e.Frame? && e.pfn < r.lo
      {
        ReadableIs(g, front, e);
        var m :| 0 <= m < |front| && front[m].lo <= e.pfn < front[m].hi;
        assert ranges[m].hi <= ranges[last].lo;
      }
      forall e | e in InRange(g, r.lo, r.hi)
        ensures e.Frame? && r.lo <= e.pfn
      {
        InRangeIs(g, r.lo, r.hi, e);
      }
      hide InRange;
      RisesOn(Readable(g, front), InRange(g, r.lo, r.hi), r.lo);
    }
  }

  lemma RisesOn(a: seq<Entry>, b: seq<Entry>, at: nat)
    requires Rising(a) && Rising(b)
    requires (forall e :: e in a ==> e.Frame? && e.pfn < at) && (forall e :: e in b ==> e.Frame? && at <= e.pfn)
    ensures Rising(a + b)
  {}

  /** The table is a prefix of the entries, or all of them and then nobody. */
  lemma ExpectedIs(entries: seq<Entry>, n: nat)
    ensures var t := Expected(entries, n);
            && (forall k :: 0 <= k < n && t[k].Frame? ==> k < |entries| && t[k] == entries[k])
            && (Nobody in t && Nobody !in entries ==> forall e :: e in entries ==> e in t)
            && (Rising(entries) ==> Rising(t))
  {
    var t := Expected(entries, n);
    if |entries| < n {
      assert forall k :: 0 <= k < |entries| ==> t[k] == entries[k];
    }
  }

  lemma DumpMeans(g: Guest, ranges: seq<Range>, n: nat, table: seq<Entry>, out: seq<Page>)
    requires forall k :: 0 <= k < |ranges| ==> ranges[k].lo <= ranges[k].hi
    requires table == Expected(Readable(g, ranges), n) && Named(g, table, out)
    ensures forall k :: 0 <= k < n ==> EntryOk(g, ranges, table[k], out[k])
    ensures Nobody in table ==> Complete(g, ranges, table)
    ensures Ascending(ranges) ==> Rising(table)
  {
    hide Readable, Expected, Rising, Ascending;
    var all := Readable(g, ranges);
    ExpectedIs(all, n);
    ReadableIs(g, ranges, Nobody);
    forall k | 0 <= k < n
      ensures EntryOk(g, ranges, table[k], out[k])
    {
      if table[k].Frame? {
        ReadableIs(g, ranges, table[k]);
      }
    }
    forall m, i | 0 <= m < |ranges| && ranges[m].lo <= i < ranges[m].hi && g.present(i) && g.mappable(g.gmfn(i))
      ensures Frame(i, g.gmfn(i)) in all
    {
      ReadableIs(g, ranges, Frame(i, g.gmfn(i)));
    }
    if Ascending(ranges) {
      ReadableRises(g, ranges);
    }
  }

  // ----- The loop ------------------------------------------------------------------------------------

  /** `out` has been written and `buffer` waits to be. */
  class Dumper {
    const g: Guest
    const nrPages: nat
    var out: seq<Page>
    var buffer: seq<Page>
    var table: seq<Entry>

    ghost predicate Valid()
      reads this
    {
      Named(g, table, out + buffer) && |table| <= nrPages && |buffer| < INCREMENT && |out| % INCREMENT == 0
    }

    constructor (g: Guest, nrPages: nat)
      ensures Valid() && this.g == g && this.nrPages == nrPages && table == []
    {
      this.g, this.nrPages := g, nrPages;
      out, buffer, table := [], [], [];
    }

    /** One page: its entry, and its contents into the buffer, which is written when it is full. */
    method Add(i: nat)
      requires Valid() && |table| < nrPages && Dumpable(g, i)
      modifies this
      ensures Valid() && table == old(table) + [Frame(i, g.gmfn(i))]
    {
      var j := |table|;
      table := table + [Frame(i, g.gmfn(i))];
      buffer := buffer + [g.page(g.gmfn(i))];
      Counted(|out|, |buffer|, j);
      assert Named(g, table, out + buffer);
      if (j + 1) % INCREMENT == 0 {
        assert out + buffer + [] == out + buffer;
        out, buffer := out + buffer, [];
      }
    }

    /** The pages of one range; `full` when nr_pages is reached before its end. */
    method AddRange(lo: nat, hi: nat) returns (full: bool)
      requires Valid() && lo <= hi
      modifies this
      ensures Valid() && (!full ==> table == old(table) + InRange(g, lo, hi))
      ensures full ==> |table| == nrPages && table <= old(table) + InRange(g, lo, hi)
    {
      ghost var t0 := table;
      var i := lo;
      assert t0 + [] == t0;
      while i < hi
        invariant lo <= i <= hi && Valid() && table == t0 + InRange(g, lo, i)
      {
        if |table| >= nrPages {
          RangePrefix(g, lo, i, hi);
          assert table <= t0 + InRange(g, lo, hi);
          return true;
        }
        if Dumpable(g, i) {
          Add(i);
        }
        assert t0 + InRange(g, lo, i + 1)
            == t0 + InRange(g, lo, i) + (if Dumpable(g, i) then [Frame(i, g.gmfn(i))] else []);
        i := i + 1;
      }
      full := false;
    }

    /** The whole of .xen_pages and its table. */
    method Dump(ranges: seq<Range>)
      requires Valid() && table == [] && forall k :: 0 <= k < |ranges| ==> ranges[k].lo <= ranges[k].hi
      modifies this
      ensures |out| == |table| == nrPages && buffer == [] && table == Expected(Readable(g, ranges), nrPages)
      ensures Named(g, table, out)
      ensures forall k :: 0 <= k < nrPages ==> EntryOk(g, ranges, table[k], out[k])
      ensures Nobody in table ==> Complete(g, ranges, table)
      ensures Ascending(ranges) ==> Rising(table)
    {
      hide EntryOk, Complete, Ascending, Rising;
      var m, full := 0, false;
      while m < |ranges| && !full
        invariant 0 <= m <= |ranges| && Valid()
        invariant !full ==> table == Readable(g, ranges[..m])
        invariant full ==> |table| == nrPages && table <= Readable(g, ranges)
        decreases |ranges| - m, !full
      {
        assert ranges[..m + 1][..m] == ranges[..m];
        ReadablePrefix(g, ranges, m + 1);
        full := AddRange(ranges[m].lo, ranges[m].hi);
        m := m + 1;
      }
      assert ranges[..|ranges|] == ranges;
      out, buffer := out + buffer, [];
      Pad();
      DumpMeans(g, ranges, nrPages, table, out);
    }

    /** Zero pages for what is missing. */
    method Pad()
      requires Named(g, table, out) && |table| <= nrPages
      modifies this`out, this`table
      ensures |out| == nrPages && Named(g, table, out) && table == Expected(old(table), nrPages)
    {
      ghost var t0 := table;
      var j := |out|;
      assert t0 + seq(0, i => Nobody) == t0;
      while j < nrPages
        invariant |t0| <= j <= nrPages && |out| == |table| == j && Named(g, table, out)
        invariant table == t0 + seq(j - |t0|, i => Nobody)
      {
        out := out + [g.zero];
        table := table + [Nobody];
        j := j + 1;
      }
    }
  }

  lemma Counted(written: nat, waiting: nat, j: nat)
    requires written % INCREMENT == 0 && 0 < waiting <= INCREMENT && written + waiting == j + 1
    ensures (j + 1) % INCREMENT == 0 <==> waiting == INCREMENT
  {}

  lemma {:induction false} RangePrefix(g: Guest, lo: nat, i: nat, hi: nat)
    requires lo <= i <= hi
    ensures InRange(g, lo, i) <= InRange(g, lo, hi)
    decreases hi - i
  {
    if i < hi {
      RangePrefix(g, lo, i, hi - 1);
    }
  }

  lemma {:induction false} ReadablePrefix(g: Guest, ranges: seq<Range>, m: nat)
    requires m <= |ranges|
    ensures Readable(g, ranges[..m]) <= Readable(g, ranges)
    decreases |ranges| - m
  {
    if m == |ranges| {
      assert ranges[..m] == ranges;
    } else {
      ReadablePrefix(g, ranges, m + 1);
      assert ranges[..m + 1][..m] == ranges[..m];
    }
  }

  // ----- Section names -------------------------------------------------------------------------------

  const UINT16_MAX: nat := 65535

  /** The name at `at`, ended by a zero. */
  ghost predicate NameAt(strings: string, at: nat, name: string) {
    at + |name| < |strings| && strings[at..at + |name|] == name && strings[at + |name|] == '\0'
  }

  class NameTable {
    /** What is used of the buffer, and how large the buffer is. */
    var strings: string
    var max: nat

    ghost predicate Valid()
      reads this
    {
      1 <= |strings| <= max && (max == 4096 || max == 8192 || max == 16384 || max == 32768) && strings[0] == '\0'
    }

    constructor ()
      ensures Valid() && strings == "\0"
    {
      strings, max := "\0", 4096;
    }

    /** One doubling makes the room, or the name is refused. */
    predicate Holds(name: string)
      reads this
    {
      var length := |strings| + |name| + 1;
      length <= 2 * max || length > UINT16_MAX || max > UINT16_MAX / 2
    }

    /** A name no longer than a page always can be held. */
    lemma ShortNamesHeld(name: string)
      requires Valid() && |name| < 4096
      ensures Holds(name)
    {}

    /** xc_core_strtab_get: 0 without room, else where the name is. */
    method Get(name: string) returns (at: nat)
      requires Valid() && |name| < UINT16_MAX && '\0' !in name && Holds(name)
      modifies this
      ensures Valid()
      ensures at == 0 <==> |old(strings)| + |name| + 1 > 32768
      ensures at == 0 ==> strings == old(strings)
      ensures at != 0 ==> strings == old(strings) + name + "\0" && at == |old(strings)| && NameAt(strings, at, name)
    {
      var len := |name| + 1;
      if |strings| > UINT16_MAX - len {
        return 0;
      }
      if |strings| + len > max {
        if max > UINT16_MAX / 2 {
          return 0;
        }
        max := max * 2;
      }
      at := |strings|;
      strings := strings + name + "\0";
    }
  }

  /** Names added later leave earlier ones where they are. */
  lemma NamesStay(before: string, after: string, at: nat, name: string)
    requires NameAt(before, at, name) && before <= after
    ensures NameAt(after, at, name)
  {
    assert after[at..at + |name|] == before[at..at + |name|];
  }
}
