/** The Mini-OS page allocator (mm.c): free lists per level, split on allocation, merge on free. */
module Buddy {
  import opened Seqs
  import opened Arith
  import opened PageBitmap
  import opened BuddyTheory

  const FREELIST_SIZE: nat := 52
  /** 64-bit words in a page of bitmap. */
  const WORDS_PER_PAGE: nat := 512

  // ----- Free lists ----------------------------------------------------------------------------------

  /** Unlinking `x` from a list. */
  function Without(xs: seq<nat>, x: nat): (r: seq<nat>)
    ensures forall y :: y in r ==> y in xs
  {
    if xs == [] then [] else if xs[0] == x then xs[1..] else [xs[0]] + Without(xs[1..], x)
  }

  lemma {:induction false} WithoutMembers(xs: seq<nat>, x: nat)
    requires Distinct(xs)
    ensures Distinct(Without(xs, x))
    ensures forall y :: y in Without(xs, x) <==> y in xs && y != x
  {
    if xs != [] {
      assert xs == [xs[0]] + xs[1..];
      if xs[0] != x {
        WithoutMembers(xs[1..], x);
        assert xs[0] !in xs[1..];
      }
    }
  }

  /** List `l` holds the first pages of exactly the blocks of `s[l]`, and each such page records
      its level. */
  ghost predicate ListMatch(xs: seq<nat>, level: map<nat, nat>, l: nat, qs: set<nat>) {
    && Distinct(xs)
    && (forall c :: c in xs ==> Up(c, l) in qs && Base(Up(c, l), l) == c && c in level && level[c] == l)
    && (forall q :: q in qs ==> Base(q, l) in xs)
  }

  ghost predicate ListsMatch(free: seq<seq<nat>>, level: map<nat, nat>, s: Shape) {
    && |free| == |s|
    && forall l :: 0 <= l < |s| ==> ListMatch(free[l], level, l, s[l])
  }

  /** Linking block (o, q) at the head of its list. */
  lemma PushMatch(free: seq<seq<nat>>, level: map<nat, nat>, s: Shape, o: nat, q: nat)
    requires ListsMatch(free, level, s) && o < |s|
    requires forall l :: !InChunk(s, Base(q, o), l)
    ensures var c := Base(q, o);
            ListsMatch(free[o := [c] + free[o]], level[c := o], s[o := s[o] + {q}])
  {
    var c := Base(q, o);
    UpBase(q, o);
    forall l | 0 <= l < |s|
      ensures c !in free[l]
    {
      assert !InChunk(s, c, l);
      assert ListMatch(free[l], level, l, s[l]);
    }
    var free', level', s' := free[o := [c] + free[o]], level[c := o], s[o := s[o] + {q}];
    forall l | 0 <= l < |s|
      ensures ListMatch(free'[l], level', l, s'[l])
    {
      assert ListMatch(free[l], level, l, s[l]);
    }
  }

  /** Unlinking block (o, q). */
  lemma PopMatch(free: seq<seq<nat>>, level: map<nat, nat>, s: Shape, o: nat, q: nat)
    requires ListsMatch(free, level, s) && o < |s|
    ensures ListsMatch(free[o := Without(free[o], Base(q, o))], level, s[o := s[o] - {q}])
  {
    var c := Base(q, o);
    UpBase(q, o);
    var free', s' := free[o := Without(free[o], c)], s[o := s[o] - {q}];
    forall l | 0 <= l < |s|
      ensures ListMatch(free'[l], level, l, s'[l])
    {
      assert ListMatch(free[l], level, l, s[l]);
      if l == o {
        WithoutMembers(free[o], c);
        forall q' | q' in s'[o]
          ensures Base(q', o) in free'[o]
        {
          UpBase(q', o);
        }
      }
    }
  }

  /** Which blocks are on the lists is determined by the free pages alone. */
  lemma ListsDetermined(free: seq<seq<nat>>, level: map<nat, nat>, s: Shape, free': seq<seq<nat>>,
                        level': map<nat, nat>, s': Shape,
                        pages: set<nat>, l: nat)
    requires ListsMatch(free, level, s) && ListsMatch(free', level', s') && |s| == |s'|
    requires Canonical(s, pages) && Canonical(s', pages) && l < |s|
    ensures multiset(free[l]) == multiset(free'[l])
  {
    CanonicalUnique(s, s', pages);
    assert ListMatch(free[l], level, l, s[l]) && ListMatch(free'[l], level', l, s[l]);
    forall c
      ensures c in free[l] <==> c in free'[l]
    {}
    DistinctCount(free[l]);
    DistinctCount(free'[l]);
  }

  lemma {:induction false} DistinctCount(xs: seq<nat>)
    requires Distinct(xs)
    ensures forall x :: multiset(xs)[x] == if x in xs then 1 else 0
  {
    if xs != [] {
      var n := |xs| - 1;
      DistinctCount(xs[..n]);
      assert xs == xs[..n] + [xs[n]];
      assert xs[n] !in xs[..n];
    }
  }

  function PageRange(lo: nat, hi: nat): (pages: set<nat>)
    ensures forall p :: p in pages <==> lo <= p < hi
  {
    if hi <= lo then {} else PageRange(lo, hi - 1) + {hi - 1}
  }

  // ----- The pool --------------------------------------------------------------------------------------

  /** The 2^o pages of block (o, q). */
  function BlockPages(o: nat, q: nat): set<nat> {
    set p | Base(q, o) <= p < Base(q, o) + Pow2(o) && Up(p, o) == q
  }

  lemma BlockPagesUp(o: nat, q: nat)
    ensures forall p :: p in BlockPages(o, q) <==> Up(p, o) == q
  {
    forall p: nat
      ensures p in BlockPages(o, q) <==> Up(p, o) == q
    {
      BlockRange(p, q, o);
    }
  }

  lemma BlockPagesRange(o: nat, q: nat)
    ensures forall p :: p in BlockPages(o, q) <==> Base(q, o) <= p < Base(q, o) + Pow2(o)
  {
    forall p: nat
      ensures p in BlockPages(o, q) <==> Base(q, o) <= p < Base(q, o) + Pow2(o)
    {
      BlockRange(p, q, o);
    }
  }

  /** The pages lo .. hi whose bit is clear. */
  ghost function FreeSet(words: seq<nat>, lo: nat, hi: nat): set<nat>
    requires hi < PAGES_PER_MAPWORD * |words|
  {
    set p | lo <= p < hi && !Allocated(words, p)
  }

  ghost predicate OutsideAllocated(words: seq<nat>, lo: nat, hi: nat) {
    forall p: nat :: p / PAGES_PER_MAPWORD < |words| && !(lo <= p < hi) ==> Allocated(words, p)
  }

  ghost predicate InPool(lo: nat, hi: nat, o: nat, q: nat) {
    lo <= Base(q, o) && Base(q, o) + Pow2(o) <= hi
  }

  lemma FreeInPool(pages: set<nat>, lo: nat, hi: nat, o: nat, q: nat)
    requires BlockFree(pages, o, q) && forall p :: p in pages ==> lo <= p < hi
    ensures InPool(lo, hi, o, q)
  {
    var first, last := Base(q, o), Base(q, o) + Pow2(o) - 1;
    BlockRange(first, q, o);
    BlockRange(last, q, o);
  }

  /** A pool well below 2^51 pages never fills the top list. */
  lemma OrderBelowTop(lo: nat, hi: nat, o: nat, q: nat)
    requires InPool(lo, hi, o, q) && hi < Pow2(FREELIST_SIZE - 1)
    ensures o < FREELIST_SIZE - 1
  {
    if o >= FREELIST_SIZE - 1 {
      Pow2Mono(FREELIST_SIZE - 1, o);
    }
  }

  /** Setting the bits of a block inside the pool. */
  lemma AllocUpdatesFree(before: seq<nat>, after: seq<nat>, lo: nat, hi: nat, o: nat, q: nat)
    requires hi < PAGES_PER_MAPWORD * |before| && InPool(lo, hi, o, q) && OutsideAllocated(before, lo, hi)
    requires Updated(before, after, Base(q, o), Pow2(o), true)
    ensures OutsideAllocated(after, lo, hi)
    ensures FreeSet(after, lo, hi) == FreeSet(before, lo, hi) - BlockPages(o, q)
  {
    hide Allocated, BlockPages;
    BlockPagesRange(o, q);
  }

  lemma FreeUpdatesFree(before: seq<nat>, after: seq<nat>, lo: nat, hi: nat, o: nat, q: nat)
    requires hi < PAGES_PER_MAPWORD * |before| && InPool(lo, hi, o, q) && OutsideAllocated(before, lo, hi)
    requires Updated(before, after, Base(q, o), Pow2(o), false)
    ensures OutsideAllocated(after, lo, hi)
    ensures FreeSet(after, lo, hi) == FreeSet(before, lo, hi) + BlockPages(o, q)
  {
    hide Allocated, BlockPages;
    BlockPagesRange(o, q);
  }

  /** Outstanding allocations (order, index): inside the pool, allocated, and pairwise disjoint. */
  ghost predicate LiveOk(live: set<(nat, nat)>, pages: set<nat>, lo: nat, hi: nat) {
    && (forall b :: b in live ==> InPool(lo, hi, b.0, b.1) && BlockPages(b.0, b.1) !! pages)
    && (forall b, c :: b in live && c in live && b != c ==> BlockPages(b.0, b.1) !! BlockPages(c.0, c.1))
  }

  class PageAllocator {
    const words: array<nat>
    ghost const lo: nat
    ghost const hi: nat
    var free: seq<seq<nat>>
    /** The level field in the first page of a block; stale in all other pages. */
    var level: map<nat, nat>
    ghost var shape: Shape
    ghost var live: set<(nat, nat)>

    ghost function FreePages(): set<nat>
      reads this, words
      requires hi < PAGES_PER_MAPWORD * words.Length
    {
      FreeSet(words[..], lo, hi)
    }

    ghost predicate Valid()
      reads this, words
    {
      && lo <= hi < PAGES_PER_MAPWORD * words.Length && hi < Pow2(FREELIST_SIZE - 1)
      && OutsideAllocated(words[..], lo, hi)
      && |shape| == FREELIST_SIZE && ListsMatch(free, level, shape)
      && Canonical(shape, FreePages())
      && LiveOk(live, FreePages(), lo, hi)
    }

    /** init_page_allocator: the bitmap takes the first pages of the range, the pages behind it up to
        `hi` are free, all others allocated. */
    constructor (begin: nat, hi: nat)
      requires begin + BitmapPages(hi) <= hi < Pow2(FREELIST_SIZE - 1) && hi % 32768 >= 8
      ensures Valid() && fresh(words) && this.lo == begin + BitmapPages(hi) && this.hi == hi && live == {}
      ensures PAGES_PER_MAPWORD * words.Length == BitmapBits(hi)
      ensures FreePages() == PageRange(begin + BitmapPages(hi), hi)
    {
      BitmapFits(hi);
      hide BitmapPages, BitmapBits, Pow2;
      var lo := begin + BitmapPages(hi);
      words := new nat[WORDS_PER_PAGE * BitmapPages(hi)](_ => BitsFrom(0));
      this.lo, this.hi := lo, hi;
      free := seq(FREELIST_SIZE, _ => []);
      level := map[];
      shape := seq(FREELIST_SIZE, _ => {});
      live := {};
      new;
      hide ListsMatch, Building, OutsideAllocated, FreeSet, Canonical, BitsFrom;
      EmptyIsBuilding(free, level, shape, lo, hi);
      ghost var before := words[..];
      MapFree(words, lo, hi - lo);
      AllSetThenFreed(before, words[..], lo, hi);
      AddChunks(lo, hi);
      BuiltIsCanonical(shape, lo, hi);
    }

    /** The loop of init_page_allocator: the largest aligned chunk that fits, again and again. */
    method AddChunks(begin: nat, end: nat)
      requires begin == lo && end == hi && lo <= hi < Pow2(FREELIST_SIZE - 1)
      requires |shape| == FREELIST_SIZE && ListsMatch(free, level, shape) && Building(shape, lo, hi, lo)
      modifies this`free, this`level, this`shape
      ensures |shape| == FREELIST_SIZE && ListsMatch(free, level, shape) && Building(shape, lo, hi, hi)
    {
      hide ListsMatch, Building, TestBit;
      var m := begin;
      while m < end
        invariant lo <= m <= end && |shape| == FREELIST_SIZE
        invariant ListsMatch(free, level, shape) && Building(shape, lo, hi, m)
      {
        var i := ChunkLevel(m, end - m);
        ghost var q := Up(m, i);
        TopLevel(i, end - m);
        BuildStep(shape, lo, hi, m, i, q);
        PushMatch(free, level, shape, i, q);
        MatchLengths(free, level, shape);
        level := level[m := i];
        free := free[i := [m] + free[i]];
        shape := shape[i := shape[i] + {q}];
        m := m + Pow2(i);
      }
    }

    /** The search of alloc_pages: the first non-empty list from `order` up. */
    method FindLevel(order: nat) returns (i: nat)
      requires |free| == FREELIST_SIZE && order <= FREELIST_SIZE
      ensures order <= i <= FREELIST_SIZE
      ensures forall j :: order <= j < i ==> free[j] == []
      ensures i < FREELIST_SIZE ==> free[i] != []
    {
      i := order;
      while i < FREELIST_SIZE
        invariant order <= i <= FREELIST_SIZE
        invariant forall j :: order <= j < i ==> free[j] == []
      {
        if free[i] != [] {
          return;
        }
        i := i + 1;
      }
    }

    /** The splitting loop of alloc_pages: block (i, q) is out; halve it down to `order`. */
    method Split(order: nat, i0: nat, start: nat, ghost q0: nat) returns (ghost q: nat)
      requires order <= i0 < FREELIST_SIZE == |shape| && start == Base(q0, i0)
      requires lo <= hi < PAGES_PER_MAPWORD * words.Length
      requires ListsMatch(free, level, shape) && Hole(shape, FreePages(), i0, q0)
      modifies this`free, this`level, this`shape
      ensures |shape| == FREELIST_SIZE && ListsMatch(free, level, shape)
      ensures Hole(shape, FreePages(), order, q) && start == Base(q, order)
    {
      hide ListsMatch, Hole;
      q := q0;
      var i := i0;
      ghost var pages := FreePages();
      while i != order
        invariant order <= i < FREELIST_SIZE == |shape| && start == Base(q, i)
        invariant ListsMatch(free, level, shape) && Hole(shape, pages, i, q)
      {
        i := i - 1;
        BaseNext(2 * q, i);
        var spare := start + Pow2(i);
        SpareIsOut(shape, pages, i, q, spare);
        PushMatch(free, level, shape, i, 2 * q + 1);
        MatchLengths(free, level, shape);
        level := level[spare := i];
        free := free[i := [spare] + free[i]];
        SplitHole(shape, pages, i, q);
        shape := shape[i := shape[i] + {2 * q + 1}];
        q := 2 * q;
      }
    }

    /** alloc_pages: fails exactly when there is no aligned free run of 2^order pages. */
    method Alloc(order: nat) returns (ok: bool, start: nat)
      requires Valid() && order <= FREELIST_SIZE
      modifies this, words
      ensures Valid()
      ensures ok <==> exists q :: BlockFree(old(FreePages()), order, q)
      ensures !ok ==> unchanged(this) && unchanged(words)
      ensures ok ==>
                var q := Up(start, order);
                && start == Base(q, order) && BlockFree(old(FreePages()), order, q)
                && FreePages() == old(FreePages()) - BlockPages(order, q)
                && live == old(live) + {(order, q)} && (order, q) !in old(live)
    {
      hide ListsMatch, Canonical, Hole, OutsideAllocated, BlockFree;
      ghost var pages := FreePages();
      MatchLengths(free, level, shape);
      var i := FindLevel(order);
      start := 0;
      if i == FREELIST_SIZE {
        NoRun(free, level, shape, pages, order);
        return false, 0;
      }
      start := free[i][0];
      ghost var q0 := HeadBlock(free, level, shape, pages, i);
      PopMatch(free, level, shape, i, q0);
      assert Without(free[i], start) == free[i][1..];
      free := free[i := free[i][1..]];
      TakeChunk(shape, pages, i, q0);
      shape := shape[i := shape[i] - {q0}];
      ghost var q := Split(order, i, start, q0);
      HoleIsFree(shape, pages, order, q);
      FreeInPool(pages, lo, hi, order, q);
      UpBase(q, order);
      ghost var before := words[..];
      MapAlloc(words, start, Pow2(order));
      AllocUpdatesFree(before, words[..], lo, hi, order, q);
      BlockPagesUp(order, q);
      AllocHole(shape, pages, order, q, FreePages());
      LiveAlloc(live, pages, lo, hi, order, q);
      live := live + {(order, q)};
      ok := true;
    }

    /** The merging loop of free_pages: block (order, q) is out; join it with its buddy while the
        buddy's first page is free and records the same level. */
    method Merge(pointer: nat, order0: nat, ghost q0: nat) returns (start: nat, order: nat, ghost q: nat)
      requires lo <= hi < PAGES_PER_MAPWORD * words.Length && hi < Pow2(FREELIST_SIZE - 1)
      requires OutsideAllocated(words[..], lo, hi) && |shape| == FREELIST_SIZE
      requires ListsMatch(free, level, shape) && Hole(shape, FreePages(), order0, q0) && pointer == Base(q0, order0)
      modifies this`free, this`shape
      ensures order < FREELIST_SIZE == |shape| && ListsMatch(free, level, shape)
      ensures Hole(shape, FreePages(), order, q) && start == Base(q, order) && Buddy(q) !in shape[order]
    {
      hide ListsMatch, Hole, OutsideAllocated, FreeSet;
      start, order, q := pointer, order0, q0;
      ghost var pages := FreePages();
      HoleOrder(shape, words[..], lo, hi, order, q);
      while order < FREELIST_SIZE
        invariant order < FREELIST_SIZE - 1 && |shape| == FREELIST_SIZE
        invariant ListsMatch(free, level, shape) && Hole(shape, pages, order, q) && start == Base(q, order)
        invariant InPool(lo, hi, order, q)
        decreases FREELIST_SIZE - order
      {
        var mask := Pow2(order);
        MaskBit(q, order);
        var buddy := if TestBit(start, order) then start - mask else start + mask;
        assert buddy == Base(Buddy(q), order) && buddy <= hi;
        if Allocated(words[..], buddy) {
          BuddyAllocated(free, level, shape, words[..], lo, hi, order, q);
          return;
        }
        ghost var l := BuddyLevel(free, level, shape, words[..], lo, hi, order, q);
        assert buddy in level && level[buddy] == l;
        if level[buddy] != order {
          BuddyOther(shape, pages, order, q, l);
          return;
        }
        PopMatch(free, level, shape, order, Buddy(q));
        MatchLengths(free, level, shape);
        free := free[order := Without(free[order], buddy)];
        UpBase(Buddy(q), order);
        MergeHole(shape, pages, order, q);
        shape := shape[order := shape[order] - {Buddy(q)}];
        if TestBit(start, order) {
          start := buddy;
        }
        order, q := order + 1, q / 2;
        HoleOrder(shape, words[..], lo, hi, order, q);
      }
    }

    /** free_pages of an outstanding allocation. */
    method Free(pointer: nat, order: nat)
      requires Valid() && (order, Up(pointer, order)) in live && Base(Up(pointer, order), order) == pointer
      modifies this, words
      ensures Valid()
      ensures FreePages() == old(FreePages()) + BlockPages(order, Up(pointer, order))
      ensures live == old(live) - {(order, Up(pointer, order))}
    {
      hide ListsMatch, Canonical, Hole, OutsideAllocated, FreeSet;
      ghost var q, pages := Up(pointer, order), FreePages();
      LiveFree(live, pages, lo, hi, order, q);
      ghost var before := words[..];
      MapFree(words, pointer, Pow2(order));
      FreeUpdatesFree(before, words[..], lo, hi, order, q);
      BlockPagesUp(order, q);
      FreeHole(shape, pages, order, q, FreePages());
      live := live - {(order, q)};
      var start, o;
      ghost var q';
      start, o, q' := Merge(pointer, order, q);
      MatchLengths(free, level, shape);
      BlockIsOut(shape, FreePages(), o, q', start);
      PushMatch(free, level, shape, o, q');
      level := level[start := o];
      free := free[o := [start] + free[o]];
      PutChunk(shape, FreePages(), o, q');
      shape := shape[o := shape[o] + {q'}];
    }

    /** alloc_pages followed by free_pages: every list holds the same blocks as before. */
    method AllocThenFree(order: nat) returns (ok: bool)
      requires Valid() && order <= FREELIST_SIZE
      modifies this, words
      ensures Valid() && FreePages() == old(FreePages()) && shape == old(shape) && live == old(live)
      ensures forall l :: 0 <= l < FREELIST_SIZE ==> multiset(free[l]) == multiset(old(free)[l])
    {
      hide ListsMatch, Canonical, OutsideAllocated, FreeSet, LiveOk, BlockFree;
      ghost var pages, s0, f0, l0 := FreePages(), shape, free, level;
      var start;
      ok, start := Alloc(order);
      if ok {
        Free(start, order);
        RunWasFree(pages, order, Up(start, order));
        assert FreePages() == pages;
        assert live == old(live);
      }
      CanonicalUnique(s0, shape, pages);
      MatchLengths(f0, l0, s0);
      MatchLengths(free, level, shape);
      forall l | 0 <= l < FREELIST_SIZE
        ensures multiset(free[l]) == multiset(f0[l])
      {
        ListsDetermined(f0, l0, s0, free, level, shape, pages, l);
      }
    }
  }

  lemma RunWasFree(pages: set<nat>, o: nat, q: nat)
    requires BlockFree(pages, o, q)
    ensures pages - BlockPages(o, q) + BlockPages(o, q) == pages
  {
    BlockPagesUp(o, q);
  }

  lemma BlockIsOut(s: Shape, pages: set<nat>, o: nat, q: nat, c: nat)
    requires Hole(s, pages, o, q) && c == Base(q, o)
    ensures forall l :: !InChunk(s, c, l)
  {
    UpBase(q, o);
  }

  /** A block given back is no longer outstanding, and its pages were not free before. */
  lemma LiveFree(live: set<(nat, nat)>, pages: set<nat>, lo: nat, hi: nat, o: nat, q: nat)
    requires LiveOk(live, pages, lo, hi) && (o, q) in live
    ensures LiveOk(live - {(o, q)}, pages + BlockPages(o, q), lo, hi)
    ensures BlockPages(o, q) !! pages
  {
    hide BlockPages;
  }

  lemma {:induction false} UpHalf(p: nat, o: nat)
    ensures Up(p, o + 1) == Up(p / 2, o)
  {
    if o > 0 {
      UpHalf(p, o - 1);
    }
  }

  lemma {:induction false} TestBitUp(p: nat, o: nat)
    ensures TestBit(p, o) <==> Up(p, o) % 2 == 1
    decreases o
  {
    if o > 0 {
      UpHalf(p, o - 1);
      TestBitUp(p / 2, o - 1);
    }
  }

  /** The mask test of free_pages: is the block the upper one of its pair? */
  lemma MaskBit(q: nat, o: nat)
    ensures TestBit(Base(q, o), o) <==> q % 2 == 1
    ensures q % 2 == 1 ==> Base(q, o) >= Pow2(o) && Base(Buddy(q), o) == Base(q, o) - Pow2(o) == Base(q / 2, o + 1)
    ensures q % 2 == 0 ==> Base(Buddy(q), o) == Base(q, o) + Pow2(o) && Base(q / 2, o + 1) == Base(q, o)
  {
    UpBase(q, o);
    TestBitUp(Base(q, o), o);
    BaseNext(q, o);
    if q % 2 == 1 {
      BaseNext(q - 1, o);
      assert 2 * (q / 2) == q - 1;
    } else {
      assert 2 * (q / 2) == q;
    }
  }

  lemma HoleOrder(s: Shape, words: seq<nat>, lo: nat, hi: nat, o: nat, q: nat)
    requires hi < PAGES_PER_MAPWORD * |words| && hi < Pow2(FREELIST_SIZE - 1) && Hole(s, FreeSet(words, lo, hi), o, q)
    ensures InPool(lo, hi, o, q) && o < FREELIST_SIZE - 1
  {
    HoleIsFree(s, FreeSet(words, lo, hi), o, q);
    FreeInPool(FreeSet(words, lo, hi), lo, hi, o, q);
    OrderBelowTop(lo, hi, o, q);
  }

  lemma BuddyAllocated(free: seq<seq<nat>>, level: map<nat, nat>, s: Shape, words: seq<nat>, lo: nat, hi: nat, o: nat,
                       q: nat)
    requires hi < PAGES_PER_MAPWORD * |words| && o < |s| && Hole(s, FreeSet(words, lo, hi), o, q)
    requires Base(Buddy(q), o) / PAGES_PER_MAPWORD < |words| && Allocated(words, Base(Buddy(q), o))
    ensures Buddy(q) !in s[o]
  {
    var b := Base(Buddy(q), o);
    UpBase(Buddy(q), o);
    assert Buddy(q) in s[o] ==> InChunk(s, b, o);
  }

  /** The level read from the buddy's first page is the level of a block that starts there. */
  lemma BuddyLevel(free: seq<seq<nat>>, level: map<nat, nat>, s: Shape, words: seq<nat>, lo: nat, hi: nat, o: nat,
                   q: nat) returns (l: nat)
    requires hi < PAGES_PER_MAPWORD * |words| && OutsideAllocated(words, lo, hi)
    requires ListsMatch(free, level, s) && Hole(s, FreeSet(words, lo, hi), o, q)
    requires Base(Buddy(q), o) / PAGES_PER_MAPWORD < |words| && !Allocated(words, Base(Buddy(q), o))
    ensures l <= o && l < |s| && Base(Buddy(q), o) in free[l]
    ensures Base(Buddy(q), o) in level && level[Base(Buddy(q), o)] == l
    ensures InChunk(s, Base(Buddy(q), o), l)
  {
    l := BuddyIsHead(s, FreeSet(words, lo, hi), o, q);
    assert ListMatch(free[l], level, l, s[l]);
  }

  lemma BuddyOther(s: Shape, pages: set<nat>, o: nat, q: nat, l: nat)
    requires Hole(s, pages, o, q) && o < |s| && InChunk(s, Base(Buddy(q), o), l) && l != o
    ensures Buddy(q) !in s[o]
  {
    UpBase(Buddy(q), o);
    assert InChunk(s, Base(Buddy(q), o), o) <==> Buddy(q) in s[o];
  }

  /** Nothing on the lists from `order` up: no aligned free run of that size. */
  lemma NoRun(free: seq<seq<nat>>, level: map<nat, nat>, s: Shape, pages: set<nat>, order: nat)
    requires ListsMatch(free, level, s) && Canonical(s, pages)
    requires forall l :: order <= l < |s| ==> free[l] == []
    ensures forall q :: !BlockFree(pages, order, q)
  {
    forall q | BlockFree(pages, order, q)
      ensures false
    {
      var m := FreeRunInChunk(s, pages, order, q);
    }
  }

  lemma HeadBlock(free: seq<seq<nat>>, level: map<nat, nat>, s: Shape, pages: set<nat>, i: nat) returns (q: nat)
    requires ListsMatch(free, level, s) && Canonical(s, pages) && i < |s| && free[i] != []
    ensures q in s[i] && free[i][0] == Base(q, i)
  {
    assert ListMatch(free[i], level, i, s[i]);
    assert free[i][0] in free[i];
    q := Up(free[i][0], i);
  }

  lemma HoleIsFree(s: Shape, pages: set<nat>, o: nat, q: nat)
    requires Hole(s, pages, o, q)
    ensures BlockFree(pages, o, q)
  {}

  lemma LiveAlloc(live: set<(nat, nat)>, pages: set<nat>, lo: nat, hi: nat, o: nat, q: nat)
    requires LiveOk(live, pages, lo, hi) && InPool(lo, hi, o, q) && BlockFree(pages, o, q)
    ensures (o, q) !in live && LiveOk(live + {(o, q)}, pages - BlockPages(o, q), lo, hi)
  {
    BlockPagesUp(o, q);
    UpBase(q, o);
    assert Base(q, o) in BlockPages(o, q) && BlockPages(o, q) <= pages;
  }

  lemma MatchLengths(free: seq<seq<nat>>, level: map<nat, nat>, s: Shape)
    requires ListsMatch(free, level, s)
    ensures |free| == |s|
  {}

  lemma SpareIsOut(s: Shape, pages: set<nat>, o: nat, q: nat, c: nat)
    requires Hole(s, pages, o + 1, q) && c == Base(2 * q + 1, o)
    ensures forall l :: !InChunk(s, c, l)
  {
    UpBase(2 * q + 1, o);
    assert Up(Base(2 * q + 1, o), o + 1) == q;
  }

  // ----- Building the initial lists -------------------------------------------------------------------

  /** The level loop of init_page_allocator: limited by the alignment of `m` and by the range left. */
  method ChunkLevel(m: nat, range: nat) returns (i: nat)
    requires range > 0
    ensures Base(Up(m, i), i) == m && Pow2(i) <= range
    ensures Pow2(i + 1) > range || Up(m, i) % 2 == 1
  {
    hide TestBit;
    i := 0;
    while Pow2(i + 1) <= range && !TestBit(m, i)
      invariant Base(Up(m, i), i) == m && Pow2(i) <= range
      decreases range - Pow2(i)
    {
      TestBitUp(m, i);
      i := i + 1;
    }
    TestBitUp(m, i);
  }

  lemma TopLevel(i: nat, range: nat)
    requires Pow2(i) <= range < Pow2(FREELIST_SIZE - 1)
    ensures i < FREELIST_SIZE
  {
    if i >= FREELIST_SIZE {
      Pow2Mono(FREELIST_SIZE - 1, i);
    }
  }

  /** Chunks for exactly the pages lo .. m; each is the upper of its pair, or too near `hi` for the
      pair to fit. */
  ghost predicate Building(s: Shape, lo: nat, hi: nat, m: nat) {
    && Canonical(s, PageRange(lo, m))
    && forall l, q :: 0 <= l < |s| && q in s[l] ==> q % 2 == 1 || hi < Base(q, l) + 2 * Pow2(l)
  }

  lemma BuildStep(s: Shape, lo: nat, hi: nat, m: nat, i: nat, q: nat)
    requires Building(s, lo, hi, m) && i < |s| && lo <= m
    requires Base(q, i) == m && m + Pow2(i) <= hi && (q % 2 == 1 || hi < m + 2 * Pow2(i))
    ensures Building(s[i := s[i] + {q}], lo, hi, m + Pow2(i))
    ensures forall l :: !InChunk(s, m, l)
  {
    assert Buddy(q) !in s[i] by {
      BuddyNotBuilt(s, lo, hi, m, i, q);
    }
    forall p: nat
      ensures Up(p, i) == q <==> m <= p < m + Pow2(i)
    {
      BlockRange(p, q, i);
    }
    FreeHole(s, PageRange(lo, m), i, q, PageRange(lo, m + Pow2(i)));
    PutChunk(s, PageRange(lo, m + Pow2(i)), i, q);
    assert m !in PageRange(lo, m);
  }

  lemma BuddyNotBuilt(s: Shape, lo: nat, hi: nat, m: nat, i: nat, q: nat)
    requires Building(s, lo, hi, m) && i < |s|
    requires Base(q, i) == m && m + Pow2(i) <= hi
    ensures Buddy(q) !in s[i]
  {
    UpBase(Buddy(q), i);
    MaskBit(q, i);
    assert Buddy(q) in s[i] ==> InChunk(s, Base(Buddy(q), i), i);
    assert Buddy(q) in s[i] ==> Base(Buddy(q), i) in PageRange(lo, m);
  }

  lemma EmptyIsBuilding(free: seq<seq<nat>>, level: map<nat, nat>, s: Shape, lo: nat, hi: nat)
    requires |free| == |s| && forall l :: 0 <= l < |s| ==> s[l] == {} && free[l] == []
    ensures Building(s, lo, hi, lo) && ListsMatch(free, level, s)
  {}

  lemma BuiltIsCanonical(s: Shape, lo: nat, hi: nat)
    requires Building(s, lo, hi, hi)
    ensures Canonical(s, PageRange(lo, hi))
  {}

  lemma AllSetThenFreed(before: seq<nat>, after: seq<nat>, lo: nat, hi: nat)
    requires lo <= hi < PAGES_PER_MAPWORD * |before| && (forall j :: 0 <= j < |before| ==> before[j] == BitsFrom(0))
    requires Updated(before, after, lo, hi - lo, false)
    ensures OutsideAllocated(after, lo, hi) && FreeSet(after, lo, hi) == PageRange(lo, hi)
  {
    hide TestBit, BitsFrom;
    forall p: nat | p / PAGES_PER_MAPWORD < |before|
      ensures Allocated(before, p)
    {
      TestFrom(0, p % PAGES_PER_MAPWORD);
    }
  }

  // ----- Size of the bitmap -----------------------------------------------------------------------------

  /** Pages and bits of the bitmap that init_page_allocator reserves for a pool that ends at `maxPfn`. */
  function BitmapPages(maxPfn: nat): nat {
    var bytes := (maxPfn * 4096 + 1) / 32768;
    (bytes + 4095) / 4096
  }

  function BitmapBits(maxPfn: nat): nat {
    32768 * BitmapPages(maxPfn)
  }

  /** The pool of `maxPfn` pages takes 8 bits a byte, so pages beyond a multiple of eight count only
      when they fill a byte. */
  lemma BitmapPagesAre(maxPfn: nat)
    ensures BitmapPages(maxPfn) == maxPfn / 32768 + if maxPfn % 32768 >= 8 then 1 else 0
  {
    var bytes := maxPfn / 8;
    assert (maxPfn * 4096 + 1) / 32768 == bytes;
    var a, b := bytes / 4096, bytes % 4096;
    assert bytes == 4096 * a + b;
    if b == 0 {
      assert (bytes + 4095) / 4096 == a;
    } else {
      assert (bytes + 4095) / 4096 == a + 1;
    }
  }

  /** The bitmap has a bit for every page of the pool if and only if the pool ends on a multiple of 128 MB
      or at least eight pages past one. */
  lemma BitmapCoversPool(maxPfn: nat)
    ensures maxPfn <= BitmapBits(maxPfn) <==> maxPfn % 32768 == 0 || maxPfn % 32768 >= 8
  {
    hide BitmapPages;
    BitmapPagesAre(maxPfn);
  }

  /** It has one for page `maxPfn` too, the first page behind the pool, which map_free and the buddy test
      touch, if and only if the pool ends at least eight pages past a multiple of 128 MB. */
  lemma BitmapCoversEnd(maxPfn: nat)
    ensures maxPfn < BitmapBits(maxPfn) <==> maxPfn % 32768 >= 8
  {
    hide BitmapPages;
    BitmapPagesAre(maxPfn);
  }

  lemma BitmapFits(maxPfn: nat)
    requires maxPfn % 32768 >= 8
    ensures maxPfn < PAGES_PER_MAPWORD * (WORDS_PER_PAGE * BitmapPages(maxPfn)) == BitmapBits(maxPfn)
  {
    hide BitmapPages;
    BitmapCoversEnd(maxPfn);
  }
}
