/** Binary buddy decompositions of a set of free pages.

    The block of level `l` around page `p` has index Up(p, l) and starts at page Base(Up(p, l), l).
    A shape gives, for every level, the indices of the free blocks kept on that level's list.
 */
module BuddyTheory {
  import opened Arith

  function Up(p: nat, l: nat): nat {
    if l == 0 then p else Up(p, l - 1) / 2
  }

  function Base(q: nat, l: nat): nat
    decreases l
  {
    if l == 0 then q else Base(2 * q, l - 1)
  }

  function Buddy(q: nat): nat {
    if q % 2 == 0 then q + 1 else q - 1
  }

  lemma {:induction false} BaseNext(q: nat, l: nat)
    ensures Base(q + 1, l) == Base(q, l) + Pow2(l)
    decreases l
  {
    if l > 0 {
      BaseNext(2 * q, l - 1);
      BaseNext(2 * q + 1, l - 1);
    }
  }

  /** A block is a naturally aligned run of 2^l pages. */
  lemma {:induction false} BlockRange(p: nat, q: nat, l: nat)
    ensures Up(p, l) == q <==> Base(q, l) <= p < Base(q, l) + Pow2(l)
    decreases l
  {
    if l > 0 {
      BlockRange(p, 2 * q, l - 1);
      BlockRange(p, 2 * q + 1, l - 1);
      BaseNext(2 * q, l - 1);
    }
  }

  lemma UpBase(q: nat, l: nat)
    ensures Up(Base(q, l), l) == q
  {
    BlockRange(Base(q, l), q, l);
  }

  lemma {:induction false} UpSame(p: nat, p': nat, l: nat, m: nat)
    requires l <= m && Up(p, l) == Up(p', l)
    ensures Up(p, m) == Up(p', m)
    decreases m
  {
    if l < m {
      UpSame(p, p', l, m - 1);
    }
  }

  lemma {:induction false} BaseUp(q: nat, l: nat, m: nat)
    requires m <= l
    ensures Base(Up(Base(q, l), m), m) == Base(q, l)
    decreases l - m
  {
    if m == l {
      UpBase(q, l);
    } else {
      BaseUp(2 * q, l - 1, m);
    }
  }

  type Shape = seq<set<nat>>

  /** Page `p` lies in a free block of level `l`. */
  predicate InChunk(s: Shape, p: nat, l: nat) {
    l < |s| && Up(p, l) in s[l]
  }

  ghost predicate Disjoint(s: Shape) {
    forall p, l, m :: InChunk(s, p, l) && InChunk(s, p, m) ==> l == m
  }

  /** No two buddies are free on the same level. */
  ghost predicate Merged(s: Shape) {
    forall l, q :: 0 <= l < |s| && q in s[l] ==> Buddy(q) !in s[l]
  }

  /** The blocks of `s` are disjoint, cover exactly the free pages, and are fully merged. */
  ghost predicate Canonical(s: Shape, free: set<nat>) {
    && Disjoint(s) && Merged(s)
    && forall p :: p in free <==> exists l :: InChunk(s, p, l)
  }

  /** As Canonical, with block (o, q) free but on no list. */
  ghost predicate Hole(s: Shape, free: set<nat>, o: nat, q: nat) {
    && Disjoint(s) && Merged(s)
    && (forall p :: Up(p, o) == q ==> forall l :: !InChunk(s, p, l))
    && (forall p :: p in free <==> Up(p, o) == q || exists l :: InChunk(s, p, l))
  }

  ghost predicate BlockFree(free: set<nat>, l: nat, q: nat) {
    forall p :: Up(p, l) == q ==> p in free
  }

  // ----- Canonical shapes ------------------------------------------------------------------------

  /** Every aligned free run lies within one block of a canonical shape. */
  lemma {:induction false} FreeRunInChunk(s: Shape, free: set<nat>, l: nat, q: nat) returns (m: nat)
    requires Canonical(s, free) && BlockFree(free, l, q)
    ensures m >= l && InChunk(s, Base(q, l), m)
    decreases l
  {
    if l == 0 {
      assert Up(q, 0) == q;
      m :| InChunk(s, q, m);
    } else {
      var m1 := FreeRunInChunk(s, free, l - 1, 2 * q);
      var m2 := FreeRunInChunk(s, free, l - 1, 2 * q + 1);
      UpBase(2 * q, l - 1);
      UpBase(2 * q + 1, l - 1);
      assert Buddy(2 * q) == 2 * q + 1;
      if m1 >= l {
        m := m1;
      } else if m2 >= l {
        UpSame(Base(2 * q + 1, l - 1), Base(q, l), l, m2);
        m := m2;
      } else {
        assert false;
      }
    }
  }

  lemma ChunkIsFree(s: Shape, free: set<nat>, l: nat, q: nat)
    requires Canonical(s, free) && l < |s| && q in s[l]
    ensures BlockFree(free, l, q)
  {
    forall p | Up(p, l) == q
      ensures p in free
    {
      assert InChunk(s, p, l);
    }
  }

  /** The canonical shape holds exactly the maximal aligned free runs. */
  lemma ChunksAreMaximal(s: Shape, free: set<nat>, l: nat, q: nat)
    requires Canonical(s, free) && l < |s|
    ensures q in s[l] <==> BlockFree(free, l, q) && !BlockFree(free, l + 1, q / 2)
  {
    UpBase(q, l);
    if q in s[l] {
      ChunkIsFree(s, free, l, q);
      if BlockFree(free, l + 1, q / 2) {
        var m := FreeRunInChunk(s, free, l + 1, q / 2);
        UpBase(q / 2, l + 1);
        UpSame(Base(q / 2, l + 1), Base(q, l), l + 1, m);
        assert InChunk(s, Base(q, l), l) && InChunk(s, Base(q, l), m);
        assert false;
      }
    } else if BlockFree(free, l, q) {
      var m := FreeRunInChunk(s, free, l, q);
      var top := Up(Base(q, l), m);
      assert m > l;
      forall p | Up(p, l + 1) == q / 2
        ensures p in free
      {
        UpSame(p, Base(q, l), l + 1, m);
        assert InChunk(s, p, m);
      }
    }
  }

  /** Canonical shapes are a function of the set of free pages: the order of past allocations and
      frees leaves no trace in them. */
  lemma CanonicalUnique(s: Shape, s': Shape, free: set<nat>)
    requires |s| == |s'| && Canonical(s, free) && Canonical(s', free)
    ensures s == s'
  {
    forall l | 0 <= l < |s|
      ensures s[l] == s'[l]
    {
      forall q
        ensures q in s[l] <==> q in s'[l]
      {
        ChunksAreMaximal(s, free, l, q);
        ChunksAreMaximal(s', free, l, q);
      }
    }
  }

  // ----- Moving blocks in and out -------------------------------------------------------------------

  lemma InChunkAdd(s: Shape, o: nat, q: nat, p: nat, l: nat)
    requires o < |s|
    ensures InChunk(s[o := s[o] + {q}], p, l) <==> InChunk(s, p, l) || (l == o && Up(p, o) == q)
  {}

  lemma InChunkRemove(s: Shape, o: nat, q: nat, p: nat, l: nat)
    requires o < |s|
    ensures InChunk(s[o := s[o] - {q}], p, l) <==> InChunk(s, p, l) && !(l == o && Up(p, o) == q)
  {}

  /** Taking a block off its list. */
  lemma TakeChunk(s: Shape, free: set<nat>, o: nat, q: nat)
    requires Canonical(s, free) && o < |s| && q in s[o]
    ensures Hole(s[o := s[o] - {q}], free, o, q)
  {
    var t := s[o := s[o] - {q}];
    forall p, l
      ensures InChunk(t, p, l) <==> InChunk(s, p, l) && !(l == o && Up(p, o) == q)
    {
      InChunkRemove(s, o, q, p, l);
    }
    forall p
      ensures p in free <==> Up(p, o) == q || exists l :: InChunk(t, p, l)
      ensures Up(p, o) == q ==> forall l :: !InChunk(t, p, l)
    {
      if Up(p, o) == q {
        assert InChunk(s, p, o);
      } else if p in free {
        var l :| InChunk(s, p, l);
        assert InChunk(t, p, l);
      }
    }
  }

  /** Putting a block on its list when its buddy is not there. */
  lemma PutChunk(s: Shape, free: set<nat>, o: nat, q: nat)
    requires Hole(s, free, o, q) && o < |s| && Buddy(q) !in s[o]
    ensures Canonical(s[o := s[o] + {q}], free)
  {
    var t := s[o := s[o] + {q}];
    forall p, l
      ensures InChunk(t, p, l) <==> InChunk(s, p, l) || (l == o && Up(p, o) == q)
    {
      InChunkAdd(s, o, q, p, l);
    }
    forall p
      ensures p in free <==> exists l :: InChunk(t, p, l)
    {
      if Up(p, o) == q {
        assert InChunk(t, p, o);
      } else if p in free {
        var l :| InChunk(s, p, l);
        assert InChunk(t, p, l);
      }
    }
  }

  /** Splitting: the upper half goes on the list below, the lower half stays out. */
  lemma SplitHole(s: Shape, free: set<nat>, o: nat, q: nat)
    requires Hole(s, free, o + 1, q) && o < |s|
    ensures Hole(s[o := s[o] + {2 * q + 1}], free, o, 2 * q)
  {
    var t := s[o := s[o] + {2 * q + 1}];
    UpBase(2 * q, o);
    assert Up(Base(2 * q, o), o + 1) == q && !InChunk(s, Base(2 * q, o), o);
    forall p, l
      ensures InChunk(t, p, l) <==> InChunk(s, p, l) || (l == o && Up(p, o) == 2 * q + 1)
    {
      InChunkAdd(s, o, 2 * q + 1, p, l);
    }
    SplitCovers(s, t, free, o, q);
  }

  lemma SplitCovers(s: Shape, t: Shape, free: set<nat>, o: nat, q: nat)
    requires Hole(s, free, o + 1, q) && o < |s| == |t|
    requires forall p, l :: InChunk(t, p, l) <==> InChunk(s, p, l) || (l == o && Up(p, o) == 2 * q + 1)
    ensures forall p :: Up(p, o) == 2 * q ==> forall l :: !InChunk(t, p, l)
    ensures forall p :: p in free <==> Up(p, o) == 2 * q || exists l :: InChunk(t, p, l)
    ensures Disjoint(t)
  {
    forall p
      ensures p in free <==> Up(p, o) == 2 * q || exists l :: InChunk(t, p, l)
      ensures Up(p, o) == 2 * q ==> forall l :: !InChunk(t, p, l)
    {
      assert Up(p, o + 1) == Up(p, o) / 2;
      if Up(p, o) == 2 * q + 1 {
        assert InChunk(t, p, o);
      } else if p in free && Up(p, o) != 2 * q {
        var l :| InChunk(s, p, l);
        assert InChunk(t, p, l);
      }
    }
    forall p, l, m | InChunk(t, p, l) && InChunk(t, p, m)
      ensures l == m
    {
      assert Up(p, o + 1) == Up(p, o) / 2;
    }
  }

  /** Merging: the buddy comes off its list and the pair is out one level up. */
  lemma MergeHole(s: Shape, free: set<nat>, o: nat, q: nat)
    requires Hole(s, free, o, q) && o < |s| && Buddy(q) in s[o]
    ensures Hole(s[o := s[o] - {Buddy(q)}], free, o + 1, q / 2)
  {
    var t := s[o := s[o] - {Buddy(q)}];
    forall p, l
      ensures InChunk(t, p, l) <==> InChunk(s, p, l) && !(l == o && Up(p, o) == Buddy(q))
    {
      InChunkRemove(s, o, Buddy(q), p, l);
    }
    forall p
      ensures p in free <==> Up(p, o + 1) == q / 2 || exists l :: InChunk(t, p, l)
      ensures Up(p, o + 1) == q / 2 ==> forall l :: !InChunk(t, p, l)
    {
      assert Up(p, o + 1) == Up(p, o) / 2;
      assert Up(p, o + 1) == q / 2 <==> Up(p, o) == q || Up(p, o) == Buddy(q);
      if Up(p, o) == Buddy(q) {
        assert InChunk(s, p, o);
      } else if p in free && Up(p, o) != q {
        var l :| InChunk(s, p, l);
        assert InChunk(t, p, l);
      }
    }
    assert Disjoint(t) && Merged(t);
    var o', q' := o + 1, q / 2;
    assert forall p :: Up(p, o') == q' ==> forall l :: !InChunk(t, p, l);
  }

  /** Handing out the block. */
  lemma AllocHole(s: Shape, free: set<nat>, o: nat, q: nat, free': set<nat>)
    requires Hole(s, free, o, q)
    requires forall p :: p in free' <==> p in free && Up(p, o) != q
    ensures Canonical(s, free')
  {}

  /** Taking the block back. */
  lemma FreeHole(s: Shape, free: set<nat>, o: nat, q: nat, free': set<nat>)
    requires Canonical(s, free) && forall p :: Up(p, o) == q ==> p !in free
    requires forall p :: p in free' <==> p in free || Up(p, o) == q
    ensures Hole(s, free', o, q)
  {}

  /** When the first page of the buddy is free, the buddy's first page is the head of a block, and
      that block is the buddy itself or smaller. */
  lemma BuddyIsHead(s: Shape, free: set<nat>, o: nat, q: nat) returns (l: nat)
    requires Hole(s, free, o, q) && Base(Buddy(q), o) in free
    ensures l <= o && InChunk(s, Base(Buddy(q), o), l)
    ensures Base(Up(Base(Buddy(q), o), l), l) == Base(Buddy(q), o)
  {
    var b := Base(Buddy(q), o);
    UpBase(Buddy(q), o);
    UpBase(q, o);
    assert forall m :: !InChunk(s, Base(q, o), m);
    l :| InChunk(s, b, l);
    if l > o {
      assert Up(b, o + 1) == Up(Base(q, o), o + 1);
      UpSame(b, Base(q, o), o + 1, l);
      assert InChunk(s, Base(q, o), l);
      assert false;
    }
    BaseUp(Buddy(q), o, l);
  }
}
