/** kexec.c: the map from the new kernel's frames to machine frames, shuffled page by page as frames are
    allocated for it. */
module Kexec {
  import opened Seqs

  // ----- The chase ------------------------------------------------------------------------------------------

  /** Where pages_moved2pfns leads from x: positions below i have been moved on. */
  ghost function Chase(moved: seq<nat>, i: nat, x: nat): (p: nat)
    requires i <= |moved|
    ensures p >= x
    decreases i - x
  {
    if x >= i || moved[x] <= x then x else Chase(moved, i, moved[x])
  }

  /** Recording that position i moved to x prolongs exactly the chases that ended at i. */
  lemma {:induction false} ChaseProlonged(moved: seq<nat>, x: nat, q: nat)
    requires Chase(moved, |moved|, q) >= |moved| && x >= |moved|
    ensures var i := |moved|; Chase(moved + [x], i + 1, q) == if Chase(moved, i, q) == i then x else Chase(moved, i, q)
    decreases |moved| - q
  {
    var i, longer := |moved|, moved + [x];
    if q < i {
      assert longer[q] == moved[q];
      ChaseProlonged(moved, x, moved[q]);
    } else if q == i {
      assert longer[i] == x;
    }
  }

  /** Every frame the allocator may still give out is found, by the chase from its pfn, at the position
      that holds it now; none of them is below i. */
  ghost predicate Found(mfn: seq<nat>, host: seq<nat>, moved: seq<nat>, free: set<nat>) {
    && |host| == |mfn| && |moved| <= |host|
    && forall q :: q in free ==>
      q < |mfn| && |moved| <= Chase(moved, |moved|, q) < |host| && host[Chase(moved, |moved|, q)] == mfn[q]
  }

  ghost function Swapped(s: seq<nat>, i: nat, j: nat): (r: seq<nat>)
    requires i < |s| && j < |s|
    ensures |r| == |s|
  {
    s[i := s[j]][j := s[i]]
  }

  lemma SwappedIs(s: seq<nat>, i: nat, j: nat, r: seq<nat>)
    requires i < |s| && j < |s| && r == s[j := s[i]][i := s[j]]
    ensures r == Swapped(s, i, j)
  {}

  lemma SwapPermutes(s: seq<nat>, i: nat, j: nat)
    requires i < |s| && j < |s|
    ensures multiset(Swapped(s, i, j)) == multiset(s)
    ensures Distinct(s) ==> Distinct(Swapped(s, i, j))
  {}

  /** One allocated page: the frame of q changes places with the one at the next position. */
  lemma SwapFinds(mfn: seq<nat>, host: seq<nat>, moved: seq<nat>, free: set<nat>, q: nat, x: nat)
    requires Distinct(mfn) && Found(mfn, host, moved, free) && q in free && |moved| < |host|
    requires x == Chase(moved, |moved|, q)
    ensures Found(mfn, Swapped(host, |moved|, x), moved + [x], free - {q})
    ensures Swapped(host, |moved|, x)[|moved|] == mfn[q]
  {
    var i, host' := |moved|, Swapped(host, |moved|, x);
    forall q' | q' in free - {q}
      ensures var p := Chase(moved + [x], i + 1, q'); i + 1 <= p < |host| && host'[p] == mfn[q']
    {
      var p := Chase(moved, i, q');
      assert mfn[q] != mfn[q'];
      assert host[p] == mfn[q'] && host[x] == mfn[q];
      ChaseProlonged(moved, x, q');
    }
  }

  /** Exchanging frames the allocator will not give out does not disturb the chase. */
  lemma ExchangeFinds(mfn: seq<nat>, host: seq<nat>, moved: seq<nat>, free: set<nat>, i: nat, j: nat)
    requires Found(mfn, host, moved, free) && i < |host| && j < |host|
    requires forall q :: q in free && q < |mfn| ==> mfn[q] != host[i] && mfn[q] != host[j]
    ensures Found(mfn, Swapped(host, i, j), moved, free)
  {}

  lemma FewerFound(mfn: seq<nat>, host: seq<nat>, moved: seq<nat>, free: set<nat>, fewer: set<nat>)
    requires Found(mfn, host, moved, free) && fewer <= free
    ensures Found(mfn, host, moved, fewer)
  {}

  /** The pfns whose frame is neither of the two exchanged. */
  ghost function Untaken(mfn: seq<nat>, free: set<nat>, source: nat, other: nat): set<nat> {
    set q | q in free && q < |mfn| && mfn[q] != source && mfn[q] != other
  }

  // ----- The machine-to-physical table -----------------------------------------------------------------------------

  /** The updates for the first n positions whose frame changed. */
  function Updates(mfn: seq<nat>, host: seq<nat>, n: nat): seq<(nat, nat)>
    requires n <= |mfn| == |host|
  {
    if n == 0 then []
    else Updates(mfn, host, n - 1) + (if host[n - 1] != mfn[n - 1] then [(host[n - 1], n - 1)] else [])
  }

  /** An entry is updated if and only if its frame changed, and to the position the frame is at now. */
  lemma {:induction false} UpdatesAre(mfn: seq<nat>, host: seq<nat>, n: nat, f: nat, p: nat)
    requires n <= |mfn| == |host|
    ensures (f, p) in Updates(mfn, host, n) <==> p < n && host[p] == f && f != mfn[p]
  {
    if n > 0 {
      UpdatesAre(mfn, host, n - 1, f, p);
    }
  }

  ghost function Update(m2p: map<nat, nat>, updates: seq<(nat, nat)>): map<nat, nat> {
    if updates == [] then m2p
    else Update(m2p, updates[..|updates| - 1])[updates[|updates| - 1].0 := updates[|updates| - 1].1]
  }

  lemma {:induction false} UpdatedSoFar(mfn: seq<nat>, host: seq<nat>, m2p: map<nat, nat>, n: nat)
    requires n <= |mfn| == |host| && Distinct(host)
    ensures var m := Update(m2p, Updates(mfn, host, n));
      && (forall p :: 0 <= p < n && host[p] != mfn[p] ==> host[p] in m && m[host[p]] == p)
      && (forall k :: k in m2p && (forall p :: 0 <= p < n ==> host[p] != k || host[p] == mfn[p]) ==>
            k in m && m[k] == m2p[k])
  {
    if n > 0 {
      UpdatedSoFar(mfn, host, m2p, n - 1);
      var u, v := Updates(mfn, host, n), Updates(mfn, host, n - 1);
      if host[n - 1] != mfn[n - 1] {
        assert u[..|u| - 1] == v;
      } else {
        assert u == v;
      }
    }
  }

  /** Updating only the entries that changed makes the table the inverse of the new map. */
  lemma UpdatesInvert(mfn: seq<nat>, host: seq<nat>, m2p: map<nat, nat>)
    requires |mfn| == |host| && Distinct(host) && forall p :: 0 <= p < |mfn| ==> mfn[p] in m2p && m2p[mfn[p]] == p
    ensures var m := Update(m2p, Updates(mfn, host, |mfn|)); forall p :: 0 <= p < |host| ==>
            host[p] in m && m[host[p]] == p
  {
    UpdatedSoFar(mfn, host, m2p, |mfn|);
  }

  /** Below the count, the map is what was allocated, but for what has been exchanged. */
  ghost predicate Matches(host: seq<nat>, mfns: seq<nat>, exchanged: set<nat>) {
    |mfns| <= |host| && forall i :: 0 <= i < |mfns| && i !in exchanged ==> host[i] == mfns[i]
  }

  lemma MatchesSwap(host: seq<nat>, mfns: seq<nat>, exchanged: set<nat>, x: nat)
    requires Matches(host, mfns, exchanged) && |mfns| <= x < |host|
    ensures Matches(Swapped(host, |mfns|, x), mfns + [host[x]], exchanged)
    ensures forall i :: 0 <= i < |mfns| ==> Swapped(host, |mfns|, x)[i] == host[i]
  {}

  lemma MatchesExchange(host: seq<nat>, mfns: seq<nat>, exchanged: set<nat>, i: nat, j: nat)
    requires Matches(host, mfns, exchanged) && i < |host| && j < |host|
    ensures Matches(Swapped(host, i, j), mfns, exchanged + {i, j})
  {}

  // ----- The image under construction ----------------------------------------------------------------------------

  class Image {
    /** pfn_to_mfn of the running domain. */
    const mfn: seq<nat>
    const host: array<nat>
    var mfns: seq<nat>
    var moved: seq<nat>
    var count: nat
    /** Pfns that alloc_page may still return and whose frames no exchange has taken, and positions that
        an exchange has changed. */
    ghost var free: set<nat>
    ghost var exchanged: set<nat>

    ghost predicate Valid()
      reads this, host
    {
      && Distinct(mfn) && host.Length == |mfn| && |moved| == |mfns| == count <= host.Length
      && Distinct(host[..]) && multiset(host[..]) == multiset(mfn)
      && Found(mfn, host[..], moved, free)
      && Matches(host[..], mfns, exchanged)
    }

    /** Starts with the running domain's own map. */
    constructor (mfn: seq<nat>, free: set<nat>)
      requires Distinct(mfn) && forall q :: q in free ==> q < |mfn|
      ensures Valid() && this.mfn == mfn && this.free == free && host[..] == mfn && count == 0 && fresh(host)
    {
      this.mfn := mfn;
      host := new nat[|mfn|];
      mfns, moved, count := [], [], 0;
      this.free := free;
      exchanged := {};
      new;
      for i := 0 to |mfn|
        invariant host[..i] == mfn[..i] && this.mfn == mfn && host.Length == |mfn|
        invariant mfns == [] && moved == [] && count == 0 && this.free == free && exchanged == {}
        invariant fresh(host)
        modifies host
      {
        host[i] := mfn[i];
      }
      assert host[..] == mfn;
    }

    /** The inner loop: strictly upwards to the position that holds the frame of q. */
    method Follow(q: nat) returns (x: nat)
      requires Valid() && q in free
      ensures x == Chase(moved, count, q) && count <= x < host.Length && host[x] == mfn[q]
    {
      x := q;
      while x < |moved|
        invariant Chase(moved, count, x) == Chase(moved, count, q)
        decreases |moved| - x
      {
        x := moved[x];
      }
    }

    /** One turn of the loop of kexec_allocate, for the page alloc_page returned. */
    method PlacePage(q: nat)
      requires Valid() && q in free && count < host.Length
      modifies this, host
      ensures Valid() && count == old(count) + 1 && free == old(free) - {q} && exchanged == old(exchanged)
      ensures mfns == old(mfns) + [mfn[q]] && old(moved) <= moved
      ensures forall i :: 0 <= i < old(count) ==> host[i] == old(host[i])
      ensures host[old(count)] == mfn[q]
    {
      hide Found, Distinct, Matches, Swapped, Chase;
      ghost var before := host[..];
      var i := count;
      var was := host[i];
      var x := Follow(q);
      SwapPermutes(before, i, x);
      SwapFinds(mfn, before, moved, free, q, x);
      MatchesSwap(before, mfns, exchanged, x);
      mfns := mfns + [mfn[q]];
      moved := moved + [x];
      host[x] := was;
      host[i] := mfn[q];
      count := i + 1;
      free := free - {q};
      SwappedIs(before, i, x, host[..]);
    }

    /** kexec_allocate up to `upTo` pages, with what alloc_page returned for each new one. */
    method Allocate(upTo: nat, pages: seq<nat>)
      requires Valid() && count <= upTo <= host.Length && |pages| == upTo - count
      requires Distinct(pages) && forall k :: 0 <= k < |pages| ==> pages[k] in free
      modifies this, host
      ensures Valid() && count == upTo && exchanged == old(exchanged)
      ensures free == old(free) - (set q | q in pages)
      ensures forall i :: 0 <= i < old(count) ==> host[i] == old(host[i])
      ensures forall k :: 0 <= k < |pages| ==>
              pages[k] < |mfn| && host[old(count) + k] == mfns[old(count) + k] == mfn[pages[k]]
    {
      hide Found;
      InRange();
      ghost var start := count;
      var k := 0;
      while k < |pages|
        invariant 0 <= k <= |pages| && Valid() && count == start + k && exchanged == old(exchanged)
        invariant free == old(free) - (set q | q in pages[..k])
        invariant forall i :: 0 <= i < start ==> host[i] == old(host[i])
        invariant forall i :: start <= i < start + k ==> host[i] == mfns[i] == mfn[pages[i - start]]
      {
        assert pages[k] !in pages[..k];
        PlacePage(pages[k]);
        assert pages[..k + 1] == pages[..k] + [pages[k]];
        k := k + 1;
      }
      assert pages[..k] == pages;
    }

    lemma InRange()
      requires Valid()
      ensures forall q :: q in free ==> q < |mfn|
    {}

    /** do_exchange: the frame `source` at position `target`.  The two frames, if the allocator owns them,
        are no longer where its pages are looked for. */
    method DoExchange(target: nat, source: nat)
      requires Valid() && target < host.Length && source in host[..]
      modifies this`exchanged, this`free, host
      ensures Valid() && host[target] == source
      ensures free == Untaken(mfn, old(free), source, old(host[target]))
      ensures exists s ::
                && 0 <= s < host.Length && old(host[s]) == source
                && host[..] == Swapped(old(host[..]), s, target)
      ensures exchanged <= old(exchanged) + {target} + set s | 0 <= s < host.Length && old(host[s]) == source
    {
      hide Found, Distinct, Matches;
      ghost var before := host[..];
      var s := 0;
      while s < host.Length && host[s] != source
        invariant 0 <= s <= host.Length && forall i :: 0 <= i < s ==> host[i] != source
      {
        s := s + 1;
      }
      var other := host[target];
      host[s] := other;
      host[target] := source;
      exchanged := exchanged + {s, target};
      free := Untaken(mfn, free, source, other);
      assert host[..] == Swapped(before, s, target);
      SwapPermutes(before, s, target);
      MatchesExchange(before, mfns, old(exchanged), s, target);
      FewerFound(mfn, before, moved, old(free), free);
      ExchangeFinds(mfn, before, moved, free, s, target);
    }

    /** The loop that keeps only the useful entries. */
    method M2pUpdates() returns (updates: seq<(nat, nat)>)
      requires host.Length == |mfn|
      ensures updates == Updates(mfn, host[..], |mfn|)
    {
      updates := [];
      for pfn := 0 to host.Length
        invariant updates == Updates(mfn, host[..], pfn)
      {
        if host[pfn] != mfn[pfn] {
          updates := updates + [(host[pfn], pfn)];
        }
      }
    }
  }
}
