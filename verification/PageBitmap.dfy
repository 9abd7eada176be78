/** The allocation bitmap of Mini-OS (mm.c): one bit per page, set when the page is allocated,
    updated a word at a time with masks.

    A 64-bit word is a natural number below 2^64; the bitwise operators are written out on its
    binary digits, and negation is taken modulo 2^64.
 */
module PageBitmap {
  import opened Arith

  const PAGES_PER_MAPWORD: nat := 64

  // ----- Words ---------------------------------------------------------------------------------

  predicate TestBit(w: nat, k: nat) {
    if k == 0 then w % 2 == 1 else TestBit(w / 2, k - 1)
  }

  function BitOr(x: nat, y: nat): nat {
    if x == 0 then y
    else if y == 0 then x
    else 2 * BitOr(x / 2, y / 2) + if x % 2 == 1 || y % 2 == 1 then 1 else 0
  }

  function BitAnd(x: nat, y: nat): nat {
    if x == 0 || y == 0 then 0
    else 2 * BitAnd(x / 2, y / 2) + if x % 2 == 1 && y % 2 == 1 then 1 else 0
  }

  /** (1 << n) - 1. */
  function BitsBelow(n: nat): nat {
    Pow2(n) - 1
  }

  /** -(1 << n) in a word of 64 bits. */
  function BitsFrom(n: nat): nat
    requires n <= PAGES_PER_MAPWORD
  {
    Pow2Mono(n, PAGES_PER_MAPWORD);
    Pow2(PAGES_PER_MAPWORD) - Pow2(n)
  }

  lemma {:induction false} TestZero(k: nat)
    ensures !TestBit(0, k)
  {
    if k > 0 {
      TestZero(k - 1);
    }
  }

  lemma {:induction false} TestOr(x: nat, y: nat, k: nat)
    ensures TestBit(BitOr(x, y), k) <==> TestBit(x, k) || TestBit(y, k)
    decreases k
  {
    if x == 0 || y == 0 {
      TestZero(k);
    } else if k > 0 {
      TestOr(x / 2, y / 2, k - 1);
    }
  }

  lemma {:induction false} TestAnd(x: nat, y: nat, k: nat)
    ensures TestBit(BitAnd(x, y), k) <==> TestBit(x, k) && TestBit(y, k)
    decreases k
  {
    if x == 0 || y == 0 {
      TestZero(k);
    } else if k > 0 {
      TestAnd(x / 2, y / 2, k - 1);
    }
  }

  lemma {:induction false} TestBelow(n: nat, k: nat)
    ensures TestBit(BitsBelow(n), k) <==> k < n
    decreases k
  {
    if n == 0 {
      TestZero(k);
    } else if k > 0 {
      assert BitsBelow(n) / 2 == BitsBelow(n - 1);
      TestBelow(n - 1, k - 1);
    }
  }

  lemma {:induction false} TestBetween(n: nat, m: nat, k: nat)
    requires n <= m && Pow2(n) <= Pow2(m)
    ensures TestBit(Pow2(m) - Pow2(n), k) <==> n <= k < m
    decreases k
  {
    if n == 0 {
      TestBelow(m, k);
    } else if k > 0 {
      assert (Pow2(m) - Pow2(n)) / 2 == Pow2(m - 1) - Pow2(n - 1);
      TestBetween(n - 1, m - 1, k - 1);
    }
  }

  lemma TestFrom(n: nat, k: nat)
    requires n <= PAGES_PER_MAPWORD && k < PAGES_PER_MAPWORD
    ensures TestBit(BitsFrom(n), k) <==> n <= k
  {
    hide TestBit, Pow2;
    Pow2Mono(n, PAGES_PER_MAPWORD);
    TestBetween(n, PAGES_PER_MAPWORD, k);
  }

  // ----- What each word of the map becomes -------------------------------------------------------

  /** allocated_in_map. */
  predicate Allocated(words: seq<nat>, page: nat)
    requires page / PAGES_PER_MAPWORD < |words|
  {
    TestBit(words[page / PAGES_PER_MAPWORD], page % PAGES_PER_MAPWORD)
  }

  /** `after` is `before` with the pages first .. first + n set to `value`. */
  ghost predicate Updated(before: seq<nat>, after: seq<nat>, first: nat, n: nat, value: bool) {
    && |after| == |before|
    && forall page: nat :: page / PAGES_PER_MAPWORD < |before| ==>
         (Allocated(after, page) <==> if first <= page < first + n then value else Allocated(before, page))
  }

  /** Bits lo .. hi of one word set to `value`. */
  ghost predicate WordUpdated(w: nat, w': nat, lo: nat, hi: nat, value: bool) {
    forall k :: 0 <= k < PAGES_PER_MAPWORD ==> (TestBit(w', k) <==> if lo <= k < hi then value else TestBit(w, k))
  }

  lemma AllocInside(w: nat, lo: nat, hi: nat)
    requires lo < 64 && hi < 64
    ensures WordUpdated(w, BitOr(w, BitAnd(BitsBelow(hi), BitsFrom(lo))), lo, hi, true)
  {
    hide TestBit, BitsFrom, BitsBelow;
    forall k | 0 <= k < PAGES_PER_MAPWORD
      ensures TestBit(BitOr(w, BitAnd(BitsBelow(hi), BitsFrom(lo))), k) <==>
              (if lo <= k < hi then true else TestBit(w, k))
    {
      TestOr(w, BitAnd(BitsBelow(hi), BitsFrom(lo)), k);
      TestAnd(BitsBelow(hi), BitsFrom(lo), k);
      TestBelow(hi, k);
      TestFrom(lo, k);
    }
  }

  lemma AllocFrom(w: nat, lo: nat)
    requires lo < 64
    ensures WordUpdated(w, BitOr(w, BitsFrom(lo)), lo, 64, true)
  {
    hide TestBit, BitsFrom;
    forall k | 0 <= k < PAGES_PER_MAPWORD
      ensures TestBit(BitOr(w, BitsFrom(lo)), k) <==> (if lo <= k < 64 then true else TestBit(w, k))
    {
      TestOr(w, BitsFrom(lo), k);
      TestFrom(lo, k);
    }
  }

  lemma AllocTo(w: nat, hi: nat)
    requires hi < 64
    ensures WordUpdated(w, BitOr(w, BitsBelow(hi)), 0, hi, true)
  {
    hide TestBit, BitsBelow;
    forall k | 0 <= k < PAGES_PER_MAPWORD
      ensures TestBit(BitOr(w, BitsBelow(hi)), k) <==> (if 0 <= k < hi then true else TestBit(w, k))
    {
      TestOr(w, BitsBelow(hi), k);
      TestBelow(hi, k);
    }
  }

  lemma FreeInside(w: nat, lo: nat, hi: nat)
    requires lo < 64 && hi < 64
    ensures WordUpdated(w, BitAnd(w, BitOr(BitsFrom(hi), BitsBelow(lo))), lo, hi, false)
  {
    hide TestBit, BitsFrom, BitsBelow;
    forall k | 0 <= k < PAGES_PER_MAPWORD
      ensures TestBit(BitAnd(w, BitOr(BitsFrom(hi), BitsBelow(lo))), k) <==>
              (if lo <= k < hi then false else TestBit(w, k))
    {
      TestAnd(w, BitOr(BitsFrom(hi), BitsBelow(lo)), k);
      TestOr(BitsFrom(hi), BitsBelow(lo), k);
      TestBelow(lo, k);
      TestFrom(hi, k);
    }
  }

  lemma FreeFrom(w: nat, lo: nat)
    requires lo < 64
    ensures WordUpdated(w, BitAnd(w, BitsBelow(lo)), lo, 64, false)
  {
    hide TestBit, BitsBelow;
    forall k | 0 <= k < PAGES_PER_MAPWORD
      ensures TestBit(BitAnd(w, BitsBelow(lo)), k) <==> (if lo <= k < 64 then false else TestBit(w, k))
    {
      TestAnd(w, BitsBelow(lo), k);
      TestBelow(lo, k);
    }
  }

  lemma FreeTo(w: nat, hi: nat)
    requires hi < 64
    ensures WordUpdated(w, BitAnd(w, BitsFrom(hi)), 0, hi, false)
  {
    hide TestBit, BitsFrom;
    forall k | 0 <= k < PAGES_PER_MAPWORD
      ensures TestBit(BitAnd(w, BitsFrom(hi)), k) <==> (if 0 <= k < hi then false else TestBit(w, k))
    {
      TestAnd(w, BitsFrom(hi), k);
      TestFrom(hi, k);
    }
  }

  lemma AllOnes(w: nat)
    ensures WordUpdated(w, BitsFrom(0), 0, 64, true)
  {
    hide TestBit, BitsFrom;
    forall k | 0 <= k < PAGES_PER_MAPWORD
      ensures TestBit(BitsFrom(0), k)
    {
      TestFrom(0, k);
    }
  }

  lemma AllZeros(w: nat)
    ensures WordUpdated(w, 0, 0, 64, false)
  {
    hide TestBit;
    forall k | 0 <= k < PAGES_PER_MAPWORD
      ensures !TestBit(0, k)
    {
      TestZero(k);
    }
  }

  /** Position of page `page` relative to word `j`, clamped to the word. */
  function Clamp(page: nat, j: nat): (k: nat)
    ensures k <= PAGES_PER_MAPWORD
  {
    if page <= PAGES_PER_MAPWORD * j then 0
    else if page >= PAGES_PER_MAPWORD * j + PAGES_PER_MAPWORD then PAGES_PER_MAPWORD
    else page - PAGES_PER_MAPWORD * j
  }

  /** Word `j` of the map after setting pages first .. last to `value`. */
  ghost predicate WordDone(before: seq<nat>, after: seq<nat>, j: nat, first: nat, last: nat, value: bool)
    requires j < |before| && j < |after|
  {
    WordUpdated(before[j], after[j], Clamp(first, j), Clamp(last, j), value)
  }

  lemma WordsDone(before: seq<nat>, after: seq<nat>, first: nat, last: nat, value: bool)
    requires |after| == |before| && first <= last
    requires forall j :: 0 <= j < |before| ==> WordDone(before, after, j, first, last, value)
    ensures Updated(before, after, first, last - first, value)
  {
    hide TestBit;
    forall page: nat | page / PAGES_PER_MAPWORD < |before|
      ensures Allocated(after, page) <==> if first <= page < last then value else Allocated(before, page)
    {
      var j, k := page / PAGES_PER_MAPWORD, page % PAGES_PER_MAPWORD;
      assert WordDone(before, after, j, first, last, value);
      assert first <= page < last <==> Clamp(first, j) <= k < Clamp(last, j);
    }
  }

  /** Words the range does not reach keep their value. */
  lemma WordKept(before: seq<nat>, after: seq<nat>, j: nat, first: nat, last: nat, value: bool)
    requires j < |before| && j < |after| && after[j] == before[j] && first <= last
    requires last <= PAGES_PER_MAPWORD * j || first >= PAGES_PER_MAPWORD * j + PAGES_PER_MAPWORD
    ensures WordDone(before, after, j, first, last, value)
  {}

  /** map_alloc. */
  method MapAlloc(words: array<nat>, first: nat, n: nat)
    requires (first + n) / PAGES_PER_MAPWORD < words.Length
    modifies words
    ensures Updated(old(words[..]), words[..], first, n, true)
  {
    hide WordUpdated, BitsFrom, BitsBelow, BitOr, BitAnd;
    ghost var before := words[..];
    var cur, startOff := first / PAGES_PER_MAPWORD, first % PAGES_PER_MAPWORD;
    var endIdx, endOff := (first + n) / PAGES_PER_MAPWORD, (first + n) % PAGES_PER_MAPWORD;
    ghost var start, last := cur, first + n;
    if cur == endIdx {
      AllocInside(words[cur], startOff, endOff);
      words[cur] := BitOr(words[cur], BitAnd(BitsBelow(endOff), BitsFrom(startOff)));
      assert WordDone(before, words[..], cur, first, last, true);
    } else {
      AllocFrom(words[cur], startOff);
      words[cur] := BitOr(words[cur], BitsFrom(startOff));
      assert WordDone(before, words[..], cur, first, last, true);
      cur := cur + 1;
      while cur < endIdx
        invariant start < cur <= endIdx
        invariant forall j :: start <= j < cur ==> WordDone(before, words[..], j, first, last, true)
        invariant forall j :: 0 <= j < start || cur <= j < words.Length ==> words[j] == before[j]
      {
        AllOnes(words[cur]);
        ghost var w1 := words[..];
        words[cur] := BitsFrom(0);
        assert WordDone(before, words[..], cur, first, last, true);
        WordsFrame(before, w1, words[..], start, cur, first, last, true);
        cur := cur + 1;
      }
      ghost var w1 := words[..];
      AllocTo(words[cur], endOff);
      words[cur] := BitOr(words[cur], BitsBelow(endOff));
      assert WordDone(before, words[..], cur, first, last, true);
      WordsFrame(before, w1, words[..], start, cur, first, last, true);
    }
    MapDone(before, words[..], start, cur, first, last, true);
  }

  lemma WordsFrame(before: seq<nat>, w1: seq<nat>, w2: seq<nat>, start: nat, cur: nat, first: nat, last: nat,
                   value: bool)
    requires start <= cur < |before| == |w1| == |w2| && (forall j :: 0 <= j < |before| && j != cur ==> w2[j] == w1[j])
    requires forall j :: start <= j < cur ==> WordDone(before, w1, j, first, last, value)
    ensures forall j :: start <= j < cur ==> WordDone(before, w2, j, first, last, value)
  {
    forall j | start <= j < cur
      ensures WordDone(before, w2, j, first, last, value)
    {
      assert WordDone(before, w1, j, first, last, value);
    }
  }

  lemma MapDone(before: seq<nat>, after: seq<nat>, start: nat, cur: nat, first: nat, last: nat, value: bool)
    requires |before| == |after| && start == first / PAGES_PER_MAPWORD && first <= last
    requires cur == last / PAGES_PER_MAPWORD < |before|
    requires forall j :: start <= j <= cur ==> WordDone(before, after, j, first, last, value)
    requires forall j :: 0 <= j < start || cur < j < |before| ==> after[j] == before[j]
    ensures Updated(before, after, first, last - first, value)
  {
    hide WordUpdated, Updated;
    forall j | 0 <= j < |before|
      ensures WordDone(before, after, j, first, last, value)
    {
      if j < start || cur < j {
        WordKept(before, after, j, first, last, value);
      }
    }
    WordsDone(before, after, first, last, value);
  }

  /** map_free. */
  method MapFree(words: array<nat>, first: nat, n: nat)
    requires (first + n) / PAGES_PER_MAPWORD < words.Length
    modifies words
    ensures Updated(old(words[..]), words[..], first, n, false)
  {
    hide WordUpdated, BitsFrom, BitsBelow, BitOr, BitAnd;
    ghost var before := words[..];
    var cur, startOff := first / PAGES_PER_MAPWORD, first % PAGES_PER_MAPWORD;
    var endIdx, endOff := (first + n) / PAGES_PER_MAPWORD, (first + n) % PAGES_PER_MAPWORD;
    ghost var start, last := cur, first + n;
    if cur == endIdx {
      FreeInside(words[cur], startOff, endOff);
      words[cur] := BitAnd(words[cur], BitOr(BitsFrom(endOff), BitsBelow(startOff)));
      assert WordDone(before, words[..], cur, first, last, false);
    } else {
      FreeFrom(words[cur], startOff);
      words[cur] := BitAnd(words[cur], BitsBelow(startOff));
      assert WordDone(before, words[..], cur, first, last, false);
      cur := cur + 1;
      while cur != endIdx
        invariant start < cur <= endIdx
        invariant forall j :: start <= j < cur ==> WordDone(before, words[..], j, first, last, false)
        invariant forall j :: 0 <= j < start || cur <= j < words.Length ==> words[j] == before[j]
      {
        AllZeros(words[cur]);
        ghost var w1 := words[..];
        words[cur] := 0;
        assert WordDone(before, words[..], cur, first, last, false);
        WordsFrame(before, w1, words[..], start, cur, first, last, false);
        cur := cur + 1;
      }
      ghost var w1 := words[..];
      FreeTo(words[cur], endOff);
      words[cur] := BitAnd(words[cur], BitsFrom(endOff));
      assert WordDone(before, words[..], cur, first, last, false);
      WordsFrame(before, w1, words[..], start, cur, first, last, false);
    }
    MapDone(before, words[..], start, cur, first, last, false);
  }
}
