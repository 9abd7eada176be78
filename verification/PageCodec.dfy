/** compress_page, add_full_page and xc_compression_uncompress_page, working in place on the cache, the
    output buffer and the destination page. */
module PageCodec {
  import opened Bytes
  import opened PageDelta

  // ----- compress_page ---------------------------------------------------------------------------------------

  lemma {:induction false} StretchIs(was: seq<byte>, now: seq<byte>, k: nat, kind: bool, cap: nat, n: nat)
    requires |was| == |now| == PAGE && n <= cap && k + n <= WORDS
    requires forall j :: k <= j < k + n ==> Changed(was, now, j) == kind
    requires n == cap || k + n == WORDS || Changed(was, now, k + n) != kind
    ensures Stretch(was, now, k, kind, cap) == n
    decreases n
  {
    hide Changed;
    if n > 0 {
      assert Changed(was, now, k) == kind;
      StretchIs(was, now, k + 1, kind, cap - 1, n - 1);
    }
  }

  /** The run that is being counted: words from `start` up to `off`, all alike. */
  ghost predicate Counting(was: seq<byte>, now: seq<byte>, off: nat, start: nat, n: nat, copying: bool)
    requires |was| == |now| == PAGE
  {
    && start <= WORDS && n <= RUN
    && if off == 0 then start == 0 && n == 0
       else if off <= WORDS then n >= 1 && start + n == off && forall j :: start <= j < off ==>
           Changed(was, now, j) == copying
       else start == WORDS
  }

  /** The run is over: the next word is of the other kind, it is full, or the page ends. */
  predicate Ends(n: nat, copying: bool, next: bool) {
    n > 0 && (copying != next || n == RUN)
  }

  lemma CountingNext(was: seq<byte>, now: seq<byte>, off: nat, start: nat, n: nat, copying: bool, next: bool)
    requires |was| == |now| == PAGE && off <= WORDS && Counting(was, now, off, start, n, copying)
    requires if off < WORDS then next == Changed(was, now, off) else next != copying
    ensures if Ends(n, copying, next) then Counting(was, now, off + 1, off, 1, next)
            else Counting(was, now, off + 1, start, n + 1, next)
    ensures Ends(n, copying, next) ==>
      && 1 <= n <= RUN && start + n == off && (n == RUN || off == WORDS || Changed(was, now, off) != copying)
      && forall j :: start <= j < start + n ==> Changed(was, now, j) == copying
  {
    hide Changed;
  }

  lemma CountingStarts(cache: seq<byte>, at: nat, was: seq<byte>, src: seq<byte>)
    requires |src| == PAGE && at + PAGE <= |cache| && was == cache[at..at + PAGE]
    ensures Counting(was, src, 0, 0, 0, false) && SentUpTo(was, src, 0, [], 0)
    ensures CachedAt(cache, cache, at, Partly(was, src, 0))
  {
    hide Changed, Body;
    assert [] + Body(was, src, 0) == Body(was, src, 0);
    assert Partly(was, src, 0) == was;
    assert cache == cache[..at] + was + cache[at + PAGE..];
  }

  /** The words still to be compared are those of the page as it was. */
  lemma CacheWord(cache: seq<byte>, base: seq<byte>, at: nat, was: seq<byte>, src: seq<byte>, off: nat, start: nat)
    requires |was| == |src| == PAGE && start <= off < WORDS && CachedAt(cache, base, at, Partly(was, src, start))
    ensures |base| >= at + PAGE
    ensures (base[at + 4 * off..at + 4 * off + 4] != src[4 * off..4 * off + 4] <==> Changed(was, src, off))
  {
    assert base[at + 4 * off..at + 4 * off + 4] == Partly(was, src, start)[4 * off..4 * off + 4] == Word(was, off);
  }

  lemma CountingBounds(was: seq<byte>, now: seq<byte>, off: nat, start: nat, n: nat, copying: bool)
    requires |was| == |now| == PAGE && Counting(was, now, off, start, n, copying)
    ensures start <= WORDS && n <= RUN && (off <= WORDS ==> start <= off) && (off > WORDS ==> start == WORDS)
  {}

  /** `sent` is the stream of the words before `start`. */
  ghost predicate SentUpTo(was: seq<byte>, now: seq<byte>, start: nat, sent: seq<byte>, skipped: nat)
    requires |was| == |now| == PAGE
  {
    && start <= WORDS && sent + Body(was, now, start) == Body(was, now, 0)
    && skipped <= 4 * start && (skipped == 4 * start <==> was[..4 * start] == now[..4 * start])
  }

  /** The run ends at `off`: it is the next run of the stream. */
  lemma RunEnds(was: seq<byte>, now: seq<byte>, start: nat, n: nat, copying: bool, sent: seq<byte>, skipped: nat)
    requires |was| == |now| == PAGE && 1 <= n <= RUN && start + n <= WORDS
    requires forall j :: start <= j < start + n ==> Changed(was, now, j) == copying
    requires n == RUN || start + n == WORDS || Changed(was, now, start + n) != copying
    requires SentUpTo(was, now, start, sent, skipped)
    ensures copying == Changed(was, now, start)
    ensures |sent + Piece(was, now, start, n)| <= WORST
    ensures SentUpTo(was, now, start + n, sent + Piece(was, now, start, n), if copying then skipped
            else skipped + 4 * n)
  {
    hide Changed, Stretch, Piece;
    assert copying == Changed(was, now, start);
    StretchIs(was, now, start, copying, RUN, n);
    var piece := Piece(was, now, start, n);
    assert Body(was, now, start) == piece + Body(was, now, start + n);
    assert sent + Body(was, now, start) == sent + piece + Body(was, now, start + n);
    BodyBound(was, now, 0);
    SkippedSoFar(was, now, start, n, copying);
  }

  lemma WordInPrefix(p: seq<byte>, k: nat, m: nat)
    requires |p| == PAGE && k < WORDS && 4 * k + 4 <= m <= PAGE
    ensures Word(p, k) == p[..m][4 * k..4 * k + 4]
  {}

  lemma SkippedSoFar(was: seq<byte>, now: seq<byte>, start: nat, n: nat, copying: bool)
    requires |was| == |now| == PAGE && 1 <= n && start + n <= WORDS
    requires forall j :: start <= j < start + n ==> Changed(was, now, j) == copying
    ensures was[..4 * (start + n)] == now[..4 * (start + n)] <==> !copying && was[..4 * start] == now[..4 * start]
  {
    var m := 4 * (start + n);
    assert was[..m] == was[..4 * start] + was[4 * start..m] && now[..m] == now[..4 * start] + now[4 * start..m];
    if copying {
      assert Changed(was, now, start);
      WordInPrefix(was, start, m);
      WordInPrefix(now, start, m);
    } else {
      UnchangedBytes(was, now, start, n);
      assert was[..4 * start] == was[..m][..4 * start] && now[..4 * start] == now[..m][..4 * start];
    }
  }

  lemma HeaderAndWords(before: seq<byte>, middle: seq<byte>, after: seq<byte>, dest: nat, words: seq<byte>)
    requires dest + 1 + |words| <= |before| == |middle| && middle[..dest] == before[..dest]
    requires after == middle[..dest + 1] + words + middle[dest + 1 + |words|..]
    ensures after[..dest] == before[..dest] && after[dest..dest + 1 + |words|] == [middle[dest]] + words
  {
    assert after[..dest] == middle[..dest];
  }

  /** Writes one run at `dest` and brings its words of the cached page up to date. */
  method EmitRun(ghost was: seq<byte>, src: seq<byte>, base: array<byte>, at: nat, out: array<byte>, dest: nat,
                 start: nat, n: nat, copying: bool)
    returns (len: nat)
    requires |was| == |src| == PAGE && base != out && at + PAGE <= base.Length
    requires 1 <= n <= RUN && start + n <= WORDS && copying == Changed(was, src, start)
    requires dest + |Piece(was, src, start, n)| <= out.Length
    modifies base, out
    ensures len == |Piece(was, src, start, n)|
    ensures out[..dest] == old(out[..dest]) && out[dest..dest + len] == Piece(was, src, start, n)
    ensures base[..] == if copying
            then old(base[..at + 4 * start]) + src[4 * start..4 * (start + n)] + old(base[at + 4 * (start + n)..])
            else old(base[..])
  {
    hide Changed;
    ghost var before := out[..];
    if copying {
      out[dest] := n as byte;
      ghost var middle := out[..];
      var words := src[4 * start..4 * (start + n)];
      CopyIn(out, dest + 1, words);
      CopyIn(base, at + 4 * start, words);
      len := 1 + 4 * n;
      HeaderAndWords(before, middle, out[..], dest, words);
    } else {
      out[dest] := SKIPFLAG + n as byte;
      len := 1;
      assert out[..dest] == before[..dest];
    }
  }

  /** The cached page within the cache. */
  ghost predicate CachedAt(before: seq<byte>, after: seq<byte>, at: nat, page: seq<byte>) {
    && |after| == |before| && |page| == PAGE && at + PAGE <= |before|
    && after == before[..at] + page + before[at + PAGE..]
  }

  lemma CacheStep(before: seq<byte>, base: seq<byte>, at: nat, was: seq<byte>, src: seq<byte>, start: nat, n: nat,
                  copying: bool, base': seq<byte>)
    requires |was| == |src| == PAGE && 1 <= n && start + n <= WORDS
    requires forall j :: start <= j < start + n ==> Changed(was, src, j) == copying
    requires CachedAt(before, base, at, Partly(was, src, start))
    requires base' == if copying
             then base[..at + 4 * start] + src[4 * start..4 * (start + n)] + base[at + 4 * (start + n)..] else base
    ensures CachedAt(before, base', at, Partly(was, src, start + n))
  {
    hide Changed;
    if copying {
      assert base' == before[..at] + Partly(was, src, start + n) + before[at + PAGE..];
    } else {
      UnchangedBytes(was, src, start, n);
      assert Partly(was, src, start + n) == Partly(was, src, start);
    }
  }

  /** What the finished loop has: the whole stream, and whether every word was skipped. */
  lemma LoopDone(was: seq<byte>, now: seq<byte>, sent: seq<byte>, skipped: nat)
    requires |was| == |now| == PAGE && SentUpTo(was, now, WORDS, sent, skipped)
    ensures sent == Body(was, now, 0) && (skipped == PAGE <==> was == now) && Partly(was, now, WORDS) == now
    ensures 1 <= |sent|
  {
    hide Body, Changed, Stretch;
    BodyEnds(was, now);
    BodyStarts(was, now);
    assert was[..4 * WORDS] == was && now[..4 * WORDS] == now;
    assert sent + [] == sent;
  }

  lemma Appended(out: seq<byte>, pos: nat, complen: nat, len: nat, kept: seq<byte>, sent: seq<byte>, piece: seq<byte>)
    requires |kept| == pos && |sent| == complen && |piece| == len && pos + complen + len <= |out|
    requires out[..pos + complen] == kept + sent && out[pos + complen..pos + complen + len] == piece
    ensures out[..pos] == kept && out[pos..pos + complen + len] == sent + piece
  {
    assert out[..pos] == out[..pos + complen][..pos];
    assert out[pos..pos + complen] == out[..pos + complen][pos..];
    assert out[pos..pos + complen + len] == out[pos..pos + complen] + out[pos + complen..pos + complen + len];
  }

  lemma CachedIs(before: seq<byte>, after: seq<byte>, at: nat, page: seq<byte>)
    requires CachedAt(before, after, at, page)
    ensures at + PAGE <= |before| && after == before[..at] + page + before[at + PAGE..]
  {}

  /** The loop of compress_page: every run of the page, in order. */
  method EmitRuns(src: seq<byte>, base: array<byte>, at: nat, out: array<byte>, pos: nat)
    returns (complen: nat, skipped: nat)
    requires |src| == PAGE && at + PAGE <= base.Length && base != out && pos + WORST <= out.Length
    modifies base, out
    ensures complen <= WORST && out[..pos] == old(out[..pos])
    ensures SentUpTo(old(base[at..at + PAGE]), src, WORDS, out[pos..pos + complen], skipped)
    ensures CachedAt(old(base[..]), base[..], at, Partly(old(base[at..at + PAGE]), src, WORDS))
  {
    hide Changed, Body, Stretch, Piece, Counting, SentUpTo, CachedAt, Partly;
    ghost var before, kept, was := base[..], out[..pos], base[at..at + PAGE];
    var off: nat, start: nat, runlen: nat, wasCopying := 0, 0, 0, false;
    complen, skipped := 0, 0;
    CountingStarts(before, at, was, src);
    assert out[pos..pos] == [];
    while off <= WORDS
      invariant off <= WORDS + 1 && complen <= WORST && start <= WORDS
      invariant Counting(was, src, off, start, runlen, wasCopying)
      invariant out[..pos] == kept && SentUpTo(was, src, start, out[pos..pos + complen], skipped)
      invariant CachedAt(before, base[..], at, Partly(was, src, start))
    {
      CountingBounds(was, src, off, start, runlen, wasCopying);
      var copying := !wasCopying;
      if off < WORDS {
        CacheWord(before, base[..], at, was, src, off, start);
        copying := base[at + 4 * off..at + 4 * off + 4] != src[4 * off..4 * off + 4];
      }
      CountingNext(was, src, off, start, runlen, wasCopying, copying);
      if runlen > 0 && (wasCopying != copying || runlen == RUN) {
        ghost var sent, cache := out[pos..pos + complen], base[..];
        RunEnds(was, src, start, runlen, wasCopying, sent, skipped);
        var len := EmitRun(was, src, base, at, out, pos + complen, start, runlen, wasCopying);
        CacheStep(before, cache, at, was, src, start, runlen, wasCopying, base[..]);
        Appended(out[..], pos, complen, len, kept, sent, Piece(was, src, start, runlen));
        if !wasCopying {
          skipped := skipped + 4 * runlen;
        }
        complen := complen + len;
        runlen := 0;
        start := off;
      }
      runlen := runlen + 1;
      wasCopying := copying;
      off := off + 1;
    }
    CountingBounds(was, src, off, start, runlen, wasCopying);
  }

  /** compress_page: -1 and nothing done without room for the worst case; otherwise the page's encoding
      is appended at `pos` and the cached page, alone in the cache, becomes the new one. */
  method CompressPage(src: seq<byte>, base: array<byte>, at: nat, out: array<byte>, pos: nat, size: nat)
    returns (r: int)
    requires |src| == PAGE && at + PAGE <= base.Length && base != out && size <= out.Length
    modifies base, out
    ensures r == -1 <==> pos + WORST > size
    ensures r == -1 ==> base[..] == old(base[..]) && out[..] == old(out[..])
    ensures r != -1 ==> r == |Encoded(old(base[at..at + PAGE]), src)| && pos + r <= size
    ensures r != -1 ==> out[..pos] == old(out[..pos]) && out[pos..pos + r] == Encoded(old(base[at..at + PAGE]), src)
    ensures r != -1 ==> base[..] == old(base[..at]) + src + old(base[at + PAGE..])
    ensures r != -1 && old(base[at..at + PAGE]) == src ==> r == 1 && out[pos] == 0
    ensures r != -1 && old(base[at..at + PAGE]) != src ==> InFormat(old(base[at..at + PAGE]), src, 0, out[pos..pos + r])
    ensures r != -1 && old(base[at..at + PAGE]) != src ==>
      r >= 2 && out[pos] != 0 && out[pos] != 128 && (out[pos] < 128 <==> old(base[at..at + 4]) != src[..4])
  {
    hide Body, InFormat, SentUpTo, CachedAt, Partly;
    if pos + WORST > size {
      return -1;
    }
    ghost var before, kept, was := base[..], out[..pos], base[at..at + PAGE];
    var complen, skipped := EmitRuns(src, base, at, out, pos);
    LoopDone(was, src, out[pos..pos + complen], skipped);
    CachedIs(before, base[..], at, src);
    FormatIs(was, src, 0, Body(was, src, 0));
    if was != src {
      FirstByte(was, src);
    }
    assert was[..4] == before[at..at + 4];
    if skipped == PAGE {
      complen := 1;
      out[pos] := 0;
    }
    r := complen;
  }

  // ----- add_full_page ------------------------------------------------------------------------------------------

  /** add_full_page: the page behind a FULL marker, and a copy of it in the cache unless it is raw. */
  method AddFullPage(src: seq<byte>, base: array<byte>, cached: bool, at: nat, out: array<byte>, pos: nat, size: nat)
    returns (r: int)
    requires |src| == PAGE && base != out && size <= out.Length && (cached ==> at + PAGE <= base.Length)
    modifies base, out
    ensures r == -1 <==> pos + FULL > size
    ensures r == -1 ==> base[..] == old(base[..]) && out[..] == old(out[..])
    ensures r != -1 ==> r == FULL && out[..pos] == old(out[..pos]) && out[pos..pos + FULL] == Whole(src)
    ensures r != -1 ==> r == 4097 && out[pos] == 128 && out[pos + 1..pos + 4097] == src
    ensures r != -1 ==> base[..] == if cached then old(base[..at]) + src + old(base[at + PAGE..]) else old(base[..])
  {
    if pos + FULL > size {
      return -1;
    }
    if cached {
      CopyIn(base, at, src);
    }
    ghost var kept := out[..pos];
    out[pos] := SKIPFLAG;
    assert out[..pos] == kept;
    ghost var middle := out[..];
    CopyIn(out, pos + 1, src);
    assert out[..pos] == middle[..pos] && out[pos] == middle[pos];
    assert out[pos..pos + FULL] == [out[pos]] + out[pos + 1..pos + FULL];
    r := FULL;
  }

  // ----- xc_compression_uncompress_page -----------------------------------------------------------------------------

  lemma RunRead(buf: seq<byte>, pos: nat, page: seq<byte>, at: nat)
    requires |page| == PAGE && pos < |buf| && at < PAGE
    ensures var n, d := 4 * RunLength(buf[pos]), DecodeRuns(buf, pos, page, at);
      if n == 0 then d == Bad(page)
      else if buf[pos] >= SKIPFLAG then d == DecodeRuns(buf, pos + 1, page, at + n)
      else if pos + 1 + n > |buf| || at + n > PAGE then d == Bad(page)
      else d == DecodeRuns(buf, pos + 1 + n, page[..at] + buf[pos + 1..pos + 1 + n] + page[at + n..], at + n)
  {}

  lemma RunsOver(buf: seq<byte>, pos: nat, page: seq<byte>, at: nat)
    requires |page| == PAGE && pos <= |buf| && (pos == |buf| || at >= PAGE)
    ensures DecodeRuns(buf, pos, page, at) == if at == PAGE then Good(page, pos) else Bad(page)
  {}

  /** xc_compression_uncompress_page: decodes onto `dest`, or fails having overwritten part of it. */
  method UncompressPage(buf: seq<byte>, pos: nat, dest: array<byte>) returns (ok: bool, next: nat)
    requires dest.Length == PAGE
    modifies dest
    ensures var d := Decode(buf, pos, old(dest[..]));
            dest[..] == d.page && ok == d.Good? && (ok ==> next == d.pos) && (!ok ==> next == pos)
    ensures ok ==> pos < next <= |buf|
    ensures pos < |buf| && buf[pos] == 0 ==> ok && next == pos + 1 && dest[..] == old(dest[..])
    ensures pos < |buf| && buf[pos] == 128 ==>
      if pos + 4097 <= |buf| then ok && next == pos + 4097 && dest[..] == buf[pos + 1..pos + 4097]
      else !ok && dest[..] == old(dest[..])
    ensures pos < |buf| && buf[pos] != 0 && buf[pos] != 128 ==>
      && (ok ==> Runs(buf[pos..next], 1024))
      && (forall q :: pos < q <= |buf| && Runs(buf[pos..q], 1024) ==> ok && next == q)
  {
    next := pos;
    if pos >= |buf| {
      return false, pos;
    }
    if buf[pos] == 0 {
      return true, pos + 1;
    }
    if buf[pos] == SKIPFLAG {
      if pos + FULL > |buf| {
        return false, pos;
      }
      CopyIn(dest, 0, buf[pos + 1..pos + FULL]);
      return true, pos + FULL;
    }
    ghost var was := dest[..];
    ok, next := UncompressRuns(buf, pos, dest);
    forall q | pos < q <= |buf|
      ensures ok && next == q <==> Runs(buf[pos..q], 1024)
    {
      AcceptedAre(buf, pos, was, WORDS, q);
    }
  }

  method UncompressRuns(buf: seq<byte>, pos: nat, dest: array<byte>) returns (ok: bool, next: nat)
    requires dest.Length == PAGE && pos < |buf|
    modifies dest
    ensures var d := DecodeRuns(buf, pos, old(dest[..]), 0);
            dest[..] == d.page && ok == d.Good? && (ok ==> next == d.pos) && (!ok ==> next == pos)
  {
    hide DecodeRuns, RunLength;
    ghost var goal := DecodeRuns(buf, pos, dest[..], 0);
    var p: nat, at: nat := pos, 0;
    while at < PAGE && p < |buf|
      invariant pos <= p <= |buf| && goal == DecodeRuns(buf, p, dest[..], at)
      decreases |buf| - p
    {
      RunRead(buf, p, dest[..], at);
      var len := 4 * RunLength(buf[p]);
      if len == 0 {
        return false, pos;
      }
      if buf[p] < SKIPFLAG {
        if p + 1 + len > |buf| || at + len > PAGE {
          return false, pos;
        }
        CopyIn(dest, at, buf[p + 1..p + 1 + len]);
        p := p + 1 + len;
      } else {
        p := p + 1;
      }
      at := at + len;
    }
    RunsOver(buf, p, dest[..], at);
    if at != PAGE {
      return false, pos;
    }
    return true, p;
  }
}
