/** blkfront.c: byte reads and writes at any offset, through whole-sector requests. */
module Blkfront {
  import opened Arith
  import opened Bytes

  const PAGE_SIZE: nat := 4096
  const MAX_SEGMENTS: nat := 11
  /** blknum * blocksize is an unsigned int. */

  /** Sector sizes: powers of two from 512 bytes to a page. */
  predicate SectorSize(bs: nat) {
    bs == 512 || bs == 1024 || bs == 2048 || bs == 4096
  }

  predicate Aligned(x: nat, bs: nat)
    requires SectorSize(bs)
  {
    x % bs == 0
  }

  // ----- Arithmetic of sectors --------------------------------------------------------------------------------

  lemma AlignedSum(x: nat, y: nat, bs: nat)
    requires SectorSize(bs) && Aligned(x, bs)
    ensures Aligned(x + y, bs) <==> Aligned(y, bs)
  {
    assert x == x / bs * bs;
    AddMultiple(y, bs, x / bs);
  }

  lemma AlignedSelf(bs: nat)
    requires SectorSize(bs)
    ensures Aligned(0, bs) && Aligned(bs, bs) && Aligned(10 * PAGE_SIZE, bs) && Aligned(11 * PAGE_SIZE, bs)
    ensures Aligned(WORD, bs)
  {
    if bs == 512 {} else if bs == 1024 {} else if bs == 2048 {} else {}
  }

  /** A sector that starts before the end of a whole number of sectors ends within it. */
  lemma SectorFits(at: nat, size: nat, bs: nat)
    requires SectorSize(bs) && Aligned(at, bs) && Aligned(size, bs) && at < size
    ensures at + bs <= size
  {
    var a, s := at / bs, size / bs;
    assert at == a * bs && size == s * bs;
    if s <= a {
      Mono(s, a, bs);
    } else {
      Mono(a + 1, s, bs);
    }
  }

  lemma SmallAligned(x: nat, bs: nat)
    requires SectorSize(bs) && Aligned(x, bs) && x > 0
    ensures x >= bs
  {
    if bs == 512 {} else if bs == 1024 {} else if bs == 2048 {} else {}
  }

  function RoundDown(x: nat, bs: nat): (r: nat)
    requires SectorSize(bs)
    ensures Aligned(r, bs) && r <= x < r + bs
  {
    RoundDownOk(x, bs);
    x / bs * bs
  }

  lemma RoundDownOk(x: nat, bs: nat)
    requires SectorSize(bs)
    ensures x / bs * bs <= x < x / bs * bs + bs && Aligned(x / bs * bs, bs)
  {
    assert x == x / bs * bs + x % bs;
    AddMultiple(0, bs, x / bs);
  }

  /** Where the code starts: blknum * blocksize as an unsigned int, and the offset within that block. */
  function BlockOf(offset: nat, bs: nat): nat
    requires SectorSize(bs)
  {
    (offset / bs % WORD) * bs % WORD
  }

  function WithinBlock(offset: nat, bs: nat): nat
    requires SectorSize(bs)
  {
    offset % bs
  }

  lemma StartsAt(offset: nat, bs: nat)
    requires SectorSize(bs)
    ensures Aligned(BlockOf(offset, bs), bs) && WithinBlock(offset, bs) < bs
    ensures BlockOf(offset, bs) + WithinBlock(offset, bs) == offset % WORD <= offset
  {
    var k, r := offset / bs, offset % bs;
    var first := k * bs % WORD;
    assert k * bs == offset - r;
    AlignedSelf(bs);
    assert WORD == WORD / bs * bs;
    ModMod(k * bs, bs, WORD, WORD / bs);
    AddMultiple(0, bs, k);
    SectorFits(first, WORD, bs);
    Unique(offset, WORD, k * bs / WORD, first + r);
    WrapsProduct(k, bs);
  }

  lemma WrapsProduct(k: nat, bs: nat)
    ensures (k % WORD) * bs % WORD == k * bs % WORD
  {
    var q, r := k / WORD, k % WORD;
    assert k == q * WORD + r;
    assert k * bs == r * bs + (q * bs) * WORD;
    AddMultiple(r * bs, WORD, q * bs);
  }

  // ----- Segments of a request ------------------------------------------------------------------------------------

  /** Pages that `n` bytes at address `addr` touch. */
  function Segments(addr: nat, n: nat): nat {
    (addr + n + PAGE_SIZE - 1) / PAGE_SIZE - addr / PAGE_SIZE
  }

  /** Segment j of a request: a page, and the first and last 512-byte sectors of it. */
  datatype Segment = Segment(page: nat, first: nat, last: nat)

  function SegmentAt(addr: nat, n: nat, j: nat): Segment
    requires n > 0
  {
    var count := Segments(addr, n);
    Segment(addr / PAGE_SIZE + j,
            if j == 0 then addr % PAGE_SIZE / 512 else 0,
            if j + 1 == count then (addr + n - 1) % PAGE_SIZE / 512 else PAGE_SIZE / 512 - 1)
  }

  function From(s: Segment): nat {
    PAGE_SIZE * s.page + 512 * s.first
  }

  function To(s: Segment): nat {
    PAGE_SIZE * s.page + 512 * (s.last + 1)
  }

  /** The segments are the buffer: they start at it, each goes on where the last one stopped, within
      one page, and the last stops at its end. */
  lemma SegmentsCover(addr: nat, n: nat, j: nat)
    requires n > 0 && addr % 512 == 0 && n % 512 == 0 && j < Segments(addr, n)
    ensures var s := SegmentAt(addr, n, j); s.first <= s.last < PAGE_SIZE / 512
    ensures j == 0 ==> From(SegmentAt(addr, n, j)) == addr
    ensures j > 0 ==> From(SegmentAt(addr, n, j)) == To(SegmentAt(addr, n, j - 1))
    ensures j + 1 == Segments(addr, n) ==> To(SegmentAt(addr, n, j)) == addr + n
  {}

  /** One transfer fits one request, wherever its buffer lies. */
  lemma SegmentLimit(addr: nat, n: nat)
    requires n <= (if addr % PAGE_SIZE == 0 then MAX_SEGMENTS else MAX_SEGMENTS - 1) * PAGE_SIZE
    ensures Segments(addr, n) <= MAX_SEGMENTS
  {}

  lemma OneSector(addr: nat, bs: nat)
    requires SectorSize(bs)
    ensures Segments(addr, bs) <= 2
  {}

  // ----- Splicing bytes ----------------------------------------------------------------------------------------------

  ghost function Splice(d: seq<byte>, at: nat, data: seq<byte>): (r: seq<byte>)
    requires at + |data| <= |d|
    ensures |r| == |d|
  {
    d[..at] + data + d[at + |data|..]
  }

  lemma SpliceNext(d: seq<byte>, at: nat, data: seq<byte>, done: nat, n: nat)
    requires done + n <= |data| && at + |data| <= |d|
    ensures Splice(Splice(d, at, data[..done]), at + done, data[done..done + n]) == Splice(d, at, data[..done + n])
  {}

  /** Reading a block, changing part of it and writing it back changes that part. */
  lemma ReadModifyWrite(d: seq<byte>, block: nat, bs: nat, off: nat, data: seq<byte>)
    requires block + bs <= |d| && off + |data| <= bs
    ensures Splice(d, block, Splice(d[block..block + bs], off, data)) == Splice(d, block + off, data)
  {}

  lemma SpliceNothing(d: seq<byte>, at: nat)
    requires at <= |d|
    ensures Splice(d, at, []) == d
  {}

  // ----- One turn of the loop ------------------------------------------------------------------------

  /** Bytes moved by a turn with `count` to go, `blkoff` into a block, to a buffer at `addr`. */
  function TurnBytes(count: nat, blkoff: nat, alignedBuf: bool, addr: nat, bs: nat): nat
    requires SectorSize(bs) && blkoff < bs
  {
    if !alignedBuf || blkoff != 0 || count < bs then
      if count < bs - blkoff then count else bs - blkoff
    else
      var limit := (if addr % PAGE_SIZE == 0 then MAX_SEGMENTS else MAX_SEGMENTS - 1) * PAGE_SIZE;
      if count > limit then limit else RoundDown(count, bs)
  }

  /** Straight to or from the caller's buffer, without copybuf. */
  predicate Direct(bytes: nat, alignedBuf: bool, bs: nat) {
    alignedBuf && bytes >= bs
  }

  /** The buffer will be sector aligned once the current block is done. */
  predicate LinesUp(addr: nat, blkoff: nat, bs: nat)
    requires SectorSize(bs) && blkoff < bs
  {
    Aligned(addr + (bs - blkoff), bs)
  }

  lemma TurnOk(count: nat, blkoff: nat, alignedBuf: bool, addr: nat, bs: nat)
    requires SectorSize(bs) && blkoff < bs && count > 0 && (alignedBuf ==> LinesUp(addr, blkoff, bs))
    ensures var n := TurnBytes(count, blkoff, alignedBuf, addr, bs);
      && 0 < n <= count
      && (Direct(n, alignedBuf, bs) ==>
            blkoff == 0 && Aligned(n, bs) && Aligned(addr, bs) && Segments(addr, n) <= MAX_SEGMENTS)
      && (!Direct(n, alignedBuf, bs) ==> blkoff + n <= bs && (blkoff + n == bs || n == count))
      && (alignedBuf && blkoff == 0 && Aligned(count, bs) ==> Direct(n, alignedBuf, bs))
  {
    hide RoundDown, Aligned, Segments;
    var n := TurnBytes(count, blkoff, alignedBuf, addr, bs);
    AlignedSelf(bs);
    if !(!alignedBuf || blkoff != 0 || count < bs) {
      AlignedSum(bs, addr, bs);
      SegmentLimit(addr, n);
      if n == RoundDown(count, bs) && n < bs {
        AlignedZero(n, bs);
      }
    } else if alignedBuf && blkoff == 0 && Aligned(count, bs) {
      SmallAligned(count, bs);
    }
  }

  lemma AlignedZero(n: nat, bs: nat)
    requires SectorSize(bs) && Aligned(n, bs) && n < bs
    ensures n == 0
  {}

  /** Block position, bytes done and bytes to go fit together. */
  ghost predicate InStep(at: nat, blkoff: nat, start: nat, done: nat, count: nat, addr: nat, alignedBuf: bool,
                         size: nat, bs: nat)
    requires SectorSize(bs)
  {
    && blkoff < bs && Aligned(at, bs)
    && (count > 0 ==> at + blkoff == start + done && at + bs <= size && (alignedBuf ==> LinesUp(addr, blkoff, bs)))
    && start + done + count <= size
  }

  lemma TurnKeepsStep(at: nat, blkoff: nat, start: nat, done: nat, count: nat, addr: nat, alignedBuf: bool, size: nat,
                      bs: nat)
    requires SectorSize(bs) && Aligned(size, bs) && count > 0
    requires InStep(at, blkoff, start, done, count, addr, alignedBuf, size, bs)
    ensures var n := TurnBytes(count, blkoff, alignedBuf, addr, bs);
      && n <= count
      && InStep(at + (if n < bs then bs else n), 0, start, done + n, count - n, addr + n, alignedBuf, size, bs)
      && (blkoff == 0 && alignedBuf && Aligned(count, bs) ==> Aligned(count - n, bs))
  {
    hide RoundDown, Aligned, Segments, TurnBytes;
    TurnOk(count, blkoff, alignedBuf, addr, bs);
    var n := TurnBytes(count, blkoff, alignedBuf, addr, bs);
    AlignedSelf(bs);
    var step := if n < bs then bs else n;
    assert Aligned(step, bs) by {
      if n > bs {
        assert Direct(n, alignedBuf, bs);
      }
    }
    AlignedSum(at, step, bs);
    if count - n > 0 {
      SectorFits(at + step, size, bs);
      if alignedBuf {
        AlignedSum(addr + (bs - blkoff), bs, bs);
        if Direct(n, alignedBuf, bs) {
          AlignedSum(n, addr + bs, bs);
          assert addr + n + (bs - 0) == n + (addr + bs);
        } else {
          assert addr + n + (bs - 0) == addr + (bs - blkoff) + bs;
        }
      }
    }
    if blkoff == 0 && alignedBuf && Aligned(count, bs) {
      AlignedSum(n, count - n, bs);
    }
  }
}
