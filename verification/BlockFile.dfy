/** blkfront_posix_rwop on an open block device: the disk as a flat array of bytes. */
module BlockFile {
  import opened Arith
  import opened Bytes
  import opened Blkfront

  datatype Mode = ReadOnly | WriteOnly | ReadWrite

  datatype Outcome = Moved(n: nat) | Efault | Eacces | Enospc

  /** What the call comes to: the errors in the order they are looked for, else how much it moves. */
  function Expected(count: nat, noBuffer: bool, write: bool, readonly: bool, mode: Mode, offset: nat,
                    size: nat): Outcome
  {
    if count == 0 then Moved(0)
    else if noBuffer then Efault
    else if write then
      if readonly || mode == ReadOnly then Eacces
      else if offset + count > size then Enospc
      else Moved(count)
    else if offset >= size then Moved(0)
    else if offset + count > size then Moved(size - offset)
    else Moved(count)
  }

  class File {
    /** Sector size, and the disk's bytes. */
    const bs: nat
    const disk: array<byte>
    const readonly: bool
    const mode: Mode
    var offset: nat

    ghost predicate Valid() {
      SectorSize(bs) && Aligned(disk.Length, bs)
    }

    /** A request that blkfront_aio accepts and the backend can serve. */
    ghost predicate RequestOk(at: nat, n: nat, addr: nat)
      requires Valid()
    {
      && Aligned(at, bs) && Aligned(n, bs) && Aligned(addr, bs) && n > 0
      && Segments(addr, n) <= MAX_SEGMENTS && at + n <= disk.Length
    }

    /** blkfront_read of n bytes at `at` into a buffer at address `addr`. */
    method DeviceRead(at: nat, n: nat, addr: nat, dst: array<byte>, into: nat)
      requires Valid() && RequestOk(at, n, addr) && dst != disk && into + n <= dst.Length
      modifies dst
      ensures dst[..] == Splice(old(dst[..]), into, disk[at..at + n])
    {
      hide Aligned, Segments;
      var data := CopyOut(disk, at, n);
      CopyIn(dst, into, data);
    }

    /** blkfront_write. */
    method DeviceWrite(at: nat, n: nat, addr: nat, src: array<byte>, from: nat)
      requires Valid() && RequestOk(at, n, addr) && src != disk && from + n <= src.Length
      modifies disk
      ensures disk[..] == Splice(old(disk[..]), at, src[from..from + n])
    {
      hide Aligned, Segments;
      var data := CopyOut(src, from, n);
      CopyIn(disk, at, data);
    }

    /** A turn of the loop can be served: straight, or through copybuf, which then is there. */
    ghost predicate TurnReady(at: nat, blkoff: nat, n: nat, addr: nat, direct: bool, copybuf: array?<byte>,
                              copyAddr: nat)
      requires Valid()
    {
      && Aligned(at, bs) && n > 0
      && if direct then blkoff == 0 && RequestOk(at, n, addr)
         else
           && copybuf != null && copybuf.Length == bs && Aligned(copyAddr, bs)
           && blkoff + n <= bs && at + bs <= disk.Length
    }

    method ReadTurn(buf: array<byte>, done: nat, addr: nat, at: nat, blkoff: nat, n: nat, direct: bool,
                    copybuf: array?<byte>, copyAddr: nat)
      requires Valid() && TurnReady(at, blkoff, n, addr, direct, copybuf, copyAddr)
      requires done + n <= buf.Length && buf != disk && copybuf != disk && copybuf != buf
      modifies buf, copybuf
      ensures at + blkoff + n <= disk.Length
      ensures buf[..] == Splice(old(buf[..]), done, disk[at + blkoff..at + blkoff + n])
    {
      hide Aligned, Segments, SectorSize;
      if direct {
        DeviceRead(at, n, addr, buf, done);
      } else {
        BlockRequest(copyAddr);
        DeviceRead(at, bs, copyAddr, copybuf, 0);
        assert copybuf[..] == disk[at..at + bs];
        var data := CopyOut(copybuf, blkoff, n);
        assert data == disk[at..at + bs][blkoff..blkoff + n] == disk[at + blkoff..at + blkoff + n];
        CopyIn(buf, done, data);
      }
    }

    lemma BlockRequest(copyAddr: nat)
      requires Valid() && Aligned(copyAddr, bs)
      ensures Aligned(bs, bs) && bs > 0 && Segments(copyAddr, bs) <= MAX_SEGMENTS
    {
      AlignedSelf(bs);
      OneSector(copyAddr, bs);
    }

    method WriteTurn(buf: array<byte>, done: nat, addr: nat, at: nat, blkoff: nat, n: nat, direct: bool,
                     copybuf: array?<byte>, copyAddr: nat)
      requires Valid() && TurnReady(at, blkoff, n, addr, direct, copybuf, copyAddr)
      requires done + n <= buf.Length && buf != disk && copybuf != disk && copybuf != buf
      modifies disk, copybuf
      ensures at + blkoff + n <= disk.Length
      ensures disk[..] == Splice(old(disk[..]), at + blkoff, buf[done..done + n])
    {
      hide Aligned, Segments, SectorSize, Splice;
      if direct {
        DeviceWrite(at, n, addr, buf, done);
      } else {
        BlockRequest(copyAddr);
        ghost var before := disk[..];
        if blkoff != 0 || n < bs {
          ghost var stale := copybuf[..];
          DeviceRead(at, bs, copyAddr, copybuf, 0);
          SpliceAll(stale, before[at..at + bs]);
        }
        var data := CopyOut(buf, done, n);
        ghost var was := copybuf[..];
        CopyIn(copybuf, blkoff, data);
        CopiedIn(was, copybuf[..], before[at..at + bs], blkoff, data);
        DeviceWrite(at, bs, copyAddr, copybuf, 0);
        assert copybuf[0..bs] == copybuf[..];
        ReadModifyWrite(before, at, bs, blkoff, data);
      }
    }

    lemma Begins(first: nat, skip: nat, total: nat, addr: nat)
      requires Valid() && 0 < total && skip < bs && Aligned(first, bs) && first + skip + total <= disk.Length
      ensures InStep(first, skip, first + skip, 0, total, addr, LinesUp(addr, skip, bs), disk.Length, bs)
    {
      SectorFits(first, disk.Length, bs);
    }

    lemma Ready(at: nat, blkoff: nat, start: nat, done: nat, count: nat, addr: nat, alignedBuf: bool,
                copybuf: array?<byte>, copyAddr: nat)
      requires Valid() && count > 0 && blkoff < bs && Aligned(copyAddr, bs)
      requires InStep(at, blkoff, start, done, count, addr, alignedBuf, disk.Length, bs)
      requires copybuf != null ==> copybuf.Length == bs
      requires copybuf == null ==> alignedBuf && blkoff == 0 && Aligned(count, bs)
      ensures var n := TurnBytes(count, blkoff, alignedBuf, addr, bs);
        && 0 < n <= count && at + blkoff == start + done && start + done + n <= disk.Length
        && TurnReady(at, blkoff, n, addr, Direct(n, alignedBuf, bs), copybuf, copyAddr)
        && InStep(at + (if n < bs then bs else n), 0, start, done + n, count - n, addr + n, alignedBuf, disk.Length, bs)
        && (copybuf == null ==> Aligned(count - n, bs))
    {
      TurnOk(count, blkoff, alignedBuf, addr, bs);
      TurnKeepsStep(at, blkoff, start, done, count, addr, alignedBuf, disk.Length, bs);
      hide Aligned, Segments, SectorSize, TurnBytes;
    }

    /** The loop of blkfront_posix_rwop: `count` bytes from the block at `first`, `blkoff` into it. */
    method Transfer(buf: array<byte>, addr: nat, total: nat, write: bool, first: nat, skip: nat, copyAddr: nat)
      requires Valid() && buf != disk && 0 < total <= buf.Length && Aligned(copyAddr, bs)
      requires skip < bs && Aligned(first, bs) && first + skip + total <= disk.Length
      modifies buf, disk
      ensures write ==> buf[..] == old(buf[..]) && disk[..] == Splice(old(disk[..]), first + skip, buf[..total])
      ensures !write ==> disk[..] == old(disk[..])
      ensures !write ==> buf[..] == Splice(old(buf[..]), 0, disk[first + skip..first + skip + total])
    {
      hide Aligned, Segments, SectorSize, TurnBytes, InStep, Splice;
      ghost var start, disk0, buf0 := first + skip, disk[..], buf[..];
      var alignedBuf := LinesUp(addr, skip, bs);
      var copybuf: array?<byte> := null;
      if !alignedBuf || skip != 0 || !Aligned(total, bs) {
        copybuf := new byte[bs];
      }
      var at: nat, blkoff: nat, done: nat, count: nat := first, skip, 0, total;
      Begins(first, skip, total, addr);
      Untouched(disk0, buf0, start);
      while count > 0
        invariant done + count == total && blkoff < bs && fresh({copybuf} - {null})
        invariant InStep(at, blkoff, start, done, count, addr + done, alignedBuf, disk.Length, bs)
        invariant copybuf != null ==> copybuf.Length == bs
        invariant copybuf == null ==> alignedBuf && blkoff == 0 && Aligned(count, bs)
        invariant write ==> buf[..] == buf0 && disk[..] == Splice(disk0, start, buf0[..done])
        invariant !write ==> disk[..] == disk0 && buf[..] == Splice(buf0, 0, disk0[start..start + done])
      {
        var n := TurnBytes(count, blkoff, alignedBuf, addr + done, bs);
        Ready(at, blkoff, start, done, count, addr + done, alignedBuf, copybuf, copyAddr);
        if write {
          WriteTurn(buf, done, addr + done, at, blkoff, n, Direct(n, alignedBuf, bs), copybuf, copyAddr);
          WroteMore(disk0, start, buf0, done, n);
        } else {
          ReadTurn(buf, done, addr + done, at, blkoff, n, Direct(n, alignedBuf, bs), copybuf, copyAddr);
          ReadMore(buf0, disk0, start, done, n);
        }
        at := at + if n < bs then bs else n;
        blkoff := 0;
        done, count := done + n, count - n;
      }
    }

    /** blkfront_posix_rwop.  The start of the transfer is computed in 32 bits, so it works at the file
        offset modulo 2^32. */
    method RwOp(buf: array?<byte>, addr: nat, count: nat, write: bool, copyAddr: nat) returns (r: Outcome)
      requires Valid() && buf != disk && (buf != null ==> count <= buf.Length) && Aligned(copyAddr, bs)
      modifies buf, disk, this`offset
      ensures r == Expected(count, buf == null, write, readonly, mode, old(offset), disk.Length)
      ensures r == Efault <==> count > 0 && buf == null
      ensures count == 0 ==> r == Moved(0)
      ensures count > 0 && buf != null && !write ==>
        r.Moved? && r.n <= count && (r.n == count || offset >= disk.Length)
      ensures count > 0 && buf != null && write ==>
        && (r == Moved(count) <==> !readonly && mode != ReadOnly && old(offset) + count <= disk.Length)
        && (r == Eacces <==> readonly || mode == ReadOnly)
        && (r != Eacces && r != Moved(count) ==> r == Enospc)
      ensures r.Moved? ==> offset == old(offset) + r.n && (r.n > 0 ==> old(offset) % WORD + r.n <= disk.Length)
      ensures !r.Moved? ==> offset == old(offset)
      ensures !(r.Moved? && write && r.n > 0) ==> disk[..] == old(disk[..])
      ensures !(r.Moved? && !write && r.n > 0) && buf != null ==> buf[..] == old(buf[..])
      ensures r.Moved? && write && r.n > 0 ==> disk[..] == Splice(old(disk[..]), old(offset) % WORD, old(buf[..count]))
      ensures r.Moved? && !write && r.n > 0 ==>
        buf[..] == Splice(old(buf[..]), 0, disk[old(offset) % WORD..old(offset) % WORD + r.n])
    {
      hide Aligned, Segments, SectorSize, Splice, BlockOf, WithinBlock;
      if count == 0 {
        return Moved(0);
      }
      if buf == null {
        return Efault;
      }
      var n := count;
      if write {
        if readonly || (mode != ReadWrite && mode != WriteOnly) {
          return Eacces;
        }
        if offset + count > disk.Length {
          return Enospc;
        }
      } else {
        if offset >= disk.Length {
          return Moved(0);
        }
        if offset + count > disk.Length {
          n := disk.Length - offset;
        }
      }
      StartsAt(offset, bs);
      Transfer(buf, addr, n, write, BlockOf(offset, bs), WithinBlock(offset, bs), copyAddr);
      offset := offset + n;
      r := Moved(n);
    }

    /** Writing, seeking back and reading: exactly the data comes back, and no other byte of the disk has
        changed, for every offset below 2^32. */
    method WriteThenRead(data: array<byte>, addr: nat, back: array<byte>, backAddr: nat, copyAddr: nat)
      requires Valid() && Aligned(copyAddr, bs) && data != disk && back != disk && data != back
      requires !readonly && mode != ReadOnly && offset < WORD && offset + data.Length <= disk.Length
      requires back.Length == data.Length
      modifies data, back, disk, this`offset
      ensures back[..] == data[..] == old(data[..]) && offset == old(offset) + data.Length
      ensures disk[..] == old(disk[..offset]) + data[..] + old(disk[offset + data.Length..])
    {
      hide Aligned, SectorSize;
      ghost var d0, b0 := disk[..], data[..];
      var start, n := offset, data.Length;
      assert start % WORD == start;
      var r := RwOp(data, addr, n, true, copyAddr);
      assert b0[..n] == b0;
      if n == 0 {
        assert d0 == d0[..start] + b0 + d0[start..];
      }
      assert disk[..] == d0[..start] + b0 + d0[start + n..];
      offset := start;
      r := RwOp(back, backAddr, n, false, copyAddr);
      if n > 0 {
        SpliceAll(back[..], disk[start..start + n]);
      }
    }
  }

  lemma SpliceAll(b: seq<byte>, data: seq<byte>)
    requires |data| == |b|
    ensures Splice(b, 0, data) == data
  {}

  lemma CopiedIn(was: seq<byte>, now: seq<byte>, block: seq<byte>, off: nat, data: seq<byte>)
    requires off + |data| <= |was| == |block| && now == was[..off] + data + was[off + |data|..]
    requires was == block || (off == 0 && |data| == |block|)
    ensures now == Splice(block, off, data)
  {}

  lemma WroteMore(d: seq<byte>, start: nat, data: seq<byte>, done: nat, n: nat)
    requires done + n <= |data| && start + done + n <= |d|
    ensures Splice(Splice(d, start, data[..done]), start + done, data[done..done + n])
            == Splice(d, start, data[..done + n])
  {
    SpliceNext(d, start, data[..done + n], done, n);
    assert data[..done + n][..done] == data[..done];
    assert data[..done + n][done..done + n] == data[done..done + n];
  }

  lemma ReadMore(b: seq<byte>, d: seq<byte>, start: nat, done: nat, n: nat)
    requires done + n <= |b| && start + done + n <= |d|
    ensures Splice(Splice(b, 0, d[start..start + done]), done, d[start + done..start + done + n])
            == Splice(b, 0, d[start..start + done + n])
  {
    var data := d[start..start + done + n];
    SpliceNext(b, 0, data, done, n);
    assert data[..done] == d[start..start + done] && data[done..done + n] == d[start + done..start + done + n];
  }

  lemma Untouched(d: seq<byte>, b: seq<byte>, start: nat)
    requires start <= |d|
    ensures Splice(d, start, b[..0]) == d && Splice(b, 0, d[start..start]) == b
  {
    SpliceNothing(d, start);
    SpliceNothing(b, 0);
    assert b[..0] == [] && d[start..start] == [];
  }

  function Slice(d: seq<byte>, at: nat, n: nat): seq<byte>
    requires at + n <= |d|
  {
    d[at..at + n]
  }

  /** The bytes written are the bytes meant, whatever the disk and the data, exactly when the file
      offset is below 2^32. */
  lemma RightPlace(offset: nat)
    ensures offset < WORD <==>
      forall d, data :: offset + |data| <= |d| ==> Splice(d, offset % WORD, data) == Splice(d, offset, data)
  {
    if offset >= WORD {
      var d, data := seq(offset + 1, i => 0 as byte), [1 as byte];
      assert Splice(d, offset, data)[offset] == 1 && Splice(d, offset % WORD, data)[offset] == 0;
    }
  }

  /** And so for the bytes read. */
  lemma RightRead(offset: nat)
    ensures offset % WORD <= offset
    ensures offset < WORD <==>
      forall d, n :: 0 <= n && offset + n <= |d| ==> Slice(d, offset % WORD, n) == Slice(d, offset, n)
  {
    if offset >= WORD {
      var d := seq(offset + 1, i => if i == offset then 1 as byte else 0 as byte);
      assert Slice(d, offset, 1)[0] == 1 && Slice(d, offset % WORD, 1)[0] == 0;
    }
  }
}
