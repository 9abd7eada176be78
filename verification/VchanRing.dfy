/** do_send and do_recv on the shared page itself: two memcpys split at the end of the ring, and free
    running 32-bit indexes.  Between calls the ring is a queue of bytes. */
module VchanRing {
  import opened Arith
  import opened Bytes
  import opened Vchan

  /** Slot of the i-th byte from index `from`. */
  function SlotFrom(from: nat, i: nat, size: nat): (slot: nat)
    requires size >= 1
    ensures slot < size
  {
    Slot(from + i, size)
  }

  /** The bytes from index `from` on, read round the ring. */
  ghost function Window(ring: seq<byte>, from: nat, n: nat): (w: seq<byte>)
    requires |ring| >= 1
    ensures |w| == n
    ensures forall i :: 0 <= i < n ==> w[i] == ring[SlotFrom(from, i, |ring|)]
  {
    seq(n, i requires 0 <= i => ring[SlotFrom(from, i, |ring|)])
  }

  /** Writing `data` at index `from` round the ring. */
  ghost predicate Laid(before: seq<byte>, after: seq<byte>, from: nat, data: seq<byte>) {
    && |before| == |after| >= 1 && |data| <= |after|
    && (forall i :: 0 <= i < |data| ==> after[SlotFrom(from, i, |after|)] == data[i])
    && (forall p :: 0 <= p < |after| && after[p] != before[p] ==> Touched(p, from, |data|, |after|))
  }

  ghost predicate Touched(p: nat, from: nat, n: nat, size: nat)
    requires size >= 1
  {
    exists i: nat :: i < n && SlotFrom(from, i, size) == p
  }

  /** Bytes laid right behind a window that they do not reach round to extend it. */
  lemma LaidExtends(before: seq<byte>, after: seq<byte>, from: nat, n: nat, data: seq<byte>)
    requires Laid(before, after, from + n, data) && n + |data| <= |before|
    ensures Window(after, from, n + |data|) == Window(before, from, n) + data
  {
    hide Slot;
    var size := |after|;
    forall i | 0 <= i < n + |data|
      ensures Window(after, from, n + |data|)[i] == (Window(before, from, n) + data)[i]
    {
      var p := SlotFrom(from, i, size);
      if i < n {
        if after[p] != before[p] {
          var j: nat :| j < |data| && SlotFrom(from + n, j, size) == p;
          SlotsApart(from + i, from + n + j, size);
          assert false;
        }
      } else {
        var j := i - n;
        assert after[SlotFrom(from + n, j, size)] == data[j];
      }
    }
  }

  lemma SlotsApart(a: nat, b: nat, size: nat)
    requires size >= 1 && a < b < a + size
    ensures Slot(a, size) != Slot(b, size)
  {
    DistinctSlots(a, b, size);
  }

  lemma SlotModWord(total: nat, j: nat, order: nat)
    requires order <= 30
    ensures Slot(total % WORD + j, Pow2(order)) == Slot(total + j, Pow2(order))
  {
    SizeBound(order);
    hide Pow2, Slot;
    var n := Pow2(order);
    SlotMod(total, n, Pow2(32 - order));
    SlotPlus(total, j, n);
    SlotPlus(total % WORD, j, n);
  }

  /** Where the two pieces of a split copy land. */
  lemma SplitSlot(idx: nat, j: nat, size: nat)
    requires size >= 1 && j <= size
    ensures SlotFrom(idx, j, size) == if Slot(idx, size) + j < size then Slot(idx, size) + j
            else Slot(idx, size) + j - size
  {
    SlotAdd(idx, j, size);
    var first := idx % size;
    if first + j < size {
      Unique(first + j, size, 0, first + j);
    } else {
      AddModulus(first + j - size, size);
      Unique(first + j - size, size, 0, first + j - size);
    }
  }

  /** Two copies split at the end of the ring lay the data round it. */
  lemma SplitLays(before: seq<byte>, middle: seq<byte>, after: seq<byte>, idx: nat, data: seq<byte>, contig: nat)
    requires |before| >= 1 && |data| <= |before|
    requires contig == Min(|before| - Slot(idx, |before|), |data|)
    requires middle == before[..Slot(idx, |before|)] + data[..contig] + before[Slot(idx, |before|) + contig..]
    requires after == data[contig..] + middle[|data| - contig..]
    ensures Laid(before, after, idx, data)
  {
    hide Slot;
    var size, first := |before|, Slot(idx, |before|);
    forall i | 0 <= i < |data|
      ensures after[SlotFrom(idx, i, size)] == data[i]
    {
      SplitSlot(idx, i, size);
    }
    forall p | 0 <= p < size && after[p] != before[p]
      ensures Touched(p, idx, |data|, size)
    {
      var i := if p < |data| - contig then contig + p else p - first;
      SplitSlot(idx, i, size);
      assert SlotFrom(idx, i, size) == p;
    }
  }

  class Ring {
    const order: nat
    const buffer: array<byte>
    var prod: nat
    var cons: nat

    function InFlight(): nat
      reads this
    {
      Minus(prod, cons)
    }

    ghost predicate WellFormed()
      reads this
    {
      order <= 30 && buffer.Length == Pow2(order) && prod < WORD && cons < WORD
    }

    ghost predicate Valid()
      reads this
    {
      WellFormed() && InFlight() <= buffer.Length
    }

    /** The queue the ring stands for, oldest byte first. */
    ghost function Contents(): (q: seq<byte>)
      requires Valid()
      reads this, buffer
    {
      Window(buffer[..], cons, InFlight())
    }

    constructor (order: nat)
      requires order <= 30
      ensures Valid() && this.order == order && Contents() == [] && fresh(buffer)
    {
      this.order := order;
      buffer := new byte[Pow2(order)];
      prod, cons := 0, 0;
    }

    /** raw_get_buffer_space: nothing when the peer has put its index out of range. */
    method RawSpace() returns (space: nat)
      requires WellFormed()
      ensures space == if InFlight() <= buffer.Length then buffer.Length - InFlight() else 0
    {
      SizeBound(order);
      space := Minus(Pow2(order), Minus(prod, cons));
      if space > Pow2(order) {
        space := 0;
      }
    }

    /** raw_get_data_ready. */
    method RawReady() returns (ready: nat)
      requires WellFormed()
      ensures ready == if InFlight() <= buffer.Length then InFlight() else 0
    {
      ready := Minus(prod, cons);
      if ready > Pow2(order) {
        ready := 0;
      }
    }

    /** The two memcpys of do_send. */
    method CopyRound(data: seq<byte>)
      requires WellFormed() && |data| <= buffer.Length
      modifies buffer
      ensures Laid(old(buffer[..]), buffer[..], prod, data)
    {
      hide Slot, Pow2, Laid;
      var first := Slot(prod, buffer.Length);
      var contig := buffer.Length - first;
      if contig > |data| {
        contig := |data|;
      }
      ghost var before := buffer[..];
      CopyIn(buffer, first, data[..contig]);
      ghost var middle := buffer[..];
      if contig < |data| {
        CopyIn(buffer, 0, data[contig..]);
      }
      SplitLays(before, middle, buffer[..], prod, data, contig);
    }

    /** do_send, up to the notification: the caller has checked the space. */
    method DoSend(data: seq<byte>)
      requires Valid() && |Contents()| + |data| <= buffer.Length
      modifies this`prod, buffer
      ensures Valid() && Contents() == old(Contents()) + data
    {
      hide Slot, Pow2, Laid, Window, Minus;
      ghost var before := buffer[..];
      CopyRound(data);
      SizeSmall(order);
      ProdMoves(prod, cons, |data|);
      WindowGrows(order, before, buffer[..], cons, InFlight(), data);
      prod := (prod + |data|) % WORD;
    }

    /** do_recv, up to the notification: the caller has checked the data. */
    method DoRecv(n: nat) returns (data: seq<byte>)
      requires Valid() && n <= |Contents()|
      modifies this`cons
      ensures Valid() && data == old(Contents())[..n] && Contents() == old(Contents())[n..]
    {
      hide Slot, Pow2;
      var first := Slot(cons, buffer.Length);
      var contig := buffer.Length - first;
      if contig > n {
        contig := n;
      }
      data := CopyOut(buffer, first, contig);
      if contig < n {
        var rest := CopyOut(buffer, 0, n - contig);
        data := data + rest;
      }
      SplitReads(buffer[..], cons, n, contig, data);
      Consumed(order, buffer[..], prod, cons, n);
      cons := (cons + n) % WORD;
    }

    /** A send followed by a recv of everything gives back what was queued and then what was sent. */
    method SendThenRecv(data: seq<byte>) returns (got: seq<byte>)
      requires Valid() && |Contents()| + |data| <= buffer.Length
      modifies this, buffer
      ensures Valid() && got == old(Contents()) + data && Contents() == []
    {
      DoSend(data);
      var ready := RawReady();
      got := DoRecv(ready);
    }
  }

  /** Data laid behind the n bytes from `cons` on makes n + |data| bytes from there on. */
  lemma WindowGrows(order: nat, before: seq<byte>, after: seq<byte>, cons: nat, n: nat, data: seq<byte>)
    requires order <= 30 && |before| == Pow2(order) && n + |data| <= |before|
    requires Laid(before, after, (cons + n) % WORD, data)
    ensures |after| == |before| >= 1 && Window(after, cons, n + |data|) == Window(before, cons, n) + data
  {
    hide Slot, Pow2, Laid, Window;
    LaidLength(before, after, (cons + n) % WORD, data);
    LaidModWord(order, before, after, cons + n, data);
    LaidExtends(before, after, cons, n, data);
  }

  lemma SizeSmall(order: nat)
    requires order <= 30
    ensures Pow2(order) < WORD
  {
    SizeBound(order);
  }

  lemma LaidLength(before: seq<byte>, after: seq<byte>, from: nat, data: seq<byte>)
    requires Laid(before, after, from, data)
    ensures |after| == |before| >= 1
  {}

  lemma ProdMoves(prod: nat, cons: nat, n: nat)
    requires prod < WORD && cons < WORD && Minus(prod, cons) + n < WORD
    ensures Minus((prod + n) % WORD, cons) == Minus(prod, cons) + n && (cons + Minus(prod, cons)) % WORD == prod
  {}

  /** Laying at an index and at the same index modulo 2^32 is the same. */
  lemma LaidModWord(order: nat, before: seq<byte>, after: seq<byte>, total: nat, data: seq<byte>)
    requires order <= 30 && |before| == Pow2(order) && Laid(before, after, total % WORD, data)
    ensures Laid(before, after, total, data)
  {
    hide Slot, Pow2;
    var size := |after|;
    forall i | 0 <= i < |data|
      ensures after[SlotFrom(total, i, size)] == data[i]
    {
      SlotModWord(total, i, order);
    }
    forall p | 0 <= p < size && after[p] != before[p]
      ensures Touched(p, total, |data|, size)
    {
      var i: nat :| i < |data| && SlotFrom(total % WORD, i, size) == p;
      SlotModWord(total, i, order);
      assert SlotFrom(total, i, size) == p;
    }
  }

  lemma SplitReads(ring: seq<byte>, idx: nat, n: nat, contig: nat, data: seq<byte>)
    requires |ring| >= 1 && n <= |ring| && contig == Min(|ring| - Slot(idx, |ring|), n)
    requires data == ring[Slot(idx, |ring|)..Slot(idx, |ring|) + contig] + ring[..n - contig]
    ensures data == Window(ring, idx, n)
  {
    hide Slot;
    forall i | 0 <= i < n
      ensures data[i] == Window(ring, idx, n)[i]
    {
      SplitSlot(idx, i, |ring|);
    }
  }

  lemma ConsMoves(prod: nat, cons: nat, n: nat)
    requires prod < WORD && cons < WORD && n <= Minus(prod, cons)
    ensures Minus(prod, (cons + n) % WORD) == Minus(prod, cons) - n
  {}

  lemma WindowSplits(order: nat, ring: seq<byte>, cons: nat, m: nat, n: nat)
    requires order <= 30 && |ring| == Pow2(order) && n <= m
    ensures Window(ring, cons, m)[..n] == Window(ring, cons, n)
    ensures Window(ring, (cons + n) % WORD, m - n) == Window(ring, cons, m)[n..]
  {
    hide Slot, Pow2;
    var cons' := (cons + n) % WORD;
    forall i | 0 <= i < m - n
      ensures Window(ring, cons', m - n)[i] == Window(ring, cons, m)[n..][i]
    {
      SlotModWord(cons + n, i, order);
    }
  }

  lemma Consumed(order: nat, ring: seq<byte>, prod: nat, cons: nat, n: nat)
    requires order <= 30 && |ring| == Pow2(order) && prod < WORD && cons < WORD && n <= Minus(prod, cons) <= |ring|
    ensures var cons' := (cons + n) % WORD;
            && Minus(prod, cons') == Minus(prod, cons) - n
            && Window(ring, cons, Minus(prod, cons))[..n] == Window(ring, cons, n)
            && Window(ring, cons', Minus(prod, cons) - n) == Window(ring, cons, Minus(prod, cons))[n..]
  {
    hide Minus, Pow2;
    ConsMoves(prod, cons, n);
    WindowSplits(order, ring, cons, Minus(prod, cons), n);
  }
}
