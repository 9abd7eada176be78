/** Whole runs of queueing and flushing pages: what the receiver's memory ends up as. */
module PageCacheRuns {
  import opened Bytes
  import opened PageDelta
  import opened LruList
  import opened PageCache

  // ----- One flush ----------------------------------------------------------------------------------------------

  /** No raw page is queued whose pfn is cached, or queued as a normal page before it. */
  ghost predicate SafeQueue(c: Cache, items: seq<Item>) {
    forall j :: 0 <= j < |items| && items[j].raw ==>
      && items[j].pfn !in c.pfns
      && forall i :: 0 <= i < j && items[i].pfn == items[j].pfn ==> items[i].raw
  }

  /** The flush runs out of room at a normal page that is not cached. */
  ghost predicate StopsOnMiss(c: Cache, items: seq<Item>, pos: nat, size: nat)
    requires CacheOk(c) && ItemsOk(items)
    decreases |items|
  {
    if items == [] then false
    else if pos + Asks(c, items[0]) > size then !items[0].raw && items[0].pfn !in c.pfns
    else StopsOnMiss(Sent(c, items[0]), items[1..], pos + |Wire(c, items[0])|, size)
  }

  lemma SentPfns(c: Cache, it: Item, p: nat)
    requires CacheOk(c) && |it.page| == PAGE && p in Sent(c, it).pfns
    ensures p in c.pfns || (p == it.pfn && !it.raw)
  {
    hide SlotHolding, ToFront;
    if !it.raw {
      ChosenOk(c, it.pfn);
      hide Chosen;
      var i :| 0 <= i < |c.pfns| && Sent(c, it).pfns[i] == p;
      assert p == it.pfn || c.pfns[i] == p;
    }
  }

  lemma RefusedPfns(c: Cache, it: Item, p: nat)
    requires CacheOk(c) && p in Refused(c, it).pfns && (it.raw || it.pfn in c.pfns)
    ensures p in c.pfns
  {
    hide SlotHolding, ToFront;
    if !it.raw {
      ChosenOk(c, it.pfn);
      hide Chosen;
      var i :| 0 <= i < |c.pfns| && Refused(c, it).pfns[i] == p;
      assert p == it.pfn || c.pfns[i] == p;
    }
  }

  lemma SafeNext(c: Cache, items: seq<Item>)
    requires CacheOk(c) && ItemsOk(items) && items != [] && SafeQueue(c, items)
    ensures SafeQueue(Sent(c, items[0]), items[1..])
  {
    hide CacheOk, Sent;
    var c', rest := Sent(c, items[0]), items[1..];
    forall j | 0 <= j < |rest| && rest[j].raw
      ensures rest[j].pfn !in c'.pfns && forall i :: 0 <= i < j && rest[i].pfn == rest[j].pfn ==> rest[i].raw
    {
      assert rest[j] == items[j + 1];
      if rest[j].pfn in c'.pfns {
        SentPfns(c, items[0], rest[j].pfn);
        assert false;
      }
      forall i | 0 <= i < j && rest[i].pfn == rest[j].pfn
        ensures rest[i].raw
      {
        assert rest[i] == items[i + 1];
      }
    }
  }

  lemma SafeRefused(c: Cache, items: seq<Item>)
    requires CacheOk(c) && ItemsOk(items) && items != [] && SafeQueue(c, items)
    requires (items[0].raw || items[0].pfn in c.pfns)
    ensures SafeQueue(Refused(c, items[0]), items)
  {
    hide CacheOk, Refused;
    var c' := Refused(c, items[0]);
    forall j | 0 <= j < |items| && items[j].raw
      ensures items[j].pfn !in c'.pfns
    {
      if items[j].pfn in c'.pfns {
        RefusedPfns(c, items[0], items[j].pfn);
      }
    }
  }

  lemma SendKeepsMirror(c: Cache, it: Item, mem: seq<seq<byte>>)
    requires CacheOk(c) && Mirror(c, mem) && |it.page| == PAGE && it.pfn < |mem| && (it.raw ==> it.pfn !in c.pfns)
    ensures Mirror(Sent(c, it), mem[it.pfn := it.page])
  {
    hide Mirror, CacheOk, Sent;
    if it.raw {
      RawKeepsMirror(c, it, mem);
    } else {
      NormalKeepsMirror(c, it, mem);
    }
  }

  /** Decoding what a flush wrote gives every page of it, the cache mirrors the receiver again, and the
      queue left over is still safe. */
  lemma {:induction false} BatchDelivers(c: Cache, items: seq<Item>, mem: seq<seq<byte>>, pos: nat, size: nat,
                                         stream: seq<byte>, at: nat)
    requires CacheOk(c) && ItemsOk(items) && MemOk(mem, items) && Mirror(c, mem) && SafeQueue(c, items)
    requires var b := SendAll(c, items, pos, size); at + |b.bytes| <= |stream| && stream[at..at + |b.bytes|] == b.bytes
    ensures var b := SendAll(c, items, pos, size);
            && Receive(mem, items[..b.count], stream, at) == Applied(mem, items[..b.count])
            && (!StopsOnMiss(c, items, pos, size) ==>
                  && Mirror(b.c, Applied(mem, items[..b.count]))
                  && SafeQueue(b.c, items[b.count..]))
    decreases |items|
  {
    hide CacheOk, Mirror, SafeQueue, Sent, Refused, Wire, Decode, Asks;
    var b := SendAll(c, items, pos, size);
    if items == [] {
      assert items[..b.count] == [] && items[b.count..] == items;
    } else if pos + Asks(c, items[0]) > size {
      assert items[..b.count] == [] && items[b.count..] == items;
      if items[0].raw || items[0].pfn in c.pfns {
        RefusalKeepsMirror(c, items[0], mem);
        SafeRefused(c, items);
      }
    } else {
      var it, wire := items[0], Wire(c, items[0]);
      BatchStep(c, items, mem, stream, at, SendAll(Sent(c, it), items[1..], pos + |wire|, size).bytes);
      SafeNext(c, items);
      BatchDelivers(Sent(c, it), items[1..], mem[it.pfn := it.page], pos + |wire|, size, stream, at + |wire|);
      var n := b.count;
      assert items[..n][0] == it && items[..n][1..] == items[1..][..n - 1];
      assert items[n..] == items[1..][n - 1..];
    }
  }

  /** The first item of a flush that fits, with the bytes of the others behind it. */
  lemma BatchStep(c: Cache, items: seq<Item>, mem: seq<seq<byte>>, stream: seq<byte>, at: nat, tail: seq<byte>)
    requires CacheOk(c) && ItemsOk(items) && MemOk(mem, items) && Mirror(c, mem) && SafeQueue(c, items) && items != []
    requires var bytes := Wire(c, items[0]) + tail; at + |bytes| <= |stream| && stream[at..at + |bytes|] == bytes
    ensures var it, wire := items[0], Wire(c, items[0]);
            && at + |wire| + |tail| <= |stream| && stream[at + |wire|..at + |wire| + |tail|] == tail
            && Decode(stream, at, mem[it.pfn]) == Good(it.page, at + |wire|)
            && MemOk(mem[it.pfn := it.page], items[1..]) && Mirror(Sent(c, it), mem[it.pfn := it.page])
  {
    hide CacheOk, Mirror, Sent, Wire, Decode;
    var it, wire := items[0], Wire(c, items[0]);
    var bytes := wire + tail;
    assert stream[at..at + |wire|] == bytes[..|wire|] == wire;
    assert stream[at + |wire|..at + |wire| + |tail|] == bytes[|wire|..];
    WireDecodes(c, it, mem, stream, at);
    assert it.raw ==> it.pfn !in c.pfns;
    SendKeepsMirror(c, it, mem);
  }

  /** A flush never writes past its buffer, and one with room for the worst case makes progress. */
  lemma {:induction false} BatchFits(c: Cache, items: seq<Item>, pos: nat, size: nat)
    requires CacheOk(c) && ItemsOk(items) && pos <= size
    ensures pos + |SendAll(c, items, pos, size).bytes| <= size
    ensures items != [] && pos + WORST <= size ==> SendAll(c, items, pos, size).count >= 1
    decreases |items|
  {
    hide CacheOk, Sent, Refused, Wire, Asks;
    if items != [] {
      WireFits(c, items[0]);
    }
    if items != [] && pos + Asks(c, items[0]) <= size {
      BatchFits(Sent(c, items[0]), items[1..], pos + |Wire(c, items[0])|, size);
    }
  }

  lemma WireFits(c: Cache, it: Item)
    requires CacheOk(c) && |it.page| == PAGE
    ensures |Wire(c, it)| <= Asks(c, it) <= WORST
  {
    if !it.raw && it.pfn in c.pfns {
      hide Encoded;
      EncodedBound(c.pages[SlotHolding(c.pfns, it.pfn)], it.page);
    }
  }

  /** Room for the worst case of every page rules a stop out altogether. */
  lemma {:induction false} AmpleRoom(c: Cache, items: seq<Item>, pos: nat, size: nat)
    requires CacheOk(c) && ItemsOk(items) && pos + WORST * |items| <= size
    ensures !StopsOnMiss(c, items, pos, size) && SendAll(c, items, pos, size).count == |items|
    decreases |items|
  {
    hide CacheOk, Sent, Refused, Wire, Asks;
    if items != [] {
      WireFits(c, items[0]);
      AmpleRoom(Sent(c, items[0]), items[1..], pos + |Wire(c, items[0])|, size);
    }
  }

  // ----- Runs ------------------------------------------------------------------------------------------------------

  /** `mem` is the receiver's memory, `pending` what is queued and not sent. */
  datatype Sys = Sys(c: Cache, pending: seq<Item>, mem: seq<seq<byte>>)

  datatype Op = Queue(it: Item) | Flush(size: nat) | Reset

  ghost predicate SysOk(s: Sys) {
    CacheOk(s.c) && ItemsOk(s.pending) && MemOk(s.mem, s.pending)
  }

  ghost predicate OpOk(s: Sys, op: Op) {
    op.Queue? ==> |op.it.page| == PAGE && op.it.pfn < |s.mem|
  }

  ghost function Step(s: Sys, op: Op): (t: Sys)
    requires SysOk(s) && OpOk(s, op)
  {
    match op
    case Queue(it) => s.(c := if it.raw then Invalidate(s.c, it.pfn) else s.c, pending := s.pending + [it])
    case Flush(size) =>
      var b := SendAll(s.c, s.pending, 0, size);
      Sys(b.c, s.pending[b.count..], Receive(s.mem, s.pending[..b.count], b.bytes, 0))
    case Reset => s.(pending := [])
  }

  /** What a caller has to see to: no raw page behind a normal one of the same pfn in one batch, and no
      buffer that is full when a page comes that is not cached. */
  ghost predicate Careful(s: Sys, op: Op)
    requires SysOk(s) && OpOk(s, op)
  {
    match op
    case Queue(it) => it.raw ==> forall i :: 0 <= i < |s.pending| && s.pending[i].pfn == it.pfn ==> s.pending[i].raw
    case Flush(size) => !StopsOnMiss(s.c, s.pending, 0, size)
    case Reset => true
  }

  ghost predicate Sound(s: Sys) {
    SysOk(s) && Mirror(s.c, s.mem) && SafeQueue(s.c, s.pending)
  }

  lemma QueueGood(s: Sys, it: Item)
    requires Sound(s) && OpOk(s, Queue(it)) && Careful(s, Queue(it))
    ensures Sound(Step(s, Queue(it)))
  {
    InvalidateOk(s.c, it.pfn);
    hide CacheOk, SlotHolding, ToBack;
    var t := Step(s, Queue(it));
    assert Mirror(t.c, t.mem);
    forall j | 0 <= j < |t.pending| && t.pending[j].raw
      ensures t.pending[j].pfn !in t.c.pfns && forall i :: 0 <= i < j && t.pending[i].pfn == t.pending[j].pfn ==>
              t.pending[i].raw
    {
      if j < |s.pending| {
        assert t.pending[j] == s.pending[j];
      }
    }
  }

  lemma FlushGood(s: Sys, size: nat)
    requires Sound(s) && Careful(s, Flush(size))
    ensures var n, t := SendAll(s.c, s.pending, 0, size).count, Step(s, Flush(size));
            Sound(t) && t.pending == s.pending[n..] && t.mem == Applied(s.mem, s.pending[..n])
  {
    hide CacheOk, Mirror, SafeQueue, StopsOnMiss, SendAll, Receive, Applied;
    var b := SendAll(s.c, s.pending, 0, size);
    assert b.bytes[0..0 + |b.bytes|] == b.bytes;
    BatchDelivers(s.c, s.pending, s.mem, 0, size, b.bytes, 0);
  }

  lemma ResetGood(s: Sys)
    requires Sound(s)
    ensures Sound(Step(s, Reset))
  {
    hide CacheOk, Mirror;
  }

  /** A run of careful operations. */
  ghost predicate CarefulRun(s: Sys, ops: seq<Op>)
    decreases |ops|
  {
    ops == [] || (SysOk(s) && OpOk(s, ops[0]) && Careful(s, ops[0]) && CarefulRun(Step(s, ops[0]), ops[1..]))
  }

  ghost function RunAll(s: Sys, ops: seq<Op>): Sys
    requires CarefulRun(s, ops)
    decreases |ops|
  {
    if ops == [] then s else RunAll(Step(s, ops[0]), ops[1..])
  }

  /** The pages of a run that have gone out, in the order they were queued. */
  ghost function Delivered(s: Sys, ops: seq<Op>): seq<Item>
    requires CarefulRun(s, ops)
    decreases |ops|
  {
    if ops == [] then []
    else
      (if ops[0].Flush? then s.pending[..SendAll(s.c, s.pending, 0, ops[0].size).count] else [])
      + Delivered(Step(s, ops[0]), ops[1..])
  }

  lemma {:induction false} AppliedConcat(mem: seq<seq<byte>>, a: seq<Item>, b: seq<Item>)
    requires MemOk(mem, a + b) && ItemsOk(a + b)
    ensures MemOk(mem, a) && ItemsOk(a) && MemOk(Applied(mem, a), b) && ItemsOk(b)
    ensures Applied(mem, a + b) == Applied(Applied(mem, a), b)
    decreases |a|
  {
    assert forall i :: 0 <= i < |a| ==> (a + b)[i] == a[i];
    assert forall i :: 0 <= i < |b| ==> (a + b)[|a| + i] == b[i];
    if a == [] {
      assert a + b == b;
    } else {
      var m := mem[a[0].pfn := a[0].page];
      assert (a + b)[1..] == a[1..] + b;
      AppliedConcat(m, a[1..], b);
    }
  }

  /** Over every careful run, whatever is evicted, invalidated or left for the next flush, the cache
      mirrors the receiver and the receiver's memory is exactly the pages sent, each in its place. */
  lemma {:induction false} RunsDeliver(s: Sys, ops: seq<Op>)
    requires Sound(s) && CarefulRun(s, ops)
    ensures Sound(RunAll(s, ops))
    ensures MemOk(s.mem, Delivered(s, ops)) && ItemsOk(Delivered(s, ops))
    ensures RunAll(s, ops).mem == Applied(s.mem, Delivered(s, ops))
    decreases |ops|
  {
    hide CacheOk, Mirror, SafeQueue, Careful, SendAll, Receive;
    if ops != [] {
      var op, t := ops[0], Step(s, ops[0]);
      match op {
        case Queue(it) =>
          QueueGood(s, it);
          RunsDeliver(t, ops[1..]);
          assert [] + Delivered(t, ops[1..]) == Delivered(t, ops[1..]);
        case Flush(size) =>
          FlushGood(s, size);
          RunsDeliver(t, ops[1..]);
          var n := SendAll(s.c, s.pending, 0, size).count;
          JoinDelivered(s.mem, s.pending[..n], Delivered(t, ops[1..]));
        case Reset =>
          ResetGood(s);
          RunsDeliver(t, ops[1..]);
          assert [] + Delivered(t, ops[1..]) == Delivered(t, ops[1..]);
      }
    }
  }

  lemma JoinDelivered(mem: seq<seq<byte>>, a: seq<Item>, b: seq<Item>)
    requires MemOk(mem, a) && ItemsOk(a) && MemOk(Applied(mem, a), b) && ItemsOk(b)
    ensures MemOk(mem, a + b) && ItemsOk(a + b) && Applied(mem, a + b) == Applied(Applied(mem, a), b)
  {
    AppliedConcat(mem, a, b);
  }
}
