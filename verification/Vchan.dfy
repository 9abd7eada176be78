/** libvchan's byte ring (io.c) as interleaved steps of one writing and one reading endpoint.

    Every access to shared memory is one step: reading the peer's index, setting or clearing a
    notify bit, copying one byte, publishing an index, raising the event.  `sent`, `received` and the
    `seen` fields are history.
 */
module Vchan {
  import opened Arith
  import opened Bytes

  datatype Kind = Stream | Packet

  datatype WPc = WIdle | WRead | WRequest | WReread | WDecide | WCopy | WPublish | WNotify | WSignal | WAfter | WWait
  datatype RPc = RIdle | RRead | RRequest | RReread | RDecide | RCopy | RPublish | RNotify | RSignal | RWait

  /** Inside libxenvchan_write (Stream) or libxenvchan_send (Packet) with `buf` still to be sent. */
  datatype Writer = Writer(pc: WPc, kind: Kind, blocking: bool, buf: seq<byte>, requested: bool, avail: nat, n: nat,
      j: nat, seen: nat)

  /** Inside libxenvchan_read (Stream) or libxenvchan_recv (Packet) of `want` bytes. */
  datatype Reader = Reader(pc: RPc, kind: Kind, blocking: bool, want: nat, requested: bool, avail: nat, n: nat,
      got: seq<byte>, seen: nat)

  datatype State = State(
    order: nat, prod: nat, cons: nat, ring: seq<byte>,
    notifyRead: bool, notifyWrite: bool, eventW: bool, eventR: bool,
    w: Writer, r: Reader, sent: seq<byte>, received: seq<byte>)

  function Size(s: State): (n: nat)
    ensures n >= 1
  {
    Pow2(s.order)
  }

  /** Position `k` of the byte stream falls on this slot of a ring of `size` bytes. */
  function Slot(k: nat, size: nat): (slot: nat)
    requires size >= 1
    ensures slot < size
  {
    k % size
  }

  /** a - b on unsigned 32-bit integers. */
  function Minus(a: nat, b: nat): (d: nat)
    ensures d < WORD
  {
    (a - b) % WORD
  }

  /** raw_get_buffer_space. */
  function Space(s: State): nat {
    var ready := Minus(Size(s), Minus(s.prod, s.cons));
    if ready > Size(s) then 0 else ready
  }

  /** raw_get_data_ready. */
  function Ready(s: State): nat {
    var ready := Minus(s.prod, s.cons);
    if ready > Size(s) then 0 else ready
  }

  /** Slot of the j-th byte from index `idx`: idx & (size - 1), rolling over the end of the ring. */
  function SlotOf(s: State, idx: nat, j: nat): nat {
    Slot(Slot(idx, Size(s)) + j, Size(s))
  }

  // ----- Steps -------------------------------------------------------------------------------------

  function Min(a: nat, b: nat): nat {
    if a < b then a else b
  }

  /** fast_get_buffer_space: the first reading of cons, before asking for a notification. */
  function WReads(s: State): State {
    if Space(s) >= |s.w.buf| then s.(w := s.w.(pc := WDecide, requested := false, avail := Space(s)))
    else s.(w := s.w.(pc := WRequest, requested := false))
  }

  function WRequests(s: State): State {
    s.(notifyRead := true, w := s.w.(pc := WReread, requested := true))
  }

  function WRereads(s: State): State {
    s.(w := s.w.(pc := WDecide, avail := Space(s), seen := |s.received|))
  }

  /** Send what fits (Stream) or all or nothing (Packet), give up, or wait. */
  function WDecides(s: State): State {
    var w := s.w;
    var n := if w.kind.Stream? then Min(w.avail, |w.buf|) else if |w.buf| <= w.avail then |w.buf| else 0;
    if n > 0 then s.(w := w.(pc := WCopy, n := n, j := 0))
    else if !w.blocking || (w.kind.Packet? && |w.buf| > Size(s)) then s.(w := w.(pc := WIdle))
    else s.(w := w.(pc := WWait))
  }

  function WCopies(s: State): State {
    var w := s.w;
    if w.j < w.n && w.j < |w.buf| && SlotOf(s, s.prod, w.j) < |s.ring| then
      s.(ring := s.ring[SlotOf(s, s.prod, w.j) := w.buf[w.j]], w := w.(j := w.j + 1))
    else s.(w := w.(pc := WPublish))
  }

  function WPublishes(s: State): State {
    var n := Min(s.w.n, |s.w.buf|);
    s.(prod := (s.prod + n) % WORD, sent := s.sent + s.w.buf[..n], w := s.w.(pc := WNotify, buf := s.w.buf[n..]))
  }

  /** send_notify: clear the peer's request, and raise its event if it was set. */
  function WNotifies(s: State): State {
    if s.notifyWrite then s.(notifyWrite := false, w := s.w.(pc := WSignal)) else s.(w := s.w.(pc := WAfter))
  }

  function WReturns(s: State): State {
    s.(w := s.w.(pc := if s.w.buf == [] || !s.w.blocking then WIdle else WWait))
  }

  /** One step of the writer inside a call; no change when it is idle or blocked. */
  function WriterStep(s: State): State {
    match s.w.pc
    case WIdle => s
    case WRead => WReads(s)
    case WRequest => WRequests(s)
    case WReread => WRereads(s)
    case WDecide => WDecides(s)
    case WCopy => WCopies(s)
    case WPublish => WPublishes(s)
    case WNotify => WNotifies(s)
    case WSignal => s.(eventR := true, w := s.w.(pc := WAfter))
    case WAfter => WReturns(s)
    case WWait => if s.eventW then s.(eventW := false, w := s.w.(pc := WRead)) else s
  }

  /** fast_get_data_ready: the first reading of prod. */
  function RReads(s: State): State {
    if Ready(s) >= s.r.want then s.(r := s.r.(pc := RDecide, requested := false, avail := Ready(s)))
    else s.(r := s.r.(pc := RRequest, requested := false))
  }

  function RRequests(s: State): State {
    s.(notifyWrite := true, r := s.r.(pc := RReread, requested := true))
  }

  function RRereads(s: State): State {
    s.(r := s.r.(pc := RDecide, avail := Ready(s), seen := |s.sent|))
  }

  function RDecides(s: State): State {
    var r := s.r;
    var n := if r.kind.Stream? then Min(r.avail, r.want) else if r.want <= r.avail then r.want else 0;
    if n > 0 then s.(r := r.(pc := RCopy, n := n, got := []))
    else if !r.blocking || (r.kind.Packet? && r.want > Size(s)) then s.(r := r.(pc := RIdle))
    else s.(r := r.(pc := RWait))
  }

  function RCopies(s: State): State {
    var r := s.r;
    if |r.got| < r.n && SlotOf(s, s.cons, |r.got|) < |s.ring| then
      s.(r := r.(got := r.got + [s.ring[SlotOf(s, s.cons, |r.got|)]]))
    else s.(r := r.(pc := RPublish))
  }

  function RPublishes(s: State): State {
    s.(cons := (s.cons + s.r.n) % WORD, received := s.received + s.r.got, r := s.r.(pc := RNotify))
  }

  function RNotifies(s: State): State {
    if s.notifyRead then s.(notifyRead := false, r := s.r.(pc := RSignal)) else s.(r := s.r.(pc := RIdle))
  }

  /** One step of the reader inside a call; no change when it is idle or blocked. */
  function ReaderStep(s: State): State {
    match s.r.pc
    case RIdle => s
    case RRead => RReads(s)
    case RRequest => RRequests(s)
    case RReread => RRereads(s)
    case RDecide => RDecides(s)
    case RCopy => RCopies(s)
    case RPublish => RPublishes(s)
    case RNotify => RNotifies(s)
    case RSignal => s.(eventW := true, r := s.r.(pc := RIdle))
    case RWait => if s.eventR then s.(eventR := false, r := s.r.(pc := RRead)) else s
  }

  datatype Action =
    | WriterCall(wkind: Kind, wblocking: bool, data: seq<byte>)
    | ReaderCall(rkind: Kind, rblocking: bool, want: nat)
    | WriterMoves
    | ReaderMoves

  function Apply(s: State, a: Action): State {
    match a
    case WriterCall(kind, blocking, data) =>
      if s.w.pc == WIdle && data != []
        then s.(w := s.w.(pc := WRead, kind := kind, blocking := blocking, buf := data, requested := false)) else s
    case ReaderCall(kind, blocking, want) =>
      if s.r.pc == RIdle && want > 0
        then s.(r := s.r.(pc := RRead, kind := kind, blocking := blocking, want := want, requested := false)) else s
    case WriterMoves => WriterStep(s)
    case ReaderMoves => ReaderStep(s)
  }

  /** The state after a run, whatever calls are made and however the endpoints interleave. */
  function After(s: State, actions: seq<Action>): State {
    if actions == [] then s else Apply(After(s, actions[..|actions| - 1]), actions[|actions| - 1])
  }

  /** A new channel; the notify bits may start in any state. */
  predicate Initial(s: State) {
    && s.order <= 30 && |s.ring| == Size(s) && s.prod == 0 && s.cons == 0
    && !s.eventW && !s.eventR && s.w.pc == WIdle && s.r.pc == RIdle && s.sent == [] && s.received == []
  }

  // ----- The byte stream -----------------------------------------------------------------------------

  /** The ring holds exactly the bytes sent and not yet received, at their positions modulo its size,
      and the 32-bit indexes count bytes modulo 2^32. */
  ghost predicate Fifo(s: State) {
    && s.order <= 30 && |s.ring| == Size(s)
    && s.prod == |s.sent| % WORD && s.cons == |s.received| % WORD
    && |s.received| <= |s.sent| <= |s.received| + Size(s)
    && s.received == s.sent[..|s.received|]
    && forall k :: |s.received| <= k < |s.sent| ==> s.ring[Slot(k, Size(s))] == s.sent[k]
  }

  lemma SizeBound(order: nat)
    requires order <= 30
    ensures 1 <= Pow2(order) <= Pow2(30) < WORD && Pow2(32) == WORD
    ensures WORD == Pow2(32 - order) * Pow2(order)
  {
    Pow2Mono(order, 30);
    Pow2Add(32 - order, order);
    assert Pow2(10) == 1024;
    Pow2Add(10, 10);
    Pow2Add(20, 10);
    Pow2Add(30, 2);
    assert Pow2(2) == 4;
  }

  /** The raw readings are exact: prod - cons modulo 2^32 is the number of bytes in flight. */
  lemma RawReadings(s: State)
    requires Fifo(s)
    ensures Minus(s.prod, s.cons) == |s.sent| - |s.received|
    ensures Ready(s) == |s.sent| - |s.received| && Space(s) == Size(s) - (|s.sent| - |s.received|)
  {
    SizeBound(s.order);
    hide Pow2, Minus, Slot;
    WrapsOff(|s.sent|, |s.received|);
    WrapsOff(Size(s), |s.sent| - |s.received|);
    Small(Size(s));
    Small(|s.sent| - |s.received|);
  }

  /** Subtracting remainders of numbers less than 2^32 apart. */
  lemma WrapsOff(a: nat, b: nat)
    requires b <= a < b + WORD
    ensures Minus(a % WORD, b % WORD) == a - b
  {}

  lemma Small(a: nat)
    requires a < WORD
    ensures a % WORD == a
  {}

  lemma WrapsOn(a: nat, n: nat)
    ensures (a % WORD + n) % WORD == (a + n) % WORD
  {}

  lemma SlotIs(s: State, total: nat, j: nat)
    requires s.order <= 30
    ensures SlotOf(s, total % WORD, j) == Slot(total + j, Size(s))
  {
    SizeBound(s.order);
    hide Pow2, Slot;
    SlotMod(total, Size(s), Pow2(32 - s.order));
    SlotPlus(total, j, Size(s));
  }

  lemma SlotMod(total: nat, n: nat, k: nat)
    requires n >= 1 && WORD == k * n
    ensures Slot(total % WORD, n) == Slot(total, n)
  {
    ModMod(total, n, WORD, k);
  }

  lemma SlotPlus(total: nat, j: nat, n: nat)
    requires n >= 1
    ensures Slot(Slot(total, n) + j, n) == Slot(total + j, n)
  {
    SlotAdd(total, j, n);
  }

  lemma SlotAdd(total: nat, j: nat, n: nat)
    requires n >= 1
    ensures (total % n + j) % n == (total + j) % n
  {
    DivMod(total, n);
    AddMultiple(total % n + j, n, total / n);
  }

  lemma DivMod(a: nat, n: nat)
    requires n >= 1
    ensures a == (a / n) * n + a % n
  {}

  // ----- Local progress of a call ------------------------------------------------------------------------

  /** Past the second reading of cons. */
  predicate WSettled(pc: WPc) {
    pc == WDecide || pc == WCopy || pc == WPublish || pc == WNotify || pc == WSignal || pc == WAfter || pc == WWait
  }

  predicate RSettled(pc: RPc) {
    pc == RDecide || pc == RCopy || pc == RPublish || pc == RWait
  }

  /** What a blocked writer is waiting for. */
  function WNeed(w: Writer): nat {
    if w.kind.Stream? then 1 else |w.buf|
  }

  function RNeed(r: Reader): nat {
    if r.kind.Stream? then 1 else r.want
  }

  ghost predicate WLocal(s: State) {
    var w, size := s.w, Size(s);
    && (w.pc.WReread? ==> w.requested)
    && (w.pc != WIdle && w.pc != WNotify && w.pc != WSignal && w.pc != WAfter ==> w.buf != [])
    && (WSettled(w.pc) && w.requested ==> w.seen <= |s.received|)
    && (w.pc == WDecide ==> |s.sent| + w.avail <= |s.received| + size)
    && (w.pc == WDecide ==> if w.requested then |s.sent| + w.avail == w.seen + size else w.avail >= |w.buf|)
    && (w.pc == WCopy || w.pc == WPublish ==>
          && 0 < w.n <= |w.buf| && w.j <= w.n && |s.sent| + w.n <= |s.received| + size == |s.received| + |s.ring|
          && (w.n < |w.buf| ==> w.kind.Stream? && w.requested && |s.sent| + w.n == w.seen + size)
          && forall i :: 0 <= i < w.j ==> s.ring[Slot(|s.sent| + i, size)] == w.buf[i])
    && (w.pc == WPublish ==> w.j == w.n)
    && ((w.pc == WNotify || w.pc == WSignal || w.pc == WAfter) && w.buf != [] ==>
          w.kind.Stream? && w.requested && |s.sent| == w.seen + size)
    && (w.pc == WWait ==>
          && w.blocking && w.requested && |s.sent| + WNeed(w) > w.seen + size
          && (w.kind.Packet? ==> |w.buf| <= size))
  }

  ghost predicate RLocal(s: State) {
    var r, size := s.r, Size(s);
    && (r.pc.RReread? ==> r.requested)
    && (r.pc != RIdle ==> r.want > 0)
    && (RSettled(r.pc) && r.requested ==> r.seen <= |s.sent|)
    && (r.pc == RDecide ==> |s.received| + r.avail <= |s.sent|)
    && (r.pc == RDecide ==> if r.requested then |s.received| + r.avail == r.seen else r.avail >= r.want)
    && (r.pc == RCopy || r.pc == RPublish ==>
          && |r.got| <= r.n && |s.received| + r.n <= |s.sent|
          && r.got == s.sent[|s.received|..|s.received| + |r.got|])
    && (r.pc == RPublish ==> |r.got| == r.n)
    && (r.pc == RWait ==>
          && r.blocking && r.requested && r.seen < |s.received| + RNeed(r)
          && (r.kind.Packet? ==> r.want <= size))
  }

  /** A writer that has asked to be notified and is past its second reading of cons: an event is
      pending or about to be raised, or its request still stands and either the reader is just about to
      answer it or cons has not moved since that reading. */
  ghost predicate WWake(s: State) {
    && (s.w.pc == WReread ==> s.eventW || s.r.pc == RSignal || s.notifyRead)
    && (WSettled(s.w.pc) && s.w.requested ==>
          s.eventW || s.r.pc == RSignal || (s.notifyRead && (s.r.pc == RNotify || |s.received| == s.w.seen)))
  }

  ghost predicate RWake(s: State) {
    && (s.r.pc == RReread ==> s.eventR || s.w.pc == WSignal || s.notifyWrite)
    && (RSettled(s.r.pc) && s.r.requested ==>
          s.eventR || s.w.pc == WSignal || (s.notifyWrite && (s.w.pc == WNotify || |s.sent| == s.r.seen)))
  }

  ghost predicate Inv(s: State) {
    Fifo(s) && WLocal(s) && RLocal(s) && WWake(s) && RWake(s)
  }

  // ----- Every step keeps the invariant -----------------------------------------------------------------------

  /** Copying one byte leaves the bytes in flight, and those copied before it, alone. */
  lemma CopyByte(s: State)
    requires Fifo(s) && WLocal(s) && s.w.pc == WCopy && s.w.j < s.w.n
    ensures SlotOf(s, s.prod, s.w.j) == Slot(|s.sent| + s.w.j, Size(s)) < |s.ring|
    ensures forall k :: |s.received| <= k < |s.sent| + s.w.j ==> Slot(k, Size(s)) != SlotOf(s, s.prod, s.w.j)
  {
    hide SlotOf, Size;
    var size, at := Size(s), |s.sent| + s.w.j;
    SlotIs(s, |s.sent|, s.w.j);
    forall k | |s.received| <= k < at
      ensures Slot(k, size) != Slot(at, size)
    {
      DistinctSlots(k, at, size);
    }
  }

  /** No byte, no index and no record of the stream differs. */
  ghost predicate SameData(s: State, t: State) {
    && t.order == s.order && t.ring == s.ring && t.prod == s.prod && t.cons == s.cons
    && t.sent == s.sent && t.received == s.received
  }

  lemma FifoFrame(s: State, t: State)
    requires Fifo(s) && SameData(s, t)
    ensures Fifo(t)
  {
    hide Slot, Pow2;
  }

  /** The reader's progress stands while the stream only grows. */
  lemma RLocalFrame(s: State, t: State)
    requires RLocal(s) && t.r == s.r && t.received == s.received && t.order == s.order
    requires s.sent <= t.sent && |s.received| <= |s.sent|
    ensures RLocal(t)
  {
    hide Pow2;
    if s.r.pc == RCopy || s.r.pc == RPublish {
      assert t.sent[|s.received|..|s.received| + |s.r.got|] == s.sent[|s.received|..|s.received| + |s.r.got|];
    }
  }

  lemma WLocalFrame(s: State, t: State)
    requires WLocal(s) && t.w == s.w && t.sent == s.sent && t.ring == s.ring && t.order == s.order
    requires |s.received| <= |t.received|
    ensures WLocal(t)
  {
    hide Slot, Pow2;
  }

  // ----- The writer's steps

  lemma WReadsKeeps(s: State)
    requires Fifo(s) && WLocal(s) && RWake(s) && s.w.pc == WRead
    ensures var t := WReads(s); SameData(s, t) && t.r == s.r && WLocal(t) && WWake(t) && RWake(t)
  {
    RawReadings(s);
    hide Slot, Space, Ready, Minus, Pow2;
  }

  lemma WRequestsKeeps(s: State)
    requires WLocal(s) && RWake(s) && s.w.pc == WRequest
    ensures var t := WRequests(s); SameData(s, t) && t.r == s.r && WLocal(t) && WWake(t) && RWake(t)
  {
    hide Slot, Pow2;
  }

  lemma WRereadsKeeps(s: State)
    requires Fifo(s) && WLocal(s) && WWake(s) && RWake(s) && s.w.pc == WReread
    ensures var t := WRereads(s); SameData(s, t) && t.r == s.r && WLocal(t) && WWake(t) && RWake(t)
  {
    RawReadings(s);
    hide Slot, Space, Ready, Minus, Pow2;
  }

  lemma WDecidesKeeps(s: State)
    requires WLocal(s) && |s.ring| == Size(s) && s.w.pc == WDecide
    ensures WLocal(WDecides(s))
  {
    hide Slot, Pow2;
  }

  lemma WDecidesFrame(s: State)
    requires WWake(s) && RWake(s) && s.w.pc == WDecide
    ensures var t := WDecides(s); SameData(s, t) && t.r == s.r && WWake(t) && RWake(t)
  {
    hide Slot, Pow2;
  }

  lemma WCopiesKeeps(s: State)
    requires Fifo(s) && WLocal(s) && s.w.pc == WCopy && s.w.j < s.w.n
    ensures Fifo(WCopies(s)) && WLocal(WCopies(s))
  {
    hide Fifo, WLocal;
    CopyKeepsFifo(s);
    CopyKeepsLocal(s);
  }

  lemma CopyKeepsFifo(s: State)
    requires Fifo(s) && WLocal(s) && s.w.pc == WCopy && s.w.j < s.w.n
    ensures Fifo(WCopies(s))
  {
    CopyByte(s);
    hide Slot, SlotOf, Pow2, WLocal;
  }

  lemma CopyKeepsLocal(s: State)
    requires Fifo(s) && WLocal(s) && s.w.pc == WCopy && s.w.j < s.w.n
    ensures WLocal(WCopies(s))
  {
    CopyByte(s);
    hide Slot, SlotOf, Pow2, Fifo;
  }

  lemma WCopyEnds(s: State)
    requires WLocal(s) && s.w.pc == WCopy && s.w.j == s.w.n
    ensures var t := WCopies(s); SameData(s, t) && WLocal(t)
  {
    hide Slot, SlotOf, Pow2;
  }

  lemma WCopiesFrame(s: State)
    requires WWake(s) && RWake(s) && s.w.pc == WCopy
    ensures var t := WCopies(s);
            s.sent == t.sent && t.received == s.received && t.order == s.order && t.r == s.r && WWake(t) && RWake(t)
  {
    hide Slot, SlotOf, Pow2;
  }

  lemma PublishedFifo(s: State, data: seq<byte>, t: State)
    requires Fifo(s) && |s.sent| + |data| <= |s.received| + Size(s)
    requires forall i :: 0 <= i < |data| ==> s.ring[Slot(|s.sent| + i, Size(s))] == data[i]
    requires t.order == s.order && t.ring == s.ring && t.cons == s.cons && t.received == s.received
    requires t.sent == s.sent + data && t.prod == (s.prod + |data|) % WORD
    ensures Fifo(t)
  {
    hide Slot, Pow2;
    WrapsOn(|s.sent|, |data|);
    assert t.received == t.sent[..|t.received|];
    forall k | |t.received| <= k < |t.sent|
      ensures t.ring[Slot(k, Size(t))] == t.sent[k]
    {
      if k >= |s.sent| {
        var i := k - |s.sent|;
        assert s.ring[Slot(|s.sent| + i, Size(s))] == data[i];
      }
    }
  }

  lemma WPublishesKeeps(s: State)
    requires Fifo(s) && WLocal(s) && s.w.pc == WPublish
    ensures Fifo(WPublishes(s)) && WLocal(WPublishes(s))
  {
    hide Slot, Pow2, Fifo;
    PublishedFifo(s, s.w.buf[..s.w.n], WPublishes(s));
  }

  lemma WPublishesFrame(s: State)
    requires WWake(s) && RWake(s) && s.w.pc == WPublish
    ensures var t := WPublishes(s);
            s.sent <= t.sent && t.received == s.received && t.order == s.order && t.r == s.r && WWake(t) && RWake(t)
  {
  }

  lemma WNotifiesKeeps(s: State)
    requires WLocal(s) && WWake(s) && RWake(s) && s.w.pc == WNotify
    ensures var t := WNotifies(s); SameData(s, t) && t.r == s.r && WLocal(t) && WWake(t) && RWake(t)
  {
    hide Slot, Pow2;
  }

  lemma WReturnsKeeps(s: State)
    requires WLocal(s) && WWake(s) && RWake(s) && s.w.pc == WAfter
    ensures var t := WReturns(s); SameData(s, t) && t.r == s.r && WLocal(t) && WWake(t) && RWake(t)
  {
    hide Slot, Pow2;
  }

  /** Raising the reader's event, and taking one's own. */
  lemma WEventsKeep(s: State, t: State)
    requires WLocal(s) && WWake(s) && RWake(s)
    requires
      || (s.w.pc == WSignal && t == s.(eventR := true, w := s.w.(pc := WAfter)))
      || (s.w.pc == WWait && t == s.(eventW := false, w := s.w.(pc := WRead)))
    ensures SameData(s, t) && t.r == s.r && WLocal(t) && WWake(t) && RWake(t)
  {
    hide Slot, Pow2;
  }

  lemma WLimits(s: State)
    requires Fifo(s) && WLocal(s)
    ensures |s.received| <= |s.sent| && |s.ring| == Size(s) && (s.w.pc == WCopy ==> s.w.j <= s.w.n)
  {}

  lemma WriterKeepsInv(s: State)
    requires Inv(s)
    ensures Inv(WriterStep(s))
  {
    hide Size, Fifo, WLocal, RLocal, WWake, RWake, SameData, WReads, WRequests, WRereads, WDecides, WCopies,
         WPublishes, WNotifies, WReturns;
    WLimits(s);
    var t := WriterStep(s);
    match s.w.pc {
      case WIdle =>
      case WRead => WReadsKeeps(s);
      case WRequest => WRequestsKeeps(s);
      case WReread => WRereadsKeeps(s);
      case WDecide =>
        WDecidesFrame(s);
        WDecidesKeeps(s);
      case WCopy =>
        WCopiesFrame(s);
        if s.w.j < s.w.n {
          WCopiesKeeps(s);
        } else {
          WCopyEnds(s);
        }
      case WPublish =>
        WPublishesFrame(s);
        WPublishesKeeps(s);
      case WNotify => WNotifiesKeeps(s);
      case WSignal => WEventsKeep(s, t);
      case WAfter => WReturnsKeeps(s);
      case WWait =>
        if s.eventW {
          WEventsKeep(s, t);
        }
    }
    if SameData(s, t) {
      FifoFrame(s, t);
    }
    SameStream(s, t);
    RLocalFrame(s, t);
  }

  lemma SameStream(s: State, t: State)
    ensures SameData(s, t) ==> t.sent == s.sent && t.received == s.received && t.order == s.order
  {}

  // ----- The reader's steps

  lemma RReadsKeeps(s: State)
    requires Fifo(s) && RLocal(s) && WWake(s) && s.r.pc == RRead
    ensures var t := RReads(s); SameData(s, t) && t.w == s.w && RLocal(t) && WWake(t) && RWake(t)
  {
    RawReadings(s);
    hide Slot, Space, Ready, Minus, Pow2;
  }

  lemma RRequestsKeeps(s: State)
    requires RLocal(s) && WWake(s) && s.r.pc == RRequest
    ensures var t := RRequests(s); SameData(s, t) && t.w == s.w && RLocal(t) && WWake(t) && RWake(t)
  {
    hide Slot, Pow2;
  }

  lemma RRereadsKeeps(s: State)
    requires Fifo(s) && RLocal(s) && WWake(s) && RWake(s) && s.r.pc == RReread
    ensures var t := RRereads(s); SameData(s, t) && t.w == s.w && RLocal(t) && WWake(t) && RWake(t)
  {
    RawReadings(s);
    hide Slot, Space, Ready, Minus, Pow2;
  }

  lemma RDecidesKeeps(s: State)
    requires RLocal(s) && s.r.pc == RDecide
    ensures RLocal(RDecides(s))
  {
    hide Slot, Pow2;
  }

  lemma RDecidesFrame(s: State)
    requires WWake(s) && RWake(s) && s.r.pc == RDecide
    ensures var t := RDecides(s); SameData(s, t) && t.w == s.w && WWake(t) && RWake(t)
  {
    hide Slot, Pow2;
  }

  lemma RCopiesKeeps(s: State)
    requires Fifo(s) && RLocal(s) && s.r.pc == RCopy && |s.r.got| < s.r.n
    ensures RLocal(RCopies(s))
  {
    SlotIs(s, |s.received|, |s.r.got|);
    hide Slot, SlotOf, Pow2;
    var k := |s.received| + |s.r.got|;
    assert s.ring[Slot(k, Size(s))] == s.sent[k];
    assert s.sent[|s.received|..k + 1] == s.sent[|s.received|..k] + [s.sent[k]];
  }

  lemma RCopyEnds(s: State)
    requires RLocal(s) && s.r.pc == RCopy && |s.r.got| == s.r.n
    ensures RLocal(RCopies(s))
  {
    hide Slot, SlotOf, Pow2;
  }

  lemma RCopiesFrame(s: State)
    requires WWake(s) && RWake(s) && s.r.pc == RCopy
    ensures var t := RCopies(s); SameData(s, t) && t.w == s.w && WWake(t) && RWake(t)
  {
    hide Slot, SlotOf, Pow2;
  }

  lemma RPublishesKeeps(s: State)
    requires Fifo(s) && RLocal(s) && s.r.pc == RPublish
    ensures Fifo(RPublishes(s)) && RLocal(RPublishes(s))
  {
    hide Slot, Pow2;
    WrapsOn(|s.received|, s.r.n);
    var t := RPublishes(s);
    assert t.received == s.sent[..|s.received| + s.r.n];
  }

  lemma RPublishesFrame(s: State)
    requires WWake(s) && RWake(s) && s.r.pc == RPublish
    ensures var t := RPublishes(s);
            t.w == s.w && t.sent == s.sent && t.ring == s.ring && t.order == s.order && |s.received| <= |t.received|
                && WWake(t) && RWake(t)
  {
  }

  lemma RNotifiesKeeps(s: State)
    requires RLocal(s) && WWake(s) && RWake(s) && s.r.pc == RNotify
    ensures var t := RNotifies(s); SameData(s, t) && t.w == s.w && RLocal(t) && WWake(t) && RWake(t)
  {
    hide Slot, Pow2;
  }

  lemma REventsKeep(s: State, t: State)
    requires RLocal(s) && WWake(s) && RWake(s)
    requires
      || (s.r.pc == RSignal && t == s.(eventW := true, r := s.r.(pc := RIdle)))
      || (s.r.pc == RWait && t == s.(eventR := false, r := s.r.(pc := RRead)))
    ensures SameData(s, t) && t.w == s.w && RLocal(t) && WWake(t) && RWake(t)
  {
    hide Slot, Pow2;
  }

  lemma RLimits(s: State)
    requires RLocal(s)
    ensures s.r.pc == RCopy ==> |s.r.got| <= s.r.n
  {}

  lemma ReaderKeepsInv(s: State)
    requires Inv(s)
    ensures Inv(ReaderStep(s))
  {
    hide Fifo, WLocal, RLocal, WWake, RWake, SameData, RReads, RRequests, RRereads, RDecides, RCopies, RPublishes,
         RNotifies;
    RLimits(s);
    var t := ReaderStep(s);
    match s.r.pc {
      case RIdle =>
      case RRead => RReadsKeeps(s);
      case RRequest => RRequestsKeeps(s);
      case RReread => RRereadsKeeps(s);
      case RDecide =>
        RDecidesFrame(s);
        RDecidesKeeps(s);
      case RCopy =>
        RCopiesFrame(s);
        if |s.r.got| < s.r.n {
          RCopiesKeeps(s);
        } else {
          RCopyEnds(s);
        }
      case RPublish =>
        RPublishesFrame(s);
        RPublishesKeeps(s);
      case RNotify => RNotifiesKeeps(s);
      case RSignal => REventsKeep(s, t);
      case RWait =>
        if s.eventR {
          REventsKeep(s, t);
        }
    }
    if SameData(s, t) {
      FifoFrame(s, t);
    }
    SameRing(s, t);
    WLocalFrame(s, t);
  }

  lemma SameRing(s: State, t: State)
    ensures SameData(s, t) ==> t.sent == s.sent && t.ring == s.ring && t.received == s.received && t.order == s.order
  {}

  lemma CallKeepsInv(s: State, a: Action)
    requires Inv(s) && (a.WriterCall? || a.ReaderCall?)
    ensures Inv(Apply(s, a))
  {
    hide Slot, Pow2, Minus;
  }

  lemma InitialInv(s: State)
    requires Initial(s)
    ensures Inv(s)
  {}

  /** In every run, however calls and steps interleave, the invariant holds. */
  lemma {:induction false} RunsKeepInv(s: State, actions: seq<Action>)
    requires Initial(s)
    ensures Inv(After(s, actions))
    decreases |actions|
  {
    hide Inv, Initial, WriterStep, ReaderStep;
    if actions == [] {
      InitialInv(s);
    } else {
      var front, a := actions[..|actions| - 1], actions[|actions| - 1];
      RunsKeepInv(s, front);
      var t := After(s, front);
      match a {
        case WriterCall(_, _, _) => CallKeepsInv(t, a);
        case ReaderCall(_, _, _) => CallKeepsInv(t, a);
        case WriterMoves => WriterKeepsInv(t);
        case ReaderMoves => ReaderKeepsInv(t);
      }
    }
  }

  // ----- What every run gives -----------------------------------------------------------------------------------

  /** Bytes come out in the order they went in, none lost, duplicated or altered; at most a ring-full is
      in flight, and prod - cons modulo 2^32 counts it however often the indexes have wrapped. */
  lemma DeliveredInOrder(s: State, actions: seq<Action>)
    requires Initial(s)
    ensures var t := After(s, actions);
            && t.received <= t.sent && |t.sent| - |t.received| <= Size(t)
            && Minus(t.prod, t.cons) == |t.sent| - |t.received|
  {
    hide After, Initial;
    RunsKeepInv(s, actions);
    RawReadings(After(s, actions));
  }

  /** The writer sleeps though there is room for it, or the reader though there is data for it, and
      nothing is on its way to wake it. */
  predicate LostWakeup(s: State) {
    || (s.w.pc == WWait && Space(s) >= WNeed(s.w) && !s.eventW && s.r.pc != RSignal
          && !(s.r.pc == RNotify && s.notifyRead))
    || (s.r.pc == RWait && Ready(s) >= RNeed(s.r) && !s.eventR && s.w.pc != WSignal
          && !(s.w.pc == WNotify && s.notifyWrite))
  }

  lemma NoLostWakeup(s: State, actions: seq<Action>)
    requires Initial(s)
    ensures !LostWakeup(After(s, actions))
  {
    hide After, Initial, Space, Ready;
    RunsKeepInv(s, actions);
    RawReadings(After(s, actions));
  }

  /** Both ends are blocked and neither has an event to wake it: nothing will ever move again. */
  predicate Stuck(s: State) {
    s.w.pc == WWait && s.r.pc == RWait && !s.eventW && !s.eventR
  }

  /** Only a send and a recv too large to meet in the ring can block each other. */
  lemma StuckNeeds(s: State, actions: seq<Action>)
    requires Initial(s)
    ensures var t := After(s, actions); Stuck(t) ==> WNeed(t.w) + RNeed(t.r) >= Size(t) + 2
  {
    hide After, Initial;
    RunsKeepInv(s, actions);
    RawReadings(After(s, actions));
  }

  lemma StreamsNeverStuck(s: State, actions: seq<Action>)
    requires Initial(s)
    ensures var t := After(s, actions); t.w.kind.Stream? && t.r.kind.Stream? ==> !Stuck(t)
  {
    hide After, Initial, Stuck;
    StuckNeeds(s, actions);
  }
}
