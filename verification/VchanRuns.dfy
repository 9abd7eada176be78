/** Whole runs of a vchan: every byte offered by a blocking writer goes out once and in order, and the
    blocked send and recv that can never meet are reached from every new channel. */
module VchanRuns {
  import opened Arith
  import opened Bytes
  import opened Vchan

  // ----- What the callers wrote is what is sent ------------------------------------------------------------

  /** The bytes of every write or send that started, in order. */
  function Offered(s: State, actions: seq<Action>): seq<byte> {
    if actions == [] then []
    else
      var front, a := actions[..|actions| - 1], actions[|actions| - 1];
      Offered(s, front) + (if a.WriterCall? && After(s, front).w.pc == WIdle then a.data else [])
  }

  /** Bytes of the call in progress that are not published yet. */
  function Pending(s: State): seq<byte> {
    if s.w.pc == WIdle then [] else s.w.buf
  }

  /** Blocking calls, and no send larger than the ring: the calls that promise to take everything. */
  ghost predicate TakeAll(size: nat, actions: seq<Action>) {
    forall a :: a in actions && a.WriterCall? ==> a.wblocking && (a.wkind.Packet? ==> |a.data| <= size)
  }

  predicate CallTakesAll(s: State) {
    s.w.pc != WIdle ==> s.w.blocking && (s.w.kind.Packet? ==> |s.w.buf| <= Size(s))
  }

  lemma StepKeepsOffer(s: State)
    requires WLocal(s) && CallTakesAll(s)
    ensures var t := WriterStep(s); t.order == s.order && CallTakesAll(t) && t.sent + Pending(t) == s.sent + Pending(s)
  {
    hide Pow2, WLocal, WReads, WRequests, WRereads, WDecides, WCopies, WPublishes, WNotifies, WReturns;
    match s.w.pc {
      case WIdle =>
      case WRead => StaysBusy(s);
      case WRequest => StaysBusy(s);
      case WReread => StaysBusy(s);
      case WDecide => DecideKeepsOffer(s);
      case WCopy => StaysBusy(s);
      case WPublish => PublishKeepsOffer(s);
      case WNotify => StaysBusy(s);
      case WSignal =>
      case WAfter => ReturnKeepsOffer(s);
      case WWait =>
    }
  }

  predicate SameCall(s: State, t: State) {
    && t.order == s.order && t.sent == s.sent && t.w.pc != WIdle
    && t.w.buf == s.w.buf && t.w.kind == s.w.kind && t.w.blocking == s.w.blocking
  }

  lemma StaysBusy(s: State)
    requires s.w.pc != WIdle
    ensures SameCall(s, WReads(s)) && SameCall(s, WRequests(s)) && SameCall(s, WRereads(s))
    ensures SameCall(s, WCopies(s)) && SameCall(s, WNotifies(s))
  {
    hide Slot, SlotOf, Space;
  }

  lemma ReturnKeepsOffer(s: State)
    requires CallTakesAll(s) && s.w.pc == WAfter
    ensures var t := WReturns(s); t.order == s.order && CallTakesAll(t) && t.sent == s.sent && Pending(t) == Pending(s)
  {}

  lemma DecideKeepsOffer(s: State)
    requires CallTakesAll(s) && s.w.pc == WDecide
    ensures var t := WDecides(s); t.order == s.order && CallTakesAll(t) && t.sent == s.sent && Pending(t) == Pending(s)
  {
    hide Slot;
  }

  lemma PublishKeepsOffer(s: State)
    requires CallTakesAll(s) && s.w.pc == WPublish
    ensures var t := WPublishes(s); t.order == s.order && CallTakesAll(t) && t.sent + Pending(t) == s.sent + Pending(s)
  {
    var n := Min(s.w.n, |s.w.buf|);
    assert s.w.buf == s.w.buf[..n] + s.w.buf[n..];
    assert s.sent + s.w.buf == (s.sent + s.w.buf[..n]) + s.w.buf[n..];
  }

  lemma ReaderKeepsOffer(s: State)
    ensures var t := ReaderStep(s); t.order == s.order && t.sent == s.sent && t.w == s.w
  {
    hide Slot, SlotOf, Ready;
  }

  lemma {:induction false} OfferSettled(s: State, actions: seq<Action>)
    requires Initial(s) && TakeAll(Size(s), actions)
    ensures var t := After(s, actions);
            t.order == s.order && CallTakesAll(t) && Offered(s, actions) == t.sent + Pending(t)
    decreases |actions|
  {
    hide WriterStep, ReaderStep, Fifo, WLocal, RLocal, WWake, RWake, Space, Ready, Slot;
    if actions != [] {
      var front, a := actions[..|actions| - 1], actions[|actions| - 1];
      OfferSettled(s, front);
      RunsKeepInv(s, front);
      var t := After(s, front);
      match a {
        case WriterCall(_, _, data) =>
          assert a in actions;
          assert t.w.pc == WIdle && data == [] ==> Offered(s, actions) == Offered(s, front);
        case ReaderCall(_, _, _) =>
        case WriterMoves => StepKeepsOffer(t);
        case ReaderMoves => ReaderKeepsOffer(t);
      }
    }
  }

  /** Once the last such call has returned, exactly the bytes offered have been sent, and at any time
      what the reader has is a prefix of what the callers wrote. */
  lemma ReaderGetsWhatWasWritten(s: State, actions: seq<Action>)
    requires Initial(s) && TakeAll(Size(s), actions)
    ensures var t := After(s, actions);
            && (t.w.pc == WIdle ==> t.sent == Offered(s, actions))
            && t.received <= Offered(s, actions)
  {
    hide After, Offered, Initial;
    OfferSettled(s, actions);
    DeliveredInOrder(s, actions);
  }

  // ----- The converse of StuckNeeds ---------------------------------------------------------------------------

  ghost predicate Reaches(s: State, t: State) {
    exists actions :: After(s, actions) == t
  }

  lemma OneMore(s: State, t: State, a: Action) returns (u: State)
    requires Reaches(s, t)
    ensures u == Apply(t, a) && Reaches(s, u)
  {
    hide WriterStep, ReaderStep;
    u := Apply(t, a);
    var actions :| After(s, actions) == t;
    assert (actions + [a])[..|actions|] == actions;
    assert After(s, actions + [a]) == u;
  }

  /** A blocking recv of more than is there asks, reads again and sleeps. */
  lemma RecvBlocks(s: State, t: State) returns (u: State)
    requires Reaches(s, t) && t.r.pc == RRead && t.r.kind == Packet && t.r.blocking && Ready(t) < t.r.want <= Size(t)
    ensures Reaches(s, u)
    ensures u == t.(notifyWrite := true, r := t.r.(pc := RWait, requested := true, avail := Ready(t), seen := |t.sent|))
  {
    hide Reaches, After, Slot, SlotOf, Minus, Pow2;
    u := OneMore(s, t, ReaderMoves);
    u := OneMore(s, u, ReaderMoves);
    u := OneMore(s, u, ReaderMoves);
    assert Ready(u) == Ready(t);
    u := OneMore(s, u, ReaderMoves);
  }

  lemma SendBlocks(s: State, t: State) returns (u: State)
    requires Reaches(s, t) && t.w.pc == WRead && t.w.kind == Packet && t.w.blocking && Space(t) < |t.w.buf| <= Size(t)
    ensures Reaches(s, u)
    ensures u == t.(notifyRead := true,
            w := t.w.(pc := WWait, requested := true, avail := Space(t), seen := |t.received|))
  {
    hide Reaches, After, Slot, SlotOf, Minus, Pow2;
    u := OneMore(s, t, WriterMoves);
    u := OneMore(s, u, WriterMoves);
    u := OneMore(s, u, WriterMoves);
    assert Space(u) == Space(t);
    u := OneMore(s, u, WriterMoves);
  }

  lemma CopyAll(s: State, t: State) returns (u: State)
    requires Reaches(s, t) && t.w.pc == WCopy && t.w.j <= t.w.n <= |t.w.buf| && |t.ring| == Size(t)
    ensures Reaches(s, u) && |u.ring| == |t.ring| && u == t.(ring := u.ring, w := t.w.(j := t.w.n))
    decreases t.w.n - t.w.j
  {
    hide Reaches, After, Slot, Minus, Pow2;
    u := t;
    if t.w.j < t.w.n {
      u := OneMore(s, t, WriterMoves);
      u := CopyAll(s, u);
    }
  }

  /** A write that fits, to a reader that has asked to be told: it copies, publishes and raises the event. */
  ghost predicate Wrote(t: State, u: State) {
    && u.w.pc == WIdle && u.r == t.r && u.order == t.order && u.received == t.received
         && |u.sent| == |t.sent| + |t.w.buf|
    && u.eventR && u.eventW == t.eventW
  }

  lemma WriteFits(s: State, t: State) returns (u: State)
    requires Reaches(s, t) && t.w.pc == WRead && t.w.kind == Stream && t.w.blocking && 0 < |t.w.buf| <= Space(t)
    requires t.notifyWrite && |t.ring| == Size(t)
    ensures Reaches(s, u) && Wrote(t, u)
  {
    hide Reaches, After, Slot, SlotOf, Minus, Pow2, Space;
    u := OneMore(s, t, WriterMoves);
    u := OneMore(s, u, WriterMoves);
    u := CopyAll(s, u);
    u := OneMore(s, u, WriterMoves);
    u := OneMore(s, u, WriterMoves);
    u := OneMore(s, u, WriterMoves);
    u := OneMore(s, u, WriterMoves);
    u := OneMore(s, u, WriterMoves);
  }

  lemma ReachedReadings(s: State, t: State)
    requires Initial(s) && Reaches(s, t)
    ensures |t.ring| == Size(t) && |t.received| <= |t.sent| && Ready(t) == |t.sent| - |t.received|
    ensures Space(t) == Size(t) - (|t.sent| - |t.received|)
  {
    hide After, Ready, Space;
    var actions :| After(s, actions) == t;
    RunsKeepInv(s, actions);
    RawReadings(t);
  }


  /** The reader sleeps in a recv of `recv` bytes with `flight` bytes in the ring; the writer is idle. */
  ghost predicate Parked(s: State, t: State, recv: nat, flight: nat) {
    && Reaches(s, t) && t.order == s.order && t.w.pc == WIdle && !t.eventW && t.notifyWrite
    && t.r.pc == RWait && t.r.kind == Packet && t.r.blocking && t.r.want == recv && !t.eventR
    && |t.sent| == |t.received| + flight
  }

  lemma RecvFirst(s: State, recv: nat) returns (t: State)
    requires Initial(s) && 0 < recv <= Size(s)
    ensures Parked(s, t, recv, 0)
  {
    assert Reaches(s, s) by {
      assert After(s, []) == s;
    }
    hide Reaches, After, Slot, SlotOf, Minus, Pow2, Ready, Space, WriterStep, ReaderStep;
    t := OneMore(s, s, ReaderCall(Packet, true, recv));
    ReachedReadings(s, t);
    t := RecvBlocks(s, t);
  }

  lemma WriteBetween(s: State, t: State, recv: nat, k: nat) returns (u: State)
    requires Initial(s) && Parked(s, t, recv, 0) && 0 < k < recv <= Size(s)
    ensures Parked(s, u, recv, k)
  {
    hide Initial, Reaches, After, Slot, SlotOf, Minus, Pow2, Ready, Space, WriterStep;
    var data := seq(k, i => 0 as byte);
    u := OneMore(s, t, WriterCall(Stream, true, data));
    ReachedReadings(s, u);
    u := WriteFits(s, u);
    u := OneMore(s, u, ReaderMoves);
    ReachedReadings(s, u);
    u := RecvBlocks(s, u);
  }

  lemma SendLast(s: State, t: State, recv: nat, flight: nat, send: nat) returns (u: State)
    requires Initial(s) && Parked(s, t, recv, flight) && Size(s) - flight < send <= Size(s)
    ensures Reaches(s, u) && Stuck(u) && WNeed(u.w) == send && RNeed(u.r) == recv
  {
    hide Initial, Reaches, After, Slot, SlotOf, Minus, Pow2, Ready, Space, WriterStep, ReaderStep;
    var data := seq(send, i => 0 as byte);
    u := OneMore(s, t, WriterCall(Packet, true, data));
    ReachedReadings(s, u);
    u := SendBlocks(s, u);
  }

  /** Every pair of sizes that StuckNeeds does not rule out blocks for good in some run of every channel. */
  lemma StuckReachable(s: State, send: nat, recv: nat) returns (actions: seq<Action>)
    requires Initial(s) && send <= Size(s) && recv <= Size(s) && send + recv >= Size(s) + 2
    ensures var t := After(s, actions); Stuck(t) && WNeed(t.w) == send && RNeed(t.r) == recv
  {
    hide Initial, After, Stuck, Parked, WNeed, RNeed, Pow2;
    var flight := Size(s) - send + 1;
    var t := RecvFirst(s, recv);
    t := WriteBetween(s, t, recv, flight);
    t := SendLast(s, t, recv, flight, send);
    actions :| After(s, actions) == t;
  }
}
