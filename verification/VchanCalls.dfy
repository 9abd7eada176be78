/** What one call on a vchan comes to, whatever the other endpoint does meanwhile: how many bytes a read, recv,
    write or send has moved when it returns. */
module VchanCalls {
  import opened Arith
  import opened Bytes
  import opened Vchan

  // ----- Reading ---------------------------------------------------------------------------------------------

  /** The last reading of prod showed `avail` bytes past the first `from`: all that had been sent by then, or at
      least as many as the call wants. */
  ghost predicate Reported(u: State, from: nat) {
    && from + u.r.avail <= |u.sent|
    && (if u.r.requested then from + u.r.avail == u.r.seen else u.r.avail >= u.r.want)
  }

  /** Bytes a call that found this many ready takes: all it wants (recv), or as many as there are (read). */
  predicate Takes(kind: Kind, want: nat, avail: nat, n: nat) {
    n > 0 && if kind.Packet? then n == want <= avail else n == if want <= avail then want else avail
  }

  /** The reader is inside a call that started when `from` bytes had been received. */
  ghost predicate InRead(u: State, from: nat, call: Action) {
    && call.ReaderCall? && u.r.pc != RIdle
    && u.r.kind == call.rkind && u.r.blocking == call.rblocking && u.r.want == call.want
    && (u.r.pc != RNotify && u.r.pc != RSignal ==> |u.received| == from)
    && (u.r.pc == RCopy || u.r.pc == RPublish ==> Takes(call.rkind, call.want, u.r.avail, u.r.n) && Reported(u, from))
    && (u.r.pc == RNotify || u.r.pc == RSignal ==>
          && |u.received| == from + u.r.n
          && Takes(call.rkind, call.want, u.r.avail, u.r.n) && Reported(u, from))
  }

  /** The call has returned.  Either it took what Takes says of the bytes reported ready; or it took nothing, because
      fewer than it needs were ready and it does not block, or because it is a recv of more than the ring holds. */
  ghost predicate ReadDone(v: State, from: nat, call: Action) {
    && call.ReaderCall? && v.r.pc == RIdle && Reported(v, from)
    && ((|v.received| > from && Takes(call.rkind, call.want, v.r.avail, |v.received| - from)) ||
        (|v.received| == from && v.r.avail < (if call.rkind.Packet? then call.want else 1)
         && (!call.rblocking || (call.rkind.Packet? && call.want > Size(v)))))
  }

  lemma ReadMoves(u: State, from: nat, call: Action)
    requires Inv(u) && InRead(u, from, call)
    ensures var v := ReaderStep(u); if v.r.pc == RIdle then ReadDone(v, from, call) else InRead(v, from, call)
  {
    hide Fifo, WLocal, RLocal, WWake, RWake, RReads, RRequests, RRereads, RDecides, RCopies, RPublishes, RNotifies;
    hide ReadDone, InRead;
    ReadInside(u, from, call);
    match u.r.pc {
      case RRead => LooksRead(u, from, call);
      case RRequest => LooksRead(u, from, call);
      case RReread => LooksRead(u, from, call);
      case RDecide => DecideReads(u, from, call);
      case RCopy => CopyReads(u, from, call);
      case RPublish => PublishReads(u, from, call);
      case RNotify => NotifyReads(u, from, call);
      case RSignal => SignalReads(u, from, call);
      case RWait => SignalReads(u, from, call);
    }
  }

  lemma LooksRead(u: State, from: nat, call: Action)
    requires InRead(u, from, call)
    ensures u.r.pc == RRead ==> InRead(RReads(u), from, call) && RReads(u).r.pc != RIdle
    ensures u.r.pc == RRequest ==> InRead(RRequests(u), from, call) && RRequests(u).r.pc != RIdle
    ensures u.r.pc == RReread ==> InRead(RRereads(u), from, call) && RRereads(u).r.pc != RIdle
  {
    hide Ready, Takes, Reported;
  }

  lemma CopyReads(u: State, from: nat, call: Action)
    requires InRead(u, from, call) && u.r.pc == RCopy
    ensures InRead(RCopies(u), from, call) && RCopies(u).r.pc != RIdle
  {
    hide SlotOf, Takes;
  }

  lemma PublishReads(u: State, from: nat, call: Action)
    requires RLocal(u) && InRead(u, from, call) && u.r.pc == RPublish
    ensures InRead(RPublishes(u), from, call) && RPublishes(u).r.pc != RIdle
  {
    hide Takes, Pow2;
  }

  lemma NotifyReads(u: State, from: nat, call: Action)
    requires InRead(u, from, call) && u.r.pc == RNotify
    ensures var v := RNotifies(u); if v.r.pc == RIdle then ReadDone(v, from, call) else InRead(v, from, call)
  {
    hide Pow2;
  }

  lemma SignalReads(u: State, from: nat, call: Action)
    requires InRead(u, from, call)
    ensures u.r.pc == RSignal ==> ReadDone(u.(eventW := true, r := u.r.(pc := RIdle)), from, call)
    ensures u.r.pc == RWait ==> InRead(u.(eventR := false, r := u.r.(pc := RRead)), from, call)
  {
    hide Pow2;
  }

  lemma DecideReads(u: State, from: nat, call: Action)
    requires RLocal(u) && InRead(u, from, call) && u.r.pc == RDecide
    ensures var v := RDecides(u); if v.r.pc == RIdle then ReadDone(v, from, call) else InRead(v, from, call)
  {
    hide Pow2;
  }

  /** The writer's steps and calls leave the call where it is. */
  lemma ReadStands(u: State, v: State, from: nat, call: Action)
    requires InRead(u, from, call) && v.r == u.r && v.received == u.received && u.sent <= v.sent
    ensures InRead(v, from, call)
  {}

  lemma WriterLeaves(u: State, a: Action)
    requires a.WriterMoves? || a.WriterCall? || (a.ReaderCall? && u.r.pc != RIdle)
    ensures var v := Apply(u, a); v.r == u.r && v.received == u.received && u.sent <= v.sent
  {
    hide WriterStep;
    if a.WriterMoves? {
      WriterStepLeaves(u);
    }
  }

  ghost predicate SameReader(u: State, v: State) {
    v.r == u.r && v.received == u.received && u.sent <= v.sent
  }

  lemma WriterStepLeaves(u: State)
    ensures SameReader(u, WriterStep(u))
  {
    hide WReads, WRequests, WRereads, WDecides, WCopies, WPublishes, WNotifies, WReturns;
    LooksLeave(u);
    ActsLeave(u);
  }

  lemma LooksLeave(u: State)
    ensures SameReader(u, WReads(u)) && SameReader(u, WRequests(u)) && SameReader(u, WRereads(u))
    ensures SameReader(u, WDecides(u)) && SameReader(u, WReturns(u))
  {
    hide Space, Size;
  }

  lemma ActsLeave(u: State)
    ensures SameReader(u, WCopies(u)) && SameReader(u, WPublishes(u)) && SameReader(u, WNotifies(u))
  {
    hide SlotOf;
  }

  ghost predicate SameWriter(u: State, v: State) {
    v.w == u.w && v.sent == u.sent && u.received <= v.received && v.order == u.order
  }

  lemma ReaderStepLeaves(u: State)
    ensures SameWriter(u, ReaderStep(u))
  {
    hide RReads, RRequests, RRereads, RDecides, RCopies, RPublishes, RNotifies;
    LooksKeep(u);
    ActsKeep(u);
  }

  lemma LooksKeep(u: State)
    ensures SameWriter(u, RReads(u)) && SameWriter(u, RRequests(u)) && SameWriter(u, RRereads(u))
    ensures SameWriter(u, RDecides(u))
  {
    hide Ready, Size;
  }

  lemma ActsKeep(u: State)
    ensures SameWriter(u, RCopies(u)) && SameWriter(u, RPublishes(u)) && SameWriter(u, RNotifies(u))
  {
    hide SlotOf;
  }

  /** The states of a run from its i-th action on have the reader busy. */
  ghost predicate ReaderBusy(s: State, actions: seq<Action>, i: nat) {
    forall j :: i <= j <= |actions| ==> After(s, actions[..j]).r.pc != RIdle
  }

  /** However the run interleaves, between the start of a reading call and its return the reader is inside it. */
  lemma {:induction false} ReadGoesOn(s: State, actions: seq<Action>, i: nat)
    requires Initial(s) && i < |actions| && actions[i].ReaderCall? && After(s, actions[..i]).r.pc == RIdle
    requires ReaderBusy(s, actions, i + 1)
    ensures InRead(After(s, actions), |After(s, actions[..i]).received|, actions[i])
    decreases |actions|
  {
    hide Inv, InRead, WriterStep, ReaderStep, Initial;
    var last := |actions| - 1;
    var front, a, from := actions[..last], actions[last], |After(s, actions[..i]).received|;
    assert actions[..|actions|] == actions;
    if i == last {
      ReadStarts(After(s, front), a);
    } else {
      assert front[..i] == actions[..i] && front[i] == actions[i];
      assert forall j :: 0 <= j <= last ==> front[..j] == actions[..j];
      ReadGoesOn(s, front, i);
      var u := After(s, front);
      RunsKeepInv(s, front);
      if a.ReaderMoves? {
        ReadMoves(u, from, actions[i]);
      } else {
        ReadInside(u, from, actions[i]);
        WriterLeaves(u, a);
        ReadStands(u, Apply(u, a), from, actions[i]);
      }
    }
  }

  lemma ReadInside(u: State, from: nat, call: Action)
    requires InRead(u, from, call)
    ensures u.r.pc != RIdle
  {}

  lemma ReadStarts(u: State, call: Action)
    requires call.ReaderCall? && u.r.pc == RIdle && Apply(u, call).r.pc != RIdle
    ensures InRead(Apply(u, call), |u.received|, call)
  {}

  /** In every run, when a recv or read returns: a recv with data has received exactly as much as it asked for; a
      read the smaller of that and what was ready, at least a byte; and a call without data did not block and
      found fewer bytes than it needs, or was a recv larger than the ring. */
  lemma ReadReturns(s: State, actions: seq<Action>, i: nat)
    requires Initial(s) && i < |actions| && actions[i].ReaderCall? && After(s, actions[..i]).r.pc == RIdle
    requires ReaderBusy(s, actions, i + 1) && After(s, actions + [ReaderMoves]).r.pc == RIdle
    ensures var before, after := After(s, actions[..i]), After(s, actions + [ReaderMoves]);
            && ReadDone(after, |before.received|, actions[i])
            && before.received <= after.received <= after.sent
  {
    hide Inv, InRead, ReadDone, WriterStep, ReaderStep, Initial;
    ReadGoesOn(s, actions, i);
    RunsKeepInv(s, actions);
    assert (actions + [ReaderMoves])[..|actions|] == actions;
    ReadMoves(After(s, actions), |After(s, actions[..i]).received|, actions[i]);
    RunsKeepInv(s, actions[..i]);
    RunsKeepInv(s, actions + [ReaderMoves]);
    assert i <= |actions|;
    SentGrows(s, actions + [ReaderMoves], i);
    assert (actions + [ReaderMoves])[..i] == actions[..i];
    ReceivedIs(After(s, actions[..i]));
    ReceivedIs(After(s, actions + [ReaderMoves]));
  }

  lemma ReceivedIs(u: State)
    requires Inv(u)
    ensures |u.received| <= |u.sent| && u.received == u.sent[..|u.received|]
  {}

  /** Neither record of the stream ever shrinks. */
  lemma {:induction false} SentGrows(s: State, actions: seq<Action>, i: nat)
    requires i <= |actions|
    ensures After(s, actions[..i]).sent <= After(s, actions).sent
    ensures After(s, actions[..i]).received <= After(s, actions).received
    decreases |actions|
  {
    hide WriterStep, ReaderStep;
    if i == |actions| {
      assert actions[..i] == actions;
    } else {
      var front := actions[..|actions| - 1];
      assert front[..i] == actions[..i];
      SentGrows(s, front, i);
      StepGrows(After(s, front), actions[|actions| - 1]);
    }
  }

  lemma StepGrows(u: State, a: Action)
    ensures u.sent <= Apply(u, a).sent && u.received <= Apply(u, a).received
  {
    hide WriterStep, ReaderStep;
    WriterStepLeaves(u);
    ReaderStepLeaves(u);
  }

  // ----- Writing ---------------------------------------------------------------------------------------------

  /** The last reading of cons showed room for `avail` bytes behind the first `from`: all the room there was then, or
      at least as much as is left to send. */
  ghost predicate RoomReported(u: State, from: nat, left: nat) {
    && from + u.w.avail <= |u.received| + Size(u)
    && (if u.w.requested then from + u.w.avail == u.w.seen + Size(u) else u.w.avail >= left)
  }

  predicate WPublished(pc: WPc) {
    pc == WNotify || pc == WSignal || pc == WAfter
  }

  /** `buf` is what is left of the data, and the rest of it has been sent. */
  ghost predicate Split(data: seq<byte>, buf: seq<byte>, before: seq<byte>, sent: seq<byte>) {
    && |buf| <= |data| && buf == data[|data| - |buf|..] && sent == before + data[..|data| - |buf|]
  }

  /** Bytes a write that found room for `avail` sends. */
  function Fits(data: seq<byte>, avail: nat): nat {
    if |data| <= avail then |data| else avail
  }

  /** A send goes out whole or not yet at all, and a write that does not block in one piece. */
  ghost predicate WStage(u: State, from: nat, call: Action)
    requires call.WriterCall?
  {
    var whole, piece := call.wkind.Packet?, call.wkind.Stream? && !call.wblocking;
    && (!WPublished(u.w.pc) && (whole || piece) ==> |u.w.buf| == |call.data|)
    && (WPublished(u.w.pc) && whole ==> |u.w.buf| == 0)
    && (piece && (u.w.pc == WCopy || u.w.pc == WPublish) ==>
          u.w.n == Fits(call.data, u.w.avail) && RoomReported(u, from, |call.data|))
    && (piece && WPublished(u.w.pc) ==>
          |call.data| - |u.w.buf| == Fits(call.data, u.w.avail) && RoomReported(u, from, |call.data|))
  }

  /** The writer is inside a call that started when `before` had been sent. */
  ghost predicate InWrite(u: State, before: seq<byte>, call: Action) {
    && call.WriterCall? && u.w.pc != WIdle && u.w.kind == call.wkind && u.w.blocking == call.wblocking
    && Split(call.data, u.w.buf, before, u.sent) && WStage(u, |before|, call)
  }

  /** The call has returned, and `k` bytes of its data have gone out: all of them if it blocks, unless it is a send
      of more than the ring holds; for a send all or, for want of room, none; for a write as many as there was
      room for. */
  ghost predicate WriteDone(v: State, before: seq<byte>, call: Action, k: nat) {
    && call.WriterCall? && v.w.pc == WIdle && k <= |call.data| && v.sent == before + call.data[..k]
    && (if call.wkind.Packet? then
          || k == |call.data|
          || (k == 0 && RoomReported(v, |before|, |call.data|) && v.w.avail < |call.data|
              && (!call.wblocking || |call.data| > Size(v)))
        else if call.wblocking then k == |call.data|
        else k == Fits(call.data, v.w.avail) && RoomReported(v, |before|, |call.data|))
  }

  ghost predicate WriteAfter(v: State, before: seq<byte>, call: Action) {
    if v.w.pc == WIdle then exists k :: WriteDone(v, before, call, k) else InWrite(v, before, call)
  }

  lemma WriteMoves(u: State, before: seq<byte>, call: Action)
    requires Inv(u) && InWrite(u, before, call)
    ensures WriteAfter(WriterStep(u), before, call)
  {
    hide Fifo, WLocal, RLocal, WWake, RWake, WReads, WRequests, WRereads, WDecides, WCopies, WPublishes, WNotifies,
         WReturns, InWrite, WriteDone;
    WriteInside(u, before, call);
    match u.w.pc {
      case WRead => LooksWrite(u, before, call);
      case WRequest => LooksWrite(u, before, call);
      case WReread => LooksWrite(u, before, call);
      case WDecide => DecideWrites(u, before, call);
      case WCopy => CopyWrites(u, before, call);
      case WPublish => PublishWrites(u, before, call);
      case WNotify => NotifyWrites(u, before, call);
      case WSignal => SignalWrites(u, before, call);
      case WAfter => ReturnWrites(u, before, call);
      case WWait => SignalWrites(u, before, call);
    }
  }

  lemma WriteInside(u: State, before: seq<byte>, call: Action)
    requires InWrite(u, before, call)
    ensures u.w.pc != WIdle
  {}

  lemma LooksWrite(u: State, before: seq<byte>, call: Action)
    requires InWrite(u, before, call)
    ensures u.w.pc == WRead ==> InWrite(WReads(u), before, call) && WReads(u).w.pc != WIdle
    ensures u.w.pc == WRequest ==> InWrite(WRequests(u), before, call) && WRequests(u).w.pc != WIdle
    ensures u.w.pc == WReread ==> InWrite(WRereads(u), before, call) && WRereads(u).w.pc != WIdle
  {
    hide Space, RoomReported, Split, Fits;
  }

  lemma DecideWrites(u: State, before: seq<byte>, call: Action)
    requires WLocal(u) && InWrite(u, before, call) && u.w.pc == WDecide
    ensures WriteAfter(WDecides(u), before, call)
  {
    hide Pow2, Split, WLocal;
    RoomKnown(u);
    SplitLength(call.data, u.w.buf, before, u.sent);
    var v := WDecides(u);
    if v.w.pc == WIdle {
      assert WriteDone(v, before, call, 0);
    }
  }

  lemma RoomKnown(u: State)
    requires WLocal(u) && u.w.pc == WDecide
    ensures RoomReported(u, |u.sent|, |u.w.buf|) && u.w.buf != []
  {
    hide Pow2, Slot;
  }

  lemma SplitLength(data: seq<byte>, buf: seq<byte>, before: seq<byte>, sent: seq<byte>)
    requires Split(data, buf, before, sent)
    ensures |buf| <= |data| && |sent| == |before| + |data| - |buf|
    ensures |buf| == |data| ==> sent == before + data[..0]
    ensures |buf| == 0 ==> sent == before + data[..|data|]
  {}

  lemma CopyWrites(u: State, before: seq<byte>, call: Action)
    requires InWrite(u, before, call) && u.w.pc == WCopy
    ensures InWrite(WCopies(u), before, call) && WCopies(u).w.pc != WIdle
  {
    hide SlotOf, Pow2, Split, Fits;
  }

  lemma PublishWrites(u: State, before: seq<byte>, call: Action)
    requires WLocal(u) && InWrite(u, before, call) && u.w.pc == WPublish
    ensures InWrite(WPublishes(u), before, call) && WPublishes(u).w.pc != WIdle
  {
    hide Pow2, Slot, Split, WLocal, Fits;
    PublishKnown(u);
    SplitFurther(call.data, u.w.buf, before, u.sent, u.w.n);
    SplitLength(call.data, u.w.buf, before, u.sent);
  }

  lemma PublishKnown(u: State)
    requires WLocal(u) && u.w.pc == WPublish
    ensures 0 < u.w.n <= |u.w.buf| && (u.w.kind.Packet? ==> u.w.n == |u.w.buf|)
  {
    hide Pow2, Slot;
  }

  lemma SplitFurther(data: seq<byte>, buf: seq<byte>, before: seq<byte>, sent: seq<byte>, n: nat)
    requires Split(data, buf, before, sent) && n <= |buf|
    ensures Split(data, buf[n..], before, sent + buf[..n])
  {
    var at := |data| - |buf|;
    assert data[..at + n] == data[..at] + buf[..n];
  }

  lemma NotifyWrites(u: State, before: seq<byte>, call: Action)
    requires InWrite(u, before, call) && u.w.pc == WNotify
    ensures InWrite(WNotifies(u), before, call) && WNotifies(u).w.pc != WIdle
  {
    hide Pow2;
  }

  lemma ReturnWrites(u: State, before: seq<byte>, call: Action)
    requires InWrite(u, before, call) && u.w.pc == WAfter
    ensures WriteAfter(WReturns(u), before, call)
  {
    hide Pow2, Fits;
    var v := WReturns(u);
    if v.w.pc == WIdle {
      assert WriteDone(v, before, call, |call.data| - |u.w.buf|);
    }
  }

  lemma SignalWrites(u: State, before: seq<byte>, call: Action)
    requires InWrite(u, before, call)
    ensures u.w.pc == WSignal ==> InWrite(u.(eventR := true, w := u.w.(pc := WAfter)), before, call)
    ensures u.w.pc == WWait ==> InWrite(u.(eventW := false, w := u.w.(pc := WRead)), before, call)
  {
    hide Pow2;
  }

  lemma WriteStands(u: State, v: State, before: seq<byte>, call: Action)
    requires InWrite(u, before, call)
    requires v.w == u.w && v.sent == u.sent && u.received <= v.received && v.order == u.order
    ensures InWrite(v, before, call)
  {
    hide Pow2;
  }

  lemma ReaderLeaves(u: State, a: Action)
    requires a.ReaderMoves? || a.ReaderCall? || (a.WriterCall? && u.w.pc != WIdle)
    ensures var v := Apply(u, a); v.w == u.w && v.sent == u.sent && u.received <= v.received && v.order == u.order
  {
    hide ReaderStep;
    ReaderStepLeaves(u);
  }

  ghost predicate WriterBusy(s: State, actions: seq<Action>, i: nat) {
    forall j :: i <= j <= |actions| ==> After(s, actions[..j]).w.pc != WIdle
  }

  lemma WriteStarts(u: State, call: Action)
    requires call.WriterCall? && u.w.pc == WIdle && Apply(u, call).w.pc != WIdle
    ensures InWrite(Apply(u, call), u.sent, call)
  {
    hide Pow2;
    assert call.data[0..] == call.data && u.sent + call.data[..0] == u.sent;
    assert Split(call.data, call.data, u.sent, u.sent);
  }

  lemma {:induction false} WriteGoesOn(s: State, actions: seq<Action>, i: nat)
    requires Initial(s) && i < |actions| && actions[i].WriterCall? && After(s, actions[..i]).w.pc == WIdle
    requires WriterBusy(s, actions, i + 1)
    ensures InWrite(After(s, actions), After(s, actions[..i]).sent, actions[i])
    decreases |actions|
  {
    hide Inv, InWrite, WriteDone, WriterStep, ReaderStep, Initial;
    var last := |actions| - 1;
    var front, a, before := actions[..last], actions[last], After(s, actions[..i]).sent;
    assert actions[..|actions|] == actions;
    if i == last {
      WriteStarts(After(s, front), a);
    } else {
      assert front[..i] == actions[..i] && front[i] == actions[i];
      assert forall j :: 0 <= j <= last ==> front[..j] == actions[..j];
      WriteGoesOn(s, front, i);
      var u := After(s, front);
      RunsKeepInv(s, front);
      if a.WriterMoves? {
        WriteMoves(u, before, actions[i]);
      } else {
        WriteInside(u, before, actions[i]);
        ReaderLeaves(u, a);
        WriteStands(u, Apply(u, a), before, actions[i]);
      }
    }
  }

  /** In every run, when a send or write returns, what has been added to the stream is its data: all of it if the call
      blocks and, for a send, fits in the ring at all; for a send all or nothing, and nothing only for want of
      room; for a write that does not block as much as there was room for. */
  lemma WriteReturns(s: State, actions: seq<Action>, i: nat)
    requires Initial(s) && i < |actions| && actions[i].WriterCall? && After(s, actions[..i]).w.pc == WIdle
    requires WriterBusy(s, actions, i + 1) && After(s, actions + [WriterMoves]).w.pc == WIdle
    ensures exists k ::
              WriteDone(After(s, actions + [WriterMoves]), After(s, actions[..i]).sent, actions[i], k)
  {
    hide Inv, InWrite, WriteDone, WriterStep, Initial;
    WriteGoesOn(s, actions, i);
    RunsKeepInv(s, actions);
    assert (actions + [WriterMoves])[..|actions|] == actions;
    WriteMoves(After(s, actions), After(s, actions[..i]).sent, actions[i]);
  }
}
