/** sched.c: the round-robin run queue of Mini-OS. */
module Sched {
  import opened Seqs

  type Tid = nat

  /** SECONDS(10), in nanoseconds. */
  const TEN_SECONDS: int := 10_000_000_000

  /** The run queue, the threads that have exited, which threads are runnable, and when sleepers are due
      (0 for never). */
  datatype State = State(queue: seq<Tid>, exited: seq<Tid>, runnable: set<Tid>, wakeup: map<Tid, int>, current: Tid)

  predicate Asleep(s: State, t: Tid) {
    t !in s.runnable && t in s.wakeup && s.wakeup[t] != 0
  }

  /** Runnable, or asleep and due. */
  predicate Ready(s: State, t: Tid, now: int) {
    t in s.runnable || (Asleep(s, t) && s.wakeup[t] <= now)
  }

  ghost predicate Valid(s: State) {
    Distinct(s.queue) && (forall t :: t in s.exited ==> t !in s.queue && t !in s.runnable) && s.current !in s.exited
  }

  // ----- What a call of schedule chooses -----------------------------------------------------------------------

  /** Position of the first ready thread, or the length of the queue. */
  function FirstReady(s: State, q: seq<Tid>, now: int): (i: nat)
    ensures i <= |q| && (i < |q| ==> Ready(s, q[i], now))
    ensures forall j :: 0 <= j < i ==> !Ready(s, q[j], now)
  {
    if q == [] || Ready(s, q[0], now) then 0 else 1 + FirstReady(s, q[1..], now)
  }

  function Rotated(q: seq<Tid>, i: nat): (r: seq<Tid>)
    requires i < |q|
    ensures |r| == |q|
  {
    q[..i] + q[i + 1..] + [q[i]]
  }

  /** A pass that finds a ready thread: it is woken if need be, goes to the tail and runs. */
  function Chosen(s: State, now: int): State
    requires FirstReady(s, s.queue, now) < |s.queue|
  {
    var i := FirstReady(s, s.queue, now);
    var t := s.queue[i];
    State(Rotated(s.queue, i), s.exited, s.runnable + {t}, if t in s.runnable then s.wakeup else s.wakeup[t := 0], t)
  }

  /** How long to block when no thread is ready: until the first sleeper is due, at most ten seconds. */
  function Earliest(s: State, q: seq<Tid>, limit: int): (m: int)
    ensures m <= limit && forall i :: 0 <= i < |q| && Asleep(s, q[i]) ==> m <= s.wakeup[q[i]]
    ensures m == limit || exists i :: 0 <= i < |q| && Asleep(s, q[i]) && m == s.wakeup[q[i]]
  {
    if q == [] then limit
    else
      var last := q[|q| - 1];
      var m := Earliest(s, q[..|q| - 1], limit);
      if Asleep(s, last) && s.wakeup[last] < m then s.wakeup[last] else m
  }

  /** A time to wake up at is set and has come. */
  predicate DueBy(wakeup: map<Tid, int>, t: Tid, now: int) {
    t in wakeup && wakeup[t] != 0 && wakeup[t] <= now
  }

  class Scheduler {
    var queue: seq<Tid>
    var exited: seq<Tid>
    var runnable: set<Tid>
    var wakeup: map<Tid, int>
    var current: Tid

    function Value(): State
      reads this
    {
      State(queue, exited, runnable, wakeup, current)
    }

    constructor (first: Tid)
      ensures Value() == State([first], [], {first}, map[first := 0], first) && Valid(Value())
    {
      queue, exited, runnable, wakeup, current := [first], [], {first}, map[first := 0], first;
    }

    method Wake(t: Tid)
      modifies this`wakeup, this`runnable
      ensures wakeup == old(wakeup)[t := 0] && runnable == old(runnable) + {t}
    {
      wakeup := wakeup[t := 0];
      runnable := runnable + {t};
    }

    /** One turn of the loop in schedule: the thread found, or how long to block. */
    method Pass(now: int) returns (found: bool, until: int)
      modifies this
      ensures found ==>
        && current in old(queue) && current in runnable && |queue| > 0 && queue[|queue| - 1] == current
        && (current in old(runnable) || DueBy(old(wakeup), current, now))
        && (if current in old(runnable) then wakeup == old(wakeup) else wakeup == old(wakeup)[current := 0])
      ensures forall t :: t in old(queue) && (t in old(runnable) || DueBy(old(wakeup), t, now)) ==> found
      ensures !found ==>
        && now < until <= now + 10_000_000_000
        && (forall t :: t in queue && t in wakeup && wakeup[t] != 0 ==> until <= wakeup[t])
        && (until == now + 10_000_000_000 || exists t :: t in queue && t in wakeup && wakeup[t] == until)
      ensures found == (FirstReady(old(Value()), old(queue), now) < |old(queue)|)
      ensures found ==> Value() == Chosen(old(Value()), now)
      ensures !found ==> Value() == old(Value()) && until == Earliest(old(Value()), old(queue), now + TEN_SECONDS)
    {
      hide FirstReady, Earliest, Rotated;
      ghost var s := Value();
      EarliestNone(s, queue, now + TEN_SECONDS);
      until := now + TEN_SECONDS;
      var i := 0;
      while i < |queue|
        invariant 0 <= i <= |queue| && Value() == s
        invariant forall j :: 0 <= j < i ==> !Ready(s, queue[j], now)
        invariant until == Earliest(s, queue[..i], now + TEN_SECONDS)
      {
        var t := queue[i];
        if t !in runnable && t in wakeup && wakeup[t] != 0 {
          if wakeup[t] <= now {
            Wake(t);
          } else if wakeup[t] < until {
            until := wakeup[t];
          }
        }
        if t in runnable {
          FirstReadyIs(s, s.queue, now, i);
          RotatedIs(queue, i);
          queue := queue[..i] + queue[i + 1..];
          queue := queue + [t];
          current := t;
          return true, until;
        }
        EarliestNext(s, queue, i, now + TEN_SECONDS);
        i := i + 1;
      }
      FirstReadyIs(s, queue, now, i);
      assert queue[..i] == queue;
      found := false;
    }

    method CreateThread(t: Tid)
      requires t !in queue && t !in exited
      modifies this
      ensures Value() == Created(old(Value()), t)
      ensures queue == old(queue) + [t] && t in runnable && t in wakeup && wakeup[t] == 0
    {
      wakeup := wakeup[t := 0];
      runnable := runnable + {t};
      queue := queue + [t];
    }

    /** exit_thread, up to its call of schedule. */
    method ExitThread()
      modifies this
      ensures Value() == Exited(old(Value()))
      ensures Distinct(old(queue)) ==> current !in queue
      ensures current !in runnable && exited == [current] + old(exited)
    {
      if Distinct(queue) {
        RemoveOne(queue, current);
      }
      queue := Remove(queue, current);
      runnable := runnable - {current};
      exited := [current] + exited;
    }

    method Block(t: Tid)
      modifies this
      ensures Value() == Blocked(old(Value()), t, 0)
    {
      wakeup := wakeup[t := 0];
      runnable := runnable - {t};
    }
  }

  /** When a thread is ready after what was done to it; nobody else is affected. */
  lemma ReadyAfter(s: State, t: Tid, due: int, u: Tid, now: int)
    ensures Ready(Created(s, t), u, now) <==> u == t || Ready(s, u, now)
    ensures Ready(Woken(s, t), u, now) <==> u == t || Ready(s, u, now)
    ensures Ready(Blocked(s, t, due), u, now) <==> if u == t then due != 0 && due <= now else Ready(s, u, now)
    ensures Blocked(s, t, due).queue == Woken(s, t).queue == s.queue
  {}

  lemma EarliestNone(s: State, q: seq<Tid>, limit: int)
    ensures Earliest(s, q[..0], limit) == limit
  {}

  lemma EarliestNext(s: State, q: seq<Tid>, i: nat, limit: int)
    requires i < |q|
    ensures var m := Earliest(s, q[..i], limit);
      Earliest(s, q[..i + 1], limit) == if Asleep(s, q[i]) && s.wakeup[q[i]] < m then s.wakeup[q[i]] else m
  {
    assert q[..i + 1][..i] == q[..i];
  }

  lemma RotatedIs(q: seq<Tid>, i: nat)
    requires i < |q|
    ensures Rotated(q, i) == q[..i] + q[i + 1..] + [q[i]]
  {}

  lemma {:induction false} FirstReadyIs(s: State, q: seq<Tid>, now: int, i: nat)
    requires i <= |q| && (forall j :: 0 <= j < i ==> !Ready(s, q[j], now)) && (i < |q| ==> Ready(s, q[i], now))
    ensures FirstReady(s, q, now) == i
  {
    if i > 0 {
      assert !Ready(s, q[0], now);
      FirstReadyIs(s, q[1..], now, i - 1);
    }
  }

  // ----- Runs -----------------------------------------------------------------------------------------------------

  function Created(s: State, t: Tid): State {
    s.(queue := s.queue + [t], runnable := s.runnable + {t}, wakeup := s.wakeup[t := 0])
  }

  /** block (due == 0) and the first half of msleep. */
  function Blocked(s: State, t: Tid, due: int): State {
    s.(runnable := s.runnable - {t}, wakeup := s.wakeup[t := due])
  }

  function Woken(s: State, t: Tid): State {
    s.(runnable := s.runnable + {t}, wakeup := s.wakeup[t := 0])
  }

  function Remove(q: seq<Tid>, t: Tid): (r: seq<Tid>)
    ensures t !in q ==> r == q
  {
    if q == [] then [] else if q[0] == t then q[1..] else [q[0]] + Remove(q[1..], t)
  }

  /** The running thread exits; it is on nobody's queue until another runs. */
  function Exited(s: State): State {
    s.(queue := Remove(s.queue, s.current), runnable := s.runnable - {s.current}, exited := [s.current] + s.exited)
  }

  /** Exit is exit_thread, whose own call of schedule then finds another thread at `now`. */
  datatype Action = Schedule(now: int) | Create(t: Tid) | WakeUp(t: Tid) | Sleep(t: Tid, due: int) | Exit(at: int)

  /** Whether an action can happen: threads are new when created and live when woken or put to sleep,
      and some thread is ready when one is chosen. */
  predicate Can(s: State, a: Action) {
    match a
    case Schedule(now) => FirstReady(s, s.queue, now) < |s.queue|
    case Create(t) => t !in s.queue && t !in s.exited
    case WakeUp(t) => t !in s.exited
    case Sleep(t, _) => t !in s.exited
    case Exit(at) => s.current in s.queue && FirstReady(Exited(s), Exited(s).queue, at) < |Exited(s).queue|
  }

  function Step(s: State, a: Action): State
    requires Can(s, a)
  {
    match a
    case Schedule(now) => Chosen(s, now)
    case Create(t) => Created(s, t)
    case WakeUp(t) => Woken(s, t)
    case Sleep(t, due) => Blocked(s, t, due)
    case Exit(at) => Chosen(Exited(s), at)
  }

  lemma {:induction false} RemoveOne(q: seq<Tid>, t: Tid)
    requires Distinct(q)
    ensures Distinct(Remove(q, t)) && t !in Remove(q, t) && forall x :: x in Remove(q, t) ==> x in q
    ensures |Remove(q, t)| <= |q|
  {
    if q != [] && q[0] != t {
      var rest := Remove(q[1..], t);
      RemoveOne(q[1..], t);
      assert q[0] !in q[1..];
    } else if q != [] {
      assert q[0] !in q[1..];
    }
  }

  lemma RotatedDistinct(q: seq<Tid>, i: nat)
    requires Distinct(q) && i < |q|
    ensures Distinct(Rotated(q, i)) && forall x :: x in Rotated(q, i) <==> x in q
  {
    var r := Rotated(q, i);
    forall x | x in q
      ensures x in r
    {
      var k :| 0 <= k < |q| && q[k] == x;
      assert r[if k < i then k else if k > i then k - 1 else |q| - 1] == x;
    }
  }

  lemma ChosenValid(s: State, now: int)
    requires Distinct(s.queue) && (forall t :: t in s.exited ==> t !in s.queue && t !in s.runnable)
    requires FirstReady(s, s.queue, now) < |s.queue|
    ensures Valid(Chosen(s, now))
  {
    var i := FirstReady(s, s.queue, now);
    hide FirstReady;
    RotatedDistinct(s.queue, i);
    assert s.queue[i] in s.queue;
  }

  /** The queue never holds a thread twice or one that has exited, so none that has exited runs again. */
  lemma StepKeepsValid(s: State, a: Action)
    requires Valid(s) && Can(s, a)
    ensures Valid(Step(s, a))
  {
    match a {
      case Schedule(now) => ChosenValid(s, now);
      case Create(t) =>
      case WakeUp(t) =>
      case Sleep(t, due) =>
      case Exit(at) =>
        hide FirstReady;
        RemoveOne(s.queue, s.current);
        ChosenValid(Exited(s), at);
    }
  }

  // ----- Bounded waiting ---------------------------------------------------------------------------------------------

  function Position(q: seq<Tid>, t: Tid): (p: nat)
    ensures p <= |q| && (t in q <==> p < |q|) && (p < |q| ==> q[p] == t)
    ensures forall j :: 0 <= j < p ==> q[j] != t
  {
    if q == [] || q[0] == t then 0 else 1 + Position(q[1..], t)
  }

  lemma PositionIs(q: seq<Tid>, t: Tid, p: nat)
    requires Distinct(q) && p < |q| && q[p] == t
    ensures Position(q, t) == p
  {}

  lemma ReadyAfterFirst(s: State, now: int, x: Tid)
    requires x in s.queue && Ready(s, x, now)
    ensures FirstReady(s, s.queue, now) <= Position(s.queue, x)
  {}

  /** Choosing another thread brings a ready thread forward by one. */
  lemma ChosenMovesUp(s: State, now: int, x: Tid)
    requires Distinct(s.queue) && x in s.queue && Ready(s, x, now)
    ensures FirstReady(s, s.queue, now) <= Position(s.queue, x)
    ensures var t := Chosen(s, now);
      x in t.queue && (t.current != x ==> Position(t.queue, x) + 1 == Position(s.queue, x))
  {
    hide FirstReady, Position, Distinct;
    var i, p := FirstReady(s, s.queue, now), Position(s.queue, x);
    ReadyAfterFirst(s, now, x);
    RotatedDistinct(s.queue, i);
    var t := Chosen(s, now);
    if t.current != x {
      assert t.queue[p - 1] == x;
      PositionIs(t.queue, x, p - 1);
    }
  }

  lemma {:induction false} RemoveMovesUp(q: seq<Tid>, t: Tid, x: Tid)
    requires x in q && x != t
    ensures x in Remove(q, t) && Position(Remove(q, t), x) <= Position(q, x)
  {
    if q[0] != t && q[0] != x {
      RemoveMovesUp(q[1..], t, x);
      var r := Remove(q, t);
      assert r[1..] == Remove(q[1..], t);
    } else if q[0] == x {
      var r := Remove(q, t);
      assert r[0] == x;
    }
  }

  lemma {:induction false} AppendKeeps(q: seq<Tid>, t: Tid, x: Tid)
    requires x in q
    ensures Position(q + [t], x) == Position(q, x)
  {
    if q[0] != x {
      assert (q + [t])[1..] == q[1..] + [t];
      AppendKeeps(q[1..], t, x);
    }
  }

  /** In this run x is live and ready whenever a thread is chosen, and is never the one. */
  ghost predicate Passed(s: State, actions: seq<Action>, x: Tid)
    decreases |actions|
  {
    actions == [] ||
    var a := actions[0];
    && Can(s, a)
    && (a.Schedule? ==> Ready(s, x, a.now) && Chosen(s, a.now).current != x)
    && (a.Exit? ==> s.current != x && Ready(Exited(s), x, a.at) && Chosen(Exited(s), a.at).current != x)
    && Passed(Step(s, a), actions[1..], x)
  }

  function Choices(actions: seq<Action>): nat {
    if actions == [] then 0 else (if actions[0].Schedule? || actions[0].Exit? then 1 else 0) + Choices(actions[1..])
  }

  lemma StepMovesUp(s: State, a: Action, x: Tid)
    requires Valid(s) && x in s.queue && Can(s, a)
    requires a.Schedule? ==> Ready(s, x, a.now) && Chosen(s, a.now).current != x
    requires a.Exit? ==> s.current != x && Ready(Exited(s), x, a.at) && Chosen(Exited(s), a.at).current != x
    ensures var t := Step(s, a);
      && x in t.queue
      && Position(t.queue, x) + (if a.Schedule? || a.Exit? then 1 else 0) <= Position(s.queue, x)
  {
    hide Position, FirstReady;
    match a {
      case Schedule(now) => ChosenMovesUp(s, now, x);
      case Create(t) => AppendKeeps(s.queue, t, x);
      case WakeUp(t) =>
      case Sleep(t, due) =>
      case Exit(at) =>
        RemoveOne(s.queue, s.current);
        RemoveMovesUp(s.queue, s.current, x);
        ChosenMovesUp(Exited(s), at, x);
    }
  }

  /** A ready thread at position p is passed over at most p times, whatever is created, woken, put to
      sleep or exits meanwhile: it runs within p + 1 choices. */
  lemma {:induction false} BoundedWaiting(s: State, actions: seq<Action>, x: Tid)
    requires Valid(s) && x in s.queue && Passed(s, actions, x)
    ensures Choices(actions) <= Position(s.queue, x)
    decreases |actions|
  {
    hide Position, FirstReady, Valid, Chosen, Exited;
    if actions != [] {
      var a := actions[0];
      StepMovesUp(s, a, x);
      StepKeepsValid(s, a);
      BoundedWaiting(Step(s, a), actions[1..], x);
    }
  }

  // ----- Sleep ------------------------------------------------------------------------------------------------

  /** The states of a run. */
  ghost predicate Run(states: seq<State>, actions: seq<Action>) {
    && |states| == |actions| + 1
    && forall i :: 0 <= i < |actions| ==> Can(states[i], actions[i]) && states[i + 1] == Step(states[i], actions[i])
  }

  /** An action neither wakes t, nor puts it to sleep again, nor chooses a thread once `due` has come (never, if it
      is 0). */
  predicate Undisturbed(a: Action, t: Tid, due: int) {
    match a
    case Schedule(now) => due == 0 || now < due
    case Exit(at) => due == 0 || at < due
    case Create(u) => u != t
    case WakeUp(u) => u != t
    case Sleep(u, _) => u != t
  }

  /** A thread that blocked or went to sleep runs at no choice until it is woken or its time comes, whatever the others
      do. */
  lemma {:induction false} SleepsUntilDue(states: seq<State>, actions: seq<Action>, t: Tid, due: int)
    requires Run(states, actions) && |actions| >= 1 && actions[0] == Sleep(t, due)
    requires forall i :: 1 <= i < |actions| ==>
               Undisturbed(actions[i], t, due) && (actions[i].Exit? ==> states[i].current != t)
    ensures forall i :: 1 <= i < |actions| && (actions[i].Schedule? || actions[i].Exit?) ==> states[i + 1].current != t
    ensures var s := states[|actions|]; t !in s.runnable && t in s.wakeup && s.wakeup[t] == due
    decreases |actions|
  {
    hide FirstReady, Rotated, Remove;
    var last := |actions| - 1;
    if last > 0 {
      SleepsUntilDue(states[..last + 1], actions[..last], t, due);
      StepLeavesAsleep(states[last], actions[last], t, due);
    }
  }

  lemma StepLeavesAsleep(s: State, a: Action, t: Tid, due: int)
    requires Can(s, a) && Undisturbed(a, t, due) && (a.Exit? ==> s.current != t)
    requires t !in s.runnable && t in s.wakeup && s.wakeup[t] == due
    ensures var s' := Step(s, a);
      && t !in s'.runnable && t in s'.wakeup && s'.wakeup[t] == due
      && (a.Schedule? || a.Exit? ==> s'.current != t)
  {
    hide FirstReady, Rotated, Remove;
  }
}
