/** Grants and their ends in any number of threads, interleaved with the hypervisor mapping and
    unmapping granted frames. */
module GnttabRuns {
  import opened Gnttab

  /** GTF_permit_access, GTF_readonly, GTF_reading, GTF_writing. */
  datatype Flags = Flags(permit: bool, readonly: bool, reading: bool, writing: bool)

  const NONE: Flags := Flags(false, false, false, false)

  /** A table entry. */
  datatype Entry = Entry(domid: nat, frame: nat, flags: Flags)

  /** What a grant was asked for. */
  datatype Terms = Terms(domid: nat, frame: nat, ro: bool)

  /** Where a thread is: past down() and about to take a reference, about to fill its entry or to make it
      valid; inside gnttab_end_access at the check or at the compare-exchange, about to put the reference
      back or to raise the semaphore. */
  datatype Call =
    | Idle
    | Getting(terms: Terms)
    | Filling(ref: nat, terms: Terms)
    | Opening(ref: nat, terms: Terms)
    | Checking(ref: nat, seen: Flags)
    | Swapping(ref: nat, seen: Flags)
    | Putting(ref: nat)
    | Raising

  /** Who has a reference: nobody, a thread in the middle of a call, or whoever asked for the grant. */
  datatype Owner = Unused | Busy(t: nat) | Granted(terms: Terms)

  /** `bug` is set by a BUG_ON; `free`, `owner` and `terms` are history. */
  datatype State = State(list: seq<nat>, sem: nat, table: seq<Entry>, calls: seq<Call>, bug: bool, free: seq<nat>,
      owner: seq<Owner>, terms: seq<Terms>)

  datatype Action =
    | Grant(t: nat, terms: Terms)
    | End(t: nat, ref: nat)
    | Move(t: nat)
    | Map(domid: nat, ref: nat, write: bool)
    | Unmap(ref: nat, reading: bool)

  predicate Sized(s: State) {
    |s.list| == |s.table| == |s.owner| == |s.terms| == ENTRIES
  }

  function Holds(c: Call): int {
    match c
    case Filling(r, _) => r
    case Opening(r, _) => r
    case Checking(r, _) => r
    case Swapping(r, _) => r
    case Putting(r) => r
    case _ => -1
  }

  function SetFlags(s: State, r: nat, f: Flags): State
    requires r < |s.table|
  {
    s.(table := s.table[r := s.table[r].(flags := f)])
  }

  function Goto(s: State, t: nat, c: Call): State
    requires t < |s.calls|
  {
    s.(calls := s.calls[t := c])
  }

  /** The next atomic step of a thread inside a call. */
  function Advance(s: State, t: nat): State
    requires Sized(s) && t < |s.calls|
  {
    match s.calls[t]
    case Idle => s
    case Getting(terms) => Take(s, t, terms)
    case Filling(r, terms) =>
      if r < ENTRIES then
        Goto(s, t, Opening(r, terms)).(table := s.table[r := Entry(terms.domid, terms.frame, s.table[r].flags)])
      else s
    case Opening(r, terms) =>
      if r < ENTRIES then
        Goto(SetFlags(s, r, Flags(true, terms.ro, false, false)), t, Idle).(owner := s.owner[r := Granted(s.terms[r])])
      else s
    case Checking(r, seen) =>
      if r >= ENTRIES then s
      else if seen.reading || seen.writing then Goto(s, t, Idle).(owner := s.owner[r := Granted(s.terms[r])])
      else Goto(s, t, Swapping(r, seen))
    case Swapping(r, seen) =>
      if r >= ENTRIES then s
      else if s.table[r].flags == seen then Goto(SetFlags(s, r, NONE), t, Putting(r))
      else Goto(s, t, Checking(r, s.table[r].flags))
    case Putting(r) => Put(s, t, r)
    case Raising => Goto(s, t, Idle).(sem := s.sem + 1)
  }

  /** The part of get_free_entry that runs with interrupts off. */
  function Take(s: State, t: nat, terms: Terms): State
    requires Sized(s) && t < |s.calls|
  {
    var r := s.list[0];
    if RESERVED <= r < ENTRIES then
      Goto(s, t, Filling(r, terms)).(
        list := s.list[0 := s.list[r]], free := if s.free == [] then [] else s.free[1..],
        owner := s.owner[r := Busy(t)], terms := s.terms[r := terms])
    else s.(bug := true)
  }

  function Put(s: State, t: nat, r: nat): State
    requires Sized(s) && t < |s.calls|
  {
    if r < ENTRIES then
      Goto(s, t, Raising).(list := s.list[r := s.list[0]][0 := r], free := [r] + s.free, owner := s.owner[r := Unused])
    else s
  }

  /** What the hypervisor asks of an entry. */
  predicate MayMap(e: Entry, domid: nat, write: bool) {
    e.flags.permit && e.domid == domid && (write ==> !e.flags.readonly)
  }

  /** One step of the system; calls are made by idle threads, ends by the owner of a grant, mappings
      through valid entries only. */
  function Apply(s: State, a: Action): State
    requires Sized(s)
  {
    match a
    case Grant(t, terms) =>
      if t < |s.calls| && s.calls[t] == Idle && s.sem > 0 then Goto(s, t, Getting(terms)).(sem := s.sem - 1) else s
    case End(t, r) =>
      if t < |s.calls| && s.calls[t] == Idle && r < ENTRIES && s.owner[r].Granted? then
        Goto(s, t, Checking(r, s.table[r].flags)).(owner := s.owner[r := Busy(t)])
      else s
    case Move(t) => if t < |s.calls| then Advance(s, t) else s
    case Map(domid, r, write) =>
      if r < ENTRIES && MayMap(s.table[r], domid, write) then
        SetFlags(s, r, s.table[r].flags.(reading := true, writing := s.table[r].flags.writing || write))
      else s
    case Unmap(r, reading) =>
      if r < ENTRIES
        then SetFlags(s, r, s.table[r].flags.(reading := s.table[r].flags.reading && reading, writing := false)) else s
  }

  // ----- The invariant ---------------------------------------------------------------------------------------------

  function Waits(c: Call): nat {
    if c.Getting? || c.Raising? then 1 else 0
  }

  /** Threads between the semaphore and the list. */
  function Waiting(calls: seq<Call>): nat {
    if calls == [] then 0 else Waits(calls[|calls| - 1]) + Waiting(calls[..|calls| - 1])
  }

  /** A valid entry on these terms: domain and frame, read-only exactly if it was asked for so, and then not
      mapped for writing. */
  predicate Shows(e: Entry, terms: Terms) {
    && e.flags.permit && e.domid == terms.domid && e.frame == terms.frame && e.flags.readonly == terms.ro
    && (terms.ro ==> !e.flags.writing)
  }

  /** The entry of a reference that a thread is working on. */
  predicate BusyOk(c: Call, e: Entry, terms: Terms) {
    match c
    case Filling(_, asked) => e.flags == NONE && terms == asked
    case Opening(_, asked) => e == Entry(asked.domid, asked.frame, NONE) && terms == asked
    case Checking(_, _) => Shows(e, terms)
    case Swapping(_, seen) => Shows(e, terms) && !seen.reading && !seen.writing
    case Putting(_) => e.flags == NONE
    case _ => true
  }

  /** A reference is on the free list, in the hands of exactly one call, or granted, and its entry shows it. */
  ghost predicate RefOk(s: State, r: nat)
    requires Sized(s) && r < ENTRIES
  {
    match s.owner[r]
    case Unused => r in s.free && s.table[r].flags == NONE
    case Busy(t) =>
      r !in s.free && t < |s.calls| && Holds(s.calls[t]) == r && BusyOk(s.calls[t], s.table[r], s.terms[r])
    case Granted(terms) => r !in s.free && terms == s.terms[r] && Shows(s.table[r], terms)
  }

  ghost predicate CallOk(s: State, t: nat)
    requires Sized(s) && t < |s.calls|
  {
    var r := Holds(s.calls[t]);
    r >= 0 ==> RESERVED <= r < ENTRIES && s.owner[r] == Busy(t)
  }

  ghost predicate Inv(s: State) {
    && Sized(s) && !s.bug && Chain(s.list, s.free) && |s.free| == s.sem + Waiting(s.calls)
    && (forall r :: 0 <= r < RESERVED ==> s.owner[r] == Unused && s.table[r].flags == NONE)
    && (forall r :: RESERVED <= r < ENTRIES ==> RefOk(s, r))
    && (forall t :: 0 <= t < |s.calls| ==> CallOk(s, t))
  }

  lemma {:induction false} WaitingUpdate(calls: seq<Call>, t: nat, c: Call)
    requires t < |calls|
    ensures Waiting(calls[t := c]) + Waits(calls[t]) == Waiting(calls) + Waits(c)
    ensures Waiting(calls) >= Waits(calls[t])
  {
    var n := |calls| - 1;
    if t < n {
      WaitingUpdate(calls[..n], t, c);
      assert calls[t := c][..n] == calls[..n][t := c];
    } else {
      assert calls[t := c][..n] == calls[..n];
    }
  }

  /** A step of thread t that concerns reference r only: the others keep their owners and entries. */
  ghost predicate Touches(s: State, s': State, t: nat, r: nat) {
    && Sized(s) && Sized(s') && t < |s.calls| && RESERVED <= r < ENTRIES
    && |s'.calls| == |s.calls|
    && (forall u :: 0 <= u < |s.calls| && u != t ==> s'.calls[u] == s.calls[u])
    && (forall q :: 0 <= q < ENTRIES && q != r ==>
          && s'.owner[q] == s.owner[q] && s'.table[q] == s.table[q] && s'.terms[q] == s.terms[q]
          && (q in s'.free <==> q in s.free))
    && (forall q :: 0 <= q < ENTRIES && q != r ==> s.owner[q] != Busy(t))
    && (forall u :: 0 <= u < |s.calls| && u != t ==> Holds(s.calls[u]) != r)
  }

  lemma TouchKeeps(s: State, s': State, t: nat, r: nat)
    requires Inv(s) && Touches(s, s', t, r) && RefOk(s', r) && CallOk(s', t)
    requires !s'.bug && Chain(s'.list, s'.free) && |s'.free| == s'.sem + Waiting(s'.calls)
    ensures Inv(s')
  {
    hide Chain, Waiting;
    forall q | RESERVED <= q < ENTRIES
      ensures RefOk(s', q)
    {
      assert RefOk(s, q);
    }
    forall u | 0 <= u < |s'.calls|
      ensures CallOk(s', u)
    {
      assert CallOk(s, u);
    }
  }

  /** Thread t works on r alone. */
  lemma Alone(s: State, t: nat, r: nat)
    requires Inv(s) && t < |s.calls| && Holds(s.calls[t]) == r
    ensures RESERVED <= r < ENTRIES && s.owner[r] == Busy(t) && r !in s.free
    ensures BusyOk(s.calls[t], s.table[r], s.terms[r])
    ensures forall q :: 0 <= q < ENTRIES && q != r ==> s.owner[q] != Busy(t)
    ensures forall u :: 0 <= u < |s.calls| && u != t ==> Holds(s.calls[u]) != r
  {
    hide Chain, Waiting;
    assert CallOk(s, t) && RefOk(s, r);
    forall q | 0 <= q < ENTRIES && q != r
      ensures s.owner[q] != Busy(t)
    {
      if q >= RESERVED {
        assert RefOk(s, q);
      }
    }
    forall u | 0 <= u < |s.calls| && u != t
      ensures Holds(s.calls[u]) != r
    {
      assert CallOk(s, u);
    }
  }

  lemma FillKeeps(s: State, t: nat)
    requires Inv(s) && t < |s.calls| && (s.calls[t].Filling? || s.calls[t].Opening?)
    ensures Inv(Advance(s, t))
  {
    hide Chain, Inv, Waiting;
    Parts(s);
    var r := Holds(s.calls[t]);
    Alone(s, t, r);
    var s' := Advance(s, t);
    WaitingUpdate(s.calls, t, s'.calls[t]);
    TouchKeeps(s, s', t, r);
  }

  lemma Parts(s: State)
    requires Inv(s)
    ensures Sized(s) && !s.bug && Chain(s.list, s.free) && |s.free| == s.sem + Waiting(s.calls)
  {}

  lemma CheckKeeps(s: State, t: nat)
    requires Inv(s) && t < |s.calls| && (s.calls[t].Checking? || s.calls[t].Swapping?)
    ensures Inv(Advance(s, t))
  {
    hide Chain, Inv, Waiting;
    Parts(s);
    var r := Holds(s.calls[t]);
    Alone(s, t, r);
    var s' := Advance(s, t);
    WaitingUpdate(s.calls, t, s'.calls[t]);
    TouchKeeps(s, s', t, r);
  }

  /** A grant is closed in one step from a state in which nobody has it mapped, and one found mapped
      goes back to its owner unchanged. */
  lemma ClosedUnmapped(s: State, t: nat)
    requires Inv(s) && t < |s.calls| && (s.calls[t].Checking? || s.calls[t].Swapping?)
    ensures var r, s' := s.calls[t].ref, Advance(s, t);
      && r < ENTRIES
      && (s'.calls[t].Putting? ==> !s.table[r].flags.reading && !s.table[r].flags.writing && s'.table[r].flags == NONE)
      && (s'.calls[t].Idle? ==> s'.table == s.table && s'.owner[r].Granted? && Shows(s.table[r], s'.owner[r].terms))
  {
    Alone(s, t, s.calls[t].ref);
    hide Inv, Chain, Waiting;
  }

  lemma PutKeeps(s: State, t: nat)
    requires Inv(s) && t < |s.calls| && s.calls[t].Putting?
    ensures Inv(Advance(s, t))
  {
    hide Chain, Inv, Waiting;
    Parts(s);
    var r := s.calls[t].ref;
    Alone(s, t, r);
    PushChain(s.list, s.free, r);
    var s' := Advance(s, t);
    WaitingUpdate(s.calls, t, Raising);
    TouchKeeps(s, s', t, r);
  }

  /** The BUG_ON in get_free_entry: a thread that got past the semaphore finds a reference. */
  lemma TakeFinds(s: State, t: nat)
    requires Inv(s) && t < |s.calls| && s.calls[t].Getting?
    ensures s.free != [] && RESERVED <= s.list[0] < ENTRIES && s.owner[s.list[0]] == Unused
    ensures s.table[s.list[0]].flags == NONE
  {
    WaitingUpdate(s.calls, t, Idle);
    PopChain(s.list, s.free);
    assert RefOk(s, s.list[0]);
  }

  lemma TakeKeeps(s: State, t: nat)
    requires Inv(s) && t < |s.calls| && s.calls[t].Getting?
    ensures Inv(Advance(s, t))
  {
    hide Chain, Inv, Waiting;
    Parts(s);
    TakeFinds(s, t);
    PopChain(s.list, s.free);
    var r, c := s.list[0], s.calls[t];
    var s' := Advance(s, t);
    WaitingUpdate(s.calls, t, s'.calls[t]);
    assert s.free == [r] + s.free[1..];
    NobodyHolds(s, t, r);
    TouchKeeps(s, s', t, r);
  }

  lemma NobodyHolds(s: State, t: nat, r: nat)
    requires Inv(s) && t < |s.calls| && Holds(s.calls[t]) == -1 && RESERVED <= r < ENTRIES && !s.owner[r].Busy?
    ensures forall q :: 0 <= q < ENTRIES ==> s.owner[q] != Busy(t)
    ensures forall u :: 0 <= u < |s.calls| ==> Holds(s.calls[u]) != r
  {
    hide Chain, Waiting;
    forall q | 0 <= q < ENTRIES
      ensures s.owner[q] != Busy(t)
    {
      if q >= RESERVED {
        assert RefOk(s, q);
      }
    }
    forall u | 0 <= u < |s.calls|
      ensures Holds(s.calls[u]) != r
    {
      assert CallOk(s, u);
    }
  }

  /** Steps that move the semaphore and a thread, and nothing else. */
  lemma SemKeeps(s: State, t: nat, c: Call, sem: nat)
    requires Inv(s) && t < |s.calls| && Holds(s.calls[t]) == -1 && Holds(c) == -1
    requires sem + Waits(c) == s.sem + Waits(s.calls[t])
    ensures Inv(Goto(s, t, c).(sem := sem))
  {
    hide Chain, Waiting;
    WaitingUpdate(s.calls, t, c);
    var s' := Goto(s, t, c).(sem := sem);
    forall q | RESERVED <= q < ENTRIES
      ensures RefOk(s', q)
    {
      assert RefOk(s, q);
    }
    forall u | 0 <= u < |s'.calls|
      ensures CallOk(s', u)
    {
      assert CallOk(s, u);
    }
  }

  lemma EndKeeps(s: State, t: nat, r: nat)
    requires Inv(s) && t < |s.calls| && s.calls[t] == Idle && RESERVED <= r < ENTRIES && s.owner[r].Granted?
    ensures Inv(Apply(s, End(t, r)))
  {
    assert RefOk(s, r);
    hide Chain, Inv, Waiting;
    Parts(s);
    NobodyHolds(s, t, r);
    var s' := Apply(s, End(t, r));
    WaitingUpdate(s.calls, t, s'.calls[t]);
    TouchKeeps(s, s', t, r);
  }

  /** Mapping and unmapping change nothing but the two bits of a valid entry. */
  lemma MapKeeps(s: State, r: nat, f: Flags)
    requires Inv(s) && r < ENTRIES && f.permit == s.table[r].flags.permit && f.readonly == s.table[r].flags.readonly
    requires s.table[r].flags == NONE ==> f == NONE
    requires f.readonly && f.writing ==> s.table[r].flags.writing
    ensures Inv(SetFlags(s, r, f))
  {
    hide Chain, Waiting;
    var s' := SetFlags(s, r, f);
    forall q | RESERVED <= q < ENTRIES
      ensures RefOk(s', q)
    {
      assert RefOk(s, q);
    }
    forall u | 0 <= u < |s'.calls|
      ensures CallOk(s', u)
    {
      assert CallOk(s, u);
    }
  }

  lemma MoveKeeps(s: State, t: nat)
    requires Inv(s) && t < |s.calls|
    ensures Inv(Advance(s, t))
  {
    hide Inv, Chain, Waiting, Take, Put;
    Parts(s);
    match s.calls[t] {
      case Idle =>
      case Getting(_) => TakeKeeps(s, t);
      case Filling(_, _) => FillKeeps(s, t);
      case Opening(_, _) => FillKeeps(s, t);
      case Checking(_, _) => CheckKeeps(s, t);
      case Swapping(_, _) => CheckKeeps(s, t);
      case Putting(_) => PutKeeps(s, t);
      case Raising => SemKeeps(s, t, Idle, s.sem + 1);
    }
  }

  lemma StepKeeps(s: State, a: Action)
    requires Inv(s)
    ensures Inv(Apply(s, a))
  {
    hide Inv, Chain, Waiting, Advance;
    Parts(s);
    match a {
      case Grant(t, terms) =>
        if t < |s.calls| && s.calls[t] == Idle && s.sem > 0 {
          SemKeeps(s, t, Getting(terms), s.sem - 1);
        }
      case End(t, r) =>
        if t < |s.calls| && s.calls[t] == Idle && r < ENTRIES && s.owner[r].Granted? {
          NotReserved(s, r);
          EndKeeps(s, t, r);
        }
      case Move(t) =>
        if t < |s.calls| {
          MoveKeeps(s, t);
        }
      case Map(domid, r, write) =>
        if r < ENTRIES && MayMap(s.table[r], domid, write) {
          MapKeeps(s, r, s.table[r].flags.(reading := true, writing := s.table[r].flags.writing || write));
        }
      case Unmap(r, reading) =>
        if r < ENTRIES {
          MapKeeps(s, r, s.table[r].flags.(reading := s.table[r].flags.reading && reading, writing := false));
        }
    }
  }

  lemma NotReserved(s: State, r: nat)
    requires Inv(s) && r < ENTRIES && s.owner[r].Granted?
    ensures r >= RESERVED
  {}

  // ----- Runs ----------------------------------------------------------------------------------------

  /** After init_gnttab: every reference free, all threads idle, and nothing granted. */
  ghost predicate Initial(s: State) {
    && Sized(s) && !s.bug && Chain(s.list, s.free) && s.sem == |s.free|
    && (forall r :: r in s.free <==> RESERVED <= r < ENTRIES)
    && (forall r :: 0 <= r < ENTRIES ==> s.owner[r] == Unused && s.table[r].flags == NONE)
    && (forall t :: 0 <= t < |s.calls| ==> s.calls[t] == Idle)
  }

  lemma {:induction false} NoneWaiting(calls: seq<Call>)
    requires forall t :: 0 <= t < |calls| ==> calls[t] == Idle
    ensures Waiting(calls) == 0
  {
    if calls != [] {
      NoneWaiting(calls[..|calls| - 1]);
    }
  }

  ghost function After(s: State, actions: seq<Action>): (t: State)
    requires Inv(s)
    ensures Inv(t)
    decreases |actions|
  {
    if actions == [] then s
    else
      var t := After(s, actions[..|actions| - 1]);
      StepKeeps(t, actions[|actions| - 1]);
      Apply(t, actions[|actions| - 1])
  }

  lemma InitialInv(s: State)
    requires Initial(s)
    ensures Inv(s)
  {
    NoneWaiting(s.calls);
    hide Chain, Waiting;
  }

  /** In every interleaving: no BUG_ON fires; a reference that is free or being handed out or put back
      has no valid entry, so it is not mapped; two threads never work on one reference; a valid grant
      shows the terms it was made on; and with every thread idle the semaphore counts the free list. */
  lemma RunsAreSafe(s: State, actions: seq<Action>)
    requires Initial(s)
    ensures Inv(s)
    ensures var t := After(s, actions);
      && !t.bug && Chain(t.list, t.free) && t.sem <= |t.free|
      && (forall r :: r in t.free ==> r < ENTRIES && t.table[r].flags == NONE && t.owner[r] == Unused)
      && (forall u, v :: 0 <= u < v < |t.calls| && Holds(t.calls[u]) >= 0 ==> Holds(t.calls[u]) != Holds(t.calls[v]))
      && (forall r :: 0 <= r < ENTRIES && t.owner[r].Granted? ==>
            r >= RESERVED && r !in t.free && Shows(t.table[r], t.owner[r].terms))
      && ((forall u :: 0 <= u < |t.calls| ==> t.calls[u] == Idle) ==> t.sem == |t.free|)
  {
    InitialInv(s);
    var t := After(s, actions);
    hide Initial, After, Waiting;
    forall r | r in t.free
      ensures r < ENTRIES && t.table[r].flags == NONE && t.owner[r] == Unused
    {
      var i :| 0 <= i < |t.free| && t.free[i] == r;
      assert RESERVED <= t.free[i] < ENTRIES;
      assert RefOk(t, r);
    }
    forall r | 0 <= r < ENTRIES && t.owner[r].Granted?
      ensures r >= RESERVED && r !in t.free && Shows(t.table[r], t.owner[r].terms)
    {
      if r >= RESERVED {
        assert RefOk(t, r);
      }
    }
    forall u, v | 0 <= u < v < |t.calls| && Holds(t.calls[u]) >= 0
      ensures Holds(t.calls[u]) != Holds(t.calls[v])
    {
      assert CallOk(t, u) && CallOk(t, v);
    }
    if forall u :: 0 <= u < |t.calls| ==> t.calls[u] == Idle {
      NoneWaiting(t.calls);
    }
  }

  // ----- The terms are those of a call --------------------------------------------------------------------

  ghost predicate Asked(actions: seq<Action>, terms: Terms) {
    exists i :: 0 <= i < |actions| && actions[i].Grant? && actions[i].terms == terms
  }

  /** Whatever a thread is about to grant, and whatever is granted, some call of the run asked for. */
  ghost predicate OnlyAsked(s: State, actions: seq<Action>) {
    && Sized(s)
    && (forall t :: 0 <= t < |s.calls| && s.calls[t].Getting? ==> Asked(actions, s.calls[t].terms))
    && (forall r :: 0 <= r < ENTRIES && s.owner[r] != Unused ==> Asked(actions, s.terms[r]))
  }

  lemma AskedLonger(actions: seq<Action>, a: Action, terms: Terms)
    requires Asked(actions, terms)
    ensures Asked(actions + [a], terms)
  {
    var i :| 0 <= i < |actions| && actions[i].Grant? && actions[i].terms == terms;
    assert (actions + [a])[i] == actions[i];
  }

  lemma AskedNow(actions: seq<Action>, t: nat, terms: Terms)
    ensures Asked(actions + [Grant(t, terms)], terms)
  {
    assert (actions + [Grant(t, terms)])[|actions|] == Grant(t, terms);
  }

  lemma AskedStep(s: State, actions: seq<Action>, a: Action)
    requires Inv(s) && OnlyAsked(s, actions)
    ensures OnlyAsked(Apply(s, a), actions + [a])
  {
    hide Asked, Inv;
    var s' := Apply(s, a);
    SizedStep(s, a);
    if a.Grant? {
      AskedNow(actions, a.t, a.terms);
    }
    forall t | 0 <= t < |s'.calls| && s'.calls[t].Getting?
      ensures Asked(actions + [a], s'.calls[t].terms)
    {
      if t < |s.calls| && s.calls[t] == s'.calls[t] {
        AskedLonger(actions, a, s.calls[t].terms);
      }
    }
    forall r | 0 <= r < ENTRIES && s'.owner[r] != Unused
      ensures Asked(actions + [a], s'.terms[r])
    {
      AskedEntry(s, actions, a, r);
    }
  }

  lemma AskedEntry(s: State, actions: seq<Action>, a: Action, r: nat)
    requires Inv(s) && OnlyAsked(s, actions) && r < ENTRIES
    requires Sized(Apply(s, a)) && Apply(s, a).owner[r] != Unused
    ensures Asked(actions + [a], Apply(s, a).terms[r])
  {
    hide Asked, Inv;
    if a.Move? && a.t < |s.calls| && Holds(s.calls[a.t]) >= 0 {
      Alone(s, a.t, Holds(s.calls[a.t]));
    }
    if a.Move? && a.t < |s.calls| && s.calls[a.t].Getting? && s.list[0] == r {
      AskedLonger(actions, a, s.calls[a.t].terms);
    }
    if s.owner[r] != Unused {
      AskedLonger(actions, a, s.terms[r]);
    }
  }

  lemma SizedStep(s: State, a: Action)
    requires Sized(s)
    ensures Sized(Apply(s, a)) && |Apply(s, a).calls| == |s.calls|
  {}

  lemma {:induction false} RunsAsk(s: State, actions: seq<Action>)
    requires Initial(s) && Inv(s)
    ensures OnlyAsked(After(s, actions), actions)
    decreases |actions|
  {
    hide Inv, Apply;
    if actions != [] {
      var front, a := actions[..|actions| - 1], actions[|actions| - 1];
      RunsAsk(s, front);
      AskedStep(After(s, front), front, a);
      assert front + [a] == actions;
    }
  }

  lemma AskedParts(s: State)
    requires Inv(s)
    ensures Sized(s)
  {}

  /** In every run: a grant shows the domain, the frame and the access of some call that asked for them, and
      one asked for read-only is never mapped for writing, whatever the hypervisor is asked. */
  lemma GrantsAreAsked(s: State, actions: seq<Action>)
    requires Initial(s)
    ensures Inv(s)
    ensures var t := After(s, actions);
      forall r :: 0 <= r < ENTRIES && t.owner[r].Granted? ==>
        && Asked(actions, Terms(t.table[r].domid, t.table[r].frame, t.table[r].flags.readonly))
        && !(t.table[r].flags.readonly && t.table[r].flags.writing)
  {
    RunsAreSafe(s, actions);
    RunsAsk(s, actions);
    hide Initial, After, Asked;
    var t := After(s, actions);
    forall r | 0 <= r < ENTRIES && t.owner[r].Granted?
      ensures Asked(actions, Terms(t.table[r].domid, t.table[r].frame, t.table[r].flags.readonly))
      ensures !(t.table[r].flags.readonly && t.table[r].flags.writing)
    {
      assert RefOk(t, r) && t.owner[r] != Unused;
    }
  }

  /** In every run, a mapping the hypervisor lets through is one that a call asked for: by its domain, and for
      writing only if it was not read-only. */
  lemma MappedOnTerms(s: State, actions: seq<Action>, domid: nat, r: nat, write: bool)
    requires Initial(s)
    ensures Inv(s)
    ensures var t := After(s, actions);
      Apply(t, Map(domid, r, write)) != t ==>
        exists terms :: Asked(actions, terms) && terms.domid == domid && (write ==> !terms.ro) &&
                        r < ENTRIES && terms.frame == t.table[r].frame
  {
    RunsAreSafe(s, actions);
    RunsAsk(s, actions);
    hide Initial, After, Asked;
    var t := After(s, actions);
    if Apply(t, Map(domid, r, write)) != t {
      assert r >= RESERVED ==> RefOk(t, r);
      assert t.owner[r] != Unused && Asked(actions, t.terms[r]);
      assert Shows(t.table[r], t.terms[r]);
    }
  }

  // ----- What the calls come to ------------------------------------------------------------------------------

  /** Thread t moves n times. */
  function Moves(s: State, t: nat, n: nat): (s': State)
    requires Sized(s)
    ensures Sized(s') && |s'.calls| == |s.calls|
  {
    if n == 0 then s else
      SizedStep(Moves(s, t, n - 1), Move(t));
      Apply(Moves(s, t, n - 1), Move(t))
  }

  /** gnttab_grant_access left to itself: it returns with a reference that was free, whose entry is exactly what
      was asked for; nothing else changes. */
  lemma GrantCompletes(s: State, t: nat, terms: Terms)
    requires Inv(s) && t < |s.calls| && s.calls[t] == Idle && s.sem > 0
    ensures var s', r := Moves(Apply(s, Grant(t, terms)), t, 3), s.list[0];
      && RESERVED <= r < ENTRIES && r in s.free && s'.calls == s.calls && s'.sem == s.sem - 1 && s'.free == s.free[1..]
      && s'.table == s.table[r := Entry(terms.domid, terms.frame, Flags(true, terms.ro, false, false))]
  {
    var s0 := Apply(s, Grant(t, terms));
    StepKeeps(s, Grant(t, terms));
    TakeFinds(s0, t);
    hide Inv, Chain, Waiting;
    var s1 := Apply(s0, Move(t));
    var s2 := Apply(s1, Move(t));
    var s3 := Apply(s2, Move(t));
    assert Moves(s0, t, 0) == s0 && Moves(s0, t, 1) == s1 && Moves(s0, t, 2) == s2 && Moves(s0, t, 3) == s3;
    assert s3.calls == s.calls;
  }

  /** gnttab_end_access of a grant nobody has mapped, left to itself: the entry is closed, the reference is the
      next to be given out and the semaphore counts it. */
  lemma EndCompletes(s: State, t: nat, r: nat)
    requires Inv(s) && t < |s.calls| && s.calls[t] == Idle && r < ENTRIES && s.owner[r].Granted?
    requires !s.table[r].flags.reading && !s.table[r].flags.writing
    ensures var s' := Moves(Apply(s, End(t, r)), t, 4);
      && s'.calls == s.calls && s'.sem == s.sem + 1 && s'.free == [r] + s.free && s'.list[0] == r
      && s'.table == s.table[r := s.table[r].(flags := NONE)]
  {
    hide Inv, Chain, Waiting;
    AskedParts(s);
    var s0 := Apply(s, End(t, r));
    var s1 := Apply(s0, Move(t));
    var s2 := Apply(s1, Move(t));
    var s3 := Apply(s2, Move(t));
    var s4 := Apply(s3, Move(t));
    assert Moves(s0, t, 0) == s0 && Moves(s0, t, 1) == s1 && Moves(s0, t, 2) == s2;
    assert Moves(s0, t, 3) == s3 && Moves(s0, t, 4) == s4;
    assert s4.calls == s.calls;
  }

  /** And of one that is mapped: it returns at once and nothing has changed. */
  lemma EndRefused(s: State, t: nat, r: nat)
    requires Inv(s) && t < |s.calls| && s.calls[t] == Idle && r < ENTRIES && s.owner[r].Granted?
    requires s.table[r].flags.reading || s.table[r].flags.writing
    ensures Sized(s) && Moves(Apply(s, End(t, r)), t, 1) == s
  {
    NotReserved(s, r);
    assert RefOk(s, r);
    hide Inv, Chain, Waiting;
    var s0 := Apply(s, End(t, r));
    var s1 := Apply(s0, Move(t));
    assert Moves(s0, t, 0) == s0 && Moves(s0, t, 1) == s1;
    assert s1.calls == s.calls && s1.owner == s.owner;
  }
}
