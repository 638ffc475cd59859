/**
 The round-robin scheduler: sixteen process slots, one of them current. A context switch is modelled
 as the change of the current slot and of the two states it touches.
 */
module Processes {
  const MAX_PROCESSES := 16

  datatype ProcessState = Dead | Ready | Running

  /** The process table as a value. */
  datatype Table = Table(states: seq<ProcessState>, current: nat, count: int) {
    ghost predicate Shaped() { |states| == MAX_PROCESSES && current < MAX_PROCESSES }
  }

  datatype Event = Tick | Spawn | Kill(pid: int) | Exit

  ghost function LiveSlots(states: seq<ProcessState>): set<nat> {
    set i | 0 <= i < |states| && !states[i].Dead?
  }

  /** Nobody but the current slot runs, and the count never falls short of the live slots. */
  ghost predicate Sound(t: Table) {
    && t.Shaped()
    && (forall i :: 0 <= i < MAX_PROCESSES && i != t.current ==> !t.states[i].Running?)
    && t.count >= |LiveSlots(t.states)| + (if t.states[t.current].Dead? then 1 else 0)
  }

  // ----------------------------------------------------------------- choosing a slot

  /** How many steps ahead of slot a slot b lies, going round. */
  function Distance(a: nat, b: nat): nat
    requires a < MAX_PROCESSES && b < MAX_PROCESSES
  {
    if a <= b then b - a else b + MAX_PROCESSES - a
  }

  function Ahead(a: nat, steps: nat): nat
    requires a < MAX_PROCESSES && steps <= MAX_PROCESSES
  {
    if a + steps < MAX_PROCESSES then a + steps else a + steps - MAX_PROCESSES
  }

  /** Going round from `a`, slot j comes before b; all slots but `a` do when b is `a`. */
  predicate Between(a: nat, j: nat, b: nat)
    requires a < MAX_PROCESSES && j < MAX_PROCESSES && b < MAX_PROCESSES
  {
    j != a && (a == b || Distance(a, j) < Distance(a, b))
  }

  /** The nearest slot ahead of `current` that is not dead, or `current` when there is none. */
  ghost predicate IsNext(states: seq<ProcessState>, current: nat, next: nat)
    requires |states| == MAX_PROCESSES && current < MAX_PROCESSES
  {
    && next < MAX_PROCESSES
    && (next != current ==> !states[next].Dead?)
    && forall j :: 0 <= j < MAX_PROCESSES && Between(current, j, next) ==> states[j].Dead?
  }

  lemma NextUnique(states: seq<ProcessState>, current: nat, a: nat, b: nat)
    requires |states| == MAX_PROCESSES && current < MAX_PROCESSES
    requires IsNext(states, current, a) && IsNext(states, current, b)
    ensures a == b
  {
  }

  ghost function Search(states: seq<ProcessState>, current: nat, steps: nat): (next: nat)
    requires |states| == MAX_PROCESSES && current < MAX_PROCESSES && 1 <= steps <= MAX_PROCESSES
    ensures next < MAX_PROCESSES
    decreases MAX_PROCESSES - steps
  {
    if steps == MAX_PROCESSES || !states[Ahead(current, steps)].Dead? then Ahead(current, steps)
    else Search(states, current, steps + 1)
  }

  lemma DistanceAhead(a: nat, steps: nat, b: nat)
    requires a < MAX_PROCESSES && b < MAX_PROCESSES && steps < MAX_PROCESSES
    ensures Distance(a, Ahead(a, steps)) == steps
    ensures Ahead(a, Distance(a, b)) == b
  {
  }

  lemma {:induction false} SearchIsNext(states: seq<ProcessState>, current: nat, steps: nat)
    requires |states| == MAX_PROCESSES && current < MAX_PROCESSES && 1 <= steps <= MAX_PROCESSES
    requires forall j :: 0 <= j < MAX_PROCESSES && 0 < Distance(current, j) < steps ==> states[j].Dead?
    ensures IsNext(states, current, Search(states, current, steps))
    decreases MAX_PROCESSES - steps
  {
    if steps < MAX_PROCESSES {
      DistanceAhead(current, steps, current);
      if states[Ahead(current, steps)].Dead? {
        forall j | 0 <= j < MAX_PROCESSES && 0 < Distance(current, j) < steps + 1
          ensures states[j].Dead?
        {
          DistanceAhead(current, Distance(current, j), j);
        }
        SearchIsNext(states, current, steps + 1);
      }
    }
  }

  // ------------------------------------------------------------------------- steps

  ghost function Switched(t: Table, next: nat): Table
    requires t.Shaped() && next < MAX_PROCESSES
  {
    if next == t.current then t
    else t.(states := t.states[t.current := Ready][next := Running], current := next)
  }

  ghost function FirstDead(states: seq<ProcessState>): (i: nat)
    ensures i <= |states| && (i < |states| ==> states[i].Dead?)
    ensures forall j :: 0 <= j < i ==> !states[j].Dead?
  {
    if states == [] || states[0].Dead? then 0 else 1 + FirstDead(states[1..])
  }

  ghost function Step(t: Table, e: Event): (r: Table)
    requires t.Shaped()
    ensures r.Shaped()
  {
    match e
    case Tick =>
      if t.count == 0 then t else Switched(t, Search(t.states, t.current, 1))
    case Spawn =>
      var i := FirstDead(t.states);
      if i < MAX_PROCESSES then t.(states := t.states[i := Ready], count := t.count + 1) else t
    case Kill(pid) =>
      if pid < 0 || pid >= MAX_PROCESSES || pid == t.current || t.states[pid].Dead? then t
      else t.(states := t.states[pid := Dead], count := t.count - 1)
    case Exit =>
      t.(states := t.states[t.current := Dead])
  }

  lemma LivePut(states: seq<ProcessState>, i: nat, s: ProcessState)
    requires i < |states|
    ensures |LiveSlots(states[i := s])| == |LiveSlots(states)|
              + (if s.Dead? then 0 else 1) - (if states[i].Dead? then 0 else 1)
  {
    var was, now := LiveSlots(states), LiveSlots(states[i := s]);
    assert was - {i} == now - {i};
    assert was == (if states[i].Dead? then was - {i} else was - {i} + {i});
    assert now == (if s.Dead? then now - {i} else now - {i} + {i});
  }

  /** Every event keeps the table sound. */
  lemma StepSound(t: Table, e: Event)
    requires Sound(t)
    ensures Sound(Step(t, e))
  {
    hide LiveSlots;
    match e {
      case Tick =>
        var next := Search(t.states, t.current, 1);
        SearchIsNext(t.states, t.current, 1);
        hide Search, IsNext;
        LivePut(t.states, t.current, Ready);
        LivePut(t.states[t.current := Ready], next, Running);
        SearchLands(t);
      case Spawn =>
        var i := FirstDead(t.states);
        if i < MAX_PROCESSES {
          LivePut(t.states, i, Ready);
        }
      case Kill(pid) =>
        if 0 <= pid < MAX_PROCESSES {
          LivePut(t.states, pid, Dead);
        }
      case Exit =>
        LivePut(t.states, t.current, Dead);
    }
  }

  lemma SearchLands(t: Table)
    requires t.Shaped()
    ensures var next := Search(t.states, t.current, 1); next != t.current ==> !t.states[next].Dead?
  {
    SearchIsNext(t.states, t.current, 1);
  }

  ghost function Run(t: Table, events: seq<Event>): (r: Table)
    requires t.Shaped()
    ensures r.Shaped()
    decreases |events|
  {
    if events == [] then t else Run(Step(t, events[0]), events[1..])
  }

  /** Safety over whole runs. */
  lemma {:induction false} RunSound(t: Table, events: seq<Event>)
    requires Sound(t)
    ensures Sound(Run(t, events))
    decreases |events|
  {
    if events != [] {
      StepSound(t, events[0]);
      RunSound(Step(t, events[0]), events[1..]);
    }
  }

  /** A slot that is dead and not current stays so while nothing is spawned. */
  lemma {:induction false} DeadStaysDead(t: Table, events: seq<Event>, p: nat)
    requires t.Shaped() && p < MAX_PROCESSES && p != t.current && t.states[p].Dead? && Spawn !in events
    ensures Run(t, events).states[p].Dead? && Run(t, events).current != p
    decreases |events|
  {
    if events != [] {
      SearchLands(t);
      hide Search;
      DeadStaysDead(Step(t, events[0]), events[1..], p);
    }
  }

  /** A killed process is never run again, unless its slot is given to a new one. */
  lemma KillIsFinal(t: Table, events: seq<Event>, p: nat)
    requires t.Shaped() && p < MAX_PROCESSES && p != t.current && Spawn !in events
    ensures Run(t, [Kill(p)] + events).states[p].Dead? && Run(t, [Kill(p)] + events).current != p
  {
    assert ([Kill(p)] + events)[1..] == events;
    DeadStaysDead(Step(t, Kill(p)), events, p);
  }

  // ---------------------------------------------------------------------- fairness

  /** A tick brings a waiting process strictly nearer, unless it makes it current. */
  lemma TickApproaches(t: Table, p: nat)
    requires Sound(t) && p < MAX_PROCESSES && p != t.current && t.states[p].Ready?
    ensures var t' := Step(t, Tick);
      t'.current == p || (t'.states[p].Ready? && 0 < Distance(t'.current, p) < Distance(t.current, p))
  {
    hide Search, LiveSlots;
    SearchIsNext(t.states, t.current, 1);
    CountsLive(t, p);
    var next := Search(t.states, t.current, 1);
    assert !Between(t.current, p, next);
  }

  lemma CountsLive(t: Table, p: nat)
    requires Sound(t) && p < MAX_PROCESSES && !t.states[p].Dead?
    ensures 0 < t.count
  {
    assert p in LiveSlots(t.states);
  }

  /** Nothing but a kill of p takes a waiting process off the list. */
  lemma OtherWaits(t: Table, e: Event, p: nat)
    requires Sound(t) && p < MAX_PROCESSES && p != t.current && t.states[p].Ready? && e != Tick && e != Kill(p)
    ensures var t' := Step(t, e); t'.current == t.current && t'.states[p].Ready?
  {
  }

  ghost function Ticks(events: seq<Event>): nat {
    if events == [] then 0 else (if events[0].Tick? then 1 else 0) + Ticks(events[1..])
  }

  /**
   A process that is ready and not killed becomes current within its distance of ticks, whatever else
   is spawned, killed or exits between them. Returns how many events that takes.
   */
  lemma {:induction false} Fair(t: Table, events: seq<Event>, p: nat) returns (k: nat)
    requires Sound(t) && p < MAX_PROCESSES && p != t.current && t.states[p].Ready?
    requires Kill(p) !in events && Distance(t.current, p) <= Ticks(events)
    ensures k <= |events| && Run(t, events[..k]).current == p && Run(t, events[..k]).states[p].Running?
    ensures Ticks(events[..k]) <= Distance(t.current, p)
    decreases |events|
  {
    DistanceBound(t, p);
    hide Sound, Distance, Step;
    var e, rest := events[0], events[1..];
    var t' := Step(t, e);
    StepSound(t, e);
    var j := 0;
    if e.Tick? {
      TickApproaches(t, p);
      if t'.current == p {
        Arrives(t, p);
      } else {
        j := Fair(t', rest, p);
      }
    } else {
      OtherWaits(t, e, p);
      j := Fair(t', rest, p);
    }
    k := j + 1;
    assert events[..k][0] == e && events[..k][1..] == rest[..j];
    assert rest[..0] == [];
  }

  lemma Arrives(t: Table, p: nat)
    requires t.Shaped() && p != t.current && Step(t, Tick).current == p
    ensures p < MAX_PROCESSES && Step(t, Tick).states[p].Running?
  {
  }

  lemma DistanceBound(t: Table, p: nat)
    requires t.Shaped() && p < MAX_PROCESSES && p != t.current
    ensures 0 < Distance(t.current, p) < MAX_PROCESSES
  {
  }

  /**
   An exited process does not stay dead: the tick after its exit makes it ready again exactly when
   there is another process to switch to.
   */
  lemma ExitThenTick(t: Table)
    requires Sound(t)
    ensures var t' := Step(Step(t, Exit), Tick);
      t'.states[t.current] == if exists j :: 0 <= j < MAX_PROCESSES && j != t.current && !t.states[j].Dead?
                              then Ready else Dead
  {
    hide Search, LiveSlots;
    var t1 := Step(t, Exit);
    StepSound(t, Exit);
    assert 0 < t1.count;
    SearchIsNext(t1.states, t1.current, 1);
    var next := Search(t1.states, t1.current, 1);
    if j :| 0 <= j < MAX_PROCESSES && j != t.current && !t.states[j].Dead? {
      assert !t1.states[j].Dead? && !Between(t1.current, j, next);
    }
  }

  // ------------------------------------------------------------------ the process table

  lemma AheadOne(a: nat, i: nat)
    requires a < MAX_PROCESSES && i < MAX_PROCESSES
    ensures (Ahead(a, i) + 1) % MAX_PROCESSES == Ahead(a, i + 1) < MAX_PROCESSES
  {
  }

  /** The slots passed over, in the scheduler's own arithmetic. */
  lemma NextPlain(states: seq<ProcessState>, current: nat, next: nat)
    requires |states| == MAX_PROCESSES && current < MAX_PROCESSES && IsNext(states, current, next)
    ensures next != current ==> !states[next].Dead?
    ensures forall j :: 0 <= j < 16 && 0 < (j - current) % 16 < (next - current) % 16 ==> states[j].Dead?
    ensures next == current ==> forall j :: 0 <= j < 16 && j != current ==> states[j].Dead?
  {
    forall j | 0 <= j < 16 && 0 < (j - current) % 16 < (next - current) % 16
      ensures Between(current, j, next)
    {
    }
  }

  lemma AheadNone(a: nat)
    requires a < MAX_PROCESSES
    ensures Ahead(a, 0) == a
  {
  }

  class Scheduler {
    const states: array<ProcessState>
    var current: nat
    var count: int

    ghost predicate Valid()
      reads this, states
    {
      states.Length == MAX_PROCESSES && Sound(Abs())
    }

    ghost function Abs(): Table
      reads this, states
    {
      Table(states[..], current, count)
    }

    /** process_init: the code already executing becomes process 0. */
    constructor ()
      ensures Valid() && fresh(states)
      ensures Abs() == Table([Running] + seq(15, i => Dead), 0, 1)
    {
      states := new ProcessState[MAX_PROCESSES];
      current, count := 0, 1;
      new;
      var i := 0;
      while i < MAX_PROCESSES
        invariant 0 <= i <= MAX_PROCESSES && current == 0 && count == 1
        invariant fresh(states)
        invariant forall j :: 0 <= j < i ==> states[j] == Dead
      {
        states[i] := Dead;
        i := i + 1;
      }
      states[0] := Running;
      assert states[..] == [Running] + seq(MAX_PROCESSES - 1, i => Dead);
      assert LiveSlots(states[..]) == {0};
    }

    /** The slot of the new process, the lowest dead one, or -1. */
    method ProcessSpawn() returns (pid: int)
      requires Valid()
      modifies this`count, states
      ensures Valid() && Abs() == Step(old(Abs()), Spawn) && -1 <= pid < MAX_PROCESSES
      ensures pid == -1 ==> forall i :: 0 <= i < MAX_PROCESSES ==> old(states[i]) != Dead
      ensures pid == -1 ==> states[..] == old(states[..]) && count == old(count)
      ensures pid >= 0 ==> old(states[pid]) == Dead && forall i :: 0 <= i < pid ==> old(states[i]) != Dead
      ensures pid >= 0 ==> states[..] == old(states[..])[pid := Ready] && count == old(count) + 1
    {
      hide LiveSlots, FirstDead;
      ghost var t := Abs();
      StepSound(t, Spawn);
      var i := 0;
      while i < MAX_PROCESSES
        invariant 0 <= i <= MAX_PROCESSES && Abs() == t
        invariant forall j :: 0 <= j < i ==> !t.states[j].Dead?
      {
        if states[i] == Dead {
          FirstDeadIs(t.states, i);
          states[i] := Ready;
          count := count + 1;
          return i;
        }
        i := i + 1;
      }
      FirstDeadIs(t.states, i);
      return -1;
    }

    /** Kills a live process other than the current one; any other number changes nothing. */
    method ProcessKill(pid: int)
      requires Valid()
      modifies this`count, states
      ensures Valid() && Abs() == Step(old(Abs()), Kill(pid))
      ensures if 0 <= pid < MAX_PROCESSES && pid != current && old(states[pid]) != Dead
              then states[..] == old(states[..])[pid := Dead] && count == old(count) - 1
              else states[..] == old(states[..]) && count == old(count)
    {
      StepSound(Abs(), Kill(pid));
      if pid < 0 || pid >= MAX_PROCESSES || pid == current || states[pid] == Dead {
        return;
      }
      states[pid] := Dead;
      count := count - 1;
    }

    /** Switches to the nearest slot ahead that is not dead, going round; stays where it is if there is none. */
    method ProcessSchedule()
      requires Valid()
      modifies this`current, states
      ensures Valid() && Abs() == Step(old(Abs()), Tick)
      ensures current == old(current) ==> states[..] == old(states[..])
      ensures current != old(current) ==>
                && states[..] == old(states[..])[old(current) := Ready][current := Running]
                && old(states[..])[current] != Dead
                && forall j :: 0 <= j < 16 && 0 < (j - old(current)) % 16 < (current - old(current)) % 16 ==>
                                 old(states[j]) == Dead
      ensures current == old(current) && count != 0 ==> forall j :: 0 <= j < 16 && j != current ==> states[j] == Dead
    {
      hide LiveSlots, Ahead;
      ghost var t := Abs();
      StepSound(t, Tick);
      AheadNone(current);
      if count == 0 {
        return;
      }
      var next, i := current, 0;
      while i < MAX_PROCESSES
        invariant 0 <= i <= MAX_PROCESSES && Abs() == t && next == Ahead(current, i)
        invariant i < MAX_PROCESSES ==> Search(t.states, current, i + 1) == Search(t.states, current, 1)
        invariant i == MAX_PROCESSES ==> next == Search(t.states, current, 1)
      {
        AheadOne(current, i);
        next := (next + 1) % MAX_PROCESSES;
        if states[next] == Ready || states[next] == Running {
          break;
        }
        i := i + 1;
      }
      assert next == Search(t.states, current, 1);
      SearchIsNext(t.states, current, 1);
      NextPlain(t.states, current, next);
      hide Search, IsNext;
      if next == current {
        return;
      }
      assert t.states[next] != Dead;
      states[current] := Ready;
      states[next] := Running;
      current := next;
    }

    /** The current process returns from its entry point. */
    method Retire()
      requires Valid()
      modifies states
      ensures Valid() && Abs() == Step(old(Abs()), Exit)
      ensures states[..] == old(states[..])[current := Dead]
    {
      StepSound(Abs(), Exit);
      states[current] := Dead;
    }
  }

  lemma {:induction false} FirstDeadIs(states: seq<ProcessState>, i: nat)
    requires i <= |states| && (i < |states| ==> states[i].Dead?)
    requires forall j :: 0 <= j < i ==> !states[j].Dead?
    ensures FirstDead(states) == i
  {
  }
}
