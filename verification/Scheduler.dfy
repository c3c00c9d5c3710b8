/**
 The thread queues of Kernel/Scheduler/Scheduler.cpp on one CPU. `Queues` is the state as a value,
 the functions on it say what each operation does to it, and class `Scheduler` is the code.
 */
module Schedulers {
  import opened Wrappers

  type Tid = nat

  /** The states of a live thread that was enqueued at least once. */
  datatype ThreadState = Ready | Running | Blocked

  type Threads = map<Tid, ThreadState>

  datatype Queues = Queues(idle: Tid, current: Option<Tid>, states: Threads, execution: seq<Tid>, blocked: seq<Tid>)

  predicate InState(states: Threads, t: Tid, state: ThreadState) {
    t in states && states[t] == state
  }

  /** The thread that occupies the CPU, unless that is nobody or the idle thread. */
  function OnCpu(s: Queues): (r: seq<Tid>) {
    if s.current.Some? && s.current.value != s.idle then [s.current.value] else []
  }

  function Count(q: seq<Tid>, t: Tid): nat {
    multiset(q)[t]
  }

  /** In how many places a thread is, each queue counted with multiplicity. */
  function Places(s: Queues, t: Tid): nat {
    Count(s.execution, t) + Count(s.blocked, t) + Count(OnCpu(s), t)
  }

  /** Each live thread is in exactly one place, and the queues hold threads in the right states. */
  ghost predicate Placed(s: Queues) {
    && s.idle !in s.states
    && (forall t :: Places(s, t) == if t in s.states then 1 else 0)
    && (forall t :: t in s.execution ==> !InState(s.states, t, Running))
    && (forall t :: t in s.blocked ==> InState(s.states, t, Blocked))
  }

  /** Between two steps the thread on the CPU is also marked as running. */
  ghost predicate Valid(s: Queues) {
    && Placed(s)
    && (forall t :: t in OnCpu(s) ==> InState(s.states, t, Running))
  }

  function Start(idle: Tid): (s: Queues)
    ensures Valid(s) && s.states == map[]
  {
    Queues(idle, None, map[], [], [])
  }

  lemma CountMember(q: seq<Tid>, t: Tid)
    ensures t in q <==> Count(q, t) > 0
  {
  }

  /** What one thread's place means: the three places exclude each other and cover all live threads. */
  lemma ExactlyOnePlace(s: Queues, t: Tid)
    requires Placed(s)
    ensures t in s.states <==> t in s.execution || t in s.blocked || t in OnCpu(s)
    ensures !(t in s.execution && t in s.blocked)
    ensures t in OnCpu(s) ==> t !in s.execution && t !in s.blocked
    ensures t in s.execution ==> Count(s.execution, t) == 1
    ensures t in s.blocked ==> Count(s.blocked, t) == 1
  {
    hide Count;
    CountMember(s.execution, t);
    CountMember(s.blocked, t);
    CountMember(OnCpu(s), t);
    assert Places(s, t) <= 1;
  }

  lemma CountedTwice(q: seq<Tid>, i: nat, j: nat)
    requires i < j < |q| && q[i] == q[j]
    ensures Count(q, q[i]) >= 2
  {
    assert q == q[..j] + q[j..];
    assert q[i] in q[..j] && q[j] in q[j..];
  }

  lemma CountAppend(p: seq<Tid>, q: seq<Tid>, t: Tid)
    ensures Count(p + q, t) == Count(p, t) + Count(q, t)
  {
  }

  lemma CountOne(t: Tid, u: Tid)
    ensures Count([t], u) == if t == u then 1 else 0
  {
  }

  // ----- What the operations do -----

  /** Index of the first ready thread of a queue, or its length. */
  function FirstReady(states: Threads, q: seq<Tid>): (k: nat)
    ensures k <= |q|
    ensures forall i :: 0 <= i < k ==> !InState(states, q[i], Ready)
    ensures k < |q| ==> InState(states, q[k], Ready)
  {
    if q == [] || InState(states, q[0], Ready) then 0 else 1 + FirstReady(states, q[1..])
  }

  function Remove(q: seq<Tid>, t: Tid): (r: seq<Tid>)
    ensures forall u :: Count(r, u) == if u == t && u in q then Count(q, u) - 1 else Count(q, u)
  {
    if q == [] then []
    else
      assert q == [q[0]] + q[1..];
      if q[0] == t then q[1..] else [q[0]] + Remove(q[1..], t)
  }

  /** The outgoing thread goes back to ready, unless it blocked itself. */
  function Preempted(s: Queues): Threads {
    if OnCpu(s) != [] && InState(s.states, OnCpu(s)[0], Running) then s.states[OnCpu(s)[0] := Ready] else s.states
  }

  /** The state after a timer tick. */
  function AfterTick(s: Queues): Queues {
    var k := FirstReady(s.states, s.execution);
    var blocked := s.blocked + s.execution[..k];
    if k < |s.execution| then
      var next := s.execution[k];
      Queues(s.idle, Some(next), Preempted(s)[next := Running], s.execution[k + 1..] + OnCpu(s), blocked)
    else if OnCpu(s) != [] then
      Queues(s.idle, s.current, s.states[OnCpu(s)[0] := Running], [], blocked)
    else
      Queues(s.idle, Some(s.idle), s.states, [], blocked)
  }

  function AfterBlock(s: Queues, t: Tid): Queues {
    if InState(s.states, t, Blocked) then s
    else
      var marked := s.(states := s.states[t := Blocked]);
      if s.current == Some(t) then AfterTick(marked) else marked
  }

  function AfterUnblock(s: Queues, t: Tid): Queues {
    if !InState(s.states, t, Blocked) then s
    else if t in s.execution then s.(states := s.states[t := Ready])
    else s.(states := s.states[t := Ready], blocked := Remove(s.blocked, t), execution := s.execution + [t])
  }

  function AfterEnqueue(s: Queues, t: Tid): Queues {
    s.(states := s.states[t := Ready], execution := s.execution + [t])
  }

  // ----- Every operation keeps the invariant -----

  /** A tick conserves threads: it moves them between places and neither loses nor duplicates one. */
  lemma TickConserves(s: Queues, t: Tid)
    requires Placed(s)
    ensures Places(AfterTick(s), t) == Places(s, t)
  {
    hide Count, Placed;
    var k := FirstReady(s.states, s.execution);
    var q := s.execution;
    CountAppend(q[..k], q[k..], t);
    CountAppend(s.blocked, q[..k], t);
    assert q == q[..k] + q[k..];
    CountMember([], t);
    if k < |q| {
      CountAppend([q[k]], q[k + 1..], t);
      CountAppend(q[k + 1..], OnCpu(s), t);
      assert q[k..] == [q[k]] + q[k + 1..];
      NotIdle(s);
    }
  }

  lemma NotIdle(s: Queues)
    requires Placed(s)
    ensures s.idle !in s.execution && s.idle !in s.blocked
  {
    ExactlyOnePlace(s, s.idle);
  }

  lemma TickKeys(s: Queues)
    requires Placed(s)
    ensures AfterTick(s).states.Keys == s.states.Keys
  {
    hide Places;
    var k := FirstReady(s.states, s.execution);
    if OnCpu(s) != [] {
      ExactlyOnePlace(s, OnCpu(s)[0]);
    }
    if k < |s.execution| {
      ExactlyOnePlace(s, s.execution[k]);
    }
  }

  /** Who runs after a tick: the first ready thread; else whoever ran before; else the idle thread. */
  lemma TickRuns(s: Queues)
    requires Placed(s)
    ensures var n, k := AfterTick(s), FirstReady(s.states, s.execution);
            && (k < |s.execution| ==>
                  && n.current == Some(s.execution[k]) && InState(n.states, s.execution[k], Running)
                  && n.execution == s.execution[k + 1..] + OnCpu(s) && n.blocked == s.blocked + s.execution[..k])
            && (k == |s.execution| ==> n.execution == [] && n.blocked == s.blocked + s.execution)
            && (k == |s.execution| && OnCpu(s) != [] ==>
                  n.current == s.current && InState(n.states, s.current.value, Running))
            && (n.current == Some(s.idle) <==> k == |s.execution| && OnCpu(s) == [])
  {
    hide Places;
    NotIdle(s);
  }

  /** Blocking marks the thread, unless it is running and nobody else can; unless it runs, nothing else changes. */
  lemma BlockEffect(s: Queues, t: Tid)
    requires Valid(s) && t in s.states
    ensures var n := AfterBlock(s, t);
            && (s.current != Some(t) ==> n == s.(states := s.states[t := Blocked]))
            && (s.current == Some(t) && FirstReady(s.states, s.execution) < |s.execution| ==>
                  InState(n.states, t, Blocked) && t in n.execution && n.current != Some(t))
            && (s.current == Some(t) && FirstReady(s.states, s.execution) == |s.execution| ==>
                  InState(n.states, t, Running) && n.current == Some(t))
  {
    hide Places;
    ExactlyOnePlace(s, t);
    var marked := s.(states := s.states[t := Blocked]);
    if s.current == Some(t) {
      MarkKeeps(s, t);
      SameFirstReady(s.states, marked.states, s.execution);
      TickRuns(marked);
      assert t in OnCpu(s);
    } else if InState(s.states, t, Blocked) {
      assert s.states[t := Blocked] == s.states;
    }
  }

  /** Unblocking readies a blocked thread where it is queued, or at the end of the execution queue. */
  lemma UnblockEffect(s: Queues, t: Tid)
    requires Valid(s) && InState(s.states, t, Blocked)
    ensures var n := AfterUnblock(s, t);
            && n.states == s.states[t := Ready] && n.current == s.current
            && n.execution == (if t in s.execution then s.execution else s.execution + [t])
            && t !in n.blocked
  {
    hide Places, Count;
    ExactlyOnePlace(s, t);
    CountMember(AfterUnblock(s, t).blocked, t);
    CountMember(s.blocked, t);
  }

  lemma {:induction false} SameFirstReady(a: Threads, b: Threads, q: seq<Tid>)
    requires forall i :: 0 <= i < |q| ==> (InState(a, q[i], Ready) <==> InState(b, q[i], Ready))
    ensures FirstReady(a, q) == FirstReady(b, q)
  {
    if q != [] {
      SameFirstReady(a, b, q[1..]);
    }
  }

  lemma TickKeeps(s: Queues)
    requires Placed(s)
    ensures Valid(AfterTick(s)) && AfterTick(s).states.Keys == s.states.Keys
  {
    hide Places;
    var n := AfterTick(s);
    var k := FirstReady(s.states, s.execution);
    TickKeys(s);
    forall t
      ensures Places(n, t) == if t in n.states then 1 else 0
    {
      TickConserves(s, t);
    }
    forall t | t in n.blocked
      ensures InState(n.states, t, Blocked)
    {
      ExactlyOnePlace(s, t);
    }
    forall t | t in n.execution
      ensures !InState(n.states, t, Running)
    {
      ExactlyOnePlace(s, t);
      if t in s.execution[k + 1..] && t == s.execution[k] {
        var i :| k + 1 <= i < |s.execution| && s.execution[i] == t;
        CountedTwice(s.execution, k, i);
      }
    }
  }

  /** Marking a thread as blocked where it stands keeps everything but the running mark. */
  lemma MarkKeeps(s: Queues, t: Tid)
    requires Valid(s) && t in s.states
    ensures Placed(s.(states := s.states[t := Blocked]))
    ensures s.states[t := Blocked].Keys == s.states.Keys
    ensures s.current != Some(t) ==> Valid(s.(states := s.states[t := Blocked]))
  {
    hide Count;
    var marked := s.(states := s.states[t := Blocked]);
    ExactlyOnePlace(s, t);
    assert marked.states.Keys == s.states.Keys;
    assert forall u :: Places(marked, u) == Places(s, u);
  }

  lemma BlockKeeps(s: Queues, t: Tid)
    requires Valid(s) && t in s.states
    ensures Valid(AfterBlock(s, t)) && AfterBlock(s, t).states.Keys == s.states.Keys
  {
    MarkKeeps(s, t);
    TickKeeps(s.(states := s.states[t := Blocked]));
  }

  lemma UnblockConserves(s: Queues, t: Tid, u: Tid)
    requires Valid(s) && t in s.states
    ensures Places(AfterUnblock(s, t), u) == Places(s, u)
  {
    hide Count;
    ExactlyOnePlace(s, t);
    CountAppend(s.execution, [t], u);
    CountOne(t, u);
  }

  lemma UnblockKeeps(s: Queues, t: Tid)
    requires Valid(s) && t in s.states
    ensures Valid(AfterUnblock(s, t)) && AfterUnblock(s, t).states.Keys == s.states.Keys
  {
    hide Count, Places;
    var n := AfterUnblock(s, t);
    ExactlyOnePlace(s, t);
    assert n.states.Keys == s.states.Keys;
    forall u
      ensures Places(n, u) == if u in n.states then 1 else 0
      ensures u in n.blocked ==> InState(n.states, u, Blocked)
    {
      UnblockConserves(s, t, u);
      CountMember(n.blocked, u);
      CountMember(s.blocked, u);
    }
  }

  lemma EnqueueKeeps(s: Queues, t: Tid)
    requires Valid(s) && t !in s.states && t != s.idle
    ensures Valid(AfterEnqueue(s, t)) && AfterEnqueue(s, t).states.Keys == s.states.Keys + {t}
    ensures InState(AfterEnqueue(s, t).states, t, Ready) && AfterEnqueue(s, t).execution == s.execution + [t]
  {
    hide Count;
    var n := AfterEnqueue(s, t);
    ExactlyOnePlace(s, t);
    assert n.states.Keys == s.states.Keys + {t};
    forall u
      ensures Places(n, u) == if u in n.states then 1 else 0
    {
      CountAppend(s.execution, [t], u);
      CountOne(t, u);
      assert Places(s, u) == if u in s.states then 1 else 0;
    }
  }

  // ----- The code -----

  predicate NoRepeats(q: seq<Tid>) {
    forall i, j :: 0 <= i < j < |q| ==> q[i] != q[j]
  }

  lemma QueueEntries(s: Queues)
    requires Placed(s)
    ensures NoRepeats(s.execution) && s.idle !in s.execution
    ensures forall t :: t in s.execution ==> InState(s.states, t, Ready) || InState(s.states, t, Blocked)
  {
    hide Places;
    NotIdle(s);
    forall t | t in s.execution
      ensures t in s.states
    {
      ExactlyOnePlace(s, t);
    }
    forall i, j | 0 <= i < j < |s.execution|
      ensures s.execution[i] != s.execution[j]
    {
      ExactlyOnePlace(s, s.execution[i]);
      if s.execution[i] == s.execution[j] {
        CountedTwice(s.execution, i, j);
      }
    }
  }

  lemma FirstReadyIs(states: Threads, q: seq<Tid>, k: nat)
    requires k <= |q| && (forall i :: 0 <= i < k ==> !InState(states, q[i], Ready))
    requires k < |q| ==> InState(states, q[k], Ready)
    ensures FirstReady(states, q) == k
  {
  }

  class Scheduler {
    const idle: Tid
    var current: Option<Tid>
    var states: Threads
    /** The threads whose `m_IsEnqueued` is set. */
    var enqueued: set<Tid>
    var execution: seq<Tid>
    var blocked: seq<Tid>

    ghost function Snapshot(): Queues
      reads this
    {
      Queues(idle, current, states, execution, blocked)
    }

    /** The flag is set exactly on the threads of the execution queue. */
    ghost predicate FlagsAgree()
      reads this
    {
      forall t :: t in enqueued <==> t in execution
    }

    ghost predicate Sound()
      reads this
    {
      Valid(Snapshot()) && FlagsAgree()
    }

    constructor (idle: Tid)
      ensures Sound() && Snapshot() == Start(idle)
    {
      this.idle := idle;
      current, states, enqueued, execution, blocked := None, map[], {}, [], [];
    }

    /** An entry of the blocked queue reports as linked, like one of the execution queue. */
    predicate IsLinked(t: Tid)
      reads this
    {
      t in execution || t in blocked
    }

    method Push(t: Tid)
      requires FlagsAgree()
      modifies this`enqueued, this`execution
      ensures FlagsAgree() && execution == old(execution) + [t]
    {
      enqueued := enqueued + {t};
      execution := execution + [t];
    }

    method EnqueueThread(t: Tid)
      requires Sound() && t !in states && t != idle
      modifies this
      ensures Sound() && Snapshot() == AfterEnqueue(old(Snapshot()), t)
    {
      EnqueueKeeps(Snapshot(), t);
      ExactlyOnePlace(Snapshot(), t);
      if t in enqueued {
        return;
      }
      states := states[t := Ready];
      Push(t);
    }

    method EnqueueNotReady(t: Tid)
      requires FlagsAgree() && t in states
      modifies this`enqueued, this`execution, this`states
      ensures FlagsAgree() && execution == old(execution) + [t]
      ensures states == if old(states)[t] == Running then old(states)[t := Ready] else old(states)
    {
      if states[t] == Running {
        states := states[t := Ready];
      }
      Push(t);
    }

    method GetNextThread() returns (next: Option<Tid>)
      requires FlagsAgree()
      requires NoRepeats(execution)
      modifies this`enqueued, this`execution
      ensures FlagsAgree()
      ensures old(execution) == [] ==> next == None && execution == []
      ensures old(execution) != [] ==> next == Some(old(execution)[0]) && execution == old(execution)[1..]
    {
      if execution == [] {
        return None;
      }
      next := Some(execution[0]);
      ghost var q := execution;
      execution := execution[1..];
      enqueued := enqueued - {next.value};
      assert q == [q[0]] + execution;
    }

    /**
     Pops until a ready thread comes up; blocked ones on the way are parked. The queue holds no
     other states, so the loop ends after at most one pass.
     */
    method PickReadyThread() returns (pick: Tid)
      requires FlagsAgree() && NoRepeats(execution)
      requires forall i :: 0 <= i < |execution| ==>
                 InState(states, execution[i], Ready) || InState(states, execution[i], Blocked)
      modifies this`enqueued, this`execution, this`blocked
      ensures FlagsAgree()
      ensures var k := FirstReady(states, old(execution));
              && blocked == old(blocked) + old(execution)[..k]
              && (k < |old(execution)| ==> pick == old(execution)[k] && execution == old(execution)[k + 1..])
              && (k == |old(execution)| ==> execution == [] && pick == if current.Some? then current.value else idle)
    {
      ghost var q := execution;
      ghost var i := 0;
      assert forall j :: 0 <= j < |q| ==> q[j] in states;
      var next := GetNextThread();
      while next.Some? && states[next.value] != Ready
        invariant FlagsAgree() && i <= |q| && (next.Some? ==> next.value in states)
        invariant blocked == old(blocked) + q[..i]
        invariant forall j :: 0 <= j < i ==> !InState(states, q[j], Ready)
        invariant next.Some? ==> i < |q| && next.value == q[i] && execution == q[i + 1..]
        invariant next.None? ==> i == |q| && execution == []
        decreases |q| - i
      {
        blocked := blocked + [next.value];
        i := i + 1;
        next := GetNextThread();
      }
      FirstReadyIs(states, q, i);
      if next.None? {
        return if current.Some? then current.value else idle;
      }
      pick := next.value;
    }

    method SwitchContext(pick: Tid)
      requires FlagsAgree() && (forall t :: t in OnCpu(Snapshot()) ==> t in states)
      modifies this`current, this`enqueued, this`execution, this`states
      ensures FlagsAgree() && current == Some(pick)
      ensures execution == old(execution) + if old(current) == Some(pick) then [] else OnCpu(old(Snapshot()))
      ensures states == if old(current) == Some(pick) then old(states) else Preempted(old(Snapshot()))
    {
      if current.Some? {
        if current.value == pick {
          return;
        }
        if current.value != idle {
          assert current.value in OnCpu(Snapshot());
          EnqueueNotReady(current.value);
        }
      }
      current := Some(pick);
    }

    /** The timer handler. */
    method Tick()
      requires Placed(Snapshot()) && FlagsAgree()
      modifies this
      ensures Sound() && Snapshot() == AfterTick(old(Snapshot()))
    {
      hide Places;
      ghost var s := Snapshot();
      QueueEntries(s);
      TickKeeps(s);
      forall t | t in OnCpu(s)
        ensures t in s.states && t !in s.execution
      {
        ExactlyOnePlace(s, t);
      }
      var pick := PickReadyThread();
      SwitchContext(pick);
      if pick != idle {
        states := states[pick := Running];
      }
    }

    /** A thread that blocks itself gives up the CPU at once. */
    method Block(t: Tid)
      requires Sound() && t in states
      modifies this
      ensures Sound() && Snapshot() == AfterBlock(old(Snapshot()), t)
    {
      if states[t] == Blocked {
        return;
      }
      MarkKeeps(Snapshot(), t);
      states := states[t := Blocked];
      if current == Some(t) {
        Tick();
      }
    }

    method Unblock(t: Tid)
      requires Sound() && t in states
      modifies this
      ensures Sound() && Snapshot() == AfterUnblock(old(Snapshot()), t)
    {
      hide Places;
      UnblockKeeps(Snapshot(), t);
      if states[t] != Blocked {
        return;
      }
      ExactlyOnePlace(Snapshot(), t);
      states := states[t := Ready];
      if t !in enqueued {
        if IsLinked(t) {
          blocked := Remove(blocked, t);
        }
        Push(t);
      }
    }
  }
}
