/** Whole runs of the scheduler: the partition of threads over the queues, and fairness. */
module SchedulerRuns {
  import opened Wrappers
  import opened Schedulers

  // ----- Runs -----

  datatype Step = Timer | Blocking(thread: Tid) | Unblocking(thread: Tid) | Enqueueing(thread: Tid)

  /** Blocking and unblocking name live threads; enqueueing from outside names a new one. */
  predicate Enabled(s: Queues, step: Step) {
    match step
    case Timer => true
    case Blocking(t) => t in s.states
    case Unblocking(t) => t in s.states
    case Enqueueing(t) => t !in s.states && t != s.idle
  }

  function Apply(s: Queues, step: Step): Queues {
    match step
    case Timer => AfterTick(s)
    case Blocking(t) => AfterBlock(s, t)
    case Unblocking(t) => AfterUnblock(s, t)
    case Enqueueing(t) => AfterEnqueue(s, t)
  }

  predicate Legal(s: Queues, steps: seq<Step>)
    decreases |steps|
  {
    steps == [] || (Enabled(s, steps[0]) && Legal(Apply(s, steps[0]), steps[1..]))
  }

  function Run(s: Queues, steps: seq<Step>): Queues
    decreases |steps|
  {
    if steps == [] then s else Run(Apply(s, steps[0]), steps[1..])
  }

  function Created(steps: seq<Step>): set<Tid> {
    set step | step in steps && step.Enqueueing? :: step.thread
  }

  lemma StepKeeps(s: Queues, step: Step)
    requires Valid(s) && Enabled(s, step)
    ensures Valid(Apply(s, step)) && Apply(s, step).idle == s.idle
    ensures Apply(s, step).states.Keys == s.states.Keys + Created([step])
  {
    hide Valid;
    match step
    case Timer => TickKeeps(s) by { ValidPlaced(s); }
    case Blocking(t) => BlockKeeps(s, t);
    case Unblocking(t) => UnblockKeeps(s, t);
    case Enqueueing(t) =>
      EnqueueKeeps(s, t);
      assert step in [step];
  }

  lemma ValidPlaced(s: Queues)
    requires Valid(s)
    ensures Placed(s)
  {
  }

  /** In every reachable state each thread that was ever enqueued is in exactly one place. */
  lemma {:induction false} RunKeeps(s: Queues, steps: seq<Step>)
    requires Valid(s) && Legal(s, steps)
    ensures Valid(Run(s, steps))
    ensures Run(s, steps).states.Keys == s.states.Keys + Created(steps)
    decreases |steps|
  {
    hide Valid, Apply, Enabled;
    if steps != [] {
      StepKeeps(s, steps[0]);
      RunKeeps(Apply(s, steps[0]), steps[1..]);
      assert steps == [steps[0]] + steps[1..];
      assert Created(steps) == Created([steps[0]]) + Created(steps[1..]);
    }
  }

  // ----- Fairness -----

  /** Whether a step reaches the timer handler: a tick, or a thread that blocks itself. */
  predicate Reschedules(s: Queues, step: Step) {
    step.Timer? || (step.Blocking? && s.current == Some(step.thread) && !InState(s.states, step.thread, Blocked))
  }

  function Ticks(s: Queues, steps: seq<Step>): nat
    decreases |steps|
  {
    if steps == [] then 0
    else (if Reschedules(s, steps[0]) then 1 else 0) + Ticks(Apply(s, steps[0]), steps[1..])
  }

  predicate WaitsAt(s: Queues, t: Tid, k: nat) {
    k < |s.execution| && s.execution[k] == t && InState(s.states, t, Ready)
  }

  lemma TickAdvances(s: Queues, t: Tid, k: nat) returns (j: nat)
    requires Placed(s) && WaitsAt(s, t, k)
    ensures AfterTick(s).current == Some(t) || (j < k && WaitsAt(AfterTick(s), t, j))
  {
    hide Places;
    var f := FirstReady(s.states, s.execution);
    j := 0;
    ExactlyOnePlace(s, t);
    if f < k {
      j := k - f - 1;
      if s.execution[f] == t {
        CountedTwice(s.execution, f, k);
      }
    }
  }

  /** No step of others moves a waiting thread back, and each tick moves it forward or runs it. */
  lemma StepAdvances(s: Queues, step: Step, t: Tid, k: nat) returns (j: nat)
    requires Valid(s) && Enabled(s, step) && WaitsAt(s, t, k) && step != Blocking(t)
    ensures (Reschedules(s, step) && Apply(s, step).current == Some(t)) ||
            (WaitsAt(Apply(s, step), t, j) && j + (if Reschedules(s, step) then 1 else 0) <= k)
  {
    hide Places;
    j := k;
    ExactlyOnePlace(s, t);
    match step
    case Timer => j := TickAdvances(s, t, k);
    case Blocking(u) =>
      if Reschedules(s, step) {
        var marked := s.(states := s.states[u := Blocked]);
        MarkKeeps(s, u);
        j := TickAdvances(marked, t, k);
      }
    case Unblocking(u) =>
    case Enqueueing(u) =>
  }

  /**
   A ready thread at position `k` runs after at most `k + 1` ticks, whatever the other threads and
   the interrupt handlers do meanwhile: `i` steps suffice.
   */
  lemma {:induction false} RunsWithin(s: Queues, steps: seq<Step>, t: Tid, k: nat) returns (i: nat)
    requires Valid(s) && Legal(s, steps) && WaitsAt(s, t, k)
    requires Blocking(t) !in steps && Ticks(s, steps) > k
    ensures i <= |steps| && Ticks(s, steps[..i]) <= k + 1
    ensures Run(s, steps[..i]).current == Some(t)
    decreases |steps|
  {
    hide Valid, Apply, Enabled, Reschedules, WaitsAt;
    var n := Apply(s, steps[0]);
    var j := StepAdvances(s, steps[0], t, k);
    if Reschedules(s, steps[0]) && n.current == Some(t) {
      i := 1;
      assert steps[..1] == [steps[0]];
      assert Run(n, []) == n && Ticks(n, []) == 0;
    } else {
      StepKeeps(s, steps[0]);
      i := RunsWithin(n, steps[1..], t, j);
      i := i + 1;
      assert steps[..i][1..] == steps[1..][..i - 1];
    }
  }

  function TickTimes(s: Queues, n: nat): Queues
    decreases n
  {
    if n == 0 then s else TickTimes(AfterTick(s), n - 1)
  }

  /** How many threads of a queue are ready. */
  function ReadyCount(states: Threads, q: seq<Tid>): nat {
    if q == [] then 0 else (if InState(states, q[0], Ready) then 1 else 0) + ReadyCount(states, q[1..])
  }

  lemma {:induction false} ReadyPrefix(states: Threads, q: seq<Tid>)
    ensures ReadyCount(states, q) == 0 <==> FirstReady(states, q) == |q|
    ensures FirstReady(states, q) < |q| ==>
              ReadyCount(states, q) == 1 + ReadyCount(states, q[FirstReady(states, q) + 1..])
  {
    if q != [] && !InState(states, q[0], Ready) {
      ReadyPrefix(states, q[1..]);
      var f := FirstReady(states, q[1..]);
      if f < |q| - 1 {
        assert q[1..][f + 1..] == q[f + 2..];
      }
    }
  }

  lemma {:induction false} FirstReadyPrefix(states: Threads, q: seq<Tid>, k: nat)
    requires k < |q| && InState(states, q[k], Ready)
    ensures FirstReady(states, q) == FirstReady(states, q[..k])
  {
    if k > 0 && !InState(states, q[0], Ready) {
      FirstReadyPrefix(states, q[1..], k - 1);
      assert q[..k][1..] == q[1..][..k - 1];
    }
  }

  lemma {:induction false} SameReadyCount(a: Threads, b: Threads, q: seq<Tid>)
    requires forall t :: t in q ==> (InState(a, t, Ready) <==> InState(b, t, Ready))
    ensures ReadyCount(a, q) == ReadyCount(b, q)
  {
    if q != [] {
      SameReadyCount(a, b, q[1..]);
    }
  }

  /** The idle thread runs after a tick exactly when no thread is ready and none was running. */
  lemma IdleIff(s: Queues)
    requires Placed(s)
    ensures AfterTick(s).current == Some(s.idle) <==> ReadyCount(s.states, s.execution) == 0 && OnCpu(s) == []
    ensures ReadyCount(s.states, s.execution) == 0 && OnCpu(s) != [] ==>
              && AfterTick(s).current == s.current && AfterTick(s).execution == []
              && InState(AfterTick(s).states, s.current.value, Running)
  {
    hide Placed, AfterTick;
    TickRuns(s);
    ReadyPrefix(s.states, s.execution);
  }

  lemma TickCountsDown(s: Queues, t: Tid, k: nat) returns (j: nat)
    requires Valid(s) && WaitsAt(s, t, k)
    ensures ReadyCount(s.states, s.execution[..k]) == 0 ==> AfterTick(s).current == Some(t)
    ensures ReadyCount(s.states, s.execution[..k]) > 0 ==>
              && AfterTick(s).current != Some(t) && WaitsAt(AfterTick(s), t, j)
              && ReadyCount(AfterTick(s).states, AfterTick(s).execution[..j]) ==
                ReadyCount(s.states, s.execution[..k]) - 1
  {
    hide Places;
    var q, n := s.execution, AfterTick(s);
    var f := FirstReady(s.states, q);
    FirstReadyPrefix(s.states, q, k);
    ReadyPrefix(s.states, q[..k]);
    j := 0;
    if f < k {
      j := k - f - 1;
      ExactlyOnePlace(s, t);
      if q[f] == t {
        CountedTwice(q, f, k);
      }
      var between := q[..k][f + 1..];
      assert between == n.execution[..j];
      forall u | u in between
        ensures InState(s.states, u, Ready) <==> InState(n.states, u, Ready)
      {
        ExactlyOnePlace(s, u);
        var i :| f + 1 <= i < k && q[i] == u;
        if q[f] == u {
          CountedTwice(q, f, i);
        }
      }
      SameReadyCount(s.states, n.states, between);
    }
  }

  /** When nothing but the timer fires, the ready threads run strictly in queue order, one per tick. */
  lemma {:induction false} RoundRobin(s: Queues, t: Tid, k: nat, n: nat)
    requires Valid(s) && WaitsAt(s, t, k)
    requires 1 <= n <= ReadyCount(s.states, s.execution[..k]) + 1
    ensures TickTimes(s, n).current == Some(t) <==> n == ReadyCount(s.states, s.execution[..k]) + 1
    decreases n
  {
    hide Valid, AfterTick, WaitsAt;
    var j := TickCountsDown(s, t, k);
    assert TickTimes(s, n) == TickTimes(AfterTick(s), n - 1);
    if n == 1 {
      assert TickTimes(AfterTick(s), 0) == AfterTick(s);
    } else {
      TickKeeps(s) by { ValidPlaced(s); }
      RoundRobin(AfterTick(s), t, j, n - 1);
    }
  }
}
