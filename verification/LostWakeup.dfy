/**
 When a trigger wakes a thread that called `Await` (Kernel/Scheduler/Event.cpp), and when the
 wake-up is lost because the trigger falls between attaching and blocking.
 */
module LostWakeup {
  import opened Wrappers
  import opened Schedulers
  import opened Events

  predicate Asleep(w: World, t: Tid) {
    t in w.waits && w.waits[t].phase == Sleeping && InState(w.queues.states, t, Blocked)
  }

  /** A trigger wakes a sleeper exactly when the same event did not already trigger before it slept. */
  lemma WakesExactly(w: World, t: Tid, e: nat, drop: bool)
    requires Coherent(w) && Asleep(w, t) && e in w.waits[t].events
    ensures e < |w.events|
    ensures InState(AfterTrigger(w, e, drop).queues.states, t, Ready) <==> (t, e) !in w.log.early
    ensures InState(AfterTrigger(w, e, drop).queues.states, t, Blocked) <==> (t, e) in w.log.early
  {
    hide Valid, Spans, Latest, IsListed, ListedOnce;
    assert Committed(w.queues.states, w.waits, t);
    assert RightHearing(w.events, w.log.early, t, e);
    var ls := w.events[e].listeners;
    assert forall i :: 0 <= i < |ls| ==> RightListing(w.waits, e, ls[i]);
    WakeEffect(w.queues, ls);
    NobodyListed();
  }

  /** Asleep, and no event knows the thread any more. */
  predicate Deaf(w: World, t: Tid) {
    Asleep(w, t) && forall e :: 0 <= e < |w.events| ==> !IsListed(w.events[e].listeners, t)
  }

  predicate AllEarly(w: World, t: Tid) {
    t in w.waits && forall i :: 0 <= i < |w.waits[t].events| ==> (t, w.waits[t].events[i]) in w.log.early
  }

  lemma DeafIff(w: World, t: Tid)
    requires Coherent(w) && Asleep(w, t)
    ensures Deaf(w, t) <==> AllEarly(w, t)
  {
    hide Valid, Latest, IsListed, ListedOnce;
    var span := w.waits[t].events;
    assert Committed(w.queues.states, w.waits, t) && RightWait(w.waits[t], |w.events|);
    forall i | 0 <= i < |span|
      ensures RightHearing(w.events, w.log.early, t, span[i])
    {
      assert span[i] in span;
    }
    forall e | 0 <= e < |w.events| && e !in span
      ensures !IsListed(w.events[e].listeners, t)
    {
      ListedNowhere(w.events, w.waits, t, e);
    }
  }

  predicate OthersReady(s: Queues) {
    FirstReady(s.states, s.execution) < |s.execution|
  }

  /** Blocking loses the wake-up exactly when every awaited event came early and another thread is ready. */
  lemma SleepLosesIff(w: World)
    requires Coherent(w) && CurrentIn(w, Attached)
    ensures var t := w.queues.current.value;
            Deaf(Apply(w, Sleep), t) <==>
            AllEarly(w, t) && OthersReady(w.queues)
  {
    hide Coherent, Placed;
    CoherentShaped(w);
    CoherentQueues(w);
    var t := w.queues.current.value;
    var n := Apply(w, Sleep);
    CurrentRuns(w);
    SleepCoherent(w);
    SleepStaysBlocked(w.queues, t);
    if Asleep(n, t) {
      DeafIff(n, t);
    }
  }

  /** With nobody else ready, a thread that blocks itself is resumed at once. */
  lemma SleepStaysBlocked(s: Queues, t: Tid)
    requires Valid(s) && s.current == Some(t) && InState(s.states, t, Running)
    ensures InState(AfterBlock(s, t).states, t, Blocked) <==> OthersReady(s)
  {
    hide Places;
    ExactlyOnePlace(s, t);
    SameFirstReady(s.states, s.states[t := Blocked], s.execution);
  }

  lemma TickKeepsBlocked(s: Queues, t: Tid)
    requires t !in OnCpu(s) && InState(s.states, t, Blocked)
    ensures InState(AfterTick(s).states, t, Blocked)
  {
  }

  lemma DeafTrigger(w: World, e: nat, drop: bool, t: Tid)
    requires Coherent(w) && Deaf(w, t) && e < |w.events|
    ensures Deaf(AfterTrigger(w, e, drop), t)
  {
    hide Valid, Spans, Latest, IsListed, ListedOnce;
    var ls := w.events[e].listeners;
    NobodyListed();
    assert !IsListed(ls, t);
    assert forall i :: 0 <= i < |ls| ==> RightListing(w.waits, e, ls[i]);
    WakeEffect(w.queues, ls);
    assert Listings(w.events, w.waits) && ListedOnce(ls);
    TellEffect(w.waits, ls);
  }

  lemma DeafStep(w: World, step: Step, t: Tid)
    requires Coherent(w) && Enabled(w, step) && Deaf(w, t)
    ensures Deaf(Apply(w, step), t)
  {
    hide Coherent, IsListed, Valid;
    CoherentShaped(w);
    CoherentQueues(w);
    if w.queues.current.Some? && w.queues.current.value in w.waits {
      CurrentRuns(w);
    }
    NotOnCpu(w.queues, t);
    match step
    case Clock => TickKeepsBlocked(w.queues, t);
    case Spawn(u) =>
    case Enter(span, block) =>
      var u := w.queues.current.value;
      forall e | 0 <= e < |w.events|
        ensures !IsListed(Apply(w, step).events[e].listeners, t)
      {
        if e in span {
          ListedAppend(w.events[e].listeners, Listener(u, IndexOf(span, e)), t);
        }
      }
    case Sleep =>
      var u := w.queues.current.value;
      TickKeepsBlocked(w.queues.(states := w.queues.states[u := Blocked]), t);
    case Leave =>
      var u := w.queues.current.value;
      forall e | 0 <= e < |w.events|
        ensures !IsListed(Apply(w, step).events[e].listeners, t)
      {
        ListedWithout(w.events[e].listeners, u, t);
      }
    case Trigger(e, drop) => DeafTrigger(w, e, drop, t);
  }

  lemma NotOnCpu(s: Queues, t: Tid)
    requires Valid(s) && InState(s.states, t, Blocked)
    ensures t !in OnCpu(s)
  {
  }

  /** A deaf thread sleeps through every run. */
  lemma {:induction false} DeafForever(w: World, steps: seq<Step>, t: Tid)
    requires Coherent(w) && Legal(w, steps) && Deaf(w, t)
    ensures Deaf(Run(w, steps), t)
    decreases |steps|
  {
    hide Coherent, Enabled, Apply, Shaped, Deaf;
    if steps != [] {
      StepCoherent(w, steps[0]);
      DeafStep(w, steps[0], t);
      DeafForever(Apply(w, steps[0]), steps[1..], t);
    }
  }

  ghost predicate SomeRunWakes(w: World, t: Tid) {
    exists steps :: Legal(w, steps) && !InState(Run(w, steps).queues.states, t, Blocked)
  }

  /** A sleeper can ever run again exactly when one of its events did not trigger before it slept. */
  lemma WakeableIff(w: World, t: Tid)
    requires Coherent(w) && Asleep(w, t)
    ensures SomeRunWakes(w, t) <==> !AllEarly(w, t)
  {
    hide Coherent, InState;
    DeafIff(w, t);
    if AllEarly(w, t) {
      forall steps | Legal(w, steps)
        ensures InState(Run(w, steps).queues.states, t, Blocked)
      {
        DeafForever(w, steps, t);
      }
    } else {
      var i :| 0 <= i < |w.waits[t].events| && (t, w.waits[t].events[i]) !in w.log.early;
      WokenByOne(w, t, w.waits[t].events[i]);
    }
  }

  lemma WokenByOne(w: World, t: Tid, e: nat)
    requires Coherent(w) && Asleep(w, t) && e in w.waits[t].events && (t, e) !in w.log.early
    ensures SomeRunWakes(w, t)
  {
    hide Coherent, AfterTrigger;
    CoherentShaped(w);
    WakesExactly(w, t, e, true);
    var steps := [Trigger(e, true)];
    var n := Apply(w, steps[0]);
    assert steps[1..] == [];
    assert Legal(n, []);
    assert Legal(w, steps);
    assert Run(w, steps) == Run(n, []) == n;
  }

  lemma RunCons(w: World, step: Step, rest: seq<Step>)
    requires Shaped(w) && Enabled(w, step) && Legal(Apply(w, step), rest)
    ensures Legal(w, [step] + rest) && Run(w, [step] + rest) == Run(Apply(w, step), rest)
  {
    hide Enabled, Apply;
    assert ([step] + rest)[1..] == rest;
  }

  /** A trigger between attach and block: the only awaited event is lost, and the thread sleeps for good. */
  lemma TriggerThenSleep(w: World, e: nat, drop: bool)
    requires Coherent(w) && CurrentIn(w, Attached) && w.waits[w.queues.current.value].events == [e]
    requires OthersReady(w.queues)
    ensures Legal(w, [Trigger(e, drop)] + ([Sleep] + []))
    ensures Deaf(Run(w, [Trigger(e, drop)] + ([Sleep] + [])), w.queues.current.value)
  {
    hide Coherent, AfterTrigger, FirstReady;
    var t := w.queues.current.value;
    CoherentShaped(w);
    EarlyTrigger(w, e, drop);
    TriggerCoherent(w, e, drop);
    var n := AfterTrigger(w, e, drop);
    CoherentShaped(n);
    SleepLosesIff(n);
    RunCons(n, Sleep, []);
    RunCons(w, Trigger(e, drop), [Sleep] + []);
  }

  lemma EarlyTrigger(w: World, e: nat, drop: bool)
    requires Coherent(w) && CurrentIn(w, Attached) && w.waits[w.queues.current.value].events == [e]
    ensures e < |w.events|
    ensures var n := AfterTrigger(w, e, drop);
            && n.queues.current == w.queues.current && CurrentIn(n, Attached) && AllEarly(n, n.queues.current.value)
            && (OthersReady(w.queues) ==> OthersReady(n.queues))
  {
    hide Valid, Latest, IsListed, ListedOnce;
    var t := w.queues.current.value;
    assert RightWait(w.waits[t], |w.events|);
    assert w.waits[t].events[0] == e;
    var ls := w.events[e].listeners;
    assert RightHearing(w.events, w.log.early, t, e);
    assert forall i :: 0 <= i < |ls| ==> RightListing(w.waits, e, ls[i]);
    WakeEffect(w.queues, ls);
    if OthersReady(w.queues) {
      WakeReady(w.queues, ls);
    }
    NobodyListed();
    assert Listings(w.events, w.waits) && ListedOnce(ls);
    TellKeepsSpan(w.waits, ls, t);
  }

  lemma {:induction false} WakeReady(s: Queues, ls: seq<Listener>)
    requires OthersReady(s)
    ensures OthersReady(WakeAll(s, ls))
  {
    if ls != [] {
      var mid := WakeAll(s, ls[..|ls| - 1]);
      WakeReady(s, ls[..|ls| - 1]);
      var n := AfterUnblock(mid, ls[|ls| - 1].thread);
      var k := FirstReady(mid.states, mid.execution);
      assert n.execution[k] == mid.execution[k] && InState(n.states, n.execution[k], Ready);
    }
  }

  /** Two new threads and a tick: the first one runs, the second one is ready. */
  lemma FirstRuns(w: World, a: Tid, b: Tid)
    requires w == Begin(w.queues.idle, 1) && a != b && a != w.queues.idle && b != w.queues.idle
    ensures var steps := [Spawn(a)] + ([Spawn(b)] + ([Clock] + []));
            && Legal(w, steps) && Run(w, steps).queues.current == Some(a) && OthersReady(Run(w, steps).queues)
            && CurrentIn(Run(w, steps), Outside) && Run(w, steps).events == [Event(0, [])]
  {
    hide Coherent, Apply, Legal, Run, Begin;
    TwoSpawned(w, a, b);
    var w1 := Apply(w, Spawn(a));
    var w2 := Apply(w1, Spawn(b));
    FirstTick(w2, a, b);
    EmptyRun(Apply(w2, Clock));
    RunCons(w2, Clock, []);
    RunCons(w1, Spawn(b), [Clock] + []);
    RunCons(w, Spawn(a), [Spawn(b)] + ([Clock] + []));
  }

  lemma EmptyRun(w: World)
    ensures Legal(w, []) && Run(w, []) == w
  {
  }

  ghost predicate BothWait(w: World, a: Tid, b: Tid) {
    && w.queues.current == None && w.queues.execution == [a, b]
    && InState(w.queues.states, a, Ready) && InState(w.queues.states, b, Ready)
    && w.events == [Event(0, [])] && Shaped(w)
    && a in w.waits && w.waits[a].phase == Outside
  }

  lemma TwoSpawned(w: World, a: Tid, b: Tid)
    requires w == Begin(w.queues.idle, 1) && a != b && a != w.queues.idle && b != w.queues.idle
    ensures Shaped(w) && Enabled(w, Spawn(a))
    ensures var w1 := Apply(w, Spawn(a));
            Shaped(w1) && Enabled(w1, Spawn(b)) && BothWait(Apply(w1, Spawn(b)), a, b)
  {
    hide Coherent;
    var w2 := Apply(Apply(w, Spawn(a)), Spawn(b));
    assert w2.queues.execution == [a, b];
  }

  lemma FirstTick(w: World, a: Tid, b: Tid)
    requires BothWait(w, a, b) && a != b
    ensures var n := Apply(w, Clock);
            && n.queues.current == Some(a) && OthersReady(n.queues) && CurrentIn(n, Outside)
            && n.events == [Event(0, [])]
  {
    var n := Apply(w, Clock);
    assert n.queues.execution == [b];
  }

  lemma {:induction false} RunAppend(w: World, first: seq<Step>, second: seq<Step>)
    requires Legal(w, first) && Legal(Run(w, first), second)
    ensures Legal(w, first + second) && Run(w, first + second) == Run(Run(w, first), second)
    decreases |first|
  {
    hide Enabled, Apply, Shaped;
    if first == [] {
      assert first + second == second;
    } else {
      RunAppend(Apply(w, first[0]), first[1..], second);
      assert (first + second)[1..] == first[1..] + second;
    }
  }

  /** From a fresh start, a thread can reach a state in which no run ever wakes it although its event triggered. */
  lemma LostWakeupExample(idle: Tid, a: Tid, b: Tid)
    requires a != b && a != idle && b != idle
    ensures var first, second := [Spawn(a)] + ([Spawn(b)] + ([Clock] + [])), [Trigger(0, false)] + ([Sleep] + []);
            var steps := first + ([Enter([0], true)] + second);
            Legal(Begin(idle, 1), steps) && Deaf(Run(Begin(idle, 1), steps), a)
  {
    hide Coherent, Begin, Deaf;
    var w := Begin(idle, 1);
    assert w.queues.idle == idle && w == Begin(w.queues.idle, 1) by { BeginIdle(idle, 1); }
    var first := [Spawn(a)] + ([Spawn(b)] + ([Clock] + []));
    FirstRuns(w, a, b);
    RunCoherent(w, first);
    AttachThenLose(Run(w, first));
    RunAppend(w, first, [Enter([0], true)] + ([Trigger(0, false)] + ([Sleep] + [])));
  }

  lemma BeginIdle(idle: Tid, n: nat)
    ensures Begin(idle, n).queues.idle == idle
  {
  }

  lemma AttachThenLose(w: World)
    requires Coherent(w) && CurrentIn(w, Outside) && OthersReady(w.queues) && w.events == [Event(0, [])]
    ensures var steps := [Enter([0], true)] + ([Trigger(0, false)] + ([Sleep] + []));
            Legal(w, steps) && Deaf(Run(w, steps), w.queues.current.value)
  {
    hide Coherent, Deaf, Legal, Run, FirstReady;
    CoherentShaped(w);
    var n := AfterAttach(w, w.queues.current.value, [0]);
    NothingPending(w);
    AttachCoherent(w, [0]);
    TriggerThenSleep(n, 0, false);
    RunCons(w, Enter([0], true), [Trigger(0, false)] + ([Sleep] + []));
  }

  lemma NothingPending(w: World)
    requires w.events == [Event(0, [])]
    ensures FirstPending(w.events, [0]) == 1
  {
  }
}
