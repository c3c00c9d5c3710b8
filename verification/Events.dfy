/**
 `Await` and `Trigger` of Kernel/Scheduler/Event.cpp on top of the scheduler. A call of `Await`
 is up to three atomic steps (check and attach, block, detach) with anything in between them.
 */
module Events {
  import opened Schedulers

  datatype Listener = Listener(thread: Tid, which: nat)

  datatype Event = Event(pending: nat, listeners: seq<Listener>)

  /** How far a thread is inside `Await`. */
  datatype Phase = Outside | Attached | Sleeping

  datatype Wait = Wait(phase: Phase, events: seq<nat>, which: nat)

  type Waits = map<Tid, Wait>

  /**
   What happened so far: per event the awaits satisfied at once and the kept triggers that found no
   listener; per attached thread the last trigger that named it; and the triggers that named a
   thread which was attached but not blocked yet.
   */
  datatype Log = Log(immediate: seq<nat>, unheard: seq<nat>, last: map<Tid, nat>, early: set<(Tid, nat)>)

  datatype World = World(queues: Queues, events: seq<Event>, waits: Waits, log: Log)

  // ----- Listener lists -----

  predicate IsListed(ls: seq<Listener>, t: Tid) {
    exists i :: 0 <= i < |ls| && ls[i].thread == t
  }

  predicate ListedOnce(ls: seq<Listener>) {
    forall i, j :: 0 <= i < j < |ls| ==> ls[i].thread != ls[j].thread
  }

  predicate Distinct(span: seq<nat>) {
    forall i, j :: 0 <= i < j < |span| ==> span[i] != span[j]
  }

  predicate InRange(span: seq<nat>, n: nat) {
    forall i :: 0 <= i < |span| ==> span[i] < n
  }

  function IndexOf(span: seq<nat>, e: nat): (i: nat)
    requires e in span
    ensures i < |span| && span[i] == e
  {
    if span[0] == e then 0 else 1 + IndexOf(span[1..], e)
  }

  /** The list without the entries of one thread. */
  function Without(ls: seq<Listener>, t: Tid): (r: seq<Listener>)
    ensures |r| <= |ls| && !IsListed(r, t)
    ensures forall l :: l in r <==> l in ls && l.thread != t
  {
    if ls == [] then []
    else
      assert ls == [ls[0]] + ls[1..];
      if ls[0].thread == t then Without(ls[1..], t) else [ls[0]] + Without(ls[1..], t)
  }

  lemma {:induction false} WithoutOnce(ls: seq<Listener>, t: Tid)
    requires ListedOnce(ls)
    ensures ListedOnce(Without(ls, t))
  {
    if ls != [] {
      WithoutOnce(ls[1..], t);
      if ls[0].thread != t {
        var rest := Without(ls[1..], t);
        forall j | 0 <= j < |rest|
          ensures rest[j].thread != ls[0].thread
        {
          assert rest[j] in ls[1..];
        }
      }
    }
  }

  lemma ListedWithout(ls: seq<Listener>, t: Tid, u: Tid)
    ensures IsListed(Without(ls, t), u) <==> u != t && IsListed(ls, u)
  {
    var r := Without(ls, t);
    if IsListed(r, u) {
      var i :| 0 <= i < |r| && r[i].thread == u;
      assert r[i] in ls;
    }
    if u != t && IsListed(ls, u) {
      var i :| 0 <= i < |ls| && ls[i].thread == u;
      assert ls[i] in r;
    }
  }

  // ----- What the steps do -----

  function FirstPending(events: seq<Event>, span: seq<nat>): (k: nat)
    requires InRange(span, |events|)
    ensures k <= |span|
    ensures forall i :: 0 <= i < k ==> events[span[i]].pending == 0
    ensures k < |span| ==> events[span[k]].pending > 0
  {
    if span == [] || events[span[0]].pending > 0 then 0 else 1 + FirstPending(events, span[1..])
  }

  function Attach(events: seq<Event>, t: Tid, span: seq<nat>): (r: seq<Event>)
    ensures |r| == |events|
  {
    seq(|events|, e requires 0 <= e < |events| =>
      if e in span then events[e].(listeners := events[e].listeners + [Listener(t, IndexOf(span, e))]) else events[e])
  }

  function Detach(events: seq<Event>, t: Tid, span: seq<nat>): (r: seq<Event>)
    ensures |r| == |events|
  {
    seq(|events|, e requires 0 <= e < |events| =>
      if e in span then events[e].(listeners := Without(events[e].listeners, t)) else events[e])
  }

  /** Unblocks the listed threads, in order. */
  function WakeAll(s: Queues, ls: seq<Listener>): Queues {
    if ls == [] then s else AfterUnblock(WakeAll(s, ls[..|ls| - 1]), ls[|ls| - 1].thread)
  }

  /** Tells the listed threads which of their events it was, in order. */
  function TellAll(waits: Waits, ls: seq<Listener>): (r: Waits)
    ensures forall t :: t in waits ==> t in r
  {
    if ls == [] then waits
    else
      var r := TellAll(waits, ls[..|ls| - 1]);
      var l := ls[|ls| - 1];
      if l.thread in r then r[l.thread := r[l.thread].(which := l.which)] else r
  }

  function Forget(log: Log, t: Tid): Log {
    log.(last := log.last - {t}, early := set p | p in log.early && p.0 != t)
  }

  datatype Step =
    | Clock
    | Spawn(thread: Tid)
    | Enter(span: seq<nat>, block: bool)
    | Sleep
    | Leave
    | Trigger(event: nat, drop: bool)

  predicate CurrentIn(w: World, phase: Phase) {
    && w.queues.current.Some? && w.queues.current.value in w.waits
    && w.waits[w.queues.current.value].phase == phase
  }

  /** Only the running thread takes steps of `Await`, in program order, on distinct events. */
  predicate Enabled(w: World, step: Step) {
    match step
    case Clock => true
    case Spawn(t) => t !in w.queues.states && t != w.queues.idle
    case Enter(span, _) => CurrentIn(w, Outside) && Distinct(span) && InRange(span, |w.events|)
    case Sleep => CurrentIn(w, Attached)
    case Leave => CurrentIn(w, Sleeping)
    case Trigger(e, _) => e < |w.events|
  }

  /** Takes one pending trigger. */
  function Consume(w: World, e: nat): World
    requires e < |w.events| == |w.log.immediate| && w.events[e].pending > 0
  {
    w.(events := w.events[e := w.events[e].(pending := w.events[e].pending - 1)],
       log := w.log.(immediate := w.log.immediate[e := w.log.immediate[e] + 1]))
  }

  function AfterAttach(w: World, t: Tid, span: seq<nat>): World
    requires t in w.waits
  {
    w.(events := Attach(w.events, t, span), waits := w.waits[t := Wait(Attached, span, w.waits[t].which)],
       log := Forget(w.log, t))
  }

  function AfterDetach(w: World, t: Tid): World
    requires t in w.waits
  {
    w.(events := Detach(w.events, t, w.waits[t].events), waits := w.waits[t := Wait(Outside, [], w.waits[t].which)],
       log := Forget(w.log, t))
  }

  /** The log after a trigger of `e` named the threads of `ls`. */
  function Named(log: Log, waits: Waits, ls: seq<Listener>, e: nat): Log {
    log.(last := map t | t in waits && (t in log.last || IsListed(ls, t)) :: if IsListed(ls, t) then e else log.last[t],
         early := log.early + set t | t in waits && IsListed(ls, t) && waits[t].phase == Attached :: (t, e))
  }

  function AfterTrigger(w: World, e: nat, drop: bool): World
    requires e < |w.events| == |w.log.unheard|
  {
    var ls := w.events[e].listeners;
    if ls == [] then
      if drop then w
      else w.(events := w.events[e := Event(w.events[e].pending + 1, [])],
              log := w.log.(unheard := w.log.unheard[e := w.log.unheard[e] + 1]))
    else
      World(WakeAll(w.queues, ls), w.events[e := w.events[e].(listeners := [])], TellAll(w.waits, ls),
            Named(w.log, w.waits, ls, e))
  }

  predicate Shaped(w: World) {
    |w.log.immediate| == |w.events| && |w.log.unheard| == |w.events|
  }

  function Apply(w: World, step: Step): World
    requires Shaped(w) && Enabled(w, step)
  {
    match step
    case Clock => w.(queues := AfterTick(w.queues))
    case Spawn(t) => w.(queues := AfterEnqueue(w.queues, t), waits := w.waits[t := Wait(Outside, [], 0)])
    case Enter(span, block) =>
      var k := FirstPending(w.events, span);
      if k < |span| then Consume(w, span[k])
      else if !block then w
      else AfterAttach(w, w.queues.current.value, span)
    case Sleep =>
      var t := w.queues.current.value;
      w.(queues := AfterBlock(w.queues, t), waits := w.waits[t := w.waits[t].(phase := Sleeping)])
    case Leave => AfterDetach(w, w.queues.current.value)
    case Trigger(e, drop) => AfterTrigger(w, e, drop)
  }

  // ----- The invariant -----

  /** Kept triggers that found no listener are pending or were consumed by an await, one for one. */
  ghost predicate Accounts(w: World) {
    Shaped(w) && forall e :: 0 <= e < |w.events| ==> w.events[e].pending + w.log.immediate[e] == w.log.unheard[e]
  }

  predicate RightListing(waits: Waits, e: nat, l: Listener) {
    && l.thread in waits && waits[l.thread].phase != Outside
    && l.which < |waits[l.thread].events| && waits[l.thread].events[l.which] == e
  }

  /** A thread is listed at most once per event, between attaching and detaching, under its own index. */
  ghost predicate Listings(events: seq<Event>, waits: Waits) {
    forall e :: 0 <= e < |events| ==>
      ListedOnce(events[e].listeners) &&
      forall i :: 0 <= i < |events[e].listeners| ==> RightListing(waits, e, events[e].listeners[i])
  }

  predicate RightWait(wait: Wait, n: nat) {
    Distinct(wait.events) && InRange(wait.events, n) && (wait.phase == Outside ==> wait.events == [])
  }

  ghost predicate Spans(waits: Waits, n: nat) {
    forall t :: t in waits ==> RightWait(waits[t], n)
  }

  predicate RightLast(waits: Waits, t: Tid, e: nat) {
    t in waits && waits[t].which < |waits[t].events| && waits[t].events[waits[t].which] == e
  }

  /** `Which` names the last event that triggered since the thread attached. */
  ghost predicate Latest(waits: Waits, last: map<Tid, nat>) {
    forall t :: t in last ==> RightLast(waits, t, last[t])
  }

  /** A thread that is about to block, or asleep. */
  predicate Committed(states: Threads, waits: Waits, t: Tid) {
    t in waits && (waits[t].phase == Attached || InState(states, t, Blocked))
  }

  predicate RightHearing(events: seq<Event>, early: set<(Tid, nat)>, t: Tid, e: nat) {
    e < |events| && (IsListed(events[e].listeners, t) <==> (t, e) !in early)
  }

  /** Such a thread still listens to exactly those of its events that did not trigger too early. */
  ghost predicate Hearing(states: Threads, events: seq<Event>, waits: Waits, early: set<(Tid, nat)>) {
    && (forall t :: t in waits && InState(states, t, Blocked) ==> waits[t].phase == Sleeping)
    && (forall t, e :: Committed(states, waits, t) && e in waits[t].events ==> RightHearing(events, early, t, e))
  }

  ghost predicate Coherent(w: World) {
    && Valid(w.queues) && w.waits.Keys == w.queues.states.Keys
    && Accounts(w)
    && Listings(w.events, w.waits)
    && Spans(w.waits, |w.events|)
    && Latest(w.waits, w.log.last)
    && Hearing(w.queues.states, w.events, w.waits, w.log.early)
  }

  function Begin(idle: Tid, n: nat): (w: World)
    ensures Coherent(w)
  {
    World(Start(idle), seq(n, i => Event(0, [])), map[], Log(seq(n, i => 0), seq(n, i => 0), map[], {}))
  }

  // ----- Every step keeps the invariant -----

  /** Queue steps that block nobody else leave what sleepers hear alone. */
  lemma HearingStays(before: Threads, after: Threads, events: seq<Event>, waits: Waits, early: set<(Tid, nat)>)
    requires Hearing(before, events, waits, early)
    requires forall t :: InState(after, t, Blocked) ==> InState(before, t, Blocked)
    ensures Hearing(after, events, waits, early)
  {
    hide InState, RightHearing;
    forall t, e | Committed(after, waits, t) && e in waits[t].events
      ensures RightHearing(events, early, t, e)
    {
      assert Committed(before, waits, t);
    }
  }

  lemma TimerCoherent(w: World)
    requires Coherent(w)
    ensures Coherent(w.(queues := AfterTick(w.queues)))
  {
    hide Listings, Spans, Latest, Hearing, Placed;
    TickKeeps(w.queues);
    HearingStays(w.queues.states, AfterTick(w.queues).states, w.events, w.waits, w.log.early);
  }

  lemma SpawnCoherent(w: World, t: Tid)
    requires Coherent(w) && t !in w.queues.states && t != w.queues.idle
    ensures Coherent(w.(queues := AfterEnqueue(w.queues, t), waits := w.waits[t := Wait(Outside, [], 0)]))
  {
    hide Placed, Valid, RightHearing, ListedOnce;
    var n := w.waits[t := Wait(Outside, [], 0)];
    EnqueueKeeps(w.queues, t);
    var after := AfterEnqueue(w.queues, t).states;
    forall u, e | Committed(after, n, u) && e in n[u].events
      ensures RightHearing(w.events, w.log.early, u, e)
    {
      assert Committed(w.queues.states, w.waits, u);
    }
  }

  lemma ConsumeCoherent(w: World, e: nat)
    requires Coherent(w) && e < |w.events| && w.events[e].pending > 0
    ensures Coherent(Consume(w, e))
  {
    hide Valid, ListedOnce, RightListing, Spans, Latest;
    var n := Consume(w, e);
    forall u, f | Committed(w.queues.states, w.waits, u) && f in w.waits[u].events
      ensures RightHearing(n.events, n.log.early, u, f)
    {
      assert RightHearing(w.events, w.log.early, u, f);
    }
  }

  lemma ListedAppend(ls: seq<Listener>, l: Listener, u: Tid)
    ensures IsListed(ls + [l], u) <==> IsListed(ls, u) || l.thread == u
  {
    var r := ls + [l];
    assert r[|ls|] == l;
    if IsListed(ls, u) {
      var i :| 0 <= i < |ls| && ls[i].thread == u;
      assert r[i].thread == u;
    }
  }

  lemma NobodyListed()
    ensures forall t :: !IsListed([], t)
  {
  }

  lemma ListedNowhere(events: seq<Event>, waits: Waits, t: Tid, e: nat)
    requires Listings(events, waits) && e < |events|
    requires t in waits ==> e !in waits[t].events
    ensures !IsListed(events[e].listeners, t)
  {
  }

  lemma AttachListings(events: seq<Event>, waits: Waits, t: Tid, span: seq<nat>)
    requires Listings(events, waits) && t in waits && waits[t].events == []
    ensures Listings(Attach(events, t, span), waits[t := Wait(Attached, span, waits[t].which)])
  {
    var now := waits[t := Wait(Attached, span, waits[t].which)];
    forall e | 0 <= e < |events|
      ensures var ls := Attach(events, t, span)[e].listeners;
              ListedOnce(ls) && forall i :: 0 <= i < |ls| ==> RightListing(now, e, ls[i])
    {
      ListedNowhere(events, waits, t, e);
    }
  }

  lemma AttachHearing(w: World, t: Tid, span: seq<nat>)
    requires Coherent(w) && t in w.waits && w.waits[t].phase == Outside && InRange(span, |w.events|)
    ensures var n := AfterAttach(w, t, span);
            InState(w.queues.states, t, Running) ==> Hearing(n.queues.states, n.events, n.waits, n.log.early)
  {
    hide Valid, ListedOnce, RightListing, Spans, Latest, IsListed;
    var n := AfterAttach(w, t, span);
    forall u, e | Committed(w.queues.states, n.waits, u) && e in n.waits[u].events
      ensures RightHearing(n.events, n.log.early, u, e)
    {
      if u != t {
        assert RightHearing(w.events, w.log.early, u, e);
      }
      if e in span {
        ListedAppend(w.events[e].listeners, Listener(t, IndexOf(span, e)), u);
      }
    }
  }

  lemma AttachCoherent(w: World, span: seq<nat>)
    requires Coherent(w) && CurrentIn(w, Outside) && Distinct(span) && InRange(span, |w.events|)
    ensures Coherent(AfterAttach(w, w.queues.current.value, span))
  {
    hide ListedOnce, RightListing, Hearing, Placed, Listings;
    var t := w.queues.current.value;
    var n := AfterAttach(w, t, span);
    CurrentRuns(w);
    AttachListings(w.events, w.waits, t, span);
    AttachHearing(w, t, span);
    assert forall u :: u in n.log.last ==> RightLast(w.waits, u, n.log.last[u]);
  }

  lemma CurrentRuns(w: World)
    requires Valid(w.queues) && w.waits.Keys == w.queues.states.Keys
    requires w.queues.current.Some? && w.queues.current.value in w.waits
    ensures InState(w.queues.states, w.queues.current.value, Running)
  {
    assert w.queues.current.value in OnCpu(w.queues);
  }

  lemma DetachListings(events: seq<Event>, waits: Waits, t: Tid)
    requires Listings(events, waits) && t in waits
    ensures Listings(Detach(events, t, waits[t].events), waits[t := Wait(Outside, [], waits[t].which)])
  {
    var span := waits[t].events;
    var now := waits[t := Wait(Outside, [], waits[t].which)];
    forall e | 0 <= e < |events|
      ensures var ls := Detach(events, t, span)[e].listeners;
              ListedOnce(ls) && forall i :: 0 <= i < |ls| ==> RightListing(now, e, ls[i])
    {
      var ls := Detach(events, t, span)[e].listeners;
      WithoutOnce(events[e].listeners, t);
      if e !in span {
        ListedNowhere(events, waits, t, e);
      }
      forall i | 0 <= i < |ls|
        ensures RightListing(now, e, ls[i])
      {
        assert ls[i] in events[e].listeners;
      }
    }
  }

  lemma DetachHearing(w: World, t: Tid)
    requires Coherent(w) && t in w.waits && InState(w.queues.states, t, Running)
    ensures var n := AfterDetach(w, t); Hearing(n.queues.states, n.events, n.waits, n.log.early)
  {
    hide Valid, ListedOnce, RightListing, Spans, Latest, IsListed;
    var n := AfterDetach(w, t);
    forall u, e | Committed(w.queues.states, n.waits, u) && e in n.waits[u].events
      ensures RightHearing(n.events, n.log.early, u, e)
    {
      assert RightHearing(w.events, w.log.early, u, e);
      ListedWithout(w.events[e].listeners, t, u);
    }
  }

  lemma DetachCoherent(w: World)
    requires Coherent(w) && CurrentIn(w, Sleeping)
    ensures Coherent(AfterDetach(w, w.queues.current.value))
  {
    hide ListedOnce, RightListing, Hearing, Placed, Listings;
    var t := w.queues.current.value;
    var n := AfterDetach(w, t);
    CurrentRuns(w);
    DetachListings(w.events, w.waits, t);
    DetachHearing(w, t);
    assert forall u :: u in n.log.last ==> RightLast(w.waits, u, n.log.last[u]);
  }

  lemma SleepWaits(events: seq<Event>, waits: Waits, n: nat, last: map<Tid, nat>, t: Tid)
    requires Listings(events, waits) && Spans(waits, n) && Latest(waits, last)
    requires t in waits && waits[t].phase == Attached
    ensures var now := waits[t := waits[t].(phase := Sleeping)];
            Listings(events, now) && Spans(now, n) && Latest(now, last)
  {
    hide ListedOnce, Distinct, InRange;
    assert forall u :: u in last ==> RightLast(waits, u, last[u]);
  }

  lemma SleepCoherent(w: World)
    requires Coherent(w) && CurrentIn(w, Attached)
    ensures Coherent(Apply(w, Sleep))
  {
    hide Listings, Spans, Latest, Placed, Valid, RightHearing, AfterBlock, InState;
    var t := w.queues.current.value;
    var n := Apply(w, Sleep);
    BlockKeeps(w.queues, t);
    BlockOthers(w.queues, t);
    SleepWaits(w.events, w.waits, |w.events|, w.log.last, t);
    forall u, e | Committed(n.queues.states, n.waits, u) && e in n.waits[u].events
      ensures RightHearing(n.events, n.log.early, u, e)
    {
      assert Committed(w.queues.states, w.waits, u);
    }
  }

  lemma BlockOthers(s: Queues, t: Tid)
    ensures forall u :: u != t && InState(AfterBlock(s, t).states, u, Blocked) ==> InState(s.states, u, Blocked)
  {
  }

  lemma UnblockStates(s: Queues, u: Tid, t: Tid)
    requires t in s.states && u in s.states
    ensures var n := AfterUnblock(s, u);
            t in n.states && n.states[t] == if t == u && s.states[t] == Blocked then Ready else s.states[t]
  {
  }

  /** Unblocking a list readies exactly its blocked threads and touches nobody else. */
  lemma {:induction false} WakeEffect(s: Queues, ls: seq<Listener>)
    requires Valid(s) && forall i :: 0 <= i < |ls| ==> ls[i].thread in s.states
    ensures Valid(WakeAll(s, ls)) && WakeAll(s, ls).states.Keys == s.states.Keys
    ensures WakeAll(s, ls).idle == s.idle && WakeAll(s, ls).current == s.current
    ensures forall t :: t in s.states ==>
              WakeAll(s, ls).states[t] == if IsListed(ls, t) && s.states[t] == Blocked then Ready else s.states[t]
  {
    hide Valid, IsListed, AfterUnblock;
    NobodyListed();
    if ls != [] {
      var n := |ls| - 1;
      var mid := WakeAll(s, ls[..n]);
      WakeEffect(s, ls[..n]);
      UnblockKeeps(mid, ls[n].thread);
      UnblockFrame(mid, ls[n].thread);
      assert ls == ls[..n] + [ls[n]];
      forall t | t in s.states
        ensures WakeAll(s, ls).states[t] == if IsListed(ls, t) && s.states[t] == Blocked then Ready else s.states[t]
      {
        ListedAppend(ls[..n], ls[n], t);
        UnblockStates(mid, ls[n].thread, t);
      }
    }
  }

  lemma UnblockFrame(s: Queues, t: Tid)
    ensures AfterUnblock(s, t).idle == s.idle && AfterUnblock(s, t).current == s.current
  {
  }

  /** Telling a list changes `Which` of exactly its threads, each to its own entry. */
  lemma {:induction false} TellEffect(waits: Waits, ls: seq<Listener>)
    requires ListedOnce(ls) && forall i :: 0 <= i < |ls| ==> ls[i].thread in waits
    ensures TellAll(waits, ls).Keys == waits.Keys
    ensures forall i :: 0 <= i < |ls| ==> TellAll(waits, ls)[ls[i].thread] == waits[ls[i].thread].(which := ls[i].which)
    ensures forall t :: t in waits && !IsListed(ls, t) ==> TellAll(waits, ls)[t] == waits[t]
  {
    if ls != [] {
      var n := |ls| - 1;
      TellEffect(waits, ls[..n]);
      assert ls == ls[..n] + [ls[n]];
      forall t | t in waits && !IsListed(ls, t)
        ensures TellAll(waits, ls)[t] == waits[t]
      {
        ListedAppend(ls[..n], ls[n], t);
      }
    }
  }

  lemma TellKeepsSpan(waits: Waits, ls: seq<Listener>, t: Tid)
    requires ListedOnce(ls) && (forall i :: 0 <= i < |ls| ==> ls[i].thread in waits) && t in waits
    ensures var now := TellAll(waits, ls);
            t in now && now[t].phase == waits[t].phase && now[t].events == waits[t].events
  {
    TellEffect(waits, ls);
    if IsListed(ls, t) {
      var i :| 0 <= i < |ls| && ls[i].thread == t;
    }
  }

  lemma TriggerListings(events: seq<Event>, waits: Waits, e: nat)
    requires Listings(events, waits) && e < |events|
    ensures Listings(events[e := events[e].(listeners := [])], TellAll(waits, events[e].listeners))
  {
    var ls := events[e].listeners;
    var after := events[e := events[e].(listeners := [])];
    forall f, i | 0 <= f < |after| && 0 <= i < |after[f].listeners|
      ensures RightListing(TellAll(waits, ls), f, after[f].listeners[i])
    {
      assert RightListing(waits, f, events[f].listeners[i]);
      TellKeepsSpan(waits, ls, events[f].listeners[i].thread);
    }
  }

  lemma TriggerSpans(waits: Waits, ls: seq<Listener>, n: nat)
    requires ListedOnce(ls) && (forall i :: 0 <= i < |ls| ==> ls[i].thread in waits) && Spans(waits, n)
    ensures Spans(TellAll(waits, ls), n)
  {
    TellEffect(waits, ls);
    forall t | t in waits
      ensures RightWait(TellAll(waits, ls)[t], n)
    {
      TellKeepsSpan(waits, ls, t);
    }
  }

  lemma TriggerLatest(waits: Waits, log: Log, ls: seq<Listener>, e: nat)
    requires ListedOnce(ls) && (forall i :: 0 <= i < |ls| ==> RightListing(waits, e, ls[i])) && Latest(waits, log.last)
    ensures Latest(TellAll(waits, ls), Named(log, waits, ls, e).last)
  {
    TellEffect(waits, ls);
    var last := Named(log, waits, ls, e).last;
    forall t | t in last
      ensures RightLast(TellAll(waits, ls), t, last[t])
    {
      if IsListed(ls, t) {
        var i :| 0 <= i < |ls| && ls[i].thread == t;
      } else {
        assert RightLast(waits, t, log.last[t]);
      }
    }
  }

  lemma TriggerHearing(w: World, e: nat)
    requires Coherent(w) && e < |w.events| && w.events[e].listeners != []
    ensures var n := AfterTrigger(w, e, false); Hearing(n.queues.states, n.events, n.waits, n.log.early)
  {
    hide Valid, Spans, Latest, WakeAll, TellAll, IsListed;
    var n := AfterTrigger(w, e, false);
    var ls := w.events[e].listeners;
    assert forall i :: 0 <= i < |ls| ==> RightListing(w.waits, e, ls[i]);
    WakeEffect(w.queues, ls);
    TellEffect(w.waits, ls);
    forall u, f | Committed(n.queues.states, n.waits, u) && f in n.waits[u].events
      ensures RightHearing(n.events, n.log.early, u, f)
    {
      TellKeepsSpan(w.waits, ls, u);
      assert Committed(w.queues.states, w.waits, u);
      assert RightHearing(w.events, w.log.early, u, f);
      NobodyListed();
    }
    forall u | u in n.waits && InState(n.queues.states, u, Blocked)
      ensures n.waits[u].phase == Sleeping
    {
      TellKeepsSpan(w.waits, ls, u);
    }
  }


  lemma TriggerCoherent(w: World, e: nat, drop: bool)
    requires Coherent(w) && e < |w.events|
    ensures Coherent(AfterTrigger(w, e, drop))
  {
    hide Valid, Spans, Latest, Hearing, WakeAll, TellAll, IsListed;
    var ls := w.events[e].listeners;
    if ls != [] {
      assert forall i :: 0 <= i < |ls| ==> RightListing(w.waits, e, ls[i]);
      WakeEffect(w.queues, ls);
      TellEffect(w.waits, ls);
      TriggerListings(w.events, w.waits, e);
      TriggerSpans(w.waits, ls, |w.events|);
      TriggerLatest(w.waits, w.log, ls, e);
      TriggerHearing(w, e);
    } else if !drop {
      UnheardHearing(w, e);
    }
  }

  lemma UnheardHearing(w: World, e: nat)
    requires Coherent(w) && e < |w.events| && w.events[e].listeners == []
    ensures Hearing(w.queues.states, w.events[e := Event(w.events[e].pending + 1, [])], w.waits, w.log.early)
  {
    hide Valid, Spans, Latest, IsListed, Listings;
    forall u, f | Committed(w.queues.states, w.waits, u) && f in w.waits[u].events
      ensures RightHearing(w.events[e := Event(w.events[e].pending + 1, [])], w.log.early, u, f)
    {
      assert RightHearing(w.events, w.log.early, u, f);
    }
  }

  lemma StepCoherent(w: World, step: Step)
    requires Coherent(w) && Enabled(w, step)
    ensures Coherent(Apply(w, step)) && |Apply(w, step).events| == |w.events|
  {
    hide Coherent;
    assert Shaped(w) by { CoherentShaped(w); }
    match step
    case Clock => TimerCoherent(w);
    case Spawn(t) => SpawnCoherent(w, t);
    case Enter(span, block) =>
      var k := FirstPending(w.events, span);
      if k < |span| {
        ConsumeCoherent(w, span[k]);
      } else if block {
        AttachCoherent(w, span);
      }
    case Sleep => SleepCoherent(w);
    case Leave => DetachCoherent(w);
    case Trigger(e, drop) => TriggerCoherent(w, e, drop);
  }

  lemma CoherentQueues(w: World)
    requires Coherent(w)
    ensures Valid(w.queues) && w.waits.Keys == w.queues.states.Keys
  {
  }

  lemma CoherentShaped(w: World)
    requires Coherent(w)
    ensures Shaped(w)
  {
  }

  predicate Legal(w: World, steps: seq<Step>)
    decreases |steps|
  {
    steps == [] || (Shaped(w) && Enabled(w, steps[0]) && Legal(Apply(w, steps[0]), steps[1..]))
  }

  function Run(w: World, steps: seq<Step>): World
    requires Legal(w, steps)
    decreases |steps|
  {
    if steps == [] then w else Run(Apply(w, steps[0]), steps[1..])
  }

  /** The invariant holds after every interleaving of awaits, triggers, ticks and new threads. */
  lemma {:induction false} RunCoherent(w: World, steps: seq<Step>)
    requires Coherent(w) && Legal(w, steps)
    ensures Coherent(Run(w, steps)) && |Run(w, steps).events| == |w.events|
    decreases |steps|
  {
    hide Coherent, Enabled, Apply, Shaped;
    if steps != [] {
      StepCoherent(w, steps[0]);
      RunCoherent(Apply(w, steps[0]), steps[1..]);
    }
  }

  // ----- The pending count, over the steps of a run -----

  /** A trigger of `e` that is not dropped and meets no listener. */
  predicate GoesUnheard(w: World, step: Step, e: nat) {
    step == Trigger(e, false) && e < |w.events| && w.events[e].listeners == []
  }

  /** An await whose first pending event is `e`. */
  predicate TakesPending(w: World, step: Step, e: nat) {
    && step.Enter? && InRange(step.span, |w.events|)
    && exists i :: 0 <= i < |step.span| && step.span[i] == e && IsFirstPending(w.events, step.span, i)
  }

  predicate IsFirstPending(events: seq<Event>, span: seq<nat>, i: nat)
    requires InRange(span, |events|) && i < |span|
  {
    events[span[i]].pending > 0 && forall j :: 0 <= j < i ==> events[span[j]].pending == 0
  }

  function UnheardIn(w: World, steps: seq<Step>, e: nat): nat
    requires Legal(w, steps)
    decreases |steps|
  {
    if steps == [] then 0
    else (if GoesUnheard(w, steps[0], e) then 1 else 0) + UnheardIn(Apply(w, steps[0]), steps[1..], e)
  }

  function TakenIn(w: World, steps: seq<Step>, e: nat): nat
    requires Legal(w, steps)
    decreases |steps|
  {
    if steps == [] then 0
    else (if TakesPending(w, steps[0], e) then 1 else 0) + TakenIn(Apply(w, steps[0]), steps[1..], e)
  }

  lemma TakesIff(w: World, span: seq<nat>, block: bool, e: nat)
    requires InRange(span, |w.events|)
    ensures var k := FirstPending(w.events, span);
            TakesPending(w, Enter(span, block), e) <==> k < |span| && span[k] == e
  {
    var k := FirstPending(w.events, span);
    assert k < |span| ==> IsFirstPending(w.events, span, k);
  }

  /** What one step does to the pending count of an event. */
  lemma PendingStep(w: World, step: Step, e: nat)
    requires Coherent(w) && Enabled(w, step) && e < |w.events|
    ensures Apply(w, step).events[e].pending + (if TakesPending(w, step, e) then 1 else 0) ==
            w.events[e].pending + (if GoesUnheard(w, step, e) then 1 else 0)
  {
    hide Coherent, TakesPending, AfterTrigger, FirstPending, AfterTick, AfterBlock, AfterEnqueue;
    CoherentShaped(w);
    match step
    case Enter(span, block) => TakesIff(w, span, block, e);
    case Clock => NoEnter(w, step, e);
    case Spawn(t) => NoEnter(w, step, e);
    case Sleep => NoEnter(w, step, e);
    case Leave => NoEnter(w, step, e);
    case Trigger(f, drop) =>
      NoEnter(w, step, e);
      TriggerPending(w, f, drop, e);
  }

  lemma TriggerPending(w: World, f: nat, drop: bool, e: nat)
    requires Shaped(w) && f < |w.events| && e < |w.events|
    ensures AfterTrigger(w, f, drop).events[e].pending ==
            w.events[e].pending + if f == e && !drop && w.events[e].listeners == [] then 1 else 0
  {
    hide WakeAll, TellAll, Named;
  }

  lemma NoEnter(w: World, step: Step, e: nat)
    requires !step.Enter?
    ensures !TakesPending(w, step, e)
  {
  }

  /**
   Along every run: pending triggers plus those awaits took are the initial ones plus those kept
   without a listener.
   */
  lemma {:induction false} PendingLaw(w: World, steps: seq<Step>, e: nat)
    requires Coherent(w) && Legal(w, steps) && e < |w.events|
    ensures |Run(w, steps).events| == |w.events|
    ensures Run(w, steps).events[e].pending + TakenIn(w, steps, e) == w.events[e].pending + UnheardIn(w, steps, e)
    decreases |steps|
  {
    hide Coherent, Enabled, Apply, Shaped, TakesPending, GoesUnheard;
    if steps != [] {
      StepCoherent(w, steps[0]);
      PendingStep(w, steps[0], e);
      PendingLaw(Apply(w, steps[0]), steps[1..], e);
    }
  }
}
