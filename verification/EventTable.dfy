/** The code of Kernel/Scheduler/Event.cpp; `Await` appears as its three atomic parts. */
module EventTables {
  import opened Wrappers
  import opened Schedulers
  import opened Events

  class EventTable {
    const scheduler: Scheduler
    var events: seq<Event>
    var waits: Waits
    ghost var log: Log

    ghost function Snapshot(): World
      reads this, scheduler
    {
      World(scheduler.Snapshot(), events, waits, log)
    }

    ghost predicate Sound()
      reads this, scheduler
    {
      scheduler.Sound() && Coherent(Snapshot())
    }

    constructor (scheduler: Scheduler, n: nat)
      requires scheduler.Sound() && scheduler.Snapshot() == Start(scheduler.idle)
      ensures Sound() && Snapshot() == Begin(scheduler.idle, n) && this.scheduler == scheduler
    {
      this.scheduler := scheduler;
      events := seq(n, i => Event(0, []));
      waits := map[];
      log := Log(seq(n, i => 0), seq(n, i => 0), map[], {});
    }

    /** Consumes the first pending event of the span, if there is one. */
    method CheckPending(span: seq<nat>) returns (r: Option<nat>)
      requires Coherent(Snapshot()) && InRange(span, |events|)
      modifies this`events, this`log
      ensures var k := FirstPending(old(events), span);
              && (k < |span| ==> r == Some(k) && Snapshot() == Consume(old(Snapshot()), span[k]))
              && (k == |span| ==> r == None && Snapshot() == old(Snapshot()))
    {
      hide Coherent;
      CoherentShaped(Snapshot());
      var i := 0;
      while i < |span|
        invariant 0 <= i <= |span| && Snapshot() == old(Snapshot())
        invariant forall j :: 0 <= j < i ==> events[span[j]].pending == 0
      {
        var e := span[i];
        if events[e].pending > 0 {
          FirstPendingIs(events, span, i);
          events := events[e := events[e].(pending := events[e].pending - 1)];
          log := log.(immediate := log.immediate[e := log.immediate[e] + 1]);
          return Some(i);
        }
        i := i + 1;
      }
      FirstPendingIs(events, span, i);
      r := None;
    }

    /** Lists the thread on every event of the span under its index there. */
    method AttachListeners(span: seq<nat>, t: Tid)
      requires t in waits && Distinct(span) && InRange(span, |events|)
      modifies this`events, this`waits
      ensures events == Attach(old(events), t, span)
      ensures waits == old(waits)[t := old(waits)[t].(events := span)]
    {
      waits := waits[t := waits[t].(events := [])];
      var i := 0;
      while i < |span|
        invariant 0 <= i <= |span| && t in waits && |events| == |old(events)|
        invariant waits == old(waits)[t := old(waits)[t].(events := span[..i])]
        invariant forall e :: 0 <= e < |events| && e !in span[..i] ==> events[e] == old(events)[e]
        invariant forall j :: 0 <= j < i ==>
                    events[span[j]] == Listed(old(events)[span[j]], Listener(t, j))
      {
        var e := span[i];
        assert e !in span[..i];
        assert span[..i + 1] == span[..i] + [e];
        events := events[e := Listed(events[e], Listener(t, i))];
        waits := waits[t := waits[t].(events := waits[t].events + [e])];
        i := i + 1;
      }
      assert span[..i] == span;
      AttachIs(old(events), events, t, span);
    }

    /**
     Takes the thread off the events it attached to. Each erase skips the next entry, which is
     harmless because a thread is listed at most once.
     */
    method DetachListeners(t: Tid)
      requires t in waits && RightWait(waits[t], |events|) && Listings(events, waits)
      modifies this`events, this`waits
      ensures events == Detach(old(events), t, old(waits)[t].events)
      ensures waits == old(waits)[t := old(waits)[t].(events := [])]
    {
      var span := waits[t].events;
      var i := 0;
      while i < |span|
        invariant 0 <= i <= |span| && |events| == |old(events)| && waits == old(waits)
        invariant forall e :: 0 <= e < |events| && e !in span[..i] ==> events[e] == old(events)[e]
        invariant forall e :: 0 <= e < |events| && e in span[..i] ==>
                    events[e] == old(events)[e].(listeners := Without(old(events)[e].listeners, t))
      {
        var e := span[i];
        assert e !in span[..i];
        assert span[..i + 1] == span[..i] + [e];
        var ls := EraseListener(events[e].listeners, t);
        events := events[e := events[e].(listeners := ls)];
        i := i + 1;
      }
      assert span[..i] == span;
      assert events == Detach(old(events), t, span);
      waits := waits[t := waits[t].(events := [])];
    }

    /** First part of `Await`: the result, or the thread is attached and goes on to block. */
    method AwaitEnter(span: seq<nat>, block: bool) returns (r: Option<nat>, attached: bool)
      requires Sound() && Enabled(Snapshot(), Enter(span, block))
      modifies this
      ensures Sound() && Snapshot() == Apply(old(Snapshot()), Enter(span, block))
      ensures r.Some? ==> && r.value < |span| && old(events)[span[r.value]].pending > 0
                          && forall j :: 0 <= j < r.value ==> old(events)[span[j]].pending == 0
      ensures attached <==> r.None? && block
      ensures r.None? && !block ==> Snapshot() == old(Snapshot())
      ensures var t := scheduler.current.value;
              if attached then waits[t].phase == Attached && waits[t].events == span else waits == old(waits)
      ensures r.None? <==> forall j :: 0 <= j < |span| ==> old(events)[span[j]].pending == 0
    {
      hide Coherent, Valid, Attach;
      ghost var w := Snapshot();
      CoherentShaped(w);
      StepCoherent(w, Enter(span, block));
      r := CheckPending(span);
      attached := false;
      if r.None? && block {
        var t := scheduler.current.value;
        AttachListeners(span, t);
        waits := waits[t := waits[t].(phase := Attached)];
        assert waits == w.waits[t := Wait(Attached, span, w.waits[t].which)];
        log := Forget(log, t);
        attached := true;
      }
    }

    /** Second part: the thread blocks itself. */
    method AwaitSleep()
      requires Sound() && Enabled(Snapshot(), Sleep)
      modifies this, scheduler
      ensures Sound() && Snapshot() == Apply(old(Snapshot()), Sleep)
    {
      hide Coherent, Valid;
      CoherentShaped(Snapshot());
      CoherentQueues(Snapshot());
      StepCoherent(Snapshot(), Sleep);
      var t := scheduler.current.value;
      scheduler.Block(t);
      waits := waits[t := waits[t].(phase := Sleeping)];
    }

    /** Third part, once the thread runs again: if any trigger named it, the last one is reported. */
    method AwaitLeave() returns (which: nat)
      requires Sound() && Enabled(Snapshot(), Leave)
      modifies this
      ensures Sound() && Snapshot() == Apply(old(Snapshot()), Leave)
      ensures var t := scheduler.current.value;
              t in old(log).last ==> which < |old(waits)[t].events| && old(waits)[t].events[which] == old(log).last[t]
    {
      hide Coherent, Valid, Listings, RightWait, Detach;
      ghost var w := Snapshot();
      CoherentShaped(w);
      StepCoherent(w, Leave);
      var t := scheduler.current.value;
      CoherentThread(w, t);
      DetachListeners(t);
      waits := waits[t := waits[t].(phase := Outside)];
      assert waits == w.waits[t := Wait(Outside, [], w.waits[t].which)];
      log := Forget(log, t);
      which := waits[t].which;
    }

    method Trigger(e: nat, drop: bool)
      requires Sound() && e < |events|
      modifies this, scheduler
      ensures Sound() && Snapshot() == AfterTrigger(old(Snapshot()), e, drop)
      ensures |events| == |old(events)| && events[e].listeners == []
      ensures events[e].pending == old(events)[e].pending + if old(events)[e].listeners == [] && !drop then 1 else 0
      ensures forall f :: 0 <= f < |events| && f != e ==> events[f] == old(events)[f]
    {
      hide Valid, Hearing, Spans, Latest;
      ghost var w := Snapshot();
      TriggerCoherent(w, e, drop);
      var ls := events[e].listeners;
      if ls == [] {
        if !drop {
          events := events[e := events[e].(pending := events[e].pending + 1)];
          log := log.(unheard := log.unheard[e := log.unheard[e] + 1]);
        }
        return;
      }
      assert forall i :: 0 <= i < |ls| ==> RightListing(w.waits, e, ls[i]);
      log := Named(log, waits, ls, e);
      NotifyAll(ls);
      events := events[e := events[e].(listeners := [])];
    }

    method NotifyAll(ls: seq<Listener>)
      requires scheduler.Sound() && waits.Keys == scheduler.states.Keys
      requires forall i :: 0 <= i < |ls| ==> ls[i].thread in waits
      modifies this`waits, scheduler
      ensures scheduler.Sound()
      ensures scheduler.Snapshot() == WakeAll(old(scheduler.Snapshot()), ls) && waits == TellAll(old(waits), ls)
    {
      hide Valid;
      var i := 0;
      while i < |ls|
        invariant 0 <= i <= |ls| && scheduler.Sound()
        invariant waits.Keys == scheduler.states.Keys == old(waits).Keys
        invariant scheduler.Snapshot() == WakeAll(old(scheduler.Snapshot()), ls[..i]) &&
                  waits == TellAll(old(waits), ls[..i])
      {
        var l := ls[i];
        assert ls[..i + 1][..i] == ls[..i];
        UnblockKeeps(scheduler.Snapshot(), l.thread);
        waits := waits[l.thread := waits[l.thread].(which := l.which)];
        scheduler.Unblock(l.thread);
        i := i + 1;
      }
      assert ls[..i] == ls;
    }
  }

  function Listed(event: Event, l: Listener): Event {
    event.(listeners := event.listeners + [l])
  }

  /** The inner loop of `DetachListeners`, with its skip after an erase. */
  method EraseListener(listeners: seq<Listener>, t: Tid) returns (ls: seq<Listener>)
    requires ListedOnce(listeners)
    ensures ls == Without(listeners, t)
  {
    ls := listeners;
    var i := 0;
    while i < |ls|
      invariant 0 <= i
      invariant ls == listeners ==> i <= |ls| && !IsListed(ls[..i], t)
      invariant ls != listeners ==> ls == Without(listeners, t) && !IsListed(ls, t)
      decreases |ls| - i
    {
      if ls[i].thread == t {
        ErasedOne(ls, t, i);
        ls := ls[..i] + ls[i + 1..];
      }
      i := i + 1;
    }
    if ls == listeners && i == |ls| {
      assert ls[..i] == ls;
      NotThere(ls, t);
    }
  }

  lemma CoherentThread(w: World, t: Tid)
    requires Coherent(w) && t in w.waits
    ensures RightWait(w.waits[t], |w.events|) && Listings(w.events, w.waits)
    ensures t in w.log.last ==> RightLast(w.waits, t, w.log.last[t])
  {
  }

  lemma FirstPendingIs(events: seq<Event>, span: seq<nat>, k: nat)
    requires InRange(span, |events|) && k <= |span|
    requires forall j :: 0 <= j < k ==> events[span[j]].pending == 0
    requires k < |span| ==> events[span[k]].pending > 0
    ensures FirstPending(events, span) == k
  {
  }

  lemma AttachIs(before: seq<Event>, after: seq<Event>, t: Tid, span: seq<nat>)
    requires |after| == |before| && InRange(span, |after|)
    requires forall e :: 0 <= e < |after| && e !in span ==> after[e] == before[e]
    requires forall j :: 0 <= j < |span| ==> after[span[j]] == Listed(before[span[j]], Listener(t, j))
    ensures after == Attach(before, t, span)
  {
    forall e | 0 <= e < |after|
      ensures after[e] == Attach(before, t, span)[e]
    {
      if e in span {
        assert span[IndexOf(span, e)] == e;
      }
    }
  }

  lemma CutBehindHead(ls: seq<Listener>, i: nat)
    requires 0 < i < |ls|
    ensures ls[..i] + ls[i + 1..] == [ls[0]] + (ls[1..][..i - 1] + ls[1..][i..])
  {
  }

  lemma {:induction false} ErasedOne(ls: seq<Listener>, t: Tid, i: nat)
    requires i < |ls| && ls[i].thread == t && forall j :: 0 <= j < |ls| && j != i ==> ls[j].thread != t
    ensures Without(ls, t) == ls[..i] + ls[i + 1..] && |ls[..i] + ls[i + 1..]| == |ls| - 1
  {
    hide IsListed;
    if i > 0 {
      CutBehindHead(ls, i);
      ErasedOne(ls[1..], t, i - 1);
    } else {
      NotThere(ls[1..], t);
    }
  }

  lemma {:induction false} NotThere(ls: seq<Listener>, t: Tid)
    requires forall i :: 0 <= i < |ls| ==> ls[i].thread != t
    ensures Without(ls, t) == ls
  {
    if ls != [] {
      NotThere(ls[1..], t);
      assert ls == [ls[0]] + ls[1..];
    }
  }
}
