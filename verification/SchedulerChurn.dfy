/** How long a thread waits while others come and go.  Without a limit on new processes there is no
    bound; with their number in it, there is one for every run. */
module SchedulerChurn {
  import opened SchedulerModel
  import opened SchedulerContext
  import opened SchedulerLatency
  import opened SchedulerRemoval

  /** The thread is on the ring of a process that has not ended. */
  ghost predicate Waits(s: State, pid: int) {
    exists i :: 0 <= i < |s.procs| && !s.procs[i].stopped && OnRing(s.procs[i], pid)
  }

  ghost predicate OnRing(p: Proc, pid: int) {
    exists d :: 0 <= d < |p.ring| && p.ring[d].pid == pid
  }

  ghost predicate Switching(s: State, e: Event)
    requires Shape(s)
  {
    e.Interrupt? && SliceEnds(s)
  }

  ghost function Switches(s: State, events: seq<Event>): nat
    requires Legal(s, events)
    decreases |events|
  {
    if events == [] then 0
    else (if Switching(s, events[0]) then 1 else 0) + Switches(Apply(s, events[0]), events[1..])
  }

  /** Some switch of the run chose the thread. */
  ghost predicate Ran(s: State, events: seq<Event>, pid: int)
    requires Legal(s, events)
    decreases |events|
  {
    events != [] &&
    var t := Apply(s, events[0]);
    (Switching(s, events[0]) && Shape(t) && Running(t) == pid) || Ran(t, events[1..], pid)
  }

  ghost predicate WaitsThroughout(s: State, events: seq<Event>, pid: int)
    requires Legal(s, events)
    decreases |events|
  {
    Waits(s, pid) && (events == [] || WaitsThroughout(Apply(s, events[0]), events[1..], pid))
  }

  // ---------------------------------------------------------------- starvation

  lemma {:induction false} SwitchesSplit(s: State, a: seq<Event>, b: seq<Event>, pid: int)
    requires Legal(s, a) && Legal(Final(s, a), b)
    ensures Legal(s, a + b) && Final(s, a + b) == Final(Final(s, a), b)
    ensures Switches(s, a + b) == Switches(s, a) + Switches(Final(s, a), b)
    ensures Ran(s, a + b, pid) <==> Ran(s, a, pid) || Ran(Final(s, a), b, pid)
    decreases |a|
  {
    hide Good, Apply, Enabled, Switching, Running;
    if a == [] {
      assert a + b == b;
    } else {
      GoodShape(s);
      assert (a + b)[1..] == a[1..] + b && (a + b)[0] == a[0];
      SwitchesSplit(Apply(s, a[0]), a[1..], b, pid);
    }
  }

  lemma StepFirst(s: State, e: Event, rest: seq<Event>, pid: int)
    requires Good(s) && Enabled(s, e) && Legal(Apply(s, e), rest)
    ensures Legal(s, [e] + rest) && Final(s, [e] + rest) == Final(Apply(s, e), rest)
    ensures Switches(s, [e] + rest) == (if Switching(s, e) then 1 else 0) + Switches(Apply(s, e), rest)
    ensures Shape(Apply(s, e))
    ensures Ran(s, [e] + rest, pid) <==> (Switching(s, e) && Running(Apply(s, e)) == pid) || Ran(Apply(s, e), rest, pid)
  {
    hide Apply, Enabled, Switching, Running;
    ApplyGood(s, e);
    assert ([e] + rest)[1..] == rest;
  }

  /** Interrupts up to the next switch. */
  lemma {:induction false} OneSwitch(s: State, esp: nat, pid: int) returns (events: seq<Event>)
    requires Good(s) && SomeActive(s.procs) && s.on
    ensures Legal(s, events) && Final(s, events) == Switch(s, esp) && Shape(Switch(s, esp))
    ensures Switches(s, events) == 1 && (Ran(s, events, pid) <==> Running(Switch(s, esp)) == pid)
    decreases TicksToSwitch(s.ticks)
  {
    hide Good, Switch, Tick, SomeActive, Apply, Legal, Final, Switches, Ran, Running;
    GoodShape(s);
    EnabledWhenActive(s, esp);
    InterruptObserved(s, esp, []);
    ApplyGood(s, Interrupt(esp));
    var t := Tick(s, esp).0;
    if SliceEnds(s) {
      NoEvents(t, pid);
      StepFirst(s, Interrupt(esp), [], pid);
      events := [Interrupt(esp)] + [];
    } else {
      FewerTicks(s);
      events := OneSwitch(t, esp, pid);
      SwitchForgetsTicks(s, t.ticks, esp);
      StepFirst(s, Interrupt(esp), events, pid);
      events := [Interrupt(esp)] + events;
    }
  }

  lemma NoEvents(s: State, pid: int)
    ensures Legal(s, []) && Final(s, []) == s && Switches(s, []) == 0 && !Ran(s, [], pid)
  {}

  /** A new process runs next. */
  lemma SpawnedNext(s: State, esp: nat)
    requires Good(s)
    ensures var t := Spawn(s, esp);
            && SomeActive(t.procs) && Shape(Switch(t, esp)) && Running(Switch(t, esp)) == s.nextPid
            && Switch(t, esp).on && !Switch(t, esp).procs[0].stopped && Switch(t, esp).procs[0].gone.Nobody?
  {
    var t := Spawn(s, esp);
    assert !t.procs[1].stopped;
    SpawnGood(s, esp);
    SwitchGood(t, esp);
    ActiveAfterSave(t, esp);
    assert AfterSave(t, esp)[0] == t.procs[1];
    assert FirstActive(AfterSave(t, esp)) == 0;
  }

  lemma SpawnWaits(s: State, esp: nat, pid: int)
    requires Shape(s) && Waits(s, pid)
    ensures Waits(Spawn(s, esp), pid)
  {
    var i :| 0 <= i < |s.procs| && !s.procs[i].stopped && OnRing(s.procs[i], pid);
    assert Spawn(s, esp).procs[if i == 0 then 0 else i + 1] == s.procs[i];
  }

  lemma AdvanceOnRing(p: Proc, esp: nat, pid: int)
    requires OnRing(p, pid)
    ensures OnRing(Advance(Save(p, esp)), pid)
  {
    var d :| 0 <= d < |p.ring| && p.ring[d].pid == pid;
    var q := Advance(Save(p, esp));
    assert q.ring[if p.gone.Unlinked? then d else if d == 0 then |p.ring| - 1 else d - 1].pid == pid;
  }

  lemma SwitchWaits(s: State, esp: nat, pid: int)
    requires Shape(s) && SomeActive(s.procs) && Waits(s, pid)
    ensures Waits(Switch(s, esp), pid)
  {
    hide OnRing, Save, Advance, FirstActive;
    ActiveAfterSave(s, esp);
    var i :| 0 <= i < |s.procs| && !s.procs[i].stopped && OnRing(s.procs[i], pid);
    var ps, qs := AfterSave(s, esp), Switch(s, esp).procs;
    var k := FirstActive(ps);
    var m := if i == 0 then |ps| - 1 else i - 1;
    if i == 0 {
      AdvanceOnRing(s.procs[0], esp, pid);
      AdvanceStops(s.procs[0], esp);
    }
    assert OnRing(ps[m], pid) && !ps[m].stopped;
    assert qs[if m >= k then m - k else m + |ps| - k] == ps[m];
  }

  lemma WaiterKnown(s: State, pid: int)
    requires Good(s) && Waits(s, pid)
    ensures pid < s.nextPid
  {}

  /** There is no bound on the wait in general: while the running thread can make calls and its process has
      not ended, for every n there is a run of n switches, each to a process just started by the one
      before, in which a waiting thread never runs, although nobody removes it or ends its process. */
  lemma {:induction false} Starves(s: State, pid: int, n: nat) returns (events: seq<Event>)
    requires Good(s) && s.on && !s.procs[0].stopped && s.procs[0].gone.Nobody? && Waits(s, pid)
    ensures Legal(s, events) && Switches(s, events) == n
    ensures !Ran(s, events, pid) && Waits(Final(s, events), pid)
    decreases n
  {
    hide Good, Switch, SomeActive, Waits, Legal, Final, Switches, Ran, Running, Spawn;
    GoodShape(s);
    if n == 0 {
      events := [];
      NoEvents(s, pid);
    } else {
      WaiterKnown(s, pid);
      SpawnGood(s, 0);
      SpawnWaits(s, 0, pid);
      SpawnedNext(s, 0);
      SpawnOn(s, 0);
      var t := Spawn(s, 0);
      GoodShape(t);
      var first := OneSwitch(t, 0, pid);
      SwitchWaits(t, 0, pid);
      SwitchGood(t, 0);
      var rest := Starves(Switch(t, 0), pid, n - 1);
      SwitchesSplit(t, first, rest, pid);
      StepFirst(s, Spawned(0), first + rest, pid);
      events := [Spawned(0)] + (first + rest);
    }
  }

  lemma SpawnOn(s: State, esp: nat)
    requires Shape(s)
    ensures Spawn(s, esp).on && Enabled(s, Spawned(esp)) == s.procs[0].gone.Nobody? && !Switching(s, Spawned(esp))
    ensures Apply.requires(s, Spawned(esp)) ==> Apply(s, Spawned(esp)) == Spawn(s, esp)
  {}

  // ---------------------------------------------------------------- what calls do to the queue

  lemma UpcomingParts(s: State)
    requires Shape(s)
    ensures Upcoming(s) == Queue(s.procs[1..]) + (if s.procs[0].stopped then [] else [RingPids(Advance(s.procs[0]).ring)])
  {
    QueueSplit(s.procs[1..], [Advance(s.procs[0])]);
    assert [Advance(s.procs[0])][1..] == [];
  }

  lemma UpcomingSpawn(s: State, esp: nat)
    requires Shape(s)
    ensures Upcoming(Spawn(s, esp)) == [[s.nextPid]] + Upcoming(s)
  {
    var t := Spawn(s, esp);
    UpcomingParts(s);
    UpcomingParts(t);
    assert t.procs[1..][0] == t.procs[1] && t.procs[1..][1..] == s.procs[1..];
    assert RingPids(t.procs[1].ring) == [s.nextPid];
  }

  lemma UpcomingFork(s: State, esp: nat)
    requires Shape(s) && s.procs[0].gone.Nobody?
    ensures var u := Upcoming(s);
            var n := |u| - 1;
            if s.procs[0].stopped then Upcoming(Fork(s, esp)) == u
            else n >= 0 && u[n] == RingPids(Advance(s.procs[0]).ring) && Upcoming(Fork(s, esp)) == u[..n] + [[s.nextPid] + u[n]]
  {
    var t := Fork(s, esp);
    UpcomingParts(s);
    UpcomingParts(t);
    assert t.procs[1..] == s.procs[1..];
    if !s.procs[0].stopped {
      var a, b := Advance(s.procs[0]).ring, Advance(t.procs[0]).ring;
      assert b[1..] == a && b[0].pid == s.nextPid;
      assert RingPids(b) == [s.nextPid] + RingPids(a);
    }
  }

  lemma UpcomingStop(s: State)
    requires Shape(s) && s.procs[0].gone.Nobody? && !s.procs[0].ring[0].main && Shape(StopThread(s))
    ensures var u := Upcoming(s);
            var n := |u| - 1;
            if s.procs[0].stopped then Upcoming(StopThread(s)) == u
            else n >= 0 && |u[n]| > 0 && Upcoming(StopThread(s)) == u[..n] + [u[n][..|u[n]| - 1]]
                 && u[n][|u[n]| - 1] == s.procs[0].ring[0].pid
  {
    var t := StopThread(s);
    UpcomingParts(s);
    var p, q := s.procs[0], t.procs[0];
    QueueSplit(t.procs[1..], [Advance(q)]);
    assert t.procs[1..] == s.procs[1..] && [Advance(q)][1..] == [];
    assert Advance(p).ring == p.ring[1..] + [p.ring[0]] && Advance(q).ring == p.ring[1..];
    assert RingPids(Advance(p).ring)[..|p.ring| - 1] == RingPids(p.ring[1..]);
  }

  lemma UpcomingEnd(s: State)
    requires Shape(s)
    ensures var u := Upcoming(s);
            if s.procs[0].stopped then Upcoming(EndProc(s)) == u
            else |u| > 0 && Upcoming(EndProc(s)) == u[..|u| - 1] && u[|u| - 1] == RingPids(Advance(s.procs[0]).ring)
  {
    var t := EndProc(s);
    UpcomingParts(s);
    UpcomingParts(t);
    assert t.procs[1..] == s.procs[1..];
  }

  /** A place in a queue belongs to a process that can run. */
  lemma {:induction false} QueueOrigin(ps: seq<Proc>, j: nat) returns (i: nat)
    requires j < |Queue(ps)|
    ensures i < |ps| && !ps[i].stopped && Queue(ps)[j] == RingPids(ps[i].ring)
  {
    if ps[0].stopped {
      i := QueueOrigin(ps[1..], j);
      i := i + 1;
    } else if j == 0 {
      i := 0;
    } else {
      i := QueueOrigin(ps[1..], j - 1);
      i := i + 1;
    }
  }

  lemma UpcomingOrigin(s: State, j: nat, d: nat) returns (i: nat)
    requires Shape(s) && j < |Upcoming(s)| && d < |Upcoming(s)[j]|
    ensures i < |s.procs| && !s.procs[i].stopped && |s.procs[i].ring| == |Upcoming(s)[j]|
    ensures OnRing(s.procs[i], Upcoming(s)[j][d])
  {
    var ps := s.procs[1..] + [Advance(s.procs[0])];
    var k := QueueOrigin(ps, j);
    if k < |ps| - 1 {
      i := k + 1;
      assert s.procs[i] == ps[k] && s.procs[i].ring[d].pid == Upcoming(s)[j][d];
    } else {
      i := 0;
      var p := s.procs[0];
      assert p.ring[if p.gone.Unlinked? then d else if d + 1 < |p.ring| then d + 1 else 0].pid == Upcoming(s)[j][d];
    }
  }

  lemma {:induction false} CountSplit(a: seq<Proc>, b: seq<Proc>)
    ensures CountActive(a + b) == CountActive(a) + CountActive(b)
  {
    if a == [] {
      assert a + b == b;
    } else {
      assert (a + b)[1..] == a[1..] + b;
      CountSplit(a[1..], b);
    }
  }

  /** After a removal the thread waits somewhere else, in a queue that is no longer. */
  lemma RemovedPlace(s: State, id: int, pid: int, j: nat, d: nat) returns (j': nat, d': nat)
    requires Good(s) && Enabled(s, Removed(id)) && Waits(Remove(s, id), pid)
    requires j < |Upcoming(s)| && d < |Upcoming(s)[j]| && Upcoming(s)[j][d] == pid
    ensures Shape(Remove(s, id)) && |Upcoming(Remove(s, id))| <= |Upcoming(s)|
    ensures var u := Upcoming(Remove(s, id));
            j' < |u| && d' < |u[j']| && u[j'][d'] == pid && |u[j']| == |Upcoming(s)[j]|
  {
    hide Upcoming, Good, Remove, Waits, OnRing;
    GoodShape(s);
    RemoveGood(s, id);
    GoodShape(Remove(s, id));
    var i := UpcomingOrigin(s, j, d);
    var x, e := WaitsAt(Remove(s, id), pid);
    RemovedOrigin(s, id, i, x, pid);
    j', d' := PlaceOf(Remove(s, id), x, e);
    UpcomingLength(s);
    UpcomingLength(Remove(s, id));
    RemoveCounts(s, id);
  }

  lemma WaitsAt(s: State, pid: int) returns (i: nat, d: nat)
    requires Waits(s, pid)
    ensures i < |s.procs| && !s.procs[i].stopped && d < |s.procs[i].ring| && s.procs[i].ring[d].pid == pid
    ensures OnRing(s.procs[i], pid)
  {
    i :| 0 <= i < |s.procs| && !s.procs[i].stopped && OnRing(s.procs[i], pid);
    d :| 0 <= d < |s.procs[i].ring| && s.procs[i].ring[d].pid == pid;
  }

  lemma RemovedOrigin(s: State, id: int, i: nat, x: nat, pid: int)
    requires Good(s) && i < |s.procs| && OnRing(s.procs[i], pid)
    requires x < |Remove(s, id).procs| && OnRing(Remove(s, id).procs[x], pid)
    ensures Remove(s, id).procs[x] == s.procs[i]
  {
    hide Good, OnRing, Find;
    var k, n := Find(s.procs, id), |s.procs|;
    var y := if k == n then x else if x < n - k - 1 then k + 1 + x else x - (n - k - 1);
    assert Remove(s, id).procs[x] == s.procs[y];
    OneOwner(s, i, y, pid);
  }

  lemma RemoveCounts(s: State, id: int)
    ensures CountActive(Remove(s, id).procs) <= CountActive(s.procs)
  {
    hide Find;
    var k := Find(s.procs, id);
    if k < |s.procs| {
      var a, b, c := s.procs[..k], [s.procs[k]], s.procs[k + 1..];
      assert s.procs == a + (b + c);
      CountSplit(a, b + c);
      CountSplit(b, c);
      CountSplit(c, a);
    }
  }

  lemma OneOwner(s: State, i: nat, j: nat, pid: int)
    requires Good(s) && i < |s.procs| && j < |s.procs| && OnRing(s.procs[i], pid) && OnRing(s.procs[j], pid)
    ensures i == j
  {
    assert pid in Pids(s.procs[i]) && pid in Pids(s.procs[j]);
  }

  // ---------------------------------------------------------------- the bound

  function Spawns(events: seq<Event>): nat {
    if events == [] then 0 else (if events[0].Spawned? then 1 else 0) + Spawns(events[1..])
  }

  function Removals(events: seq<Event>): nat {
    if events == [] then 0 else (if events[0].Removed? then 1 else 0) + Removals(events[1..])
  }

  /** Threads started by the process of the waiting thread. */
  ghost function ForksBeside(s: State, events: seq<Event>, pid: int): nat
    requires Legal(s, events)
    decreases |events|
  {
    if events == [] then 0
    else (if events[0].Forked? && OnRing(s.procs[0], pid) then 1 else 0) + ForksBeside(Apply(s, events[0]), events[1..], pid)
  }

  /** The state of a count of switches: `n` so far, and the d-th thread of the j-th queue still to run,
      with the queues no longer and no more than so many. */
  ghost predicate Within(s: State, pid: int, j: nat, d: nat, n: nat, rounds: nat, procs: nat, threads: nat)
    requires Shape(s)
  {
    var u := Upcoming(s);
    && j < |u| <= procs && d < |u[j]| <= threads && u[j][d] == pid && rounds >= 1
    && n + Turn(u, j, d) <= rounds * (procs * threads)
  }

  lemma SwitchWithin(s: State, esp: nat, pid: int, j: nat, d: nat, n: nat, rounds: nat, procs: nat, threads: nat)
    returns (j': nat, d': nat)
    requires Good(s) && SomeActive(s.procs) && Within(s, pid, j, d, n, rounds, procs, threads)
    requires Shape(Switch(s, esp)) && Running(Switch(s, esp)) != pid
    ensures Within(Switch(s, esp), pid, j', d', n + 1, rounds, procs, threads)
  {
    SwitchServes(s, esp);
    hide Good, Upcoming, Switch, Turn, Running;
    GoodShape(s);
    j', d' := TurnStep(Upcoming(s), j, d);
  }

  lemma SpawnWithin(s: State, esp: nat, pid: int, j: nat, d: nat, n: nat, rounds: nat, procs: nat, threads: nat)
    requires Shape(s) && Within(s, pid, j, d, n, rounds, procs, threads)
    ensures Within(Spawn(s, esp), pid, j + 1, d, n, rounds, procs + 1, threads)
  {
    hide Upcoming, Spawn;
    UpcomingSpawn(s, esp);
    var u := Upcoming(s);
    assert d * (|u| + 1) == d * |u| + d;
    MoreProcs(rounds, procs, threads);
  }

  lemma MoreProcs(rounds: nat, procs: nat, threads: nat)
    requires rounds >= 1
    ensures rounds * ((procs + 1) * threads) >= rounds * (procs * threads) + threads
  {
    assert (procs + 1) * threads == procs * threads + threads;
    assert rounds * (procs * threads + threads) == rounds * (procs * threads) + rounds * threads;
    assert rounds * threads >= threads;
  }

  lemma ForkWithin(s: State, esp: nat, pid: int, j: nat, d: nat, n: nat, rounds: nat, procs: nat, threads: nat)
    returns (d': nat)
    requires Good(s) && s.procs[0].gone.Nobody? && Within(s, pid, j, d, n, rounds, procs, threads)
    ensures Shape(Fork(s, esp))
    ensures Within(Fork(s, esp), pid, j, d', n, rounds, procs, threads + if OnRing(s.procs[0], pid) then 1 else 0)
  {
    ForkGood(s, esp);
    UpcomingFork(s, esp);
    AdvanceHas(s.procs[0], pid);
    hide Good, Upcoming, Fork, OnRing, Turn;
    var u := Upcoming(s);
    d' := if !s.procs[0].stopped && j == |u| - 1 then d + 1 else d;
    TurnLater(u, Upcoming(Fork(s, esp)), j, d);
    MoreThreads(rounds, procs, threads);
  }

  lemma TurnLater(u: seq<seq<int>>, v: seq<seq<int>>, j: nat, d: nat)
    requires |u| == |v|
    ensures Turn(v, j, d) == Turn(u, j, d) && Turn(v, j, d + 1) == Turn(u, j, d) + |u|
  {}

  lemma MoreThreads(rounds: nat, procs: nat, threads: nat)
    requires rounds >= 1
    ensures rounds * (procs * (threads + 1)) >= rounds * (procs * threads) + procs
  {
    MoreProcs(rounds, threads, procs);
    Commutes(procs, threads);
    Commutes(procs, threads + 1);
  }

  lemma Commutes(a: nat, b: nat)
    ensures a * b == b * a
  {}

  lemma AdvanceHas(p: Proc, pid: int)
    requires |p.ring| > 0
    ensures forall d :: 0 <= d < |Advance(p).ring| && RingPids(Advance(p).ring)[d] == pid ==> OnRing(p, pid)
  {
    var q := Advance(p);
    forall d | 0 <= d < |q.ring| && RingPids(q.ring)[d] == pid ensures OnRing(p, pid) {
      assert p.ring[if p.gone.Unlinked? then d else if d + 1 < |p.ring| then d + 1 else 0].pid == pid;
    }
  }

  lemma StopWithin(s: State, pid: int, j: nat, d: nat, n: nat, rounds: nat, procs: nat, threads: nat)
    requires Good(s) && s.procs[0].gone.Nobody? && Within(s, pid, j, d, n, rounds, procs, threads)
    requires Shape(StopThread(s)) && Waits(StopThread(s), pid)
    ensures Within(StopThread(s), pid, j, d, n, rounds, procs, threads)
  {
    if s.procs[0].ring[0].main {
      EndWithin(s, pid, j, d, n, rounds, procs, threads);
    } else {
      UpcomingStop(s);
      StoppedGone(s, pid);
      hide Good, Upcoming, StopThread, Waits;
    }
  }

  lemma StoppedGone(s: State, pid: int)
    requires Good(s) && s.procs[0].gone.Nobody? && !s.procs[0].ring[0].main && Waits(StopThread(s), pid)
    ensures pid != s.procs[0].ring[0].pid
  {
    var t := StopThread(s);
    var i :| 0 <= i < |t.procs| && !t.procs[i].stopped && OnRing(t.procs[i], pid);
    if i == 0 {
      var d :| 0 <= d < |t.procs[0].ring| && t.procs[0].ring[d].pid == pid;
      assert s.procs[0].ring[d + 1].pid == pid;
    } else {
      assert pid in Pids(s.procs[i]) && s.procs[0].ring[0].pid in Pids(s.procs[0]);
    }
  }

  lemma EndWithin(s: State, pid: int, j: nat, d: nat, n: nat, rounds: nat, procs: nat, threads: nat)
    requires Good(s) && Within(s, pid, j, d, n, rounds, procs, threads) && s.procs[0].gone.Nobody?
    requires Shape(EndProc(s)) && Waits(EndProc(s), pid)
    ensures Within(EndProc(s), pid, j, d, n, rounds, procs, threads)
  {
    UpcomingEnd(s);
    AdvanceHas(s.procs[0], pid);
    EndedGone(s, pid);
    hide Good, Upcoming, EndProc, Waits, OnRing, Turn;
    TurnSooner(Upcoming(s), Upcoming(EndProc(s)), j, d);
  }

  lemma TurnSooner(u: seq<seq<int>>, v: seq<seq<int>>, j: nat, d: nat)
    requires |v| == |u| || |v| == |u| - 1
    ensures Turn(v, j, d) <= Turn(u, j, d)
  {
    assert d * (|u| - 1) == d * |u| - d;
  }

  lemma EndedGone(s: State, pid: int)
    requires Good(s) && Waits(EndProc(s), pid)
    ensures s.procs[0].stopped || !OnRing(s.procs[0], pid)
  {
    var t := EndProc(s);
    var i :| 0 <= i < |t.procs| && !t.procs[i].stopped && OnRing(t.procs[i], pid);
    if OnRing(s.procs[0], pid) && !s.procs[0].stopped {
      OneOwner(s, 0, i, pid);
    }
  }

  lemma RemoveWithin(s: State, id: int, pid: int, j: nat, d: nat, n: nat, rounds: nat, procs: nat, threads: nat)
    returns (j': nat, d': nat)
    requires Good(s) && Enabled(s, Removed(id)) && Within(s, pid, j, d, n, rounds, procs, threads)
    requires Waits(Remove(s, id), pid)
    ensures Shape(Remove(s, id)) && Within(Remove(s, id), pid, j', d', n, rounds + 1, procs, threads)
  {
    hide Good, Upcoming, Remove, Waits, Turn;
    GoodShape(s);
    j', d' := RemovedPlace(s, id, pid, j, d);
    var u := Upcoming(Remove(s, id));
    TurnBound(u, j', d');
    TurnBound(Upcoming(s), j, d);
    Products(|u|, procs, |u[j']|, threads);
    assert (rounds + 1) * (procs * threads) == rounds * (procs * threads) + procs * threads;
  }

  lemma Products(a: nat, b: nat, c: nat, d: nat)
    requires a <= b && c <= d
    ensures a * c <= b * d
  {
    assert a * c <= b * c <= b * d;
  }

  /** One event, counted. */
  lemma StepWithin(s: State, e: Event, pid: int, j: nat, d: nat, n: nat, rounds: nat, procs: nat, threads: nat)
    returns (j': nat, d': nat)
    requires Good(s) && Enabled(s, e) && Within(s, pid, j, d, n, rounds, procs, threads)
    requires Shape(Apply(s, e)) && Waits(Apply(s, e), pid)
    requires Switching(s, e) ==> Running(Apply(s, e)) != pid
    ensures Within(Apply(s, e), pid, j', d', n + if Switching(s, e) then 1 else 0,
                   rounds + if e.Removed? then 1 else 0, procs + if e.Spawned? then 1 else 0,
                   threads + if e.Forked? && OnRing(s.procs[0], pid) then 1 else 0)
  {
    hide Good, Within, Waits, Running, OnRing, Switch;
    GoodShape(s);
    j', d' := j, d;
    match e
    case Interrupt(esp) =>
      InterruptObserved(s, esp, []);
      if SliceEnds(s) {
        j', d' := SwitchWithin(s, esp, pid, j, d, n, rounds, procs, threads);
      } else {
        SameProcs(s, Apply(s, e), pid, j, d, n, rounds, procs, threads);
      }
    case Spawned(esp) =>
      SpawnWithin(s, esp, pid, j, d, n, rounds, procs, threads);
      j' := j + 1;
    case Forked(esp) => d' := ForkWithin(s, esp, pid, j, d, n, rounds, procs, threads);
    case ForkedWithoutMemory => SameProcs(s, Apply(s, e), pid, j, d, n, rounds, procs, threads);
    case ForkedWithoutFrames => SameProcs(s, Apply(s, e), pid, j, d, n, rounds, procs, threads);
    case SpawnedWithoutMemory =>
    case SpawnedWithoutFrames => SameProcs(s, Apply(s, e), pid, j, d, n, rounds, procs, threads);
    case ThreadStopped => StopWithin(s, pid, j, d, n, rounds, procs, threads);
    case ProcEnded => EndWithin(s, pid, j, d, n, rounds, procs, threads);
    case Removed(id) => j', d' := RemoveWithin(s, id, pid, j, d, n, rounds, procs, threads);
  }

  lemma SameProcs(s: State, t: State, pid: int, j: nat, d: nat, n: nat, rounds: nat, procs: nat, threads: nat)
    requires Shape(s) && Shape(t) && t.procs == s.procs && Within(s, pid, j, d, n, rounds, procs, threads)
    ensures Within(t, pid, j, d, n, rounds, procs, threads)
  {}

  lemma {:induction false} RunWithin(s: State, events: seq<Event>, pid: int, j: nat, d: nat, n: nat,
                                     rounds: nat, procs: nat, threads: nat)
    requires Good(s) && Legal(s, events) && WaitsThroughout(s, events, pid) && !Ran(s, events, pid)
    requires Shape(s) && Within(s, pid, j, d, n, rounds, procs, threads)
    ensures n + Switches(s, events) <
            (rounds + Removals(events)) * ((procs + Spawns(events)) * (threads + ForksBeside(s, events, pid)))
    decreases |events|
  {
    hide Good, Within, Waits, Running, OnRing, Apply, Switching;
    if events == [] {
      TurnPositive(s, pid, j, d, n, rounds, procs, threads);
    } else {
      var e, rest := events[0], events[1..];
      ApplyGood(s, e);
      GoodShape(Apply(s, e));
      WaitsFirst(Apply(s, e), rest, pid);
      var j', d' := StepWithin(s, e, pid, j, d, n, rounds, procs, threads);
      RunWithin(Apply(s, e), rest, pid, j', d', n + if Switching(s, e) then 1 else 0,
                rounds + if e.Removed? then 1 else 0, procs + if e.Spawned? then 1 else 0,
                threads + if e.Forked? && OnRing(s.procs[0], pid) then 1 else 0);
    }
  }

  lemma WaitsFirst(s: State, events: seq<Event>, pid: int)
    requires Legal(s, events) && WaitsThroughout(s, events, pid)
    ensures Waits(s, pid)
  {}

  lemma TurnPositive(s: State, pid: int, j: nat, d: nat, n: nat, rounds: nat, procs: nat, threads: nat)
    requires Shape(s) && Within(s, pid, j, d, n, rounds, procs, threads)
    ensures n < rounds * (procs * threads)
  {
    TurnBound(Upcoming(s), j, d);
  }

  /** The bound for changing membership.  From a state with m processes not ended, a thread of one of them
      with t threads runs before (m + c) * (t + f) switches have passed, and once more for every
      removal, where c processes were started on the way and f threads by its own process: whatever
      else stops, ends, fails or is interrupted, a run without it has fewer switches. */
  lemma WaitBound(s: State, events: seq<Event>, i: nat, d: nat)
    requires Good(s) && Legal(s, events)
    requires i < |s.procs| && !s.procs[i].stopped && d < |s.procs[i].ring|
    requires WaitsThroughout(s, events, s.procs[i].ring[d].pid) && !Ran(s, events, s.procs[i].ring[d].pid)
    ensures Switches(s, events) <
            (1 + Removals(events)) * ((CountActive(s.procs) + Spawns(events)) *
                                      (|s.procs[i].ring| + ForksBeside(s, events, s.procs[i].ring[d].pid)))
  {
    hide Good, Within, Legal, WaitsThroughout, Ran, CountActive, Switches, Removals, Spawns, ForksBeside;
    GoodShape(s);
    var j, d' := FirstWithin(s, i, d);
    RunWithin(s, events, s.procs[i].ring[d].pid, j, d', 0, 1, CountActive(s.procs), |s.procs[i].ring|);
  }

  lemma FirstWithin(s: State, i: nat, d: nat) returns (j: nat, d': nat)
    requires Good(s) && Shape(s)
    requires i < |s.procs| && !s.procs[i].stopped && d < |s.procs[i].ring|
    ensures Within(s, s.procs[i].ring[d].pid, j, d', 0, 1, CountActive(s.procs), |s.procs[i].ring|)
  {
    hide Good, Upcoming, Turn;
    j, d' := PlaceOf(s, i, d);
    UpcomingLength(s);
    TurnBound(Upcoming(s), j, d');
  }
}
