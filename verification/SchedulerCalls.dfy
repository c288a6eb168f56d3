/** What the calls of threads come to under the interrupts that follow them: who runs, who does not, and
    when.  These are the reasons for the flag that switches scheduling on and off and for the states
    of processes and threads. */
module SchedulerCalls {
  import opened SchedulerModel
  import opened SchedulerContext
  import opened SchedulerLatency
  import opened SchedulerRemoval
  import opened SchedulerChurn

  /** The calls that leave scheduling on, whatever it was before: process and thread creation, their
      failures but those for want of a thread_t, and the ends of threads and processes. */
  predicate Resumes(e: Event) {
    e.Spawned? || e.Forked? || e.ForkedWithoutFrames? || e.SpawnedWithoutFrames? || e.ThreadStopped? || e.ProcEnded?
  }

  lemma ResumesOn(s: State, e: Event)
    requires Good(s) && Shape(s) && Enabled(s, e) && Resumes(e)
    ensures Good(Apply(s, e)) && Apply(s, e).on
  {
    ApplyGood(s, e);
    hide Good;
  }

  /** After such a call every thread of a process that goes on runs within eleven ticks for each turn of
      its queue, and one more. */
  lemma RunsAfterCall(s: State, e: Event, i: nat, d: nat, esps: seq<nat>) returns (n: nat)
    requires Good(s) && Shape(s) && Enabled(s, e) && Resumes(e)
    requires var ps := Apply(s, e).procs;
             i < |ps| && !ps[i].stopped && d < |ps[i].ring| && |esps| >= 11 * (CountActive(ps) * |ps[i].ring|) + 1
    ensures var t := Apply(s, e);
            && Good(t) && SomeActive(t.procs) && n <= 11 * (CountActive(t.procs) * |t.procs[i].ring|) + 1
            && Running(Ticks(t, esps[..n])) == t.procs[i].ring[d].pid
  {
    ResumesOn(s, e);
    hide Good, Apply, SomeActive, Ticks;
    var k;
    k, n := LatencyBound(Apply(s, e), i, d, esps);
  }

  // ---------------------------------------------------------------- calls on the queue

  /** start_proc puts the new process in front of everyone. */
  lemma SpawnQueues(s: State, esp: nat)
    requires Shape(s)
    ensures Shape(Spawn(s, esp)) && Upcoming(Spawn(s, esp)) == [[s.nextPid]] + Upcoming(s)
  {
    var t := Spawn(s, esp);
    var p := t.procs[1];
    assert t.procs[1..] + [Advance(t.procs[0])] == [p] + (s.procs[1..] + [Advance(s.procs[0])]);
    QueueSplit([p], s.procs[1..] + [Advance(s.procs[0])]);
    OneQueue(p);
    assert RingPids(p.ring) == [s.nextPid];
  }

  lemma OneQueue(p: Proc)
    ensures Queue([p]) == if p.stopped then [] else [RingPids(p.ring)]
  {
    assert [p][1..] == [];
  }

  /** What is upcoming comes from the other processes and, at the end, from the running one. */
  lemma LastQueue(s: State)
    requires Shape(s)
    ensures Upcoming(s) == Queue(s.procs[1..]) + if s.procs[0].stopped then [] else [RingPids(Advance(s.procs[0]).ring)]
  {
    QueueSplit(s.procs[1..], [Advance(s.procs[0])]);
    OneQueue(Advance(s.procs[0]));
  }

  /** start_thread puts the new thread in front of its process, which stays last. */
  lemma ForkQueues(s: State, esp: nat)
    requires Good(s) && s.procs[0].gone.Nobody? && !s.procs[0].stopped
    ensures var t, u := Fork(s, esp), Upcoming(s);
            Shape(t) && |u| > 0 && Upcoming(t) == u[|u| - 1 := [s.nextPid] + u[|u| - 1]]
  {
    var t, u := Fork(s, esp), Upcoming(s);
    LastQueue(s);
    LastQueue(t);
    assert t.procs[1..] == s.procs[1..];
    assert RingPids(Advance(t.procs[0]).ring) == [s.nextPid] + RingPids(Advance(s.procs[0]).ring);
  }

  /** stop_thread takes the caller from the end of its process, and a main thread with its whole process. */
  lemma StopQueues(s: State)
    requires Good(s) && s.procs[0].gone.Nobody? && !s.procs[0].stopped
    ensures var t, u := StopThread(s), Upcoming(s);
            && Shape(t) && |u| > 0 && |u[|u| - 1]| > 0
            && Upcoming(t) == if s.procs[0].ring[0].main then u[..|u| - 1] else u[|u| - 1 := u[|u| - 1][..|u[|u| - 1]| - 1]]
  {
    var t, u := StopThread(s), Upcoming(s);
    StopGood(s);
    LastQueue(s);
    LastQueue(t);
    assert t.procs[1..] == s.procs[1..];
    var last := RingPids(Advance(s.procs[0]).ring);
    assert !s.procs[0].ring[0].main ==> RingPids(Advance(t.procs[0]).ring) == last[..|last| - 1];
  }

  /** end_proc takes the caller's process. */
  lemma EndQueues(s: State)
    requires Shape(s) && !s.procs[0].stopped
    ensures Shape(EndProc(s)) && |Upcoming(s)| > 0 && Upcoming(EndProc(s)) == Upcoming(s)[..|Upcoming(s)| - 1]
  {
    LastQueue(s);
    LastQueue(EndProc(s));
    assert EndProc(s).procs[1..] == s.procs[1..];
  }

  // ---------------------------------------------------------------- who is there

  ghost predicate Holds(p: Proc, pid: int) {
    exists j :: 0 <= j < |p.ring| && p.ring[j].pid == pid
  }

  /** The pid is in some ring. */
  ghost predicate InRing(ps: seq<Proc>, pid: int) {
    exists i :: 0 <= i < |ps| && Holds(ps[i], pid)
  }

  /** Who is in a ring after an event: everyone who was, but the threads of a process that is removed and a
      thread that stops itself, and one more after a start. */
  lemma MembersExactly(s: State, e: Event, pid: int)
    requires Good(s) && Shape(s) && Enabled(s, e)
    ensures InRing(Apply(s, e).procs, pid) <==>
            match e
            case Spawned(_) => InRing(s.procs, pid) || pid == s.nextPid
            case Forked(_) => InRing(s.procs, pid) || pid == s.nextPid
            case ThreadStopped => InRing(s.procs, pid) && (pid != s.procs[0].ring[0].pid || s.procs[0].ring[0].main)
            case Removed(id) => InRing(s.procs, pid) && !exists i :: 0 <= i < |s.procs| && Holds(s.procs[i], id) && Holds(s.procs[i], pid)
            case _ => InRing(s.procs, pid)
  {
    FirstAndRest(s.procs, pid);
    match e
    case Interrupt(esp) =>
      if SliceEnds(s) {
        SwitchMembers(s.(ticks := (s.ticks + 1) % TICK_RANGE), esp, pid);
      }
    case Spawned(esp) =>
      var p := Spawn(s, esp).procs[1];
      FirstAndRest(Spawn(s, esp).procs, pid);
      FirstAndRest([p] + s.procs[1..], pid);
      assert Spawn(s, esp).procs[1..] == [p] + s.procs[1..] && ([p] + s.procs[1..])[1..] == s.procs[1..];
      assert p.ring[0].pid == s.nextPid;
    case Forked(esp) =>
      FirstAndRest(Fork(s, esp).procs, pid);
      ForkHolds(s, esp, pid);
    case ThreadStopped =>
      FirstAndRest(StopThread(s).procs, pid);
      StopHolds(s, pid);
    case ProcEnded =>
      FirstAndRest(EndProc(s).procs, pid);
      assert Holds(EndProc(s).procs[0], pid) <==> Holds(s.procs[0], pid);
    case Removed(id) => RemoveMembers(s, id, pid);
    case _ =>
  }

  lemma Split(a: seq<Proc>, b: seq<Proc>, pid: int)
    ensures InRing(a + b, pid) <==> InRing(a, pid) || InRing(b, pid)
  {
    hide Holds;
    if InRing(a, pid) {
      var i :| 0 <= i < |a| && Holds(a[i], pid);
      assert Holds((a + b)[i], pid);
    }
    if InRing(b, pid) {
      var i :| 0 <= i < |b| && Holds(b[i], pid);
      assert Holds((a + b)[|a| + i], pid);
    }
  }

  lemma FirstAndRest(ps: seq<Proc>, pid: int)
    requires |ps| > 0
    ensures InRing(ps, pid) <==> Holds(ps[0], pid) || InRing(ps[1..], pid)
  {
    hide Holds;
    assert ps == [ps[0]] + ps[1..];
    Split([ps[0]], ps[1..], pid);
    assert InRing([ps[0]], pid) <==> Holds([ps[0]][0], pid);
  }

  lemma Alone(p: Proc, pid: int)
    ensures InRing([p], pid) <==> Holds(p, pid)
  {
    assert Holds([p][0], pid) <==> Holds(p, pid);
  }

  lemma SwitchMembers(s: State, esp: nat, pid: int)
    requires Shape(s) && SomeActive(s.procs)
    ensures InRing(Switch(s, esp).procs, pid) <==> InRing(s.procs, pid)
  {
    ActiveAfterSave(s, esp);
    AdvanceHolds(s.procs[0], esp, pid);
    hide Holds, InRing, FirstActive;
    var ps := AfterSave(s, esp);
    var k := FirstActive(ps);
    assert ps == ps[..k] + ps[k..];
    Split(ps[..k], ps[k..], pid);
    Split(ps[k..], ps[..k], pid);
    FirstAndRest(s.procs, pid);
    Split(s.procs[1..], [Advance(Save(s.procs[0], esp))], pid);
    Alone(Advance(Save(s.procs[0], esp)), pid);
  }

  lemma AdvanceHolds(p: Proc, esp: nat, pid: int)
    requires |p.ring| > 0
    ensures Holds(Advance(Save(p, esp)), pid) <==> Holds(p, pid)
  {
    var q := Advance(Save(p, esp));
    var n := |p.ring|;
    assert forall j :: 0 <= j < n ==> q.ring[j].pid == p.ring[if p.gone.Unlinked? then j else if j + 1 < n then j + 1 else 0].pid;
    assert forall j :: 0 <= j < n ==> p.ring[j].pid == q.ring[if p.gone.Unlinked? then j else if j > 0 then j - 1 else n - 1].pid;
  }

  lemma ForkHolds(s: State, esp: nat, pid: int)
    requires Shape(s)
    ensures Holds(Fork(s, esp).procs[0], pid) <==> Holds(s.procs[0], pid) || pid == s.nextPid
  {
    var p, q := s.procs[0], Fork(s, esp).procs[0];
    assert q.ring[1].pid == s.nextPid && q.ring[0] == p.ring[0];
    assert forall j :: 1 <= j < |p.ring| ==> p.ring[j] == q.ring[j + 1];
    assert forall j :: 2 <= j < |q.ring| ==> q.ring[j] == p.ring[j - 1];
  }

  lemma StopHolds(s: State, pid: int)
    requires Good(s) && Shape(s) && s.procs[0].gone.Nobody?
    ensures var x := s.procs[0].ring[0];
            && (Holds(StopThread(s).procs[0], pid) <==> Holds(s.procs[0], pid) && (pid != x.pid || x.main))
            && (InRing(s.procs[1..], pid) ==> pid != x.pid)
  {
    var p, q := s.procs[0], StopThread(s).procs[0];
    hide InRing, Pids;
    if pid == p.ring[0].pid {
      Elsewhere(s, 0, pid);
    }
    if !p.ring[0].main {
      assert forall j :: 0 <= j < |q.ring| ==> q.ring[j] == p.ring[j + 1];
      assert forall j :: 1 <= j < |p.ring| ==> p.ring[j] == q.ring[j - 1];
    }
  }

  lemma RemoveMembers(s: State, id: int, pid: int)
    requires Good(s) && s.procs[0].gone.Nobody?
    ensures InRing(Remove(s, id).procs, pid) <==>
            InRing(s.procs, pid) && !exists i :: 0 <= i < |s.procs| && Holds(s.procs[i], id) && Holds(s.procs[i], pid)
  {
    hide Holds, InRing, Find, Pids, Good;
    var ps := s.procs;
    var k := Find(ps, id);
    forall i: nat | i < |ps| ensures Holds(ps[i], id) <==> i == k {
      OwnerIs(s, id, i);
    }
    if k < |ps| {
      assert ps == ps[..k] + [ps[k]] + ps[k + 1..];
      Split(ps[..k] + [ps[k]], ps[k + 1..], pid);
      Split(ps[..k], [ps[k]], pid);
      Split(ps[k + 1..], ps[..k], pid);
      Alone(ps[k], pid);
      if Holds(ps[k], pid) {
        Elsewhere(s, k, pid);
      }
    }
  }

  lemma OwnerIs(s: State, id: int, i: nat)
    requires Good(s) && s.procs[0].gone.Nobody? && i < |s.procs|
    ensures Holds(s.procs[i], id) <==> i == Find(s.procs, id)
  {
    var k := Find(s.procs, id);
    assert s.procs[i].gone.Nobody?;
    assert Holds(s.procs[i], id) <==> Owns(s.procs[i], id);
    if Holds(s.procs[i], id) && k < |s.procs| {
      HoldsPid(s.procs[i], id);
      HoldsPid(s.procs[k], id);
      PidsApart(s, i, k, id);
    }
  }

  lemma HoldsPid(p: Proc, pid: int)
    ensures Holds(p, pid) || Owns(p, pid) ==> pid in Pids(p)
  {}

  /** A pid of one process is in no other. */
  lemma Elsewhere(s: State, k: nat, pid: int)
    requires Good(s) && k < |s.procs| && Holds(s.procs[k], pid)
    ensures !InRing(s.procs[..k], pid) && !InRing(s.procs[k + 1..], pid)
  {
    hide Holds, Good, Pids;
    forall i: nat | i < |s.procs| && Holds(s.procs[i], pid) ensures i == k {
      HoldsPid(s.procs[i], pid);
      HoldsPid(s.procs[k], pid);
      PidsApart(s, i, k, pid);
    }
    var rest := s.procs[k + 1..];
    forall i: nat | i < |rest| ensures !Holds(rest[i], pid) {
      assert rest[i] == s.procs[i + k + 1];
    }
  }

  /** A thread that start_thread has started, in a process that has not ended, runs when its process's turn
      comes: within eleven ticks for each process that is not stopped, and one more. */
  lemma ForkRuns(s: State, esp: nat, esps: seq<nat>) returns (n: nat)
    requires Good(s) && s.procs[0].gone.Nobody? && !s.procs[0].stopped && |esps| >= 11 * CountActive(s.procs) + 1
    ensures Shape(s) && Enabled(s, Forked(esp))
    ensures var t := Apply(s, Forked(esp));
            && Good(t) && SomeActive(t.procs) && n <= 11 * CountActive(s.procs) + 1
            && Running(Ticks(t, esps[..n])) == s.nextPid
  {
    GoodShape(s);
    var t := Apply(s, Forked(esp));
    ResumesOn(s, Forked(esp));
    ForkQueues(s, esp);
    UpcomingLength(s);
    assert !t.procs[0].stopped;
    hide Good, Apply, Fork, SomeActive, Ticks, CountActive, Upcoming;
    var m := |Upcoming(t)|;
    n := TicksToTurn(t.ticks, Turn(Upcoming(t), m - 1, 0));
    ExactTurn(t, m - 1, 0, esps[..n]);
  }

  /** A process that start_proc has started runs at the next switch, within twelve ticks. */
  lemma SpawnRuns(s: State, esp: nat, esps: seq<nat>) returns (n: nat)
    requires Good(s) && s.procs[0].gone.Nobody? && |esps| >= 12
    ensures Shape(s) && Enabled(s, Spawned(esp))
    ensures var t := Apply(s, Spawned(esp));
            Good(t) && SomeActive(t.procs) && n <= 12 && Running(Ticks(t, esps[..n])) == s.nextPid
  {
    GoodShape(s);
    SpawnGood(s, esp);
    SpawnOn(s, esp);
    var t := Spawn(s, esp);
    hide Good, Apply, SomeActive, Ticks, Running, Switch, Spawn;
    n := TicksToSwitch(t.ticks);
    SpawnActive(s, esp);
    SliceRunsOut(t, esps[..n]);
    SpawnNext(s, esp, esps[n - 1]);
  }

  lemma SpawnActive(s: State, esp: nat)
    requires Shape(s)
    ensures SomeActive(Spawn(s, esp).procs)
  {
    assert !Spawn(s, esp).procs[1].stopped;
  }

  /** The stack pointer a process is born with does not matter for who runs. */
  lemma SpawnNext(s: State, esp: nat, e: nat)
    requires Good(s)
    ensures var t := Spawn(s, esp); SomeActive(t.procs) && Shape(t) && Shape(Switch(t, e)) && Running(Switch(t, e)) == s.nextPid
  {
    SpawnGood(s, esp);
    SpawnActive(s, esp);
    var t := Spawn(s, esp);
    GoodShape(t);
    SwitchShape(t, e);
    ActiveAfterSave(t, e);
    assert AfterSave(t, e)[0] == t.procs[1];
    assert FirstActive(AfterSave(t, e)) == 0;
  }

  /** When start_thread finds no memory for a thread_t, scheduling stays off: whatever interrupts follow,
      nobody but the caller runs. */
  lemma {:induction false} NobodyElseRuns(s: State, esps: seq<nat>)
    requires Good(s) && s.procs[0].gone.Nobody?
    ensures Shape(s) && Enabled(s, ForkedWithoutMemory)
    ensures var t := Apply(s, ForkedWithoutMemory);
            Legal(t, Interrupts(esps)) && Final(t, Interrupts(esps)).procs == s.procs && !Final(t, Interrupts(esps)).on
  {
    GoodShape(s);
    FailedStartGood(s);
    StaysOff(ForkWithoutMemory(s), esps);
  }

  lemma {:induction false} StaysOff(s: State, esps: seq<nat>)
    requires Good(s) && !s.on
    ensures Legal(s, Interrupts(esps)) && Final(s, Interrupts(esps)).procs == s.procs && !Final(s, Interrupts(esps)).on
    decreases |esps|
  {
    hide Good, Switch;
    if esps != [] {
      GoodShape(s);
      InterruptsStep(esps);
      assert Interrupts(esps)[1..] == Interrupts(esps[1..]);
      ApplyGood(s, Interrupt(esps[0]));
      StaysOff(Apply(s, Interrupt(esps[0])), esps[1..]);
    }
  }

  // ---------------------------------------------------------------- the flag and the pids

  /** Whether scheduling is on after these calls: what is not here leaves it alone. */
  function FlagAfter(on: bool, events: seq<Event>): bool
    decreases |events|
  {
    if events == [] then on
    else FlagAfter(if Resumes(events[0]) then true else if events[0].ForkedWithoutMemory? then false else on, events[1..])
  }

  /** The pids that these calls use up. */
  function Spent(events: seq<Event>): nat {
    if events == [] then 0
    else
      var e := events[0];
      (if e.Spawned? || e.Forked? || e.ForkedWithoutFrames? || e.SpawnedWithoutFrames? then 1 else 0) + Spent(events[1..])
  }

  /** In every run scheduling is as the last call that touches it left it, and pids are handed out one by one,
      to failed starts too. */
  lemma {:induction false} FlagAndPids(s: State, events: seq<Event>)
    requires Good(s) && Legal(s, events)
    ensures Final(s, events).on == FlagAfter(s.on, events)
    ensures Final(s, events).nextPid == s.nextPid + Spent(events)
    decreases |events|
  {
    hide Good;
    if events != [] {
      GoodShape(s);
      ApplyGood(s, events[0]);
      FlagAndPids(Apply(s, events[0]), events[1..]);
    }
  }

  // ---------------------------------------------------------------- ends

  /** The thread is nowhere, or only in a process that has ended. */
  ghost predicate Retired(s: State, pid: int) {
    pid < s.nextPid && forall i :: 0 <= i < |s.procs| && pid in Pids(s.procs[i]) ==> s.procs[i].stopped
  }

  lemma SwitchRetired(s: State, esp: nat, pid: int)
    requires Good(s) && SomeActive(s.procs) && Retired(s, pid)
    ensures Shape(Switch(s, esp)) && Retired(Switch(s, esp), pid) && Running(Switch(s, esp)) != pid
  {
    AdvanceGood(s.procs[0], esp, s.nextPid);
    SwitchShape(s, esp);
    ActiveAfterSave(s, esp);
    hide Good, Pids, FirstActive, Advance, Save;
    var ps, qs := AfterSave(s, esp), Switch(s, esp).procs;
    var k := FirstActive(ps);
    AdvanceStops(s.procs[0], esp);
    forall i | 0 <= i < |qs| && pid in Pids(qs[i]) ensures qs[i].stopped {
      var m := if i < |ps| - k then k + i else i - (|ps| - k);
      assert qs[i] == ps[m] && (m < |ps| - 1 ==> ps[m] == s.procs[m + 1]);
    }
    HeadPid(qs[0]);
  }

  /** A call that changes the running process only. */
  lemma FirstRetired(s: State, t: State, pid: int)
    requires Shape(s) && Retired(s, pid) && s.nextPid <= t.nextPid && |t.procs| == |s.procs| && t.procs[1..] == s.procs[1..]
    requires s.procs[0].stopped ==> t.procs[0].stopped
    requires forall x :: x in t.procs[0].ring ==> x in s.procs[0].ring || x.pid == s.nextPid
    requires t.procs[0].gone.Unlinked? ==> t.procs[0].gone == s.procs[0].gone || t.procs[0].gone.thread in s.procs[0].ring
    ensures Retired(t, pid)
  {
    forall i | 0 <= i < |t.procs| && pid in Pids(t.procs[i]) ensures t.procs[i].stopped {
      if i > 0 {
        assert t.procs[i] == t.procs[1..][i - 1] == s.procs[i];
      } else {
        assert pid in Pids(s.procs[0]);
      }
    }
  }

  lemma CallRetired(s: State, e: Event, pid: int)
    requires Good(s) && Shape(s) && Enabled(s, e) && Retired(s, pid) && !e.Interrupt?
    ensures Retired(Apply(s, e), pid)
  {
    hide Good, Retired, Find;
    match e
    case Interrupt(_) =>
    case Spawned(esp) => SpawnRetired(s, esp, pid);
    case Forked(esp) =>
      assert Fork(s, esp).procs[0].ring == [s.procs[0].ring[0], Thread(s.nextPid, false, TIME_SLICE, esp)] + s.procs[0].ring[1..];
      FirstRetired(s, Fork(s, esp), pid);
    case ForkedWithoutMemory => FirstRetired(s, ForkWithoutMemory(s), pid);
    case ForkedWithoutFrames => FirstRetired(s, SpendPid(s), pid);
    case SpawnedWithoutMemory =>
    case SpawnedWithoutFrames => FirstRetired(s, SpendPid(s), pid);
    case ThreadStopped => FirstRetired(s, StopThread(s), pid);
    case ProcEnded => FirstRetired(s, EndProc(s), pid);
    case Removed(id) => RemoveRetired(s, id, pid);
  }

  lemma SpawnRetired(s: State, esp: nat, pid: int)
    requires Shape(s) && Retired(s, pid)
    ensures Retired(Spawn(s, esp), pid)
  {
    var ps := Spawn(s, esp).procs;
    assert Pids(ps[1]) == {s.nextPid};
    assert forall i :: 2 <= i < |ps| ==> ps[i] == s.procs[i - 1];
  }

  lemma RemoveRetired(s: State, id: int, pid: int)
    requires Retired(s, pid)
    ensures Retired(Remove(s, id), pid)
  {
    hide Find, Pids;
    assert forall p :: p in Remove(s, id).procs ==> p in s.procs;
  }

  /** A retired thread never runs again, in any run of calls and interrupts. */
  lemma {:induction false} RetiredNeverRuns(s: State, events: seq<Event>, pid: int)
    requires Good(s) && Retired(s, pid) && Legal(s, events)
    ensures !Ran(s, events, pid)
    decreases |events|
  {
    hide Good, Retired, Apply, Switch;
    if events != [] {
      GoodShape(s);
      var e := events[0];
      ApplyGood(s, e);
      if e.Interrupt? {
        InterruptRetired(s, e.esp, pid);
      } else {
        CallRetired(s, e, pid);
      }
      RetiredNeverRuns(Apply(s, e), events[1..], pid);
    }
  }

  lemma InterruptRetired(s: State, esp: nat, pid: int)
    requires Good(s) && Shape(s) && Enabled(s, Interrupt(esp)) && Retired(s, pid)
    ensures var t := Apply(s, Interrupt(esp));
            Shape(t) && Retired(t, pid) && (SliceEnds(s) ==> Running(t) != pid)
  {
    hide Switch, Pids;
    InterruptObserved(s, esp, []);
    if SliceEnds(s) {
      SwitchRetired(s, esp, pid);
    }
  }

  /** After end_proc no thread of the process ever runs again. */
  lemma EndedNeverRuns(s: State, events: seq<Event>, pid: int)
    requires Good(s) && Shape(s) && Enabled(s, ProcEnded) && pid in Pids(s.procs[0])
    requires Legal(Apply(s, ProcEnded), events)
    ensures !Ran(Apply(s, ProcEnded), events, pid)
  {
    EndRetires(s, pid);
    EndGood(s);
    hide Good, Retired;
    RetiredNeverRuns(EndProc(s), events, pid);
  }

  lemma EndRetires(s: State, pid: int)
    requires Good(s) && Shape(s) && pid in Pids(s.procs[0])
    ensures Retired(EndProc(s), pid)
  {
    PidsHandedOut(s.procs[0], s.nextPid);
    forall i | 0 < i < |s.procs| ensures pid !in Pids(s.procs[i]) {
      PidsApart(s, 0, i, pid);
    }
  }

  /** After stop_thread the caller never runs again.  The main thread of a process takes the whole process
      with it; any other thread leaves the process and the rest of its ring as they were. */
  lemma StopMeans(s: State, events: seq<Event>)
    requires Good(s) && Shape(s) && Enabled(s, ThreadStopped) && Legal(Apply(s, ThreadStopped), events)
    ensures var t, p := Apply(s, ThreadStopped), s.procs[0];
            && (forall pid :: pid in Pids(p) && (pid == p.ring[0].pid || p.ring[0].main) ==> !Ran(t, events, pid))
            && (!p.ring[0].main ==>
                  |t.procs| > 0 && t.procs[0].stopped == p.stopped && RingPids(t.procs[0].ring) == RingPids(p.ring)[1..])
  {
    var p := s.procs[0];
    StopGood(s);
    forall pid | pid in Pids(p) && (pid == p.ring[0].pid || p.ring[0].main) ensures !Ran(StopThread(s), events, pid) {
      if p.ring[0].main {
        EndedNeverRuns(s, events, pid);
      } else {
        StoppedNeverRuns(s, events);
      }
    }
  }

  /** A thread that is nowhere but still thread_list of the running process. */
  ghost predicate Leaving(s: State, pid: int) {
    && pid < s.nextPid
    && (forall i :: 1 <= i < |s.procs| ==> pid !in Pids(s.procs[i]))
    && |s.procs| > 0 && s.procs[0].gone.Unlinked? && s.procs[0].gone.thread.pid == pid
  }

  lemma StoppedNeverRuns(s: State, events: seq<Event>)
    requires Good(s) && Shape(s) && Enabled(s, ThreadStopped) && !s.procs[0].ring[0].main
    requires Legal(Apply(s, ThreadStopped), events)
    ensures !Ran(Apply(s, ThreadStopped), events, s.procs[0].ring[0].pid)
  {
    var pid := s.procs[0].ring[0].pid;
    StopGood(s);
    assert pid in Pids(s.procs[0]);
    forall i | 1 <= i < |s.procs| ensures pid !in Pids(s.procs[i]) {
      PidsApart(s, 0, i, pid);
    }
    PidsHandedOut(s.procs[0], s.nextPid);
    assert Leaving(StopThread(s), pid);
    hide Good, Leaving;
    LeavingNeverRuns(StopThread(s), events, pid);
  }

  /** Only interrupts can happen until it is gone. */
  lemma {:induction false} LeavingNeverRuns(s: State, events: seq<Event>, pid: int)
    requires Good(s) && Leaving(s, pid) && Legal(s, events)
    ensures !Ran(s, events, pid)
    decreases |events|
  {
    if events != [] {
      var e := events[0];
      assert e.Interrupt?;
      ApplyGood(s, e);
      GoodShape(s);
      hide Good, Switch, Pids;
      InterruptObserved(s, e.esp, []);
      if SliceEnds(s) {
        SwitchAbsent(s, e.esp, pid);
        AbsentHead(Switch(s, e.esp), pid);
        RetiredNeverRuns(Switch(s, e.esp), events[1..], pid);
      } else {
        LeavingNeverRuns(Apply(s, e), events[1..], pid);
      }
    }
  }
}
