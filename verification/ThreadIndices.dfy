/** The index that start_thread of proc/thread.c builds a thread's stack and heap with is its process's
    count of threads, which never goes down; so the pages of two threads started by one process are
    apart, whatever happens in between. */
module ThreadIndices {
  import opened SchedulerModel
  import opened SchedulerContext
  import opened ProcessMemory

  /** A process is known by the pid of its main thread. */
  ghost predicate HasMain(p: Proc, id: int) {
    exists j :: 0 <= j < |p.ring| && p.ring[j].main && p.ring[j].pid == id
  }

  lemma AdvanceMain(p: Proc, esp: nat, id: int)
    requires |p.ring| > 0 && HasMain(Advance(Save(p, esp)), id)
    ensures HasMain(p, id) && Advance(Save(p, esp)).count == p.count
  {
    var q := Advance(Save(p, esp));
    var j :| 0 <= j < |q.ring| && q.ring[j].main && q.ring[j].pid == id;
    var i := if p.gone.Unlinked? then j else if j + 1 < |p.ring| then j + 1 else 0;
    assert p.ring[i].main && p.ring[i].pid == id;
  }

  /** Where a process was before a switch. */
  lemma SwitchOrigin(s: State, esp: nat, id: int, j: nat) returns (i: nat)
    requires Good(s) && SomeActive(s.procs) && j < |Switch(s, esp).procs| && HasMain(Switch(s, esp).procs[j], id)
    ensures i < |s.procs| && HasMain(s.procs[i], id) && Switch(s, esp).procs[j].count == s.procs[i].count
  {
    hide HasMain, Advance, Save, FirstActive, GoodProcs;
    GoodShape(s);
    ActiveAfterSave(s, esp);
    var ps, qs := AfterSave(s, esp), Switch(s, esp).procs;
    var k := FirstActive(ps);
    var m := if j < |ps| - k then k + j else j - (|ps| - k);
    assert qs[j] == ps[m];
    if m == |ps| - 1 {
      AdvanceMain(s.procs[0], esp, id);
      i := 0;
    } else {
      i := m + 1;
      assert ps[m] == s.procs[i];
    }
  }

  lemma ForkOrigin(s: State, esp: nat, id: int, j: nat)
    requires Shape(s) && j < |s.procs| && HasMain(Fork(s, esp).procs[j], id)
    ensures HasMain(s.procs[j], id)
  {
    var p, q := s.procs[j], Fork(s, esp).procs[j];
    var x :| 0 <= x < |q.ring| && q.ring[x].main && q.ring[x].pid == id;
    assert p.ring[if j == 0 && x > 1 then x - 1 else x].main;
  }

  lemma StopOrigin(s: State, id: int, j: nat)
    requires Shape(s) && j < |s.procs| && HasMain(StopThread(s).procs[j], id)
    ensures HasMain(s.procs[j], id)
  {
    var p, q := s.procs[j], StopThread(s).procs[j];
    var x :| 0 <= x < |q.ring| && q.ring[x].main && q.ring[x].pid == id;
    assert p.ring[if |q.ring| < |p.ring| then x + 1 else x].main;
  }

  lemma EndOrigin(s: State, id: int, j: nat)
    requires Shape(s) && j < |s.procs| && HasMain(EndProc(s).procs[j], id)
    ensures HasMain(s.procs[j], id)
  {}

  lemma SpawnOrigin(s: State, esp: nat, id: int, j: nat) returns (i: nat)
    requires Shape(s) && id < s.nextPid && j < |Spawn(s, esp).procs| && HasMain(Spawn(s, esp).procs[j], id)
    ensures i < |s.procs| && s.procs[i] == Spawn(s, esp).procs[j]
  {
    i := if j == 0 then 0 else j - 1;
  }

  lemma RemoveOrigin(s: State, r: int, j: nat) returns (i: nat)
    requires j < |Remove(s, r).procs|
    ensures i < |s.procs| && s.procs[i] == Remove(s, r).procs[j]
  {
    var n, k := |s.procs|, Find(s.procs, r);
    i := if k == n then j else if j < n - k - 1 then j + k + 1 else j - (n - k - 1);
  }

  /** Where a process was before a call. */
  lemma CallOrigin(s: State, e: Event, id: int, j: nat) returns (i: nat)
    requires Shape(s) && Enabled(s, e) && !e.Interrupt? && id < s.nextPid
    requires j < |Apply(s, e).procs| && HasMain(Apply(s, e).procs[j], id)
    ensures i < |s.procs| && HasMain(s.procs[i], id)
    ensures Apply(s, e).procs[j].count == s.procs[i].count + if e.Forked? && i == 0 then 1 else 0
  {
    hide Find, HasMain;
    i := j;
    match e
    case Interrupt(_) =>
    case Spawned(esp) => i := SpawnOrigin(s, esp, id, j);
    case Forked(esp) => ForkOrigin(s, esp, id, j);
    case ForkedWithoutMemory =>
    case ForkedWithoutFrames =>
    case SpawnedWithoutMemory =>
    case SpawnedWithoutFrames =>
    case ThreadStopped => StopOrigin(s, id, j);
    case ProcEnded => EndOrigin(s, id, j);
    case Removed(r) => i := RemoveOrigin(s, r, j);
  }

  /** Whether this is the process starting a thread. */
  ghost function Starts(s: State, e: Event, id: int): nat
    requires Shape(s)
  {
    if e.Forked? && HasMain(s.procs[0], id) then 1 else 0
  }

  /** The threads a process starts in a run. */
  ghost function Started(s: State, events: seq<Event>, id: int): nat
    requires Legal(s, events)
    decreases |events|
  {
    if events == [] then 0
    else
      GoodShape(s);
      Starts(s, events[0], id) + Started(Apply(s, events[0]), events[1..], id)
  }

  lemma Origin(s: State, e: Event, id: int, j: nat) returns (i: nat)
    requires Good(s) && Enabled(s, e) && id < s.nextPid
    requires j < |Apply(s, e).procs| && HasMain(Apply(s, e).procs[j], id)
    ensures i < |s.procs| && HasMain(s.procs[i], id) && Apply(s, e).procs[j].count == s.procs[i].count + Starts(s, e, id)
    ensures s.nextPid <= Apply(s, e).nextPid
  {
    if !e.Interrupt? {
      i := CallOrigin(s, e, id, j);
      if HasMain(s.procs[0], id) {
        OneMain(s, id, i, 0);
      }
    } else if SliceEnds(s) {
      i := SwitchOrigin(s.(ticks := (s.ticks + 1) % TICK_RANGE), e.esp, id, j);
    } else {
      i := j;
    }
  }

  /** A run adds to a process's count exactly the threads it starts: none is taken off when one stops. */
  lemma {:induction false} RunOrigin(s: State, events: seq<Event>, id: int, j: nat) returns (i: nat)
    requires Good(s) && Legal(s, events) && id < s.nextPid
    requires j < |Final(s, events).procs| && HasMain(Final(s, events).procs[j], id)
    ensures i < |s.procs| && HasMain(s.procs[i], id) && Final(s, events).procs[j].count == s.procs[i].count + Started(s, events, id)
    decreases |events|
  {
    hide Good, HasMain, Apply, Enabled;
    if events == [] {
      i := j;
    } else {
      GoodShape(s);
      ApplyGood(s, events[0]);
      NextPidGrows(s, events[0]);
      i := RunOrigin(Apply(s, events[0]), events[1..], id, j);
      i := Origin(s, events[0], id, i);
    }
  }

  /** So at any time the count of a process that start_proc has started is one more than the threads it has
      started since. */
  lemma CountSinceStart(s: State, esp: nat, events: seq<Event>, j: nat)
    requires Good(s) && Enabled(s, Spawned(esp)) && Legal(Apply(s, Spawned(esp)), events)
    requires var t := Apply(s, Spawned(esp)); j < |Final(t, events).procs| && HasMain(Final(t, events).procs[j], s.nextPid)
    ensures var t := Apply(s, Spawned(esp)); Final(t, events).procs[j].count == 1 + Started(t, events, s.nextPid)
  {
    var t := Apply(s, Spawned(esp));
    ApplyGood(s, Spawned(esp));
    var i := RunOrigin(t, events, s.nextPid, j);
    assert HasMain(t.procs[1], s.nextPid) by {
      assert t.procs[1].ring[0].main && t.procs[1].ring[0].pid == s.nextPid;
    }
    OneMain(t, s.nextPid, i, 1);
  }

  lemma NextPidGrows(s: State, e: Event)
    requires Good(s) && Enabled(s, e)
    ensures s.nextPid <= Apply(s, e).nextPid
  {}

  /** Two threads started by one process: whenever after the first the same process is running again and
      starts another, the pages of the two, and of its main thread, are apart.  start_thread builds with one
      more than the count, start_proc with 0. */
  lemma StartedApart(s: State, esp: nat, events: seq<Event>, id: int)
    requires Good(s) && Enabled(s, Forked(esp)) && Legal(Apply(s, Forked(esp)), events)
    requires HasMain(s.procs[0], id)
    ensures Shape(Final(Apply(s, Forked(esp)), events))
    ensures var v := Final(Apply(s, Forked(esp)), events);
            HasMain(v.procs[0], id) ==>
              var m, n := s.procs[0].count + 1, v.procs[0].count + 1;
              0 < m < n && ThreadPages(m) !! ThreadPages(n) && ThreadPages(0) !! ThreadPages(m) + ThreadPages(n)
  {
    hide Good, Apply, Legal, Final, HasMain, ThreadPages;
    GoodShape(s);
    ApplyGood(s, Forked(esp));
    var t := Apply(s, Forked(esp));
    FinalGood(t, events);
    GoodShape(Final(t, events));
    if HasMain(Final(t, events).procs[0], id) {
      CountHasGrown(s, esp, events, id);
      AllApart(s.procs[0].count, Final(t, events).procs[0].count);
    }
  }

  lemma AllApart(a: int, b: int)
    requires 0 <= a < b
    ensures ThreadPages(a + 1) !! ThreadPages(b + 1) && ThreadPages(0) !! ThreadPages(a + 1) + ThreadPages(b + 1)
  {
    hide ThreadPages;
    ThreadsApart(a + 1, b + 1);
    ThreadsApart(0, a + 1);
    ThreadsApart(0, b + 1);
  }

  lemma CountHasGrown(s: State, esp: nat, events: seq<Event>, id: int)
    requires Good(s) && Enabled(s, Forked(esp)) && Legal(Apply(s, Forked(esp)), events)
    requires HasMain(s.procs[0], id) && Shape(Final(Apply(s, Forked(esp)), events))
    requires HasMain(Final(Apply(s, Forked(esp)), events).procs[0], id)
    ensures 0 <= s.procs[0].count < Final(Apply(s, Forked(esp)), events).procs[0].count
  {
    hide Legal, Final, HasMain;
    ApplyGood(s, Forked(esp));
    var t := Apply(s, Forked(esp));
    MainsHandedOut(s, id);
    var i := RunOrigin(t, events, id, 0);
    ForkKeepsMain(s, esp, id);
    OneMain(t, id, i, 0);
  }

  lemma ForkKeepsMain(s: State, esp: nat, id: int)
    requires Shape(s) && HasMain(s.procs[0], id)
    ensures HasMain(Fork(s, esp).procs[0], id)
  {
    var j :| 0 <= j < |s.procs[0].ring| && s.procs[0].ring[j].main && s.procs[0].ring[j].pid == id;
    assert Fork(s, esp).procs[0].ring[if j == 0 then 0 else j + 1].main;
  }

  lemma {:induction false} FinalGood(s: State, events: seq<Event>)
    requires Good(s) && Legal(s, events)
    ensures Good(Final(s, events))
    decreases |events|
  {
    hide Good, Apply, Enabled;
    if events != [] {
      GoodShape(s);
      ApplyGood(s, events[0]);
      FinalGood(Apply(s, events[0]), events[1..]);
    }
  }

  lemma MainsHandedOut(s: State, id: int)
    requires Good(s) && HasMain(s.procs[0], id)
    ensures id < s.nextPid
  {}

  lemma OneMain(s: State, id: int, i: nat, j: nat)
    requires Good(s) && i < |s.procs| && j < |s.procs| && HasMain(s.procs[i], id) && HasMain(s.procs[j], id)
    ensures i == j
  {
    assert id in Pids(s.procs[i]) && id in Pids(s.procs[j]);
  }
}
