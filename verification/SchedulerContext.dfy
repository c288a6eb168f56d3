/** Whose stack pointer the CPU gets back.  A run is observed from outside: which thread was born with
    which stack pointer, which one the processor was really executing when it was interrupted, and
    what schedule() handed back.  Context integrity says that a thread always resumes with the stack
    pointer it was last interrupted at. */
module SchedulerContext {
  import opened SchedulerModel

  datatype Obs =
    | Born(pid: int, esp: nat)
    | Out(pid: int, esp: nat)
    | In(pid: int, esp: nat)

  /** The thread the processor executes: the one last switched in. */
  function Cpu(log: seq<Obs>): int {
    if log == [] then 1
    else if log[|log| - 1].In? then log[|log| - 1].pid
    else Cpu(log[..|log| - 1])
  }

  /** The stack pointer a thread was last interrupted at, or born with; 0 if it never existed. */
  function LastSaved(log: seq<Obs>, pid: int): nat {
    if log == [] then 0
    else
      var o := log[|log| - 1];
      if !o.In? && o.pid == pid then o.esp else LastSaved(log[..|log| - 1], pid)
  }

  ghost function Observe(s: State, e: Event, log: seq<Obs>): seq<Obs>
    requires Shape(s) && Enabled(s, e)
  {
    match e
    case Interrupt(esp) =>
      if !SliceEnds(s) then log + [Out(Cpu(log), esp)] + [In(Cpu(log), Tick(s, esp).1)]
      else
        SwitchShape(s.(ticks := (s.ticks + 1) % TICK_RANGE), esp);
        log + [Out(Cpu(log), esp)] + [In(Head(Apply(s, e).procs[0]).pid, Tick(s, esp).1)]
    case Spawned(esp) => log + [Born(s.nextPid, esp)]
    case Forked(esp) => log + [Born(s.nextPid, esp)]
    case _ => log
  }

  /** Every return of the timer interrupt in the log, whether schedule() switched or not, hands back the last
      saved stack pointer. */
  ghost predicate Integrity(log: seq<Obs>) {
    forall i :: 0 <= i < |log| && log[i].In? ==> log[i].esp == LastSaved(log[..i], log[i].pid)
  }

  /** `list` and `thread_list` point at what the processor executes. */
  ghost predicate Aligned(s: State, log: seq<Obs>)
    requires Shape(s)
  {
    Cpu(log) == Head(s.procs[0]).pid
  }

  /** The esp_kernel of every thread in a ring is where it was last interrupted. */
  ghost predicate Filed(ts: seq<Thread>, log: seq<Obs>) {
    forall j :: 0 <= j < |ts| ==> ts[j].esp == LastSaved(log, ts[j].pid)
  }

  /** The same for all but the thread the processor executes, which is filed when it is switched out. */
  ghost predicate RingSaved(ts: seq<Thread>, log: seq<Obs>) {
    forall j :: 0 <= j < |ts| && ts[j].pid != Cpu(log) ==> ts[j].esp == LastSaved(log, ts[j].pid)
  }

  ghost predicate Saved(ps: seq<Proc>, log: seq<Obs>) {
    forall i :: 0 <= i < |ps| ==> RingSaved(ps[i].ring, log)
  }

  ghost predicate AllFiled(ps: seq<Proc>, log: seq<Obs>) {
    forall i :: 0 <= i < |ps| ==> Filed(ps[i].ring, log)
  }

  /** sched_remove_proc moves `list` to the successor of the removed process, so it leaves `list` on
      the caller only when the caller is that successor. */
  ghost predicate ListStays(s: State, e: Event)
    requires Shape(s)
  {
    e.Removed? ==>
      var k := Find(s.procs, e.id);
      k == |s.procs| || k == |s.procs| - 1
  }

  // ---------------------------------------------------------------- what an observation changes

  lemma Observed(log: seq<Obs>, o: Obs)
    ensures (log + [o])[..|log|] == log
    ensures Cpu(log + [o]) == if o.In? then o.pid else Cpu(log)
    ensures forall pid :: LastSaved(log + [o], pid) == if !o.In? && o.pid == pid then o.esp else LastSaved(log, pid)
  {
    assert (log + [o])[..|log|] == log;
  }

  lemma IntegrityExtends(log: seq<Obs>, o: Obs)
    requires Integrity(log) && (o.In? ==> o.esp == LastSaved(log, o.pid))
    ensures Integrity(log + [o])
  {
    var l := log + [o];
    forall i | 0 <= i < |l| && l[i].In? ensures l[i].esp == LastSaved(l[..i], l[i].pid) {
      assert l[..i] == log[..i];
    }
    assert log[..|log|] == log;
  }

  lemma OthersSaved(ts: seq<Thread>, log: seq<Obs>, o: Obs)
    requires RingSaved(ts, log) && !o.In? && (o.pid == Cpu(log) || forall j :: 0 <= j < |ts| ==> ts[j].pid != o.pid)
    ensures RingSaved(ts, log + [o])
  {
    Observed(log, o);
  }

  lemma FiledAfterIn(ts: seq<Thread>, log: seq<Obs>, o: Obs)
    requires Filed(ts, log) && o.In?
    ensures RingSaved(ts, log + [o])
  {
    Observed(log, o);
  }

  /** The threads of a process the processor is not in are filed, and stay so when its thread is saved. */
  lemma OthersFiled(p: Proc, log: seq<Obs>, esp: nat)
    requires RingSaved(p.ring, log) && Cpu(log) !in Pids(p)
    ensures Filed(p.ring, log + [Out(Cpu(log), esp)])
  {
    Observed(log, Out(Cpu(log), esp));
    assert forall j :: 0 <= j < |p.ring| ==> p.ring[j].pid in Pids(p);
  }

  lemma AdvanceSaved(p: Proc, esp: nat, nextPid: int, log: seq<Obs>)
    requires GoodProc(p, nextPid) && RingSaved(p.ring, log) && Cpu(log) == Head(p).pid
    ensures Filed(Advance(Save(p, esp)).ring, log + [Out(Cpu(log), esp)])
  {
    Observed(log, Out(Cpu(log), esp));
    var r := Advance(Save(p, esp)).ring;
    if p.gone.Nobody? {
      assert forall j :: 0 <= j < |r| ==>
        r[j] == if j + 1 < |r| then p.ring[j + 1] else p.ring[0].(esp := esp);
    }
  }

  lemma HeadPid(p: Proc)
    requires |p.ring| > 0
    ensures Head(p).pid in Pids(p)
  {}

  /** Saving the interrupted thread: the ring about to be searched is filed as the log says. */
  lemma AfterSaveSaved(s: State, esp: nat, log: seq<Obs>)
    requires Good(s) && Aligned(s, log) && Saved(s.procs, log)
    ensures AllFiled(AfterSave(s, esp), log + [Out(Cpu(log), esp)])
  {
    hide Save, Advance, RingSaved, Filed;
    var ps := AfterSave(s, esp);
    AdvanceSaved(s.procs[0], esp, s.nextPid, log);
    HeadPid(s.procs[0]);
    forall i | 0 <= i < |ps| - 1 ensures Filed(ps[i].ring, log + [Out(Cpu(log), esp)]) {
      OthersFiled(s.procs[i + 1], log, esp);
    }
  }

  lemma SwitchSaved(s: State, esp: nat, log: seq<Obs>)
    requires Good(s) && SomeActive(s.procs) && Aligned(s, log) && Saved(s.procs, log)
    ensures Shape(Switch(s, esp))
    ensures var out := log + [Out(Cpu(log), esp)];
            var h := Head(Switch(s, esp).procs[0]);
            AllFiled(Switch(s, esp).procs, out) && h.esp == LastSaved(out, h.pid)
  {
    ActiveAfterSave(s, esp);
    AfterSaveSaved(s, esp, log);
    SwitchGood(s, esp);
    hide GoodProcs, Filed, RingSaved;
    var ps := AfterSave(s, esp);
    var k, qs := FirstActive(ps), Switch(s, esp).procs;
    forall i | 0 <= i < |qs| ensures Filed(qs[i].ring, log + [Out(Cpu(log), esp)]) {
      assert qs[i] == ps[if i < |ps| - k then k + i else i - (|ps| - k)];
    }
    HeadFiled(qs[0], log + [Out(Cpu(log), esp)]);
  }

  lemma HeadFiled(p: Proc, log: seq<Obs>)
    requires |p.ring| > 0 && p.gone.Nobody? && Filed(p.ring, log)
    ensures Head(p).esp == LastSaved(log, Head(p).pid)
  {}

  /** An interrupt inside the slice, in any state: the interrupted thread gets its own stack pointer back. */
  lemma TickReturns(s: State, esp: nat, log: seq<Obs>)
    requires Shape(s) && Enabled(s, Interrupt(esp)) && !SliceEnds(s)
    ensures var l := Observe(s, Interrupt(esp), log);
            && l == log + [Out(Cpu(log), esp)] + [In(Cpu(log), esp)] && Cpu(l) == Cpu(log)
            && (forall pid :: LastSaved(l, pid) == if pid == Cpu(log) then esp else LastSaved(log, pid))
            && (Integrity(log) ==> Integrity(l))
  {
    var out := log + [Out(Cpu(log), esp)];
    Observed(log, Out(Cpu(log), esp));
    Observed(out, In(Cpu(log), esp));
    if Integrity(log) {
      IntegrityExtends(log, Out(Cpu(log), esp));
      IntegrityExtends(out, In(Cpu(log), esp));
    }
  }

  // ---------------------------------------------------------------- every operation, every run

  ghost predicate Consistent(s: State, log: seq<Obs>) {
    Good(s) && Aligned(s, log) && Saved(s.procs, log) && Integrity(log)
  }

  lemma BornSaved(s: State, esp: nat, log: seq<Obs>)
    requires Good(s) && Saved(s.procs, log)
    ensures Saved(s.procs, log + [Born(s.nextPid, esp)])
  {
    forall i | 0 <= i < |s.procs| ensures RingSaved(s.procs[i].ring, log + [Born(s.nextPid, esp)]) {
      assert GoodProc(s.procs[i], s.nextPid);
      OthersSaved(s.procs[i].ring, log, Born(s.nextPid, esp));
    }
  }

  lemma StepConsistent(s: State, e: Event, log: seq<Obs>)
    requires Consistent(s, log) && Enabled(s, e) && ListStays(s, e)
    ensures Consistent(Apply(s, e), Observe(s, e, log))
  {
    ApplyGood(s, e);
    match e
    case Interrupt(esp) =>
      if SliceEnds(s) {
        InterruptConsistent(s, esp, log);
      } else {
        TickConsistent(s, esp, log);
      }
    case Spawned(esp) =>
      BornSaved(s, esp, log);
      SpawnConsistent(s, esp, log);
    case Forked(esp) =>
      BornSaved(s, esp, log);
      ForkConsistent(s, esp, log);
    case ForkedWithoutMemory =>
    case ForkedWithoutFrames =>
    case SpawnedWithoutMemory =>
    case SpawnedWithoutFrames =>
    case ThreadStopped => StopConsistent(s, log);
    case ProcEnded =>
    case Removed(id) => RemoveConsistent(s, id, log);
  }

  lemma TickConsistent(s: State, esp: nat, log: seq<Obs>)
    requires Consistent(s, log) && !SliceEnds(s)
    ensures var t := Apply(s, Interrupt(esp));
            var l := Observe(s, Interrupt(esp), log);
            Shape(t) && Aligned(t, l) && Saved(t.procs, l) && Integrity(l)
  {
    TickReturns(s, esp, log);
    hide Good, Integrity;
  }

  lemma InterruptConsistent(s: State, esp: nat, log: seq<Obs>)
    requires Consistent(s, log) && SliceEnds(s) && SomeActive(s.procs)
    ensures var t := Apply(s, Interrupt(esp));
            var l := Observe(s, Interrupt(esp), log);
            Shape(t) && Aligned(t, l) && Saved(t.procs, l) && Integrity(l)
  {
    var s' := s.(ticks := (s.ticks + 1) % TICK_RANGE);
    SwitchShape(s', esp);
    SwitchSaved(s', esp, log);
    var t := Switch(s', esp);
    hide Good, RingSaved, Filed, Switch;
    var h := Head(t.procs[0]);
    var out := log + [Out(Cpu(log), esp)];
    IntegrityExtends(log, Out(Cpu(log), esp));
    IntegrityExtends(out, In(h.pid, h.esp));
    Observed(out, In(h.pid, h.esp));
    AllFiledAfterIn(t.procs, out, In(h.pid, h.esp));
  }

  lemma AllFiledAfterIn(ps: seq<Proc>, log: seq<Obs>, o: Obs)
    requires AllFiled(ps, log) && o.In?
    ensures Saved(ps, log + [o])
  {
    forall i | 0 <= i < |ps| ensures RingSaved(ps[i].ring, log + [o]) {
      FiledAfterIn(ps[i].ring, log, o);
    }
  }

  lemma SpawnConsistent(s: State, esp: nat, log: seq<Obs>)
    requires Consistent(s, log)
    requires Saved(s.procs, log + [Born(s.nextPid, esp)])
    ensures var t, l := Spawn(s, esp), log + [Born(s.nextPid, esp)];
            Shape(t) && Aligned(t, l) && Saved(t.procs, l) && Integrity(l)
  {
    var o := Born(s.nextPid, esp);
    Observed(log, o);
    IntegrityExtends(log, o);
    var ps := Spawn(s, esp).procs;
    assert ps[0] == s.procs[0] && forall i :: 2 <= i < |ps| ==> ps[i] == s.procs[i - 1];
  }

  lemma ForkConsistent(s: State, esp: nat, log: seq<Obs>)
    requires Consistent(s, log) && s.procs[0].gone.Nobody?
    requires Saved(s.procs, log + [Born(s.nextPid, esp)])
    ensures var t, l := Fork(s, esp), log + [Born(s.nextPid, esp)];
            Shape(t) && Aligned(t, l) && Saved(t.procs, l) && Integrity(l)
  {
    var o := Born(s.nextPid, esp);
    Observed(log, o);
    IntegrityExtends(log, o);
    var p, q := s.procs[0], Fork(s, esp).procs[0];
    assert q.ring[0] == p.ring[0] && forall j :: 2 <= j < |q.ring| ==> q.ring[j] == p.ring[j - 1];
    assert RingSaved(q.ring, log + [o]);
  }

  lemma StopConsistent(s: State, log: seq<Obs>)
    requires Consistent(s, log) && s.procs[0].gone.Nobody?
    ensures var t := StopThread(s);
            Shape(t) && Aligned(t, log) && Saved(t.procs, log)
  {
    StopGood(s);
    var p := s.procs[0];
    assert RingSaved(p.ring[1..], log);
  }

  lemma RemoveConsistent(s: State, id: int, log: seq<Obs>)
    requires Consistent(s, log) && Enabled(s, Removed(id)) && ListStays(s, Removed(id))
    ensures var t := Remove(s, id);
            Shape(t) && Aligned(t, log) && Saved(t.procs, log)
  {
    RemoveGood(s, id);
    var k := Find(s.procs, id);
    if k < |s.procs| {
      assert Remove(s, id).procs == s.procs[..k];
    }
  }

  ghost predicate Legal(s: State, events: seq<Event>)
    decreases |events|
  {
    events == [] ||
    (Good(s) && Enabled(s, events[0]) && Legal(Apply(s, events[0]), events[1..]))
  }

  /** Every removal on the way leaves `list` on its caller. */
  ghost predicate ListStaysThroughout(s: State, events: seq<Event>)
    requires Legal(s, events)
    decreases |events|
  {
    events == [] ||
    (ListStays(s, events[0]) && ListStaysThroughout(Apply(s, events[0]), events[1..]))
  }

  ghost function Final(s: State, events: seq<Event>): State
    requires Legal(s, events)
    decreases |events|
  {
    if events == [] then s else Final(Apply(s, events[0]), events[1..])
  }

  ghost function Observations(s: State, events: seq<Event>, log: seq<Obs>): seq<Obs>
    requires Legal(s, events)
    decreases |events|
  {
    if events == [] then log
    else Observations(Apply(s, events[0]), events[1..], Observe(s, events[0], log))
  }

  lemma {:induction false} RunConsistent(s: State, events: seq<Event>, log: seq<Obs>)
    requires Consistent(s, log) && Legal(s, events) && ListStaysThroughout(s, events)
    ensures Consistent(Final(s, events), Observations(s, events, log))
    decreases |events|
  {
    hide Consistent, Apply, Observe;
    if events != [] {
      StepConsistent(s, events[0], log);
      RunConsistent(Apply(s, events[0]), events[1..], Observe(s, events[0], log));
    }
  }

  /** Context integrity: in every run from sched_init, for any interleaving of interrupts, process
      and thread creation, exits and removals that leave `list` on their caller, each return of the
      timer interrupt hands a thread the stack pointer it was last interrupted at or born with. */
  lemma ContextIntegrity(s: State, events: seq<Event>)
    requires Initial(s) && Legal(s, events) && ListStaysThroughout(s, events)
    ensures var esp := s.procs[0].ring[0].esp;
            Integrity(Observations(s, events, [Born(1, esp), In(1, esp)]))
  {
    InitialConsistent(s);
    var esp := s.procs[0].ring[0].esp;
    RunConsistent(s, events, [Born(1, esp), In(1, esp)]);
  }

  lemma InitialConsistent(s: State)
    requires Initial(s)
    ensures var esp := s.procs[0].ring[0].esp;
            Consistent(s, [Born(1, esp), In(1, esp)])
  {
    InitialGood(s);
    var esp := s.procs[0].ring[0].esp;
    var born := [Born(1, esp)];
    assert [Born(1, esp), In(1, esp)] == born + [In(1, esp)];
    Observed([], Born(1, esp));
    Observed(born, In(1, esp));
    assert [] + born == born;
    IntegrityExtends(born, In(1, esp));
  }

  // ---------------------------------------------------------------- a stopped thread stays gone

  ghost predicate Absent(s: State, pid: int) {
    pid < s.nextPid && forall i :: 0 <= i < |s.procs| ==> pid !in Pids(s.procs[i])
  }

  lemma AdvanceDrops(p: Proc, esp: nat, nextPid: int, pid: int)
    requires GoodProc(p, nextPid)
    requires pid !in Pids(p) || (p.gone.Unlinked? && p.gone.thread.pid == pid)
    ensures pid !in Pids(Advance(Save(p, esp)))
  {
    AdvanceGood(p, esp, nextPid);
    if p.gone.Unlinked? {
      assert Advance(Save(p, esp)).ring == p.ring;
    }
  }

  lemma SwitchAbsent(s: State, esp: nat, pid: int)
    requires Good(s) && SomeActive(s.procs)
    requires Absent(s, pid) || (s.procs[0].gone.Unlinked? && s.procs[0].gone.thread.pid == pid)
    ensures Absent(Switch(s, esp), pid)
  {
    hide Pids, GoodProc, Advance, Save, FirstActive;
    GoodShape(s);
    ActiveAfterSave(s, esp);
    DropsFirst(s, esp, pid);
    var ps := AfterSave(s, esp);
    var k, qs := FirstActive(ps), Switch(s, esp).procs;
    forall i | 0 <= i < |qs| ensures pid !in Pids(qs[i]) {
      assert qs[i] == ps[if i < |ps| - k then k + i else i - (|ps| - k)];
    }
  }

  lemma DropsFirst(s: State, esp: nat, pid: int)
    requires Good(s)
    requires Absent(s, pid) || (s.procs[0].gone.Unlinked? && s.procs[0].gone.thread.pid == pid)
    ensures pid < s.nextPid
    ensures forall i :: 0 <= i < |s.procs| ==> pid !in Pids(AfterSave(s, esp)[i])
  {
    AdvanceDrops(s.procs[0], esp, s.nextPid, pid);
    assert Absent(s, pid) || pid in Pids(s.procs[0]);
    hide Advance, Save;
    var ps := AfterSave(s, esp);
    assert forall i :: 0 <= i < |ps| - 1 ==> ps[i] == s.procs[i + 1];
  }

  lemma CallAbsent(s: State, e: Event, pid: int)
    requires Good(s) && Enabled(s, e) && Absent(s, pid) && !e.Interrupt?
    ensures Absent(Apply(s, e), pid)
  {
    hide Good, Absent;
    GoodShape(s);
    match e
    case Interrupt(_) =>
    case Spawned(esp) => SpawnAbsent(s, esp, pid);
    case Forked(esp) =>
      assert Fork(s, esp).procs[0].ring == [s.procs[0].ring[0], Thread(s.nextPid, false, TIME_SLICE, esp)] + s.procs[0].ring[1..];
      FirstAbsent(s, Fork(s, esp), pid);
    case ForkedWithoutMemory => FirstAbsent(s, ForkWithoutMemory(s), pid);
    case ForkedWithoutFrames => FirstAbsent(s, SpendPid(s), pid);
    case SpawnedWithoutMemory =>
    case SpawnedWithoutFrames => FirstAbsent(s, SpendPid(s), pid);
    case ThreadStopped => FirstAbsent(s, StopThread(s), pid);
    case ProcEnded => FirstAbsent(s, EndProc(s), pid);
    case Removed(id) => RemoveAbsent(s, id, pid);
  }

  lemma SpawnAbsent(s: State, esp: nat, pid: int)
    requires Shape(s) && Absent(s, pid)
    ensures Absent(Spawn(s, esp), pid)
  {
    var ps := Spawn(s, esp).procs;
    assert forall i :: 2 <= i < |ps| ==> ps[i] == s.procs[i - 1];
  }

  /** A step that changes the running process only, and adds at most a thread with the next pid to it. */
  lemma FirstAbsent(s: State, t: State, pid: int)
    requires Shape(s) && Absent(s, pid) && s.nextPid <= t.nextPid && |t.procs| == |s.procs| && t.procs[1..] == s.procs[1..]
    requires forall x :: x in t.procs[0].ring ==> x in s.procs[0].ring || x.pid == s.nextPid
    requires t.procs[0].gone.Unlinked? ==> t.procs[0].gone == s.procs[0].gone || t.procs[0].gone.thread in s.procs[0].ring
    ensures Absent(t, pid)
  {
    forall i | 0 <= i < |t.procs| ensures pid !in Pids(t.procs[i]) {
      if i > 0 {
        assert t.procs[i] == t.procs[1..][i - 1] == s.procs[i];
      }
    }
  }

  lemma RemoveAbsent(s: State, id: int, pid: int)
    requires Absent(s, pid)
    ensures Absent(Remove(s, id), pid)
  {
    hide Find, Pids;
    assert forall p :: p in Remove(s, id).procs ==> p in s.procs;
  }

  lemma StepAbsent(s: State, e: Event, pid: int)
    requires Good(s) && Enabled(s, e) && Absent(s, pid)
    ensures Absent(Apply(s, e), pid)
  {
    if !e.Interrupt? {
      CallAbsent(s, e, pid);
    } else if SliceEnds(s) {
      SwitchAbsent(s.(ticks := (s.ticks + 1) % TICK_RANGE), e.esp, pid);
    }
  }

  lemma {:induction false} RunAbsent(s: State, events: seq<Event>, pid: int)
    requires Good(s) && Legal(s, events) && Absent(s, pid)
    ensures Good(Final(s, events)) && Absent(Final(s, events), pid)
    decreases |events|
  {
    hide Absent, Apply;
    if events != [] {
      StepAbsent(s, events[0], pid);
      ApplyGood(s, events[0]);
      RunAbsent(Apply(s, events[0]), events[1..], pid);
    }
  }

  /** After stop_thread, `thread_list` is off the ring; one switch puts it back on, and the stopped
      thread is in no ring and never runs in any continuation. */
  lemma {:induction false} StoppedThreadGone(s: State, esp: nat, events: seq<Event>)
    requires Good(s) && Enabled(s, ThreadStopped) && !s.procs[0].ring[0].main
    requires SomeActive(s.procs)
    ensures SomeActive(StopThread(s).procs) && StopThread(s).procs[0].gone.Unlinked?
    ensures Good(StopThread(s))
    ensures var u := Switch(StopThread(s), esp);
            Good(u) && AllJoined(u.procs)
    ensures var u, pid := Switch(StopThread(s), esp), s.procs[0].ring[0].pid;
            Legal(u, events) ==>
              var v := Final(u, events);
              Shape(v) && Absent(v, pid) && Head(v.procs[0]).pid != pid
  {
    StopGood(s);
    var t, pid := StopThread(s), s.procs[0].ring[0].pid;
    assert forall i :: 0 <= i < |s.procs| ==> t.procs[i].stopped == s.procs[i].stopped;
    var i :| 0 <= i < |s.procs| && !s.procs[i].stopped;
    assert !t.procs[i].stopped;
    hide Switch, Pids, Find;
    SwitchGood(t, esp);
    SwitchAbsent(t, esp, pid);
    var u := Switch(t, esp);
    if Legal(u, events) {
      RunAbsent(u, events, pid);
      AbsentHead(Final(u, events), pid);
    }
  }

  lemma AbsentHead(s: State, pid: int)
    requires Shape(s) && Absent(s, pid)
    ensures Head(s.procs[0]).pid != pid
  {
    assert Head(s.procs[0]).pid in Pids(s.procs[0]);
  }
}
