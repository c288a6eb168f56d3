/** What a removal that moves `list` off its caller does to the stack pointers schedule() hands back
    later: exactly when some run after it resumes a thread with a context that is not its own. */
module SchedulerRemoval {
  import opened SchedulerModel
  import opened SchedulerContext
  import opened SchedulerLatency

  function Interrupts(esps: seq<nat>): (es: seq<Event>)
    ensures |es| == |esps|
  {
    seq(|esps|, i requires 0 <= i < |esps| => Interrupt(esps[i]))
  }

  /** Some run of nothing but interrupts ends with a wrong return of schedule(). */
  ghost predicate Breaks(s: State, log: seq<Obs>) {
    exists esps: seq<nat> :: Broken(s, esps, log)
  }

  ghost predicate Broken(s: State, esps: seq<nat>, log: seq<Obs>) {
    Legal(s, Interrupts(esps)) && !Integrity(Observations(s, Interrupts(esps), log))
  }

  /** Some run of any calls and interrupts ends with a wrong return of schedule(), although no further
      removal moves `list`. */
  ghost predicate EverBreaks(s: State, log: seq<Obs>) {
    exists events: seq<Event> :: BrokenBy(s, events, log)
  }

  ghost predicate BrokenBy(s: State, events: seq<Event>, log: seq<Obs>) {
    Legal(s, events) && ListStaysThroughout(s, events) && !Integrity(Observations(s, events, log))
  }

  /** What the caller can see before a removal: `list` will move to another process, and either that
      process or the caller's own goes on running. */
  predicate Harmful(s: State, id: int) {
    var k := Find(s.procs, id);
    k + 1 < |s.procs| && (!s.procs[k + 1].stopped || (k != 0 && !s.procs[0].stopped))
  }

  // ---------------------------------------------------------------- runs of interrupts

  lemma InterruptsStep(esps: seq<nat>)
    requires esps != []
    ensures Interrupts(esps) == [Interrupt(esps[0])] + Interrupts(esps[1..])
  {}

  lemma InterruptsSplit(a: seq<nat>, b: seq<nat>)
    ensures Interrupts(a + b) == Interrupts(a) + Interrupts(b)
  {}

  lemma {:induction false} RunSplit(s: State, a: seq<Event>, b: seq<Event>, log: seq<Obs>)
    requires Legal(s, a) && Legal(Final(s, a), b)
    ensures Legal(s, a + b)
    ensures Observations(s, a + b, log) == Observations(Final(s, a), b, Observations(s, a, log))
    decreases |a|
  {
    hide Good, Apply, Enabled, Observe;
    if a == [] {
      assert a + b == b;
    } else {
      GoodShape(s);
      assert (a + b)[1..] == a[1..] + b && (a + b)[0] == a[0];
      RunSplit(Apply(s, a[0]), a[1..], b, Observe(s, a[0], log));
    }
  }

  lemma {:induction false} ObservationsExtend(s: State, events: seq<Event>, log: seq<Obs>)
    requires Legal(s, events)
    ensures log <= Observations(s, events, log)
    decreases |events|
  {
    hide Good, Apply, Enabled;
    if events != [] {
      GoodShape(s);
      ObserveExtends(s, events[0], log);
      ObservationsExtend(Apply(s, events[0]), events[1..], Observe(s, events[0], log));
    }
  }

  lemma ObserveExtends(s: State, e: Event, log: seq<Obs>)
    requires Shape(s) && Enabled(s, e)
    ensures log <= Observe(s, e, log)
  {}

  /** A wrong return stays in the log. */
  lemma BrokenStays(log: seq<Obs>, more: seq<Obs>)
    requires log <= more && !Integrity(log)
    ensures !Integrity(more)
  {
    var i :| 0 <= i < |log| && log[i].In? && log[i].esp != LastSaved(log[..i], log[i].pid);
    assert more[..i] == log[..i] && more[i] == log[i];
  }

  /** One interrupt, seen from outside. */
  lemma InterruptObserved(s: State, esp: nat, log: seq<Obs>)
    requires Good(s) && Enabled(s, Interrupt(esp))
    ensures Shape(s) && Apply(s, Interrupt(esp)) == Tick(s, esp).0
    ensures !SliceEnds(s) ==>
              && Tick(s, esp).0 == s.(ticks := (s.ticks + 1) % TICK_RANGE)
              && Observe(s, Interrupt(esp), log) == log + [Out(Cpu(log), esp)] + [In(Cpu(log), esp)]
    ensures SliceEnds(s) ==>
              && SomeActive(s.procs) && Tick(s, esp).0 == Switch(s, esp) && Shape(Switch(s, esp))
              && var h := Head(Switch(s, esp).procs[0]);
                 Observe(s, Interrupt(esp), log) == log + [Out(Cpu(log), esp)] + [In(h.pid, h.esp)]
  {
    if SliceEnds(s) {
      SwitchForgetsTicks(s, (s.ticks + 1) % TICK_RANGE, esp);
      SwitchShape(s, esp);
    }
  }

  /** What interrupts inside a slice leave of a log: `l` is `log` and after it the interrupted thread only. */
  ghost predicate Extends(log: seq<Obs>, l: seq<Obs>) {
    && log <= l && Cpu(l) == Cpu(log) && (Integrity(log) ==> Integrity(l))
    && forall pid :: pid != Cpu(log) ==> LastSaved(l, pid) == LastSaved(log, pid)
  }

  /** Interrupts that all deliver `esp` until the slice ends. */
  lemma {:induction false} FirstSwitch(s: State, esp: nat, log: seq<Obs>) returns (esps: seq<nat>, l: seq<Obs>)
    requires Good(s) && SomeActive(s.procs) && s.on
    ensures Legal(s, Interrupts(esps)) && Final(s, Interrupts(esps)) == Switch(s, esp) && Shape(Switch(s, esp))
    ensures var h := Head(Switch(s, esp).procs[0]);
            Extends(log, l) && Observations(s, Interrupts(esps), log) == l + [Out(Cpu(l), esp)] + [In(h.pid, h.esp)]
    decreases TicksToSwitch(s.ticks)
  {
    hide Good, Switch, Tick, SomeActive, Observe, Apply, Integrity;
    GoodShape(s);
    EnabledWhenActive(s, esp);
    InterruptObserved(s, esp, log);
    ApplyGood(s, Interrupt(esp));
    var t := Tick(s, esp).0;
    if SliceEnds(s) {
      esps, l := [esp], log;
      InterruptsStep(esps);
      assert Interrupts(esps)[1..] == [];
    } else {
      FewerTicks(s);
      TickReturns(s, esp, log);
      esps, l := FirstSwitch(t, esp, Observe(s, Interrupt(esp), log));
      SwitchForgetsTicks(s, t.ticks, esp);
      InterruptsStep([esp] + esps);
      assert ([esp] + esps)[1..] == esps;
      assert Interrupts([esp] + esps)[1..] == Interrupts(esps);
      esps := [esp] + esps;
    }
  }

  lemma EnabledWhenActive(s: State, esp: nat)
    requires Shape(s) && SomeActive(s.procs)
    ensures Enabled(s, Interrupt(esp))
  {}

  lemma FewerTicks(s: State)
    requires Good(s) && s.on && !SliceEnds(s)
    ensures TicksToSwitch((s.ticks + 1) % TICK_RANGE) < TicksToSwitch(s.ticks)
  {}

  // ---------------------------------------------------------------- a stale thread is resumed wrongly

  /** A thread that can run again and is filed with a stack pointer that is not its last. */
  ghost predicate StaleIn(p: Proc, log: seq<Obs>, pid: int) {
    !p.stopped && exists j :: 0 <= j < |p.ring| && p.ring[j].pid == pid && p.ring[j].esp != LastSaved(log, pid)
  }

  ghost predicate Stale(ps: seq<Proc>, log: seq<Obs>, pid: int) {
    exists i :: 0 <= i < |ps| && StaleIn(ps[i], log, pid)
  }

  lemma StaleActive(ps: seq<Proc>, log: seq<Obs>, pid: int)
    requires Stale(ps, log, pid)
    ensures SomeActive(ps)
  {
    var i :| 0 <= i < |ps| && StaleIn(ps[i], log, pid);
    assert !ps[i].stopped;
  }

  lemma StaleAfterSwitch(s: State, esp: nat, log: seq<Obs>, pid: int)
    requires Shape(s) && SomeActive(s.procs) && Stale(AfterSave(s, esp), log, pid)
    ensures Stale(Switch(s, esp).procs, log, pid)
  {
    hide StaleIn, AfterSave;
    ActiveAfterSave(s, esp);
    var ps, qs := AfterSave(s, esp), Switch(s, esp).procs;
    var k := FirstActive(ps);
    var i :| 0 <= i < |ps| && StaleIn(ps[i], log, pid);
    assert qs[if i >= k then i - k else i + |ps| - k] == ps[i];
  }

  /** Pids are unique, so a stale pid at the head is the stale thread. */
  lemma StaleHead(s: State, log: seq<Obs>, pid: int)
    requires Good(s) && Stale(s.procs, log, pid) && s.procs[0].gone.Nobody? && Head(s.procs[0]).pid == pid
    ensures Head(s.procs[0]).esp != LastSaved(log, pid)
  {
    var i :| 0 <= i < |s.procs| && StaleIn(s.procs[i], log, pid);
    assert pid in Pids(s.procs[i]) && pid in Pids(s.procs[0]);
    assert i == 0;
  }

  /** The outcome of switching while a thread is stale: it is resumed wrongly, or is still stale. */
  lemma SwitchStale(s: State, esp: nat, log: seq<Obs>, pid: int)
    requires Good(s) && SomeActive(s.procs) && Stale(AfterSave(s, esp), log + [Out(Cpu(log), esp)], pid)
    ensures Good(Switch(s, esp)) && Shape(Switch(s, esp)) && SomeActive(Switch(s, esp).procs)
    ensures var u := Switch(s, esp);
            var h := Head(u.procs[0]);
            var l := log + [Out(Cpu(log), esp)] + [In(h.pid, h.esp)];
            Aligned(u, l) && (!Integrity(l) || (Stale(u.procs, l, pid) && Running(u) != pid))
  {
    SwitchGood(s, esp);
    SwitchShape(s, esp);
    hide GoodProcs, Switch, StaleIn, AfterSave;
    var u := Switch(s, esp);
    var h, out := Head(u.procs[0]), log + [Out(Cpu(log), esp)];
    StaleAfterSwitch(s, esp, out, pid);
    StaleActive(u.procs, out, pid);
    Observed(out, In(h.pid, h.esp));
    StaleAfterIn(u.procs, out, In(h.pid, h.esp), pid);
    if h.pid == pid {
      StaleHead(u, out, pid);
      var l := out + [In(h.pid, h.esp)];
      assert l[|out|].In? && l[..|out|] == out;
    }
  }

  lemma StaleAfterIn(ps: seq<Proc>, log: seq<Obs>, o: Obs, pid: int)
    requires Stale(ps, log, pid) && o.In?
    ensures Stale(ps, log + [o], pid)
  {
    Observed(log, o);
    var i :| 0 <= i < |ps| && StaleIn(ps[i], log, pid);
    assert StaleIn(ps[i], log + [o], pid);
  }

  /** Saving some other thread leaves a stale thread stale. */
  lemma SaveStale(s: State, esp: nat, log: seq<Obs>, pid: int)
    requires Good(s) && Aligned(s, log) && Stale(s.procs, log, pid) && Running(s) != pid
    ensures Stale(AfterSave(s, esp), log + [Out(Cpu(log), esp)], pid)
  {
    Observed(log, Out(Cpu(log), esp));
    var out := log + [Out(Cpu(log), esp)];
    var ps := AfterSave(s, esp);
    var i :| 0 <= i < |s.procs| && StaleIn(s.procs[i], log, pid);
    var p := s.procs[i];
    var j :| 0 <= j < |p.ring| && p.ring[j].pid == pid && p.ring[j].esp != LastSaved(log, pid);
    if i > 0 {
      assert ps[i - 1] == p && StaleIn(ps[i - 1], out, pid);
    } else {
      var q := ps[|ps| - 1];
      assert q.ring[if p.gone.Unlinked? then j else j - 1] == p.ring[j];
      assert StaleIn(q, out, pid);
    }
  }

  /** Until the stale thread runs, it stays stale; when it runs, it runs wrongly. */
  lemma {:induction false} StaysStale(s: State, esps: seq<nat>, log: seq<Obs>, pid: int)
    requires Good(s) && SomeActive(s.procs) && Aligned(s, log) && Stale(s.procs, log, pid) && Running(s) != pid
    ensures Legal(s, Interrupts(esps))
    ensures Final(s, Interrupts(esps)) == Ticks(s, esps)
    ensures Integrity(Observations(s, Interrupts(esps), log)) ==> Running(Ticks(s, esps)) != pid
    decreases |esps|
  {
    hide Good, SomeActive, Stale, Aligned, Switch, AfterSave, Tick, Integrity, Apply, Observe, Running;
    if esps != [] {
      GoodShape(s);
      var e, rest := esps[0], esps[1..];
      InterruptsStep(esps);
      assert Interrupts(esps)[1..] == Interrupts(rest);
      EnabledWhenActive(s, e);
      InterruptObserved(s, e, log);
      TickKeeps(s, e);
      LegalTicks(Tick(s, e).0, rest);
      if SliceEnds(s) {
        SaveStale(s, e, log, pid);
        SwitchStale(s, e, log, pid);
      } else {
        TicksOnly(s, Tick(s, e).0, log);
        TickStale(s, e, log, pid);
      }
      var l := Observe(s, Interrupt(e), log);
      if Integrity(l) {
        StaysStale(Tick(s, e).0, rest, l, pid);
      } else {
        ObservationsExtend(Tick(s, e).0, Interrupts(rest), l);
        BrokenStays(l, Observations(Tick(s, e).0, Interrupts(rest), l));
      }
    }
  }

  lemma TicksOnly(s: State, t: State, log: seq<Obs>)
    requires Shape(s) && t == s.(ticks := t.ticks)
    ensures Shape(t) && Running(t) == Running(s) && SomeActive(t.procs) == SomeActive(s.procs)
  {}

  lemma TickStale(s: State, esp: nat, log: seq<Obs>, pid: int)
    requires Good(s) && Enabled(s, Interrupt(esp)) && !SliceEnds(s)
    requires Aligned(s, log) && Stale(s.procs, log, pid) && Running(s) != pid
    ensures var t, l := Tick(s, esp).0, Observe(s, Interrupt(esp), log);
            Shape(t) && Aligned(t, l) && Stale(t.procs, l, pid)
  {
    TickReturns(s, esp, log);
    InterruptObserved(s, esp, log);
    hide Good, Integrity, Observe, Tick;
    var i :| 0 <= i < |s.procs| && StaleIn(s.procs[i], log, pid);
    assert StaleIn(s.procs[i], Observe(s, Interrupt(esp), log), pid);
  }

  lemma {:induction false} LegalTicks(s: State, esps: seq<nat>)
    requires Good(s) && SomeActive(s.procs)
    ensures Legal(s, Interrupts(esps)) && Final(s, Interrupts(esps)) == Ticks(s, esps)
    decreases |esps|
  {
    hide Good, SomeActive, Tick;
    if esps != [] {
      GoodShape(s);
      InterruptsStep(esps);
      assert Interrupts(esps)[1..] == Interrupts(esps[1..]);
      EnabledWhenActive(s, esps[0]);
      InterruptObserved(s, esps[0], []);
      TickKeeps(s, esps[0]);
      LegalTicks(Tick(s, esps[0]).0, esps[1..]);
    }
  }

  /** The latency bound gives every thread that can run its turn. */
  lemma TurnComes(s: State, i: nat, d: nat) returns (esps: seq<nat>)
    requires Good(s) && s.on
    requires i < |s.procs| && !s.procs[i].stopped && d < |s.procs[i].ring|
    ensures SomeActive(s.procs) && Running(Ticks(s, esps)) == s.procs[i].ring[d].pid
  {
    hide Good, SomeActive, Ticks, Running;
    esps := seq((TIME_SLICE + 1) * (CountActive(s.procs) * |s.procs[i].ring|) + 1, x => 0);
    var k, n := LatencyBound(s, i, d, esps);
    esps := esps[..n];
  }

  lemma StaleBreaks(s: State, log: seq<Obs>, pid: int)
    requires Good(s) && s.on && Aligned(s, log) && Stale(s.procs, log, pid) && Running(s) != pid
    ensures Breaks(s, log)
  {
    var i :| 0 <= i < |s.procs| && StaleIn(s.procs[i], log, pid);
    var d :| 0 <= d < |s.procs[i].ring| && s.procs[i].ring[d].pid == pid;
    hide Good, SomeActive, Stale, Aligned, Ticks, Running, Integrity, Legal, Observations;
    var esps := TurnComes(s, i, d);
    StaysStale(s, esps, log, pid);
    assert Broken(s, esps, log);
  }

  /** A switch that files a stack pointer wrongly is followed by a wrong return. */
  lemma MisfiledBreaks(s: State, esp: nat, log: seq<Obs>, pid: int)
    requires Good(s) && SomeActive(s.procs) && s.on
    requires Stale(AfterSave(s, esp), log + [Out(Cpu(log), esp)], pid)
    ensures Breaks(s, log)
  {
    hide Good, SomeActive, Stale, Aligned, Running, AfterSave, Switch, Integrity, Legal, Observations, Final, Extends;
    GoodShape(s);
    var esps, before := FirstSwitch(s, esp, log);
    StaleLater(AfterSave(s, esp), log, before, esp, pid);
    SwitchStale(s, esp, before, pid);
    var u := Switch(s, esp);
    var l := Observations(s, Interrupts(esps), log);
    if Integrity(l) {
      SwitchKeepsOn(s, esp);
      StaleBreaks(u, l, pid);
      var more :| Broken(u, more, l);
      RunSplit(s, Interrupts(esps), Interrupts(more), log);
      InterruptsSplit(esps, more);
      assert Broken(s, esps + more, log);
    } else {
      assert Broken(s, esps, log);
    }
  }

  lemma StaleLater(ps: seq<Proc>, log: seq<Obs>, l: seq<Obs>, esp: nat, pid: int)
    requires Stale(ps, log + [Out(Cpu(log), esp)], pid) && Extends(log, l)
    ensures Stale(ps, l + [Out(Cpu(l), esp)], pid)
  {
    Observed(log, Out(Cpu(log), esp));
    Observed(l, Out(Cpu(l), esp));
    var i :| 0 <= i < |ps| && StaleIn(ps[i], log + [Out(Cpu(log), esp)], pid);
    assert StaleIn(ps[i], l + [Out(Cpu(l), esp)], pid);
  }

  lemma SwitchKeepsOn(s: State, esp: nat)
    requires Shape(s) && SomeActive(s.procs)
    ensures Switch(s, esp).on == s.on
  {}

  // ---------------------------------------------------------------- runs that stay right

  /** The rings of the processes that can run are saved. */
  ghost predicate ActiveSaved(ps: seq<Proc>, log: seq<Obs>) {
    forall i :: 0 <= i < |ps| && !ps[i].stopped ==> RingSaved(ps[i].ring, log)
  }

  ghost predicate ActiveFiled(ps: seq<Proc>, log: seq<Obs>) {
    forall i :: 0 <= i < |ps| && !ps[i].stopped ==> Filed(ps[i].ring, log)
  }

  ghost predicate NotWaiting(ps: seq<Proc>, pid: int) {
    forall i :: 0 <= i < |ps| && !ps[i].stopped ==> pid !in Pids(ps[i])
  }

  /** Either `list` is what the processor executes, or what is filed wrongly never runs again. */
  ghost predicate Quiet(s: State, log: seq<Obs>) {
    && Good(s) && Integrity(log) && ActiveSaved(s.procs, log)
    && (Cpu(log) == Head(s.procs[0]).pid || (s.procs[0].stopped && NotWaiting(s.procs, Cpu(log))))
  }

  lemma QuietSave(s: State, esp: nat, log: seq<Obs>)
    requires Quiet(s, log)
    ensures ActiveFiled(AfterSave(s, esp), log + [Out(Cpu(log), esp)])
  {
    hide RingSaved, Filed, Save, Advance;
    var ps, o := AfterSave(s, esp), Out(Cpu(log), esp);
    forall i | 0 <= i < |ps| && !ps[i].stopped ensures Filed(ps[i].ring, log + [o]) {
      if i < |ps| - 1 {
        var p := s.procs[i + 1];
        assert ps[i] == p && GoodProc(p, s.nextPid);
        assert Cpu(log) !in Pids(p) by { HeadPid(s.procs[0]); }
        OthersFiled(p, log, esp);
      } else {
        AdvanceStops(s.procs[0], esp);
        AdvanceSaved(s.procs[0], esp, s.nextPid, log);
      }
    }
  }

  lemma AdvanceStops(p: Proc, esp: nat)
    ensures Advance(Save(p, esp)).stopped == p.stopped
  {}

  lemma QuietSwitch(s: State, esp: nat, log: seq<Obs>)
    requires Quiet(s, log) && SomeActive(s.procs)
    ensures Good(Switch(s, esp)) && Shape(Switch(s, esp))
    ensures var h := Head(Switch(s, esp).procs[0]);
            Quiet(Switch(s, esp), log + [Out(Cpu(log), esp)] + [In(h.pid, h.esp)])
  {
    SwitchGood(s, esp);
    SwitchShape(s, esp);
    QuietSave(s, esp, log);
    ActiveAfterSave(s, esp);
    hide Good, RingSaved, Filed, AfterSave;
    var ps, u, out := AfterSave(s, esp), Switch(s, esp), log + [Out(Cpu(log), esp)];
    var k := FirstActive(ps);
    var qs := u.procs;
    forall i | 0 <= i < |qs| && !qs[i].stopped ensures Filed(qs[i].ring, out) {
      assert qs[i] == ps[if i < |ps| - k then k + i else i - (|ps| - k)];
    }
    HeadFiled(qs[0], out);
    var o := In(Head(qs[0]).pid, Head(qs[0]).esp);
    IntegrityExtends(log, Out(Cpu(log), esp));
    IntegrityExtends(out, o);
    Observed(out, o);
    forall i | 0 <= i < |qs| && !qs[i].stopped ensures RingSaved(qs[i].ring, out + [o]) {
      FiledAfterIn(qs[i].ring, out, o);
    }
  }

  /** What is filed wrongly can never run: the processor's thread is known, and all is quiet. */
  ghost predicate Calm(s: State, log: seq<Obs>) {
    Quiet(s, log) && Cpu(log) < s.nextPid
  }

  lemma CalmInterrupt(s: State, esp: nat, log: seq<Obs>)
    requires Calm(s, log) && Shape(s) && Enabled(s, Interrupt(esp))
    ensures Calm(Apply(s, Interrupt(esp)), Observe(s, Interrupt(esp), log))
  {
    hide Good, Quiet, Switch, Tick, Observe, Apply;
    QuietGood(s, log);
    InterruptObserved(s, esp, log);
    if SliceEnds(s) {
      QuietSwitch(s, esp, log);
      CalmAfterIn(Switch(s, esp), log + [Out(Cpu(log), esp)]);
    } else {
      QuietTick(s, esp, log);
    }
  }

  lemma QuietGood(s: State, log: seq<Obs>)
    requires Quiet(s, log)
    ensures Good(s) && Shape(s) && Integrity(log)
  {}

  lemma QuietTick(s: State, esp: nat, log: seq<Obs>)
    requires Quiet(s, log) && Enabled(s, Interrupt(esp)) && !SliceEnds(s)
    ensures var l := Observe(s, Interrupt(esp), log);
            Quiet(s.(ticks := (s.ticks + 1) % TICK_RANGE), l) && Cpu(l) == Cpu(log)
  {
    TickReturns(s, esp, log);
    hide Integrity, Observe, GoodProcs, Pids;
  }

  lemma CalmAfterIn(t: State, out: seq<Obs>)
    requires Shape(t) && var h := Head(t.procs[0]); Quiet(t, out + [In(h.pid, h.esp)])
    ensures var h := Head(t.procs[0]); Calm(t, out + [In(h.pid, h.esp)])
  {
    var h := Head(t.procs[0]);
    Observed(out, In(h.pid, h.esp));
    assert GoodProc(t.procs[0], t.nextPid);
  }

  lemma BornActive(s: State, esp: nat, log: seq<Obs>)
    requires Good(s) && ActiveSaved(s.procs, log)
    ensures ActiveSaved(s.procs, log + [Born(s.nextPid, esp)])
  {
    forall i | 0 <= i < |s.procs| && !s.procs[i].stopped ensures RingSaved(s.procs[i].ring, log + [Born(s.nextPid, esp)]) {
      assert GoodProc(s.procs[i], s.nextPid);
      OthersSaved(s.procs[i].ring, log, Born(s.nextPid, esp));
    }
  }

  lemma CalmSpawn(s: State, esp: nat, log: seq<Obs>)
    requires Calm(s, log)
    ensures Good(s) && Shape(s) && Calm(Spawn(s, esp), log + [Born(s.nextPid, esp)])
  {
    GoodShape(s);
    SpawnGood(s, esp);
    BornActive(s, esp, log);
    var o := Born(s.nextPid, esp);
    Observed(log, o);
    IntegrityExtends(log, o);
    hide Good, Integrity;
    var ps := Spawn(s, esp).procs;
    assert ps[0] == s.procs[0] && Pids(ps[1]) == {s.nextPid};
    assert forall i :: 2 <= i < |ps| ==> ps[i] == s.procs[i - 1];
  }

  lemma CalmFork(s: State, esp: nat, log: seq<Obs>)
    requires Calm(s, log) && s.procs[0].gone.Nobody?
    ensures Good(s) && Shape(s) && Calm(Fork(s, esp), log + [Born(s.nextPid, esp)])
  {
    GoodShape(s);
    ForkGood(s, esp);
    BornActive(s, esp, log);
    var o := Born(s.nextPid, esp);
    Observed(log, o);
    IntegrityExtends(log, o);
    hide Good, Integrity;
    var p, q := s.procs[0], Fork(s, esp).procs[0];
    assert q.ring[0] == p.ring[0] && forall j :: 2 <= j < |q.ring| ==> q.ring[j] == p.ring[j - 1];
    assert Pids(q) == Pids(p) + {s.nextPid};
  }

  /** A call that changes the running process only, and no stack pointer. */
  lemma CalmCall(s: State, t: State, log: seq<Obs>)
    requires Calm(s, log) && Good(t) && s.nextPid <= t.nextPid && |t.procs| == |s.procs| && t.procs[1..] == s.procs[1..]
    requires var p, q := s.procs[0], t.procs[0];
             && (p.stopped ==> q.stopped) && (!q.stopped ==> forall x :: x in q.ring ==> x in p.ring)
             && |p.ring| > 0 && |q.ring| > 0 && Head(q).pid == Head(p).pid
    ensures Calm(t, log)
  {
    hide Good, Integrity;
    forall i | 0 <= i < |t.procs| && !t.procs[i].stopped
      ensures RingSaved(t.procs[i].ring, log) && (NotWaiting(s.procs, Cpu(log)) && s.procs[0].stopped ==> Cpu(log) !in Pids(t.procs[i]))
    {
      if i > 0 {
        assert t.procs[i] == t.procs[1..][i - 1] == s.procs[i];
      } else {
        PartSaved(s.procs[0].ring, t.procs[0].ring, log);
      }
    }
  }

  lemma PartSaved(ts: seq<Thread>, us: seq<Thread>, log: seq<Obs>)
    requires RingSaved(ts, log) && forall x :: x in us ==> x in ts
    ensures RingSaved(us, log)
  {
    assert forall j :: 0 <= j < |us| ==> us[j] in ts;
  }

  lemma CalmStop(s: State, log: seq<Obs>)
    requires Calm(s, log) && s.procs[0].gone.Nobody?
    ensures Good(s) && Shape(s) && Calm(StopThread(s), log) && Calm(EndProc(s), log)
  {
    GoodShape(s);
    StopGood(s);
    EndGood(s);
    CalmCall(s, EndProc(s), log);
    if !s.procs[0].ring[0].main {
      CalmCall(s, StopThread(s), log);
    }
  }

  lemma CalmRemove(s: State, id: int, log: seq<Obs>)
    requires Calm(s, log) && Shape(s) && Enabled(s, Removed(id)) && ListStays(s, Removed(id))
    ensures Calm(Remove(s, id), log)
  {
    RemoveGood(s, id);
    hide Good, Integrity, Pids;
    var k := Find(s.procs, id);
    if k < |s.procs| {
      assert Remove(s, id).procs == s.procs[..k];
    }
  }

  lemma CalmStep(s: State, e: Event, log: seq<Obs>)
    requires Calm(s, log) && Shape(s) && Enabled(s, e) && ListStays(s, e)
    ensures Calm(Apply(s, e), Observe(s, e, log))
  {
    hide Calm, Good;
    CalmGood(s, log);
    match e
    case Interrupt(esp) => CalmInterrupt(s, esp, log);
    case Spawned(esp) => CalmSpawn(s, esp, log);
    case Forked(esp) => CalmFork(s, esp, log);
    case ForkedWithoutMemory => CalmFailed(s, log);
    case ForkedWithoutFrames => CalmFailed(s, log);
    case SpawnedWithoutMemory =>
    case SpawnedWithoutFrames => CalmFailed(s, log);
    case ThreadStopped => CalmStop(s, log);
    case ProcEnded => CalmStop(s, log);
    case Removed(id) => CalmRemove(s, id, log);
  }

  lemma CalmGood(s: State, log: seq<Obs>)
    requires Calm(s, log)
    ensures Good(s) && Integrity(log)
  {}

  lemma CalmFailed(s: State, log: seq<Obs>)
    requires Calm(s, log)
    ensures Calm(ForkWithoutMemory(s), log) && Calm(SpendPid(s), log)
  {
    FailedStartGood(s);
    hide Good, Integrity;
  }

  lemma {:induction false} CalmRun(s: State, events: seq<Event>, log: seq<Obs>)
    requires Calm(s, log) && Legal(s, events) && ListStaysThroughout(s, events)
    ensures Integrity(Observations(s, events, log))
    decreases |events|
  {
    hide Calm, Good, Apply, Observe, Enabled, ListStays;
    CalmGood(s, log);
    if events != [] {
      GoodShape(s);
      CalmStep(s, events[0], log);
      CalmRun(Apply(s, events[0]), events[1..], Observe(s, events[0], log));
    }
  }

  /** With scheduling off every interrupt hands back what it found. */
  lemma {:induction false} OffRun(s: State, esps: seq<nat>, log: seq<Obs>)
    requires Good(s) && !s.on && Legal(s, Interrupts(esps)) && Integrity(log)
    ensures Integrity(Observations(s, Interrupts(esps), log))
    decreases |esps|
  {
    hide Good, Switch, Tick, Observe, Apply, Integrity;
    if esps != [] {
      GoodShape(s);
      InterruptsStep(esps);
      assert Interrupts(esps)[1..] == Interrupts(esps[1..]);
      InterruptObserved(s, esps[0], log);
      TickReturns(s, esps[0], log);
      ApplyGood(s, Interrupt(esps[0]));
      OffRun(Tick(s, esps[0]).0, esps[1..], Observe(s, Interrupt(esps[0]), log));
    }
  }

  /** No removal is among interrupts. */
  lemma {:induction false} InterruptsStay(s: State, esps: seq<nat>)
    requires Legal(s, Interrupts(esps))
    ensures ListStaysThroughout(s, Interrupts(esps))
    decreases |esps|
  {
    hide Good, Apply, Enabled;
    if esps != [] {
      GoodShape(s);
      InterruptsStep(esps);
      assert Interrupts(esps)[1..] == Interrupts(esps[1..]);
      InterruptsStay(Apply(s, Interrupt(esps[0])), esps[1..]);
    }
  }

  // ---------------------------------------------------------------- removals

  /** A removal that is not harmful leaves everything that can run filed rightly. */
  lemma HarmlessCalm(s: State, id: int, log: seq<Obs>)
    requires Consistent(s, log) && Enabled(s, Removed(id)) && !Harmful(s, id)
    ensures Calm(Remove(s, id), log)
  {
    RemoveGood(s, id);
    CpuKnown(s, log);
    if ListStays(s, Removed(id)) {
      RemoveConsistent(s, id, log);
      StillSaved(Remove(s, id).procs, log);
    } else {
      MovedToStopped(s, id, log);
      hide Find, RingSaved, Good, Pids, Integrity;
    }
  }

  lemma CpuKnown(s: State, log: seq<Obs>)
    requires Consistent(s, log)
    ensures Cpu(log) < s.nextPid
  {
    assert GoodProc(s.procs[0], s.nextPid);
  }

  /** `list` moves to a stopped process, and the caller is gone or stopped. */
  lemma MovedToStopped(s: State, id: int, log: seq<Obs>)
    requires Consistent(s, log) && Enabled(s, Removed(id)) && !Harmful(s, id) && !ListStays(s, Removed(id))
    ensures var ps := Remove(s, id).procs;
            |ps| > 0 && ps[0].stopped && ActiveSaved(ps, log) && NotWaiting(ps, Cpu(log))
  {
    hide Find, RingSaved, GoodProcs, Pids, Integrity;
    var ps, k := Remove(s, id).procs, Find(s.procs, id);
    var n := |s.procs| - k - 1;
    GoodShape(s);
    HeadPid(s.procs[0]);
    assert ps[0] == s.procs[k + 1];
    forall i | 0 <= i < |ps| && !ps[i].stopped ensures RingSaved(ps[i].ring, log) && Cpu(log) !in Pids(ps[i]) {
      var j := if i < n then k + 1 + i else i - n;
      assert ps[i] == s.procs[j];
      PidsApart(s, 0, j, Cpu(log));
    }
  }

  lemma StillSaved(ps: seq<Proc>, log: seq<Obs>)
    requires Saved(ps, log)
    ensures ActiveSaved(ps, log)
  {}

  lemma PidsApart(s: State, i: nat, j: nat, pid: int)
    requires Good(s) && i < |s.procs| && j < |s.procs| && pid in Pids(s.procs[i])
    ensures pid in Pids(s.procs[j]) ==> i == j
  {}

  /** A harmful one files the caller's next stack pointer under a thread that runs, or leaves the
      caller itself with an old one. */
  ghost predicate Misfiling(t: State, log: seq<Obs>) {
    && Good(t) && |t.procs[0].ring| > 0
    && ((!t.procs[0].stopped && t.procs[0].gone.Nobody? && t.procs[0].ring[0].pid != Cpu(log) && RingSaved(t.procs[0].ring, log)) ||
        exists j :: LeavesBehind(t.procs, j, Cpu(log)))
  }

  ghost predicate LeavesBehind(ps: seq<Proc>, j: int, pid: int) {
    0 < j < |ps| && !ps[j].stopped && |ps[j].ring| > 0 && ps[j].ring[0].pid == pid
  }

  lemma HarmfulMisfiles(s: State, id: int, log: seq<Obs>)
    requires Consistent(s, log) && Enabled(s, Removed(id)) && Harmful(s, id)
    ensures Misfiling(Remove(s, id), log) && Cpu(log) < Remove(s, id).nextPid
  {
    RemoveGood(s, id);
    assert GoodProc(s.procs[0], s.nextPid);
    var t, k := Remove(s, id), Find(s.procs, id);
    var caller, next := s.procs[0], s.procs[k + 1];
    HeadPid(caller);
    assert t.procs[0] == next && GoodProc(next, s.nextPid);
    if !next.stopped {
      assert next.ring[0].pid in Pids(next);
      PidsApart(s, 0, k + 1, Cpu(log));
    } else {
      assert t.procs[|s.procs| - k - 1] == caller;
      assert LeavesBehind(t.procs, |s.procs| - k - 1, Cpu(log));
    }
  }

  /** While scheduling is on, interrupts are enough. */
  lemma MisfilingBreaks(t: State, log: seq<Obs>)
    requires Misfiling(t, log) && t.on
    ensures Breaks(t, log)
  {
    if !t.procs[0].stopped && t.procs[0].gone.Nobody? && t.procs[0].ring[0].pid != Cpu(log) && RingSaved(t.procs[0].ring, log) {
      FiledWrongly(t, log, t.procs[0].ring[0].esp + 1);
    } else {
      var j :| LeavesBehind(t.procs, j, Cpu(log));
      LeftBehind(t, log, j, t.procs[j].ring[0].esp + 1);
    }
  }

  /** While it is off, starting a process switches it on and changes nothing about what is misfiled. */
  lemma MisfilingSpawn(t: State, esp: nat, log: seq<Obs>)
    requires Misfiling(t, log)
    ensures Shape(t) && Misfiling(Spawn(t, esp), log + [Born(t.nextPid, esp)]) && Spawn(t, esp).on
  {
    GoodShape(t);
    SpawnGood(t, esp);
    var o, ps := Born(t.nextPid, esp), Spawn(t, esp).procs;
    Observed(log, o);
    assert ps[0] == t.procs[0] && GoodProc(t.procs[0], t.nextPid);
    if RingSaved(t.procs[0].ring, log) {
      OthersSaved(t.procs[0].ring, log, o);
    }
    if j :| LeavesBehind(t.procs, j, Cpu(log)) {
      assert ps[j + 1] == t.procs[j];
      assert LeavesBehind(ps, j + 1, Cpu(log + [o]));
    }
  }

  lemma MisfilingEver(t: State, log: seq<Obs>)
    requires Misfiling(t, log) && Shape(t) && Enabled(t, Spawned(0))
    ensures EverBreaks(t, log)
  {
    hide Misfiling, Spawn, Good, Integrity;
    MisfilingGood(t, log);
    var l := log + [Born(t.nextPid, 0)];
    var u := Spawn(t, 0);
    MisfilingSpawn(t, 0, log);
    MisfilingBreaks(u, l);
    var esps :| Broken(u, esps, l);
    InterruptsStay(u, esps);
    var rest := Interrupts(esps);
    assert ([Spawned(0)] + rest)[1..] == rest;
    assert BrokenBy(t, [Spawned(0)] + rest, log);
  }

  lemma MisfilingGood(t: State, log: seq<Obs>)
    requires Misfiling(t, log)
    ensures Good(t)
  {}

  lemma FiledWrongly(t: State, log: seq<Obs>, esp: nat)
    requires Good(t) && t.on && !t.procs[0].stopped && t.procs[0].gone.Nobody? && t.procs[0].ring[0].pid != Cpu(log)
    requires RingSaved(t.procs[0].ring, log) && t.procs[0].ring[0].esp != esp
    ensures Breaks(t, log)
  {
    var x, out := t.procs[0].ring[0], log + [Out(Cpu(log), esp)];
    Observed(log, Out(Cpu(log), esp));
    var ps := AfterSave(t, esp);
    var p := ps[|ps| - 1];
    assert p.ring[|p.ring| - 1] == x.(esp := esp);
    assert StaleIn(p, out, x.pid);
    assert SomeActive(t.procs);
    MisfiledBreaks(t, esp, log, x.pid);
  }

  lemma LeftBehind(t: State, log: seq<Obs>, j: nat, esp: nat)
    requires Good(t) && t.on && 0 < j < |t.procs| && !t.procs[j].stopped && t.procs[j].ring[0].pid == Cpu(log)
    requires t.procs[j].ring[0].esp != esp
    ensures Breaks(t, log)
  {
    var p, out := t.procs[j], log + [Out(Cpu(log), esp)];
    Observed(log, Out(Cpu(log), esp));
    assert AfterSave(t, esp)[j - 1] == p;
    assert StaleIn(p, out, Cpu(log));
    assert SomeActive(t.procs);
    MisfiledBreaks(t, esp, log, Cpu(log));
  }

  /** The condition on removals is exact: after a removal in a consistent state, some run, of any calls and
      interrupts in which no further removal moves `list`, makes schedule() return a stack pointer that
      is not the thread's own if and only if the removal was harmful. */
  lemma RemovalExact(s: State, id: int, log: seq<Obs>)
    requires Consistent(s, log) && Enabled(s, Removed(id))
    ensures Good(Remove(s, id))
    ensures EverBreaks(Remove(s, id), log) <==> Harmful(s, id)
  {
    hide Consistent, Harmful, Remove, BrokenBy, Misfiling, Calm;
    SafeToRemove(s, id, log);
    var t := Remove(s, id);
    if Harmful(s, id) {
      HarmfulMisfiles(s, id, log);
      MisfilingEver(t, log);
    } else {
      HarmlessCalm(s, id, log);
      forall events: seq<Event> ensures !BrokenBy(t, events, log) {
        CalmNeverBroken(t, events, log);
      }
    }
  }

  lemma CalmNeverBroken(t: State, events: seq<Event>, log: seq<Obs>)
    requires Calm(t, log)
    ensures !BrokenBy(t, events, log)
  {
    hide Calm, Integrity;
    if Legal(t, events) && ListStaysThroughout(t, events) {
      CalmRun(t, events, log);
    }
  }

  lemma SafeToRemove(s: State, id: int, log: seq<Obs>)
    requires Consistent(s, log) && Enabled(s, Removed(id))
    ensures Good(Remove(s, id)) && Shape(Remove(s, id)) && Enabled(Remove(s, id), Spawned(0))
    ensures Remove(s, id).on == s.on && Integrity(log)
  {
    RemoveGood(s, id);
  }

  /** By interrupts alone it happens exactly while scheduling is on. */
  lemma BrokenByInterrupts(s: State, id: int, log: seq<Obs>)
    requires Consistent(s, log) && Enabled(s, Removed(id))
    ensures Breaks(Remove(s, id), log) <==> s.on && Harmful(s, id)
  {
    hide Consistent, Harmful, Remove, Broken, Misfiling;
    SafeToRemove(s, id, log);
    var t := Remove(s, id);
    if s.on && Harmful(s, id) {
      HarmfulMisfiles(s, id, log);
      MisfilingBreaks(t, log);
    } else {
      forall esps: seq<nat> ensures !Broken(t, esps, log) {
        NotBroken(s, id, log, esps);
      }
    }
  }

  lemma NotBroken(s: State, id: int, log: seq<Obs>, esps: seq<nat>)
    requires Consistent(s, log) && Enabled(s, Removed(id)) && !(s.on && Harmful(s, id))
    ensures !Broken(Remove(s, id), esps, log)
  {
    hide Consistent, Harmful, Remove, Calm, Integrity, Observations, Legal, ListStaysThroughout;
    SafeToRemove(s, id, log);
    var t := Remove(s, id);
    if Legal(t, Interrupts(esps)) {
      if s.on {
        HarmlessCalm(s, id, log);
        InterruptsStay(t, esps);
        CalmRun(t, Interrupts(esps), log);
      } else {
        OffRun(t, esps, log);
      }
    }
  }

  /** For a caller that goes on running and does not remove itself, that is whenever `list` moves. */
  lemma RemovalByCaller(s: State, id: int, log: seq<Obs>)
    requires Consistent(s, log) && Enabled(s, Removed(id))
    requires !s.procs[0].stopped && Find(s.procs, id) != 0
    ensures EverBreaks(Remove(s, id), log) <==> !ListStays(s, Removed(id))
  {
    hide EverBreaks, Consistent;
    RemovalExact(s, id, log);
  }

  function Setup(a: nat, b: nat): seq<Event> {
    [Spawned(a), Spawned(b), Removed(3)]
  }

  /** It happens: whatever the stack pointers, the console process starts two others and removes the
      second, and a later interrupt resumes a thread with a context that is not its own. */
  lemma WrongContextReachable(s: State, a: nat, b: nat)
    requires Initial(s)
    ensures var esp := s.procs[0].ring[0].esp;
            exists esps ::
              && Legal(s, Setup(a, b) + Interrupts(esps))
              && !Integrity(Observations(s, Setup(a, b) + Interrupts(esps), [Born(1, esp), In(1, esp)]))
  {
    hide Initial, Consistent, Integrity, Legal, Observations, Final, Remove, Harmful, Setup, Spawn;
    InitialGood(s);
    GoodShape(s);
    OneProcess(s);
    var esp := s.procs[0].ring[0].esp;
    var log := [Born(1, esp), In(1, esp)];
    InitialConsistent(s);
    var u := AfterSetup(s, a, b, log);
    var m := Observations(s, Setup(a, b), log);
    BrokenByInterrupts(u, 3, m);
    var esps :| Broken(Remove(u, 3), esps, m);
    RunSplit(s, Setup(a, b), Interrupts(esps), log);
  }

  lemma OneProcess(s: State)
    requires Initial(s)
    ensures |s.procs| > 0 && |s.procs[0].ring| > 0
  {}

  lemma AfterSetup(s: State, a: nat, b: nat, log: seq<Obs>) returns (u: State)
    requires Initial(s) && Shape(s) && Consistent(s, log)
    ensures Legal(s, Setup(a, b)) && Shape(u) && Enabled(u, Removed(3))
    ensures Consistent(u, Observations(s, Setup(a, b), log)) && u.on && Harmful(u, 3)
    ensures Final(s, Setup(a, b)) == Remove(u, 3)
  {
    TwoStarted(s, a, b);
    NobodyGone(s, a);
    hide Initial, Consistent, Remove, Harmful, Good, Spawn, Legal, Final, Observations;
    var t := Apply(s, Spawned(a));
    var l := Observe(s, Spawned(a), log);
    StepConsistent(s, Spawned(a), log);
    u := Apply(t, Spawned(b));
    var m := Observe(t, Spawned(b), l);
    StepConsistent(t, Spawned(b), l);
    RemovedLegal(u, m);
    LegalStep(t, Spawned(b), [Removed(3)], l);
    LegalStep(s, Spawned(a), [Spawned(b)] + [Removed(3)], log);
    assert Setup(a, b) == [Spawned(a)] + ([Spawned(b)] + [Removed(3)]);
  }

  lemma LegalStep(s: State, e: Event, rest: seq<Event>, log: seq<Obs>)
    requires Consistent(s, log) && Enabled(s, e) && Legal(Apply(s, e), rest)
    ensures Legal(s, [e] + rest) && Final(s, [e] + rest) == Final(Apply(s, e), rest)
    ensures Observations(s, [e] + rest, log) == Observations(Apply(s, e), rest, Observe(s, e, log))
  {
    assert ([e] + rest)[1..] == rest;
  }

  lemma RemovedLegal(u: State, log: seq<Obs>)
    requires Consistent(u, log) && Enabled(u, Removed(3))
    ensures Shape(u) && Legal(u, [Removed(3)]) && Final(u, [Removed(3)]) == Remove(u, 3)
    ensures Observations(u, [Removed(3)], log) == log
  {
    assert [Removed(3)][1..] == [];
  }

  lemma NobodyGone(s: State, a: nat)
    requires Initial(s)
    ensures Shape(s) && Enabled(s, Spawned(a)) && Shape(Spawn(s, a)) && forall b :: Enabled(Spawn(s, a), Spawned(b))
  {}

  lemma TwoStarted(s: State, a: nat, b: nat)
    requires Initial(s)
    ensures var u := Spawn(Spawn(s, a), b);
            u.on && Harmful(u, 3) && Enabled(u, Removed(3))
  {
    var ps := Spawn(Spawn(s, a), b).procs;
    assert !Owns(ps[0], 3);
    assert ps[1].ring[0].pid == 3 && Owns(ps[1], 3);
    assert Find(ps, 3) == 1;
  }
}
