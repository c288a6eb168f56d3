/** proc/sched.c, proc/thread.c and the tick counter of drivers/x86/pit.c over real pointers: two
    levels of circular doubly linked lists, changed in place.  The ghost field `model` is the state
    of SchedulerModel that the pointers represent, and every method takes the model's step. */
module Scheduler {
  import M = SchedulerModel

  const PROC_STOPPED := 0
  const PROC_ACTIVE := 1
  const PROC_NEW := 2

  class Thread {
    var pid: int
    var time: int
    var main: bool
    var state: int
    var parent: Process?
    var espKernel: nat
    var next: Thread
    var prec: Thread

    /** The field assignments of create_thread(). */
    constructor (pid: int)
      ensures this.pid == pid && time == M.TIME_SLICE && !main && state == PROC_NEW && parent == null
      ensures next == this && prec == this
    {
      this.pid, time, main, state, parent := pid, M.TIME_SLICE, false, PROC_NEW, null;
      next, prec := this, this;
    }

    ghost predicate Is(t: M.Thread)
      reads this`pid, this`time, this`main, this`state, this`espKernel
    {
      pid == t.pid && time == t.time && main == t.main && espKernel == t.esp && state == PROC_ACTIVE
    }
  }

  /** `ts` is the circular list met by following `next` from ts[0]. */
  ghost predicate ThreadRing(ts: seq<Thread>)
    reads ts`next, ts`prec
  {
    && |ts| > 0
    && (forall i, j :: 0 <= i < j < |ts| ==> ts[i] != ts[j])
    && (forall i {:trigger ts[i].next} :: 0 <= i < |ts| - 1 ==> ts[i].next == ts[i + 1])
    && (forall i {:trigger ts[i].prec} :: 1 <= i < |ts| ==> ts[i].prec == ts[i - 1])
    && ts[|ts| - 1].next == ts[0] && ts[0].prec == ts[|ts| - 1]
  }

  ghost predicate ProcRing(ps: seq<Process>)
    reads ps`next, ps`prec
  {
    && |ps| > 0
    && (forall i, j :: 0 <= i < j < |ps| ==> ps[i] != ps[j])
    && (forall i {:trigger ps[i].next} :: 0 <= i < |ps| - 1 ==> ps[i].next == ps[i + 1])
    && (forall i {:trigger ps[i].prec} :: 1 <= i < |ps| ==> ps[i].prec == ps[i - 1])
    && ps[|ps| - 1].next == ps[0] && ps[0].prec == ps[|ps| - 1]
  }

  class Process {
    var state: int
    var threads: int
    var threadList: Thread
    var next: Process
    var prec: Process
    ghost var ring: seq<Thread>
    ghost var members: set<Thread>

    constructor (t: Thread)
      ensures threadList == t && next == this && prec == this && ring == [t] && members == {t}
      ensures state == PROC_NEW && threads == 1
    {
      state, threads, threadList, ring, members := PROC_NEW, 1, t, [t], {t};
      next, prec := this, this;
    }

    ghost predicate Is(m: M.Proc)
      reads this`state, this`threads, this`threadList, this`ring, this`members
      reads members`pid, members`time, members`main, members`state, members`espKernel, members`parent, members`next, members`prec
    {
      && threadList in members && (forall j :: 0 <= j < |ring| ==> ring[j] in members)
      && (forall t :: t in members ==> t.parent == this)
      && ThreadRing(ring)
      && |ring| == |m.ring|
      && (forall j :: 0 <= j < |ring| ==> ring[j].Is(m.ring[j]))
      && state == (if m.stopped then PROC_STOPPED else PROC_ACTIVE)
      && threads == m.count
      && if m.gone.Nobody? then threadList == ring[0]
         else threadList !in ring && threadList.next == ring[0]
               && threadList.Is(m.gone.thread)
    }

    /** The threads of a process name it as their parent. */
    twostate lemma AllItsOwn(m: M.Proc)
      requires old(Is(m))
      ensures forall t :: t in old(members) ==> old(t.parent) == this
    {
    }

    /** thread_list->esp_kernel = esp */
    method SaveStackPointer(esp: nat, ghost m: M.Proc)
      requires Is(m)
      modifies threadList`espKernel
      ensures Is(M.Save(m, esp))
    {
      threadList.espKernel := esp;
    }

    /** The inner loop of get_proc_by_id: `threads` steps from thread_list go all the way round. */
    method HasThread(id: int, ghost m: M.Proc) returns (found: bool)
      requires Is(m) && m.count >= |m.ring| + (if m.gone.Unlinked? then 1 else 0)
      ensures found == M.Owns(m, id)
    {
      var thr := threadList;
      ghost var extra := if m.gone.Unlinked? then 1 else 0;
      var j := 0;
      while j < threads
        invariant 0 <= j <= threads
        invariant j >= extra ==> thr in ring
        invariant j < extra + |ring| ==> thr == if j < extra then threadList else ring[j - extra]
        invariant j > 0 && extra == 1 ==> threadList.pid != id
        invariant forall i :: 0 <= i < |ring| && i < j - extra ==> ring[i].pid != id
      {
        if thr.pid == id {
          assert j < extra || exists i :: 0 <= i < |ring| && ring[i] == thr && m.ring[i].pid == id;
          return true;
        }
        NextThreadInRing(ring, thr);
        thr := thr.next;
        j := j + 1;
      }
      assert forall i :: 0 <= i < |ring| ==> ring[i].pid == m.ring[i].pid;
      found := false;
    }

    /** The link assignments of start_thread: a thread goes in after thread_list. */
    method LinkAfterRunning(t: Thread)
      requires ThreadRing(ring) && threadList == ring[0] && t !in ring
      modifies t`next, t`prec, threadList`next, threadList.next`prec
      ensures ThreadRing([ring[0], t] + ring[1..])
    {
      t.prec := threadList;
      t.next := threadList.next;
      threadList.next.prec := t;
      threadList.next := t;
      assert forall i :: 2 <= i < |ring| + 1 ==> ([ring[0], t] + ring[1..])[i] == ring[i - 1];
    }

    method InsertThread(t: Thread, ghost m: M.Proc, ghost n: M.Thread)
      requires Is(m) && m.gone.Nobody? && t !in members && t.parent == this && t.Is(n)
      modifies this`threads, this`ring, this`members, t`next, t`prec, threadList`next, threadList.next`prec
      ensures Is(m.(ring := [m.ring[0], n] + m.ring[1..], count := m.count + 1))
      ensures members == old(members) + {t}
    {
      hide ThreadRing, Thread.Is;
      RingNonEmpty(ring);
      LinkAfterRunning(t);
      threads := threads + 1;
      members := members + {t};
      ring := [ring[0], t] + ring[1..];
      assert forall i :: 2 <= i < |ring| ==> ring[i] == old(ring)[i - 1];
    }

    /** The unlinking in stop_thread; thread_list itself is left where it is. */
    method UnlinkRunning(ghost m: M.Proc)
      requires Is(m) && m.gone.Nobody? && |m.ring| > 1
      modifies this`ring, threadList.next`prec, threadList.prec`next
      ensures Is(m.(ring := m.ring[1..], gone := M.Unlinked(m.ring[0])))
    {
      threadList.next.prec := threadList.prec;
      threadList.prec.next := threadList.next;
      ring := ring[1..];
      assert forall i :: 0 <= i < |ring| ==> ring[i] == old(ring)[i + 1];
    }

    /** thread_list = thread_list->next */
    method TurnThreads(ghost m: M.Proc)
      requires Is(m)
      modifies this`threadList, this`ring
      ensures Is(M.Advance(m))
    {
      if m.gone.Nobody? {
        ThreadRingTurned(ring);
      }
      threadList := threadList.next;
      if m.gone.Nobody? {
        ring := M.Rotate(ring);
      }
    }
  }

  ghost predicate Represent(ps: seq<Process>, ms: seq<M.Proc>, threads: set<Thread>)
    reads ps`state, ps`threads, ps`threadList, ps`ring, ps`members
    reads threads`pid, threads`time, threads`main, threads`state, threads`espKernel, threads`parent, threads`next, threads`prec
  {
    && |ps| == |ms|
    && (forall i :: 0 <= i < |ps| ==> ps[i].members <= threads)
    && forall i :: 0 <= i < |ps| ==> ps[i].Is(ms[i])
  }

  lemma RepresentTurned(ps: seq<Process>, ms: seq<M.Proc>, threads: set<Thread>, k: nat)
    requires Represent(ps, ms, threads) && k <= |ps|
    ensures Represent(ps[k..] + ps[..k], ms[k..] + ms[..k], threads)
  {
    hide Process.Is;
    var qs, ns, n := ps[k..] + ps[..k], ms[k..] + ms[..k], |ps| - k;
    forall i | 0 <= i < |qs| ensures qs[i].members <= threads && qs[i].Is(ns[i]) {
      var j := if i < n then k + i else i - n;
      assert qs[i] == ps[j] && ns[i] == ms[j];
    }
  }

  lemma RepresentTail(ps: seq<Process>, ms: seq<M.Proc>, threads: set<Thread>)
    requires Represent(ps, ms, threads) && |ps| > 0
    ensures Represent(ps[1..], ms[1..], threads)
  {
    hide Process.Is;
  }

  lemma ThreadRingTurned(ts: seq<Thread>)
    requires ThreadRing(ts)
    ensures ThreadRing(M.Rotate(ts))
  {
    var us := M.Rotate(ts);
    assert forall i :: 0 <= i < |us| ==> us[i] == ts[if i + 1 < |ts| then i + 1 else 0];
  }

  lemma ProcRingTurned(ps: seq<Process>, k: nat)
    requires ProcRing(ps) && k < |ps|
    ensures ProcRing(ps[k..] + ps[..k])
  {
    var qs := ps[k..] + ps[..k];
    assert forall i :: 0 <= i < |qs| ==> qs[i] == ps[if i < |ps| - k then k + i else i - (|ps| - k)];
  }

  class Scheduler {
    var list: Process
    var nProc: int
    var pid: int
    var schedOn: bool
    var pitTicks: nat

    /** Whose kernel stack and whose page directory the processor was given last. */
    var esp0: Thread
    var pdir: Process

    ghost var procs: seq<Process>
    ghost var model: M.State
    ghost var threads: set<Thread>

    /** Each process of the ring is what the model says, wherever `list` is. */
    ghost predicate Linked()
      reads this`procs, this`model, this`threads, procs
      reads threads`pid, threads`time, threads`main, threads`state, threads`espKernel, threads`parent, threads`next, threads`prec
    {
      ProcRing(procs) && Represent(procs, model.procs, threads)
    }

    /** The two levels of rings, without the count of processes. */
    ghost predicate Rings()
      reads this, procs, threads
    {
      && Linked() && list == procs[0]
      && model.on == schedOn && model.ticks == pitTicks && model.nextPid == pid
      && M.Good(model)
    }

    ghost predicate Valid()
      reads this, procs, threads
    {
      Rings() && nProc == |procs|
    }

    /** The running thread is on its ring, so it is one that can make a call. */
    ghost predicate Running()
      reads this`model
    {
      M.Shape(model) && model.procs[0].gone.Nobody?
    }

    /** Kernel stack and address space are the running thread's. */
    ghost predicate Loaded()
      reads this`list, this`esp0, this`pdir, list`threadList
    {
      esp0 == list.threadList && pdir == list
    }

    /** sched_init: the console process and its main thread, pid 1. */
    constructor (esp: nat, ticks: nat)
      requires ticks < M.TICK_RANGE
      ensures Valid() && M.Initial(model) && model.ticks == ticks && model.procs[0].ring[0].esp == esp
      ensures fresh(list) && fresh(list.threadList) && Loaded()
    {
      hide Process.Is, M.Good;
      ghost var m := M.Proc(false, [M.Thread(1, true, M.TIME_SLICE, esp)], M.Nobody, 1);
      var t := new Thread(1);
      t.main := true;
      var p := MakeProcess(t, esp, m);
      list, nProc, pid, schedOn, pitTicks, procs := p, 1, 2, true, ticks, [p];
      threads := {t};
      esp0, pdir := t, p;
      model := M.State([m], true, ticks, 2);
      new;
      M.InitialGood(model);
    }

    /** An operation on the first process that leaves every thread of the others alone. */
    twostate lemma FirstChanged(new m: M.Proc, new threads': set<Thread>)
      requires procs == old(procs) && |procs| > 0 && old(Represent(procs, model.procs, threads))
      requires procs[0].Is(m) && procs[0].members <= threads' && old(threads) <= threads'
      requires forall i :: 1 <= i < |procs| ==> procs[i] != procs[0] && unchanged(procs[i])
      requires forall t :: t in old(threads) && old(t.parent) != procs[0] ==> unchanged(t)
      ensures Represent(procs, old(model).procs[0 := m], threads')
    {
      hide Process.Is;
      forall i | 1 <= i < |procs| ensures procs[i].members <= threads' && procs[i].Is(old(model).procs[i]) {
        procs[i].AllItsOwn(old(model).procs[i]);
      }
    }

    /** Only next and prec change when a process is linked in. */
    twostate lemma Inserted(p: Process, new m: M.Proc)
      requires procs == old(procs) && |procs| > 0 && old(Represent(procs, model.procs, threads)) && old(p.Is(m))
      requires unchanged(p`state, p`threads, p`threadList, p`ring, p`members)
      requires unchanged(procs`state, procs`threads, procs`threadList, procs`ring, procs`members)
      requires unchanged(old(threads)) && unchanged(old(p.members))
      ensures Represent([procs[0], p] + procs[1..], [old(model).procs[0], m] + old(model).procs[1..], old(threads) + p.members)
    {
      hide Process.Is;
      var ps, ms := procs, old(model).procs;
      var qs, ns := [ps[0], p] + ps[1..], [ms[0], m] + ms[1..];
      forall i | 0 <= i < |qs| ensures qs[i].members <= old(threads) + p.members && qs[i].Is(ns[i]) {
        if i != 1 {
          var j := if i == 0 then 0 else i - 1;
          assert qs[i] == ps[j] && ns[i] == ms[j] && old(ps[j].Is(ms[j]));
        }
      }
    }

    method SaveRunning(esp: nat)
      requires Linked() && list == procs[0]
      modifies this`model, list.threadList`espKernel
      ensures |procs| == |model.procs| == |old(model).procs| > 0
      ensures model == old(model).(procs := old(model).procs[0 := M.Save(old(model).procs[0], esp)])
      ensures Linked()
    {
      hide ProcRing, Represent, Process.Is, M.Save;
      FirstOf(procs, model.procs, threads);
      ghost var m := model.procs[0];
      list.SaveStackPointer(esp, m);
      FirstChanged(M.Save(m, esp), threads);
      model := model.(procs := model.procs[0 := M.Save(m, esp)]);
    }

    method TurnRunning()
      requires Linked() && list == procs[0]
      modifies this`model, list`threadList, list`ring
      ensures |procs| == |model.procs| == |old(model).procs| > 0
      ensures model == old(model).(procs := old(model).procs[0 := M.Advance(old(model).procs[0])])
      ensures Linked()
    {
      hide ProcRing, Represent, Process.Is, M.Advance;
      FirstOf(procs, model.procs, threads);
      ghost var m := model.procs[0];
      list.TurnThreads(m);
      FirstChanged(M.Advance(m), threads);
      model := model.(procs := model.procs[0 := M.Advance(m)]);
    }

    /** The running thread is saved and its process's ring turned. */
    method LeaveRunning(esp: nat)
      requires Linked() && list == procs[0]
      modifies this`model, list`threadList, list`ring, list.threadList`espKernel
      ensures |procs| == |model.procs| == |old(model).procs| > 0
      ensures model == old(model).(procs := old(model).procs[0 := M.Advance(M.Save(old(model).procs[0], esp))])
      ensures Linked()
    {
      hide ProcRing, Represent, Process.Is, M.Save, M.Advance;
      SaveRunning(esp);
      TurnRunning();
    }

    /** Reads the same ring from another process. */
    ghost method Reread(k: nat)
      requires Linked() && k < |procs|
      modifies this`model, this`procs
      ensures |procs| == old(|procs|) == |model.procs| == old(|model.procs|)
      ensures procs == old(procs)[k..] + old(procs)[..k]
      ensures model == old(model).(procs := old(model).procs[k..] + old(model).procs[..k])
      ensures Linked()
    {
      ProcRingTurned(procs, k);
      RepresentTurned(procs, model.procs, threads, k);
      hide ProcRing, Represent;
      procs := procs[k..] + procs[..k];
      model := model.(procs := model.procs[k..] + model.procs[..k]);
    }

    ghost method RereadNext()
      requires Linked() && |procs| == |model.procs| && M.SomeActive(model.procs)
      modifies this`model, this`procs
      ensures |procs| == old(|procs|) == |model.procs| == old(|model.procs|) > 0
      ensures procs[|procs| - 1] == old(procs)[0]
      ensures model == old(model).(procs := old(model).procs[1..] + [old(model).procs[0]])
      ensures Linked() && M.SomeActive(model.procs)
    {
      hide ProcRing, Represent, M.SomeActive;
      StillActive(model.procs);
      Reread(if |procs| == 1 then 0 else 1);
      assert model.procs == old(model).procs[1..] + [old(model).procs[0]];
    }

    /** do { list = list->next; } while(list->state == PROC_STOPPED);  The second clause of the
        precondition is when the loop ends. */
    method SkipStopped()
      requires Linked() && list == procs[0]
      requires |procs| == |model.procs| && M.SomeActive(model.procs)
      modifies this`list, this`model, this`procs
      ensures Linked() && |procs| == old(|procs|) > 0 && list == procs[0]
      ensures var ps := old(model).procs[1..] + [old(model).procs[0]];
              && M.SomeActive(ps)
              && var k := M.FirstActive(ps);
                 model == old(model).(procs := ps[k..] + ps[..k])
    {
      hide ProcRing, Represent, M.SomeActive, M.FirstActive;
      RereadNext();
      ghost var k := GoToActive();
      Reread(k);
    }

    /** The loop, read from the process after `list`. */
    method GoToActive() returns (ghost k: nat)
      requires Linked() && |procs| == |model.procs| > 0
      requires list == procs[|procs| - 1] && M.SomeActive(model.procs)
      modifies this`list
      ensures k == M.FirstActive(model.procs) < |procs| && list == procs[k]
    {
      hide ProcRing, Represent, M.SomeActive, M.FirstActive;
      NextInRing(procs, |procs| - 1);
      k := 0;
      list := list.next;
      while list.state == PROC_STOPPED
        invariant 0 <= k <= M.FirstActive(model.procs) && list == procs[k]
        decreases |procs| - k
        modifies this`list
      {
        StateOf(procs, model.procs, threads, k);
        NextInRing(procs, k);
        list := list.next;
        k := k + 1;
      }
      StateOf(procs, model.procs, threads, k);
    }

    /** schedule() */
    method Schedule(esp: nat) returns (r: nat)
      requires Valid() && M.Shape(model)
      requires model.ticks > M.Head(model.procs[0]).time ==> M.SomeActive(model.procs)
      modifies this, list`threadList, list`ring, list.threadList`espKernel
      ensures Valid() && (model, r) == M.Schedule(old(model), esp)
      ensures r == if old(pitTicks) <= old(list.threadList.time) then esp else list.threadList.espKernel
      ensures if old(pitTicks) <= old(list.threadList.time) then Loaded() == old(Loaded()) else Loaded()
    {
      hide ProcRing, Represent, Process.Is, M.Save, M.Advance;
      RunningHead();
      if pitTicks <= list.threadList.time {
        return esp;
      }
      SwitchThread(esp);
      r := list.threadList.espKernel;
    }

    /** schedule() past the time-slice test. */
    method SwitchThread(esp: nat)
      requires Valid() && M.Shape(model) && M.SomeActive(model.procs)
      modifies this, list`threadList, list`ring, list.threadList`espKernel
      ensures Valid() && M.Shape(old(model)) && M.SomeActive(old(model).procs)
      ensures model == M.Switch(old(model), esp)
      ensures list.threadList.Is(M.Head(model.procs[0])) && Loaded()
    {
      hide ProcRing, Represent, Process.Is, M.Good, M.Switch, M.SomeActive;
      M.SwitchGood(model, esp);
      pitTicks := 0;
      GoOn(esp);
      esp0, pdir := list.threadList, list;
      model := model.(ticks := 0);
      RunningHead();
    }

    /** A switch on the rings. */
    method GoOn(esp: nat)
      requires Linked() && list == procs[0] && M.Shape(model) && M.SomeActive(model.procs)
      modifies this`list, this`model, this`procs, list`threadList, list`ring, list.threadList`espKernel
      ensures Linked() && |procs| == old(|procs|) > 0 && list == procs[0]
      ensures M.Shape(old(model)) && M.SomeActive(old(model).procs)
      ensures model.(ticks := 0) == M.Switch(old(model), esp)
      ensures model.on == old(model).on && model.nextPid == old(model).nextPid
    {
      hide ProcRing, Represent, Process.Is, M.Save, M.Advance, M.SomeActive, M.FirstActive, M.Good;
      M.ActiveAfterSave(model, esp);
      SavedRing(model, esp);
      LeaveRunning(esp);
      SkipStopped();
    }

    /** pit_int */
    method Interrupt(esp: nat) returns (r: nat)
      requires Valid() && M.Shape(model) && M.Enabled(model, M.Interrupt(esp))
      modifies this, list`threadList, list`ring, list.threadList`espKernel
      ensures Valid()
      ensures (model, r) == M.Tick(old(model), esp)
      ensures !M.SliceEnds(old(model)) ==> r == esp
      ensures M.SliceEnds(old(model)) ==> r == list.threadList.espKernel
      ensures if M.SliceEnds(old(model)) then Loaded() else Loaded() == old(Loaded())
      ensures model == M.Apply(old(model), M.Interrupt(esp))
    {
      hide ProcRing, Represent, Process.Is;
      RunningHead();
      pitTicks := (pitTicks + 1) % M.TICK_RANGE;
      model := model.(ticks := pitTicks);
      if schedOn {
        r := Schedule(esp);
      } else {
        r := esp;
      }
    }

    /** get_proc_by_id */
    method GetProcById(id: int) returns (p: Process?)
      requires Valid()
      ensures |procs| == |model.procs|
      ensures p == null <==> M.Find(model.procs, id) == |procs|
      ensures p != null ==> p == procs[M.Find(model.procs, id)]
    {
      hide ProcRing, Process.Is, M.Owns;
      var app := list;
      var i := 0;
      while i < nProc
        invariant 0 <= i <= nProc
        invariant app == procs[if i < nProc then i else 0]
        invariant i <= M.Find(model.procs, id)
      {
        assert M.GoodProc(model.procs[i], model.nextPid);
        var found := app.HasThread(id, model.procs[i]);
        if found {
          return app;
        }
        NextInRing(procs, i);
        app := app.next;
        i := i + 1;
      }
      p := null;
    }

    method LinkAfterList(proc: Process)
      requires ProcRing(procs) && list == procs[0] && proc !in procs
      modifies proc`next, proc`prec, list`next, list.next`prec
      ensures ProcRing([procs[0], proc] + procs[1..])
    {
      proc.prec := list;
      proc.next := list.next;
      proc.next.prec := proc;
      list.next := proc;
      assert forall i :: 2 <= i < |procs| + 1 ==> ([procs[0], proc] + procs[1..])[i] == procs[i - 1];
    }

    /** sched_add_proc, for a process that is on no ring yet. */
    method SchedAddProc(proc: Process, ghost m: M.Proc)
      requires Linked() && list == procs[0]
      requires proc !in procs && proc.Is(m)
      modifies this, proc`next, proc`prec, list`next, list.next`prec
      ensures list == old(list) && nProc == old(nProc) + 1 && schedOn && pid == old(pid) && pitTicks == old(pitTicks)
      ensures Linked() && |procs| == old(|procs|) + 1 && list == procs[0]
      ensures |old(model).procs| > 0
      ensures model == old(model).(procs := [old(model).procs[0], m] + old(model).procs[1..], on := true)
      ensures Loaded() == old(Loaded())
    {
      hide ProcRing, Process.Is, Represent;
      FirstOf(procs, model.procs, threads);
      schedOn := false;
      nProc := nProc + 1;
      LinkAfterList(proc);
      schedOn := true;
      Inserted(proc, m);
      Adopt([procs[0], proc] + procs[1..], [model.procs[0], m] + model.procs[1..], threads + proc.members);
    }

    /** The ring read anew after a process was linked in. */
    ghost method Adopt(ps: seq<Process>, ms: seq<M.Proc>, all: set<Thread>)
      requires ProcRing(ps) && Represent(ps, ms, all)
      modifies this`threads, this`procs, this`model
      ensures Linked() && procs == ps && threads == all && model == old(model).(procs := ms, on := true)
    {
      hide ProcRing, Represent;
      threads, procs, model := all, ps, model.(procs := ms, on := true);
    }

    /** create_thread; `hasMemory` is whether kmalloc finds room for the thread_t. */
    method CreateThread(hasMemory: bool) returns (t: Thread?)
      modifies this`pid
      ensures (t == null <==> !hasMemory) && pid == old(pid) + if hasMemory then 1 else 0
      ensures t != null ==>
                && fresh(t) && t.pid == old(pid) && t.time == M.TIME_SLICE && !t.main
                && t.next == t && t.prec == t && t.parent == null
    {
      if !hasMemory {
        return null;
      }
      t := new Thread(pid);
      pid := pid + 1;
    }

    /** The ring part of start_proc and start_kernel_proc.  `hasMemory` is whether there is an address
        space and memory for the thread_t, `hasFrames` whether the image, the stack, the heap and
        their contents could be built; `esp` is what stack_fill leaves in esp_kernel. */
    method StartProc(esp: nat, hasMemory: bool, hasFrames: bool) returns (id: int)
      requires Valid()
      modifies this, list`next, list.next`prec
      ensures Valid() && M.Shape(old(model))
      ensures !hasMemory ==> id == 0 && model == old(model)
      ensures hasMemory && !hasFrames ==> id == 0 && model == M.SpendPid(old(model))
      ensures hasMemory && hasFrames ==> id == old(pid) && model == M.Spawn(old(model), esp)
      ensures Loaded() == old(Loaded())
    {
      hide ProcRing, Process.Is, Represent, M.Good, M.Shape;
      RunningHead();
      var t := CreateThread(hasMemory);
      if t == null {
        return PROC_STOPPED;
      }
      t.main := true;
      if !hasFrames {
        GiveUp();
        return PROC_STOPPED;
      }
      AddSpawned(t, esp);
      id := t.pid;
    }

    /** sched_state(1) where a start fails after create_thread. */
    method GiveUp()
      requires Linked() && list == procs[0] && nProc == |procs| && model.ticks == pitTicks
      requires M.Good(model) && pid == model.nextPid + 1
      modifies this`schedOn, this`model
      ensures Valid() && model == M.SpendPid(old(model))
      ensures Loaded() == old(Loaded())
    {
      hide ProcRing, Process.Is, Represent, M.Good;
      M.GoodShape(model);
      M.FailedStartGood(model);
      schedOn := true;
      model := M.SpendPid(model);
    }

    /** start_proc from the point where nothing can fail. */
    method AddSpawned(t: Thread, esp: nat)
      requires Linked() && list == procs[0] && nProc == |procs| && model.ticks == pitTicks
      requires M.Good(model) && M.Shape(model)
      requires t !in threads && t.time == M.TIME_SLICE && t.main && t.next == t && t.prec == t
      requires t.pid == model.nextPid && pid == t.pid + 1
      modifies this, t`parent, t`espKernel, t`state, list`next, list.next`prec
      ensures Valid() && model == M.Spawn(old(model), esp)
      ensures Loaded() == old(Loaded())
    {
      hide ProcRing, Represent, M.Good;
      ghost var before := model;
      M.SpawnGood(model, esp);
      ghost var m := M.Proc(false, [M.Thread(t.pid, true, M.TIME_SLICE, esp)], M.Nobody, 1);
      var proc := MakeProcess(t, esp, m);
      SchedAddProc(proc, m);
      model := model.(nextPid := pid);
      assert model == M.Spawn(before, esp);
    }

    static method MakeProcess(t: Thread, esp: nat, ghost m: M.Proc) returns (proc: Process)
      requires t.time == M.TIME_SLICE && t.main && t.next == t && t.prec == t
      requires m == M.Proc(false, [M.Thread(t.pid, true, M.TIME_SLICE, esp)], M.Nobody, 1)
      modifies t`parent, t`espKernel, t`state
      ensures fresh(proc) && proc.members == {t} && proc.Is(m)
      ensures proc.threadList == t && proc.next == proc && proc.prec == proc
    {
      proc := new Process(t);
      t.parent, t.espKernel := proc, esp;
      t.state, proc.state := PROC_ACTIVE, PROC_ACTIVE;
    }

    /** start_thread.  `hasMemory` is whether kmalloc finds room for the thread_t, `hasFrames` whether
        the stack and the heap could be built; `esp` is what stack_fill leaves in esp_kernel. */
    method StartThread(esp: nat, hasMemory: bool, hasFrames: bool) returns (id: int)
      requires Valid() && Running()
      modifies this, list`threads, list`ring, list`members, list.threadList`next, list.threadList.next`prec
      ensures Valid()
      ensures !hasMemory ==> id == -1 && model == M.ForkWithoutMemory(old(model))
      ensures hasMemory && !hasFrames ==> id == -1 && model == M.SpendPid(old(model))
      ensures hasMemory && hasFrames ==> id == old(pid) && model == M.Fork(old(model), esp)
      ensures Loaded() == old(Loaded())
    {
      hide ProcRing, Process.Is, Represent, M.Good, M.GoodProcs, M.Shape;
      RunningHead();
      schedOn := false;
      var t := CreateThread(hasMemory);
      if t == null {
        M.FailedStartGood(model);
        model := model.(on := false);
        return -1;
      }
      t.parent := list;
      if !hasFrames {
        GiveUp();
        return -1;
      }
      AddFork(t, esp);
      id := t.pid;
    }

    /** start_thread from the point where nothing can fail. */
    method AddFork(t: Thread, esp: nat)
      requires Linked() && list == procs[0] && nProc == |procs| && model.ticks == pitTicks
      requires M.Good(model) && M.Shape(model) && model.procs[0].gone.Nobody?
      requires t !in threads && t.parent == list && t.time == M.TIME_SLICE && !t.main
      requires t.pid == model.nextPid && pid == t.pid + 1
      modifies this`model, this`threads, this`schedOn, list`threads, list`ring, list`members
      modifies t`next, t`prec, t`espKernel, t`state, list.threadList`next, list.threadList.next`prec
      ensures Valid() && model == M.Fork(old(model), esp)
      ensures Loaded() == old(Loaded())
    {
      hide ProcRing, Process.Is, Represent, M.Good;
      FirstOf(procs, model.procs, threads);
      ghost var before, m := model, model.procs[0];
      ghost var n := M.Thread(t.pid, false, M.TIME_SLICE, esp);
      ghost var m' := m.(ring := [m.ring[0], n] + m.ring[1..], count := m.count + 1);
      t.espKernel, t.state := esp, PROC_ACTIVE;
      list.InsertThread(t, m, n);
      FirstChanged(m', threads + {t});
      threads := threads + {t};
      schedOn := true;
      M.ForkGood(before, esp);
      model := M.Fork(before, esp);
    }

    /** end_proc */
    method EndProc()
      requires Valid() && Running()
      modifies this`schedOn, this`model, list`state
      ensures Valid() && model == M.EndProc(old(model))
      ensures Loaded() == old(Loaded())
    {
      hide ProcRing, Represent, Process.Is, M.Good;
      FirstOf(procs, model.procs, threads);
      RunningHead();
      M.EndGood(model);
      schedOn := false;
      ghost var m := model.procs[0].(stopped := true);
      list.state := PROC_STOPPED;
      StoppedIs(list, model.procs[0]);
      FirstChanged(m, threads);
      schedOn := true;
      model := M.EndProc(model);
    }

    /** stop_thread */
    method StopThread()
      requires Valid() && Running()
      modifies this, list`state, list`ring, list.threadList.next`prec, list.threadList.prec`next
      ensures Valid() && model == M.StopThread(old(model))
      ensures Loaded() == old(Loaded())
    {
      hide ProcRing, Represent, Process.Is, M.Good, M.GoodProcs;
      FirstOf(procs, model.procs, threads);
      RunningHead();
      if list.threadList.main {
        EndProc();
        return;
      }
      MainElsewhere(model);
      UnlinkThread();
    }

    /** stop_thread, for a thread that is not its process's main one. */
    method UnlinkThread()
      requires Valid() && Running() && !model.procs[0].ring[0].main && |model.procs[0].ring| > 1
      modifies this, list`ring, list.threadList.next`prec, list.threadList.prec`next
      ensures Valid() && model == M.StopThread(old(model))
      ensures Loaded() == old(Loaded())
    {
      hide ProcRing, Represent, Process.Is, M.Good, M.GoodProcs, M.Shape;
      FirstOf(procs, model.procs, threads);
      M.StopGood(model);
      schedOn := false;
      ghost var m := model.procs[0];
      ghost var m' := m.(ring := m.ring[1..], gone := M.Unlinked(m.ring[0]));
      list.UnlinkRunning(m);
      FirstChanged(m', threads);
      schedOn := true;
      model := M.StopThread(model);
    }

    method UnlinkFirst(app: Process)
      requires ProcRing(procs) && app == procs[0]
      modifies procs`next, procs`prec
      ensures if |procs| > 1 then ProcRing(procs[1..]) && app.next == procs[1]
              else ProcRing(procs) && app.next == app
    {
      app.prec.next := app.next;
      app.next.prec := app.prec;
    }

    /** sched_remove_proc.  Only on a ring of one does the count come apart from the ring. */
    method SchedRemoveProc(id: int)
      requires Valid() && Running()
      modifies this, procs`next, procs`prec
      ensures Rings() && |old(model).procs| == |old(procs)|
      ensures var k := M.Find(old(model).procs, id);
              && (k == |old(procs)| || |old(procs)| > 1 ==> nProc == |procs| && model == M.Remove(old(model), id))
              && (k < |old(procs)| == 1 ==> nProc == 0 && model == old(model))
              && (old(Loaded()) ==> (Loaded() <==> k + 1 >= |old(procs)|))
    {
      hide ProcRing, Represent, Process.Is, M.Good, M.Find;
      FirstOf(procs, model.procs, threads);
      var app := GetProcById(id);
      if app != null {
        ghost var k := M.Find(model.procs, id);
        if |procs| > 1 {
          M.RemoveGood(model, id);
        }
        Apart(procs);
        RemoveAt(app, k);
      }
    }

    lemma Apart(ps: seq<Process>)
      requires ProcRing(ps)
      ensures forall i :: 1 <= i < |ps| ==> ps[i] != ps[0]
    {}

    ghost method DropFirst()
      requires |procs| > 1 && Represent(procs, model.procs, threads) && ProcRing(procs[1..])
      modifies this`procs, this`model
      ensures Linked() && |model.procs| == |procs| == |old(procs)| - 1 && |old(model).procs| == |old(procs)|
      ensures procs == old(procs)[1..] && model == old(model).(procs := old(model).procs[1..])
    {
      RepresentTail(procs, model.procs, threads);
      hide ProcRing, Represent;
      procs, model := procs[1..], model.(procs := model.procs[1..]);
    }

    /** The body of sched_remove_proc's `if`, for the k-th process from `list`. */
    method RemoveAt(app: Process, ghost k: nat)
      requires Linked() && k < |procs| == |model.procs| && app == procs[k]
      modifies this`list, this`nProc, this`procs, this`model, procs`next, procs`prec
      ensures Linked() && |procs| > 0 && list == procs[0]
      ensures nProc == old(nProc) - 1 && list == old(procs)[if k + 1 < |old(procs)| then k + 1 else 0]
      ensures |old(model).procs| == |old(procs)|
      ensures |procs| == if |old(procs)| > 1 then |old(procs)| - 1 else 1
      ensures model == if |old(procs)| == 1 then old(model)
                       else old(model).(procs := old(model).procs[k + 1..] + old(model).procs[..k])
    {
      hide ProcRing, Represent;
      ghost var before := model;
      Reread(k);
      UnlinkFirst(app);
      nProc := nProc - 1;
      list := app.next;
      if |procs| > 1 {
        DropFirst();
        assert model.procs == before.procs[k + 1..] + before.procs[..k];
      } else {
        assert model.procs == before.procs;
      }
    }

    lemma RunningHead()
      requires Rings()
      ensures M.Shape(model)
      ensures list.threadList.Is(M.Head(model.procs[0]))
    {
      assert procs[0].Is(model.procs[0]);
    }
  }

  lemma FirstOf(ps: seq<Process>, ms: seq<M.Proc>, threads: set<Thread>)
    requires ProcRing(ps) && Represent(ps, ms, threads)
    ensures |ps| == |ms| > 0 && ps[0].Is(ms[0]) && ps[0].members <= threads
    ensures |ms[0].ring| > 0
    ensures ps[0].threadList.parent == ps[0] && ps[0].threadList in ps[0].members
    ensures ms[0].gone.Nobody? ==> ps[0].threadList.next in ps[0].members && ps[0].threadList.prec in ps[0].members
    ensures forall t :: t in ps[0].members ==> t.parent == ps[0]
    ensures forall i :: 1 <= i < |ps| ==> ps[i] != ps[0]
  {}

  lemma RingNonEmpty(ts: seq<Thread>)
    requires ThreadRing(ts)
    ensures |ts| > 0
  {}

  lemma NextThreadInRing(ts: seq<Thread>, t: Thread)
    requires ThreadRing(ts)
    ensures |ts| > 0
    ensures t in ts ==> t.next in ts
    ensures forall i :: 0 <= i < |ts| && ts[i] == t ==> t.next == ts[if i + 1 < |ts| then i + 1 else 0]
  {}

  lemma NextInRing(ps: seq<Process>, k: nat)
    requires ProcRing(ps) && k < |ps|
    ensures ps[k].next == ps[if k + 1 < |ps| then k + 1 else 0]
  {}

  lemma StateOf(ps: seq<Process>, ms: seq<M.Proc>, threads: set<Thread>, k: nat)
    requires Represent(ps, ms, threads) && k < |ps|
    ensures ms[k].stopped == (ps[k].state == PROC_STOPPED)
  {
    assert ps[k].Is(ms[k]);
  }

  lemma SavedRing(s: M.State, esp: nat)
    requires M.Shape(s) && M.SomeActive(s.procs)
    ensures var qs := s.procs[0 := M.Advance(M.Save(s.procs[0], esp))];
            M.SomeActive(qs) && qs[1..] + [qs[0]] == M.AfterSave(s, esp)
  {
    var i :| 0 <= i < |s.procs| && !s.procs[i].stopped;
    assert !s.procs[0 := M.Advance(M.Save(s.procs[0], esp))][i].stopped;
  }

  twostate lemma StoppedIs(p: Process, new m: M.Proc)
    requires old(p.Is(m)) && unchanged(p`threads, p`threadList, p`ring, p`members) && unchanged(old(p.members))
    requires p.state == PROC_STOPPED
    ensures p.Is(m.(stopped := true))
  {}

  lemma MainElsewhere(s: M.State)
    requires M.Good(s) && s.procs[0].gone.Nobody? && !s.procs[0].ring[0].main
    ensures |s.procs[0].ring| > 1
  {
    assert M.GoodProc(s.procs[0], s.nextPid);
  }

  lemma StillActive(ps: seq<M.Proc>)
    requires M.SomeActive(ps)
    ensures |ps| > 0 && M.SomeActive(ps[1..] + [ps[0]])
  {
    var i :| 0 <= i < |ps| && !ps[i].stopped;
    assert !(ps[1..] + [ps[0]])[if i == 0 then |ps| - 1 else i - 1].stopped;
  }
}
