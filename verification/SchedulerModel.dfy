/** The scheduler as a state machine on values: what one timer interrupt, one process creation,
    one fork, one exit and one removal do to the two levels of rings of proc/sched.c and
    proc/thread.c.  Module Scheduler proves that the pointer code takes exactly these steps.

    A ring is written as the sequence met by following `next`: the process ring starts at `list`,
    the thread ring of a process at its `thread_list`. */
module SchedulerModel {

  /** The fields of thread_t that scheduling reads or writes. */
  datatype Thread = Thread(pid: int, main: bool, time: int, esp: nat)

  datatype Departed = Nobody | Unlinked(thread: Thread)

  /** `gone` is a thread that stop_thread has unlinked while `thread_list` still points at it. */
  datatype Proc = Proc(stopped: bool, ring: seq<Thread>, gone: Departed, count: int)

  datatype State = State(procs: seq<Proc>, on: bool, ticks: nat, nextPid: int)

  const TIME_SLICE := 10
  const TICK_RANGE := 256

  // ---------------------------------------------------------------- one step of each operation

  function Rotate<T>(s: seq<T>): seq<T> {
    if s == [] then s else s[1..] + [s[0]]
  }

  /** *thread_list */
  function Head(p: Proc): Thread
    requires |p.ring| > 0
  {
    if p.gone.Unlinked? then p.gone.thread else p.ring[0]
  }

  /** thread_list->esp_kernel = esp */
  function Save(p: Proc, esp: nat): Proc {
    if p.gone.Unlinked? then p.(gone := Unlinked(p.gone.thread.(esp := esp)))
    else if p.ring == [] then p
    else p.(ring := p.ring[0 := p.ring[0].(esp := esp)])
  }

  /** thread_list = thread_list->next.  An unlinked thread still points into the ring it left. */
  function Advance(p: Proc): Proc {
    if p.gone.Unlinked? then p.(gone := Nobody) else p.(ring := Rotate(p.ring))
  }

  predicate SomeActive(ps: seq<Proc>) {
    exists i :: 0 <= i < |ps| && !ps[i].stopped
  }

  /** Where the do-while of schedule() stops, counted in steps after the first. */
  function FirstActive(ps: seq<Proc>): (k: nat)
    requires SomeActive(ps)
    ensures k < |ps| && !ps[k].stopped
    ensures forall i :: 0 <= i < k ==> ps[i].stopped
  {
    if !ps[0].stopped then 0 else 1 + FirstActive(ps[1..])
  }

  ghost predicate Shape(s: State) {
    && |s.procs| > 0
    && forall i :: 0 <= i < |s.procs| ==> |s.procs[i].ring| > 0
  }

  /** The process ring after the outgoing thread is saved and its process's ring turned, read from
      the process after `list`. */
  function AfterSave(s: State, esp: nat): seq<Proc>
    requires Shape(s)
  {
    s.procs[1..] + [Advance(Save(s.procs[0], esp))]
  }

  /** The part of schedule() past the time-slice test. */
  function Switch(s: State, esp: nat): State
    requires Shape(s) && SomeActive(s.procs)
  {
    ActiveAfterSave(s, esp);
    var ps := AfterSave(s, esp);
    var k := FirstActive(ps);
    s.(procs := ps[k..] + ps[..k], ticks := 0)
  }

  /** schedule(): the new state and the stack pointer it returns.  With every process stopped the
      do-while never ends, which matters only when it is reached. */
  function Schedule(s: State, esp: nat): (State, nat)
    requires Shape(s)
    requires s.ticks > Head(s.procs[0]).time ==> SomeActive(s.procs)
  {
    if s.ticks <= Head(s.procs[0]).time then (s, esp)
    else
      SwitchShape(s, esp);
      var t := Switch(s, esp);
      (t, Head(t.procs[0]).esp)
  }

  /** Whether the next timer interrupt ends the running thread's time slice. */
  predicate SliceEnds(s: State)
    requires Shape(s)
  {
    s.on && (s.ticks + 1) % TICK_RANGE > Head(s.procs[0]).time
  }

  /** The timer interrupt: an 8-bit increment, then schedule() if scheduling is on. */
  function Tick(s: State, esp: nat): (State, nat)
    requires Shape(s) && (SliceEnds(s) ==> SomeActive(s.procs))
  {
    var t := s.(ticks := (s.ticks + 1) % TICK_RANGE);
    if s.on then Schedule(t, esp) else (t, esp)
  }

  /** start_proc / start_kernel_proc: a new pid and a one-thread process linked in after `list`. */
  function Spawn(s: State, esp: nat): State
    requires Shape(s)
  {
    var p := Proc(false, [Thread(s.nextPid, true, TIME_SLICE, esp)], Nobody, 1);
    s.(procs := [s.procs[0], p] + s.procs[1..], on := true, nextPid := s.nextPid + 1)
  }

  /** start_thread: a new thread linked in after the running one. */
  function Fork(s: State, esp: nat): State
    requires Shape(s)
  {
    var p, t := s.procs[0], Thread(s.nextPid, false, TIME_SLICE, esp);
    s.(procs := s.procs[0 := p.(ring := [p.ring[0], t] + p.ring[1..], count := p.count + 1)],
    on := true, nextPid := s.nextPid + 1)
  }

  /** start_thread when there is no memory for a thread_t: scheduling stays off. */
  function ForkWithoutMemory(s: State): State {
    s.(on := false)
  }

  /** start_thread, and start_proc, when the image, the stack or the heap cannot be built after
      create_thread: the pid is spent. */
  function SpendPid(s: State): State {
    s.(on := true, nextPid := s.nextPid + 1)
  }

  function EndProc(s: State): State
    requires Shape(s)
  {
    s.(procs := s.procs[0 := s.procs[0].(stopped := true)], on := true)
  }

  /** stop_thread.  A main thread ends the process; any other is unlinked but stays `thread_list`. */
  function StopThread(s: State): State
    requires Shape(s)
  {
    var p := s.procs[0];
    if p.ring[0].main then EndProc(s)
    else s.(procs := s.procs[0 := p.(ring := p.ring[1..], gone := Unlinked(p.ring[0]))], on := true)
  }

  predicate Owns(p: Proc, id: int) {
    || (p.gone.Unlinked? && p.gone.thread.pid == id)
    || exists j :: 0 <= j < |p.ring| && p.ring[j].pid == id
  }

  /** get_proc_by_id: the number of steps from `list` to the owner, or |ps| for NULL. */
  function Find(ps: seq<Proc>, id: int): (k: nat)
    ensures k <= |ps|
    ensures k < |ps| ==> Owns(ps[k], id)
    ensures forall i :: 0 <= i < k ==> !Owns(ps[i], id)
  {
    if ps == [] || Owns(ps[0], id) then 0 else 1 + Find(ps[1..], id)
  }

  /** sched_remove_proc on a ring of at least two: `list` always moves to the successor. */
  function Remove(s: State, id: int): State
  {
    var k := Find(s.procs, id);
    if k == |s.procs| then s else s.(procs := s.procs[k + 1..] + s.procs[..k])
  }

  // ---------------------------------------------------------------- the invariant of every run

  ghost function Pids(p: Proc): set<int> {
    (set t | t in p.ring :: t.pid) + (if p.gone.Unlinked? then {p.gone.thread.pid} else {})
  }

  ghost predicate DistinctPids(ts: seq<Thread>) {
    forall i, j :: 0 <= i < j < |ts| ==> ts[i].pid != ts[j].pid
  }

  /** Thread j of a ring is its one main thread. */
  ghost predicate OnlyMain(ts: seq<Thread>, j: int) {
    forall i :: 0 <= i < |ts| ==> (ts[i].main <==> i == j)
  }

  ghost predicate GoodProc(p: Proc, nextPid: int) {
    && |p.ring| > 0
    && (exists j :: 0 <= j < |p.ring| && OnlyMain(p.ring, j))
    && (forall j :: 0 <= j < |p.ring| ==> p.ring[j].time == TIME_SLICE && p.ring[j].pid < nextPid)
    && DistinctPids(p.ring)
    && p.count >= |p.ring| + (if p.gone.Unlinked? then 1 else 0)
    && (p.gone.Unlinked? ==>
          && p.gone.thread.time == TIME_SLICE && p.gone.thread.pid < nextPid && !p.gone.thread.main
          && forall j :: 0 <= j < |p.ring| ==> p.ring[j].pid != p.gone.thread.pid)
  }

  ghost predicate GoodProcs(ps: seq<Proc>, nextPid: int) {
    && (forall i :: 0 <= i < |ps| ==> GoodProc(ps[i], nextPid))
    && (forall i, j :: 0 <= i < j < |ps| ==> Pids(ps[i]) !! Pids(ps[j]))
  }

  /** Rings are non-empty and hold one main thread each, pids are unique and were all handed out, `threads`
      is at least the ring's length, and only the running process can have an unlinked thread. */
  ghost predicate Good(s: State) {
    && |s.procs| > 0
    && s.ticks < TICK_RANGE
    && GoodProcs(s.procs, s.nextPid)
    && forall i :: 1 <= i < |s.procs| ==> s.procs[i].gone.Nobody?
  }

  lemma GoodShape(s: State)
    requires Good(s)
    ensures Shape(s)
  {}

  lemma ActiveAfterSave(s: State, esp: nat)
    requires Shape(s)
    ensures SomeActive(s.procs) <==> SomeActive(AfterSave(s, esp))
  {
    var ps := AfterSave(s, esp);
    assert ps[|ps| - 1].stopped == s.procs[0].stopped;
    assert forall i :: 1 <= i < |ps| ==> ps[i - 1] == s.procs[i];
    if i :| 0 <= i < |ps| && !ps[i].stopped {
      assert !s.procs[if i == |ps| - 1 then 0 else i + 1].stopped;
    }
  }

  lemma {:induction false} SwitchShape(s: State, esp: nat)
    requires Shape(s) && SomeActive(s.procs)
    ensures Shape(Switch(s, esp))
    ensures !Switch(s, esp).procs[0].stopped
  {
    ActiveAfterSave(s, esp);
    var ps := AfterSave(s, esp);
    var k := FirstActive(ps);
    var qs := Switch(s, esp).procs;
    forall i | 0 <= i < |qs| ensures |qs[i].ring| > 0 {
      assert qs[i] == ps[if i < |ps| - k then k + i else i - (|ps| - k)];
    }
  }

  // ---------------------------------------------------------------- runs

  datatype Event =
    | Interrupt(esp: nat)
    | Spawned(esp: nat)
    | Forked(esp: nat)
    | ForkedWithoutMemory
    | ForkedWithoutFrames
    | SpawnedWithoutMemory
    | SpawnedWithoutFrames
    | ThreadStopped
    | ProcEnded
    | Removed(id: int)

  /** Interrupts need an active process only when they switch.  Everything else is executed by the
      running thread, which is then not one that has stopped itself and is spinning.  Removing the
      only process of the ring would leave a ring with none. */
  ghost predicate Enabled(s: State, e: Event)
    requires Shape(s)
  {
    match e
    case Interrupt(_) => SliceEnds(s) ==> SomeActive(s.procs)
    case Removed(id) => s.procs[0].gone.Nobody? && (Find(s.procs, id) < |s.procs| ==> |s.procs| >= 2)
    case _ => s.procs[0].gone.Nobody?
  }

  ghost function Apply(s: State, e: Event): State
    requires Shape(s) && Enabled(s, e)
  {
    match e
    case Interrupt(esp) => Tick(s, esp).0
    case Spawned(esp) => Spawn(s, esp)
    case Forked(esp) => Fork(s, esp)
    case ForkedWithoutMemory => ForkWithoutMemory(s)
    case ForkedWithoutFrames => SpendPid(s)
    case SpawnedWithoutMemory => s
    case SpawnedWithoutFrames => SpendPid(s)
    case ThreadStopped => StopThread(s)
    case ProcEnded => EndProc(s)
    case Removed(id) => Remove(s, id)
  }

  /** What sched_init leaves: one process with one thread of pid 1, scheduling on. */
  ghost predicate Initial(s: State) {
    && s.on && s.ticks < TICK_RANGE && s.nextPid == 2
    && exists esp: nat :: s.procs == [Proc(false, [Thread(1, true, TIME_SLICE, esp)], Nobody, 1)]
  }

  lemma InitialGood(s: State)
    requires Initial(s)
    ensures Good(s)
  {
    assert OnlyMain(s.procs[0].ring, 0);
  }

  lemma RotatedGood(ps: seq<Proc>, k: nat, nextPid: int)
    requires k <= |ps| && GoodProcs(ps, nextPid)
    ensures GoodProcs(ps[k..] + ps[..k], nextPid)
  {
    var qs, n := ps[k..] + ps[..k], |ps| - k;
    forall i | 0 <= i < |qs| ensures qs[i] == ps[if i < n then k + i else i - n] {}
  }

  /** Replacing one process keeps the rest apart when its new pids are its own or not yet handed out. */
  lemma ReplacedGood(ps: seq<Proc>, i: nat, q: Proc, nextPid: int, nextPid': int)
    requires i < |ps| && GoodProcs(ps, nextPid)
    requires nextPid <= nextPid' && GoodProc(q, nextPid')
    requires forall id :: id in Pids(q) ==> id in Pids(ps[i]) || id >= nextPid
    ensures GoodProcs(ps[i := q], nextPid')
  {
    forall j | 0 <= j < |ps| && j != i ensures Pids(ps[j]) !! Pids(q) {
      assert forall id :: id in Pids(ps[j]) ==> id < nextPid;
    }
  }

  lemma AdvanceGood(p: Proc, esp: nat, nextPid: int)
    requires GoodProc(p, nextPid)
    ensures GoodProc(Advance(Save(p, esp)), nextPid)
    ensures Advance(Save(p, esp)).gone.Nobody?
    ensures Pids(Advance(Save(p, esp))) <= Pids(p)
  {
    var q := Save(p, esp);
    var r := Advance(q);
    if p.gone.Nobody? {
      assert q.ring[0].pid == p.ring[0].pid && forall j :: 1 <= j < |p.ring| ==> q.ring[j] == p.ring[j];
      forall j | 0 <= j < |r.ring| ensures r.ring[j] == q.ring[if j + 1 < |p.ring| then j + 1 else 0] {}
      var m :| 0 <= m < |p.ring| && OnlyMain(p.ring, m);
      assert OnlyMain(r.ring, if m == 0 then |p.ring| - 1 else m - 1);
    }
  }

  ghost predicate AllJoined(ps: seq<Proc>) {
    forall i :: 0 <= i < |ps| ==> ps[i].gone.Nobody?
  }

  lemma AfterSaveGood(s: State, esp: nat)
    requires Good(s)
    ensures GoodProcs(AfterSave(s, esp), s.nextPid) && AllJoined(AfterSave(s, esp))
  {
    AdvanceGood(s.procs[0], esp, s.nextPid);
    var q := Advance(Save(s.procs[0], esp));
    var saved := s.procs[0 := q];
    ReplacedGood(s.procs, 0, q, s.nextPid, s.nextPid);
    RotatedGood(saved, 1, s.nextPid);
    assert saved[1..] + saved[..1] == AfterSave(s, esp);
  }

  lemma SwitchGood(s: State, esp: nat)
    requires Good(s) && SomeActive(s.procs)
    ensures Good(Switch(s, esp))
    ensures AllJoined(Switch(s, esp).procs)
  {
    ActiveAfterSave(s, esp);
    AfterSaveGood(s, esp);
    var ps := AfterSave(s, esp);
    RotatedGood(ps, FirstActive(ps), s.nextPid);
  }

  lemma PidsHandedOut(p: Proc, nextPid: int)
    requires GoodProc(p, nextPid)
    ensures forall id :: id in Pids(p) ==> id < nextPid
    ensures GoodProc(p, nextPid + 1)
  {}

  lemma InsertedGood(ps: seq<Proc>, p: Proc, nextPid: int)
    requires |ps| > 0 && GoodProcs(ps, nextPid)
    requires GoodProc(p, nextPid + 1) && Pids(p) == {nextPid}
    ensures GoodProcs([ps[0], p] + ps[1..], nextPid + 1)
  {
    hide GoodProc, Pids;
    var qs := [ps[0], p] + ps[1..];
    forall i | 0 <= i < |ps| ensures GoodProc(ps[i], nextPid + 1) && Pids(ps[i]) !! Pids(p) {
      PidsHandedOut(ps[i], nextPid);
    }
    forall i | 0 <= i < |qs| && i != 1 ensures qs[i] == ps[if i == 0 then 0 else i - 1] {}
  }

  lemma SpawnGood(s: State, esp: nat)
    requires Good(s)
    ensures Good(Spawn(s, esp))
  {
    hide GoodProcs;
    GoodShape(s);
    var p := Spawn(s, esp).procs[1];
    assert OnlyMain(p.ring, 0) && Pids(p) == {s.nextPid};
    InsertedGood(s.procs, p, s.nextPid);
  }

  lemma ForkGood(s: State, esp: nat)
    requires Good(s) && s.procs[0].gone.Nobody?
    ensures Good(Fork(s, esp))
  {
    var t := Fork(s, esp);
    var p, q := s.procs[0], t.procs[0];
    assert forall j :: 2 <= j < |q.ring| ==> q.ring[j] == p.ring[j - 1];
    var m :| 0 <= m < |p.ring| && OnlyMain(p.ring, m);
    assert OnlyMain(q.ring, if m == 0 then 0 else m + 1);
    ReplacedGood(s.procs, 0, q, s.nextPid, t.nextPid);
  }

  lemma {:induction false} FailedStartGood(s: State)
    requires Good(s)
    ensures Good(ForkWithoutMemory(s)) && Good(SpendPid(s))
  {
    assert forall i :: 0 <= i < |s.procs| ==> GoodProc(s.procs[i], s.nextPid);
  }

  lemma EndGood(s: State)
    requires Good(s)
    ensures Good(EndProc(s))
  {
    var p := s.procs[0];
    var q := p.(stopped := true);
    assert Pids(q) == Pids(p);
    ReplacedGood(s.procs, 0, q, s.nextPid, s.nextPid);
  }

  lemma {:induction false} StopGood(s: State)
    requires Good(s) && s.procs[0].gone.Nobody?
    ensures Good(StopThread(s))
  {
    var p, q := s.procs[0], StopThread(s).procs[0];
    if p.ring[0].main {
      EndGood(s);
    } else {
      assert forall j :: 0 <= j < |q.ring| ==> q.ring[j] == p.ring[j + 1];
      var m :| 0 <= m < |p.ring| && OnlyMain(p.ring, m);
      assert OnlyMain(q.ring, m - 1);
      ReplacedGood(s.procs, 0, q, s.nextPid, s.nextPid);
    }
  }

  lemma DroppedGood(ps: seq<Proc>, k: nat, nextPid: int)
    requires k < |ps| && GoodProcs(ps, nextPid)
    ensures GoodProcs(ps[k + 1..] + ps[..k], nextPid)
  {
    RotatedGood(ps, k, nextPid);
    var qs := ps[k..] + ps[..k];
    assert qs[1..] == ps[k + 1..] + ps[..k];
  }

  lemma {:induction false} RemoveGood(s: State, id: int)
    requires Good(s) && s.procs[0].gone.Nobody?
    requires Find(s.procs, id) < |s.procs| ==> |s.procs| >= 2
    ensures Good(Remove(s, id))
  {
    var k := Find(s.procs, id);
    if k < |s.procs| {
      DroppedGood(s.procs, k, s.nextPid);
      assert AllJoined(s.procs);
    }
  }

  /** Every operation keeps the invariant. */
  lemma ApplyGood(s: State, e: Event)
    requires Good(s) && Enabled(s, e)
    ensures Good(Apply(s, e))
  {
    match e
    case Interrupt(esp) =>
      if SliceEnds(s) {
        SwitchGood(s.(ticks := (s.ticks + 1) % TICK_RANGE), esp);
      }
    case Spawned(esp) => SpawnGood(s, esp);
    case Forked(esp) => ForkGood(s, esp);
    case ForkedWithoutMemory => FailedStartGood(s);
    case ForkedWithoutFrames => FailedStartGood(s);
    case SpawnedWithoutMemory =>
    case SpawnedWithoutFrames => FailedStartGood(s);
    case ThreadStopped => StopGood(s);
    case ProcEnded => EndGood(s);
    case Removed(id) => RemoveGood(s, id);
  }
}
