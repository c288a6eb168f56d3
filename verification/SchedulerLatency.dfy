/** How long a thread can wait.  With scheduling on and nobody joining or leaving, the processes that
    are not stopped form a queue of pid queues; one switch runs the front pid of the front queue and
    sends both to the back.  Every thread's turn is therefore known exactly. */
module SchedulerLatency {
  import opened SchedulerModel

  function RingPids(ts: seq<Thread>): (r: seq<int>)
    ensures |r| == |ts| && forall i :: 0 <= i < |ts| ==> r[i] == ts[i].pid
  {
    seq(|ts|, i requires 0 <= i < |ts| => ts[i].pid)
  }

  /** The pids of each non-stopped process's ring, in ring order. */
  function Queue(ps: seq<Proc>): seq<seq<int>> {
    if ps == [] then []
    else (if ps[0].stopped then [] else [RingPids(ps[0].ring)]) + Queue(ps[1..])
  }

  /** Who runs after the current thread: the running process comes last, already turned. */
  function Upcoming(s: State): seq<seq<int>>
    requires Shape(s)
  {
    Queue(s.procs[1..] + [Advance(s.procs[0])])
  }

  function Running(s: State): int
    requires Shape(s)
  {
    Head(s.procs[0]).pid
  }

  /** One switch, on the queue alone. */
  function Serve(q: seq<seq<int>>): seq<seq<int>>
    requires |q| > 0 && |q[0]| > 0
  {
    q[1..] + [Rotate(q[0])]
  }

  ghost predicate NoEmpty(q: seq<seq<int>>) {
    forall i :: 0 <= i < |q| ==> |q[i]| > 0
  }

  // ---------------------------------------------------------------- the queue follows the rings

  lemma {:induction false} QueueSplit(a: seq<Proc>, b: seq<Proc>)
    ensures Queue(a + b) == Queue(a) + Queue(b)
  {
    if a == [] {
      assert a + b == b;
    } else {
      assert (a + b)[1..] == a[1..] + b;
      QueueSplit(a[1..], b);
    }
  }

  lemma {:induction false} QueueOfStopped(ps: seq<Proc>)
    requires forall i :: 0 <= i < |ps| ==> ps[i].stopped
    ensures Queue(ps) == []
  {
    if ps != [] {
      QueueOfStopped(ps[1..]);
    }
  }

  lemma {:induction false} QueueNonEmpty(ps: seq<Proc>)
    requires forall i :: 0 <= i < |ps| ==> |ps[i].ring| > 0
    ensures NoEmpty(Queue(ps))
    ensures |Queue(ps)| > 0 <==> SomeActive(ps)
  {
    if ps != [] {
      QueueNonEmpty(ps[1..]);
      if i :| 0 <= i < |ps| && !ps[i].stopped {
        assert i > 0 ==> !ps[1..][i - 1].stopped;
      }
    }
  }

  /** The skip loop stops at the front of the queue. */
  lemma FirstActiveIsFront(ps: seq<Proc>)
    requires SomeActive(ps)
    ensures var k := FirstActive(ps);
            Queue(ps) == [RingPids(ps[k].ring)] + Queue(ps[k + 1..]) && Queue(ps[..k]) == []
  {
    var k := FirstActive(ps);
    assert ps == ps[..k] + ps[k..];
    QueueSplit(ps[..k], ps[k..]);
    QueueOfStopped(ps[..k]);
    assert ps[k..][1..] == ps[k + 1..];
  }

  lemma SavingKeepsQueue(s: State, esp: nat)
    requires Shape(s)
    ensures Queue(AfterSave(s, esp)) == Upcoming(s)
  {
    var p := s.procs[0];
    var saved, plain := Advance(Save(p, esp)), Advance(p);
    assert RingPids(saved.ring) == RingPids(plain.ring);
    QueueSplit(s.procs[1..], [saved]);
    QueueSplit(s.procs[1..], [plain]);
    assert Queue([saved]) == Queue([plain]);
  }

  lemma RotatedPids(p: Proc)
    requires |p.ring| > 0 && p.gone.Nobody?
    ensures RingPids(Advance(p).ring) == Rotate(RingPids(p.ring))
  {}

  lemma QueueTurned(ps: seq<Proc>, k: nat)
    requires k < |ps| && |ps[k].ring| > 0 && ps[k].gone.Nobody? && !ps[k].stopped
    requires Queue(ps) == [RingPids(ps[k].ring)] + Queue(ps[k + 1..]) && Queue(ps[..k]) == []
    ensures var qs := ps[k..] + ps[..k];
            Queue(qs[1..] + [Advance(qs[0])]) == Serve(Queue(ps))
  {
    var qs := ps[k..] + ps[..k];
    var back := Advance(ps[k]);
    assert qs[1..] == ps[k + 1..] + ps[..k];
    QueueSplit(qs[1..], [back]);
    QueueSplit(ps[k + 1..], ps[..k]);
    RotatedPids(ps[k]);
    assert Queue([back]) == [RingPids(back.ring)];
  }

  /** A switch serves the queue: the front thread runs, and the queue that remains is the served one. */
  lemma SwitchServes(s: State, esp: nat)
    requires Good(s) && SomeActive(s.procs)
    ensures var u := Upcoming(s);
            && |u| > 0 && NoEmpty(u) && Good(Switch(s, esp))
            && Running(Switch(s, esp)) == u[0][0]
            && Upcoming(Switch(s, esp)) == Serve(u)
  {
    ActiveAfterSave(s, esp);
    AfterSaveGood(s, esp);
    SwitchGood(s, esp);
    SavingKeepsQueue(s, esp);
    var ps := AfterSave(s, esp);
    var k := FirstActive(ps);
    assert |ps[k].ring| > 0 && ps[k].gone.Nobody?;
    assert forall i :: 0 <= i < |ps| ==> |ps[i].ring| > 0;
    hide Good, GoodProcs, AllJoined;
    QueueNonEmpty(ps);
    FirstActiveIsFront(ps);
    QueueTurned(ps, k);
  }

  // ---------------------------------------------------------------- turns on the queue

  /** The d-th thread of the j-th queue is served first at turn j + 1 + d * |q|. */
  function Turn(q: seq<seq<int>>, j: nat, d: nat): nat {
    j + 1 + d * |q|
  }

  lemma TurnBound(q: seq<seq<int>>, j: nat, d: nat)
    requires j < |q| && d < |q[j]|
    ensures 1 <= Turn(q, j, d) <= |q| * |q[j]|
  {
    assert d * |q| <= (|q[j]| - 1) * |q|;
  }

  // ---------------------------------------------------------------- switches and ticks

  function Ticks(s: State, esps: seq<nat>): State
    requires Good(s) && SomeActive(s.procs)
    ensures Good(Ticks(s, esps)) && SomeActive(Ticks(s, esps).procs)
    decreases |esps|
  {
    if esps == [] then s
    else
      TickKeeps(s, esps[0]);
      Ticks(Tick(s, esps[0]).0, esps[1..])
  }

  lemma TickKeeps(s: State, esp: nat)
    requires Good(s) && SomeActive(s.procs)
    ensures var t := Tick(s, esp).0; Good(t) && SomeActive(t.procs) && t.on == s.on
  {
    ApplyGood(s, Interrupt(esp));
    if SliceEnds(s) {
      SwitchShape(s.(ticks := (s.ticks + 1) % TICK_RANGE), esp);
    }
  }

  lemma {:induction false} TicksSplit(s: State, a: seq<nat>, b: seq<nat>)
    requires Good(s) && SomeActive(s.procs)
    ensures Ticks(s, a + b) == Ticks(Ticks(s, a), b)
    decreases |a|
  {
    if a == [] {
      assert a + b == b;
    } else {
      assert (a + b)[1..] == a[1..] + b;
      TickKeeps(s, a[0]);
      TicksSplit(Tick(s, a[0]).0, a[1..], b);
    }
  }

  /** Ticks until the slice ends: 11 from a fresh slice, and one more when the counter is about to
      wrap to zero. */
  function TicksToSwitch(ticks: nat): nat {
    if ticks == TICK_RANGE - 1 then TIME_SLICE + 2
    else if ticks >= TIME_SLICE then 1
    else TIME_SLICE + 1 - ticks
  }

  lemma OneTick(s: State, esp: nat)
    requires Good(s) && SomeActive(s.procs) && s.on
    ensures Tick(s, esp).0 ==
            if TicksToSwitch(s.ticks) == 1 then Switch(s, esp) else s.(ticks := (s.ticks + 1) % TICK_RANGE)
  {
    hide Good, Switch, Head, SomeActive;
    HeadSlice(s);
    SwitchForgetsTicks(s, (s.ticks + 1) % TICK_RANGE, esp);
  }

  lemma HeadSlice(s: State)
    requires Good(s)
    ensures Shape(s) && Head(s.procs[0]).time == TIME_SLICE && s.ticks < TICK_RANGE
  {
    assert GoodProc(s.procs[0], s.nextPid);
  }

  lemma {:induction false} SliceRunsOut(s: State, esps: seq<nat>)
    requires Good(s) && SomeActive(s.procs) && s.on
    requires |esps| == if s.ticks == 255 then 12 else if s.ticks >= 10 then 1 else 11 - s.ticks
    ensures Ticks(s, esps) == Switch(s, esps[|esps| - 1])
    decreases |esps|
  {
    hide Good, Tick, Switch, SomeActive;
    GoodShape(s);
    TickKeeps(s, esps[0]);
    OneTick(s, esps[0]);
    var t := Tick(s, esps[0]).0;
    if |esps| > 1 {
      SliceRunsOut(t, esps[1..]);
      SwitchForgetsTicks(s, t.ticks, esps[|esps| - 1]);
    } else {
      assert esps[1..] == [];
    }
  }

  lemma SwitchForgetsTicks(s: State, ticks: nat, esp: nat)
    requires Good(s) && SomeActive(s.procs)
    ensures Switch(s.(ticks := ticks), esp) == Switch(s, esp)
  {}

  /** Timer ticks to the n-th switch. */
  function TicksToTurn(ticks: nat, n: nat): nat
    requires n >= 1
  {
    TicksToSwitch(ticks) + (n - 1) * (TIME_SLICE + 1)
  }

  lemma Switched(s: State, esp: nat) returns (t: State)
    requires Good(s) && SomeActive(s.procs)
    ensures Shape(s) && t == Switch(s, esp)
    ensures Good(t) && SomeActive(t.procs) && t.on == s.on && t.ticks == 0
    ensures |Upcoming(s)| > 0 && NoEmpty(Upcoming(s))
    ensures Running(t) == Upcoming(s)[0][0] && Upcoming(t) == Serve(Upcoming(s))
  {
    t := Switch(s, esp);
    SwitchServes(s, esp);
    SwitchShape(s, esp);
  }

  /** Up to the first switch nothing moves; what follows runs from the switched state. */
  lemma ThroughSwitch(s: State, esps: seq<nat>) returns (t: State)
    requires Good(s) && SomeActive(s.procs) && s.on && |esps| >= TicksToSwitch(s.ticks)
    ensures Good(t) && SomeActive(t.procs) && t.on && t.ticks == 0
    ensures Ticks(s, esps) == Ticks(t, esps[TicksToSwitch(s.ticks)..])
    ensures |Upcoming(s)| > 0 && NoEmpty(Upcoming(s))
    ensures Running(t) == Upcoming(s)[0][0] && Upcoming(t) == Serve(Upcoming(s))
  {
    hide Good, Serve, Upcoming, SomeActive;
    var n := TicksToSwitch(s.ticks);
    t := Switched(s, esps[n - 1]);
    SliceRunsOut(s, esps[..n]);
    TicksSplit(s, esps[..n], esps[n..]);
    assert esps[..n] + esps[n..] == esps;
  }

  /** The exact turn: whatever stack pointers the interrupts deliver and whatever the 8-bit counter
      holds, the d-th thread of the j-th upcoming process starts to run at switch Turn(q, j, d). */
  lemma {:induction false} ExactTurn(s: State, j: nat, d: nat, esps: seq<nat>)
    requires Good(s) && SomeActive(s.procs) && s.on
    requires j < |Upcoming(s)| && d < |Upcoming(s)[j]|
    requires |esps| == TicksToTurn(s.ticks, Turn(Upcoming(s), j, d))
    ensures Running(Ticks(s, esps)) == Upcoming(s)[j][d]
    ensures Ticks(s, esps).ticks == 0
    decreases Turn(Upcoming(s), j, d)
  {
    hide Good, SomeActive, Upcoming, Turn, Serve;
    GoodShape(s);
    var u, n := Upcoming(s), TicksToSwitch(s.ticks);
    TurnBound(u, j, d);
    var t := ThroughSwitch(s, esps);
    if j == 0 && d == 0 {
      assert Turn(u, 0, 0) == 1 by { FirstTurn(u); }
      assert esps[n..] == [];
    } else {
      var j', d' := TurnStep(u, j, d);
      ExactTurn(t, j', d', esps[n..]);
    }
  }

  lemma FirstTurn(u: seq<seq<int>>)
    ensures Turn(u, 0, 0) == 1
  {}

  /** Where a thread that is not at the very front waits after one turn. */
  lemma TurnStep(u: seq<seq<int>>, j: nat, d: nat) returns (j': nat, d': nat)
    requires j < |u| && d < |u[j]| && |u[0]| > 0 && (j > 0 || d > 0)
    ensures j' < |Serve(u)| && d' < |Serve(u)[j']| && Serve(u)[j'][d'] == u[j][d] && |Serve(u)[j']| == |u[j]|
    ensures Turn(Serve(u), j', d') == Turn(u, j, d) - 1
  {
    j', d' := if j > 0 then j - 1 else |u| - 1, if j > 0 then d else d - 1;
    assert (d - 1) * |u| == d * |u| - |u|;
  }

  // ---------------------------------------------------------------- the bound, for any thread

  function CountActive(ps: seq<Proc>): nat {
    if ps == [] then 0 else (if ps[0].stopped then 0 else 1) + CountActive(ps[1..])
  }

  lemma {:induction false} QueueLength(ps: seq<Proc>)
    ensures |Queue(ps)| == CountActive(ps)
  {
    if ps != [] {
      QueueLength(ps[1..]);
    }
  }

  lemma {:induction false} PlaceInQueue(ps: seq<Proc>, i: nat) returns (j: nat)
    requires i < |ps| && !ps[i].stopped
    ensures j < |Queue(ps)| && Queue(ps)[j] == RingPids(ps[i].ring)
  {
    if i == 0 {
      j := 0;
    } else {
      j := PlaceInQueue(ps[1..], i - 1);
      j := if ps[0].stopped then j else j + 1;
    }
  }

  lemma UpcomingLength(s: State)
    requires Shape(s)
    ensures |Upcoming(s)| == CountActive(s.procs)
  {
    var back := [Advance(s.procs[0])];
    QueueSplit(s.procs[1..], back);
    QueueLength(s.procs);
    QueueLength(s.procs[1..]);
    assert CountActive(back) == if s.procs[0].stopped then 0 else 1;
    QueueLength(back);
  }

  /** Where the d-th thread of the i-th process waits. */
  lemma PlaceOf(s: State, i: nat, d: nat) returns (j: nat, d': nat)
    requires Good(s)
    requires i < |s.procs| && !s.procs[i].stopped && d < |s.procs[i].ring|
    ensures j < |Upcoming(s)| && |Upcoming(s)[j]| == |s.procs[i].ring|
    ensures d' < |Upcoming(s)[j]| && Upcoming(s)[j][d'] == s.procs[i].ring[d].pid
  {
    var ps := s.procs[1..] + [Advance(s.procs[0])];
    var p := s.procs[i];
    var i' := if i == 0 then |ps| - 1 else i - 1;
    j := PlaceInQueue(ps, i');
    d' := if i > 0 || p.gone.Unlinked? then d else if d == 0 then |p.ring| - 1 else d - 1;
  }

  /** The latency bound.  With m processes not stopped, every thread of one of them whose ring has t
      threads starts to run within m * t switches and 11 * m * t + 1 timer ticks, from any state and
      any value of the 8-bit counter. */
  lemma {:induction false} LatencyBound(s: State, i: nat, d: nat, esps: seq<nat>) returns (k: nat, n: nat)
    requires Good(s) && s.on
    requires i < |s.procs| && !s.procs[i].stopped && d < |s.procs[i].ring|
    requires |esps| >= (TIME_SLICE + 1) * (CountActive(s.procs) * |s.procs[i].ring|) + 1
    ensures SomeActive(s.procs)
    ensures 1 <= k <= CountActive(s.procs) * |s.procs[i].ring|
    ensures n == TicksToTurn(s.ticks, k)
    ensures n <= (TIME_SLICE + 1) * (CountActive(s.procs) * |s.procs[i].ring|) + 1
    ensures Running(Ticks(s, esps[..n])) == s.procs[i].ring[d].pid
    ensures Ticks(s, esps[..n]).ticks == 0
  {
    var j, d' := PlaceOf(s, i, d);
    UpcomingLength(s);
    var u := Upcoming(s);
    k := Turn(u, j, d');
    TurnBound(u, j, d');
    n := TicksToTurn(s.ticks, k);
    hide Good, Upcoming, Turn;
    ExactTurn(s, j, d', esps[..n]);
  }
}
