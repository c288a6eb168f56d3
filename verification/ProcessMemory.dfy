/** Where the page tables and the block allocator meet: vmm_map and vmm_unmap of mm/vmm.c, and the
    frames proc/proc.c gives a thread and takes back. */
module ProcessMemory {
  import opened Bits
  import opened PageTables
  import opened PhysicalMemory

  const KERNEL_FLAGS := PageTables.PAGE_PRESENT + PageTables.PAGE_RW
  const USER_FLAGS := PageTables.PAGE_PRESENT + PageTables.PAGE_RW + PageTables.PAGE_USER

  /** The addresses of thread_t that proc.c computes. */
  class ThreadMemory {
    var imageBase: word
    var imageSize: word
    var esp: word
    var stackLimit: word
    var espKernel: word
    var stackKernelLimit: word
    var heap: word
    var heapLimit: word
  }

  /** The number of a physical block a page table entry can hold. */
  type Frame = f: int | 0 <= f < 0x10_0000

  /** The frame an entry of a page table holds; 0 when it is empty. */
  ghost function FrameIn(entry: word): Frame {
    entry / PAGE_SIZE
  }

  /** An unsigned 32-bit result. */
  function Wrapped(x: int): (w: word)
    ensures 0 <= x < WORD_RANGE ==> w == x
  {
    x % WORD_RANGE
  }

  /** Where the stack and the heap of the thread with index n start, above an image of so many bytes. */
  function StackStart(image: nat, n: nat): nat {
    image + Offset(n)
  }

  function HeapStart(image: nat, n: nat): nat {
    image + 2 * Offset(n) + 2 * PAGE_SIZE
  }

  function Offset(n: nat): nat {
    PAGE_SIZE * 6 * n
  }

  /** The i-th page from `page` on; after the last page of an address space comes the first. */
  function PageAfter(page: nat, i: nat): (p: nat)
    ensures p < PAGES && (page + i < PAGES ==> p == page + i)
  {
    (page + i) % PAGES
  }

  /** Pages page, page + 1, ... of both directories mapped to the frames. */
  ghost function Shared(flat: map<(nat, nat), word>, kern: nat, d: nat, page: nat, frames: seq<Frame>): map<(nat, nat), word>
  {
    if frames == [] then flat
    else
      var n := |frames| - 1;
      Shared(flat, kern, d, page, frames[..n])
        [(kern, PageAfter(page, n)) := frames[n] * PAGE_SIZE + KERNEL_FLAGS]
        [(d, PageAfter(page, n)) := frames[n] * PAGE_SIZE + USER_FLAGS]
  }

  /** The word that maps a page to a frame by its number. */
  ghost function FrameEntry(frame: Frame, flags: word): word
    requires flags < PAGE_SIZE
  {
    frame * PAGE_SIZE + flags
  }

  /** What vmm_map_phys writes for a user when get_phys_addr has read an entry. */
  ghost function UserEntry(entry: word): word {
    entry / PAGE_SIZE * PAGE_SIZE + USER_FLAGS
  }

  ghost function SlotIn(slots: map<(nat, nat), word>, d: nat, i: nat): word {
    if (d, i) in slots then slots[(d, i)] else 0
  }

  /** A user entry as the processor finds it: a table made for it lets users through, and one that was there
      before as far as it did. */
  ghost function UserSees(slot: word, frame: Frame): Translation {
    if slot == 0 then To(frame, true, true) else Seen(slot, frame * PAGE_SIZE + USER_FLAGS)
  }

  ghost predicate NoUser(t: Translation) {
    t.Fault? || !t.user
  }

  /** User code reaches its own pages if and only if their directory slot was empty before or had a table
      entered as present and for users. */
  lemma UserExactly(slot: word, frame: Frame)
    ensures NoUser(UserSees(slot, frame)) <==> slot != 0 && !(slot % 2 == 1 && slot / 4 % 2 == 1)
    ensures UserSees(slot, frame).To? ==> UserSees(slot, frame).frame == frame
  {
    LowBits3(frame, 7);
  }

  lemma UserSeen(was: word, now: word, frame: Frame)
    requires now == was || (was == 0 && now % 4096 == 7)
    requires now != 0
    ensures Seen(now, frame * PAGE_SIZE + USER_FLAGS) == UserSees(was, frame)
    ensures FrameIn(frame * PAGE_SIZE + USER_FLAGS) == frame
  {
    if was == 0 {
      var q := now / 4096;
      assert now == 4096 * q + 7;
      LowBits3(q, 7);
      LowBits3(frame, 7);
    }
  }

  /** An entry of kern_dir for a thread's page is not for users. */
  lemma KernelOnly(slot: word, entry: word)
    requires entry == 0 || entry % PAGE_SIZE == KERNEL_FLAGS
    ensures NoUser(Seen(slot, entry))
  {
    LowBits3(entry / PAGE_SIZE, entry % PAGE_SIZE);
    assert entry == 4096 * (entry / PAGE_SIZE) + entry % PAGE_SIZE;
  }

  /** Stack and heap are for users in the process and not in kern_dir. */
  lemma BuiltFlags(kern: nat, d: nat, low: nat, high: nat, stack: seq<Frame>, heap: seq<Frame>, p: nat, was: word, kernWas: word)
    requires |stack| == 2 && |heap| == 4 && d != kern && InThread(low, high, p)
    ensures Built(kern, d, low, high, stack, heap, d, p, was) % 4096 == 7
    ensures Built(kern, d, low, high, stack, heap, kern, p, kernWas) % 4096 == 3
  {
    var f := if low <= p < low + 2 then stack[p - low] else heap[p - high];
    EntryFlags(f, 7);
    EntryFlags(f, 3);
  }

  lemma EntryFlags(f: Frame, flags: nat)
    requires flags < 4096
    ensures (f * 4096 + flags) % 4096 == flags
  {}

  lemma MadeGrown(a: map<(nat, nat), word>, b: map<(nat, nat), word>, c: map<(nat, nat), word>, kern: nat, d: nat, i: nat,
                  first: bool, second: bool)
    requires MadeBy(a, b, kern, i, KERNEL_FLAGS, first)
    requires b == c || (first && MadeBy(b, c, d, i, USER_FLAGS, second))
    ensures Grown(a, c, kern)
  {}

  lemma GrownNothing(a: map<(nat, nat), word>, kern: nat)
    ensures Grown(a, a, kern)
  {}

  /** After the first half of a condition, vmm_map in kern_dir, when the second has failed. */
  ghost function Half(flat: map<(nat, nat), word>, kern: nat, page: nat, frame: Frame, mapped: bool): map<(nat, nat), word> {
    if mapped then flat[(kern, page) := frame * PAGE_SIZE + KERNEL_FLAGS] else flat
  }

  /** What pmm_malloc's answer means as a frame when no block is left. */
  const LOST := 0xF_FFFF

  /** A run of distinct frames that were not taken. */
  ghost predicate Fresh(frames: seq<Frame>, taken: set<nat>, limit: nat) {
    && (forall i :: 0 <= i < |frames| ==> frames[i] !in taken && RESERVED <= frames[i] < limit)
    && forall i, j :: 0 <= i < j < |frames| ==> frames[i] != frames[j]
  }

  ghost function SetOf(frames: seq<Frame>): set<nat> {
    set i | 0 <= i < |frames| :: frames[i] as nat
  }

  /** Pages page, page + 1, ... of a directory hold the frames. */
  ghost predicate Holds(flat: map<(nat, nat), word>, d: nat, page: nat, frames: seq<Frame>) {
    forall i :: 0 <= i < |frames| ==> FrameIn(At(flat, d, page + i)) == frames[i]
  }

  // ---------------------------------------------------------------- frames taken one at a time

  /** The blocks pmm_malloc can hand out. */
  ghost function Free(taken: set<nat>, limit: nat): set<nat> {
    set k: nat | k < limit && k !in taken
  }

  /** The frames of a run that were really taken: as many as were free. */
  ghost function Kept(frames: seq<Frame>, taken: set<nat>, limit: nat): seq<Frame> {
    if |frames| <= |Free(taken, limit)| then frames else frames[..|Free(taken, limit)|]
  }

  /** The answers of one pmm_malloc after the other: new distinct frames, and then only LOST. */
  ghost predicate Got(frames: seq<Frame>, taken: set<nat>, limit: nat) {
    && Fresh(Kept(frames, taken, limit), taken, limit)
    && forall i :: |Free(taken, limit)| <= i < |frames| ==> frames[i] == LOST
  }

  ghost function After(frames: seq<Frame>, taken: set<nat>, limit: nat): set<nat> {
    taken + SetOf(Kept(frames, taken, limit))
  }

  lemma {:induction false} FreeAfter(frames: seq<Frame>, taken: set<nat>, limit: nat)
    requires Fresh(frames, taken, limit)
    ensures |Free(taken + SetOf(frames), limit)| == |Free(taken, limit)| - |frames|
    decreases |frames|
  {
    if frames == [] {
      assert taken + SetOf(frames) == taken;
    } else {
      var n := |frames| - 1;
      var f, rest := frames[n], frames[..n];
      FreeAfter(rest, taken, limit);
      assert frames == rest + [f];
      SetOfNext(rest, f);
      assert f !in SetOf(rest);
      hide SetOf;
      var t := taken + SetOf(rest);
      assert f in Free(t, limit) && Free(taken + SetOf(frames), limit) == Free(t, limit) - {f};
    }
  }

  lemma GotNothing(taken: set<nat>, limit: nat)
    ensures Got([], taken, limit) && After([], taken, limit) == taken
  {
    assert SetOf([]) == {};
  }

  lemma GotNext(frames: seq<Frame>, f: Frame, taken: set<nat>, limit: nat)
    requires Got(frames, taken, limit)
    requires var free := Free(After(frames, taken, limit), limit);
             if free == {} then f == LOST else f in free && f >= RESERVED
    ensures Got(frames + [f], taken, limit)
    ensures var mid := After(frames, taken, limit);
            After(frames + [f], taken, limit) == if Free(mid, limit) == {} then mid else mid + {f}
  {
    var kept, m := Kept(frames, taken, limit), |Free(taken, limit)|;
    FreeAfter(kept, taken, limit);
    if |frames| < m {
      assert kept == frames && Kept(frames + [f], taken, limit) == frames + [f];
      TakeAnother(frames, f, taken, limit);
    } else {
      assert Kept(frames + [f], taken, limit) == kept;
    }
  }

  /** Two runs of answers are one run. */
  lemma GotBoth(a: seq<Frame>, b: seq<Frame>, taken: set<nat>, limit: nat)
    requires Got(a, taken, limit) && Got(b, After(a, taken, limit), limit)
    ensures Got(a + b, taken, limit)
    ensures After(a + b, taken, limit) == After(b, After(a, taken, limit), limit)
  {
    var kept, m := Kept(a, taken, limit), |Free(taken, limit)|;
    FreeAfter(kept, taken, limit);
    var more := Kept(b, After(a, taken, limit), limit);
    if |a| <= m {
      assert Kept(a + b, taken, limit) == a + more;
      FreshBoth(a, more, taken, limit);
    } else {
      assert Kept(a + b, taken, limit) == kept;
      assert SetOf(more) == {};
    }
  }

  lemma SetOfBoth(a: seq<Frame>, b: seq<Frame>)
    ensures SetOf(a + b) == SetOf(a) + SetOf(b)
  {
    var c := a + b;
    forall x | x in SetOf(a) ensures x in SetOf(c) {
      var i :| 0 <= i < |a| && a[i] == x;
      assert c[i] == x;
    }
    forall x | x in SetOf(b) ensures x in SetOf(c) {
      var i :| 0 <= i < |b| && b[i] == x;
      assert c[|a| + i] == x;
    }
  }

  lemma FreshBoth(a: seq<Frame>, b: seq<Frame>, taken: set<nat>, limit: nat)
    requires Fresh(a, taken, limit) && Fresh(b, taken + SetOf(a), limit)
    ensures Fresh(a + b, taken, limit) && taken + SetOf(a) + SetOf(b) == taken + SetOf(a + b)
  {
    SetOfBoth(a, b);
    assert forall i :: 0 <= i < |a| ==> a[i] in SetOf(a);
  }

  /** What taking one frame at a time comes to. */
  lemma TakeAnother(frames: seq<Frame>, f: Frame, taken: set<nat>, limit: nat)
    requires Fresh(frames, taken, limit) && f !in taken + SetOf(frames) && RESERVED <= f < limit
    ensures Fresh(frames + [f], taken, limit)
    ensures taken + SetOf(frames) + {f} == taken + SetOf(frames + [f])
  {
    SetOfNext(frames, f);
  }

  lemma SetOfNext(frames: seq<Frame>, f: Frame)
    ensures SetOf(frames + [f]) == SetOf(frames) + {f}
  {
    var g := frames + [f];
    assert g[|frames|] == f && forall i :: 0 <= i < |frames| ==> g[i] == frames[i];
    forall x | x in SetOf(frames) ensures x in SetOf(g) {
      var i :| 0 <= i < |frames| && frames[i] == x;
      assert g[i] == x;
    }
  }

  // ---------------------------------------------------------------- page tables needed

  ghost function SlotPair(kern: nat, d: nat, i: nat): set<(nat, nat)> {
    {(kern, i), (d, i)}
  }

  /** The slots of pages page, page + 1, ... in both directories. */
  ghost function SlotsOf(kern: nat, d: nat, page: nat, n: nat): set<(nat, nat)> {
    if n == 0 then {} else SlotsOf(kern, d, page, n - 1) + SlotPair(kern, d, PageAfter(page, n - 1) / ENTRIES)
  }

  lemma NeedBoth(empty: set<(nat, nat)>, a: set<(nat, nat)>, b: set<(nat, nat)>)
    ensures Need(empty, a + b) == Need(empty, a) + Need(empty - a, b)
    ensures empty - a - b == empty - (a + b)
  {
    assert empty * (a + b) == empty * a + (empty - a) * b;
  }

  /** Filling some slots and then others. */
  lemma PaidBoth(ok: bool, left: nat, empty: set<(nat, nat)>, a: set<(nat, nat)>, b: set<(nat, nat)>,
                 mid: nat, midEmpty: set<(nat, nat)>, left': nat, empty': set<(nat, nat)>)
    requires Paid(true, left, empty, a, mid, midEmpty) && Paid(ok, mid, midEmpty, b, left', empty')
    ensures Paid(ok, left, empty, a + b, left', empty')
  {
    NeedBoth(empty, a, b);
  }

  /** Once it has failed, it has failed for any more slots. */
  lemma PaidFailed(left: nat, empty: set<(nat, nat)>, a: set<(nat, nat)>, b: set<(nat, nat)>,
                   mid: nat, midEmpty: set<(nat, nat)>, left': nat, empty': set<(nat, nat)>)
    requires Paid(false, left, empty, a, mid, midEmpty)
    ensures Paid(false, left, empty, a + b, left', empty')
  {
    NeedBoth(empty, a, b);
  }

  lemma PaidNothing(left: nat, empty: set<(nat, nat)>)
    ensures Paid(true, left, empty, {}, left, empty)
  {
    assert empty * {} == {} && empty - {} == empty;
  }

  lemma SlotsNext(kern: nat, d: nat, page: nat, n: nat)
    ensures SlotsOf(kern, d, page, n + 1) == SlotsOf(kern, d, page, n) + SlotPair(kern, d, PageAfter(page, n) / ENTRIES)
  {}

  /** The slots of a longer run are those of a shorter one and more. */
  lemma {:induction false} SlotsMore(kern: nat, d: nat, page: nat, n: nat, m: nat) returns (more: set<(nat, nat)>)
    requires n <= m
    ensures SlotsOf(kern, d, page, m) == SlotsOf(kern, d, page, n) + more
  {
    if n == m {
      more := {};
    } else {
      more := SlotsMore(kern, d, page, n, m - 1);
      more := more + SlotPair(kern, d, PageAfter(page, m - 1) / ENTRIES);
    }
  }

  /** The next page of a run, and whether its first half could be paid for. */
  lemma NextPaid(ok: bool, left: nat, empty: set<(nat, nat)>, kern: nat, d: nat, page: nat, k: nat,
                 mid: nat, midEmpty: set<(nat, nat)>, left': nat, empty': set<(nat, nat)>)
    requires Paid(true, left, empty, SlotsOf(kern, d, page, k), mid, midEmpty)
    requires Paid(ok, mid, midEmpty, SlotPair(kern, d, PageAfter(page, k) / ENTRIES), left', empty')
    ensures Paid(ok, left, empty, SlotsOf(kern, d, page, k + 1), left', empty')
    ensures left >= Need(empty, SlotsOf(kern, d, page, k))
    ensures mid >= Need(midEmpty, {(kern, PageAfter(page, k) / ENTRIES)}) <==>
            left >= Need(empty, SlotsOf(kern, d, page, k) + {(kern, PageAfter(page, k) / ENTRIES)})
  {
    hide SlotPair;
    var done := SlotsOf(kern, d, page, k);
    SlotsNext(kern, d, page, k);
    PaidBoth(ok, left, empty, done, SlotPair(kern, d, PageAfter(page, k) / ENTRIES), mid, midEmpty, left', empty');
    NeedBoth(empty, done, {(kern, PageAfter(page, k) / ENTRIES)});
  }

  /** A run that has failed has failed for any longer one. */
  lemma FailedMore(left: nat, empty: set<(nat, nat)>, kern: nat, d: nat, page: nat, m: nat, n: nat,
                   left': nat, empty': set<(nat, nat)>)
    requires m <= n && Paid(false, left, empty, SlotsOf(kern, d, page, m), left', empty')
    ensures Paid(false, left, empty, SlotsOf(kern, d, page, n), left', empty')
  {
    var more := SlotsMore(kern, d, page, m, n);
    PaidFailed(left, empty, SlotsOf(kern, d, page, m), more, left', empty', left', empty');
  }

  /** The run stopped at its page n: the pages before it were paid for, and of page n what could be. */
  ghost predicate StoppedAt(left: nat, empty: set<(nat, nat)>, kern: nat, d: nat, page: nat, n: nat,
                            before: map<(nat, nat), word>, frame: Frame, now: map<(nat, nat), word>)
  {
    && left >= Need(empty, SlotsOf(kern, d, page, n))
    && now == Half(before, kern, PageAfter(page, n), frame,
                   left >= Need(empty, SlotsOf(kern, d, page, n) + {(kern, PageAfter(page, n) / ENTRIES)}))
  }

  // ---------------------------------------------------------------- runs of pages

  /** Every page after a run of pages is mapped in both directories. */
  lemma {:induction false} SharedAt(flat: map<(nat, nat), word>, kern: nat, d: nat, page: nat, frames: seq<Frame>, e: nat, p: nat)
    requires page + |frames| <= PAGES
    ensures At(Shared(flat, kern, d, page, frames), e, p) ==
            if (e == d || e == kern) && page <= p < page + |frames|
            then frames[p - page] * PAGE_SIZE + (if e == d then USER_FLAGS else KERNEL_FLAGS)
            else At(flat, e, p)
  {
    if frames != [] {
      var n := |frames| - 1;
      SharedAt(flat, kern, d, page, frames[..n], e, p);
    }
  }

  lemma SharedNext(flat: map<(nat, nat), word>, kern: nat, d: nat, page: nat, frames: seq<Frame>, f: Frame)
    ensures Shared(flat, kern, d, page, frames + [f]) ==
            Shared(flat, kern, d, page, frames)[(kern, PageAfter(page, |frames|)) := f * PAGE_SIZE + KERNEL_FLAGS]
                                               [(d, PageAfter(page, |frames|)) := f * PAGE_SIZE + USER_FLAGS]
  {
    assert (frames + [f])[..|frames|] == frames;
  }

  /** The pages of a thread in the two directories once it is built: `low` and `high` are the first pages
      of its stack and its heap. */
  ghost function Built(kern: nat, d: nat, low: nat, high: nat, stack: seq<Frame>, heap: seq<Frame>, e: nat, p: nat, was: word): word
  {
    var flags := if e == d then USER_FLAGS else KERNEL_FLAGS;
    if e != d && e != kern then was
    else if low <= p < low + |stack| then stack[p - low] * PAGE_SIZE + flags
    else if high <= p < high + |heap| then heap[p - high] * PAGE_SIZE + flags
    else was
  }

  /** The frames a run of pages holds. */
  ghost function FramesAt(flat: map<(nat, nat), word>, d: nat, page: nat, n: nat): (frames: seq<Frame>)
    ensures |frames| == n && Holds(flat, d, page, frames)
  {
    if n == 0 then [] else FramesAt(flat, d, page, n - 1) + [FrameIn(At(flat, d, page + n - 1))]
  }

  /** The frames vmm_unmap gives back: not those of the kernel, and not an empty entry's 0. */
  ghost function Given(frames: seq<Frame>): set<nat> {
    set i | 0 <= i < |frames| && frames[i] >= RESERVED :: frames[i] as nat
  }

  ghost function GivenCount(frames: seq<Frame>): nat {
    if frames == [] then 0
    else GivenCount(frames[..|frames| - 1]) + if frames[|frames| - 1] >= RESERVED then 1 else 0
  }

  lemma GivenNext(frames: seq<Frame>, n: nat)
    requires n < |frames|
    ensures Given(frames[..n + 1]) == Given(frames[..n]) + if frames[n] >= RESERVED then {frames[n] as nat} else {}
    ensures GivenCount(frames[..n + 1]) == GivenCount(frames[..n]) + if frames[n] >= RESERVED then 1 else 0
  {
    var g, h := frames[..n], frames[..n + 1];
    assert h == g + [frames[n]] && h[..n] == g;
    forall x | x in Given(g) ensures x in Given(h) {
      var i :| 0 <= i < n && g[i] >= RESERVED && g[i] == x;
      assert h[i] == x;
    }
    assert h[n] == frames[n];
  }

  class Memory {
    const vmm: Vmm
    const pmm: Pmm

    constructor (vmm: Vmm, pmm: Pmm)
      ensures this.vmm == vmm && this.pmm == pmm
    {
      this.vmm, this.pmm := vmm, pmm;
    }

    ghost predicate Valid()
      reads this, vmm, vmm.ram, vmm.pool, pmm, pmm.map_
    {
      vmm.Valid() && pmm.Valid() && vmm.pool != pmm.map_
    }

    /** Blocks pmm_malloc can still hand out. */
    ghost function FreeBlocks(): set<nat>
      reads pmm
    {
      Free(pmm.taken, pmm.Limit())
    }

    /** vmm_map.  A frame taken when no page table can be made is not given back. */
    method Map(d: nat, virt: word, flags: word) returns (ok: bool, ghost frame: Frame)
      requires Valid() && d in vmm.dirs && flags < PAGE_SIZE
      modifies vmm.pool, vmm.ram, vmm`poolUsed, vmm`tables, vmm`flat, pmm.map_, pmm`taken, pmm`usedBlocks
      ensures Valid() && pmm.Limit() <= PAGES
      ensures pmm.usedBlocks == Wrapped(old(pmm.usedBlocks) + 1)
      ensures if old(FreeBlocks()) == {} then frame == LOST && pmm.taken == old(pmm.taken)
              else frame in old(FreeBlocks()) && frame >= RESERVED && pmm.taken == old(pmm.taken) + {frame}
                   && pmm.Drift() == old(pmm.Drift())
      ensures Paid(ok, old(vmm.PoolLeft()), old(vmm.EmptySlots()), {(d, PageOf(virt) / ENTRIES)}, vmm.PoolLeft(), vmm.EmptySlots())
      ensures MadeBy(old(vmm.Slots()), vmm.Slots(), d, PageOf(virt) / ENTRIES, flags, ok)
      ensures ok ==> vmm.Translate(d, PageOf(virt)) == Seen(vmm.Slot(d, PageOf(virt) / ENTRIES), vmm.Flat(d, PageOf(virt)))
      ensures forall e, p :: e in vmm.dirs && 0 <= p < PAGES && !(ok && e == d && p == PageOf(virt)) ==>
                vmm.Translate(e, p) == old(vmm.Translate(e, p))
      ensures vmm.flat == if ok then old(vmm.flat)[(d, PageOf(virt)) := FrameEntry(frame, flags)] else old(vmm.flat)
    {
      hide Pmm.Consistent, Vmm.Tables, Vmm.Translate, Seen, Vmm.Slots, MadeBy, Paid, Vmm.PoolLeft, Vmm.EmptySlots;
      NoneFree(pmm.taken, pmm.Limit());
      LimitFits(pmm);
      var phys := pmm.Malloc();
      frame := phys / PAGE_SIZE;
      Indices(virt);
      ok := vmm.MapPhys(d, virt, phys, flags);
    }

    /** pmm_free of the frame with a number. */
    method GiveBack(phys: word, ghost frame: nat)
      requires pmm.Valid() && phys == frame * PAGE_SIZE
      modifies pmm.map_, pmm`taken, pmm`usedBlocks
      ensures pmm.Valid()
      ensures frame < RESERVED ==> pmm.taken == old(pmm.taken) && pmm.usedBlocks == old(pmm.usedBlocks)
      ensures frame >= RESERVED ==>
                && pmm.taken == old(pmm.taken) - {frame}
                && pmm.usedBlocks == Wrapped(old(pmm.usedBlocks) - 1)
                && (pmm.Drift() == old(pmm.Drift()) <==> frame in old(pmm.taken))
    {
      hide Pmm.Consistent, Pmm.Drift;
      pmm.Free(phys);
    }

    /** vmm_unmap */
    method Unmap(d: nat, virt: word)
      requires Valid() && d in vmm.dirs
      modifies vmm.ram, vmm`flat, pmm.map_, pmm`taken, pmm`usedBlocks
      ensures Valid() && vmm.Slots() == old(vmm.Slots())
      ensures var frame: nat := FrameIn(old(vmm.Flat(d, PageOf(virt))));
              && pmm.taken == old(pmm.taken) - (if frame >= RESERVED then {frame} else {})
              && pmm.usedBlocks == Wrapped(old(pmm.usedBlocks) - if frame >= RESERVED then 1 else 0)
              && (frame >= RESERVED ==> (pmm.Drift() == old(pmm.Drift()) <==> frame in old(pmm.taken)))
      ensures forall e: nat, p: nat :: vmm.Flat(e, p) ==
                if e == d && p == PageOf(virt) then Cleared(old(vmm.Flat(e, p))) else old(vmm.Flat(e, p))
      ensures vmm.Flat(d, PageOf(virt)) == if old(vmm.Flat(d, PageOf(virt))) < 4096 then old(vmm.Flat(d, PageOf(virt))) else 0
    {
      hide Pmm.Valid, Pmm.Drift, Vmm.Valid, Vmm.EmptySlots, Vmm.Slots, Wrapped, PageOf;
      vmm.KernInUse();
      if vmm.ram[d, DirIndex(virt)] != 0 {
        var addr := vmm.GetPhysAddr(d, virt);
        if addr != 0 {
          GiveBack(addr, FrameIn(vmm.Flat(d, PageOf(virt))));
          vmm.ClearEntry(d, virt);
        }
      } else {
        vmm.NoTable(d, virt);
      }
    }

    /** The second half of each condition in build_stack, build_heap and load_elf_relocate: the process gets
        the frame that kern_dir has at `from`. */
    method MapAgain(d: nat, virt: word, from: word) returns (ok: bool)
      requires Valid() && d in vmm.dirs && vmm.kern in vmm.dirs
      modifies vmm.pool, vmm.ram, vmm`poolUsed, vmm`tables, vmm`flat
      ensures Valid()
      ensures Paid(ok, old(vmm.PoolLeft()), old(vmm.EmptySlots()), {(d, PageOf(virt) / ENTRIES)}, vmm.PoolLeft(), vmm.EmptySlots())
      ensures MadeBy(old(vmm.Slots()), vmm.Slots(), d, PageOf(virt) / ENTRIES, USER_FLAGS, ok)
      ensures vmm.flat == if ok then old(vmm.flat)[(d, PageOf(virt)) := UserEntry(old(vmm.Flat(vmm.kern, PageOf(from))))]
                          else old(vmm.flat)
    {
      hide Vmm.Valid, Pmm.Valid, Paid, Vmm.PoolLeft, Vmm.EmptySlots, Vmm.Slots, Vmm.Translate, MadeBy, PageOf;
      var phys := vmm.GetPhysAddr(vmm.kern, from);
      Indices(virt);
      ok := vmm.MapPhys(d, virt, phys, USER_FLAGS);
    }

    /** A page both directories see: the condition that build_stack and build_heap have for every page,
        with `from` the same address, and load_elf_relocate, with `from` the segment's first. */
    method MapShared(d: nat, virt: word, from: word) returns (ok: bool, ghost frame: Frame)
      requires Valid() && d in vmm.dirs && vmm.kern in vmm.dirs
      modifies vmm.pool, vmm.ram, vmm`poolUsed, vmm`tables, vmm`flat, pmm.map_, pmm`taken, pmm`usedBlocks
      ensures Valid() && pmm.Limit() <= PAGES
      ensures pmm.usedBlocks == Wrapped(old(pmm.usedBlocks) + 1)
      ensures if old(FreeBlocks()) == {} then frame == LOST && pmm.taken == old(pmm.taken)
              else frame in old(FreeBlocks()) && frame >= RESERVED && pmm.taken == old(pmm.taken) + {frame}
      ensures Paid(ok, old(vmm.PoolLeft()), old(vmm.EmptySlots()), SlotPair(vmm.kern, d, PageOf(virt) / ENTRIES),
                   vmm.PoolLeft(), vmm.EmptySlots())
      ensures Grown(old(vmm.Slots()), vmm.Slots(), vmm.kern)
      ensures var half := Half(old(vmm.flat), vmm.kern, PageOf(virt), frame, true);
              ok ==> vmm.flat == half[(d, PageOf(virt)) := UserEntry(At(half, vmm.kern, PageOf(from)))]
      ensures !ok ==> vmm.flat == Half(old(vmm.flat), vmm.kern, PageOf(virt), frame,
                                       old(vmm.PoolLeft()) >= Need(old(vmm.EmptySlots()), {(vmm.kern, PageOf(virt) / ENTRIES)}))
    {
      hide Vmm.Valid, Pmm.Valid, Free, Paid, Vmm.PoolLeft, Vmm.EmptySlots, Wrapped, PageOf, UserEntry, Vmm.Slots, Vmm.Translate, MadeBy, Grown;
      ghost var left, empty, i := vmm.PoolLeft(), vmm.EmptySlots(), PageOf(virt) / ENTRIES;
      ok, frame := Map(vmm.kern, virt, KERNEL_FLAGS);
      assert SlotPair(vmm.kern, d, i) == {(vmm.kern, i)} + {(d, i)};
      ghost var mid, midEmpty, made := vmm.PoolLeft(), vmm.EmptySlots(), vmm.Slots();
      MadeGrown(old(vmm.Slots()), made, made, vmm.kern, d, i, ok, true);
      PaidMeans(ok, left, empty, {(vmm.kern, i)}, mid, midEmpty);
      if ok {
        ok := MapAgain(d, virt, from);
        MadeGrown(old(vmm.Slots()), made, vmm.Slots(), vmm.kern, d, i, true, ok);
        PaidBoth(ok, left, empty, {(vmm.kern, i)}, {(d, i)}, mid, midEmpty, vmm.PoolLeft(), vmm.EmptySlots());
      } else {
        PaidFailed(left, empty, {(vmm.kern, i)}, {(d, i)}, mid, midEmpty, vmm.PoolLeft(), vmm.EmptySlots());
      }
    }

    /** `frames` are the answers of pmm_malloc since `taken`. */
    ghost predicate Taken(frames: seq<Frame>, taken: set<nat>)
      reads pmm
    {
      pmm.Limit() <= PAGES && Got(frames, taken, pmm.Limit()) && pmm.taken == After(frames, taken, pmm.Limit())
    }

    /** One more page of a run after the ones already mapped. */
    method MapNext(d: nat, virt: word, ghost page: nat, ghost frames: seq<Frame>, ghost taken: set<nat>,
                   ghost flat: map<(nat, nat), word>)
      returns (ok: bool, ghost frame: Frame)
      requires Valid() && d in vmm.dirs && PageOf(virt) == PageAfter(page, |frames|)
      requires Taken(frames, taken) && vmm.flat == Shared(flat, vmm.kern, d, page, frames)
      modifies vmm.pool, vmm.ram, vmm`poolUsed, vmm`tables, vmm`flat, pmm.map_, pmm`taken, pmm`usedBlocks
      ensures Valid() && Taken(frames + [frame], taken)
      ensures pmm.usedBlocks == Wrapped(old(pmm.usedBlocks) + 1)
      ensures Paid(ok, old(vmm.PoolLeft()), old(vmm.EmptySlots()), SlotPair(vmm.kern, d, PageAfter(page, |frames|) / ENTRIES),
                   vmm.PoolLeft(), vmm.EmptySlots())
      ensures Grown(old(vmm.Slots()), vmm.Slots(), vmm.kern)
      ensures ok ==> vmm.flat == Shared(flat, vmm.kern, d, page, frames + [frame])
      ensures !ok ==> vmm.flat == Half(Shared(flat, vmm.kern, d, page, frames), vmm.kern, PageAfter(page, |frames|), frame,
                old(vmm.PoolLeft()) >= Need(old(vmm.EmptySlots()), {(vmm.kern, PageAfter(page, |frames|) / ENTRIES)}))
    {
      hide Vmm.Valid, Pmm.Valid, Shared, Got, After, Paid, Free, Vmm.PoolLeft, Vmm.EmptySlots, Vmm.Slots, Grown, PageOf, PageAfter;
      vmm.KernInUse();
      ok, frame := MapShared(d, virt, virt);
      GotNext(frames, frame, taken, pmm.Limit());
      SharedNext(flat, vmm.kern, d, page, frames, frame);
      FrameOf(frame, KERNEL_FLAGS);
    }

    /** A run of pages so far: what it took, what it cost, what it mapped, and where it stopped. */
    ghost predicate Run(ok: bool, d: nat, page: nat, frames: seq<Frame>, taken: set<nat>, flat: map<(nat, nat), word>,
                        left: nat, empty: set<(nat, nat)>)
      reads pmm, vmm`flat, vmm`dirs, vmm.ram, vmm.pool
    {
      && Taken(frames, taken)
      && Paid(ok, left, empty, SlotsOf(vmm.kern, d, page, |frames|), vmm.PoolLeft(), vmm.EmptySlots())
      && (ok ==> vmm.flat == Shared(flat, vmm.kern, d, page, frames))
      && (!ok ==> frames != [] &&
                  var n := |frames| - 1;
                  StoppedAt(left, empty, vmm.kern, d, page, n, Shared(flat, vmm.kern, d, page, frames[..n]), frames[n], vmm.flat))
    }

    lemma NoRun(d: nat, page: nat)
      requires Valid()
      ensures Run(true, d, page, [], pmm.taken, vmm.flat, vmm.PoolLeft(), vmm.EmptySlots())
    {
      hide Vmm.PoolLeft, Vmm.EmptySlots;
      GotNothing(pmm.taken, pmm.Limit());
      PaidNothing(vmm.PoolLeft(), vmm.EmptySlots());
    }

    /** The next page of a run. */
    method RunNext(d: nat, virt: word, ghost page: nat, ghost frames: seq<Frame>, ghost taken: set<nat>,
                   ghost flat: map<(nat, nat), word>, ghost left: nat, ghost empty: set<(nat, nat)>)
      returns (ok: bool, ghost frame: Frame)
      requires Valid() && d in vmm.dirs && PageOf(virt) == PageAfter(page, |frames|)
      requires Run(true, d, page, frames, taken, flat, left, empty)
      modifies vmm.pool, vmm.ram, vmm`poolUsed, vmm`tables, vmm`flat, pmm.map_, pmm`taken, pmm`usedBlocks
      ensures Valid() && pmm.usedBlocks == Wrapped(old(pmm.usedBlocks) + 1)
      ensures Grown(old(vmm.Slots()), vmm.Slots(), vmm.kern)
      ensures Run(ok, d, page, frames + [frame], taken, flat, left, empty)
    {
      hide Vmm.Valid, Pmm.Valid, Shared, Taken, Paid, SlotsOf, SlotPair, Vmm.PoolLeft, Vmm.EmptySlots, Half, Need, PageOf, PageAfter, Vmm.Slots, Grown;
      ghost var kern, mid, midEmpty := vmm.kern, vmm.PoolLeft(), vmm.EmptySlots();
      ok, frame := MapNext(d, virt, page, frames, taken, flat);
      NextPaid(ok, left, empty, kern, d, page, |frames|, mid, midEmpty, vmm.PoolLeft(), vmm.EmptySlots());
      assert (frames + [frame])[..|frames|] == frames;
    }

    /** The run is one of n pages: it went through, or stopped at one of them. */
    ghost predicate RunOf(ok: bool, d: nat, page: nat, n: nat, frames: seq<Frame>, left: nat, empty: set<(nat, nat)>)
      reads vmm`dirs, vmm.ram, vmm.pool
    {
      && 0 < |frames| <= n && (ok ==> |frames| == n)
      && Paid(ok, left, empty, SlotsOf(vmm.kern, d, page, n), vmm.PoolLeft(), vmm.EmptySlots())
    }

    lemma RunIsOf(ok: bool, d: nat, page: nat, n: nat, frames: seq<Frame>, taken: set<nat>, flat: map<(nat, nat), word>,
                  left: nat, empty: set<(nat, nat)>)
      requires Run(ok, d, page, frames, taken, flat, left, empty) && 0 < |frames| <= n && (ok ==> |frames| == n)
      ensures RunOf(ok, d, page, n, frames, left, empty)
    {
      hide Vmm.PoolLeft, Vmm.EmptySlots, Taken, SlotsOf, Shared, Paid, StoppedAt;
      if !ok {
        FailedMore(left, empty, vmm.kern, d, page, |frames|, n, vmm.PoolLeft(), vmm.EmptySlots());
      }
    }

    /** build_stack */
    method BuildStack(t: ThreadMemory, d: nat, nthreads: nat) returns (ok: bool, ghost frames: seq<Frame>)
      requires Valid() && d in vmm.dirs
      modifies vmm.pool, vmm.ram, vmm`poolUsed, vmm`tables, vmm`flat, pmm.map_, pmm`taken, pmm`usedBlocks
      modifies t`esp, t`stackLimit, t`espKernel, t`stackKernelLimit
      ensures Valid() && pmm.usedBlocks == Wrapped(old(pmm.usedBlocks) + |frames|)
      ensures t.esp == Wrapped(StackStart(t.imageBase + t.imageSize, nthreads))
      ensures t.stackLimit == Wrapped(t.esp + PAGE_SIZE)
      ensures ok ==> t.espKernel == t.stackLimit && t.stackKernelLimit == Wrapped(t.stackLimit + PAGE_SIZE)
      ensures Run(ok, d, PageOf(t.esp), frames, old(pmm.taken), old(vmm.flat), old(vmm.PoolLeft()), old(vmm.EmptySlots()))
      ensures Grown(old(vmm.Slots()), vmm.Slots(), vmm.kern)
      ensures RunOf(ok, d, PageOf(t.esp), 2, frames, old(vmm.PoolLeft()), old(vmm.EmptySlots()))
    {
      hide Vmm.Valid, Pmm.Valid, Run, RunOf, Vmm.PoolLeft, Vmm.EmptySlots, Wrapped, Offset, PageOf, PageAfter, Vmm.Slots, Grown;
      ghost var f0, f1;
      t.esp := Wrapped(StackStart(t.imageBase + t.imageSize, nthreads));
      t.stackLimit := Wrapped(t.esp + PAGE_SIZE);
      PageIsAfter(t.esp, 0);
      PageIsAfter(t.esp, 1);
      UsedBoth(pmm.usedBlocks, 1, 1);
      ghost var page, taken, flat, left, empty := PageOf(t.esp), pmm.taken, vmm.flat, vmm.PoolLeft(), vmm.EmptySlots();
      NoRun(d, page);
      ok, f0 := RunNext(d, t.esp, page, [], taken, flat, left, empty);
      frames := [] + [f0];
      if !ok {
        RunIsOf(ok, d, page, 2, frames, taken, flat, left, empty);
        return;
      }
      ghost var mid := vmm.Slots();
      t.espKernel := t.stackLimit;
      t.stackKernelLimit := Wrapped(t.espKernel + PAGE_SIZE);
      ok, f1 := RunNext(d, t.espKernel, page, frames, taken, flat, left, empty);
      frames := frames + [f1];
      GrownTwice(old(vmm.Slots()), mid, vmm.Slots(), vmm.kern);
      RunIsOf(ok, d, page, 2, frames, taken, flat, left, empty);
    }

    /** build_heap */
    method BuildHeap(t: ThreadMemory, d: nat, nthreads: nat) returns (ok: bool, ghost frames: seq<Frame>)
      requires Valid() && d in vmm.dirs
      modifies vmm.pool, vmm.ram, vmm`poolUsed, vmm`tables, vmm`flat, pmm.map_, pmm`taken, pmm`usedBlocks
      modifies t`heap, t`heapLimit
      ensures Valid() && pmm.usedBlocks == Wrapped(old(pmm.usedBlocks) + |frames|)
      ensures Grown(old(vmm.Slots()), vmm.Slots(), vmm.kern)
      ensures var heap := Wrapped(t.stackKernelLimit + Offset(nthreads));
              && (ok ==> t.heap == heap && t.heapLimit == Wrapped(heap + 4 * PAGE_SIZE))
              && Run(ok, d, PageOf(heap), frames, old(pmm.taken), old(vmm.flat), old(vmm.PoolLeft()), old(vmm.EmptySlots()))
              && RunOf(ok, d, PageOf(heap), 4, frames, old(vmm.PoolLeft()), old(vmm.EmptySlots()))
    {
      hide Vmm.Valid, Pmm.Valid, Run, RunOf, Vmm.PoolLeft, Vmm.EmptySlots, Wrapped, Offset, PageOf, PageAfter, Vmm.Slots, Grown;
      var heap := Wrapped(t.stackKernelLimit + Offset(nthreads));
      frames := [];
      ghost var page, taken, flat, left, empty := PageOf(heap), pmm.taken, vmm.flat, vmm.PoolLeft(), vmm.EmptySlots();
      NoRun(d, page);
      GrownNothing(vmm.Slots(), vmm.kern);
      for i := 0 to 4
        invariant Valid() && d in vmm.dirs && |frames| == i
        invariant Run(true, d, page, frames, taken, flat, left, empty)
        invariant Grown(old(vmm.Slots()), vmm.Slots(), vmm.kern)
        invariant pmm.usedBlocks == Wrapped(old(pmm.usedBlocks) + i)
        modifies vmm.pool, vmm.ram, vmm`poolUsed, vmm`tables, vmm`flat, pmm.map_, pmm`taken, pmm`usedBlocks
      {
        ghost var f, mid := LOST, vmm.Slots();
        PageIsAfter(heap, i);
        UsedBoth(old(pmm.usedBlocks), i, 1);
        ok, f := RunNext(d, Wrapped(heap + i * PAGE_SIZE), page, frames, taken, flat, left, empty);
        frames := frames + [f];
        GrownTwice(old(vmm.Slots()), mid, vmm.Slots(), vmm.kern);
        if !ok {
          RunIsOf(ok, d, page, 4, frames, taken, flat, left, empty);
          return;
        }
      }
      RunIsOf(true, d, page, 4, frames, taken, flat, left, empty);
      t.heap := heap;
      t.heapLimit := Wrapped(heap + PAGE_SIZE * 4);
      ok := true;
    }

    /** What heap_fill does to memory: its pages are filled through kern_dir, which then gives up the first. */
    method FillHeap(t: ThreadMemory)
      requires Valid()
      modifies vmm.ram, vmm`flat
      ensures Valid() && vmm.EmptySlots() == old(vmm.EmptySlots()) && vmm.Slots() == old(vmm.Slots())
      ensures forall e: nat, p: nat :: vmm.Flat(e, p) ==
                if e == vmm.kern && p == PageOf(t.heap) then 0 else old(vmm.Flat(e, p))
    {
      hide Pmm.Valid, Vmm.Tables, Vmm.EmptySlots, Vmm.Slots;
      vmm.KernInUse();
      vmm.UnmapPhys(vmm.kern, t.heap);
    }

    /** stack_fill: three words on the user stack, sixteen on the kernel stack, and kern_dir gives up the
        page the user stack pointer is on. */
    method FillStack(t: ThreadMemory)
      requires Valid() && t.stackLimit >= 12 && t.stackKernelLimit >= 64
      modifies vmm.ram, vmm`flat, t`esp, t`espKernel
      ensures Valid() && vmm.EmptySlots() == old(vmm.EmptySlots()) && vmm.Slots() == old(vmm.Slots())
      ensures t.esp == t.stackLimit - 12 && t.espKernel == t.stackKernelLimit - 64
      ensures forall e: nat, p: nat :: vmm.Flat(e, p) ==
                if e == vmm.kern && p == PageOf(t.stackLimit - 12) then 0 else old(vmm.Flat(e, p))
    {
      hide Pmm.Valid, Vmm.Tables, Vmm.EmptySlots, Vmm.Slots;
      vmm.KernInUse();
      t.esp := t.stackLimit - 12;
      t.espKernel := t.stackKernelLimit - 64;
      vmm.UnmapPhys(vmm.kern, t.esp);
    }

    /** Where build_stack and build_heap put a thread when no address wraps around. */
    ghost predicate Placed(t: ThreadMemory, n: nat)
      reads t
    {
      && t.stackLimit == StackStart(t.imageBase + t.imageSize, n) + PAGE_SIZE
      && t.stackKernelLimit == t.stackLimit + PAGE_SIZE
      && t.heap == HeapStart(t.imageBase + t.imageSize, n)
    }

    /** build_stack, and what stack_fill does next for all but a main thread. */
    method BuildThreadStack(t: ThreadMemory, d: nat, nthreads: nat, main: bool) returns (ok: bool, ghost stack: seq<Frame>)
      requires Valid() && d in vmm.dirs
      requires HeapStart(t.imageBase + t.imageSize, nthreads) + 4 * PAGE_SIZE < WORD_RANGE
      modifies vmm.pool, vmm.ram, vmm`poolUsed, vmm`tables, vmm`flat, pmm.map_, pmm`taken, pmm`usedBlocks
      modifies t`esp, t`stackLimit, t`espKernel, t`stackKernelLimit
      ensures Valid() && |stack| > 0 && Taken(stack, old(pmm.taken))
      ensures Grown(old(vmm.Slots()), vmm.Slots(), vmm.kern)
      ensures pmm.usedBlocks == Wrapped(old(pmm.usedBlocks) + |stack|)
      ensures var start, high := StackStart(t.imageBase + t.imageSize, nthreads), HeapStart(t.imageBase + t.imageSize, nthreads);
              && Paid(ok, old(vmm.PoolLeft()), old(vmm.EmptySlots()), SlotsOf(vmm.kern, d, PageOf(start), 2), vmm.PoolLeft(), vmm.EmptySlots())
              && (ok ==> |stack| == 2 && t.stackLimit == start + PAGE_SIZE && t.stackKernelLimit == t.stackLimit + PAGE_SIZE)
              && (ok ==> forall e: nat, p: nat :: vmm.Flat(e, p) ==
                           if !main && e == vmm.kern && p == PageOf(start + PAGE_SIZE - 12) then 0
                           else Built(vmm.kern, d, PageOf(start), PageOf(high), stack, [], e, p, old(vmm.Flat(e, p))))
    {
      hide Vmm.Valid, Pmm.Valid, Shared, Got, After, Paid, Free, SlotsOf, Built, Vmm.PoolLeft, Vmm.EmptySlots;
      hide Wrapped, Offset, PageOf, Vmm.Slots, Grown;
      ghost var flat, image := vmm.flat, t.imageBase + t.imageSize;
      ghost var start, high := StackStart(image, nthreads), HeapStart(image, nthreads);
      ThreadAddresses(image, nthreads);
      ok, stack := BuildStack(t, d, nthreads);
      if ok {
        StackBuilt(flat, d, PageOf(start), PageOf(high), stack);
        if !main {
          FillStack(t);
        }
      }
    }

    /** build_heap, and for a main thread what heap_fill and stack_fill do then. */
    method BuildThreadHeap(t: ThreadMemory, d: nat, nthreads: nat, main: bool) returns (ok: bool, ghost heap: seq<Frame>)
      requires Valid() && d in vmm.dirs
      requires HeapStart(t.imageBase + t.imageSize, nthreads) + 4 * PAGE_SIZE < WORD_RANGE
      requires t.stackLimit == StackStart(t.imageBase + t.imageSize, nthreads) + PAGE_SIZE
      requires t.stackKernelLimit == t.stackLimit + PAGE_SIZE
      modifies vmm.pool, vmm.ram, vmm`poolUsed, vmm`tables, vmm`flat, pmm.map_, pmm`taken, pmm`usedBlocks
      modifies t`esp, t`espKernel, t`heap, t`heapLimit
      ensures Valid() && Taken(heap, old(pmm.taken))
      ensures Grown(old(vmm.Slots()), vmm.Slots(), vmm.kern)
      ensures pmm.usedBlocks == Wrapped(old(pmm.usedBlocks) + |heap|)
      ensures var start, high := StackStart(t.imageBase + t.imageSize, nthreads), HeapStart(t.imageBase + t.imageSize, nthreads);
              && Paid(ok, old(vmm.PoolLeft()), old(vmm.EmptySlots()), SlotsOf(vmm.kern, d, PageOf(high), 4), vmm.PoolLeft(), vmm.EmptySlots())
              && (ok ==> |heap| == 4 && t.heap == high)
              && (ok ==> forall e: nat, p: nat :: vmm.Flat(e, p) ==
                           if main && e == vmm.kern && FilledPage(start, high, main, p) then 0
                           else Built(vmm.kern, d, PageOf(start), PageOf(high), [], heap, e, p, old(vmm.Flat(e, p))))
    {
      hide Vmm.Valid, Pmm.Valid, Shared, Got, After, Paid, Free, SlotsOf, Built, Vmm.PoolLeft, Vmm.EmptySlots;
      hide Wrapped, Offset, PageOf, Vmm.Slots, Grown;
      ghost var flat, image := vmm.flat, t.imageBase + t.imageSize;
      ghost var start, high := StackStart(image, nthreads), HeapStart(image, nthreads);
      ThreadAddresses(image, nthreads);
      ok, heap := BuildHeap(t, d, nthreads);
      if ok {
        HeapBuilt(flat, d, PageOf(start), PageOf(high), heap);
        if main {
          FillHeap(t);
          FillStack(t);
        }
      }
    }

    /** The memory of a thread as start_proc builds it for a process's main thread, and start_thread for
        the others. */
    method BuildThread(t: ThreadMemory, d: nat, nthreads: nat, main: bool)
      returns (ok: bool, ghost stack: seq<Frame>, ghost heap: seq<Frame>)
      requires Valid() && d in vmm.dirs
      requires HeapStart(t.imageBase + t.imageSize, nthreads) + 4 * PAGE_SIZE < WORD_RANGE
      modifies vmm.pool, vmm.ram, vmm`poolUsed, vmm`tables, vmm`flat, pmm.map_, pmm`taken, pmm`usedBlocks
      modifies t`esp, t`stackLimit, t`espKernel, t`stackKernelLimit, t`heap, t`heapLimit
      ensures Valid() && |stack| > 0 && Taken(stack + heap, old(pmm.taken))
      ensures Grown(old(vmm.Slots()), vmm.Slots(), vmm.kern)
      ensures pmm.usedBlocks == Wrapped(old(pmm.usedBlocks) + |stack + heap|)
      ensures ok <==> old(vmm.PoolLeft()) >=
                      Need(old(vmm.EmptySlots()), ThreadSlots(vmm.kern, d, t.imageBase + t.imageSize, nthreads))
      ensures Paid(ok, old(vmm.PoolLeft()), old(vmm.EmptySlots()), ThreadSlots(vmm.kern, d, t.imageBase + t.imageSize, nthreads),
                   vmm.PoolLeft(), vmm.EmptySlots())
      ensures ok ==> |stack| == 2 && |heap| == 4 && Placed(t, nthreads)
      ensures var start, high := StackStart(t.imageBase + t.imageSize, nthreads), HeapStart(t.imageBase + t.imageSize, nthreads);
              ok ==> forall e: nat, p: nat :: vmm.Flat(e, p) ==
                       if e == vmm.kern && FilledPage(start, high, main, p) then 0
                       else Built(vmm.kern, d, PageOf(start), PageOf(high), stack, heap, e, p, old(vmm.Flat(e, p)))
      ensures var start, high := StackStart(t.imageBase + t.imageSize, nthreads), HeapStart(t.imageBase + t.imageSize, nthreads);
              ok && d != vmm.kern ==> UserPages(old(vmm.Slots()), d, PageOf(start), PageOf(high))
    {
      hide Vmm.Valid, Pmm.Valid, Got, After, Paid, Free, SlotsOf, Built, Vmm.PoolLeft, Vmm.EmptySlots;
      hide Wrapped, Offset, PageOf, Vmm.Slots, Grown, UserPages;
      ghost var kern, left, empty := vmm.kern, vmm.PoolLeft(), vmm.EmptySlots();
      ghost var image := t.imageBase + t.imageSize;
      ghost var start, high := StackStart(image, nthreads), HeapStart(image, nthreads);
      ThreadAddresses(image, nthreads);
      ghost var a, b := SlotsOf(kern, d, PageOf(start), 2), SlotsOf(kern, d, PageOf(high), 4);
      heap := [];
      ok, stack := BuildThreadStack(t, d, nthreads, main);
      assert stack + heap == stack;
      ghost var midLeft, midEmpty, mid := vmm.PoolLeft(), vmm.EmptySlots(), vmm.Slots();
      if !ok {
        PaidFailed(left, empty, a, b, midLeft, midEmpty, midLeft, midEmpty);
        PaidMeans(false, left, empty, a + b, midLeft, midEmpty);
        return;
      }
      label stacked:
      ok, heap := BuildThreadHeap(t, d, nthreads, main);
      GrownTwice(old(vmm.Slots()), mid, vmm.Slots(), kern);
      PaidBoth(ok, left, empty, a, b, midLeft, midEmpty, vmm.PoolLeft(), vmm.EmptySlots());
      PaidMeans(ok, left, empty, a + b, vmm.PoolLeft(), vmm.EmptySlots());
      GotBoth(stack, heap, old(pmm.taken), pmm.Limit());
      UsedBoth(old(pmm.usedBlocks), |stack|, |heap|);
      if ok {
        forall e: nat, p: nat
          ensures vmm.Flat(e, p) == if e == kern && FilledPage(start, high, main, p) then 0
                                    else Built(kern, d, PageOf(start), PageOf(high), stack, heap, e, p, old(vmm.Flat(e, p)))
        {
          BuiltInTurn(kern, d, PageOf(start), PageOf(high), stack, heap, e, p, old(vmm.Flat(e, p)), old@stacked(vmm.Flat(e, p)),
                      vmm.Flat(e, p), PageOf(start + PAGE_SIZE - 12), main);
        }
        if d != kern {
          ThreadSeen(old(vmm.Slots()), old(vmm.flat), d, PageOf(start), PageOf(high), stack, heap, start, high, main);
        }
      }
    }

    /** The processor finds a thread's pages for its process, users included as far as the slot's table lets
        them, and for users of kern_dir it finds none. */
    ghost predicate UserPages(slots: map<(nat, nat), word>, d: nat, low: nat, high: nat)
      reads vmm, vmm.ram
    {
      forall p: nat :: InThread(low, high, p) ==>
        && vmm.Translate(d, p) == UserSees(SlotIn(slots, d, p / ENTRIES), FrameIn(vmm.Flat(d, p)))
        && NoUser(vmm.Translate(vmm.kern, p))
    }

    /** What the processor makes of a built thread's pages. */
    lemma ThreadSeen(slots: map<(nat, nat), word>, was: map<(nat, nat), word>, d: nat, low: nat, high: nat, stack: seq<Frame>,
                     heap: seq<Frame>, start: nat, top: nat, main: bool)
      requires vmm.Valid() && d in vmm.dirs && d != vmm.kern && Grown(slots, vmm.Slots(), vmm.kern)
      requires |stack| == 2 && |heap| == 4 && low + 2 <= high && high + 4 <= PAGES
      requires start + PAGE_SIZE < WORD_RANGE && top < WORD_RANGE
      requires forall e: nat, p: nat :: vmm.Flat(e, p) ==
                 if e == vmm.kern && FilledPage(start, top, main, p) then 0
                 else Built(vmm.kern, d, low, high, stack, heap, e, p, At(was, e, p))
      ensures UserPages(slots, d, low, high)
    {
      hide Vmm.Valid, Vmm.Slots, Vmm.Translate, UserSees, SlotIn, Grown, Built, NoUser, FrameIn, Seen;
      vmm.KernInUse();
      vmm.WalkIsFlat();
      forall p: nat | InThread(low, high, p)
        ensures vmm.Translate(d, p) == UserSees(SlotIn(slots, d, p / ENTRIES), FrameIn(vmm.Flat(d, p)))
        ensures NoUser(vmm.Translate(vmm.kern, p))
      {
        BuiltFlags(vmm.kern, d, low, high, stack, heap, p, At(was, d, p), At(was, vmm.kern, p));
        UserPageSeen(slots, d, p);
        KernelOnly(vmm.ram[vmm.kern, p / ENTRIES], vmm.Flat(vmm.kern, p));
      }
    }

    /** What the processor makes of a page with a user entry. */
    lemma UserPageSeen(slots: map<(nat, nat), word>, d: nat, p: nat)
      requires vmm.Valid() && d in vmm.dirs && d != vmm.kern && p < PAGES && Grown(slots, vmm.Slots(), vmm.kern)
      requires vmm.Flat(d, p) % PAGE_SIZE == USER_FLAGS
      ensures vmm.Translate(d, p) == UserSees(SlotIn(slots, d, p / ENTRIES), FrameIn(vmm.Flat(d, p)))
    {
      hide Seen, UserSees, FrameIn, Grown, Vmm.Translate, SlotIn;
      vmm.WalkIsFlat();
      vmm.UnmappedSlots();
      hide Vmm.Valid, Vmm.Slots;
      SlotWord(slots, d, p / ENTRIES);
      var f := FrameIn(vmm.Flat(d, p));
      UserWord(vmm.Flat(d, p));
      UserSeen(SlotIn(slots, d, p / ENTRIES), vmm.ram[d, p / ENTRIES], f);
    }

    lemma UserWord(entry: word)
      requires entry % PAGE_SIZE == USER_FLAGS
      ensures entry == FrameIn(entry) * PAGE_SIZE + USER_FLAGS && entry != 0
    {}

    lemma SlotWord(slots: map<(nat, nat), word>, d: nat, i: nat)
      requires vmm.Valid() && d in vmm.dirs && d != vmm.kern && Grown(slots, vmm.Slots(), vmm.kern) && i < ENTRIES
      ensures vmm.ram.Length0 == 1024 && vmm.ram.Length1 == ENTRIES && d < 1024
      ensures var was, now := SlotIn(slots, d, i), vmm.ram[d, i];
              now == was || (was == 0 && now % 4096 == 7)
    {
      vmm.KernInUse();
      assert (d, i) in vmm.Slots() && vmm.Slots()[(d, i)] == vmm.ram[d, i];
    }

    lemma PaidMeans(ok: bool, left: nat, empty: set<(nat, nat)>, slots: set<(nat, nat)>, left': nat, empty': set<(nat, nat)>)
      requires Paid(ok, left, empty, slots, left', empty')
      ensures ok <==> left >= Need(empty, slots)
    {}

    lemma StackBuilt(flat: map<(nat, nat), word>, d: nat, low: nat, high: nat, stack: seq<Frame>)
      requires vmm.flat == Shared(flat, vmm.kern, d, low, stack) && low + |stack| <= PAGES
      ensures forall e: nat, p: nat :: vmm.Flat(e, p) == Built(vmm.kern, d, low, high, stack, [], e, p, At(flat, e, p))
    {
      forall e: nat, p: nat
        ensures vmm.Flat(e, p) == Built(vmm.kern, d, low, high, stack, [], e, p, At(flat, e, p))
      {
        SharedAt(flat, vmm.kern, d, low, stack, e, p);
      }
    }

    lemma HeapBuilt(flat: map<(nat, nat), word>, d: nat, low: nat, high: nat, heap: seq<Frame>)
      requires vmm.flat == Shared(flat, vmm.kern, d, high, heap) && high + |heap| <= PAGES
      ensures forall e: nat, p: nat :: vmm.Flat(e, p) == Built(vmm.kern, d, low, high, [], heap, e, p, At(flat, e, p))
    {
      forall e: nat, p: nat
        ensures vmm.Flat(e, p) == Built(vmm.kern, d, low, high, [], heap, e, p, At(flat, e, p))
      {
        SharedAt(flat, vmm.kern, d, high, heap, e, p);
      }
    }

    /** Some pages of a directory have been through vmm_unmap since `taken`, `used` and `flat`: those that
        held a frame are empty, their frames are given back, and nothing else happened. */
    ghost predicate Released(d: nat, pages: set<nat>, taken: set<nat>, used: word, flat: map<(nat, nat), word>)
      reads vmm`flat, pmm
    {
      && pmm.taken == taken - FramesOn(flat, d, pages)
      && pmm.usedBlocks == Wrapped(used - |Held(flat, d, pages)|)
      && forall e: nat, p: nat :: vmm.Flat(e, p) == if e == d && p in pages then Cleared(At(flat, e, p)) else At(flat, e, p)
    }

    lemma NothingReleased(d: nat)
      ensures Released(d, {}, pmm.taken, pmm.usedBlocks, vmm.flat)
    {
      assert Held(vmm.flat, d, {}) == {};
    }

    /** One more vmm_unmap, of a new page or one that has been through it before. */
    method UnmapNext(d: nat, virt: word, ghost pages: set<nat>, ghost taken: set<nat>, ghost used: word,
                     ghost flat: map<(nat, nat), word>)
      requires Valid() && d in vmm.dirs && Released(d, pages, taken, used, flat)
      modifies vmm.ram, vmm`flat, pmm.map_, pmm`taken, pmm`usedBlocks
      ensures vmm.Slots() == old(vmm.Slots())
      ensures Valid() && Released(d, pages + {PageOf(virt)}, taken, used, flat)
    {
      hide Vmm.Valid, Pmm.Valid, Pmm.Drift, Vmm.Slots, Wrapped, PageOf, FrameIn, Held, FramesOn, Cleared;
      ghost var p := PageOf(virt);
      assert vmm.Flat(d, p) == if p in pages then Cleared(At(flat, d, p)) else At(flat, d, p);
      ClearedTwice(At(flat, d, p));
      if p in pages {
        assert pages + {p} == pages;
      } else {
        HeldNext(flat, d, pages, p);
        UsedLess(used, |Held(flat, d, pages)|, if FrameIn(At(flat, d, p)) >= RESERVED then 1 else 0);
      }
      Unmap(d, virt);
    }

    /** A loop of vmm_unmap over n consecutive pages. */
    method UnmapRun(d: nat, virt: word, n: nat, ghost pages: set<nat>, ghost taken: set<nat>, ghost used: word,
                    ghost flat: map<(nat, nat), word>)
      requires Valid() && d in vmm.dirs && Released(d, pages, taken, used, flat)
      modifies vmm.ram, vmm`flat, pmm.map_, pmm`taken, pmm`usedBlocks
      ensures vmm.Slots() == old(vmm.Slots())
      ensures Valid() && Released(d, pages + PagesFrom(PageOf(virt), n), taken, used, flat)
    {
      hide Vmm.Valid, Pmm.Valid, Released, Vmm.Slots, Wrapped, PageOf, PageAfter;
      assert pages + {} == pages;
      for i := 0 to n
        invariant vmm.Slots() == old(vmm.Slots())
        invariant Valid() && d in vmm.dirs && Released(d, pages + PagesFrom(PageOf(virt), i), taken, used, flat)
      {
        PageIsAfter(virt, i);
        ghost var done := pages + PagesFrom(PageOf(virt), i);
        UnmapNext(d, Wrapped(virt + i * PAGE_SIZE), done, taken, used, flat);
        assert done + {PageAfter(PageOf(virt), i)} == pages + PagesFrom(PageOf(virt), i + 1);
      }
    }

    /** remove_proc and stop_thread, for one thread: six calls of vmm_unmap, which give back the frames
        that the process still has there. */
    method ReleaseThread(t: ThreadMemory, d: nat, ghost pages: set<nat>, ghost taken: set<nat>, ghost used: word,
                         ghost flat: map<(nat, nat), word>)
      requires Valid() && d in vmm.dirs && Released(d, pages, taken, used, flat)
      modifies vmm.ram, vmm`flat, pmm.map_, pmm`taken, pmm`usedBlocks
      ensures Valid() && Released(d, pages + PagesOf(t), taken, used, flat)
    {
      hide Vmm.Valid, Pmm.Valid, Released, Wrapped, PageOf, PagesFrom;
      ghost var a, b := PageOf(Wrapped(t.stackLimit - PAGE_SIZE)), PageOf(Wrapped(t.stackKernelLimit - PAGE_SIZE));
      UnmapNext(d, Wrapped(t.stackLimit - PAGE_SIZE), pages, taken, used, flat);
      UnmapNext(d, Wrapped(t.stackKernelLimit - PAGE_SIZE), pages + {a}, taken, used, flat);
      UnmapRun(d, t.heap, 4, pages + {a} + {b}, taken, used, flat);
      assert pages + {a} + {b} + PagesFrom(PageOf(t.heap), 4) == pages + PagesOf(t);
    }

    /** The same for a thread where BuildThread puts it, by the frames its process has on the six pages. */
    method ReleasePlaced(t: ThreadMemory, d: nat, ghost n: nat)
      requires Valid() && d in vmm.dirs
      requires HeapStart(t.imageBase + t.imageSize, n) + 4 * PAGE_SIZE < WORD_RANGE && Placed(t, n)
      modifies vmm.ram, vmm`flat, pmm.map_, pmm`taken, pmm`usedBlocks
      ensures Valid()
      ensures var low, high := PageOf(StackStart(t.imageBase + t.imageSize, n)), PageOf(HeapStart(t.imageBase + t.imageSize, n));
              var held := ThreadFrames(old(vmm.flat), d, low, high);
              && pmm.taken == old(pmm.taken) - Given(held)
              && pmm.usedBlocks == Wrapped(old(pmm.usedBlocks) - GivenCount(held))
              && forall e: nat, p: nat :: vmm.Flat(e, p) ==
                   if e == d && InThread(low, high, p) then Cleared(old(vmm.Flat(e, p))) else old(vmm.Flat(e, p))
    {
      hide Vmm.Valid, Pmm.Valid, Wrapped, Offset, PageOf, PagesOf, Held, FramesOn, Given, GivenCount, ThreadFrames, Cleared;
      ghost var image := t.imageBase + t.imageSize;
      ThreadAddresses(image, n);
      PagesPlaced(t, n);
      HeldThread(vmm.flat, d, PageOf(StackStart(image, n)), PageOf(HeapStart(image, n)));
      NothingReleased(d);
      ReleaseThread(t, d, {}, pmm.taken, pmm.usedBlocks, vmm.flat);
      assert {} + PagesOf(t) == PagesOf(t);
    }

    lemma PagesPlaced(t: ThreadMemory, n: nat)
      requires HeapStart(t.imageBase + t.imageSize, n) + 4 * PAGE_SIZE < WORD_RANGE && Placed(t, n)
      ensures var image := t.imageBase + t.imageSize;
              PagesOf(t) == PagesFrom(PageOf(StackStart(image, n)), 2) + PagesFrom(PageOf(HeapStart(image, n)), 4)
    {
      var image := t.imageBase + t.imageSize;
      ThreadAddresses(image, n);
      hide Offset, PageOf, StackStart, HeapStart, PagesFrom, Wrapped;
      TwoPages(PageOf(StackStart(image, n)));
    }

    lemma TwoPages(page: nat)
      requires page + 2 <= PAGES
      ensures PagesFrom(page, 2) == {page} + {page + 1}
    {
      PagesFromAre(page, 2);
    }

    /** The memory of a thread from start to end.  With six free blocks, the frames taken are given back if
        and only if the pool has the tables the build needs and the thread's process is not one of
        the kernel's, whose own stack page stack_fill takes out of kern_dir.  kern_dir keeps its
        entries for the frames given back, but for the pages it gave up. */
    method ThreadLifeCycle(t: ThreadMemory, d: nat, nthreads: nat, main: bool)
      returns (ok: bool, ghost stack: seq<Frame>, ghost heap: seq<Frame>)
      requires Valid() && d in vmm.dirs && (main ==> d != vmm.kern)
      requires HeapStart(t.imageBase + t.imageSize, nthreads) + 4 * PAGE_SIZE < WORD_RANGE
      modifies vmm.pool, vmm.ram, vmm`poolUsed, vmm`tables, vmm`flat, pmm.map_, pmm`taken, pmm`usedBlocks
      modifies t`esp, t`stackLimit, t`espKernel, t`stackKernelLimit, t`heap, t`heapLimit
      ensures Valid()
      ensures ok <==> old(vmm.PoolLeft()) >=
                      Need(old(vmm.EmptySlots()), ThreadSlots(vmm.kern, d, t.imageBase + t.imageSize, nthreads))
      ensures |old(FreeBlocks())| >= 6 ==>
                (pmm.taken == old(pmm.taken) <==>
                   && old(vmm.PoolLeft()) >=
                      Need(old(vmm.EmptySlots()), ThreadSlots(vmm.kern, d, t.imageBase + t.imageSize, nthreads))
                   && d != vmm.kern)
      ensures ok && d != vmm.kern ==> pmm.usedBlocks == old(pmm.usedBlocks)
      ensures ok && d != vmm.kern && |old(FreeBlocks())| < 6 ==> pmm.taken == old(pmm.taken) - {LOST}
      ensures ok ==> |stack| == 2 && |heap| == 4 && Got(stack + heap, old(pmm.taken), pmm.Limit()) && Placed(t, nthreads)
      ensures var start, high := StackStart(t.imageBase + t.imageSize, nthreads), HeapStart(t.imageBase + t.imageSize, nthreads);
              ok ==> forall e: nat, p: nat :: vmm.Flat(e, p) ==
                       if e == d && InThread(PageOf(start), PageOf(high), p) then 0
                       else if e == vmm.kern && FilledPage(start, high, main, p) then 0
                       else Built(vmm.kern, d, PageOf(start), PageOf(high), stack, heap, e, p, old(vmm.Flat(e, p)))
      ensures !ok ==> Taken(stack + heap, old(pmm.taken))
    {
      hide Vmm.Valid, Pmm.Valid, Got, After, Free, Need, ThreadSlots, Given, GivenCount, Vmm.PoolLeft, Vmm.EmptySlots;
      hide Wrapped, Offset, PageOf, UserPages, Grown, Vmm.Slots, Vmm.Translate, Built, FilledPage;
      ghost var image := t.imageBase + t.imageSize;
      ghost var start, top := StackStart(image, nthreads), HeapStart(image, nthreads);
      ThreadAddresses(image, nthreads);
      ok, stack, heap := BuildThread(t, d, nthreads, main);
      if !ok {
        SomeKept(stack + heap, old(pmm.taken), pmm.Limit());
        return;
      }
      ghost var low, high, flat := PageOf(start), PageOf(top), vmm.flat;
      ghost var all, s := stack + heap, PageOf(start + PAGE_SIZE - 12) - low;
      ghost var held := ThreadFrames(flat, d, low, high);
      assert held == if d == vmm.kern then all[s := 0] else all by {
        HeldFrames(old(vmm.flat), flat, d, start, top, stack, heap, main);
      }
      label built:
      ReleasePlaced(t, d, nthreads);
      GotGiven(all, old(pmm.taken), pmm.Limit());
      forall e: nat, p: nat
        ensures vmm.Flat(e, p) ==
                if e == d && InThread(low, high, p) then 0
                else if e == vmm.kern && FilledPage(start, top, main, p) then 0
                else Built(vmm.kern, d, low, high, stack, heap, e, p, old(vmm.Flat(e, p)))
      {
        if e == d && InThread(low, high, p) {
          ClearedBuilt(vmm.kern, d, low, high, stack, heap, p, old(vmm.Flat(e, p)));
        }
        assert vmm.Flat(e, p) == if e == d && InThread(low, high, p) then Cleared(old@built(vmm.Flat(e, p)))
                                 else old@built(vmm.Flat(e, p));
      }
      if d != vmm.kern {
        AllGivenBack(all, old(pmm.taken), pmm.Limit());
        UsedBack(old(pmm.usedBlocks), 6);
      } else if |old(FreeBlocks())| >= 6 {
        OneKept(all, s, old(pmm.taken), pmm.Limit());
      }
    }

    /** What a built thread's process has on the thread's pages. */
    lemma HeldFrames(was: map<(nat, nat), word>, flat: map<(nat, nat), word>, d: nat, start: word, top: word,
                     stack: seq<Frame>, heap: seq<Frame>, main: bool)
      requires vmm.flat == flat && |stack| == 2 && |heap| == 4 && (main ==> d != vmm.kern)
      requires start + 2 * PAGE_SIZE <= top
      requires forall e: nat, p: nat :: vmm.Flat(e, p) ==
                 if e == vmm.kern && FilledPage(start, top, main, p) then 0
                 else Built(vmm.kern, d, PageOf(start), PageOf(top), stack, heap, e, p, At(was, e, p))
      ensures PageOf(start) <= PageOf(start + PAGE_SIZE - 12) < PageOf(start) + 2 <= PageOf(top)
      ensures ThreadFrames(flat, d, PageOf(start), PageOf(top)) ==
              if d == vmm.kern then (stack + heap)[PageOf(start + PAGE_SIZE - 12) - PageOf(start) := 0] else stack + heap
    {
      var low, high, s := PageOf(start), PageOf(top), PageOf(start + PAGE_SIZE - 12);
      StartsApart(start, top);
      hide PageOf;
      var held := ThreadFrames(flat, d, low, high);
      var a, b := FramesAt(flat, d, low, 2), FramesAt(flat, d, high, 4);
      forall i | 0 <= i < 2 ensures a[i] == if d == vmm.kern && low + i == s then 0 else stack[i] {
        assert At(flat, d, low + i) == vmm.Flat(d, low + i);
      }
      forall i | 0 <= i < 4 ensures b[i] == heap[i] {
        assert At(flat, d, high + i) == vmm.Flat(d, high + i);
      }
    }
  }

  /** A page through the two halves of building a thread. */
  lemma BuiltInTurn(kern: nat, d: nat, low: nat, high: nat, stack: seq<Frame>, heap: seq<Frame>, e: nat, p: nat,
                    was: word, mid: word, now: word, sp: nat, main: bool)
    requires |stack| == 2 && |heap| == 4 && low <= sp < low + 2 <= high
    requires mid == if !main && e == kern && p == sp then 0 else Built(kern, d, low, high, stack, [], e, p, was)
    requires now == if main && e == kern && (p == sp || p == high) then 0 else Built(kern, d, low, high, [], heap, e, p, mid)
    ensures now == if e == kern && (p == sp || (main && p == high)) then 0
                   else Built(kern, d, low, high, stack, heap, e, p, was)
  {}

  /** The pages among some of a directory whose frame vmm_unmap gives back: not those of the kernel's
      frames, and not empty ones. */
  ghost function Held(flat: map<(nat, nat), word>, d: nat, pages: set<nat>): set<nat> {
    set p | p in pages && FrameIn(At(flat, d, p)) >= RESERVED
  }

  ghost function FramesOn(flat: map<(nat, nat), word>, d: nat, pages: set<nat>): set<nat> {
    set p | p in Held(flat, d, pages) :: FrameIn(At(flat, d, p))
  }

  lemma HeldNext(flat: map<(nat, nat), word>, d: nat, pages: set<nat>, p: nat)
    requires p !in pages
    ensures var frame: nat := FrameIn(At(flat, d, p));
            && FramesOn(flat, d, pages + {p}) == FramesOn(flat, d, pages) + (if frame >= RESERVED then {frame} else {})
            && |Held(flat, d, pages + {p})| == |Held(flat, d, pages)| + if frame >= RESERVED then 1 else 0
  {
    hide FrameIn, At;
    var frame: nat := FrameIn(At(flat, d, p));
    var a, b := Held(flat, d, pages), Held(flat, d, pages + {p});
    assert b == if frame >= RESERVED then a + {p} else a;
  }

  lemma HeldBoth(flat: map<(nat, nat), word>, d: nat, a: set<nat>, b: set<nat>)
    requires a !! b
    ensures FramesOn(flat, d, a + b) == FramesOn(flat, d, a) + FramesOn(flat, d, b)
    ensures |Held(flat, d, a + b)| == |Held(flat, d, a)| + |Held(flat, d, b)|
  {
    assert Held(flat, d, a + b) == Held(flat, d, a) + Held(flat, d, b);
  }

  /** Pages page, page + 1, ... of an address space. */
  ghost function PagesFrom(page: nat, n: nat): set<nat> {
    if n == 0 then {} else PagesFrom(page, n - 1) + {PageAfter(page, n - 1)}
  }

  lemma {:induction false} PagesFromAre(page: nat, n: nat)
    requires page + n <= PAGES
    ensures forall p: nat :: p in PagesFrom(page, n) <==> page <= p < page + n
  {
    if n > 0 {
      PagesFromAre(page, n - 1);
    }
  }

  /** The six pages proc.c unmaps for a thread. */
  ghost function PagesOf(t: ThreadMemory): set<nat>
    reads t
  {
    {PageOf(Wrapped(t.stackLimit - PAGE_SIZE))} + {PageOf(Wrapped(t.stackKernelLimit - PAGE_SIZE))} + PagesFrom(PageOf(t.heap), 4)
  }

  lemma {:induction false} HeldRun(flat: map<(nat, nat), word>, d: nat, page: nat, n: nat)
    requires page + n <= PAGES
    ensures FramesOn(flat, d, PagesFrom(page, n)) == Given(FramesAt(flat, d, page, n))
    ensures |Held(flat, d, PagesFrom(page, n))| == GivenCount(FramesAt(flat, d, page, n))
  {
    HeldNone(flat, d);
    hide Held, FramesOn, FrameIn, Given, GivenCount;
    if n > 0 {
      HeldRun(flat, d, page, n - 1);
      PagesFromAre(page, n - 1);
      HeldNext(flat, d, PagesFrom(page, n - 1), page + n - 1);
      var fs := FramesAt(flat, d, page, n);
      assert fs[..n - 1] == FramesAt(flat, d, page, n - 1) && fs[..n] == fs;
      GivenNext(fs, n - 1);
    }
  }

  lemma HeldNone(flat: map<(nat, nat), word>, d: nat)
    ensures FramesOn(flat, d, {}) == {} && Held(flat, d, {}) == {} && Given([]) == {} && GivenCount([]) == 0
  {}

  lemma RunsOfThread(low: nat, high: nat)
    requires low + 2 <= high && high + 4 <= PAGES
    ensures forall p: nat :: p in PagesFrom(low, 2) + PagesFrom(high, 4) <==> InThread(low, high, p)
  {
    PagesFromAre(low, 2);
    PagesFromAre(high, 4);
  }

  /** What a thread's pages hold. */
  lemma HeldThread(flat: map<(nat, nat), word>, d: nat, low: nat, high: nat)
    requires low + 2 <= high && high + 4 <= PAGES
    ensures var pages, held := PagesFrom(low, 2) + PagesFrom(high, 4), ThreadFrames(flat, d, low, high);
            FramesOn(flat, d, pages) == Given(held) && |Held(flat, d, pages)| == GivenCount(held)
    ensures forall p: nat :: p in PagesFrom(low, 2) + PagesFrom(high, 4) <==> InThread(low, high, p)
  {
    RunsOfThread(low, high);
    PagesFromAre(low, 2);
    PagesFromAre(high, 4);
    HeldRun(flat, d, low, 2);
    HeldRun(flat, d, high, 4);
    HeldBoth(flat, d, PagesFrom(low, 2), PagesFrom(high, 4));
    GivenBoth(FramesAt(flat, d, low, 2), FramesAt(flat, d, high, 4));
  }

  /** vmm_unmap clears an entry that has a frame. */
  ghost function Cleared(entry: word): word {
    if FrameIn(entry) == 0 then entry else 0
  }

  ghost predicate InThread(low: nat, high: nat, p: nat) {
    low <= p < low + 2 || high <= p < high + 4
  }

  ghost function ThreadFrames(flat: map<(nat, nat), word>, d: nat, low: nat, high: nat): seq<Frame> {
    FramesAt(flat, d, low, 2) + FramesAt(flat, d, high, 4)
  }

  /** The pages kern_dir gives up while a thread is built. */
  ghost predicate FilledPage(stack: nat, heap: nat, main: bool, p: nat)
    requires stack + PAGE_SIZE < WORD_RANGE && heap < WORD_RANGE
  {
    p == PageOf(stack + PAGE_SIZE - 12) || (main && p == PageOf(heap))
  }

  /** By addresses: the page of the stack pointer that stack_fill starts with, twelve bytes below the end of the
      first page of the stack, and for a main thread the first page of the heap. */
  lemma FilledPages(image: word, n: nat, main: bool, p: nat)
    requires HeapStart(image, n) + 4 * PAGE_SIZE < WORD_RANGE
    ensures StackStart(image, n) + PAGE_SIZE < WORD_RANGE
    ensures FilledPage(StackStart(image, n), HeapStart(image, n), main, p) <==>
              p == (image + 0x6000 * n + 4084) / 4096 || (main && p == (image + 0xC000 * n + 0x2000) / 4096)
  {
    assert Offset(n) == 0x6000 * n;
  }

  lemma ClearedBuilt(kern: nat, d: nat, low: nat, high: nat, stack: seq<Frame>, heap: seq<Frame>, p: nat, was: word)
    requires |stack| == 2 && |heap| == 4 && InThread(low, high, p)
    requires forall i :: 0 <= i < 6 ==> (stack + heap)[i] >= RESERVED
    ensures Cleared(Built(kern, d, low, high, stack, heap, d, p, was)) == 0
  {
    assert forall i :: 0 <= i < 2 ==> stack[i] == (stack + heap)[i];
    assert forall i :: 0 <= i < 4 ==> heap[i] == (stack + heap)[i + 2];
  }

  /** The directory slots of the thread with index n above an image. */
  ghost function ThreadSlots(kern: nat, d: nat, image: nat, n: nat): set<(nat, nat)>
    requires HeapStart(image, n) < WORD_RANGE
  {
    SlotsOf(kern, d, PageOf(StackStart(image, n)), 2) + SlotsOf(kern, d, PageOf(HeapStart(image, n)), 4)
  }

  lemma StartsApart(start: word, top: word)
    requires start + 2 * PAGE_SIZE <= top
    ensures PageOf(start) <= PageOf(start + PAGE_SIZE - 12) <= PageOf(start) + 1 < PageOf(top)
  {}

  lemma ThreadAddresses(image: nat, n: nat)
    requires HeapStart(image, n) + 4 * PAGE_SIZE < WORD_RANGE
    ensures var start, top := StackStart(image, n), HeapStart(image, n);
            && start + 2 * PAGE_SIZE <= top
            && PageOf(start) <= PageOf(start + PAGE_SIZE - 12) <= PageOf(start) + 1 < PageOf(top)
            && PageOf(start + PAGE_SIZE) == PageOf(start) + 1 && PageOf(top) + 4 <= PAGES
  {
    StartsApart(StackStart(image, n), HeapStart(image, n));
  }

  lemma {:induction false} GivenBoth(a: seq<Frame>, b: seq<Frame>)
    ensures Given(a + b) == Given(a) + Given(b) && GivenCount(a + b) == GivenCount(a) + GivenCount(b)
    decreases |b|
  {
    if b == [] {
      assert a + b == a && Given(b) == {};
    } else {
      var n := |b| - 1;
      GivenBoth(a, b[..n]);
      assert a + b == (a + b[..n]) + [b[n]] && (a + b)[..|a + b| - 1] == a + b[..n];
      GivenNext(a + b, |a| + n);
      GivenNext(b, n);
      assert (a + b)[..|a| + n + 1] == a + b && b[..n + 1] == b && (a + b)[..|a| + n] == a + b[..n];
    }
  }

  lemma UsedBoth(u: int, a: nat, b: nat)
    ensures Wrapped(Wrapped(u + a) + b) == Wrapped(u + (a + b))
  {}

  lemma UsedLess(u: int, a: nat, b: nat)
    ensures Wrapped(Wrapped(u - a) - b) == Wrapped(u - (a + b))
  {}

  lemma UsedBack(u: word, n: nat)
    ensures Wrapped(Wrapped(u + n) - n) == u
  {}

  /** Every answer of pmm_malloc is a frame vmm_unmap gives back. */
  lemma GotGiven(all: seq<Frame>, taken: set<nat>, limit: nat)
    requires Got(all, taken, limit)
    ensures forall i :: 0 <= i < |all| ==> all[i] >= RESERVED
    ensures Given(all) == SetOf(all) && GivenCount(all) == |all|
  {
    var kept := Kept(all, taken, limit);
    forall i | 0 <= i < |all| ensures all[i] >= RESERVED {
      if i < |kept| {
        assert all[i] == kept[i];
      }
    }
    CountAll(all);
  }

  lemma {:induction false} CountAll(frames: seq<Frame>)
    requires forall i :: 0 <= i < |frames| ==> frames[i] >= RESERVED
    ensures GivenCount(frames) == |frames|
    decreases |frames|
  {
    if frames != [] {
      CountAll(frames[..|frames| - 1]);
    }
  }

  /** Giving back every answer gives back what was taken, and LOST if the blocks ran out. */
  lemma AllGivenBack(all: seq<Frame>, taken: set<nat>, limit: nat)
    requires Got(all, taken, limit)
    ensures After(all, taken, limit) - Given(all) == if |Free(taken, limit)| >= |all| then taken else taken - {LOST as nat}
    ensures GivenCount(all) == |all|
  {
    hide Given, GivenCount, Free;
    GotGiven(all, taken, limit);
    var kept, m := Kept(all, taken, limit), |Free(taken, limit)|;
    if m < |all| {
      assert all == kept + all[m..];
      SetOfBoth(kept, all[m..]);
      AllLost(all[m..]);
    }
  }

  lemma AllLost(frames: seq<Frame>)
    requires |frames| > 0 && forall i :: 0 <= i < |frames| ==> frames[i] == LOST
    ensures SetOf(frames) == {LOST as nat}
  {
    assert frames[0] as nat in SetOf(frames);
  }

  /** With enough blocks, a frame that is not given back stays taken. */
  lemma OneKept(all: seq<Frame>, s: nat, taken: set<nat>, limit: nat)
    requires Got(all, taken, limit) && s < |all| <= |Free(taken, limit)|
    ensures After(all, taken, limit) - Given(all[s := 0]) != taken
  {
    var f := all[s];
    assert f as nat in SetOf(all) && f !in taken;
    assert f as nat !in Given(all[s := 0]);
  }

  /** With a block left, a first answer is a new frame. */
  lemma SomeKept(all: seq<Frame>, taken: set<nat>, limit: nat)
    requires Got(all, taken, limit) && |all| > 0
    ensures |Free(taken, limit)| > 0 ==> After(all, taken, limit) != taken
  {
    var kept := Kept(all, taken, limit);
    if |Free(taken, limit)| > 0 {
      assert kept[0] as nat in SetOf(kept) && kept[0] !in taken;
    }
  }

  lemma ClearedTwice(entry: word)
    ensures FrameIn(Cleared(entry)) == 0 && Cleared(Cleared(entry)) == Cleared(entry)
  {}

  lemma FrameOf(frame: Frame, flags: word)
    requires flags < PAGE_SIZE
    ensures (frame * PAGE_SIZE + flags) / PAGE_SIZE * PAGE_SIZE == frame * PAGE_SIZE
  {}

  lemma PageIsAfter(addr: word, i: nat)
    ensures PageOf(Wrapped(addr + i * PAGE_SIZE)) == PageAfter(PageOf(addr), i)
  {
    var o := addr % PAGE_SIZE;
    assert addr + i * PAGE_SIZE == (PageOf(addr) + i) * PAGE_SIZE + o;
    PageOfSum(PageOf(addr) + i, o);
  }

  lemma PageOfSum(n: nat, o: nat)
    requires o < PAGE_SIZE
    ensures PageOf(Wrapped(n * PAGE_SIZE + o)) == n % PAGES
  {
    assert n * PAGE_SIZE + o == n / PAGES * WORD_RANGE + (n % PAGES * PAGE_SIZE + o);
  }

  lemma LimitFits(pmm: Pmm)
    requires pmm.Valid()
    ensures pmm.Limit() <= PAGES
  {}

  lemma NoneFree(taken: set<nat>, limit: nat)
    ensures Free(taken, limit) == {} <==> forall k: nat :: k < limit ==> k in taken
  {
    if Free(taken, limit) == {} {
      forall k: nat | k < limit ensures k in taken {
        assert k !in Free(taken, limit);
      }
    }
  }

  // ---------------------------------------------------------------- layout

  /** The six pages of the thread with index n, counted from the first page after the image: two of
      stack at 6n, four of heap at 12n + 2, the offset being added a second time. */
  function ThreadPages(n: nat): set<nat> {
    {6 * n, 6 * n + 1, 12 * n + 2, 12 * n + 3, 12 * n + 4, 12 * n + 5}
  }

  /** build_stack and build_heap put a thread on those pages. */
  lemma PagesOfThread(image: word, n: nat)
    requires HeapStart(image, n) + 4 * PAGE_SIZE < WORD_RANGE
    ensures PageOf(StackStart(image, n)) == PageOf(image) + 6 * n
    ensures PageOf(HeapStart(image, n)) == PageOf(image) + 12 * n + 2
  {}

  /** No two threads of a process share a page, whatever their number. */
  lemma ThreadsApart(m: nat, n: nat)
    requires m != n
    ensures ThreadPages(m) !! ThreadPages(n)
  {
    var k := m - 2 * n;
    var l := n - 2 * m;
    assert 6 * m - 12 * n == 6 * k && 6 * n - 12 * m == 6 * l;
  }
}
