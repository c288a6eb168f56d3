/** The memory of a whole process: remove_proc of proc/proc.c, and what is left after all threads of a
    process have been built and the process has been removed. */
module ProcessTeardown {
  import opened Bits
  import opened PageTables
  import PhysicalMemory
  import opened ProcessMemory

  /** The pages of several threads. */
  ghost function PagesOfAll(ts: seq<ThreadMemory>): set<nat>
    reads ts
  {
    if ts == [] then {} else PagesOfAll(ts[..|ts| - 1]) + PagesOf(ts[|ts| - 1])
  }

  function Least(a: nat, b: nat): nat {
    if a < b then a else b
  }

  lemma {:induction false} PartOfAll(ts: seq<ThreadMemory>, k: nat)
    requires k < |ts|
    ensures PagesOf(ts[k]) <= PagesOfAll(ts)
    decreases |ts|
  {
    hide PagesOf;
    if k < |ts| - 1 {
      PartOfAll(ts[..|ts| - 1], k);
    }
  }

  lemma NextOfAll(ts: seq<ThreadMemory>, k: nat)
    requires k < |ts|
    ensures PagesOfAll(ts[..k + 1]) == PagesOfAll(ts[..k]) + PagesOf(ts[k])
  {
    assert ts[..k + 1][..k] == ts[..k];
  }

  /** The second loop of remove_proc: `threads` turns along the ring from thread_list.  Threads that
      stop_thread has unlinked are still counted, so the last turns can come to threads whose pages
      have been given back before; they then do nothing more. */
  method ReleaseThreads(mem: Memory, ts: seq<ThreadMemory>, d: nat, threads: nat, ghost pages: set<nat>, ghost taken: set<nat>,
                        ghost used: word, ghost flat: map<(nat, nat), word>)
    requires mem.Valid() && d in mem.vmm.dirs && |ts| > 0 && mem.Released(d, pages, taken, used, flat)
    modifies mem.vmm.ram, mem.vmm`flat, mem.pmm.map_, mem.pmm`taken, mem.pmm`usedBlocks
    ensures mem.Valid()
    ensures mem.Released(d, pages + PagesOfAll(ts[..Least(threads, |ts|)]), taken, used, flat)
  {
    hide Vmm.Valid, PhysicalMemory.Pmm.Valid, Memory.Released, PagesOf, PagesOfAll;
    var at := 0;
    NoPages(ts);
    assert pages + {} == pages;
    for i := 0 to threads
      invariant mem.Valid() && d in mem.vmm.dirs && at < |ts| && (i < |ts| ==> at == i)
      invariant mem.Released(d, pages + PagesOfAll(ts[..Least(i, |ts|)]), taken, used, flat)
    {
      ghost var done := pages + PagesOfAll(ts[..Least(i, |ts|)]);
      mem.ReleaseThread(ts[at], d, done, taken, used, flat);
      TurnPages(ts, i, at);
      assert done + PagesOf(ts[at]) == pages + PagesOfAll(ts[..Least(i + 1, |ts|)]);
      at := if at + 1 < |ts| then at + 1 else 0;
    }
  }

  lemma NoPages(ts: seq<ThreadMemory>)
    ensures PagesOfAll(ts[..0]) == {}
  {}

  lemma TurnPages(ts: seq<ThreadMemory>, i: nat, at: nat)
    requires at < |ts| && (i < |ts| ==> at == i)
    ensures PagesOfAll(ts[..Least(i + 1, |ts|)]) == PagesOfAll(ts[..Least(i, |ts|)]) + PagesOf(ts[at])
  {
    hide PagesOf, PagesOfAll;
    if i < |ts| {
      NextOfAll(ts, i);
    } else {
      assert ts[..|ts|] == ts;
      PartOfAll(ts, at);
    }
  }

  /** The pages of a process's image that remove_proc unmaps. */
  ghost function ImagePages(t: ThreadMemory): set<nat>
    reads t`imageBase, t`imageSize
  {
    PagesFrom(PageOf(t.imageBase), t.imageSize / PAGE_SIZE)
  }

  /** The calls of vmm_unmap in remove_proc; `ts` is the ring of threads from thread_list. */
  method RemoveProc(mem: Memory, ts: seq<ThreadMemory>, d: nat, threads: nat)
    requires mem.Valid() && d in mem.vmm.dirs && |ts| > 0
    modifies mem.vmm.ram, mem.vmm`flat, mem.pmm.map_, mem.pmm`taken, mem.pmm`usedBlocks
    ensures mem.Valid()
    ensures mem.Released(d, ImagePages(ts[0]) + PagesOfAll(ts[..Least(threads, |ts|)]),
                         old(mem.pmm.taken), old(mem.pmm.usedBlocks), old(mem.vmm.flat))
  {
    hide Vmm.Valid, PhysicalMemory.Pmm.Valid, Memory.Released, PagesOfAll, PagesFrom;
    ghost var taken, used, flat := mem.pmm.taken, mem.pmm.usedBlocks, mem.vmm.flat;
    mem.NothingReleased(d);
    mem.UnmapRun(d, ts[0].imageBase, ts[0].imageSize / PAGE_SIZE, {}, taken, used, flat);
    assert {} + ImagePages(ts[0]) == ImagePages(ts[0]);
    ReleaseThreads(mem, ts, d, threads, ImagePages(ts[0]), taken, used, flat);
  }

  // ---------------------------------------------------------------- building all threads

  /** The index start_proc and start_thread build the i-th thread of a process with. */
  function IndexOf(i: nat): nat {
    if i == 0 then 0 else i + 1
  }

  /** The directory slots of the first k threads above an image. */
  ghost function AllSlots(kern: nat, d: nat, image: nat, k: nat): set<(nat, nat)>
    requires HeapStart(image, k) + 4 * PAGE_SIZE < WORD_RANGE
  {
    if k == 0 then {} else AllSlots(kern, d, image, k - 1) + ThreadSlots(kern, d, image, IndexOf(k - 1))
  }

  lemma {:induction false} AllSlotsMore(kern: nat, d: nat, image: nat, k: nat, n: nat) returns (more: set<(nat, nat)>)
    requires k <= n && HeapStart(image, n) + 4 * PAGE_SIZE < WORD_RANGE
    ensures AllSlots(kern, d, image, n) == AllSlots(kern, d, image, k) + more
  {
    hide ThreadSlots;
    if k == n {
      more := {};
    } else {
      more := AllSlotsMore(kern, d, image, k, n - 1);
      more := more + ThreadSlots(kern, d, image, IndexOf(n - 1));
    }
  }

  /** The threads of one process: distinct, and above one image with room for them all. */
  ghost predicate OneProcess(ts: seq<ThreadMemory>)
    reads ts
  {
    && |ts| > 0
    && (forall i, j :: 0 <= i < j < |ts| ==> ts[i] != ts[j])
    && (forall i :: 0 <= i < |ts| ==> ts[i].imageBase == ts[0].imageBase && ts[i].imageSize == ts[0].imageSize)
    && HeapStart(ts[0].imageBase + ts[0].imageSize, |ts|) + 4 * PAGE_SIZE < WORD_RANGE
  }

  /** Page tables that building all threads needs: one for every distinct empty slot of their pages. */
  ghost function TablesNeeded(mem: Memory, ts: seq<ThreadMemory>, d: nat): nat
    requires OneProcess(ts)
    reads mem, mem.vmm`dirs, mem.vmm.ram, ts
  {
    Need(mem.vmm.EmptySlots(), AllSlots(mem.vmm.kern, d, ts[0].imageBase + ts[0].imageSize, |ts|))
  }

  ghost predicate AllPlaced(mem: Memory, ts: seq<ThreadMemory>, k: nat)
    requires k <= |ts|
    reads ts
  {
    forall i :: 0 <= i < k ==> mem.Placed(ts[i], IndexOf(i))
  }

  /** A thread is on its six pages, counted from the first page after the image. */
  lemma ThreadOnPages(mem: Memory, t: ThreadMemory, n: nat)
    requires HeapStart(t.imageBase + t.imageSize, n) + 4 * PAGE_SIZE < WORD_RANGE && mem.Placed(t, n)
    ensures var base := PageOf(t.imageBase + t.imageSize);
            forall p: nat :: p in PagesOf(t) <==> p >= base && p - base in ThreadPages(n)
  {
    hide PageOf, PagesOf, Memory.Placed, HeapStart, StackStart, ThreadPages, PagesFrom, InThread;
    var image := t.imageBase + t.imageSize;
    ImageFits(image, n);
    mem.PagesPlaced(t, n);
    PagesOfThread(image, n);
    ThreadAddresses(image, n);
    var base, low, high := PageOf(image), PageOf(StackStart(image, n)), PageOf(HeapStart(image, n));
    RunsOfThread(low, high);
    forall p: nat ensures p in PagesOf(t) <==> p >= base && p - base in ThreadPages(n) {
      OnPage(base, n, low, high, p);
    }
  }

  lemma ImageFits(image: nat, n: nat)
    requires HeapStart(image, n) + 4 * PAGE_SIZE < WORD_RANGE
    ensures image < WORD_RANGE && StackStart(image, n) < WORD_RANGE
  {}

  lemma OnPage(base: nat, n: nat, low: nat, high: nat, p: nat)
    requires low == base + 6 * n && high == base + 12 * n + 2
    ensures InThread(low, high, p) <==> p >= base && p - base in ThreadPages(n)
  {}

  lemma RoomFor(image: nat, i: nat, k: nat)
    requires i < k
    ensures image <= HeapStart(image, IndexOf(i)) <= HeapStart(image, k)
  {}

  /** The threads of a process have their pages to themselves, and the image has its own. */
  lemma {:induction false} PagesApart(mem: Memory, ts: seq<ThreadMemory>, k: nat, i: nat)
    requires OneProcess(ts) && k <= i < |ts| && AllPlaced(mem, ts, k) && mem.Placed(ts[i], IndexOf(i))
    ensures PagesOfAll(ts[..k]) !! PagesOf(ts[i])
    decreases k
  {
    hide PagesOf, Memory.Placed, HeapStart, ThreadPages;
    if k > 0 {
      var a, b, image := ts[k - 1], ts[i], ts[0].imageBase + ts[0].imageSize;
      PagesApart(mem, ts, k - 1, i);
      NextOfAll(ts, k - 1);
      RoomFor(image, k - 1, |ts|);
      RoomFor(image, i, |ts|);
      ThreadOnPages(mem, a, IndexOf(k - 1));
      ThreadOnPages(mem, b, IndexOf(i));
      ThreadsApart(IndexOf(k - 1), IndexOf(i));
    }
  }

  lemma {:induction false} ImageApart(mem: Memory, ts: seq<ThreadMemory>, k: nat)
    requires OneProcess(ts) && k <= |ts| && AllPlaced(mem, ts, k)
    ensures ImagePages(ts[0]) !! PagesOfAll(ts[..k])
    decreases k
  {
    hide PagesOf, Memory.Placed, HeapStart, ThreadPages, PagesFrom;
    if k > 0 {
      var image := ts[0].imageBase + ts[0].imageSize;
      ImageApart(mem, ts, k - 1);
      NextOfAll(ts, k - 1);
      RoomFor(image, k - 1, |ts|);
      ThreadOnPages(mem, ts[k - 1], IndexOf(k - 1));
      BelowThreads(ts[0]);
    }
  }

  lemma BelowThreads(t: ThreadMemory)
    requires t.imageBase + t.imageSize < WORD_RANGE
    ensures forall p: nat :: p in ImagePages(t) ==> p < PageOf(t.imageBase + t.imageSize)
  {
    PagesFromAre(PageOf(t.imageBase), t.imageSize / PAGE_SIZE);
  }

  /** The first k threads have been built: their frames are the answers of pmm_malloc, and the process has
      exactly these on their pages; nothing else has changed but kern_dir. */
  ghost predicate Building(ok: bool, mem: Memory, ts: seq<ThreadMemory>, d: nat, k: nat, all: seq<Frame>, taken: set<nat>,
                           used: word, flat: map<(nat, nat), word>)
    requires k <= |ts|
    reads mem, mem.vmm`flat, mem.pmm, ts
  {
    && mem.Taken(all, taken) && mem.pmm.usedBlocks == Wrapped(used + |all|)
    && (ok ==>
          var pages := PagesOfAll(ts[..k]);
          && |all| == 6 * k && AllPlaced(mem, ts, k)
          && FramesOn(mem.vmm.flat, d, pages) == SetOf(all) && |Held(mem.vmm.flat, d, pages)| == |all|
          && (forall p: nat :: p in pages ==> Cleared(mem.vmm.Flat(d, p)) == 0)
          && forall e: nat, p: nat :: e != mem.vmm.kern && !(e == d && p in pages) ==> mem.vmm.Flat(e, p) == At(flat, e, p))
  }

  /** start_proc's part in it, and start_thread's again and again: all threads of a process. */
  method BuildAll(mem: Memory, ts: seq<ThreadMemory>, d: nat) returns (ok: bool, ghost all: seq<Frame>)
    requires mem.Valid() && d in mem.vmm.dirs && d != mem.vmm.kern && OneProcess(ts)
    modifies mem.vmm.pool, mem.vmm.ram, mem.vmm`poolUsed, mem.vmm`tables, mem.vmm`flat
    modifies mem.pmm.map_, mem.pmm`taken, mem.pmm`usedBlocks
    modifies ts`esp, ts`stackLimit, ts`espKernel, ts`stackKernelLimit, ts`heap, ts`heapLimit
    ensures mem.Valid() && OneProcess(ts)
    ensures ok <==> old(mem.vmm.PoolLeft()) >= old(TablesNeeded(mem, ts, d))
    ensures Building(ok, mem, ts, d, |ts|, all, old(mem.pmm.taken), old(mem.pmm.usedBlocks), old(mem.vmm.flat))
  {
    hide Vmm.Valid, PhysicalMemory.Pmm.Valid, Building, Paid, Need, AllSlots, HeapStart, Vmm.PoolLeft, Vmm.EmptySlots;
    ghost var image, kern := ts[0].imageBase + ts[0].imageSize, mem.vmm.kern;
    ghost var taken, used, flat, left, empty := mem.pmm.taken, mem.pmm.usedBlocks, mem.vmm.flat, mem.vmm.PoolLeft(), mem.vmm.EmptySlots();
    all := [];
    NothingBuilt(mem, ts, d);
    for i := 0 to |ts|
      invariant mem.Valid() && d in mem.vmm.dirs && OneProcess(ts) && ts[0].imageBase + ts[0].imageSize == image
      invariant HeapStart(image, i) <= HeapStart(image, |ts|)
      invariant Building(true, mem, ts, d, i, all, taken, used, flat)
      invariant Paid(true, left, empty, AllSlots(kern, d, image, i), mem.vmm.PoolLeft(), mem.vmm.EmptySlots())
    {
      ghost var more, mid, midEmpty := [], mem.vmm.PoolLeft(), mem.vmm.EmptySlots();
      RoomFor(image, i, |ts|);
      RoomToGrow(image, i, |ts|);
      ok, more := BuildNext(mem, ts, ts[i], d, i, all, taken, used, flat);
      all := all + more;
      NextPaidFor(ok, left, empty, kern, d, image, i, |ts|, mid, midEmpty, mem.vmm.PoolLeft(), mem.vmm.EmptySlots());
      if !ok {
        return;
      }
    }
    ok := true;
    AllPaid(left, empty, AllSlots(kern, d, image, |ts|), mem.vmm.PoolLeft(), mem.vmm.EmptySlots());
  }

  lemma AllPaid(left: nat, empty: set<(nat, nat)>, slots: set<(nat, nat)>, left': nat, empty': set<(nat, nat)>)
    requires Paid(true, left, empty, slots, left', empty')
    ensures left >= Need(empty, slots)
  {}

  lemma RoomToGrow(image: nat, i: nat, k: nat)
    requires i < k
    ensures HeapStart(image, i) <= HeapStart(image, i + 1) <= HeapStart(image, k)
  {}

  lemma NextPaidFor(ok: bool, left: nat, empty: set<(nat, nat)>, kern: nat, d: nat, image: nat, i: nat, n: nat,
                    mid: nat, midEmpty: set<(nat, nat)>, left': nat, empty': set<(nat, nat)>)
    requires i < n && HeapStart(image, i) <= HeapStart(image, i + 1) <= HeapStart(image, n)
    requires HeapStart(image, IndexOf(i)) <= HeapStart(image, n) && HeapStart(image, n) + 4 * PAGE_SIZE < WORD_RANGE
    requires Paid(true, left, empty, AllSlots(kern, d, image, i), mid, midEmpty)
    requires Paid(ok, mid, midEmpty, ThreadSlots(kern, d, image, IndexOf(i)), left', empty')
    ensures ok ==> Paid(true, left, empty, AllSlots(kern, d, image, i + 1), left', empty')
    ensures !ok ==> left < Need(empty, AllSlots(kern, d, image, n))
  {
    hide ThreadSlots, HeapStart, Need;
    PaidBoth(ok, left, empty, AllSlots(kern, d, image, i), ThreadSlots(kern, d, image, IndexOf(i)), mid, midEmpty, left', empty');
    if !ok {
      var more := AllSlotsMore(kern, d, image, i + 1, n);
      PaidFailed(left, empty, AllSlots(kern, d, image, i + 1), more, left', empty', left', empty');
    }
  }

  lemma NothingBuilt(mem: Memory, ts: seq<ThreadMemory>, d: nat)
    requires mem.Valid() && OneProcess(ts)
    ensures Building(true, mem, ts, d, 0, [], mem.pmm.taken, mem.pmm.usedBlocks, mem.vmm.flat)
    ensures HeapStart(ts[0].imageBase + ts[0].imageSize, 0) <= HeapStart(ts[0].imageBase + ts[0].imageSize, |ts|)
    ensures Paid(true, mem.vmm.PoolLeft(), mem.vmm.EmptySlots(), {}, mem.vmm.PoolLeft(), mem.vmm.EmptySlots())
    ensures AllSlots.requires(mem.vmm.kern, d, ts[0].imageBase + ts[0].imageSize, 0)
    ensures AllSlots(mem.vmm.kern, d, ts[0].imageBase + ts[0].imageSize, 0) == {}
  {
    hide Vmm.PoolLeft, Vmm.EmptySlots;
    GotNothing(mem.pmm.taken, mem.pmm.Limit());
    LimitFits(mem.pmm);
    PaidNothing(mem.vmm.PoolLeft(), mem.vmm.EmptySlots());
    NoPages(ts);
    HeldNone(mem.vmm.flat, d);
    assert SetOf([]) == {};
  }

  /** The next thread of a process. */
  method BuildNext(mem: Memory, ts: seq<ThreadMemory>, t: ThreadMemory, d: nat, i: nat, ghost all: seq<Frame>, ghost taken: set<nat>,
                   ghost used: word, ghost flat: map<(nat, nat), word>)
    returns (ok: bool, ghost more: seq<Frame>)
    requires mem.Valid() && d in mem.vmm.dirs && d != mem.vmm.kern && OneProcess(ts) && i < |ts| && t == ts[i]
    requires HeapStart(ts[0].imageBase + ts[0].imageSize, IndexOf(i)) <= HeapStart(ts[0].imageBase + ts[0].imageSize, |ts|)
    requires Building(true, mem, ts, d, i, all, taken, used, flat)
    modifies mem.vmm.pool, mem.vmm.ram, mem.vmm`poolUsed, mem.vmm`tables, mem.vmm`flat
    modifies mem.pmm.map_, mem.pmm`taken, mem.pmm`usedBlocks
    modifies t`esp, t`stackLimit, t`espKernel, t`stackKernelLimit, t`heap, t`heapLimit
    ensures mem.Valid() && OneProcess(ts)
    ensures Building(ok, mem, ts, d, if ok then i + 1 else |ts|, all + more, taken, used, flat)
    ensures Paid(ok, old(mem.vmm.PoolLeft()), old(mem.vmm.EmptySlots()),
                 ThreadSlots(mem.vmm.kern, d, ts[0].imageBase + ts[0].imageSize, IndexOf(i)), mem.vmm.PoolLeft(), mem.vmm.EmptySlots())
  {
    hide Vmm.Valid, PhysicalMemory.Pmm.Valid, Got, After, Paid, Free, SetOf, Held, FramesOn, Vmm.PoolLeft, Vmm.EmptySlots;
    hide HeapStart, StackStart, PagesOf, PagesOfAll, Wrapped, PageOf, Cleared, Memory.Placed, Built, ThreadSlots, Need;
    ghost var stack, heap, was, before := [], [], mem.vmm.flat, mem.pmm.taken;
    ghost var pages := PagesOfAll(ts[..i]);
    assert t !in ts[..i];
    ok, stack, heap := mem.BuildThread(t, d, IndexOf(i), i == 0);
    more := stack + heap;
    GotBoth(all, more, taken, mem.pmm.Limit());
    UsedBoth(used, |all|, |more|);
    if ok {
      GotGiven(more, before, mem.pmm.Limit());
      ThreadHolds(mem, t, d, IndexOf(i), i == 0, stack, heap, was);
      ThreadAdded(mem, ts, d, i, all, more, was, flat);
    }
  }

  /** What the process has on the pages of the thread just built. */
  lemma ThreadHolds(mem: Memory, t: ThreadMemory, d: nat, n: nat, main: bool, stack: seq<Frame>, heap: seq<Frame>, was: map<(nat, nat), word>)
    requires d != mem.vmm.kern && |stack| == 2 && |heap| == 4 && forall i :: 0 <= i < 6 ==> (stack + heap)[i] >= PhysicalMemory.RESERVED
    requires HeapStart(t.imageBase + t.imageSize, n) + 4 * PAGE_SIZE < WORD_RANGE && mem.Placed(t, n)
    requires var start, high := StackStart(t.imageBase + t.imageSize, n), HeapStart(t.imageBase + t.imageSize, n);
             forall e: nat, p: nat :: mem.vmm.Flat(e, p) ==
               if e == mem.vmm.kern && FilledPage(start, high, main, p) then 0
               else Built(mem.vmm.kern, d, PageOf(start), PageOf(high), stack, heap, e, p, At(was, e, p))
    ensures FramesOn(mem.vmm.flat, d, PagesOf(t)) == SetOf(stack + heap) && |Held(mem.vmm.flat, d, PagesOf(t))| == 6
    ensures forall p: nat :: p in PagesOf(t) ==> Cleared(mem.vmm.Flat(d, p)) == 0
    ensures forall e: nat, p: nat :: e != mem.vmm.kern && !(e == d && p in PagesOf(t)) ==> mem.vmm.Flat(e, p) == At(was, e, p)
  {
    hide Wrapped, Offset, PageOf, PagesOf, Held, FramesOn, Given, GivenCount, SetOf, Cleared, FrameIn, ThreadFrames;
    var image := t.imageBase + t.imageSize;
    var start, top := StackStart(image, n), HeapStart(image, n);
    ThreadAddresses(image, n);
    mem.PagesPlaced(t, n);
    mem.HeldFrames(was, mem.vmm.flat, d, start, top, stack, heap, main);
    HeldThread(mem.vmm.flat, d, PageOf(start), PageOf(top));
    GivenIsSet(stack + heap);
    forall p: nat | p in PagesOf(t) ensures Cleared(mem.vmm.Flat(d, p)) == 0 {
      ClearedBuilt(mem.vmm.kern, d, PageOf(start), PageOf(top), stack, heap, p, At(was, d, p));
    }
  }

  lemma GivenIsSet(frames: seq<Frame>)
    requires forall i :: 0 <= i < |frames| ==> frames[i] >= PhysicalMemory.RESERVED
    ensures Given(frames) == SetOf(frames) && GivenCount(frames) == |frames|
  {
    CountAll(frames);
  }

  lemma HeldSame(a: map<(nat, nat), word>, b: map<(nat, nat), word>, d: nat, pages: set<nat>)
    requires forall p: nat :: p in pages ==> At(a, d, p) == At(b, d, p)
    ensures Held(a, d, pages) == Held(b, d, pages) && FramesOn(a, d, pages) == FramesOn(b, d, pages)
  {
    assert Held(a, d, pages) == Held(b, d, pages);
    hide FrameIn, At;
    var x, y := FramesOn(a, d, pages), FramesOn(b, d, pages);
    forall f | f in x ensures f in y {
      var p :| p in Held(a, d, pages) && FrameIn(At(a, d, p)) as nat == f;
      assert p in Held(b, d, pages) && FrameIn(At(b, d, p)) as nat == f;
    }
    forall f | f in y ensures f in x {
      var p :| p in Held(b, d, pages) && FrameIn(At(b, d, p)) as nat == f;
      assert p in Held(a, d, pages) && FrameIn(At(a, d, p)) as nat == f;
    }
  }

  lemma ThreadAdded(mem: Memory, ts: seq<ThreadMemory>, d: nat, i: nat, all: seq<Frame>, more: seq<Frame>,
                    was: map<(nat, nat), word>, flat: map<(nat, nat), word>)
    requires OneProcess(ts) && i < |ts| && d != mem.vmm.kern && AllPlaced(mem, ts, i) && mem.Placed(ts[i], IndexOf(i))
    requires var pages := PagesOfAll(ts[..i]);
             && FramesOn(was, d, pages) == SetOf(all) && |Held(was, d, pages)| == |all| == 6 * i
             && (forall p: nat :: p in pages ==> Cleared(At(was, d, p)) == 0)
             && forall e: nat, p: nat :: e != mem.vmm.kern && !(e == d && p in pages) ==> At(was, e, p) == At(flat, e, p)
    requires FramesOn(mem.vmm.flat, d, PagesOf(ts[i])) == SetOf(more) && |Held(mem.vmm.flat, d, PagesOf(ts[i]))| == |more| == 6
    requires forall p: nat :: p in PagesOf(ts[i]) ==> Cleared(mem.vmm.Flat(d, p)) == 0
    requires forall e: nat, p: nat :: e != mem.vmm.kern && !(e == d && p in PagesOf(ts[i])) ==> mem.vmm.Flat(e, p) == At(was, e, p)
    ensures var pages := PagesOfAll(ts[..i + 1]);
            && AllPlaced(mem, ts, i + 1)
            && FramesOn(mem.vmm.flat, d, pages) == SetOf(all + more) && |Held(mem.vmm.flat, d, pages)| == |all + more| == 6 * (i + 1)
            && (forall p: nat :: p in pages ==> Cleared(mem.vmm.Flat(d, p)) == 0)
            && forall e: nat, p: nat :: e != mem.vmm.kern && !(e == d && p in pages) ==> mem.vmm.Flat(e, p) == At(flat, e, p)
  {
    hide PagesOf, PagesOfAll, Memory.Placed, Held, FramesOn, SetOf, Cleared, HeapStart;
    var pages := PagesOfAll(ts[..i]);
    PagesApart(mem, ts, i, i);
    NextOfAll(ts, i);
    forall p: nat | p in pages ensures At(was, d, p) == At(mem.vmm.flat, d, p) {
      assert mem.vmm.Flat(d, p) == At(was, d, p);
    }
    HeldSame(was, mem.vmm.flat, d, pages);
    HeldBoth(mem.vmm.flat, d, pages, PagesOf(ts[i]));
    SetOfBoth(all, more);
  }

  // ---------------------------------------------------------------- a process from start to end

  /** All threads of a process are built and then, none of them stopped, the process is removed.  It
      works out exactly when the pool has the tables for all the threads' pages; with enough blocks
      the frames taken are then exactly those from before but for the frames of the image, which go
      too, and the counter stays in step. */
  method ProcessLifeCycle(mem: Memory, ts: seq<ThreadMemory>, d: nat) returns (ok: bool)
    requires mem.Valid() && d in mem.vmm.dirs && d != mem.vmm.kern && OneProcess(ts)
    modifies mem.vmm.pool, mem.vmm.ram, mem.vmm`poolUsed, mem.vmm`tables, mem.vmm`flat
    modifies mem.pmm.map_, mem.pmm`taken, mem.pmm`usedBlocks
    modifies ts`esp, ts`stackLimit, ts`espKernel, ts`stackKernelLimit, ts`heap, ts`heapLimit
    ensures mem.Valid()
    ensures ok <==> old(mem.vmm.PoolLeft()) >= old(TablesNeeded(mem, ts, d))
    ensures ok ==> (forall i :: 0 <= i < |ts| ==> mem.Placed(ts[i], if i == 0 then 0 else i + 1)) &&
                   ProcessGone(mem, ts, d, old(mem.pmm.taken), old(mem.pmm.usedBlocks), old(mem.vmm.flat))
  {
    SomeThread(ts);
    hide Vmm.Valid, PhysicalMemory.Pmm.Valid, OneProcess, AllPlaced, Building, ProcessGone, TablesNeeded, Vmm.PoolLeft;
    ghost var taken, used, flat, all := mem.pmm.taken, mem.pmm.usedBlocks, mem.vmm.flat, [];
    ok, all := BuildAll(mem, ts, d);
    if ok {
      RemoveBuilt(mem, ts, d, all, taken, used, flat);
      InOrder(mem, ts);
    }
  }

  /** The main thread is built with index 0, the i-th started after it with i + 1. */
  lemma InOrder(mem: Memory, ts: seq<ThreadMemory>)
    requires AllPlaced(mem, ts, |ts|)
    ensures forall i :: 0 <= i < |ts| ==> mem.Placed(ts[i], if i == 0 then 0 else i + 1)
  {
    hide Memory.Placed;
    forall i: nat | i < |ts| ensures mem.Placed(ts[i], if i == 0 then 0 else i + 1) {
      assert mem.Placed(ts[i], IndexOf(i));
    }
  }

  /** Nothing is left of the process but what kern_dir still has. */
  ghost predicate ProcessGone(mem: Memory, ts: seq<ThreadMemory>, d: nat, taken: set<nat>, used: word, flat: map<(nat, nat), word>)
    requires |ts| > 0
    reads mem, mem.vmm`flat, mem.pmm, ts
  {
    && (|Free(taken, mem.pmm.Limit())| >= 6 * |ts| ==> mem.pmm.taken == taken - FramesOn(flat, d, ImagePages(ts[0])))
    && mem.pmm.usedBlocks == Wrapped(used - |Held(flat, d, ImagePages(ts[0]))|)
    && forall e: nat, p: nat :: e != mem.vmm.kern ==>
         mem.vmm.Flat(e, p) == if e == d && p in PagesOfAll(ts) then 0
                               else if e == d && p in ImagePages(ts[0]) then Cleared(At(flat, e, p))
                               else At(flat, e, p)
  }

  /** remove_proc for a process whose threads have all been built. */
  method RemoveBuilt(mem: Memory, ts: seq<ThreadMemory>, d: nat, ghost all: seq<Frame>, ghost taken: set<nat>, ghost used: word,
                     ghost flat: map<(nat, nat), word>)
    requires mem.Valid() && d in mem.vmm.dirs && d != mem.vmm.kern && OneProcess(ts)
    requires Building(true, mem, ts, d, |ts|, all, taken, used, flat)
    modifies mem.vmm.ram, mem.vmm`flat, mem.pmm.map_, mem.pmm`taken, mem.pmm`usedBlocks
    ensures mem.Valid() && OneProcess(ts) && AllPlaced(mem, ts, |ts|) && ProcessGone(mem, ts, d, taken, used, flat)
  {
    hide Vmm.Valid, PhysicalMemory.Pmm.Valid, AllPlaced, Building, Free, Held, FramesOn, PagesOfAll, ImagePages, Wrapped, Cleared, HeapStart;
    ProcessHolds(mem, ts, d, all, taken, used, flat);
    ghost var pages, built := ImagePages(ts[0]) + PagesOfAll(ts), mem.vmm.flat;
    RemoveProc(mem, ts, d, |ts|);
    forall e: nat, p: nat | e != mem.vmm.kern
      ensures mem.vmm.Flat(e, p) == if e == d && p in PagesOfAll(ts) then 0
                                    else if e == d && p in ImagePages(ts[0]) then Cleared(At(flat, e, p))
                                    else At(flat, e, p)
    {
      assert mem.vmm.Flat(e, p) == if e == d && p in pages then Cleared(At(built, e, p)) else At(built, e, p);
    }
  }

  /** What removing the process will give back. */
  lemma ProcessHolds(mem: Memory, ts: seq<ThreadMemory>, d: nat, all: seq<Frame>, taken: set<nat>, used: word,
                     flat: map<(nat, nat), word>)
    requires d != mem.vmm.kern && OneProcess(ts) && Building(true, mem, ts, d, |ts|, all, taken, used, flat)
    ensures AllPlaced(mem, ts, |ts|) && ts[..|ts|] == ts
    ensures var image, pages, built := ImagePages(ts[0]), PagesOfAll(ts), mem.vmm.flat;
            && (|Free(taken, mem.pmm.Limit())| >= 6 * |ts| ==>
                  mem.pmm.taken - FramesOn(built, d, image + pages) == taken - FramesOn(flat, d, image))
            && Wrapped(mem.pmm.usedBlocks - |Held(built, d, image + pages)|) == Wrapped(used - |Held(flat, d, image)|)
            && forall e: nat, p: nat :: e != mem.vmm.kern ==>
                 (if e == d && p in image + pages then Cleared(At(built, e, p)) else At(built, e, p)) ==
                 if e == d && p in pages then 0 else if e == d && p in image then Cleared(At(flat, e, p)) else At(flat, e, p)
  {
    hide OneProcess, AllPlaced, Got, After, Free, SetOf, Held, FramesOn, PagesOfAll, ImagePages, Wrapped, Cleared, FrameIn;
    assert ts[..|ts|] == ts && |ts| > 0 by { SomeThread(ts); }
    var image, pages, built := ImagePages(ts[0]), PagesOfAll(ts), mem.vmm.flat;
    ImageApart(mem, ts, |ts|);
    HeldBoth(built, d, image, pages);
    forall p: nat | p in image ensures At(flat, d, p) == At(built, d, p) {
      assert mem.vmm.Flat(d, p) == At(built, d, p);
    }
    HeldSame(flat, built, d, image);
    GotGiven(all, taken, mem.pmm.Limit());
    AllGivenBack(all, taken, mem.pmm.Limit());
    UsedBackTo(used, |all|, |Held(flat, d, image)|);
    forall e: nat, p: nat | e != mem.vmm.kern
      ensures (if e == d && p in image + pages then Cleared(At(built, e, p)) else At(built, e, p)) ==
              if e == d && p in pages then 0 else if e == d && p in image then Cleared(At(flat, e, p)) else At(flat, e, p)
    {
      assert mem.vmm.Flat(e, p) == At(built, e, p);
    }
  }

  lemma SomeThread(ts: seq<ThreadMemory>)
    requires OneProcess(ts)
    ensures |ts| > 0
  {}

  lemma UsedBackTo(u: int, n: nat, m: nat)
    ensures Wrapped(Wrapped(u + n) - (m + n)) == Wrapped(u - m)
  {}
}
