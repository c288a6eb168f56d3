/** proc/elf.c: reading an executable into freshly mapped kernel pages and giving the pages back. */
module ElfLoader {
  import opened Bits
  import opened FatModel
  import opened Fat
  import opened PageTables
  import PhysicalMemory
  import opened ProcessMemory

  const MEMORY_LOAD_ADDRESS := 0x700000

  /** Eight sectors to a page. */
  function Pages(sectors: nat): nat {
    (sectors + 7) / 8
  }

  /** Pages page, page + 1, ... of one directory mapped to the frames for the kernel. */
  ghost function Run(flat: map<(nat, nat), word>, d: nat, page: nat, frames: seq<Frame>): map<(nat, nat), word> {
    if frames == [] then flat
    else
      var n := |frames| - 1;
      Run(flat, d, page, frames[..n])[(d, page + n) := frames[n] * PAGE_SIZE + KERNEL_FLAGS]
  }

  lemma {:induction false} RunAt(flat: map<(nat, nat), word>, d: nat, page: nat, frames: seq<Frame>, e: nat, p: nat)
    ensures At(Run(flat, d, page, frames), e, p) ==
            if e == d && page <= p < page + |frames| then frames[p - page] * PAGE_SIZE + KERNEL_FLAGS
            else At(flat, e, p)
  {
    if frames != [] {
      RunAt(flat, d, page, frames[..|frames| - 1], e, p);
    }
  }

  lemma RunHolds(flat: map<(nat, nat), word>, d: nat, page: nat, frames: seq<Frame>)
    ensures Holds(Run(flat, d, page, frames), d, page, frames)
  {
    var after := Run(flat, d, page, frames);
    forall i | 0 <= i < |frames| ensures FrameIn(At(after, d, page + i)) == frames[i] {
      RunAt(flat, d, page, frames, d, page + i);
    }
  }

  lemma RunNext(flat: map<(nat, nat), word>, d: nat, page: nat, frames: seq<Frame>, f: Frame)
    ensures Run(flat, d, page, frames + [f]) ==
            Run(flat, d, page, frames)[(d, page + |frames|) := f * PAGE_SIZE + KERNEL_FLAGS]
  {
    assert (frames + [f])[..|frames|] == frames;
  }

  /** The kern_dir slots of the first n pages of the image. */
  ghost function ImageSlots(kern: nat, n: nat): set<(nat, nat)> {
    if n == 0 then {} else ImageSlots(kern, n - 1) + {(kern, (PageOf(MEMORY_LOAD_ADDRESS) + n - 1) / ENTRIES)}
  }

  lemma {:induction false} ImageSlotsMore(kern: nat, n: nat, m: nat) returns (more: set<(nat, nat)>)
    requires n <= m
    ensures ImageSlots(kern, m) == ImageSlots(kern, n) + more
  {
    if n == m {
      more := {};
    } else {
      more := ImageSlotsMore(kern, n, m - 1);
      more := more + {(kern, (PageOf(MEMORY_LOAD_ADDRESS) + m - 1) / ENTRIES)};
    }
  }

  /** The pages of the image so far: what they took, what they cost and what they mapped.  Without a page
      table for the last one, all but that one are mapped. */
  ghost predicate Loading(ok: bool, mem: Memory, frames: seq<Frame>, taken: set<nat>, flat: map<(nat, nat), word>,
                          left: nat, empty: set<(nat, nat)>)
    reads mem, mem.vmm`flat, mem.vmm`dirs, mem.vmm.ram, mem.vmm.pool, mem.pmm
  {
    var kern, n := mem.vmm.kern, if ok then |frames| else |frames| - 1;
    && mem.Taken(frames, taken)
    && Paid(ok, left, empty, ImageSlots(kern, |frames|), mem.vmm.PoolLeft(), mem.vmm.EmptySlots())
    && n >= 0 && left >= Need(empty, ImageSlots(kern, n))
    && mem.vmm.flat == Run(flat, kern, PageOf(MEMORY_LOAD_ADDRESS), frames[..n])
  }

  lemma NothingLoaded(mem: Memory)
    requires mem.Valid()
    ensures Loading(true, mem, [], mem.pmm.taken, mem.vmm.flat, mem.vmm.PoolLeft(), mem.vmm.EmptySlots())
  {
    hide Vmm.PoolLeft, Vmm.EmptySlots;
    GotNothing(mem.pmm.taken, mem.pmm.Limit());
    LimitFits(mem.pmm);
    PaidNothing(mem.vmm.PoolLeft(), mem.vmm.EmptySlots());
  }

  lemma NextImageSlot(ok: bool, left: nat, empty: set<(nat, nat)>, kern: nat, k: nat, mid: nat, midEmpty: set<(nat, nat)>,
                      left': nat, empty': set<(nat, nat)>)
    requires Paid(true, left, empty, ImageSlots(kern, k), mid, midEmpty)
    requires Paid(ok, mid, midEmpty, {(kern, (PageOf(MEMORY_LOAD_ADDRESS) + k) / ENTRIES)}, left', empty')
    ensures Paid(ok, left, empty, ImageSlots(kern, k + 1), left', empty')
    ensures left >= Need(empty, ImageSlots(kern, k)) && (ok ==> left >= Need(empty, ImageSlots(kern, k + 1)))
  {
    var slot := {(kern, (PageOf(MEMORY_LOAD_ADDRESS) + k) / ENTRIES)};
    assert ImageSlots(kern, k + 1) == ImageSlots(kern, k) + slot;
    PaidBoth(ok, left, empty, ImageSlots(kern, k), slot, mid, midEmpty, left', empty');
  }

  /** The vmm_map of one more image page. */
  method MapImagePage(mem: Memory, virt: word, ghost frames: seq<Frame>, ghost taken: set<nat>,
                      ghost flat: map<(nat, nat), word>, ghost left: nat, ghost empty: set<(nat, nat)>)
    returns (ok: bool, ghost frame: Frame)
    requires mem.Valid() && PageOf(virt) == PageOf(MEMORY_LOAD_ADDRESS) + |frames|
    requires Loading(true, mem, frames, taken, flat, left, empty)
    modifies mem.vmm.pool, mem.vmm.ram, mem.vmm`poolUsed, mem.vmm`tables, mem.vmm`flat
    modifies mem.pmm.map_, mem.pmm`taken, mem.pmm`usedBlocks
    ensures mem.Valid() && mem.pmm.usedBlocks == Wrapped(old(mem.pmm.usedBlocks) + 1)
    ensures Grown(old(mem.vmm.Slots()), mem.vmm.Slots(), mem.vmm.kern)
    ensures Loading(ok, mem, frames + [frame], taken, flat, left, empty)
  {
    hide Vmm.Valid, PhysicalMemory.Pmm.Valid, Run, Got, After, Free, PageOf, ImageSlots, Need, Paid, Vmm.PoolLeft, Vmm.EmptySlots, Wrapped, Vmm.Slots, Vmm.Translate, Grown, MadeBy;
    mem.vmm.KernInUse();
    ghost var kern, k, mid, midEmpty := mem.vmm.kern, |frames|, mem.vmm.PoolLeft(), mem.vmm.EmptySlots();
    assert frames[..k] == frames;
    ok, frame := mem.Map(mem.vmm.kern, virt, KERNEL_FLAGS);
    MadeGrown(old(mem.vmm.Slots()), mem.vmm.Slots(), mem.vmm.Slots(), kern, kern, PageOf(virt) / ENTRIES, ok, true);
    GotNext(frames, frame, taken, mem.pmm.Limit());
    NextImageSlot(ok, left, empty, kern, k, mid, midEmpty, mem.vmm.PoolLeft(), mem.vmm.EmptySlots());
    RunNext(flat, kern, PageOf(MEMORY_LOAD_ADDRESS), frames, frame);
    assert (frames + [frame])[..k] == frames && (frames + [frame])[..k + 1] == frames + [frame];
  }

  /** load_elf_file, for a file whose clusters form a chain.  `area` is the memory from
      MEMORY_LOAD_ADDRESS on.  Returns the number of pages, or -1 when the pool runs out of tables for
      them; by then `got` sectors have been read. */
  method LoadElfFile(mem: Memory, v: Volume, f: File, area: array<byte>, ghost cs: seq<word>)
    returns (fileSize: int, ghost frames: seq<Frame>, ghost got: nat)
    requires mem.Valid() && v.Chain(cs) && f.eof == 0 && f.currentCluster == cs[0]
    requires area.Length == SECTOR_SIZE * |cs| && area != v.window && |cs| < 0x10_0000
    modifies f, area, v.window
    modifies mem.vmm.pool, mem.vmm.ram, mem.vmm`poolUsed, mem.vmm`tables, mem.vmm`flat
    modifies mem.pmm.map_, mem.pmm`taken, mem.pmm`usedBlocks
    ensures mem.Valid() && mem.pmm.usedBlocks == Wrapped(old(mem.pmm.usedBlocks) + |frames|)
    ensures fileSize == if old(mem.vmm.PoolLeft()) >= Need(old(mem.vmm.EmptySlots()), ImageSlots(mem.vmm.kern, Pages(|cs|)))
                        then Pages(|cs|) else -1
    ensures got <= |cs| && area[..SECTOR_SIZE * got] == Join(v.Contents(cs[..got]))
    ensures if got == |cs| then f.eof == 1 else f.eof == 0 && f.currentCluster == cs[got]
    ensures if fileSize != -1 then got == |cs| && |frames| == Pages(|cs|) else got == 8 * (|frames| - 1) < |cs|
    ensures Grown(old(mem.vmm.Slots()), mem.vmm.Slots(), mem.vmm.kern)
    ensures Loading(fileSize != -1, mem, frames, old(mem.pmm.taken), old(mem.vmm.flat),
                    old(mem.vmm.PoolLeft()), old(mem.vmm.EmptySlots()))
    ensures fileSize != -1 ==> ImageMapped(old(mem.vmm.flat), mem.vmm.flat, mem.vmm.kern, frames)
  {
    hide Vmm.Valid, PhysicalMemory.Pmm.Valid, Loading, ImageMapped, Volume.Entry, Join, Pages, ImageSlots, Need, Vmm.PoolLeft, Vmm.EmptySlots, Wrapped, Vmm.Slots, Vmm.Translate, Grown, MadeBy;
    frames := [];
    ghost var taken, flat, left, empty := mem.pmm.taken, mem.vmm.flat, mem.vmm.PoolLeft(), mem.vmm.EmptySlots();
    NothingLoaded(mem);
    GrownNothing(mem.vmm.Slots(), mem.vmm.kern);
    PagesFit(|cs|, |cs|);
    assert cs[..0] == [];
    var j := 0;
    fileSize := 0;
    while f.eof != 1
      invariant mem.Valid()
      invariant 0 <= j <= |cs| && f.eof == (if j == |cs| then 1 else 0) && (j < |cs| ==> f.currentCluster == cs[j])
      invariant area[..SECTOR_SIZE * j] == Join(v.Contents(cs[..j]))
      invariant Grown(old(mem.vmm.Slots()), mem.vmm.Slots(), mem.vmm.kern)
      invariant fileSize == Pages(j) == |frames|
      invariant Loading(true, mem, frames, taken, flat, left, empty)
      invariant mem.pmm.usedBlocks == Wrapped(old(mem.pmm.usedBlocks) + |frames|)
      decreases |cs| - j
    {
      PagesFit(j, |cs|);
      var ok;
      ghost var mid := mem.vmm.Slots();
      ok, fileSize, frames := PageForSector(mem, j, fileSize, frames, taken, flat, left, empty, old(mem.pmm.usedBlocks));
      GrownTwice(old(mem.vmm.Slots()), mid, mem.vmm.Slots(), mem.vmm.kern);
      if !ok {
        LoadingFailed(mem, frames, taken, flat, left, empty, Pages(|cs|));
        return -1, frames, j;
      }
      ReadNext(v, f, area, j, cs);
      j := j + 1;
    }
    got := j;
    LoadingDone(mem, frames, taken, flat, left, empty);
    assert cs[..j] == cs;
  }

  /** The image is on the pages from 7 MB on, for the kernel to write, and no other page has changed. */
  ghost predicate ImageMapped(was: map<(nat, nat), word>, now: map<(nat, nat), word>, kern: nat, frames: seq<Frame>) {
    forall e: nat, p: nat :: At(now, e, p) ==
      if e == kern && 0x700 <= p < 0x700 + |frames| then frames[p - 0x700] * 4096 + 3 else At(was, e, p)
  }

  lemma LoadingFailed(mem: Memory, frames: seq<Frame>, taken: set<nat>, flat: map<(nat, nat), word>,
                      left: nat, empty: set<(nat, nat)>, n: nat)
    requires Loading(false, mem, frames, taken, flat, left, empty) && |frames| <= n
    ensures left < Need(empty, ImageSlots(mem.vmm.kern, n))
  {
    hide ImageSlots, Need, Run, Memory.Taken, Vmm.PoolLeft, Vmm.EmptySlots;
    var kern := mem.vmm.kern;
    var more := ImageSlotsMore(kern, |frames|, n);
    PaidFailed(left, empty, ImageSlots(kern, |frames|), more, mem.vmm.PoolLeft(), mem.vmm.EmptySlots(), 0, {});
  }

  lemma LoadingDone(mem: Memory, frames: seq<Frame>, taken: set<nat>, flat: map<(nat, nat), word>,
                    left: nat, empty: set<(nat, nat)>)
    requires Loading(true, mem, frames, taken, flat, left, empty)
    ensures left >= Need(empty, ImageSlots(mem.vmm.kern, |frames|))
    ensures ImageMapped(flat, mem.vmm.flat, mem.vmm.kern, frames)
  {
    hide At, Run;
    assert frames[..|frames|] == frames;
    forall e: nat, p: nat
      ensures At(mem.vmm.flat, e, p) ==
              if e == mem.vmm.kern && 0x700 <= p < 0x700 + |frames| then frames[p - 0x700] * 4096 + 3 else At(flat, e, p)
    {
      RunAt(flat, mem.vmm.kern, PageOf(MEMORY_LOAD_ADDRESS), frames, e, p);
    }
  }

  lemma PagesFit(j: nat, n: nat)
    requires j <= n
    ensures Pages(0) == 0 && Pages(j) <= Pages(n)
    ensures j < n ==> Pages(j + 1) <= Pages(n) && Pages(j + 1) == Pages(j) + if j % 8 == 0 then 1 else 0
    ensures j % 8 == 0 ==> 8 * Pages(j) == j
  {}

  /** Every eighth sector starts a page. */
  method PageForSector(mem: Memory, j: nat, count: nat, ghost frames: seq<Frame>, ghost taken: set<nat>,
                       ghost flat: map<(nat, nat), word>, ghost left: nat, ghost empty: set<(nat, nat)>, ghost used: word)
    returns (ok: bool, count': nat, ghost frames': seq<Frame>)
    requires mem.Valid() && j < 0x10_0000 && count == |frames| == Pages(j)
    requires Loading(true, mem, frames, taken, flat, left, empty) && mem.pmm.usedBlocks == Wrapped(used + |frames|)
    modifies mem.vmm.pool, mem.vmm.ram, mem.vmm`poolUsed, mem.vmm`tables, mem.vmm`flat
    modifies mem.pmm.map_, mem.pmm`taken, mem.pmm`usedBlocks
    ensures mem.Valid() && mem.pmm.usedBlocks == Wrapped(used + |frames'|)
    ensures Grown(old(mem.vmm.Slots()), mem.vmm.Slots(), mem.vmm.kern)
    ensures Loading(ok, mem, frames', taken, flat, left, empty)
    ensures |frames'| == Pages(j + 1) && (if ok then count' == |frames'| else j == 8 * (|frames'| - 1))
  {
    hide Vmm.Valid, PhysicalMemory.Pmm.Valid, Loading, Wrapped, Vmm.Slots, Vmm.Translate, Grown, MadeBy;
    ok, count', frames' := true, count, frames;
    GrownNothing(mem.vmm.Slots(), mem.vmm.kern);
    if (j + 8) % 8 == 0 {
      ghost var frame;
      ok, frame := MapImagePage(mem, MEMORY_LOAD_ADDRESS + j * 512, frames, taken, flat, left, empty);
      UsedBoth(used, |frames|, 1);
      frames' := frames + [frame];
      count' := count + 1;
    }
  }

  /** The j-th fat_read of a file. */
  method ReadNext(v: Volume, f: File, area: array<byte>, j: nat, ghost cs: seq<word>)
    requires v.Chain(cs) && j < |cs| && f.currentCluster == cs[j] && f.eof == 0
    requires area.Length == SECTOR_SIZE * |cs| && area != v.window
    requires area[..SECTOR_SIZE * j] == Join(v.Contents(cs[..j]))
    modifies f, area, v.window
    ensures area[..SECTOR_SIZE * (j + 1)] == Join(v.Contents(cs[..j + 1]))
    ensures if j + 1 == |cs| then f.eof == 1 else f.eof == 0 && f.currentCluster == cs[j + 1]
  {
    hide Volume.Entry;
    assert v.Readable(cs[j]);
    v.FatRead(f, area, j * 512);
    assert cs[..j + 1][..j] == cs[..j];
    JoinNext(v.Contents(cs[..j]), v.disk[PhysSector(cs[j])]);
    assert area[..SECTOR_SIZE * (j + 1)] == area[..SECTOR_SIZE * j] + area[SECTOR_SIZE * j..SECTOR_SIZE * (j + 1)];
  }

  /** The loop of load_elf that unmaps the file from kern_dir, whatever else has been mapped since. */
  method UnmapImage(mem: Memory, fileSize: nat, ghost frames: seq<Frame>)
    requires mem.Valid() && |frames| == fileSize < 0x8_0000
    requires Holds(mem.vmm.flat, mem.vmm.kern, PageOf(MEMORY_LOAD_ADDRESS), frames)
    requires forall i :: 0 <= i < |frames| ==> frames[i] >= PhysicalMemory.RESERVED
    modifies mem.vmm.ram, mem.vmm`flat, mem.pmm.map_, mem.pmm`taken, mem.pmm`usedBlocks
    ensures mem.Valid() && mem.pmm.taken == old(mem.pmm.taken) - SetOf(frames)
    ensures mem.vmm.Slots() == old(mem.vmm.Slots())
    ensures mem.pmm.usedBlocks == Wrapped(old(mem.pmm.usedBlocks) - |frames|)
    ensures forall e: nat, p: nat :: mem.vmm.Flat(e, p) ==
              if e == mem.vmm.kern && InImage(fileSize, p) then 0 else old(mem.vmm.Flat(e, p))
  {
    hide Vmm.Valid, PhysicalMemory.Pmm.Valid, SetOf, Held, FramesOn, Wrapped, PagesFrom, Cleared, Holds, PageAfter, Vmm.Slots;
    var kern := mem.vmm.kern;
    ghost var page, flat := PageOf(MEMORY_LOAD_ADDRESS), mem.vmm.flat;
    mem.vmm.KernInUse();
    HeldImage(flat, kern, frames);
    mem.NothingReleased(kern);
    mem.UnmapRun(kern, MEMORY_LOAD_ADDRESS, fileSize, {}, mem.pmm.taken, mem.pmm.usedBlocks, flat);
    assert {} + PagesFrom(page, fileSize) == PagesFrom(page, fileSize);
    forall e: nat, p: nat
      ensures mem.vmm.Flat(e, p) == if e == kern && InImage(fileSize, p) then 0 else old(mem.vmm.Flat(e, p))
    {
      assert mem.vmm.Flat(e, p) == if e == kern && p in PagesFrom(page, fileSize) then Cleared(At(flat, e, p)) else At(flat, e, p);
      if e == kern && InImage(fileSize, p) {
        ClearedPage(flat, kern, page, frames, p);
      }
    }
  }

  lemma HeldImage(flat: map<(nat, nat), word>, d: nat, frames: seq<Frame>)
    requires |frames| < 0x8_0000 && Holds(flat, d, PageOf(MEMORY_LOAD_ADDRESS), frames)
    requires forall i :: 0 <= i < |frames| ==> frames[i] >= PhysicalMemory.RESERVED
    ensures var pages := PagesFrom(PageOf(MEMORY_LOAD_ADDRESS), |frames|);
            && FramesOn(flat, d, pages) == SetOf(frames) && |Held(flat, d, pages)| == |frames|
            && forall p: nat :: p in pages <==> InImage(|frames|, p)
  {
    var page := PageOf(MEMORY_LOAD_ADDRESS);
    HeldRun(flat, d, page, |frames|);
    PagesFromAre(page, |frames|);
    CountAll(frames);
    GivenAll(frames);
    HeldFrames(flat, d, page, frames);
    hide FrameIn, Held, FramesOn, Given, GivenCount, SetOf, PagesFrom, FramesAt, Holds;
  }

  lemma {:induction false} HeldFrames(flat: map<(nat, nat), word>, d: nat, page: nat, frames: seq<Frame>)
    requires Holds(flat, d, page, frames)
    ensures FramesAt(flat, d, page, |frames|) == frames
    decreases |frames|
  {
    hide FrameIn;
    if frames != [] {
      HeldFrames(flat, d, page, frames[..|frames| - 1]);
    }
  }

  lemma GivenAll(frames: seq<Frame>)
    requires forall i :: 0 <= i < |frames| ==> frames[i] >= PhysicalMemory.RESERVED
    ensures Given(frames) == SetOf(frames)
  {}

  lemma ClearedPage(flat: map<(nat, nat), word>, d: nat, page: nat, frames: seq<Frame>, p: nat)
    requires Holds(flat, d, page, frames) && page <= p < page + |frames|
    requires forall i :: 0 <= i < |frames| ==> frames[i] >= PhysicalMemory.RESERVED
    ensures Cleared(At(flat, d, p)) == 0
  {
    assert FrameIn(At(flat, d, page + (p - page))) == frames[p - page];
  }

  predicate InImage(pages: nat, p: nat) {
    0x700 <= p < 0x700 + pages
  }

  // ---------------------------------------------------------------- segments

  /** The fields of a program header that decide which pages are mapped. */
  datatype Segment = Segment(kind: word, vaddr: word, fileSize: word, memSize: word) {
    predicate Loads() {
      kind == 1 && memSize != 0
    }

    function Count(): (n: nat)
      ensures 0 < n <= PAGES
    {
      fileSize / PAGE_SIZE + 1
    }

    /** The pages that are mapped, round the end of the address space if need be. */
    predicate Has(p: nat) {
      Loads() && InRun(PageOf(vaddr), Count(), p)
    }
  }

  /** The pages of a segment by its addresses: every page with an address vaddr + j * 4096 for a j up to the
      whole pages of its bytes in the file, if it is one to load and has bytes in memory. */
  lemma SegmentPages(seg: Segment, p: nat)
    ensures seg.Has(p) <==>
              seg.kind == 1 && seg.memSize > 0 &&
              exists j: nat :: j * 4096 <= seg.fileSize && AddressPage(seg.vaddr + j * 4096) == p
  {
    if seg.Has(p) {
      var j := (p - PageOf(seg.vaddr)) % PAGES;
      RunIndex(PageOf(seg.vaddr), p, j);
      AddressPageIs(seg.vaddr, j);
      assert j * 4096 <= seg.fileSize && AddressPage(seg.vaddr + j * 4096) == p;
    }
    if seg.Loads() {
      forall j: nat | j * 4096 <= seg.fileSize && AddressPage(seg.vaddr + j * 4096) == p ensures seg.Has(p) {
        AddressPageIs(seg.vaddr, j);
        RunIndex(PageOf(seg.vaddr), p, j);
      }
    }
  }

  /** The page of an address, which has 32 bits. */
  function AddressPage(addr: nat): (p: nat)
    ensures p < PAGES
  {
    addr % 0x1_0000_0000 / 4096
  }

  lemma AddressPageIs(addr: word, j: nat)
    ensures AddressPage(addr + j * 4096) == PageAfter(PageOf(addr), j)
  {
    PageIsAfter(addr, j);
  }

  /** p is one of n pages from `page` on. */
  predicate InRun(page: nat, n: nat, p: nat) {
    p < PAGES && (p - page) % PAGES < n
  }

  lemma RunIndex(page: nat, p: nat, n: nat)
    requires page < PAGES && p < PAGES && n < PAGES
    ensures PageAfter(page, n) == p <==> (p - page) % PAGES == n
  {}

  /** The first pages of a segment, each with a frame of its own in kern_dir and all with the first
      frame in the process. */
  ghost function Placed(flat: map<(nat, nat), word>, kern: nat, d: nat, page: nat, frames: seq<Frame>): map<(nat, nat), word> {
    if frames == [] then flat
    else
      var n := |frames| - 1;
      Placed(flat, kern, d, page, frames[..n])
        [(kern, PageAfter(page, n)) := frames[n] * PAGE_SIZE + KERNEL_FLAGS]
        [(d, PageAfter(page, n)) := frames[0] * PAGE_SIZE + USER_FLAGS]
  }

  lemma {:induction false} PlacedAt(flat: map<(nat, nat), word>, kern: nat, d: nat, page: nat, frames: seq<Frame>, e: nat, p: nat)
    requires d != kern && page < PAGES && |frames| <= PAGES
    ensures At(Placed(flat, kern, d, page, frames), e, p) ==
            if !InRun(page, |frames|, p) then At(flat, e, p)
            else if e == d then frames[0] * PAGE_SIZE + USER_FLAGS
            else if e == kern then frames[(p - page) % PAGES] * PAGE_SIZE + KERNEL_FLAGS
            else At(flat, e, p)
  {
    hide PageAfter;
    if frames != [] {
      var n := |frames| - 1;
      PlacedAt(flat, kern, d, page, frames[..n], e, p);
      if p < PAGES {
        RunIndex(page, p, n);
      }
    }
  }

  lemma PlacedNext(flat: map<(nat, nat), word>, kern: nat, d: nat, page: nat, frames: seq<Frame>, f: Frame)
    ensures Placed(flat, kern, d, page, frames + [f]) ==
            Placed(flat, kern, d, page, frames)
              [(kern, PageAfter(page, |frames|)) := f * PAGE_SIZE + KERNEL_FLAGS]
              [(d, PageAfter(page, |frames|)) := (frames + [f])[0] * PAGE_SIZE + USER_FLAGS]
  {
    assert (frames + [f])[..|frames|] == frames;
  }

  /** What the process gets when the segment's first page is read again after `half`. */
  lemma FirstFrame(flat: map<(nat, nat), word>, kern: nat, d: nat, page: nat, frames: seq<Frame>, f: Frame)
    requires d != kern && page < PAGES && |frames| < PAGES
    ensures var half := Half(Placed(flat, kern, d, page, frames), kern, PageAfter(page, |frames|), f, true);
            UserEntry(At(half, kern, page)) == (frames + [f])[0] * PAGE_SIZE + USER_FLAGS
  {
    FrameOf((frames + [f])[0], KERNEL_FLAGS);
    PlacedAt(flat, kern, d, page, frames, kern, page);
    RunIndex(page, page, |frames|);
    assert (page - page) % PAGES == 0;
    hide PageAfter, Placed;
  }

  /** The first pages of a segment: what they took, what they cost, what they mapped, and where it stopped. */
  ghost predicate Placing(ok: bool, mem: Memory, d: nat, page: nat, frames: seq<Frame>, taken: set<nat>,
                          flat: map<(nat, nat), word>, left: nat, empty: set<(nat, nat)>)
    reads mem, mem.vmm`flat, mem.vmm`dirs, mem.vmm.ram, mem.vmm.pool, mem.pmm
  {
    var kern := mem.vmm.kern;
    && mem.Taken(frames, taken)
    && Paid(ok, left, empty, SlotsOf(kern, d, page, |frames|), mem.vmm.PoolLeft(), mem.vmm.EmptySlots())
    && (ok ==> mem.vmm.flat == Placed(flat, kern, d, page, frames))
    && (!ok ==> frames != [] &&
                var n := |frames| - 1;
                StoppedAt(left, empty, kern, d, page, n, Placed(flat, kern, d, page, frames[..n]), frames[n], mem.vmm.flat))
  }

  lemma NothingPlaced(mem: Memory, d: nat, page: nat)
    requires mem.Valid()
    ensures Placing(true, mem, d, page, [], mem.pmm.taken, mem.vmm.flat, mem.vmm.PoolLeft(), mem.vmm.EmptySlots())
  {
    hide Vmm.PoolLeft, Vmm.EmptySlots;
    GotNothing(mem.pmm.taken, mem.pmm.Limit());
    LimitFits(mem.pmm);
    PaidNothing(mem.vmm.PoolLeft(), mem.vmm.EmptySlots());
  }

  /** One turn of the mapping loop: vmm_map in kern_dir, then vmm_map_phys of the segment's first frame. */
  method PlacePage(mem: Memory, d: nat, seg: Segment, virt: word, ghost frames: seq<Frame>, ghost taken: set<nat>,
                   ghost flat: map<(nat, nat), word>, ghost left: nat, ghost empty: set<(nat, nat)>)
    returns (ok: bool, ghost frame: Frame)
    requires mem.Valid() && d in mem.vmm.dirs && d != mem.vmm.kern
    requires PageOf(virt) == PageAfter(PageOf(seg.vaddr), |frames|) && |frames| < seg.Count()
    requires Placing(true, mem, d, PageOf(seg.vaddr), frames, taken, flat, left, empty)
    modifies mem.vmm.pool, mem.vmm.ram, mem.vmm`poolUsed, mem.vmm`tables, mem.vmm`flat
    modifies mem.pmm.map_, mem.pmm`taken, mem.pmm`usedBlocks
    ensures mem.Valid() && mem.pmm.usedBlocks == Wrapped(old(mem.pmm.usedBlocks) + 1)
    ensures Grown(old(mem.vmm.Slots()), mem.vmm.Slots(), mem.vmm.kern)
    ensures Placing(ok, mem, d, PageOf(seg.vaddr), frames + [frame], taken, flat, left, empty)
  {
    hide Vmm.Valid, PhysicalMemory.Pmm.Valid, Placed, Got, After, Free, PageOf, PageAfter, SlotsOf, SlotPair, Need, Paid, UserEntry;
    hide Vmm.PoolLeft, Vmm.EmptySlots, Wrapped, Vmm.Slots, Vmm.Translate, Grown, MadeBy;
    mem.vmm.KernInUse();
    ghost var kern, page, k, mid, midEmpty := mem.vmm.kern, PageOf(seg.vaddr), |frames|, mem.vmm.PoolLeft(), mem.vmm.EmptySlots();
    ok, frame := mem.MapShared(d, virt, seg.vaddr);
    GotNext(frames, frame, taken, mem.pmm.Limit());
    NextPaid(ok, left, empty, kern, d, page, k, mid, midEmpty, mem.vmm.PoolLeft(), mem.vmm.EmptySlots());
    FirstFrame(flat, kern, d, page, frames, frame);
    PlacedNext(flat, kern, d, page, frames, frame);
    assert (frames + [frame])[..k] == frames;
  }

  /** The mapping loop of load_elf_relocate for one segment. */
  method PlacePages(mem: Memory, d: nat, seg: Segment) returns (ok: bool, ghost frames: seq<Frame>)
    requires mem.Valid() && d in mem.vmm.dirs && d != mem.vmm.kern
    modifies mem.vmm.pool, mem.vmm.ram, mem.vmm`poolUsed, mem.vmm`tables, mem.vmm`flat
    modifies mem.pmm.map_, mem.pmm`taken, mem.pmm`usedBlocks
    ensures mem.Valid() && mem.pmm.usedBlocks == Wrapped(old(mem.pmm.usedBlocks) + |frames|)
    ensures 0 < |frames| <= seg.Count() && (ok ==> |frames| == seg.Count())
    ensures Grown(old(mem.vmm.Slots()), mem.vmm.Slots(), mem.vmm.kern)
    ensures Placing(ok, mem, d, PageOf(seg.vaddr), frames, old(mem.pmm.taken), old(mem.vmm.flat),
                    old(mem.vmm.PoolLeft()), old(mem.vmm.EmptySlots()))
  {
    hide Vmm.Valid, PhysicalMemory.Pmm.Valid, Placing, PageOf, PageAfter, Wrapped, Vmm.PoolLeft, Vmm.EmptySlots, Vmm.Slots, Vmm.Translate, Grown, MadeBy;
    ghost var page, taken, flat, left, empty := PageOf(seg.vaddr), mem.pmm.taken, mem.vmm.flat, mem.vmm.PoolLeft(), mem.vmm.EmptySlots();
    frames := [];
    NothingPlaced(mem, d, page);
    GrownNothing(mem.vmm.Slots(), mem.vmm.kern);
    for j := 0 to seg.Count()
      invariant mem.Valid() && d in mem.vmm.dirs && |frames| == j
      invariant mem.pmm.usedBlocks == Wrapped(old(mem.pmm.usedBlocks) + j)
      invariant Grown(old(mem.vmm.Slots()), mem.vmm.Slots(), mem.vmm.kern)
      invariant Placing(true, mem, d, page, frames, taken, flat, left, empty)
    {
      ghost var f, mid := LOST, mem.vmm.Slots();
      PageIsAfter(seg.vaddr, j);
      UsedBoth(old(mem.pmm.usedBlocks), j, 1);
      ok, f := PlacePage(mem, d, seg, Wrapped(seg.vaddr + j * PAGE_SIZE), frames, taken, flat, left, empty);
      frames := frames + [f];
      GrownTwice(old(mem.vmm.Slots()), mid, mem.vmm.Slots(), mem.vmm.kern);
      if !ok {
        return;
      }
    }
    ok := true;
  }

  /** The loop that takes a segment's pages out of kern_dir again. */
  method HideSegment(mem: Memory, seg: Segment)
    requires mem.Valid()
    modifies mem.vmm.ram, mem.vmm`flat
    ensures mem.Valid() && mem.vmm.EmptySlots() == old(mem.vmm.EmptySlots()) && mem.vmm.Slots() == old(mem.vmm.Slots())
    ensures forall e: nat, p: nat :: mem.vmm.Flat(e, p) ==
              if e == mem.vmm.kern && InRun(PageOf(seg.vaddr), seg.Count(), p) then 0 else old(mem.vmm.Flat(e, p))
  {
    hide Vmm.Valid, PhysicalMemory.Pmm.Valid, PageOf, PageAfter, Wrapped, Vmm.EmptySlots, Vmm.Slots;
    mem.vmm.KernInUse();
    ghost var page := PageOf(seg.vaddr);
    for j := 0 to seg.Count()
      modifies mem.vmm.ram, mem.vmm`flat
      invariant mem.Valid() && mem.vmm.kern in mem.vmm.dirs && mem.vmm.EmptySlots() == old(mem.vmm.EmptySlots()) && mem.vmm.Slots() == old(mem.vmm.Slots())
      invariant forall e: nat, p: nat :: mem.vmm.Flat(e, p) ==
                  if e == mem.vmm.kern && InRun(page, j, p) then 0 else old(mem.vmm.Flat(e, p))
    {
      PageIsAfter(seg.vaddr, j);
      mem.vmm.UnmapPhys(mem.vmm.kern, Wrapped(seg.vaddr + j * PAGE_SIZE));
      forall p: nat ensures InRun(page, j + 1, p) <==> InRun(page, j, p) || p == PageAfter(page, j) {
        InRunNext(page, j, p);
      }
    }
  }

  lemma InRunNext(page: nat, j: nat, p: nat)
    requires page < PAGES && j < PAGES
    ensures InRun(page, j + 1, p) <==> InRun(page, j, p) || p == PageAfter(page, j)
  {
    if p < PAGES {
      RunIndex(page, p, j);
    }
  }

  /** What load_elf_relocate does to memory for one segment: it takes a frame for every page, but the
      process gets the first one at every page and kern_dir gives them all up.  It goes through
      exactly when the pool has a table for every empty slot of the pages. */
  method PlaceSegment(mem: Memory, d: nat, seg: Segment) returns (ok: bool, ghost frames: seq<Frame>)
    requires mem.Valid() && d in mem.vmm.dirs && d != mem.vmm.kern && seg.Loads()
    modifies mem.vmm.pool, mem.vmm.ram, mem.vmm`poolUsed, mem.vmm`tables, mem.vmm`flat
    modifies mem.pmm.map_, mem.pmm`taken, mem.pmm`usedBlocks
    ensures mem.Valid() && mem.Taken(frames, old(mem.pmm.taken))
    ensures mem.pmm.usedBlocks == Wrapped(old(mem.pmm.usedBlocks) + |frames|)
    ensures Paid(ok, old(mem.vmm.PoolLeft()), old(mem.vmm.EmptySlots()),
                 SlotsOf(mem.vmm.kern, d, PageOf(seg.vaddr), seg.Count()), mem.vmm.PoolLeft(), mem.vmm.EmptySlots())
    ensures 0 < |frames| <= seg.Count() && (ok ==> |frames| == seg.Count())
    ensures Grown(old(mem.vmm.Slots()), mem.vmm.Slots(), mem.vmm.kern)
    ensures !ok ==> Placing(false, mem, d, PageOf(seg.vaddr), frames, old(mem.pmm.taken), old(mem.vmm.flat),
                            old(mem.vmm.PoolLeft()), old(mem.vmm.EmptySlots()))
    ensures ok ==> forall p: nat :: seg.Has(p) ==>
              mem.vmm.Translate(d, p) == UserSees(SlotIn(old(mem.vmm.Slots()), d, p / ENTRIES), frames[0])
    ensures ok ==> PlacedPages(mem.vmm.flat, old(mem.vmm.flat), mem.vmm.kern, d, seg, frames)
    ensures ok ==> ((forall i :: 0 <= i < |frames| ==> FrameIn(mem.vmm.Flat(d, PageAfter(PageOf(seg.vaddr), i))) == frames[i]) <==>
                    seg.Count() == 1 || old(mem.FreeBlocks()) <= {LOST as nat})
    ensures ok ==> forall i :: 1 <= i < |frames| ==>
                     (Unmapped(mem.vmm.flat, frames[i]) <==>
                        frames[i] != frames[0] &&
                        forall e: nat, p: nat :: FrameIn(At(old(mem.vmm.flat), e, p)) == frames[i] ==>
                          seg.Has(p) && (e == d || e == mem.vmm.kern))
  {
    hide Vmm.Valid, PhysicalMemory.Pmm.Valid, PageOf, Wrapped, Vmm.PoolLeft, Vmm.EmptySlots, InRun, Placed, Paid, SlotsOf, Got, After;
    hide StoppedAt, Unmapped, FrameIn, Free, Vmm.Slots, Vmm.Translate, Grown, UserSees, SlotIn;
    ghost var kern, page, taken, flat, left, empty :=
      mem.vmm.kern, PageOf(seg.vaddr), mem.pmm.taken, mem.vmm.flat, mem.vmm.PoolLeft(), mem.vmm.EmptySlots();
    ok, frames := PlacePages(mem, d, seg);
    if !ok {
      FailedMore(left, empty, kern, d, page, |frames|, seg.Count(), mem.vmm.PoolLeft(), mem.vmm.EmptySlots());
      return;
    }
    ghost var mapped := mem.vmm.flat;
    HideSegment(mem, seg);
    forall e: nat, p: nat
      ensures mem.vmm.Flat(e, p) ==
              if !seg.Has(p) then At(flat, e, p)
              else if e == d then frames[0] * PAGE_SIZE + USER_FLAGS
              else if e == kern then 0
              else At(flat, e, p)
    {
      PlacedAt(flat, kern, d, page, frames, e, p);
    }
    assert PlacedPages(mem.vmm.flat, flat, kern, d, seg, frames) by {
      assert forall e: nat, p: nat :: mem.vmm.Flat(e, p) == At(mem.vmm.flat, e, p);
    }
    forall p: nat | seg.Has(p)
      ensures mem.vmm.Translate(d, p) == UserSees(SlotIn(old(mem.vmm.Slots()), d, p / ENTRIES), frames[0])
    {
      UserEntryIs(frames[0]);
      HasPage(seg, p);
      mem.UserPageSeen(old(mem.vmm.Slots()), d, p);
    }
    SegmentPlaced(mem.vmm.flat, flat, kern, d, seg, frames, taken, mem.pmm.Limit());
  }

  lemma UserEntryIs(f: Frame)
    ensures (f * PAGE_SIZE + USER_FLAGS) % PAGE_SIZE == USER_FLAGS && FrameIn(f * PAGE_SIZE + USER_FLAGS) == f
  {}

  lemma HasPage(seg: Segment, p: nat)
    requires seg.Has(p)
    ensures p < PAGES
  {}

  lemma SegmentPlaced(now: map<(nat, nat), word>, was: map<(nat, nat), word>, kern: nat, d: nat, seg: Segment,
                      frames: seq<Frame>, taken: set<nat>, limit: nat)
    requires d != kern && seg.Loads() && |frames| == seg.Count() && Got(frames, taken, limit)
    requires PlacedPages(now, was, kern, d, seg, frames)
    ensures (forall i :: 0 <= i < |frames| ==> FrameIn(At(now, d, PageAfter(PageOf(seg.vaddr), i))) == frames[i]) <==>
            seg.Count() == 1 || Free(taken, limit) <= {LOST as nat}
    ensures forall i :: 1 <= i < |frames| ==>
              (Unmapped(now, frames[i]) <==>
                 frames[i] != frames[0] &&
                 forall e: nat, p: nat :: FrameIn(At(was, e, p)) == frames[i] ==> seg.Has(p) && (e == d || e == kern))
  {
    hide Got, PlacedPages, Unmapped, FrameIn, Free, Segment.Has, PageOf;
    PlacedHolds(now, was, kern, d, seg, frames, taken, limit);
    forall i | 1 <= i < |frames|
      ensures Unmapped(now, frames[i]) <==>
                frames[i] != frames[0] &&
                forall e: nat, p: nat :: FrameIn(At(was, e, p)) == frames[i] ==> seg.Has(p) && (e == d || e == kern)
    {
      PlacedUnmapped(now, was, kern, d, seg, frames, taken, limit, i);
    }
  }

  /** No page of any address space has the frame. */
  ghost predicate Unmapped(flat: map<(nat, nat), word>, f: Frame) {
    forall e: nat, p: nat :: FrameIn(At(flat, e, p)) != f
  }

  /** What PlaceSegment leaves at every page. */
  ghost predicate PlacedPages(now: map<(nat, nat), word>, was: map<(nat, nat), word>, kern: nat, d: nat, seg: Segment,
                              frames: seq<Frame>)
    requires |frames| > 0
  {
    forall e: nat, p: nat :: At(now, e, p) ==
      if !seg.Has(p) then At(was, e, p)
      else if e == d then frames[0] * PAGE_SIZE + USER_FLAGS
      else if e == kern then 0
      else At(was, e, p)
  }

  lemma UserFrame(f: Frame)
    ensures FrameIn(f * PAGE_SIZE + USER_FLAGS) == f && FrameIn(0) == 0
  {}

  /** The process has the frame taken for each page at that page if and only if there is one page, or no
      block was free, or only the one whose number is the answer of pmm_malloc without a block. */
  lemma PlacedHolds(now: map<(nat, nat), word>, was: map<(nat, nat), word>, kern: nat, d: nat, seg: Segment,
                    frames: seq<Frame>, taken: set<nat>, limit: nat)
    requires seg.Loads() && |frames| == seg.Count() && Got(frames, taken, limit) && PlacedPages(now, was, kern, d, seg, frames)
    ensures (forall i :: 0 <= i < |frames| ==> FrameIn(At(now, d, PageAfter(PageOf(seg.vaddr), i))) == frames[i]) <==>
              seg.Count() == 1 || Free(taken, limit) <= {LOST as nat}
  {
    var page := PageOf(seg.vaddr);
    hide PageOf, Free, Got;
    UserFrame(frames[0]);
    forall i | 0 <= i < |frames| ensures FrameIn(At(now, d, PageAfter(page, i))) == frames[0] {
      RunIndex(page, PageAfter(page, i), i);
    }
    AllSame(frames, taken, limit);
  }

  /** When the answers of several pmm_malloc are all the same. */
  lemma AllSame(frames: seq<Frame>, taken: set<nat>, limit: nat)
    requires Got(frames, taken, limit) && |frames| > 0
    ensures (forall i :: 0 <= i < |frames| ==> frames[i] == frames[0]) <==> |frames| == 1 || Free(taken, limit) <= {LOST as nat}
  {
    var kept, free := Kept(frames, taken, limit), Free(taken, limit);
    assert forall i :: 0 <= i < |kept| ==> kept[i] == frames[i] && kept[i] as nat in free;
    if |frames| > 1 && free <= {LOST as nat} {
      SmallSet(free, LOST);
    } else if |frames| > 1 {
      var x :| x in free && x != LOST as nat;
      if |free| == 1 {
        Single(free, x);
        assert frames[1] == LOST && kept[0] as nat in free;
      } else {
        SomeFree(free, x);
        assert kept[0] != kept[1];
      }
    }
  }

  lemma SmallSet(free: set<nat>, x: nat)
    requires free <= {x}
    ensures |free| == 0 || (|free| == 1 && free == {x})
  {
    if x in free {
      assert free == {x};
    } else {
      assert free == {};
    }
  }

  lemma Single(free: set<nat>, x: nat)
    requires |free| == 1 && x in free
    ensures free == {x}
  {
    assert |free - {x}| == 0;
    assert free == {x} + (free - {x});
  }

  lemma SomeFree(free: set<nat>, x: nat)
    requires x in free
    ensures |free| >= 1
  {
    assert free == {x} + (free - {x});
  }

  /** A further frame ends up mapped nowhere if and only if it is not the first again and every entry that
      held it before was on one of the segment's pages. */
  lemma PlacedUnmapped(now: map<(nat, nat), word>, was: map<(nat, nat), word>, kern: nat, d: nat, seg: Segment,
                       frames: seq<Frame>, taken: set<nat>, limit: nat, i: nat)
    requires d != kern && seg.Loads() && 1 <= i < |frames| == seg.Count() && Got(frames, taken, limit)
    requires PlacedPages(now, was, kern, d, seg, frames)
    ensures Unmapped(now, frames[i]) <==>
              frames[i] != frames[0] &&
              forall e: nat, p: nat :: FrameIn(At(was, e, p)) == frames[i] ==> seg.Has(p) && (e == d || e == kern)
  {
    GotGiven(frames, taken, limit);
    UserFrame(frames[0]);
    var first := PageOf(seg.vaddr);
    assert seg.Has(first) by {
      assert (first - first) % PAGES == 0;
    }
    hide Got, FrameIn, Segment.Has;
    forall e: nat, p: nat
      ensures FrameIn(At(now, e, p)) == frames[i] <==>
              if seg.Has(p) && (e == d || e == kern) then e == d && frames[0] == frames[i] else FrameIn(At(was, e, p)) == frames[i]
    {
    }
    if frames[i] == frames[0] {
      assert FrameIn(At(now, d, first)) == frames[i];
    }
  }

  ghost predicate InSegments(segs: seq<Segment>, p: nat) {
    exists i :: 0 <= i < |segs| && segs[i].Has(p)
  }

  /** Frames the segments need. */
  function Needed(segs: seq<Segment>): nat {
    if segs == [] then 0
    else Needed(segs[..|segs| - 1]) + if segs[|segs| - 1].Loads() then segs[|segs| - 1].Count() else 0
  }

  /** The slots of the segments' pages in both directories. */
  ghost function SegmentSlots(kern: nat, d: nat, segs: seq<Segment>): set<(nat, nat)> {
    if segs == [] then {}
    else
      var seg := segs[|segs| - 1];
      SegmentSlots(kern, d, segs[..|segs| - 1]) + if seg.Loads() then SlotsOf(kern, d, PageOf(seg.vaddr), seg.Count()) else {}
  }

  lemma {:induction false} SegmentSlotsMore(kern: nat, d: nat, segs: seq<Segment>, i: nat) returns (more: set<(nat, nat)>)
    requires i <= |segs|
    ensures SegmentSlots(kern, d, segs) == SegmentSlots(kern, d, segs[..i]) + more
    decreases |segs|
  {
    if i == |segs| {
      assert segs[..i] == segs;
      more := {};
    } else {
      var n := |segs| - 1;
      more := SegmentSlotsMore(kern, d, segs[..n], i);
      assert segs[..n][..i] == segs[..i];
      more := more + if segs[n].Loads() then SlotsOf(kern, d, PageOf(segs[n].vaddr), segs[n].Count()) else {};
    }
  }

  lemma {:induction false} NeededGrows(segs: seq<Segment>, i: nat)
    requires i <= |segs|
    ensures Needed(segs[..i]) <= Needed(segs)
    decreases |segs| - i
  {
    if i < |segs| {
      NextSegment(segs, i);
      NeededGrows(segs, i + 1);
    } else {
      assert segs[..i] == segs;
    }
  }

  lemma NextSegment(segs: seq<Segment>, i: nat)
    requires i < |segs|
    ensures Needed(segs[..i + 1]) == Needed(segs[..i]) + if segs[i].Loads() then segs[i].Count() else 0
    ensures forall p: nat :: InSegments(segs[..i + 1], p) <==> InSegments(segs[..i], p) || segs[i].Has(p)
  {
    assert segs[..i + 1] == segs[..i] + [segs[i]];
    assert segs[..i + 1][..i] == segs[..i];
    forall p: nat | InSegments(segs[..i], p) ensures InSegments(segs[..i + 1], p) {
      var k :| 0 <= k < i && segs[..i][k].Has(p);
      assert segs[..i + 1][k].Has(p);
    }
    forall p: nat | segs[i].Has(p) ensures InSegments(segs[..i + 1], p) {
      assert segs[..i + 1][i].Has(p);
    }
  }

  lemma NextSlots(kern: nat, d: nat, segs: seq<Segment>, i: nat)
    requires i < |segs|
    ensures SegmentSlots(kern, d, segs[..i + 1]) == SegmentSlots(kern, d, segs[..i]) +
              if segs[i].Loads() then SlotsOf(kern, d, PageOf(segs[i].vaddr), segs[i].Count()) else {}
  {
    assert segs[..i + 1][..i] == segs[..i];
  }

  /** What has become of a page's entry once some segments are in place. */
  ghost predicate Moved(kern: nat, d: nat, segs: seq<Segment>, frames: seq<Frame>, e: nat, p: nat, was: word, now: word) {
    if !InSegments(segs, p) || (e != d && e != kern) then now == was
    else if e == kern then now == 0
    else now % PAGE_SIZE == USER_FLAGS && FrameIn(now) as nat in SetOf(frames)
  }

  ghost predicate Relocated(mem: Memory, d: nat, segs: seq<Segment>, frames: seq<Frame>, flat: map<(nat, nat), word>)
    reads mem, mem.vmm`flat
  {
    forall e: nat, p: nat :: Moved(mem.vmm.kern, d, segs, frames, e, p, At(flat, e, p), mem.vmm.Flat(e, p))
  }

  lemma MovedNext(kern: nat, d: nat, segs: seq<Segment>, i: nat, frames: seq<Frame>, more: seq<Frame>, e: nat, p: nat,
                  was: word, mid: word, now: word)
    requires d != kern && i < |segs| && |more| > 0 && Moved(kern, d, segs[..i], frames, e, p, was, mid)
    requires now == if !segs[i].Has(p) then mid
                    else if e == d then more[0] * PAGE_SIZE + USER_FLAGS
                    else if e == kern then 0
                    else mid
    ensures Moved(kern, d, segs[..i + 1], frames + more, e, p, was, now)
  {
    hide InSegments;
    NextSegment(segs, i);
    SetOfBoth(frames, more);
    assert more[0] as nat in SetOf(more);
    UserEntryIs(more[0]);
  }

  /** Only the segments' pages of the two directories have changed. */
  ghost predicate OnlySegments(kern: nat, d: nat, segs: seq<Segment>, was: map<(nat, nat), word>, now: map<(nat, nat), word>) {
    forall e: nat, p: nat :: !InSegments(segs, p) || (e != d && e != kern) ==> At(now, e, p) == At(was, e, p)
  }

  /** The first i segments, or where it stopped: what they took, what they cost, and what changed. */
  ghost predicate Relocating(ok: bool, mem: Memory, d: nat, segs: seq<Segment>, i: nat, frames: seq<Frame>, taken: set<nat>,
                             flat: map<(nat, nat), word>, left: nat, empty: set<(nat, nat)>)
    requires i <= |segs|
    reads mem, mem.vmm`flat, mem.vmm`dirs, mem.vmm.ram, mem.vmm.pool, mem.pmm
  {
    && mem.Taken(frames, taken)
    && Paid(ok, left, empty, SegmentSlots(mem.vmm.kern, d, if ok then segs[..i] else segs), mem.vmm.PoolLeft(), mem.vmm.EmptySlots())
    && if ok then |frames| == Needed(segs[..i]) && Relocated(mem, d, segs[..i], frames, flat)
       else |frames| <= Needed(segs) && OnlySegments(mem.vmm.kern, d, segs, flat, mem.vmm.flat)
  }

  /** The segment loop of load_elf_relocate, as far as pages and frames go. */
  method Relocate(mem: Memory, d: nat, segs: seq<Segment>) returns (ok: bool, ghost frames: seq<Frame>)
    requires mem.Valid() && d in mem.vmm.dirs && d != mem.vmm.kern
    modifies mem.vmm.pool, mem.vmm.ram, mem.vmm`poolUsed, mem.vmm`tables, mem.vmm`flat
    modifies mem.pmm.map_, mem.pmm`taken, mem.pmm`usedBlocks
    ensures mem.Valid() && mem.pmm.usedBlocks == Wrapped(old(mem.pmm.usedBlocks) + |frames|)
    ensures Grown(old(mem.vmm.Slots()), mem.vmm.Slots(), mem.vmm.kern)
    ensures ok <==> old(mem.vmm.PoolLeft()) >= Need(old(mem.vmm.EmptySlots()), SegmentSlots(mem.vmm.kern, d, segs))
    ensures Relocating(ok, mem, d, segs, |segs|, frames, old(mem.pmm.taken), old(mem.vmm.flat),
                       old(mem.vmm.PoolLeft()), old(mem.vmm.EmptySlots()))
  {
    hide Vmm.Valid, PhysicalMemory.Pmm.Valid, Relocating, Vmm.PoolLeft, Vmm.EmptySlots, Wrapped, Vmm.Slots, Vmm.Translate, Grown;
    frames := [];
    ghost var taken, flat, left, empty, used :=
      mem.pmm.taken, mem.vmm.flat, mem.vmm.PoolLeft(), mem.vmm.EmptySlots(), mem.pmm.usedBlocks;
    NothingRelocated(mem, d, segs);
    GrownNothing(mem.vmm.Slots(), mem.vmm.kern);
    for i := 0 to |segs|
      invariant mem.Valid() && d in mem.vmm.dirs && mem.pmm.usedBlocks == Wrapped(used + |frames|)
      invariant Grown(old(mem.vmm.Slots()), mem.vmm.Slots(), mem.vmm.kern)
      invariant Relocating(true, mem, d, segs, i, frames, taken, flat, left, empty)
    {
      if segs[i].Loads() {
        ghost var more, mid := [], mem.vmm.Slots();
        ok, more := RelocateNext(mem, d, segs, i, frames, taken, flat, left, empty);
        UsedBoth(used, |frames|, |more|);
        frames := frames + more;
        GrownTwice(old(mem.vmm.Slots()), mid, mem.vmm.Slots(), mem.vmm.kern);
        if !ok {
          RelocatingPaid(ok, mem, d, segs, i + 1, frames, taken, flat, left, empty);
          return;
        }
      } else {
        SameSegments(mem, d, segs, i, frames, taken, flat, left, empty);
      }
    }
    ok := true;
    RelocatingPaid(ok, mem, d, segs, |segs|, frames, taken, flat, left, empty);
  }

  lemma RelocatingPaid(ok: bool, mem: Memory, d: nat, segs: seq<Segment>, i: nat, frames: seq<Frame>, taken: set<nat>,
                       flat: map<(nat, nat), word>, left: nat, empty: set<(nat, nat)>)
    requires i <= |segs| && (ok ==> i == |segs|) && Relocating(ok, mem, d, segs, i, frames, taken, flat, left, empty)
    ensures Relocating(ok, mem, d, segs, |segs|, frames, taken, flat, left, empty)
    ensures ok <==> left >= Need(empty, SegmentSlots(mem.vmm.kern, d, segs))
  {
    assert segs[..|segs|] == segs;
  }

  /** One turn of the segment loop, for a segment that is loaded. */
  method RelocateNext(mem: Memory, d: nat, segs: seq<Segment>, i: nat, ghost frames: seq<Frame>, ghost taken: set<nat>,
                      ghost flat: map<(nat, nat), word>, ghost left: nat, ghost empty: set<(nat, nat)>)
    returns (ok: bool, ghost more: seq<Frame>)
    requires mem.Valid() && d in mem.vmm.dirs && d != mem.vmm.kern && i < |segs| && segs[i].Loads()
    requires Relocating(true, mem, d, segs, i, frames, taken, flat, left, empty)
    modifies mem.vmm.pool, mem.vmm.ram, mem.vmm`poolUsed, mem.vmm`tables, mem.vmm`flat
    modifies mem.pmm.map_, mem.pmm`taken, mem.pmm`usedBlocks
    ensures mem.Valid() && mem.pmm.usedBlocks == Wrapped(old(mem.pmm.usedBlocks) + |more|)
    ensures Grown(old(mem.vmm.Slots()), mem.vmm.Slots(), mem.vmm.kern)
    ensures Relocating(ok, mem, d, segs, i + 1, frames + more, taken, flat, left, empty)
  {
    hide Vmm.Valid, PhysicalMemory.Pmm.Valid, Got, After, SetOf, InSegments, Moved, Needed, Paid, SegmentSlots, Segment.Has, Free;
    hide Vmm.PoolLeft, Vmm.EmptySlots, Wrapped, OnlySegments, PageOf, SlotsOf, Placing, Vmm.Slots, Vmm.Translate, Grown;
    ghost var kern, mid, midEmpty, was, before := mem.vmm.kern, mem.vmm.PoolLeft(), mem.vmm.EmptySlots(), mem.vmm.flat, mem.pmm.taken;
    NextSegment(segs, i);
    NextSlots(kern, d, segs, i);
    NeededGrows(segs, i + 1);
    ok, more := PlaceSegment(mem, d, segs[i]);
    GotBoth(frames, more, taken, mem.pmm.Limit());
    PaidBoth(ok, left, empty, SegmentSlots(kern, d, segs[..i]), SlotsOf(kern, d, PageOf(segs[i].vaddr), segs[i].Count()),
             mid, midEmpty, mem.vmm.PoolLeft(), mem.vmm.EmptySlots());
    if ok {
      forall e: nat, p: nat
        ensures Moved(kern, d, segs[..i + 1], frames + more, e, p, At(flat, e, p), mem.vmm.Flat(e, p))
      {
        MovedNext(kern, d, segs, i, frames, more, e, p, At(flat, e, p), At(was, e, p), mem.vmm.Flat(e, p));
      }
    } else {
      RelocateFailed(mem, d, segs, i, frames, more, flat, was, before, mid, midEmpty, left, empty);
    }
  }

  /** A segment could not be placed: there are too few tables for all of them, and no other page has
      changed. */
  lemma RelocateFailed(mem: Memory, d: nat, segs: seq<Segment>, i: nat, frames: seq<Frame>, more: seq<Frame>,
                       flat: map<(nat, nat), word>, before: map<(nat, nat), word>, taken: set<nat>,
                       mid: nat, midEmpty: set<(nat, nat)>, left: nat, empty: set<(nat, nat)>)
    requires i < |segs| && segs[i].Loads() && d != mem.vmm.kern && |more| <= segs[i].Count()
    requires forall e: nat, p: nat :: Moved(mem.vmm.kern, d, segs[..i], frames, e, p, At(flat, e, p), At(before, e, p))
    requires Placing(false, mem, d, PageOf(segs[i].vaddr), more, taken, before, mid, midEmpty)
    requires Paid(false, left, empty, SegmentSlots(mem.vmm.kern, d, segs[..i + 1]), mem.vmm.PoolLeft(), mem.vmm.EmptySlots())
    ensures Paid(false, left, empty, SegmentSlots(mem.vmm.kern, d, segs), mem.vmm.PoolLeft(), mem.vmm.EmptySlots())
    ensures OnlySegments(mem.vmm.kern, d, segs, flat, mem.vmm.flat)
  {
    hide Vmm.PoolLeft, Vmm.EmptySlots, Paid, SegmentSlots, SlotsOf, Need, Memory.Taken;
    var kern := mem.vmm.kern;
    var rest := SegmentSlotsMore(kern, d, segs, i + 1);
    PaidFailed(left, empty, SegmentSlots(kern, d, segs[..i + 1]), rest, mem.vmm.PoolLeft(), mem.vmm.EmptySlots(),
               mem.vmm.PoolLeft(), mem.vmm.EmptySlots());
    var page, n := PageOf(segs[i].vaddr), |more| - 1;
    hide PageOf, PageAfter, InRun, Placed;
    forall e: nat, p: nat | !InSegments(segs, p) || (e != d && e != kern) ensures At(mem.vmm.flat, e, p) == At(flat, e, p) {
      PlacedAt(before, kern, d, page, more[..n], e, p);
      FailedPage(segs[i], n, p);
      PartOfSegments(segs, i, p);
    }
  }

  lemma FailedPage(seg: Segment, n: nat, p: nat)
    requires n < seg.Count() && seg.Loads()
    ensures InRun(PageOf(seg.vaddr), n, p) || p == PageAfter(PageOf(seg.vaddr), n) ==> seg.Has(p)
  {
    InRunNext(PageOf(seg.vaddr), n, p);
  }

  lemma PartOfSegments(segs: seq<Segment>, i: nat, p: nat)
    requires i < |segs|
    ensures segs[i].Has(p) || InSegments(segs[..i], p) ==> InSegments(segs, p)
  {
    if k :| 0 <= k < i && segs[..i][k].Has(p) {
      assert segs[k].Has(p);
    }
  }

  lemma NothingRelocated(mem: Memory, d: nat, segs: seq<Segment>)
    requires mem.Valid()
    ensures Relocating(true, mem, d, segs, 0, [], mem.pmm.taken, mem.vmm.flat, mem.vmm.PoolLeft(), mem.vmm.EmptySlots())
  {
    hide Vmm.PoolLeft, Vmm.EmptySlots;
    GotNothing(mem.pmm.taken, mem.pmm.Limit());
    LimitFits(mem.pmm);
    PaidNothing(mem.vmm.PoolLeft(), mem.vmm.EmptySlots());
    assert segs[..0] == [];
  }

  lemma SameSegments(mem: Memory, d: nat, segs: seq<Segment>, i: nat, frames: seq<Frame>, taken: set<nat>,
                     flat: map<(nat, nat), word>, left: nat, empty: set<(nat, nat)>)
    requires i < |segs| && !segs[i].Loads() && Relocating(true, mem, d, segs, i, frames, taken, flat, left, empty)
    ensures Relocating(true, mem, d, segs, i + 1, frames, taken, flat, left, empty)
  {
    NextSegment(segs, i);
    NextSlots(mem.vmm.kern, d, segs, i);
    assert SegmentSlots(mem.vmm.kern, d, segs[..i + 1]) == SegmentSlots(mem.vmm.kern, d, segs[..i]);
    hide InSegments, Vmm.PoolLeft, Vmm.EmptySlots, Needed, SegmentSlots, Paid;
  }

  // ---------------------------------------------------------------- load_elf

  /** The bytes of a header that this kernel runs. */
  predicate ValidElf(image: seq<byte>) {
    && |image| >= 24
    && image[..4] == [0x7F, 'E' as int, 'L' as int, 'F' as int]
    && image[4] == 1 && image[5] == 1
    && image[18..20] == [3, 0] && image[20..24] == [1, 0, 0, 0]
  }

  /** elf_validate */
  method ElfValidate(image: array<byte>) returns (valid: bool)
    requires image.Length >= SECTOR_SIZE
    ensures valid <==> ValidElf(image[..])
  {
    if !(image[0] == 0x7F && image[1] == 'E' as int && image[2] == 'L' as int && image[3] == 'F' as int) {
      assert image[..][..4] != [0x7F, 'E' as int, 'L' as int, 'F' as int];
      return false;
    }
    assert image[..][..4] == [0x7F, 'E' as int, 'L' as int, 'F' as int];
    if Word16(image[18..20]) != 3 {
      return false;
    }
    if image[4] != 1 {
      return false;
    }
    if image[5] != 1 {
      return false;
    }
    if Word32(image[20..24]) != 1 {
      return false;
    }
    return true;
  }

  /** load_elf, for a file whose clusters form a chain; `segs` are its program headers.  It succeeds exactly
      when the pool has the tables for the image's and the segments' pages and the file is a valid one.
      Then the frames the file was read into are given back, and only those the segments took are
      gone; otherwise everything taken stays taken. */
  method LoadElf(mem: Memory, v: Volume, f: File, area: array<byte>, d: nat, segs: seq<Segment>, ghost cs: seq<word>)
    returns (result: nat, fileSize: int, ghost image: seq<Frame>, ghost frames: seq<Frame>)
    requires mem.Valid() && v.Chain(cs) && f.eof == 0 && f.currentCluster == cs[0]
    requires area.Length == SECTOR_SIZE * |cs| && area != v.window && |cs| < 0x10_0000
    requires d in mem.vmm.dirs && d != mem.vmm.kern
    requires forall p: nat :: InImage(Pages(|cs|), p) ==> !InSegments(segs, p)
    modifies f, area, v.window
    modifies mem.vmm.pool, mem.vmm.ram, mem.vmm`poolUsed, mem.vmm`tables, mem.vmm`flat
    modifies mem.pmm.map_, mem.pmm`taken, mem.pmm`usedBlocks
    ensures mem.Valid()
    ensures fileSize == if old(mem.vmm.PoolLeft()) >= Need(old(mem.vmm.EmptySlots()), ImageSlots(mem.vmm.kern, Pages(|cs|)))
                        then Pages(|cs|) else -1
    ensures fileSize != -1 ==> area[..] == Join(v.Contents(cs)) && |image| == fileSize
    ensures result == if old(mem.vmm.PoolLeft()) >=
                           Need(old(mem.vmm.EmptySlots()), ImageSlots(mem.vmm.kern, Pages(|cs|)) + SegmentSlots(mem.vmm.kern, d, segs))
                         && ValidElf(Join(v.Contents(cs))) then 1 else 0
    ensures mem.pmm.Limit() <= PAGES && Got(image + frames, old(mem.pmm.taken), mem.pmm.Limit())
    ensures mem.pmm.taken == After(image + frames, old(mem.pmm.taken), mem.pmm.Limit()) - if result == 1 then SetOf(image) else {}
    ensures mem.pmm.usedBlocks == Wrapped(old(mem.pmm.usedBlocks) + if result == 1 then |frames| else |image| + |frames|)
    ensures result == 1 ==> |frames| == Needed(segs)
    ensures result == 1 && |old(mem.FreeBlocks())| >= |image + frames| ==>
              SetOf(frames) !! old(mem.pmm.taken) && mem.pmm.taken == old(mem.pmm.taken) + SetOf(frames)
    ensures result == 1 ==> forall e: nat, p: nat ::
              if e == mem.vmm.kern && InImage(Pages(|cs|), p) then mem.vmm.Flat(e, p) == 0
              else Moved(mem.vmm.kern, d, segs, frames, e, p, old(mem.vmm.Flat(e, p)), mem.vmm.Flat(e, p))
    ensures result == 1 ==> forall p: nat :: InSegments(segs, p) ==>
              mem.vmm.Translate(d, p) == UserSees(SlotIn(old(mem.vmm.Slots()), d, p / ENTRIES), FrameIn(mem.vmm.Flat(d, p)))
    ensures fileSize == -1 || !ValidElf(Join(v.Contents(cs))) ==>
              && frames == []
              && Loading(fileSize != -1, mem, image, old(mem.pmm.taken), old(mem.vmm.flat),
                         old(mem.vmm.PoolLeft()), old(mem.vmm.EmptySlots()))
    ensures fileSize != -1 && ValidElf(Join(v.Contents(cs))) && result == 0 ==>
              OnlySegments(mem.vmm.kern, d, segs, Run(old(mem.vmm.flat), mem.vmm.kern, PageOf(MEMORY_LOAD_ADDRESS), image), mem.vmm.flat)
  {
    hide Vmm.Valid, PhysicalMemory.Pmm.Valid, Loading, Got, After, SetOf, Run, Join, Moved, InSegments, Needed, ValidElf, Paid, Free;
    hide Volume.Chain, Volume.Contents, Volume.Entry, SegmentSlots, ImageSlots, Need, Vmm.PoolLeft, Vmm.EmptySlots, Wrapped, OnlySegments;
    hide Pages, InImage, Vmm.Slots, Vmm.Translate, Grown, UserSees, SlotIn, FrameIn;
    result, frames := 0, [];
    ghost var kern, page, taken, flat, left, empty, used := mem.vmm.kern, PageOf(MEMORY_LOAD_ADDRESS), mem.pmm.taken, mem.vmm.flat,
                                                            mem.vmm.PoolLeft(), mem.vmm.EmptySlots(), mem.pmm.usedBlocks;
    ghost var a, b := ImageSlots(kern, Pages(|cs|)), SegmentSlots(kern, d, segs);
    ghost var got;
    fileSize, image, got := LoadElfFile(mem, v, f, area, cs);
    ghost var loaded := mem.vmm.Slots();
    LoadedParts(fileSize != -1, mem, image, taken, flat, left, empty);
    assert image + frames == image;
    if fileSize == -1 {
      PaidMore(left, empty, a, b);
      return;
    }
    assert cs[..got] == cs && area[..SECTOR_SIZE * got] == area[..];
    v.ChainStarts(cs);
    var valid := ElfValidate(area);
    if !valid {
      return;
    }
    PageCount(|cs|);
    label read:
    ghost var mid, midEmpty, was := mem.vmm.PoolLeft(), mem.vmm.EmptySlots(), mem.vmm.flat;
    PaidThen(left, empty, a, b, mid, midEmpty);
    var ok;
    ok, frames := PlaceImage(mem, d, segs, fileSize, image);
    GotBoth(image, frames, taken, mem.pmm.Limit());
    UsedPlaced(used, |image|, |frames|);
    if ok {
      ImageBack(image, frames, taken, mem.pmm.Limit());
      forall e: nat, p: nat
        ensures if e == kern && InImage(Pages(|cs|), p) then mem.vmm.Flat(e, p) == 0
                else Moved(kern, d, segs, frames, e, p, At(flat, e, p), mem.vmm.Flat(e, p))
      {
        OutsideImage(flat, kern, image, e, p);
        assert old@read(mem.vmm.Flat(e, p)) == At(was, e, p);
      }
      GrownTwice(old(mem.vmm.Slots()), loaded, mem.vmm.Slots(), kern);
      SegmentsSeen(mem, d, segs, frames, flat, old(mem.vmm.Slots()), Pages(|cs|));
      result := 1;
    }
  }

  /** What load_elf does with a valid image: the segments are placed, and the image is given back. */
  method PlaceImage(mem: Memory, d: nat, segs: seq<Segment>, fileSize: nat, ghost image: seq<Frame>)
    returns (ok: bool, ghost frames: seq<Frame>)
    requires mem.Valid() && d in mem.vmm.dirs && d != mem.vmm.kern
    requires |image| == fileSize < 0x8_0000 && forall i :: 0 <= i < |image| ==> image[i] >= PhysicalMemory.RESERVED
    requires Holds(mem.vmm.flat, mem.vmm.kern, PageOf(MEMORY_LOAD_ADDRESS), image)
    requires forall p: nat :: InImage(fileSize, p) ==> !InSegments(segs, p)
    modifies mem.vmm.pool, mem.vmm.ram, mem.vmm`poolUsed, mem.vmm`tables, mem.vmm`flat
    modifies mem.pmm.map_, mem.pmm`taken, mem.pmm`usedBlocks
    ensures mem.Valid() && mem.pmm.Limit() <= PAGES && Got(frames, old(mem.pmm.taken), mem.pmm.Limit())
    ensures ok <==> old(mem.vmm.PoolLeft()) >= Need(old(mem.vmm.EmptySlots()), SegmentSlots(mem.vmm.kern, d, segs))
    ensures Grown(old(mem.vmm.Slots()), mem.vmm.Slots(), mem.vmm.kern)
    ensures ok ==> |frames| == Needed(segs)
    ensures mem.pmm.taken == After(frames, old(mem.pmm.taken), mem.pmm.Limit()) - if ok then SetOf(image) else {}
    ensures mem.pmm.usedBlocks == Wrapped(Wrapped(old(mem.pmm.usedBlocks) + |frames|) - if ok then |image| else 0)
    ensures ok ==> forall e: nat, p: nat ::
              if e == mem.vmm.kern && InImage(fileSize, p) then mem.vmm.Flat(e, p) == 0
              else Moved(mem.vmm.kern, d, segs, frames, e, p, old(mem.vmm.Flat(e, p)), mem.vmm.Flat(e, p))
    ensures !ok ==> OnlySegments(mem.vmm.kern, d, segs, old(mem.vmm.flat), mem.vmm.flat)
  {
    hide Vmm.Valid, PhysicalMemory.Pmm.Valid, Got, After, SetOf, Moved, InSegments, InImage, Needed, Holds, OnlySegments;
    hide SegmentSlots, Need, Vmm.PoolLeft, Vmm.EmptySlots, Wrapped, Paid, Vmm.Slots, Vmm.Translate, Grown;
    ghost var was := mem.vmm.flat;
    ok, frames := Relocate(mem, d, segs);
    assert segs[..|segs|] == segs;
    if !ok {
      UsedNothing(old(mem.pmm.usedBlocks) + |frames|);
      return;
    }
    HoldsStill(mem, d, segs, frames, image, was);
    label relocated:
    UnmapImage(mem, fileSize, image);
    forall e: nat, p: nat
      ensures if e == mem.vmm.kern && InImage(fileSize, p) then mem.vmm.Flat(e, p) == 0
              else Moved(mem.vmm.kern, d, segs, frames, e, p, old(mem.vmm.Flat(e, p)), mem.vmm.Flat(e, p))
    {
      assert Moved(mem.vmm.kern, d, segs, frames, e, p, At(was, e, p), old@relocated(mem.vmm.Flat(e, p)));
    }
  }

  /** The processor finds the segments' pages for the process. */
  lemma SegmentsSeen(mem: Memory, d: nat, segs: seq<Segment>, frames: seq<Frame>, flat: map<(nat, nat), word>,
                     slots: map<(nat, nat), word>, pages: nat)
    requires mem.Valid() && d in mem.vmm.dirs && d != mem.vmm.kern && Grown(slots, mem.vmm.Slots(), mem.vmm.kern)
    requires forall e: nat, p: nat ::
               if e == mem.vmm.kern && InImage(pages, p) then mem.vmm.Flat(e, p) == 0
               else Moved(mem.vmm.kern, d, segs, frames, e, p, At(flat, e, p), mem.vmm.Flat(e, p))
    ensures forall p: nat :: InSegments(segs, p) ==>
              mem.vmm.Translate(d, p) == UserSees(SlotIn(slots, d, p / ENTRIES), FrameIn(mem.vmm.Flat(d, p)))
  {
    hide InSegments, InImage, Grown, UserSees, SlotIn, Vmm.Slots, Vmm.Translate, Vmm.Valid, PhysicalMemory.Pmm.Valid, FrameIn;
    forall p: nat | InSegments(segs, p)
      ensures mem.vmm.Translate(d, p) == UserSees(SlotIn(slots, d, p / ENTRIES), FrameIn(mem.vmm.Flat(d, p)))
    {
      SegmentPage(segs, p);
      assert Moved(mem.vmm.kern, d, segs, frames, d, p, At(flat, d, p), mem.vmm.Flat(d, p));
      mem.UserPageSeen(slots, d, p);
    }
  }

  lemma SegmentPage(segs: seq<Segment>, p: nat)
    requires InSegments(segs, p)
    ensures p < PAGES
  {
    var i :| 0 <= i < |segs| && segs[i].Has(p);
  }

  lemma LoadedParts(ok: bool, mem: Memory, frames: seq<Frame>, taken: set<nat>, flat: map<(nat, nat), word>,
                    left: nat, empty: set<(nat, nat)>)
    requires Loading(ok, mem, frames, taken, flat, left, empty)
    ensures mem.pmm.Limit() <= PAGES && Got(frames, taken, mem.pmm.Limit()) && mem.pmm.taken == After(frames, taken, mem.pmm.Limit())
    ensures forall i :: 0 <= i < |frames| ==> frames[i] >= PhysicalMemory.RESERVED
    ensures Paid(ok, left, empty, ImageSlots(mem.vmm.kern, |frames|), mem.vmm.PoolLeft(), mem.vmm.EmptySlots())
    ensures ok ==> mem.vmm.flat == Run(flat, mem.vmm.kern, PageOf(MEMORY_LOAD_ADDRESS), frames)
    ensures ok ==> Holds(mem.vmm.flat, mem.vmm.kern, PageOf(MEMORY_LOAD_ADDRESS), frames)
  {
    hide Run, Holds, Paid, ImageSlots, Need, Vmm.PoolLeft, Vmm.EmptySlots, Got, After;
    GotGiven(frames, taken, mem.pmm.Limit());
    RunHolds(flat, mem.vmm.kern, PageOf(MEMORY_LOAD_ADDRESS), frames);
    assert frames[..|frames|] == frames;
  }

  lemma OutsideImage(flat: map<(nat, nat), word>, kern: nat, image: seq<Frame>, e: nat, p: nat)
    ensures !(e == kern && InImage(|image|, p)) ==> At(Run(flat, kern, PageOf(MEMORY_LOAD_ADDRESS), image), e, p) == At(flat, e, p)
  {
    RunAt(flat, kern, PageOf(MEMORY_LOAD_ADDRESS), image, e, p);
  }

  lemma PageCount(n: nat)
    requires n < 0x10_0000
    ensures Pages(n) < 0x8_0000
  {}

  lemma PaidMore(left: nat, empty: set<(nat, nat)>, a: set<(nat, nat)>, b: set<(nat, nat)>)
    requires left < Need(empty, a)
    ensures left < Need(empty, a + b)
  {
    NeedBoth(empty, a, b);
  }

  lemma PaidThen(left: nat, empty: set<(nat, nat)>, a: set<(nat, nat)>, b: set<(nat, nat)>, mid: nat, midEmpty: set<(nat, nat)>)
    requires Paid(true, left, empty, a, mid, midEmpty)
    ensures mid >= Need(midEmpty, b) <==> left >= Need(empty, a + b)
  {
    NeedBoth(empty, a, b);
  }

  lemma UsedPlaced(u: int, i: nat, f: nat)
    ensures Wrapped(Wrapped(Wrapped(u + i) + f) - i) == Wrapped(u + f)
    ensures Wrapped(Wrapped(Wrapped(u + i) + f) - 0) == Wrapped(u + (i + f))
  {
    UsedBoth(u, i, f);
    var back: int := i;
    WrapAdd(u + (i + f), -back);
    WrapAdd(u + (i + f), 0);
    hide Wrapped;
  }

  lemma WrapAdd(x: int, y: int)
    ensures Wrapped(Wrapped(x) + y) == Wrapped(x + y)
  {}

  lemma UsedNothing(u: int)
    ensures Wrapped(Wrapped(u) - 0) == Wrapped(u)
  {}

  /** With enough blocks, giving the image back leaves the segments' frames taken and nothing else new. */
  lemma ImageBack(image: seq<Frame>, frames: seq<Frame>, taken: set<nat>, limit: nat)
    requires Got(image + frames, taken, limit)
    ensures |Free(taken, limit)| >= |image + frames| ==>
              SetOf(frames) !! taken && After(image + frames, taken, limit) - SetOf(image) == taken + SetOf(frames)
  {
    hide Free;
    if |Free(taken, limit)| >= |image + frames| {
      var all := image + frames;
      SetOfBoth(image, frames);
      assert Fresh(all, taken, limit);
      forall i, j | 0 <= i < |image| && 0 <= j < |frames| ensures image[i] != frames[j] && image[i] as nat !in taken && frames[j] as nat !in taken {
        assert all[i] == image[i] && all[|image| + j] == frames[j];
      }
      forall j | 0 <= j < |frames| ensures frames[j] as nat !in taken {
        assert all[|image| + j] == frames[j];
      }
      forall i | 0 <= i < |image| ensures image[i] as nat !in taken {
        assert all[i] == image[i];
      }
    }
  }

  /** Segments that are apart from the image leave it where it is. */
  lemma HoldsStill(mem: Memory, d: nat, segs: seq<Segment>, frames: seq<Frame>, image: seq<Frame>,
                   flat: map<(nat, nat), word>)
    requires forall p: nat :: InImage(|image|, p) ==> !InSegments(segs, p)
    requires Holds(flat, mem.vmm.kern, PageOf(MEMORY_LOAD_ADDRESS), image) && Relocated(mem, d, segs, frames, flat)
    ensures Holds(mem.vmm.flat, mem.vmm.kern, PageOf(MEMORY_LOAD_ADDRESS), image)
  {
    hide InSegments, FrameIn;
    var kern, page := mem.vmm.kern, PageOf(MEMORY_LOAD_ADDRESS);
    forall i | 0 <= i < |image| ensures FrameIn(At(mem.vmm.flat, kern, page + i)) == image[i] {
      assert InImage(|image|, page + i);
      assert Moved(kern, d, segs, frames, kern, page + i, At(flat, kern, page + i), mem.vmm.Flat(kern, page + i));
    }
  }
}
