/** mm/kheap.c and mm/heap.c: heap headers in memory, linked by address.  The kernel heap and the heap
    of a process run the same code; the process heap also stops its search at an address. */
module Heap {
  import opened Bits
  import opened HeapModel

  const HEAP_MAGIC := 0xA0B0C0

  /** heap_header_t */
  datatype Header = Header(magic: int, size: word, isFree: int, next: nat)

  ghost function NextOf(bs: seq<Block>, i: nat): nat {
    if i + 1 < |bs| then bs[i + 1].addr else 0
  }

  /** The header of block i says what the block is and where the next one starts. */
  ghost predicate Linked(mem: map<nat, Header>, bs: seq<Block>, i: nat)
    requires i < |bs|
  {
    && bs[i].addr in mem && bs[i].size < WORD_RANGE
    && mem[bs[i].addr] == Header(HEAP_MAGIC, bs[i].size, if bs[i].free then 1 else 0, NextOf(bs, i))
  }

  /** Following `next` from the first header meets exactly the blocks. */
  ghost predicate Chained(mem: map<nat, Header>, bs: seq<Block>, first: nat) {
    && |bs| > 0 && bs[0].addr == first
    && forall i :: 0 <= i < |bs| ==> Linked(mem, bs, i)
  }

  ghost predicate Rising(bs: seq<Block>) {
    forall i, j :: 0 <= i < j < |bs| ==> bs[i].addr < bs[j].addr
  }

  /** Every header, also one that is on the list no more, points at a later one or at none. */
  ghost predicate Ahead(mem: map<nat, Header>) {
    forall a :: a in mem ==> a > 0 && mem[a].magic == HEAP_MAGIC && (mem[a].next == 0 || (mem[a].next > a && mem[a].next in mem))
  }

  /** A header marked live is in the list. */
  ghost predicate LiveListed(mem: map<nat, Header>, bs: seq<Block>) {
    forall a :: a in mem && mem[a].isFree == 0 ==> exists i :: 0 <= i < |bs| && bs[i].addr == a
  }

  /** The headers a walk from `a` can still meet. */
  ghost function Later(mem: map<nat, Header>, a: nat): set<nat> {
    if a == 0 then {} else set k | k in mem && k >= a
  }

  /** The bytes of the free blocks met by following `next` from a header on. */
  ghost function RunBytes(mem: map<nat, Header>, a: nat): nat
    requires Ahead(mem) && (a == 0 || a in mem)
    decreases Later(mem, a)
  {
    if a == 0 || mem[a].isFree != 1 then 0
    else
      Fewer(mem, a);
      mem[a].size + HEADER + RunBytes(mem, mem[a].next)
  }

  /** The header after them, or 0. */
  ghost function RunEnd(mem: map<nat, Header>, a: nat): (e: nat)
    requires Ahead(mem) && (a == 0 || a in mem)
    ensures e == 0 || (e >= a && e in mem)
    decreases Later(mem, a)
  {
    if a == 0 || mem[a].isFree != 1 then a
    else
      Fewer(mem, a);
      RunEnd(mem, mem[a].next)
  }

  lemma Fewer(mem: map<nat, Header>, a: nat)
    requires Ahead(mem) && a in mem
    ensures Later(mem, mem[a].next) < Later(mem, a)
  {
    assert a in Later(mem, a) && a !in Later(mem, mem[a].next);
  }

  /** What kfree and ufree make of a live header. */
  ghost function Merged(mem: map<nat, Header>, head: nat): Header
    requires Ahead(mem) && head in mem
  {
    Header(HEAP_MAGIC, (mem[head].size + RunBytes(mem, mem[head].next)) % WORD_RANGE, 1, RunEnd(mem, mem[head].next))
  }

  /** The two headers a split writes. */
  ghost function SplitMemory(mem: map<nat, Header>, head: nat, len: word): map<nat, Header>
    requires head in mem
  {
    mem[head := Header(mem[head].magic, len, 0, NextHeader(head, len))]
       [NextHeader(head, len) := Header(HEAP_MAGIC, (mem[head].size - len - HEADER) % WORD_RANGE, 1, 0)]
  }

  class Heap {
    const first: nat
    const size: word
    const bound: nat
    var used: word
    var mem: map<nat, Header>

    /** The blocks met from first_header, and how often an allocation has succeeded. */
    ghost var list: seq<Block>
    ghost var allocs: nat

    /** What every run keeps, whatever has been overwritten: the list ends, and so does every walk. */
    ghost predicate Walkable()
      reads this
    {
      first > 0 && Chained(mem, list, first) && Rising(list) && Ahead(mem)
    }

    /** A heap that has only been split cleanly. */
    ghost predicate Valid()
      reads this
    {
      && Walkable()
      && Good(list, first, size)
      && first + HEADER * (size + 2 * HEADER) < WORD_RANGE
      && LiveListed(mem, list)
      && used == HEADER * (1 + allocs) + Live(list)
    }

    /** kheap_init and heap_init. */
    constructor (start: nat, size: word, bound: nat)
      requires start > 0 && size > HEADER && start + HEADER * (size + 2 * HEADER) < WORD_RANGE
      ensures Valid() && first == start && this.size == size && this.bound == bound && allocs == 0
      ensures list == [Block(start, size - 16, true)] && mem == map[start := Header(0xA0B0C0, size - 16, 1, 0)]
    {
      first, this.size, this.bound, used := start, size, bound, HEADER;
      mem := map[start := Header(HEAP_MAGIC, size - HEADER, 1, 0)];
      list, allocs := [Block(start, size - HEADER, true)], 0;
      TotalOne(Block(start, size - HEADER, true));
    }

    /** An allocation finds a block: not yet refused, one fits, and the search gets that far. */
    ghost predicate Fits(len: word)
      reads this
    {
      used < size && FirstFit(list, len) < |list| && list[FirstFit(list, len)].addr < bound
    }

    /** first_free and umalloc.  Whatever the heap has been through, the block handed out, the new list and
        the counter are as stated; a sound heap stays sound exactly when the split is clean. */
    method Malloc(len: word) returns (ptr: nat)
      requires Walkable()
      modifies this`used, this`mem, this`list, this`allocs
      ensures Walkable()
      ensures ptr != 0 <==>
                var i := FirstFit(old(list), len);
                old(used) < size && i < |old(list)| && old(list)[i].addr < bound
      ensures ptr == 0 ==> list == old(list) && mem == old(mem) && used == old(used) && allocs == old(allocs)
      ensures ptr != 0 ==>
                var i := FirstFit(old(list), len);
                && i < |old(list)| && ptr == old(list)[i].addr + HEADER
                && list == Split(old(list), i, len) && allocs == old(allocs) + 1
                && used == (old(used) + len + HEADER) % WORD_RANGE
      ensures old(Valid()) ==>
                && (Valid() <==> (ptr == 0 || CleanSplit(old(list), len)))
                && (ptr != 0 ==> used == old(used) + len + HEADER)
    {
      hide Good, LiveListed, Ahead, Split, Live;
      if used >= size {
        return 0;
      }
      var head := first;
      ghost var k := 0;
      while head != 0 && head < bound
        invariant 0 <= k <= FirstFit(list, len) && head == (if k < |list| then list[k].addr else 0)
        decreases |list| - k
      {
        assert Linked(mem, list, k);
        if mem[head].size >= len && mem[head].isFree == 1 && mem[head].magic == HEAP_MAGIC {
          ptr := SplitHeader(head, len);
          return;
        }
        head := mem[head].next;
        k := k + 1;
      }
      ptr := 0;
      NotFound(k, len);
    }

    /** The search ended without a block. */
    lemma NotFound(k: nat, len: word)
      requires Walkable() && k <= FirstFit(list, len) && (k < |list| ==> list[k].addr == 0 || list[k].addr >= bound)
      ensures !Fits(len)
    {
      PositiveKeys();
      if k < |list| {
        FirstIsLeast(list, k);
      }
    }

    lemma PositiveKeys()
      requires Walkable()
      ensures forall i :: 0 <= i < |list| ==> list[i].addr > 0
    {
      assert forall i :: 0 <= i < |list| ==> Linked(mem, list, i);
    }

    /** The body of the search loop, at the first block that fits. */
    method SplitHeader(head: nat, len: word) returns (ptr: nat)
      requires Walkable() && used < size && FirstFit(list, len) < |list| && head == list[FirstFit(list, len)].addr
      modifies this`used, this`mem, this`list, this`allocs
      ensures Walkable() && ptr == head + HEADER
      ensures list == Split(old(list), FirstFit(old(list), len), len)
      ensures used == (old(used) + len + HEADER) % WORD_RANGE && allocs == old(allocs) + 1
      ensures old(Valid()) ==> (Valid() <==> CleanSplit(old(list), len)) && used == old(used) + len + HEADER
    {
      hide Chained, LiveListed, Good, Split, Rising, Ahead, FirstFit, Live, CleanSplit;
      ghost var i := FirstFit(list, len);
      SplitChained(mem, list, first, len);
      SplitAhead(mem, head, len);
      if Valid() {
        SplitSound(len);
      }
      var old_ := mem[head];
      var head2 := NextHeader(head, len);
      mem := mem[head := old_.(isFree := 0)];
      mem := mem[head2 := Header(HEAP_MAGIC, (old_.size - len - HEADER) % WORD_RANGE, 1, 0)];
      mem := mem[head := Header(old_.magic, len, 0, head2)];
      assert mem == SplitMemory(old(mem), head, len);
      list := Split(list, i, len);
      used := (used + len + HEADER) % WORD_RANGE;
      allocs := allocs + 1;
      ptr := head + HEADER;
    }

    /** What a split does to a sound heap. */
    lemma SplitSound(len: word)
      requires Valid() && used < size && FirstFit(list, len) < |list|
      ensures used + len + HEADER < WORD_RANGE
      ensures var i := FirstFit(list, len);
              var s := Split(list, i, len);
              && (Good(s, first, size) <==> CleanSplit(list, len))
              && (CleanSplit(list, len) ==>
                    && list[i].addr in mem && LiveListed(SplitMemory(mem, list[i].addr, len), s)
                    && used + len + HEADER == HEADER * (1 + (allocs + 1)) + Live(s))
    {
      hide Good, LiveListed, Rising, Ahead, FirstFit, Split, Live, CleanSplit;
      UsedFits(len);
      SplitChained(mem, list, first, len);
      SplitExact(list, first, size, len);
      SplitLive(list, first, size, len);
      if CleanSplit(list, len) {
        SplitListed(mem, list, len);
      }
    }

    lemma UsedFits(len: word)
      requires Valid() && used < size && FirstFit(list, len) < |list|
      ensures used + len + HEADER < WORD_RANGE
    {
      SplitLive(list, first, size, len);
    }

    /** kfree and ufree, for a pointer with a header in front of it, on the list or not.  Only a live block
        changes anything: it swallows the free blocks that follow it in memory.  A sound heap stays
        sound. */
    method Free(ptr: nat)
      requires Walkable() && ptr >= HEADER && ptr - HEADER in mem
      modifies this`used, this`mem, this`list
      ensures Walkable()
      ensures old(mem[ptr - HEADER].isFree) != 0 ==> list == old(list) && mem == old(mem) && used == old(used)
      ensures old(mem[ptr - HEADER].isFree) == 0 ==>
                && Ahead(old(mem)) && mem == old(mem)[ptr - HEADER := Merged(old(mem), ptr - HEADER)]
                && used == (old(used) - old(mem[ptr - HEADER].size)) % WORD_RANGE
                && (list == old(list) ||
                    exists i :: 0 <= i < |old(list)| && old(list)[i].addr == ptr - HEADER && list == Release(old(list), i))
      ensures old(Valid()) ==> Valid()
      ensures old(Valid()) && old(mem[ptr - HEADER].isFree) == 0 ==>
                exists i :: 0 <= i < |old(list)| && old(list)[i].addr == ptr - HEADER && !old(list)[i].free
                  && list == Release(old(list), i) && used == old(used) - old(list)[i].size
    {
      hide Chained, Rising, Good, Ahead, LiveListed, Merged, Release, Live;
      var head := ptr - HEADER;
      if mem[head].isFree == 0 {
        Magic(head);
        ghost var was := mem;
        if Valid() {
          LiveIsListed(mem, list, head);
        }
        ghost var listed := exists i :: 0 <= i < |list| && list[i].addr == head;
        ghost var i := 0;
        if listed {
          i :| 0 <= i < |list| && list[i].addr == head;
          FreedListed(i);
        }
        if mem[head].magic == HEAP_MAGIC {
          MergeFree(head);
          if listed {
            list := Release(list, i);
          } else {
            OtherChained(was, list, first, head, mem[head]);
          }
        }
      }
    }

    /** What freeing a block on the list does to the heap. */
    lemma FreedListed(i: nat)
      requires Walkable() && i < |list| && list[i].addr in mem && mem[list[i].addr].isFree == 0
      ensures !list[i].free
      ensures var after, r := mem[list[i].addr := Merged(mem, list[i].addr)], Release(list, i);
              && Chained(after, r, first) && Rising(r)
              && (Valid() ==>
                    && Good(r, first, size) && LiveListed(after, r)
                    && var u := (used - mem[list[i].addr].size) % WORD_RANGE;
                       u == used - list[i].size == HEADER * (1 + allocs) + Live(r))
    {
      hide Chained, Rising, Good, Ahead, LiveListed, Merged, Release, Live;
      LiveAt(mem, list, first, i);
      ReleaseChained(mem, list, first, i);
      if Valid() {
        SoundRelease(mem, list, first, size, i);
        ListedUsed(mem, list, i, used);
      }
    }

    lemma Magic(head: nat)
      requires Walkable() && head in mem
      ensures mem[head].magic == HEAP_MAGIC
    {}

    lemma ListedUsed(was: map<nat, Header>, bs: seq<Block>, i: nat, u: word)
      requires i < |bs| && !bs[i].free && Linked(was, bs, i) && u == HEADER * (1 + allocs) + Live(bs)
      ensures u - was[bs[i].addr].size >= 0
      ensures (u - was[bs[i].addr].size) % WORD_RANGE == u - bs[i].size
      ensures Total(bs) < WORD_RANGE ==> u - bs[i].size == HEADER * (1 + allocs) + Live(Release(bs, i))
    {
      hide Live, Total, Release;
      LiveBound(bs, i);
      WrapNothing(u - bs[i].size);
      if Total(bs) < WORD_RANGE {
        ReleaseTotal(bs, i);
      }
    }

    /** The body of the release and its merge loop, in memory. */
    method MergeFree(head: nat)
      requires Ahead(mem) && head in mem && mem[head].isFree == 0
      modifies this`used, this`mem
      ensures Ahead(old(mem)) && mem == old(mem)[head := Merged(old(mem), head)] && Ahead(mem)
      ensures used == (old(used) - old(mem[head].size)) % WORD_RANGE
    {
      hide RunBytes, RunEnd, Later, Ahead;
      ghost var was, s := mem, mem[head].size;
      NextIn(was, head);
      mem := mem[head := mem[head].(isFree := 1)];
      used := (used - mem[head].size) % WORD_RANGE;
      var app := mem[head].next;
      WrapNothing(s);
      while app != 0 && mem[app].isFree == 1
        modifies this`mem
        invariant app == 0 || (app > head && app in was)
        invariant head in mem && mem == was[head := Header(HEAP_MAGIC, mem[head].size, 1, app)]
        invariant (mem[head].size + RunBytes(was, app)) % WORD_RANGE == Merged(was, head).size
        invariant RunEnd(was, app) == Merged(was, head).next
        decreases Later(was, app)
      {
        Fewer(was, app);
        RunStep(was, app);
        NextIn(was, app);
        WrapMore(mem[head].size, mem[app].size + HEADER, RunBytes(was, mem[app].next));
        mem := mem[head := mem[head].(size := (mem[head].size + mem[app].size + HEADER) % WORD_RANGE)];
        mem := mem[head := mem[head].(next := mem[app].next)];
        app := mem[app].next;
      }
      RunStop(was, app);
      WrapNothing(mem[head].size);
      StillAhead(was, head, mem[head]);
    }
  }

  lemma NextIn(mem: map<nat, Header>, a: nat)
    requires Ahead(mem) && a in mem
    ensures a > 0 && mem[a].magic == HEAP_MAGIC
    ensures mem[a].next == 0 || (mem[a].next > a && mem[a].next in mem)
  {}

  lemma StillAhead(mem: map<nat, Header>, a: nat, h: Header)
    requires Ahead(mem) && a in mem && h.magic == HEAP_MAGIC && (h.next == 0 || (h.next > a && h.next in mem))
    ensures Ahead(mem[a := h])
  {}

  lemma RunStep(mem: map<nat, Header>, a: nat)
    requires Ahead(mem) && a in mem && mem[a].isFree == 1
    ensures mem[a].next == 0 || mem[a].next in mem
    ensures RunBytes(mem, a) == mem[a].size + HEADER + RunBytes(mem, mem[a].next) && RunEnd(mem, a) == RunEnd(mem, mem[a].next)
  {}

  lemma RunStop(mem: map<nat, Header>, a: nat)
    requires Ahead(mem) && (a == 0 || (a in mem && mem[a].isFree != 1))
    ensures RunBytes(mem, a) == 0 && RunEnd(mem, a) == a
  {}

  lemma WrapNothing(s: word)
    ensures s % WORD_RANGE == s
  {}

  lemma WrapMore(s: int, a: int, b: int)
    ensures ((s + a) % WORD_RANGE + b) % WORD_RANGE == (s + (a + b)) % WORD_RANGE
  {}

  lemma FirstIsLeast(bs: seq<Block>, k: nat)
    requires Rising(bs) && k < |bs|
    ensures forall i :: k <= i < |bs| ==> bs[i].addr >= bs[k].addr
  {}

  lemma LiveIsListed(mem: map<nat, Header>, bs: seq<Block>, a: nat)
    requires LiveListed(mem, bs) && a in mem && mem[a].isFree == 0
    ensures exists i :: 0 <= i < |bs| && bs[i].addr == a
  {}

  lemma LiveAt(mem: map<nat, Header>, bs: seq<Block>, first: nat, i: nat)
    requires Chained(mem, bs, first) && i < |bs| && bs[i].addr in mem && mem[bs[i].addr].isFree == 0
    ensures !bs[i].free && Linked(mem, bs, i)
  {
    assert Linked(mem, bs, i);
  }

  /** Following `next` in memory from the k-th block is going along the list. */
  lemma {:induction false} RunIsFreeRun(mem: map<nat, Header>, bs: seq<Block>, first: nat, k: nat)
    requires Chained(mem, bs, first) && Ahead(mem) && k <= |bs|
    ensures var a := if k < |bs| then bs[k].addr else 0;
            && (a == 0 || a in mem)
            && RunBytes(mem, a) == Total(bs[k..FreeRun(bs, k)])
            && RunEnd(mem, a) == if FreeRun(bs, k) < |bs| then bs[FreeRun(bs, k)].addr else 0
    decreases |bs| - k
  {
    if k < |bs| {
      assert Linked(mem, bs, k);
      if bs[k].free {
        RunIsFreeRun(mem, bs, first, k + 1);
        var m := FreeRun(bs, k);
        assert m == FreeRun(bs, k + 1) && bs[k..m] == [] + [bs[k]] + bs[k + 1..m];
        TotalAround([], bs[k], bs[k + 1..m]);
      } else {
        assert bs[k..k] == [];
      }
    }
  }

  /** A header that is not on the list can be rewritten. */
  lemma OtherChained(mem: map<nat, Header>, bs: seq<Block>, first: nat, a: nat, h: Header)
    requires Chained(mem, bs, first) && forall i :: 0 <= i < |bs| ==> bs[i].addr != a
    ensures Chained(mem[a := h], bs, first)
  {
    var after := mem[a := h];
    forall i | 0 <= i < |bs| ensures Linked(after, bs, i) {
      assert Linked(mem, bs, i);
    }
  }

  lemma ReleaseChained(mem: map<nat, Header>, bs: seq<Block>, first: nat, i: nat)
    requires Chained(mem, bs, first) && Rising(bs) && Ahead(mem) && i < |bs| && !bs[i].free
    ensures bs[i].addr in mem
    ensures Chained(mem[bs[i].addr := Merged(mem, bs[i].addr)], Release(bs, i), first) && Rising(Release(bs, i))
  {
    hide FreeRun, Total, Release, Ahead, RunBytes, RunEnd;
    assert Linked(mem, bs, i);
    RunIsFreeRun(mem, bs, first, i + 1);
    var k, r := FreeRun(bs, i + 1), Release(bs, i);
    var after := mem[bs[i].addr := Merged(mem, bs[i].addr)];
    ReleaseAt(bs, i, 0);
    forall j | 0 <= j < |r| ensures Linked(after, r, j) {
      ReleaseAt(bs, i, j);
      if j != i {
        var j' := if j < i then j else j - i - 1 + k;
        assert Linked(mem, bs, j') && bs[j'].addr != bs[i].addr;
      }
    }
    forall x, y | 0 <= x < y < |r| ensures r[x].addr < r[y].addr {
      ReleaseAt(bs, i, x);
      ReleaseAt(bs, i, y);
    }
  }

  lemma ReleaseAt(bs: seq<Block>, i: nat, j: nat)
    requires i < |bs|
    ensures var k, r := FreeRun(bs, i + 1), Release(bs, i);
            && |r| == i + 1 + |bs| - k && r[0].addr == bs[0].addr
            && r[i] == Block(bs[i].addr, (bs[i].size + Total(bs[i + 1..k])) % WORD_RANGE, true)
            && NextOf(r, i) == (if k < |bs| then bs[k].addr else 0)
            && (j < i ==> r[j] == bs[j] && NextOf(r, j) == NextOf(bs, j))
            && (i < j < |r| ==> r[j] == bs[j - i - 1 + k] && NextOf(r, j) == NextOf(bs, j - i - 1 + k))
  {
    hide Total;
  }

  /** A release of a sound heap leaves it sound. */
  lemma SoundRelease(mem: map<nat, Header>, bs: seq<Block>, first: nat, size: nat, i: nat)
    requires Chained(mem, bs, first) && Good(bs, first, size) && LiveListed(mem, bs) && Ahead(mem)
    requires i < |bs| && !bs[i].free && bs[i].addr in mem
    ensures Good(Release(bs, i), first, size) && Total(bs) < WORD_RANGE
    ensures LiveListed(mem[bs[i].addr := Merged(mem, bs[i].addr)], Release(bs, i))
  {
    ReleaseGood(bs, first, size, i);
    ReleaseListed(mem, bs, first, i, Merged(mem, bs[i].addr));
  }

  lemma ReleaseListed(mem: map<nat, Header>, bs: seq<Block>, start: nat, i: nat, h: Header)
    requires Chained(mem, bs, start) && LiveListed(mem, bs) && i < |bs| && h.isFree == 1
    ensures LiveListed(mem[bs[i].addr := h], Release(bs, i))
  {
    hide FreeRun, Release, Linked;
    var after, r := mem[bs[i].addr := h], Release(bs, i);
    forall a | a in after && after[a].isFree == 0 ensures exists j :: 0 <= j < |r| && r[j].addr == a {
      var j :| 0 <= j < |bs| && bs[j].addr == a;
      NotInRun(mem, bs, i, j);
      var j' := if j < i then j else j - FreeRun(bs, i + 1) + i + 1;
      ReleaseAt(bs, i, j');
      assert r[j'].addr == a;
    }
  }

  lemma NotInRun(mem: map<nat, Header>, bs: seq<Block>, i: nat, j: nat)
    requires j < |bs| && i < |bs| && Linked(mem, bs, j) && mem[bs[j].addr].isFree == 0 && bs[j].addr != bs[i].addr
    ensures j < i || j >= FreeRun(bs, i + 1)
  {
    hide FreeRun;
  }

  lemma SplitChained(mem: map<nat, Header>, bs: seq<Block>, start: nat, len: word)
    requires Chained(mem, bs, start) && Rising(bs) && FirstFit(bs, len) < |bs|
    ensures var i := FirstFit(bs, len);
            var head := bs[i].addr;
            && head in mem && mem[head].size == bs[i].size
            && Chained(SplitMemory(mem, head, len), Split(bs, i, len), start) && Rising(Split(bs, i, len))
  {
    hide FirstFit;
    var i := FirstFit(bs, len);
    assert Linked(mem, bs, i);
    var after, s := SplitMemory(mem, bs[i].addr, len), Split(bs, i, len);
    forall j | 0 <= j < i ensures Linked(after, s, j) {
      assert Linked(mem, bs, j) && s[j] == bs[j] && NextOf(s, j) == NextOf(bs, j);
    }
    assert Linked(after, s, i) && Linked(after, s, i + 1);
  }

  lemma SplitAhead(mem: map<nat, Header>, head: nat, len: word)
    requires Ahead(mem) && head in mem
    ensures Ahead(SplitMemory(mem, head, len))
  {}

  lemma SplitListed(mem: map<nat, Header>, bs: seq<Block>, len: word)
    requires LiveListed(mem, bs) && CleanSplit(bs, len) && bs[FirstFit(bs, len)].addr in mem
    ensures LiveListed(SplitMemory(mem, bs[FirstFit(bs, len)].addr, len), Split(bs, FirstFit(bs, len), len))
  {
    var i := FirstFit(bs, len);
    var after, s := SplitMemory(mem, bs[i].addr, len), Split(bs, i, len);
    assert s[i].addr == bs[i].addr;
    forall a | a in after && after[a].isFree == 0 ensures exists j :: 0 <= j < |s| && s[j].addr == a {
      if a != bs[i].addr {
        var j :| 0 <= j < |bs| && bs[j].addr == a;
        assert s[j].addr == a;
      }
    }
  }

  lemma SplitLive(bs: seq<Block>, start: nat, size: nat, len: word)
    requires Good(bs, start, size) && FirstFit(bs, len) < |bs|
    ensures len <= size
    ensures CleanSplit(bs, len) ==> Live(Split(bs, FirstFit(bs, len), len)) == Live(bs) + len
  {
    var i := FirstFit(bs, len);
    SplitTotal(bs, i, len);
    assert CleanSplit(bs, len) ==> bs[i + 1..] == [];
  }

  lemma LiveBound(bs: seq<Block>, i: nat)
    requires i < |bs| && !bs[i].free
    ensures Live(bs) >= bs[i].size
  {
    assert bs == bs[..i] + [bs[i]] + bs[i + 1..];
    TotalAround(bs[..i], bs[i], bs[i + 1..]);
  }
}
