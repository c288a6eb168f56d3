/** The free lists of mm/kheap.c and mm/heap.c on values: what one allocation and one release do to the
    list of blocks, and what that means for the memory the blocks cover. */
module HeapModel {
  import opened Bits

  /** Size of heap_header_t; it sits in front of the block's `size` bytes. */
  const HEADER := 16

  datatype Block = Block(addr: nat, size: nat, free: bool)

  /** Bytes the blocks account for, headers included. */
  function Total(bs: seq<Block>): nat {
    if bs == [] then 0 else Total(bs[..|bs| - 1]) + bs[|bs| - 1].size + HEADER
  }

  function Live(bs: seq<Block>): nat {
    if bs == [] then 0
    else Live(bs[..|bs| - 1]) + if bs[|bs| - 1].free then 0 else bs[|bs| - 1].size
  }

  /** Splitting adds to a header pointer, so the next header is put HEADER times further away than
      the bytes between them. */
  function NextHeader(addr: nat, size: nat): nat {
    addr + HEADER * (size + HEADER)
  }

  /** first_free / umalloc: the first block that is free and large enough, or |bs|. */
  function FirstFit(bs: seq<Block>, len: nat): (i: nat)
    ensures i <= |bs|
    ensures i < |bs| ==> bs[i].free && bs[i].size >= len
    ensures forall j :: 0 <= j < i ==> !(bs[j].free && bs[j].size >= len)
  {
    if bs == [] || (bs[0].free && bs[0].size >= len) then 0 else 1 + FirstFit(bs[1..], len)
  }

  /** Splitting block i for len bytes.  The rest of the list is cut off, and what is left after the
      second header is computed in an unsigned word. */
  function Split(bs: seq<Block>, i: nat, len: nat): seq<Block>
    requires i < |bs|
  {
    bs[..i] + [Block(bs[i].addr, len, false)] +
    [Block(NextHeader(bs[i].addr, len), (bs[i].size - len - HEADER) % WORD_RANGE, true)]
  }

  /** The first block after i that is not free. */
  function FreeRun(bs: seq<Block>, i: nat): (k: nat)
    requires i <= |bs|
    ensures i <= k <= |bs|
    ensures forall j :: i <= j < k ==> bs[j].free
    ensures k < |bs| ==> !bs[k].free
    decreases |bs| - i
  {
    if i == |bs| || !bs[i].free then i else FreeRun(bs, i + 1)
  }

  /** kfree / ufree of block i: it swallows the free blocks that follow it.  Its size is a word. */
  function Release(bs: seq<Block>, i: nat): seq<Block>
    requires i < |bs|
  {
    var k := FreeRun(bs, i + 1);
    bs[..i] + [Block(bs[i].addr, (bs[i].size + Total(bs[i + 1..k])) % WORD_RANGE, true)] + bs[k..]
  }

  // ---------------------------------------------------------------- the invariant

  /** Headers are where splitting puts them, every byte is accounted for, and the last block is free. */
  ghost predicate Good(bs: seq<Block>, start: nat, size: nat) {
    && |bs| > 0 && bs[0].addr == start && bs[|bs| - 1].free
    && (forall i :: 0 <= i < |bs| - 1 ==> bs[i + 1].addr == NextHeader(bs[i].addr, bs[i].size))
    && Total(bs) == size < WORD_RANGE
  }

  /** What a caller of malloc can look at: the block that fits is the last one and has room for
      a second header. */
  predicate CleanSplit(bs: seq<Block>, len: nat) {
    var i := FirstFit(bs, len);
    i == |bs| - 1 && bs[i].size >= len + HEADER
  }

  lemma {:induction false} TotalSplit(a: seq<Block>, b: seq<Block>)
    ensures Total(a + b) == Total(a) + Total(b)
    ensures Live(a + b) == Live(a) + Live(b)
  {
    if b == [] {
      assert a + b == a;
    } else {
      assert (a + b)[..|a + b| - 1] == a + b[..|b| - 1];
      TotalSplit(a, b[..|b| - 1]);
    }
  }

  lemma TotalOne(b: Block)
    ensures Total([b]) == b.size + HEADER
    ensures Live([b]) == if b.free then 0 else b.size
  {
    assert [b][..0] == [];
  }

  lemma TotalAround(a: seq<Block>, b: Block, c: seq<Block>)
    ensures Total(a + [b] + c) == Total(a) + b.size + HEADER + Total(c)
    ensures Live(a + [b] + c) == Live(a) + (if b.free then 0 else b.size) + Live(c)
  {
    TotalSplit(a + [b], c);
    TotalSplit(a, [b]);
    TotalOne(b);
  }

  /** Each header is HEADER times as far from the start as the bytes before it. */
  lemma {:induction false} HeaderAt(bs: seq<Block>, start: nat, size: nat, i: nat)
    requires Good(bs, start, size) && i < |bs|
    ensures bs[i].addr == start + HEADER * Total(bs[..i])
  {
    if i > 0 {
      HeaderAt(bs, start, size, i - 1);
      assert bs[..i] == bs[..i - 1] + [bs[i - 1]];
      TotalSplit(bs[..i - 1], [bs[i - 1]]);
      TotalOne(bs[i - 1]);
    }
  }

  /** Headers and payloads of different blocks never overlap, and addresses strictly increase. */
  lemma Apart(bs: seq<Block>, start: nat, size: nat, i: nat, j: nat)
    requires Good(bs, start, size) && i < j < |bs|
    ensures bs[i].addr + HEADER + bs[i].size < bs[j].addr
  {
    HeaderAt(bs, start, size, i);
    HeaderAt(bs, start, size, j);
    assert bs[..j] == bs[..i] + [bs[i]] + bs[i + 1..j];
    TotalAround(bs[..i], bs[i], bs[i + 1..j]);
  }

  /** A block lies inside the heap exactly when HEADER times the bytes before it leaves it room. */
  lemma InsideHeap(bs: seq<Block>, start: nat, size: nat, i: nat)
    requires Good(bs, start, size) && i < |bs|
    ensures bs[i].addr + HEADER + bs[i].size <= start + size <==>
            (HEADER - 1) * Total(bs[..i]) <= Total(bs[i + 1..])
  {
    HeaderAt(bs, start, size, i);
    assert bs == bs[..i] + [bs[i]] + bs[i + 1..];
    TotalAround(bs[..i], bs[i], bs[i + 1..]);
  }

  // ---------------------------------------------------------------- the two operations

  lemma SplitTotal(bs: seq<Block>, i: nat, len: nat)
    requires i < |bs|
    ensures Total(Split(bs, i, len)) == Total(bs[..i]) + len + HEADER + (bs[i].size - len - HEADER) % WORD_RANGE + HEADER
    ensures Live(Split(bs, i, len)) == Live(bs[..i]) + len
    ensures Total(bs) == Total(bs[..i]) + bs[i].size + HEADER + Total(bs[i + 1..])
    ensures Live(bs) == Live(bs[..i]) + (if bs[i].free then 0 else bs[i].size) + Live(bs[i + 1..])
  {
    hide Total, Live;
    var s := Split(bs, i, len);
    TotalAround(bs[..i], s[i], [s[i + 1]]);
    TotalOne(s[i + 1]);
    assert bs == bs[..i] + [bs[i]] + bs[i + 1..];
    TotalAround(bs[..i], bs[i], bs[i + 1..]);
  }

  /** An allocation keeps the invariant exactly when the split is clean. */
  lemma SplitExact(bs: seq<Block>, start: nat, size: nat, len: nat)
    requires Good(bs, start, size) && FirstFit(bs, len) < |bs|
    ensures Good(Split(bs, FirstFit(bs, len), len), start, size) <==> CleanSplit(bs, len)
  {
    hide Total, Live, FirstFit;
    var i := FirstFit(bs, len);
    var s, rest := Split(bs, i, len), bs[i + 1..];
    SplitTotal(bs, i, len);
    Unsigned(bs[i].size - len - HEADER);
    TotalPositive(rest);
    assert forall j :: 0 <= j < i ==> s[j] == bs[j];
    assert s[i + 1].addr == NextHeader(s[i].addr, s[i].size);
  }

  lemma Unsigned(x: int)
    requires -WORD_RANGE <= x < WORD_RANGE
    ensures x % WORD_RANGE == if x >= 0 then x else x + WORD_RANGE
  {}

  lemma TotalPositive(bs: seq<Block>)
    ensures if bs == [] then Total(bs) == 0 else Total(bs) >= HEADER
  {}

  lemma {:induction false} ReleaseTotal(bs: seq<Block>, i: nat)
    requires i < |bs| && !bs[i].free && Total(bs) < WORD_RANGE
    ensures Total(Release(bs, i)) == Total(bs)
    ensures Live(Release(bs, i)) == Live(bs) - bs[i].size
  {
    hide Total, Live;
    var k := FreeRun(bs, i + 1);
    var run, merged := bs[i + 1..k], Release(bs, i)[i];
    assert bs == bs[..i] + [bs[i]] + (run + bs[k..]);
    TotalAround(bs[..i], bs[i], run + bs[k..]);
    TotalSplit(run, bs[k..]);
    assert merged.size == bs[i].size + Total(run);
    NoneLive(run);
    TotalAround(bs[..i], merged, bs[k..]);
  }

  lemma {:induction false} NoneLive(bs: seq<Block>)
    requires forall i :: 0 <= i < |bs| ==> bs[i].free
    ensures Live(bs) == 0
  {
    if bs != [] {
      NoneLive(bs[..|bs| - 1]);
    }
  }

  /** A release always keeps the invariant. */
  lemma ReleaseGood(bs: seq<Block>, start: nat, size: nat, i: nat)
    requires Good(bs, start, size) && i < |bs| && !bs[i].free
    ensures Good(Release(bs, i), start, size)
  {
    hide Total, Live, FreeRun;
    ReleaseTotal(bs, i);
    MergedSize(bs, start, size, i, FreeRun(bs, i + 1));
    var k, r := FreeRun(bs, i + 1), Release(bs, i);
    assert forall j :: 0 <= j < i ==> r[j] == bs[j];
    assert forall j :: i < j < |r| ==> r[j] == bs[j - i - 1 + k];
    if k < |bs| {
      NextAfterRun(bs, start, size, i, k);
    }
  }

  lemma MergedSize(bs: seq<Block>, start: nat, size: nat, i: nat, k: nat)
    requires Good(bs, start, size) && i < k <= |bs|
    ensures bs[i].size + Total(bs[i + 1..k]) < WORD_RANGE
  {
    assert bs == bs[..i] + [bs[i]] + (bs[i + 1..k] + bs[k..]);
    TotalAround(bs[..i], bs[i], bs[i + 1..k] + bs[k..]);
    TotalSplit(bs[i + 1..k], bs[k..]);
  }

  /** Where the header after a run of blocks is. */
  lemma NextAfterRun(bs: seq<Block>, start: nat, size: nat, i: nat, k: nat)
    requires Good(bs, start, size) && i < k < |bs|
    ensures bs[k].addr == NextHeader(bs[i].addr, bs[i].size + Total(bs[i + 1..k]))
  {
    HeaderAt(bs, start, size, i);
    HeaderAt(bs, start, size, k);
    assert bs[..k] == bs[..i] + [bs[i]] + bs[i + 1..k];
    TotalAround(bs[..i], bs[i], bs[i + 1..k]);
  }

  /** Releasing the block just allocated gives back the list as it was. */
  lemma ReleaseUndoesSplit(bs: seq<Block>, start: nat, size: nat, len: nat)
    requires Good(bs, start, size) && CleanSplit(bs, len)
    ensures Release(Split(bs, FirstFit(bs, len), len), FirstFit(bs, len)) == bs
  {
    var i := FirstFit(bs, len);
    var s := Split(bs, i, len);
    SplitParts(bs, i, len);
    Unsigned(bs[i].size - len - HEADER);
    MergedSize(bs, start, size, i, i + 1);
    hide Total, FirstFit, FreeRun, Split, Good;
    assert FreeRun(s, i + 1) == i + 2;
    TotalOne(s[i + 1]);
    assert bs[i + 1..i + 1] == [];
    assert bs == bs[..i] + [bs[i]];
    assert s[i].size + Total(s[i + 1..i + 2]) == bs[i].size < WORD_RANGE;
    Unsigned(bs[i].size);
    assert Release(s, i) == bs[..i] + [bs[i]] + [];
  }

  lemma SplitParts(bs: seq<Block>, i: nat, len: nat)
    requires i < |bs|
    ensures var s := Split(bs, i, len);
            && |s| == i + 2 && s[..i] == bs[..i] && s[i + 2..] == [] && s[i + 1..i + 2] == [s[i + 1]]
            && s[i] == Block(bs[i].addr, len, false)
            && s[i + 1] == Block(NextHeader(bs[i].addr, len), (bs[i].size - len - HEADER) % WORD_RANGE, true)
  {}

  /** The header a split writes behind its block meets the header or the payload of block b. */
  predicate Meets(head2: nat, b: Block) {
    head2 < b.addr + HEADER + b.size && b.addr < head2 + HEADER
  }

  /** An allocation writes over another block exactly when the block that fits has exactly the length
      asked for and is not the last: its second header then falls on the header that follows. */
  lemma OverwriteExact(bs: seq<Block>, start: nat, size: nat, len: nat)
    requires Good(bs, start, size) && FirstFit(bs, len) < |bs|
    ensures var i := FirstFit(bs, len);
            var head2 := Split(bs, i, len)[i + 1].addr;
            && ((exists j :: 0 <= j < |bs| && j != i && Meets(head2, bs[j])) <==> i + 1 < |bs| && bs[i].size == len)
            && ((exists j :: 0 <= j < |bs| && j != i && !bs[j].free && Meets(head2, bs[j])) <==>
                  i + 1 < |bs| && bs[i].size == len && !bs[i + 1].free)
  {
    hide Good, FirstFit;
    var i := FirstFit(bs, len);
    var head2 := NextHeader(bs[i].addr, len);
    assert Split(bs, i, len)[i + 1].addr == head2;
    forall j | 0 <= j < |bs| && j != i
      ensures Meets(head2, bs[j]) <==> j == i + 1 && bs[i].size == len
    {
      if j < i {
        Apart(bs, start, size, j, i);
      } else {
        HeaderFrom(bs, start, size, i, j);
      }
    }
    if i + 1 < |bs| && bs[i].size == len {
      assert Meets(head2, bs[i + 1]);
    }
  }

  /** The next header is where the block ends sixteenfold, and later ones are beyond it. */
  lemma HeaderFrom(bs: seq<Block>, start: nat, size: nat, i: nat, j: nat)
    requires Good(bs, start, size) && i < j < |bs|
    ensures bs[j].addr >= NextHeader(bs[i].addr, bs[i].size)
    ensures if j == i + 1 then bs[j].addr == NextHeader(bs[i].addr, bs[i].size)
            else bs[j].addr >= NextHeader(bs[i].addr, bs[i].size) + HEADER
  {
    if j > i + 1 {
      Apart(bs, start, size, i + 1, j);
    }
  }

  /** What a split that is not clean can do.  After malloc(32), malloc(32) and a free of the first, a
      third malloc(32) reuses it and writes its second header over the header of the second block,
      which is still live; the block is then free in the list, and of almost 4 GB. */
  lemma LiveHeaderOverwritten()
    ensures var bs := [Block(0x1000, 0x10000 - HEADER, true)];
            var two := Split(Split(bs, 0, 32), 1, 32);
            var reused := Release(two, 0);
            && Good(bs, 0x1000, 0x10000) && Good(two, 0x1000, 0x10000) && Good(reused, 0x1000, 0x10000)
            && FirstFit(bs, 32) == 0 && FirstFit(Split(bs, 0, 32), 32) == 1 && FirstFit(reused, 32) == 0
            && !reused[1].free && reused[1].addr == 0x1300
            && Split(reused, 0, 32)[1] == Block(reused[1].addr, 0xFFFF_FFF0, true)
  {
    var bs := [Block(0x1000, 0x10000 - HEADER, true)];
    TotalOne(bs[0]);
    var one := Split(bs, 0, 32);
    assert one == [Block(0x1000, 32, false), Block(0x1300, 65472, true)];
    SplitExact(bs, 0x1000, 0x10000, 32);
    var two := Split(one, 1, 32);
    SplitExact(one, 0x1000, 0x10000, 32);
    assert two == [Block(0x1000, 32, false), Block(0x1300, 32, false), Block(0x1600, 65424, true)];
    ReleaseGood(two, 0x1000, 0x10000, 0);
    assert FreeRun(two, 1) == 1;
    assert two[1..1] == [];
  }

  /** A heap of 64 KB in which the second block lies outside: after one malloc(8192) its header is
      128 KB behind the start. */
  lemma OutsideHeap()
    ensures var bs := Split([Block(0x1000, 0x10000 - HEADER, true)], 0, 0x2000);
            Good(bs, 0x1000, 0x10000) && bs[1].addr == 0x21100 > 0x1000 + 0x10000
  {
    var bs := [Block(0x1000, 0x10000 - HEADER, true)];
    TotalOne(bs[0]);
    assert FirstFit(bs, 0x2000) == 0;
    SplitExact(bs, 0x1000, 0x10000, 0x2000);
  }
}
