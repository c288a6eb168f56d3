/** mm/mm.c: the bitmap allocator of physical blocks. */
module PhysicalMemory {
  import opened Bits
  import opened Bitmap

  const BLOCKS_LEN := 4096
  const BITMAP_LEN := 0x8000
  const KERNEL_SPACE_END := 0x401000

  /** Blocks below KERNEL_SPACE_END, which pmm_deinit_reg reserves. */
  const RESERVED := 1025

  /** The memset of pmm_init is given the number of words as a number of bytes, so it reaches only
      a quarter of the map: the blocks of the first gigabyte. */
  const PRESET := 0x4_0000

  const BLOCKS := 0x10_0000

  /** The fields of a multiboot memory map entry that pmm_init reads. */
  datatype Region = Region(addrLow: word, lenLow: word, kind: word)

  /** The blocks pmm_init_reg walks over. */
  function First(r: Region): nat { r.addrLow / BLOCKS_LEN }
  function Count(r: Region): nat { r.lenLow / BLOCKS_LEN }

  ghost predicate Usable(rs: seq<Region>, k: nat) {
    exists i :: 0 <= i < |rs| && rs[i].kind == 1 && First(rs[i]) <= k < First(rs[i]) + Count(rs[i])
  }

  /** Blocks counted by pmm_init_reg, a block twice if two usable regions hold it. */
  ghost function Counted(rs: seq<Region>): nat {
    if rs == [] then 0
    else Counted(rs[..|rs| - 1]) + if rs[|rs| - 1].kind == 1 then Count(rs[|rs| - 1]) else 0
  }

  /** Unsigned subtraction sees equal changes to both sides cancel. */
  lemma DriftKept(u: int, n: int, d: int)
    ensures ((u + d) % WORD_RANGE - (n + d)) % WORD_RANGE == (u - n) % WORD_RANGE
    ensures ((u + d) % WORD_RANGE - n) % WORD_RANGE == ((u - n) % WORD_RANGE + d) % WORD_RANGE
  {}

  lemma AddressOf(p: int)
    requires -1 <= p < BLOCKS
    ensures BLOCKS_LEN * p % WORD_RANGE == if p == -1 then 0xFFFF_F000 else BLOCKS_LEN * p
    ensures p >= 0 ==> BLOCKS_LEN * p / BLOCKS_LEN == p && BLOCKS_LEN * p % BLOCKS_LEN == 0
  {}

  lemma StepCounted(u: int, d: int)
    ensures (u % WORD_RANGE + d) % WORD_RANGE == (u + d) % WORD_RANGE
  {}

  lemma DriftMoves(u: int, n: int, d: int)
    requires d == 1 || d == -1
    ensures ((u + d) % WORD_RANGE - n) % WORD_RANGE != (u - n) % WORD_RANGE
  {
    DriftKept(u, n, d);
    var x := (u - n) % WORD_RANGE;
    assert (x + d) % WORD_RANGE != x;
  }

  /** One call of the allocator, by what it does to the blocks that are taken. */
  datatype Call = Malloced(block: nat) | Refused | Freed(block: nat)

  ghost predicate Step(t: set<nat>, c: Call, limit: nat, t': set<nat>) {
    match c
    case Malloced(b) =>
      && RESERVED <= b < limit && b !in t && t' == t + {b}
      && forall k: nat :: k < b ==> k in t
    case Refused => t' == t && forall k: nat :: k < limit ==> k in t
    case Freed(b) => t' == if b < RESERVED then t else t - {b}
  }

  class Pmm {
    const map_: array<word>
    var usedBlocks: word
    var maxBlocks: nat
    var size: int

    /** The blocks whose bit is set. */
    ghost var taken: set<nat>

    ghost predicate Consistent()
      reads this, map_
    {
      && map_.Length == BITMAP_LEN
      && maxBlocks <= BLOCKS
      && (forall k :: k in taken ==> k < BLOCKS)
      && (forall k: nat :: k < BLOCKS ==> (k in taken <==> Used(map_, k)))
    }

    ghost predicate Valid()
      reads this, map_
    {
      && Consistent()
      && forall k: nat :: k < RESERVED ==> k in taken
    }

    /** The blocks pmm_first_free can return. */
    ghost function Limit(): nat
      reads this
    {
      32 * (maxBlocks / 32)
    }

    ghost predicate Exhausted()
      reads this
    {
      forall k: nat :: k < Limit() ==> k in taken
    }

    /** What used_blocks is off by, as unsigned words count. */
    ghost function Drift(): int
      reads this
    {
      (usedBlocks - |taken|) % WORD_RANGE
    }

    method Set(bit: nat)
      requires Consistent() && bit < BLOCKS
      modifies map_, this`taken
      ensures Consistent() && taken == old(taken) + {bit}
    {
      SetBit(map_, bit);
      taken := taken + {bit};
    }

    method Unset(bit: nat)
      requires Consistent() && bit < BLOCKS
      modifies map_, this`taken
      ensures Consistent() && taken == old(taken) - {bit}
    {
      UnsetBit(map_, bit);
      taken := taken - {bit};
    }

    /** pmm_init_reg */
    method InitReg(addr: word, size: word)
      requires Consistent() && addr / BLOCKS_LEN + size / BLOCKS_LEN <= BLOCKS
      modifies map_, this`taken, this`usedBlocks
      ensures Consistent()
      ensures usedBlocks == (old(usedBlocks) - size / BLOCKS_LEN) % WORD_RANGE
      ensures forall k: nat :: k in taken <==>
                k == 0 || (k in old(taken) && !(addr / BLOCKS_LEN <= k < addr / BLOCKS_LEN + size / BLOCKS_LEN))
    {
      var blocks, align := size / BLOCKS_LEN, addr / BLOCKS_LEN;
      for i := 0 to blocks
        invariant Consistent() && align == addr / BLOCKS_LEN + i
        invariant usedBlocks == (old(usedBlocks) - i) % WORD_RANGE
        invariant forall k: nat :: k in taken <==> k in old(taken) && !(addr / BLOCKS_LEN <= k < align)
      {
        Unset(align);
        align := align + 1;
        StepCounted(old(usedBlocks) - i, -1);
        usedBlocks := (usedBlocks - 1) % WORD_RANGE;
      }
      Set(0);
    }

    /** pmm_deinit_reg */
    method DeinitReg(addr: word, size: word)
      requires Consistent() && addr / BLOCKS_LEN + size / BLOCKS_LEN <= BLOCKS
      modifies map_, this`taken, this`usedBlocks
      ensures Consistent()
      ensures usedBlocks == (old(usedBlocks) + size / BLOCKS_LEN) % WORD_RANGE
      ensures forall k: nat :: k in taken <==>
                k in old(taken) || addr / BLOCKS_LEN <= k < addr / BLOCKS_LEN + size / BLOCKS_LEN
    {
      var blocks := size / BLOCKS_LEN;
      var align := if addr == 0 then 0 else addr / BLOCKS_LEN;
      for i := 0 to blocks
        invariant Consistent() && align == addr / BLOCKS_LEN + i
        invariant usedBlocks == (old(usedBlocks) + i) % WORD_RANGE
        invariant forall k: nat :: k in taken <==> k in old(taken) || addr / BLOCKS_LEN <= k < align
      {
        Set(align);
        align := align + 1;
        StepCounted(old(usedBlocks) + i, 1);
        usedBlocks := (usedBlocks + 1) % WORD_RANGE;
      }
    }

    /** pmm_init, for a memory map whose regions lie in the 4 GB the bitmap covers. */
    constructor (memSize: word, regions: seq<Region>)
      requires memSize / 4 <= BLOCKS
      requires forall r :: r in regions ==> First(r) + Count(r) <= BLOCKS
      ensures Valid() && fresh(map_)
      ensures maxBlocks == memSize / 4
      ensures usedBlocks == (memSize / 4 - Counted(regions) + 1025) % WORD_RANGE
      ensures size == (memSize / 4 - usedBlocks) % 0x1_0000_0000 * 4 % 0x1_0000_0000
      ensures forall k: nat :: k < 0x10_0000 ==>
                (k !in taken <==> 1025 <= k && (k >= 0x4_0000 || Usable(regions, k)))
    {
      hide Usable, Counted;
      maxBlocks, usedBlocks := memSize / 4, memSize / 4;
      map_ := new word[BITMAP_LEN](_ => 0);
      size := 0;
      taken := {};
      new;
      Preset();
      InitRegions(regions);
      StepCounted(memSize / 4 - Counted(regions), RESERVED);
      DeinitReg(0, KERNEL_SPACE_END);
      size := (maxBlocks - usedBlocks) % WORD_RANGE * 4 % WORD_RANGE;
    }

    /** The loop of pmm_init over the memory map. */
    method InitRegions(regions: seq<Region>)
      requires Consistent()
      requires forall r :: r in regions ==> First(r) + Count(r) <= BLOCKS
      modifies map_, this`taken, this`usedBlocks
      ensures Consistent()
      ensures usedBlocks == (old(usedBlocks) - Counted(regions)) % WORD_RANGE
      ensures forall k: nat :: k != 0 ==> (k in taken <==> k in old(taken) && !Usable(regions, k))
    {
      for i := 0 to |regions|
        invariant Consistent()
        invariant usedBlocks == (old(usedBlocks) - Counted(regions[..i])) % WORD_RANGE
        invariant forall k: nat :: k != 0 ==> (k in taken <==> k in old(taken) && !Usable(regions[..i], k))
      {
        hide Usable, Counted;
        var r := regions[i];
        UsableNext(regions, i);
        assert r in regions;
        if r.kind == 1 {
          InitReg(r.addrLow, r.lenLow);
        }
      }
      assert regions[..|regions|] == regions;
    }

    /** memset(pmm.map, BYTE_SET, BITMAP_LEN) writes BITMAP_LEN bytes. */
    method Preset()
      requires map_.Length == BITMAP_LEN && maxBlocks <= BLOCKS && forall i :: 0 <= i < map_.Length ==> map_[i] == 0
      modifies map_, this`taken
      ensures Consistent()
      ensures forall k: nat :: k in taken <==> k < PRESET
    {
      for i := 0 to BITMAP_LEN / 4
        invariant forall j :: 0 <= j < i ==> map_[j] == 0xFFFF_FFFF
        invariant forall j :: i <= j < map_.Length ==> map_[j] == 0
      {
        map_[i] := 0xFFFF_FFFF;
      }
      taken := set k: nat | k < BLOCKS && Used(map_, k);
      forall k: nat | k < BLOCKS ensures k in taken <==> k < PRESET {
        var w := map_[k / 32];
        if k < PRESET {
          assert w == 0xFFFF_FFFF;
          AllOnes(w);
          assert Used(map_, k);
        } else {
          assert w == 0;
          ZeroBit(k % 32);
          assert !Used(map_, k);
        }
      }
    }

    /** pmm_malloc.  When no block is free, pmm_first_free returns -1, which is not the 0 tested for:
        bit 31 of the first word is set again and the address -4096 is returned. */
    method Malloc() returns (addr: word)
      requires Valid()
      modifies map_, this`taken, this`usedBlocks
      ensures Valid()
      ensures usedBlocks == (old(usedBlocks) + 1) % WORD_RANGE
      ensures !old(Exhausted()) ==>
                && addr % BLOCKS_LEN == 0
                && 1025 <= addr / BLOCKS_LEN < Limit() == maxBlocks - maxBlocks % 32
                && addr / BLOCKS_LEN !in old(taken)
                && (forall k: nat :: k < addr / BLOCKS_LEN ==> k in old(taken))
                && taken == old(taken) + {addr / BLOCKS_LEN}
                && Drift() == old(Drift())
      ensures Step(old(taken), if old(Exhausted()) then Refused else Malloced(addr / BLOCKS_LEN), Limit(), taken)
      ensures old(Exhausted()) ==>
                && addr == 0xFFFF_F000
                && taken == old(taken)
                && Drift() == (old(Drift()) + 1) % WORD_RANGE
    {
      var p := FirstFree(map_, maxBlocks / 32);
      if p == 0 {
        assert false; // block 0 is reserved, so NULL is never returned
      }
      if p == -1 {
        Take(31);
      } else {
        Take(p);
      }
      AddressOf(p);
      addr := BLOCKS_LEN * p % WORD_RANGE;
    }

    /** pmm_set_bit(bit); pmm.used_blocks++; */
    method Take(bit: nat)
      requires Consistent() && bit < BLOCKS
      modifies map_, this`taken, this`usedBlocks
      ensures Consistent() && taken == old(taken) + {bit}
      ensures usedBlocks == (old(usedBlocks) + 1) % WORD_RANGE
      ensures Drift() == if bit in old(taken) then (old(Drift()) + 1) % WORD_RANGE else old(Drift())
    {
      Set(bit);
      DriftKept(usedBlocks, |old(taken)|, 1);
      usedBlocks := (usedBlocks + 1) % WORD_RANGE;
      assert bit in old(taken) ==> taken == old(taken);
    }

    /** pmm_free */
    method Free(addr: word)
      requires Valid()
      modifies map_, this`taken, this`usedBlocks
      ensures Valid()
      ensures Step(old(taken), Freed(addr / BLOCKS_LEN), Limit(), taken)
      ensures addr < KERNEL_SPACE_END ==> taken == old(taken) && usedBlocks == old(usedBlocks)
      ensures addr >= KERNEL_SPACE_END ==>
                && taken == old(taken) - {addr / BLOCKS_LEN}
                && usedBlocks == (old(usedBlocks) - 1) % WORD_RANGE
                && (Drift() == old(Drift()) <==> addr / BLOCKS_LEN in old(taken))
    {
      if addr < KERNEL_SPACE_END {
        return;
      }
      Unset(addr / BLOCKS_LEN);
      if addr / BLOCKS_LEN in old(taken) {
        DriftKept(usedBlocks, |old(taken)|, -1);
      } else {
        assert taken == old(taken);
        DriftMoves(usedBlocks, |taken|, -1);
      }
      usedBlocks := (usedBlocks - 1) % WORD_RANGE;
    }
  }

  lemma UsableNext(rs: seq<Region>, i: nat)
    requires i < |rs|
    ensures forall k: nat :: Usable(rs[..i + 1], k) <==>
              Usable(rs[..i], k) || (rs[i].kind == 1 && First(rs[i]) <= k < First(rs[i]) + Count(rs[i]))
    ensures Counted(rs[..i + 1]) == Counted(rs[..i]) + if rs[i].kind == 1 then Count(rs[i]) else 0
  {
    var a, b := rs[..i], rs[..i + 1];
    assert b == a + [rs[i]];
    assert b[..|b| - 1] == a;
    forall k: nat ensures Usable(b, k) <==> Usable(a, k) || (rs[i].kind == 1 && First(rs[i]) <= k < First(rs[i]) + Count(rs[i])) {
      if Usable(a, k) {
        var j :| 0 <= j < |a| && a[j].kind == 1 && First(a[j]) <= k < First(a[j]) + Count(a[j]);
        assert b[j] == a[j];
      }
    }
  }

  /** The blocks of a memory map, by its entries: those of the pages that a region of kind 1 covers,
      from the page its start is on, as many as its length holds. */
  lemma UsableIs(rs: seq<Region>, k: nat)
    ensures Usable(rs, k) <==>
              exists r :: r in rs && r.kind == 1 && r.addrLow / 4096 <= k < r.addrLow / 4096 + r.lenLow / 4096
    ensures Counted([]) == 0
    ensures forall r: Region :: Counted(rs + [r]) == Counted(rs) + if r.kind == 1 then r.lenLow / 4096 else 0
  {
    forall r: Region ensures Counted(rs + [r]) == Counted(rs) + if r.kind == 1 then r.lenLow / 4096 else 0 {
      assert (rs + [r])[..|rs|] == rs;
    }
    if r :| r in rs && r.kind == 1 && r.addrLow / 4096 <= k < r.addrLow / 4096 + r.lenLow / 4096 {
      var i :| 0 <= i < |rs| && rs[i] == r;
      assert First(rs[i]) <= k;
    }
  }

  // ---------------------------------------------------------------- runs

  ghost predicate Run(states: seq<set<nat>>, calls: seq<Call>, limit: nat) {
    && |states| == |calls| + 1
    && (forall k: nat :: k < RESERVED ==> k in states[0])
    && forall i :: 0 <= i < |calls| ==> Step(states[i], calls[i], limit, states[i + 1])
  }

  lemma {:induction false} ReservedThroughout(states: seq<set<nat>>, calls: seq<Call>, limit: nat, i: nat)
    requires Run(states, calls, limit) && i < |states|
    ensures forall k: nat :: k < RESERVED ==> k in states[i]
  {
    if i > 0 {
      ReservedThroughout(states, calls, limit, i - 1);
      assert Step(states[i - 1], calls[i - 1], limit, states[i]);
    }
  }

  /** A block stays taken until it is freed. */
  lemma {:induction false} TakenUntilFreed(states: seq<set<nat>>, calls: seq<Call>, limit: nat, b: nat, i: nat, j: nat)
    requires Run(states, calls, limit) && i <= j < |states| && b in states[i]
    requires forall k :: i <= k < j ==> calls[k] != Freed(b)
    ensures b in states[j]
  {
    if i < j {
      TakenUntilFreed(states, calls, limit, b, i, j - 1);
      assert Step(states[j - 1], calls[j - 1], limit, states[j]);
    }
  }

  /** No block is handed out twice without being freed in between, whatever is refused on the way. */
  lemma NeverTwice(states: seq<set<nat>>, calls: seq<Call>, limit: nat, i: nat, j: nat)
    requires Run(states, calls, limit) && i < j < |calls|
    requires calls[i].Malloced? && calls[j] == calls[i]
    ensures exists k :: i < k < j && calls[k] == Freed(calls[i].block)
  {
    var b := calls[i].block;
    assert Step(states[i], calls[i], limit, states[i + 1]) && Step(states[j], calls[j], limit, states[j + 1]);
    if forall k :: i + 1 <= k < j ==> calls[k] != Freed(b) {
      TakenUntilFreed(states, calls, limit, b, i + 1, j);
    }
  }
}
