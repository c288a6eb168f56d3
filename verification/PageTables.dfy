/** mm/vmm.c and mm/paging.c: two-level page tables (Intel SDM volume 3A, section 4.3) in a pool of
    512 pages.  The first 4 MB are identity mapped, so the kernel reads and writes directories and
    tables directly: `ram` is that memory, 1024 pages of 1024 words, and a pointer to a page-aligned
    table is its page number. */
module PageTables {
  import opened Bits
  import opened Bitmap
  import PhysicalMemory

  const PAGE_SIZE := 4096
  const ENTRIES := 1024
  const MAX_BLOCKS := 512
  const PAGES := 0x10_0000

  /** Page number of PAGE_START. */
  const POOL := 512

  const PAGE_PRESENT := 1
  const PAGE_RW := 2
  const PAGE_USER := 4
  const RETURN_ADDR := 0x400000

  /** virt >> 22 */
  function DirIndex(virt: word): (i: nat)
    ensures i < ENTRIES
  {
    virt / 0x40_0000
  }

  /** virt << 10 >> 10 >> 12 */
  function TableIndex(virt: word): nat {
    Shl(virt, 10) / 1024 / 4096
  }

  /** The page a virtual address is on. */
  function PageOf(virt: word): (p: nat)
    ensures p < PAGES
  {
    virt / PAGE_SIZE
  }

  /** The page number of (entry & ~0xFFF). */
  function TableOf(entry: word): nat {
    AndNot(entry, 0xFFF) / PAGE_SIZE
  }

  /** The two indices are the high and low half of the page number. */
  lemma Indices(virt: word)
    ensures DirIndex(virt) == PageOf(virt) / ENTRIES
    ensures TableIndex(virt) == PageOf(virt) % ENTRIES
  {
    Pow2Values();
    ShlKeeps(virt / 0x40_0000, virt % 0x40_0000, 10, 1024);
  }

  lemma TableOfIs(entry: word)
    ensures TableOf(entry) == entry / PAGE_SIZE
  {
    Pow2Values();
    Masked(entry / PAGE_SIZE, entry % PAGE_SIZE, 12);
  }

  /** base | flags */
  lemma Combined(base: word, flags: word)
    requires base % PAGE_SIZE == 0 && flags < PAGE_SIZE
    ensures Or(base, flags) == base + flags < 0x1_0000_0000
    ensures Or(base, flags) / PAGE_SIZE == base / PAGE_SIZE
  {
    hide Or, Pow2;
    Pow2Values();
    OrAligned(base / PAGE_SIZE, flags, 12);
  }

  /** The word that maps a page to a frame. */
  function EntryOf(phys: word, flags: word): word
    requires phys % PAGE_SIZE == 0 && flags < PAGE_SIZE
  {
    phys + flags
  }

  lemma ReturnPage()
    ensures PageOf(RETURN_ADDR) == ENTRIES && DirIndex(RETURN_ADDR) == 1 && RETURN_ADDR % PAGE_SIZE == 0
  {}

  /** The address the clone loop is at in its i-th turn indexes directory slot i, although it steps by
      KERNEL_SPACE_END and not by the 4 MB a slot spans. */
  lemma CloneAddress(i: nat)
    requires i < ENTRIES
    ensures i * PhysicalMemory.KERNEL_SPACE_END < 0x1_0000_0000 && DirIndex(i * PhysicalMemory.KERNEL_SPACE_END) == i
  {}

  /** entry << 20 >> 20 */
  function FlagsOf(entry: word): word {
    Shl(entry, 20) / 0x10_0000
  }

  lemma {:induction false} FlagsOfIs(entry: word)
    ensures FlagsOf(entry) == entry % PAGE_SIZE
    ensures And(entry, PAGE_PRESENT) != 0 <==> entry % 2 == 1
  {
    Pow2Values();
    ShlKeeps(entry / 4096, entry % 4096, 20, 0x10_0000);
    AndPow2(entry, 0);
  }

  /** Directory entries among the first i with the present bit. */
  function CountPresent(row: seq<word>, i: nat): nat
    requires i <= |row|
  {
    if i == 0 then 0 else CountPresent(row, i - 1) + if row[i - 1] % 2 == 1 then 1 else 0
  }

  lemma {:induction false} CountPresentGrows(row: seq<word>, i: nat, j: nat)
    requires i <= j <= |row|
    ensures CountPresent(row, i) <= CountPresent(row, j)
  {
    if i < j {
      CountPresentGrows(row, i, j - 1);
    }
  }

  /** The first 4 MB identity mapped, and the page of RETURN_ADDR for user code to return to. */
  function KernelEntry(page: nat): word {
    if page < ENTRIES then page * PAGE_SIZE + (PAGE_PRESENT + PAGE_RW)
    else if page == ENTRIES then RETURN_ADDR + (PAGE_PRESENT + PAGE_RW + PAGE_USER)
    else 0
  }

  /** The entry of a page in address spaces given as one map; 0 when there is none. */
  ghost function At(flat: map<(nat, nat), word>, d: nat, page: nat): word {
    if (d, page) in flat then flat[(d, page)] else 0
  }

  /** What the processor makes of a virtual page by its two entries: a page fault, or a page frame and what may
      be done with it, which takes both entries' permission. */
  datatype Translation = Fault | To(frame: nat, writable: bool, user: bool)

  ghost function Seen(dirEntry: word, entry: word): Translation {
    if dirEntry % 2 == 0 || entry % 2 == 0 then Fault
    else To(entry / 4096, dirEntry / 2 % 2 == 1 && entry / 2 % 2 == 1, dirEntry / 4 % 2 == 1 && entry / 4 % 2 == 1)
  }

  /** A directory entry of kern_dir as a new directory has it: only a present one is copied, with its flags. */
  ghost predicate SlotCopied(kernEntry: word, entry: word) {
    if kernEntry % 2 == 1 then entry != 0 && entry % PAGE_SIZE == kernEntry % PAGE_SIZE else entry == 0
  }

  /** Directory words that were not empty stay, and tables made since are in with flags of their own: 3 in
      kern_dir, present and writable, and 7 elsewhere, for users too. */
  ghost predicate Grown(was: map<(nat, nat), word>, now: map<(nat, nat), word>, kern: nat) {
    && was.Keys == now.Keys
    && forall k :: k in was ==>
         now[k] == was[k] || (was[k] == 0 && now[k] != 0 && now[k] % 4096 == if k.0 == kern then 3 else 7)
  }

  /** The same for the table of one slot, if there is one now. */
  ghost predicate MadeBy(was: map<(nat, nat), word>, now: map<(nat, nat), word>, d: nat, i: nat, flags: word, ok: bool) {
    && was.Keys == now.Keys && (d, i) in now && (ok <==> now[(d, i)] != 0)
    && forall k :: k in was ==> now[k] == was[k] || (k == (d, i) && was[k] == 0 && now[k] % PAGE_SIZE == flags)
  }

  lemma GrownTwice(a: map<(nat, nat), word>, b: map<(nat, nat), word>, c: map<(nat, nat), word>, kern: nat)
    requires Grown(a, b, kern) && Grown(b, c, kern)
    ensures Grown(a, c, kern)
  {}

  /** How many tables must be made to fill these directory slots. */
  ghost function Need(empty: set<(nat, nat)>, slots: set<(nat, nat)>): nat {
    |empty * slots|
  }

  /** Filling the slots succeeds exactly when the pool has the tables it needs, and then takes just
      those and leaves no slot of them empty. */
  ghost predicate Paid(ok: bool, left: nat, empty: set<(nat, nat)>, slots: set<(nat, nat)>, left': nat, empty': set<(nat, nat)>)
  {
    && (ok <==> left >= Need(empty, slots))
    && (ok ==> left' == left - Need(empty, slots) && empty' == empty - slots)
  }

  lemma SeenCopied(kernEntry: word, entry: word, e: word)
    requires SlotCopied(kernEntry, entry)
    ensures Seen(entry, if kernEntry % 2 == 1 then e else 0) == Seen(kernEntry, e)
  {
    var q, r := entry / PAGE_SIZE, kernEntry / PAGE_SIZE;
    assert entry == 4096 * q + entry % PAGE_SIZE && kernEntry == 4096 * r + kernEntry % PAGE_SIZE;
    LowBits3(q, entry % PAGE_SIZE);
    LowBits3(r, kernEntry % PAGE_SIZE);
  }

  lemma LowBits3(q: nat, low: nat)
    ensures (4096 * q + low) % 2 == low % 2
    ensures (4096 * q + low) / 2 % 2 == low / 2 % 2
    ensures (4096 * q + low) / 4 % 2 == low / 4 % 2
  {
    EvenMore(2048 * q, low);
    HalfMore(2048 * q, low);
    EvenMore(1024 * q, low / 2);
    QuarterMore(1024 * q, low);
    EvenMore(512 * q, low / 4);
  }

  lemma EvenMore(k: nat, x: nat)
    ensures (2 * k + x) % 2 == x % 2
  {}

  lemma HalfMore(k: nat, x: nat)
    ensures (2 * k + x) / 2 == k + x / 2
  {}

  lemma QuarterMore(k: nat, x: nat)
    ensures (4 * k + x) / 4 == k + x / 4
  {}

  lemma SeenNothing()
    ensures forall e: word :: Seen(e, 0) == Fault && Seen(0, e) == Fault
  {}

  lemma LowBitOf(entry: word)
    ensures entry % PAGE_SIZE % 2 == entry % 2
  {}

  lemma PaidOne(ok: bool, left: nat, empty: set<(nat, nat)>, slot: (nat, nat), left': nat, empty': set<(nat, nat)>)
    requires ok <==> slot !in empty || left > 0
    requires ok ==> left' == left - (if slot in empty then 1 else 0) && empty' == empty - {slot}
    ensures Paid(ok, left, empty, {slot}, left', empty')
  {
    assert empty * {slot} == if slot in empty then {slot} else {};
  }

  class Vmm {
    const ram: array2<word>
    const pool: array<word>
    const kern: nat
    var poolUsed: int

    /** The directories in use, and for each table in use the directory slot that points at it. */
    ghost var dirs: set<nat>
    ghost var tables: map<nat, (nat, nat)>

    /** The address spaces as one map from (directory, page) to the entry last written there. */
    ghost var flat: map<(nat, nat), word>

    ghost predicate InPool(page: nat)
      reads pool
    {
      POOL <= page < POOL + MAX_BLOCKS && Used(pool, page - POOL)
    }

    /** Every table in use is used by one slot of one directory, and pool pages in use are marked. */
    ghost predicate Tables()
      reads this`dirs, this`tables, ram, pool
    {
      && ram.Length0 == 1024 && ram.Length1 == ENTRIES && pool.Length == MAX_BLOCKS / 32
      && kern in dirs && kern < POOL
      && (forall d :: d in dirs ==> d == kern || InPool(d))
      && (forall t :: t in tables ==> InPool(t) && t !in dirs)
      && (forall d, i :: d in dirs && 0 <= i < ENTRIES && ram[d, i] != 0 ==>
            ram[d, i] / PAGE_SIZE in tables && tables[ram[d, i] / PAGE_SIZE] == (d, i))
    }

    /** The word the page tables hold for a page of an address space; 0 when there is none. */
    ghost function Entry(d: nat, page: nat): word
      requires Tables() && d in dirs && page < PAGES
      reads this`dirs, this`tables, ram, pool
    {
      var e := ram[d, page / ENTRIES];
      if e == 0 then 0 else ram[e / PAGE_SIZE, page % ENTRIES]
    }

    /** The processor's walk from a directory to a page, on the words in memory. */
    ghost function Translate(d: nat, page: nat): Translation
      reads ram
    {
      var e := Slot(d, page / 1024);
      if e % 2 == 0 then Fault else Seen(e, Slot(e / 4096, page % 1024))
    }

    /** Word i of a page of the memory that is modelled. */
    ghost function Slot(page: nat, i: nat): word
      reads ram
    {
      if page < ram.Length0 && i < ram.Length1 then ram[page, i] else 0
    }

    ghost function FreeTables(): set<nat>
      reads pool
    {
      set k: nat | k < MAX_BLOCKS && !Used(pool, k)
    }

    /** How many tables the pool has left. */
    ghost function PoolLeft(): nat
      reads pool
    {
      |FreeTables()|
    }

    /** Directory slots that have no table yet. */
    ghost function EmptySlots(): (r: set<(nat, nat)>)
      reads this`dirs, ram
      ensures forall d: nat, i: nat :: (d, i) in r <==> d in dirs && d < ram.Length0 && i < ram.Length1 && ram[d, i] == 0
    {
      set d: nat, i: nat | d in dirs && d < ram.Length0 && i < ram.Length1 && ram[d, i] == 0 :: (d, i)
    }

    /** The words of all directories in use. */
    ghost function Slots(): map<(nat, nat), word>
      reads this`dirs, ram
    {
      map d: nat, i: nat | d in dirs && d < ram.Length0 && i < ram.Length1 :: (d, i) := ram[d, i]
    }

    ghost function Flat(d: nat, page: nat): word
      reads this`flat
    {
      At(flat, d, page)
    }

    /** The tables hold exactly what the flat map says. */
    ghost predicate Valid()
      reads this`dirs, this`tables, this`flat, ram, pool
    {
      && Tables()
      && (forall k :: k in flat ==> k.0 in dirs && k.1 < PAGES)
      && forall d, p :: d in dirs && 0 <= p < PAGES ==> Entry(d, p) == Flat(d, p)
    }

    /** The walk agrees with the flat map, as far as the directory entries let it through. */
    lemma WalkIsFlat()
      requires Valid()
      ensures ram.Length0 == 1024 && ram.Length1 == ENTRIES && forall d :: d in dirs ==> d < 1024
      ensures forall d, p :: d in dirs && 0 <= p < PAGES ==> Translate(d, p) == Seen(ram[d, p / ENTRIES], Flat(d, p))
    {
      forall d, p | d in dirs && 0 <= p < PAGES ensures Translate(d, p) == Seen(ram[d, p / ENTRIES], Flat(d, p)) {
        assert Entry(d, p) == Flat(d, p);
      }
    }

    /** Every directory slot that has a table is present. */
    ghost predicate AllPresent(d: nat)
      reads ram
    {
      forall i: nat :: Slot(d, i) != 0 ==> Slot(d, i) % 2 == 1
    }

    /** With all slots present, a page faults exactly when its entry is not present, and otherwise leads to the
        frame the flat map has. */
    lemma FaultsExactly(d: nat, page: nat)
      requires Valid() && d in dirs && page < PAGES && AllPresent(d)
      ensures Translate(d, page) == Fault <==> Flat(d, page) % 2 == 0
      ensures Translate(d, page) != Fault ==> Translate(d, page).frame == Flat(d, page) / PAGE_SIZE
    {
      assert Entry(d, page) == Flat(d, page);
    }

    /** get_phys_addr */
    method GetPhysAddr(d: nat, virt: word) returns (phys: word)
      requires Valid() && d in dirs
      ensures phys == Flat(d, PageOf(virt)) / PAGE_SIZE * PAGE_SIZE
    {
      Indices(virt);
      assert Entry(d, PageOf(virt)) == Flat(d, PageOf(virt));
      if ram[d, DirIndex(virt)] == 0 {
        return 0;
      }
      TableOfIs(ram[d, DirIndex(virt)]);
      var entry := ram[TableOf(ram[d, DirIndex(virt)]), TableIndex(virt)];
      phys := entry / 4096 * 4096;
    }

    /** page_table_malloc: the page number, or 0 for NULL. */
    method PageTableMalloc() returns (page: nat)
      requires Tables()
      modifies pool, ram, this`poolUsed
      ensures Tables()
      ensures (page == 0 <==> old(PoolLeft()) == 0) && (page != 0 ==> 512 <= page < 1024)
      ensures PoolLeft() == if page == 0 then 0 else old(PoolLeft()) - 1
      ensures forall e, p :: e in dirs && 0 <= p < PAGES ==> Entry(e, p) == old(Entry(e, p))
      ensures page != 0 ==> InPool(page) && !old(InPool(page)) && page !in dirs && page !in tables
                            && (forall i :: 0 <= i < ENTRIES ==> ram[page, i] == 0)
      ensures forall p, i :: 0 <= p < 1024 && p != page && 0 <= i < ENTRIES ==> ram[p, i] == old(ram[p, i])
      ensures page == 0 ==> forall i :: 0 <= i < ENTRIES ==> ram[0, i] == old(ram[0, i])
      ensures poolUsed + PoolLeft() == old(poolUsed + PoolLeft())
    {
      var p := FirstFree(pool, MAX_BLOCKS / 32);
      if p == -1 {
        assert FreeTables() == {};
        return 0;
      }
      assert p in FreeTables();
      SetBit(pool, p);
      assert FreeTables() == old(FreeTables()) - {p};
      poolUsed := poolUsed + 1;
      page := POOL + p;
      for j := 0 to ENTRIES
        invariant forall i :: 0 <= i < j ==> ram[page, i] == 0
        invariant forall q, i :: 0 <= q < 1024 && q != page && 0 <= i < ENTRIES ==> ram[q, i] == old(ram[q, i])
        modifies ram
      {
        ram[page, j] := 0;
      }
      assert PoolLeft() == old(PoolLeft()) - 1;
    }
  
    /** vmm_create_page_table.  A table the slot had before is lost, and its pages are mapped no more. */
    method CreatePageTable(d: nat, virt: word, flags: word) returns (ok: bool)
      requires Tables() && d in dirs && flags < PAGE_SIZE
      modifies pool, ram, this`poolUsed, this`tables
      ensures Tables() && ok == (old(PoolLeft()) > 0)
      ensures PoolLeft() == if ok then old(PoolLeft()) - 1 else 0
      ensures forall e, p :: e in dirs && 0 <= p < PAGES ==>
                Entry(e, p) == if ok && e == d && p / ENTRIES == DirIndex(virt) then 0 else old(Entry(e, p))
      ensures forall e, i :: e in dirs && 0 <= i < ENTRIES && !(e == d && i == DirIndex(virt)) ==> ram[e, i] == old(ram[e, i])
      ensures if ok then ram[d, DirIndex(virt)] != 0 && ram[d, DirIndex(virt)] % PAGE_SIZE == flags
              else ram[d, DirIndex(virt)] == old(ram[d, DirIndex(virt)])
      ensures poolUsed + PoolLeft() == old(poolUsed + PoolLeft())
    {
      hide Or, PageOf;
      var page := PageTableMalloc();
      if page == 0 {
        return false;
      }
      Combined(page * PAGE_SIZE, flags);
      ram[d, DirIndex(virt)] := Or(page * PAGE_SIZE, flags);
      tables := tables[page := (d, DirIndex(virt))];
      ok := true;
    }

    /** The first if of vmm_map and vmm_map_phys. */
    method EnsureTable(d: nat, virt: word, flags: word) returns (ok: bool)
      requires Tables() && d in dirs && flags < PAGE_SIZE
      modifies pool, ram, this`poolUsed, this`tables
      ensures Tables()
      ensures ok <==> old(ram[d, DirIndex(virt)]) != 0 || old(PoolLeft()) > 0
      ensures PoolLeft() == old(PoolLeft()) - if ok && old(ram[d, DirIndex(virt)]) == 0 then 1 else 0
      ensures Paid(ok, old(PoolLeft()), old(EmptySlots()), {(d, DirIndex(virt))}, PoolLeft(), EmptySlots())
      ensures forall e, p :: e in dirs && 0 <= p < PAGES ==> Entry(e, p) == old(Entry(e, p))
      ensures ok <==> ram[d, DirIndex(virt)] != 0
      ensures ok && old(ram[d, DirIndex(virt)]) == 0 ==> ram[d, DirIndex(virt)] % PAGE_SIZE == flags
      ensures forall e, i :: e in dirs && 0 <= i < ENTRIES && !(e == d && i == DirIndex(virt) && old(ram[e, i]) == 0) ==>
                ram[e, i] == old(ram[e, i])
      ensures poolUsed + PoolLeft() == old(poolUsed + PoolLeft())
    {
      hide Tables, Entry, Paid, PoolLeft;
      Dimensions();
      ok := true;
      if ram[d, DirIndex(virt)] == 0 {
        EmptySlot(d, DirIndex(virt));
        ok := CreatePageTable(d, virt, flags);
      }
      if ok {
        assert EmptySlots() == old(EmptySlots()) - {(d, DirIndex(virt))};
      }
      PaidOne(ok, old(PoolLeft()), old(EmptySlots()), (d, DirIndex(virt)), PoolLeft(), EmptySlots());
    }

    /** The assignment to a page table entry that vmm_map, vmm_map_phys and the unmaps end with. */
    method SetEntry(d: nat, virt: word, value: word)
      requires Tables() && d in dirs && ram[d, DirIndex(virt)] != 0
      modifies ram
      ensures Tables() && EmptySlots() == old(EmptySlots()) && Slots() == old(Slots()) && PoolLeft() == old(PoolLeft())
      ensures forall e, p :: e in dirs && 0 <= p < PAGES ==>
                Entry(e, p) == if e == d && p == PageOf(virt) then value else old(Entry(e, p))
      ensures forall e, i :: e in dirs && 0 <= i < ENTRIES ==> ram[e, i] == old(ram[e, i])
    {
      Indices(virt);
      TableOfIs(ram[d, DirIndex(virt)]);
      ram[TableOf(ram[d, DirIndex(virt)]), TableIndex(virt)] := value;
    }
  
    ghost method Written(d: nat, page: nat, value: word)
      requires Tables() && d in dirs && page < PAGES
      requires forall k :: k in flat ==> k.0 in dirs && k.1 < PAGES
      requires forall e, p :: e in dirs && 0 <= p < PAGES ==>
                 Entry(e, p) == if e == d && p == page then value else Flat(e, p)
      modifies this`flat
      ensures Valid() && flat == old(flat)[(d, page) := value]
    {
      hide Tables;
      flat := flat[(d, page) := value];
    }

    /** vmm_map_phys.  A table made on the way is entered with the same flags as the page; the processor finds
        the page as far as both entries let it, and every other page where it was before. */
    method MapPhys(d: nat, virt: word, phys: word, flags: word) returns (ok: bool)
      requires Valid() && d in dirs && phys % PAGE_SIZE == 0 && flags < PAGE_SIZE
      modifies pool, ram, this`poolUsed, this`tables, this`flat
      ensures Valid()
      ensures ok <==> old(Slot(d, DirIndex(virt))) != 0 || old(PoolLeft()) > 0
      ensures PoolLeft() == old(PoolLeft()) - if ok && old(Slot(d, DirIndex(virt))) == 0 then 1 else 0
      ensures Paid(ok, old(PoolLeft()), old(EmptySlots()), {(d, DirIndex(virt))}, PoolLeft(), EmptySlots())
      ensures flat == if ok then old(flat)[(d, PageOf(virt)) := EntryOf(phys, flags)] else old(flat)
      ensures ok ==> Translate(d, PageOf(virt)) == Seen(Slot(d, DirIndex(virt)), Flat(d, PageOf(virt)))
      ensures forall e, p :: e in dirs && 0 <= p < PAGES && !(ok && e == d && p == PageOf(virt)) ==>
                Translate(e, p) == old(Translate(e, p))
      ensures forall e :: e in dirs && old(AllPresent(e)) && flags % 2 == 1 ==> AllPresent(e)
      ensures MadeBy(old(Slots()), Slots(), d, DirIndex(virt), flags, ok)
      ensures poolUsed + PoolLeft() == old(poolUsed + PoolLeft())
    {
      hide Valid, Paid, PoolLeft, EmptySlots, PageOf, Translate, Seen, AllPresent, Slots, MadeBy;
      KernInUse();
      WalkIsFlat();
      UnmappedSlots();
      Indices(virt);
      ok := MapEntry(d, virt, phys, flags);
      WalkIsFlat();
      SeenNothing();
      PresentStays(d, DirIndex(virt), flags);
      SlotsStay(d, DirIndex(virt), flags, ok);
    }

    twostate lemma PresentStays(new d: nat, new i: nat, new flags: word)
      requires old(Valid()) && Valid() && dirs == old(dirs) && d in dirs && i < ENTRIES
      requires forall e, j :: e in dirs && 0 <= j < ENTRIES && !(e == d && j == i && old(ram[e, j]) == 0) ==> ram[e, j] == old(ram[e, j])
      requires old(ram[d, i]) == 0 ==> ram[d, i] == 0 || ram[d, i] % PAGE_SIZE == flags
      ensures forall e :: e in dirs && old(AllPresent(e)) && flags % 2 == 1 ==> AllPresent(e)
    {
      LowBitOf(ram[d, i]);
      if flags % 2 == 1 {
        forall e | e in dirs && old(AllPresent(e)) ensures AllPresent(e) {
          forall j: nat | Slot(e, j) != 0 ensures Slot(e, j) % 2 == 1 {
            assert old(Slot(e, j)) != 0 ==> old(Slot(e, j)) % 2 == 1;
          }
        }
      }
    }

    twostate lemma SlotsStay(new d: nat, new i: nat, new flags: word, new ok: bool)
      requires ram.Length0 == 1024 && ram.Length1 == ENTRIES && (forall e :: e in dirs ==> e < 1024)
      requires dirs == old(dirs) && d in dirs && i < ENTRIES
      requires forall e, j :: e in dirs && 0 <= j < ENTRIES && !(e == d && j == i && old(ram[e, j]) == 0) ==> ram[e, j] == old(ram[e, j])
      requires (ok <==> ram[d, i] != 0) && (ok && old(ram[d, i]) == 0 ==> ram[d, i] % PAGE_SIZE == flags)
      ensures MadeBy(old(Slots()), Slots(), d, i, flags, ok)
    {}

    /** The same, by the words in memory. */
    method MapEntry(d: nat, virt: word, phys: word, flags: word) returns (ok: bool)
      requires Valid() && d in dirs && phys % PAGE_SIZE == 0 && flags < PAGE_SIZE
      modifies pool, ram, this`poolUsed, this`tables, this`flat
      ensures Valid()
      ensures ok <==> old(ram[d, DirIndex(virt)]) != 0 || old(PoolLeft()) > 0
      ensures PoolLeft() == old(PoolLeft()) - if ok && old(ram[d, DirIndex(virt)]) == 0 then 1 else 0
      ensures Paid(ok, old(PoolLeft()), old(EmptySlots()), {(d, DirIndex(virt))}, PoolLeft(), EmptySlots())
      ensures flat == if ok then old(flat)[(d, PageOf(virt)) := EntryOf(phys, flags)] else old(flat)
      ensures ok <==> ram[d, DirIndex(virt)] != 0
      ensures ok && old(ram[d, DirIndex(virt)]) == 0 ==> ram[d, DirIndex(virt)] % PAGE_SIZE == flags
      ensures forall e, i :: e in dirs && 0 <= i < ENTRIES && !(e == d && i == DirIndex(virt) && old(ram[e, i]) == 0) ==>
                ram[e, i] == old(ram[e, i])
      ensures poolUsed + PoolLeft() == old(poolUsed + PoolLeft())
    {
      hide Tables, Entry, Paid, PoolLeft, EmptySlots, Or, PageOf;
      ok := EnsureTable(d, virt, flags);
      if ok {
        Combined(phys, flags);
        SetEntry(d, virt, Or(phys, flags));
        Written(d, PageOf(virt), phys + flags);
      }
    }

    /** A slot without a table maps nothing. */
    lemma UnmappedSlots()
      requires Valid()
      ensures forall e, p :: e in dirs && 0 <= p < PAGES && ram[e, p / ENTRIES] == 0 ==> Flat(e, p) == 0
    {
      forall e, p | e in dirs && 0 <= p < PAGES && ram[e, p / ENTRIES] == 0 ensures Flat(e, p) == 0 {
        assert Entry(e, p) == Flat(e, p);
      }
    }

    /** The assignment of 0 in vmm_unmap and vmm_unmap_phys. */
    method ClearEntry(d: nat, virt: word)
      requires Valid() && d in dirs && ram.Length0 == 1024 && ram.Length1 == ENTRIES && ram[d, DirIndex(virt)] != 0
      modifies ram, this`flat
      ensures Valid() && EmptySlots() == old(EmptySlots()) && Slots() == old(Slots())
      ensures flat == old(flat)[(d, PageOf(virt)) := 0]
    {
      hide Tables, Entry, PoolLeft, EmptySlots, PageOf, Slots, At;
      SetEntry(d, virt, 0);
      Written(d, PageOf(virt), 0);
    }

    lemma NoTable(d: nat, virt: word)
      requires Valid() && d in dirs && ram[d, DirIndex(virt)] == 0
      ensures Flat(d, PageOf(virt)) == 0
    {
      Indices(virt);
      assert Entry(d, PageOf(virt)) == Flat(d, PageOf(virt));
    }

    /** vmm_unmap_phys */
    method UnmapPhys(d: nat, virt: word)
      requires Valid() && d in dirs
      modifies ram, this`flat
      ensures Valid() && EmptySlots() == old(EmptySlots()) && Slots() == old(Slots())
      ensures flat == old(flat) || flat == old(flat)[(d, PageOf(virt)) := 0]
      ensures forall e, p :: Flat(e, p) == if e == d && p == PageOf(virt) then 0 else old(Flat(e, p))
    {
      hide Tables, EmptySlots, PageOf;
      Dimensions();
      if ram[d, DirIndex(virt)] != 0 {
        ClearEntry(d, virt);
      } else {
        NoTable(d, virt);
      }
    }

    /** Two directory slots in use never share a table. */
    lemma TablesDistinct(d: nat, i: nat, e: nat, j: nat)
      requires Tables() && d in dirs && e in dirs && i < ENTRIES && j < ENTRIES
      requires ram[d, i] != 0 && ram[e, j] != 0 && ram[d, i] / PAGE_SIZE == ram[e, j] / PAGE_SIZE
      ensures d == e && i == j
    {
      assert tables[ram[d, i] / PAGE_SIZE] == tables[ram[e, j] / PAGE_SIZE];
    }

    /** memcpy of the page behind one kernel directory slot to the page behind the new one. */
    method CopyTable(d: nat, i: nat)
      requires Tables() && d in dirs && d != kern && i < ENTRIES && ram[d, i] != 0 && ram[kern, i] != 0
      modifies ram
      ensures Tables()
      ensures forall e, p :: e in dirs && 0 <= p < PAGES ==>
                Entry(e, p) == if e == d && p / ENTRIES == i then old(Entry(kern, p)) else old(Entry(e, p))
      ensures forall e, j :: e in dirs && 0 <= j < ENTRIES ==> ram[e, j] == old(ram[e, j])
    {
      var to, from := TableOf(ram[d, i]), TableOf(ram[kern, i]);
      TableOfIs(ram[d, i]);
      TableOfIs(ram[kern, i]);
      for j := 0 to ENTRIES
        invariant forall k :: 0 <= k < j ==> ram[to, k] == old(ram[from, k])
        invariant forall p, k :: 0 <= p < 1024 && 0 <= k < ENTRIES && p != to ==> ram[p, k] == old(ram[p, k])
        modifies ram
      {
        ram[to, j] := ram[from, j];
      }
    }

    ghost function KernDir(): (row: seq<word>)
      requires ram.Length0 == 1024 && ram.Length1 == ENTRIES && kern < POOL
      reads ram
      ensures |row| == ENTRIES && forall j :: 0 <= j < ENTRIES ==> row[j] == ram[kern, j]
    {
      seq(ENTRIES, j requires 0 <= j < ENTRIES reads ram => ram[kern, j])
    }

    /** The first i slots of the directory being made copy kern_dir; every other space is as the flat
        map has it. */
    ghost predicate ClonedUpTo(d: nat, i: nat)
      requires i <= ENTRIES
      reads this`dirs, this`tables, this`flat, ram, pool
    {
      && Tables() && d in dirs && d != kern
      && (forall k :: k in flat ==> k.0 in dirs && k.0 != d && k.1 < PAGES)
      && (forall e, p :: e in dirs && e != d && 0 <= p < PAGES ==> Entry(e, p) == Flat(e, p))
      && (forall j :: i <= j < ENTRIES ==> ram[d, j] == 0)
      && (forall j :: 0 <= j < i ==> SlotCopied(ram[kern, j], ram[d, j]))
      && forall p :: 0 <= p < PAGES && p / ENTRIES < i ==>
           Entry(d, p) == if ram[kern, p / ENTRIES] % 2 == 1 then Flat(kern, p) else 0
    }

    lemma Dimensions()
      requires Tables()
      ensures ram.Length0 == 1024 && ram.Length1 == ENTRIES && kern in dirs && kern < POOL
      ensures forall d :: d in dirs ==> d < 1024
    {}

    lemma KernInUse()
      requires Valid()
      ensures kern in dirs && kern < POOL
      ensures ram.Length0 == 1024 && ram.Length1 == ENTRIES && forall d :: d in dirs ==> d < 1024
    {}

    lemma EmptySlot(d: nat, i: nat)
      requires Tables() && d in dirs && i < ENTRIES
      ensures ram[d, i] == 0 ==> forall p :: 0 <= p < PAGES && p / ENTRIES == i ==> Entry(d, p) == 0
    {}

    /** The body of the clone loop's `if`. */
    method CopySlot(d: nat, i: nat, addr: word) returns (ok: bool)
      requires Tables() && d in dirs && d != kern
      requires i < ENTRIES && DirIndex(addr) == i && ram[d, i] == 0 && ram[kern, i] != 0
      modifies pool, ram, this`poolUsed, this`tables
      ensures Tables()
      ensures forall e, p :: e in dirs && 0 <= p < PAGES ==>
                Entry(e, p) == if ok && e == d && p / ENTRIES == i then old(Entry(kern, p)) else old(Entry(e, p))
      ensures forall e, j :: e in dirs && 0 <= j < ENTRIES && !(e == d && j == i && ok) ==> ram[e, j] == old(ram[e, j])
      ensures ok == (old(PoolLeft()) > 0) && PoolLeft() == if ok then old(PoolLeft()) - 1 else 0
      ensures ok ==> ram[d, i] != 0 && ram[d, i] % PAGE_SIZE == ram[kern, i] % PAGE_SIZE
      ensures poolUsed + PoolLeft() == old(poolUsed + PoolLeft())
    {
      hide Tables, Entry;
      Dimensions();
      FlagsOfIs(ram[kern, i]);
      ok := CreatePageTable(d, addr, FlagsOf(ram[kern, i]));
      if !ok {
        return;
      }
      CopyTable(d, i);
    }

    /** One turn of the clone loop. */
    method CloneSlot(d: nat, i: nat, addr: word) returns (ok: bool)
      requires i < ENTRIES && DirIndex(addr) == i && ClonedUpTo(d, i)
      modifies pool, ram, this`poolUsed, this`tables
      ensures ClonedUpTo(d, if ok then i + 1 else i)
      ensures forall e, j :: e in dirs && e != d && 0 <= j < ENTRIES ==> ram[e, j] == old(ram[e, j])
      ensures var need := if old(ram[kern, i]) % 2 == 1 then 1 else 0;
              ok == (old(PoolLeft()) >= need) && PoolLeft() == if ok then old(PoolLeft()) - need else 0
      ensures poolUsed + PoolLeft() == old(poolUsed + PoolLeft())
    {
      hide Tables, Entry;
      Dimensions();
      EmptySlot(d, i);
      FlagsOfIs(ram[kern, i]);
      if And(ram[kern, i], PAGE_PRESENT) != 0 {
        ok := CopySlot(d, i, addr);
      } else {
        ok := true;
      }
    }

    /** The directory given up on is not in use; its pool pages stay marked. */
    ghost method Forget(d: nat, i: nat)
      requires i <= ENTRIES && ClonedUpTo(d, i)
      modifies this`dirs, this`tables
      ensures Valid() && dirs == old(dirs) - {d}
    {
      tables := map t | t in tables && tables[t].0 != d :: tables[t];
      dirs := dirs - {d};
    }

    /** What a complete clone adds to the flat map. */
    ghost function CopyOf(d: nat): (m: map<(nat, nat), word>)
      requires ram.Length0 == 1024 && ram.Length1 == ENTRIES && kern < POOL
      reads ram, this`flat
      ensures forall e: nat, p: nat :: (e, p) in m <==> e == d && p < PAGES && ram[kern, p / ENTRIES] % 2 == 1
      ensures forall e: nat, p: nat :: (e, p) in m ==> m[(e, p)] == Flat(kern, p)
    {
      map p: nat | p < PAGES && ram[kern, p / ENTRIES] % 2 == 1 :: (d, p) := Flat(kern, p)
    }

    ghost method Adopt(d: nat)
      requires ClonedUpTo(d, ENTRIES)
      modifies this`flat
      ensures Valid()
      ensures forall e: nat, p: nat :: e != d ==> Flat(e, p) == old(Flat(e, p))
      ensures forall p: nat :: p < PAGES ==>
                Flat(d, p) == if ram[kern, p / ENTRIES] % 2 == 1 then old(Flat(kern, p)) else 0
      ensures forall j :: 0 <= j < ENTRIES ==> SlotCopied(ram[kern, j], ram[d, j])
    {
      hide Tables, CopyOf, Entry, SlotCopied;
      Dimensions();
      flat := flat + CopyOf(d);
      assert forall e: nat, p: nat :: e != d ==> Flat(e, p) == old(Flat(e, p));
    }

    /** create_address_space: the page number of the new directory, or 0 for NULL. */
    method CreateAddressSpace() returns (d: nat)
      requires Valid()
      modifies pool, ram, this`poolUsed, this`tables, this`flat, this`dirs
      ensures Valid()
      ensures d == 0 ==> dirs == old(dirs) && flat == old(flat)
      ensures d != 0 <==> old(PoolLeft()) > CountPresent(old(KernDir()), ENTRIES)
      ensures d != 0 ==> d !in old(dirs) && dirs == old(dirs) + {d}
      ensures forall e, p :: 0 <= p < PAGES && e != d ==> Flat(e, p) == old(Flat(e, p))
      ensures d != 0 ==> forall p :: 0 <= p < PAGES ==>
                Flat(d, p) == if old(ram[kern, p / ENTRIES]) % 2 == 1 then old(Flat(kern, p)) else 0
      ensures d != 0 ==> forall p :: 0 <= p < PAGES ==> Translate(d, p) == old(Translate(kern, p))
      ensures forall e, p :: e in old(dirs) && 0 <= p < PAGES ==> e in dirs && Translate(e, p) == old(Translate(e, p))
      ensures poolUsed + PoolLeft() == old(poolUsed + PoolLeft())
    {
      hide ClonedUpTo, Tables, PoolLeft, Entry, Translate, Walks;
      Dimensions();
      WalksValid();
      ghost var row := KernDir();
      var pdir := PageTableMalloc();
      if pdir == 0 {
        WalksValid();
        CloneSeen(0, false);
        return 0;
      }
      Begin(pdir);
      var addr: word := 0;
      var i := 0;
      while i < ENTRIES
        invariant 0 <= i <= ENTRIES && addr == i * PhysicalMemory.KERNEL_SPACE_END % 0x1_0000_0000
        invariant ClonedUpTo(pdir, i) && dirs == old(dirs) + {pdir} && flat == old(flat)
        invariant forall e, j :: e in old(dirs) && 0 <= j < ENTRIES ==> ram[e, j] == old(ram[e, j])
        invariant PoolLeft() == old(PoolLeft()) - 1 - CountPresent(row, i) && poolUsed + PoolLeft() == old(poolUsed + PoolLeft())
      {
        CloneAddress(i);
        var ok := CloneSlot(pdir, i, addr);
        if !ok {
          CountPresentGrows(row, i + 1, ENTRIES);
          Forget(pdir, i);
          WalksValid();
          CloneSeen(0, false);
          return 0;
        }
        i := i + 1;
        addr := (addr + PhysicalMemory.KERNEL_SPACE_END) % 0x1_0000_0000;
      }
      Adopt(pdir);
      d := pdir;
      WalksValid();
      CloneSeen(d, true);
    }

    /** The walk in every directory in use, by its first entry and the flat map. */
    ghost predicate Walks()
      reads this`dirs, this`flat, ram
    {
      forall d, p :: d in dirs && 0 <= p < PAGES ==> Translate(d, p) == Seen(Slot(d, p / ENTRIES), Flat(d, p))
    }

    lemma WalksValid()
      requires Valid()
      ensures Walks()
    {
      hide Translate, Seen;
      WalkIsFlat();
    }

    /** Where the words and the flat map stay, so does the walk; and a clone's is that of kern_dir. */
    twostate lemma CloneSeen(new d: nat, new ok: bool)
      requires ram.Length0 == 1024 && ram.Length1 == ENTRIES && kern in old(dirs) && old(dirs) <= dirs && forall e :: e in dirs ==> e < 1024
      requires old(Walks()) && Walks()
      requires forall e, j :: e in old(dirs) && 0 <= j < ENTRIES ==> ram[e, j] == old(ram[e, j])
      requires forall e, p :: e in old(dirs) && 0 <= p < PAGES ==> Flat(e, p) == old(Flat(e, p))
      requires ok ==> d in dirs && (forall j :: 0 <= j < ENTRIES ==> SlotCopied(ram[kern, j], ram[d, j])) &&
                      forall p :: 0 <= p < PAGES ==> Flat(d, p) == if ram[kern, p / ENTRIES] % 2 == 1 then Flat(kern, p) else 0
      ensures forall e, p :: e in old(dirs) && 0 <= p < PAGES ==> e in dirs && Translate(e, p) == old(Translate(e, p))
      ensures ok ==> forall p :: 0 <= p < PAGES ==> Translate(d, p) == old(Translate(kern, p))
    {
      hide Translate, Seen, SlotCopied, At;
      if ok {
        forall p | 0 <= p < PAGES ensures Translate(d, p) == old(Translate(kern, p)) {
          assert SlotCopied(ram[kern, p / ENTRIES], ram[d, p / ENTRIES]);
          SeenCopied(ram[kern, p / ENTRIES], ram[d, p / ENTRIES], Flat(kern, p));
        }
      }
    }

    /** A cleared page is a directory with no tables. */
    ghost method Begin(d: nat)
      requires Tables() && InPool(d) && d !in dirs && d !in tables
      requires forall i :: 0 <= i < ENTRIES ==> ram[d, i] == 0
      requires forall k :: k in flat ==> k.0 in dirs && k.1 < PAGES
      requires forall e, p :: e in dirs && 0 <= p < PAGES ==> Entry(e, p) == Flat(e, p)
      modifies this`dirs
      ensures ClonedUpTo(d, 0) && dirs == old(dirs) + {d}
    {
      dirs := dirs + {d};
    }
  
    /** The flat map once a slot's table has been replaced by an empty one. */
    ghost method DropSlot(d: nat, i: nat)
      requires Tables() && d in dirs && i < ENTRIES
      requires forall k :: k in flat ==> k.0 in dirs && k.1 < PAGES
      requires forall e, p :: e in dirs && 0 <= p < PAGES ==> Entry(e, p) == if e == d && p / ENTRIES == i then 0 else Flat(e, p)
      modifies this`flat
      ensures Valid()
      ensures forall e: nat, p: nat :: Flat(e, p) == if e == d && p / ENTRIES == i then 0 else old(Flat(e, p))
    {
      hide Tables, Entry;
      flat := map k | k in flat && !(k.0 == d && k.1 / ENTRIES == i) :: flat[k];
    }

    /** The part of map_kernel for RETURN_ADDR, whose table is always a new one. */
    method MapReturn(d: nat)
      requires Valid() && d in dirs
      modifies pool, ram, this`poolUsed, this`tables, this`flat
      ensures Valid()
      ensures forall e: nat, p: nat :: Flat(e, p) ==
                if old(PoolLeft()) > 0 && e == d && p / ENTRIES == 1 then KernelEntry(p) else old(Flat(e, p))
      ensures PoolLeft() == if old(PoolLeft()) > 0 then old(PoolLeft()) - 1 else 0
      ensures old(PoolLeft()) > 0 ==> ram[d, 1] != 0 && ram[d, 1] % PAGE_SIZE == PAGE_PRESENT + PAGE_RW + PAGE_USER
      ensures forall e, i :: e in dirs && 0 <= i < ENTRIES && !(e == d && i == 1) ==> ram[e, i] == old(ram[e, i])
      ensures poolUsed + PoolLeft() == old(poolUsed + PoolLeft())
    {
      hide Tables, Entry, PoolLeft, EmptySlots, Slots, PageOf, DirIndex, Or;
      Dimensions();
      ReturnPage();
      var ok := CreatePageTable(d, RETURN_ADDR, PAGE_PRESENT + PAGE_RW + PAGE_USER);
      if ok {
        DropSlot(d, 1);
        label dropped:
        Combined(RETURN_ADDR, PAGE_PRESENT + PAGE_RW + PAGE_USER);
        SetEntry(d, RETURN_ADDR, Or(RETURN_ADDR, PAGE_PRESENT + PAGE_RW + PAGE_USER));
        Written(d, ENTRIES, RETURN_ADDR + (PAGE_PRESENT + PAGE_RW + PAGE_USER));
        forall e: nat, p: nat
          ensures Flat(e, p) == if e == d && p / ENTRIES == 1 then KernelEntry(p) else old(Flat(e, p))
        {
          assert !(e == d && p == ENTRIES) ==> Flat(e, p) == old@dropped(Flat(e, p));
        }
      }
    }

    /** map_kernel, on any directory: the first 4 MB need a table if they have none, the page of RETURN_ADDR
        always gets a new one, and it stops where the pool has none left. */
    method MapKernel(d: nat)
      requires Valid() && d in dirs
      modifies pool, ram, this`poolUsed, this`tables, this`flat
      ensures Valid()
      ensures var need, left := if (d, 0) in old(EmptySlots()) then 1 else 0, old(PoolLeft());
              forall e: nat, p: nat :: Flat(e, p) ==
                if e == d && ((p / ENTRIES == 0 && left >= need) || (p / ENTRIES == 1 && left > need)) then KernelEntry(p)
                else old(Flat(e, p))
      ensures var need, left := if (d, 0) in old(EmptySlots()) then 1 else 0, old(PoolLeft());
              && (need == 1 && left >= need ==> ram[d, 0] != 0 && ram[d, 0] % PAGE_SIZE == PAGE_PRESENT + PAGE_RW)
              && (need == 0 ==> ram[d, 0] == old(ram[d, 0]))
              && (left > need ==> ram[d, 1] != 0 && ram[d, 1] % PAGE_SIZE == PAGE_PRESENT + PAGE_RW + PAGE_USER
                                  && PoolLeft() == left - need - 1)
      ensures forall e, i :: e in dirs && 0 <= i < ENTRIES && !(e == d && i < 2) ==> ram[e, i] == old(ram[e, i])
      ensures poolUsed + PoolLeft() == old(poolUsed + PoolLeft())
    {
      hide Tables, Entry, PoolLeft, Paid;
      Dimensions();
      ghost var need := if (d, 0) in EmptySlots() then 1 else 0;
      hide EmptySlots;
      var virt: word, phys: word := 0, 0;
      for i := 0 to ENTRIES
        invariant virt == phys == i * PAGE_SIZE
        invariant Valid() && d in dirs
        invariant i == 0 ==> (ram[d, 0] == 0 <==> need == 1) && PoolLeft() == old(PoolLeft())
        invariant i > 0 ==> ram[d, 0] != 0 && PoolLeft() == old(PoolLeft()) - need
        invariant poolUsed + PoolLeft() == old(poolUsed + PoolLeft())
        invariant i > 0 && need == 1 ==> ram[d, 0] % PAGE_SIZE == PAGE_PRESENT + PAGE_RW
        invariant need == 0 ==> ram[d, 0] == old(ram[d, 0])
        invariant forall e, j :: e in dirs && 0 <= j < ENTRIES && !(e == d && j < 2) ==> ram[e, j] == old(ram[e, j])
        invariant forall e: nat, p: nat :: Flat(e, p) == if e == d && p < i then KernelEntry(p) else old(Flat(e, p))
      {
        Dimensions();
        assert PageOf(virt) == i && DirIndex(virt) == 0;
        label before:
        var ok := MapEntry(d, virt, phys, PAGE_PRESENT + PAGE_RW);
        if !ok {
          return;
        }
        forall e: nat, p: nat
          ensures Flat(e, p) == if e == d && p < i + 1 then KernelEntry(p) else old(Flat(e, p))
        {
          assert Flat(e, p) == if e == d && p == i then KernelEntry(i) else old@before(Flat(e, p));
        }
        virt, phys := virt + PAGE_SIZE, phys + PAGE_SIZE;
      }
      MapReturn(d);
    }

    /** vmm_init on memory that starts as zeros: only the identity map and the return page exist.  The
        processor finds the first 4 MB at themselves, writable by the kernel only, and the return page,
        which user code may use. */
    constructor (kern: nat)
      requires kern < POOL
      ensures Valid() && dirs == {kern} && this.kern == kern && fresh(ram) && fresh(pool)
      ensures forall p: nat :: p < PAGES ==> Flat(kern, p) == KernelEntry(p)
      ensures forall p: nat :: p < PAGES ==>
                Translate(kern, p) == if p < 1024 then To(p, true, false) else if p == 1024 then To(p, true, true) else Fault
      ensures AllPresent(kern) && PoolLeft() == 510 && poolUsed == 2 && CountPresent(KernDir(), ENTRIES) == 2
    {
      this.kern, poolUsed := kern, 0;
      ram := new word[1024, ENTRIES]((i, j) => 0);
      pool := new word[MAX_BLOCKS / 32](_ => 0);
      dirs, tables, flat := {kern}, map[], map[];
      new;
      NothingUsed();
      hide Valid, PoolLeft, EmptySlots, Translate, KernDir, CountPresent;
      MapKernel(kern);
      Booted();
    }

    /** Before vmm_init's map_kernel all memory is zero. */
    lemma NothingUsed()
      requires ram.Length0 == 1024 && ram.Length1 == ENTRIES && pool.Length == MAX_BLOCKS / 32 && kern < POOL
      requires dirs == {kern} && tables == map[] && flat == map[]
      requires (forall d, i :: 0 <= d < 1024 && 0 <= i < ENTRIES ==> ram[d, i] == 0) && forall j :: 0 <= j < pool.Length ==> pool[j] == 0
      ensures Valid() && PoolLeft() == 512 && (kern, 0) in EmptySlots()
    {
      forall k: nat | k < MAX_BLOCKS ensures !Used(pool, k) {
        ZeroBit(k % 32);
      }
      FullPool();
    }

    /** What the processor sees after vmm_init. */
    lemma Booted()
      requires Valid() && forall p: nat :: p < PAGES ==> Flat(kern, p) == KernelEntry(p)
      requires ram.Length0 == 1024 && ram.Length1 == ENTRIES && kern < POOL
      requires ram[kern, 0] % PAGE_SIZE == 3 && ram[kern, 1] % PAGE_SIZE == 7
      requires forall i :: 2 <= i < ENTRIES ==> ram[kern, i] == 0
      ensures kern in dirs && AllPresent(kern) && CountPresent(KernDir(), ENTRIES) == 2
      ensures forall p: nat :: p < PAGES ==>
                Translate(kern, p) == if p < 1024 then To(p, true, false) else if p == 1024 then To(p, true, true) else Fault
    {
      Dimensions();
      WalkIsFlat();
      hide Tables, Entry, Translate, Seen, KernelEntry;
      forall p: nat | p < PAGES
        ensures Translate(kern, p) == if p < 1024 then To(p, true, false) else if p == 1024 then To(p, true, true) else Fault
      {
        KernelSeen(ram[kern, p / ENTRIES], p);
      }
      LowBitOf(ram[kern, 0]);
      LowBitOf(ram[kern, 1]);
      TwoPresent(KernDir(), ENTRIES);
    }

    lemma FullPool()
      requires pool.Length == MAX_BLOCKS / 32 && forall k: nat :: k < MAX_BLOCKS ==> !Used(pool, k)
      ensures PoolLeft() == 512
    {
      UpToAre(512);
      assert FreeTables() == UpTo(512);
    }
  }

  ghost function UpTo(n: nat): set<nat> {
    if n == 0 then {} else UpTo(n - 1) + {n - 1}
  }

  lemma {:induction false} UpToAre(n: nat)
    ensures |UpTo(n)| == n && forall k: nat :: k in UpTo(n) <==> k < n
  {
    if n > 0 {
      UpToAre(n - 1);
    }
  }

  lemma {:induction false} TwoPresent(row: seq<word>, i: nat)
    requires 2 <= i <= |row| && row[0] % 2 == 1 && row[1] % 2 == 1 && forall j :: 2 <= j < |row| ==> row[j] == 0
    ensures CountPresent(row, i) == 2
  {
    if i > 2 {
      TwoPresent(row, i - 1);
    } else {
      assert CountPresent(row, 1) == 1;
    }
  }

  /** The kernel's entries as the processor sees them. */
  lemma KernelSeen(dirEntry: word, p: nat)
    requires p < PAGES
    requires p < 1024 ==> dirEntry % PAGE_SIZE == 3
    requires p / ENTRIES == 1 ==> dirEntry % PAGE_SIZE == 7
    ensures Seen(dirEntry, KernelEntry(p)) == if p < 1024 then To(p, true, false) else if p == 1024 then To(p, true, true) else Fault
  {
    var q := dirEntry / PAGE_SIZE;
    assert dirEntry == 4096 * q + dirEntry % PAGE_SIZE;
    LowBits3(q, dirEntry % PAGE_SIZE);
    LowBits3(p, 3);
    LowBits3(p, 7);
  }

  /** The first address space after vmm_init: create_address_space succeeds, and the processor finds the first
      4 MB at themselves in the new space too. */
  method FirstSpace(kern: nat) returns (vmm: Vmm, d: nat)
    requires kern < POOL
    ensures fresh(vmm) && vmm.Valid() && d != kern && vmm.dirs == {kern, d}
    ensures forall e, p :: e in vmm.dirs && 0 <= p < PAGES ==>
              vmm.Translate(e, p) == if p < 1024 then To(p, true, false) else if p == 1024 then To(p, true, true) else Fault
  {
    vmm := new Vmm(kern);
    d := vmm.CreateAddressSpace();
  }
}
