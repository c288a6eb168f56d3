/** The directory operations of fs/fat.c on sectors: the root directory's fourteen, and the sectors of
    a subdirectory's clusters. */
module FatDirectory {
  import opened Bits
  import opened FatModel
  import opened FileNames
  import opened DirectoryModel
  import opened Fat

  const ROOT_SECTORS := 14

  function SlotAt(s: sector, j: nat): slot
    requires j < SLOTS
  {
    s[SLOT_SIZE * j..SLOT_SIZE * j + SLOT_SIZE]
  }

  lemma SlotBytes(s: sector, j: nat)
    requires j < SLOTS
    ensures SlotAt(s, j) == s[32 * j..32 * j + 32]
  {}

  /** All slots of some sectors, in order. */
  ghost function Slots(ss: seq<sector>): (r: seq<slot>)
    ensures |r| == SLOTS * |ss|
  {
    seq(SLOTS * |ss|, k requires 0 <= k < SLOTS * |ss| => SlotAt(ss[k / SLOTS], k % SLOTS))
  }

  lemma SlotsAt(ss: seq<sector>, i: nat, j: nat)
    requires i < |ss| && j < SLOTS
    ensures SLOTS * i + j < |Slots(ss)| && Slots(ss)[SLOTS * i + j] == SlotAt(ss[i], j)
  {
    hide SlotAt;
    assert (SLOTS * i + j) / SLOTS == i && (SLOTS * i + j) % SLOTS == j;
  }

  /** Writing back a sector with one slot changed changes that slot. */
  lemma SlotsWith(ss: seq<sector>, i: nat, j: nat, s: sector, e: slot)
    requires i < |ss| && j < SLOTS
    requires s[..SLOT_SIZE * j] == ss[i][..SLOT_SIZE * j] && SlotAt(s, j) == e
    requires s[SLOT_SIZE * j + SLOT_SIZE..] == ss[i][SLOT_SIZE * j + SLOT_SIZE..]
    ensures SLOTS * i + j < |Slots(ss)| && Slots(ss[i := s]) == Slots(ss)[SLOTS * i + j := e]
  {
    hide Slots;
    SlotsAt(ss, i, j);
    var a, b := Slots(ss[i := s]), Slots(ss)[SLOTS * i + j := e];
    forall k | 0 <= k < |a| ensures a[k] == b[k] {
      SlotsAt(ss[i := s], k / SLOTS, k % SLOTS);
      SlotsAt(ss, k / SLOTS, k % SLOTS);
      if k / SLOTS == i && k % SLOTS != j {
        OtherSlot(s, ss[i], j, k % SLOTS);
      }
    }
  }

  lemma OtherSlot(s: sector, t: sector, j: nat, k: nat)
    requires j < SLOTS && k < SLOTS && j != k
    requires s[..SLOT_SIZE * j] == t[..SLOT_SIZE * j]
    requires s[SLOT_SIZE * j + SLOT_SIZE..] == t[SLOT_SIZE * j + SLOT_SIZE..]
    ensures SlotAt(s, k) == SlotAt(t, k)
  {
    var a, b := SLOT_SIZE * j, SLOT_SIZE * j + SLOT_SIZE;
    if k < j {
      assert SlotAt(s, k) == s[..a][SLOT_SIZE * k..SLOT_SIZE * k + SLOT_SIZE];
      assert SlotAt(t, k) == t[..a][SLOT_SIZE * k..SLOT_SIZE * k + SLOT_SIZE];
    } else {
      SliceOfDrop(s, b, SLOT_SIZE * k, SLOT_SIZE * k + SLOT_SIZE);
      SliceOfDrop(t, b, SLOT_SIZE * k, SLOT_SIZE * k + SLOT_SIZE);
    }
  }

  lemma SliceOfDrop(s: seq<byte>, b: nat, x: nat, y: nat)
    requires b <= x <= y <= |s|
    ensures s[x..y] == s[b..][x - b..y - b]
  {}

  /** What fat_directory and fat_open_subdir tell about a name. */
  datatype Search = Missing | Present(directory: bool, firstCluster: nat, len: nat)

  function Describe(s: slot): (f: Search)
    ensures f != Missing
  {
    Present(Bit(s[11], 4), Word16(s[26..]), Word32(s[28..]))
  }

  /** A slot from the fields it has on disk, numbers with their low byte first. */
  function OnDisk(name: seq<byte>, attributes: byte, middle: seq<byte>, cluster: Entry16, size: word): slot
    requires |name| == 11 && |middle| == 14
  {
    name + [attributes] + middle + [cluster % 256, cluster / 256] +
    [size % 256, size / 256 % 256, size / 0x1_0000 % 256, size / 0x100_0000]
  }

  /** What is told of a slot is its directory bit, its first cluster and its size; its name is the first
      eleven bytes, and it is in use if the first of these is not 0. */
  lemma DescribeIs(name: seq<byte>, attributes: byte, middle: seq<byte>, cluster: Entry16, size: word)
    requires |name| == 11 && |middle| == 14
    ensures var s := OnDisk(name, attributes, middle, cluster, size);
            && Describe(s) == Present(attributes / 16 % 2 == 1, cluster, size)
            && Name(s) == name && (Live(s) <==> name[0] != 0)
  {
    hide Bit;
    var s := OnDisk(name, attributes, middle, cluster, size);
    FourthBit(attributes);
    WholeWord(size);
    assert s[26..][0] == cluster % 256 && s[26..][1] == cluster / 256;
    var t := s[28..];
    assert t[0] == size % 256 && t[1] == size / 256 % 256 && t[2..][0] == size / 0x1_0000 % 256 && t[2..][1] == size / 0x100_0000;
  }

  lemma FourthBit(w: byte)
    ensures Bit(w, 4) <==> w / 16 % 2 == 1
  {
    assert Bit(w, 4) == Bit(w / 2, 3) == Bit(w / 2 / 2, 2) == Bit(w / 2 / 2 / 2, 1) == Bit(w / 2 / 2 / 2 / 2, 0);
    assert w / 2 / 2 / 2 / 2 == w / 16;
  }

  /** Looking a name up in a directory. */
  function Find(slots: seq<slot>, d: seq<byte>): Search {
    if Lookup(slots, d) < |slots| then Describe(slots[Lookup(slots, d)]) else Missing
  }

  /** A file just made is empty, at cluster 0 and not a directory, whatever its slot held before. */
  lemma NewFile(slots: seq<slot>, d: seq<byte>)
    requires ValidName(d) && Touches(slots, d)
    ensures Find(Touched(slots, d), d) == Present(false, 0, 0)
  {
    hide Bit, Describe, Named, Name, Hole;
    var h := Hole(slots);
    NamedIs(slots[h], d);
    FirstIsLookup(Touched(slots, d), d, h);
    EmptyFile(slots[h], d);
  }

  lemma EmptyFile(s: slot, d: seq<byte>)
    requires ValidName(d)
    ensures Describe(Named(s, d)) == Present(false, 0, 0)
  {
    assert End(d) == NAME_LEN;
    var t := Named(s, d);
    assert t[11] == 0 && t[26..][0] == 0 && t[26..][1] == 0;
    assert t[28..][0] == 0 && t[28..][1] == 0 && t[28..][2..][0] == 0 && t[28..][2..][1] == 0;
    FourthBit(0);
  }

  lemma FirstIsLookup(slots: seq<slot>, d: seq<byte>, k: nat)
    requires k <= |slots| && (forall i :: 0 <= i < k ==> Name(slots[i]) != d)
    requires k < |slots| ==> Name(slots[k]) == d
    ensures Lookup(slots, d) == k
  {}

  /** The difference at the first place where two equally long pieces of memory differ, or 0. */
  function Compare(x: seq<byte>, y: seq<byte>): (r: int)
    requires |x| == |y|
    ensures r == 0 <==> x == y
  {
    if x == [] then 0
    else if x[0] != y[0] then (x[0] as int) - (y[0] as int)
    else
      assert x == [x[0]] + x[1..] && y == [y[0]] + y[1..];
      Compare(x[1..], y[1..])
  }

  /** The sign is that of the first difference, with bytes as unsigned numbers. */
  lemma {:induction false} CompareAt(x: seq<byte>, y: seq<byte>, k: nat)
    requires |x| == |y| && k < |x| && x[..k] == y[..k] && x[k] != y[k]
    ensures Compare(x, y) == x[k] as int - y[k] as int
  {
    if k > 0 {
      assert x[0] == x[..k][0] == y[..k][0] == y[0];
      assert x[1..][..k - 1] == x[..k][1..] == y[..k][1..] == y[1..][..k - 1];
      CompareAt(x[1..], y[1..], k - 1);
    }
  }

  /** strncmp, on memory from a[i] and b[j] on */
  method StrNCmp(a: array<byte>, i: nat, b: array<byte>, j: nat, len: nat) returns (r: int)
    requires i + len <= a.Length && j + len <= b.Length
    ensures r == Compare(a[i..i + len], b[j..j + len])
  {
    var k := 0;
    while k < len
      invariant 0 <= k <= len
      invariant Compare(a[i..i + len], b[j..j + len]) == Compare(a[i + k..i + len], b[j + k..j + len])
    {
      ghost var x, y := a[i + k..i + len], b[j + k..j + len];
      k := k + 1;
      if a[i + k - 1] != b[j + k - 1] {
        return (a[i + k - 1] as int) - (b[j + k - 1] as int);
      }
      assert x[1..] == a[i + k..i + len] && y[1..] == b[j + k..j + len];
    }
    return 0;
  }

  /** Comparing a name with the j-th slot of a buffer. */
  method Matches(dosFileName: array<byte>, buf: array<byte>, j: nat, ghost s: sector) returns (same: bool)
    requires j < SLOTS && buf[..] == s && dosFileName.Length == NAME_LEN + 1
    ensures same <==> Name(SlotAt(s, j)) == dosFileName[..NAME_LEN]
  {
    var r := StrNCmp(dosFileName, 0, buf, SLOT_SIZE * j, NAME_LEN);
    assert Name(SlotAt(s, j)) == buf[SLOT_SIZE * j..SLOT_SIZE * j + NAME_LEN];
    assert dosFileName[0..0 + NAME_LEN] == dosFileName[..NAME_LEN];
    same := r == 0;
  }

  lemma SlotByte(s: sector, j: nat, k: nat)
    requires j < SLOTS && k < SLOT_SIZE
    ensures SlotAt(s, j)[k] == s[SLOT_SIZE * j + k]
  {}

  /** The fields of a slot in a buffer that a search reports. */
  method ReadSlot(buf: array<byte>, j: nat, ghost s: sector) returns (r: Search)
    requires j < SLOTS && buf[..] == s
    ensures r == Describe(SlotAt(s, j))
  {
    var at := SLOT_SIZE * j;
    AndPow2(buf[at + 11], 4);
    Pow2Values();
    ghost var e := SlotAt(s, j);
    assert e[26..] == buf[at + 26..at + 32] && e[28..] == buf[at + 28..at + 32];
    r := Present(And(buf[at + 11], 0x10) != 0, Word16(buf[at + 26..at + 32]), Word32(buf[at + 28..at + 32]));
  }

  /** The root directory of a device, with the buffer its driver reads into and writes from. */
  class RootDirectory {
    var disk: seq<sector>
    const buffer: array<byte>
    const root: nat
    var offset: nat

    constructor (disk: seq<sector>, root: nat)
      requires root + ROOT_SECTORS <= |disk|
      ensures Valid() && fresh(buffer) && this.disk == disk && this.root == root && offset == 0
      ensures forall i :: 0 <= i < 512 ==> buffer[i] == 0
    {
      this.disk, this.root, offset := disk, root, 0;
      buffer := new byte[SECTOR_SIZE](_ => 0);
    }

    ghost predicate Valid()
      reads this`disk
    {
      root + ROOT_SECTORS <= |disk| && buffer.Length == SECTOR_SIZE
    }

    /** The slots of the root directory. */
    ghost function Dir(): (r: seq<slot>)
      requires Valid()
      reads this`disk
      ensures |r| == 224
    {
      Slots(disk[root..root + ROOT_SECTORS])
    }

    /** Sixteen slots of 32 bytes to a sector. */
    lemma DirAt(k: nat)
      requires Valid() && k < 224
      ensures root + k / 16 < |disk| && Dir()[k] == disk[root + k / 16][32 * (k % 16)..32 * (k % 16) + 32]
    {
      hide SlotAt;
      SlotsAt(disk[root..root + ROOT_SECTORS], k / 16, k % 16);
      assert SlotAt(disk[root + k / 16], k % 16) == disk[root + k / 16][32 * (k % 16)..32 * (k % 16) + 32] by {
        SlotBytes(disk[root + k / 16], k % 16);
      }
    }

    method Read(s: nat)
      requires Valid() && s < |disk|
      modifies buffer
      ensures buffer[..] == disk[s]
    {
      forall i | 0 <= i < SECTOR_SIZE {
        buffer[i] := disk[s][i];
      }
    }

    method Write(s: nat)
      requires Valid() && s < |disk|
      modifies this`disk
      ensures disk == old(disk)[s := buffer[..]]
    {
      disk := disk[s := buffer[..]];
    }

    /** fat_get_dir; the slot found is the j-th in the buffer. */
    method FatGetDir(name: CString) returns (found: bool, j: nat)
      requires Valid() && name.Valid()
      modifies buffer, this`offset
      ensures found <==> Lookup(Dir(), DosName(name)) < |Dir()|
      ensures found ==>
                && offset < ROOT_SECTORS && j < SLOTS && SLOTS * offset + j == Lookup(Dir(), DosName(name))
                && buffer[..] == disk[root + offset]
      ensures !found ==> offset == old(offset)
    {
      hide Lookup, DosName, Slots, SlotAt, Name;
      var dosFileName := new byte[NAME_LEN + 1];
      ToDosFileName(name, dosFileName);
      ghost var slots, d := Dir(), DosName(name);
      for i := 0 to ROOT_SECTORS
        invariant offset == old(offset)
        invariant forall k :: 0 <= k < SLOTS * i ==> Name(slots[k]) != d
        modifies buffer, this`offset
      {
        Read(root + i);
        j := 0;
        while j < SLOTS
          invariant j <= SLOTS && offset == old(offset)
          invariant forall k :: 0 <= k < SLOTS * i + j ==> Name(slots[k]) != d
          modifies this`offset
        {
          SlotsAt(disk[root..root + ROOT_SECTORS], i, j);
          var same := Matches(dosFileName, buffer, j, disk[root + i]);
          if same {
            offset := i;
            FirstIsLookup(slots, d, SLOTS * i + j);
            return true, j;
          }
          j := j + 1;
        }
      }
      FirstIsLookup(slots, d, |slots|);
      return false, 0;
    }

    /** fat_directory, which is also fat_search for a path in the root directory */
    method FatDirectory(name: CString) returns (f: Search)
      requires Valid() && name.Valid()
      modifies buffer, this`offset
      ensures f == Find(Dir(), DosName(name))
    {
      hide Lookup, DosName, Slots, Describe;
      var found, j := FatGetDir(name);
      if !found {
        return Missing;
      }
      f := ReadSlot(buffer, j, disk[root + offset]);
      SlotsAt(disk[root..root + ROOT_SECTORS], offset, j);
    }

    /** fat_touch */
    method FatTouch(name: CString) returns (r: int)
      requires Valid() && name.Valid()
      modifies buffer, this`offset, this`disk
      ensures Valid() && Dir() == Touched(old(Dir()), DosName(name))
      ensures r == if Touches(old(Dir()), DosName(name)) then 1 else 0
      ensures |disk| == |old(disk)| && disk[..root] == old(disk[..root])
      ensures disk[root + ROOT_SECTORS..] == old(disk[root + ROOT_SECTORS..])
    {
      hide Lookup, DosName, Slots, Hole, Named, SlotAt, Live;
      var f := FatDirectory(name);
      if f != Missing {
        return 0;
      }
      var dosFileName := new byte[NAME_LEN + 1];
      ToDosFileName(name, dosFileName);
      ghost var slots, d := Dir(), DosName(name);
      ghost var ss := disk[root..root + ROOT_SECTORS];
      for i := 0 to ROOT_SECTORS
        invariant disk == old(disk)
        invariant forall k :: 0 <= k < SLOTS * i ==> Live(slots[k])
        modifies buffer, this`disk
      {
        Read(root + i);
        var j := 0;
        while j < SLOTS
          invariant j <= SLOTS && disk == old(disk) && buffer[..] == disk[root + i]
          invariant forall k :: 0 <= k < SLOTS * i + j ==> Live(slots[k])
        {
          SlotsAt(ss, i, j);
          SlotByte(buffer[..], j, 0);
          IsLive(SlotAt(buffer[..], j));
          if buffer[SLOT_SIZE * j] == 0 {
            assert buffer[..] == ss[i];
            NameSlot(buffer, j, dosFileName);
            ghost var s: sector := buffer[..];
            assert dosFileName[..NAME_LEN] == d;
            assert SlotAt(s, j) == Named(SlotAt(ss[i], j), d);
            Write(root + i);
            assert disk[root..root + ROOT_SECTORS] == ss[i := s];
            SlotsWith(ss, i, j, s, SlotAt(s, j));
            FirstIsHole(slots, SLOTS * i + j);
            return 1;
          }
          j := j + 1;
        }
      }
      FirstIsHole(slots, |slots|);
      return 0;
    }

    /** fat_delete */
    method FatDelete(name: CString) returns (r: int)
      requires Valid() && name.Valid()
      modifies buffer, this`offset, this`disk
      ensures Valid() && Dir() == Deleted(old(Dir()), DosName(name))
      ensures r == if Lookup(old(Dir()), DosName(name)) < |old(Dir())| then 1 else 0
      ensures |disk| == |old(disk)| && disk[..root] == old(disk[..root])
      ensures disk[root + ROOT_SECTORS..] == old(disk[root + ROOT_SECTORS..])
    {
      hide Lookup, DosName, Slots, Describe;
      var f := FatDirectory(name);
      if f == Missing {
        return 0;
      }
      ghost var ss := disk[root..root + ROOT_SECTORS];
      var found, j := FatGetDir(name);
      if found {
        forall i | 0 <= i < SLOT_SIZE {
          buffer[SLOT_SIZE * j + i] := 0;
        }
        Write(root + offset);
        ghost var s: sector := buffer[..];
        assert disk[root..root + ROOT_SECTORS] == ss[offset := s];
        assert SlotAt(buffer[..], j) == Zero();
        SlotsWith(ss, offset, j, buffer[..], Zero());
        return 1;
      }
      return 0;
    }
  }

  lemma IsLive(s: slot)
    ensures Live(s) <==> s[0] != 0
  {}

  lemma FirstIsHole(slots: seq<slot>, k: nat)
    requires k <= |slots| && (forall i :: 0 <= i < k ==> Live(slots[i])) && (k < |slots| ==> !Live(slots[k]))
    ensures Hole(slots) == k
  {}

  lemma NamedBytes(was: slot, now: slot, d: seq<byte>)
    requires |d| == NAME_LEN
    requires forall k :: 0 <= k < SLOT_SIZE ==>
      now[k] == if k < End(d) then d[k] else if k == End(d) || k >= 26 then 0 else was[k]
    ensures now == Named(was, d)
  {
    hide End;
  }

  /** strcpy of a directory name to dst[at] and on */
  method StrCpy(dst: array<byte>, at: nat, name: array<byte>)
    requires name.Length == NAME_LEN + 1 && name[NAME_LEN] == 0 && dst != name && at + name.Length <= dst.Length
    modifies dst
    ensures forall k :: 0 <= k < dst.Length ==>
      dst[k] == if at <= k < at + End(name[..NAME_LEN]) then name[k - at]
                else if k == at + End(name[..NAME_LEN]) then 0 else old(dst[k])
  {
    var i := 0;
    while name[i] != 0
      invariant 0 <= i <= End(name[..NAME_LEN])
      invariant forall k :: 0 <= k < dst.Length ==> dst[k] == if at <= k < at + i then name[k - at] else old(dst[k])
      decreases NAME_LEN - i
    {
      dst[at + i] := name[i];
      i := i + 1;
    }
    dst[at + i] := 0;
  }

  /** The strcpy and the two assignments with which fat_touch fills a slot. */
  method NameSlot(buf: array<byte>, j: nat, name: array<byte>)
    requires buf.Length == SECTOR_SIZE && j < SLOTS && name.Length == NAME_LEN + 1 && name[NAME_LEN] == 0 && buf != name
    modifies buf
    ensures buf[..SLOT_SIZE * j] == old(buf[..SLOT_SIZE * j])
    ensures buf[SLOT_SIZE * j + SLOT_SIZE..] == old(buf[SLOT_SIZE * j + SLOT_SIZE..])
    ensures SlotAt(buf[..], j) == Named(SlotAt(old(buf[..]), j), name[..NAME_LEN])
  {
    hide SlotAt, Named, End;
    var at := SLOT_SIZE * j;
    StrCpy(buf, at, name);
    label copied:
    forall k | 28 <= k < 32 {
      buf[at + k] := 0;
    }
    forall k | 26 <= k < 28 {
      buf[at + k] := 0;
    }
    ghost var now, was, d := SlotAt(buf[..], j), SlotAt(old(buf[..]), j), name[..NAME_LEN];
    assert d == old(name[..NAME_LEN]);
    forall k | 0 <= k < SLOT_SIZE
      ensures now[k] == if k < End(d) then d[k] else if k == End(d) || k >= 26 then 0 else was[k]
    {
      SlotByte(buf[..], j, k);
      SlotByte(old(buf[..]), j, k);
      assert now[k] == buf[at + k];
      assert was[k] == old(buf[at + k]);
      assert buf[at + k] == if k >= 26 then 0 else old@copied(buf[at + k]);
    }
    NamedBytes(was, now, d);
  }

  lemma {:induction false} ContentsAt(v: Volume, cs: seq<word>, i: nat)
    requires (forall k :: 0 <= k < |cs| ==> v.Readable(cs[k])) && i < |cs|
    ensures v.Contents(cs)[i] == v.disk[PhysSector(cs[i])]
  {
    if i < |cs| - 1 {
      ContentsAt(v, cs[..|cs| - 1], i);
    }
  }

  /** fat_open_subdir, for a directory whose clusters form a chain: the lookup in the slots of all its
      clusters.  The directory is passed by value. */
  method FatOpenSubdir(v: Volume, directory: File, name: CString, ghost cs: seq<word>) returns (f: Search)
    requires v.Chain(cs) && directory.eof == 0 && directory.currentCluster == cs[0] && name.Valid()
    modifies v.window
    ensures f == Find(Slots(v.Contents(cs)), DosName(name))
  {
    hide Lookup, DosName, Slots, Describe, SlotAt, Name, Volume.Entry, Volume.Contents;
    var cur := new File(directory.eof, directory.currentCluster);
    var dosFileName := new byte[NAME_LEN + 1];
    ToDosFileName(name, dosFileName);
    var buf := new byte[SECTOR_SIZE];
    ghost var slots, d, c := Slots(v.Contents(cs)), DosName(name), 0;
    while cur.eof == 0
      invariant 0 <= c <= |cs| && cur.eof == (if c == |cs| then 1 else 0) && (c < |cs| ==> cur.currentCluster == cs[c])
      invariant forall k :: 0 <= k < SLOTS * c ==> Name(slots[k]) != d
      decreases |cs| - c
      modifies cur, buf, v.window
    {
      v.FatRead(cur, buf, 0);
      ContentsAt(v, cs, c);
      assert buf[..] == buf[0..SECTOR_SIZE] == v.Contents(cs)[c];
      var i := 0;
      while i < SLOTS
        invariant i <= SLOTS
        modifies {}
        invariant forall k :: 0 <= k < SLOTS * c + i ==> Name(slots[k]) != d
      {
        SlotsAt(v.Contents(cs), c, i);
        var same := Matches(dosFileName, buf, i, v.Contents(cs)[c]);
        if same {
          FirstIsLookup(slots, d, SLOTS * c + i);
          f := ReadSlot(buf, i, v.Contents(cs)[c]);
          return;
        }
        i := i + 1;
      }
      c := c + 1;
    }
    FirstIsLookup(slots, d, |slots|);
    return Missing;
  }

  /** Names with a base and an extension of ordinary characters are names the directory handles as a
      map. */
  lemma GoodIsValid(base: seq<byte>, ext: seq<byte>, after: seq<byte>)
    requires GoodName(base, ext) && |after| > 4 && after[0] == 0
    ensures CString(Text(base, ext), after).Valid()
    ensures ValidName(DosName(CString(Text(base, ext), after)))
  {
    hide DosName, Dos;
    DosOfGood(base, ext, after);
    DosIsString(base, ext);
  }
}
