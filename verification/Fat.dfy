/** Reading files in fs/fat.c.  The device is its sectors. */
module Fat {
  import opened Bits
  import opened FatModel

  /** Sectors one after the other. */
  ghost function Join(ss: seq<sector>): (bs: seq<byte>)
    ensures |bs| == SECTOR_SIZE * |ss|
  {
    if ss == [] then [] else ss[0] + Join(ss[1..])
  }

  lemma {:induction false} JoinAt(ss: seq<sector>, i: nat)
    requires i < SECTOR_SIZE * |ss|
    ensures Join(ss)[i] == ss[i / SECTOR_SIZE][i % SECTOR_SIZE]
  {
    if i >= SECTOR_SIZE {
      JoinAt(ss[1..], i - SECTOR_SIZE);
      assert ss[1..][(i - SECTOR_SIZE) / SECTOR_SIZE] == ss[i / SECTOR_SIZE];
    }
  }

  lemma {:induction false} JoinNext(ss: seq<sector>, s: sector)
    ensures Join(ss + [s]) == Join(ss) + s
  {
    if ss == [] {
      assert [s][1..] == [] && Join([s]) == s + Join([]);
    } else {
      assert (ss + [s])[1..] == ss[1..] + [s];
      JoinNext(ss[1..], s);
    }
  }

  /** The fields of `file` that reading uses. */
  class File {
    var eof: word
    var currentCluster: word

    constructor (eof: word, currentCluster: word)
      ensures this.eof == eof && this.currentCluster == currentCluster
    {
      this.eof, this.currentCluster := eof, currentCluster;
    }
  }

  /** get_phys_sector */
  function PhysSector(cluster: word): nat {
    32 + cluster - 1
  }

  class Volume {
    const disk: seq<sector>
    const kind: FatType
    const fatOffset: nat
    const window: array<byte>

    constructor (disk: seq<sector>, kind: FatType, fatOffset: nat)
      ensures this.disk == disk && this.kind == kind && this.fatOffset == fatOffset
      ensures window.Length == 2 * SECTOR_SIZE && fresh(window)
    {
      this.disk, this.kind, this.fatOffset := disk, kind, fatOffset;
      window := new byte[2 * SECTOR_SIZE](_ => 0);
    }

    /** The cluster's sector and the two table sectors that fat_read looks at exist. */
    ghost predicate Readable(cluster: word) {
      && window.Length == 2 * SECTOR_SIZE
      && PhysSector(cluster) < |disk|
      && fatOffset + FatOffset(kind, cluster) / SECTOR_SIZE + 1 < |disk|
    }

    /** The table entry of a cluster, by the bytes of the whole table. */
    ghost function Entry(cluster: word): nat
      requires Readable(cluster)
    {
      Decode(kind, cluster, Join(disk[fatOffset..])[FatOffset(kind, cluster)..])
    }

    /** The clusters of a file: each entry names the next, and the last entry ends the file. */
    ghost predicate Chain(cs: seq<word>) {
      && |cs| > 0
      && (forall i :: 0 <= i < |cs| ==> Readable(cs[i]))
      && (forall i :: 0 <= i < |cs| - 1 ==> Entry(cs[i]) == cs[i + 1] && !EndMark(kind, Entry(cs[i])))
      && EndMark(kind, Entry(cs[|cs| - 1]))
    }

    lemma ChainStarts(cs: seq<word>)
      requires Chain(cs)
      ensures |cs| > 0
    {}

    /** A cluster starts at most one chain. */
    lemma {:induction false} ChainUnique(cs: seq<word>, ds: seq<word>, i: nat)
      requires Chain(cs) && Chain(ds) && cs[0] == ds[0] && i < |cs|
      ensures |cs| == |ds| && cs[i] == ds[i]
    {
      ChainPrefix(cs, ds, if |cs| <= |ds| then |cs| - 1 else |ds| - 1);
      ChainPrefix(cs, ds, i);
    }

    lemma {:induction false} ChainPrefix(cs: seq<word>, ds: seq<word>, i: nat)
      requires Chain(cs) && Chain(ds) && cs[0] == ds[0] && i < |cs| && i < |ds|
      ensures cs[i] == ds[i]
    {
      if i > 0 {
        ChainPrefix(cs, ds, i - 1);
      }
    }

    /** A chain that ends never comes back to a cluster. */
    lemma {:induction false} ChainAcyclic(cs: seq<word>, i: nat, j: nat)
      requires Chain(cs) && i < j < |cs|
      ensures cs[i] != cs[j]
      decreases |cs| - j
    {
      if cs[i] == cs[j] && j < |cs| - 1 {
        ChainAcyclic(cs, i + 1, j + 1);
      }
    }

    /** The sectors a chain's clusters stand for. */
    ghost function Contents(cs: seq<word>): (ss: seq<sector>)
      requires forall i :: 0 <= i < |cs| ==> Readable(cs[i])
      ensures |ss| == |cs|
    {
      if cs == [] then []
      else
        assert Readable(cs[|cs| - 1]);
        Contents(cs[..|cs| - 1]) + [disk[PhysSector(cs[|cs| - 1])]]
    }

    /** fat_read, into the sector's worth of `buf` from index `at`. */
    method FatRead(f: File, buf: array<byte>, at: nat)
      requires Readable(f.currentCluster) && at + SECTOR_SIZE <= buf.Length && buf != window
      modifies f, buf, window
      ensures 31 + old(f.currentCluster) < |disk| && buf[at..at + 512] == disk[31 + old(f.currentCluster)]
      ensures buf[..at] == old(buf[..at]) && buf[at + SECTOR_SIZE..] == old(buf[at + SECTOR_SIZE..])
      ensures var next := Entry(old(f.currentCluster));
              if EndMark(kind, next) then f.eof == 1 && f.currentCluster == old(f.currentCluster)
              else f.eof == old(f.eof) && f.currentCluster == next
    {
      var sector := disk[PhysSector(f.currentCluster)];
      forall i | 0 <= i < SECTOR_SIZE {
        buf[at + i] := sector[i];
      }
      var fatOff := FatOffset(kind, f.currentCluster);
      var fatSector, entryOffset := fatOffset + fatOff / SECTOR_SIZE, fatOff % SECTOR_SIZE;
      sector := disk[fatSector];
      forall i | 0 <= i < SECTOR_SIZE {
        window[i] := sector[i];
      }
      sector := disk[fatSector + 1];
      forall i | 0 <= i < SECTOR_SIZE {
        window[SECTOR_SIZE + i] := sector[i];
      }
      assert window[..][..SECTOR_SIZE] == disk[fatSector] && window[..][SECTOR_SIZE..] == disk[fatSector + 1];
      WindowIsTable(f.currentCluster, window[..]);
      var next := Decode(kind, f.currentCluster, window[entryOffset..]);
      if EndMark(kind, next) {
        f.eof := 1;
        return;
      }
      f.currentCluster := next;
    }

    /** The two-sector window shows the entry as the whole table has it, also across a sector end. */
    lemma WindowIsTable(cluster: word, w: seq<byte>)
      requires Readable(cluster) && |w| == 2 * SECTOR_SIZE
      requires var s := fatOffset + FatOffset(kind, cluster) / SECTOR_SIZE;
               w[..SECTOR_SIZE] == disk[s] && w[SECTOR_SIZE..] == disk[s + 1]
      ensures Decode(kind, cluster, w[FatOffset(kind, cluster) % SECTOR_SIZE..]) == Entry(cluster) < 0x1_0000_0000
    {
      var table, o := disk[fatOffset..], FatOffset(kind, cluster);
      var a, b := Join(table)[o..], w[o % SECTOR_SIZE..];
      WindowBytes(table, o, w);
      assert a[..4][..Width(kind)] == b[..4][..Width(kind)];
      SameEntry(kind, cluster, a, b);
    }
  }

  lemma WindowBytes(table: seq<sector>, o: nat, w: seq<byte>)
    requires o / SECTOR_SIZE + 1 < |table| && |w| == 2 * SECTOR_SIZE
    requires w[..SECTOR_SIZE] == table[o / SECTOR_SIZE] && w[SECTOR_SIZE..] == table[o / SECTOR_SIZE + 1]
    ensures o + 4 <= |Join(table)| && Join(table)[o..][..4] == w[o % SECTOR_SIZE..][..4]
  {
    hide Join;
    JoinAt(table, o + 3);
    var a, b := Join(table)[o..], w[o % SECTOR_SIZE..];
    forall i | 0 <= i < 4 ensures a[i] == b[i] {
      JoinAt(table, o + i);
      InWindow(o, i);
      var k := o % SECTOR_SIZE + i;
      assert w[k] == if k < SECTOR_SIZE then w[..SECTOR_SIZE][k] else w[SECTOR_SIZE..][k - SECTOR_SIZE];
    }
  }

  lemma InWindow(o: nat, i: nat)
    requires i < 4
    ensures var k := o % SECTOR_SIZE + i;
            if k < SECTOR_SIZE then (o + i) / SECTOR_SIZE == o / SECTOR_SIZE && (o + i) % SECTOR_SIZE == k
            else (o + i) / SECTOR_SIZE == o / SECTOR_SIZE + 1 && (o + i) % SECTOR_SIZE == k - SECTOR_SIZE
  {}

  /** Bytes an entry is read from. */
  function Width(kind: FatType): nat {
    if kind == FAT32 then 4 else 2
  }

  lemma SameEntry(kind: FatType, cluster: nat, a: seq<byte>, b: seq<byte>)
    requires |a| >= Width(kind) && |b| >= Width(kind) && a[..Width(kind)] == b[..Width(kind)]
    ensures Decode(kind, cluster, a) == Decode(kind, cluster, b) < 0x1_0000_0000
  {
    hide And;
    var n := Width(kind);
    assert a[0] == a[..n][0] && a[1] == a[..n][1];
    LowBits(Word16(b));
    if kind == FAT32 {
      assert a[2] == a[..n][2] && a[3] == a[..n][3];
      LowBits(Word32(b));
    }
  }

  /** When the table sectors hold packed entries, fat_read sees exactly those entries. */
  lemma {:induction false} TableEntry12(v: Volume, es: seq<Entry12>, c: word)
    requires v.kind == FAT12 && v.Readable(c) && c < |es|
    requires Pack12(es) <= Join(v.disk[v.fatOffset..])
    ensures v.Entry(c) == es[c]
  {
    Unpack12(es, c);
    SuffixEntry(FAT12, c, Pack12(es), Join(v.disk[v.fatOffset..]));
  }

  lemma {:induction false} TableEntry16(v: Volume, es: seq<Entry16>, c: word)
    requires v.kind == FAT16 && v.Readable(c) && c < |es|
    requires Pack16(es) <= Join(v.disk[v.fatOffset..])
    ensures v.Entry(c) == es[c]
  {
    Unpack16(es, c);
    SuffixEntry(FAT16, c, Pack16(es), Join(v.disk[v.fatOffset..]));
  }

  lemma {:induction false} TableEntry32(v: Volume, es: seq<word>, c: word)
    requires v.kind == FAT32 && v.Readable(c) && c < |es|
    requires Pack32(es) <= Join(v.disk[v.fatOffset..])
    ensures v.Entry(c) == es[c] % 0x1000_0000
  {
    Unpack32(es, c);
    SuffixEntry(FAT32, c, Pack32(es), Join(v.disk[v.fatOffset..]));
  }

  ghost predicate Packed12(v: Volume, es: seq<Entry12>) {
    v.kind == FAT12 && v.fatOffset <= |v.disk| && Pack12(es) <= Join(v.disk[v.fatOffset..])
  }

  /** On a volume of packed 12-bit entries a file ends at an entry of 0 or from 0xFF8 on, and goes on at any
      other one. */
  lemma Ends12(v: Volume, es: seq<Entry12>, c: word)
    requires Packed12(v, es) && v.Readable(c) && c < |es|
    ensures EndMark(v.kind, v.Entry(c)) <==> es[c] == 0 || es[c] >= 0xFF8
    ensures v.Entry(c) == es[c]
  {
    TableEntry12(v, es, c);
  }

  ghost predicate Packed16(v: Volume, es: seq<Entry16>) {
    v.kind == FAT16 && v.fatOffset <= |v.disk| && Pack16(es) <= Join(v.disk[v.fatOffset..])
  }

  /** The same for 16-bit entries from 0xFFF8 on. */
  lemma Ends16(v: Volume, es: seq<Entry16>, c: word)
    requires Packed16(v, es) && v.Readable(c) && c < |es|
    ensures EndMark(v.kind, v.Entry(c)) <==> es[c] == 0 || es[c] >= 0xFFF8
    ensures v.Entry(c) == es[c]
  {
    TableEntry16(v, es, c);
  }

  ghost predicate Packed32(v: Volume, es: seq<word>) {
    v.kind == FAT32 && v.fatOffset <= |v.disk| && Pack32(es) <= Join(v.disk[v.fatOffset..])
  }

  /** The same for the low 28 bits of 32-bit entries from 0x0FFFFFF8 on. */
  lemma Ends32(v: Volume, es: seq<word>, c: word)
    requires Packed32(v, es) && v.Readable(c) && c < |es|
    ensures EndMark(v.kind, v.Entry(c)) <==> es[c] % 0x1000_0000 == 0 || es[c] % 0x1000_0000 >= 0x0FFF_FFF8
    ensures v.Entry(c) == es[c] % 0x1000_0000
  {
    TableEntry32(v, es, c);
  }

  /** Clusters linked by packed entries are a chain, and no other ones are. */
  lemma PackedChain12(v: Volume, es: seq<Entry12>, cs: seq<word>)
    requires Packed12(v, es) && |cs| > 0 && forall i :: 0 <= i < |cs| ==> v.Readable(cs[i]) && cs[i] < |es|
    ensures v.Chain(cs) <==>
              (forall i :: 0 <= i < |cs| - 1 ==> Link12(es, cs, i)) &&
              (es[cs[|cs| - 1]] == 0 || es[cs[|cs| - 1]] >= 0xFF8)
  {
    hide Volume.Entry, EndMark, Packed12;
    forall i | 0 <= i < |cs|
      ensures v.Entry(cs[i]) == es[cs[i]]
      ensures EndMark(v.kind, v.Entry(cs[i])) <==> es[cs[i]] == 0 || es[cs[i]] >= 0xFF8
    {
      Ends12(v, es, cs[i]);
    }
    if v.Chain(cs) {
      forall i | 0 <= i < |cs| - 1 ensures Link12(es, cs, i) {
        assert v.Entry(cs[i]) == cs[i + 1];
      }
    } else if forall i :: 0 <= i < |cs| - 1 ==> Link12(es, cs, i) {
      assert forall i :: 0 <= i < |cs| - 1 ==> Link12(es, cs, i) && v.Entry(cs[i]) == es[cs[i]];
    }
  }

  /** The entry of the i-th cluster names the next. */
  ghost predicate Link12(es: seq<Entry12>, cs: seq<word>, i: nat)
    requires i + 1 < |cs| && cs[i] < |es|
  {
    es[cs[i]] == cs[i + 1] && 0 < cs[i + 1] < 0xFF8
  }

  lemma PackedChain16(v: Volume, es: seq<Entry16>, cs: seq<word>)
    requires Packed16(v, es) && |cs| > 0 && forall i :: 0 <= i < |cs| ==> v.Readable(cs[i]) && cs[i] < |es|
    ensures v.Chain(cs) <==>
              (forall i :: 0 <= i < |cs| - 1 ==> Link16(es, cs, i)) &&
              (es[cs[|cs| - 1]] == 0 || es[cs[|cs| - 1]] >= 0xFFF8)
  {
    hide Volume.Entry, EndMark, Packed16;
    forall i | 0 <= i < |cs|
      ensures v.Entry(cs[i]) == es[cs[i]]
      ensures EndMark(v.kind, v.Entry(cs[i])) <==> es[cs[i]] == 0 || es[cs[i]] >= 0xFFF8
    {
      Ends16(v, es, cs[i]);
    }
    if v.Chain(cs) {
      forall i | 0 <= i < |cs| - 1 ensures Link16(es, cs, i) {
        assert v.Entry(cs[i]) == cs[i + 1];
      }
    } else if forall i :: 0 <= i < |cs| - 1 ==> Link16(es, cs, i) {
      assert forall i :: 0 <= i < |cs| - 1 ==> Link16(es, cs, i) && v.Entry(cs[i]) == es[cs[i]];
    }
  }

  /** The entry of the i-th cluster names the next. */
  ghost predicate Link16(es: seq<Entry16>, cs: seq<word>, i: nat)
    requires i + 1 < |cs| && cs[i] < |es|
  {
    es[cs[i]] == cs[i + 1] && 0 < cs[i + 1] < 0xFFF8
  }

  lemma PackedChain32(v: Volume, es: seq<word>, cs: seq<word>)
    requires Packed32(v, es) && |cs| > 0 && forall i :: 0 <= i < |cs| ==> v.Readable(cs[i]) && cs[i] < |es|
    ensures v.Chain(cs) <==>
              (forall i :: 0 <= i < |cs| - 1 ==> Link32(es, cs, i)) &&
              (es[cs[|cs| - 1]] % 0x1000_0000 == 0 || es[cs[|cs| - 1]] % 0x1000_0000 >= 0x0FFF_FFF8)
  {
    hide Volume.Entry, EndMark, Packed32;
    forall i | 0 <= i < |cs|
      ensures v.Entry(cs[i]) == es[cs[i]] % 0x1000_0000
      ensures EndMark(v.kind, v.Entry(cs[i])) <==> es[cs[i]] % 0x1000_0000 == 0 || es[cs[i]] % 0x1000_0000 >= 0x0FFF_FFF8
    {
      Ends32(v, es, cs[i]);
    }
    if v.Chain(cs) {
      forall i | 0 <= i < |cs| - 1 ensures Link32(es, cs, i) {
        assert v.Entry(cs[i]) == cs[i + 1];
      }
    } else if forall i :: 0 <= i < |cs| - 1 ==> Link32(es, cs, i) {
      assert forall i :: 0 <= i < |cs| - 1 ==> Link32(es, cs, i) && v.Entry(cs[i]) == es[cs[i]] % 0x1000_0000;
    }
  }

  /** The entry of the i-th cluster names the next. */
  ghost predicate Link32(es: seq<word>, cs: seq<word>, i: nat)
    requires i + 1 < |cs| && cs[i] < |es|
  {
    es[cs[i]] % 0x1000_0000 == cs[i + 1] && 0 < cs[i + 1] < 0x0FFF_FFF8
  }

  lemma SuffixEntry(kind: FatType, c: nat, a: seq<byte>, b: seq<byte>)
    requires a <= b && FatOffset(kind, c) + Width(kind) <= |a|
    ensures Decode(kind, c, a[FatOffset(kind, c)..]) == Decode(kind, c, b[FatOffset(kind, c)..])
  {
    var o, n := FatOffset(kind, c), Width(kind);
    assert a[o..][..n] == b[o..][..n];
    SameEntry(kind, c, a[o..], b[o..]);
  }
}
