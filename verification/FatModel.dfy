/** What a file allocation table means: how entries are packed into bytes ("FAT: General Overview of
    On-Disk Format" version 1.03, heading "FAT Data Structure"), how fat_read of fs/fat.c takes one out
    again, and the chain of clusters that makes a file. */
module FatModel {
  import opened Bits

  type byte = b: int | 0 <= b < 256
  type sector = s: seq<byte> | |s| == 512 witness seq(512, i => 0)

  const SECTOR_SIZE := 512
  const NAME_LEN := 11

  /** Where a string ends that has a NUL after its last byte. */
  function End(d: seq<byte>): (n: nat)
    ensures n <= |d| && (n < |d| ==> d[n] == 0)
    ensures forall i :: 0 <= i < n ==> d[i] != 0
  {
    if d == [] || d[0] == 0 then 0 else 1 + End(d[1..])
  }

  datatype FatType = FAT12 | FAT16 | FAT32

  // ---------------------------------------------------------------- packing, by the format

  type Entry12 = e: int | 0 <= e < 0x1000

  /** Two 12-bit entries share three bytes, low bits first. */
  function Pack12(es: seq<Entry12>): seq<byte> {
    if es == [] then []
    else if |es| == 1 then [es[0] % 256, es[0] / 256]
    else [es[0] % 256, es[0] / 256 + es[1] % 16 * 16, es[1] / 16] + Pack12(es[2..])
  }

  type Entry16 = e: int | 0 <= e < 0x1_0000

  function Pack16(es: seq<Entry16>): seq<byte> {
    if es == [] then [] else [es[0] % 256, es[0] / 256] + Pack16(es[1..])
  }

  /** The four high bits of a FAT32 entry are reserved and may hold anything. */
  function Pack32(es: seq<word>): seq<byte> {
    if es == [] then []
    else [es[0] % 256, es[0] / 256 % 256, es[0] / 0x1_0000 % 256, es[0] / 0x100_0000] + Pack32(es[1..])
  }

  // ---------------------------------------------------------------- unpacking, by the code

  /** Where fat_read looks for the entry of a cluster. */
  function FatOffset(kind: FatType, cluster: nat): nat {
    match kind
    case FAT12 => cluster + cluster / 2
    case FAT16 => cluster * 2
    case FAT32 => cluster * 4
  }

  /** *(uint16_t *) b, on a little-endian machine. */
  function Word16(b: seq<byte>): (w: int)
    requires |b| >= 2
    ensures 0 <= w < 0x1_0000
  {
    (b[0] as int) + 256 * (b[1] as int)
  }

  /** *(uint32_t *) b */
  function Word32(b: seq<byte>): (w: int)
    requires |b| >= 4
    ensures 0 <= w < 0x1_0000_0000
  {
    Word16(b) + 0x1_0000 * Word16(b[2..])
  }

  /** What it makes of the bytes it finds there. */
  function Decode(kind: FatType, cluster: nat, b: seq<byte>): nat
    requires |b| >= if kind == FAT32 then 4 else 2
  {
    match kind
    case FAT12 => if And(cluster, 1) != 0 then Word16(b) / 16 else And(Word16(b), 0x0FFF)
    case FAT16 => Word16(b)
    case FAT32 => And(Word32(b), 0x0FFF_FFFF)
  }

  /** A table entry that ends a file. */
  predicate EndMark(kind: FatType, entry: nat) {
    || entry == 0
    || entry >= match kind
                case FAT12 => 0xFF8
                case FAT16 => 0xFFF8
                case FAT32 => 0x0FFF_FFF8
  }

  lemma LowBit(c: nat)
    ensures And(c, 1) != 0 <==> c % 2 == 1
  {
    AndPow2(c, 0);
  }

  lemma LowBits(w: nat)
    ensures And(w, 0x0FFF) == w % 0x1000
    ensures And(w, 0x0FFF_FFFF) == w % 0x1000_0000
  {
    hide And, Pow2;
    Pow2Values();
    Masked(w / 0x1000, w % 0x1000, 12);
    Masked(w / 0x1000_0000, w % 0x1000_0000, 28);
  }

  lemma {:induction false} Pack12Length(es: seq<Entry12>)
    ensures |Pack12(es)| == |es| + (|es| + 1) / 2
  {
    if |es| >= 2 {
      Pack12Length(es[2..]);
    }
  }

  /** Whatever is packed, fat_read's offset, shift and mask give back every 12-bit entry. */
  lemma {:induction false} Unpack12(es: seq<Entry12>, c: nat)
    requires c < |es|
    ensures FatOffset(FAT12, c) + 2 <= |Pack12(es)|
    ensures Decode(FAT12, c, Pack12(es)[FatOffset(FAT12, c)..]) == es[c]
  {
    hide Pack12, Word16, And;
    Pack12Length(es);
    LowBit(c);
    if c < 2 {
      LowBits(Word16(Pack12(es)[c..]));
      First12(es, c);
    } else {
      Unpack12(es[2..], c - 2);
      LowBit(c - 2);
      Tail12(es, FatOffset(FAT12, c));
    }
  }

  lemma Tail12(es: seq<Entry12>, o: nat)
    requires |es| >= 2 && 3 <= o <= |Pack12(es)|
    ensures o - 3 <= |Pack12(es[2..])| && Pack12(es)[o..] == Pack12(es[2..])[o - 3..]
  {
    DropSum(Pack12(es)[..3], Pack12(es[2..]), o - 3);
  }

  lemma DropSum(a: seq<byte>, b: seq<byte>, k: nat)
    requires k <= |b|
    ensures (a + b)[|a| + k..] == b[k..]
  {}

  lemma First12(es: seq<Entry12>, c: nat)
    requires c < 2 && c < |es|
    ensures c + 2 <= |Pack12(es)|
    ensures c == 0 ==> Word16(Pack12(es)[0..]) % 0x1000 == es[0]
    ensures c == 1 ==> Word16(Pack12(es)[1..]) / 16 == es[1]
  {
    FirstBytes(es);
    hide Pack12, Word16, Second;
    var b := Pack12(es)[c..];
    assert b[0] == Pack12(es)[c] && b[1] == Pack12(es)[c + 1];
    if c == 0 {
      LowEntry(b, es[0], Second(es));
    } else {
      HighEntry(b, es[0], es[1]);
    }
  }

  lemma LowEntry(b: seq<byte>, e: Entry12, f: Entry12)
    requires |b| >= 2 && b[0] == e % 256 && b[1] == e / 256 + f % 16 * 16
    ensures Word16(b) % 0x1000 == e
  {
    SharedByte(e, f);
  }

  lemma HighEntry(b: seq<byte>, e: Entry12, f: Entry12)
    requires |b| >= 2 && b[0] == e / 256 + f % 16 * 16 && b[1] == f / 16
    ensures Word16(b) / 16 == f
  {
    SharedByte(e, f);
  }

  function Second(es: seq<Entry12>): Entry12 {
    if |es| > 1 then es[1] else 0
  }

  lemma FirstBytes(es: seq<Entry12>)
    requires es != []
    ensures |Pack12(es)| >= if |es| > 1 then 3 else 2
    ensures Pack12(es)[0] == es[0] % 256 && Pack12(es)[1] == es[0] / 256 + Second(es) % 16 * 16
    ensures |es| > 1 ==> Pack12(es)[1] == es[0] / 256 + es[1] % 16 * 16 && Pack12(es)[2] == es[1] / 16
  {}

  lemma By16(q: int, r: int)
    requires 0 <= r < 16
    ensures (16 * q + r) / 16 == q
  {}

  lemma By4096(q: int, r: int)
    requires 0 <= r < 0x1000
    ensures (0x1000 * q + r) % 0x1000 == r
  {}

  lemma By64K(q: int, r: int)
    requires 0 <= r < 0x1_0000
    ensures (0x1_0000 * q + r) % 0x1_0000 == r
  {}

  lemma By16M(q: int, r: int)
    requires 0 <= r < 0x100_0000
    ensures (0x100_0000 * q + r) / 0x100_0000 == q
  {}

  /** The byte two entries share gives each its half back. */
  lemma SharedByte(e: int, f: int)
    requires 0 <= e < 0x1000 && 0 <= f < 0x1000
    ensures (e % 256 + 256 * (e / 256 + f % 16 * 16)) % 0x1000 == e
    ensures (e / 256 + f % 16 * 16 + 256 * (f / 16)) / 16 == f
  {
    By4096(f % 16, e);
    By16(f, e / 256);
  }

  lemma {:induction false} Unpack16(es: seq<Entry16>, c: nat)
    requires c < |es|
    ensures FatOffset(FAT16, c) + 2 <= |Pack16(es)|
    ensures Decode(FAT16, c, Pack16(es)[FatOffset(FAT16, c)..]) == es[c]
  {
    hide Pack16, Word16;
    First16(es);
    if c > 0 {
      Unpack16(es[1..], c - 1);
      DropSum(Pack16(es)[..2], Pack16(es[1..]), 2 * c - 2);
    }
  }

  lemma First16(es: seq<Entry16>)
    requires |es| > 0
    ensures |Pack16(es)| >= 2 && Pack16(es) == Pack16(es)[..2] + Pack16(es[1..])
    ensures Word16(Pack16(es)[0..]) == es[0]
  {}

  lemma {:induction false} Unpack32(es: seq<word>, c: nat)
    requires c < |es|
    ensures FatOffset(FAT32, c) + 4 <= |Pack32(es)|
    ensures Decode(FAT32, c, Pack32(es)[FatOffset(FAT32, c)..]) == es[c] % 0x1000_0000
  {
    hide Pack32, Word32, And;
    First32(es);
    LowBits(es[0]);
    if c > 0 {
      Unpack32(es[1..], c - 1);
      DropSum(Pack32(es)[..4], Pack32(es[1..]), 4 * c - 4);
    }
  }

  lemma First32(es: seq<word>)
    requires |es| > 0
    ensures |Pack32(es)| >= 4 && Pack32(es) == Pack32(es)[..4] + Pack32(es[1..])
    ensures Word32(Pack32(es)[0..]) == es[0]
  {
    var e, p := es[0], Pack32(es);
    WholeWord(e);
    assert p[0] == e % 256 && p[1] == e / 256 % 256 && p[2] == e / 0x1_0000 % 256 && p[3] == e / 0x100_0000;
    assert p[0..][2..][0] == p[2] && p[0..][2..][1] == p[3];
  }

  lemma WholeHalf(e: word)
    ensures e % 256 + 256 * (e / 256 % 256) == e % 0x1_0000
  {
    var q, r := e / 256, e % 256;
    var k, t := q / 256, q % 256;
    assert e == 0x1_0000 * k + (256 * t + r);
    By64K(k, 256 * t + r);
  }

  lemma HighByte(e: word)
    ensures e / 0x100_0000 == e / 0x1_0000 / 256
  {
    var q, r := e / 0x1_0000, e % 0x1_0000;
    var k, t := q / 256, q % 256;
    assert e == 0x100_0000 * k + (0x1_0000 * t + r);
    By16M(k, 0x1_0000 * t + r);
  }

  lemma WholeWord(e: word)
    ensures e % 256 + 256 * (e / 256 % 256) + 0x1_0000 * (e / 0x1_0000 % 256 + 256 * (e / 0x100_0000)) == e
  {
    HighByte(e);
    WholeHalf(e);
    var q := e / 0x1_0000;
    assert q % 256 + 256 * (q / 256) == q;
  }
}
