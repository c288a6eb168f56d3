/** The bitmaps of mm/mm.c and mm/paging.c: bit k of the map is bit k % 32 of word k / 32, and a set
    bit is a used block.  Both files have their own copy of these three functions. */
module Bitmap {
  import opened Bits

  ghost predicate Used(map_: array<word>, k: nat)
    reads map_
  {
    k / 32 < map_.Length && Bit(map_[k / 32], k % 32)
  }

  /** map[bit / 32] |= (1 << (bit % 32)) */
  method SetBit(map_: array<word>, bit: nat)
    requires bit / 32 < map_.Length
    modifies map_
    ensures forall k: nat :: Used(map_, k) <==> k == bit || old(Used(map_, k))
  {
    var w, m := map_[bit / 32], Pow2(bit % 32);
    Pow2Less(bit % 32, 32);
    Pow2Values();
    OrBound(w, m, 32);
    map_[bit / 32] := Or(w, m);
    forall k: nat | k / 32 == bit / 32
      ensures Bit(map_[bit / 32], k % 32) <==> Bit(w, k % 32) || k == bit
    {
      OrBit(w, m, k % 32);
      Pow2Bit(bit % 32, k % 32);
    }
  }

  /** map[bit / 32] &= ~(1 << (bit % 32)) */
  method UnsetBit(map_: array<word>, bit: nat)
    requires bit / 32 < map_.Length
    modifies map_
    ensures forall k: nat :: Used(map_, k) <==> k != bit && old(Used(map_, k))
  {
    var w, m := map_[bit / 32], Pow2(bit % 32);
    AndNotBound(w, m);
    map_[bit / 32] := AndNot(w, m);
    forall k: nat | k / 32 == bit / 32
      ensures Bit(map_[bit / 32], k % 32) <==> Bit(w, k % 32) && k != bit
    {
      AndNotBit(w, m, k % 32);
      Pow2Bit(bit % 32, k % 32);
    }
  }

  /** The scan skips full words, and still finds the least clear bit below 32 * words, or -1. */
  method FirstFree(map_: array<word>, words: nat) returns (p: int)
    requires words <= map_.Length
    ensures p == -1 || 0 <= p < 32 * words
    ensures p == -1 <==> forall k: nat :: k < 32 * words ==> Used(map_, k)
    ensures p >= 0 ==> !Used(map_, p) && forall k: nat :: k < p ==> Used(map_, k)
  {
    var i := 0;
    while i < words
      invariant 0 <= i <= words
      invariant forall k: nat :: k < 32 * i ==> Used(map_, k)
    {
      AllOnes(map_[i]);
      if map_[i] != 0xFFFF_FFFF {
        var j := 0;
        while j < 32
          invariant 0 <= j <= 32
          invariant forall k :: 0 <= k < j ==> Bit(map_[i], k)
        {
          AndPow2(map_[i], j);
          if And(map_[i], Pow2(j)) == 0 {
            Below(map_, i, j);
            return i * 32 + j;
          }
          j := j + 1;
        }
        assert false;
      }
      Below(map_, i, 32);
      i := i + 1;
    }
    p := -1;
  }

  lemma Below(map_: array<word>, i: nat, j: nat)
    requires i < map_.Length && j <= 32
    requires forall k: nat :: k < 32 * i ==> Used(map_, k)
    requires forall k :: 0 <= k < j ==> Bit(map_[i], k)
    ensures forall k: nat :: k < 32 * i + j ==> Used(map_, k)
    ensures j < 32 && !Bit(map_[i], j) ==> !Used(map_, 32 * i + j)
  {
    forall k: nat | 32 * i <= k < 32 * i + j ensures Used(map_, k) {
      assert k / 32 == i && k % 32 == k - 32 * i;
    }
    assert j < 32 ==> (32 * i + j) / 32 == i && (32 * i + j) % 32 == j;
  }

  lemma {:induction false} Pow2Less(m: nat, n: nat)
    requires m < n
    ensures Pow2(m) < Pow2(n)
  {
    if m + 1 < n {
      Pow2Less(m, n - 1);
    }
  }
}
