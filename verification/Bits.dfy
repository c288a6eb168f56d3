/** The C operators on unsigned words that the kernel uses, on natural numbers, and what each does to
    the single bits of a word. */
module Bits {
  const WORD_RANGE := 0x1_0000_0000

  type word = w: int | 0 <= w < 0x1_0000_0000

  function Pow2(n: nat): (p: nat)
    ensures p > 0
  {
    if n == 0 then 1 else 2 * Pow2(n - 1)
  }

  /** Bit k of w. */
  predicate Bit(w: nat, k: nat) {
    if k == 0 then w % 2 == 1 else Bit(w / 2, k - 1)
  }

  /** a | b */
  function Or(a: nat, b: nat): nat {
    if a == 0 then b else if b == 0 then a
    else 2 * Or(a / 2, b / 2) + if a % 2 + b % 2 > 0 then 1 else 0
  }

  /** a & b */
  function And(a: nat, b: nat): nat {
    if a == 0 || b == 0 then 0 else 2 * And(a / 2, b / 2) + (a % 2) * (b % 2)
  }

  /** a & ~b */
  function AndNot(a: nat, b: nat): nat {
    if a == 0 || b == 0 then a else 2 * AndNot(a / 2, b / 2) + (a % 2) * (1 - b % 2)
  }

  /** v << n in an unsigned 32-bit word */
  function Shl(v: nat, n: nat): nat {
    v * Pow2(n) % 0x1_0000_0000
  }

  lemma {:induction false} ZeroBit(k: nat)
    ensures !Bit(0, k)
  {
    if k > 0 {
      ZeroBit(k - 1);
    }
  }

  lemma {:induction false} OrBit(a: nat, b: nat, k: nat)
    ensures Bit(Or(a, b), k) <==> Bit(a, k) || Bit(b, k)
  {
    ZeroBit(k);
    if a != 0 && b != 0 && k > 0 {
      OrBit(a / 2, b / 2, k - 1);
    }
  }

  lemma {:induction false} AndNotBit(a: nat, b: nat, k: nat)
    ensures Bit(AndNot(a, b), k) <==> Bit(a, k) && !Bit(b, k)
  {
    hide AndNot;
    ZeroBit(k);
    AndHalves(a, b);
    if b != 0 {
      Digits(a % 2, b % 2);
      Halves(AndNot(a / 2, b / 2), (a % 2) * (1 - b % 2));
      if k > 0 {
        AndNotBit(a / 2, b / 2, k - 1);
      }
    }
  }

  lemma {:induction false} Pow2Bit(j: nat, k: nat)
    ensures Bit(Pow2(j), k) <==> j == k
  {
    if j == 0 {
      if k > 0 {
        ZeroBit(k - 1);
      }
    } else if k > 0 {
      Pow2Bit(j - 1, k - 1);
    }
  }

  /** w & (1 << j) tests bit j. */
  lemma {:induction false} AndPow2(w: nat, j: nat)
    ensures And(w, Pow2(j)) != 0 <==> Bit(w, j)
  {
    if w == 0 {
      ZeroBit(j);
    } else if j == 0 {
      assert And(w / 2, 0) == 0;
    } else {
      AndPow2(w / 2, j - 1);
    }
  }

  lemma {:induction false} OrBound(a: nat, b: nat, n: nat)
    requires a < Pow2(n) && b < Pow2(n)
    ensures Or(a, b) < Pow2(n)
  {
    if n > 0 && a != 0 && b != 0 {
      OrBound(a / 2, b / 2, n - 1);
    }
  }

  lemma {:induction false} AndNotBound(a: nat, b: nat)
    ensures AndNot(a, b) <= a
  {
    if a != 0 && b != 0 {
      AndNotBound(a / 2, b / 2);
    }
  }

  /** phys | flags, for an aligned phys and flags below its lowest set bit, adds them. */
  lemma {:induction false} OrAligned(a: nat, b: nat, n: nat)
    requires b < Pow2(n)
    ensures Or(a * Pow2(n), b) == a * Pow2(n) + b
  {
    hide Or;
    if n > 0 {
      Doubled(a, Pow2(n - 1));
      Halves(a * Pow2(n - 1), 0);
      OrHalves(2 * (a * Pow2(n - 1)), b);
      OrAligned(a, b / 2, n - 1);
    } else {
      OrNothing(a);
    }
  }

  /** Masking h * 2^n + l with 2^n - 1 keeps l, and with its complement keeps the rest. */
  lemma {:induction false} Masked(h: nat, l: nat, n: nat)
    requires l < Pow2(n)
    ensures And(h * Pow2(n) + l, Pow2(n) - 1) == l
    ensures AndNot(h * Pow2(n) + l, Pow2(n) - 1) == h * Pow2(n)
  {
    hide And, AndNot;
    if n > 0 {
      var p := Pow2(n - 1);
      Masked(h, l / 2, n - 1);
      Doubled(h, p);
      MaskedStep(h * p, l, p);
    } else {
      AndHalves(h, 0);
    }
  }

  lemma MaskedStep(x: nat, l: nat, p: nat)
    requires p > 0 && And(x + l / 2, p - 1) == l / 2 && AndNot(x + l / 2, p - 1) == x
    ensures And(2 * x + l, 2 * p - 1) == l && AndNot(2 * x + l, 2 * p - 1) == 2 * x
  {
    hide And, AndNot;
    Halves(x, l);
    OddHalf(p);
    AndOdd(2 * x + l, 2 * p - 1);
    WholeAgain(l);
  }

  lemma OddHalf(p: nat)
    requires p > 0
    ensures (2 * p - 1) / 2 == p - 1 && (2 * p - 1) % 2 == 1
  {}

  lemma WholeAgain(l: nat)
    ensures 2 * (l / 2) + l % 2 == l
  {}

  lemma AndOdd(a: nat, b: nat)
    requires b % 2 == 1
    ensures And(a, b) == 2 * And(a / 2, b / 2) + a % 2 && AndNot(a, b) == 2 * AndNot(a / 2, b / 2)
  {
    Digits(a % 2, 1);
  }

  lemma Doubled(a: nat, p: nat)
    ensures a * (2 * p) == 2 * (a * p)
  {}

  lemma Halves(x: int, l: nat)
    ensures (2 * x + l) / 2 == x + l / 2 && (2 * x + l) % 2 == l % 2
  {}

  lemma Digits(x: nat, y: nat)
    requires x < 2 && y < 2
    ensures x * (1 - y) == if x == 1 && y == 0 then 1 else 0
  {}

  lemma AndHalves(a: nat, b: nat)
    ensures And(a, b) == if b == 0 then 0 else 2 * And(a / 2, b / 2) + (a % 2) * (b % 2)
    ensures AndNot(a, b) == if b == 0 then a else 2 * AndNot(a / 2, b / 2) + (a % 2) * (1 - b % 2)
  {}

  lemma OrHalves(a: nat, b: nat)
    ensures Or(a, b) == 2 * Or(a / 2, b / 2) + if a % 2 + b % 2 > 0 then 1 else 0
  {
    assert Or(0, a / 2) == Or(a / 2, 0) == a / 2;
    assert Or(0, b / 2) == b / 2;
  }

  lemma OrNothing(a: nat)
    ensures Or(a, 0) == a
  {}

  lemma {:induction false} OnesBit(n: nat, k: nat)
    requires k < n
    ensures Bit(Pow2(n) - 1, k)
  {
    if k > 0 {
      OnesBit(n - 1, k - 1);
      assert (Pow2(n) - 1) / 2 == Pow2(n - 1) - 1;
    }
  }

  /** A number below 2^n - 1 has a zero among its n lowest bits. */
  lemma {:induction false} SomeZero(w: nat, n: nat) returns (k: nat)
    requires w < Pow2(n) - 1
    ensures k < n && !Bit(w, k)
  {
    if w % 2 == 0 {
      k := 0;
    } else {
      k := SomeZero(w / 2, n - 1);
      k := k + 1;
    }
  }

  /** A word equals BYTE_SET exactly when its 32 bits are set. */
  lemma AllOnes(w: word)
    ensures w == 0xFFFF_FFFF <==> forall k :: 0 <= k < 32 ==> Bit(w, k)
  {
    Pow2Values();
    if w == 0xFFFF_FFFF {
      forall k | 0 <= k < 32 ensures Bit(w, k) {
        OnesBit(32, k);
      }
    } else {
      var k := SomeZero(w, 32);
    }
  }

  /** Shifting a word left by n drops what is above its 32 - n low bits. */
  lemma ShlKeeps(h: nat, l: nat, n: nat, p: nat)
    requires p == Pow2(n) && 0 < p < 0x1_0000_0000 && 0x1_0000_0000 % p == 0 && l < 0x1_0000_0000 / p
    ensures Shl(h * (0x1_0000_0000 / p) + l, n) == l * p
  {
    hide Pow2;
    var q := 0x1_0000_0000 / p;
    assert q * p == 0x1_0000_0000;
    Distribute(h, q, l, p);
    Below(l, q, p);
    DropMultiple(h, l * p);
  }

  lemma Distribute(h: nat, q: nat, l: nat, p: nat)
    ensures (h * q + l) * p == h * (q * p) + l * p
  {}

  lemma Below(l: nat, q: nat, p: nat)
    requires l < q && p > 0
    ensures 0 <= l * p < q * p
  {}

  lemma DropMultiple(h: nat, r: nat)
    requires r < 0x1_0000_0000
    ensures (h * 0x1_0000_0000 + r) % 0x1_0000_0000 == r
  {}

  lemma Pow2Values()
    ensures Pow2(8) == 256 && Pow2(10) == 1024 && Pow2(12) == 4096 && Pow2(20) == 0x10_0000 && Pow2(22) == 0x40_0000
    ensures Pow2(24) == 0x100_0000 && Pow2(28) == 0x1000_0000 && Pow2(32) == 0x1_0000_0000
  {
    assert Pow2(4) == 16;
    assert Pow2(8) == 256;
    assert Pow2(12) == 4096;
    assert Pow2(16) == 65536;
    assert Pow2(20) == 1048576;
    assert Pow2(24) == 16777216;
    assert Pow2(28) == 268435456;
  }
}
