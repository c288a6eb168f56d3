/** Numbers and formats of lib/string.c.  Strings are their bytes up to the NUL. */
module Strings {
  import opened FatModel

  type int32 = v: int | -0x8000_0000 <= v < 0x8000_0000

  const MINUS: byte := 45
  const PERCENT: byte := 37

  /** tokens[d] */
  function Token(d: nat): byte
    requires d < 16
  {
    if d < 10 then 48 + d else 55 + d
  }

  function Reversed(s: seq<byte>): (r: seq<byte>)
    ensures |r| == |s|
  {
    seq(|s|, k requires 0 <= k < |s| => s[|s| - 1 - k])
  }

  /** The digits of v, most significant first. */
  function Digits(v: nat, base: nat): (ds: seq<byte>)
    requires 2 <= base <= 16
    ensures |ds| > 0
  {
    if v < base then [Token(v)] else Digits(v / base, base) + [Token(v % base)]
  }

  /** A sign and the digits. */
  function Numeral(v: int, base: nat): (s: seq<byte>)
    requires 2 <= base <= 16
    ensures |s| > 0
  {
    if v < 0 then [MINUS] + Digits(-v, base) else Digits(v, base)
  }

  const INT_MIN := -0x8000_0000

  /** The memory that `tokens` is in: the fifteen bytes before it, and its sixteen digits. */
  predicate IsTable(memory: seq<byte>) {
    |memory| == 31 && forall d :: 0 <= d < 16 ==> memory[15 + d] == Token(d)
  }

  /** tokens[d], or tokens[-d] */
  function Glyph(memory: seq<byte>, d: nat, negative: bool): byte
    requires |memory| == 31 && d < 16
  {
    memory[if negative then 15 - d else 15 + d]
  }

  /** What the digit loop writes for a number of size m, most significant first. */
  function Written(m: nat, base: nat, memory: seq<byte>, negative: bool): (s: seq<byte>)
    requires 2 <= base <= 16 && |memory| == 31
    ensures |s| == |Digits(m, base)|
  {
    if m < base then [Glyph(memory, m, negative)]
    else Written(m / base, base, memory, negative) + [Glyph(memory, m % base, negative)]
  }

  /** What itoa writes.  The least int is its own negative, so its digits come from before the table. */
  function Text(v: int32, base: nat, memory: seq<byte>): (s: seq<byte>)
    requires 2 <= base <= 16 && |memory| == 31
    ensures |s| == |Numeral(v, base)|
  {
    if v == INT_MIN then [MINUS] + Written(-INT_MIN, base, memory, true) else Numeral(v, base)
  }

  lemma {:induction false} WrittenIsDigits(m: nat, base: nat, memory: seq<byte>)
    requires 2 <= base <= 16 && IsTable(memory)
    ensures Written(m, base, memory, false) == Digits(m, base)
  {
    if m >= base {
      WrittenIsDigits(m / base, base, memory);
    }
  }

  lemma WrittenStep(m: nat, base: nat, memory: seq<byte>, negative: bool)
    requires 2 <= base <= 16 && |memory| == 31
    ensures 0 <= m / base && (m / base == 0 || m / base < m) && 0 <= m % base < base
    ensures Written(m, base, memory, negative) ==
            (if m / base == 0 then [] else Written(m / base, base, memory, negative)) + [Glyph(memory, m % base, negative)]
  {
    Quotient(m, base);
  }

  /** The first digit of a number that is not zero is not zero. */
  lemma {:induction false} LeadingGlyph(m: nat, base: nat) returns (d: nat)
    requires 2 <= base <= 16 && m > 0
    ensures 0 < d < base
    ensures forall memory: seq<byte> :: |memory| == 31 ==> Written(m, base, memory, true)[0] == Glyph(memory, d, true)
  {
    if m < base {
      d := m;
    } else {
      Quotient(m, base);
      d := LeadingGlyph(m / base, base);
    }
  }

  /** A number that is negative when its digits are written takes each digit from before the table, as far
      from its start as the digit is large. */
  lemma {:induction false} WrittenBefore(m: nat, base: nat, memory: seq<byte>, k: nat)
    requires 2 <= base <= 16 && |memory| == 31 && k < |Digits(m, base)|
    ensures IsDigit(Digits(m, base)[k], base)
    ensures Written(m, base, memory, true)[k] == memory[15 - DigitValue(Digits(m, base)[k])]
  {
    if m < base {
      TokenIs(m);
    } else {
      Quotient(m, base);
      TokenIs(m % base);
      if k < |Digits(m / base, base)| {
        WrittenBefore(m / base, base, memory, k);
      }
    }
  }

  function Digits16(): (ds: seq<byte>)
    ensures |ds| == 16 && forall d :: 0 <= d < 16 ==> ds[d] == Token(d)
  {
    seq(16, d requires 0 <= d < 16 => Token(d))
  }

  /** What itoa writes depends on the memory before its digit table exactly for the least int. */
  lemma ReadsBeforeTable(v: int32, base: nat)
    requires 2 <= base <= 16
    ensures (forall a, b :: IsTable(a) && IsTable(b) ==> Text(v, base, a) == Text(v, base, b)) <==> v > INT_MIN
  {
    hide Token, Digits, Written;
    if v == INT_MIN {
      var a, b := seq(15, i => 0) + Digits16(), seq(15, i => 1) + Digits16();
      assert IsTable(a) && IsTable(b);
      var d := LeadingGlyph(-INT_MIN, base);
      assert Text(v, base, a)[1] == Glyph(a, d, true) == 0;
      assert Text(v, base, b)[1] == Glyph(b, d, true) == 1;
    }
  }

  // ---------------------------------------------------------------- what digits mean

  function DigitValue(c: byte): (d: nat)
    requires 48 <= c < 58 || 65 <= c < 71
    ensures d < 16
  {
    if c < 58 then c - 48 else c - 55
  }

  predicate IsDigit(c: byte, base: nat) {
    (48 <= c < 58 || 65 <= c < 71) && DigitValue(c) < base
  }

  predicate AreDigits(ds: seq<byte>, base: nat) {
    forall i :: 0 <= i < |ds| ==> IsDigit(ds[i], base)
  }

  /** Positional value. */
  function ValueOf(ds: seq<byte>, base: nat): nat
    requires AreDigits(ds, base)
  {
    if ds == [] then 0 else ValueOf(ds[..|ds| - 1], base) * base + DigitValue(ds[|ds| - 1])
  }

  /** No leading zero, except in zero itself. */
  predicate Minimal(ds: seq<byte>) {
    |ds| > 0 && (|ds| > 1 ==> ds[0] != 48)
  }

  /** The digits of a number are the one minimal digit string with its value. */
  lemma {:induction false} DigitsAre(v: nat, base: nat, ds: seq<byte>)
    requires 2 <= base <= 16
    ensures ds == Digits(v, base) <==> AreDigits(ds, base) && Minimal(ds) && ValueOf(ds, base) == v
  {
    DigitsMean(v, base);
    if AreDigits(ds, base) && Minimal(ds) && ValueOf(ds, base) == v {
      MinimalIsDigits(ds, base);
    }
  }

  lemma {:induction false} DigitsMean(v: nat, base: nat)
    requires 2 <= base <= 16
    ensures var ds := Digits(v, base);
            AreDigits(ds, base) && Minimal(ds) && ValueOf(ds, base) == v && (v > 0 ==> ds[0] != 48)
  {
    hide Digits, Token, DigitValue;
    DigitsStep(v, base);
    Quotient(v, base);
    var c := Token(v % base);
    TokenIs(v % base);
    assert IsDigit(c, base);
    if v / base == 0 {
      assert [c][..0] == [];
    } else {
      DigitsMean(v / base, base);
      var top := Digits(v / base, base);
      assert (top + [c])[..|top|] == top;
    }
  }

  lemma TokenIs(d: nat)
    requires d < 16
    ensures var c := Token(d);
            (48 <= c < 58 || 65 <= c < 71) && DigitValue(c) == d && (d == 0 <==> c == 48)
  {}

  lemma {:induction false} MinimalIsDigits(ds: seq<byte>, base: nat)
    requires 2 <= base <= 16 && AreDigits(ds, base) && Minimal(ds)
    ensures ds == Digits(ValueOf(ds, base), base)
    ensures ds[0] != 48 ==> ValueOf(ds, base) > 0
  {
    hide Digits, Token, DigitValue;
    var n := |ds| - 1;
    assert IsDigit(ds[n], base);
    var d, top := DigitValue(ds[n]), ds[..n];
    TokenOf(ds[n]);
    DigitsStep(ValueOf(ds, base), base);
    assert ds == top + [ds[n]];
    if n > 0 {
      MinimalIsDigits(top, base);
      QuotientAndDigit(ValueOf(top, base), d, base);
    } else {
      assert ValueOf(top, base) == 0;
      Quotient(d, base);
    }
  }

  lemma TokenOf(c: byte)
    requires 48 <= c < 58 || 65 <= c < 71
    ensures Token(DigitValue(c)) == c && (DigitValue(c) == 0 <==> c == 48)
  {}

  lemma QuotientAndDigit(t: nat, d: nat, base: nat)
    requires 0 <= d < base && t > 0
    ensures t * base + d >= base && (t * base + d) / base == t && (t * base + d) % base == d
  {
    AtLeast(t, base);
    var v := t * base + d;
    SameQuotient(v / base, v % base, t, d, base);
  }

  lemma SameQuotient(q: int, r: int, t: int, d: int, base: nat)
    requires q * base + r == t * base + d && 0 <= r < base && 0 <= d < base
    ensures q == t && r == d
  {
    Distribute(t, q, base);
    Distribute(q, t, base);
    if q < t {
      AtLeast(t - q, base);
    } else if q > t {
      AtLeast(q - t, base);
    }
  }

  lemma Distribute(a: int, b: int, c: int)
    ensures (a - b) * c == a * c - b * c
  {}

  lemma AtLeast(a: int, b: nat)
    requires a >= 1
    ensures a * b >= b
  {}

  /** A number below 2^n has at most n digits. */
  lemma {:induction false} DigitsShort(v: nat, base: nat, n: nat, p: nat)
    requires 2 <= base <= 16 && n > 0 && p == TwoTo(n) && v < p
    ensures |Digits(v, base)| <= n
  {
    hide Digits;
    DigitsStep(v, base);
    if v / base != 0 {
      Halved(v, base);
      DigitsShort(v / base, base, n - 1, TwoTo(n - 1));
    }
  }

  function TwoTo(n: nat): nat {
    if n == 0 then 1 else 2 * TwoTo(n - 1)
  }

  // ---------------------------------------------------------------- itoa

  lemma Quotient(v: nat, base: nat)
    requires base >= 2
    ensures 0 <= v / base && (v / base == 0 <==> v < base) && (v / base == 0 || v / base < v) && 0 <= v % base < base
  {
    var q, r := v / base, v % base;
    assert v == q * base + r && 0 <= r < base;
    if q >= 1 {
      AtLeast(q, base);
      TwiceAtMost(q, base);
    } else if q < 0 {
      AtLeast(-q, base);
      Distribute(0, q, base);
    }
  }

  lemma Halved(v: nat, base: nat)
    requires base >= 2
    ensures v / base <= v / 2
  {
    Quotient(v, base);
    TwiceAtMost(v / base, base);
  }

  lemma TwiceAtMost(q: nat, base: nat)
    requires base >= 2
    ensures 2 * q <= q * base
  {
    Product(base - 2, q);
    Distribute(base, 2, q);
  }

  lemma Product(a: nat, b: nat)
    ensures a * b >= 0
  {}

  lemma DigitsStep(v: nat, base: nat)
    requires 2 <= base <= 16
    ensures 0 <= v / base && (v / base == 0 || v / base < v) && 0 <= v % base < base
    ensures Digits(v, base) == (if v / base == 0 then [] else Digits(v / base, base)) + [Token(v % base)]
  {
    Quotient(v, base);
  }

  lemma ReversedAdd(s: seq<byte>, c: byte)
    ensures Reversed(s + [c]) == [c] + Reversed(s)
  {}

  /** The second loop of itoa. */
  method ReverseInPlace(str: array<byte>, len: nat)
    requires len <= str.Length
    modifies str
    ensures str[..len] == Reversed(old(str[..len])) && str[len..] == old(str[len..])
  {
    var n, i := 0, len - 1;
    while n < i
      invariant 0 <= n <= i + 1 && n + i == len - 1
      invariant forall k :: 0 <= k < len ==> str[k] == if n <= k <= i then old(str[k]) else old(str[len - 1 - k])
      invariant str[len..] == old(str[len..])
    {
      var c := str[n];
      str[n] := str[i];
      str[i] := c;
      n, i := n + 1, i - 1;
    }
  }

  /** Division and remainder of ints, towards zero. */
  function Div(v: int, base: nat): int
    requires base > 0
  {
    if v >= 0 then v / base else -(-v / base)
  }

  function Mod(v: int, base: nat): int
    requires base > 0
  {
    if v >= 0 then v % base else -(-v % base)
  }

  function Abs(v: int): nat {
    if v >= 0 then v else -v
  }

  lemma DivMod(v: int, base: nat)
    requires base >= 2
    ensures Abs(Div(v, base)) == Abs(v) / base && (v < 0 ==> Div(v, base) <= 0) && (v >= 0 ==> Div(v, base) >= 0)
    ensures Mod(v, base) == if v < 0 then -(Abs(v) % base) else Abs(v) % base
  {
    Quotient(Abs(v), base);
  }

  /** The first loop of itoa, which writes the last digit first. */
  method WriteDigits(val: int, str: array<byte>, base: nat, memory: seq<byte>) returns (i: nat)
    requires 2 <= base <= 16 && |memory| == 31 && str.Length >= |Digits(Abs(val), base)|
    modifies str
    ensures i == |Digits(Abs(val), base)| && Reversed(str[..i]) == Written(Abs(val), base, memory, val < 0)
    ensures str[i..] == old(str[i..])
  {
    hide Digits, Written, Token, Reversed, Div, Mod;
    var v := val;
    i := 0;
    ghost var ds, negative := Written(Abs(val), base, memory, val < 0), val < 0;
    while true
      invariant 0 <= i < |ds| && (negative <==> v < 0)
      invariant ds == Written(Abs(v), base, memory, negative) + Reversed(str[..i])
      invariant str[i..] == old(str[i..])
      decreases Abs(v)
    {
      ghost var was := str[..i];
      ghost var rest := str[i..];
      WrittenStep(Abs(v), base, memory, negative);
      DivMod(v, base);
      var c := memory[15 + Mod(v, base)];
      ReversedAdd(was, c);
      str[i] := c;
      i := i + 1;
      assert str[..i] == was + [c] && str[i..] == rest[1..];
      v := Div(v, base);
      if v == 0 {
        break;
      }
    }
  }

  /** str[i] = c */
  method PutByte(str: array<byte>, i: nat, c: byte)
    requires i < str.Length
    modifies str
    ensures str[..i + 1] == old(str[..i]) + [c] && str[i + 1..] == old(str[i + 1..])
  {
    str[i] := c;
  }

  lemma SuffixOf(a: seq<byte>, b: seq<byte>, i: nat, j: nat)
    requires i <= j <= |a| && |a| == |b| && a[i..] == b[i..]
    ensures a[j..] == b[j..]
  {
    assert a[j..] == a[i..][j - i..] && b[j..] == b[i..][j - i..];
  }

  /** itoa, before the digits are turned round: `flag` is whether the number was negative. */
  method WriteSigned(val: int32, str: array<byte>, base: nat, memory: seq<byte>) returns (i: nat)
    requires 2 <= base <= 16 && IsTable(memory) && str.Length > |Numeral(val, base)|
    modifies str
    ensures i == |Numeral(val, base)| && Reversed(str[..i]) == Text(val, base, memory)
    ensures str[i..] == old(str[i..])
  {
    hide Digits, Written, Reversed;
    var v: int, flag := val, false;
    if v < 0 {
      v := Wrap32(-v);
      flag := true;
    }
    assert v == if val == INT_MIN then INT_MIN else Abs(val);
    WrittenIsDigits(Abs(val), base, memory);
    hide IsTable;
    i := WriteDigits(v, str, base, memory);
    if flag {
      ghost var was := str[..];
      ReversedAdd(str[..i], MINUS);
      PutByte(str, i, MINUS);
      i := i + 1;
      SuffixOf(old(str[..]), was, i - 1, i);
    }
  }

  /** itoa, with `memory` around its digits. */
  method Itoa(val: int32, str: array<byte>, base: nat, memory: seq<byte>) returns (ghost len: nat)
    requires 2 <= base <= 16 && IsTable(memory) && str.Length > |Numeral(val, base)|
    modifies str
    ensures len == |Numeral(val, base)| && str[..len] == Text(val, base, memory) && str[len] == 0
    ensures str[len + 1..] == old(str[len + 1..])
  {
    hide Digits, Written, Reversed, Text, Numeral, IsTable;
    var i := WriteSigned(val, str, base, memory);
    SuffixOf(old(str[..]), str[..], i, i + 1);
    PutByte(str, i, 0);
    label ended:
    ReverseInPlace(str, i);
    len := i;
    SuffixOf(old@ended(str[..]), str[..], i, i + 1);
    Ended(old@ended(str[..]), str[..], i);
  }

  lemma Ended(a: seq<byte>, b: seq<byte>, i: nat)
    requires i < |a| == |b| && a[i..] == b[i..]
    ensures a[i] == b[i] && a[..i] == a[..i + 1][..i]
  {
    assert a[i] == a[i..][0] && b[i] == b[i..][0];
  }

  // ---------------------------------------------------------------- atoi

  /** An int result, wrapped to 32 bits. */
  function Wrap32(v: int): (r: int)
    ensures -0x8000_0000 <= r < 0x8000_0000
    ensures -0x8000_0000 <= v < 0x8000_0000 ==> r == v
  {
    (v + 0x8000_0000) % 0x1_0000_0000 - 0x8000_0000
  }

  lemma WrapIs(v: int) returns (k: int)
    ensures Wrap32(v) == v + k * 0x1_0000_0000
  {
    k := -((v + 0x8000_0000) / 0x1_0000_0000);
  }

  lemma WrapAdd(v: int, k: int)
    ensures Wrap32(v + k * 0x1_0000_0000) == Wrap32(v)
  {}

  /** What atoi computes, character by character. */
  function AtoiFrom(n: int, s: seq<byte>): int
    decreases |s|
  {
    if s == [] then n else AtoiFrom(Wrap32(10 * n + SignedChar(s[0]) - 48), s[1..])
  }

  function SignedChar(c: byte): int {
    if c < 128 then c else c - 256
  }

  /** Wrapping every step of n = (n << 3) + (n << 1) + c - '0' wraps the whole. */
  lemma WrapSteps(n: int, c: int)
    ensures Wrap32(Wrap32(Wrap32(Wrap32(n * 8) + Wrap32(n * 2)) + c) - 48) == Wrap32(10 * n + c - 48)
  {
    hide Wrap32;
    var i := WrapIs(n * 8);
    var j := WrapIs(n * 2);
    var k := WrapIs(Wrap32(n * 8) + Wrap32(n * 2));
    var l := WrapIs(Wrap32(Wrap32(n * 8) + Wrap32(n * 2)) + c);
    WrapAdd(10 * n + c - 48, i + j + k + l);
  }

  /** atoi, for a string of these bytes */
  method Atoi(str: seq<byte>) returns (n: int)
    ensures n == AtoiFrom(0, str)
  {
    hide Wrap32;
    n := 0;
    var i := 0;
    while i < |str|
      invariant i <= |str| && AtoiFrom(n, str[i..]) == AtoiFrom(0, str)
    {
      assert str[i..][1..] == str[i + 1..];
      WrapSteps(n, SignedChar(str[i]));
      n := Wrap32(Wrap32(Wrap32(Wrap32(n * 8) + Wrap32(n * 2)) + SignedChar(str[i])) - 48);
      i := i + 1;
    }
    assert str[i..] == [];
  }

  lemma WrapDigit(n: int, c: int)
    ensures Wrap32(10 * Wrap32(n) + c) == Wrap32(10 * n + c)
  {
    hide Wrap32;
    var k := WrapIs(n);
    WrapAdd(10 * n + c, 10 * k);
  }

  /** On decimal digits atoi gives the value modulo 2^32. */
  lemma {:induction false} AtoiWraps(s: seq<byte>, t: seq<byte>)
    requires AreDigits(s, 10) && AreDigits(t, 10)
    ensures AreDigits(s + t, 10) && AtoiFrom(Wrap32(ValueOf(s, 10)), t) == Wrap32(ValueOf(s + t, 10))
    decreases |t|
  {
    hide Wrap32;
    if t == [] {
      assert s + t == s;
    } else {
      var s' := s + [t[0]];
      assert s'[..|s|] == s && s' + t[1..] == s + t;
      assert AreDigits(s', 10) by { assert IsDigit(t[0], 10); }
      AtoiWraps(s', t[1..]);
      assert IsDigit(t[0], 10);
      WrapDigit(ValueOf(s, 10), (t[0] as int) - 48);
    }
  }

  /** A string of decimal digits is read exactly when its value is an int. */
  lemma AtoiExact(s: seq<byte>)
    requires AreDigits(s, 10)
    ensures AtoiFrom(0, s) == ValueOf(s, 10) <==> ValueOf(s, 10) < 0x8000_0000
  {
    hide AtoiFrom;
    AtoiWraps([], s);
    assert [] + s == s;
  }

  /** n followed by the digits ds, in decimal. */
  function Shifted(n: int, ds: seq<byte>): int
    requires AreDigits(ds, 10)
  {
    n * TenTo(|ds|) + ValueOf(ds, 10)
  }

  function TenTo(n: nat): nat {
    if n == 0 then 1 else 10 * TenTo(n - 1)
  }

  /** One more character: ten times what was read so far, and the char less '0', whatever char it is; those
      from 128 on are negative. */
  lemma {:induction false} AtoiSnoc(n: int, s: seq<byte>, c: byte)
    ensures AtoiFrom(n, s + [c]) == Wrap32(10 * AtoiFrom(n, s) + (if c < 128 then c else c as int - 256) - 48)
    decreases |s|
  {
    hide Wrap32;
    if s == [] {
      assert s + [c] == [c];
      assert [c][1..] == [];
    } else {
      assert (s + [c])[1..] == s[1..] + [c];
      AtoiSnoc(Wrap32(10 * n + SignedChar(s[0]) - 48), s[1..], c);
    }
  }

  /** On digits, atoi goes on from any number as the decimal system does, modulo 2^32. */
  lemma {:induction false} AtoiShifts(n: int32, ds: seq<byte>)
    requires AreDigits(ds, 10)
    ensures AtoiFrom(n, ds) == Wrap32(Shifted(n, ds))
    decreases |ds|
  {
    hide Wrap32;
    if ds != [] {
      var k := |ds| - 1;
      var c := ds[k];
      assert ds == ds[..k] + [c] && IsDigit(c, 10);
      AtoiSnoc(n, ds[..k], c);
      AtoiShifts(n, ds[..k]);
      WrapDigit(Shifted(n, ds[..k]), c as int - 48);
      TenTimes(n, TenTo(k));
      assert AreDigits(ds[..k], 10);
    }
  }

  lemma TenTimes(n: int, p: int)
    ensures 10 * (n * p) == n * (10 * p)
  {}

  lemma {:induction false} DigitsBound(ds: seq<byte>)
    requires AreDigits(ds, 10)
    ensures ValueOf(ds, 10) < TenTo(|ds|)
  {
    if ds != [] {
      assert IsDigit(ds[|ds| - 1], 10);
      DigitsBound(ds[..|ds| - 1]);
    }
  }

  lemma {:induction false} DigitsReach(ds: seq<byte>)
    requires AreDigits(ds, 10) && |ds| > 0 && ds[0] != 48
    ensures ValueOf(ds, 10) >= TenTo(|ds| - 1)
  {
    var k := |ds| - 1;
    assert IsDigit(ds[k], 10);
    if k > 0 {
      DigitsReach(ds[..k]);
    } else {
      assert ds[..0] == [];
    }
  }

  lemma {:induction false} TenGrows(m: nat, n: nat)
    requires m <= n
    ensures TenTo(m) <= TenTo(n)
  {
    if m < n {
      TenGrows(m, n - 1);
    }
  }

  /** atoi does not look for a sign: "-" counts as -3 and shifts the digits' value by three powers of ten.
      Only ten digits can wrap around to the number again, and only one number does. */
  lemma SignWraps(m: nat, n: nat)
    requires 0 < m < 0x8000_0000 && n > 0 && TenTo(n - 1) <= m < TenTo(n)
    ensures Wrap32(-3 * TenTo(n) + m) + m == 0 <==> m == 2115098112
  {
    if n <= 9 {
      TenGrows(n, 9);
      NineDigits(m, TenTo(n));
    } else {
      TenGrows(9, n - 1);
      if n > 10 {
        TenGrows(10, n - 1);
      }
      TenDigits(m);
    }
  }

  lemma NineDigits(m: nat, p: nat)
    requires 0 < m < p <= 1000000000
    ensures Wrap32(-3 * p + m) + m != 0
  {
    var k := WrapIs(-3 * p + m);
    assert Wrap32(-3 * p + m) + m == 0 ==> k * 0x1_0000_0000 == 3 * p - 2 * m;
  }

  lemma TenDigits(m: nat)
    requires 1000000000 <= m < 0x8000_0000
    ensures Wrap32(-3 * 10000000000 + m) + m == 0 <==> m == 2115098112
  {
    var k := WrapIs(-3 * 10000000000 + m);
    assert Wrap32(-3 * 10000000000 + m) + m == 0 ==> k == 6;
  }

  /** atoi undoes itoa on every number that is not negative, and on one that is. */
  lemma AtoiOfItoa(v: int32)
    requires v > INT_MIN
    ensures AtoiFrom(0, Numeral(v, 10)) == v <==> v >= 0 || v == -2115098112
  {
    hide AtoiFrom, Digits;
    var ds := Digits(Abs(v), 10);
    DigitsMean(Abs(v), 10);
    if v >= 0 {
      AtoiExact(ds);
    } else {
      SignFirst(ds);
      AtoiShifts(-3, ds);
      DigitsBound(ds);
      DigitsReach(ds);
      SignWraps(-v, |ds|);
    }
  }

  lemma SignFirst(ds: seq<byte>)
    ensures AtoiFrom(0, [MINUS] + ds) == AtoiFrom(-3, ds)
  {
    assert ([MINUS] + ds)[1..] == ds;
  }

  // ---------------------------------------------------------------- vsprintf

  /** An argument passed by the caller. */
  datatype Arg = Int(i: int32) | Str(s: seq<byte>)

  predicate IsNumber(c: byte) {
    c in {'d' as int, 'i' as int, 'x' as int, 'b' as int}
  }

  function Base(c: byte): nat
    requires IsNumber(c)
  {
    if c == 'x' as int then 16 else if c == 'b' as int then 2 else 10
  }

  /** A conversion that takes an argument. */
  predicate Takes(c: byte) {
    IsNumber(c) || c in {'c' as int, 's' as int}
  }

  /** The arguments a conversion character can take. */
  predicate Accepts(c: byte, a: Arg) {
    && (c == 's' as int ==> a.Str? && forall k :: 0 <= k < |a.s| ==> a.s[k] != 0)
    && (c == 'c' as int ==> a.Int?)
    && (IsNumber(c) ==> a.Int?)
  }

  /** A string up to its NUL. */
  function Cut(s: seq<byte>): seq<byte> {
    s[..End(s)]
  }

  function Convert(c: byte, a: Arg, memory: seq<byte>): seq<byte>
    requires Takes(c) && Accepts(c, a) && |memory| == 31
  {
    if c == 'c' as int then [a.i % 256] else if c == 's' as int then a.s else Cut(Text(a.i, Base(c), memory))
  }

  /** What each conversion prints: decimal, hexadecimal and binary numerals of every int above the least, the
      low byte of a char, and a string as it is. */
  lemma ConvertIs(i: int32, text: seq<byte>, memory: seq<byte>)
    requires |memory| == 31 && i > INT_MIN && forall k :: 0 <= k < |text| ==> text[k] != 0
    ensures Convert('d' as int, Int(i), memory) == Convert('i' as int, Int(i), memory) == Numeral(i, 10)
    ensures Convert('x' as int, Int(i), memory) == Numeral(i, 16)
    ensures Convert('b' as int, Int(i), memory) == Numeral(i, 2)
    ensures Convert('c' as int, Int(i), memory) == [i % 256]
    ensures Convert('s' as int, Str(text), memory) == text
  {
    hide Numeral, Text;
    NumeralCut(i, 10);
    NumeralCut(i, 16);
    NumeralCut(i, 2);
    TextIs(i, 10, memory);
    TextIs(i, 16, memory);
    TextIs(i, 2, memory);
  }

  lemma TextIs(i: int32, base: nat, memory: seq<byte>)
    requires 2 <= base <= 16 && |memory| == 31 && i > INT_MIN
    ensures Text(i, base, memory) == Numeral(i, base)
  {}

  lemma NumeralCut(i: int32, base: nat)
    requires 2 <= base <= 16
    ensures Cut(Numeral(i, base)) == Numeral(i, base)
  {
    NumeralIsString(i, base);
    assert End(Numeral(i, base)) == |Numeral(i, base)|;
  }

  /** The digits themselves, the sign, and what stands for an argument. */
  lemma Characters()
    ensures forall d :: 0 <= d < 16 ==> Token(d) == "0123456789ABCDEF"[d] as int
    ensures MINUS == '-' as int && PERCENT == '%' as int
    ensures forall v, base :: v < 0 && 2 <= base <= 16 ==> Numeral(v, base) == ['-' as int] + Numeral(-v, base)
  {
    assert forall d :: 0 <= d < 10 ==> "0123456789ABCDEF"[d] as int == 48 + d;
  }

  /** The arguments are there and have the types the format asks for. */
  predicate Fits(format: seq<byte>, args: seq<Arg>)
    decreases |format|
  {
    if format == [] then true
    else if format[0] != PERCENT then Fits(format[1..], args)
    else if |format| == 1 then true
    else if Takes(format[1]) then args != [] && Accepts(format[1], args[0]) && Fits(format[2..], args[1..])
    else Fits(format[2..], args)
  }

  /** The text a format stands for: a conversion that is not known prints nothing, also "%%". */
  function Render(format: seq<byte>, args: seq<Arg>, memory: seq<byte>): seq<byte>
    requires Fits(format, args) && |memory| == 31
    decreases |format|
  {
    if format == [] then []
    else if format[0] != PERCENT then [format[0]] + Render(format[1..], args, memory)
    else if |format| == 1 then []
    else if Takes(format[1]) then Convert(format[1], args[0], memory) + Render(format[2..], args[1..], memory)
    else Render(format[2..], args, memory)
  }

  /** Any other character after "%" prints nothing, "%%" too, and takes no argument; nor does a "%" at the
      end print anything. */
  lemma Unknown(c: byte, format: seq<byte>, args: seq<Arg>, memory: seq<byte>)
    requires c as char !in "dixbcs" && |memory| == 31 && Fits(format, args)
    ensures Fits(['%' as int, c] + format, args)
    ensures Render(['%' as int, c] + format, args, memory) == Render(format, args, memory)
    ensures Fits(['%' as int], args) && Render(['%' as int], args, memory) == []
  {
    var f := ['%' as int, c] + format;
    assert f[2..] == format && f[1] == c;
    assert forall d :: d in {'d', 'i', 'x', 'b', 'c', 's'} ==> d in "dixbcs";
  }

  lemma NumeralIsString(v: int32, base: nat)
    requires 2 <= base <= 16
    ensures |Numeral(v, base)| <= 33 && forall k :: 0 <= k < |Numeral(v, base)| ==> Numeral(v, base)[k] != 0
  {
    hide Digits;
    DigitsMean(Abs(v), base);
    assert TwoTo(8) == 256;
    assert TwoTo(16) == 0x1_0000;
    assert TwoTo(24) == 0x100_0000;
    DigitsShort(Abs(v), base, 32, 0x1_0000_0000);
  }

  /** strlen */
  method StrLen(str: array<byte>, ghost len: nat) returns (n: nat)
    requires len < str.Length && str[len] == 0
    ensures n == End(str[..len])
  {
    n := 0;
    while str[n] != 0
      invariant 0 <= n <= End(str[..len])
      decreases len - n
    {
      n := n + 1;
    }
  }

  /** One of the loops that copy characters to str[j] and on. */
  method Append(str: array<byte>, j: nat, s: seq<byte>) returns (next: nat)
    requires j + |s| <= str.Length
    modifies str
    ensures next == j + |s| && str[..next] == old(str[..j]) + s
  {
    next := j;
    for k := 0 to |s|
      invariant next == j + k && str[..next] == old(str[..j]) + s[..k]
    {
      str[next] := s[k];
      next := next + 1;
      assert str[..next] == str[..next - 1] + [s[k]];
    }
  }

  /** The inner switch of vsprintf, for a conversion with an argument. */
  method PrintArg(str: array<byte>, j: nat, c: byte, arg: Arg, memory: seq<byte>) returns (next: nat)
    requires Takes(c) && Accepts(c, arg) && IsTable(memory) && j + |Convert(c, arg, memory)| <= str.Length
    modifies str
    ensures next == j + |Convert(c, arg, memory)| && str[..next] == old(str[..j]) + Convert(c, arg, memory)
  {
    hide Numeral, Text, End;
    if c == 'c' as int {
      str[j] := arg.i % 256;
      next := j + 1;
      assert str[..next] == str[..j] + [str[j]];
    } else if c == 's' as int {
      next := Append(str, j, arg.s);
    } else {
      var buf := new byte[256];
      NumeralIsString(arg.i, Base(c));
      ghost var len := Itoa(arg.i, buf, Base(c), memory);
      var n := StrLen(buf, len);
      assert buf[..n] == buf[..len][..n];
      next := Append(str, j, buf[..n]);
    }
  }

  /** What is left of a format at i, which a last "%" steps over. */
  function From(format: seq<byte>, i: nat): seq<byte> {
    if i <= |format| then format[i..] else []
  }

  lemma RenderStep(format: seq<byte>, i: nat, args: seq<Arg>, memory: seq<byte>)
    requires i < |format| && Fits(From(format, i), args) && |memory| == 31
    ensures if format[i] != PERCENT then
              && Fits(From(format, i + 1), args)
              && Render(From(format, i), args, memory) == [format[i]] + Render(From(format, i + 1), args, memory)
            else if i + 1 < |format| && Takes(format[i + 1]) then
              && args != [] && Accepts(format[i + 1], args[0]) && Fits(From(format, i + 2), args[1..])
              && Render(From(format, i), args, memory) ==
                 Convert(format[i + 1], args[0], memory) + Render(From(format, i + 2), args[1..], memory)
            else
              Fits(From(format, i + 2), args) && Render(From(format, i), args, memory) == Render(From(format, i + 2), args, memory)
  {
    hide Takes, Accepts, Convert;
  }

  lemma RenderNothing(args: seq<Arg>, memory: seq<byte>)
    requires |memory| == 31
    ensures Fits([], args) && Render([], args, memory) == []
  {}

  /** vsprintf */
  method Vsprintf(str: array<byte>, format: seq<byte>, args: seq<Arg>, memory: seq<byte>) returns (r: int, ghost len: nat)
    requires Fits(format, args) && IsTable(memory) && str.Length > |Render(format, args, memory)|
    modifies str
    ensures r == 0 && len == |Render(format, args, memory)| && str[..len] == Render(format, args, memory) && str[len] == 0
  {
    hide Takes, Accepts, Convert, Render, Fits;
    var i, j, a := 0, 0, 0;
    while i < |format|
      invariant 0 <= i <= |format| + 1 && 0 <= j && a <= |args|
      invariant Fits(From(format, i), args[a..])
      invariant j + |Render(From(format, i), args[a..], memory)| == |Render(format, args, memory)|
      invariant str[..j] + Render(From(format, i), args[a..], memory) == Render(format, args, memory)
      decreases |format| + 1 - i
    {
      RenderStep(format, i, args[a..], memory);
      if format[i] == PERCENT {
        i := i + 1;
        if i < |format| && Takes(format[i]) {
          j := PrintArg(str, j, format[i], args[a], memory);
          a := a + 1;
        }
      } else {
        str[j] := format[i];
        j := j + 1;
        assert str[..j] == str[..j - 1] + [format[i]];
      }
      i := i + 1;
    }
    RenderNothing(args[a..], memory);
    assert From(format, i) == [] && str[..j] + [] == str[..j];
    str[j] := 0;
    return 0, j;
  }

  /** Without a "%" a format stands for itself. */
  lemma {:induction false} RenderPlain(format: seq<byte>, args: seq<Arg>, memory: seq<byte>)
    requires PERCENT !in format && |memory| == 31
    ensures Fits(format, args) && Render(format, args, memory) == format
    decreases |format|
  {
    if format != [] {
      RenderPlain(format[1..], args, memory);
    }
  }

  /** Formats that do not end in the middle of a conversion. */
  predicate Whole(format: seq<byte>)
    decreases |format|
  {
    if format == [] then true
    else if format[0] != PERCENT then Whole(format[1..])
    else |format| > 1 && Whole(format[2..])
  }

  /** The number of arguments a format uses. */
  function Uses(format: seq<byte>): nat
    decreases |format|
  {
    if format == [] then 0
    else if format[0] != PERCENT then Uses(format[1..])
    else if |format| == 1 then 0
    else (if Takes(format[1]) then 1 else 0) + Uses(format[2..])
  }

  /** A format in two parts prints the first with its arguments and then the second with the rest. */
  lemma {:induction false} RenderParts(f: seq<byte>, g: seq<byte>, args: seq<Arg>, memory: seq<byte>)
    requires Whole(f) && Fits(f + g, args) && |memory| == 31
    ensures Fits(f, args) && Uses(f) <= |args| && Fits(g, args[Uses(f)..])
    ensures Render(f + g, args, memory) == Render(f, args, memory) + Render(g, args[Uses(f)..], memory)
    decreases |f|
  {
    hide Takes, Accepts, Convert;
    if f == [] {
      assert f + g == g;
    } else if f[0] != PERCENT {
      assert (f + g)[1..] == f[1..] + g;
      RenderParts(f[1..], g, args, memory);
    } else {
      assert (f + g)[2..] == f[2..] + g && (f + g)[1] == f[1];
      if Takes(f[1]) {
        RenderParts(f[2..], g, args[1..], memory);
      } else {
        RenderParts(f[2..], g, args, memory);
      }
    }
  }
}
