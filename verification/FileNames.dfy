/** The 8.3 names of fs/fat.c: to_dos_file_name and to_normal_file_name. */
module FileNames {
  import opened FatModel

  const SPACE: byte := 32
  const DOT: byte := 46

  /** toupper and tolower add and subtract without looking. */
  function Upper(c: byte): byte { (c - 32) % 256 }
  function Lower(c: byte): byte { (c + 32) % 256 }

  function Shift(cs: seq<byte>): (r: seq<byte>)
    ensures |r| == |cs| && forall i :: 0 <= i < |cs| ==> r[i] == Upper(cs[i])
  {
    seq(|cs|, i requires 0 <= i < |cs| => Upper(cs[i]))
  }

  function Pad(cs: seq<byte>, n: nat): (r: seq<byte>)
    requires |cs| <= n
    ensures |r| == n
  {
    cs + seq(n - |cs|, i => SPACE)
  }

  /** A C string: its characters, and the bytes that follow in memory, the first of which is NUL. */
  datatype CString = CString(text: seq<byte>, after: seq<byte>) {
    ghost predicate Valid() {
      && (forall i :: 0 <= i < |text| ==> text[i] != 0)
      && |after| > 4 && after[0] == 0
    }

    function At(i: nat): byte
      requires i < |text| + |after|
    {
      if i < |text| then text[i] else after[i - |text|]
    }
  }

  /** to_dos_file_name */
  method ToDosFileName(name: CString, str: array<byte>)
    requires name.Valid() && str.Length >= NAME_LEN + 1
    modifies str
    ensures str[..NAME_LEN] == DosName(name) && str[NAME_LEN] == 0
  {
    forall i | 0 <= i < NAME_LEN {
      str[i] := SPACE;
    }
    var i := 0;
    while i < |name.text| && i < NAME_LEN
      invariant 0 <= i <= Stop(name) && Stop(name) <= 8
      invariant forall k :: 0 <= k < i ==> str[k] == Upper(name.text[k])
      invariant forall k :: i <= k < NAME_LEN ==> str[k] == SPACE
    {
      if name.At(i) == DOT || i == 8 {
        break;
      }
      str[i] := Upper(name.At(i));
      i := i + 1;
    }
    ghost var stop := i;
    assert stop == Stop(name);
    if name.At(i) == DOT {
      for j := 0 to 3
        invariant i == stop + j
        invariant forall k :: 0 <= k < 8 ==> str[k] == if k < stop then Upper(name.text[k]) else SPACE
        invariant forall k :: 8 <= k < NAME_LEN ==> str[k] == if k < 8 + j then ExtByte(name, stop, k - 8) else SPACE
      {
        i := i + 1;
        if name.At(i) != 0 {
          str[8 + j] := Upper(name.At(i));
        }
      }
    }
    str[NAME_LEN] := 0;
    DosNameAt(name);
  }

  /** Where the first loop stops: at a dot, after eight characters, or at the end. */
  function Stop(name: CString): (n: nat)
    ensures n <= 8 && n <= |name.text|
    ensures forall k :: 0 <= k < n ==> name.text[k] != DOT
    ensures n < 8 && n < |name.text| ==> name.text[n] == DOT
  {
    StopFrom(name.text, 0)
  }

  function StopFrom(text: seq<byte>, i: nat): (n: nat)
    requires i <= |text| && i <= 8
    ensures i <= n <= 8 && n <= |text|
    ensures forall k :: i <= k < n ==> text[k] != DOT
    ensures n < 8 && n < |text| ==> text[n] == DOT
    decreases |text| - i
  {
    if i == |text| || i == 8 || text[i] == DOT then i else StopFrom(text, i + 1)
  }

  /** The k-th of the three bytes read after the dot, wherever the string ends. */
  function ExtByte(name: CString, stop: nat, k: nat): byte
    requires stop + k + 1 < |name.text| + |name.after|
  {
    if name.At(stop + k + 1) != 0 then Upper(name.At(stop + k + 1)) else SPACE
  }

  ghost function DosName(name: CString): (r: seq<byte>)
    requires name.Valid()
    ensures |r| == NAME_LEN
  {
    var stop := Stop(name);
    Pad(Shift(name.text[..stop]), 8) +
    if name.At(stop) == DOT then [ExtByte(name, stop, 0), ExtByte(name, stop, 1), ExtByte(name, stop, 2)]
    else [SPACE, SPACE, SPACE]
  }

  lemma DosNameAt(name: CString)
    requires name.Valid()
    ensures var stop := Stop(name);
            && (forall k :: 0 <= k < 8 ==> DosName(name)[k] == if k < stop then Upper(name.text[k]) else SPACE)
            && (forall k :: 8 <= k < NAME_LEN ==>
                  DosName(name)[k] == if name.At(stop) == DOT then ExtByte(name, stop, k - 8) else SPACE)
  {}

  /** to_normal_file_name from position i on; `flag` is set until a dot is written. */
  ghost function NormalFrom(name: CString, i: nat, flag: bool): seq<byte>
    requires name.Valid() && |name.text| + |name.after| > 9 && i <= NAME_LEN
    decreases NAME_LEN - i
  {
    if i >= |name.text| || i >= NAME_LEN then []
    else if name.text[i] != SPACE then [Lower(name.text[i])] + NormalFrom(name, i + 1, flag)
    else if flag && name.At(9) != SPACE then [DOT] + NormalFrom(name, i + 1, false)
    else NormalFrom(name, i + 1, flag)
  }

  /** to_normal_file_name, up to the NUL it ends with. */
  method ToNormalFileName(name: CString, str: array<byte>) returns (ghost len: nat)
    requires name.Valid() && |name.text| + |name.after| > 9 && str.Length >= NAME_LEN + 1
    modifies str
    ensures len <= NAME_LEN && str[..len] == NormalFrom(name, 0, true) && str[len] == 0
    ensures forall k :: len < k < 11 ==> str[k] == ' ' as int
  {
    hide NormalFrom, Lower;
    var j, flag := 0, true;
    forall i | 0 <= i < NAME_LEN {
      str[i] := SPACE;
    }
    ghost var out: seq<byte> := [];
    var i := 0;
    while i < |name.text| && i < NAME_LEN
      invariant 0 <= j <= i <= NAME_LEN && str[..j] == out
      invariant out + NormalFrom(name, i, flag) == NormalFrom(name, 0, true)
      invariant forall k :: j <= k < NAME_LEN ==> str[k] == SPACE
    {
      NormalStep(name, i, flag, out);
      if name.At(i) != SPACE {
        str[j] := Lower(name.At(i));
        out := out + [Lower(name.At(i))];
        j := j + 1;
      } else if flag && name.At(9) != SPACE {
        flag := false;
        str[j] := DOT;
        out := out + [DOT];
        j := j + 1;
      }
      i := i + 1;
    }
    NormalEnd(name, i, flag);
    str[j] := 0;
    len := j;
    assert str[..len] == out;
  }

  lemma NormalStep(name: CString, i: nat, flag: bool, out: seq<byte>)
    requires name.Valid() && |name.text| + |name.after| > 9 && i < |name.text| && i < NAME_LEN
    ensures var c := name.text[i];
            out + NormalFrom(name, i, flag) ==
            if c != SPACE then out + [Lower(c)] + NormalFrom(name, i + 1, flag)
            else if flag && name.At(9) != SPACE then out + [DOT] + NormalFrom(name, i + 1, false)
            else out + NormalFrom(name, i + 1, flag)
  {
    hide Lower;
    Associates(out, [Lower(name.text[i])], NormalFrom(name, i + 1, flag));
    Associates(out, [DOT], NormalFrom(name, i + 1, false));
  }

  lemma Associates(a: seq<byte>, b: seq<byte>, c: seq<byte>)
    ensures a + (b + c) == a + b + c
  {}

  lemma NormalEnd(name: CString, i: nat, flag: bool)
    requires name.Valid() && |name.text| + |name.after| > 9 && i <= NAME_LEN
    ensures i >= |name.text| || i == NAME_LEN ==> NormalFrom(name, i, flag) == []
  {}

  // ---------------------------------------------------------------- names that work

  /** Characters that are not NUL, dot or space, and do not turn into a space. */
  predicate GoodPart(cs: seq<byte>) {
    forall i :: 0 <= i < |cs| ==> cs[i] != 0 && cs[i] != DOT && cs[i] != SPACE && Upper(cs[i]) != SPACE
  }

  predicate GoodName(base: seq<byte>, ext: seq<byte>) {
    && 1 <= |base| <= 8 && GoodPart(base)
    && (ext == [] || 2 <= |ext| <= 3) && GoodPart(ext)
  }

  function Text(base: seq<byte>, ext: seq<byte>): seq<byte> {
    if ext == [] then base else base + [DOT] + ext
  }

  function Dos(base: seq<byte>, ext: seq<byte>): (r: seq<byte>)
    requires |base| <= 8 && |ext| <= 3
    ensures |r| == NAME_LEN
  {
    Pad(Shift(base), 8) + Pad(Shift(ext), 3)
  }

  lemma StopAtDot(base: seq<byte>, ext: seq<byte>, i: nat)
    requires GoodName(base, ext) && i <= |base|
    ensures StopFrom(Text(base, ext), i) == |base|
    decreases |base| - i
  {
    if i < |base| {
      StopAtDot(base, ext, i + 1);
    }
  }

  /** The directory name of a good name is its two parts, shifted and padded, whatever follows it in
      memory. */
  lemma DosOfGood(base: seq<byte>, ext: seq<byte>, after: seq<byte>)
    requires GoodName(base, ext) && |after| > 4 && after[0] == 0
    ensures CString(Text(base, ext), after).Valid()
    ensures DosName(CString(Text(base, ext), after)) == Dos(base, ext)
  {
    hide StopFrom, Upper, DosName;
    var name := CString(Text(base, ext), after);
    TextAt(base, ext);
    StopAtDot(base, ext, 0);
    DosNameAt(name);
    forall k | 0 <= k < NAME_LEN ensures DosName(name)[k] == Dos(base, ext)[k] {
      if k < 8 {
        PadAt(base, 8, k);
      } else {
        PadAt(ext, 3, k - 8);
      }
    }
  }

  /** The same by the numbers: 32 less for every character of the name, modulo 256, the base from byte 0 and
      the extension from byte 8, and spaces elsewhere. */
  lemma DosBytes(base: seq<byte>, ext: seq<byte>, after: seq<byte>, k: nat)
    requires GoodName(base, ext) && |after| > 4 && after[0] == 0 && k < 11
    ensures CString(Text(base, ext), after).Valid()
    ensures DosName(CString(Text(base, ext), after))[k] ==
            if k < |base| then (base[k] as int - 32) % 256
            else if 8 <= k < 8 + |ext| then (ext[k - 8] as int - 32) % 256
            else 32
  {
    hide DosName;
    DosOfGood(base, ext, after);
    if k < 8 {
      PadAt(base, 8, k);
    } else {
      PadAt(ext, 3, k - 8);
    }
  }

  /** A longer name without a dot in its first nine characters loses all but eight of them. */
  lemma LongName(text: seq<byte>, after: seq<byte>, k: nat)
    requires |after| > 4 && after[0] == 0 && |text| > 8 && k < 11
    requires (forall i :: 0 <= i < |text| ==> text[i] != 0) && forall i :: 0 <= i < 9 ==> text[i] != '.' as int
    ensures CString(text, after).Valid()
    ensures DosName(CString(text, after))[k] == if k < 8 then (text[k] as int - 32) % 256 else 32
  {
    hide DosName;
    var name := CString(text, after);
    DosNameAt(name);
  }

  predicate LowerCase(cs: seq<byte>) {
    forall i :: 0 <= i < |cs| ==> 'a' as int <= cs[i] <= 'z' as int
  }

  predicate UpperCase(cs: seq<byte>) {
    forall i :: 0 <= i < |cs| ==> 'A' as int <= cs[i] <= 'Z' as int
  }

  /** Letter i of two strings is the same letter of the alphabet, small in one and capital in the other. */
  predicate SameLetters(small: seq<byte>, capital: seq<byte>) {
    |small| == |capital| && forall i :: 0 <= i < |small| ==> small[i] - 'a' as int == capital[i] - 'A' as int
  }

  /** Small letters become the same capital letters, in the base and in the extension. */
  lemma LettersUp(base: seq<byte>, ext: seq<byte>, after: seq<byte>)
    requires LowerCase(base) && LowerCase(ext) && 1 <= |base| <= 8 && (ext == [] || 2 <= |ext| <= 3)
    requires |after| > 4 && after[0] == 0
    ensures GoodName(base, ext) && CString(Text(base, ext), after).Valid()
    ensures var d := DosName(CString(Text(base, ext), after));
            && UpperCase(d[..|base|]) && SameLetters(base, d[..|base|])
            && UpperCase(d[8..8 + |ext|]) && SameLetters(ext, d[8..8 + |ext|])
            && (forall k :: |base| <= k < 8 || 8 + |ext| <= k < 11 ==> d[k] == 32)
  {
    hide DosName;
    LettersGood(base);
    LettersGood(ext);
    forall k: nat | k < 11
      ensures CString(Text(base, ext), after).Valid()
      ensures DosName(CString(Text(base, ext), after))[k] ==
              if k < |base| then base[k] - 32 else if 8 <= k < 8 + |ext| then ext[k - 8] - 32 else 32
    {
      DosBytes(base, ext, after, k);
    }
  }

  lemma LettersGood(cs: seq<byte>)
    requires LowerCase(cs)
    ensures GoodPart(cs)
  {}

  /** Capital letters read from a directory become the same small letters, with a dot before the extension
      when the base leaves room for it. */
  lemma LettersDown(base: seq<byte>, ext: seq<byte>, dir: seq<byte>, after: seq<byte>)
    requires LowerCase(base) && LowerCase(ext) && 1 <= |base| <= 7 && (ext == [] || 2 <= |ext| <= 3)
    requires |dir| == 11 && SameLetters(base, dir[..|base|]) && SameLetters(ext, dir[8..8 + |ext|])
    requires forall k :: |base| <= k < 8 || 8 + |ext| <= k < 11 ==> dir[k] == 32
    requires |after| > 4 && after[0] == 0
    ensures CString(dir, after).Valid()
    ensures NormalFrom(CString(dir, after), 0, true) == if ext == [] then base else base + ['.' as int] + ext
  {
    LettersGood(base);
    LettersGood(ext);
    forall k | 0 <= k < 11 ensures dir[k] == Dos(base, ext)[k] {
      if k < 8 {
        PadAt(base, 8, k);
        assert k < |base| ==> dir[k] == dir[..|base|][k];
      } else {
        PadAt(ext, 3, k - 8);
        assert k < 8 + |ext| ==> dir[k] == dir[8..8 + |ext|][k - 8];
      }
    }
    assert dir == Dos(base, ext);
    hide NormalFrom, Dos;
    NormalUndoesDos(base, ext, after);
  }

  lemma TextAt(base: seq<byte>, ext: seq<byte>)
    ensures forall i :: 0 <= i < |Text(base, ext)| ==>
      Text(base, ext)[i] == if i < |base| then base[i] else if i == |base| then DOT else ext[i - |base| - 1]
  {}

  ghost predicate Follows(after: seq<byte>) {
    |after| > 4 && after[0] == 0
  }

  /** The directory name depends on memory beyond the string exactly when a dot is followed by fewer
      than two characters: the loop over the extension steps over the NUL. */
  lemma {:induction false} DosReadsPastEnd(text: seq<byte>)
    requires forall i :: 0 <= i < |text| ==> text[i] != 0
    ensures (forall a, b :: Follows(a) && Follows(b) ==> DosName(CString(text, a)) == DosName(CString(text, b))) <==>
            var stop := StopFrom(text, 0);
            !(stop < |text| && text[stop] == DOT && |text| < stop + 3)
  {
    hide DosName, StopFrom;
    var stop := StopFrom(text, 0);
    if stop < |text| && text[stop] == DOT && |text| < stop + 3 {
      var a, b := [0, 65, 65, 65, 65], [0, 66, 66, 66, 66];
      assert Follows(a) && Follows(b);
      DosNameAt(CString(text, a));
      DosNameAt(CString(text, b));
      assert ExtByte(CString(text, a), stop, 2) == Upper(65) && ExtByte(CString(text, b), stop, 2) == Upper(66);
      assert DosName(CString(text, a))[10] != DosName(CString(text, b))[10];
    } else {
      forall a, b | Follows(a) && Follows(b)
        ensures DosName(CString(text, a)) == DosName(CString(text, b))
      {
        DosIgnores(text, a, b);
      }
    }
  }

  lemma DosIgnores(text: seq<byte>, a: seq<byte>, b: seq<byte>)
    requires Follows(a) && Follows(b) && forall i :: 0 <= i < |text| ==> text[i] != 0
    requires var stop := StopFrom(text, 0);
             stop < |text| && text[stop] == DOT ==> |text| >= stop + 3
    ensures DosName(CString(text, a)) == DosName(CString(text, b))
  {
    hide StopFrom, Upper, DosName;
    var stop := StopFrom(text, 0);
    var x, y := CString(text, a), CString(text, b);
    DosNameAt(x);
    DosNameAt(y);
    forall k | 0 <= k < NAME_LEN ensures DosName(x)[k] == DosName(y)[k] {
      if k >= 8 && x.At(stop) == DOT {
        assert ExtByte(x, stop, k - 8) == ExtByte(y, stop, k - 8);
      }
    }
  }

  /** Different good names have different directory names. */
  lemma DosInjective(base: seq<byte>, ext: seq<byte>, base': seq<byte>, ext': seq<byte>)
    requires GoodName(base, ext) && GoodName(base', ext') && Dos(base, ext) == Dos(base', ext')
    ensures base == base' && ext == ext'
  {
    var d, d' := Dos(base, ext), Dos(base', ext');
    assert d[..8] == Pad(Shift(base), 8) && d'[..8] == Pad(Shift(base'), 8);
    assert d[8..] == Pad(Shift(ext), 3) && d'[8..] == Pad(Shift(ext'), 3);
    PadInjective(base, base', 8);
    PadInjective(ext, ext', 3);
  }

  lemma PadInjective(a: seq<byte>, b: seq<byte>, n: nat)
    requires |a| <= n && |b| <= n && GoodPart(a) && GoodPart(b) && Pad(Shift(a), n) == Pad(Shift(b), n)
    ensures a == b
  {
    assert |a| <= |b| by {
      if |b| < |a| {
        PadAt(b, n, |b|);
        PadAt(a, n, |b|);
        assert false;
      }
    }
    assert |b| <= |a| by {
      if |a| < |b| {
        PadAt(a, n, |a|);
        PadAt(b, n, |a|);
        assert false;
      }
    }
    forall i | 0 <= i < |a| ensures a[i] == b[i] {
      PadAt(a, n, i);
      PadAt(b, n, i);
      LowerUpper(a[i]);
      LowerUpper(b[i]);
    }
  }

  lemma PadAt(cs: seq<byte>, n: nat, i: nat)
    requires |cs| <= n && i < n
    ensures Pad(Shift(cs), n)[i] == if i < |cs| then Upper(cs[i]) else SPACE
  {}

  lemma LowerUpper(c: byte)
    ensures Lower(Upper(c)) == c
  {}

  // ---------------------------------------------------------------- the way back

  lemma {:induction false} NormalChars(name: CString, i: nat, cs: seq<byte>, flag: bool)
    requires name.Valid() && |name.text| == NAME_LEN && i + |cs| <= NAME_LEN && GoodPart(cs)
    requires name.text[i..i + |cs|] == Shift(cs)
    ensures NormalFrom(name, i, flag) == cs + NormalFrom(name, i + |cs|, flag)
    decreases |cs|
  {
    hide Upper, Lower, NormalFrom, Shift;
    if cs != [] {
      var rest := cs[1..];
      ShiftedRest(name.text, i, cs);
      NormalStep(name, i, flag, []);
      LowerUpper(cs[0]);
      NormalChars(name, i + 1, rest, flag);
      var end := NormalFrom(name, i + |cs|, flag);
      assert [] + NormalFrom(name, i, flag) == NormalFrom(name, i, flag);
      Associates([cs[0]], rest, end);
      assert [cs[0]] + rest == cs && [] + [cs[0]] == [cs[0]];
    }
  }

  lemma ShiftedRest(text: seq<byte>, i: nat, cs: seq<byte>)
    requires cs != [] && i + |cs| <= |text| && text[i..i + |cs|] == Shift(cs)
    ensures text[i] == Upper(cs[0]) && text[i + 1..i + 1 + |cs[1..]|] == Shift(cs[1..])
  {
    hide Upper;
    var t := text[i..i + |cs|];
    assert text[i] == t[0] && text[i + 1..i + |cs|] == t[1..];
  }

  lemma {:induction false} NormalSpaces(name: CString, i: nat, j: nat, flag: bool)
    requires name.Valid() && |name.text| == NAME_LEN && i <= j <= NAME_LEN && (!flag || name.At(9) == SPACE)
    requires forall k :: i <= k < j ==> name.text[k] == SPACE
    ensures NormalFrom(name, i, flag) == NormalFrom(name, j, flag)
    decreases j - i
  {
    if i < j {
      NormalSpaces(name, i + 1, j, flag);
    }
  }

  lemma DosIsString(base: seq<byte>, ext: seq<byte>)
    requires GoodName(base, ext)
    ensures forall i :: 0 <= i < NAME_LEN ==> Dos(base, ext)[i] != 0
  {
    forall i | 0 <= i < NAME_LEN ensures Dos(base, ext)[i] != 0 {
      if i < 8 {
        PadAt(base, 8, i);
      } else {
        PadAt(ext, 3, i - 8);
      }
    }
  }

  /** Reading a directory name back gives the name exactly when it has no extension or its base leaves
      room for the space that becomes the dot. */
  lemma {:induction false} NormalUndoesDos(base: seq<byte>, ext: seq<byte>, after: seq<byte>)
    requires GoodName(base, ext) && |after| > 4 && after[0] == 0
    ensures CString(Dos(base, ext), after).Valid()
    ensures NormalFrom(CString(Dos(base, ext), after), 0, true) == Text(base, ext) <==> ext == [] || |base| <= 7
  {
    hide Dos, NormalFrom;
    DosIsString(base, ext);
    DosParts(base, ext);
    var name := CString(Dos(base, ext), after);
    NormalChars(name, 0, base, true);
    if ext == [] {
      NormalSpaces(name, |base|, NAME_LEN, true);
      NormalEnd(name, NAME_LEN, true);
      assert base + [] == Text(base, ext);
    } else if |base| <= 7 {
      ShortBase(name, base, ext);
    } else {
      NormalChars(name, 8, ext, true);
      assert (base + (ext + NormalFrom(name, 8 + |ext|, true)))[8] == ext[0];
      assert Text(base, ext)[8] == DOT;
    }
  }

  /** An extension of one character is read back without its dot: the byte looked at is its second. */
  lemma OneCharacter(base: seq<byte>, c: byte, after: seq<byte>)
    requires 1 <= |base| <= 8 && GoodPart(base) && GoodPart([c]) && |after| > 4 && after[0] == 0
    ensures CString(Dos(base, [c]), after).Valid()
    ensures NormalFrom(CString(Dos(base, [c]), after), 0, true) == base + [c]
  {
    hide NormalFrom, Upper, Dos;
    var name := CString(Dos(base, [c]), after);
    OneCharacterAt(base, c);
    NormalChars(name, 0, base, true);
    NormalSpaces(name, |base|, 8, true);
    NormalChars(name, 8, [c], true);
    NormalSpaces(name, 9, NAME_LEN, true);
    NormalEnd(name, NAME_LEN, true);
    assert base + ([c] + []) == base + [c];
  }

  lemma OneCharacterAt(base: seq<byte>, c: byte)
    requires 1 <= |base| <= 8 && GoodPart(base) && GoodPart([c])
    ensures var d := Dos(base, [c]);
            && d[0..0 + |base|] == Shift(base) && d[8..8 + |[c]|] == Shift([c])
            && (forall k :: |base| <= k < 8 || 9 <= k < NAME_LEN ==> d[k] == SPACE)
            && forall k :: 0 <= k < NAME_LEN ==> d[k] != 0
  {
    hide Upper;
    var d := Dos(base, [c]);
    forall k | 0 <= k < NAME_LEN ensures d[k] != 0 {
      if k < 8 {
        PadAt(base, 8, k);
        if k < |base| { NotNul(base[k]); }
      } else {
        PadAt([c], 3, k - 8);
        if k == 8 { NotNul([c][0]); }
      }
    }
  }

  lemma NotNul(c: byte)
    requires c != SPACE
    ensures Upper(c) != 0
  {}

  lemma DosParts(base: seq<byte>, ext: seq<byte>)
    requires GoodName(base, ext)
    ensures var d := Dos(base, ext);
            && d[0..0 + |base|] == Shift(base) && d[8..8 + |ext|] == Shift(ext)
            && (forall k :: |base| <= k < 8 ==> d[k] == SPACE)
            && (forall k :: 8 + |ext| <= k < NAME_LEN ==> d[k] == SPACE)
            && (d[9] == SPACE <==> ext == [])
  {
    var d := Dos(base, ext);
    assert ext != [] ==> d[9] == Upper(ext[1]);
  }

  /** A base of at most seven characters is followed by a space, and the first space becomes the dot. */
  lemma ShortBase(name: CString, base: seq<byte>, ext: seq<byte>)
    requires GoodName(base, ext) && ext != [] && |base| <= 7
    requires name.text == Dos(base, ext) && name.Valid()
    ensures base + NormalFrom(name, |base|, true) == Text(base, ext)
  {
    hide Dos, Upper;
    DosParts(base, ext);
    NormalStep(name, |base|, true, base);
    NormalSpaces(name, |base| + 1, 8, false);
    NormalChars(name, 8, ext, false);
    NormalSpaces(name, 8 + |ext|, NAME_LEN, false);
    NormalEnd(name, NAME_LEN, false);
    assert base + [DOT] + (ext + []) == Text(base, ext);
  }
}
