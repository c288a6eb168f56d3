/** How heap_fill of proc/proc.c splits the argument string.  Strings are their bytes up to the NUL;
    the copies on the thread's heap are values here. */
module Arguments {
  import opened FatModel

  const SPACE: byte := 32
  const ARGV := 10

  /** The position of the first space, or the length. */
  function FirstSpace(s: seq<byte>): (p: nat)
    ensures p <= |s| && (p < |s| ==> s[p] == SPACE)
    ensures forall i :: 0 <= i < p ==> s[i] != SPACE
  {
    if s == [] || s[0] == SPACE then 0 else 1 + FirstSpace(s[1..])
  }

  /** Every space ends an argument; what is left after the last space is one more if it is not empty. */
  function Split(s: seq<byte>): seq<seq<byte>>
    decreases |s|
  {
    if s == [] then []
    else if FirstSpace(s) == |s| then [s]
    else [s[..FirstSpace(s)]] + Split(s[FirstSpace(s) + 1..])
  }

  /** strchr(str + from, c), as an index, or -1 for NULL */
  method StrChr(str: seq<byte>, from: nat, c: byte) returns (p: int)
    requires from <= |str|
    ensures p == -1 ==> forall i :: from <= i < |str| ==> str[i] != c
    ensures p != -1 ==> from <= p < |str| && str[p] == c && forall i :: from <= i < p ==> str[i] != c
  {
    p := from;
    while p < |str|
      invariant from <= p <= |str| && forall i :: from <= i < p ==> str[i] != c
    {
      if str[p] == c {
        return;
      }
      p := p + 1;
    }
    return -1;
  }

  /** One pointer stored. */
  method Store(argv: array<seq<byte>>, argc: nat, arg: seq<byte>) returns (next: nat)
    requires argc < argv.Length
    modifies argv
    ensures next == argc + 1 && argv[..next] == old(argv[..argc]) + [arg] && argv[next..] == old(argv[argc..])[1..]
  {
    argv[argc] := arg;
    next := argc + 1;
  }

  lemma Associates(a: seq<seq<byte>>, b: seq<seq<byte>>, c: seq<seq<byte>>)
    ensures a + (b + c) == a + b + c
  {}

  /** The part of heap_fill that fills argv.  `argv` is the memory from the ten pointers on; whether the
      arguments stay within the ten is not looked at. */
  method HeapFill(name: seq<byte>, arguments: seq<byte>, argv: array<seq<byte>>) returns (argc: nat)
    requires argv.Length > |Split(arguments)|
    modifies argv
    ensures argc == 1 + |Split(arguments)| && argv[..argc] == [name] + Split(arguments)
    ensures argv[argc..] == old(argv[argc..])
  {
    hide Split;
    argc := Store(argv, 0, name);
    var at := 0;
    while at < |arguments|
      invariant 1 <= argc <= argv.Length && at <= |arguments| && argv[argc..] == old(argv[argc..])
      invariant argv[..argc] + Split(arguments[at..]) == [name] + Split(arguments)
      decreases |arguments| - at
    {
      ghost var rest := arguments[at..];
      var p := StrChr(arguments, at, SPACE);
      SplitStep(rest, if p == -1 then |rest| else p - at);
      if p == -1 {
        argc := Store(argv, argc, arguments[at..]);
        break;
      }
      assert arguments[at..p] == rest[..p - at] && rest[p - at + 1..] == arguments[p + 1..];
      Associates(argv[..argc], [arguments[at..p]], Split(arguments[p + 1..]));
      argc := Store(argv, argc, arguments[at..p]);
      at := p + 1;
    }
    assert at == |arguments| ==> arguments[at..] == [];
    SplitNothing();
    assert argv[..argc] + [] == argv[..argc];
  }

  lemma SplitNothing()
    ensures Split([]) == []
  {}

  lemma SplitStep(s: seq<byte>, p: nat)
    requires s != [] && p <= |s| && (p < |s| ==> s[p] == SPACE) && forall i :: 0 <= i < p ==> s[i] != SPACE
    ensures Split(s) == if p == |s| then [s] else [s[..p]] + Split(s[p + 1..])
  {
    hide *;
    FirstIs(s, p);
    SplitUnfolds(s);
  }

  lemma SplitUnfolds(s: seq<byte>)
    requires s != []
    ensures Split(s) == if FirstSpace(s) == |s| then [s] else [s[..FirstSpace(s)]] + Split(s[FirstSpace(s) + 1..])
  {
    hide FirstSpace;
  }

  lemma FirstIs(s: seq<byte>, p: nat)
    requires p <= |s| && (p < |s| ==> s[p] == SPACE) && forall i :: 0 <= i < p ==> s[i] != SPACE
    ensures FirstSpace(s) == p
  {}

  // ---------------------------------------------------------------- what the arguments are

  function Join(parts: seq<seq<byte>>): seq<byte> {
    if parts == [] then []
    else if |parts| == 1 then parts[0]
    else parts[0] + [SPACE] + Join(parts[1..])
  }

  predicate EndsInSpace(s: seq<byte>) {
    s != [] && s[|s| - 1] == SPACE
  }

  /** The string without one space at its end. */
  function Trimmed(s: seq<byte>): seq<byte> {
    if EndsInSpace(s) then s[..|s| - 1] else s
  }

  predicate NoSpaces(parts: seq<seq<byte>>) {
    forall i :: 0 <= i < |parts| ==> ' ' as int !in parts[i]
  }

  predicate Writes(parts: seq<seq<byte>>, s: seq<byte>) {
    NoSpaces(parts) && Join(parts) == Trimmed(s) && (parts == [] <==> s == [])
  }

  /** The arguments are the one way to write the string, less one space at its end, as parts without
      spaces joined by single spaces. */
  lemma SplitIs(s: seq<byte>, parts: seq<seq<byte>>)
    ensures parts == Split(s) <==> Writes(parts, s)
  {
    hide Split, Writes;
    SplitWrites(s);
    if Writes(parts, s) {
      WritesIsSplit(s, parts);
    }
  }

  lemma {:induction false} SplitWrites(s: seq<byte>)
    ensures Writes(Split(s), s)
    decreases |s|
  {
    hide FirstSpace, Split;
    if s == [] {
      SplitNothing();
      return;
    }
    var p := FirstSpace(s);
    SplitStep(s, p);
    if p < |s| {
      var rest := s[p + 1..];
      SplitWrites(rest);
      JoinStep(s[..p], Split(rest));
      if rest != [] {
        assert s[|s| - 1] == rest[|rest| - 1];
        assert s[..p] + [SPACE] + Trimmed(rest) == Trimmed(s);
      }
    }
  }

  lemma JoinStep(x: seq<byte>, rest: seq<seq<byte>>)
    ensures Join([x] + rest) == if rest == [] then x else x + [SPACE] + Join(rest)
    ensures NoSpaces([x] + rest) <==> SPACE !in x && NoSpaces(rest)
  {
    assert ([x] + rest)[1..] == rest;
    assert NoSpaces([x] + rest) ==> NoSpaces(rest) by {
      assert forall i :: 0 <= i < |rest| ==> rest[i] == ([x] + rest)[i + 1];
    }
  }

  lemma {:induction false} WritesIsSplit(s: seq<byte>, parts: seq<seq<byte>>)
    requires Writes(parts, s)
    ensures parts == Split(s)
    decreases |parts|
  {
    hide Split;
    if parts == [] {
      SplitNothing();
    } else {
      var x, rest := parts[0], parts[1..];
      assert SPACE !in parts[0];
      if rest == [] {
        SplitNothing();
        assert s == if EndsInSpace(s) then x + [SPACE] else x;
        assert s[..|x|] == x;
        SplitStep(s, |x|);
        assert |x| < |s| ==> s[|x| + 1..] == [];
        assert parts == [x];
      } else {
        assert Trimmed(s) == x + [SPACE] + Join(rest);
        assert s[..|x|] == x;
        SplitStep(s, |x|);
        var t := s[|x| + 1..];
        assert s == x + [SPACE] + t;
        assert Writes(rest, t) by { LastPart(s, x, t, rest); }
        WritesIsSplit(t, rest);
        assert parts == [x] + rest;
      }
    }
  }

  lemma LastPart(s: seq<byte>, x: seq<byte>, t: seq<byte>, rest: seq<seq<byte>>)
    requires s == x + [SPACE] + t && Trimmed(s) == x + [SPACE] + Join(rest) && rest != []
    ensures t != [] && Trimmed(t) == Join(rest)
  {
    assert t != [];
    assert s[|s| - 1] == t[|t| - 1];
    assert Trimmed(s) == x + [SPACE] + Trimmed(t);
    assert Trimmed(s)[|x| + 1..] == Trimmed(t);
    assert (x + [SPACE] + Join(rest))[|x| + 1..] == Join(rest);
  }

  /** How many arguments there are: one for each space, and one more for what follows the last. */
  lemma {:induction false} SplitCount(s: seq<byte>)
    ensures |Split(s)| == Spaces(s) + if s == [] || EndsInSpace(s) then 0 else 1
    decreases |s|
  {
    hide FirstSpace, Split, Spaces;
    var p := FirstSpace(s);
    if s == [] {
      SplitNothing();
    } else {
      SplitStep(s, p);
    }
    SpacesParts(s[..p], s[p..]);
    assert s[..p] + s[p..] == s;
    NoSpace(s[..p]);
    SpacesStep(s[p..]);
    if p < |s| {
      assert s[p..][1..] == s[p + 1..];
      SplitCount(s[p + 1..]);
    } else {
      assert s[p..] == [];
    }
  }

  function Spaces(s: seq<byte>): nat {
    if s == [] then 0 else (if s[0] == SPACE then 1 else 0) + Spaces(s[1..])
  }

  lemma SpacesStep(s: seq<byte>)
    ensures Spaces(s) == if s == [] then 0 else (if s[0] == SPACE then 1 else 0) + Spaces(s[1..])
  {}

  lemma {:induction false} SpacesParts(s: seq<byte>, t: seq<byte>)
    ensures Spaces(s + t) == Spaces(s) + Spaces(t)
  {
    if s == [] {
      assert s + t == t;
    } else {
      assert (s + t)[1..] == s[1..] + t;
      SpacesParts(s[1..], t);
    }
  }

  lemma {:induction false} NoSpace(s: seq<byte>)
    requires SPACE !in s
    ensures Spaces(s) == 0
  {
    if s != [] {
      NoSpace(s[1..]);
    }
  }

  /** argv is overrun exactly when there are nine spaces, not counting one at the end. */
  lemma OverrunExact(s: seq<byte>)
    ensures 1 + |Split(s)| > 10 <==> Spaces(Trimmed(s)) >= 9
  {
    hide Split, Spaces;
    SplitCount(s);
    if EndsInSpace(s) {
      var n := |s| - 1;
      assert s == s[..n] + [SPACE];
      SpacesParts(s[..n], [SPACE]);
      SpacesStep([SPACE]);
      SpacesStep([]);
      assert [SPACE][1..] == [];
    } else if s == [] {
      SpacesStep([]);
    }
  }
}
