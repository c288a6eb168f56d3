/** Directories of fs/fat.c on values: slots of 32 bytes in sectors of 16, searched from the front, as
    a finite map from directory names to the rest of a slot. */
module DirectoryModel {
  import opened FatModel

  type slot = s: seq<byte> | |s| == 32 witness seq(32, i => 0)

  const SLOT_SIZE := 32
  const SLOTS := 16

  function Zero(): slot {
    seq(SLOT_SIZE, i => 0)
  }

  /** filename and extension, as strncmp sees them */
  function Name(s: slot): seq<byte> {
    s[..NAME_LEN]
  }

  /** A slot in use starts with a byte that is not zero. */
  predicate Live(s: slot) {
    s[0] != 0
  }

  /** fat_get_dir: the first slot with the name, or |slots|. */
  function Lookup(slots: seq<slot>, d: seq<byte>): (k: nat)
    ensures k <= |slots|
    ensures k < |slots| ==> Name(slots[k]) == d
    ensures forall i :: 0 <= i < k ==> Name(slots[i]) != d
  {
    if slots == [] || Name(slots[0]) == d then 0 else 1 + Lookup(slots[1..], d)
  }

  /** The slot fat_touch takes: the first that is not in use, or |slots|. */
  function Hole(slots: seq<slot>): (k: nat)
    ensures k <= |slots|
    ensures k < |slots| ==> !Live(slots[k])
    ensures forall i :: 0 <= i < k ==> Live(slots[i])
  {
    if slots == [] || !Live(slots[0]) then 0 else 1 + Hole(slots[1..])
  }

  /** What fat_touch makes of a slot: strcpy puts the name and a NUL, which clears the attributes when
      the name is all eleven bytes; then the low cluster half and the size are cleared. */
  function Named(s: slot, d: seq<byte>): slot
    requires |d| == NAME_LEN
  {
    var n := End(d);
    seq(SLOT_SIZE, k requires 0 <= k < SLOT_SIZE => if k < n then d[k] else if k == n || k >= 26 then 0 else s[k])
  }

  predicate Touches(slots: seq<slot>, d: seq<byte>) {
    Lookup(slots, d) == |slots| && Hole(slots) < |slots|
  }

  function Touched(slots: seq<slot>, d: seq<byte>): seq<slot>
    requires |d| == NAME_LEN
  {
    if Touches(slots, d) then slots[Hole(slots) := Named(slots[Hole(slots)], d)] else slots
  }

  function Deleted(slots: seq<slot>, d: seq<byte>): seq<slot> {
    if Lookup(slots, d) < |slots| then slots[Lookup(slots, d) := Zero()] else slots
  }

  // ---------------------------------------------------------------- as a map

  /** A name that a string can carry and that does not look like a free slot. */
  predicate ValidName(d: seq<byte>) {
    |d| == NAME_LEN && forall i :: 0 <= i < NAME_LEN ==> d[i] != 0
  }

  ghost predicate Unique(slots: seq<slot>) {
    forall i, j :: 0 <= i < j < |slots| && Live(slots[i]) && Live(slots[j]) ==> Name(slots[i]) != Name(slots[j])
  }

  /** The names in use, each with the bytes of its slot that follow the name. */
  ghost function Directory(slots: seq<slot>): map<seq<byte>, seq<byte>> {
    if slots == [] then map[]
    else if Live(slots[0]) then Directory(slots[1..])[Name(slots[0]) := slots[0][NAME_LEN..]]
    else Directory(slots[1..])
  }

  /** The recursion read off: in a directory with unique names, exactly the live slots are in the map. */
  lemma {:induction false} DirectoryHas(slots: seq<slot>)
    requires Unique(slots)
    ensures forall i :: 0 <= i < |slots| && Live(slots[i]) ==>
              Name(slots[i]) in Directory(slots) && Directory(slots)[Name(slots[i])] == slots[i][NAME_LEN..]
    ensures forall d :: d in Directory(slots) ==> exists i :: 0 <= i < |slots| && Live(slots[i]) && Name(slots[i]) == d
  {
    hide Name, Live;
    if slots != [] {
      var rest := slots[1..];
      assert forall i :: 0 <= i < |rest| ==> rest[i] == slots[i + 1];
      DirectoryHas(rest);
      forall i | 0 <= i < |slots| && Live(slots[i])
        ensures Name(slots[i]) in Directory(slots) && Directory(slots)[Name(slots[i])] == slots[i][NAME_LEN..]
      {
        if i > 0 {
          assert rest[i - 1] == slots[i];
        }
      }
      forall d | d in Directory(slots)
        ensures exists i :: 0 <= i < |slots| && Live(slots[i]) && Name(slots[i]) == d
      {
        if !(Live(slots[0]) && d == Name(slots[0])) {
          assert d in Directory(rest);
          var i :| 0 <= i < |rest| && Live(rest[i]) && Name(rest[i]) == d;
          assert slots[i + 1] == rest[i];
        }
      }
    }
  }

  /** fat_get_dir is the lookup of the map, wherever the holes are. */
  lemma {:induction false} LookupIsMap(slots: seq<slot>, d: seq<byte>)
    requires Unique(slots) && ValidName(d)
    ensures Lookup(slots, d) < |slots| <==> d in Directory(slots)
    ensures Lookup(slots, d) < |slots| ==> Directory(slots)[d] == slots[Lookup(slots, d)][NAME_LEN..]
  {
    hide Lookup, Directory;
    DirectoryHas(slots);
    var k := Lookup(slots, d);
    if k < |slots| {
      assert Name(slots[k])[0] == d[0] && Live(slots[k]);
    }
  }

  /** fat_touch inserts if absent: it answers 1 exactly when the name is new and a slot is free, and then
      adds the name as an empty file and leaves every other name alone; otherwise nothing changes. */
  lemma {:induction false} TouchIsInsert(slots: seq<slot>, d: seq<byte>)
    requires Unique(slots) && ValidName(d)
    ensures Unique(Touched(slots, d))
    ensures Touches(slots, d) <==> d !in Directory(slots) && Hole(slots) < |slots|
    ensures Directory(Touched(slots, d)) ==
            if Touches(slots, d) then Directory(slots)[d := [0] + slots[Hole(slots)][12..26] + [0, 0, 0, 0, 0, 0]]
            else Directory(slots)
  {
    hide Lookup, Hole, Directory, Named, Live, Name;
    LookupIsMap(slots, d);
    if Touches(slots, d) {
      var h := Hole(slots);
      NamedIs(slots[h], d);
      DirectoryAdd(slots, Named(slots[h], d), h);
    }
  }

  lemma NamedIs(s: slot, d: seq<byte>)
    requires ValidName(d)
    ensures Live(Named(s, d)) && Name(Named(s, d)) == d
    ensures Named(s, d)[NAME_LEN..] == [0] + s[12..26] + [0, 0, 0, 0, 0, 0]
  {
    assert End(d) == NAME_LEN;
  }

  /** A new name put into a slot that was not in use is added to the map. */
  lemma DirectoryAdd(slots: seq<slot>, s: slot, h: nat)
    requires h < |slots| && Unique(slots) && !Live(slots[h]) && Live(s) && Name(s) !in Directory(slots)
    ensures Unique(slots[h := s])
    ensures Directory(slots[h := s]) == Directory(slots)[Name(s) := s[NAME_LEN..]]
  {
    hide Directory, Live, Name;
    var after := slots[h := s];
    DirectoryHas(slots);
    assert Unique(after);
    DirectoryHas(after);
    var was, now := Directory(slots), Directory(after);
    assert Name(after[h]) in now;
    forall d | d in was ensures d in now && now[d] == was[d] {
      var i :| 0 <= i < |slots| && Live(slots[i]) && Name(slots[i]) == d;
      assert after[i] == slots[i];
    }
    forall d | d in now && d != Name(s) ensures d in was {
      var i :| 0 <= i < |after| && Live(after[i]) && Name(after[i]) == d;
      assert after[i] == slots[i];
    }
  }

  /** fat_delete removes the name and leaves every other name alone. */
  lemma DeleteIsRemove(slots: seq<slot>, d: seq<byte>)
    requires Unique(slots) && ValidName(d)
    ensures Unique(Deleted(slots, d))
    ensures Directory(Deleted(slots, d)) == Directory(slots) - {d}
  {
    hide Lookup, Directory, Live, Name;
    LookupIsMap(slots, d);
    var k := Lookup(slots, d);
    if k < |slots| {
      var after := slots[k := Zero()];
      ZeroIsFree(slots[k], d);
      DirectoryHas(after);
      assert Name(slots[k]) !in Directory(after);
      DirectoryAdd(after, slots[k], k);
      assert after[k := slots[k]] == slots;
    }
  }

  lemma ZeroIsFree(s: slot, d: seq<byte>)
    requires ValidName(d) && Name(s) == d
    ensures !Live(Zero()) && Live(s)
  {
    assert Name(s)[0] == s[0];
  }

  lemma IsZero(e: slot)
    ensures e == Zero() <==> forall k :: 0 <= k < 32 ==> e[k] == 0
  {}

  /** Deleting a name just made puts the directory back exactly when the slot it took was all zero. */
  lemma {:induction false} TouchThenDelete(slots: seq<slot>, d: seq<byte>)
    requires ValidName(d) && Touches(slots, d)
    ensures Deleted(Touched(slots, d), d) == slots <==> forall k :: 0 <= k < 32 ==> slots[Hole(slots)][k] == 0
  {
    hide *;
    DeleteTouched(slots, d);
    IsZero(slots[Hole(slots)]);
  }

  lemma DeleteTouched(slots: seq<slot>, d: seq<byte>)
    requires ValidName(d) && Touches(slots, d)
    ensures Hole(slots) < |slots| && (Deleted(Touched(slots, d), d) == slots <==> slots[Hole(slots)] == Zero())
  {
    hide Lookup, Hole, Named;
    var h := Hole(slots);
    NamedIs(slots[h], d);
    var after := Touched(slots, d);
    assert Name(after[h]) == d;
    assert Lookup(after, d) == h by {
      assert forall i :: 0 <= i < |slots| && i != h ==> after[i] == slots[i];
    }
    assert slots[h := Zero()][h] == Zero();
    assert Deleted(after, d) == slots[h := Zero()];
  }

  /** A touched name is found again exactly when it has no NUL, or what it holds after its first NUL was
      in the slot already. */
  lemma {:induction false} TouchFindsAgain(slots: seq<slot>, d: seq<byte>)
    requires |d| == NAME_LEN && Touches(slots, d)
    ensures Lookup(Touched(slots, d), d) < |slots| <==>
            End(d) == NAME_LEN || d[End(d) + 1..] == slots[Hole(slots)][End(d) + 1..NAME_LEN]
  {
    hide Lookup, Hole, Named, Name, End;
    var h := Hole(slots);
    var after := Touched(slots, d);
    assert forall i :: 0 <= i < |slots| && i != h ==> after[i] == slots[i];
    assert Lookup(after, d) < |slots| <==> Name(after[h]) == d;
    NamedAt(slots[h], d);
  }

  lemma NamedAt(s: slot, d: seq<byte>)
    requires |d| == NAME_LEN
    ensures Name(Named(s, d)) == d <==> End(d) == NAME_LEN || d[End(d) + 1..] == s[End(d) + 1..NAME_LEN]
  {
    hide End, Name, Named;
    var n := End(d);
    NamedName(s, d);
    if n < NAME_LEN {
      AtNul(d, n);
      SameRest(d[..n] + [0], d[n + 1..], s[n + 1..NAME_LEN]);
    }
  }

  lemma AtNul(d: seq<byte>, n: nat)
    requires n < |d| && d[n] == 0
    ensures d == d[..n] + [0] + d[n + 1..]
  {}

  lemma NamedName(s: slot, d: seq<byte>)
    requires |d| == NAME_LEN
    ensures Name(Named(s, d)) == if End(d) == NAME_LEN then d else d[..End(d)] + [0] + s[End(d) + 1..NAME_LEN]
  {
    var n, x := End(d), Named(s, d);
    NamedParts(s, d);
    hide End, Named;
    if n < NAME_LEN {
      Front(x, n);
    }
  }

  lemma NamedParts(s: slot, d: seq<byte>)
    requires |d| == NAME_LEN
    ensures var n, x := End(d), Named(s, d);
            x[..n] == d[..n] && x[n] == 0 && (n < NAME_LEN ==> x[n + 1..NAME_LEN] == s[n + 1..NAME_LEN])
  {
    hide End;
  }

  lemma Front(x: seq<byte>, n: nat)
    requires n < NAME_LEN <= |x|
    ensures x[..NAME_LEN] == x[..n] + [x[n]] + x[n + 1..NAME_LEN]
  {}

  lemma SameRest(a: seq<byte>, b: seq<byte>, c: seq<byte>)
    ensures a + b == a + c <==> b == c
  {
    assert (a + b)[|a|..] == b && (a + c)[|a|..] == c;
  }

  // ---------------------------------------------------------------- runs

  /** There is a free slot exactly when there are fewer names than slots. */
  lemma {:induction false} FreeSlot(slots: seq<slot>)
    requires Unique(slots)
    ensures |Directory(slots)| <= |slots|
    ensures Hole(slots) < |slots| <==> |Directory(slots)| < |slots|
  {
    hide Live, Name;
    if slots != [] {
      var rest := slots[1..];
      assert forall i :: 0 <= i < |rest| ==> rest[i] == slots[i + 1];
      FreeSlot(rest);
      DirectoryHas(rest);
      assert Live(slots[0]) ==> Name(slots[0]) !in Directory(rest);
    }
  }

  datatype Op = Touch(name: seq<byte>) | Delete(name: seq<byte>)

  function Step(slots: seq<slot>, op: Op): seq<slot>
    requires ValidName(op.name)
  {
    if op.Touch? then Touched(slots, op.name) else Deleted(slots, op.name)
  }

  function Run(slots: seq<slot>, ops: seq<Op>): seq<slot>
    requires forall op :: op in ops ==> ValidName(op.name)
    decreases |ops|
  {
    if ops == [] then slots
    else
      Run(Step(slots, ops[0]), ops[1..])
  }

  /** The same run on a set of names with room for `capacity` of them. */
  function RunOnNames(names: set<seq<byte>>, capacity: nat, ops: seq<Op>): set<seq<byte>>
    decreases |ops|
  {
    if ops == [] then names
    else
      var op := ops[0];
      RunOnNames(if op.Delete? then names - {op.name}
                 else if |names| < capacity then names + {op.name}
                 else names, capacity, ops[1..])
  }

  /** Whatever is touched and deleted in whatever order, the names stay unique and are those of the
      bounded set. */
  lemma {:induction false} RunIsRunOnNames(slots: seq<slot>, ops: seq<Op>)
    requires Unique(slots) && forall op :: op in ops ==> ValidName(op.name)
    ensures Unique(Run(slots, ops)) && |Run(slots, ops)| == |slots|
    ensures Directory(Run(slots, ops)).Keys == RunOnNames(Directory(slots).Keys, |slots|, ops)
    decreases |ops|
  {
    hide Directory, Lookup, Hole, Named, ValidName, Unique;
    if ops != [] {
      var op := ops[0];
      FreeSlot(slots);
      assert ValidName(op.name);
      var next := Step(slots, op);
      var names, names' := Directory(slots).Keys, Directory(next).Keys;
      assert |names| == |Directory(slots)|;
      if op.Touch? {
        TouchIsInsert(slots, op.name);
        assert names' == if |names| < |slots| then names + {op.name} else names;
      } else {
        DeleteIsRemove(slots, op.name);
        assert names' == names - {op.name};
      }
      RunIsRunOnNames(next, ops[1..]);
    }
  }
}
