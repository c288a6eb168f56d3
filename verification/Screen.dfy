/** The text screen of drivers/video/video.c as a window on an unbounded sheet of paper. */
module Screen {
  import opened Bits
  import opened FatModel

  type cell = c: int | 0 <= c < 0x1_0000

  const BLANK: cell := 3872
  const BACKSPACE: byte := 8
  const NEWLINE: byte := 10
  const RETURN: byte := 13

  /** A character in white on black; a negative char sets the whole high byte. */
  function Cell(c: byte): cell {
    if c < 128 then 0x0F00 + c else 0xFF00 + c
  }

  /** char to int */
  function SignExtended(c: byte): word {
    if c < 128 then c else 0xFFFF_FF00 + c
  }

  lemma {:induction false} OrKeepsLow(a: nat, b: nat, l: nat, n: nat)
    requires l < Pow2(n)
    ensures Or(a * Pow2(n), b * Pow2(n) + l) == Or(a, b) * Pow2(n) + l
  {
    hide Or;
    if n > 0 {
      var p := Pow2(n - 1);
      Doubled(a, p);
      Doubled(b, p);
      Doubled(Or(a, b), p);
      OrHalves(2 * (a * p), 2 * (b * p) + l);
      OrKeepsLow(a, b, l / 2, n - 1);
    }
  }

  lemma {:induction false} OrAllOnes(a: nat, n: nat)
    requires a < Pow2(n)
    ensures Or(a, Pow2(n) - 1) == Pow2(n) - 1
  {
    hide Or;
    OrHalves(a, Pow2(n) - 1);
    if n > 0 {
      assert (Pow2(n) - 1) / 2 == Pow2(n - 1) - 1;
      OrAllOnes(a / 2, n - 1);
    } else {
      OrNothing(0);
    }
  }

  /** (uint16_t) (3840 | buffer[i]) */
  lemma CellIs(c: byte)
    ensures Or(3840, SignExtended(c)) % 0x1_0000 == Cell(c)
  {
    hide Or, Pow2;
    Pow2Values();
    if c < 128 {
      OrKeepsLow(15, 0, c, 8);
      OrNothing(15);
    } else {
      OrKeepsLow(15, 0xFF_FFFF, c, 8);
      OrAllOnes(15, 24);
    }
  }

  // ---------------------------------------------------------------- the paper

  /** All rows ever started, one after the other, and the column in the last one.  A backspace at the
      start of a row goes on to the end of the row before, and the column below zero.  `below` is the
      memory in front of the screen, which backspaces at its first cell run into. */
  datatype Paper = Paper(cells: seq<cell>, x: int, below: seq<cell>)

  function Blanks(n: nat): (r: seq<cell>)
    ensures |r| == n
  {
    seq(n, i => BLANK)
  }

  /** The first cell that is still on a screen of so many cells. */
  function Top(cells: seq<cell>, size: nat): nat {
    if |cells| <= size then 0 else |cells| - size
  }

  /** Where on the screen the next character goes. */
  function Offset(p: Paper, w: nat, size: nat): int {
    |p.cells| - w + p.x - Top(p.cells, size)
  }

  predicate Good(p: Paper, w: nat, size: nat) {
    0 < w <= size && p.x <= w <= |p.cells| && -|p.below| <= Offset(p, w, size)
  }

  function NewRow(p: Paper, w: nat): Paper {
    Paper(p.cells + Blanks(w), 0, p.below)
  }

  /** A full row is left only when something more is printed. */
  function Wrap(p: Paper, w: nat): Paper {
    if p.x >= w then NewRow(p, w) else p
  }

  function Put(p: Paper, w: nat, size: nat, c: cell): Paper
    requires Good(p, w, size) && p.x < w
  {
    var o := Offset(p, w, size);
    if o >= 0 then p.(cells := p.cells[Top(p.cells, size) + o := c]) else p.(below := p.below[|p.below| + o := c])
  }

  /** There is memory for a backspace. */
  predicate Room(p: Paper, w: nat, size: nat, c: byte) {
    c == BACKSPACE ==> Offset(p, w, size) > -|p.below|
  }

  function Step(p: Paper, w: nat, size: nat, c: byte): (q: Paper)
    requires Good(p, w, size) && Room(p, w, size, c)
    ensures Good(q, w, size)
  {
    if c == BACKSPACE then Put(p.(x := p.x - 1), w, size, BLANK)
    else if c == NEWLINE then NewRow(p, w)
    else if c == RETURN then p.(x := 0)
    else
      var q := Put(Wrap(p, w), w, size, Cell(c));
      q.(x := q.x + 1)
  }

  predicate Fits(p: Paper, w: nat, size: nat, text: seq<byte>)
    requires Good(p, w, size)
    decreases |text|
  {
    text == [] || (Room(p, w, size, text[0]) && Fits(Step(p, w, size, text[0]), w, size, text[1..]))
  }

  function Type(p: Paper, w: nat, size: nat, text: seq<byte>): (q: Paper)
    requires Good(p, w, size) && Fits(p, w, size, text)
    ensures Good(q, w, size)
    decreases |text|
  {
    if text == [] then p else Type(Step(p, w, size, text[0]), w, size, text[1..])
  }

  /** The last rows that fit on the screen, above blank rows when there are too few. */
  function View(cells: seq<cell>, size: nat): (r: seq<cell>)
    ensures |r| == size
  {
    if |cells| <= size then cells + Blanks(size - |cells|) else cells[|cells| - size..]
  }

  // ---------------------------------------------------------------- the screen

  class Console {
    var x: int
    var y: int
    const width: nat
    const height: nat

    /** The memory around the screen, which starts at `base`. */
    const ram: array<cell>
    const base: nat

    /** video_init; the memory is there already. */
    constructor (h: nat, w: nat, ram: array<cell>, base: nat)
      requires h > 0 && w > 0 && ram.Length >= base + w * h
      ensures Valid() && width == w && height == h && this.ram == ram && this.base == base && x == 0 && y == 0
    {
      x, y, height, width, this.ram, this.base := 0, 0, h, w, ram, base;
    }

    ghost function Size(): (n: nat)
      ensures n == width * height
    {
      width * height
    }

    ghost predicate Valid()
    {
      width > 0 && height > 0 && ram.Length >= base + Size()
    }

    /** The cells of the screen. */
    ghost function Cells(): (r: seq<cell>)
      requires Valid()
      reads ram
      ensures |r| == Size()
    {
      ram[base..base + Size()]
    }

    /** The screen shows the end of the paper, the memory before it is what the paper says, and the
        cursor is where the paper's is. */
    ghost predicate Shows(p: Paper)
      reads this`x, this`y, ram
    {
      && Valid() && Good(p, width, Size())
      && Cells() == View(p.cells, Size()) && ram[..base] == p.below
      && x == p.x && 0 <= y < height
      && y * width + width == if |p.cells| <= Size() then |p.cells| else Size()
    }

    /** The first loop of scroll. */
    method MoveUp(last: nat)
      requires Valid() && base + last + width <= ram.Length
      modifies ram
      ensures ram[..base] == old(ram[..base])
      ensures ram[base..base + last] == old(ram[base + width..base + width + last])
      ensures ram[base + last..] == old(ram[base + last..])
    {
      ghost var was := ram[..];
      for i := 0 to last
        invariant forall k :: 0 <= k < base || base + i <= k < ram.Length ==> ram[k] == was[k]
        invariant forall k :: base <= k < base + i ==> ram[k] == was[k + width]
      {
        ram[base + i] := ram[base + i + width];
      }
    }

    /** The loops of scroll and clear that write blanks. */
    method Blank(from: nat, n: nat)
      requires from + n <= ram.Length
      modifies ram
      ensures ram[..from] == old(ram[..from]) && ram[from..from + n] == Blanks(n) && ram[from + n..] == old(ram[from + n..])
    {
      ghost var was := ram[..];
      for i := 0 to n
        invariant forall k :: 0 <= k < from || from + i <= k < ram.Length ==> ram[k] == was[k]
        invariant forall k :: from <= k < from + i ==> ram[k] == BLANK
      {
        ram[from + i] := BLANK;
      }
      assert ram[from..from + n] == Blanks(n) && ram[from + n..] == was[from + n..];
    }

    /** scroll */
    method Scroll()
      requires Valid()
      modifies ram
      ensures Cells() == old(Cells())[width..] + Blanks(width)
      ensures ram[..base] == old(ram[..base])
    {
      hide Blanks;
      var last := width * (height - 1);
      AtLeast(height, width);
      assert last + width == Size();
      MoveUp(last);
      label moved:
      Blank(base + last, width);
      assert ram[..base] == ram[..base + last][..base] == old@moved(ram[..base + last])[..base];
      assert ram[base..base + last] == ram[..base + last][base..] == old@moved(ram[..base + last])[base..];
      assert Cells() == ram[base..base + last] + ram[base + last..base + last + width];
      assert old(Cells())[width..] == old(ram[base + width..base + width + last]);
    }

    /** check */
    method Check()
      requires Valid() && 0 <= y <= height
      modifies this`x, this`y, ram
      ensures x == if old(x) >= width then 0 else old(x)
      ensures var y' := old(y) + if old(x) >= width then 1 else 0;
              && y == (if y' >= height then y' - 1 else y')
              && Cells() == if y' >= height then old(Cells())[width..] + Blanks(width) else old(Cells())
      ensures ram[..base] == old(ram[..base])
    {
      if x >= width {
        x := 0;
        y := y + 1;
      }
      if y >= height {
        y := y - 1;
        Scroll();
      }
    }

    /** clear */
    method Clear()
      requires Valid()
      modifies this`x, this`y, ram
      ensures Shows(Paper(Blanks(width), 0, old(ram[..base])))
    {
      hide View;
      x, y := 0, 0;
      Blank(base, height * width);
      AtLeast(height, width);
      assert Cells() == Blanks(Size());
      ViewBlank(Size(), width);
    }

    /** Moving to a row that is not there yet, and scrolling if the screen ends before it. */
    twostate lemma ShowsNewRow(p: Paper)
      requires old(Shows(p)) && x == 0 && ram[..base] == old(ram[..base])
      requires y == (if old(y) + 1 >= height then old(y) else old(y) + 1)
      requires Cells() == if old(y) + 1 >= height then old(Cells())[width..] + Blanks(width) else old(Cells())
      ensures Shows(NewRow(p, width))
    {
      hide Blanks;
      var size := Size();
      assert size == height * width;
      if old(y) + 1 >= height {
        AtLeast(height, width);
        assert old(y) == height - 1 && old(y) * width + width == size;
        ViewNext(p.cells, width, size);
      } else {
        RowsFit(old(y), height, width);
        ViewGrows(p.cells, width, size);
      }
    }

    /** The check before printing. */
    method CheckWrap(ghost p: Paper)
      requires Shows(p)
      modifies this`x, this`y, ram
      ensures Shows(Wrap(p, width))
    {
      Check();
      if old(x) >= width {
        ShowsNewRow(p);
      }
    }

    /** Writing a cell under the cursor. */
    method Write(c: cell, ghost p: Paper)
      requires Shows(p) && p.x < width
      modifies ram
      ensures Shows(Put(p, width, Size(), c))
    {
      hide Blanks, View;
      var at := y * width + x;
      ghost var before := Cells();
      assert at == Offset(p, width, Size());
      ram[base + at] := c;
      if at >= 0 {
        ViewPut(p.cells, Size(), at, c);
        assert Cells() == before[at := c];
      } else {
        assert Cells() == before;
      }
    }

    /** printk_string, for text without a NUL, as far as there is memory for its backspaces. */
    method PrintkString(buffer: seq<byte>, ghost p: Paper)
      requires Valid() && Shows(p) && Good(Wrap(p, width), width, Size())
      requires Fits(Wrap(p, width), width, Size(), buffer)
      modifies this`x, this`y, ram
      ensures Shows(Type(Wrap(p, width), width, Size(), buffer))
    {
      hide View, Shows, Put, Cell, Good;
      var i := 0;
      ghost var q := Wrap(p, width);
      CheckWrap(p);
      while i < |buffer|
        invariant i <= |buffer| && Valid() && Shows(q) && Good(q, width, Size())
        invariant Fits(q, width, Size(), buffer[i..])
        invariant Type(q, width, Size(), buffer[i..]) == Type(Wrap(p, width), width, Size(), buffer)
      {
        var c := buffer[i];
        q := PrintChar(c, q);
        assert buffer[i + 1..] == buffer[i..][1..];
        i := i + 1;
      }
    }

    /** One turn of the loop in printk_string. */
    method PrintChar(c: byte, ghost p: Paper) returns (ghost q: Paper)
      requires Shows(p) && Good(p, width, Size()) && Room(p, width, Size(), c)
      modifies this`x, this`y, ram
      ensures Shows(q) && q == Step(p, width, Size(), c)
    {
      hide View, Put, Cell, Or, Blanks;
      q := Step(p, width, Size(), c);
      if c == BACKSPACE {
        x := x - 1;
        Write(BLANK, p.(x := p.x - 1));
      } else if c == NEWLINE {
        y := y + 1;
        x := 0;
        Check();
        ShowsNewRow(p);
      } else if c == RETURN {
        x := 0;
      } else {
        CheckWrap(p);
        CellIs(c);
        Write(Or(3840, SignExtended(c)) % 0x1_0000, Wrap(p, width));
        x := x + 1;
      }
    }
  }

  // ---------------------------------------------------------------- rows and views

  lemma AtLeast(h: nat, w: nat)
    requires h > 0
    ensures h * w >= w && (h - 1) * w + w == h * w
  {
    Sum(h - 1, 1, w);
    NotNegative(h - 1, w);
  }

  lemma RowsFit(y: int, h: nat, w: nat)
    requires -1 <= y && y + 1 < h
    ensures (y + 1) * w == y * w + w && (y + 1) * w + w <= h * w
  {
    var k := h - (y + 2);
    Sum(y, 1, w);
    Sum(y + 1, 1, w);
    Sum(y + 2, k, w);
    NotNegative(k, w);
  }

  lemma Sum(a: int, b: int, w: nat)
    ensures (a + b) * w == a * w + b * w
  {}

  lemma NotNegative(a: nat, w: nat)
    ensures a * w >= 0
  {}

  lemma ViewBlank(size: nat, w: nat)
    requires w <= size
    ensures View(Blanks(w), size) == Blanks(size)
  {}

  lemma ViewNext(cells: seq<cell>, w: nat, size: nat)
    requires |cells| >= size >= w
    ensures View(cells + Blanks(w), size) == View(cells, size)[w..] + Blanks(w)
  {}

  lemma ViewGrows(cells: seq<cell>, w: nat, size: nat)
    requires |cells| + w <= size
    ensures View(cells + Blanks(w), size) == View(cells, size)
  {}

  lemma ViewPut(cells: seq<cell>, size: nat, at: nat, c: cell)
    requires Top(cells, size) + at < |cells|
    ensures View(cells[Top(cells, size) + at := c], size) == View(cells, size)[at := c]
  {}

  /** A backspace on the screen takes the cursor back by one cell and leaves a blank there: white on black,
      with nothing else changed. */
  lemma Backspace(p: Paper, w: nat, size: nat)
    requires Good(p, w, size) && Offset(p, w, size) > 0
    ensures Room(p, w, size, 8)
    ensures var q, o := Step(p, w, size, 8), Offset(p, w, size) - 1;
            && Offset(q, w, size) == o && q.x == p.x - 1 && q.below == p.below && |q.cells| == |p.cells|
            && o < size && View(q.cells, size) == View(p.cells, size)[o := 0x0F20]
  {
    hide View, Blanks;
    var o := Offset(p, w, size) - 1;
    ViewPut(p.cells, size, o, BLANK);
  }

  // ---------------------------------------------------------------- what the paper says

  /** Characters that are printed as they are. */
  predicate Plain(text: seq<byte>) {
    forall i :: 0 <= i < |text| ==> text[i] !in {BACKSPACE, NEWLINE, RETURN}
  }

  function CellsOf(text: seq<byte>): (r: seq<cell>)
    ensures |r| == |text|
  {
    seq(|text|, i requires 0 <= i < |text| => Cell(text[i]))
  }

  /** The text stays on the screen: no backspace meets the cursor at its first cell. */
  predicate Printable(p: Paper, w: nat, size: nat, text: seq<byte>)
    requires Good(p, w, size)
    decreases |text|
  {
    text == [] ||
    ((text[0] == BACKSPACE ==> Offset(p, w, size) > 0) && Printable(Step(p, w, size, text[0]), w, size, text[1..]))
  }

  /** The memory in front of the screen is left alone exactly by text that stays on it: otherwise there
      is a place in the text where a blank has been written there. */
  lemma {:induction false} OverrunExact(p: Paper, w: nat, size: nat, text: seq<byte>)
    requires Good(p, w, size) && Fits(p, w, size, text) && Offset(p, w, size) >= 0
    requires |p.below| > 0 && p.below[|p.below| - 1] != BLANK
    ensures Printable(p, w, size, text) <==>
            forall i :: 0 <= i <= |text| ==> Fits(p, w, size, text[..i]) && Type(p, w, size, text[..i]).below == p.below
    decreases |text|
  {
    hide Cell, Blanks;
    if text == [] {
      assert text[..0] == [];
    } else {
      var c, rest := text[0], text[1..];
      var q := Step(p, w, size, c);
      forall i | 0 <= i <= |rest|
        ensures Fits(p, w, size, text[..i + 1]) <==> Fits(q, w, size, rest[..i])
        ensures Fits(q, w, size, rest[..i]) ==> Type(p, w, size, text[..i + 1]) == Type(q, w, size, rest[..i])
      {
        assert text[..i + 1][1..] == rest[..i];
      }
      if c == BACKSPACE && Offset(p, w, size) == 0 {
        assert q.below[|p.below| - 1] == BLANK;
        assert rest[..0] == [] && Type(p, w, size, text[..0 + 1]).below != p.below;
      } else {
        assert q.below == p.below && Offset(q, w, size) >= 0;
        OverrunExact(q, w, size, rest);
        OverrunShift(p, q, w, size, text);
      }
    }
  }

  lemma OverrunShift(p: Paper, q: Paper, w: nat, size: nat, text: seq<byte>)
    requires Good(p, w, size) && Good(q, w, size) && text != [] && q.below == p.below
    requires forall i :: 0 <= i <= |text[1..]| ==>
               && (Fits(p, w, size, text[..i + 1]) <==> Fits(q, w, size, text[1..][..i]))
               && (Fits(q, w, size, text[1..][..i]) ==> Type(p, w, size, text[..i + 1]) == Type(q, w, size, text[1..][..i]))
    ensures (forall i :: 0 <= i <= |text| ==> Fits(p, w, size, text[..i]) && Type(p, w, size, text[..i]).below == p.below) <==>
            (forall i :: 0 <= i <= |text[1..]| ==> Fits(q, w, size, text[1..][..i]) && Type(q, w, size, text[1..][..i]).below == q.below)
  {
    var rest := text[1..];
    if forall i :: 0 <= i <= |rest| ==> Fits(q, w, size, rest[..i]) && Type(q, w, size, rest[..i]).below == q.below {
      forall i | 0 <= i <= |text| ensures Fits(p, w, size, text[..i]) && Type(p, w, size, text[..i]).below == p.below {
        if i > 0 {
          assert Fits(q, w, size, rest[..i - 1]) && text[..i - 1 + 1] == text[..i];
        } else {
          assert text[..0] == [];
        }
      }
    }
    if forall i :: 0 <= i <= |text| ==> Fits(p, w, size, text[..i]) && Type(p, w, size, text[..i]).below == p.below {
      forall i | 0 <= i <= |rest| ensures Fits(q, w, size, rest[..i]) && Type(q, w, size, rest[..i]).below == q.below {
        assert Fits(p, w, size, text[..i + 1]);
      }
    }
  }

  /** Plain text runs on from row to row: the paper holds it unbroken, and after it only the blanks that
      fill its last row. */
  lemma {:induction false} PlainText(before: seq<cell>, x: nat, w: nat, size: nat, text: seq<byte>, below: seq<cell>)
    requires 0 < w <= size && x <= w && x <= |before| && Plain(text)
    ensures var p := Paper(before + Blanks(w - x), x, below);
            && Good(p, w, size) && Fits(p, w, size, text)
            && var q := Type(p, w, size, text);
               q.x <= w && q.cells == before + CellsOf(text) + Blanks(w - q.x) && q.below == below
    decreases |text|
  {
    hide Cell;
    var p := Paper(before + Blanks(w - x), x, below);
    if text == [] {
      assert before + [] == before;
    } else {
      var c, rest := Cell(text[0]), text[1..];
      var at := if x == w then 1 else x + 1;
      var q := Step(p, w, size, text[0]);
      assert q.x == at && q.cells == before + [c] + Blanks(w - at);
      assert q == Paper(before + [c] + Blanks(w - at), at, below);
      PlainText(before + [c], at, w, size, rest, below);
      assert before + [c] + CellsOf(rest) == before + CellsOf(text);
    }
  }

  /** Plain text that stays in its row replaces what was there. */
  lemma {:induction false} Overwrites(before: seq<cell>, row: seq<cell>, x: nat, w: nat, size: nat, u: seq<byte>, below: seq<cell>)
    requires 0 < w <= size && |row| == w && x + |u| <= w && Plain(u)
    ensures var p := Paper(before + row, x, below);
            && Good(p, w, size) && Fits(p, w, size, u)
            && Type(p, w, size, u) == Paper(before + row[..x] + CellsOf(u) + row[x + |u|..], x + |u|, below)
    decreases |u|
  {
    hide Cell;
    var p := Paper(before + row, x, below);
    if u == [] {
      assert before + row[..x] + [] + row[x..] == before + row;
    } else {
      var row' := row[x := Cell(u[0])];
      OneOver(before, row, x, w, size, u[0], below);
      Overwrites(before, row', x + 1, w, size, u[1..], below);
      assert row'[..x + 1] == row[..x] + [Cell(u[0])] && row'[x + 1 + |u[1..]|..] == row[x + |u|..];
      assert [Cell(u[0])] + CellsOf(u[1..]) == CellsOf(u);
      assert before + row'[..x + 1] + CellsOf(u[1..]) == before + row[..x] + CellsOf(u);
    }
  }

  lemma OneOver(before: seq<cell>, row: seq<cell>, x: nat, w: nat, size: nat, c: byte, below: seq<cell>)
    requires 0 < w <= size && |row| == w && x < w && Plain([c])
    ensures var p := Paper(before + row, x, below);
            && Good(p, w, size) && Room(p, w, size, c)
            && Step(p, w, size, c) == Paper(before + row[x := Cell(c)], x + 1, below)
  {
    hide Cell;
    assert [c][0] == c;
    assert (before + row)[|before| + x := Cell(c)] == before + row[x := Cell(c)];
  }

  /** A carriage return goes back to the start of the row, where the text after it replaces the text before; a
      newline starts a blank row, only one after a full row too. */
  lemma ReturnAndNewline(before: seq<cell>, w: nat, size: nat, t: seq<byte>, u: seq<byte>, below: seq<cell>)
    requires 0 < w <= size && |u| <= |t| <= w && Plain(t) && Plain(u)
    ensures var p, rest := Paper(before + Blanks(w), 0, below), Blanks(w - |t|);
            && Good(p, w, size) && Fits(p, w, size, t + [13] + u) && Fits(p, w, size, t + [10])
            && Type(p, w, size, t + [13] + u) == Paper(before + CellsOf(u) + CellsOf(t)[|u|..] + rest, |u|, below)
            && Type(p, w, size, t + [10]) == Paper(before + CellsOf(t) + rest + Blanks(w), 0, below)
  {
    hide *;
    var p, row := Paper(before + Blanks(w), 0, below), CellsOf(t) + Blanks(w - |t|);
    FreshRow(before, w, size, t, below);
    var q := Paper(before + row, |t|, below);
    RowControls(before, row, |t|, w, size, below);
    TypeJoin(p, w, size, t, [13]);
    TypeJoin(p, w, size, t, [10]);
    Overwrites(before, row, 0, w, size, u, below);
    TypeJoin(p, w, size, t + [13], u);
    assert row[..0] == [] && row[|u|..] == CellsOf(t)[|u|..] + Blanks(w - |t|);
    Append4(before, CellsOf(u), CellsOf(t)[|u|..], Blanks(w - |t|));
    Append4(before, CellsOf(t), Blanks(w - |t|), Blanks(w));
  }

  lemma Append4(a: seq<cell>, b: seq<cell>, c: seq<cell>, d: seq<cell>)
    ensures a + [] + b + (c + d) == a + b + c + d && a + (b + c) + d == a + b + c + d
  {}

  lemma FreshRow(before: seq<cell>, w: nat, size: nat, t: seq<byte>, below: seq<cell>)
    requires 0 < w <= size && |t| <= w && Plain(t)
    ensures var p := Paper(before + Blanks(w), 0, below);
            && Good(p, w, size) && Fits(p, w, size, t)
            && Type(p, w, size, t) == Paper(before + (CellsOf(t) + Blanks(w - |t|)), |t|, below)
  {
    hide Good, Fits, Type, Cell, CellsOf;
    Overwrites(before, Blanks(w), 0, w, size, t, below);
    assert Blanks(w)[..0] == [] && Blanks(w)[|t|..] == Blanks(w - |t|);
    assert before + [] + CellsOf(t) + Blanks(w - |t|) == before + (CellsOf(t) + Blanks(w - |t|));
  }

  lemma RowControls(before: seq<cell>, row: seq<cell>, x: nat, w: nat, size: nat, below: seq<cell>)
    requires 0 < w <= size && |row| == w && x <= w
    ensures var q := Paper(before + row, x, below);
            && Good(q, w, size) && Fits(q, w, size, [13]) && Fits(q, w, size, [10])
            && Type(q, w, size, [13]) == Paper(before + row, 0, below)
            && Type(q, w, size, [10]) == Paper(before + row + Blanks(w), 0, below)
  {
    hide Fits, Type, Cell, Put, Blanks;
    OneCharacter(Paper(before + row, x, below), w, size, 13);
    OneCharacter(Paper(before + row, x, below), w, size, 10);
  }

  lemma OneCharacter(p: Paper, w: nat, size: nat, c: byte)
    requires Good(p, w, size) && Room(p, w, size, c)
    ensures Fits(p, w, size, [c]) && Type(p, w, size, [c]) == Step(p, w, size, c)
  {
    hide Step;
    assert [c][1..] == [];
  }

  lemma {:induction false} TypeJoin(p: Paper, w: nat, size: nat, s: seq<byte>, t: seq<byte>)
    requires Good(p, w, size) && Fits(p, w, size, s) && Fits(Type(p, w, size, s), w, size, t)
    ensures Fits(p, w, size, s + t) && Type(p, w, size, s + t) == Type(Type(p, w, size, s), w, size, t)
    decreases |s|
  {
    hide Good, Room, Put, Cell;
    if s == [] {
      assert s + t == t;
    } else {
      assert (s + t)[1..] == s[1..] + t;
      TypeJoin(Step(p, w, size, s[0]), w, size, s[1..], t);
    }
  }

  lemma {:induction false} TypeParts(p: Paper, w: nat, size: nat, s: seq<byte>, t: seq<byte>)
    requires Good(p, w, size) && Fits(p, w, size, s) && Fits(p, w, size, s + t)
    ensures Fits(Type(p, w, size, s), w, size, t)
    ensures Type(p, w, size, s + t) == Type(Type(p, w, size, s), w, size, t)
    decreases |s|
  {
    hide Good, Room, Put, Cell;
    if s == [] {
      assert s + t == t;
    } else {
      assert (s + t)[1..] == s[1..] + t;
      TypeParts(Step(p, w, size, s[0]), w, size, s[1..], t);
    }
  }

  /** From one column the same text starts the same number of rows. */
  lemma {:induction false} SameRows(p: Paper, q: Paper, w: nat, size: nat, t: seq<byte>)
    requires Good(p, w, size) && Good(q, w, size) && p.x == q.x
    requires Fits(p, w, size, t) && Fits(q, w, size, t)
    ensures |Type(p, w, size, t).cells| - |p.cells| == |Type(q, w, size, t).cells| - |q.cells|
    decreases |t|
  {
    hide Put, Good, Room, Cell;
    if t != [] {
      StepRows(p, w, size, t[0]);
      StepRows(q, w, size, t[0]);
      SameRows(Step(p, w, size, t[0]), Step(q, w, size, t[0]), w, size, t[1..]);
    }
  }

  /** The rows and the column after a character, by the column before it. */
  lemma StepRows(p: Paper, w: nat, size: nat, c: byte)
    requires Good(p, w, size) && Room(p, w, size, c)
    ensures var q := Step(p, w, size, c);
            && |q.cells| - |p.cells| == (if c == NEWLINE || (c !in {BACKSPACE, RETURN} && p.x >= w) then w else 0)
            && q.x == if c in {NEWLINE, RETURN} then 0 else if c == BACKSPACE then p.x - 1 else if p.x >= w then 1 else p.x + 1
  {
    hide Cell;
  }

  /** From column x of a row of w, the text starts the next row by running into it. */
  predicate RunsOn(x: int, w: nat, t: seq<byte>)
    decreases |t|
  {
    && t != [] && t[0] != NEWLINE && t[0] != RETURN
    && if t[0] == BACKSPACE then RunsOn(x - 1, w, t[1..]) else x >= w || RunsOn(x + 1, w, t[1..])
  }

  /** A row started too early is made up for exactly by text that runs on into it. */
  lemma {:induction false} EarlyRow(q: Paper, r: Paper, w: nat, size: nat, t: seq<byte>)
    requires r == Paper(q.cells + Blanks(w), q.x - w, q.below) && Good(q, w, size) && Good(r, w, size)
    requires Offset(q, w, size) >= 0 && Offset(r, w, size) >= 0
    requires Printable(q, w, size, t) && Printable(r, w, size, t)
    ensures Fits(q, w, size, t) && Fits(r, w, size, t)
    ensures Type(r, w, size, t) == Type(q, w, size, t) <==> RunsOn(q.x, w, t)
    decreases |t|
  {
    hide Step, Put;
    StaysFits(q, w, size, t);
    StaysFits(r, w, size, t);
    if t != [] {
      StepRows(q, w, size, t[0]);
      StepRows(r, w, size, t[0]);
      var q', r' := Step(q, w, size, t[0]), Step(r, w, size, t[0]);
      if t[0] in {NEWLINE, RETURN} {
        SameRows(q', r', w, size, t[1..]);
      } else {
        EarlyStep(q, r, w, size, t[0]);
        if t[0] == BACKSPACE || q.x < w {
          EarlyRow(q', r', w, size, t[1..]);
        }
      }
    }
  }

  lemma EarlyStep(q: Paper, r: Paper, w: nat, size: nat, c: byte)
    requires r == Paper(q.cells + Blanks(w), q.x - w, q.below) && Good(q, w, size) && Good(r, w, size)
    requires Offset(q, w, size) >= 0 && Offset(r, w, size) >= 0 && c !in {NEWLINE, RETURN}
    requires c == BACKSPACE ==> Offset(q, w, size) > 0 && Offset(r, w, size) > 0
    ensures var q', r' := Step(q, w, size, c), Step(r, w, size, c);
            if c == BACKSPACE || q.x < w then r' == Paper(q'.cells + Blanks(w), q'.x - w, q'.below) else r' == q'
  {
    hide Cell, Blanks;
    var q', r' := Step(q, w, size, c), Step(r, w, size, c);
    if c == BACKSPACE || q.x < w {
      assert r'.cells == q'.cells + Blanks(w);
    }
  }

  lemma {:induction false} StaysFits(p: Paper, w: nat, size: nat, t: seq<byte>)
    requires Good(p, w, size) && Offset(p, w, size) >= 0 && Printable(p, w, size, t)
    ensures Fits(p, w, size, t)
    decreases |t|
  {
    hide Cell, Blanks;
    if t != [] {
      StaysFits(Step(p, w, size, t[0]), w, size, t[1..]);
    }
  }

  lemma {:induction false} StaysAfter(p: Paper, w: nat, size: nat, s: seq<byte>, t: seq<byte>)
    requires Good(p, w, size) && Offset(p, w, size) >= 0 && Printable(p, w, size, s + t)
    ensures Fits(p, w, size, s)
    ensures Offset(Type(p, w, size, s), w, size) >= 0 && Printable(Type(p, w, size, s), w, size, t)
    decreases |s|
  {
    hide Cell, Blanks;
    if s == [] {
      assert s + t == t;
    } else {
      assert (s + t)[1..] == s[1..] + t;
      StaysAfter(Step(p, w, size, s[0]), w, size, s[1..], t);
    }
  }

  /** Two calls of printk_string are one call with both strings, except after a full row when the second
      string does not run on: then its first check starts a row too many. */
  lemma {:induction false} TwoCalls(p: Paper, w: nat, size: nat, s: seq<byte>, t: seq<byte>)
    requires Good(p, w, size) && Offset(p, w, size) >= 0 && Printable(p, w, size, s + t)
    requires Fits(p, w, size, s) && Good(Wrap(Type(p, w, size, s), w), w, size)
    requires Printable(Wrap(Type(p, w, size, s), w), w, size, t)
    ensures Fits(p, w, size, s + t) && Fits(Wrap(Type(p, w, size, s), w), w, size, t)
    ensures Type(Wrap(Type(p, w, size, s), w), w, size, t) == Type(p, w, size, s + t) <==>
            Type(p, w, size, s).x < w || RunsOn(w, w, t)
  {
    hide Type, Printable, RunsOn, Fits;
    StaysFits(p, w, size, s + t);
    TypeParts(p, w, size, s, t);
    StaysAfter(p, w, size, s, t);
    var q := Type(p, w, size, s);
    StaysFits(Wrap(q, w), w, size, t);
    if q.x == w {
      EarlyRow(q, NewRow(q, w), w, size, t);
    }
  }
}
