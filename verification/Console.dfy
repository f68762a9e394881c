/** kernel/console.c: the text screen and its cursor. */
module Console {

  const VGA_WIDTH := 80
  const VGA_HEIGHT := 25
  const CHAR_COLOR := 0x0F
  const BLANK := 0x0F20

  /** A character and its colour, as video memory holds them. */
  function Cell(c: int): int { CHAR_COLOR * 256 + c }

  const BACKSPACE := 8
  const TAB := 9
  const NEWLINE := 10
  const FORMFEED := 12
  const RETURN := 13
  const SPACE := 32

  /** A plain char is signed, so bytes from 128 up are not printable either. */
  predicate Printable(c: int) { 31 < c < 127 }

  /** The screen as a value: cells row by row, the cursor, and the line that was
      last cleared for writing. */
  datatype Screen = Screen(cells: seq<int>, line: int, col: int, last: int)

  predicate OnScreen(s: Screen) {
    |s.cells| == VGA_WIDTH * VGA_HEIGHT && 0 <= s.line < VGA_HEIGHT && 0 <= s.col < VGA_WIDTH
      && 0 <= s.last < VGA_HEIGHT
  }

  function Pos(line: int, col: int): int { VGA_WIDTH * line + col }

  predicate Ready(s: Screen) { OnScreen(s) && s.last == s.line }

  /** Row `line` holds the text from column col on, and blanks behind it. */
  ghost predicate Shows(cells: seq<int>, line: int, col: int, text: seq<int>) {
    && |cells| == VGA_WIDTH * VGA_HEIGHT && 0 <= line < VGA_HEIGHT && 0 <= col && col + |text| <= VGA_WIDTH
    && (forall i {:trigger text[i]} :: 0 <= i < |text| ==> cells[Pos(line, col + i)] == Cell(text[i]))
    && (forall j {:trigger Pos(line, j)} :: col + |text| <= j < VGA_WIDTH ==> cells[Pos(line, j)] == BLANK)
  }

  /** Cells that differ lie in the given row. */
  ghost predicate OnlyRow(a: seq<int>, b: seq<int>, line: int) {
    |b| == |a| && forall i {:trigger b[i]} :: 0 <= i < |a| && !(Pos(line, 0) <= i < Pos(line + 1, 0)) ==> b[i] == a[i]
  }

  class Terminal {
    const scrTab: array<int>
    var cursorLine: int
    var cursorCol: int
    var lastLine: int

    ghost predicate Valid()
      reads this, scrTab
    {
      scrTab.Length == VGA_WIDTH * VGA_HEIGHT && OnScreen(Abs())
    }

    ghost function Abs(): Screen
      reads this, scrTab
    {
      Screen(scrTab[..], cursorLine, cursorCol, lastLine)
    }

    constructor ()
      ensures Valid() && fresh(scrTab) && cursorLine == cursorCol == lastLine == 0
    {
      scrTab := new int[VGA_WIDTH * VGA_HEIGHT](_ => 0);
      cursorLine, cursorCol, lastLine := 0, 0, 0;
    }

    /** clear_screen() */
    method ClearScreen()
      requires Valid()
      modifies `cursorLine, `cursorCol, scrTab
      ensures Valid() && Abs() == Screen(seq(VGA_WIDTH * VGA_HEIGHT, _ => BLANK), 0, 0, old(lastLine))
    {
      var i := 0;
      while i < VGA_WIDTH * VGA_HEIGHT
        invariant 0 <= i <= scrTab.Length == VGA_WIDTH * VGA_HEIGHT
        invariant forall k {:trigger scrTab[k]} :: 0 <= k < i ==> scrTab[k] == BLANK
      {
        scrTab[i] := Cell(SPACE);
        i := i + 1;
      }
      cursorLine, cursorCol := 0, 0;
      assert scrTab[..] == seq(VGA_WIDTH * VGA_HEIGHT, _ => BLANK);
    }

    /** clear_line(line) */
    method ClearLine(line: int)
      requires Valid() && 0 <= line < VGA_HEIGHT
      modifies scrTab
      ensures Valid() && OnlyRow(old(scrTab[..]), scrTab[..], line) && Shows(scrTab[..], line, 0, [])
    {
      var start := VGA_WIDTH * line;
      var i := 0;
      while i < VGA_WIDTH
        invariant 0 <= i <= VGA_WIDTH && Valid()
        invariant forall k {:trigger scrTab[k]} :: 0 <= k < scrTab.Length ==>
          scrTab[k] == if start <= k < start + i then BLANK else old(scrTab[k])
      {
        scrTab[start + i] := Cell(SPACE);
        i := i + 1;
      }
    }

    /** The character itself, up to the wraps. */
    method Interpret(c: int)
      requires Valid() && c != FORMFEED
      modifies `cursorLine, `cursorCol, scrTab
      ensures Valid() && (cursorLine, cursorCol) == Moved(old(cursorLine), old(cursorCol), c)
      ensures scrTab[..] == Written(old(Abs()), c)
    {
      if Printable(c) {
        var pos := VGA_WIDTH * cursorLine + cursorCol;
        scrTab[pos] := Cell(c);
        assert scrTab[..] == Written(old(Abs()), c);
        cursorCol := cursorCol + 1;
      } else if c == BACKSPACE {
        if cursorCol > 0 { cursorCol := cursorCol - 1; }
      } else if c == TAB {
        cursorCol := cursorCol + 8;
      } else if c == NEWLINE {
        cursorLine := cursorLine + 1;
        cursorCol := 0;
      } else if c == RETURN {
        cursorCol := 0;
      }
      // wrap to the next line
      if cursorCol >= VGA_WIDTH {
        cursorCol := 0;
        cursorLine := cursorLine + 1;
      }
      // wrap to the top
      if cursorLine >= VGA_HEIGHT { cursorLine := 0; }
    }

    /** console_putchar(c) */
    method PutChar(c: int)
      requires Valid()
      modifies this, scrTab
      ensures Valid() && Puts(old(Abs()), c, Abs())
    {
      hide Moved, Shows, OnlyRow, Printable, Written, Cell;
      if c == FORMFEED {
        ClearScreen();
        return;
      }
      Interpret(c);
      if cursorLine != lastLine {
        ClearLine(cursorLine);
        lastLine := cursorLine;
      }
    }

    /** console_putbytes(s, len) */
    method PutBytes(s: seq<int>)
      requires Valid()
      modifies this, scrTab
      ensures Valid() && PutsAll(old(Abs()), s, Abs())
    {
      hide Puts;
      var i := 0;
      while i < |s|
        invariant 0 <= i <= |s| && Valid() && PutsAll(old(Abs()), s[..i], Abs())
      {
        ghost var s1 := Abs();
        PutChar(s[i]);
        assert s[..i + 1][..i] == s[..i];
        PutsOneMore(old(Abs()), s[..i + 1], s1, Abs());
        i := i + 1;
      }
      assert s[..|s|] == s;
    }
  }

  /** The cells with c printed at the cursor, if it can be. */
  function Written(s: Screen, c: int): seq<int>
    requires OnScreen(s)
  {
    if Printable(c) then s.cells[Pos(s.line, s.col) := Cell(c)] else s.cells
  }

  /** Where the cursor goes: past a printed character or a tab, to the next line
      or the next column, around the screen at its edges. */
  function Moved(line: int, col: int, c: int): (int, int) {
    var l := if c == NEWLINE then line + 1 else line;
    var k := if Printable(c) then col + 1 else if c == BACKSPACE && col > 0 then col - 1 else if c == TAB then col + 8
             else if c == NEWLINE || c == RETURN then 0 else col;
    var l2 := if k >= VGA_WIDTH then l + 1 else l;
    (if l2 >= VGA_HEIGHT then 0 else l2, if k >= VGA_WIDTH then 0 else k)
  }

  /** The effect of one character: a form feed blanks the screen but leaves the
      last line as it was; anything else writes at most one cell, moves the cursor,
      and clears the row it ends on unless that is the last line. */
  ghost predicate Puts(s: Screen, c: int, s': Screen)
    requires OnScreen(s)
  {
    if c == FORMFEED then s' == Screen(seq(VGA_WIDTH * VGA_HEIGHT, _ => BLANK), 0, 0, s.last)
    else
      && OnScreen(s') && (s'.line, s'.col) == Moved(s.line, s.col, c) && s'.last == s'.line
      && (if s'.line == s.last then s'.cells == Written(s, c)
          else OnlyRow(Written(s, c), s'.cells, s'.line) && Shows(s'.cells, s'.line, 0, []))
  }

  /** One character after the other. */
  ghost predicate PutsAll(s: Screen, text: seq<int>, s': Screen)
    requires OnScreen(s)
    decreases |text|
  {
    if text == [] then s' == s
    else exists m {:trigger Puts(m, text[|text| - 1], s')} ::
      OnScreen(m) && PutsAll(s, text[..|text| - 1], m) && Puts(m, text[|text| - 1], s')
  }

  lemma PutsOneMore(s: Screen, text: seq<int>, m: Screen, s': Screen)
    requires OnScreen(s) && OnScreen(m) && text != [] && PutsAll(s, text[..|text| - 1], m)
      && Puts(m, text[|text| - 1], s')
    ensures PutsAll(s, text, s')
  {
  }

  lemma LastPut(s: Screen, text: seq<int>, s': Screen) returns (m: Screen)
    requires OnScreen(s) && text != [] && PutsAll(s, text, s')
    ensures OnScreen(m) && PutsAll(s, text[..|text| - 1], m) && Puts(m, text[|text| - 1], s')
  {
    hide Puts;
    m :| OnScreen(m) && PutsAll(s, text[..|text| - 1], m) && Puts(m, text[|text| - 1], s');
  }

  lemma NoPuts(s: Screen, s': Screen)
    requires OnScreen(s) && PutsAll(s, [], s')
    ensures s' == s
  {
  }

  /** A printed character stays visible if and only if its row was the last line
      or the cursor wrapped off it. */
  lemma PrintedStays(s: Screen, c: int, s': Screen)
    requires OnScreen(s) && Printable(c) && c != SPACE && Puts(s, c, s')
    ensures s'.cells[Pos(s.line, s.col)] == Cell(c) <==> s.last == s.line || s.col == VGA_WIDTH - 1
  {
    if s'.line != s.last && s'.line == s.line { assert s'.cells[Pos(s.line, s.col)] == BLANK; }
  }

  /** After a form feed the last line is stale: the next character printed is
      erased at once, unless the form feed came on line 0. */
  lemma LostAfterFormFeed(s: Screen, s1: Screen, c: int, s2: Screen)
    requires OnScreen(s) && Puts(s, FORMFEED, s1) && Printable(c) && c != SPACE && Puts(s1, c, s2)
    ensures s2.cells[0] == Cell(c) <==> s.last == 0
    ensures s2.line == 0 && s2.col == 1
  {
    PrintedStays(s1, c, s2);
    assert Pos(0, 0) == 0;
  }

  // ----- Whole texts -----

  /** The row and the column of a position counted on from the top of the screen. */
  function RowAt(x: nat): nat { x / VGA_WIDTH % VGA_HEIGHT }

  function ColAt(x: nat): nat { x % VGA_WIDTH }

  lemma NextAt(x: nat)
    ensures if ColAt(x) + 1 < VGA_WIDTH then RowAt(x + 1) == RowAt(x) && ColAt(x + 1) == ColAt(x) + 1
      else RowAt(x + 1) == (RowAt(x) + 1) % VGA_HEIGHT && ColAt(x + 1) == 0
    ensures RowAt(x) < VGA_HEIGHT && ColAt(x) < VGA_WIDTH
  {
    var r, k := x / VGA_WIDTH, x % VGA_WIDTH;
    assert x == VGA_WIDTH * r + k;
    if k + 1 < VGA_WIDTH {
      Quotient(x + 1, r, k + 1);
    } else {
      Quotient(x + 1, r + 1, 0);
      NextMod(r);
    }
  }

  lemma Quotient(x: nat, r: nat, k: nat)
    requires x == VGA_WIDTH * r + k && k < VGA_WIDTH
    ensures x / VGA_WIDTH == r && x % VGA_WIDTH == k
  {
  }

  lemma NextMod(r: nat)
    ensures (r + 1) % VGA_HEIGHT == (r % VGA_HEIGHT + 1) % VGA_HEIGHT
  {
  }

  /** The cursor itself is at such a position. */
  lemma CursorAt(line: nat, col: nat)
    requires line < VGA_HEIGHT && col < VGA_WIDTH
    ensures RowAt(Pos(line, col)) == line && ColAt(Pos(line, col)) == col
  {
  }

  /** Positions less than a screen apart lie apart, and if their rows are not the same
      one they are different rows of the screen. */
  lemma Apart(x: nat, y: nat)
    requires x < y && Still(x, y)
    ensures RowAt(x) != RowAt(y) || ColAt(x) != ColAt(y)
    ensures x / VGA_WIDTH != y / VGA_WIDTH ==> RowAt(x) != RowAt(y)
  {
  }

  /** One printed character: its cell, and the row that is cleared if it was the last
      of its own. */
  lemma OnePrinted(s: Screen, q: nat, c: int, s': Screen)
    requires Ready(s) && s.line == RowAt(q) && s.col == ColAt(q) && Printable(c) && Puts(s, c, s')
    ensures Ready(s') && s'.line == RowAt(q + 1) && s'.col == ColAt(q + 1)
    ensures CellAt(s'.cells, q) == Cell(c)
    ensures forall l, j {:trigger Pos(l, j)} ::
      && 0 <= l < VGA_HEIGHT && 0 <= j < VGA_WIDTH && (l != RowAt(q) || j != ColAt(q))
      && (l != RowAt(q + 1) || ColAt(q) + 1 < VGA_WIDTH)
      ==> s'.cells[Pos(l, j)] == s.cells[Pos(l, j)]
  {
    NextAt(q);
    hide RowAt, ColAt;
  }

  /** From x on to y the cursor has not come to the row of x again. */
  predicate Still(x: nat, y: nat) { y / VGA_WIDTH < x / VGA_WIDTH + VGA_HEIGHT }

  predicate AllPrintable(text: seq<int>) { forall i {:trigger text[i]} :: 0 <= i < |text| ==> Printable(text[i]) }

  lemma AllButLast(text: seq<int>)
    requires AllPrintable(text) && text != []
    ensures AllPrintable(text[..|text| - 1]) && Printable(text[|text| - 1])
  {
  }

  /** Each character of a text printed from p to q stands in its cell, unless the cursor
      has come to its row again. */
  ghost predicate Flowed(cells: seq<int>, p: nat, text: seq<int>, q: nat)
    requires |cells| == VGA_WIDTH * VGA_HEIGHT
  {
    forall i {:trigger text[i]} :: 0 <= i < |text| && Still(p + i, q) ==> CellAt(cells, p + i) == Cell(text[i])
  }

  function CellAt(cells: seq<int>, x: nat): int
    requires |cells| == VGA_WIDTH * VGA_HEIGHT
  {
    assert RowAt(x) < VGA_HEIGHT && ColAt(x) < VGA_WIDTH by { NextAt(x); }
    cells[Pos(RowAt(x), ColAt(x))]
  }

  /** Printable text from a settled cursor at p on fills the screen row after row and goes
      on at the top. A character stays until the cursor comes to its row again. */
  lemma {:induction false} TextFlows(s: Screen, p: nat, text: seq<int>, s': Screen)
    requires Ready(s) && s.line == RowAt(p) && s.col == ColAt(p) && PutsAll(s, text, s') && AllPrintable(text)
    ensures Ready(s') && s'.line == RowAt(p + |text|) && s'.col == ColAt(p + |text|)
    ensures Flowed(s'.cells, p, text, p + |text|)
    decreases |text|
  {
    hide Puts, PutsAll, AllPrintable, Printable, Pos, Cell, RowAt, ColAt, Still, CellAt;
    if text == [] {
      NoPuts(s, s');
    } else {
      hide Flowed;
      var n := |text| - 1;
      var m := LastPut(s, text, s');
      AllButLast(text);
      TextFlows(s, p, text[..n], m);
      FlowedNext(m, p, text, s');
    }
  }

  lemma FlowedNext(m: Screen, p: nat, text: seq<int>, s': Screen)
    requires text != [] && Ready(m) && Printable(text[|text| - 1]) && Puts(m, text[|text| - 1], s')
    requires var q := p + |text| - 1;
      m.line == RowAt(q) && m.col == ColAt(q) && Flowed(m.cells, p, text[..|text| - 1], q)
    ensures Ready(s') && s'.line == RowAt(p + |text|) && s'.col == ColAt(p + |text|)
    ensures Flowed(s'.cells, p, text, p + |text|)
  {
    hide Puts, Printable, Cell, Still, RowAt, ColAt, Pos, CellAt;
    var n := |text| - 1;
    OnePrinted(m, p + n, text[n], s');
    assert CellAt(s'.cells, p + n) == Cell(text[n]);
    forall i | 0 <= i < n && Still(p + i, p + |text|)
      ensures CellAt(s'.cells, p + i) == Cell(text[i])
    {
      StaysPrinted(m, p + n, s', p + i, text[n]);
      assert text[..n][i] == text[i];
    }
  }

  lemma StaysPrinted(m: Screen, q: nat, s': Screen, x: nat, c: int)
    requires Ready(m) && m.line == RowAt(q) && m.col == ColAt(q) && Printable(c) && Puts(m, c, s')
    requires x < q && Still(x, q + 1)
    ensures Still(x, q) && Ready(s') && CellAt(s'.cells, x) == CellAt(m.cells, x)
  {
    hide Puts, Printable;
    NextAt(x);
    NextAt(q);
    Apart(x, q);
    Apart(x, q + 1);
    assert ColAt(q) + 1 >= VGA_WIDTH ==> x / VGA_WIDTH != (q + 1) / VGA_WIDTH;
    OnePrinted(m, q, c, s');
    hide RowAt, ColAt;
    assert RowAt(x) != RowAt(q) || ColAt(x) != ColAt(q);
    assert RowAt(x) != RowAt(q + 1) || ColAt(q) + 1 < VGA_WIDTH;
  }

  /** '\r' goes back to the first column and leaves the row as it is. */
  lemma ReturnGoesBack(s: Screen, s': Screen)
    requires Ready(s) && Puts(s, RETURN, s')
    ensures s' == s.(col := 0)
  {
  }

  /** '\t' goes 8 columns on and writes nothing, or to the start of the next row, which
      it clears, when fewer than 9 columns are left. */
  lemma TabSkips(s: Screen, s': Screen)
    requires Ready(s) && Puts(s, TAB, s')
    ensures s.col + 8 < VGA_WIDTH ==> s' == s.(col := s.col + 8)
    ensures s.col + 8 >= VGA_WIDTH ==> NextRow(s, s')
  {
  }

  /** '\n' goes to the start of the next row, which it clears. */
  lemma NewlineGoesOn(s: Screen, s': Screen)
    requires Ready(s) && Puts(s, NEWLINE, s')
    ensures NextRow(s, s')
  {
  }

  /** The cursor at the start of the row below, or of the top row from the bottom one;
      that row is blank and the others are as they were. */
  ghost predicate NextRow(s: Screen, s': Screen)
    requires OnScreen(s)
  {
    && Ready(s') && s'.col == 0 && s'.line == (s.line + 1) % VGA_HEIGHT
    && Shows(s'.cells, s'.line, 0, []) && OnlyRow(s.cells, s'.cells, s'.line)
  }

  /** Any other character that is not printable does nothing. */
  lemma OthersIgnored(s: Screen, c: int, s': Screen)
    requires Ready(s) && !Printable(c) && c !in {BACKSPACE, TAB, NEWLINE, FORMFEED, RETURN} && Puts(s, c, s')
    ensures s' == s
  {
  }

  /** '\r' and a text shorter than the row lay the text over what stood there. */
  lemma {:induction false} Overtyped(s: Screen, text: seq<int>, s1: Screen, s': Screen)
    requires Ready(s) && Puts(s, RETURN, s1) && OnScreen(s1) && PutsAll(s1, text, s') && |text| < VGA_WIDTH
    requires AllPrintable(text)
    ensures s'.line == s.line && s'.col == |text| && Ready(s')
    ensures Overlaid(s.cells, Pos(s.line, 0), text, s'.cells)
    decreases |text|
  {
    ReturnGoesBack(s, s1);
    hide Puts, PutsAll, AllPrintable, Printable;
    if text == [] {
      NoPuts(s1, s');
    } else {
      hide Overlaid;
      var n := |text| - 1;
      var m := LastPut(s1, text, s');
      AllButLast(text);
      Overtyped(s, text[..n], s1, m);
      InRow(m, text[n], s');
      OverlaidNext(s.cells, Pos(s.line, 0), text, m.cells);
    }
  }

  ghost predicate Overlaid(a: seq<int>, at: int, text: seq<int>, b: seq<int>) {
    |b| == |a| && forall k {:trigger b[k]} :: 0 <= k < |a| ==>
      b[k] == if at <= k < at + |text| then Cell(text[k - at]) else a[k]
  }

  lemma OverlaidNext(a: seq<int>, at: nat, text: seq<int>, b: seq<int>)
    requires text != [] && at + |text| <= |a| && Overlaid(a, at, text[..|text| - 1], b)
    ensures Overlaid(a, at, text, b[at + |text| - 1 := Cell(text[|text| - 1])])
  {
  }

  lemma InRow(s: Screen, c: int, s': Screen)
    requires Ready(s) && Printable(c) && Puts(s, c, s') && s.col + 1 < VGA_WIDTH
    ensures s' == s.(cells := s.cells[Pos(s.line, s.col) := Cell(c)], col := s.col + 1)
  {
  }
}
