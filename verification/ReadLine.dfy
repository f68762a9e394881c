/** sys_read of kernel/sys.c: a line typed, echoed and edited. */
module ReadLine {
  import opened Console

  /** What was typed so far: the text after its backspaces, and whether Enter came. */
  datatype Line = Line(text: seq<int>, ended: bool)

  predicate Done(l: Line, len: int) { l.ended || |l.text| >= len - 1 }

  /** The effect of one key on the line. */
  function Typed(l: Line, c: int, len: int): Line {
    if Done(l, len) then l
    else if c == RETURN || c == NEWLINE then Line(l.text, true)
    else if c == BACKSPACE then (if l.text == [] then l else Line(l.text[..|l.text| - 1], false))
    else Line(l.text + [c], false)
  }

  function Edit(keys: seq<int>, len: int): Line {
    if keys == [] then Line([], false) else Typed(Edit(keys[..|keys| - 1], len), keys[|keys| - 1], len)
  }

  lemma EditNext(keys: seq<int>, n: nat, len: int)
    requires n < |keys|
    ensures Edit(keys[..n + 1], len) == Typed(Edit(keys[..n], len), keys[n], len)
  {
    assert keys[..n + 1][..n] == keys[..n];
  }

  /** Keys after the end of the line make no difference. */
  lemma {:induction false} EditDone(keys: seq<int>, n: nat, len: int)
    requires n <= |keys| && Done(Edit(keys[..n], len), len)
    ensures Edit(keys, len) == Edit(keys[..n], len)
    decreases |keys|
  {
    if n == |keys| {
      assert keys[..n] == keys;
    } else {
      var shorter := keys[..|keys| - 1];
      assert shorter[..n] == keys[..n];
      EditDone(shorter, n, len);
    }
  }

  lemma {:induction false} EditAppend(a: seq<int>, b: seq<int>, c: seq<int>, len: int)
    requires Edit(a, len) == Edit(b, len)
    ensures Edit(a + c, len) == Edit(b + c, len)
    decreases |c|
  {
    if c == [] {
      assert a + c == a && b + c == b;
    } else {
      var d := c[..|c| - 1];
      EditAppend(a, b, d, len);
      assert (a + c)[..|a + c| - 1] == a + d && (b + c)[..|b + c| - 1] == b + d;
    }
  }

  /** A character and the backspace after it cancel out, unless the line was full
      with it. */
  lemma BackspaceCancels(a: seq<int>, c: int, b: seq<int>, len: int)
    requires c != RETURN && c != NEWLINE && c != BACKSPACE && |Edit(a, len).text| + 1 < len - 1
    ensures Edit(a + [c, BACKSPACE] + b, len) == Edit(a + b, len)
  {
    var one, two := a + [c], a + [c, BACKSPACE];
    assert one[..|a|] == a && two[..|a| + 1] == one;
    EditNext(two, |a|, len);
    EditNext(two, |a| + 1, len);
    assert two[..|a|] == a && two[..|a| + 2] == two;
    EditAppend(two, a, b, len);
  }

  /** Keys other than Enter and backspace are stored as they were typed, as far as the
      buffer goes. */
  lemma {:induction false} StoredAsTyped(keys: seq<int>, len: int)
    requires len >= 1
    requires forall i {:trigger keys[i]} :: 0 <= i < |keys| ==> keys[i] !in {RETURN, NEWLINE, BACKSPACE}
    ensures Edit(keys, len) == Line(if |keys| < len then keys else keys[..len - 1], false)
    decreases |keys|
  {
    if keys != [] {
      var n := |keys| - 1;
      var shorter := keys[..n];
      assert forall i {:trigger shorter[i]} :: 0 <= i < n ==> shorter[i] == keys[i];
      StoredAsTyped(shorter, len);
      hide Edit;
      assert Edit(keys, len) == Typed(Edit(shorter, len), keys[n], len) by { EditLast(keys, len); }
      assert keys == shorter + [keys[n]];
      assert n >= len - 1 ==> shorter[..len - 1] == keys[..len - 1];
      assert n == len - 1 ==> shorter[..len - 1] == shorter;
    }
  }

  lemma EditLast(keys: seq<int>, len: int)
    requires keys != []
    ensures Edit(keys, len) == Typed(Edit(keys[..|keys| - 1], len), keys[|keys| - 1], len)
  {
  }

  /** Enter ends the line with what is in it, and is not stored. */
  lemma EnterEnds(keys: seq<int>, c: int, more: seq<int>, len: int)
    requires (c == RETURN || c == NEWLINE) && !Done(Edit(keys, len), len)
    ensures Edit(keys + [c] + more, len) == Line(Edit(keys, len).text, true)
  {
    var one := keys + [c];
    assert one[..|keys|] == keys && one[..|keys| + 1] == one && (one + more)[..|one|] == one;
    EditNext(one, |keys|, len);
    EditDone(one + more, |one|, len);
  }

  /** A backspace on an empty line does nothing. */
  lemma BackspaceOnNothing(a: seq<int>, b: seq<int>, len: int)
    requires Edit(a, len) == Line([], false)
    ensures Edit(a + [BACKSPACE] + b, len) == Edit(a + b, len)
  {
    var one := a + [BACKSPACE];
    assert one[..|a|] == a && one[..|a| + 1] == one;
    EditNext(one, |a|, len);
    EditAppend(one, a, b, len);
  }

  // ----- The echo -----

  /** What one key puts on the screen: itself, or "\b \b" for a backspace that takes
      something back, or a line feed for Enter. */
  function EchoOf(l: Line, c: int, len: int): seq<int> {
    if Done(l, len) then []
    else if c == RETURN || c == NEWLINE then [NEWLINE]
    else if c == BACKSPACE then (if l.text == [] then [] else [BACKSPACE, SPACE, BACKSPACE])
    else [c]
  }

  function Echo(keys: seq<int>, len: int): seq<int> {
    if keys == [] then []
    else Echo(keys[..|keys| - 1], len) + EchoOf(Edit(keys[..|keys| - 1], len), keys[|keys| - 1], len)
  }

  lemma EchoNext(keys: seq<int>, n: nat, len: int)
    requires n < |keys|
    ensures Echo(keys[..n + 1], len) == Echo(keys[..n], len) + EchoOf(Edit(keys[..n], len), keys[n], len)
  {
    hide Edit;
    assert keys[..n + 1][..n] == keys[..n];
  }

  /** Keys after the end of the line are not echoed. */
  lemma {:induction false} EchoDone(keys: seq<int>, n: nat, len: int)
    requires n <= |keys| && Done(Edit(keys[..n], len), len)
    ensures Echo(keys, len) == Echo(keys[..n], len)
    decreases |keys|
  {
    if n == |keys| {
      assert keys[..n] == keys;
    } else {
      var shorter := keys[..|keys| - 1];
      assert shorter[..n] == keys[..n];
      EchoDone(shorter, n, len);
      EditDone(shorter, n, len);
      hide Edit;
    }
  }

  /** A text in two parts is put out in two steps. */
  lemma {:induction false} PutsBoth(s: Screen, a: seq<int>, m: Screen, b: seq<int>, s': Screen)
    requires OnScreen(s) && OnScreen(m) && PutsAll(s, a, m) && PutsAll(m, b, s')
    ensures PutsAll(s, a + b, s')
    decreases |b|
  {
    hide Puts, OnScreen;
    if b == [] {
      assert a + b == a;
    } else {
      var c := b[..|b| - 1];
      var m2 := LastPut(m, b, s');
      PutsBoth(s, a, m, c, m2);
      assert (a + b)[..|a + b| - 1] == a + c;
      PutsOneMore(s, a + b, m2, s');
    }
  }

  /** The line being edited is on the screen, the cursor right behind it. */
  ghost predicate Displays(s: Screen, line: int, col: int, text: seq<int>) {
    Ready(s) && s.line == line && s.col == col + |text| && Shows(s.cells, line, col, text)
  }

  /** Keys a keyboard layout produces for text: what is printed is what is stored. */
  predicate PlainKey(c: int) { Printable(c) || c == BACKSPACE || c == RETURN || c == NEWLINE }

  /** The line never reaches the end of the row: what stands in the buffer after any
      of the keys fits between the start column and the last one. */
  ghost predicate FitsRow(keys: seq<int>, col: int, len: int) {
    forall i {:trigger keys[..i]} :: 0 <= i <= |keys| ==> col + |Edit(keys[..i], len).text| < VGA_WIDTH
  }

  lemma EchoShown(s: Screen, line: int, col: int, text: seq<int>, c: int, s': Screen)
    requires Displays(s, line, col, text) && Printable(c) && col + |text| + 1 < VGA_WIDTH && Puts(s, c, s')
    ensures Displays(s', line, col, text + [c]) && OnlyRow(s.cells, s'.cells, line)
  {
    forall i | 0 <= i < |text + [c]|
      ensures s'.cells[Pos(line, col + i)] == Cell((text + [c])[i])
    {
      assert i < |text| ==> s.cells[Pos(line, col + i)] == Cell(text[i]);
    }
    forall j | col + |text| + 1 <= j < VGA_WIDTH
      ensures s'.cells[Pos(line, j)] == BLANK
    {
      assert s.cells[Pos(line, j)] == BLANK;
    }
  }

  /** "\b \b" wipes out the last character. */
  lemma EchoErased(s: Screen, line: int, col: int, text: seq<int>, s1: Screen, s2: Screen, s3: Screen)
    requires text != [] && Displays(s, line, col, text) && Puts(s, BACKSPACE, s1)
    requires OnScreen(s1) && Puts(s1, SPACE, s2) && OnScreen(s2) && Puts(s2, BACKSPACE, s3)
    requires col >= 0 && col + |text| < VGA_WIDTH
    ensures Displays(s3, line, col, text[..|text| - 1]) && OnlyRow(s.cells, s3.cells, line)
  {
    var n := |text| - 1;
    assert s1.cells == s.cells && s1.col == col + n && s1.line == line && s1.last == line;
    assert s2.cells == s.cells[Pos(line, col + n) := Cell(SPACE)] && s3.cells == s2.cells;
    forall i | 0 <= i < n
      ensures s3.cells[Pos(line, col + i)] == Cell(text[..n][i])
    {
      assert s.cells[Pos(line, col + i)] == Cell(text[i]);
    }
    forall j | col + n <= j < VGA_WIDTH
      ensures s3.cells[Pos(line, j)] == BLANK
    {
      assert j > col + n ==> s.cells[Pos(line, j)] == BLANK;
    }
  }

  /** Enter moves on to a fresh row and leaves the typed one as it is. */
  lemma EchoEnter(s: Screen, line: int, col: int, text: seq<int>, s': Screen)
    requires Displays(s, line, col, text) && Puts(s, NEWLINE, s')
    ensures Shows(s'.cells, line, col, text) && Ready(s') && s'.col == 0
      && s'.line == (if line == VGA_HEIGHT - 1 then 0 else line + 1)
  {
    forall j | 0 <= j < VGA_WIDTH
      ensures s'.cells[Pos(line, j)] == s.cells[Pos(line, j)]
    {
    }
    forall i | 0 <= i < |text| ensures s'.cells[Pos(line, col + i)] == Cell(text[i]) { }
    forall j | col + |text| <= j < VGA_WIDTH
      ensures s'.cells[Pos(line, j)] == BLANK
    {
      assert s.cells[Pos(line, j)] == BLANK;
    }
  }

  lemma ThreePuts(s: Screen, a: int, b: int, c: int, s': Screen) returns (s1: Screen, s2: Screen)
    requires OnScreen(s) && PutsAll(s, [a, b, c], s')
    ensures OnScreen(s1) && OnScreen(s2) && Puts(s, a, s1) && Puts(s1, b, s2) && Puts(s2, c, s')
  {
    hide Puts, OnScreen;
    assert [a, b, c][..2] == [a, b] && [a, b][..1] == [a] && [a][..0] == [];
    s2 :| OnScreen(s2) && PutsAll(s, [a, b], s2) && Puts(s2, c, s');
    s1 :| OnScreen(s1) && PutsAll(s, [a], s1) && Puts(s1, b, s2);
    OnePut(s, a, s1);
  }

  lemma OnePut(s: Screen, a: int, s': Screen)
    requires OnScreen(s) && PutsAll(s, [a], s')
    ensures Puts(s, a, s')
  {
    hide Puts, OnScreen;
    assert [a][..0] == [];
    var m :| OnScreen(m) && PutsAll(s, [], m) && Puts(m, a, s');
  }

  // ----- sys_read -----

  /** Echo one key that is not Enter and edit the buffer. */
  method TakeKey(term: Terminal, s: array<int>, len: int, count: nat, c: int, ghost line: int, ghost col: int,
                 ghost plain: bool)
    returns (n: nat)
    requires term.Valid() && 1 <= len <= s.Length && count < len - 1 && c != RETURN && c != NEWLINE && s != term.scrTab
    requires plain ==> PlainKey(c) && 0 <= col && col + count < VGA_WIDTH && Displays(term.Abs(), line, col, s[..count])
    requires plain ==> col + |Typed(Line(s[..count], false), c, len).text| < VGA_WIDTH
    modifies term, term.scrTab, s
    ensures term.Valid() && n <= len - 1 && Line(s[..n], false) == Typed(Line(old(s[..count]), false), c, len)
    ensures s[len..] == old(s[len..])
    ensures PutsAll(old(term.Abs()), EchoOf(Line(old(s[..count]), false), c, len), term.Abs())
    ensures plain ==> Displays(term.Abs(), line, col, s[..n]) && OnlyRow(old(term.Abs()).cells, term.Abs().cells, line)
  {
    hide Displays, Puts, OnScreen, Printable, OnlyRow;
    ghost var t0, text := term.Abs(), s[..count];
    n := count;
    if c == BACKSPACE {
      if count > 0 {
        n := count - 1;
        term.PutBytes([BACKSPACE, SPACE, BACKSPACE]);
        ghost var t1, t2 := ThreePuts(t0, BACKSPACE, SPACE, BACKSPACE, term.Abs());
        if plain { EchoErased(t0, line, col, text, t1, t2, term.Abs()); }
        assert s[..n] == text[..|text| - 1];
      } else if plain {
        SameRow(t0.cells, line);
      }
      return;
    }
    s[count] := c;
    n := count + 1;
    term.PutBytes([c]);
    OnePut(t0, c, term.Abs());
    assert s[..n] == text + [c];
    if plain { EchoShown(t0, line, col, text, c, term.Abs()); }
  }

  lemma SameRow(cells: seq<int>, line: int)
    ensures OnlyRow(cells, cells, line)
  {
  }

  /** sys_read(s, len), fed with the keys typed; when they run out first it is
      still waiting for one. */
  method SysRead(term: Terminal, s: array<int>, len: int, keys: seq<int>) returns (count: nat, used: nat, waiting: bool)
    requires term.Valid() && 1 <= len <= s.Length && s != term.scrTab
    modifies term, term.scrTab, s
    ensures term.Valid() && used <= |keys| && count <= len - 1 && s[len..] == old(s[len..])
    // the buffer is the edit of the keys, which stop at Enter or a full buffer
    ensures Edit(keys, len) == Edit(keys[..used], len) && Edit(keys, len).text == s[..count]
    ensures waiting <==> !Done(Edit(keys, len), len)
    ensures waiting ==> used == |keys|
    ensures !waiting ==> s[count] == 0
    // no key is taken after the end of the line
    ensures forall n {:trigger keys[..n]} :: 0 <= n < used ==> !Done(Edit(keys[..n], len), len)
    // each key is echoed
    ensures PutsAll(old(term.Abs()), Echo(keys, len), term.Abs())
    // undisturbed, and as long as what was typed fits its row, the screen shows the
    // buffer, then blanks
    ensures var t0 := old(term.Abs());
      && (forall i {:trigger keys[i]} :: 0 <= i < |keys| ==> PlainKey(keys[i]))
      && FitsRow(keys, t0.col, len) && Displays(t0, t0.line, t0.col, []) ==>
        && Shows(term.Abs().cells, t0.line, t0.col, s[..count])
        && (if Edit(keys, len).ended then term.cursorCol == 0 else Displays(term.Abs(), t0.line, t0.col, s[..count]))
  {
    hide Displays, OnlyRow, Puts, PutsAll, Edit, Echo, EchoOf, Typed, Shows, Printable;
    ghost var t0 := term.Abs();
    ghost var plain := (forall i {:trigger keys[i]} :: 0 <= i < |keys| ==> PlainKey(keys[i]))
                       && FitsRow(keys, t0.col, len) && Displays(t0, t0.line, t0.col, []);
    ghost var line, col := t0.line, t0.col;
    count, used := 0, 0;
    EditStart(keys, len);
    NothingPut(t0);
    assert s[..0] == [];
    while count < len - 1
      invariant term.Valid() && used <= |keys| && count <= len - 1 && s[len..] == old(s[len..])
      invariant Edit(keys[..used], len) == Line(s[..count], false)
      invariant forall n {:trigger keys[..n]} :: 0 <= n < used ==> !Done(Edit(keys[..n], len), len)
      invariant PutsAll(t0, Echo(keys[..used], len), term.Abs())
      invariant plain ==> Displays(term.Abs(), line, col, s[..count])
      decreases |keys| - used
    {
      if used == |keys| {
        EditAll(keys, len);
        if plain { Displayed(term.Abs(), line, col, s[..count]); }
        return count, used, true;
      }
      var c := keys[used];
      EditNext(keys, used, len);
      EchoNext(keys, used, len);
      ghost var t1, echo, was := term.Abs(), Echo(keys[..used], len), Edit(keys[..used], len);
      assert plain ==> col + |Edit(keys[..used], len).text| < VGA_WIDTH;
      assert plain ==> col + |Edit(keys[..used + 1], len).text| < VGA_WIDTH;
      used := used + 1;
      if c == RETURN || c == NEWLINE {
        EnterTyped(s[..count], c, len);
        term.PutBytes([NEWLINE]);
        PutsBoth(t0, echo, t1, [NEWLINE], term.Abs());
        EchoDone(keys, used, len);
        OnePut(t1, NEWLINE, term.Abs());
        if plain { EchoEnter(t1, line, col, s[..count], term.Abs()); }
        EditDone(keys, used, len);
        ghost var shown := s[..count];
        s[count] := 0;
        assert s[..count] == shown;
        return count, used, false;
      }
      count := TakeKey(term, s, len, count, c, line, col, plain);
      PutsBoth(t0, echo, t1, EchoOf(was, c, len), term.Abs());
    }
    EditDone(keys, used, len);
    EchoDone(keys, used, len);
    if plain { Displayed(term.Abs(), line, col, s[..count]); }
    ghost var shown := s[..count];
    s[count] := 0;
    assert s[..count] == shown;
    waiting := false;
  }

  lemma EditStart(keys: seq<int>, len: int)
    ensures Edit(keys[..0], len) == Line([], false) && Echo(keys[..0], len) == []
  {
  }

  lemma NothingPut(s: Screen)
    requires OnScreen(s)
    ensures PutsAll(s, [], s)
  {
  }

  lemma EditAll(keys: seq<int>, len: int)
    ensures keys[..|keys|] == keys
  {
  }

  lemma EnterTyped(text: seq<int>, c: int, len: int)
    requires |text| < len - 1 && (c == RETURN || c == NEWLINE)
    ensures Typed(Line(text, false), c, len) == Line(text, true)
    ensures EchoOf(Line(text, false), c, len) == [NEWLINE]
  {
  }

  lemma Displayed(s: Screen, line: int, col: int, text: seq<int>)
    requires Displays(s, line, col, text)
    ensures Shows(s.cells, line, col, text)
  {
  }
}
