/** `core/vga.c`: a 25 by 80 window that scrolls in place, against a terminal whose rows
    are never lost. */
module Vga {
  import opened Bits
  import opened KernelC

  const COLUMNS := 80
  const ROWS := 25
  const WINDOW := 2000

  // ---- the terminal ------------------------------------------------------------------------

  /** A character cell as stored: attribute in the high byte, cut to 16 bits. */
  function Cell(c: nat, attrib: nat): int { BitOr(c, attrib * Pow2(8)) % 0x1_0000 }

  function Blanks(n: nat, attrib: nat): seq<int> { seq(n, _ => Cell(0x20, attrib)) }

  /** All rows ever shown, oldest first, as one sequence of cells, and the cursor. */
  datatype Terminal = Terminal(cells: seq<int>, row: int, col: int)

  ghost predicate Proper(t: Terminal)
  {
    && |t.cells| % COLUMNS == 0 && |t.cells| >= WINDOW
    && |t.cells| - WINDOW <= t.row * COLUMNS < |t.cells|
    && 0 <= t.col < COLUMNS
  }

  function Advance(t: Terminal): Terminal { t.(row := t.row + 1, col := 0) }

  /** The effect of one character on text and cursor, before wrapping. */
  function Draw(t: Terminal, c: nat, attrib: nat): Terminal
    requires 0 <= t.row && 0 <= t.col && t.row * COLUMNS + t.col < |t.cells|
  {
    if c == 0x08 then (if t.col > 0 then t.(col := t.col - 1) else t)
    else if c == 0x09 then t.(col := (t.col / 8 + 1) * 8)
    else if c == 0x0D then t.(col := 0)
    else if c == 0x0A then Advance(t)
    else if c >= 0x20 then t.(cells := t.cells[t.row * COLUMNS + t.col := Cell(c, attrib)], col := t.col + 1)
    else t
  }

  /** A new row appears, blank, when the cursor gets to it. */
  function Extend(t: Terminal, attrib: nat): Terminal
  {
    if t.row * COLUMNS < |t.cells| then t else t.(cells := t.cells + Blanks(COLUMNS, attrib))
  }

  function Put(t: Terminal, c: nat, attrib: nat): Terminal
    requires 0 <= t.row && 0 <= t.col && t.row * COLUMNS + t.col < |t.cells|
  {
    var d := Draw(t, c, attrib);
    Extend(if d.col >= COLUMNS then Advance(d) else d, attrib)
  }

  lemma PutProper(t: Terminal, c: nat, attrib: nat)
    requires Proper(t)
    ensures 0 <= t.row && 0 <= t.col && t.row * COLUMNS + t.col < |t.cells| && Proper(Put(t, c, attrib))
    ensures |t.cells| <= |Put(t, c, attrib).cells| <= |t.cells| + COLUMNS
  {
    RowFits(t);
  }

  lemma RowFits(t: Terminal)
    requires Proper(t)
    ensures t.row * COLUMNS + COLUMNS <= |t.cells|
  {}

  function PutAll(t: Terminal, text: seq<nat>, attrib: nat): (r: Terminal)
    requires Proper(t)
    ensures Proper(r)
    decreases |text|
  {
    if text == [] then t
    else
      PutProper(t, text[0], attrib);
      PutAll(Put(t, text[0], attrib), text[1..], attrib)
  }

  // ---- what the terminal guarantees ----------------------------------------------------------

  /** Rows above the cursor never change again. */
  lemma {:induction false} HistoryKept(t: Terminal, text: seq<nat>, attrib: nat)
    requires Proper(t)
    ensures t.row <= PutAll(t, text, attrib).row && |t.cells| <= |PutAll(t, text, attrib).cells|
    ensures PutAll(t, text, attrib).cells[..t.row * COLUMNS] == t.cells[..t.row * COLUMNS]
    decreases |text|
  {
    if text != [] {
      var t1 := Put(t, text[0], attrib);
      PutProper(t, text[0], attrib);
      HistoryKept(t1, text[1..], attrib);
      var t2 := PutAll(t1, text[1..], attrib);
      assert t2.cells[..t.row * COLUMNS] == t2.cells[..t1.row * COLUMNS][..t.row * COLUMNS];
      assert t1.cells[..t1.row * COLUMNS][..t.row * COLUMNS] == t1.cells[..t.row * COLUMNS];
      assert t1.cells[..t.row * COLUMNS] == t.cells[..t.row * COLUMNS];
    }
  }

  function Position(t: Terminal): int { t.row * COLUMNS + t.col }

  /** The text lies in r from t's cursor on, cell after cell, and nothing before it has
      changed. */
  ghost predicate RunsOn(t: Terminal, text: seq<nat>, attrib: nat, r: Terminal)
  {
    && Position(r) == Position(t) + |text|
    && 0 <= Position(t) && |t.cells| <= |r.cells| && Position(t) + |text| <= |r.cells|
    && (forall i :: 0 <= i < |text| ==> r.cells[Position(t) + i] == Cell(text[i], attrib))
    && (forall k :: 0 <= k < Position(t) ==> k < |t.cells| && r.cells[k] == t.cells[k])
  }

  /** Printable text runs on from the cursor, row after row, cell by cell: wrapping is
      nothing but counting. */
  lemma {:induction false} PrintableText(t: Terminal, text: seq<nat>, attrib: nat)
    requires Proper(t) && forall i :: 0 <= i < |text| ==> text[i] >= 0x20
    ensures RunsOn(t, text, attrib, PutAll(t, text, attrib))
    decreases |text|
  {
    if text == [] {
      RowFits(t);
    } else {
      hide RunsOn, Put, Position;
      PutProper(t, text[0], attrib);
      PutPrintable(t, text[0], attrib);
      PrintableText(Put(t, text[0], attrib), text[1..], attrib);
      assert text == [text[0]] + text[1..];
      OneMore(t, text[0], Put(t, text[0], attrib), text[1..], attrib, PutAll(t, text, attrib));
    }
  }

  lemma OneMore(t: Terminal, c: nat, t1: Terminal, rest: seq<nat>, attrib: nat, r: Terminal)
    requires 0 <= Position(t) < |t.cells| <= |t1.cells| && Position(t1) == Position(t) + 1
    requires t1.cells[Position(t)] == Cell(c, attrib) && forall k :: 0 <= k < Position(t) ==> t1.cells[k] == t.cells[k]
    requires RunsOn(t1, rest, attrib, r)
    ensures RunsOn(t, [c] + rest, attrib, r)
  {
    hide Position, Cell;
    var text := [c] + rest;
    assert r.cells[Position(t)] == t1.cells[Position(t)];
    forall i | 0 <= i < |text| ensures r.cells[Position(t) + i] == Cell(text[i], attrib) {
      if i > 0 {
        var j := i - 1;
        assert rest[j] == text[i] && Position(t1) + j == Position(t) + i;
      }
    }
    forall k | 0 <= k < Position(t) ensures k < |t.cells| && r.cells[k] == t.cells[k] {
      assert r.cells[k] == t1.cells[k];
    }
  }

  lemma PutPrintable(t: Terminal, c: nat, attrib: nat)
    requires Proper(t) && c >= 0x20
    ensures 0 <= Position(t) < |t.cells|
    ensures var t1 := Put(t, c, attrib);
            && Position(t1) == Position(t) + 1 && |t.cells| <= |t1.cells|
            && t1.cells[Position(t)] == Cell(c, attrib)
            && (forall k :: 0 <= k < Position(t) ==> t1.cells[k] == t.cells[k])
  {
    RowFits(t);
  }

  lemma {:induction false} PutAllAppend(t: Terminal, a: seq<nat>, b: seq<nat>, attrib: nat)
    requires Proper(t)
    ensures PutAll(t, a + b, attrib) == PutAll(PutAll(t, a, attrib), b, attrib)
    decreases |a|
  {
    if a == [] {
      assert a + b == b;
    } else {
      PutProper(t, a[0], attrib);
      assert (a + b)[1..] == a[1..] + b;
      PutAllAppend(Put(t, a[0], attrib), a[1..], b, attrib);
    }
  }

  /** The stored cell: the character below the low eight bits of the attribute. */
  lemma CellParts(c: nat, attrib: nat)
    requires c < 0x100
    ensures Cell(c, attrib) == c + 0x100 * (attrib % 0x100)
  {
    Pow2Values();
    OrDisjoint(c, attrib, 8);
    LowBytes(c, attrib);
  }

  lemma LowBytes(c: nat, a: nat)
    requires c < 0x100
    ensures (c + a * 0x100) % 0x1_0000 == c + 0x100 * (a % 0x100)
  {
    var q, r := a / 0x100, a % 0x100;
    assert c + a * 0x100 == 0x1_0000 * q + (c + 0x100 * r);
  }

  /** A blank cell: a space below the low eight bits of the attribute. */
  lemma BlankCells(n: nat, attrib: nat)
    ensures forall k :: 0 <= k < n ==> Blanks(n, attrib)[k] == 0x20 + 0x100 * (attrib % 0x100)
  {
    CellParts(0x20, attrib);
  }

  /** Line feed: the start of the next row, which is blank if it is a new one. */
  lemma LineFeed(t: Terminal, attrib: nat)
    requires Proper(t)
    ensures t.row * 80 + t.col < |t.cells|
    ensures var r := Put(t, 0x0A, attrib);
            && r.row == t.row + 1 && r.col == 0
            && |r.cells| == (if (t.row + 1) * 80 < |t.cells| then |t.cells| else |t.cells| + 80)
            && r.cells[..|t.cells|] == t.cells
            && forall k :: |t.cells| <= k < |r.cells| ==> r.cells[k] == 0x20 + 0x100 * (attrib % 0x100)
  {
    RowFits(t);
    BlankCells(80, attrib);
    hide Blanks;
  }

  /** Carriage return: the start of the same row. */
  lemma CarriageReturn(t: Terminal, attrib: nat)
    requires Proper(t)
    ensures t.row * 80 + t.col < |t.cells|
    ensures Put(t, 0x0D, attrib) == Terminal(t.cells, t.row, 0)
  {
    RowFits(t);
  }

  /** Backspace: one column back, but not past the start of the row; nothing is erased. */
  lemma Backspace(t: Terminal, attrib: nat)
    requires Proper(t)
    ensures t.row * 80 + t.col < |t.cells|
    ensures t.col > 0 ==> Put(t, 0x08, attrib) == Terminal(t.cells, t.row, t.col - 1)
    ensures t.col == 0 ==> Put(t, 0x08, attrib) == t
  {
    RowFits(t);
  }

  /** Tab: the next of the columns 8, 16, ..., 72, and from there the start of the next row. */
  lemma Tab(t: Terminal, attrib: nat)
    requires Proper(t)
    ensures t.row * 80 + t.col < |t.cells|
    ensures var r := Put(t, 0x09, attrib);
            if t.col < 72 then r.cells == t.cells && r.row == t.row && r.col % 8 == 0 && t.col < r.col <= t.col + 8
            else r == Put(t, 0x0A, attrib)
  {
    RowFits(t);
  }

  /** No other code below 0x20 does anything. */
  lemma OtherControl(t: Terminal, c: nat, attrib: nat)
    requires Proper(t) && c < 0x20 && c != 0x08 && c != 0x09 && c != 0x0A && c != 0x0D
    ensures t.row * 80 + t.col < |t.cells|
    ensures Put(t, c, attrib) == t
  {
    RowFits(t);
  }

  /** A printable character: its cell at the cursor, and the cursor one on. */
  lemma Printable(t: Terminal, c: nat, attrib: nat)
    requires Proper(t) && 0x20 <= c < 0x100
    ensures t.row * 80 + t.col < |t.cells|
    ensures var r, u := Put(t, c, attrib), Terminal(t.cells[t.row * 80 + t.col := c + 0x100 * (attrib % 0x100)], t.row, t.col);
            if t.col < 79 then r == u.(col := t.col + 1) else Proper(u) && r == Put(u, 0x0A, attrib)
  {
    RowFits(t);
    CellParts(c, attrib);
    hide Cell, Blanks;
  }

  // ---- the window ----------------------------------------------------------------------------

  /** The screen shows the last 25 rows. */
  ghost predicate Shows(buf: seq<int>, x: int, y: int, t: Terminal)
  {
    && Proper(t) && |buf| == WINDOW
    && buf == t.cells[|t.cells| - WINDOW..]
    && x == t.col && y * COLUMNS == t.row * COLUMNS - (|t.cells| - WINDOW)
  }

  /** As `Shows`, but the cursor may be one row below the window. */
  ghost predicate ShowsAbove(buf: seq<int>, x: int, y: int, t: Terminal)
  {
    && |t.cells| % COLUMNS == 0 && |t.cells| >= WINDOW == |buf|
    && |t.cells| - WINDOW <= t.row * COLUMNS <= |t.cells| && 0 <= t.col
    && buf == t.cells[|t.cells| - WINDOW..]
    && x == t.col && y * COLUMNS == t.row * COLUMNS - (|t.cells| - WINDOW)
  }

  lemma ShownProper(buf: seq<int>, x: int, y: int, t: Terminal)
    requires Shows(buf, x, y, t)
    ensures Proper(t) && |buf| == WINDOW && 0 <= t.row && 0 <= t.col && t.row * COLUMNS + t.col < |t.cells|
  {
    RowFits(t);
  }

  lemma ShownWindow(buf: seq<int>, x: int, y: int, t: Terminal)
    requires Shows(buf, x, y, t)
    ensures |buf| == WINDOW
  {}

  lemma ShownCell(buf: seq<int>, x: int, y: int, t: Terminal)
    requires Shows(buf, x, y, t)
    ensures 0 <= x < 80 && 0 <= y < 25 && |buf| == WINDOW && x == t.col
    ensures 0 <= t.row && t.row * COLUMNS + t.col < |t.cells|
  {
    RowFits(t);
  }

  lemma ShownCursor(buf: seq<int>, x: int, y: int, t: Terminal)
    requires ShowsAbove(buf, x, y, t)
    ensures x == t.col && |buf| == WINDOW
  {}

  lemma DrawCell(buf: seq<int>, x: int, y: int, t: Terminal, v: int)
    requires Shows(buf, x, y, t)
    ensures 0 <= y * 80 + x < WINDOW && t.row * COLUMNS + t.col < |t.cells|
    ensures buf[y * 80 + x := v] == t.cells[t.row * COLUMNS + t.col := v][|t.cells| - WINDOW..]
  {}

  /** The cursor moves, in its row or to the next one. */
  lemma MoveShows(buf: seq<int>, x: int, y: int, t: Terminal, x': int, y': int)
    requires Shows(buf, x, y, t) && x' >= 0 && y <= y' <= y + 1
    ensures ShowsAbove(buf, x', y', t.(row := t.row + (y' - y), col := x'))
    ensures y' == y ==> ShowsAbove(buf, 0, y + 1, Advance(t.(col := x')))
  {}

  /** A cell is written at the cursor, which moves on. */
  lemma WriteShows(buf: seq<int>, x: int, y: int, t: Terminal, v: int)
    requires Shows(buf, x, y, t)
    ensures 0 <= y * 80 + x < WINDOW == |buf| && t.row * COLUMNS + t.col < |t.cells|
    ensures var t' := t.(cells := t.cells[t.row * COLUMNS + t.col := v], col := t.col + 1);
            && ShowsAbove(buf[y * 80 + x := v], x + 1, y, t')
            && ShowsAbove(buf[y * 80 + x := v], 0, y + 1, Advance(t'))
  {
    DrawCell(buf, x, y, t, v);
  }

  lemma CellIs(c: nat, attrib: nat)
    ensures Cell(c, attrib) == BitOr(c, attrib * Pow2(8)) % 0x1_0000
  {}

  /** Scrolling by one row is the window's view of a new row. */
  lemma ScrollShows(buf: seq<int>, x: int, y: int, t: Terminal, attrib: nat)
    requires ShowsAbove(buf, x, y, t) && t.col < COLUMNS
    ensures 0 <= y <= ROWS
    ensures if y == ROWS then Shows(buf[COLUMNS..] + Blanks(COLUMNS, attrib), x, ROWS - 1, Extend(t, attrib))
            else Shows(buf, x, y, Extend(t, attrib))
  {}

  /** The next multiple of eight, as masking computes it. */
  lemma TabStop(x: nat)
    requires x < 0x1000
    ensures BitAnd(x + 8, 0xFFFF_FFF8) == (x / 8 + 1) * 8
  {
    Pow2Values();
    assert Pow2(3) == 8;
    AndHighMask(x + 8, 3, 29);
  }

  /** The window one row further down: the cursor at the start of a row that is either the
      next one, or the last one again, blank, with all others moved up. */
  ghost predicate RowDown(buf: seq<int>, y: int, buf': seq<int>, x': int, y': int, attrib: nat)
    requires |buf| == |buf'| == 2000
  {
    && x' == 0
    && (y < 24 ==> y' == y + 1 && buf' == buf)
    && (y == 24 ==> y' == 24 && buf'[..1920] == buf[80..] && forall k :: 1920 <= k < 2000 ==> buf'[k] == 0x20 + 0x100 * (attrib % 0x100))
  }

  lemma ShownRowDown(buf: seq<int>, x: int, y: int, t: Terminal, buf': seq<int>, x': int, y': int, attrib: nat)
    requires Shows(buf, x, y, t) && t.row * 80 + t.col < |t.cells| && Shows(buf', x', y', Put(t, 0x0A, attrib))
    ensures 0 <= x < 80 && 0 <= y < 25 && RowDown(buf, y, buf', x', y', attrib)
  {
    LineFeed(t, attrib);
    hide Put;
  }

  /** What a character does to the window and to the cursor in it. */
  ghost predicate Typed(buf: seq<int>, x: int, y: int, buf': seq<int>, x': int, y': int, c: nat, attrib: nat)
    requires |buf| == |buf'| == 2000
  {
    && 0 <= x < 80 && 0 <= y < 25
    && (c == 0x0A ==> RowDown(buf, y, buf', x', y', attrib))
    && (c == 0x09 && x >= 72 ==> RowDown(buf, y, buf', x', y', attrib))
    && (c == 0x09 && x < 72 ==> buf' == buf && y' == y && x' % 8 == 0 && x < x' <= x + 8)
    && (c == 0x0D ==> buf' == buf && y' == y && x' == 0)
    && (c == 0x08 ==> buf' == buf && y' == y && x' == (if x > 0 then x - 1 else 0))
    && (c < 0x20 && c != 0x08 && c != 0x09 && c != 0x0A && c != 0x0D ==> buf' == buf && y' == y && x' == x)
    && (c >= 0x20 ==>
          var typed := buf[y * 80 + x := c + 0x100 * (attrib % 0x100)];
          if x < 79 then buf' == typed && y' == y && x' == x + 1 else RowDown(typed, y, buf', x', y', attrib))
  }

  /** What the control characters do to the window and to the cursor in it. */
  lemma ShownControl(buf: seq<int>, x: int, y: int, t: Terminal, buf': seq<int>, x': int, y': int, c: nat, attrib: nat)
    requires Shows(buf, x, y, t) && t.row * 80 + t.col < |t.cells| && c < 0x20 && Shows(buf', x', y', Put(t, c, attrib))
    ensures Typed(buf, x, y, buf', x', y', c, attrib)
  {
    hide Put, RowDown;
    if c == 0x0A {
      ShownRowDown(buf, x, y, t, buf', x', y', attrib);
    } else if c == 0x09 {
      Tab(t, attrib);
      if x >= 72 { ShownRowDown(buf, x, y, t, buf', x', y', attrib); }
    } else if c == 0x0D {
      CarriageReturn(t, attrib);
    } else if c == 0x08 {
      Backspace(t, attrib);
    } else {
      OtherControl(t, c, attrib);
    }
    ShownCell(buf, x, y, t);
  }

  /** What a printable character does to the window. */
  lemma ShownPrintable(buf: seq<int>, x: int, y: int, t: Terminal, buf': seq<int>, x': int, y': int, c: nat, attrib: nat)
    requires Shows(buf, x, y, t) && t.row * 80 + t.col < |t.cells|
    requires 0x20 <= c < 0x100 && Shows(buf', x', y', Put(t, c, attrib))
    ensures Typed(buf, x, y, buf', x', y', c, attrib)
  {
    hide Put, RowDown;
    var v := c + 0x100 * (attrib % 0x100);
    DrawCell(buf, x, y, t, v);
    Printable(t, c, attrib);
    var u := t.(cells := t.cells[t.row * 80 + t.col := v]);
    if x == 79 { ShownRowDown(buf[y * 80 + x := v], x, y, u, buf', x', y', attrib); }
  }

  class Screen {
    const buf: array<int>            // textmemptr
    var csrX: int
    var csrY: int
    var attrib: nat
    ghost var term: Terminal

    ghost predicate Valid()
      reads this, buf
    {
      Shows(buf[..], csrX, csrY, term)
    }

    /** Whatever the text memory holds, with the cursor where `init_video` puts it. */
    constructor (textmem: array<int>)
      requires textmem.Length == WINDOW
      ensures Valid() && buf == textmem && attrib == 0x0F && term == Terminal(textmem[..], 10, 0)
    {
      buf := textmem;
      attrib, csrX, csrY := 0x0F, 0, 10;
      term := Terminal(textmem[..], 10, 0);
    }

    /** Move the window down by the rows that the cursor is below it. */
    method Scroll()
      requires buf.Length == WINDOW && 0 <= csrY <= ROWS
      modifies buf, this`csrY
      ensures csrY == if old(csrY) == ROWS then ROWS - 1 else old(csrY)
      ensures buf[..] == if old(csrY) == ROWS then old(buf[COLUMNS..]) + Blanks(COLUMNS, attrib) else old(buf[..])
    {
      var blank := BitOr(0x20, attrib * Pow2(8));
      if csrY >= 25 {
        ghost var s := buf[..];
        var temp := csrY - 25 + 1;
        Memcpyw(buf, 0, temp * 80, (25 - temp) * 80);
        ForwardCopyMoves(s, 0, temp * 80, (25 - temp) * 80);
        Memsetw(buf, (25 - temp) * 80, blank, 80);
        csrY := 25 - 1;
        assert buf[..] == s[80..] + Blanks(COLUMNS, attrib);
      }
    }

    /** The character's own effect, the wrap and the scroll still to come. */
    method DrawChar(c: nat)
      requires Valid() && c < 0x100
      modifies this`csrX, this`csrY, buf
      ensures 0 <= term.row && 0 <= term.col && term.row * COLUMNS + term.col < |term.cells|
      ensures ShowsAbove(buf[..], csrX, csrY, Draw(term, c, attrib))
      ensures Draw(term, c, attrib).col >= COLUMNS ==> ShowsAbove(buf[..], 0, csrY + 1, Advance(Draw(term, c, attrib)))
    {
      hide BitOr, BitAnd, Pow2, Shows, ShowsAbove, Cell;
      ghost var b, t, x, y := buf[..], term, csrX, csrY;
      ShownCell(b, x, y, t);
      var att := attrib * Pow2(8);
      if c == 0x08 {
        if csrX != 0 { csrX := csrX - 1; }
        MoveShows(b, x, y, t, csrX, csrY);
      } else if c == 0x09 {
        TabStop(csrX);
        csrX := BitAnd(csrX + 8, 0xFFFF_FFF8);
        MoveShows(b, x, y, t, csrX, csrY);
      } else if c == 0x0D {
        csrX := 0;
        MoveShows(b, x, y, t, csrX, csrY);
      } else if c == 0x0A {
        csrX := 0;
        csrY := csrY + 1;
        MoveShows(b, x, y, t, csrX, csrY);
      } else if c >= 0x20 {
        CellIs(c, attrib);
        buf[csrY * 80 + csrX] := BitOr(c, att) % 0x1_0000;
        csrX := csrX + 1;
        WriteShows(b, x, y, t, Cell(c, attrib));
      } else {
        MoveShows(b, x, y, t, csrX, csrY);
      }
    }

    method Putch(c: nat)
      requires Valid() && c < 0x100
      modifies this`csrX, this`csrY, this`term, buf
      ensures Valid() && Proper(old(term)) && old(term.row * COLUMNS + term.col < |term.cells|)
      ensures term == Put(old(term), c, attrib) && buf.Length == WINDOW
      ensures Typed(old(buf[..]), old(csrX), old(csrY), buf[..], csrX, csrY, c, attrib)
    {
      hide BitOr, BitAnd, Shows, ShowsAbove, Draw, Blanks, Typed;
      ghost var t, b, x, y := term, buf[..], csrX, csrY;
      ShownProper(buf[..], csrX, csrY, t);
      DrawChar(c);
      ghost var d := Draw(t, c, attrib);
      ShownCursor(buf[..], csrX, csrY, d);
      if csrX >= 80 {
        csrX := 0;
        csrY := csrY + 1;
        d := Advance(d);
      }
      ScrollShows(buf[..], csrX, csrY, d, attrib);
      Scroll();
      term := Put(t, c, attrib);
      ShownWindow(buf[..], csrX, csrY, term);
      if c < 0x20 {
        ShownControl(b, x, y, t, buf[..], csrX, csrY, c, attrib);
      } else {
        ShownPrintable(b, x, y, t, buf[..], csrX, csrY, c, attrib);
      }
    }

    method Cls()
      requires buf.Length == WINDOW && Valid()
      modifies this`csrX, this`csrY, this`term, buf
      ensures Valid() && csrX == csrY == 0
      ensures forall k :: 0 <= k < 2000 ==> buf[k] == 0x20 + 0x100 * (attrib % 0x100)
      ensures term == Cleared(old(term), attrib)
    {
      var blank := BitOr(0x20, attrib * Pow2(8));
      for i := 0 to 25
        invariant buf[..i * 80] == Blanks(i * 80, attrib)
        modifies buf
      {
        ghost var before := buf[..];
        Memsetw(buf, i * 80, blank, 80);
        assert buf[..(i + 1) * 80] == before[..i * 80] + Blanks(80, attrib);
      }
      csrX := 0;
      csrY := 0;
      assert buf[..] == buf[..25 * 80];
      BlankCells(WINDOW, attrib);
      term := Cleared(term, attrib);
    }

    /** Print a C string. */
    method Puts(text: array<int>, ghost len: nat)
      requires Valid() && text != buf && len < text.Length && text[len] == 0
      requires forall i :: 0 <= i < len ==> 0 < text[i] < 0x100
      modifies this`csrX, this`csrY, this`term, buf
      ensures Valid() && Proper(old(term)) && term == PutAll(old(term), text[..len], attrib)
    {
      hide Typed, Put;
      ghost var t := term;
      var n := Strlen(text);
      for i := 0 to n
        invariant Valid() && term == PutAll(t, text[..i], attrib)
      {
        ghost var now := term;
        Putch(text[i]);
        PutAllAppend(t, text[..i], [text[i]], attrib);
        assert text[..i] + [text[i]] == text[..i + 1];
      }
    }

    method SetTextColor(forecolor: nat, backcolor: nat)
      requires forecolor < 0x100 && backcolor < 0x100
      modifies this`attrib
      ensures attrib == forecolor % 16 + 16 * backcolor
    {
      assert Pow2(4) == 16;
      AndLowMask(forecolor, 4);
      OrCommutes(backcolor * Pow2(4), BitAnd(forecolor, 0x0F));
      OrDisjoint(BitAnd(forecolor, 0x0F), backcolor, 4);
      attrib := BitOr(backcolor * Pow2(4), BitAnd(forecolor, 0x0F));
    }
  }

  /** Clearing blanks the window and puts the cursor at its top; what scrolled off stays. */
  function Cleared(t: Terminal, attrib: nat): Terminal
    requires |t.cells| >= WINDOW
  {
    Terminal(t.cells[..|t.cells| - WINDOW] + Blanks(WINDOW, attrib), (|t.cells| - WINDOW) / COLUMNS, 0)
  }
}
