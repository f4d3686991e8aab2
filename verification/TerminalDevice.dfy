/**
 The virtual terminal as the kernel runs it: fields and a frame buffer updated in place, one
 byte at a time. Every operation is proved to do what the model says.
 */
module TerminalDevice {
  import opened Values
  import opened Memory
  import opened TerminalModel
  import opened TerminalProofs

  class Device {
    const cols: nat
    const rows: nat
    const framebuf: array<byte>
    var mode: Mode
    var tabstops: seq<bool>
    var csiparam: seq<int>
    var paramidx: nat
    var needWrap: bool
    var cursor: Cursor
    var savedCursor: Cursor
    var savedTabs: seq<bool>

    ghost function View(): Terminal
      reads this, framebuf
    {
      Terminal(mode, cols, rows, framebuf[..], tabstops, csiparam, paramidx, needWrap, cursor, savedCursor, savedTabs)
    }

    ghost predicate Valid()
      reads this, framebuf
    {
      Inv(View())
    }

    /** A terminal with a frame buffer of `rows` lines of `cols` cells, freshly reset. */
    constructor (cols: nat, rows: nat, fb: array<byte>)
      requires 1 <= cols <= MAX_TABSTOP && 1 <= rows < FB_CELLS && fb.Length == rows * cols <= FB_CELLS
      modifies fb
      ensures Valid() && framebuf == fb && this.cols == cols && this.rows == rows
      ensures View() == Reset(View())
    {
      this.cols, this.rows, framebuf := cols, rows, fb;
      mode, tabstops, csiparam, paramidx, needWrap := Norm, DefaultTabs(), NoParams(), 0, false;
      cursor, savedCursor, savedTabs := Cursor(0, 0), Cursor(0, 0), DefaultTabs();
      new;
      BlankCells(0, fb.Length);
    }

    // ---- frame buffer ----

    method BlankCells(start: nat, count: nat)
      requires start + count <= framebuf.Length
      modifies framebuf
      ensures framebuf[..] == Blanked(old(framebuf[..]), start, count)
    {
      for i := 0 to count
        invariant forall k | 0 <= k < framebuf.Length ::
                    framebuf[k] == if start <= k < start + i then BLANK else old(framebuf[k])
      {
        framebuf[start + i] := BLANK;
      }
    }

    method ScrollLines(count: int)
      requires framebuf.Length == rows * cols
      modifies framebuf
      ensures framebuf[..] == Scrolled(old(framebuf[..]), cols, rows, count)
    {
      var reverse := count < 0;
      var n := if reverse then -count else count;
      if n > rows { n := rows; }
      var nBlank := n * cols;
      BlankFits(n, rows, cols);
      var nCells := rows * cols - nBlank;
      if n == 0 {
        ScrollNothing(framebuf[..], cols, rows, count);
        return;
      }
      ghost var before := framebuf[..];
      if reverse {
        MemMove(framebuf, nBlank, 0, nCells);
        BlankCells(0, nBlank);
      } else {
        MemMove(framebuf, 0, nBlank, nCells);
        BlankCells(nCells, nBlank);
      }
      ScrollIsMove(before, cols, rows, count, nBlank);
    }

    // ---- cursor ----

    method CarriageReturn()
      modifies `cursor, `needWrap
      ensures View() == TerminalModel.CarriageReturn(old(View()))
    {
      cursor := cursor.(x := 0);
      needWrap := false;
    }

    method LineFeed()
      requires Valid()
      modifies framebuf, `cursor, `needWrap
      ensures View() == TerminalModel.LineFeed(old(View()))
    {
      cursor := cursor.(y := Field12(cursor.y + 1));
      if cursor.y >= rows {
        ScrollLines(1);
        cursor := cursor.(y := Field12(cursor.y - 1));
      }
      needWrap := false;
    }

    method ReverseLineFeed()
      modifies `cursor, `needWrap
      ensures View() == TerminalModel.ReverseLineFeed(old(View()))
    {
      cursor := cursor.(y := Field12(cursor.y - 1));  // never negative, so no scroll follows
      needWrap := false;
    }

    method Backspace()
      modifies `cursor, `needWrap
      ensures View() == TerminalModel.Backspace(old(View()))
    {
      CursorLeft(1);
      needWrap := false;
    }

    /** The entry behind the last column is probed too; its value does not matter. */
    method Tab()
      requires Valid()
      modifies `cursor
      ensures View() == TerminalModel.Tab(old(View()))
    {
      var x := cursor.x;
      ghost var from := x;
      while x < cols
        invariant from <= x <= cols
        invariant x < cols ==> NextStop(tabstops, from, cols) == NextStop(tabstops, x, cols)
        invariant x == cols ==> NextStop(tabstops, from, cols) == cols - 1
      {
        x := x + 1;
        var stop: bool := *;
        if x < MAX_TABSTOP { stop := tabstops[x]; }
        if stop {
          break;
        }
      }
      if x >= cols { x := cols - 1; }
      cursor := cursor.(x := x);
    }

    method CursorUp(n: int)
      modifies `cursor
      ensures View() == MoveUp(old(View()), n)
    {
      if cursor.y - n > 0 { cursor := cursor.(y := Field12(cursor.y - n)); } else { cursor := cursor.(y := 0); }
    }

    method CursorDown(n: int)
      requires rows >= 1
      modifies `cursor
      ensures View() == MoveDown(old(View()), n)
    {
      if Wrap32(cursor.y + n) < rows - 1 { cursor := cursor.(y := Field12(cursor.y + n)); } else { cursor := cursor.(y := rows - 1); }
    }

    method CursorLeft(n: int)
      modifies `cursor
      ensures View() == MoveLeft(old(View()), n)
    {
      if cursor.x - n > 0 { cursor := cursor.(x := Field12(cursor.x - n)); } else { cursor := cursor.(x := 0); }
    }

    method CursorRight(n: int)
      requires cols >= 1
      modifies `cursor
      ensures View() == MoveRight(old(View()), n)
    {
      if Wrap32(cursor.x + n) < cols - 1 { cursor := cursor.(x := Field12(cursor.x + n)); } else { cursor := cursor.(x := cols - 1); }
    }

    // ---- erasing ----

    method Erase(what: int)
      requires framebuf.Length == rows * cols && cursor.y * cols + cursor.x < framebuf.Length
      modifies framebuf
      ensures View() == TerminalModel.Erase(old(View()), what)
    {
      var pos, area := cursor.y * cols + cursor.x, rows * cols;
      var start, count;
      if what == 0 {
        start, count := pos, area - pos;
      } else if what == 1 {
        start, count := 0, pos + 1;
      } else {
        start, count := 0, area;
      }
      BlankCells(start, count);
    }

    method EraseLine(what: int)
      requires cursor.x < cols && cursor.y * cols + cols <= framebuf.Length
      modifies framebuf
      ensures View() == TerminalModel.EraseLine(old(View()), what)
    {
      var line := cursor.y * cols;
      var start, count;
      if what == 0 {
        start, count := line + cursor.x, cols - cursor.x;
      } else if what == 1 {
        start, count := line, cursor.x + 1;
      } else {
        start, count := line, cols;
      }
      BlankCells(start, count);
    }

    method ResetAll()
      modifies this, framebuf
      ensures View() == Reset(old(View()))
    {
      mode, tabstops, csiparam, paramidx, needWrap := Norm, DefaultTabs(), NoParams(), 0, false;
      cursor := Cursor(0, 0);
      savedCursor, savedTabs := cursor, tabstops;
      BlankCells(0, framebuf.Length);
    }

    // ---- escape sequences ----

    method EscChar(c: byte)
      requires Valid()
      modifies this, framebuf
      ensures View() == EscStep(old(View()), c)
    {
      match c as int {
        case 0x44 => LineFeed();
        case 0x45 => CarriageReturn(); LineFeedInv(old(View())); LineFeed();
        case 0x48 => tabstops := tabstops[cursor.x := true];
        case 0x4D => ReverseLineFeed();
        case 0x5B =>
          csiparam, paramidx, mode := NoParams(), 0, Csi;
          return;
        case 0x37 => savedCursor, savedTabs := cursor, tabstops;
        case 0x38 => cursor, tabstops := savedCursor, savedTabs;
        case 0x63 => ResetAll();
        case 0x68 => tabstops := tabstops[cursor.x := false];
        case _ =>
      }
      needWrap, mode := false, Norm;
    }

    method ParamMin(i: nat, v: int)
      requires i < |csiparam|
      modifies `csiparam
      ensures View() == AtLeast(old(View()), i, v)
    {
      if csiparam[i] < v { csiparam := csiparam[i := v]; }
    }

    method ParamMax(i: nat, v: int)
      requires i < |csiparam|
      modifies `csiparam
      ensures View() == AtMost(old(View()), i, v)
    {
      if csiparam[i] > v { csiparam := csiparam[i := v]; }
    }

    /** Movement: CSI A to CSI F. */
    method CsiMove(c: byte)
      requires Valid() && mode.Csi? && 0x41 <= c <= 0x46
      modifies `csiparam, `cursor
      ensures View() == CsiAction(old(View()), c)
    {
      ParamMin(0, 1);
      match c as int {
        case 0x41 => CursorUp(csiparam[0]);
        case 0x42 => CursorDown(csiparam[0]);
        case 0x43 => CursorRight(csiparam[0]);
        case 0x44 => CursorLeft(csiparam[0]);
        case 0x45 =>
          cursor := cursor.(x := 0);
          CursorDown(csiparam[0]);
        case 0x46 =>
          cursor := cursor.(x := 0);
          CursorUp(csiparam[0]);
      }
    }

    /** Positioning: CSI G and CSI H. */
    method CsiPlace(c: byte)
      requires Valid() && mode.Csi? && 0x47 <= c <= 0x48
      modifies `csiparam, `cursor
      ensures View() == CsiAction(old(View()), c)
    {
      ParamMin(0, 1);
      if c == 0x47 {
        ParamMax(0, cols);
        cursor := cursor.(x := csiparam[0] - 1);
      } else {
        ParamMin(1, 1);
        ParamMax(0, rows);
        ParamMax(1, cols);
        cursor := Cursor(csiparam[1] - 1, csiparam[0] - 1);
      }
    }

    /** SGR visits the parameters given so far. */
    method Sgr()
      requires paramidx < |csiparam|
      modifies `csiparam
      ensures View() == old(View()).(params := AllAtLeastZero(old(csiparam), paramidx + 1))
    {
      for i := 0 to paramidx + 1
        invariant csiparam == AllAtLeastZero(old(csiparam), i)
      {
        ParamMin(i, 0);
      }
    }

    /** Erasing, scrolling, SGR, save and restore. */
    method CsiOther(c: byte)
      requires Valid() && mode.Csi? && !(0x41 <= c <= 0x48)
      modifies `csiparam, `cursor, `savedCursor, framebuf
      ensures View() == CsiAction(old(View()), c)
    {
      CellInGrid(cursor.x, cursor.y, cols, rows);
      match c as int {
        case 0x4A =>
          ParamMin(0, 0);
          Erase(csiparam[0]);
        case 0x4B =>
          ParamMin(0, 0);
          EraseLine(csiparam[0]);
        case 0x53 =>
          ParamMin(0, 1);
          ScrollLines(csiparam[0]);
        case 0x54 =>
          ParamMin(0, 1);
          ScrollLines(-csiparam[0]);
        case 0x6D =>
          Sgr();
        case 0x73 => savedCursor := cursor;
        case 0x75 => cursor := savedCursor;
        case _ =>
      }
    }

    method CsiChar(c: byte)
      requires Valid() && mode.Csi?
      modifies this, framebuf
      ensures View() == CsiStep(old(View()), c)
    {
      if c == 0x3B {
        paramidx := paramidx + 1;
        if paramidx < MAX_CSIPARAM {
          return;
        }
      } else if IsDigit(c) {
        if csiparam[paramidx] == -1 { csiparam := csiparam[paramidx := 0]; }
        csiparam := csiparam[paramidx := Wrap32(csiparam[paramidx] * 10)];
        csiparam := csiparam[paramidx := Wrap32(csiparam[paramidx] + (c - 0x30))];
        return;
      } else if 0x41 <= c <= 0x46 {
        CsiMove(c);
      } else if 0x47 <= c <= 0x48 {
        CsiPlace(c);
      } else {
        CsiOther(c);
      }
      needWrap, mode := false, Norm;
    }

    method PutCell(c: byte)
      requires cursor.x < cols && cursor.y < rows && framebuf.Length == rows * cols
      modifies framebuf, `cursor, `needWrap
      ensures View() == Put(old(View()), c)
    {
      CellInGrid(cursor.x, cursor.y, cols, rows);
      var pos := cursor.y * cols + cursor.x;
      cursor := cursor.(x := cursor.x + 1);
      if cursor.x >= cols {
        cursor := cursor.(x := cursor.x - 1);
        needWrap := true;
      }
      framebuf[pos] := c;
    }

    /** A printable character in normal mode. */
    method PrintChar(c: byte)
      requires Valid()
      modifies framebuf, `cursor, `needWrap
      ensures View() == Print(old(View()), c)
    {
      if needWrap {
        LineFeedInv(View());
        CarriageReturn();
        LineFeed();
      }
      PutCell(c);
    }

    /** terminal_putchar; the state stays valid unless the byte is an ESC M on the top row. */
    method Putchar(c: byte)
      requires Valid()
      modifies this, framebuf
      ensures View() == Step(old(View()), c)
      ensures Valid() <==> !Slips(old(View()), c)
    {
      StepInv(View(), c);
      if !IsControl(c) {
        match mode {
          case Esc => EscChar(c);
          case Csi => CsiChar(c);
          case Norm => PrintChar(c);
        }
        return;
      }
      match c as int {
        case 0x08 => Backspace();
        case 0x09 => Tab();
        case 0x0A => LineFeed();
        case 0x0B => LineFeed();
        case 0x0C => LineFeed();
        case 0x0D => CarriageReturn();
        case 0x18 => mode := Norm;
        case 0x1B => mode := Esc;
        case _ =>
      }
    }

    /** terminal_write. */
    method Write(buf: seq<byte>)
      requires Valid() && NoSlip(View(), buf)
      modifies this, framebuf
      ensures View() == Run(old(View()), buf) && Valid()
    {
      for i := 0 to |buf|
        invariant Valid() && NoSlip(View(), buf[i..]) && Run(View(), buf[i..]) == Run(old(View()), buf)
      {
        assert buf[i..][1..] == buf[i + 1..];
        Putchar(buf[i]);
      }
    }
  }

  lemma ScrollNothing(cells: seq<byte>, cols: nat, rows: nat, n: int)
    requires |cells| == rows * cols && (n == 0 || rows == 0)
    ensures Scrolled(cells, cols, rows, n) == cells
  {
    assert 0 * cols == 0;
  }

  /** memmove followed by blanking is a scroll. */
  lemma ScrollIsMove(cells: seq<byte>, cols: nat, rows: nat, n: int, blank: nat)
    requires |cells| == rows * cols && blank <= |cells|
    requires var m := if n < 0 then -n else n; blank == (if m > rows then rows else m) * cols
    ensures n < 0 ==> Scrolled(cells, cols, rows, n) == Blanked(Moved(cells, blank, 0, |cells| - blank), 0, blank)
    ensures n >= 0 ==> Scrolled(cells, cols, rows, n) == Blanked(Moved(cells, 0, blank, |cells| - blank), |cells| - blank, blank)
  {
  }
}
