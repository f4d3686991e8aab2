/**
 What every byte stream keeps true of the terminal, and what a stream of printable characters
 leaves on the screen.
 */
module TerminalProofs {
  import opened Values
  import opened Arith
  import opened TerminalModel

  // ---- the invariant over all byte streams ----

  /** ESC M on the top row: the row wraps to 4095. */
  predicate Slips(t: Terminal, c: byte) {
    t.mode.Esc? && c == 0x4D && t.cur.y == 0
  }

  /** With 4096 rows, which the dimensions exclude, the 12-bit row would go round instead of
      scrolling. */
  lemma TallestGoesRound(t: Terminal)
    requires t.rows == 4096 && |t.cells| == t.rows * t.cols && t.cur.y == 4095
    ensures LineFeed(t).cur.y == 0 && LineFeed(t).cells == t.cells
  {
  }

  lemma MoveDownInGrid(t: Terminal, n: int)
    requires Inv(t) && 1 <= n <= 0x7FFF_FFFF
    ensures MoveDown(t, n).cur.y < t.rows
  {
    var v := t.cur.y + n;
    if v > 0x7FFF_FFFF {
      // the sum wraps to a negative number; what is left of it in 12 bits is below the old row
      assert Field12(v) == v - 0x8000_0000;
    }
  }

  lemma MoveRightInGrid(t: Terminal, n: int)
    requires Inv(t) && 1 <= n <= 0x7FFF_FFFF
    ensures MoveRight(t, n).cur.x < t.cols
  {
    var v := t.cur.x + n;
    if v > 0x7FFF_FFFF {
      assert Field12(v) == v - 0x8000_0000;
    }
  }

  /** What an escape sequence must leave once the parser is back in normal mode. */
  ghost predicate Settled(u: Terminal) {
    Shaped(u) && InGrid(u, u.cur) && InGrid(u, u.saved)
  }

  lemma CsiMovesInv(t: Terminal, c: byte)
    requires Inv(t) && t.mode.Csi? && 0x41 <= c <= 0x44
    ensures Settled(CsiAction(t, c))
  {
    var a := AtLeast(t, 0, 1);
    assert Inv(a);
    if c == 0x42 { MoveDownInGrid(a, a.params[0]); }
    if c == 0x43 { MoveRightInGrid(a, a.params[0]); }
  }

  lemma CsiLinesInv(t: Terminal, c: byte)
    requires Inv(t) && t.mode.Csi? && 0x45 <= c <= 0x46
    ensures Settled(CsiAction(t, c))
  {
    var a := AtLeast(t, 0, 1);
    assert Inv(a);
    if c == 0x45 { MoveDownInGrid(a.(cur := a.cur.(x := 0), needWrap := false), a.params[0]); }
  }

  lemma CsiPlacesInv(t: Terminal, c: byte)
    requires Inv(t) && t.mode.Csi? && 0x47 <= c <= 0x48
    ensures Settled(CsiAction(t, c))
  {
  }

  lemma CsiOtherInv(t: Terminal, c: byte)
    requires Inv(t) && t.mode.Csi? && !(0x41 <= c <= 0x48)
    ensures Settled(CsiAction(t, c))
  {
  }

  lemma CsiStepInv(t: Terminal, c: byte)
    requires Inv(t) && t.mode.Csi?
    ensures Inv(CsiStep(t, c))
  {
    if c == 0x3B || IsDigit(c) {
    } else if 0x41 <= c <= 0x44 {
      CsiMovesInv(t, c);
    } else if 0x45 <= c <= 0x46 {
      CsiLinesInv(t, c);
    } else if 0x47 <= c <= 0x48 {
      CsiPlacesInv(t, c);
    } else {
      CsiOtherInv(t, c);
    }
  }

  lemma LineFeedInv(t: Terminal)
    requires Inv(t)
    ensures Inv(LineFeed(t)) && Inv(LineFeed(CarriageReturn(t)))
  {
  }

  lemma EscStepInv(t: Terminal, c: byte)
    requires Inv(t) && t.mode.Esc?
    ensures Inv(EscStep(t, c)) <==> !Slips(t, c)
  {
    LineFeedInv(t);
  }

  lemma PutInv(t: Terminal, c: byte)
    requires Inv(t) && !t.needWrap
    ensures Inv(Put(t, c))
  {
    CellInGrid(t.cur.x, t.cur.y, t.cols, t.rows);
  }

  lemma PrintInv(t: Terminal, c: byte)
    requires Inv(t)
    ensures Inv(Print(t, c))
  {
    LineFeedInv(t);
    PutInv(if t.needWrap then LineFeed(CarriageReturn(t)) else t, c);
  }

  /** One byte keeps the cursor and the saved cursor in the grid, the parameter index in range
      and a pending wrap in the last column, unless it is ESC M on the top row. */
  lemma StepInv(t: Terminal, c: byte)
    requires Inv(t)
    ensures Inv(Step(t, c)) <==> !Slips(t, c)
  {
    if IsControl(c) {
      LineFeedInv(t);
    } else if t.mode.Norm? {
      PrintInv(t, c);
    } else if t.mode.Esc? {
      EscStepInv(t, c);
    } else {
      CsiStepInv(t, c);
    }
  }

  /** No byte of the stream is an ESC M on the top row. */
  ghost predicate NoSlip(t: Terminal, s: seq<byte>)
    requires Inv(t)
    decreases |s|
  {
    s == [] || (!Slips(t, s[0]) && (StepInv(t, s[0]); NoSlip(Step(t, s[0]), s[1..])))
  }

  /** The terminal after a byte stream. */
  ghost function Run(t: Terminal, s: seq<byte>): (u: Terminal)
    requires Inv(t) && NoSlip(t, s)
    ensures Inv(u)
    decreases |s|
  {
    if s == [] then t else (StepInv(t, s[0]); Run(Step(t, s[0]), s[1..]))
  }

  /** Every frame buffer index formed from the cursor lies inside the grid, in every reachable state. */
  lemma ReachableIndex(t: Terminal, s: seq<byte>)
    requires Inv(t) && NoSlip(t, s)
    ensures var u := Run(t, s); Pos(u) < u.rows * u.cols <= FB_CELLS && |u.cells| == u.rows * u.cols
  {
    var u := Run(t, s);
    CellInGrid(u.cur.x, u.cur.y, u.cols, u.rows);
  }

  // ---- printable streams ----

  ghost predicate Printable(s: seq<byte>) { forall i | 0 <= i < |s| :: !IsControl(s[i]) }

  function Lines(n: nat, cols: nat): nat
    requires cols > 0
  {
    (n + cols - 1) / cols
  }

  /** Number of one-line scrolls that `n` characters cause. */
  function Scrolls(n: nat, cols: nat, rows: nat): nat
    requires cols > 0
  {
    if Lines(n, cols) > rows then Lines(n, cols) - rows else 0
  }

  /** Cell `i` shows character `skip + i` of the stream, or is blank. */
  ghost predicate ShowsFrom(cells: seq<byte>, s: seq<byte>, skip: nat) {
    forall i | 0 <= i < |cells| :: cells[i] == if skip + i < |s| then s[skip + i] else BLANK
  }

  /** The terminal shows the window of `s` and its cursor stands behind the last character. */
  ghost predicate Showing(t: Terminal, s: seq<byte>) {
    && Inv(t) && t.mode.Norm?
    && var n, lines := |s|, Lines(|s|, t.cols);
       var skip := Scrolls(n, t.cols, t.rows);
       && ShowsFrom(t.cells, s, skip * t.cols)
       && t.needWrap == (n > 0 && n % t.cols == 0)
       && t.cur.y == (if n == 0 then 0 else lines - 1 - skip)
       && t.cur.x == (if t.needWrap then t.cols - 1 else n % t.cols)
  }

  /** How the number of lines grows with one more character. */
  lemma LinesStep(n: nat, cols: nat)
    requires cols > 0
    ensures n % cols == 0 ==> Lines(n, cols) * cols == n && Lines(n + 1, cols) == Lines(n, cols) + 1
    ensures n % cols != 0 ==> Lines(n + 1, cols) == Lines(n, cols) && (Lines(n, cols) - 1) * cols + n % cols == n
    ensures (n + 1) % cols == if n % cols == cols - 1 then 0 else n % cols + 1
    ensures Lines(n, cols) > 0 <==> n > 0
  {
    var q, r := n / cols, n % cols;
    assert n == q * cols + r;
    DivUnique(n, cols, q, r);
    if r == 0 {
      assert n + cols - 1 == q * cols + (cols - 1);
      DivUnique(n + cols - 1, cols, q, cols - 1);
      assert n + cols == (q + 1) * cols;
      DivUnique(n + cols, cols, q + 1, 0);
    } else {
      assert n + cols - 1 == (q + 1) * cols + (r - 1);
      DivUnique(n + cols - 1, cols, q + 1, r - 1);
      assert n + cols == (q + 1) * cols + r;
      DivUnique(n + cols, cols, q + 1, r);
    }
    if r == cols - 1 {
      assert n + 1 == (q + 1) * cols;
      DivUnique(n + 1, cols, q + 1, 0);
    } else {
      DivUnique(n + 1, cols, q, r + 1);
    }
  }

  /** A scrolled window is the window one line further on. */
  lemma ShiftWindow(cells: seq<byte>, s: seq<byte>, cols: nat, rows: nat, skip: nat)
    requires cols > 0 && rows > 0 && |cells| == rows * cols && ShowsFrom(cells, s, skip) && |s| <= skip + rows * cols
    ensures ShowsFrom(Scrolled(cells, cols, rows, 1), s, skip + cols)
  {
    BlankFits(1, rows, cols);
    var r := Scrolled(cells, cols, rows, 1);
    forall i | 0 <= i < |r| ensures r[i] == if skip + cols + i < |s| then s[skip + cols + i] else BLANK {
      if i < |cells| - cols { assert r[i] == cells[i + cols]; }
    }
  }

  /** Storing the next character of the stream at its own cell extends the window. */
  lemma ExtendWindow(cells: seq<byte>, s: seq<byte>, skip: nat, pos: nat, c: byte)
    requires ShowsFrom(cells, s, skip) && pos < |cells| && skip + pos == |s|
    ensures ShowsFrom(cells[pos := c], s + [c], skip)
  {
  }

  /** After whole lines of text: where the next line goes and whether it needs a scroll. */
  lemma NextLine(n: nat, cols: nat, rows: nat)
    requires cols > 0 && rows > 0 && n > 0 && n % cols == 0
    ensures var lines, skip := Lines(n, cols), Scrolls(n, cols, rows);
            && Lines(n + 1, cols) == lines + 1 && 1 <= lines - skip <= rows
            && (if lines - skip == rows then n == skip * cols + rows * cols && Scrolls(n + 1, cols, rows) == skip + 1
                else Scrolls(n + 1, cols, rows) == skip == 0)
            && (skip + 1) * cols == skip * cols + cols
  {
    LinesStep(n, cols);
    var skip := Scrolls(n, cols, rows);
    assert (skip + rows) * cols == skip * cols + rows * cols;
  }

  /** The pending wrap: the cursor goes to the start of the next line, scrolling when it was on
      the last one. */
  lemma WrapShows(t: Terminal, s: seq<byte>)
    requires Showing(t, s) && t.needWrap
    ensures var u := LineFeed(CarriageReturn(t));
            && !u.needWrap && u.mode.Norm? && u.cur.x == 0
            && u.cur.y == Lines(|s| + 1, t.cols) - 1 - Scrolls(|s| + 1, t.cols, t.rows)
            && ShowsFrom(u.cells, s, Scrolls(|s| + 1, t.cols, t.rows) * t.cols)
  {
    NextLine(|s|, t.cols, t.rows);
    if t.cur.y + 1 >= t.rows {
      ShiftWindow(t.cells, s, t.cols, t.rows, Scrolls(|s|, t.cols, t.rows) * t.cols);
    }
  }

  /** Position of the cell the next character goes to. */
  lemma NextCell(n: nat, cols: nat, rows: nat, x: nat, y: nat)
    requires cols > 0
    requires x == n % cols && y == Lines(n + 1, cols) - 1 - Scrolls(n + 1, cols, rows)
    ensures Scrolls(n + 1, cols, rows) * cols + (y * cols + x) == n
  {
    LinesStep(n, cols);
    var k := Scrolls(n + 1, cols, rows);
    assert (k + y) * cols == k * cols + y * cols;
  }

  lemma PutShows(u: Terminal, s: seq<byte>, c: byte)
    requires Inv(u) && u.mode.Norm? && !u.needWrap && u.cur.x == |s| % u.cols
    requires u.cur.y == Lines(|s| + 1, u.cols) - 1 - Scrolls(|s| + 1, u.cols, u.rows)
    requires ShowsFrom(u.cells, s, Scrolls(|s| + 1, u.cols, u.rows) * u.cols)
    ensures Showing(Put(u, c), s + [c])
  {
    PutInv(u, c);
    LinesStep(|s|, u.cols);
    CellInGrid(u.cur.x, u.cur.y, u.cols, u.rows);
    NextCell(|s|, u.cols, u.rows, u.cur.x, u.cur.y);
    ExtendWindow(u.cells, s, Scrolls(|s| + 1, u.cols, u.rows) * u.cols, Pos(u), c);
  }

  /** One printable character more. */
  lemma PrintShows(t: Terminal, s: seq<byte>, c: byte)
    requires Showing(t, s) && !IsControl(c)
    ensures Showing(Step(t, c), s + [c]) && Step(t, c).cols == t.cols && Step(t, c).rows == t.rows
  {
    LinesStep(|s|, t.cols);
    if t.needWrap {
      LineFeedInv(t);
      WrapShows(t, s);
      PutShows(LineFeed(CarriageReturn(t)), s, c);
    } else {
      PutShows(t, s, c);
    }
  }

  /** Any number of printable characters on a freshly reset terminal: the screen is the window
      of the stream after max(0, ceil(n/cols) - rows) one-line scrolls. */
  lemma {:induction false} PrintAll(t: Terminal, s: seq<byte>)
    requires Inv(t) && Printable(s)
    ensures NoSlip(Reset(t), s) && Showing(Run(Reset(t), s), s)
    ensures Run(Reset(t), s).cols == t.cols && Run(Reset(t), s).rows == t.rows
  {
    ResetShows(t);
    PrintFrom(Reset(t), [], s);
    assert [] + s == s;
  }

  lemma ResetShows(t: Terminal)
    requires Inv(t)
    ensures Showing(Reset(t), [])
  {
  }

  lemma {:induction false} PrintFrom(t: Terminal, done: seq<byte>, s: seq<byte>)
    requires Showing(t, done) && Printable(s)
    ensures NoSlip(t, s) && Showing(Run(t, s), done + s)
    ensures Run(t, s).cols == t.cols && Run(t, s).rows == t.rows
    decreases |s|
  {
    if s == [] {
      assert done + s == done;
    } else {
      StepInv(t, s[0]);
      PrintShows(t, done, s[0]);
      PrintFrom(Step(t, s[0]), done + [s[0]], s[1..]);
      assert done + [s[0]] + s[1..] == done + s;
    }
  }

  /** Filling the whole screen scrolls nothing: every cell shows the character written to it. */
  lemma FullScreen(t: Terminal, s: seq<byte>)
    requires Inv(t) && Printable(s) && |s| == t.rows * t.cols
    ensures NoSlip(Reset(t), s) && Run(Reset(t), s).cells == s
  {
    PrintAll(t, s);
    LinesOfFullScreen(t.rows, t.cols);
    assert 0 * t.cols == 0;
    WindowIsAll(Run(Reset(t), s).cells, s);
  }

  lemma WindowIsAll(cells: seq<byte>, s: seq<byte>)
    requires ShowsFrom(cells, s, 0) && |cells| == |s|
    ensures cells == s
  {
    assert forall i | 0 <= i < |cells| :: cells[i] == s[i];
  }

  lemma LinesOfFullScreen(rows: nat, cols: nat)
    requires cols > 0
    ensures Lines(rows * cols, cols) == rows && Scrolls(rows * cols, cols, rows) == 0
  {
    DivUnique(rows * cols + cols - 1, cols, rows, cols - 1);
  }
}
