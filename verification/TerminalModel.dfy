/**
 The virtual terminal as a function of the bytes written to it: an escape-sequence parser
 that drives a cursor over a grid of cells.
 */
module TerminalModel {
  import opened Values

  const MAX_CSIPARAM := 16
  const MAX_TABSTOP := 80
  const FB_CELLS := 4096
  const BLANK: byte := 32

  datatype Mode = Norm | Esc | Csi

  datatype Cursor = Cursor(x: nat, y: nat)

  datatype Terminal = Terminal(
    mode: Mode, cols: nat, rows: nat, cells: seq<byte>, tabs: seq<bool>,
    params: seq<int>, idx: nat, needWrap: bool, cur: Cursor, saved: Cursor, savedTabs: seq<bool>)

  // ---- C arithmetic ----

  /** Two's complement wrap to a 32-bit int. */
  function Wrap32(v: int): (r: int)
    ensures -0x8000_0000 <= r <= 0x7FFF_FFFF
    ensures -0x8000_0000 <= v <= 0x7FFF_FFFF ==> r == v
  {
    (v + 0x8000_0000) % 0x1_0000_0000 - 0x8000_0000
  }

  /** Assignment to a 12-bit unsigned bit field. */
  function Field12(v: int): (r: nat)
    ensures r < 4096
    ensures 0 <= v < 4096 ==> r == v
  {
    v % 4096
  }

  predicate IsDigit(c: byte) { 0x30 <= c <= 0x39 }

  // ---- the grid ----

  function Blanks(n: nat): seq<byte> { seq(n, _ => BLANK) }

  /** Cells `start` .. `start+count-1` blanked. */
  function Blanked(cells: seq<byte>, start: nat, count: nat): (r: seq<byte>)
    requires start + count <= |cells|
    ensures |r| == |cells|
  {
    seq(|cells|, i requires 0 <= i < |cells| => if start <= i < start + count then BLANK else cells[i])
  }

  /** Lines moved up (n > 0) or down (n < 0), blank lines shifted in. */
  function Scrolled(cells: seq<byte>, cols: nat, rows: nat, n: int): (r: seq<byte>)
    requires |cells| == rows * cols
    ensures |r| == |cells|
  {
    var m := if n < 0 then -n else n;
    var lines := if m > rows then rows else m;
    var blank := lines * cols;
    BlankFits(lines, rows, cols);
    if n >= 0 then cells[blank..] + Blanks(blank)
    else Blanks(blank) + cells[..|cells| - blank]
  }

  lemma BlankFits(lines: nat, rows: nat, cols: nat)
    requires lines <= rows
    ensures lines * cols <= rows * cols
  {
  }

  lemma CellInGrid(x: nat, y: nat, cols: nat, rows: nat)
    requires x < cols && y < rows
    ensures y * cols + x < rows * cols
    ensures y * cols + cols <= rows * cols
  {
    BlankFits(y + 1, rows, cols);
    assert (y + 1) * cols == y * cols + cols;
  }

  // ---- the invariant ----

  ghost predicate InGrid(t: Terminal, c: Cursor) { c.x < t.cols && c.y < t.rows }

  /** Dimensions that fit the frame buffer and the tab stop table. */
  ghost predicate Shaped(t: Terminal) {
    && 1 <= t.cols <= MAX_TABSTOP && 1 <= t.rows && t.rows * t.cols <= FB_CELLS && t.rows < FB_CELLS
    && |t.cells| == t.rows * t.cols
    && |t.tabs| == |t.savedTabs| == MAX_TABSTOP && |t.params| == MAX_CSIPARAM
    && (forall i | 0 <= i < |t.params| :: -0x8000_0000 <= t.params[i] <= 0x7FFF_FFFF)
  }

  ghost predicate Inv(t: Terminal) {
    && Shaped(t)
    && InGrid(t, t.cur) && InGrid(t, t.saved)
    && (t.mode.Csi? ==> t.idx < MAX_CSIPARAM)
    && (t.needWrap ==> t.cur.x == t.cols - 1)
  }

  // ---- cursor movement ----

  function MoveUp(t: Terminal, n: int): Terminal {
    t.(cur := t.cur.(y := if t.cur.y - n > 0 then Field12(t.cur.y - n) else 0))
  }

  function MoveDown(t: Terminal, n: int): Terminal
    requires t.rows >= 1
  {
    t.(cur := t.cur.(y := if Wrap32(t.cur.y + n) < t.rows - 1 then Field12(t.cur.y + n) else t.rows - 1))
  }

  function MoveLeft(t: Terminal, n: int): Terminal {
    t.(cur := t.cur.(x := if t.cur.x - n > 0 then Field12(t.cur.x - n) else 0))
  }

  function MoveRight(t: Terminal, n: int): Terminal
    requires t.cols >= 1
  {
    t.(cur := t.cur.(x := if Wrap32(t.cur.x + n) < t.cols - 1 then Field12(t.cur.x + n) else t.cols - 1))
  }

  function CarriageReturn(t: Terminal): Terminal {
    t.(cur := t.cur.(x := 0), needWrap := false)
  }

  function Scroll(t: Terminal, n: int): Terminal
    requires |t.cells| == t.rows * t.cols
  {
    t.(cells := Scrolled(t.cells, t.cols, t.rows, n))
  }

  function LineFeed(t: Terminal): Terminal
    requires |t.cells| == t.rows * t.cols
  {
    var y := Field12(t.cur.y + 1);
    if y >= t.rows then Scroll(t, 1).(cur := t.cur.(y := Field12(y - 1)), needWrap := false)
    else t.(cur := t.cur.(y := y), needWrap := false)
  }

  /** The 12-bit row wraps below zero, so the test for a negative row never succeeds. */
  function ReverseLineFeed(t: Terminal): Terminal {
    t.(cur := t.cur.(y := Field12(t.cur.y - 1)), needWrap := false)
  }

  function Backspace(t: Terminal): Terminal {
    MoveLeft(t, 1).(needWrap := false)
  }

  /** The next tab stop after column `x`, or the last column. */
  function NextStop(tabs: seq<bool>, x: nat, cols: nat): (r: nat)
    requires x < cols <= |tabs|
    ensures x <= r < cols
    decreases cols - x
  {
    if x + 1 == cols then cols - 1
    else if tabs[x + 1] then x + 1
    else NextStop(tabs, x + 1, cols)
  }

  function Tab(t: Terminal): Terminal
    requires t.cur.x < t.cols <= |t.tabs|
  {
    t.(cur := t.cur.(x := NextStop(t.tabs, t.cur.x, t.cols)))
  }

  // ---- erasing ----

  function Pos(t: Terminal): nat { t.cur.y * t.cols + t.cur.x }

  function Erase(t: Terminal, mode: int): Terminal
    requires Pos(t) < |t.cells|
  {
    if mode == 0 then t.(cells := Blanked(t.cells, Pos(t), |t.cells| - Pos(t)))
    else if mode == 1 then t.(cells := Blanked(t.cells, 0, Pos(t) + 1))
    else t.(cells := Blanked(t.cells, 0, |t.cells|))
  }

  function EraseLine(t: Terminal, mode: int): Terminal
    requires t.cur.x < t.cols && t.cur.y * t.cols + t.cols <= |t.cells|
  {
    var line := t.cur.y * t.cols;
    if mode == 0 then t.(cells := Blanked(t.cells, Pos(t), t.cols - t.cur.x))
    else if mode == 1 then t.(cells := Blanked(t.cells, line, t.cur.x + 1))
    else t.(cells := Blanked(t.cells, line, t.cols))
  }

  // ---- save, restore, reset ----

  function Save(t: Terminal): Terminal { t.(saved := t.cur, savedTabs := t.tabs) }
  function Restore(t: Terminal): Terminal { t.(cur := t.saved, tabs := t.savedTabs) }

  function DefaultTabs(): seq<bool> { seq(MAX_TABSTOP, i => (i + 1) % 8 == 0) }
  function NoParams(): seq<int> { seq(MAX_CSIPARAM, _ => -1) }

  function Defaults(t: Terminal): Terminal {
    Save(Terminal(Norm, t.cols, t.rows, t.cells, DefaultTabs(), NoParams(), 0, false, Cursor(0, 0), t.saved, t.savedTabs))
  }

  function Reset(t: Terminal): Terminal { Defaults(t).(cells := Blanked(t.cells, 0, |t.cells|)) }

  // ---- escape sequences ----

  function AfterEsc(t: Terminal, c: byte): Terminal
    requires Inv(t)
  {
    match c as int
    case 0x44 => LineFeed(t)                                     // D
    case 0x45 => LineFeed(CarriageReturn(t))                     // E
    case 0x48 => t.(tabs := t.tabs[t.cur.x := true])             // H
    case 0x4D => ReverseLineFeed(t)                              // M
    case 0x37 => Save(t)                                         // 7
    case 0x38 => Restore(t)                                      // 8
    case 0x63 => Reset(t)                                        // c
    case 0x68 => t.(tabs := t.tabs[t.cur.x := false])            // h
    case _ => t
  }

  function EscStep(t: Terminal, c: byte): Terminal
    requires Inv(t)
  {
    if c == 0x5B then t.(params := NoParams(), idx := 0, mode := Csi)   // [
    else AfterEsc(t, c).(needWrap := false, mode := Norm)
  }

  function AtLeast(t: Terminal, i: nat, v: int): Terminal
    requires i < |t.params|
  {
    if t.params[i] < v then t.(params := t.params[i := v]) else t
  }

  function AtMost(t: Terminal, i: nat, v: int): Terminal
    requires i < |t.params|
  {
    if t.params[i] > v then t.(params := t.params[i := v]) else t
  }

  /** SGR raises the parameters it is given to at least zero; attributes are not modelled. */
  function AllAtLeastZero(params: seq<int>, n: nat): (r: seq<int>)
    requires n <= |params|
    ensures |r| == |params|
  {
    seq(|params|, i requires 0 <= i < |params| => if i < n && params[i] < 0 then 0 else params[i])
  }

  /** The action of a final character, before the parser returns to normal mode. */
  function CsiAction(t: Terminal, c: byte): Terminal
    requires Inv(t) && t.mode.Csi?
  {
    var a := AtLeast(t, 0, 1);
    var p := a.params[0];
    match c as int
    case 0x41 => MoveUp(a, p)                                    // A
    case 0x42 => MoveDown(a, p)                                  // B
    case 0x43 => MoveRight(a, p)                                 // C
    case 0x44 => MoveLeft(a, p)                                  // D
    case 0x45 => MoveDown(a.(cur := a.cur.(x := 0)), p)          // E
    case 0x46 => MoveUp(a.(cur := a.cur.(x := 0)), p)            // F
    case 0x47 =>                                                 // G
      var b := AtMost(a, 0, t.cols);
      b.(cur := b.cur.(x := b.params[0] - 1))
    case 0x48 =>                                                 // H
      var b := AtMost(AtMost(AtLeast(a, 1, 1), 0, t.rows), 1, t.cols);
      b.(cur := Cursor(b.params[1] - 1, b.params[0] - 1))
    case 0x4A =>                                                 // J
      var b := AtLeast(t, 0, 0);
      CellInGrid(t.cur.x, t.cur.y, t.cols, t.rows);
      Erase(b, b.params[0])
    case 0x4B =>                                                 // K
      var b := AtLeast(t, 0, 0);
      CellInGrid(t.cur.x, t.cur.y, t.cols, t.rows);
      EraseLine(b, b.params[0])
    case 0x53 => Scroll(a, p)                                    // S
    case 0x54 => Scroll(a, -p)                                   // T
    case 0x6D => t.(params := AllAtLeastZero(t.params, t.idx + 1))  // m
    case 0x73 => t.(saved := t.cur)                              // s
    case 0x75 => t.(cur := t.saved)                              // u
    case _ => t
  }

  function CsiStep(t: Terminal, c: byte): Terminal
    requires Inv(t) && t.mode.Csi?
  {
    if c == 0x3B && t.idx + 1 < MAX_CSIPARAM then t.(idx := t.idx + 1)
    else if c == 0x3B then t.(idx := t.idx + 1, needWrap := false, mode := Norm)
    else if IsDigit(c) then
      var prior := if t.params[t.idx] == -1 then 0 else t.params[t.idx];
      t.(params := t.params[t.idx := Wrap32(Wrap32(prior * 10) + (c - 0x30))])
    else CsiAction(t, c).(needWrap := false, mode := Norm)
  }

  /** Stores a character at the cursor and advances; at the end of the line the wrap is deferred. */
  function Put(t: Terminal, c: byte): Terminal
    requires t.cur.x < t.cols && t.cur.y < t.rows && |t.cells| == t.rows * t.cols
  {
    CellInGrid(t.cur.x, t.cur.y, t.cols, t.rows);
    var u := t.(cells := t.cells[Pos(t) := c]);
    if t.cur.x + 1 >= t.cols then u.(needWrap := true)
    else u.(cur := u.cur.(x := t.cur.x + 1))
  }

  /** A printable character; a wrap that is pending happens first. */
  function Print(t: Terminal, c: byte): Terminal
    requires Inv(t)
  {
    Put(if t.needWrap then LineFeed(CarriageReturn(t)) else t, c)
  }

  /** terminal_putchar. */
  function Step(t: Terminal, c: byte): Terminal
    requires Inv(t)
  {
    if !IsControl(c) then
      match t.mode
      case Esc => EscStep(t, c)
      case Csi => CsiStep(t, c)
      case Norm => Print(t, c)
    else
      match c as int
      case 0x08 => Backspace(t)
      case 0x09 => Tab(t)
      case 0x0A => LineFeed(t)
      case 0x0B => LineFeed(t)
      case 0x0C => LineFeed(t)
      case 0x0D => CarriageReturn(t)
      case 0x18 => t.(mode := Norm)
      case 0x1B => t.(mode := Esc)
      case _ => t
  }
}
