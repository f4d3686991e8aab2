/**
 What each control sequence does, over the bytes that make it up: where it leaves the cursor and
 which cells it changes.
 */
module TerminalEffects {
  import opened Values
  import opened TerminalModel
  import opened TerminalProofs

  const INT_MAX := 0x7FFF_FFFF

  function Max(a: int, b: int): int { if a > b then a else b }
  function Min(a: int, b: int): int { if a < b then a else b }

  // ---- streams ----

  /** The bytes `s` take the terminal from `t` to `u`. */
  ghost predicate Goes(t: Terminal, s: seq<byte>, u: Terminal) {
    Inv(t) && NoSlip(t, s) && Run(t, s) == u
  }

  lemma GoesOne(t: Terminal, c: byte)
    requires Inv(t) && !Slips(t, c)
    ensures Goes(t, [c], Step(t, c)) && Inv(Step(t, c))
  {
    StepInv(t, c);
    var u := Step(t, c);
    assert [c][1..] == [];
    assert NoSlip(u, []) && Run(u, []) == u;
  }

  lemma {:induction false} GoesOn(t: Terminal, a: seq<byte>, v: Terminal, b: seq<byte>, u: Terminal)
    requires Goes(t, a, v) && Goes(v, b, u)
    ensures Goes(t, a + b, u)
    decreases |a|
  {
    if a == [] {
      assert a + b == b;
    } else {
      StepInv(t, a[0]);
      assert (a + b)[0] == a[0] && (a + b)[1..] == a[1..] + b;
      GoesOn(Step(t, a[0]), a[1..], v, b, u);
    }
  }

  // ---- parameters ----

  /** A number in decimal. */
  function Decimal(n: nat): seq<byte> {
    if n < 10 then [0x30 + n] else Decimal(n / 10) + [0x30 + n % 10]
  }

  /** The text of a parameter; -1 stands for one that is not given. */
  function ParamText(n: int): seq<byte> { if n < 0 then [] else Decimal(n) }

  lemma DigitStep(t: Terminal, prior: int, d: nat)
    requires Inv(t) && t.mode.Csi? && d < 10 && (if t.params[t.idx] == -1 then prior == 0 else prior == t.params[t.idx])
    requires 0 <= prior && prior * 10 + d <= INT_MAX
    ensures Goes(t, [0x30 + d], t.(params := t.params[t.idx := prior * 10 + d]))
  {
    GoesOne(t, 0x30 + d);
  }

  lemma {:induction false} DecimalRead(t: Terminal, n: nat)
    requires Inv(t) && t.mode.Csi? && t.params[t.idx] == -1 && n <= INT_MAX
    ensures Goes(t, Decimal(n), t.(params := t.params[t.idx := n]))
  {
    if n < 10 {
      DigitStep(t, 0, n);
    } else {
      DecimalRead(t, n / 10);
      var v := t.(params := t.params[t.idx := n / 10]);
      DigitStep(v, n / 10, n % 10);
      assert v.params[v.idx := n] == t.params[t.idx := n];
      GoesOn(t, Decimal(n / 10), v, [0x30 + n % 10], t.(params := t.params[t.idx := n]));
    }
  }

  lemma ParamRead(t: Terminal, n: int)
    requires Inv(t) && t.mode.Csi? && t.params[t.idx] == -1 && -1 <= n <= INT_MAX
    ensures Goes(t, ParamText(n), t.(params := t.params[t.idx := n]))
  {
    if n >= 0 { DecimalRead(t, n); } else { assert t.params[t.idx := -1] == t.params; }
  }

  /** Inside a control sequence after one and after two parameters. */
  function One(t: Terminal, n: int): Terminal { t.(mode := Csi, params := NoParams()[0 := n], idx := 0) }
  function Two(t: Terminal, n: int, m: int): Terminal { t.(mode := Csi, params := NoParams()[0 := n][1 := m], idx := 1) }

  lemma Begins(t: Terminal)
    requires Inv(t)
    ensures Goes(t, [0x1B, 0x5B], t.(mode := Csi, params := NoParams(), idx := 0))
  {
    GoesOne(t, 0x1B);
    var v := Step(t, 0x1B);
    GoesOne(v, 0x5B);
    GoesOn(t, [0x1B], v, [0x5B], Step(v, 0x5B));
    assert [0x1B] + [0x5B] == [0x1B, 0x5B];
  }

  lemma ReadsOne(t: Terminal, n: int)
    requires Inv(t) && -1 <= n <= INT_MAX
    ensures Goes(t, [0x1B, 0x5B] + ParamText(n), One(t, n)) && Inv(One(t, n))
  {
    Begins(t);
    var v := t.(mode := Csi, params := NoParams(), idx := 0);
    ParamRead(v, n);
    GoesOn(t, [0x1B, 0x5B], v, ParamText(n), One(t, n));
  }

  lemma ReadsTwo(t: Terminal, n: int, m: int)
    requires Inv(t) && -1 <= n <= INT_MAX && -1 <= m <= INT_MAX
    ensures Goes(t, [0x1B, 0x5B] + ParamText(n) + [0x3B] + ParamText(m), Two(t, n, m)) && Inv(Two(t, n, m))
  {
    ReadsOne(t, n);
    var v := One(t, n).(idx := 1);
    GoesOne(One(t, n), 0x3B);
    GoesOn(t, [0x1B, 0x5B] + ParamText(n), One(t, n), [0x3B], v);
    ParamRead(v, m);
    GoesOn(t, [0x1B, 0x5B] + ParamText(n) + [0x3B], v, ParamText(m), Two(t, n, m));
  }

  /** ESC [ n f and ESC [ n ; m f. */
  function Csi1(n: int, f: byte): seq<byte> { [0x1B, 0x5B] + ParamText(n) + [f] }
  function Csi2(n: int, m: int, f: byte): seq<byte> { [0x1B, 0x5B] + ParamText(n) + [0x3B] + ParamText(m) + [f] }

  lemma Ends1(t: Terminal, n: int, f: byte)
    requires Inv(t) && -1 <= n <= INT_MAX && 0x40 <= f < 0x7F
    ensures Goes(t, Csi1(n, f), CsiStep(One(t, n), f)) && Inv(One(t, n))
  {
    ReadsOne(t, n);
    GoesOne(One(t, n), f);
    GoesOn(t, [0x1B, 0x5B] + ParamText(n), One(t, n), [f], Step(One(t, n), f));
  }

  lemma Ends2(t: Terminal, n: int, m: int, f: byte)
    requires Inv(t) && -1 <= n <= INT_MAX && -1 <= m <= INT_MAX && 0x40 <= f < 0x7F
    ensures Goes(t, Csi2(n, m, f), CsiStep(Two(t, n, m), f)) && Inv(Two(t, n, m))
  {
    ReadsTwo(t, n, m);
    GoesOne(Two(t, n, m), f);
    GoesOn(t, [0x1B, 0x5B] + ParamText(n) + [0x3B] + ParamText(m), Two(t, n, m), [f], Step(Two(t, n, m), f));
  }

  // ---- where the cursor goes ----

  /** The bytes leave the cursor at column `x`, row `y`, in normal mode without a pending wrap, and
      change nothing else. */
  ghost predicate Lands(t: Terminal, s: seq<byte>, x: int, y: int) {
    Inv(t) && NoSlip(t, s) &&
    var u := Run(t, s);
    && u.mode.Norm? && !u.needWrap && u.cur.x == x && u.cur.y == y
    && Unmoved(t, u) && u.cells == t.cells && u.tabs == t.tabs && u.saved == t.saved && u.savedTabs == t.savedTabs
  }

  ghost predicate Unmoved(t: Terminal, u: Terminal) { u.cols == t.cols && u.rows == t.rows }

  /** Going down `n` from `y` in `rows` rows: stops at the last row unless the 32-bit sum wraps, which
      takes the cursor back up. */
  function Down(y: nat, n: int, rows: nat): int {
    if y + n <= INT_MAX then Min(y + n, rows - 1) else y + n - 0x8000_0000
  }

  lemma DownIs(y: nat, n: int, rows: nat)
    requires y < rows < 4096 && 1 <= n <= INT_MAX
    ensures (if Wrap32(y + n) < rows - 1 then Field12(y + n) else rows - 1) == Down(y, n, rows)
  {
    if y + n > INT_MAX { assert Wrap32(y + n) == y + n - 0x1_0000_0000 && Field12(y + n) == y + n - 0x8000_0000; }
  }

  /** CSI n A and D: up and left, not past the edge. */
  lemma CursorBack(t: Terminal, n: int)
    requires Inv(t) && -1 <= n <= INT_MAX
    ensures Lands(t, Csi1(n, 0x41), t.cur.x, Max(t.cur.y - Max(n, 1), 0))
    ensures Lands(t, Csi1(n, 0x44), Max(t.cur.x - Max(n, 1), 0), t.cur.y)
  {
    Ends1(t, n, 0x41);
    Ends1(t, n, 0x44);
  }

  /** CSI n B: down. */
  lemma CursorDown(t: Terminal, n: int)
    requires Inv(t) && -1 <= n <= INT_MAX
    ensures Lands(t, Csi1(n, 0x42), t.cur.x, Down(t.cur.y, Max(n, 1), t.rows))
  {
    Ends1(t, n, 0x42);
    DownIs(t.cur.y, Max(n, 1), t.rows);
  }

  /** CSI n C: right. */
  lemma CursorRight(t: Terminal, n: int)
    requires Inv(t) && -1 <= n <= INT_MAX
    ensures Lands(t, Csi1(n, 0x43), Down(t.cur.x, Max(n, 1), t.cols), t.cur.y)
  {
    Ends1(t, n, 0x43);
    DownIs(t.cur.x, Max(n, 1), t.cols);
  }

  /** CSI n E: to the start of a line further down. */
  lemma CursorNextLine(t: Terminal, n: int)
    requires Inv(t) && -1 <= n <= INT_MAX
    ensures Lands(t, Csi1(n, 0x45), 0, Down(t.cur.y, Max(n, 1), t.rows))
  {
    Ends1(t, n, 0x45);
    DownIs(t.cur.y, Max(n, 1), t.rows);
  }

  /** CSI n F: to the start of a line further up. */
  lemma CursorPreviousLine(t: Terminal, n: int)
    requires Inv(t) && -1 <= n <= INT_MAX
    ensures Lands(t, Csi1(n, 0x46), 0, Max(t.cur.y - Max(n, 1), 0))
  {
    Ends1(t, n, 0x46);
  }

  /** CSI n G: to column n, counted from one. */
  lemma CursorColumn(t: Terminal, n: int)
    requires Inv(t) && -1 <= n <= INT_MAX
    ensures Lands(t, Csi1(n, 0x47), Min(Max(n, 1), t.cols) - 1, t.cur.y)
  {
    Ends1(t, n, 0x47);
  }

  /** CSI n ; m H: to row n, column m, counted from one. */
  lemma CursorPlace(t: Terminal, n: int, m: int)
    requires Inv(t) && -1 <= n <= INT_MAX && -1 <= m <= INT_MAX
    ensures Lands(t, Csi2(n, m, 0x48), Min(Max(m, 1), t.cols) - 1, Min(Max(n, 1), t.rows) - 1)
  {
    Ends2(t, n, m, 0x48);
    PlaceAction(Two(t, n, m), n, m);
  }

  lemma PlaceAction(v: Terminal, n: int, m: int)
    requires Inv(v) && v.mode.Csi? && v.params[0] == n && v.params[1] == m
    ensures var u := CsiAction(v, 0x48);
            u == v.(params := u.params, cur := Cursor(Min(Max(m, 1), v.cols) - 1, Min(Max(n, 1), v.rows) - 1))
  {
    var a := AtLeast(AtLeast(v, 0, 1), 1, 1);
    assert a.params[0] == Max(n, 1) && a.params[1] == Max(m, 1);
    var b := AtMost(AtMost(a, 0, v.rows), 1, v.cols);
    assert b.params[0] == Min(Max(n, 1), v.rows) && b.params[1] == Min(Max(m, 1), v.cols);
  }

  /** CSI n H: to the start of row n. */
  lemma CursorRow(t: Terminal, n: int)
    requires Inv(t) && -1 <= n <= INT_MAX
    ensures Lands(t, Csi1(n, 0x48), 0, Min(Max(n, 1), t.rows) - 1)
  {
    Ends1(t, n, 0x48);
  }

  /** CSI n ; m m changes nothing but attributes. */
  lemma AttributesStay(t: Terminal, n: int, m: int)
    requires Inv(t) && -1 <= n <= INT_MAX && -1 <= m <= INT_MAX
    ensures Lands(t, Csi1(n, 0x6D), t.cur.x, t.cur.y) && Lands(t, Csi2(n, m, 0x6D), t.cur.x, t.cur.y)
  {
    Ends1(t, n, 0x6D);
    Ends2(t, n, m, 0x6D);
  }

  /** A sequence with any other final character is read over. */
  lemma UnknownIgnored(t: Terminal, n: int, f: byte)
    requires Inv(t) && -1 <= n <= INT_MAX && 0x40 <= f < 0x7F
    requires !(0x41 <= f <= 0x48) && f !in {0x4A, 0x4B, 0x53, 0x54, 0x6D, 0x73, 0x75}
    ensures Lands(t, Csi1(n, f), t.cur.x, t.cur.y)
  {
    Ends1(t, n, f);
  }

  /** A semicolon begins the next parameter; the sixteenth ends the sequence. */
  lemma Separators(t: Terminal)
    requires Inv(t) && t.mode.Csi?
    ensures t.idx < 15 ==> Step(t, 0x3B) == t.(idx := t.idx + 1)
    ensures t.idx == 15 ==> Step(t, 0x3B).mode.Norm? && Step(t, 0x3B).cur == t.cur && Step(t, 0x3B).cells == t.cells
  {
  }

  // ---- which cells change ----

  /** Cell `k` is in row `r`, column `c`. */
  predicate IsCell(t: Terminal, k: nat, r: nat, c: nat) { r < t.rows && c < t.cols && k == r * t.cols + c }

  /** Position `r`, `c` comes before position `y`, `x` in reading order. */
  predicate Before(r: nat, c: nat, y: nat, x: nat) { r < y || (r == y && c < x) }

  lemma ReadingOrder(r: nat, c: nat, y: nat, x: nat, cols: nat)
    requires c < cols && x < cols
    ensures r * cols + c < y * cols + x <==> Before(r, c, y, x)
  {
    if r < y {
      BlankFits(r + 1, y, cols);
      assert (r + 1) * cols == r * cols + cols;
    } else if y < r {
      BlankFits(y + 1, r, cols);
      assert (y + 1) * cols == y * cols + cols;
    }
  }

  /** The bytes leave everything but the cells as it was, and the cells as in `u`. */
  ghost predicate Paints(t: Terminal, s: seq<byte>, u: Terminal) {
    && Goes(t, s, u) && u.mode.Norm? && !u.needWrap && u.cur == t.cur && Unmoved(t, u)
    && u.tabs == t.tabs && u.saved == t.saved && u.savedTabs == t.savedTabs && |u.cells| == |t.cells|
  }

  /** What erasing leaves of cell `k` when the cursor is on cell `pos`. */
  lemma ErasedCell(t: Terminal, mode: int, pos: nat, k: nat)
    requires pos == t.cur.y * t.cols + t.cur.x < |t.cells| && k < |t.cells|
    ensures |Erase(t, mode).cells| == |t.cells|
    ensures Erase(t, mode).cells[k] == if (mode == 0 && k < pos) || (mode == 1 && pos < k) then t.cells[k] else 0x20
  {
  }

  lemma CellOrder(t: Terminal, k: nat, r: nat, c: nat)
    requires |t.cells| == t.rows * t.cols && InGrid(t, t.cur) && IsCell(t, k, r, c)
    ensures k < |t.cells| && t.cur.y * t.cols + t.cols <= |t.cells|
    ensures k < t.cur.y * t.cols + t.cur.x <==> Before(r, c, t.cur.y, t.cur.x)
    ensures k > t.cur.y * t.cols + t.cur.x <==> Before(t.cur.y, t.cur.x, r, c)
    ensures t.cur.y * t.cols <= k < t.cur.y * t.cols + t.cols <==> r == t.cur.y
  {
    CellInGrid(t.cur.x, t.cur.y, t.cols, t.rows);
    CellInGrid(c, r, t.cols, t.rows);
    ReadingOrder(r, c, t.cur.y, t.cur.x, t.cols);
    ReadingOrder(t.cur.y, t.cur.x, r, c, t.cols);
    ReadingOrder(r, c, t.cur.y, 0, t.cols);
    ReadingOrder(t.cur.y, t.cols - 1, r, c, t.cols);
  }

  /** CSI n J: with 0 or nothing the screen is erased from the cursor on, with 1 up to and including
      the cursor, with anything else all of it. */
  lemma ErasesScreen(t: Terminal, n: int, k: nat, r: nat, c: nat) returns (u: Terminal)
    requires Inv(t) && -1 <= n <= INT_MAX && IsCell(t, k, r, c)
    ensures Paints(t, Csi1(n, 0x4A), u) && k < |t.cells|
    ensures u.cells[k] ==
              if (n <= 0 && Before(r, c, t.cur.y, t.cur.x)) || (n == 1 && Before(t.cur.y, t.cur.x, r, c)) then t.cells[k] else 0x20
  {
    u := CsiErases(t, n);
    CellOrder(t, k, r, c);
    ErasedCell(t, Max(n, 0), t.cur.y * t.cols + t.cur.x, k);
  }

  lemma CsiErases(t: Terminal, n: int) returns (u: Terminal)
    requires Inv(t) && -1 <= n <= INT_MAX
    ensures Pos(t) < |t.cells| && Paints(t, Csi1(n, 0x4A), u) && u.cells == Erase(t, Max(n, 0)).cells
  {
    CellInGrid(t.cur.x, t.cur.y, t.cols, t.rows);
    Ends1(t, n, 0x4A);
    u := CsiStep(One(t, n), 0x4A);
    assert AtLeast(One(t, n), 0, 0).params[0] == Max(n, 0);
  }

  lemma ErasedLineCell(t: Terminal, mode: int, line: nat, k: nat)
    requires line == t.cur.y * t.cols && t.cur.x < t.cols && line + t.cols <= |t.cells| && k < |t.cells|
    ensures |EraseLine(t, mode).cells| == |t.cells|
    ensures EraseLine(t, mode).cells[k] ==
              if !(line <= k < line + t.cols) || (mode == 0 && k < line + t.cur.x) || (mode == 1 && k > line + t.cur.x)
              then t.cells[k] else 0x20
  {
  }

  /** CSI n K: the same within the cursor's line; other lines stay. */
  lemma ErasesLine(t: Terminal, n: int, k: nat, r: nat, c: nat) returns (u: Terminal)
    requires Inv(t) && -1 <= n <= INT_MAX && IsCell(t, k, r, c)
    ensures Paints(t, Csi1(n, 0x4B), u) && k < |t.cells|
    ensures u.cells[k] == if r != t.cur.y || (n <= 0 && c < t.cur.x) || (n == 1 && c > t.cur.x) then t.cells[k] else 0x20
  {
    u := CsiErasesLine(t, n);
    LineCell(t, Max(n, 0), k, r, c);
  }

  lemma LineCell(t: Terminal, mode: int, k: nat, r: nat, c: nat)
    requires |t.cells| == t.rows * t.cols && InGrid(t, t.cur) && IsCell(t, k, r, c)
    ensures k < |t.cells| && t.cur.y * t.cols + t.cols <= |t.cells| && |EraseLine(t, mode).cells| == |t.cells|
    ensures EraseLine(t, mode).cells[k] ==
              if r != t.cur.y || (mode == 0 && c < t.cur.x) || (mode == 1 && c > t.cur.x) then t.cells[k] else 0x20
  {
    CellOrder(t, k, r, c);
    SameRow(t, k, r, c);
    var line := t.cur.y * t.cols;
    ErasedLineCell(t, mode, line, k);
  }

  lemma SameRow(t: Terminal, k: nat, r: nat, c: nat)
    requires IsCell(t, k, r, c)
    ensures r == t.cur.y ==> k == t.cur.y * t.cols + c
  {
  }

  lemma CsiErasesLine(t: Terminal, n: int) returns (u: Terminal)
    requires Inv(t) && -1 <= n <= INT_MAX
    ensures t.cur.y * t.cols + t.cols <= |t.cells| && Paints(t, Csi1(n, 0x4B), u) && u.cells == EraseLine(t, Max(n, 0)).cells
  {
    CellInGrid(t.cur.x, t.cur.y, t.cols, t.rows);
    Ends1(t, n, 0x4B);
    u := CsiStep(One(t, n), 0x4B);
    assert AtLeast(One(t, n), 0, 0).params[0] == Max(n, 0);
  }

  /** Where the cell `p` rows further down or up lies. */
  lemma RowsAway(t: Terminal, p: nat, lines: nat, k: nat, r: nat, c: nat)
    requires |t.cells| == t.rows * t.cols && IsCell(t, k, r, c) && lines == if p > t.rows then t.rows else p
    ensures k < |t.cells| && lines * t.cols <= |t.cells|
    ensures r + p < t.rows <==> k + lines * t.cols < |t.cells|
    ensures p <= r <==> lines * t.cols <= k
    ensures r + p < t.rows ==> IsCell(t, k + lines * t.cols, r + p, c)
    ensures p <= r ==> IsCell(t, k - lines * t.cols, r - p, c)
  {
    CellInGrid(c, r, t.cols, t.rows);
    BlankFits(lines, t.rows, t.cols);
    assert (r + lines) * t.cols == r * t.cols + lines * t.cols;
    ReadingOrder(r + lines, c, t.rows, 0, t.cols);
    ReadingOrder(r, c, lines, 0, t.cols);
    if p <= r { assert (r - p) * t.cols == r * t.cols - p * t.cols; }
  }

  lemma ScrolledCell(cells: seq<byte>, cols: nat, rows: nat, n: int, blank: nat, k: nat)
    requires |cells| == rows * cols && k < |cells| && n != 0 && blank <= |cells|
    requires var m := if n < 0 then -n else n; blank == (if m > rows then rows else m) * cols
    ensures n > 0 ==> Scrolled(cells, cols, rows, n)[k] == if k + blank < |cells| then cells[k + blank] else 0x20
    ensures n < 0 ==> Scrolled(cells, cols, rows, n)[k] == if blank <= k then cells[k - blank] else 0x20
  {
  }

  lemma CsiScrolls(t: Terminal, n: int)
    requires Inv(t) && -1 <= n <= INT_MAX
    ensures Inv(One(t, n))
    ensures CsiStep(One(t, n), 0x53).cells == Scrolled(t.cells, t.cols, t.rows, Max(n, 1))
    ensures CsiStep(One(t, n), 0x54).cells == Scrolled(t.cells, t.cols, t.rows, -Max(n, 1))
  {
    var a := AtLeast(One(t, n), 0, 1);
    assert a.params[0] == Max(n, 1);
  }

  /** CSI n S: every line moves n lines up, and blank lines come in from below. */
  lemma ScrollsUp(t: Terminal, n: int, k: nat, r: nat, c: nat) returns (u: Terminal, j: int)
    requires Inv(t) && -1 <= n <= INT_MAX && IsCell(t, k, r, c)
    ensures Paints(t, Csi1(n, 0x53), u) && k < |t.cells|
    ensures r + Max(n, 1) < t.rows ==> 0 <= j < |t.cells| && IsCell(t, j, r + Max(n, 1), c)
    ensures u.cells[k] == if r + Max(n, 1) < t.rows then t.cells[j] else 0x20
  {
    var p := Max(n, 1);
    var lines := if p > t.rows then t.rows else p;
    j := k + lines * t.cols;
    RowsAway(t, p, lines, k, r, c);
    Ends1(t, n, 0x53);
    u := CsiStep(One(t, n), 0x53);
    CsiScrolls(t, n);
    ScrolledCell(t.cells, t.cols, t.rows, p, lines * t.cols, k);
  }

  /** CSI n T: every line moves n lines down, and blank lines come in from above. */
  lemma ScrollsDown(t: Terminal, n: int, k: nat, r: nat, c: nat) returns (u: Terminal, j: int)
    requires Inv(t) && -1 <= n <= INT_MAX && IsCell(t, k, r, c)
    ensures Paints(t, Csi1(n, 0x54), u) && k < |t.cells|
    ensures Max(n, 1) <= r ==> 0 <= j < |t.cells| && IsCell(t, j, r - Max(n, 1), c)
    ensures u.cells[k] == if Max(n, 1) <= r then t.cells[j] else 0x20
  {
    var p := Max(n, 1);
    var lines := if p > t.rows then t.rows else p;
    j := k - lines * t.cols;
    RowsAway(t, p, lines, k, r, c);
    Ends1(t, n, 0x54);
    u := CsiStep(One(t, n), 0x54);
    CsiScrolls(t, n);
    ScrolledCell(t.cells, t.cols, t.rows, -p, lines * t.cols, k);
  }

  // ---- saving and restoring ----

  /** CSI s and ESC 7 remember the cursor, ESC 7 the tab stops too. */
  lemma Saves(t: Terminal)
    requires Inv(t)
    ensures Goes(t, Csi1(-1, 0x73), t.(mode := Norm, needWrap := false, params := NoParams(), idx := 0, saved := t.cur))
    ensures Goes(t, [0x1B, 0x37], t.(mode := Norm, needWrap := false, saved := t.cur, savedTabs := t.tabs))
  {
    Ends1(t, -1, 0x73);
    assert NoParams()[0 := -1] == NoParams();
    EscRuns(t, 0x37);
  }

  /** CSI u and ESC 8 go back to it. */
  lemma Restores(t: Terminal)
    requires Inv(t)
    ensures Goes(t, Csi1(-1, 0x75), t.(mode := Norm, needWrap := false, params := NoParams(), idx := 0, cur := t.saved))
    ensures Goes(t, [0x1B, 0x38], t.(mode := Norm, needWrap := false, cur := t.saved, tabs := t.savedTabs))
  {
    Ends1(t, -1, 0x75);
    assert NoParams()[0 := -1] == NoParams();
    EscRuns(t, 0x38);
  }

  lemma EscRuns(t: Terminal, c: byte)
    requires Inv(t) && 0x20 <= c < 0x7F && !(c == 0x4D && t.cur.y == 0)
    ensures Goes(t, [0x1B, c], EscStep(t.(mode := Esc), c)) && Inv(EscStep(t.(mode := Esc), c))
  {
    GoesOne(t, 0x1B);
    var v := t.(mode := Esc);
    GoesOne(v, c);
    GoesOn(t, [0x1B], v, [c], Step(v, c));
    assert [0x1B] + [c] == [0x1B, c];
  }

  // ---- other escape and control characters ----

  /** What a line feed does: one row down, or a scroll by one line from the last row. */
  ghost predicate Fed(t: Terminal, u: Terminal) {
    if t.cur.y + 1 < t.rows then u.cur.y == t.cur.y + 1 && u.cells == t.cells
    else u.cur.y == t.cur.y && |t.cells| == t.rows * t.cols && u.cells == Scrolled(t.cells, t.cols, t.rows, 1)
  }

  /** ESC D and ESC E feed a line, ESC E to its start; ESC M goes up a row. */
  lemma EscapeLines(t: Terminal)
    requires Inv(t)
    ensures Goes(t, [0x1B, 0x44], EscStep(t.(mode := Esc), 0x44)) && Goes(t, [0x1B, 0x45], EscStep(t.(mode := Esc), 0x45))
    ensures var u := EscStep(t.(mode := Esc), 0x44); Fed(t, u) && u.cur.x == t.cur.x
    ensures var u := EscStep(t.(mode := Esc), 0x45); Fed(t, u) && u.cur.x == 0
    ensures t.cur.y > 0 ==> Lands(t, [0x1B, 0x4D], t.cur.x, t.cur.y - 1)
  {
    EscRuns(t, 0x44);
    EscRuns(t, 0x45);
    if t.cur.y > 0 { EscRuns(t, 0x4D); }
  }

  /** ESC H and ESC h set and clear the tab stop at the cursor; ESC c clears the screen and goes home. */
  lemma EscapeTabs(t: Terminal)
    requires Inv(t)
    ensures Goes(t, [0x1B, 0x48], t.(mode := Norm, needWrap := false, tabs := t.tabs[t.cur.x := true]))
    ensures Goes(t, [0x1B, 0x68], t.(mode := Norm, needWrap := false, tabs := t.tabs[t.cur.x := false]))
    ensures Goes(t, [0x1B, 0x63], Reset(t)) && Reset(t).cur == Cursor(0, 0) && Reset(t).mode.Norm? && !Reset(t).needWrap
    ensures forall k | 0 <= k < |t.cells| :: Reset(t).cells[k] == 0x20
  {
    EscRuns(t, 0x48);
    EscRuns(t, 0x68);
    EscRuns(t, 0x63);
  }

  /** ESC with any other character is read over. */
  lemma EscapeIgnored(t: Terminal, c: byte)
    requires Inv(t) && 0x20 <= c < 0x7F && c !in {0x37, 0x38, 0x44, 0x45, 0x48, 0x4D, 0x5B, 0x63, 0x68}
    ensures Goes(t, [0x1B, c], t.(mode := Norm, needWrap := false))
  {
    EscRuns(t, c);
  }

  /** A printable character changes the cursor's cell and no other, and moves the cursor on, or leaves it
      in the last column with a wrap pending. */
  lemma Prints(t: Terminal, c: byte, k: nat, r: nat, col: nat)
    requires Inv(t) && t.mode.Norm? && !t.needWrap && c >= 0x20 && c != 0x7F && IsCell(t, k, r, col)
    ensures var u, last := Step(t, c), t.cur.x + 1 == t.cols;
            && u == t.(cells := u.cells, cur := Cursor(if last then t.cur.x else t.cur.x + 1, t.cur.y), needWrap := last)
            && |u.cells| == |t.cells| > k && u.cells[k] == if r == t.cur.y && col == t.cur.x then c else t.cells[k]
  {
    CellOrder(t, k, r, col);
    CellInGrid(t.cur.x, t.cur.y, t.cols, t.rows);
  }

  /** A pending wrap is a carriage return and a line feed before the next printable character. */
  lemma WrapsFirst(t: Terminal, c: byte)
    requires Inv(t) && t.mode.Norm? && t.needWrap && c >= 0x20 && c != 0x7F
    ensures Goes(t, [0x0D, 0x0A], Step(Step(t, 0x0D), 0x0A)) && Inv(Step(Step(t, 0x0D), 0x0A))
    ensures Step(t, c) == Step(Step(Step(t, 0x0D), 0x0A), c)
  {
    GoesOne(t, 0x0D);
    var v := Step(t, 0x0D);
    GoesOne(v, 0x0A);
    GoesOn(t, [0x0D], v, [0x0A], Step(v, 0x0A));
    assert [0x0D] + [0x0A] == [0x0D, 0x0A];
  }

  /** Backspace, carriage return, line feed and cancel, in any mode. */
  lemma ControlMoves(t: Terminal)
    requires Inv(t)
    ensures Step(t, 0x08) == t.(cur := t.cur.(x := if t.cur.x > 0 then t.cur.x - 1 else 0), needWrap := false)
    ensures Step(t, 0x0D) == t.(cur := t.cur.(x := 0), needWrap := false)
    ensures Step(t, 0x18) == t.(mode := Norm) && Step(t, 0x1B) == t.(mode := Esc) && Step(t, 0x07) == t && Step(t, 0x7F) == t
    ensures forall c: byte | c in {0x0A, 0x0B, 0x0C} ::
              Fed(t, Step(t, c)) && Step(t, c).cur.x == t.cur.x && Step(t, c).mode == t.mode && !Step(t, c).needWrap
  {
  }

  /** A tab goes to the nearest stop to the right, or to the last column when there is none. */
  lemma TabMoves(t: Terminal)
    requires Inv(t)
    ensures var x := Step(t, 0x09).cur.x;
            && Step(t, 0x09) == t.(cur := t.cur.(x := x)) && t.cur.x <= x < t.cols
            && (x == t.cols - 1 || t.tabs[x]) && (t.cur.x < t.cols - 1 ==> t.cur.x < x)
            && forall k | t.cur.x < k < x :: !t.tabs[k]
  {
    StopFound(t.tabs, t.cur.x, t.cols);
  }

  lemma {:induction false} StopFound(tabs: seq<bool>, x: nat, cols: nat)
    requires x < cols <= |tabs|
    ensures var r := NextStop(tabs, x, cols);
            && (r == cols - 1 || tabs[r]) && (x < cols - 1 ==> x < r) && forall k | x < k < r :: !tabs[k]
    decreases cols - x
  {
    if x + 1 < cols && !tabs[x + 1] { StopFound(tabs, x + 1, cols); }
  }

  /** After a reset the stops are every eighth column: 7, 15, 23 and so on. */
  lemma DefaultStops(t: Terminal, x: nat)
    requires Inv(t) && x < t.cols
    ensures Step(Reset(t).(cur := Cursor(x, 0)), 0x09).cur.x == Min((x + 1) / 8 * 8 + 7, t.cols - 1)
  {
    var u := Reset(t).(cur := Cursor(x, 0));
    ResetShows(t);
    DefaultStop(x, t.cols);
    assert Step(u, 0x09).cur.x == NextStop(DefaultTabs(), x, t.cols);
  }

  lemma DefaultStop(x: nat, cols: nat)
    requires x < cols <= MAX_TABSTOP
    ensures NextStop(DefaultTabs(), x, cols) == Min((x + 1) / 8 * 8 + 7, cols - 1)
  {
    var tabs, q := DefaultTabs(), (x + 1) / 8 * 8 + 7;
    StopFound(tabs, x, cols);
    var r := NextStop(tabs, x, cols);
    if x < r < q { NoStopBetween(x, r); }
    if q < cols { assert tabs[q]; }
  }

  lemma NoStopBetween(x: nat, k: nat)
    requires x < k < (x + 1) / 8 * 8 + 7
    ensures (k + 1) % 8 != 0
  {
  }
}
