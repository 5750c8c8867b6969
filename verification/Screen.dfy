/** The terminal's screen as a plain array of cells with a cursor: what the lazily drawn
    framebuffer has to amount to. */
module Screen {
  import opened Bits
  import opened Arithmetic

  datatype Cell = Cell(c: Byte, fg: nat, bg: nat)

  datatype Cursor = Cursor(x: nat, y: nat)

  /** Cursor position and colours kept by save_state. */
  datatype Saved = Saved(cursor: Cursor, fg: nat, bg: nat)

  datatype Screen = Screen(
    cols: nat, rows: nat, cells: seq<Cell>,
    cursor: Cursor, fg: nat, bg: nat, saved: Saved,
    top: nat, bottom: nat, scrollEnabled: bool, cursorEnabled: bool)

  ghost predicate Sane(s: Screen) {
    && s.cols > 0 && s.rows > 0 && |s.cells| == s.rows * s.cols
    && s.top < s.rows && 1 <= s.bottom <= s.rows
  }

  /** Position of cell (x, y) in the array. */
  function At(cols: nat, x: nat, y: nat): nat {
    y * cols + x
  }

  lemma AtInRange(cols: nat, rows: nat, x: nat, y: nat)
    requires x < cols && y < rows
    ensures At(cols, x, y) < rows * cols
  {
    ProductOrder(y, rows, cols);
  }

  /** Cells and positions correspond one to one. */
  lemma AtUnique(cols: nat, x: nat, y: nat)
    requires x < cols
    ensures At(cols, x, y) / cols == y && At(cols, x, y) % cols == x
  {
    DivModUnique(At(cols, x, y), cols, y, x);
  }

  lemma AtOfIndex(cols: nat, rows: nat, i: nat)
    requires cols > 0 && i < rows * cols
    ensures i % cols < cols && i / cols < rows && At(cols, i % cols, i / cols) == i
  {
    assert (i / cols) * cols + i % cols == i;
    if rows <= i / cols {
      ProductOrder(rows, i / cols, cols);
    }
  }

  lemma RowBounds(cols: nat, rows: nat, y: nat)
    requires y <= rows
    ensures 0 <= y * cols <= rows * cols
    ensures y > 0 ==> (y - 1) * cols == y * cols - cols && y * cols >= cols
    ensures (y + 1) * cols == y * cols + cols
  {
    ProductOrder(y, rows, cols);
    OneMoreRow(y, cols);
    if y > 0 {
      OneMoreRow(y - 1, cols);
    }
  }

  // ---- operations -----------------------------------------------------------------

  function Put(s: Screen, x: nat, y: nat, c: Cell): (t: Screen)
    requires Sane(s)
    ensures Sane(t) && t == s.(cells := t.cells)
  {
    if x >= s.cols || y >= s.rows then s
    else
      AtInRange(s.cols, s.rows, x, y);
      s.(cells := s.cells[At(s.cols, x, y) := c])
  }

  function Blank(s: Screen): Cell {
    Cell(0x20, s.fg, s.bg)
  }

  /** t is s with the cells of [from, to) blanked. */
  ghost predicate Blanks(s: Screen, t: Screen, from: nat, to: nat) {
    |t.cells| == |s.cells| &&
    forall i {:trigger t.cells[i]} :: 0 <= i < |s.cells| ==>
      t.cells[i] == if from <= i < to then Blank(s) else s.cells[i]
  }

  /** Element i after the elements of [from, to) moved down by n places, the last n blanked. */
  function MovedUp(cells: seq<Cell>, n: nat, from: nat, to: nat, blank: Cell, i: nat): Cell
    requires n <= to <= |cells| && i < |cells|
  {
    if from <= i < to - n then cells[i + n] else if to - n <= i < to then blank else cells[i]
  }

  /** Element i after the elements of [from, to) moved up by n places, the first n blanked. */
  function MovedDown(cells: seq<Cell>, n: nat, from: nat, to: nat, blank: Cell, i: nat): Cell
    requires to <= |cells| && i < |cells|
  {
    if from <= i < from + n then blank else if from + n <= i < to then cells[i - n] else cells[i]
  }

  function Scrolled(s: Screen): (t: Screen)
    requires Sane(s)
    ensures Sane(t) && t == s.(cells := t.cells)
  {
    RowBounds(s.cols, s.rows, s.bottom);
    var n, from, to, cells, blank := s.cols, s.top * s.cols, s.bottom * s.cols, s.cells, Blank(s);
    s.(cells := seq(|cells|, i requires 0 <= i < |cells| && n <= to <= |cells| =>
      MovedUp(cells, n, from, to, blank, i)))
  }

  function RevScrolled(s: Screen): (t: Screen)
    requires Sane(s)
    ensures Sane(t) && t == s.(cells := t.cells)
  {
    RowBounds(s.cols, s.rows, s.bottom);
    var n, from, to, cells, blank := s.cols, s.top * s.cols, s.bottom * s.cols, s.cells, Blank(s);
    s.(cells := seq(|cells|, i requires 0 <= i < |cells| && to <= |cells| => MovedDown(cells, n, from, to, blank, i)))
  }

  function Cleared(s: Screen, move: bool): (t: Screen)
    ensures t == s.(cells := t.cells, cursor := t.cursor) && (Sane(s) ==> Sane(t))
  {
    s.(cells := seq(|s.cells|, i => Blank(s)), cursor := if move then Cursor(0, 0) else s.cursor)
  }

  /** A position clamped to [0, limit): values whose low 32 bits read as a negative int become 0. */
  function Clamp(v: nat, limit: nat): (r: nat)
    requires limit > 0
    ensures r < limit && (v < limit ==> r == v)
  {
    if v < limit then v else if v % 0x1_0000_0000 >= 0x8000_0000 then 0 else limit - 1
  }

  function CursorSet(s: Screen, x: nat, y: nat): (t: Screen)
    requires s.cols > 0 && s.rows > 0
    ensures t == s.(cursor := t.cursor) && t.cursor.x < s.cols && t.cursor.y < s.rows
  {
    s.(cursor := Cursor(Clamp(x, s.cols), Clamp(y, s.rows)))
  }

  /** The reported cursor: inside the grid even when a wrap is pending. */
  function CursorSeen(s: Screen): (c: Cursor)
    requires s.cols > 0 && s.rows > 0
    ensures c.x < s.cols && c.y < s.rows
  {
    Cursor(if s.cursor.x >= s.cols then s.cols - 1 else s.cursor.x,
           if s.cursor.y >= s.rows then s.rows - 1 else s.cursor.y)
  }

  function CharMoved(s: Screen, newX: nat, newY: nat, oldX: nat, oldY: nat): Screen
    requires Sane(s)
  {
    if oldX >= s.cols || oldY >= s.rows || newX >= s.cols || newY >= s.rows then s
    else
      AtInRange(s.cols, s.rows, oldX, oldY);
      Put(s, newX, newY, s.cells[At(s.cols, oldX, oldY)])
  }

  /** The wrap that a character written past the last column performs first. */
  function Wrapped(s: Screen): (t: Screen)
    requires Sane(s)
    ensures Sane(t) && t.cols == s.cols && t.rows == s.rows
  {
    if s.cursor.x >= s.cols && (s.cursor.y + 1 < s.bottom || s.scrollEnabled) then
      var t := if s.cursor.y + 1 == s.bottom
               then Scrolled(s.(cursor := Cursor(0, s.cursor.y)))
               else s.(cursor := Cursor(0, s.cursor.y + 1));
      if t.cursor.y >= t.cols then t.(cursor := Cursor(0, t.cols - 1)) else t
    else s
  }

  function CharPut(s: Screen, c: Byte): (t: Screen)
    requires Sane(s)
    ensures Sane(t) && t.cols == s.cols && t.rows == s.rows
  {
    var w := Wrapped(s);
    hide Wrapped, Put;
    Put(w, w.cursor.x, w.cursor.y, Cell(c, w.fg, w.bg)).(cursor := Cursor(w.cursor.x + 1, w.cursor.y))
  }

  // ---- the row view: scrolling as surgery on a list of rows ---------------------------

  function Row(s: Screen, y: nat): (r: seq<Cell>)
    requires Sane(s) && y < s.rows
    ensures |r| == s.cols
  {
    RowBounds(s.cols, s.rows, y);
    RowBounds(s.cols, s.rows, y + 1);
    s.cells[y * s.cols..(y + 1) * s.cols]
  }

  ghost predicate RowBlank(s: Screen, y: nat, blank: Cell)
    requires Sane(s) && y < s.rows
  {
    forall x :: 0 <= x < s.cols ==> Row(s, y)[x] == blank
  }

  /** Scrolling moves the rows of the margin region up by one and blanks its last row. */
  lemma ScrollShiftsRows(s: Screen, y: nat)
    requires Sane(s) && s.top < s.bottom && y < s.rows
    ensures var t := Scrolled(s);
            if s.top <= y < s.bottom - 1 then Row(t, y) == Row(s, y + 1)
            else if y == s.bottom - 1 then RowBlank(t, y, Blank(s))
            else Row(t, y) == Row(s, y)
  {
    var t := Scrolled(s);
    RowOrder(s.cols, s.rows, y, s.top);
    RowOrder(s.cols, s.rows, y, s.bottom - 1);
    RowOrder(s.cols, s.rows, y, s.bottom);
    RowBounds(s.cols, s.rows, s.bottom);
    RowBounds(s.cols, s.rows, y);
    RowBounds(s.cols, s.rows, y + 1);
    if s.top <= y < s.bottom - 1 {
      RowBounds(s.cols, s.rows, y + 2);
    }
  }

  /** Reverse scrolling moves them down by one and blanks the first. */
  lemma RevScrollShiftsRows(s: Screen, y: nat)
    requires Sane(s) && s.top < s.bottom && y < s.rows
    ensures var t := RevScrolled(s);
            if y == s.top then RowBlank(t, y, Blank(s))
            else if s.top < y < s.bottom then Row(t, y) == Row(s, y - 1)
            else Row(t, y) == Row(s, y)
  {
    var t := RevScrolled(s);
    RowOrder(s.cols, s.rows, y, s.top);
    RowOrder(s.cols, s.rows, y, s.top + 1);
    RowOrder(s.cols, s.rows, y, s.bottom);
    RowBounds(s.cols, s.rows, s.bottom);
    RowBounds(s.cols, s.rows, s.top);
    RowBounds(s.cols, s.rows, s.top + 1);
    RowBounds(s.cols, s.rows, y);
    RowBounds(s.cols, s.rows, y + 1);
  }

  /** Rows are laid out in order. */
  lemma RowOrder(cols: nat, rows: nat, y: nat, z: nat)
    requires y < rows && z <= rows
    ensures y < z ==> y * cols + cols <= z * cols
    ensures z <= y ==> z * cols <= y * cols
  {
    if y < z {
      ProductOrder(y, z, cols);
    } else {
      ProductOrder(z, y, cols);
    }
  }

  /** Reverse scrolling and then scrolling back loses only the row that fell off the bottom. */
  lemma ScrollUndoesRevScroll(s: Screen, y: nat)
    requires Sane(s) && s.top < s.bottom && y < s.rows
    ensures y != s.bottom - 1 ==> Row(Scrolled(RevScrolled(s)), y) == Row(s, y)
  {
    ScrollShiftsRows(RevScrolled(s), y);
    RevScrollShiftsRows(s, y);
    if s.top <= y < s.bottom - 1 {
      RevScrollShiftsRows(s, y + 1);
    }
  }
}
