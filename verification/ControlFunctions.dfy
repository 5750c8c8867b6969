/** The screen side of the control functions: the loops behind each final byte, each proved to do
    to the framebuffer what TerminalSpec says it does to the plain screen. */
module ControlFunctions {
  import opened Bits
  import opened Arithmetic
  import opened Screen
  import opened TerminalSpec
  import opened Framebuffer

  method PutChars(fb: Framebuffer, c: Byte, n: nat)
    requires fb.Valid()
    modifies fb, fb.grid, fb.queue, fb.pending, fb.shown
    ensures fb.Valid() && fb.View() == CharsPut(old(fb.View()), c, n)
  {
    hide Consistent, LogicalCells, DrawnBut, CharPut, Framebuffer.View;
    ghost var s := fb.View();
    for i := 0 to n
      invariant fb.Valid() && fb.View() == CharsPut(s, c, i)
    {
      PutKeeps(CharsPut(s, c, i), c);
      fb.RawPutchar(c);
    }
  }

  method ScrollTimes(fb: Framebuffer, n: nat)
    requires fb.Valid()
    modifies fb, fb.grid, fb.queue, fb.pending, fb.shown
    ensures fb.Valid() && fb.View() == ScrolledTimes(old(fb.View()), n)
  {
    hide Consistent, LogicalCells, DrawnBut, Scrolled, Framebuffer.View;
    ghost var s := fb.View();
    for i := 0 to n
      invariant fb.Valid() && fb.View() == ScrolledTimes(s, i)
    {
      fb.Scroll();
    }
  }

  method RevScrollTimes(fb: Framebuffer, n: nat)
    requires fb.Valid()
    modifies fb, fb.grid, fb.queue, fb.pending, fb.shown
    ensures fb.Valid() && fb.View() == RevScrolledTimes(old(fb.View()), n)
  {
    hide Consistent, LogicalCells, DrawnBut, RevScrolled, Framebuffer.View;
    ghost var s := fb.View();
    for i := 0 to n
      invariant fb.Valid() && fb.View() == RevScrolledTimes(s, i)
    {
      fb.RevScroll();
    }
  }

  /** CUU and CPL: up n rows to column x, stopping at the top margin. */
  method CursorUp(fb: Framebuffer, x: nat, y: nat, n: nat)
    requires fb.Valid()
    modifies fb, fb.grid, fb.queue, fb.pending, fb.shown
    ensures fb.Valid() && fb.View() == CursorSet(old(fb.View()), x, UpTarget(old(fb.View()), y, n))
  {
    hide Consistent, LogicalCells, DrawnBut, CursorSet;
    var m := if n > y then y else n;
    var dest := y - m;
    var inRegion := false;
    if (fb.scrollTop >= dest && fb.scrollTop <= y) || (fb.scrollBottom >= dest && fb.scrollBottom <= y) {
      inRegion := true;
    }
    if inRegion && dest < fb.scrollTop {
      dest := fb.scrollTop;
    }
    fb.SetCursorPos(x, dest);
  }

  /** CUD and CNL. */
  method CursorDown(fb: Framebuffer, x: nat, y: nat, n: nat)
    requires fb.Valid() && y < fb.rows
    modifies fb, fb.grid, fb.queue, fb.pending, fb.shown
    ensures fb.Valid() && fb.View() == CursorSet(old(fb.View()), x, DownTarget(old(fb.View()), y, n))
  {
    hide Consistent, LogicalCells, DrawnBut, CursorSet;
    var m := if y + n > fb.rows - 1 then fb.rows - 1 - y else n;
    var dest := y + m;
    var inRegion := false;
    if (fb.scrollTop >= y && fb.scrollTop <= dest) || (fb.scrollBottom >= y && fb.scrollBottom <= dest) {
      inRegion := true;
    }
    if inRegion && dest >= fb.scrollBottom {
      dest := fb.scrollBottom - 1;
    }
    fb.SetCursorPos(x, dest);
  }

  /** IL: reverse scrolling with the cursor row as top margin. */
  method InsertLines(fb: Framebuffer, y: nat, n: nat)
    requires fb.Valid() && y < fb.rows
    modifies fb, fb.grid, fb.queue, fb.pending, fb.shown
    ensures fb.Valid()
    ensures var s := old(fb.View()); fb.View() == RevScrolledTimes(s.(top := y), Min(n, s.rows)).(top := s.top)
  {
    hide Consistent, LogicalCells, DrawnBut, RevScrolledTimes;
    var oldTop := fb.scrollTop;
    fb.scrollTop := y;
    var count := if n > fb.rows then fb.rows else n;
    RevScrollTimes(fb, count);
    fb.scrollTop := oldTop;
  }

  /** ED 1: blanks row by row until the cursor has been passed. */
  method EraseToCursor(fb: Framebuffer, x: nat, y: nat)
    requires fb.Valid() && x < fb.cols && y < fb.rows
    modifies fb, fb.grid, fb.queue, fb.pending, fb.shown
    ensures fb.Valid()
    ensures fb.View() == CursorSet(CharsPut(CursorSet(old(fb.View()), 0, 0), 0x20, CellsUpTo(fb.cols, x, y)), x, y)
  {
    hide Consistent, LogicalCells, DrawnBut, CursorSet, CharPut, Framebuffer.View;
    fb.SetCursorPos(0, 0);
    ghost var s := fb.View();
    var done := false;
    var row := 0;
    ghost var n := 0;
    while row < fb.rows && !done
      invariant fb.Valid() && row <= fb.rows && (done || row <= y)
      invariant !done ==> n == row * fb.cols && fb.View() == CharsPut(s, 0x20, n)
      invariant done ==> fb.View() == CursorSet(CharsPut(s, 0x20, CellsUpTo(fb.cols, x, y)), x, y)
    {
      OneMoreRow(row, fb.cols);
      done, n := EraseRowToCursor(fb, x, y, row, s, n);
      row := row + 1;
    }
  }

  /** One row of ED 1, which begins after n characters. */
  method EraseRowToCursor(fb: Framebuffer, x: nat, y: nat, row: nat, ghost s: Screen, ghost n: nat)
    returns (done: bool, ghost m: nat)
    requires fb.Valid() && x < fb.cols && row <= y < fb.rows && Sane(s)
    requires n == row * fb.cols && fb.View() == CharsPut(s, 0x20, n)
    modifies fb, fb.grid, fb.queue, fb.pending, fb.shown
    ensures fb.Valid() && done == (row == y)
    ensures !done ==> m == n + fb.cols && fb.View() == CharsPut(s, 0x20, m)
    ensures done ==> fb.View() == CursorSet(CharsPut(s, 0x20, CellsUpTo(fb.cols, x, y)), x, y)
  {
    hide Consistent, LogicalCells, DrawnBut, CursorSet, CharPut, Framebuffer.View;
    done, m := false, n;
    var column := 0;
    while column < fb.cols && !done
      invariant fb.Valid() && column <= fb.cols && m == n + column
      invariant !done ==> fb.View() == CharsPut(s, 0x20, m) && (row == y ==> column <= x)
      invariant done ==> row == y && fb.View() == CursorSet(CharsPut(s, 0x20, CellsUpTo(fb.cols, x, y)), x, y)
    {
      PutKeeps(CharsPut(s, 0x20, m), 0x20);
      fb.RawPutchar(0x20);
      m := m + 1;
      if column == x && row == y {
        fb.SetCursorPos(x, y);
        done := true;
      }
      column := column + 1;
    }
  }

  /** ED. */
  method EraseInDisplay(fb: Framebuffer, x: nat, y: nat, v: nat)
    requires fb.Valid() && x < fb.cols && y < fb.rows
    modifies fb, fb.grid, fb.queue, fb.pending, fb.shown
    ensures fb.Valid() && fb.View() == Erased(old(fb.View()), Cursor(x, y), v)
  {
    hide Consistent, LogicalCells, DrawnBut, CursorSet, CharsPut, Cleared;
    if v == 0 {
      RowBounds(fb.cols, fb.rows, fb.rows - (y + 1));
      var rowsRemaining := fb.rows - (y + 1);
      var colsDiff := fb.cols - (x + 1);
      PutChars(fb, 0x20, rowsRemaining * fb.cols + colsDiff + 1);
      fb.SetCursorPos(x, y);
    } else if v == 1 {
      EraseToCursor(fb, x, y);
    } else if v == 2 || v == 3 {
      fb.Clear(false);
    }
  }

  /** EL. */
  method EraseInLine(fb: Framebuffer, x: nat, y: nat, v: nat)
    requires fb.Valid() && x < fb.cols && y < fb.rows
    modifies fb, fb.grid, fb.queue, fb.pending, fb.shown
    ensures fb.Valid() && fb.View() == LineErased(old(fb.View()), Cursor(x, y), v)
  {
    hide Consistent, LogicalCells, DrawnBut, CursorSet, CharsPut;
    if v == 0 {
      PutChars(fb, 0x20, fb.cols - x);
      fb.SetCursorPos(x, y);
    } else if v == 1 {
      fb.SetCursorPos(0, y);
      PutChars(fb, 0x20, x);
    } else if v == 2 {
      fb.SetCursorPos(0, y);
      PutChars(fb, 0x20, fb.cols);
      fb.SetCursorPos(x, y);
    }
  }

  /** ICH: from the last column down to the cursor, move each cell n to the right and blank it. */
  method InsertCharacters(fb: Framebuffer, x: nat, y: nat, n: nat)
    requires fb.Valid() && x < fb.cols && y < fb.rows
    modifies fb, fb.grid, fb.queue, fb.pending, fb.shown
    ensures fb.Valid()
    ensures fb.View() == CursorSet(Inserted(old(fb.View()), x, y, n, fb.cols - 1), x, y)
  {
    hide Consistent, LogicalCells, DrawnBut, CursorSet, CharMoved, CharPut;
    ghost var s := fb.View();
    var i := fb.cols - 1;
    while true
      invariant x <= i < fb.cols && fb.Valid()
      invariant Inserted(fb.View(), x, y, n, i) == Inserted(s, x, y, n, fb.cols - 1)
      decreases i
    {
      fb.MoveCharacter(i + n, y, i, y);
      fb.SetCursorPos(i, y);
      fb.RawPutchar(0x20);
      if i == x {
        break;
      }
      i := i - 1;
    }
    fb.SetCursorPos(x, y);
  }

  /** The moving half of DCH. */
  method PullLeft(fb: Framebuffer, x: nat, y: nat, n: nat)
    requires fb.Valid() && y < fb.rows
    modifies fb, fb.grid, fb.queue, fb.pending, fb.shown
    ensures fb.Valid() && fb.View() == PulledLeft(old(fb.View()), y, n, x + n)
  {
    hide Consistent, LogicalCells, DrawnBut, CharMoved;
    ghost var s := fb.View();
    var i := x + n;
    while i < fb.cols
      invariant n <= i && fb.Valid() && PulledLeft(fb.View(), y, n, i) == PulledLeft(s, y, n, x + n)
    {
      fb.MoveCharacter(i - n, y, i, y);
      i := i + 1;
    }
  }

  /** ECH. */
  method EraseCharacters(fb: Framebuffer, x: nat, y: nat, n: nat)
    requires fb.Valid()
    modifies fb, fb.grid, fb.queue, fb.pending, fb.shown
    ensures fb.Valid() && fb.View() == CharsErased(old(fb.View()), Cursor(x, y), n)
  {
    hide Consistent, LogicalCells, DrawnBut, CharsPut, CursorSet;
    var count := if n > fb.cols then fb.cols else n;
    PutChars(fb, 0x20, count);
    fb.SetCursorPos(x, y);
  }

  /** DCH. The column is computed in 64 bits. */
  method DeleteCharacters(fb: Framebuffer, x: nat, y: nat, n: nat)
    requires fb.Valid() && x < fb.cols && y < fb.rows && n < U32
    modifies fb, fb.grid, fb.queue, fb.pending, fb.shown
    ensures fb.Valid() && fb.View() == Deleted(old(fb.View()), Cursor(x, y), n)
  {
    hide Consistent, LogicalCells, DrawnBut, CursorSet, PulledLeft, CharsErased;
    PullLeft(fb, x, y, n);
    fb.SetCursorPos(ColumnsLess(fb.cols, n), y);
    EraseCharacters(fb, x, y, n);
  }

  /** The region from top to bottom, or the whole screen if that encloses no row. */
  method SetRegion(fb: Framebuffer, top: nat, bottom: nat)
    requires fb.Valid() && bottom > 0
    modifies fb
    ensures fb.Valid()
    ensures fb.View() == CursorSet(Region(old(fb.View()), top, bottom), 0, 0)
  {
    hide Consistent, LogicalCells, DrawnBut, CursorSet;
    fb.scrollTop, fb.scrollBottom := 0, fb.rows;
    if top < fb.rows && bottom <= fb.rows && top < bottom - 1 {
      fb.scrollTop, fb.scrollBottom := top, bottom;
    }
    fb.SetCursorPos(0, 0);
  }

  /** DECSTBM. */
  method SetMargins(fb: Framebuffer, values: array<nat>, count: nat)
    requires fb.Valid() && 2 <= values.Length
    modifies fb
    ensures fb.Valid() && fb.View() == Margins(old(fb.View()), values[..], count)
  {
    hide Consistent, LogicalCells, DrawnBut, CursorSet, Region, Framebuffer.Valid, Framebuffer.View;
    var first := if values[0] == 0 then 1 else values[0];
    var second := if values[1] == 0 then 1 else values[1];
    var top, bottom := 0, fb.rows;
    if count > 0 {
      top := first - 1;
    }
    if count > 1 {
      bottom := second;
    }
    RowsArePositive(fb);
    SetRegion(fb, top, bottom);
  }

  /** The screen's part of a reset. */
  method ResetScreenSettings(fb: Framebuffer)
    requires fb.Valid()
    modifies fb`cursorEnabled, fb`scrollEnabled, fb`scrollTop, fb`scrollBottom
    ensures fb.Valid() && fb.View() == ReinitScreen(old(fb.View()))
  {
    hide Consistent, LogicalCells, DrawnBut;
    fb.cursorEnabled, fb.scrollEnabled := true, true;
    fb.scrollTop, fb.scrollBottom := 0, fb.rows;
  }

  method SetScrollEnabled(fb: Framebuffer, enabled: bool) returns (was: bool)
    requires fb.Valid()
    modifies fb`scrollEnabled
    ensures fb.Valid() && was == old(fb.View()).scrollEnabled
    ensures fb.View() == old(fb.View()).(scrollEnabled := enabled)
  {
    hide Consistent, LogicalCells, DrawnBut;
    was := fb.scrollEnabled;
    fb.scrollEnabled := enabled;
  }

  method SetCursorEnabled(fb: Framebuffer, enabled: bool)
    requires fb.Valid()
    modifies fb`cursorEnabled
    ensures fb.Valid() && fb.View() == old(fb.View()).(cursorEnabled := enabled)
  {
    hide Consistent, LogicalCells, DrawnBut;
    fb.cursorEnabled := enabled;
  }

  /** Down a row to column x, scrolling at the bottom margin. */
  method LineFeed(fb: Framebuffer, x: nat, y: nat)
    requires fb.Valid() && y == CursorSeen(fb.View()).y
    modifies fb, fb.grid, fb.queue, fb.pending, fb.shown
    ensures fb.Valid() && fb.View() == LineFed(old(fb.View()), x)
  {
    hide Consistent, LogicalCells, DrawnBut, CursorSet, Scrolled, CursorSeen;
    if y == fb.scrollBottom - 1 {
      fb.Scroll();
      fb.SetCursorPos(x, y);
    } else {
      fb.SetCursorPos(x, y + 1);
    }
  }

  /** Up a row to the first column, reverse scrolling at the top margin; y - 1 is in 64 bits. */
  method ReverseLineFeed(fb: Framebuffer, y: nat)
    requires fb.Valid() && y == CursorSeen(fb.View()).y
    modifies fb, fb.grid, fb.queue, fb.pending, fb.shown
    ensures fb.Valid() && fb.View() == ReverseFed(old(fb.View()))
  {
    hide Consistent, LogicalCells, DrawnBut, CursorSet, RevScrolled, CursorSeen;
    if y == fb.scrollTop {
      fb.RevScroll();
      fb.SetCursorPos(0, y);
    } else {
      fb.SetCursorPos(0, if y == 0 then WORD_LIMIT - 1 else y - 1);
    }
  }

  /** Insert mode: everything from the cursor on moves right by one. */
  method PushRight(fb: Framebuffer, x: nat, y: nat)
    requires fb.Valid() && x < fb.cols && y < fb.rows
    modifies fb, fb.grid, fb.queue, fb.pending, fb.shown
    ensures fb.Valid() && fb.View() == PushedRight(old(fb.View()), x, y, fb.cols - 1)
  {
    hide Consistent, LogicalCells, DrawnBut, CharMoved;
    ghost var s := fb.View();
    var i := fb.cols - 1;
    while true
      invariant x <= i < fb.cols && fb.Valid() && PushedRight(fb.View(), x, y, i) == PushedRight(s, x, y, fb.cols - 1)
      decreases i
    {
      fb.MoveCharacter(i + 1, y, i, y);
      if i == x {
        break;
      }
      i := i - 1;
    }
  }

  method Tab(fb: Framebuffer, x: nat, y: nat, tabSize: nat)
    requires fb.Valid() && tabSize > 0 && Cursor(x, y) == CursorSeen(fb.View())
    modifies fb
    ensures fb.Valid() && fb.View() == Tabbed(old(fb.View()), tabSize)
  {
    hide Framebuffer.Valid, Framebuffer.View, CursorSet, CursorSeen;
    if x / tabSize + 1 >= fb.cols {
      fb.SetCursorPos(fb.cols - 1, y);
      return;
    }
    fb.SetCursorPos((x / tabSize + 1) * tabSize, y);
  }

  /** A decoded code point: its glyph, or a replacement as wide as it is. */
  method PutCodePoint(fb: Framebuffer, config: Config, cp: nat)
    requires fb.Valid() && ConfigOk(config)
    modifies fb, fb.grid, fb.queue, fb.pending, fb.shown
    ensures fb.Valid() && fb.View() == CodePointPut(config, old(fb.View()), cp)
  {
    hide Framebuffer.Valid, Framebuffer.View, CharPut, CharsPut;
    var cc := config.cp437(cp);
    if cc == -1 {
      var width := config.width(cp);
      if width > 0 {
        fb.RawPutchar(0xfe);
        PutChars(fb, 0x20, width - 1);
      }
    } else {
      fb.RawPutchar(cc);
    }
  }

  lemma RowsArePositive(fb: Framebuffer)
    requires fb.Valid()
    ensures fb.rows > 0 && fb.View().rows == fb.rows
  {
  }
}
