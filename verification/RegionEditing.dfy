/** The control functions that move whole lines, as operations on the list of rows. */
module RegionEditing {
  import opened Bits
  import opened Arithmetic
  import opened Screen
  import opened TerminalSpec

  function BlankCells(n: nat, blank: Cell): (r: seq<Cell>)
    ensures |r| == n && forall i :: 0 <= i < n ==> r[i] == blank
  {
    seq(n, _ => blank)
  }

  /** Row y after the rows of [from, to) moved up by n, blank rows coming in at the bottom. */
  function RowUp(s: Screen, from: nat, to: nat, n: nat, y: nat): seq<Cell>
    requires Sane(s) && to <= s.rows && y < s.rows
  {
    if y < from || to <= y then Row(s, y) else if y + n < to then Row(s, y + n) else BlankCells(s.cols, Blank(s))
  }

  /** Row y after the rows of [from, to) moved down by n, blank rows coming in at the top. */
  function RowDown(s: Screen, from: nat, to: nat, n: nat, y: nat): seq<Cell>
    requires Sane(s) && to <= s.rows && y < s.rows
  {
    if y < from || to <= y then Row(s, y) else if from + n <= y then Row(s, y - n) else BlankCells(s.cols, Blank(s))
  }

  /** Scrolling n times moves the region up by n. */
  lemma {:induction false} ScrolledTimesRows(s: Screen, n: nat, y: nat)
    requires Sane(s) && s.top < s.bottom && y < s.rows
    ensures Row(ScrolledTimes(s, n), y) == RowUp(s, s.top, s.bottom, n, y)
  {
    hide Scrolled, Row;
    if n == 0 {
    } else {
      var u := ScrolledTimes(s, n - 1);
      ScrolledTimesRows(s, n - 1, y);
      ScrollShiftsRows(u, y);
      if s.top <= y < s.bottom - 1 {
        ScrolledTimesRows(s, n - 1, y + 1);
      } else if y == s.bottom - 1 {
        BlankIs(Scrolled(u), y, Blank(s));
      }
    }
  }

  lemma {:induction false} RevScrolledTimesRows(s: Screen, n: nat, y: nat)
    requires Sane(s) && s.top < s.bottom && y < s.rows
    ensures Row(RevScrolledTimes(s, n), y) == RowDown(s, s.top, s.bottom, n, y)
  {
    hide RevScrolled, Row;
    if n == 0 {
    } else {
      var u := RevScrolledTimes(s, n - 1);
      RevScrolledTimesRows(s, n - 1, y);
      RevScrollShiftsRows(u, y);
      if s.top < y < s.bottom {
        RevScrolledTimesRows(s, n - 1, y - 1);
      } else if y == s.top {
        BlankIs(RevScrolled(u), y, Blank(s));
      }
    }
  }

  lemma BlankIs(s: Screen, y: nat, blank: Cell)
    requires Sane(s) && y < s.rows && RowBlank(s, y, blank)
    ensures Row(s, y) == BlankCells(s.cols, blank)
  {
    hide Row;
  }

  /** Margins play no part in what a row holds. */
  lemma RowIgnoresMargins(s: Screen, t: Screen, y: nat)
    requires Sane(s) && Sane(t) && y < s.rows && s.cells == t.cells && s.cols == t.cols && s.rows == t.rows
    ensures Row(s, y) == Row(t, y)
  {
  }

  /** IL n (ECMA-48 section 8.3.67) with the cursor above the bottom margin: the rows from the cursor's to
      the margin move down by n, blank rows come in at the cursor, every other row stays. */
  lemma InsertLinesExact(s: Screen, values: seq<nat>, count: nat, r: nat)
    requires Sane(s) && 2 <= |values| && values[0] < U32 && r < s.rows
    requires CursorSeen(s).y < s.bottom
    ensures Row(Edited(s, values, count, 0x4C), r) == RowDown(s, CursorSeen(s).y, s.bottom, values[0], r)
  {
    hide Row, RevScrolledTimes, CursorSeen;
    var y := CursorSeen(s).y;
    var from, n := s.(top := y), Min(values[0], s.rows);
    RevScrolledTimesRows(from, n, r);
    RowIgnoresMargins(RevScrolledTimes(from, n), Edited(s, values, count, 0x4C), r);
    RowIgnoresMargins(from, s, r);
    if r >= n {
      RowIgnoresMargins(from, s, r - n);
    }
  }

  /** From the bottom margin down IL, given a positive count, blanks the cursor's row and nothing else. */
  lemma InsertLinesBelow(s: Screen, values: seq<nat>, count: nat, r: nat)
    requires Sane(s) && 2 <= |values| && values[0] < U32 && r < s.rows
    requires s.bottom <= CursorSeen(s).y
    ensures Row(Edited(s, values, count, 0x4C), r) ==
      if r == CursorSeen(s).y && values[0] > 0 then BlankCells(s.cols, Blank(s)) else Row(s, r)
  {
    hide Row, RevScrolledTimes, CursorSeen;
    var from, n := s.(top := CursorSeen(s).y), Min(values[0], s.rows);
    if n > 0 {
      RevScrolledBelow(from, n, r);
    } else {
      assert RevScrolledTimes(from, 0) == from by { NoRevScroll(from); }
    }
    RowIgnoresMargins(RevScrolledTimes(from, n), Edited(s, values, count, 0x4C), r);
    RowIgnoresMargins(from, s, r);
  }

  /** There it should do nothing, and does nothing exactly when the count is 0 or the cursor's row is blank. */
  lemma InsertLinesBelowIff(s: Screen, values: seq<nat>, count: nat)
    requires Sane(s) && 2 <= |values| && values[0] < U32
    requires s.bottom <= CursorSeen(s).y
    ensures (forall r :: 0 <= r < s.rows ==> Row(Edited(s, values, count, 0x4C), r) == Row(s, r)) <==>
      values[0] == 0 || Row(s, CursorSeen(s).y) == BlankCells(s.cols, Blank(s))
  {
    hide Row, Edited;
    forall r | 0 <= r < s.rows
      ensures Row(Edited(s, values, count, 0x4C), r) ==
        if r == CursorSeen(s).y && values[0] > 0 then BlankCells(s.cols, Blank(s)) else Row(s, r)
    {
      InsertLinesBelow(s, values, count, r);
    }
  }

  lemma NoRevScroll(s: Screen)
    requires Sane(s)
    ensures RevScrolledTimes(s, 0) == s
  {
  }

  lemma {:induction false} RevScrolledBelow(s: Screen, n: nat, r: nat)
    requires Sane(s) && s.bottom <= s.top && r < s.rows && n > 0
    ensures Row(RevScrolledTimes(s, n), r) == if r == s.top then BlankCells(s.cols, Blank(s)) else Row(s, r)
  {
    hide Row, RevScrolled;
    var u := RevScrolledTimes(s, n - 1);
    if n == 1 {
    } else {
      RevScrolledBelow(s, n - 1, r);
    }
    RevScrolledOutside(u, r);
  }

  lemma RevScrolledOutside(s: Screen, r: nat)
    requires Sane(s) && s.bottom <= s.top && r < s.rows
    ensures Row(RevScrolled(s), r) == if r == s.top then BlankCells(s.cols, Blank(s)) else Row(s, r)
  {
    RowOrder(s.cols, s.rows, r, s.top);
    RowOrder(s.cols, s.rows, r, s.top + 1);
    RowOrder(s.cols, s.rows, s.top, s.bottom);
    RowBounds(s.cols, s.rows, s.top);
    RowBounds(s.cols, s.rows, s.top + 1);
    RowBounds(s.cols, s.rows, r);
    RowBounds(s.cols, s.rows, r + 1);
  }

  /** DL n moves the rows from the top margin, not from the cursor, up by n. */
  lemma DeleteLinesExact(s: Screen, values: seq<nat>, count: nat, r: nat)
    requires Sane(s) && 2 <= |values| && values[0] < U32 && r < s.rows && s.top < s.bottom
    ensures Row(Edited(s, values, count, 0x4D), r) == RowUp(s, s.top, s.bottom, values[0], r)
  {
    hide Row, ScrolledTimes;
    ScrolledTimesRows(s, Min(values[0], s.rows), r);
  }

  /** So it is the delete ECMA-48 section 8.3.32 describes, for a cursor in the region, exactly when the rows
      between the top margin and the cursor look the same after moving up. */
  lemma DeleteLinesIff(s: Screen, values: seq<nat>, count: nat)
    requires Sane(s) && 2 <= |values| && values[0] < U32 && s.top <= CursorSeen(s).y < s.bottom
    ensures (forall r :: 0 <= r < s.rows ==>
               Row(Edited(s, values, count, 0x4D), r) == RowUp(s, CursorSeen(s).y, s.bottom, values[0], r))
            <==> forall r :: s.top <= r < CursorSeen(s).y ==> Row(s, r) == RowUp(s, s.top, s.bottom, values[0], r)
  {
    hide Row, Edited, CursorSeen;
    forall r | 0 <= r < s.rows
      ensures Row(Edited(s, values, count, 0x4D), r) == RowUp(s, s.top, s.bottom, values[0], r)
    {
      DeleteLinesExact(s, values, count, r);
    }
    if forall r :: 0 <= r < s.rows ==>
         Row(Edited(s, values, count, 0x4D), r) == RowUp(s, CursorSeen(s).y, s.bottom, values[0], r) {
      forall r | s.top <= r < CursorSeen(s).y ensures Row(s, r) == RowUp(s, s.top, s.bottom, values[0], r) {
        assert Row(Edited(s, values, count, 0x4D), r) == RowUp(s, CursorSeen(s).y, s.bottom, values[0], r);
      }
    }
  }

  // ---- vertical cursor movement ---------------------------------------------------------------

  /** CUU stops at the top margin when it starts at or below it, else at the top of the screen. */
  lemma CursorUpMeaning(s: Screen, y: nat, n: nat)
    requires Sane(s) && s.top < s.bottom && y < s.rows
    ensures UpTarget(s, y, n) ==
      if y >= s.top then (if y >= s.top + n then y - n else s.top) else if y >= n then y - n else 0
  {
  }

  /** CUD stops at the bottom margin when it starts above it, and at the bottom of the screen when it
      starts further below; from the row just below the margin it jumps up into the region. */
  lemma CursorDownMeaning(s: Screen, y: nat, n: nat)
    requires Sane(s) && s.top < s.bottom && y < s.rows
    ensures DownTarget(s, y, n) ==
      if y < s.bottom then (if y + n < s.bottom then y + n else s.bottom - 1)
      else if y == s.bottom then s.bottom - 1
      else if y + n < s.rows then y + n else s.rows - 1
    ensures DownTarget(s, y, n) >= y <==> y != s.bottom
  {
  }

  /** Within the region up undoes down when the margin did not cut it short. */
  lemma UpUndoesDown(s: Screen, y: nat, n: nat)
    requires Sane(s) && s.top <= y && y + n < s.bottom
    ensures UpTarget(s, DownTarget(s, y, n), n) == y
  {
    CursorDownMeaning(s, y, n);
    CursorUpMeaning(s, y + n, n);
  }

  // ---- line feeds and tabs --------------------------------------------------------------------------

  /** A line feed on the bottom margin moves the region up by one row; anywhere else no cell changes and the
      cursor goes down a row, unless it is on the screen's last. */
  lemma LineFeedRows(s: Screen, x: nat, r: nat)
    requires Sane(s) && s.top < s.bottom && s.rows < 0x8000_0000 && x < s.cols && r < s.rows
    ensures var y, t := CursorSeen(s).y, LineFed(s, x);
            if y == s.bottom - 1 then t.cursor == Cursor(x, y) && Row(t, r) == RowUp(s, s.top, s.bottom, 1, r)
            else t.cursor == Cursor(x, if y + 1 < s.rows then y + 1 else y) && t.cells == s.cells
  {
    hide Row, Scrolled, CursorSeen;
    if CursorSeen(s).y == s.bottom - 1 {
      ScrolledTimesRows(s, 1, r);
      assert ScrolledTimes(s, 0) == s && ScrolledTimes(s, 1) == Scrolled(s);
      RowIgnoresMargins(Scrolled(s), LineFed(s, x), r);
    }
  }

  /** A reverse line feed on the top margin moves the region down by one row; anywhere else no cell changes and
      the cursor goes up a row, unless it is on the screen's first; it always goes to the first column. */
  lemma ReverseFeedRows(s: Screen, r: nat)
    requires Sane(s) && s.top < s.bottom && s.rows < 0x8000_0000 && r < s.rows
    ensures var y, t := CursorSeen(s).y, ReverseFed(s);
            if y == s.top then t.cursor == Cursor(0, y) && Row(t, r) == RowDown(s, s.top, s.bottom, 1, r)
            else t.cursor == Cursor(0, if y > 0 then y - 1 else y) && t.cells == s.cells
  {
    hide Row, RevScrolled, CursorSeen;
    if CursorSeen(s).y == s.top {
      RevScrolledTimesRows(s, 1, r);
      assert RevScrolledTimes(s, 0) == s && RevScrolledTimes(s, 1) == RevScrolled(s);
      RowIgnoresMargins(RevScrolled(s), ReverseFed(s), r);
    }
  }

  /** The first tab stop after column x. */
  function TabStop(x: nat, tabSize: nat): (stop: nat)
    requires tabSize > 0
    ensures x < stop <= x + tabSize && stop % tabSize == 0
  {
    var k := x / tabSize;
    assert x == k * tabSize + x % tabSize;
    DivModUnique((k + 1) * tabSize, tabSize, k + 1, 0);
    (k + 1) * tabSize
  }

  /** A tab goes to the next stop, or to the last column if there is none in the row (to the first, should that
      stop not fit 31 bits). */
  lemma TabMeaning(s: Screen, tabSize: nat)
    requires Sane(s) && s.cols < 0x8000_0000 && 0 < tabSize <= 0x8000_0000
    ensures var at := CursorSeen(s);
            var stop := TabStop(at.x, tabSize);
            Tabbed(s, tabSize) == s.(cursor := Cursor(
              if stop < s.cols then stop
              else if stop >= 0x8000_0000 && at.x / tabSize + 1 < s.cols then 0
              else s.cols - 1, at.y))
  {
    var at := CursorSeen(s);
    ProductOrder(1, tabSize, at.x / tabSize + 1);
  }
}
