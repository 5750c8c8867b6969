/** The erasing and shifting control functions as operations on the array of cells. */
module LineEditing {
  import opened Bits
  import opened Arithmetic
  import opened Screen
  import opened TerminalSpec
  import opened BlankRuns

  predicate InGrid(s: Screen) {
    s.cursor.x < s.cols && s.cursor.y < s.rows
  }

  /** The cursor's position as it is reported: inside the grid, the last column while a wrap is pending. */
  function SeenAt(s: Screen): nat
    requires Sane(s)
  {
    At(s.cols, CursorSeen(s).x, CursorSeen(s).y)
  }

  lemma CursorStays(s: Screen, c: Cursor)
    requires Sane(s) && c.x < s.cols && c.y < s.rows
    ensures CursorSet(s, c.x, c.y) == s.(cursor := c)
  {
  }

  lemma SameWipe(s: Screen, t: Screen, r: Stretch, c: Cursor)
    requires Wiped(s, t, r)
    ensures Wiped(s, t.(cursor := c), r)
  {
  }

  // ---- erasing in display -------------------------------------------------------------------------

  /** What ED 0 covers: the rest of the cursor's row, nothing of it while a wrap is pending, and the rows
      from the next one (clamped) to the bottom margin or the last row below the column count. */
  function ToEnd(s: Screen): Stretch
    requires Sane(s)
  {
    var x, y, next := s.cursor.x, s.cursor.y, At(s.cols, 0, NextRow(s));
    Stretch(if y < s.rows then At(s.cols, x, y) else 0, if y < s.rows then At(s.cols, s.cols, y) else 0,
            next, if y + 1 < s.bottom then End(s) else next)
  }

  /** The counted loop runs long enough to cover all of that. */
  lemma ReachesEnd(s: Screen)
    requires Sane(s) && s.cursor.x <= s.cols
    ensures var at := CursorSeen(s); Reached(s, CellsAfter(s.cols, s.rows, at.x, at.y)) == ToEnd(s)
  {
    hide NextRow, Lowest, CellsAfter;
    var y, at := s.cursor.y, CursorSeen(s);
    var rest, n := Rest(s.cols, s.rows, at);
    if y + 1 < s.bottom {
      NextIs(s);
      LongEnough(s.cols, s.rows, y, NextRow(s), Lowest(s));
    }
  }

  /** The cells below the cursor's row, and all cells after the cursor. */
  lemma Rest(cols: nat, rows: nat, at: Cursor) returns (rest: nat, n: nat)
    requires at.x < cols && at.y < rows
    ensures n == CellsAfter(cols, rows, at.x, at.y) == rest + (cols - at.x)
    ensures rest == (rows - (at.y + 1)) * cols && (at.y + 1 < rows ==> rest >= cols)
  {
    var below: nat := rows - (at.y + 1);
    rest := At(cols, 0, below);
    n := CellsAfter(cols, rows, at.x, at.y);
    if below > 0 {
      ProductOrder(1, below, cols);
    }
  }

  lemma NextIs(s: Screen)
    requires Sane(s) && s.cursor.y + 1 < s.bottom
    ensures var y, next := s.cursor.y, NextRow(s);
            Lowest(s) <= s.rows && (next == y + 1 || (next + 1 == Lowest(s) && next <= y))
  {
  }

  lemma LongEnough(cols: nat, rows: nat, y: nat, next: nat, end: nat)
    requires y + 1 < rows && end <= rows && (next == y + 1 || (next + 1 == end && next <= y))
    ensures next * cols + (rows - (y + 1)) * cols >= end * cols
  {
    var rest: nat := rows - (y + 1);
    assert next * cols + rest * cols == (next + rest) * cols;
    ProductOrder(end, next + rest, cols);
  }

  /** ED 0 on any screen: exactly which cells it blanks; the cursor ends where it was reported. */
  lemma EraseToEndCells(s: Screen)
    requires Sane(s) && !s.scrollEnabled && s.cursor.x <= s.cols
    ensures var t := Erased(s, CursorSeen(s), 0);
            Wiped(s, t, ToEnd(s)) && t.cursor == CursorSeen(s)
  {
    hide At, CharsPut, CellsAfter, ToEnd, Reached, Wiped, CursorSeen;
    var at := CursorSeen(s);
    var n := CellsAfter(s.cols, s.rows, at.x, at.y);
    RunCells(s, n);
    ReachesEnd(s);
    CursorStays(CharsPut(s, 0x20, n), at);
    SameWipe(s, CharsPut(s, 0x20, n), ToEnd(s), at);
  }

  /** ED 0 (ECMA-48 section 8.3.39) blanks exactly the cells at or after the reported cursor if and only if
      every cell it misses, and every one it blanks besides, was blank already. */
  lemma EraseToEndIff(s: Screen)
    requires Sane(s) && !s.scrollEnabled && s.cursor.x <= s.cols
    ensures Blanks(s, Erased(s, CursorSeen(s), 0), SeenAt(s), s.rows * s.cols) <==>
      forall i :: 0 <= i < |s.cells| && Covers(ToEnd(s), i) != (SeenAt(s) <= i) ==> s.cells[i] == Blank(s)
  {
    hide Erased, ToEnd, CursorSeen, At;
    EraseToEndCells(s);
    WipedIsBlanksIff(s, Erased(s, CursorSeen(s), 0), ToEnd(s), SeenAt(s), s.rows * s.cols);
  }

  /** When that is every full screen: no wrap is pending, the cursor is in the grid, and it is on the last
      row, or the region reaches the last row and there are no more rows than columns. */
  predicate ErasesToEnd(s: Screen) {
    InGrid(s) && (s.cursor.y + 1 == s.rows || (s.bottom == s.rows && s.rows <= s.cols))
  }

  lemma EraseToEndGuard(s: Screen)
    requires Sane(s) && !s.scrollEnabled && s.cursor.x <= s.cols && Full(s)
    ensures Blanks(s, Erased(s, CursorSeen(s), 0), SeenAt(s), s.rows * s.cols) <==> ErasesToEnd(s)
  {
    hide Erased, ToEnd, CursorSeen, At;
    EraseToEndCells(s);
    FullIff(s, Erased(s, CursorSeen(s), 0), ToEnd(s), SeenAt(s), s.rows * s.cols);
    if ErasesToEnd(s) {
      CoversToEnd(s);
    } else {
      var _ := MissesSome(s);
    }
  }

  lemma CoversToEnd(s: Screen)
    requires Sane(s) && ErasesToEnd(s)
    ensures forall i :: 0 <= i < |s.cells| ==> (Covers(ToEnd(s), i) <==> SeenAt(s) <= i < s.rows * s.cols)
  {
    OneMoreRow(s.cursor.y, s.cols);
  }

  /** Otherwise the last cell of the cursor's row, or of the grid, is not reached. */
  lemma MissesSome(s: Screen) returns (i: nat)
    requires Sane(s) && s.cursor.x <= s.cols && !ErasesToEnd(s)
    ensures i < |s.cells| && SeenAt(s) <= i && !Covers(ToEnd(s), i)
  {
    if s.cursor.y + 1 < s.rows && Lowest(s) < s.rows && (InGrid(s) || s.cursor.y + 1 < s.bottom) &&
       (InGrid(s) || s.cols < s.bottom) {
      i := MissesLast(s);
    } else {
      i := MissesRowEnd(s);
    }
  }

  lemma MissesLast(s: Screen) returns (i: nat)
    requires Sane(s) && s.cursor.x <= s.cols && s.cursor.y + 1 < s.rows && Lowest(s) < s.rows
    ensures i < |s.cells| && SeenAt(s) <= i && !Covers(ToEnd(s), i)
  {
    var y, last := s.cursor.y, s.rows - 1;
    i := At(s.cols, s.cols - 1, last);
    OneMoreRow(last, s.cols);
    ProductOrder(y, last, s.cols);
    ProductOrder(Lowest(s), last, s.cols);
  }

  lemma MissesRowEnd(s: Screen) returns (i: nat)
    requires Sane(s) && s.cursor.x <= s.cols && !InGrid(s)
    requires s.cursor.y + 1 < s.bottom ==> s.bottom <= s.cols
    ensures i < |s.cells| && SeenAt(s) <= i && !Covers(ToEnd(s), i)
  {
    var y := CursorSeen(s).y;
    i := At(s.cols, s.cols - 1, y);
    AtInRange(s.cols, s.rows, s.cols - 1, y);
    OneMoreRow(y, s.cols);
  }

  /** No wrap of the run is disturbed by the clamp of the cursor row against the column count. */
  predicate WrapsFreely(s: Screen) {
    s.rows <= s.cols || s.cursor.y == s.rows - 1
  }

  /** So with the full-screen region, no more rows than columns and the cursor in the grid it is exact. */
  lemma EraseToEndExact(s: Screen)
    requires Sane(s) && InGrid(s) && !s.scrollEnabled && s.bottom == s.rows && WrapsFreely(s)
    ensures var t := Erased(s, s.cursor, 0);
            Blanks(s, t, CursorAt(s), s.rows * s.cols) && t.cursor == s.cursor
  {
    hide Erased, ToEnd, At;
    EraseToEndCells(s);
    CoversToEnd(s);
    EraseToEndIff(s);
  }

  /** ED 1 on any screen: the cells up to and including the reported cursor, as far as the rows below the
      bottom margin and the column count go. */
  lemma EraseToCursorCells(s: Screen)
    requires Sane(s) && !s.scrollEnabled
    ensures var t := Erased(s, CursorSeen(s), 1);
            Blanks(s, t, 0, Min(SeenAt(s) + 1, End(s))) && t.cursor == CursorSeen(s)
  {
    hide CharsPut, CursorSeen, Lowest, Blanks;
    var at, home := CursorSeen(s), CursorSet(s, 0, 0);
    CursorStays(s, Cursor(0, 0));
    HomeIsLow(s);
    BlankRun(home, CellsUpTo(s.cols, at.x, at.y));
    var t := CharsPut(home, 0x20, CellsUpTo(s.cols, at.x, at.y));
    SameBase(s, home, t, 0, Min(SeenAt(s) + 1, End(s)));
    CursorStays(t, at);
    SameBlanks(s, t, t.(cursor := at), 0, Min(SeenAt(s) + 1, End(s)));
  }

  lemma HomeIsLow(s: Screen)
    requires Sane(s)
    ensures 0 < Lowest(s) && Lowest(s) == Lowest(CursorSet(s, 0, 0)) && At(s.cols, 0, 0) == 0
  {
  }

  /** ED 1 is the erase up to the cursor if and only if the rows it does not get to are blank already. */
  lemma EraseToCursorIff(s: Screen)
    requires Sane(s) && !s.scrollEnabled
    ensures Blanks(s, Erased(s, CursorSeen(s), 1), 0, SeenAt(s) + 1) <==>
      forall i :: 0 <= i < |s.cells| && End(s) <= i <= SeenAt(s) ==> s.cells[i] == Blank(s)
  {
    hide Erased, CursorSeen, At, Lowest;
    EraseToCursorCells(s);
    var t, end := Erased(s, CursorSeen(s), 1), End(s);
    WipedIsBlanksIff(s, t, Stretch(0, Min(SeenAt(s) + 1, end), 0, 0), 0, SeenAt(s) + 1);
  }

  // ---- erasing in line ------------------------------------------------------------------------------

  /** EL 1 blanks the cells before the reported cursor, not the cursor's own; EL 2 the whole row; both leave
      the cursor where it was reported. */
  lemma EraseLineExact(s: Screen, v: nat)
    requires Sane(s) && (v == 1 || v == 2)
    ensures var t := LineErased(s, CursorSeen(s), v);
            var start := At(s.cols, 0, CursorSeen(s).y);
            t.cursor == CursorSeen(s) && Blanks(s, t, start, if v == 1 then SeenAt(s) else start + s.cols)
  {
    hide At, CharsPut, CursorSeen, Blanks;
    var at := CursorSeen(s);
    AtNext(s.cols, 0, at.x, at.y);
    CursorStays(s, Cursor(0, at.y));
    var home, n := s.(cursor := Cursor(0, at.y)), if v == 1 then at.x else s.cols;
    BlankRow(home, n);
    var t := CharsPut(home, 0x20, n);
    SameBase(s, home, t, CursorAt(home), CursorAt(home) + n);
    CursorStays(t, at);
    SameBlanks(s, t, t.(cursor := at), CursorAt(home), CursorAt(home) + n);
  }

  /** EL 1 is the erase up to and including the cursor (ECMA-48 section 8.3.41) if and only if the cursor's cell
      was blank already. */
  lemma EraseLineStartIff(s: Screen)
    requires Sane(s)
    ensures var start := At(s.cols, 0, CursorSeen(s).y);
            SeenAt(s) < |s.cells| &&
            (Blanks(s, LineErased(s, CursorSeen(s), 1), start, SeenAt(s) + 1) <==> s.cells[SeenAt(s)] == Blank(s))
  {
    hide LineErased, CursorSeen;
    EraseLineExact(s, 1);
    var at, t := CursorSeen(s), LineErased(s, CursorSeen(s), 1);
    AtInRange(s.cols, s.rows, at.x, at.y);
    WipedIsBlanksIff(s, t, Stretch(At(s.cols, 0, at.y), SeenAt(s), 0, 0), At(s.cols, 0, at.y), SeenAt(s) + 1);
  }

  /** EL 0 on any screen: the rest of the cursor's row; while a wrap is pending, the first cell of the row the
      wrap goes to instead. */
  lemma EraseLineEndCells(s: Screen)
    requires Sane(s) && !s.scrollEnabled && s.cursor.x <= s.cols
    ensures var t := LineErased(s, CursorSeen(s), 0);
            Wiped(s, t, Reached(s, s.cols - CursorSeen(s).x)) && t.cursor == CursorSeen(s)
    ensures var r, x, y := Reached(s, s.cols - CursorSeen(s).x), s.cursor.x, s.cursor.y;
            if x == s.cols && y + 1 < s.bottom then
              r.from == r.to && r.nextTo == r.nextFrom + 1 == At(s.cols, 0, NextRow(s)) + 1
            else r.nextFrom == r.nextTo && (x == s.cols || y >= s.rows ==> r.from == r.to)
                 && (InGrid(s) ==> r.from == SeenAt(s) && r.to == At(s.cols, 0, y) + s.cols)
  {
    var at := CursorSeen(s);
    RunCells(s, s.cols - at.x);
    NextCell(s);
    hide At, CharsPut, Wiped;
    CursorStays(CharsPut(s, 0x20, s.cols - at.x), at);
    SameWipe(s, CharsPut(s, 0x20, s.cols - at.x), Reached(s, s.cols - at.x), at);
  }

  /** There is a cell at the start of the row a wrap goes to. */
  lemma NextCell(s: Screen)
    requires Sane(s)
    ensures s.cursor.y + 1 < s.bottom ==> At(s.cols, 0, NextRow(s)) + s.cols <= End(s)
  {
    if s.cursor.y + 1 < s.bottom {
      ProductOrder(NextRow(s), Lowest(s), s.cols);
    }
  }

  /** EL 0 is the erase to the end of the reported cursor's row if and only if what it misses, and what it blanks
      in the next row, was blank already. */
  lemma EraseLineEndIff(s: Screen)
    requires Sane(s) && !s.scrollEnabled && s.cursor.x <= s.cols
    ensures var r, end := Reached(s, s.cols - CursorSeen(s).x), At(s.cols, 0, CursorSeen(s).y) + s.cols;
            Blanks(s, LineErased(s, CursorSeen(s), 0), SeenAt(s), end) <==>
            forall i :: 0 <= i < |s.cells| && Covers(r, i) != (SeenAt(s) <= i < end) ==> s.cells[i] == Blank(s)
  {
    hide LineErased, CursorSeen, At, Reached;
    EraseLineEndCells(s);
    WipedIsBlanksIff(s, LineErased(s, CursorSeen(s), 0), Reached(s, s.cols - CursorSeen(s).x), SeenAt(s),
                     At(s.cols, 0, CursorSeen(s).y) + s.cols);
  }

  /** On a full screen: exactly when no wrap is pending and the cursor is in the grid (or the one column of the
      screen makes the wrap come back to the cursor's cell). */
  lemma EraseLineEndGuard(s: Screen)
    requires Sane(s) && !s.scrollEnabled && s.cursor.x <= s.cols && Full(s)
    ensures Blanks(s, LineErased(s, CursorSeen(s), 0), SeenAt(s), At(s.cols, 0, CursorSeen(s).y) + s.cols) <==>
      InGrid(s) || (s.cols == 1 && s.cursor.y == 0 && s.bottom > 1)
  {
    hide LineErased, Reached;
    var at, r := CursorSeen(s), Reached(s, s.cols - CursorSeen(s).x);
    EraseLineEndCells(s);
    FullIff(s, LineErased(s, at, 0), r, SeenAt(s), At(s.cols, 0, at.y) + s.cols);
    AtInRange(s.cols, s.rows, at.x, at.y);
    if !InGrid(s) && Covers(r, SeenAt(s)) {
      FirstOfNext(s);
    }
  }

  lemma FirstOfNext(s: Screen)
    requires Sane(s) && s.cursor.x == s.cols && s.cursor.y + 1 < s.bottom && SeenAt(s) == At(s.cols, 0, NextRow(s))
    ensures s.cols == 1 && s.cursor.y == 0
  {
    AtUnique(s.cols, 0, NextRow(s));
    AtUnique(s.cols, s.cols - 1, s.cursor.y);
  }

  // ---- erasing characters ---------------------------------------------------------------------------

  /** ECH n on any screen: min(n, cols) cells from the cursor, going on into the next row when the row ends. */
  lemma EraseCharactersCells(s: Screen, n: nat)
    requires Sane(s) && !s.scrollEnabled && s.cursor.x <= s.cols
    ensures var t := CharsErased(s, CursorSeen(s), n);
            Wiped(s, t, Reached(s, Min(n, s.cols))) && t.cursor == CursorSeen(s)
  {
    hide At, CharsPut, CursorSeen, Reached, Wiped;
    var k, at := Min(n, s.cols), CursorSeen(s);
    RunCells(s, k);
    CursorStays(CharsPut(s, 0x20, k), at);
    SameWipe(s, CharsPut(s, 0x20, k), Reached(s, k), at);
  }

  /** Where ECH n (ECMA-48 section 8.3.38) should end: n characters on, or at the end of the row. */
  function EraseTo(s: Screen, n: nat): nat
    requires Sane(s)
  {
    At(s.cols, Min(CursorSeen(s).x + n, s.cols), CursorSeen(s).y)
  }

  lemma EraseCharactersIff(s: Screen, n: nat)
    requires Sane(s) && !s.scrollEnabled && s.cursor.x <= s.cols
    ensures Blanks(s, CharsErased(s, CursorSeen(s), n), SeenAt(s), EraseTo(s, n)) <==>
      forall i :: 0 <= i < |s.cells| && Covers(Reached(s, Min(n, s.cols)), i) != (SeenAt(s) <= i < EraseTo(s, n)) ==>
        s.cells[i] == Blank(s)
  {
    hide CharsErased, CursorSeen, At, Reached, EraseTo;
    EraseCharactersCells(s, n);
    WipedIsBlanksIff(s, CharsErased(s, CursorSeen(s), n), Reached(s, Min(n, s.cols)), SeenAt(s), EraseTo(s, n));
  }

  /** With the cursor in the grid and the n characters in its row, or no row to go on in, ECH stays in the row. */
  lemma EraseCharactersExact(s: Screen, n: nat)
    requires Sane(s) && InGrid(s) && !s.scrollEnabled &&
      (s.cursor.x + Min(n, s.cols) <= s.cols || s.cursor.y + 1 >= s.bottom)
    ensures Blanks(s, CharsErased(s, CursorSeen(s), n), SeenAt(s), EraseTo(s, n))
  {
    hide CharsErased;
    EraseCharactersCells(s, n);
  }

  // ---- inserting and deleting ------------------------------------------------------------------

  /** Cell j of row y. */
  function CellIn(s: Screen, y: nat, j: nat): Cell
    requires Sane(s) && y < s.rows && j < s.cols
  {
    AtInRange(s.cols, s.rows, j, y);
    s.cells[At(s.cols, j, y)]
  }

  /** Rows other than y are the same. */
  ghost predicate OtherRowsKept(s: Screen, t: Screen, y: nat) {
    Sane(s) && Sane(t) && t.cols == s.cols && t.rows == s.rows && t.fg == s.fg && t.bg == s.bg &&
    forall z, j :: 0 <= z < s.rows && z != y && 0 <= j < s.cols ==> CellIn(t, z, j) == CellIn(s, z, j)
  }

  /** One Put, seen by row and column. */
  lemma PutCells(s: Screen, x: nat, y: nat, c: Cell)
    requires Sane(s) && x < s.cols && y < s.rows
    ensures var t := Put(s, x, y, c);
            OtherRowsKept(s, t, y) && forall j {:trigger CellIn(t, y, j)} :: 0 <= j < s.cols ==>
              CellIn(t, y, j) == if j == x then c else CellIn(s, y, j)
  {
    hide At;
    var t := Put(s, x, y, c);
    AtInRange(s.cols, s.rows, x, y);
    forall z, j | 0 <= z < s.rows && 0 <= j < s.cols
      ensures CellIn(t, z, j) == if z == y && j == x then c else CellIn(s, z, j)
    {
      AtInRange(s.cols, s.rows, j, z);
      AtUnique(s.cols, j, z);
      AtUnique(s.cols, x, y);
    }
  }

  lemma MoveCells(s: Screen, y: nat, n: nat, i: nat)
    requires Sane(s) && i < s.cols && y < s.rows
    ensures var m := CharMoved(s, i + n, y, i, y);
            OtherRowsKept(s, m, y) &&
            forall j {:trigger CellIn(m, y, j)} :: 0 <= j < s.cols ==>
              CellIn(m, y, j) == if j == i + n then CellIn(s, y, i) else CellIn(s, y, j)
  {
    hide At, Put;
    if i + n < s.cols {
      PutCells(s, i + n, y, CellIn(s, y, i));
    }
  }

  lemma BlankHere(u: Screen)
    requires Sane(u) && u.cursor.x < u.cols && u.cursor.y < u.rows
    ensures var w := CharPut(u, 0x20);
            OtherRowsKept(u, w, u.cursor.y) &&
            forall j {:trigger CellIn(w, u.cursor.y, j)} :: 0 <= j < u.cols ==>
              CellIn(w, u.cursor.y, j) == if j == u.cursor.x then Blank(u) else CellIn(u, u.cursor.y, j)
  {
    hide At, Put, CellIn;
    PutCells(u, u.cursor.x, u.cursor.y, Blank(u));
    var p := Put(u, u.cursor.x, u.cursor.y, Blank(u));
    SameCells(p, p.(cursor := Cursor(u.cursor.x + 1, u.cursor.y)));
  }

  /** The step of the insert loop at column i: cell i moves n to the right (if that is in the row) and
      a blank takes its place. */
  lemma InsertStep(s: Screen, y: nat, n: nat, i: nat)
    requires Sane(s) && i < s.cols && y < s.rows
    ensures var w := CharPut(CursorSet(CharMoved(s, i + n, y, i, y), i, y), 0x20);
            OtherRowsKept(s, w, y) &&
            forall j {:trigger CellIn(w, y, j)} :: 0 <= j < s.cols ==>
              CellIn(w, y, j) == if j == i then Blank(s) else if j == i + n then CellIn(s, y, i) else CellIn(s, y, j)
  {
    hide At, Put, CellIn, CharMoved, CharPut;
    MoveCells(s, y, n, i);
    var m := CharMoved(s, i + n, y, i, y);
    MoveKeeps(s, i + n, y, i, y);
    CursorStays(m, Cursor(i, y));
    var u := m.(cursor := Cursor(i, y));
    SameCells(m, u);
    BlankHere(u);
  }

  /** What column j of the row holds once the insert loop has run from column i down to x. */
  function AfterInsert(s: Screen, x: nat, y: nat, n: nat, i: nat, j: nat): Cell
    requires Sane(s) && y < s.rows && j < s.cols && i < s.cols
  {
    if x <= j <= i then (if n > 0 && j >= x + n then CellIn(s, y, j - n) else Blank(s))
    else if n > 0 && j > i && x <= j - n <= i then CellIn(s, y, j - n)
    else CellIn(s, y, j)
  }

  lemma {:induction false} InsertLoop(s: Screen, x: nat, y: nat, n: nat, i: nat)
    requires Sane(s) && x <= i < s.cols && y < s.rows
    ensures var t := Inserted(s, x, y, n, i);
            OtherRowsKept(s, t, y) &&
            forall j {:trigger CellIn(t, y, j)} :: 0 <= j < s.cols ==> CellIn(t, y, j) == AfterInsert(s, x, y, n, i, j)
    decreases i
  {
    hide At, CharPut, CharMoved, CursorSet, CellIn;
    InsertStep(s, y, n, i);
    MoveKeeps(s, i + n, y, i, y);
    var w := CharPut(CursorSet(CharMoved(s, i + n, y, i, y), i, y), 0x20);
    if i == x {
    } else {
      InsertLoop(w, x, y, n, i - 1);
    }
  }

  /** ICH n for n >= 1 (ECMA-48 section 8.3.64), on any screen: the row from the reported cursor on moves right
      by n, n blanks come in, and everything else stays. ICH 0 blanks the rest of the row. */
  lemma InsertCharactersExact(s: Screen, n: nat)
    requires Sane(s)
    ensures var x, y := CursorSeen(s).x, CursorSeen(s).y;
            var t := CursorSet(Inserted(s, x, y, n, s.cols - 1), x, y);
            t.cursor == CursorSeen(s) && OtherRowsKept(s, t, y) &&
            forall j {:trigger CellIn(t, y, j)} :: 0 <= j < s.cols ==>
              CellIn(t, y, j) ==
                if j < x then CellIn(s, y, j) else if n == 0 || j < x + n then Blank(s) else CellIn(s, y, j - n)
  {
    hide At, Inserted, CursorSeen;
    var at := CursorSeen(s);
    var x, y := at.x, at.y;
    InsertLoop(s, x, y, n, s.cols - 1);
    var u := Inserted(s, x, y, n, s.cols - 1);
    CursorStays(u, at);
    SameCells(u, u.(cursor := at));
    forall j | 0 <= j < s.cols
      ensures CellIn(u, y, j) ==
        if j < x then CellIn(s, y, j) else if n == 0 || j < x + n then Blank(s) else CellIn(s, y, j - n)
    {
      assert CellIn(u, y, j) == AfterInsert(s, x, y, n, s.cols - 1, j);
    }
  }

  /** The insertion ECMA-48 means, of no characters too, exactly when there are some or the row's rest is blank. */
  lemma InsertIsShiftIff(s: Screen, n: nat)
    requires Sane(s)
    ensures var x, y := CursorSeen(s).x, CursorSeen(s).y;
            var t := CursorSet(Inserted(s, x, y, n, s.cols - 1), x, y);
            (forall j {:trigger CellIn(t, y, j)} :: 0 <= j < s.cols ==>
               CellIn(t, y, j) ==
                 if j < x then CellIn(s, y, j) else if j < x + n then Blank(s) else CellIn(s, y, j - n))
            <==> n >= 1 || forall j :: x <= j < s.cols ==> CellIn(s, y, j) == Blank(s)
  {
    hide At, Inserted, CursorSeen, CellIn;
    InsertCharactersExact(s, n);
    var x, y := CursorSeen(s).x, CursorSeen(s).y;
    var t := CursorSet(Inserted(s, x, y, n, s.cols - 1), x, y);
    if n == 0 && forall j {:trigger CellIn(t, y, j)} :: 0 <= j < s.cols ==>
         CellIn(t, y, j) == if j < x then CellIn(s, y, j) else if j < x + n then Blank(s) else CellIn(s, y, j - n) {
      forall j | x <= j < s.cols ensures CellIn(s, y, j) == Blank(s) {
        assert CellIn(t, y, j) == Blank(s);
      }
    }
  }

  lemma SameCells(s: Screen, t: Screen)
    requires Sane(s) && t == s.(cursor := t.cursor)
    ensures Sane(t) && forall y, j :: 0 <= y < s.rows && 0 <= j < s.cols ==> CellIn(t, y, j) == CellIn(s, y, j)
  {
  }

  lemma {:induction false} PullLoop(s: Screen, y: nat, n: nat, i: nat)
    requires Sane(s) && y < s.rows && n <= i
    ensures var t := PulledLeft(s, y, n, i);
            OtherRowsKept(s, t, y) &&
            forall j {:trigger CellIn(t, y, j)} :: 0 <= j < s.cols ==>
              CellIn(t, y, j) == if i <= j + n < s.cols then CellIn(s, y, j + n) else CellIn(s, y, j)
    decreases if i < s.cols then s.cols - i else 0
  {
    hide At, Put, CellIn;
    if i >= s.cols {
    } else {
      PullStep(s, y, n, i);
      PullLoop(CharMoved(s, i - n, y, i, y), y, n, i + 1);
    }
  }

  lemma PullStep(s: Screen, y: nat, n: nat, i: nat)
    requires Sane(s) && y < s.rows && n <= i < s.cols
    ensures var w := CharMoved(s, i - n, y, i, y);
            OtherRowsKept(s, w, y) &&
            forall j {:trigger CellIn(w, y, j)} :: 0 <= j < s.cols ==>
              CellIn(w, y, j) == if j == i - n then CellIn(s, y, i) else CellIn(s, y, j)
  {
    hide At, Put;
    PutCells(s, i - n, y, CellIn(s, y, i));
  }

  /** Blanking n cells from column x of row y, by row and column. */
  lemma BlankRowCells(s: Screen, n: nat)
    requires Sane(s) && s.cursor.y < s.rows && s.cursor.x + n <= s.cols
    ensures var t := CharsPut(s, 0x20, n);
            OtherRowsKept(s, t, s.cursor.y) &&
            forall j {:trigger CellIn(t, s.cursor.y, j)} :: 0 <= j < s.cols ==>
              CellIn(t, s.cursor.y, j) ==
                if s.cursor.x <= j < s.cursor.x + n then Blank(s) else CellIn(s, s.cursor.y, j)
  {
    hide At, CharsPut;
    BlankRow(s, n);
    var t := CharsPut(s, 0x20, n);
    forall z, j | 0 <= z < s.rows && 0 <= j < s.cols
      ensures CellIn(t, z, j) ==
        if z == s.cursor.y && s.cursor.x <= j < s.cursor.x + n then Blank(s) else CellIn(s, z, j)
    {
      PositionInRow(s.cols, s.rows, s.cursor.x, s.cursor.y, n, j, z);
    }
  }

  lemma PositionInRow(cols: nat, rows: nat, x: nat, y: nat, n: nat, j: nat, z: nat)
    requires x + n <= cols && y < rows && z < rows && j < cols
    ensures At(cols, j, z) < rows * cols
    ensures At(cols, x, y) <= At(cols, j, z) < At(cols, x, y) + n <==> z == y && x <= j < x + n
  {
    AtInRange(cols, rows, j, z);
    if z < y {
      ProductOrder(z, y, cols);
    } else if y < z {
      ProductOrder(y, z, cols);
    }
  }

  /** DCH n (ECMA-48 section 8.3.26), n at most a row's worth, on any screen: with the n characters in the row,
      the rest of the row moves left and n blanks come in at its end. Otherwise everything from column
      cols - n on is blanked, including what stood before the cursor. */
  lemma DeleteCharactersExact(s: Screen, n: nat)
    requires Sane(s) && n <= s.cols < 0x8000_0000
    ensures var at, t := CursorSeen(s), Deleted(s, CursorSeen(s), n);
            t.cursor == at && OtherRowsKept(s, t, at.y) &&
            forall j {:trigger CellIn(t, at.y, j)} :: 0 <= j < s.cols ==>
              CellIn(t, at.y, j) ==
                if j >= s.cols - n then Blank(s) else if j < at.x then CellIn(s, at.y, j) else CellIn(s, at.y, j + n)
  {
    hide At, CharsPut, PulledLeft, CellIn, CursorSet, CursorSeen;
    var at := CursorSeen(s);
    var x, y := at.x, at.y;
    PullLoop(s, y, n, x + n);
    var p := PulledLeft(s, y, n, x + n);
    var u := CursorSet(p, ColumnsLess(s.cols, n), y);
    SameCells(p, u);
    TailStart(p, y, n);
    if n > 0 {
      BlankRowCells(u, n);
    } else {
      NoPut(u);
    }
    var b := CharsPut(u, 0x20, n);
    CursorStays(b, at);
    SameCells(b, b.(cursor := at));
  }

  /** The column a DCH of more than a row's worth starts erasing at: `cols - n` in 64 bits, clamped. */
  function BeyondColumn(s: Screen, n: nat): nat
    requires Sane(s)
  {
    if n - s.cols <= 0x8000_0000 then 0 else s.cols - 1
  }

  /** DCH n for more than a row's worth: a row's worth of blanks from that column, on into the next row if it is
      the last column. */
  lemma DeleteBeyondCells(s: Screen, n: nat)
    requires Sane(s) && !s.scrollEnabled && s.cols < n < U32
    ensures var from := s.(cursor := Cursor(BeyondColumn(s, n), CursorSeen(s).y));
            var t := Deleted(s, CursorSeen(s), n);
            Wiped(s, t, Reached(from, s.cols)) && t.cursor == CursorSeen(s)
  {
    hide At, CharsPut, CursorSeen, Reached, Wiped;
    var at := CursorSeen(s);
    var from := s.(cursor := Cursor(BeyondColumn(s, n), at.y));
    BeyondStart(s, n, at);
    RunCells(from, s.cols);
    var t := CharsPut(from, 0x20, s.cols);
    WipeFrom(s, from, t, Reached(from, s.cols));
    CursorStays(t, at);
    SameWipe(s, t, Reached(from, s.cols), at);
  }

  lemma WipeFrom(s: Screen, from: Screen, t: Screen, r: Stretch)
    requires from == s.(cursor := from.cursor) && Wiped(from, t, r)
    ensures Wiped(s, t, r)
  {
  }

  lemma BeyondStart(s: Screen, n: nat, at: Cursor)
    requires Sane(s) && s.cols < n < U32 && at.x < s.cols && at.y < s.rows
    ensures CursorSet(PulledLeft(s, at.y, n, at.x + n), ColumnsLess(s.cols, n), at.y)
            == s.(cursor := Cursor(BeyondColumn(s, n), at.y))
  {
    var v := ColumnsLess(s.cols, n);
    assert v % U32 == U32 - (n - s.cols);
  }

  /** So it is the delete that is meant exactly when the cells outside the rest of the row that it blanks, and those
      inside that it misses, were blank already. */
  lemma DeleteBeyondIff(s: Screen, n: nat)
    requires Sane(s) && !s.scrollEnabled && s.cols < n < U32
    ensures var r := Reached(s.(cursor := Cursor(BeyondColumn(s, n), CursorSeen(s).y)), s.cols);
            var end := At(s.cols, 0, CursorSeen(s).y) + s.cols;
            Blanks(s, Deleted(s, CursorSeen(s), n), SeenAt(s), end) <==>
            forall i :: 0 <= i < |s.cells| && Covers(r, i) != (SeenAt(s) <= i < end) ==> s.cells[i] == Blank(s)
  {
    hide Deleted, CursorSeen, At, Reached, BeyondColumn;
    DeleteBeyondCells(s, n);
    WipedIsBlanksIff(s, Deleted(s, CursorSeen(s), n),
                     Reached(s.(cursor := Cursor(BeyondColumn(s, n), CursorSeen(s).y)), s.cols),
                     SeenAt(s), At(s.cols, 0, CursorSeen(s).y) + s.cols);
  }

  lemma TailStart(p: Screen, y: nat, n: nat)
    requires Sane(p) && y < p.rows && n <= p.cols < 0x8000_0000
    ensures CursorSet(p, ColumnsLess(p.cols, n), y).cursor == Cursor(if n > 0 then p.cols - n else p.cols - 1, y)
  {
  }

  lemma NoPut(s: Screen)
    requires Sane(s)
    ensures CharsPut(s, 0x20, 0) == s
  {
  }

  ghost predicate RowKept(s: Screen, t: Screen, y: nat) {
    Sane(s) && Sane(t) && t.cols == s.cols && t.rows == s.rows && y < s.rows &&
    forall j :: 0 <= j < s.cols ==> CellIn(t, y, j) == CellIn(s, y, j)
  }

  /** On a display with more rows than columns the clamp keeps the run out of the last row, unless it
      starts there: whatever that row shows survives. */
  lemma {:induction false} ClampProtectsLastRow(s: Screen, n: nat)
    requires Sane(s) && !s.scrollEnabled && s.bottom == s.rows && s.rows > s.cols && s.cursor.y + 1 < s.rows
    ensures var t := CharsPut(s, 0x20, n);
            t.cursor.y + 1 < s.rows && RowKept(s, t, s.rows - 1)
  {
    hide At, CharPut, CellIn;
    if n == 0 {
    } else {
      ClampProtectsLastRow(s, n - 1);
      ClampedPut(CharsPut(s, 0x20, n - 1));
    }
  }

  lemma ClampedPut(s: Screen)
    requires Sane(s) && !s.scrollEnabled && s.bottom == s.rows && s.rows > s.cols && s.cursor.y + 1 < s.rows
    ensures var t := CharPut(s, 0x20);
            t.cursor.y + 1 < s.rows && RowKept(s, t, s.rows - 1)
  {
    hide At, Put, Scrolled, CellIn;
    var w := Wrapped(s);
    assert w == s.(cursor := w.cursor) && w.cursor.y + 1 < s.rows;
    SameCells(s, w);
    if w.cursor.x < w.cols {
      PutCells(w, w.cursor.x, w.cursor.y, Blank(w));
    } else {
      PutOutside(w, w.cursor.x, w.cursor.y, Blank(w));
    }
    var p := Put(w, w.cursor.x, w.cursor.y, Blank(w));
    SameCells(p, p.(cursor := Cursor(w.cursor.x + 1, w.cursor.y)));
  }

  lemma PutOutside(s: Screen, x: nat, y: nat, c: Cell)
    requires Sane(s) && (x >= s.cols || y >= s.rows)
    ensures Put(s, x, y, c) == s
  {
  }

  /** The shift that deleting n characters at column x means: t's row y against s's. */
  ghost predicate ShiftedLeft(s: Screen, t: Screen, x: nat, y: nat, n: nat)
    requires Sane(s) && Sane(t) && t.cols == s.cols && t.rows == s.rows && y < s.rows
  {
    forall j {:trigger CellIn(t, y, j)} :: 0 <= j < s.cols ==>
      CellIn(t, y, j) == if j < x then CellIn(s, y, j) else if j + n < s.cols then CellIn(s, y, j + n) else Blank(s)
  }

  /** So a delete of at most a row's worth is the shift ECMA-48 describes exactly when the n characters are all in
      the row, or the cells before the cursor that it reaches are blank already. */
  lemma DeleteIsShiftIff(s: Screen, n: nat)
    requires Sane(s) && n <= s.cols < 0x8000_0000
    ensures var x, y, t := CursorSeen(s).x, CursorSeen(s).y, Deleted(s, CursorSeen(s), n);
            ShiftedLeft(s, t, x, y, n) <==>
              x + n <= s.cols || forall j :: s.cols - n <= j < x ==> CellIn(s, y, j) == Blank(s)
  {
    hide At, CellIn, Deleted, CursorSeen;
    DeleteCharactersExact(s, n);
    var x, y, t := CursorSeen(s).x, CursorSeen(s).y, Deleted(s, CursorSeen(s), n);
    if x + n > s.cols {
      if ShiftedLeft(s, t, x, y, n) {
        forall j | s.cols - n <= j < x ensures CellIn(s, y, j) == Blank(s) {
          assert CellIn(t, y, j) == Blank(s);
        }
      }
    }
  }

  // ---- printing ------------------------------------------------------------------------------------------

  /** Insert mode, on any screen: the cells from the reported cursor on move right by one, the last one is lost,
      the cursor's own stays until the character is printed over it. */
  lemma {:induction false} PushedRightLoop(s: Screen, x: nat, y: nat, i: nat)
    requires Sane(s) && x <= i < s.cols && y < s.rows
    ensures var t := PushedRight(s, x, y, i);
            OtherRowsKept(s, t, y) &&
            forall j {:trigger CellIn(t, y, j)} :: 0 <= j < s.cols ==>
              CellIn(t, y, j) == if x < j <= i + 1 then CellIn(s, y, j - 1) else CellIn(s, y, j)
    decreases i
  {
    hide At, CharMoved, CellIn;
    MoveCells(s, y, 1, i);
    MoveKeeps(s, i + 1, y, i, y);
    if i == x {
    } else {
      PushedRightLoop(CharMoved(s, i + 1, y, i, y), x, y, i - 1);
    }
  }

  lemma PushedRightExact(s: Screen)
    requires Sane(s)
    ensures var at := CursorSeen(s);
            var t := PushedRight(s, at.x, at.y, s.cols - 1);
            OtherRowsKept(s, t, at.y) &&
            forall j {:trigger CellIn(t, at.y, j)} :: 0 <= j < s.cols ==>
              CellIn(t, at.y, j) == if at.x < j then CellIn(s, at.y, j - 1) else CellIn(s, at.y, j)
  {
    hide At, CellIn, CursorSeen;
    PushedRightLoop(s, CursorSeen(s).x, CursorSeen(s).y, s.cols - 1);
  }

  /** With a wrap pending, what a character does is what it does after the wrap. */
  lemma PutWrapped(u: Screen, c: Byte)
    requires Sane(u) && Wrapped(u).cursor.x < u.cols
    ensures CharPut(u, c) == CharPut(Wrapped(u), c)
  {
    hide Put, Scrolled;
  }

  /** A decoded code point whose cells fit the row: its glyph, or the replacement character and blanks up to its
      width; the cursor moves past it, and no other cell changes. */
  lemma CodePointCells(k: Config, s: Screen, cp: nat)
    requires Sane(s) && ConfigOk(k) && InGrid(s)
    requires s.cursor.x + (if k.cp437(cp) != -1 then 1 else k.width(cp)) <= s.cols
    ensures var x, y, t := s.cursor.x, s.cursor.y, CodePointPut(k, s, cp);
            var glyph := Cell(if k.cp437(cp) != -1 then k.cp437(cp) else 0xfe, s.fg, s.bg);
            var n := if k.cp437(cp) != -1 then 1 else k.width(cp);
            t.cursor == Cursor(x + n, y) && OtherRowsKept(s, t, y) &&
            forall j {:trigger CellIn(t, y, j)} :: 0 <= j < s.cols ==>
              CellIn(t, y, j) == if n > 0 && j == x then glyph else if x < j < x + n then Blank(s) else CellIn(s, y, j)
  {
    hide At, CharPut, CharsPut, CellIn;
    var glyph: Byte := if k.cp437(cp) != -1 then k.cp437(cp) else 0xfe;
    var n := if k.cp437(cp) != -1 then 1 else k.width(cp);
    if n > 0 {
      PutHere(s, glyph);
      var u := CharPut(s, glyph);
      PutKeeps(s, glyph);
      if k.cp437(cp) == -1 {
        BlankRow(u, n - 1);
        BlankRowCells(u, n - 1);
      }
    } else {
      SameCells(s, s);
    }
  }

  /** Insert mode plays no part in that. So the row from the character on is what insert mode should make of it if
      and only if it looks the same moved right by the character's width. */
  lemma InsertCodePointIff(k: Config, s: Screen, cp: nat)
    requires Sane(s) && ConfigOk(k) && InGrid(s)
    requires s.cursor.x + (if k.cp437(cp) != -1 then 1 else k.width(cp)) <= s.cols
    ensures var x, y, t := s.cursor.x, s.cursor.y, CodePointPut(k, s, cp);
            var n := if k.cp437(cp) != -1 then 1 else k.width(cp);
            (forall j {:trigger CellIn(t, y, j)} :: x + n <= j < s.cols ==> CellIn(t, y, j) == CellIn(s, y, j - n))
            <==> forall j {:trigger CellIn(s, y, j)} :: x + n <= j < s.cols ==> CellIn(s, y, j) == CellIn(s, y, j - n)
  {
    hide CodePointPut, CellIn;
    CodePointCells(k, s, cp);
    var x, y, t := s.cursor.x, s.cursor.y, CodePointPut(k, s, cp);
    var n := if k.cp437(cp) != -1 then 1 else k.width(cp);
    forall j | x + n <= j < s.cols ensures CellIn(t, y, j) == CellIn(s, y, j) {
    }
  }

  lemma PutHere(s: Screen, c: Byte)
    requires Sane(s) && InGrid(s)
    ensures var t := CharPut(s, c);
            t.cursor == Cursor(s.cursor.x + 1, s.cursor.y) && OtherRowsKept(s, t, s.cursor.y) &&
            forall j {:trigger CellIn(t, s.cursor.y, j)} :: 0 <= j < s.cols ==>
              CellIn(t, s.cursor.y, j) == if j == s.cursor.x then Cell(c, s.fg, s.bg) else CellIn(s, s.cursor.y, j)
  {
    hide At, Put, CellIn;
    PutCells(s, s.cursor.x, s.cursor.y, Cell(c, s.fg, s.bg));
    var p := Put(s, s.cursor.x, s.cursor.y, Cell(c, s.fg, s.bg));
    SameCells(p, p.(cursor := Cursor(s.cursor.x + 1, s.cursor.y)));
  }
}
