/** What a run of blanks written by the erasing functions covers. Scrolling is off while they run, so
    the run goes on at the next row or gets stuck; either way the cells it reaches are at most two
    stretches of positions. */
module BlankRuns {
  import opened Arithmetic
  import opened Screen
  import opened TerminalSpec

  /** Two stretches of positions: the rest of the row a run starts in, and the rows it goes on in. */
  datatype Stretch = Stretch(from: nat, to: nat, nextFrom: nat, nextTo: nat)

  predicate Covers(r: Stretch, i: nat) {
    r.from <= i < r.to || r.nextFrom <= i < r.nextTo
  }

  /** t is s with the cells of both stretches blanked. */
  ghost predicate Wiped(s: Screen, t: Screen, r: Stretch) {
    |t.cells| == |s.cells| &&
    forall i {:trigger t.cells[i]} :: 0 <= i < |s.cells| ==> t.cells[i] == if Covers(r, i) then Blank(s) else s.cells[i]
  }

  function CursorAt(s: Screen): nat {
    At(s.cols, s.cursor.x, s.cursor.y)
  }

  /** Where a run that starts in the region and has filled every row it can reach ends. */
  function Lowest(s: Screen): nat {
    Min(s.bottom, s.cols)
  }

  /** The row a wrap goes to: the next one, clamped against the column count. */
  function NextRow(s: Screen): nat
    requires s.cols > 0
  {
    Min(s.cursor.y + 1, s.cols - 1)
  }

  /** The position after the last cell a run from inside the region can reach. */
  function End(s: Screen): nat {
    At(s.cols, 0, Lowest(s))
  }

  // ---- one blank ------------------------------------------------------------------------------

  lemma AtNext(cols: nat, x: nat, n: nat, y: nat)
    ensures At(cols, x + n, y) == At(cols, x, y) + n
  {
  }

  /** One more blank at position from + n. */
  lemma PutBlank(s: Screen, u: Screen, from: nat, n: nat)
    requires Sane(u) && u.cursor.x < u.cols && u.cursor.y < u.rows && u.cols == s.cols && u.fg == s.fg && u.bg == s.bg
    requires At(u.cols, u.cursor.x, u.cursor.y) == from + n < |u.cells|
    requires Blanks(s, u, from, from + n)
    ensures Blanks(s, CharPut(u, 0x20), from, from + n + 1)
    ensures CharPut(u, 0x20).cursor == Cursor(u.cursor.x + 1, u.cursor.y)
  {
    hide At;
  }

  /** A blank where there is one already. */
  lemma PutAgain(s: Screen, u: Screen, from: nat, to: nat)
    requires Sane(u) && u.cursor.x < u.cols && u.cursor.y < u.rows && u.cols == s.cols && u.fg == s.fg && u.bg == s.bg
    requires from <= At(u.cols, u.cursor.x, u.cursor.y) < to && Blanks(s, u, from, to)
    ensures Blanks(s, CharPut(u, 0x20), from, to)
    ensures CharPut(u, 0x20).cursor == Cursor(u.cursor.x + 1, u.cursor.y)
  {
    hide At;
    AtInRange(u.cols, u.rows, u.cursor.x, u.cursor.y);
  }

  /** Past the last column, with no row to go on in, or below the grid: nothing but the column changes. */
  lemma PutStuck(u: Screen)
    requires Sane(u) && !u.scrollEnabled && u.cursor.y + 1 >= u.bottom && (u.cursor.x >= u.cols || u.cursor.y >= u.rows)
    ensures CharPut(u, 0x20) == u.(cursor := Cursor(u.cursor.x + 1, u.cursor.y))
  {
  }

  lemma WrapTo(u: Screen)
    requires Sane(u) && u.cursor.x >= u.cols && u.cursor.y + 1 < u.bottom
    ensures Wrapped(u) == u.(cursor := Cursor(0, NextRow(u)))
    ensures CharPut(u, 0x20) == CharPut(u.(cursor := Cursor(0, NextRow(u))), 0x20)
  {
    hide Scrolled, Put;
  }

  // ---- runs ---------------------------------------------------------------------------------------

  /** Blanks that fit the row: no wrap, whatever the margins. */
  lemma {:induction false} BlankRow(s: Screen, n: nat)
    requires Sane(s) && s.cursor.y < s.rows && s.cursor.x + n <= s.cols
    ensures Blanks(s, CharsPut(s, 0x20, n), CursorAt(s), CursorAt(s) + n)
    ensures CharsPut(s, 0x20, n).cursor == Cursor(s.cursor.x + n, s.cursor.y)
  {
    hide At, Scrolled;
    if n == 0 {
    } else {
      BlankRow(s, n - 1);
      var u := CharsPut(s, 0x20, n - 1);
      AtNext(s.cols, s.cursor.x, n - 1, s.cursor.y);
      AtInRange(s.cols, s.rows, u.cursor.x, u.cursor.y);
      PutBlank(s, u, CursorAt(s), n - 1);
    }
  }

  lemma {:induction false} RunStuck(s: Screen, n: nat)
    requires Sane(s) && !s.scrollEnabled && s.cursor.y + 1 >= s.bottom && (s.cursor.x >= s.cols || s.cursor.y >= s.rows)
    ensures CharsPut(s, 0x20, n) == s.(cursor := Cursor(s.cursor.x + n, s.cursor.y))
  {
    hide CharPut;
    if n == 0 {
    } else {
      RunStuck(s, n - 1);
      PutStuck(CharsPut(s, 0x20, n - 1));
    }
  }

  lemma {:induction false} RunSplits(s: Screen, a: nat, b: nat)
    requires Sane(s)
    ensures CharsPut(s, 0x20, a + b) == CharsPut(CharsPut(s, 0x20, a), 0x20, b)
  {
    hide CharPut;
    if b == 0 {
    } else {
      RunSplits(s, a, b - 1);
    }
  }

  /** A run that wraps first is a run from the start of the next row. */
  lemma {:induction false} RunWraps(s: Screen, n: nat)
    requires Sane(s) && s.cursor.x >= s.cols && s.cursor.y + 1 < s.bottom && n >= 1
    ensures CharsPut(s, 0x20, n) == CharsPut(s.(cursor := Cursor(0, NextRow(s))), 0x20, n)
  {
    hide CharPut, NextRow;
    if n == 1 {
      WrapTo(s);
      assert CharsPut(s, 0x20, 0) == s;
    } else {
      RunWraps(s, n - 1);
    }
  }

  /** Where the cursor is after n blanks from the start of row y. */
  ghost predicate RunCursor(s: Screen, c: Cursor, n: nat) {
    var p := At(s.cols, 0, s.cursor.y) + n;
    if n == 0 then c == s.cursor
    else if p <= End(s) then 1 <= c.x <= s.cols && c.y < Lowest(s) && At(s.cols, c.x - 1, c.y) == p - 1
    else c.y == Lowest(s) - 1 && if s.bottom <= s.cols then c.x >= s.cols else 1 <= c.x <= s.cols
  }

  /** A run from the start of a row fills row after row and stays in the last it can reach: the bottom
      margin's, or the one the clamp keeps it in. */
  lemma {:induction false} BlankRun(s: Screen, n: nat)
    requires Sane(s) && !s.scrollEnabled && s.cursor.x == 0 && s.cursor.y < Lowest(s)
    ensures var from := At(s.cols, 0, s.cursor.y);
            var t := CharsPut(s, 0x20, n);
            Blanks(s, t, from, Min(from + n, End(s))) && RunCursor(s, t.cursor, n)
  {
    hide CharPut, RunCursor, At, Blanks, Lowest;
    if n == 0 {
      NoBlanks(s);
    } else {
      BlankRun(s, n - 1);
      BlankRunStep(s, CharsPut(s, 0x20, n - 1), n - 1);
    }
  }

  lemma NoBlanks(s: Screen)
    requires Sane(s) && s.cursor.y < Lowest(s)
    ensures var from := At(s.cols, 0, s.cursor.y); Blanks(s, s, from, Min(from, End(s))) && RunCursor(s, s.cursor, 0)
  {
    hide At;
  }

  lemma BlankRunStep(s: Screen, u: Screen, n: nat)
    requires Sane(s) && !s.scrollEnabled && s.cursor.x == 0 && s.cursor.y < Lowest(s)
    requires Sane(u) && u == s.(cells := u.cells, cursor := u.cursor) && RunCursor(s, u.cursor, n)
    requires var from := At(s.cols, 0, s.cursor.y); Blanks(s, u, from, Min(from + n, End(s)))
    ensures var from := At(s.cols, 0, s.cursor.y);
            var t := CharPut(u, 0x20);
            Blanks(s, t, from, Min(from + (n + 1), End(s))) && RunCursor(s, t.cursor, n + 1)
  {
    hide At, CharPut, Blanks;
    var from, end := At(s.cols, 0, s.cursor.y), End(s);
    StartBelow(s);
    if from + n < end {
      if n > 0 && u.cursor.x == s.cols {
        RowEnd(s, u.cursor.y);
        WrapTo(u);
        var w := u.(cursor := Cursor(0, NextRow(u)));
        SameBlanks(s, u, w, from, from + n);
        InRange(s, w.cursor);
        PutBlank(s, w, from, n);
      } else {
        if n > 0 {
          AtNext(s.cols, u.cursor.x - 1, 1, u.cursor.y);
        }
        InRange(s, u.cursor);
        PutBlank(s, u, from, n);
      }
      AtNext(s.cols, CharPut(u, 0x20).cursor.x - 1, 0, u.cursor.y);
    } else {
      BlankRunRest(s, u, n);
    }
  }

  /** Everything the run can reach is blank already. */
  lemma BlankRunRest(s: Screen, u: Screen, n: nat)
    requires Sane(s) && !s.scrollEnabled && s.cursor.x == 0 && s.cursor.y < Lowest(s)
    requires Sane(u) && u == s.(cells := u.cells, cursor := u.cursor) && RunCursor(s, u.cursor, n)
    requires var from, end := At(s.cols, 0, s.cursor.y), End(s); from + n >= end && Blanks(s, u, from, end)
    ensures var from, end := At(s.cols, 0, s.cursor.y), End(s);
            var t := CharPut(u, 0x20);
            Blanks(s, t, from, end) && RunCursor(s, t.cursor, n + 1)
  {
    hide At, CharPut, Blanks;
    var from, end := At(s.cols, 0, s.cursor.y), End(s);
    StartBelow(s);
    if from + n == end {
      LastCell(s, u.cursor);
    }
    if s.bottom <= s.cols {
      PutStuck(u);
      SameBlanks(s, u, u.(cursor := Cursor(u.cursor.x + 1, u.cursor.y)), from, end);
    } else {
      var w := u;
      if u.cursor.x == s.cols {
        WrapTo(u);
        w := u.(cursor := Cursor(0, NextRow(u)));
        SameBlanks(s, u, w, from, end);
      }
      LastRow(s, w.cursor);
      PutAgain(s, w, from, end);
    }
  }

  lemma SameBlanks(s: Screen, u: Screen, w: Screen, from: nat, to: nat)
    requires Blanks(s, u, from, to) && w.cells == u.cells
    ensures Blanks(s, w, from, to)
  {
  }

  lemma StartBelow(s: Screen)
    requires Sane(s) && s.cursor.y < Lowest(s)
    ensures At(s.cols, 0, s.cursor.y) + s.cols <= End(s) <= s.rows * s.cols
  {
    ProductOrder(s.cursor.y, Lowest(s), s.cols);
    ProductOrder(Lowest(s), s.rows, s.cols);
  }

  lemma InRange(s: Screen, c: Cursor)
    requires Sane(s) && c.x < s.cols && c.y < Lowest(s)
    ensures At(s.cols, c.x, c.y) < |s.cells| && c.y < s.rows
  {
    AtInRange(s.cols, s.rows, c.x, c.y);
  }

  /** The position after the last cell of row y starts row y + 1. */
  lemma RowEnd(s: Screen, y: nat)
    requires Sane(s) && y < Lowest(s)
    ensures At(s.cols, s.cols - 1, y) + 1 == At(s.cols, 0, y + 1)
    ensures At(s.cols, s.cols - 1, y) + 1 < End(s) ==> y + 1 < Lowest(s)
  {
    OneMoreRow(y, s.cols);
    if y + 1 >= Lowest(s) {
      ProductOrder(Lowest(s), y + 1, s.cols);
    }
  }

  lemma LastCell(s: Screen, c: Cursor)
    requires Sane(s) && 1 <= c.x <= s.cols && c.y < Lowest(s) && At(s.cols, c.x - 1, c.y) == End(s) - 1
    ensures c == Cursor(s.cols, Lowest(s) - 1)
  {
    var m := Lowest(s);
    OneMoreRow(m - 1, s.cols);
    AtUnique(s.cols, c.x - 1, c.y);
    AtUnique(s.cols, s.cols - 1, m - 1);
  }

  lemma LastRow(s: Screen, c: Cursor)
    requires Sane(s) && c.x < s.cols && c.y == Lowest(s) - 1 && s.cursor.y < Lowest(s)
    ensures At(s.cols, 0, s.cursor.y) <= At(s.cols, c.x, c.y) < End(s)
  {
    ProductOrder(s.cursor.y, c.y, s.cols);
    OneMoreRow(c.y, s.cols);
  }

  // ---- any run ---------------------------------------------------------------------------------------

  /** What n blanks written from the cursor cover. */
  function Reached(s: Screen, n: nat): Stretch
    requires s.cols > 0
  {
    var x, y, next := s.cursor.x, s.cursor.y, At(s.cols, 0, NextRow(s));
    Stretch(
      if y < s.rows then At(s.cols, x, y) else 0, if y < s.rows then At(s.cols, Min(x + n, s.cols), y) else 0,
      next, if x + n > s.cols && y + 1 < s.bottom then Min(next + (x + n - s.cols), End(s)) else next)
  }

  /** Exactly those cells are blanked, from any cursor: inside the grid, with a wrap pending, or below it;
      with any margins and any shape of grid. */
  lemma RunCells(s: Screen, n: nat)
    requires Sane(s) && !s.scrollEnabled && s.cursor.x <= s.cols
    ensures Wiped(s, CharsPut(s, 0x20, n), Reached(s, n))
  {
    hide At, CharsPut, Lowest, NextRow;
    var x, y := s.cursor.x, s.cursor.y;
    if y >= s.rows {
      RunStuck(s, n);
    } else if x + n <= s.cols {
      BlankRow(s, n);
      AtNext(s.cols, x, n, y);
    } else {
      var a, b := s.cols - x, x + n - s.cols;
      BlankRow(s, a);
      AtNext(s.cols, x, a, y);
      RunSplits(s, a, b);
      RunOn(s, CharsPut(s, 0x20, a), b);
    }
  }

  /** The part of a run that comes after the end of its first row. */
  lemma RunOn(s: Screen, u: Screen, b: nat)
    requires Sane(s) && !s.scrollEnabled && b >= 1 && s.cursor.y < s.rows
    requires Sane(u) && u == s.(cells := u.cells, cursor := Cursor(s.cols, s.cursor.y))
    ensures var next := At(s.cols, 0, NextRow(s));
            Blanks(u, CharsPut(u, 0x20, b), next, if s.cursor.y + 1 < s.bottom then Min(next + b, End(s)) else next)
  {
    hide CharsPut;
    if s.cursor.y + 1 < s.bottom {
      RunWraps(u, b);
      var w := u.(cursor := Cursor(0, NextRow(u)));
      BlankRun(w, b);
      SameBase(u, w, CharsPut(w, 0x20, b), At(s.cols, 0, NextRow(u)), Min(At(s.cols, 0, NextRow(u)) + b, End(s)));
    } else {
      RunStuck(u, b);
    }
  }

  lemma SameBase(u: Screen, w: Screen, t: Screen, from: nat, to: nat)
    requires w == u.(cursor := w.cursor) && Blanks(w, t, from, to)
    ensures Blanks(u, t, from, to)
  {
  }

  // ---- what was meant ----------------------------------------------------------------------------------

  /** Blanking two stretches is blanking [from, to) exactly when every cell in one but not in the other
      was blank already. */
  lemma WipedIsBlanksIff(s: Screen, t: Screen, r: Stretch, from: nat, to: nat)
    requires Wiped(s, t, r)
    ensures Blanks(s, t, from, to) <==>
      forall i :: 0 <= i < |s.cells| && Covers(r, i) != (from <= i < to) ==> s.cells[i] == Blank(s)
  {
    if Blanks(s, t, from, to) {
      forall i | 0 <= i < |s.cells| && Covers(r, i) != (from <= i < to) ensures s.cells[i] == Blank(s) {
        assert t.cells[i] == if Covers(r, i) then Blank(s) else s.cells[i];
      }
    }
  }

  /** No cell is blank to begin with. */
  ghost predicate Full(s: Screen) {
    forall i :: 0 <= i < |s.cells| ==> s.cells[i] != Blank(s)
  }

  /** On a full screen it is that exactly when the two sets of cells are the same. */
  lemma FullIff(s: Screen, t: Screen, r: Stretch, from: nat, to: nat)
    requires Wiped(s, t, r) && Full(s)
    ensures Blanks(s, t, from, to) <==> forall i :: 0 <= i < |s.cells| ==> (Covers(r, i) <==> from <= i < to)
  {
    WipedIsBlanksIff(s, t, r, from, to);
  }
}
