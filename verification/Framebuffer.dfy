/** The lazily drawn framebuffer: cells last drawn, a queue of pending writes, and a map from
    cells to their pending write. */
module Framebuffer {
  import opened Bits
  import opened Arithmetic
  import opened Screen

  datatype QueueItem = QueueItem(x: nat, y: nat, c: Cell)

  // ---- the three buffers as values --------------------------------------------------

  datatype Buffers = Buffers(cols: nat, grid: seq<Cell>, queue: seq<QueueItem>, map_: seq<Option<nat>>, len: nat)

  function Spot(b: Buffers, k: nat): nat
    requires k < |b.queue|
  {
    At(b.cols, b.queue[k].x, b.queue[k].y)
  }

  /** Pending writes and mapped cells correspond one to one. */
  ghost predicate Consistent(b: Buffers, rows: nat) {
    && b.cols > 0 && rows > 0
    && |b.grid| == |b.queue| == |b.map_| == rows * b.cols
    && b.len <= |b.queue|
    && (forall i :: 0 <= i < |b.map_| && b.map_[i].Some? ==> b.map_[i].value < b.len && Spot(b, b.map_[i].value) == i)
    && (forall k :: 0 <= k < b.len ==>
          b.queue[k].x < b.cols && b.queue[k].y < rows && Spot(b, k) < |b.map_| && b.map_[Spot(b, k)] == Some(k))
  }

  /** What cell i is going to show. */
  function Logical(b: Buffers, i: nat): Cell
    requires i < |b.grid| && |b.grid| == |b.map_|
  {
    if b.map_[i].Some? && b.map_[i].value < |b.queue| then b.queue[b.map_[i].value].c else b.grid[i]
  }

  function LogicalCells(b: Buffers): (r: seq<Cell>)
    requires |b.grid| == |b.map_|
    ensures |r| == |b.grid|
    ensures forall i :: 0 <= i < |r| ==> r[i] == Logical(b, i)
  {
    seq(|b.grid|, i requires 0 <= i < |b.grid| && |b.grid| == |b.map_| => Logical(b, i))
  }

  /** The queued cells are pairwise distinct. */
  lemma SpotsDistinct(b: Buffers, rows: nat, j: nat, k: nat)
    requires Consistent(b, rows) && j < k < b.len
    ensures Spot(b, j) != Spot(b, k)
  {
    assert b.map_[Spot(b, j)] == Some(j) && b.map_[Spot(b, k)] == Some(k);
  }

  ghost function Spots(b: Buffers, k: nat): (r: set<nat>)
    requires k <= |b.queue|
    ensures forall i :: i in r ==> exists j: nat :: j < k && i == Spot(b, j)
  {
    if k == 0 then {} else Spots(b, k - 1) + {Spot(b, k - 1)}
  }

  lemma {:induction false} SpotsCount(b: Buffers, rows: nat, k: nat)
    requires Consistent(b, rows) && k <= b.len
    ensures |Spots(b, k)| == k
  {
    hide Spot;
    if k == 0 {
    } else {
      SpotsCount(b, rows, k - 1);
      forall j: nat | j < k - 1 ensures Spot(b, j) != Spot(b, k - 1) {
        SpotsDistinct(b, rows, j, k - 1);
      }
    }
  }

  /** While a cell has no pending write there is room for one more. */
  lemma RoomForOneMore(b: Buffers, rows: nat, i: nat)
    requires Consistent(b, rows) && i < |b.map_| && b.map_[i] == None
    ensures b.len < |b.queue|
  {
    hide Spot;
    SpotsCount(b, rows, b.len);
    var all := Below(|b.map_|);
    assert Spots(b, b.len) <= all - {i};
    SubsetSize(Spots(b, b.len), all - {i});
  }

  ghost function Below(n: nat): (r: set<nat>)
    ensures |r| == n && forall j: nat :: j in r <==> j < n
  {
    if n == 0 then {} else Below(n - 1) + {n - 1}
  }

  lemma {:induction false} SubsetSize(a: set<nat>, b: set<nat>)
    requires a <= b
    ensures |a| <= |b|
  {
    if a == {} {
    } else {
      var x :| x in a;
      SubsetSize(a - {x}, b - {x});
    }
  }

  /** A push to a mapped cell overwrites its pending write. */
  lemma OverwriteKeeps(b: Buffers, rows: nat, i: nat, c: Cell)
    requires Consistent(b, rows) && i < |b.map_| && b.map_[i].Some?
    ensures var k := b.map_[i].value;
            k < |b.queue| &&
            var d := b.(queue := b.queue[k := b.queue[k].(c := c)]);
            Consistent(d, rows) && LogicalCells(d) == LogicalCells(b)[i := c]
  {
    var k := b.map_[i].value;
    var d := b.(queue := b.queue[k := b.queue[k].(c := c)]);
    assert forall j: nat :: j < |b.queue| ==> Spot(d, j) == Spot(b, j);
    hide Spot;
    forall j | 0 <= j < |b.grid| ensures LogicalCells(d)[j] == LogicalCells(b)[i := c][j] {
      assert b.map_[j].Some? && b.map_[j].value == k ==> j == i;
    }
  }

  /** A push to an unmapped cell appends a pending write. */
  lemma AppendKeeps(b: Buffers, rows: nat, x: nat, y: nat, c: Cell)
    requires Consistent(b, rows) && x < b.cols && y < rows
    requires At(b.cols, x, y) < |b.map_| && b.map_[At(b.cols, x, y)] == None && b.len < |b.queue|
    ensures var i := At(b.cols, x, y);
            var d := Buffers(b.cols, b.grid, b.queue[b.len := QueueItem(x, y, c)], b.map_[i := Some(b.len)], b.len + 1);
            Consistent(d, rows) && LogicalCells(d) == LogicalCells(b)[i := c]
  {
    var i := At(b.cols, x, y);
    var d := Buffers(b.cols, b.grid, b.queue[b.len := QueueItem(x, y, c)], b.map_[i := Some(b.len)], b.len + 1);
    assert forall j: nat :: j < b.len ==> Spot(d, j) == Spot(b, j);
    assert Spot(d, b.len) == i;
    hide Spot, At;
    assert forall j: nat :: j < b.len ==> Spot(d, j) != i;
    assert LogicalCells(d) == LogicalCells(b)[i := c];
  }

  function Inverted(c: Cell): Cell {
    Cell(c.c, c.bg, c.fg)
  }

  /** Inverting swaps the two colours of a cell and keeps its character; a cell that inverting does not change has
      the same two colours. */
  lemma InvertedSwaps(c: Cell)
    ensures Inverted(c).c == c.c && Inverted(c).fg == c.bg && Inverted(c).bg == c.fg && Inverted(Inverted(c)) == c
    ensures Inverted(c) == c <==> c.fg == c.bg
  {
  }

  // ---- the framebuffer ------------------------------------------------------------------

  /** The position of (x, y), or None outside the grid. */
  function Place(cols: nat, rows: nat, x: nat, y: nat): Option<nat> {
    if x < cols && y < rows then Some(At(cols, x, y)) else None
  }

  lemma PlaceUnique(cols: nat, rows: nat, x: nat, y: nat, u: nat, v: nat)
    requires Place(cols, rows, x, y).Some? && Place(cols, rows, x, y) == Place(cols, rows, u, v)
    ensures x == u && y == v
  {
    AtUnique(cols, x, y);
    AtUnique(cols, u, v);
  }

  /** What the display shows right after a flush: the cells as they are, the enabled cursor's
      cell inverted. */
  ghost predicate Displays(shown: seq<Cell>, cells: seq<Cell>, cursor: Option<nat>) {
    |shown| == |cells| &&
    forall i :: 0 <= i < |cells| ==> shown[i] == if cursor == Some(i) then Inverted(cells[i]) else cells[i]
  }

  /** Only the cell at `place` may show anything but its grid cell. */
  ghost predicate DrawnBut(shown: seq<Cell>, grid: seq<Cell>, place: Option<nat>) {
    |shown| == |grid| && forall i :: 0 <= i < |grid| && place != Some(i) ==> shown[i] == grid[i]
  }

  /** r is m with the cells from `start` up to `stop` copied n places down in index. */
  ghost predicate CopiedUp(m: seq<Cell>, r: seq<Cell>, n: nat, start: nat, stop: nat) {
    |m| == |r| && stop <= |m| && n <= start &&
    forall j {:trigger r[j]} :: 0 <= j < |r| ==> r[j] == if start <= j + n < stop then m[j + n] else m[j]
  }

  /** r is m with the cells from `start` down to `stop` copied n places up in index. */
  ghost predicate CopiedDown(m: seq<Cell>, r: seq<Cell>, n: nat, start: int, stop: nat) {
    |m| == |r| && start + n < |m| &&
    forall j {:trigger r[j]} :: 0 <= j < |r| ==> r[j] == if stop + n <= j <= start + n then m[j - n] else m[j]
  }

  lemma CopiedUpStart(m: seq<Cell>, n: nat, start: nat, stop: nat)
    requires n <= start && stop <= |m|
    ensures CopiedUp(m, m, n, start, if start <= stop then start else stop)
  {
  }

  lemma CopiedUpStep(m: seq<Cell>, r: seq<Cell>, n: nat, start: nat, i: nat)
    requires n > 0 && start <= i < |m| && CopiedUp(m, r, n, start, i)
    ensures r[i] == m[i] && CopiedUp(m, r[i - n := r[i]], n, start, i + 1)
  {
  }

  lemma CopiedDownStart(m: seq<Cell>, n: nat, start: int, stop: nat)
    requires -1 <= start && start + n < |m|
    ensures CopiedDown(m, m, n, start, if start >= stop then start + 1 else stop)
  {
  }

  lemma CopiedDownStep(m: seq<Cell>, r: seq<Cell>, n: nat, start: int, i: nat)
    requires n > 0 && i <= start && CopiedDown(m, r, n, start, i + 1)
    ensures r[i] == m[i] && CopiedDown(m, r[i + n := r[i]], n, start, i)
  {
  }

  class Framebuffer {
    const cols: nat
    const rows: nat
    const grid: array<Cell>
    const queue: array<QueueItem>
    const pending: array<Option<nat>>
    const shown: array<Cell>
    var queueLen: nat
    var cursorX: nat
    var cursorY: nat
    var oldCursorX: nat
    var oldCursorY: nat
    var textFg: nat
    var textBg: nat
    var savedX: nat
    var savedY: nat
    var savedFg: nat
    var savedBg: nat
    var scrollTop: nat
    var scrollBottom: nat
    var scrollEnabled: bool
    var cursorEnabled: bool

    ghost function Parts(): Buffers
      reads this, grid, queue, pending
    {
      Buffers(cols, grid[..], queue[..], pending[..], queueLen)
    }

    /** Everything but the buffers is in its place. */
    ghost predicate Shaped()
      reads this
    {
      && cols > 0 && rows > 0 && grid != shown
      && grid.Length == queue.Length == pending.Length == shown.Length == rows * cols
      && scrollTop < rows && 1 <= scrollBottom <= rows
    }

    ghost predicate Valid()
      reads this, grid, queue, pending, shown
    {
      Shaped() && Consistent(Parts(), rows) && DrawnBut(shown[..], grid[..], Place(cols, rows, oldCursorX, oldCursorY))
    }

    /** The screen this framebuffer stands for. */
    ghost function View(): (s: Screen)
      requires Valid()
      reads this, grid, queue, pending, shown
      ensures Sane(s) && s.cols == cols && s.rows == rows
    {
      Screen(cols, rows, LogicalCells(Parts()), Cursor(cursorX, cursorY), textFg, textBg,
             Saved(Cursor(savedX, savedY), savedFg, savedBg), scrollTop, scrollBottom, scrollEnabled, cursorEnabled)
    }

    /** A cleared screen, drawn once, with the cursor shown at the origin. */
    constructor (columns: nat, lines: nat, fg: nat, bg: nat)
      requires columns > 0 && lines > 0
      ensures Valid() && cols == columns && rows == lines
      ensures fresh(grid) && fresh(queue) && fresh(pending) && fresh(shown)
      ensures View() == Screen(columns, lines, seq(lines * columns, i => Cell(0x20, fg, bg)), Cursor(0, 0), fg, bg,
                               Saved(Cursor(0, 0), 0, 0), 0, lines, true, true)
      ensures Displays(shown[..], View().cells, Some(0))
    {
      hide Consistent, LogicalCells, DrawnBut, Displays, At;
      cols, rows := columns, lines;
      AtOrigin(columns);
      var n := lines * columns;
      grid := new Cell[n](_ => Cell(0x20, fg, bg));
      queue := new QueueItem[n](_ => QueueItem(0, 0, Cell(0, 0, 0)));
      pending := new Option<nat>[n](_ => None);
      shown := new Cell[n](i => if i == 0 then Cell(0x20, bg, fg) else Cell(0x20, fg, bg));
      queueLen := 0;
      cursorX, cursorY, oldCursorX, oldCursorY := 0, 0, 0, 0;
      textFg, textBg := fg, bg;
      savedX, savedY, savedFg, savedBg := 0, 0, 0, 0;
      scrollTop, scrollBottom := 0, lines;
      scrollEnabled, cursorEnabled := true, true;
      new;
      EmptyQueueConsistent(Parts(), rows);
      AllBlank(grid[..], shown[..], Cell(0x20, fg, bg));
    }

    method PushToQueue(c: Cell, x: nat, y: nat)
      requires Valid()
      modifies queue, pending, `queueLen
      ensures Valid() && View() == Put(old(View()), x, y, c)
    {
      hide At, Spot, Logical, Place;
      if x >= cols || y >= rows {
        return;
      }
      AtInRange(cols, rows, x, y);
      var i := At(cols, x, y);
      ghost var b := Parts();
      if pending[i].None? {
        if grid[i] == c {
          LogicalIsGrid(b, i);
          assert LogicalCells(b)[i := c] == LogicalCells(b);
          return;
        }
        RoomForOneMore(b, rows, i);
        AppendKeeps(b, rows, x, y, c);
        queue[queueLen] := QueueItem(x, y, c);
        pending[i] := Some(queueLen);
        queueLen := queueLen + 1;
        assert Parts() == Buffers(b.cols, b.grid, b.queue[b.len := QueueItem(x, y, c)], b.map_[i := Some(b.len)],
          b.len + 1);
      } else {
        OverwriteKeeps(b, rows, i, c);
        var k := pending[i].value;
        queue[k] := queue[k].(c := c);
        assert Parts() == b.(queue := b.queue[k := b.queue[k].(c := c)]);
      }
    }

    /** The cell's pending write if it has one, else what the grid holds. */
    method CellAt(i: nat) returns (c: Cell)
      requires Valid() && i < rows * cols
      ensures c == View().cells[i]
    {
      c := if pending[i].Some? then queue[pending[i].value].c else grid[i];
    }

    /** PushToQueue, by position in the array. */
    method PushAt(c: Cell, x: nat, y: nat, ghost i: nat)
      requires Valid() && x < cols && y < rows && At(cols, x, y) == i
      modifies queue, pending, `queueLen
      ensures Valid() && i < rows * cols && View() == old(View()).(cells := old(View()).cells[i := c])
    {
      hide Consistent, DrawnBut, Logical, LogicalCells, At;
      AtInRange(cols, rows, x, y);
      PushToQueue(c, x, y);
    }

    /** PushToQueue at the column and row of array position i. */
    method PushIndex(c: Cell, i: nat)
      requires Valid() && i < rows * cols
      modifies queue, pending, `queueLen
      ensures Valid() && View() == old(View()).(cells := old(View()).cells[i := c])
    {
      hide Consistent, DrawnBut, Logical, LogicalCells, At;
      AtOfIndex(cols, rows, i);
      PushAt(c, i % cols, i / cols, i);
    }

    /** Pushes what cell i is going to show to cell j. */
    method CopyCell(i: nat, j: nat)
      requires Valid() && i < rows * cols && j < rows * cols
      modifies queue, pending, `queueLen
      ensures Valid() && View() == old(View()).(cells := old(View()).cells[j := old(View()).cells[i]])
    {
      hide Consistent, DrawnBut, Logical, LogicalCells, At;
      var c := CellAt(i);
      PushIndex(c, j);
    }

    /** Where row y begins. */
    method RowStart(y: nat) returns (i: int)
      ensures i == y * cols && i >= 0
    {
      i := y * cols;
    }

    /** Blanks row y, which begins at `base`. */
    method BlankRow(y: nat, ghost base: nat)
      requires Valid() && y < rows && base == y * cols
      modifies queue, pending, `queueLen
      ensures Valid() && View() == old(View()).(cells := View().cells)
      ensures Blanks(old(View()), View(), base, base + cols)
    {
      hide Consistent, DrawnBut, Logical, LogicalCells, At, Spot;
      ghost var s := View();
      RowBounds(cols, rows, y + 1);
      var empty := Cell(0x20, textFg, textBg);
      ghost var r := s.cells;
      for x := 0 to cols
        invariant Valid() && View() == s.(cells := r) && |r| == |s.cells|
        invariant forall j {:trigger r[j]} :: 0 <= j < |r| ==>
          r[j] == if base <= j < base + x then empty else s.cells[j]
      {
        AtIs(cols, x, y);
        PushAt(empty, x, y, base + x);
        r := r[base + x := empty];
      }
    }

    /** Copies the cells from `start` up to `stop` one row up, in that order. */
    method CopyUp(start: nat, stop: nat)
      requires Valid() && cols <= start && stop <= rows * cols
      modifies queue, pending, `queueLen
      ensures Valid() && View() == old(View()).(cells := View().cells)
      ensures CopiedUp(old(View()).cells, View().cells, cols, start, stop)
    {
      hide Consistent, DrawnBut, Logical, LogicalCells, At, Spot, CopiedUp, Place, Parts;
      ghost var s := View();
      ghost var r := s.cells;
      var i := start;
      CopiedUpStart(r, cols, start, stop);
      while i < stop
        invariant start <= i && (i <= stop || i == start)
        invariant Valid() && View() == s.(cells := r) && |r| == |s.cells|
        invariant CopiedUp(s.cells, r, cols, start, if i <= stop then i else stop)
      {
        CopiedUpStep(s.cells, r, cols, start, i);
        CopyCell(i, i - cols);
        r := r[i - cols := r[i]];
        i := i + 1;
      }
    }

    /** Copies the cells from `start` down to `stop` one row down, in that order. -1 stands for
        (size_t)-1, which the unsigned loop test lets through once. */
    method CopyDown(start: int, stop: nat)
      requires Valid() && -1 <= start && start + cols < rows * cols
      modifies queue, pending, `queueLen
      ensures Valid() && View() == old(View()).(cells := View().cells)
      ensures CopiedDown(old(View()).cells, View().cells, cols, start, stop)
    {
      hide Consistent, DrawnBut, Logical, LogicalCells, At, Spot, CopiedDown;
      ghost var s := View();
      ghost var r := s.cells;
      var i := start;
      CopiedDownStart(r, cols, start, stop);
      while i == -1 || i >= stop
        invariant -1 <= i <= start && (stop - 1 <= i || i == start)
        invariant Valid() && View() == s.(cells := r) && |r| == |s.cells|
        invariant CopiedDown(s.cells, r, cols, start, if i >= stop then i + 1 else stop)
        decreases i
      {
        if i == -1 {
          break;
        }
        CopiedDownStep(s.cells, r, cols, start, i);
        CopyCell(i, i + cols);
        r := r[i + cols := r[i]];
        i := i - 1;
      }
    }

    method Scroll()
      requires Valid()
      modifies queue, pending, `queueLen
      ensures Valid() && View() == Scrolled(old(View()))
    {
      hide Consistent, DrawnBut, Logical, LogicalCells, At, Spot, Scrolled, Parts, Place, Blank, CopiedUp, Blanks;
      ghost var s := View();
      RowBounds(cols, rows, scrollTop);
      RowBounds(cols, rows, scrollBottom);
      var start := RowStart(scrollTop + 1);
      var stop := RowStart(scrollBottom);
      CopyUp(start, stop);
      ghost var m := View();
      BlankRow(scrollBottom - 1, stop - cols);
      ScrolledByParts(s, m, View().cells, start, stop);
    }

    method RevScroll()
      requires Valid()
      modifies queue, pending, `queueLen
      ensures Valid() && View() == RevScrolled(old(View()))
    {
      hide Consistent, DrawnBut, Logical, LogicalCells, At, Spot, RevScrolled, Parts, Place, Blank, CopiedDown, Blanks;
      ghost var s := View();
      RevScrollBounds(cols, rows, scrollTop, scrollBottom);
      var end := RowStart(scrollBottom - 1);
      var stop := RowStart(scrollTop);
      var start: int := end - 1;
      CopyDown(start, stop);
      ghost var m := View();
      BlankRow(scrollTop, stop);
      RevScrolledByParts(s, m, View().cells, start, stop);
    }

    method Clear(move: bool)
      requires Valid()
      modifies queue, pending, `queueLen, `cursorX, `cursorY
      ensures Valid() && View() == Cleared(old(View()), move)
    {
      hide Consistent, DrawnBut, Logical, LogicalCells, At, Spot;
      ghost var s := View();
      var empty := Cell(0x20, textFg, textBg);
      ghost var r := s.cells;
      for i := 0 to rows * cols
        invariant Valid() && View() == s.(cells := r) && |r| == |s.cells|
        invariant forall j {:trigger r[j]} :: 0 <= j < |r| ==> r[j] == if j < i then empty else s.cells[j]
      {
        PushIndex(empty, i);
        r := r[i := empty];
      }
      assert View().cells == Cleared(s, move).cells;
      if move {
        cursorX := 0;
        cursorY := 0;
      }
    }

    method SetCursorPos(x: nat, y: nat)
      requires Valid()
      modifies `cursorX, `cursorY
      ensures Valid() && View() == CursorSet(old(View()), x, y)
    {
      cursorX := if x >= cols then (if x % 0x1_0000_0000 >= 0x8000_0000 then 0 else cols - 1) else x;
      cursorY := if y >= rows then (if y % 0x1_0000_0000 >= 0x8000_0000 then 0 else rows - 1) else y;
    }

    method GetCursorPos() returns (x: nat, y: nat)
      requires Valid()
      ensures Cursor(x, y) == CursorSeen(View())
    {
      x := if cursorX >= cols then cols - 1 else cursorX;
      y := if cursorY >= rows then rows - 1 else cursorY;
    }

    method MoveCharacter(newX: nat, newY: nat, oldX: nat, oldY: nat)
      requires Valid()
      modifies queue, pending, `queueLen
      ensures Valid() && View() == CharMoved(old(View()), newX, newY, oldX, oldY)
    {
      hide Consistent, DrawnBut, Logical, Put;
      if oldX >= cols || oldY >= rows || newX >= cols || newY >= rows {
        return;
      }
      AtInRange(cols, rows, oldX, oldY);
      var c := CellAt(oldX + oldY * cols);
      PushToQueue(c, newX, newY);
    }

    method RawPutchar(c: Byte)
      requires Valid()
      modifies queue, pending, `queueLen, `cursorX, `cursorY
      ensures Valid() && View() == CharPut(old(View()), c)
    {
      hide Consistent, DrawnBut, Logical, LogicalCells, Put, Scrolled;
      ghost var s := View();
      if cursorX >= cols && (cursorY < scrollBottom - 1 || scrollEnabled) {
        cursorX := 0;
        cursorY := cursorY + 1;
        if cursorY == scrollBottom {
          cursorY := cursorY - 1;
          Scroll();
        }
        if cursorY >= cols {
          cursorY := cols - 1;
        }
      }
      assert View() == Wrapped(s);
      PushToQueue(Cell(c, textFg, textBg), cursorX, cursorY);
      cursorX := cursorX + 1;
    }

    method SwapPalette()
      requires Valid()
      modifies `textFg, `textBg
      ensures Valid() && View() == old(View()).(fg := old(textBg), bg := old(textFg))
    {
      var tmp := textBg;
      textBg := textFg;
      textFg := tmp;
    }

    method SaveState()
      requires Valid()
      modifies `savedX, `savedY, `savedFg, `savedBg
      ensures Valid()
      ensures View() == old(View()).(saved := Saved(old(View()).cursor, old(View()).fg, old(View()).bg))
    {
      savedFg, savedBg := textFg, textBg;
      savedX, savedY := cursorX, cursorY;
    }

    method RestoreState()
      requires Valid()
      modifies `textFg, `textBg, `cursorX, `cursorY
      ensures Valid()
      ensures var k := old(View()).saved; View() == old(View()).(cursor := k.cursor, fg := k.fg, bg := k.bg)
    {
      textFg, textBg := savedFg, savedBg;
      cursorX, cursorY := savedX, savedY;
    }

    /** Shows the cursor's cell inverted and commits its pending write. */
    method DrawCursor()
      requires Shaped() && MapInQueue(queue.Length, pending[..])
      modifies grid, pending, shown
      ensures queue[..] == old(queue[..])
      ensures Drawing(grid[..], pending[..], shown[..]) ==
        CursorDrawn(old(queue[..]), Place(cols, rows, cursorX, cursorY), old(Drawing(grid[..], pending[..], shown[..])))
    {
      hide At;
      if cursorX >= cols || cursorY >= rows {
        return;
      }
      AtInRange(cols, rows, cursorX, cursorY);
      var i := At(cols, cursorX, cursorY);
      var q := pending[i];
      var c := if q.Some? then queue[q.value].c else grid[i];
      shown[i] := Inverted(c);
      if q.Some? {
        grid[i] := queue[q.value].c;
        pending[i] := None;
      }
    }

    /** The flush loop: commits and shows every write that is still mapped, in queue order. */
    method DrainQueue(ghost b: Buffers)
      requires Shaped() && b.cols == cols && queueLen == b.len && queue[..] == b.queue && SpotsInRange(b, grid.Length)
      modifies grid, pending, shown
      ensures Drawing(grid[..], pending[..], shown[..]) ==
        Committed(b, 0, old(Drawing(grid[..], pending[..], shown[..])))
    {
      hide At, Spot;
      ghost var d := Drawing(grid[..], pending[..], shown[..]);
      var i := 0;
      while i < queueLen
        invariant 0 <= i <= queueLen && queue[..] == b.queue
        invariant Committed(b, i, Drawing(grid[..], pending[..], shown[..])) == Committed(b, 0, d)
      {
        var offset := At(cols, queue[i].x, queue[i].y);
        SpotOf(b, i);
        ghost var e := Drawing(grid[..], pending[..], shown[..]);
        if pending[offset].Some? {
          shown[offset] := queue[i].c;
          grid[offset] := queue[i].c;
          pending[offset] := None;
        }
        assert Drawing(grid[..], pending[..], shown[..]) == CommittedOne(b, i, e);
        i := i + 1;
      }
    }

    /** Redraws the previous cursor's cell plainly unless the cursor is still there. */
    method EraseOldCursor()
      requires Shaped()
      modifies shown
      ensures Drawing(grid[..], pending[..], shown[..]) ==
        OldErased(Place(cols, rows, oldCursorX, oldCursorY),
                  if cursorEnabled then Place(cols, rows, cursorX, cursorY) else None,
                  old(Drawing(grid[..], pending[..], shown[..])))
    {
      hide At;
      CursorsApart(cols, rows, oldCursorX, oldCursorY, cursorX, cursorY, cursorEnabled);
      if oldCursorX != cursorX || oldCursorY != cursorY || !cursorEnabled {
        if oldCursorX < cols && oldCursorY < rows {
          AtInRange(cols, rows, oldCursorX, oldCursorY);
          var o := At(cols, oldCursorX, oldCursorY);
          shown[o] := grid[o];
        }
      }
    }

    /** The flush, whether or not queue and map correspond. */
    method FlushBuffers()
      requires Shaped() && MapInQueue(queue.Length, pending[..]) && SpotsInRange(Parts(), grid.Length)
      modifies grid, pending, shown, `queueLen, `oldCursorX, `oldCursorY
      ensures Drawing(grid[..], pending[..], shown[..]) ==
        Flushed(old(Parts()), if cursorEnabled then Place(cols, rows, cursorX, cursorY) else None,
                old(Place(cols, rows, oldCursorX, oldCursorY)), old(Drawing(grid[..], pending[..], shown[..])))
      ensures queueLen == 0 && oldCursorX == cursorX && oldCursorY == cursorY && queue[..] == old(queue[..])
    {
      hide At, Spot, SpotsInRange, Place, CursorDrawn, OldErased, Committed;
      ghost var b := Parts();
      if cursorEnabled {
        DrawCursor();
      } else {
        NoCursorDrawn(queue[..], Drawing(grid[..], pending[..], shown[..]));
      }
      DrainQueue(b);
      EraseOldCursor();
      oldCursorX := cursorX;
      oldCursorY := cursorY;
      queueLen := 0;
    }

    /** Commits every pending write and shows it; moves the visible cursor. */
    method DoubleBufferFlush()
      requires Valid()
      modifies grid, pending, shown, `queueLen, `oldCursorX, `oldCursorY
      ensures Valid() && View() == old(View())
      ensures queueLen == 0 && grid[..] == View().cells && forall i :: 0 <= i < pending.Length ==> pending[i] == None
      ensures Displays(shown[..], View().cells, if cursorEnabled then Place(cols, rows, cursorX, cursorY) else None)
    {
      hide At, Spot, Logical, Consistent, LogicalCells, SpotsInRange, Displays, DrawnBut, Place, Flushed, MapInQueue;
      ghost var b := Parts();
      ghost var d := shown[..];
      ghost var here := if cursorEnabled then Place(cols, rows, cursorX, cursorY) else None;
      ghost var was := Place(cols, rows, oldCursorX, oldCursorY);
      LengthsAgree(b, rows);
      PlaceInRange(cols, rows, cursorX, cursorY);
      PlaceInRange(cols, rows, oldCursorX, oldCursorY);
      FlushMeaning(b, rows, here, was, d);
      FlushBuffers();
      DisplayedIsDrawn(shown[..], grid[..], here, Place(cols, rows, cursorX, cursorY));
      EmptyQueueConsistent(Parts(), rows);
    }

    /** Draws the whole grid again, then the cursor. The framebuffer survives this exactly when the
        cursor is not drawn, or its cell has no pending write and the display's cursor is there
        already (or looks the same inverted). */
    method FullRefresh()
      requires Valid()
      modifies grid, pending, shown
      ensures Shaped() && queue[..] == old(queue[..])
      ensures Valid() <==>
        SurvivesRefresh(old(Parts()), if cursorEnabled then Place(cols, rows, cursorX, cursorY) else None,
                        Place(cols, rows, oldCursorX, oldCursorY))
      ensures Valid() ==> View() == old(View())
    {
      hide At, Spot, Logical, LogicalCells, Consistent, DrawnBut, Place, CursorDrawn, MapInQueue;
      ghost var b, v := Parts(), View().cells;
      ghost var here := if cursorEnabled then Place(cols, rows, cursorX, cursorY) else None;
      LengthsAgree(b, rows);
      PlainLogical(b);
      RedrawGrid();
      if cursorEnabled {
        PlaceInRange(cols, rows, cursorX, cursorY);
        CursorDrawnIs(b, rows, Place(cols, rows, cursorX, cursorY), grid[..]);
        DrawCursor();
      }
      RefreshOutcome(b, rows, here, Place(cols, rows, oldCursorX, oldCursorY), shown[..], Parts());
    }

    method RedrawGrid()
      requires Valid()
      modifies shown
      ensures shown[..] == grid[..] && Valid() && View() == old(View())
    {
      hide Consistent, LogicalCells;
      for i := 0 to rows * cols
        invariant forall j :: 0 <= j < i ==> shown[j] == grid[j]
        invariant Valid() && View() == old(View())
      {
        shown[i] := grid[i];
      }
    }

    /** Performs one operation. */
    method Apply(op: ScreenOp)
      requires Valid()
      modifies this, grid, queue, pending, shown
      ensures Valid() && View() == Perform(old(View()), op)
    {
      hide Consistent, LogicalCells, DrawnBut, Put, Scrolled, RevScrolled, Cleared, CharPut, CharMoved;
      match op
      case PushCell(c, x, y) => PushToQueue(c, x, y);
      case PutChar(c) => RawPutchar(c);
      case MoveChar(newX, newY, oldX, oldY) => MoveCharacter(newX, newY, oldX, oldY);
      case ScrollUp => Scroll();
      case ScrollDown => RevScroll();
      case ClearAll(move) => Clear(move);
      case SetCursor(x, y) => SetCursorPos(x, y);
      case Flush => DoubleBufferFlush();
    }

    /** After any run of operations, flushes anywhere among them, the framebuffer stands for what the
        plain array has become under the same operations. */
    method Run(ops: seq<ScreenOp>)
      requires Valid()
      modifies this, grid, queue, pending, shown
      ensures Valid() && View() == PerformAll(old(View()), ops)
    {
      hide Consistent, LogicalCells, DrawnBut, Perform;
      ghost var s := View();
      for i := 0 to |ops|
        invariant Valid() && View() == PerformAll(s, ops[..i])
      {
        PerformOneMore(s, ops, i);
        Apply(ops[i]);
      }
      assert ops[..|ops|] == ops;
    }
  }

  datatype ScreenOp =
    | PushCell(cell: Cell, x: nat, y: nat)
    | PutChar(c: Byte)
    | MoveChar(newX: nat, newY: nat, oldX: nat, oldY: nat)
    | ScrollUp
    | ScrollDown
    | ClearAll(move: bool)
    | SetCursor(x: nat, y: nat)
    | Flush

  /** The operation on the plain array; a flush is not visible there. */
  function Perform(s: Screen, op: ScreenOp): (t: Screen)
    requires Sane(s)
    ensures Sane(t)
  {
    match op
    case PushCell(c, x, y) => Put(s, x, y, c)
    case PutChar(c) => CharPut(s, c)
    case MoveChar(newX, newY, oldX, oldY) => CharMoved(s, newX, newY, oldX, oldY)
    case ScrollUp => Scrolled(s)
    case ScrollDown => RevScrolled(s)
    case ClearAll(move) => Cleared(s, move)
    case SetCursor(x, y) => CursorSet(s, x, y)
    case Flush => s
  }

  function PerformAll(s: Screen, ops: seq<ScreenOp>): (t: Screen)
    requires Sane(s)
    ensures Sane(t)
  {
    if ops == [] then s else Perform(PerformAll(s, ops[..|ops| - 1]), ops[|ops| - 1])
  }

  lemma PerformOneMore(s: Screen, ops: seq<ScreenOp>, i: nat)
    requires Sane(s) && i < |ops|
    ensures PerformAll(s, ops[..i + 1]) == Perform(PerformAll(s, ops[..i]), ops[i])
  {
    assert ops[..i + 1][..i] == ops[..i];
  }

  /** Redrawing everything leaves the framebuffer usable: the cursor is not drawn, or its cell has no
      pending write and the display's cursor is there already (or looks the same inverted). */
  predicate SurvivesRefresh(b: Buffers, here: Option<nat>, was: Option<nat>) {
    here.None? ||
    (here.value < |b.map_| && here.value < |b.grid| && b.map_[here.value] == None
     && (here == was || Inverted(b.grid[here.value]) == b.grid[here.value]))
  }

  lemma PlainLogical(b: Buffers)
    requires |b.grid| == |b.map_|
    ensures forall i :: 0 <= i < |b.grid| && b.map_[i] == None ==> LogicalCells(b)[i] == b.grid[i]
  {
  }

  lemma RefreshOutcome(b: Buffers, rows: nat, here: Option<nat>, was: Option<nat>, shown: seq<Cell>, d: Buffers)
    requires Consistent(b, rows)
    requires match here
             case None => d == b && shown == b.grid
             case Some(i) => (i < |b.grid| && d.cols == b.cols && d.queue == b.queue && d.len == b.len
                              && d.map_ == b.map_[i := None] && d.grid == b.grid[i := LogicalCells(b)[i]]
                              && shown == b.grid[i := Inverted(LogicalCells(b)[i])])
    ensures Consistent(d, rows) && DrawnBut(shown, d.grid, was) <==> SurvivesRefresh(b, here, was)
    ensures Consistent(d, rows) ==> d == b
  {
    hide Spot, Logical;
    PlainLogical(b);
    if here.Some? {
      if b.map_[here.value].Some? {
        LostWrite(b, rows, here.value, d);
      } else {
        assert d.map_ == b.map_ && d.grid == b.grid;
        assert shown[here.value] == Inverted(b.grid[here.value]);
      }
    }
  }

  /** Unmapping a cell whose write stays queued breaks the correspondence. */
  lemma LostWrite(b: Buffers, rows: nat, i: nat, d: Buffers)
    requires Consistent(b, rows) && i < |b.map_| && b.map_[i].Some?
    requires d.cols == b.cols && d.queue == b.queue && d.len == b.len && d.map_ == b.map_[i := None]
    ensures !Consistent(d, rows)
  {
    var k := b.map_[i].value;
    assert Spot(d, k) == Spot(b, k) == i;
  }

  lemma LogicalIsGrid(b: Buffers, i: nat)
    requires |b.grid| == |b.map_| && i < |b.grid| && b.map_[i].None?
    ensures Logical(b, i) == b.grid[i]
  {
  }

  lemma RevScrollBounds(cols: nat, rows: nat, top: nat, bottom: nat)
    requires 1 <= bottom <= rows && top < rows && cols > 0
    ensures -1 <= (bottom - 1) * cols - 1 < rows * cols - cols
    ensures (bottom - 1) * cols == bottom * cols - cols && bottom * cols <= rows * cols
    ensures 0 <= top * cols
  {
    RowBounds(cols, rows, bottom);
    RowBounds(cols, rows, top);
  }

  lemma ScrolledByParts(s: Screen, m: Screen, r: seq<Cell>, start: nat, stop: nat)
    requires Sane(s) && m == s.(cells := m.cells)
    requires start == (s.top + 1) * s.cols && stop == s.bottom * s.cols && s.cols <= stop
    requires CopiedUp(s.cells, m.cells, s.cols, start, stop)
    requires Blanks(m, m.(cells := r), stop - s.cols, stop)
    ensures m.(cells := r) == Scrolled(s)
  {
    OneMoreRow(s.top, s.cols);
    assert r == Scrolled(s).cells;
  }

  lemma RevScrolledByParts(s: Screen, m: Screen, r: seq<Cell>, start: int, stop: nat)
    requires Sane(s) && m == s.(cells := m.cells)
    requires start == (s.bottom - 1) * s.cols - 1 && stop == s.top * s.cols
    requires CopiedDown(s.cells, m.cells, s.cols, start, stop)
    requires Blanks(m, m.(cells := r), stop, stop + s.cols)
    ensures m.(cells := r) == RevScrolled(s)
  {
    RowBounds(s.cols, s.rows, s.bottom);
    assert r == RevScrolled(s).cells;
  }

  lemma AtIs(cols: nat, x: nat, y: nat)
    ensures At(cols, x, y) == y * cols + x
  {
  }

  lemma SpotOf(b: Buffers, k: nat)
    requires k < |b.queue|
    ensures Spot(b, k) == At(b.cols, b.queue[k].x, b.queue[k].y)
  {
  }

  /** Queued writes and mapped cells correspond, and a queued write is what its cell is going to show. */
  ghost predicate Drains(b: Buffers, v: seq<Cell>) {
    && b.len <= |b.queue|
    && (forall j :: 0 <= j < |b.map_| && b.map_[j].Some? ==>
         b.map_[j].value < b.len && Spot(b, b.map_[j].value) == j) &&
    forall k :: 0 <= k < b.len ==>
      Spot(b, k) < |b.map_| && Spot(b, k) < |v| && b.map_[Spot(b, k)] == Some(k) && v[Spot(b, k)] == b.queue[k].c
  }

  /** After i rounds of the flush loop: writes before the i-th are committed and shown, the cursor's
      cell was committed beforehand and stays inverted. */
  ghost predicate Drained(b: Buffers, v: seq<Cell>, here: Option<nat>, was: Option<nat>, i: nat,
                          grid: seq<Cell>, pending: seq<Option<nat>>, shown: seq<Cell>) {
    && |grid| == |pending| == |shown| == |v| == |b.map_|
    && (forall j {:trigger pending[j]} :: 0 <= j < |v| ==>
          pending[j] == (if here == Some(j) || (b.map_[j].Some? && b.map_[j].value < i) then None else b.map_[j]))
    && (forall j {:trigger grid[j]} :: 0 <= j < |v| && pending[j] == None ==> grid[j] == v[j])
    && (forall j {:trigger shown[j]} :: 0 <= j < |v| && was != Some(j) && here != Some(j) ==> shown[j] == grid[j])
    && (here.Some? ==> here.value < |v| && shown[here.value] == Inverted(v[here.value]))
  }

  lemma DrainStep(b: Buffers, v: seq<Cell>, here: Option<nat>, was: Option<nat>, i: nat,
                  grid: seq<Cell>, pending: seq<Option<nat>>, shown: seq<Cell>)
    requires Drains(b, v) && i < b.len && Drained(b, v, here, was, i, grid, pending, shown)
    ensures Spot(b, i) < |v|
    ensures var o, c := Spot(b, i), b.queue[i].c;
            if pending[o].Some? then Drained(b, v, here, was, i + 1, grid[o := c], pending[o := None], shown[o := c])
            else Drained(b, v, here, was, i + 1, grid, pending, shown)
  {
    hide Spot;
    var o, c := Spot(b, i), b.queue[i].c;
    assert b.map_[o] == Some(i) && v[o] == c;
    if pending[o].Some? {
      var g, p, d := grid[o := c], pending[o := None], shown[o := c];
      forall j | 0 <= j < |v|
        ensures p[j] == (if here == Some(j) || (b.map_[j].Some? && b.map_[j].value < i + 1) then None else b.map_[j])
      {
        assert b.map_[j] == Some(i) ==> j == o;
      }
    } else {
      assert here == Some(o);
      forall j | 0 <= j < |v|
        ensures pending[j] ==
          (if here == Some(j) || (b.map_[j].Some? && b.map_[j].value < i + 1) then None else b.map_[j])
      {
        assert b.map_[j] == Some(i) ==> j == o;
      }
    }
  }

  /** Grid, map and display: what the flush loop writes. */
  datatype Drawing = Drawing(grid: seq<Cell>, pending: seq<Option<nat>>, shown: seq<Cell>)

  predicate SpotsInRange(b: Buffers, size: nat) {
    b.len <= |b.queue| && forall k :: 0 <= k < b.len ==> Spot(b, k) < size
  }

  predicate SameSize(d: Drawing) {
    |d.grid| == |d.pending| == |d.shown|
  }

  /** One round: a queued write whose cell is mapped is committed and shown, and the cell unmapped. */
  function CommittedOne(b: Buffers, i: nat, d: Drawing): (e: Drawing)
    requires SameSize(d) && SpotsInRange(b, |d.grid|) && i < b.len
    ensures SameSize(e) && |e.grid| == |d.grid|
  {
    var o, c := Spot(b, i), b.queue[i].c;
    if d.pending[o].Some? then Drawing(d.grid[o := c], d.pending[o := None], d.shown[o := c]) else d
  }

  /** The rounds from the i-th on. */
  function Committed(b: Buffers, i: nat, d: Drawing): (e: Drawing)
    requires SameSize(d) && SpotsInRange(b, |d.grid|) && i <= b.len
    ensures SameSize(e) && |e.grid| == |d.grid|
    decreases b.len - i
  {
    if i == b.len then d else Committed(b, i + 1, CommittedOne(b, i, d))
  }

  predicate MapInQueue(size: nat, pending: seq<Option<nat>>) {
    forall j :: 0 <= j < |pending| && pending[j].Some? ==> pending[j].value < size
  }

  /** The cursor's cell shown inverted, its pending write, if any, committed. */
  function CursorDrawn(queue: seq<QueueItem>, here: Option<nat>, d: Drawing): (e: Drawing)
    requires SameSize(d)
    ensures SameSize(e) && |e.grid| == |d.grid|
  {
    if here.None? || here.value >= |d.grid| then d
    else
      var i := here.value;
      if d.pending[i].Some? && d.pending[i].value < |queue| then
        var c := queue[d.pending[i].value].c;
        Drawing(d.grid[i := c], d.pending[i := None], d.shown[i := Inverted(c)])
      else d.(shown := d.shown[i := Inverted(d.grid[i])])
  }

  /** The previous cursor's cell shown plainly, unless the cursor is still there. */
  function OldErased(was: Option<nat>, here: Option<nat>, d: Drawing): (e: Drawing)
    requires SameSize(d)
    ensures SameSize(e) && |e.grid| == |d.grid|
  {
    if was.None? || was == here || was.value >= |d.grid| then d
    else d.(shown := d.shown[was.value := d.grid[was.value]])
  }

  /** A whole flush. */
  function Flushed(b: Buffers, here: Option<nat>, was: Option<nat>, d: Drawing): (e: Drawing)
    requires SameSize(d) && SpotsInRange(b, |d.grid|)
    ensures SameSize(e) && |e.grid| == |d.grid|
  {
    OldErased(was, here, Committed(b, 0, CursorDrawn(b.queue, here, d)))
  }

  lemma NoCursorDrawn(queue: seq<QueueItem>, d: Drawing)
    requires SameSize(d)
    ensures CursorDrawn(queue, None, d) == d
  {
  }

  lemma PlaceInRange(cols: nat, rows: nat, x: nat, y: nat)
    ensures Place(cols, rows, x, y).Some? ==> Place(cols, rows, x, y).value < rows * cols
  {
    if x < cols && y < rows {
      AtInRange(cols, rows, x, y);
    }
  }

  /** With corresponding queue and map: the cursor's cell holds and shows what it was going to. */
  lemma CursorDrawnIs(b: Buffers, rows: nat, here: Option<nat>, shown: seq<Cell>)
    requires Consistent(b, rows) && |shown| == |b.grid| && (here.Some? ==> here.value < |b.grid|)
    ensures MapInQueue(|b.queue|, b.map_)
    ensures CursorDrawn(b.queue, here, Drawing(b.grid, b.map_, shown)) ==
      match here
      case None => Drawing(b.grid, b.map_, shown)
      case Some(i) =>
        Drawing(b.grid[i := LogicalCells(b)[i]], b.map_[i := None], shown[i := Inverted(LogicalCells(b)[i])])
  {
    hide Spot;
  }

  /** And a flush leaves nothing pending, the grid as it was going to be, and the display showing it with the
      cursor's cell inverted. */
  lemma FlushMeaning(b: Buffers, rows: nat, here: Option<nat>, was: Option<nat>, shown: seq<Cell>)
    requires Consistent(b, rows) && DrawnBut(shown, b.grid, was)
    requires (here.Some? ==> here.value < |b.grid|) && (was.Some? ==> was.value < |b.grid|)
    ensures MapInQueue(|b.queue|, b.map_) && SpotsInRange(b, |b.grid|)
    ensures var e := Flushed(b, here, was, Drawing(b.grid, b.map_, shown));
            e.grid == LogicalCells(b) && Displays(e.shown, e.grid, here)
            && forall i :: 0 <= i < |e.pending| ==> e.pending[i] == None
  {
    hide Spot, Logical, LogicalCells, Consistent, Drained, Drains, Committed, CursorDrawn, SpotsInRange;
    LengthsAgree(b, rows);
    var v := LogicalCells(b);
    CursorDrawnIs(b, rows, here, shown);
    SpotsDrain(b, v);
    var d := CursorDrawn(b.queue, here, Drawing(b.grid, b.map_, shown));
    DrainStart(b, v, here, was, shown, d.grid, d.pending, d.shown);
    DrainsAll(b, v, here, was, 0, d);
    var e := Committed(b, 0, d);
    DrainEnd(b, v, here, was, e.grid, e.pending, e.shown);
  }

  lemma DisplayedIsDrawn(shown: seq<Cell>, grid: seq<Cell>, here: Option<nat>, place: Option<nat>)
    requires Displays(shown, grid, here) && (here == None || here == place)
    ensures DrawnBut(shown, grid, place)
  {
  }

  lemma SpotsDrain(b: Buffers, v: seq<Cell>)
    requires Drains(b, v)
    ensures SpotsInRange(b, |v|)
  {
    hide Spot;
  }

  lemma {:induction false} DrainsAll(b: Buffers, v: seq<Cell>, here: Option<nat>, was: Option<nat>, i: nat, d: Drawing)
    requires Drains(b, v) && i <= b.len && SameSize(d) && |d.grid| == |v| && SpotsInRange(b, |d.grid|)
    requires Drained(b, v, here, was, i, d.grid, d.pending, d.shown)
    ensures var e := Committed(b, i, d); Drained(b, v, here, was, b.len, e.grid, e.pending, e.shown)
    decreases b.len - i
  {
    hide Spot, Drained, Drains, SpotsInRange;
    if i == b.len {
    } else {
      DrainStep(b, v, here, was, i, d.grid, d.pending, d.shown);
      DrainsAll(b, v, here, was, i + 1, CommittedOne(b, i, d));
    }
  }

  /** Of two queued writes to one cell the flush shows the first and drops the second. */
  lemma {:induction false} FirstWriteWins(b: Buffers, i: nat, j: nat, o: nat, d: Drawing)
    requires SameSize(d) && SpotsInRange(b, |d.grid|) && i <= j < b.len && Spot(b, j) == o
    requires d.pending[o].Some? && forall k :: i <= k < j ==> Spot(b, k) != o
    ensures var e := Committed(b, i, d); e.grid[o] == e.shown[o] == b.queue[j].c && e.pending[o] == None
    decreases b.len - i
  {
    hide Spot;
    if i == j {
      StaysCommitted(b, j + 1, o, CommittedOne(b, j, d));
    } else {
      assert Spot(b, i) != o;
      FirstWriteWins(b, i + 1, j, o, CommittedOne(b, i, d));
    }
  }

  lemma {:induction false} StaysCommitted(b: Buffers, i: nat, o: nat, d: Drawing)
    requires SameSize(d) && SpotsInRange(b, |d.grid|) && i <= b.len && o < |d.grid| && d.pending[o] == None
    ensures var e := Committed(b, i, d); e.grid[o] == d.grid[o] && e.shown[o] == d.shown[o] && e.pending[o] == None
    decreases b.len - i
  {
    hide Spot;
    if i == b.len {
    } else {
      StaysCommitted(b, i + 1, o, CommittedOne(b, i, d));
    }
  }

  /** What a full refresh over a pending write leads to: the cell is unmapped while its write stays queued, and a new
      write to the cell is queued behind it. The next flush shows the old character and drops the new one, unless
      the cursor is drawn in that cell then, which commits the new one first. */
  lemma RefreshLosesWrite(b: Buffers, rows: nat, x: nat, y: nat, c: Cell, shown: seq<Cell>,
                          here: Option<nat>, was: Option<nat>)
    requires Consistent(b, rows) && x < b.cols && y < rows && b.len < |b.queue| && |shown| == |b.grid|
    requires var i := At(b.cols, x, y); i < |b.map_| && b.map_[i].Some?
    ensures var i := At(b.cols, x, y);
            var d := Rewritten(b, x, y, c);
            SpotsInRange(d, |d.grid|) &&
            var e := Flushed(d, here, was, Drawing(d.grid, d.map_, shown));
            && e.grid[i] == (if here == Some(i) then c else LogicalCells(b)[i])
            && e.shown[i] == (if here == Some(i) then Inverted(c) else LogicalCells(b)[i]) && e.pending[i] == None
  {
    hide CursorDrawn, Committed, Spot;
    var i := At(b.cols, x, y);
    var j, d := b.map_[i].value, Rewritten(b, x, y, c);
    RewrittenSpots(b, rows, x, y, c);
    var drawn := CursorDrawn(d.queue, here, Drawing(d.grid, d.map_, shown));
    CursorDrawnHere(d, here, i, shown);
    if here == Some(i) {
      StaysCommitted(d, 0, i, drawn);
    } else {
      FirstWriteWins(d, 0, j, i, drawn);
    }
  }

  /** A full refresh with the cursor at (x, y), whose cell has a pending write, and a new write c to that cell. */
  function Rewritten(b: Buffers, x: nat, y: nat, c: Cell): Buffers
    requires At(b.cols, x, y) < |b.map_| == |b.grid| && b.len < |b.queue|
  {
    var i := At(b.cols, x, y);
    Buffers(b.cols, b.grid[i := LogicalCells(b)[i]], b.queue[b.len := QueueItem(x, y, c)], b.map_[i := Some(b.len)],
            b.len + 1)
  }

  lemma RewrittenSpots(b: Buffers, rows: nat, x: nat, y: nat, c: Cell)
    requires Consistent(b, rows) && x < b.cols && y < rows && b.len < |b.queue|
    requires var i := At(b.cols, x, y); i < |b.map_| && b.map_[i].Some?
    ensures var i, d := At(b.cols, x, y), Rewritten(b, x, y, c);
            var j := b.map_[i].value;
            && j < b.len && SpotsInRange(d, |d.grid|) && Spot(d, j) == i && d.queue[j].c == LogicalCells(b)[i]
            && forall k :: 0 <= k < j ==> Spot(d, k) != i
  {
    var i, d := At(b.cols, x, y), Rewritten(b, x, y, c);
    var j := b.map_[i].value;
    assert forall k :: 0 <= k < b.len ==> Spot(d, k) == Spot(b, k);
    assert Spot(d, b.len) == i;
    forall k | 0 <= k < j ensures Spot(d, k) != i {
      SpotsDistinct(b, rows, k, j);
    }
  }

  lemma CursorDrawnHere(d: Buffers, here: Option<nat>, i: nat, shown: seq<Cell>)
    requires |d.grid| == |d.map_| == |shown| && i < |d.grid| && 0 < d.len <= |d.queue| && d.map_[i] == Some(d.len - 1)
    ensures var e := CursorDrawn(d.queue, here, Drawing(d.grid, d.map_, shown)); var c := d.queue[d.len - 1].c;
            if here == Some(i) then e.grid[i] == c && e.shown[i] == Inverted(c) && e.pending[i] == None
            else e.pending[i].Some?
  {
  }

  lemma LengthsAgree(b: Buffers, rows: nat)
    requires Consistent(b, rows)
    ensures |b.grid| == |b.queue| == |b.map_| == rows * b.cols && b.len <= |b.queue|
    ensures forall i :: 0 <= i < |b.map_| && b.map_[i] == None ==> LogicalCells(b)[i] == b.grid[i]
    ensures Drains(b, LogicalCells(b))
  {
  }

  lemma DrainStart(b: Buffers, v: seq<Cell>, here: Option<nat>, was: Option<nat>, d: seq<Cell>,
                   grid: seq<Cell>, pending: seq<Option<nat>>, shown: seq<Cell>)
    requires |v| == |b.map_| == |b.grid| && DrawnBut(d, b.grid, was)
    requires forall i :: 0 <= i < |b.map_| && b.map_[i] == None ==> v[i] == b.grid[i]
    requires match here
             case None => grid == b.grid && pending == b.map_ && shown == d
             case Some(i) => i < |v| && grid == b.grid[i := v[i]] && pending == b.map_[i := None] &&
                             shown == d[i := Inverted(v[i])]
    ensures Drained(b, v, here, was, 0, grid, pending, shown)
  {
  }

  lemma DrainEnd(b: Buffers, v: seq<Cell>, here: Option<nat>, was: Option<nat>,
                 grid: seq<Cell>, pending: seq<Option<nat>>, shown: seq<Cell>)
    requires Drains(b, v) && Drained(b, v, here, was, b.len, grid, pending, shown)
    ensures grid == v && |shown| == |v| == |pending| && forall i :: 0 <= i < |pending| ==> pending[i] == None
    ensures forall j :: 0 <= j < |v| && was != Some(j) && here != Some(j) ==> shown[j] == v[j]
    ensures here.Some? ==> here.value < |v| && shown[here.value] == Inverted(v[here.value])
  {
    hide Spot;
  }

  lemma AllBlank(grid: seq<Cell>, shown: seq<Cell>, blank: Cell)
    requires |shown| == |grid| > 0 && forall i :: 0 <= i < |grid| ==> grid[i] == blank
    requires forall i :: 0 <= i < |grid| ==> shown[i] == if i == 0 then Inverted(blank) else blank
    ensures grid == seq(|grid|, i => blank) && DrawnBut(shown, grid, Some(0)) && Displays(shown, grid, Some(0))
  {
  }

  lemma AtOrigin(cols: nat)
    ensures At(cols, 0, 0) == 0
  {
  }

  lemma CursorsApart(cols: nat, rows: nat, x: nat, y: nat, u: nat, v: nat, enabled: bool)
    ensures Place(cols, rows, x, y).Some? && (x != u || y != v || !enabled) ==>
      (if enabled then Place(cols, rows, u, v) else None) != Place(cols, rows, x, y)
  {
    if enabled && Place(cols, rows, x, y).Some? && Place(cols, rows, u, v) == Place(cols, rows, x, y) {
      PlaceUnique(cols, rows, x, y, u, v);
    }
  }

  lemma EmptyQueueConsistent(b: Buffers, rows: nat)
    requires b.cols > 0 && rows > 0 && |b.grid| == |b.queue| == |b.map_| == rows * b.cols && b.len == 0
    requires forall i :: 0 <= i < |b.map_| ==> b.map_[i] == None
    ensures Consistent(b, rows) && LogicalCells(b) == b.grid
  {
  }
}
