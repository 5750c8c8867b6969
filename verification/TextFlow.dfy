/** Text that runs past the end of rows, and past the last row of the region: the screen is a window on a longer
    sheet. */
module TextFlow {
  import opened Bits
  import opened Arithmetic
  import opened Screen
  import opened TerminalSpec
  import opened TerminalSafety
  import opened TerminalLaws
  import opened RegionEditing

  // ---- one character, by rows --------------------------------------------------------------------

  /** A row with one cell replaced. */
  function RowWith(row: seq<Cell>, x: nat, c: Cell): seq<Cell> {
    if x < |row| then row[x := c] else row
  }

  lemma PutRow(s: Screen, x: nat, y: nat, c: Cell, r: nat)
    requires Sane(s) && r < s.rows
    ensures Row(Put(s, x, y, c), r) == if r == y then RowWith(Row(s, r), x, c) else Row(s, r)
  {
    if x < s.cols && y < s.rows {
      AtInRange(s.cols, s.rows, x, y);
      RowOrder(s.cols, s.rows, r, y);
      RowOrder(s.cols, s.rows, r, y + 1);
      RowBounds(s.cols, s.rows, r);
      RowBounds(s.cols, s.rows, r + 1);
      RowBounds(s.cols, s.rows, y + 1);
      var a, b := Row(Put(s, x, y, c), r), if r == y then RowWith(Row(s, r), x, c) else Row(s, r);
      forall j | 0 <= j < s.cols ensures a[j] == b[j] {
      }
    }
  }

  /** The row a wrap goes to: the next one, or the same one after scrolling at the bottom margin, clamped against the
      column count. */
  function WrapRow(s: Screen): nat
    requires s.cols > 0
  {
    Min(if s.cursor.y + 1 == s.bottom then s.cursor.y else s.cursor.y + 1, s.cols - 1)
  }

  /** The rows a wrap leaves behind: at the bottom margin the region has moved up by one. */
  function RowAfterWrap(s: Screen, r: nat): seq<Cell>
    requires Sane(s) && r < s.rows
  {
    if s.cursor.y + 1 == s.bottom then RowUp(s, s.top, s.bottom, 1, r) else Row(s, r)
  }

  /** A character in the row: its cell, and nothing else. */
  lemma PutInRow(s: Screen, c: Byte, r: nat)
    requires Sane(s) && s.cursor.x < s.cols && r < s.rows
    ensures var x, y, t := s.cursor.x, s.cursor.y, CharPut(s, c);
            && t.cursor == Cursor(x + 1, y)
            && Row(t, r) == if r == y then RowWith(Row(s, r), x, Cell(c, s.fg, s.bg)) else Row(s, r)
  {
    hide Put, Row, Scrolled;
    var p := Put(s, s.cursor.x, s.cursor.y, Cell(c, s.fg, s.bg));
    PutRow(s, s.cursor.x, s.cursor.y, Cell(c, s.fg, s.bg), r);
    RowIgnoresMargins(p, CharPut(s, c), r);
  }

  /** A character with a wrap pending: the rows after the wrap, with the character first in the row it goes to.
      Without scrolling this is what happens above the bottom margin. */
  lemma PutAcross(s: Screen, c: Byte, r: nat)
    requires Sane(s) && s.top < s.bottom && s.cursor.x >= s.cols && r < s.rows
    requires s.scrollEnabled || s.cursor.y + 1 < s.bottom
    ensures var t := CharPut(s, c);
            && t.cursor == Cursor(1, WrapRow(s))
            && Row(t, r) == if r == WrapRow(s) then RowWith(RowAfterWrap(s, r), 0, Cell(c, s.fg, s.bg))
                            else RowAfterWrap(s, r)
  {
    hide Put, Row, Scrolled;
    var w := Wrapped(s);
    WrapIs(s, r);
    var p := Put(w, 0, WrapRow(s), Cell(c, s.fg, s.bg));
    PutRow(w, 0, WrapRow(s), Cell(c, s.fg, s.bg), r);
    RowIgnoresMargins(p, CharPut(s, c), r);
  }

  lemma WrapIs(s: Screen, r: nat)
    requires Sane(s) && s.top < s.bottom && s.cursor.x >= s.cols && r < s.rows
    requires s.scrollEnabled || s.cursor.y + 1 < s.bottom
    ensures var w := Wrapped(s);
            && w == s.(cells := w.cells, cursor := Cursor(0, WrapRow(s)))
            && Row(w, r) == RowAfterWrap(s, r)
  {
    hide Row, Scrolled;
    if s.cursor.y + 1 == s.bottom {
      ScrolledTimesRows(s, 1, r);
      assert ScrolledTimes(s, 0) == s && ScrolledTimes(s, 1) == Scrolled(s);
      CursorApart(s, Cursor(0, s.cursor.y));
      RowIgnoresMargins(Scrolled(s), Wrapped(s), r);
    } else {
      RowIgnoresMargins(s, Wrapped(s), r);
    }
  }

  lemma CursorApart(s: Screen, c: Cursor)
    requires Sane(s)
    ensures Scrolled(s.(cursor := c)) == Scrolled(s).(cursor := c)
  {
  }

  // ---- a run of characters -------------------------------------------------------------------------

  /** The characters of gs, one after another. */
  function AllPut(s: Screen, gs: seq<Byte>): (t: Screen)
    requires Sane(s)
    ensures Sane(t) && t == s.(cells := t.cells, cursor := t.cursor)
  {
    if gs == [] then s
    else
      PutKeeps(AllPut(s, gs[..|gs| - 1]), gs[|gs| - 1]);
      CharPut(AllPut(s, gs[..|gs| - 1]), gs[|gs| - 1])
  }

  /** The position after the last of n characters, on a sheet that has no end. */
  function SheetEnd(s: Screen, n: nat): nat {
    At(s.cols, s.cursor.x, s.cursor.y) + n
  }

  /** Cell g of the sheet: the screen down to the end of the region with the text written over it from the cursor
      on, and blank cells behind. */
  function SheetCell(s: Screen, gs: seq<Byte>, g: nat): Cell
    requires Sane(s)
  {
    var from := At(s.cols, s.cursor.x, s.cursor.y);
    if from <= g < from + |gs| then Cell(gs[g - from], s.fg, s.bg)
    else if g < At(s.cols, 0, s.bottom) && g < |s.cells| then s.cells[g]
    else Blank(s)
  }

  /** The screen shows the sheet moved up by k rows, in the region; the rest of the screen is as it was. */
  ghost predicate Window(s: Screen, t: Screen, gs: seq<Byte>, k: nat) {
    Sane(s) && |t.cells| == |s.cells| &&
    forall i {:trigger t.cells[i]} :: 0 <= i < |s.cells| ==>
      t.cells[i] ==
        if At(s.cols, 0, s.top) <= i < At(s.cols, 0, s.bottom) then SheetCell(s, gs, i + At(s.cols, 0, k))
        else s.cells[i]
  }

  /** The cursor after the text, having moved up by k rows with it: on the last row of the region if there was any
      need to move. */
  ghost predicate FlowCursor(s: Screen, t: Screen, n: nat, k: nat) {
    && At(s.cols, t.cursor.x, t.cursor.y) + At(s.cols, 0, k) == SheetEnd(s, n)
    && t.cursor.x <= s.cols && s.top <= t.cursor.y < s.bottom && (k > 0 ==> t.cursor.y == s.bottom - 1)
    && (n > 0 ==> t.cursor.x > 0)
  }

  /** Where a run of text can flow: from inside a region that the clamp against the column count does not reach. */
  predicate CanFlow(s: Screen) {
    s.cursor.x <= s.cols && s.top <= s.cursor.y < s.bottom <= s.cols && s.scrollEnabled
  }

  lemma NoTextYet(s: Screen)
    requires Sane(s) && CanFlow(s)
    ensures Window(s, s, [], 0) && FlowCursor(s, s, 0, 0)
  {
    RowBounds(s.cols, s.rows, s.bottom);
  }

  /** What the steps need of the region's last row and of the cursor. */
  lemma FlowBounds(s: Screen, u: Screen, n: nat, k: nat)
    requires Sane(s) && CanFlow(s) && FlowCursor(s, u, n, k)
    ensures At(s.cols, 0, s.bottom) == At(s.cols, 0, s.bottom - 1) + s.cols <= |s.cells|
    ensures At(s.cols, 0, s.top) <= At(s.cols, 0, u.cursor.y)
    ensures At(s.cols, 0, u.cursor.y + 1) == At(s.cols, 0, u.cursor.y) + s.cols <= At(s.cols, 0, s.bottom)
    ensures At(s.cols, u.cursor.x, u.cursor.y) == At(s.cols, 0, u.cursor.y) + u.cursor.x
    ensures At(s.cols, 0, k + 1) == At(s.cols, 0, k) + s.cols
  {
    OneMoreRow(s.bottom - 1, s.cols);
    OneMoreRow(u.cursor.y, s.cols);
    OneMoreRow(k, s.cols);
    RowBounds(s.cols, s.rows, s.bottom);
    ProductOrder(s.top, u.cursor.y, s.cols);
    ProductOrder(u.cursor.y + 1, s.bottom, s.cols);
  }

  /** One more character in the row. */
  lemma FlowInRow(s: Screen, u: Screen, front: seq<Byte>, c: Byte, k: nat)
    requires Sane(s) && CanFlow(s) && Sane(u) && u == s.(cells := u.cells, cursor := u.cursor)
    requires Window(s, u, front, k) && FlowCursor(s, u, |front|, k) && u.cursor.x < u.cols
    ensures var t := CharPut(u, c); Window(s, t, front + [c], k) && FlowCursor(s, t, |front| + 1, k)
  {
    FlowBounds(s, u, |front|, k);
    var t, p := CharPut(u, c), At(u.cols, u.cursor.x, u.cursor.y);
    AtInRange(u.cols, u.rows, u.cursor.x, u.cursor.y);
    assert t.cells == u.cells[p := Cell(c, s.fg, s.bg)] && t.cursor == Cursor(u.cursor.x + 1, u.cursor.y);
    assert At(s.cols, t.cursor.x, t.cursor.y) == p + 1;
    hide At, CharPut;
    OneMoreCharacter(s, u.cells, t.cells, front, c, k, p);
  }

  /** One more character, first in the next row of the region. */
  lemma FlowToNext(s: Screen, u: Screen, front: seq<Byte>, c: Byte, k: nat)
    requires Sane(s) && CanFlow(s) && Sane(u) && u == s.(cells := u.cells, cursor := u.cursor)
    requires Window(s, u, front, k) && FlowCursor(s, u, |front|, k) && u.cursor.x == u.cols
    requires u.cursor.y + 1 < u.bottom
    ensures var t := CharPut(u, c); Window(s, t, front + [c], k) && FlowCursor(s, t, |front| + 1, k)
  {
    FlowBounds(s, u, |front|, k);
    var t, p := CharPut(u, c), At(u.cols, 0, u.cursor.y + 1);
    AtInRange(u.cols, u.rows, 0, u.cursor.y + 1);
    assert Wrapped(u) == u.(cursor := Cursor(0, u.cursor.y + 1));
    assert t.cells == u.cells[p := Cell(c, s.fg, s.bg)] && t.cursor == Cursor(1, u.cursor.y + 1);
    assert At(s.cols, t.cursor.x, t.cursor.y) == p + 1;
    OneMoreRow(u.cursor.y + 1, s.cols);
    ProductOrder(u.cursor.y + 2, s.bottom, s.cols);
    assert p < At(s.cols, 0, s.bottom);
    hide At, CharPut;
    OneMoreCharacter(s, u.cells, t.cells, front, c, k, p);
  }

  /** Writing it at its position of the region writes it on the sheet. */
  lemma OneMoreCharacter(s: Screen, before: seq<Cell>, after: seq<Cell>, front: seq<Byte>, c: Byte, k: nat, p: nat)
    requires Sane(s) && |before| == |s.cells| && Window(s, s.(cells := before), front, k)
    requires At(s.cols, 0, s.top) <= p < At(s.cols, 0, s.bottom) && p < |before|
    requires p + At(s.cols, 0, k) == SheetEnd(s, |front|) && after == before[p := Cell(c, s.fg, s.bg)]
    ensures Window(s, s.(cells := after), front + [c], k)
  {
    hide At;
  }

  /** One more character on the region's last row, once that has moved up. */
  lemma FlowScrolls(s: Screen, u: Screen, front: seq<Byte>, c: Byte, k: nat)
    requires Sane(s) && CanFlow(s) && Sane(u) && u == s.(cells := u.cells, cursor := u.cursor)
    requires Window(s, u, front, k) && FlowCursor(s, u, |front|, k) && u.cursor == Cursor(u.cols, u.bottom - 1)
    ensures var t := CharPut(u, c); Window(s, t, front + [c], k + 1) && FlowCursor(s, t, |front| + 1, k + 1)
  {
    FlowBounds(s, u, |front|, k);
    var v, p := Scrolled(u.(cursor := Cursor(0, u.bottom - 1))), At(u.cols, 0, u.bottom - 1);
    assert Wrapped(u) == v;
    AtInRange(u.cols, u.rows, 0, u.bottom - 1);
    var t := CharPut(u, c);
    assert t.cells == v.cells[p := Cell(c, s.fg, s.bg)] && t.cursor == Cursor(1, u.bottom - 1);
    assert At(s.cols, 1, u.bottom - 1) == p + 1;
    assert forall i {:trigger v.cells[i]} :: 0 <= i < |v.cells| ==>
      v.cells[i] == MovedUp(u.cells, u.cols, At(s.cols, 0, s.top), At(s.cols, 0, s.bottom), Blank(s), i);
    hide At, CharPut, Scrolled;
    ScrolledSheet(s, u.cells, v.cells, t.cells, front, c, k, p);
  }

  lemma ScrolledSheet(s: Screen, before: seq<Cell>, moved: seq<Cell>, after: seq<Cell>, front: seq<Byte>, c: Byte,
                      k: nat, p: nat)
    requires Sane(s) && |before| == |moved| == |s.cells| && Window(s, s.(cells := before), front, k)
    requires At(s.cols, 0, s.top) <= p && p + s.cols == At(s.cols, 0, s.bottom) <= |before|
    requires At(s.cols, 0, s.bottom) + At(s.cols, 0, k) == SheetEnd(s, |front|)
    requires At(s.cols, 0, k + 1) == At(s.cols, 0, k) + s.cols
    requires forall i {:trigger moved[i]} :: 0 <= i < |moved| ==>
      moved[i] == MovedUp(before, s.cols, At(s.cols, 0, s.top), At(s.cols, 0, s.bottom), Blank(s), i)
    requires after == moved[p := Cell(c, s.fg, s.bg)]
    ensures Window(s, s.(cells := after), front + [c], k + 1)
  {
    hide At;
    var from, to, gs := At(s.cols, 0, s.top), At(s.cols, 0, s.bottom), front + [c];
    forall i {:trigger after[i]} | from <= i < to ensures after[i] == SheetCell(s, gs, i + At(s.cols, 0, k + 1)) {
      if i + s.cols < to {
        assert moved[i] == before[i + s.cols];
        assert before[i + s.cols] == SheetCell(s, front, i + s.cols + At(s.cols, 0, k));
      }
    }
  }

  /** The text is written on the sheet and the screen shows the part of it that ends with the text, scrolled no
      further than that takes. */
  lemma {:induction false} TextFlows(s: Screen, gs: seq<Byte>) returns (k: nat)
    requires Sane(s) && CanFlow(s)
    ensures var t := AllPut(s, gs); Window(s, t, gs, k) && FlowCursor(s, t, |gs|, k)
    decreases |gs|
  {
    hide At, CharPut, Window;
    if gs == [] {
      k := 0;
      NoTextYet(s);
    } else {
      var front, c := gs[..|gs| - 1], gs[|gs| - 1];
      k := TextFlows(s, front);
      var u := AllPut(s, front);
      if u.cursor.x < s.cols {
        FlowInRow(s, u, front, c, k);
      } else if u.cursor.y + 1 < s.bottom {
        FlowToNext(s, u, front, c, k);
      } else {
        FlowScrolls(s, u, front, c, k);
        k := k + 1;
      }
      assert gs == front + [c];
    }
  }

  // ---- over bytes ---------------------------------------------------------------------------------------

  /** Plain characters are drawn as themselves in the default set. */
  predicate DefaultSet(p: Parser) {
    p.charsets.current <= 1 && (if p.charsets.current == 0 then p.charsets.g0 else p.charsets.g1) == 0
  }

  lemma PlainGlyph(p: Parser, c: Byte)
    requires DefaultSet(p) && 0x20 <= c <= 0x7E
    ensures GlyphOf(p, c) == c
  {
  }

  /** With insert mode off, a byte of text puts its character and does nothing else. */
  lemma TextByte(k: Config, t: Term, c: Byte)
    requires Ok(k, t) && Ground(t.p) && !t.p.modes.insert && DefaultSet(t.p) && 0x20 <= c <= 0x7E
    ensures Step(k, t, c) == t.(s := CharPut(t.s, c))
  {
    hide CharPut, GlyphOf, CursorSeen;
    PlainGlyph(t.p, c);
  }

  lemma {:induction false} TextPuts(k: Config, t: Term, text: seq<Byte>)
    requires Ok(k, t) && Ground(t.p) && !t.p.modes.insert && DefaultSet(t.p) && IsText(text)
    ensures Ok(k, Feed(k, t, text)) && Feed(k, t, text) == t.(s := AllPut(t.s, text))
    decreases |text|
  {
    hide Step, CharPut;
    EveryByteStringKeepsOk(k, t, text);
    if text == [] {
    } else {
      var front, c := text[..|text| - 1], text[|text| - 1];
      assert text == front + [c];
      TextPuts(k, t, front);
      FeedInPieces(k, t, front, [c]);
      var u := Feed(k, t, front);
      FeedOne(k, u, c);
      TextByte(k, u, c);
    }
  }

  /** Text fed to the terminal: the region shows the end of the sheet it is written on, with every character as
      itself in the colours in force; rows outside the region stay. */
  lemma FedTextFlows(k: Config, t: Term, text: seq<Byte>) returns (n: nat)
    requires Ok(k, t) && Ground(t.p) && !t.p.modes.insert && DefaultSet(t.p) && IsText(text) && CanFlow(t.s)
    ensures var u := Feed(k, t, text);
            u == t.(s := t.s.(cells := u.s.cells, cursor := u.s.cursor))
            && Window(t.s, u.s, text, n) && FlowCursor(t.s, u.s, |text|, n)
  {
    hide Feed, Window, FlowCursor, CanFlow;
    TextPuts(k, t, text);
    n := TextFlows(t.s, text);
  }

  /** Bytes 14 and 15 select G1 and G0. */
  lemma ShiftSelects(k: Config, t: Term)
    requires Ok(k, t) && Ground(t.p)
    ensures Feed(k, t, [14]) == t.(p := t.p.(charsets := t.p.charsets.(current := 1)))
    ensures Feed(k, t, [15]) == t.(p := t.p.(charsets := t.p.charsets.(current := 0)))
  {
    hide Feed, CursorSeen;
    FeedOne(k, t, 14);
    FeedOne(k, t, 15);
  }

  /** `ESC (` and `ESC )` with B or 0 make the default or the line-drawing set G0 or G1. */
  lemma SetsDesignated(k: Config, t: Term, g: Byte, c: Byte)
    requires Ok(k, t) && Ground(t.p) && (g == 0x28 || g == 0x29) && (c == 0x42 || c == 0x30)
    ensures var n := if c == 0x42 then 0 else 1;
            var sets := if g == 0x28 then t.p.charsets.(g0 := n) else t.p.charsets.(g1 := n);
            Feed(k, t, [0x1B, g] + [c]) == t.(p := t.p.(escapeOffset := 1, charsets := sets))
  {
    hide Feed, CursorSeen;
    FeedTwo(k, t, 0x1B, g);
    FeedInPieces(k, t, [0x1B, g], [c]);
    FeedOne(k, Feed(k, t, [0x1B, g]), c);
  }

  /** The characters of the line-drawing set and what code page 437 has for them. */
  const LINE_DRAWING: map<int, Byte> := map[
    '`' as int := 0x04, '0' as int := 0xdb, '-' as int := 0x18, ',' as int := 0x1b, '.' as int := 0x19,
    'a' as int := 0xb1, 'f' as int := 0xf8, 'g' as int := 0xf1, 'h' as int := 0xb0, 'j' as int := 0xd9,
    'k' as int := 0xbf, 'l' as int := 0xda, 'm' as int := 0xc0, 'n' as int := 0xc5, 'q' as int := 0xc4,
    's' as int := 0x5f, 't' as int := 0xc3, 'u' as int := 0xb4, 'v' as int := 0xc1, 'w' as int := 0xc2,
    'x' as int := 0xb3, 'y' as int := 0xf3, 'z' as int := 0xf2, '~' as int := 0xfa, '_' as int := 0xff,
    '+' as int := 0x1a, '{' as int := 0xe3, '}' as int := 0x9c]

  /** Those are drawn so when that set is selected, and every other printable character as itself. */
  lemma LineGlyphs(p: Parser, c: Byte)
    requires p.charsets.current <= 1 && (if p.charsets.current == 0 then p.charsets.g0 else p.charsets.g1) == 1
    requires 0x20 <= c <= 0x7E
    ensures GlyphOf(p, c) == if c in LINE_DRAWING then LINE_DRAWING[c] else c
  {
    hide DecSpecial;
    if c < 0x61 {
      DrawnBelowA(c);
    } else if c < 0x6E {
      DrawnUpToM(c);
    } else {
      DrawnFromN(c);
    }
  }

  lemma DrawnBelowA(c: Byte)
    requires c < 0x61
    ensures DecSpecial(c) == if c in LINE_DRAWING then Some(LINE_DRAWING[c]) else None
  {
  }

  lemma DrawnUpToM(c: Byte)
    requires 0x61 <= c < 0x6E
    ensures DecSpecial(c) == if c in LINE_DRAWING then Some(LINE_DRAWING[c]) else None
  {
  }

  lemma DrawnFromN(c: Byte)
    requires 0x6E <= c
    ensures DecSpecial(c) == if c in LINE_DRAWING then Some(LINE_DRAWING[c]) else None
  {
  }
}
