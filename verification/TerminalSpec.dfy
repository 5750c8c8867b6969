/** The terminal emulator as a function from state and byte to state: escape, CSI, OSC, UTF-8
    and character-set handling (ECMA-48 section 5.4, RFC 3629 section 3). */
module TerminalSpec {
  import opened Bits
  import opened Screen
  import Sgr


  /** What stays fixed: the number of parameters kept, colours, and the two code-point tables. */
  datatype Config = Config(maxValues: nat, palette: Sgr.Palette, cp437: nat -> int, width: nat -> nat)

  ghost predicate ConfigOk(k: Config) {
    2 <= k.maxValues && Sgr.PaletteOk(k.palette) && forall cp: nat :: -1 <= k.cp437(cp) < 256
  }

  /** The renditions in force, apart from the two colours, which the screen has. */
  datatype Look = Look(bold: bool, bgBold: bool, reverse: bool, primary: int, back: int)

  /** The two designated character sets and the one in use. */
  datatype Charsets = Charsets(g0: nat, g1: nat, current: nat)

  /** A control sequence in progress: parameters so far, and whether a digit of the next one was seen. */
  datatype Csi = Csi(active: bool, decPrivate: bool, rrr: bool, values: seq<nat>, count: nat)

  /** An operating system command in progress. */
  datatype Osc = Osc(active: bool, escape: bool)

  datatype Modes = Modes(insert: bool, autoflush: bool, onlcr: bool)

  /** A multi-byte character in progress. */
  datatype Utf8 = Utf8(remaining: nat, codePoint: nat)

  datatype Parser = Parser(
    escape: bool, escapeOffset: nat, csi: Csi, osc: Osc, discardNext: bool, modes: Modes, tabSize: nat, utf8: Utf8,
    gSelect: nat, charsets: Charsets, savedCursor: Cursor, look: Look, savedLook: Look, savedCharset: nat)

  /** Parser and screen together. */
  datatype Term = Term(p: Parser, s: Screen)

  ghost predicate LookOk(l: Look) {
    -1 <= l.primary < 8 && -1 <= l.back < 8
  }

  ghost predicate CsiOk(k: Config, q: Csi) {
    && |q.values| == k.maxValues && q.count <= k.maxValues && (q.rrr ==> q.count < k.maxValues)
    && (forall i :: 0 <= i < |q.values| ==> q.values[i] < U32)
  }

  ghost predicate ParserOk(k: Config, p: Parser) {
    && CsiOk(k, p.csi)
    && p.utf8.remaining <= 3 && p.gSelect <= 2 && p.tabSize == 8
    && p.charsets.g0 <= 1 && p.charsets.g1 <= 1 && p.charsets.current <= 1 && p.savedCharset <= 1
    && LookOk(p.look) && LookOk(p.savedLook)
  }

  /** The cursor row can leave the grid (see RowEscapes) but not go past the larger dimension. */
  ghost predicate CursorOk(cols: nat, rows: nat, c: Cursor) {
    c.x <= cols && (c.y < rows || c.y < cols)
  }

  /** The margins enclose the whole screen or at least two of its rows. */
  predicate RegionOk(s: Screen) {
    s.top < s.bottom && (s.top + 2 <= s.bottom || (s.top == 0 && s.bottom == s.rows))
  }

  /** Sizes a display can have, and proper margins. */
  ghost predicate ScreenOk(s: Screen) {
    && Sane(s) && s.cols < 0x8000_0000 && s.rows < 0x8000_0000
    && RegionOk(s) && CursorOk(s.cols, s.rows, s.cursor) && CursorOk(s.cols, s.rows, s.saved.cursor)
  }

  /** What holds between any two bytes. */
  ghost predicate Ok(k: Config, t: Term) {
    ConfigOk(k) && ParserOk(k, t.p) && ScreenOk(t.s) && t.s.scrollEnabled
  }

  // ---- small pieces -------------------------------------------------------------------------

  /** n characters in a row. */
  function CharsPut(s: Screen, c: Byte, n: nat): (t: Screen)
    requires Sane(s)
    ensures Sane(t) && t == s.(cells := t.cells, cursor := t.cursor)
  {
    if n == 0 then s else PutKeeps(CharsPut(s, c, n - 1), c); CharPut(CharsPut(s, c, n - 1), c)
  }

  lemma PutKeeps(s: Screen, c: Byte)
    requires Sane(s)
    ensures CharPut(s, c) == s.(cells := CharPut(s, c).cells, cursor := CharPut(s, c).cursor)
  {
  }

  function ScrolledTimes(s: Screen, n: nat): (t: Screen)
    requires Sane(s)
    ensures Sane(t) && t == s.(cells := t.cells)
  {
    if n == 0 then s else Scrolled(ScrolledTimes(s, n - 1))
  }

  function RevScrolledTimes(s: Screen, n: nat): (t: Screen)
    requires Sane(s)
    ensures Sane(t) && t == s.(cells := t.cells)
  {
    if n == 0 then s else RevScrolled(RevScrolledTimes(s, n - 1))
  }

  /** The colours of the screen and the renditions of the parser as one colour state. */
  function ColoursOf(t: Term): Sgr.Colours {
    var l := t.p.look;
    Sgr.Colours(t.s.fg, t.s.bg, l.bold, l.bgBold, l.reverse, l.primary, l.back)
  }

  function WithColours(t: Term, c: Sgr.Colours): Term {
    Term(t.p.(look := Look(c.bold, c.bgBold, c.reverse, c.primary, c.back)),
         t.s.(fg := c.fg, bg := c.bg))
  }

  function Min(a: nat, b: nat): nat {
    if a <= b then a else b
  }

  function Zeros(n: nat): (r: seq<nat>)
    ensures |r| == n && forall i :: 0 <= i < n ==> r[i] == 0
  {
    seq(n, _ => 0)
  }

  /** The power-on parser state, everything but what a reset leaves alone. */
  function Reinit(p: Parser): Parser {
    p.(tabSize := 8, modes := Modes(false, true, true), escape := false, escapeOffset := 0, discardNext := false,
       csi := Csi(false, false, false, p.csi.values, 0), osc := Osc(false, false), utf8 := Utf8(0, p.utf8.codePoint),
       look := Look(false, false, false, -1, -1), gSelect := 0, charsets := Charsets(0, 1, 0),
       savedCursor := Cursor(0, 0))
  }

  function ReinitScreen(s: Screen): Screen {
    s.(cursorEnabled := true, scrollEnabled := true, top := 0, bottom := s.rows)
  }

  // ---- control sequences -------------------------------------------------------------------------

  function EndSequence(p: Parser): Parser {
    p.(csi := p.csi.(active := false), escape := false)
  }

  predicate IsDigit(c: Byte) {
    0x30 <= c <= 0x39
  }

  /** A digit of the current parameter, in 32 bits. */
  function Digit(k: Config, q: Csi, c: Byte): (r: Csi)
    requires CsiOk(k, q) && IsDigit(c)
    ensures r == q.(rrr := r.rrr, values := r.values) && CsiOk(k, r)
    ensures forall i :: 0 <= i < |q.values| && i != q.count ==> r.values[i] == q.values[i]
  {
    if q.count == k.maxValues then q
    else q.(rrr := true, values := q.values[q.count := ((q.values[q.count] * 10) % U32 + (c - 0x30)) % U32])
  }

  /** A separator: ends the parameter, or stands for an empty one. */
  function Separator(k: Config, q: Csi): (r: Csi)
    requires CsiOk(k, q)
    ensures r == q.(rrr := r.rrr, values := r.values, count := r.count)
  {
    if q.rrr then q.(count := q.count + 1, rrr := false)
    else if q.count == k.maxValues then q
    else q.(values := q.values[q.count := 0], count := q.count + 1)
  }

  /** The parameter that was being entered, if any, is complete. */
  function Counted(q: Csi): Csi {
    if q.rrr then q.(count := q.count + 1, rrr := false) else q
  }

  /** The parameters after the last one given take the final byte's default. */
  function Defaulted(q: Csi, c: Byte): (r: Csi)
    requires q.count <= |q.values|
    ensures r == q.(values := r.values) && |r.values| == |q.values|
    ensures forall i :: 0 <= i < |r.values| ==> r.values[i] == if i < q.count then q.values[i] else DefaultValue(c)
  {
    q.(values := q.values[..q.count] + seq(|q.values| - q.count, _ => DefaultValue(c)))
  }

  /** 0 for J, K and q, 1 for the rest. */
  function DefaultValue(c: Byte): nat {
    if c == 0x4A || c == 0x4B || c == 0x71 then 0 else 1
  }

  /** Cursor up: stops at the top margin when it starts or passes inside the region. */
  function UpTarget(s: Screen, y: nat, n: nat): nat {
    var dest := y - Min(n, y);
    if ((dest <= s.top <= y) || (dest <= s.bottom <= y)) && dest < s.top then s.top else dest
  }

  function DownTarget(s: Screen, y: nat, n: nat): nat
    requires y < s.rows && s.bottom >= 1
  {
    var dest := y + Min(n, s.rows - 1 - y);
    if ((y <= s.top <= dest) || (y <= s.bottom <= dest)) && dest >= s.bottom then s.bottom - 1 else dest
  }

  /** `v - 1` in 32 bits, clamped below limit. */
  function Ordinal(v: nat, limit: nat): nat
    requires limit > 0
  {
    var w := if v == 0 then U32 - 1 else v - 1;
    if w >= limit then limit - 1 else w
  }

  function Homed(v: nat, limit: nat): nat
    requires limit > 0
  {
    var w := if v == 0 then 0 else v - 1;
    if w >= limit then limit - 1 else w
  }

  /** How many cells there are from (x, y) to the end. */
  function CellsAfter(cols: nat, rows: nat, x: nat, y: nat): nat
    requires x < cols && y < rows
  {
    var rowsRemaining: nat := rows - (y + 1);
    var colsDiff: nat := cols - (x + 1);
    rowsRemaining * cols + colsDiff + 1
  }

  /** How many cells there are up to and including (x, y). */
  function CellsUpTo(cols: nat, x: nat, y: nat): nat {
    y * cols + x + 1
  }

  /** Erase in display. */
  function Erased(s: Screen, c: Cursor, v: nat): (t: Screen)
    requires Sane(s) && c.x < s.cols && c.y < s.rows
    ensures Sane(t) && t == s.(cells := t.cells, cursor := t.cursor)
  {
    hide CharsPut, CursorSet, Cleared;
    if v == 0 then
      CursorSet(CharsPut(s, 0x20, CellsAfter(s.cols, s.rows, c.x, c.y)), c.x, c.y)
    else if v == 1 then CursorSet(CharsPut(CursorSet(s, 0, 0), 0x20, CellsUpTo(s.cols, c.x, c.y)), c.x, c.y)
    else if v == 2 || v == 3 then Cleared(s, false)
    else s
  }

  /** Erase in line. */
  function LineErased(s: Screen, c: Cursor, v: nat): (t: Screen)
    requires Sane(s) && c.x < s.cols && c.y < s.rows
    ensures Sane(t) && t == s.(cells := t.cells, cursor := t.cursor)
  {
    if v == 0 then CursorSet(CharsPut(s, 0x20, s.cols - c.x), c.x, c.y)
    else if v == 1 then CharsPut(CursorSet(s, 0, c.y), 0x20, c.x)
    else if v == 2 then CursorSet(CharsPut(CursorSet(s, 0, c.y), 0x20, s.cols), c.x, c.y)
    else s
  }

  /** The insert loop at columns i down to x of row y. */
  function Inserted(s: Screen, x: nat, y: nat, n: nat, i: nat): (t: Screen)
    requires Sane(s) && x <= i < s.cols && y < s.rows
    ensures Sane(t) && t == s.(cells := t.cells, cursor := t.cursor)
    decreases i
  {
    MoveKeeps(s, i + n, y, i, y);
    var u := CursorSet(CharMoved(s, i + n, y, i, y), i, y);
    PutKeeps(u, 0x20);
    var w := CharPut(u, 0x20);
    if i == x then w else Inserted(w, x, y, n, i - 1)
  }

  lemma MoveKeeps(s: Screen, newX: nat, newY: nat, oldX: nat, oldY: nat)
    requires Sane(s)
    ensures Sane(CharMoved(s, newX, newY, oldX, oldY))
    ensures CharMoved(s, newX, newY, oldX, oldY) == s.(cells := CharMoved(s, newX, newY, oldX, oldY).cells)
  {
  }

  /** The delete loop from column i on. */
  function PulledLeft(s: Screen, y: nat, n: nat, i: nat): (t: Screen)
    requires Sane(s) && y < s.rows && n <= i
    ensures Sane(t) && t == s.(cells := t.cells)
    decreases if i < s.cols then s.cols - i else 0
  {
    if i >= s.cols then s
    else
      MoveKeeps(s, i - n, y, i, y);
      PulledLeft(CharMoved(s, i - n, y, i, y), y, n, i + 1)
  }

  /** Erase n characters at the cursor, which then returns to c. */
  function CharsErased(s: Screen, c: Cursor, n: nat): (t: Screen)
    requires Sane(s) && s.cols > 0
    ensures Sane(t) && t == s.(cells := t.cells, cursor := t.cursor)
  {
    CursorSet(CharsPut(s, 0x20, Min(n, s.cols)), c.x, c.y)
  }

  /** `cols - n` in 64 bits. */
  function ColumnsLess(cols: nat, n: nat): nat
    requires n < U32
  {
    if n <= cols then cols - n else WORD_LIMIT + cols - n
  }

  function Deleted(s: Screen, c: Cursor, n: nat): (t: Screen)
    requires Sane(s) && c.x < s.cols && c.y < s.rows && n < U32
    ensures Sane(t) && t == s.(cells := t.cells, cursor := t.cursor)
  {
    CharsErased(CursorSet(PulledLeft(s, c.y, n, c.x + n), ColumnsLess(s.cols, n), c.y), c, n)
  }

  /** The region from top to bottom, or the whole screen if that is impossible or a single row. */
  function Region(s: Screen, top: nat, bottom: nat): (t: Screen)
    requires Sane(s)
    ensures Sane(t) && t == s.(top := t.top, bottom := t.bottom) && RegionOk(t)
  {
    if top >= s.rows || bottom > s.rows || top >= bottom - 1 then s.(top := 0, bottom := s.rows)
    else s.(top := top, bottom := bottom)
  }

  /** Set top and bottom margins; a parameter of 0 is 1. */
  function Margins(s: Screen, values: seq<nat>, count: nat): (t: Screen)
    requires Sane(s) && 2 <= |values|
    ensures Sane(t) && t == s.(top := t.top, bottom := t.bottom, cursor := t.cursor)
    ensures RegionOk(t)
  {
    var v0 := if values[0] == 0 then 1 else values[0];
    var v1 := if values[1] == 0 then 1 else values[1];
    var top := if count > 0 then v0 - 1 else 0;
    var bottom := if count > 1 then v1 else s.rows;
    CursorSet(Region(s, top, bottom), 0, 0)
  }

  /** The final bytes that move the cursor. */
  predicate Moves(c: Byte) {
    c == 0x46 || c == 0x41 || c == 0x45 || c == 0x65 || c == 0x42 || c == 0x61 || c == 0x43 || c == 0x44 || c == 0x64
    || c == 0x47 || c == 0x60 || c == 0x48 || c == 0x66 || c == 0x75
  }

  function Moved(s: Screen, values: seq<nat>, saved: Cursor, c: Byte): (t: Screen)
    requires Sane(s) && 2 <= |values|
    ensures t == s.(cursor := t.cursor) && t.cursor.x < s.cols && t.cursor.y < s.rows
  {
    var at := CursorSeen(s);
    var x, y, v := at.x, at.y, values[0];
    if c == 0x46 then CursorSet(s, 0, UpTarget(s, y, v))                                   // F
    else if c == 0x41 then CursorSet(s, x, UpTarget(s, y, v))                              // A
    else if c == 0x45 then CursorSet(s, 0, DownTarget(s, y, v))                            // E
    else if c == 0x65 || c == 0x42 then CursorSet(s, x, DownTarget(s, y, v))               // e B
    else if c == 0x61 || c == 0x43 then CursorSet(s, x + Min(v, s.cols - 1 - x), y)        // a C
    else if c == 0x44 then CursorSet(s, x - Min(v, x), y)                                  // D
    else if c == 0x64 then CursorSet(s, x, Ordinal(v, s.rows))                             // d
    else if c == 0x47 || c == 0x60 then CursorSet(s, Ordinal(v, s.cols), y)                // G `
    else if c == 0x48 || c == 0x66 then CursorSet(s, Homed(values[1], s.cols), Homed(v, s.rows)) // H f
    else CursorSet(s, saved.x, saved.y)                                                    // u
  }

  /** The final bytes that edit the screen or its margins. */
  predicate Edits(c: Byte) {
    c == 0x4D || c == 0x4C || c == 0x4A || c == 0x40 || c == 0x50 || c == 0x58 || c == 0x4B || c == 0x72
  }

  function Edited(s: Screen, values: seq<nat>, count: nat, c: Byte): (t: Screen)
    requires Sane(s) && 2 <= |values| && values[0] < U32
    ensures Sane(t) && t == s.(cells := t.cells, cursor := t.cursor, top := t.top, bottom := t.bottom)
    ensures (s.top < s.bottom ==> t.top < t.bottom) && (RegionOk(s) ==> RegionOk(t))
  {
    var at := CursorSeen(s);
    var x, y, v := at.x, at.y, values[0];
    if c == 0x4D then ScrolledTimes(s, Min(v, s.rows))                                     // M
    else if c == 0x4C then RevScrolledTimes(s.(top := y), Min(v, s.rows)).(top := s.top)   // L
    else if c == 0x4A then Erased(s, at, v)                                                // J
    else if c == 0x40 then CursorSet(Inserted(s, x, y, v, s.cols - 1), x, y)               // @
    else if c == 0x50 then Deleted(s, at, v)                                               // P
    else if c == 0x58 then CharsErased(s, at, v)                                           // X
    else if c == 0x4B then LineErased(s, at, v)                                            // K
    else Margins(s, values, count)                                                         // r
  }

  /** The screen after a final byte that only touches the screen. */
  function ScreenFinal(s: Screen, values: seq<nat>, count: nat, saved: Cursor, c: Byte): (t: Screen)
    requires Sane(s) && 2 <= |values| && (forall i :: 0 <= i < |values| ==> values[i] < U32)
    ensures Sane(t) && t == s.(cells := t.cells, cursor := t.cursor, top := t.top, bottom := t.bottom)
    ensures (s.top < s.bottom ==> t.top < t.bottom) && (RegionOk(s) ==> RegionOk(t))
  {
    if Moves(c) then Moved(s, values, saved, c) else if Edits(c) then Edited(s, values, count, c) else s
  }

  /** The final byte of a control sequence that is not DEC-private. */
  function Final(k: Config, t: Term, c: Byte): (u: Term)
    requires ConfigOk(k) && ParserOk(k, t.p) && Sane(t.s)
  {
    var values, count := t.p.csi.values, t.p.csi.count;
    if c == 0x6D then WithColours(t, Sgr.Sequence(k.palette, ColoursOf(t), values[..count]))   // m
    else if c == 0x73 then t.(p := t.p.(savedCursor := CursorSeen(t.s)))                       // s
    else if c == 0x68 || c == 0x6C then                                                        // h l
      if count > 0 && values[0] == 4 then t.(p := t.p.(modes := t.p.modes.(insert := c == 0x68))) else t
    else t.(s := ScreenFinal(t.s, values, count, t.p.savedCursor, c))
  }

  /** DEC-private modes: only 25, the visible cursor. */
  function DecPrivate(s: Screen, q: Csi, c: Byte): Screen
    requires |q.values| > 0
  {
    if q.count > 0 && (c == 0x68 || c == 0x6C) && q.values[0] == 25 then s.(cursorEnabled := c == 0x68) else s
  }

  /** The final byte. Scrolling is off while the function is carried out. */
  function Finished(k: Config, t: Term, c: Byte): Term
    requires ConfigOk(k) && ParserOk(k, t.p) && Sane(t.s)
  {
    var q := Defaulted(Counted(t.p.csi), c);
    if q.decPrivate then
      Term(EndSequence(t.p.(csi := q.(decPrivate := false))), DecPrivate(t.s, q, c))
    else
      var d := Final(k, Term(t.p.(csi := q), t.s.(scrollEnabled := false)), c);
      Term(EndSequence(d.p), d.s.(scrollEnabled := t.s.scrollEnabled))
  }

  /** A byte inside a control sequence. */
  function ControlByte(k: Config, t: Term, c: Byte): Term
    requires ConfigOk(k) && ParserOk(k, t.p) && Sane(t.s)
  {
    if t.p.escapeOffset == 2 && c == 0x5B then t.(p := EndSequence(t.p.(discardNext := true)))
    else if t.p.escapeOffset == 2 && c == 0x3F then t.(p := t.p.(csi := t.p.csi.(decPrivate := true)))
    else if IsDigit(c) then t.(p := t.p.(csi := Digit(k, t.p.csi, c)))
    else if c == 0x3B then t.(p := t.p.(csi := Separator(k, t.p.csi)))
    else Finished(k, t, c)
  }

  // ---- escape sequences -----------------------------------------------------------------------------

  function OscByte(p: Parser, c: Byte): Parser {
    if !(p.osc.escape && c == 0x5C) && c == 0x1B then p.(osc := Osc(p.osc.active, true))
    else p.(osc := Osc(false, false), escape := false)
  }

  /** Down a row, scrolling at the bottom margin, to column x. */
  function LineFed(s: Screen, x: nat): (t: Screen)
    requires Sane(s)
    ensures Sane(t) && t == s.(cells := t.cells, cursor := t.cursor)
  {
    var y := CursorSeen(s).y;
    if y == s.bottom - 1 then CursorSet(Scrolled(s), x, y) else CursorSet(s, x, y + 1)
  }

  /** `v - 1` in 64 bits. */
  function Before(v: nat): nat {
    if v == 0 then WORD_LIMIT - 1 else v - 1
  }

  function ReverseFed(s: Screen): (t: Screen)
    requires Sane(s)
    ensures Sane(t) && t == s.(cells := t.cells, cursor := t.cursor)
  {
    var y := CursorSeen(s).y;
    if y == s.top then CursorSet(RevScrolled(s), 0, y) else CursorSet(s, 0, Before(y))
  }

  function SaveAll(t: Term): Term {
    Term(t.p.(savedLook := t.p.look, savedCharset := t.p.charsets.current),
         t.s.(saved := Saved(t.s.cursor, t.s.fg, t.s.bg)))
  }

  function RestoreAll(t: Term): Term {
    Term(t.p.(look := t.p.savedLook, charsets := t.p.charsets.(current := t.p.savedCharset)),
         t.s.(cursor := t.s.saved.cursor, fg := t.s.saved.fg, bg := t.s.saved.bg))
  }

  /** The byte after ESC. */
  function EscapeFinal(t: Term, c: Byte): Term
    requires Sane(t.s)
  {
    if c == 0x37 then SaveAll(t)                                                        // 7
    else if c == 0x38 then RestoreAll(t)                                                // 8
    else if c == 0x63 then Term(Reinit(t.p), Cleared(ReinitScreen(t.s), true))          // c
    else if c == 0x44 then t.(s := LineFed(t.s, CursorSeen(t.s).x))                     // D
    else if c == 0x45 then t.(s := LineFed(t.s, 0))                                     // E
    else if c == 0x4D then t.(s := ReverseFed(t.s))                                     // M
    else if c == 0x28 || c == 0x29 then t.(p := t.p.(gSelect := c - 0x27))              // ( )
    else t
  }

  function EscapeByte(k: Config, t: Term, c: Byte): Term
    requires ConfigOk(k) && ParserOk(k, t.p) && Sane(t.s)
  {
    var u := t.(p := t.p.(escapeOffset := t.p.escapeOffset + 1));
    if u.p.osc.active then u.(p := OscByte(u.p, c))
    else if u.p.csi.active then ControlByte(k, u, c)
    else if c == 0x5D then u.(p := u.p.(osc := Osc(true, false)))
    else if c == 0x5B then u.(p := u.p.(csi := Csi(true, u.p.csi.decPrivate, false, Zeros(|u.p.csi.values|), 0)))
    else var d := EscapeFinal(u, c); d.(p := d.p.(escape := false))
  }

  // ---- plain bytes ---------------------------------------------------------------------------------------

  /** Code page 437 glyph of a DEC special-graphics byte. */
  function DecSpecial(c: Byte): (r: Option<Byte>) {
    if c == 0x60 then Some(0x04) else if c == 0x30 then Some(0xdb) else if c == 0x2D then Some(0x18)
    else if c == 0x2C then Some(0x1b) else if c == 0x2E then Some(0x19) else if c == 0x61 then Some(0xb1)
    else if c == 0x66 then Some(0xf8) else if c == 0x67 then Some(0xf1) else if c == 0x68 then Some(0xb0)
    else if c == 0x6A then Some(0xd9) else if c == 0x6B then Some(0xbf) else if c == 0x6C then Some(0xda)
    else if c == 0x6D then Some(0xc0) else if c == 0x6E then Some(0xc5) else if c == 0x71 then Some(0xc4)
    else if c == 0x73 then Some(0x5f) else if c == 0x74 then Some(0xc3) else if c == 0x75 then Some(0xb4)
    else if c == 0x76 then Some(0xc1) else if c == 0x77 then Some(0xc2) else if c == 0x78 then Some(0xb3)
    else if c == 0x79 then Some(0xf3) else if c == 0x7A then Some(0xf2) else if c == 0x7E then Some(0xfa)
    else if c == 0x5F then Some(0xff) else if c == 0x2B then Some(0x1a) else if c == 0x7B then Some(0xe3)
    else if c == 0x7D then Some(0x9c) else None
  }

  /** Insert mode: columns i down to x of row y move right by one. */
  function PushedRight(s: Screen, x: nat, y: nat, i: nat): (t: Screen)
    requires Sane(s) && x <= i < s.cols && y < s.rows
    ensures Sane(t) && t == s.(cells := t.cells)
    decreases i
  {
    MoveKeeps(s, i + 1, y, i, y);
    var u := CharMoved(s, i + 1, y, i, y);
    if i == x then u else PushedRight(u, x, y, i - 1)
  }

  /** The glyph drawn for a printable byte. */
  function GlyphOf(p: Parser, c: Byte): Byte
    requires p.charsets.current <= 1
  {
    var set_ := if p.charsets.current == 0 then p.charsets.g0 else p.charsets.g1;
    if set_ == 1 && DecSpecial(c).Some? then DecSpecial(c).value else if 0x20 <= c <= 0x7e then c else 0xfe
  }

  function Printed(t: Term, c: Byte): Term
    requires Sane(t.s) && t.p.charsets.current <= 1
  {
    var at := CursorSeen(t.s);
    var u := if t.p.modes.insert then PushedRight(t.s, at.x, at.y, t.s.cols - 1) else t.s;
    t.(s := CharPut(u, GlyphOf(t.p, c)))
  }

  function Tabbed(s: Screen, tabSize: nat): Screen
    requires Sane(s) && tabSize > 0
  {
    var at := CursorSeen(s);
    if at.x / tabSize + 1 >= s.cols then CursorSet(s, s.cols - 1, at.y)
    else CursorSet(s, (at.x / tabSize + 1) * tabSize, at.y)
  }

  function PlainByte(t: Term, c: Byte): Term
    requires Sane(t.s) && t.p.charsets.current <= 1 && t.p.tabSize > 0
  {
    var at := CursorSeen(t.s);
    if c == 0x00 || c == 0x7f || c == 0x07 then t
    else if c == 0x1b then t.(p := t.p.(escapeOffset := 0, escape := true))
    else if c == 0x09 then t.(s := Tabbed(t.s, t.p.tabSize))
    else if c == 0x0b || c == 0x0c || c == 0x0a then t.(s := LineFed(t.s, if t.p.modes.onlcr then 0 else at.x))
    else if c == 0x08 then t.(s := CursorSet(t.s, Before(at.x), at.y))
    else if c == 0x0d then t.(s := CursorSet(t.s, 0, at.y))
    else if c == 14 then t.(p := t.p.(charsets := t.p.charsets.(current := 1)))
    else if c == 15 then t.(p := t.p.(charsets := t.p.charsets.(current := 0)))
    else Printed(t, c)
  }

  /** A complete code point: its code page 437 glyph, or a replacement as wide as it is. */
  function CodePointPut(k: Config, s: Screen, cp: nat): (t: Screen)
    requires Sane(s) && ConfigOk(k)
    ensures Sane(t) && t == s.(cells := t.cells, cursor := t.cursor)
  {
    PutKeeps(s, 0xfe);
    if k.cp437(cp) != -1 then PutKeeps(s, k.cp437(cp)); CharPut(s, k.cp437(cp))
    else if k.width(cp) == 0 then s
    else CharsPut(CharPut(s, 0xfe), 0x20, k.width(cp) - 1)
  }

  /** The byte that starts a multi-byte sequence. */
  function LeadByte(p: Parser, c: Byte): Parser
    requires 0xc0 <= c <= 0xf7
  {
    if c <= 0xdf then p.(utf8 := Utf8(1, Shl(c % 0x20, 6)))
    else if c <= 0xef then p.(utf8 := Utf8(2, Shl(c % 0x10, 12)))
    else p.(utf8 := Utf8(3, Shl(c % 0x08, 18)))
  }

  function ContinuationByte(k: Config, t: Term, c: Byte): Term
    requires Sane(t.s) && ConfigOk(k) && t.p.utf8.remaining > 0
  {
    var rest := t.p.utf8.remaining - 1;
    var u := t.(p := t.p.(utf8 := Utf8(rest, BitOr(t.p.utf8.codePoint, Shl(c % 0x40, 6 * rest)))));
    if rest != 0 then u else u.(s := CodePointPut(k, u.s, u.p.utf8.codePoint))
  }

  function Cancelled(p: Parser): Parser {
    p.(discardNext := false, escape := false, csi := p.csi.(active := false), utf8 := Utf8(0, p.utf8.codePoint),
       osc := Osc(false, false), gSelect := 0)
  }

  /** Designates a character set. */
  function SetSelected(p: Parser, c: Byte): Parser
    requires p.gSelect > 0
  {
    var set_ := if c == 0x42 then Some(0) else if c == 0x30 then Some(1) else None;
    var q := if set_.None? then p else if p.gSelect == 1 then p.(charsets := p.charsets.(g0 := set_.value))
             else p.(charsets := p.charsets.(g1 := set_.value));
    q.(gSelect := 0)
  }

  /** A byte outside any multi-byte sequence. */
  function SingleByte(k: Config, t: Term, c: Byte): Term
    requires ConfigOk(k) && ParserOk(k, t.p) && Sane(t.s)
  {
    if 0xc0 <= c <= 0xf7 then t.(p := LeadByte(t.p, c))
    else if t.p.escape then EscapeByte(k, t, c)
    else if t.p.gSelect > 0 then t.(p := SetSelected(t.p, c))
    else PlainByte(t, c)
  }

  /** The terminal after one byte. */
  function Step(k: Config, t: Term, c: Byte): Term
    requires ConfigOk(k) && ParserOk(k, t.p) && Sane(t.s)
  {
    hide SingleByte, ContinuationByte, Cancelled;
    if t.p.discardNext || c == 0x18 || c == 0x1a then t.(p := Cancelled(t.p))
    else if t.p.utf8.remaining != 0 then
      if c / 0x40 != 2 then SingleByte(k, t.(p := t.p.(utf8 := Utf8(0, t.p.utf8.codePoint))), c)
      else ContinuationByte(k, t, c)
    else SingleByte(k, t, c)
  }
}
