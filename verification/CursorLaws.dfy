/** What the short control functions mean: where they put the cursor, which region and which colour they select, and
    what they clear. */
module CursorLaws {
  import opened Bits
  import opened Screen
  import opened TerminalSpec
  import opened TerminalSafety
  import opened TerminalLaws
  import opened RegionEditing
  import Sgr

  // ---- moving the cursor ---------------------------------------------------------------------------

  /** Row or column number v, counted from 1, of `limit`; the last one if there are fewer. */
  function Numbered(v: nat, limit: nat): nat
    requires v > 0 && limit > 0
  {
    if v <= limit then v - 1 else limit - 1
  }

  /** CUF, CUB, VPA, CHA and restore (ECMA-48 sections 8.3.20, 8.3.18, 8.3.158, 8.3.9): right or left in the row but
      not out of it, to a row, to a column, to the saved position. */
  lemma MovesMean(s: Screen, values: seq<nat>, saved: Cursor, c: Byte)
    requires Sane(s) && s.cols < 0x8000_0000 && s.rows < 0x8000_0000
    requires 2 <= |values| && 0 < values[0] < U32 && saved.x < s.cols && saved.y < s.rows
    ensures var at, v, to := CursorSeen(s), values[0], Moved(s, values, saved, c).cursor;
            && (c == 0x43 || c == 0x61 ==> to == Cursor(if at.x + v < s.cols then at.x + v else s.cols - 1, at.y))
            && (c == 0x44 ==> to == Cursor(if v < at.x then at.x - v else 0, at.y))
            && (c == 0x64 ==> to == Cursor(at.x, Numbered(v, s.rows)))
            && (c == 0x47 || c == 0x60 ==> to == Cursor(Numbered(v, s.cols), at.y))
            && (c == 0x75 ==> to == saved)
  {
  }

  /** CUU, CUD and their forms that also go to the first column, in terms of the rows given above. */
  lemma LinesMean(s: Screen, values: seq<nat>, saved: Cursor, c: Byte)
    requires Sane(s) && RegionOk(s) && s.rows < 0x8000_0000 && 2 <= |values|
    ensures var at, v, to := CursorSeen(s), values[0], Moved(s, values, saved, c).cursor;
            && (c == 0x41 ==> to == Cursor(at.x, UpTarget(s, at.y, v)))
            && (c == 0x42 || c == 0x65 ==> to == Cursor(at.x, DownTarget(s, at.y, v)))
            && (c == 0x46 ==> to == Cursor(0, UpTarget(s, at.y, v)))
            && (c == 0x45 ==> to == Cursor(0, DownTarget(s, at.y, v)))
  {
    CursorUpMeaning(s, CursorSeen(s).y, values[0]);
    CursorDownMeaning(s, CursorSeen(s).y, values[0]);
  }

  /** VPA 0 and CHA 0 mean the first row and column, and go to the last one: right exactly when it is the only one. */
  lemma NumberZeroIff(v: nat, limit: nat)
    requires 0 < limit < U32 && v < U32
    ensures Ordinal(v, limit) == Numbered(if v == 0 then 1 else v, limit) <==> v > 0 || limit == 1
  {
  }

  /** Where a final byte puts the cursor, given the number v. */
  function Destination(s: Screen, saved: Cursor, v: nat, c: Byte): Cursor
    requires Sane(s) && v > 0
  {
    var at := CursorSeen(s);
    if c == 0x41 then Cursor(at.x, UpTarget(s, at.y, v))
    else if c == 0x42 || c == 0x65 then Cursor(at.x, DownTarget(s, at.y, v))
    else if c == 0x46 then Cursor(0, UpTarget(s, at.y, v))
    else if c == 0x45 then Cursor(0, DownTarget(s, at.y, v))
    else if c == 0x43 || c == 0x61 then Cursor(if at.x + v < s.cols then at.x + v else s.cols - 1, at.y)
    else if c == 0x44 then Cursor(if v < at.x then at.x - v else 0, at.y)
    else if c == 0x64 then Cursor(at.x, Numbered(v, s.rows))
    else if c == 0x47 || c == 0x60 then Cursor(Numbered(v, s.cols), at.y)
    else saved
  }

  /** Fed as bytes, with a number or without (which is 1), each of these moves the cursor there and changes nothing
      else on the screen. */
  lemma MovesRun(k: Config, t: Term, ps: seq<nat>, c: Byte)
    requires Ok(k, t) && Ground(t.p) && !t.p.csi.decPrivate && |ps| <= 1 && (ps != [] ==> 0 < ps[0] < U32)
    requires t.p.savedCursor.x < t.s.cols && t.p.savedCursor.y < t.s.rows
    requires c == 0x41 || c == 0x42 || c == 0x43 || c == 0x44 || c == 0x45 || c == 0x46 || c == 0x47 || c == 0x60
             || c == 0x61 || c == 0x64 || c == 0x65 || c == 0x75
    ensures Feed(k, t, SequenceBytes(ps, c)).s ==
      t.s.(cursor := Destination(t.s, t.p.savedCursor, if ps == [] then 1 else ps[0], c))
  {
    hide Feed, Moved, Given, SequenceBytes, Edited, Destination, ParserOk;
    ScreenSequenceRuns(k, t, ps, c);
    GivenBound(k, ps, c);
    DestinationMeans(t.s, Given(k, ps, c), t.p.savedCursor, c);
  }

  lemma DestinationMeans(s: Screen, values: seq<nat>, saved: Cursor, c: Byte)
    requires Sane(s) && RegionOk(s) && s.cols < 0x8000_0000 && s.rows < 0x8000_0000
    requires 2 <= |values| && 0 < values[0] < U32 && saved.x < s.cols && saved.y < s.rows
    requires c == 0x41 || c == 0x42 || c == 0x43 || c == 0x44 || c == 0x45 || c == 0x46 || c == 0x47 || c == 0x60
             || c == 0x61 || c == 0x64 || c == 0x65 || c == 0x75
    ensures Moved(s.(scrollEnabled := false), values, saved, c) ==
      s.(scrollEnabled := false, cursor := Destination(s, saved, values[0], c))
  {
    hide Moved, UpTarget, DownTarget;
    var idle := s.(scrollEnabled := false);
    MovesMean(idle, values, saved, c);
    LinesMean(idle, values, saved, c);
    SameTargets(s, CursorSeen(s).y, values[0]);
  }

  lemma SameTargets(s: Screen, y: nat, n: nat)
    requires Sane(s) && y < s.rows
    ensures UpTarget(s.(scrollEnabled := false), y, n) == UpTarget(s, y, n)
    ensures DownTarget(s.(scrollEnabled := false), y, n) == DownTarget(s, y, n)
  {
  }

  /** And these edit the screen or its region: DL, IL, ED, ICH, DCH, ECH, EL and the margins. */
  lemma EditsRun(k: Config, t: Term, ps: seq<nat>, c: Byte)
    requires Ok(k, t) && Ground(t.p) && !t.p.csi.decPrivate
    requires |ps| <= k.maxValues && (forall i :: 0 <= i < |ps| ==> ps[i] < U32)
    requires c == 0x4D || c == 0x4C || c == 0x4A || c == 0x40 || c == 0x50 || c == 0x58 || c == 0x4B || c == 0x72
    ensures Given(k, ps, c)[0] < U32
    ensures Feed(k, t, SequenceBytes(ps, c)).s ==
      Edited(t.s.(scrollEnabled := false), Given(k, ps, c), |ps|, c).(scrollEnabled := true)
  {
    hide Feed, Edited, Given, SequenceBytes, Moved, ParserOk;
    ScreenSequenceRuns(k, t, ps, c);
    GivenBound(k, ps, c);
  }

  /** A parameter left out in front of another is 0: `ESC [ ; n` and a final byte. */
  lemma EmptyParameter(k: Config, t: Term, n: nat, c: Byte)
    requires Ok(k, t) && Ground(t.p) && n < U32 && 0x40 <= c <= 0x7E && c != 0x5B
    ensures var w := Pending(k, t, [0, n], t.p.csi.decPrivate);
            var u := w.(p := w.p.(escapeOffset := |Decimal(n)| + 3));
            Ok(k, u) && Feed(k, t, [0x1B, 0x5B] + [0x3B] + Decimal(n) + [c]) == Finished(k, u, c)
  {
    hide Feed, Finished, Decimal;
    var open, empty, text := [0x1B, 0x5B], [0x3B], Decimal(n);
    SequenceOpens(k, t);
    FeedInPieces(k, t, open, empty);
    FeedOne(k, Feed(k, t, open), 0x3B);
    SeparatorStep(k, Feed(k, t, open));
    var u := Feed(k, t, open + empty);
    NumberRead(k, u, n);
    FeedInPieces(k, t, open + empty, text);
    FeedInPieces(k, t, open + empty + text, [c]);
    var v := Feed(k, u, text);
    FeedOne(k, v, c);
    FinalStep(k, v, c);
    assert Zeros(k.maxValues)[0 := 0][1 := n] == [0, n] + Zeros(k.maxValues - 2);
    EveryByteStringKeepsOk(k, u, text);
  }

  /** Backspace, carriage return and line feed as bytes. */
  lemma ControlsMove(k: Config, t: Term)
    requires Ok(k, t) && Ground(t.p)
    ensures var at := CursorSeen(t.s);
            && Feed(k, t, [8]) == t.(s := t.s.(cursor := Cursor(if at.x == 0 then 0 else at.x - 1, at.y)))
            && Feed(k, t, [13]) == t.(s := t.s.(cursor := Cursor(0, at.y)))
            && Feed(k, t, [10]) == t.(s := LineFed(t.s, if t.p.modes.onlcr then 0 else at.x))
  {
    hide Feed, LineFed;
    FeedOne(k, t, 8);
    FeedOne(k, t, 13);
    FeedOne(k, t, 10);
  }

  /** IND, NEL and RI: a line feed in the column, to the first column, and a reverse one. */
  lemma IndexesRun(k: Config, t: Term)
    requires Ok(k, t) && Ground(t.p)
    ensures var after := t.p.(escapeOffset := 1);
            && Feed(k, t, [0x1B, 0x44]) == Term(after, LineFed(t.s, CursorSeen(t.s).x))
            && Feed(k, t, [0x1B, 0x45]) == Term(after, LineFed(t.s, 0))
            && Feed(k, t, [0x1B, 0x4D]) == Term(after, ReverseFed(t.s))
  {
    hide Feed, LineFed, ReverseFed, CursorSeen;
    FeedTwo(k, t, 0x1B, 0x44);
    FeedTwo(k, t, 0x1B, 0x45);
    FeedTwo(k, t, 0x1B, 0x4D);
  }

  // ---- modes ------------------------------------------------------------------------------------------

  /** A DEC-private sequence, printed with its `?`, performs its final byte as one. */
  lemma PrivateRuns(k: Config, t: Term, ps: seq<nat>, final: Byte)
    requires Ok(k, t) && Ground(t.p) && |ps| <= k.maxValues && forall i :: 0 <= i < |ps| ==> ps[i] < U32
    requires 0x40 <= final <= 0x7E && final != 0x5B
    ensures var u := Feed(k, t, [0x1B, 0x5B] + [0x3F] + ParameterString(ps) + [final]);
            u.s == DecPrivate(t.s, Csi(true, true, false, Given(k, ps, final), |ps|), final)
            && u.p == t.p.(csi := u.p.csi, escapeOffset := u.p.escapeOffset) && Ground(u.p) && !u.p.csi.decPrivate
  {
    hide Feed, DecPrivate, ParameterString, Given, Final;
    var open, mark, text := [0x1B, 0x5B], [0x3F], ParameterString(ps);
    SequenceOpens(k, t);
    FeedInPieces(k, t, open, mark);
    FeedOne(k, Feed(k, t, open), 0x3F);
    var u := Feed(k, t, open + mark);
    ParametersRead(k, u, ps);
    FeedInPieces(k, t, open + mark, text);
    FeedInPieces(k, t, open + mark + text, [final]);
    var v := Feed(k, u, text);
    FeedOne(k, v, final);
    FinalStep(k, v, final);
    PendingGiven(k, t, ps, true, final);
  }

  /** DECTCEM: `ESC [ ? 25 h` shows the cursor and `ESC [ ? 25 l` hides it; no other private mode and no other final
      byte changes the screen. */
  lemma CursorShown(k: Config, t: Term, n: nat, final: Byte)
    requires Ok(k, t) && Ground(t.p) && n < U32 && 0x40 <= final <= 0x7E && final != 0x5B
    ensures Feed(k, t, [0x1B, 0x5B] + [0x3F] + ParameterString([n]) + [final]).s ==
      if n == 25 && (final == 0x68 || final == 0x6C) then t.s.(cursorEnabled := final == 0x68) else t.s
  {
    hide Feed, ParameterString;
    PrivateRuns(k, t, [n], final);
  }

  /** IRM: `ESC [ 4 h` turns insert mode on and `ESC [ 4 l` off; nothing else changes, and any other mode changes
      nothing. */
  lemma InsertModeSet(k: Config, t: Term, n: nat, final: Byte)
    requires Ok(k, t) && Ground(t.p) && !t.p.csi.decPrivate && n < U32 && (final == 0x68 || final == 0x6C)
    ensures var u := Feed(k, t, SequenceBytes([n], final));
            u.s == t.s && u.p == t.p.(csi := u.p.csi, escapeOffset := u.p.escapeOffset,
                                      modes := t.p.modes.(insert := if n == 4 then final == 0x68 else t.p.modes.insert))
  {
    hide Feed, ParameterString;
    SequenceRuns(k, t, [n], final);
    PendingGiven(k, t, [n], false, final);
  }

  /** `ESC [ s` and `ESC [ u`: the reported cursor is kept and brought back, whatever else has been done meanwhile by
      sequences that do not save. */
  lemma CursorKept(k: Config, t: Term)
    requires Ok(k, t) && Ground(t.p) && !t.p.csi.decPrivate
    ensures var u := Feed(k, t, SequenceBytes([], 0x73));
            u.s == t.s && u.p.savedCursor == CursorSeen(t.s) && Ground(u.p) && !u.p.csi.decPrivate
    ensures t.p.savedCursor.x < t.s.cols && t.p.savedCursor.y < t.s.rows ==>
      Feed(k, t, SequenceBytes([], 0x75)).s == t.s.(cursor := t.p.savedCursor)
  {
    hide Feed, ParameterString, Given;
    SequenceRuns(k, t, [], 0x73);
    PendingGiven(k, t, [], false, 0x73);
    ScreenSequenceRuns(k, t, [], 0x75);
  }

  // ---- the region ------------------------------------------------------------------------------------

  /** Set margins: the first number, or 1, is the region's first row and the second, or the number of rows, its last,
      exactly when that makes a region of at least two rows on the screen; otherwise the region is the whole screen.
      The cursor goes home. */
  lemma MarginsMean(s: Screen, values: seq<nat>, count: nat)
    requires Sane(s) && 2 <= |values|
    ensures var first := if count > 0 && values[0] > 0 then values[0] else 1;
            var last := if count <= 1 then s.rows else if values[1] > 0 then values[1] else 1;
            var t := Margins(s, values, count);
            && t.cursor == Cursor(0, 0)
            && t.top == (if first < last <= s.rows then first - 1 else 0)
            && t.bottom == (if first < last <= s.rows then last else s.rows)
  {
  }

  // ---- clearing ---------------------------------------------------------------------------------------

  ghost predicate AllBlank(t: Screen, blank: Cell) {
    forall i :: 0 <= i < |t.cells| ==> t.cells[i] == blank
  }

  /** ED 2 and 3 blank every cell and leave the cursor. */
  lemma EraseAllMeans(s: Screen, v: nat)
    requires Sane(s) && (v == 2 || v == 3)
    ensures var t := Erased(s, CursorSeen(s), v);
            |t.cells| == |s.cells| && AllBlank(t, Blank(s)) && t == s.(cells := t.cells)
  {
    hide CharsPut;
  }

  /** `ESC c` blanks every cell, puts the cursor first and on, makes the whole screen the region, and forgets modes,
      renditions and character sets, but not what was saved with `ESC 7`. */
  lemma ResetMeans(k: Config, t: Term)
    requires Ok(k, t) && Ground(t.p)
    ensures var u := Feed(k, t, [0x1B, 0x63]);
            && AllBlank(u.s, Blank(t.s)) && u.s.cursor == Cursor(0, 0) && u.s.cursorEnabled
            && u.s.top == 0 && u.s.bottom == u.s.rows && u.s.saved == t.s.saved
            && u.p.modes == Modes(false, true, true) && u.p.charsets == Charsets(0, 1, 0)
            && u.p.look == Look(false, false, false, -1, -1) && u.p.savedLook == t.p.savedLook
            && Ground(u.p) && !u.p.csi.decPrivate && !u.p.csi.rrr && u.p.savedCursor == Cursor(0, 0) && u.p.tabSize == 8
  {
    hide Feed;
    FeedTwo(k, t, 0x1B, 0x63);
  }

  // ---- colours -----------------------------------------------------------------------------------------

  /** Without reverse video (for with it, see Sgr.ReverseCommutes): 30 to 37 and 90 to 97 select foreground i, the
      bright one for 90 to 97 and when bold; 40 to 47 and 100 to 107 the background likewise; 39 and 49 the defaults. */
  lemma ColoursSelected(p: Sgr.Palette, c: Sgr.Colours, i: nat)
    requires Sgr.PaletteOk(p) && Sgr.ColoursOk(c) && !c.reverse && i < 8
    ensures Sgr.One(p, c, 30 + i) == c.(primary := i, fg := if c.bold then p.bright[i] else p.ansi[i])
    ensures Sgr.One(p, c, 40 + i) == c.(back := i, bg := if c.bgBold then p.bright[i] else p.ansi[i])
    ensures Sgr.One(p, c, 90 + i) == c.(primary := i, fg := p.bright[i])
    ensures Sgr.One(p, c, 100 + i) == c.(back := i, bg := p.bright[i])
    ensures Sgr.One(p, c, 39) == c.(primary := -1, fg := if c.bold then p.defaultFgBright else p.defaultFg)
    ensures Sgr.One(p, c, 49) == c.(back := -1, bg := if c.bgBold then p.defaultBgBright else Sgr.TRANSPARENT)
  {
  }

  /** 1 makes the foreground selected the bright one of the same number and 22 the plain one again; 5 and 25 do so
      for the background. */
  lemma IntensityFollows(p: Sgr.Palette, c: Sgr.Colours, i: nat)
    requires Sgr.PaletteOk(p) && Sgr.ColoursOk(c) && !c.reverse && i < 8
    ensures var d := Sgr.One(p, c, 30 + i); Sgr.One(p, d, 1).fg == p.bright[i] && Sgr.One(p, d, 22).fg == p.ansi[i]
    ensures var d := Sgr.One(p, c, 40 + i); Sgr.One(p, d, 5).bg == p.bright[i] && Sgr.One(p, d, 25).bg == p.ansi[i]
    ensures Sgr.One(p, Sgr.One(p, c, 1), 30 + i).fg == p.bright[i]
    ensures Sgr.One(p, Sgr.One(p, c, 22), 30 + i).fg == p.ansi[i]
  {
  }
}
