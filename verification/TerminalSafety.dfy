/** What holds after every byte string, whatever the bytes. */
module TerminalSafety {
  import opened Bits
  import opened Screen
  import opened TerminalSpec
  import Sgr

  // ---- the cursor ----------------------------------------------------------------------

  lemma PutKeepsCursorOk(s: Screen, c: Byte)
    requires Sane(s) && CursorOk(s.cols, s.rows, s.cursor) && s.scrollEnabled
    ensures CursorOk(s.cols, s.rows, CharPut(s, c).cursor)
  {
    hide Put, Scrolled;
  }

  lemma {:induction false} PutsKeepCursorOk(s: Screen, c: Byte, n: nat)
    requires Sane(s) && CursorOk(s.cols, s.rows, s.cursor) && s.scrollEnabled
    ensures CursorOk(s.cols, s.rows, CharsPut(s, c, n).cursor)
  {
    hide CharPut;
    if n == 0 {
    } else {
      PutsKeepCursorOk(s, c, n - 1);
      PutKeepsCursorOk(CharsPut(s, c, n - 1), c);
    }
  }

  /** Characters that fit the row just advance the cursor. */
  lemma {:induction false} PutsWithinRow(s: Screen, c: Byte, n: nat)
    requires Sane(s) && s.cursor.x + n <= s.cols
    ensures CharsPut(s, c, n).cursor == Cursor(s.cursor.x + n, s.cursor.y)
  {
    hide Put, Scrolled;
    if n == 0 {
    } else {
      PutsWithinRow(s, c, n - 1);
    }
  }

  lemma FinalKeepsCursorOk(s: Screen, values: seq<nat>, count: nat, saved: Cursor, c: Byte)
    requires Sane(s) && 2 <= |values| && (forall i :: 0 <= i < |values| ==> values[i] < U32)
    requires CursorOk(s.cols, s.rows, s.cursor)
    ensures CursorOk(s.cols, s.rows, ScreenFinal(s, values, count, saved, c).cursor)
  {
    hide CursorSet, CharsPut, ScrolledTimes, RevScrolledTimes, Inserted, PulledLeft, UpTarget, DownTarget, Ordinal,
         Homed, ColumnsLess, CellsAfter, CellsUpTo;
    var at := CursorSeen(s);
    if c == 0x4B && values[0] == 1 {
      LineStart(s, at);
      PutsWithinRow(CursorSet(s, 0, at.y), 0x20, at.x);
    }
  }

  lemma LineStart(s: Screen, at: Cursor)
    requires Sane(s) && at == CursorSeen(s)
    ensures CursorSet(s, 0, at.y).cursor == Cursor(0, at.y)
  {
  }

  // ---- the pieces of a step ----------------------------------------------------------------

  lemma CsiKeepsOk(k: Config, q: Csi, c: Byte)
    requires CsiOk(k, q)
    ensures IsDigit(c) ==> CsiOk(k, Digit(k, q, c))
    ensures CsiOk(k, Separator(k, q)) && CsiOk(k, Counted(q)) && CsiOk(k, Defaulted(Counted(q), c))
    ensures 2 <= k.maxValues ==> 2 <= |q.values|
  {
  }

  lemma FinalKeepsOk(k: Config, t: Term, c: Byte)
    requires ConfigOk(k) && ParserOk(k, t.p) && ScreenOk(t.s)
    ensures ParserOk(k, Final(k, t, c).p) && ScreenOk(Final(k, t, c).s)
  {
    hide ScreenFinal, Sgr.Sequence, CursorSeen;
    FinalKeepsCursorOk(t.s, t.p.csi.values, t.p.csi.count, t.p.savedCursor, c);
  }

  lemma ControlKeepsOk(k: Config, t: Term, c: Byte)
    requires Ok(k, t)
    ensures Ok(k, ControlByte(k, t, c))
  {
    hide Finished, Digit, Separator;
    CsiKeepsOk(k, t.p.csi, c);
    FinishedKeepsOk(k, t, c);
  }

  lemma FinishedKeepsOk(k: Config, t: Term, c: Byte)
    requires Ok(k, t)
    ensures Ok(k, Finished(k, t, c))
  {
    hide Final, Digit, Separator, Counted, Defaulted;
    CsiKeepsOk(k, t.p.csi, c);
    var q := Defaulted(Counted(t.p.csi), c);
    FinalKeepsOk(k, Term(t.p.(csi := q), t.s.(scrollEnabled := false)), c);
  }

  lemma LineFedKeeps(s: Screen, x: nat)
    requires ScreenOk(s)
    ensures ScreenOk(LineFed(s, x)) && LineFed(s, x).scrollEnabled == s.scrollEnabled
  {
    hide Scrolled;
  }

  lemma ReverseFedKeeps(s: Screen)
    requires ScreenOk(s)
    ensures ScreenOk(ReverseFed(s)) && ReverseFed(s).scrollEnabled == s.scrollEnabled
  {
    hide RevScrolled;
  }

  lemma EscapeFinalKeepsOk(k: Config, t: Term, c: Byte)
    requires Ok(k, t)
    ensures Ok(k, EscapeFinal(t, c))
  {
    hide LineFed, ReverseFed, CursorSeen, Cleared;
    LineFedKeeps(t.s, CursorSeen(t.s).x);
    LineFedKeeps(t.s, 0);
    ReverseFedKeeps(t.s);
    if c == 0x63 {
      ClearKeeps(ReinitScreen(t.s));
    }
  }

  lemma ClearKeeps(s: Screen)
    requires ScreenOk(s)
    ensures ScreenOk(Cleared(s, true)) && Cleared(s, true).scrollEnabled == s.scrollEnabled
  {
  }

  lemma EscapeKeepsOk(k: Config, t: Term, c: Byte)
    requires Ok(k, t)
    ensures Ok(k, EscapeByte(k, t, c))
  {
    hide ControlByte, EscapeFinal, OscByte;
    var u := t.(p := t.p.(escapeOffset := t.p.escapeOffset + 1));
    ControlKeepsOk(k, u, c);
    EscapeFinalKeepsOk(k, u, c);
    OscKeeps(k, u.p, c);
  }

  lemma OscKeeps(k: Config, p: Parser, c: Byte)
    requires ParserOk(k, p)
    ensures ParserOk(k, OscByte(p, c))
  {
  }

  lemma PrintedKeepsOk(k: Config, t: Term, c: Byte)
    requires Ok(k, t)
    ensures Ok(k, Printed(t, c))
  {
    hide PushedRight, CharPut, GlyphOf;
    var at := CursorSeen(t.s);
    var u := if t.p.modes.insert then PushedRight(t.s, at.x, at.y, t.s.cols - 1) else t.s;
    PutKeeps(u, GlyphOf(t.p, c));
    PutKeepsCursorOk(u, GlyphOf(t.p, c));
  }

  lemma PlainKeepsOk(k: Config, t: Term, c: Byte)
    requires Ok(k, t)
    ensures Ok(k, PlainByte(t, c))
  {
    hide Printed, LineFed, CursorSet;
    PrintedKeepsOk(k, t, c);
    LineFedKeeps(t.s, if t.p.modes.onlcr then 0 else CursorSeen(t.s).x);
  }

  lemma CodePointKeepsOk(k: Config, s: Screen, cp: nat)
    requires ConfigOk(k) && ScreenOk(s) && s.scrollEnabled
    ensures ScreenOk(CodePointPut(k, s, cp)) && CodePointPut(k, s, cp).scrollEnabled
  {
    hide CharPut, CharsPut;
    PutKeeps(s, 0xfe);
    PutKeepsCursorOk(s, 0xfe);
    if k.cp437(cp) != -1 {
      PutKeepsCursorOk(s, k.cp437(cp));
    } else if k.width(cp) != 0 {
      PutsKeepCursorOk(CharPut(s, 0xfe), 0x20, k.width(cp) - 1);
    }
  }

  lemma SingleKeepsOk(k: Config, t: Term, c: Byte)
    requires Ok(k, t)
    ensures Ok(k, SingleByte(k, t, c))
  {
    hide EscapeByte, PlainByte;
    EscapeKeepsOk(k, t, c);
    PlainKeepsOk(k, t, c);
  }

  /** One byte keeps every bound the tables and arrays rely on. */
  lemma StepKeepsOk(k: Config, t: Term, c: Byte)
    requires Ok(k, t)
    ensures Ok(k, Step(k, t, c))
  {
    hide SingleByte, CodePointPut;
    if !(t.p.discardNext || c == 0x18 || c == 0x1a) {
      if t.p.utf8.remaining != 0 && c / 0x40 == 2 {
        var rest := t.p.utf8.remaining - 1;
        CodePointKeepsOk(k, t.s, BitOr(t.p.utf8.codePoint, Shl(c % 0x40, 6 * rest)));
      } else {
        SingleKeepsOk(k, t.(p := t.p.(utf8 := Utf8(0, t.p.utf8.codePoint))), c);
        SingleKeepsOk(k, t, c);
      }
    }
  }

  // ---- byte strings ---------------------------------------------------------------------------

  /** The terminal after a byte string. */
  function Feed(k: Config, t: Term, bytes: seq<Byte>): Term
    requires Ok(k, t)
    decreases |bytes|
  {
    if bytes == [] then t else StepKeepsOk(k, t, bytes[0]); Feed(k, Step(k, t, bytes[0]), bytes[1..])
  }

  /** After any bytes at all: parameters counted and in 32 bits, margins enclosing the grid or two rows of it,
      selectors inside their tables, colour indices -1 to 7, and scrolling enabled again. */
  lemma {:induction false} EveryByteStringKeepsOk(k: Config, t: Term, bytes: seq<Byte>)
    requires Ok(k, t)
    ensures Ok(k, Feed(k, t, bytes))
    decreases |bytes|
  {
    if bytes == [] {
    } else {
      StepKeepsOk(k, t, bytes[0]);
      EveryByteStringKeepsOk(k, Step(k, t, bytes[0]), bytes[1..]);
    }
  }

  /** Feeding in pieces is feeding at once. */
  lemma {:induction false} FeedInPieces(k: Config, t: Term, a: seq<Byte>, b: seq<Byte>)
    requires Ok(k, t)
    ensures Ok(k, Feed(k, t, a)) && Feed(k, t, a + b) == Feed(k, Feed(k, t, a), b)
    decreases |a|
  {
    EveryByteStringKeepsOk(k, t, a);
    if a == [] {
      assert a + b == b;
    } else {
      StepKeepsOk(k, t, a[0]);
      assert (a + b)[1..] == a[1..] + b;
      FeedInPieces(k, Step(k, t, a[0]), a[1..], b);
    }
  }

  // ---- a cursor row outside the grid ------------------------------------------------------------

  /** A wrap leaves the grid exactly when it starts on the last row, that row is not the bottom
      margin, and the row after it is still below the column count. */
  lemma RowEscapes(s: Screen, c: Byte)
    requires Sane(s) && s.scrollEnabled && s.cursor.x == s.cols && s.cursor.y < s.rows
    ensures CharPut(s, c).cursor.y >= s.rows <==> s.cursor.y == s.rows - 1 && s.bottom != s.rows && s.rows < s.cols
  {
    hide Put, Scrolled;
  }
}
