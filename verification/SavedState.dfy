/** Saving and restoring the terminal's state, across whatever is written in between. */
module SavedState {
  import opened Bits
  import opened Screen
  import opened TerminalSpec
  import opened TerminalSafety
  import opened TerminalLaws
  import Sgr

  const SAVE: Byte := 0x37
  const RESTORE: Byte := 0x38

  /** The saved cursor, colours, renditions and character set are the same in both. */
  ghost predicate SameSaved(t: Term, u: Term) {
    u.s.saved == t.s.saved && u.p.savedLook == t.p.savedLook && u.p.savedCharset == t.p.savedCharset
  }

  /** Cursor, colours, renditions and character set in force. */
  ghost predicate SameState(t: Term, u: Term) {
    u.s.cursor == t.s.cursor && u.s.fg == t.s.fg && u.s.bg == t.s.bg && u.p.look == t.p.look
    && u.p.charsets.current == t.p.charsets.current
  }

  lemma FinishedKeepsSaved(k: Config, t: Term, c: Byte)
    requires Ok(k, t)
    ensures SameSaved(t, Finished(k, t, c))
  {
    hide ScreenFinal, Sgr.Sequence, CursorSeen, Counted, Defaulted;
    CsiKeepsOk(k, t.p.csi, c);
  }

  lemma ControlKeepsSaved(k: Config, t: Term, c: Byte)
    requires Ok(k, t)
    ensures SameSaved(t, ControlByte(k, t, c))
  {
    hide Finished, Digit, Separator;
    FinishedKeepsSaved(k, t, c);
  }

  /** Byte c is a 7 straight after an ESC: the one thing that saves. */
  predicate Saves(t: Term, c: Byte) {
    c == SAVE && t.p.escape && !t.p.osc.active && !t.p.csi.active && !t.p.discardNext
  }

  lemma EscapeKeepsSaved(k: Config, t: Term, c: Byte)
    requires Ok(k, t) && t.p.escape && !t.p.discardNext && !Saves(t, c)
    ensures SameSaved(t, EscapeByte(k, t, c))
  {
    hide ControlByte, LineFed, ReverseFed, CursorSeen, Cleared;
    ControlKeepsSaved(k, t.(p := t.p.(escapeOffset := t.p.escapeOffset + 1)), c);
  }

  lemma PlainKeepsSaved(t: Term, c: Byte)
    requires Sane(t.s) && t.p.charsets.current <= 1 && t.p.tabSize > 0
    ensures SameSaved(t, PlainByte(t, c))
  {
    hide LineFed, CursorSet, PushedRight, CharPut, GlyphOf;
    var at := CursorSeen(t.s);
    PutKeeps(if t.p.modes.insert then PushedRight(t.s, at.x, at.y, t.s.cols - 1) else t.s, GlyphOf(t.p, c));
  }

  lemma SingleKeepsSaved(k: Config, t: Term, c: Byte)
    requires Ok(k, t) && !t.p.discardNext && !Saves(t, c)
    ensures SameSaved(t, SingleByte(k, t, c))
  {
    hide EscapeByte, PlainByte;
    if t.p.escape {
      EscapeKeepsSaved(k, t, c);
    }
    PlainKeepsSaved(t, c);
  }

  /** Nothing else does: not a 7 in text, in a parameter or in an operating system command. */
  lemma StepKeepsSaved(k: Config, t: Term, c: Byte)
    requires Ok(k, t) && !Saves(t, c)
    ensures SameSaved(t, Step(k, t, c))
  {
    hide SingleByte, CodePointPut;
    if !t.p.discardNext {
      SingleKeepsSaved(k, t.(p := t.p.(utf8 := Utf8(0, t.p.utf8.codePoint))), c);
      SingleKeepsSaved(k, t, c);
    }
  }

  /** And a 7 straight after an ESC keeps what is in force, whatever a multi-byte character left unfinished. */
  lemma StepSaves(k: Config, t: Term, c: Byte)
    requires Ok(k, t) && Saves(t, c)
    ensures var u := Step(k, t, c);
            u.s.saved == Saved(t.s.cursor, t.s.fg, t.s.bg) && u.p.savedLook == t.p.look
            && u.p.savedCharset == t.p.charsets.current
  {
  }

  /** No byte of the string saves, given what those before it did. */
  predicate NeverSaves(k: Config, t: Term, bytes: seq<Byte>)
    requires Ok(k, t)
    decreases |bytes|
  {
    bytes != [] ==>
      !Saves(t, bytes[0]) && (StepKeepsOk(k, t, bytes[0]); NeverSaves(k, Step(k, t, bytes[0]), bytes[1..]))
  }

  /** Such a byte string leaves the saved state alone, a full reset included. */
  lemma {:induction false} BytesKeepSaved(k: Config, t: Term, bytes: seq<Byte>)
    requires Ok(k, t) && NeverSaves(k, t, bytes)
    ensures SameSaved(t, Feed(k, t, bytes))
    decreases |bytes|
  {
    hide Step, Saves;
    if bytes == [] {
    } else {
      StepKeepsOk(k, t, bytes[0]);
      StepKeepsSaved(k, t, bytes[0]);
      BytesKeepSaved(k, Step(k, t, bytes[0]), bytes[1..]);
    }
  }

  lemma {:induction false} NeverSavesInPieces(k: Config, t: Term, a: seq<Byte>, b: seq<Byte>)
    requires Ok(k, t)
    ensures Ok(k, Feed(k, t, a))
    ensures NeverSaves(k, t, a + b) <==> NeverSaves(k, t, a) && NeverSaves(k, Feed(k, t, a), b)
    decreases |a|
  {
    hide Step, Saves;
    EveryByteStringKeepsOk(k, t, a);
    if a == [] {
      assert a + b == b;
    } else {
      StepKeepsOk(k, t, a[0]);
      assert (a + b)[1..] == a[1..] + b;
      NeverSavesInPieces(k, Step(k, t, a[0]), a[1..], b);
    }
  }

  /** Bytes without a 7 never save. */
  lemma {:induction false} WithoutSevenNeverSaves(k: Config, t: Term, bytes: seq<Byte>)
    requires Ok(k, t) && SAVE !in bytes
    ensures NeverSaves(k, t, bytes)
    decreases |bytes|
  {
    hide Step;
    if bytes == [] {
    } else {
      StepKeepsOk(k, t, bytes[0]);
      WithoutSevenNeverSaves(k, Step(k, t, bytes[0]), bytes[1..]);
    }
  }

  /** Text, whatever characters it has, never saves; nor do control characters other than ESC. */
  lemma {:induction false} TextNeverSaves(k: Config, t: Term, bytes: seq<Byte>)
    requires Ok(k, t) && !t.p.escape && 0x1B !in bytes
    ensures NeverSaves(k, t, bytes)
    decreases |bytes|
  {
    hide Step;
    if bytes == [] {
    } else {
      StepKeepsOk(k, t, bytes[0]);
      NoEscapeStep(k, t, bytes[0]);
      TextNeverSaves(k, Step(k, t, bytes[0]), bytes[1..]);
    }
  }

  lemma NoEscapeStep(k: Config, t: Term, c: Byte)
    requires Ok(k, t) && !t.p.escape && c != 0x1B
    ensures !Step(k, t, c).p.escape
  {
    hide SingleByte;
    SingleNoEscape(k, t.(p := t.p.(utf8 := Utf8(0, t.p.utf8.codePoint))), c);
    SingleNoEscape(k, t, c);
  }

  lemma SingleNoEscape(k: Config, t: Term, c: Byte)
    requires Ok(k, t) && !t.p.escape && c != 0x1B
    ensures !SingleByte(k, t, c).p.escape
  {
    hide PushedRight, CharPut, GlyphOf, LineFed, Tabbed, CursorSet, CursorSeen;
  }

  /** A control sequence never saves, whatever its parameters: `ESC [ 7 m` neither. */
  lemma SequenceNeverSaves(k: Config, t: Term, ps: seq<nat>, final: Byte)
    requires Ok(k, t) && Ground(t.p)
    ensures NeverSaves(k, t, SequenceBytes(ps, final))
  {
    hide Feed;
    SequenceOpens(k, t);
    var text := ParameterString(ps) + [final];
    assert SequenceBytes(ps, final) == [0x1B, 0x5B] + text;
    NeverSavesInPieces(k, t, [0x1B, 0x5B], text);
    WithoutSevenNeverSaves(k, t, [0x1B, 0x5B]);
    ParameterBytes(ps);
    ParametersNeverSave(k, Feed(k, t, [0x1B, 0x5B]), ParameterString(ps), final);
  }

  predicate DigitsAndSeparators(text: seq<Byte>) {
    forall i :: 0 <= i < |text| ==> IsDigit(text[i]) || text[i] == 0x3B
  }

  lemma {:induction false} ParameterBytes(ps: seq<nat>)
    ensures DigitsAndSeparators(ParameterString(ps))
  {
    hide Decimal;
    if ps == [] {
    } else if |ps| > 1 {
      ParameterBytes(ps[..|ps| - 1]);
    }
  }

  lemma {:induction false} ParametersNeverSave(k: Config, t: Term, text: seq<Byte>, final: Byte)
    requires Ok(k, t) && InSequence(t.p) && DigitsAndSeparators(text)
    ensures NeverSaves(k, t, text + [final])
    decreases |text|
  {
    hide Step;
    var bytes := text + [final];
    StepKeepsOk(k, t, bytes[0]);
    if text == [] {
      assert bytes[1..] == [];
    } else {
      assert bytes[1..] == text[1..] + [final];
      if IsDigit(text[0]) {
        DigitStep(k, t, text[0]);
      } else {
        SeparatorStep(k, t);
      }
      ParametersNeverSave(k, Step(k, t, text[0]), text[1..], final);
    }
  }

  lemma SaveRuns(k: Config, t: Term)
    requires Ok(k, t) && Ground(t.p)
    ensures var u := Feed(k, t, [0x1B, SAVE]);
            Ok(k, u) && u.s.saved == Saved(t.s.cursor, t.s.fg, t.s.bg) && u.p.savedLook == t.p.look
            && u.p.savedCharset == t.p.charsets.current && SameState(t, u)
  {
    hide Feed;
    FeedTwo(k, t, 0x1B, SAVE);
    EveryByteStringKeepsOk(k, t, [0x1B, SAVE]);
  }

  lemma RestoreRuns(k: Config, t: Term)
    requires Ok(k, t) && Ground(t.p)
    ensures var u := Feed(k, t, [0x1B, RESTORE]);
            u.s.cursor == t.s.saved.cursor && u.s.fg == t.s.saved.fg && u.s.bg == t.s.saved.bg
            && u.p.look == t.p.savedLook && u.p.charsets.current == t.p.savedCharset && u.s.cells == t.s.cells
  {
    hide Feed;
    FeedTwo(k, t, 0x1B, RESTORE);
  }

  /** ESC 7, any bytes that do not save again and leave nothing half done, ESC 8: cursor, colours, renditions and
      character set are back, and the cells are as those bytes left them. */
  lemma RestoreUndoesAll(k: Config, t: Term, bytes: seq<Byte>)
    requires Ok(k, t) && Ground(t.p)
    requires Ok(k, Feed(k, t, [0x1B, SAVE])) && NeverSaves(k, Feed(k, t, [0x1B, SAVE]), bytes)
    requires Ground(Feed(k, t, [0x1B, SAVE] + bytes).p)
    ensures var v := Feed(k, t, [0x1B, SAVE] + bytes);
            var u := Feed(k, t, [0x1B, SAVE] + bytes + [0x1B, RESTORE]);
            SameState(t, u) && u.s.cells == v.s.cells
  {
    hide Feed, Ok, Ground, NeverSaves;
    SaveRuns(k, t);
    FeedInPieces(k, t, [0x1B, SAVE], bytes);
    BytesKeepSaved(k, Feed(k, t, [0x1B, SAVE]), bytes);
    FeedInPieces(k, t, [0x1B, SAVE] + bytes, [0x1B, RESTORE]);
    RestoreRuns(k, Feed(k, t, [0x1B, SAVE] + bytes));
  }
}
