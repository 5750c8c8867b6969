/** The terminal as the kernel keeps it: one context whose fields every byte updates in place, on
    top of the lazily drawn framebuffer. Each method is proved to do what TerminalSpec says. */
module Terminal {
  import opened Bits
  import opened Screen
  import opened TerminalSpec
  import opened TerminalSafety
  import opened Framebuffer
  import opened ControlFunctions
  import Sgr

  class Terminal {
    const config: Config
    const fb: Framebuffer
    const values: array<nat>
    var count: nat
    var escape: bool
    var escapeOffset: nat
    var controlSequence: bool
    var decPrivate: bool
    var rrr: bool
    var discardNext: bool
    var osc: Osc
    var modes: Modes
    var tabSize: nat
    var utf8: Utf8
    var gSelect: nat
    var charsets: Charsets
    var savedCursor: Cursor
    var look: Look
    var savedLook: Look
    var savedCharset: nat

    /** The control sequence in progress. */
    ghost function Parameters(): (q: Csi)
      reads `controlSequence, `decPrivate, `rrr, `count, values
      ensures q.values == values[..] && q.count == count && q.decPrivate == decPrivate && q.active == controlSequence
    {
      Csi(controlSequence, decPrivate, rrr, values[..], count)
    }

    /** The parser's part of the context. */
    ghost function Fields(): Parser
      reads this, values
    {
      Parser(escape, escapeOffset, Parameters(), osc, discardNext, modes,
             tabSize, utf8, gSelect, charsets, savedCursor, look, savedLook, savedCharset)
    }

    ghost predicate Valid()
      reads this, values, fb, fb.grid, fb.queue, fb.pending, fb.shown
    {
      ConfigOk(config) && ParserOk(config, Fields()) && fb.Valid()
    }

    ghost function State(): Term
      requires fb.Valid()
      reads this, values, fb, fb.grid, fb.queue, fb.pending, fb.shown
    {
      Term(Fields(), fb.View())
    }

    constructor (c: Config, framebuffer: Framebuffer)
      requires ConfigOk(c) && framebuffer.Valid()
      modifies framebuffer
      ensures Valid() && config == c && fb == framebuffer && fresh(values)
      ensures Fields() == Reinit(Fields()) && savedLook == Look(false, false, false, 0, 0) && savedCharset == 0
      ensures fb.View() == ReinitScreen(old(framebuffer.View()))
      ensures ScreenOk(ReinitScreen(old(framebuffer.View()))) ==> Ok(config, State())
    {
      config, fb := c, framebuffer;
      values := new nat[c.maxValues](_ => 0);
      savedLook := Look(false, false, false, 0, 0);
      savedCharset := 0;
      new;
      ContextReinit();
    }

    method ContextReinit()
      requires fb.Valid()
      modifies this, fb
      ensures fb.Valid() && Fields() == Reinit(old(Fields())) && fb.View() == ReinitScreen(old(fb.View()))
    {
      hide Framebuffer.Valid, Framebuffer.View;
      ResetScreenSettings(fb);
      ReinitFields();
    }

    method ReinitFields()
      modifies this
      ensures Fields() == Reinit(old(Fields()))
    {
      hide Fields;
      ReinitModes();
      ReinitPending();
      ReinitParameters();
    }

    method ReinitModes()
      modifies `tabSize, `modes, `look, `charsets, `savedCursor
      ensures Fields() == old(Fields()).(tabSize := 8, modes := Modes(false, true, true), charsets := Charsets(0, 1, 0),
                                         look := Look(false, false, false, -1, -1), savedCursor := Cursor(0, 0))
    {
      tabSize := 8;
      look := Look(false, false, false, -1, -1);
      charsets := Charsets(0, 1, 0);
      savedCursor := Cursor(0, 0);
      modes := Modes(false, true, true);
    }

    method ReinitPending()
      modifies `escape, `discardNext, `osc, `utf8, `gSelect, `escapeOffset
      ensures Fields() == old(Fields()).(escape := false, escapeOffset := 0, discardNext := false,
        osc := Osc(false, false),
                                         utf8 := Utf8(0, old(Fields()).utf8.codePoint), gSelect := 0)
    {
      escape, discardNext := false, false;
      osc := Osc(false, false);
      utf8 := utf8.(remaining := 0);
      gSelect := 0;
      escapeOffset := 0;
    }

    method ReinitParameters()
      modifies `controlSequence, `rrr, `decPrivate, `count
      ensures Fields() == old(Fields()).(csi := Csi(false, false, false, old(Fields()).csi.values, 0))
    {
      controlSequence, rrr, decPrivate := false, false, false;
      count := 0;
    }

    // ---- colours ----------------------------------------------------------------------

    /** The colours and renditions in force. */
    ghost function Colours(): (c: Sgr.Colours)
      reads `look, fb`textFg, fb`textBg
      ensures LookOk(look) ==> Sgr.ColoursOk(c)
    {
      Sgr.Colours(fb.textFg, fb.textBg, look.bold, look.bgBold, look.reverse, look.primary, look.back)
    }

    method SwapPalette()
      modifies fb`textFg, fb`textBg
      ensures Colours() == Sgr.Swapped(old(Colours()))
    {
      var tmp := fb.textBg;
      fb.textBg := fb.textFg;
      fb.textFg := tmp;
    }

    method ResetRendition()
      modifies `look, fb`textFg, fb`textBg
      ensures LookOk(look) && Colours() == Sgr.Reset(config.palette, old(Colours()))
    {
      if look.reverse {
        look := look.(reverse := false);
        SwapPalette();
      }
      look := look.(bold := false, bgBold := false, primary := -1, back := -1);
      fb.textBg := Sgr.TRANSPARENT;
      fb.textFg := config.palette.defaultFg;
    }

    /** Parameters 1, 5, 22 and 25. */
    method Intensity(v: nat)
      requires Sgr.PaletteOk(config.palette) && LookOk(look) && (v == 1 || v == 5 || v == 22 || v == 25)
      modifies `look, fb`textFg, fb`textBg
      ensures Colours() == Sgr.One(config.palette, old(Colours()), v)
    {
      var p := config.palette;
      if v == 1 || v == 22 {
        var on := v == 1;
        look := look.(bold := on);
        var colours := if on then p.bright else p.ansi;
        if look.primary != -1 {
          if !look.reverse { fb.textFg := colours[look.primary]; } else { fb.textBg := colours[look.primary]; }
        } else {
          if !look.reverse {
            fb.textFg := if on then p.defaultFgBright else p.defaultFg;
          } else {
            fb.textBg := if on then p.defaultBgBright else Sgr.TRANSPARENT;
          }
        }
      } else {
        var on := v == 5;
        look := look.(bgBold := on);
        var colours := if on then p.bright else p.ansi;
        if look.back != -1 {
          if !look.reverse { fb.textBg := colours[look.back]; } else { fb.textFg := colours[look.back]; }
        } else {
          if !look.reverse {
            fb.textBg := if on then p.defaultBgBright else Sgr.TRANSPARENT;
          } else {
            fb.textFg := if on then p.defaultFgBright else p.defaultFg;
          }
        }
      }
    }

    /** The label set_fg, shared by 30-37 and, under reverse video, 40-47. */
    method SetFg(index: nat)
      requires Sgr.PaletteOk(config.palette) && index < 8
      modifies fb`textFg
      ensures Colours() == Sgr.SetFg(config.palette, old(Colours()), index)
    {
      if (look.bold && !look.reverse) || (look.bgBold && look.reverse) {
        fb.textFg := config.palette.bright[index];
      } else {
        fb.textFg := config.palette.ansi[index];
      }
    }

    /** The label set_bg. */
    method SetBg(index: nat)
      requires Sgr.PaletteOk(config.palette) && index < 8
      modifies fb`textBg
      ensures Colours() == Sgr.SetBg(config.palette, old(Colours()), index)
    {
      if (look.bold && look.reverse) || (look.bgBold && !look.reverse) {
        fb.textBg := config.palette.bright[index];
      } else {
        fb.textBg := config.palette.ansi[index];
      }
    }

    /** Parameters 30-37, 40-47, 90-97 and 100-107. */
    method SelectColour(v: nat)
      requires Sgr.PaletteOk(config.palette) && LookOk(look)
      requires 30 <= v <= 37 || 40 <= v <= 47 || 90 <= v <= 97 || 100 <= v <= 107
      modifies `look, fb`textFg, fb`textBg
      ensures Colours() == Sgr.One(config.palette, old(Colours()), v)
    {
      hide Sgr.SetFg, Sgr.SetBg;
      if v <= 37 {
        look := look.(primary := v - 30);
        if look.reverse { SetBg(v - 30); } else { SetFg(v - 30); }
      } else if v <= 47 {
        look := look.(back := v - 40);
        if look.reverse { SetFg(v - 40); } else { SetBg(v - 40); }
      } else if v <= 97 {
        look := look.(primary := v - 90);
        if look.reverse { fb.textBg := config.palette.bright[v - 90]; }
        else { fb.textFg := config.palette.bright[v - 90]; }
      } else {
        look := look.(back := v - 100);
        if look.reverse { fb.textFg := config.palette.bright[v - 100]; }
        else { fb.textBg := config.palette.bright[v - 100]; }
      }
    }

    /** Parameters 39 and 49. */
    method DefaultColour(v: nat)
      requires Sgr.PaletteOk(config.palette) && LookOk(look) && (v == 39 || v == 49)
      modifies `look, fb`textFg, fb`textBg
      ensures Colours() == Sgr.One(config.palette, old(Colours()), v)
    {
      look := if v == 39 then look.(primary := -1) else look.(back := -1);
      if look.reverse {
        SwapPalette();
      }
      if v == 39 {
        fb.textFg := if look.bold then config.palette.defaultFgBright else config.palette.defaultFg;
      } else {
        fb.textBg := if look.bgBold then config.palette.defaultBgBright else Sgr.TRANSPARENT;
      }
      if look.reverse {
        SwapPalette();
      }
    }

    /** One parameter other than 38 and 48. */
    method Parameter(v: nat)
      requires Sgr.PaletteOk(config.palette) && LookOk(look)
      modifies `look, fb`textFg, fb`textBg
      ensures Colours() == Sgr.One(config.palette, old(Colours()), v) && LookOk(look)
    {
      hide Sgr.Reset, Sgr.SetFg, Sgr.SetBg;
      if v == 0 {
        ResetRendition();
      } else if v == 1 || v == 5 || v == 22 || v == 25 {
        Intensity(v);
      } else if 30 <= v <= 37 || 40 <= v <= 47 || 90 <= v <= 97 || 100 <= v <= 107 {
        SelectColour(v);
      } else if v == 39 || v == 49 {
        DefaultColour(v);
      } else if v == 7 {
        if !look.reverse {
          look := look.(reverse := true);
          SwapPalette();
        }
      } else if v == 27 {
        if look.reverse {
          look := look.(reverse := false);
          SwapPalette();
        }
      }
    }

    /** Parameters 38 and 48 at index i: where the next parameter is, or the end. */
    method ExtendedColour(i: nat) returns (next: nat)
      requires Sgr.PaletteOk(config.palette) && LookOk(look)
      requires i < count <= values.Length && (values[i] == 38 || values[i] == 48)
      modifies fb`textFg, fb`textBg
      ensures i < next <= count && LookOk(look)
      ensures var p := config.palette;
              Sgr.Params(p, Colours(), values[next..count]) == Sgr.Params(p, old(Colours()), values[i..count])
    {
      hide Sgr.Rgb;
      ghost var vs := values[i..count];
      var fg := values[i] == 38;
      var j := i + 1;
      if j >= count {
        return count;
      }
      if values[j] == 2 {
        if j + 3 >= count {
          return count;
        }
        SetDirect(fg, config.palette.convert(Sgr.Rgb(values[j + 1], values[j + 2], values[j + 3])));
        assert values[j + 4..count] == vs[5..];
        return j + 4;
      } else if values[j] == 5 {
        if j + 1 >= count {
          return count;
        }
        SetIndexed(fg, values[j + 1]);
        assert values[j + 2..count] == vs[3..];
        return j + 2;
      }
      assert values[j + 1..count] == vs[2..];
      return j + 1;
    }

    method SetDirect(fg: bool, value: nat)
      modifies fb`textFg, fb`textBg
      ensures Colours() == Sgr.SetDirect(old(Colours()), fg, value)
    {
      if fg { fb.textFg := value; } else { fb.textBg := value; }
    }

    method SetIndexed(fg: bool, n: nat)
      requires Sgr.PaletteOk(config.palette)
      modifies fb`textFg, fb`textBg
      ensures Colours() == Sgr.Indexed(config.palette, old(Colours()), fg, n)
    {
      if n < 8 {
        SetDirect(fg, config.palette.ansi[n]);
      } else if n < 16 {
        SetDirect(fg, config.palette.bright[n - 8]);
      } else if n < 256 {
        SetDirect(fg, config.palette.convert(config.palette.col256[n - 16]));
      }
    }

    /** The parameter loop of SGR. */
    method SelectGraphicRendition()
      requires Sgr.PaletteOk(config.palette) && LookOk(look) && count <= values.Length
      modifies `look, fb`textFg, fb`textBg
      ensures LookOk(look) && Colours() == Sgr.Sequence(config.palette, old(Colours()), values[..count])
    {
      hide Sgr.Reset, Sgr.One, Colours;
      if count == 0 {
        ResetRendition();
        return;
      }
      ghost var p, c, vs := config.palette, Colours(), values[..count];
      var i := 0;
      assert values[0..count] == vs;
      while i < count
        invariant i <= count && LookOk(look) && Sgr.Params(p, Colours(), values[i..count]) == Sgr.Params(p, c, vs)
      {
        if values[i] == 38 || values[i] == 48 {
          i := ExtendedColour(i);
        } else {
          assert values[i + 1..count] == values[i..count][1..];
          Parameter(values[i]);
          i := i + 1;
        }
      }
    }

    /** SGR, on the whole context. */
    method Rendition()
      requires Valid()
      modifies `look, fb`textFg, fb`textBg
      ensures Valid()
      ensures State() == WithColours(old(State()),
        Sgr.Sequence(config.palette, ColoursOf(old(State())), values[..count]))
    {
      hide Consistent, LogicalCells, DrawnBut, Sgr.Sequence, Parameters;
      SelectGraphicRendition();
    }

    // ---- control sequences -----------------------------------------------------------------

    /** Final bytes that move the cursor. */
    method MoveCursor(c: Byte)
      requires fb.Valid() && values.Length >= 2 && Moves(c)
      modifies fb, fb.grid, fb.queue, fb.pending, fb.shown
      ensures fb.Valid() && fb.View() == Moved(old(fb.View()), values[..], savedCursor, c)
    {
      hide Framebuffer.Valid, Framebuffer.View, CursorSet, UpTarget, DownTarget, CursorSeen;
      var x, y := fb.GetCursorPos();
      var v := values[0];
      if c == 0x46 {
        CursorUp(fb, 0, y, v);
      } else if c == 0x41 {
        CursorUp(fb, x, y, v);
      } else if c == 0x45 {
        CursorDown(fb, 0, y, v);
      } else if c == 0x65 || c == 0x42 {
        CursorDown(fb, x, y, v);
      } else if c == 0x61 || c == 0x43 {
        fb.SetCursorPos(x + (if x + v > fb.cols - 1 then fb.cols - 1 - x else v), y);
      } else if c == 0x44 {
        fb.SetCursorPos(x - (if v > x then x else v), y);
      } else if c == 0x75 {
        fb.SetCursorPos(savedCursor.x, savedCursor.y);
      } else {
        Address(c, x, y);
      }
    }

    /** VPA, CHA and CUP. */
    method Address(c: Byte, x: nat, y: nat)
      requires fb.Valid() && values.Length >= 2 && (c == 0x64 || c == 0x47 || c == 0x60 || c == 0x48 || c == 0x66)
      requires Cursor(x, y) == CursorSeen(fb.View())
      modifies fb, fb.grid, fb.queue, fb.pending, fb.shown
      ensures fb.Valid() && fb.View() == Moved(old(fb.View()), values[..], savedCursor, c)
    {
      hide Framebuffer.Valid, Framebuffer.View, CursorSet, CursorSeen;
      var v, w := values[0], values[1];
      if c == 0x64 {
        v := if v == 0 then U32 - 1 else v - 1;
        fb.SetCursorPos(x, if v >= fb.rows then fb.rows - 1 else v);
      } else if c == 0x47 || c == 0x60 {
        v := if v == 0 then U32 - 1 else v - 1;
        fb.SetCursorPos(if v >= fb.cols then fb.cols - 1 else v, y);
      } else {
        if v != 0 { v := v - 1; }
        if w != 0 { w := w - 1; }
        fb.SetCursorPos(if w >= fb.cols then fb.cols - 1 else w, if v >= fb.rows then fb.rows - 1 else v);
      }
    }

    /** Final bytes that edit the screen or its margins. */
    method Edit(c: Byte)
      requires fb.Valid() && values.Length >= 2 && values[0] < U32 && Edits(c)
      modifies fb, fb.grid, fb.queue, fb.pending, fb.shown
      ensures fb.Valid() && fb.View() == Edited(old(fb.View()), values[..], count, c)
    {
      hide Framebuffer.Valid, Framebuffer.View, CursorSet, CursorSeen, Inserted, Erased, LineErased, Deleted,
           CharsErased, Margins;
      hide ScrolledTimes, RevScrolledTimes;
      var x, y := fb.GetCursorPos();
      var v := values[0];
      if c == 0x4D {
        ScrollTimes(fb, if v > fb.rows then fb.rows else v);
      } else if c == 0x4C {
        InsertLines(fb, y, v);
      } else if c == 0x4A {
        EraseInDisplay(fb, x, y, v);
      } else if c == 0x40 {
        InsertCharacters(fb, x, y, v);
      } else if c == 0x50 {
        DeleteCharacters(fb, x, y, v);
      } else if c == 0x58 {
        EraseCharacters(fb, x, y, v);
      } else if c == 0x4B {
        EraseInLine(fb, x, y, v);
      } else {
        SetMargins(fb, values, count);
      }
    }

    /** The final byte of a control sequence that is not DEC-private. */
    method FinalByte(c: Byte)
      requires Valid()
      modifies this, fb, fb.grid, fb.queue, fb.pending, fb.shown
      ensures fb.Valid() && State() == Final(config, old(State()), c)
    {
      hide Framebuffer.Valid, Framebuffer.View, Sgr.Sequence, ScreenFinal, WithColours, ColoursOf, CursorSeen,
           Parameters;
      if c == 0x6D {
        Rendition();
      } else if c == 0x73 {
        var x, y := fb.GetCursorPos();
        savedCursor := Cursor(x, y);
      } else if c == 0x68 || c == 0x6C {
        if count > 0 && values[0] == 4 {
          modes := modes.(insert := c == 0x68);
        }
      } else {
        ScreenFunction(c);
      }
    }

    /** A final byte that concerns the screen, or nothing at all. */
    method ScreenFunction(c: Byte)
      requires Valid()
      modifies fb, fb.grid, fb.queue, fb.pending, fb.shown
      ensures fb.Valid() && fb.View() == ScreenFinal(old(fb.View()), values[..], count, savedCursor, c)
    {
      hide Framebuffer.Valid, Framebuffer.View, Parameters, Moved, Edited, Moves, Edits;
      if Moves(c) {
        MoveCursor(c);
      } else if Edits(c) {
        Edit(c);
      }
    }

    method AddDigit(c: Byte)
      requires Valid() && IsDigit(c)
      modifies `rrr, values
      ensures Fields() == old(Fields()).(csi := Digit(config, old(Fields()).csi, c))
    {
      if count == config.maxValues {
        return;
      }
      rrr := true;
      values[count] := (values[count] * 10) % U32;
      values[count] := (values[count] + (c - 0x30)) % U32;
      assert values[..] == old(values[..])[count := values[count]];
    }

    method AddSeparator()
      requires Valid()
      modifies `rrr, `count, values
      ensures Fields() == old(Fields()).(csi := Separator(config, old(Fields()).csi))
    {
      if rrr {
        count := count + 1;
        rrr := false;
      } else {
        if count == config.maxValues {
          return;
        }
        values[count] := 0;
        count := count + 1;
        assert values[..] == old(values[..])[old(count) := 0];
      }
    }

    /** The parameter being entered, if any, is complete. */
    method EndParameter()
      requires Valid()
      modifies `rrr, `count
      ensures Fields() == old(Fields()).(csi := Counted(old(Fields()).csi)) && count <= values.Length
    {
      if rrr {
        count := count + 1;
        rrr := false;
      }
    }

    /** The parameters not given take the default of the final byte. */
    method FillDefaults(c: Byte)
      requires values.Length == config.maxValues && count <= values.Length
      modifies values
      ensures Fields() == old(Fields()).(csi := Defaulted(old(Fields()).csi, c))
    {
      var escDefault := if c == 0x4A || c == 0x4B || c == 0x71 then 0 else 1;
      for i := count to config.maxValues
        invariant forall j :: 0 <= j < i ==> values[j] == if j < count then old(values[j]) else escDefault
        invariant forall j :: i <= j < values.Length ==> values[j] == old(values[j])
      {
        values[i] := escDefault;
      }
      assert values[..] == Defaulted(old(Fields()).csi, c).values;
    }

    method CompleteParameters(c: Byte)
      requires Valid()
      modifies `rrr, `count, values
      ensures Fields() == old(Fields()).(csi := Defaulted(Counted(old(Fields()).csi), c))
    {
      hide Counted, Defaulted;
      EndParameter();
      FillDefaults(c);
    }

    /** DEC-private modes. */
    method DecPrivateParse(c: Byte)
      requires Valid()
      modifies `decPrivate, fb`cursorEnabled
      ensures fb.Valid() && Fields() == old(Fields()).(csi := old(Fields()).csi.(decPrivate := false))
      ensures fb.View() == DecPrivate(old(fb.View()), old(Fields()).csi, c)
    {
      hide Framebuffer.Valid, Framebuffer.View;
      decPrivate := false;
      if count == 0 || (c != 0x68 && c != 0x6C) {
        return;
      }
      if values[0] == 25 {
        SetCursorEnabled(fb, c == 0x68);
      }
    }

    /** The final byte, with scrolling off while it is carried out. */
    method FinishSequence(c: Byte)
      requires Valid()
      modifies this, values, fb, fb.grid, fb.queue, fb.pending, fb.shown
      ensures fb.Valid() && State() == Finished(config, old(State()), c)
    {
      hide Framebuffer.Valid, Framebuffer.View, Final, DecPrivate, Defaulted, Counted, Parameters;
      CsiKeepsOk(config, Fields().csi, c);
      CompleteParameters(c);
      if decPrivate {
        DecPrivateParse(c);
      } else {
        var r := SetScrollEnabled(fb, false);
        FinalByte(c);
        var _ := SetScrollEnabled(fb, r);
      }
      LeaveSequence();
    }

    method LeaveSequence()
      modifies `controlSequence, `escape
      ensures Fields() == EndSequence(old(Fields()))
    {
      controlSequence, escape := false, false;
    }

    method ControlSequenceParse(c: Byte)
      requires Valid()
      modifies this, values, fb, fb.grid, fb.queue, fb.pending, fb.shown
      ensures fb.Valid() && State() == ControlByte(config, old(State()), c)
    {
      hide Framebuffer.Valid, Framebuffer.View, Finished, Digit, Separator;
      if escapeOffset == 2 && c == 0x5B {
        discardNext := true;
        LeaveSequence();
      } else if escapeOffset == 2 && c == 0x3F {
        decPrivate := true;
      } else if 0x30 <= c <= 0x39 {
        AddDigit(c);
      } else if c == 0x3B {
        AddSeparator();
      } else {
        FinishSequence(c);
      }
    }

    // ---- escape sequences -------------------------------------------------------------------

    method OscParse(c: Byte)
      modifies `osc, `escape
      ensures Fields() == OscByte(old(Fields()), c)
    {
      hide Parameters;
      if !(osc.escape && c == 0x5C) {
        osc := osc.(escape := false);
        if c == 0x1B {
          osc := osc.(escape := true);
          return;
        }
      }
      osc := Osc(false, false);
      escape := false;
    }

    method SaveState()
      requires Valid()
      modifies `savedLook, `savedCharset, fb
      ensures fb.Valid() && State() == SaveAll(old(State()))
    {
      hide Parameters, Consistent, LogicalCells, DrawnBut;
      fb.SaveState();
      savedLook := look;
      savedCharset := charsets.current;
    }

    method RestoreState()
      requires Valid()
      modifies `look, `charsets, fb
      ensures fb.Valid() && State() == RestoreAll(old(State()))
    {
      hide Parameters, Framebuffer.Valid, Framebuffer.View;
      look := savedLook;
      charsets := charsets.(current := savedCharset);
      fb.RestoreState();
    }

    /** The byte after ESC, when it begins nothing longer. */
    method EscapeFunction(c: Byte)
      requires Valid()
      modifies this, fb, fb.grid, fb.queue, fb.pending, fb.shown
      ensures fb.Valid() && State() == EscapeFinal(old(State()), c)
    {
      hide Parameters, Framebuffer.Valid, Framebuffer.View, SaveAll, RestoreAll, Reinit, ReinitScreen, Cleared,
           LineFed, ReverseFed;
      hide CursorSeen;
      var x, y := fb.GetCursorPos();
      if c == 0x37 {
        SaveState();
      } else if c == 0x38 {
        RestoreState();
      } else if c == 0x63 {
        ContextReinit();
        fb.Clear(true);
      } else if c == 0x44 {
        LineFeed(fb, x, y);
      } else if c == 0x45 {
        LineFeed(fb, 0, y);
      } else if c == 0x4D {
        ReverseLineFeed(fb, y);
      } else if c == 0x28 || c == 0x29 {
        gSelect := c - 0x27;
      }
    }

    /** `[`: a control sequence begins with no parameters. */
    method BeginSequence()
      requires Valid()
      modifies `count, `rrr, `controlSequence, values
      ensures Fields() == old(Fields()).(csi := Csi(true, decPrivate, false, Zeros(values.Length), 0))
    {
      for i := 0 to config.maxValues
        invariant forall j :: 0 <= j < i ==> values[j] == 0
      {
        values[i] := 0;
      }
      assert values[..] == Zeros(values.Length);
      count := 0;
      rrr := false;
      controlSequence := true;
    }

    method EscapeParse(c: Byte)
      requires Valid()
      modifies this, values, fb, fb.grid, fb.queue, fb.pending, fb.shown
      ensures fb.Valid() && State() == EscapeByte(config, old(State()), c)
    {
      hide Framebuffer.Valid, Framebuffer.View, ControlByte, EscapeFinal, OscByte, Parameters;
      escapeOffset := escapeOffset + 1;
      if osc.active {
        OscParse(c);
      } else if controlSequence {
        ControlSequenceParse(c);
      } else if c == 0x5D {
        osc := Osc(true, false);
      } else if c == 0x5B {
        BeginSequence();
      } else {
        EscapeAlone(c);
      }
    }

    method EscapeAlone(c: Byte)
      requires Valid()
      modifies this, fb, fb.grid, fb.queue, fb.pending, fb.shown
      ensures fb.Valid()
      ensures var d := EscapeFinal(old(State()), c); State() == d.(p := d.p.(escape := false))
    {
      hide Framebuffer.Valid, Framebuffer.View, EscapeFinal, Parameters;
      EscapeFunction(c);
      escape := false;
    }

    // ---- plain bytes ---------------------------------------------------------------------------

    /** The glyph for c in the character set in use. */
    method TranslateCharset(c: Byte) returns (glyph: Byte)
      requires charsets.current <= 1
      ensures glyph == GlyphOf(Fields(), c)
    {
      hide Parameters;
      var charset := if charsets.current == 0 then charsets.g0 else charsets.g1;
      if charset == 1 {
        var special := DecSpecial(c);
        if special.Some? {
          return special.value;
        }
      }
      glyph := if 0x20 <= c <= 0x7e then c else 0xfe;
    }

    method Print(c: Byte)
      requires Valid()
      modifies fb, fb.grid, fb.queue, fb.pending, fb.shown
      ensures fb.Valid() && State() == Printed(old(State()), c)
    {
      hide Framebuffer.Valid, Framebuffer.View, GlyphOf, CursorSeen, CharPut, PushedRight, Parameters;
      var x, y := fb.GetCursorPos();
      if modes.insert {
        PushRight(fb, x, y);
      }
      var glyph := TranslateCharset(c);
      fb.RawPutchar(glyph);
    }

    method PlainChar(c: Byte)
      requires Valid()
      modifies this, fb, fb.grid, fb.queue, fb.pending, fb.shown
      ensures fb.Valid() && State() == PlainByte(old(State()), c)
    {
      hide Framebuffer.Valid, Framebuffer.View, Printed, CursorSet, CursorSeen, LineFed, Tabbed, Parameters;
      if c == 0x00 || c == 0x7f || c == 0x07 {
      } else if c == 0x1b {
        escapeOffset, escape := 0, true;
      } else if c == 0x09 || c == 0x0b || c == 0x0c || c == 0x0a || c == 0x08 || c == 0x0d {
        Format(c);
      } else if c == 14 {
        charsets := charsets.(current := 1);
      } else if c == 15 {
        charsets := charsets.(current := 0);
      } else {
        Print(c);
      }
    }

    /** Tab, line feeds, backspace (x - 1 in 64 bits) and carriage return. */
    method Format(c: Byte)
      requires Valid() && (c == 0x09 || c == 0x0b || c == 0x0c || c == 0x0a || c == 0x08 || c == 0x0d)
      modifies fb, fb.grid, fb.queue, fb.pending, fb.shown
      ensures fb.Valid() && State() == PlainByte(old(State()), c)
    {
      hide Framebuffer.Valid, Framebuffer.View, CursorSet, CursorSeen, LineFed, Tabbed, Parameters;
      var x, y := fb.GetCursorPos();
      if c == 0x09 {
        Tab(fb, x, y, tabSize);
      } else if c == 0x08 {
        fb.SetCursorPos(if x == 0 then WORD_LIMIT - 1 else x - 1, y);
      } else if c == 0x0d {
        fb.SetCursorPos(0, y);
      } else {
        LineFeed(fb, if modes.onlcr then 0 else x, y);
      }
    }

    // ---- bytes -----------------------------------------------------------------------------------

    method Cancel()
      modifies `discardNext, `escape, `controlSequence, `utf8, `osc, `gSelect
      ensures Fields() == Cancelled(old(Fields()))
    {
      discardNext, escape, controlSequence := false, false, false;
      utf8 := utf8.(remaining := 0);
      osc := Osc(false, false);
      gSelect := 0;
    }

    method BeginMultibyte(c: Byte)
      requires 0xc0 <= c <= 0xf7
      modifies `utf8
      ensures Fields() == LeadByte(old(Fields()), c)
    {
      hide Parameters;
      if c <= 0xdf {
        utf8 := Utf8(1, Shl(BitAnd(c, 0x1f), 6));
      } else if c <= 0xef {
        utf8 := Utf8(2, Shl(BitAnd(c, 0x0f), 12));
      } else {
        utf8 := Utf8(3, Shl(BitAnd(c, 0x07), 18));
      }
      LeadMasks(c);
    }

    method Designate(c: Byte)
      requires gSelect > 0
      modifies `gSelect, `charsets
      ensures Fields() == SetSelected(old(Fields()), c)
    {
      hide Parameters;
      gSelect := gSelect - 1;
      if c == 0x42 || c == 0x30 {
        var charset := if c == 0x42 then 0 else 1;
        charsets := if gSelect == 0 then charsets.(g0 := charset) else charsets.(g1 := charset);
      }
      gSelect := 0;
    }

    /** What follows the label unicode_error. */
    method SingleChar(c: Byte)
      requires Valid()
      modifies this, values, fb, fb.grid, fb.queue, fb.pending, fb.shown
      ensures fb.Valid() && State() == SingleByte(config, old(State()), c)
    {
      hide Framebuffer.Valid, Framebuffer.View, LeadByte, EscapeByte, SetSelected, PlainByte, Parameters;
      if 0xc0 <= c <= 0xf7 {
        BeginMultibyte(c);
      } else if escape {
        EscapeParse(c);
      } else if gSelect > 0 {
        Designate(c);
      } else {
        PlainChar(c);
      }
    }

    method ContinueMultibyte(c: Byte)
      requires Valid() && utf8.remaining > 0 && c / 0x40 == 2
      modifies `utf8, fb, fb.grid, fb.queue, fb.pending, fb.shown
      ensures fb.Valid() && State() == ContinuationByte(config, old(State()), c)
    {
      hide Framebuffer.Valid, Framebuffer.View, CodePointPut, BitOr, Shl, Parameters;
      var rest := utf8.remaining - 1;
      ContinuationMasks(c);
      utf8 := Utf8(rest, BitOr(utf8.codePoint, Shl(BitAnd(c, 0x3f), 6 * rest)));
      if rest != 0 {
        return;
      }
      PutCodePoint(fb, config, utf8.codePoint);
    }

    /** One byte. */
    method Putchar(c: Byte)
      requires Valid()
      modifies this, values, fb, fb.grid, fb.queue, fb.pending, fb.shown
      ensures fb.Valid() && State() == Step(config, old(State()), c)
    {
      hide Framebuffer.Valid, Framebuffer.View, SingleByte, ContinuationByte, Cancelled, Parameters, BitAnd;
      if discardNext || c == 0x18 || c == 0x1a {
        Cancel();
        return;
      }
      if utf8.remaining != 0 {
        ContinuationMasks(c);
        if BitAnd(c, 0xc0) == 0x80 {
          ContinueMultibyte(c);
          return;
        }
        utf8 := utf8.(remaining := 0);
      }
      SingleChar(c);
    }

    /** A buffer of bytes. The context ends as the bytes one after another leave the plain-array
        terminal; with autoflush on, the display then shows exactly that screen. */
    method Write(bytes: seq<Byte>)
      requires Valid() && Ok(config, State())
      modifies this, values, fb, fb.grid, fb.queue, fb.pending, fb.shown
      ensures Valid() && Ok(config, State()) && State() == Feed(config, old(State()), bytes)
      ensures modes.autoflush ==>
        Displays(fb.shown[..], State().s.cells,
          if fb.cursorEnabled then Place(fb.cols, fb.rows, fb.cursorX, fb.cursorY) else None)
    {
      hide Framebuffer.Valid, Framebuffer.View, Step, Displays, Fields;
      ghost var t := State();
      for i := 0 to |bytes|
        invariant fb.Valid() && Ok(config, State()) && Feed(config, State(), bytes[i..]) == Feed(config, t, bytes)
      {
        assert bytes[i..][1..] == bytes[i + 1..];
        StepKeepsOk(config, State(), bytes[i]);
        Putchar(bytes[i]);
      }
      if Autoflush() {
        fb.DoubleBufferFlush();
      }
    }

    predicate Autoflush()
      reads this
    {
      modes.autoflush
    }
  }

  lemma LowBits(c: nat, k: nat, m: nat)
    requires m == Pow2(k) > 0
    ensures BitAnd(c, m - 1) == c % m
  {
    hide BitAnd, Shl, Pow2;
    ShlIsProduct(c / m, k);
    assert c == m * (c / m) + c % m;
    AndLowMask(k, c / m, c % m);
  }

  lemma LeadMasks(c: Byte)
    ensures BitAnd(c, 0x1f) == c % 0x20 && BitAnd(c, 0x0f) == c % 0x10 && BitAnd(c, 0x07) == c % 0x08
  {
    PowersUsed();
    assert Pow2(5) == 2 * Pow2(4);
    LowBits(c, 5, 32);
    LowBits(c, 4, 16);
    LowBits(c, 3, 8);
  }

  /** The two masks that recognise a continuation byte and take its payload. */
  lemma ContinuationMasks(c: Byte)
    ensures BitAnd(c, 0x3f) == c % 0x40
    ensures BitAnd(c, 0xc0) == 0x80 <==> c / 0x40 == 2
  {
    PowersUsed();
    LowBits(c, 6, 64);
    ShlIsProduct(3, 6);
    ShlIsProduct(c / 0x40, 6);
    AndHighMask(6, 2, c / 0x40, c % 0x40);
  }
}
