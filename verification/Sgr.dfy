/** Select Graphic Rendition: the colour state of the terminal and how parameter lists change it. */
module Sgr {
  import opened Bits

  /** text_bg_default: the canvas shows through. */
  const TRANSPARENT: nat := 0xffff_ffff

  datatype Palette = Palette(
    ansi: seq<nat>, bright: seq<nat>, col256: seq<nat>,
    defaultFg: nat, defaultFgBright: nat, defaultBgBright: nat,
    convert: nat -> nat)

  ghost predicate PaletteOk(p: Palette) {
    |p.ansi| == 8 && |p.bright| == 8 && |p.col256| == 240
  }

  /** primary and back are palette indices, or -1 while the default colour is selected. */
  datatype Colours = Colours(fg: nat, bg: nat, bold: bool, bgBold: bool, reverse: bool, primary: int, back: int)

  ghost predicate ColoursOk(c: Colours) {
    -1 <= c.primary < 8 && -1 <= c.back < 8
  }

  function Swapped(c: Colours): Colours {
    c.(fg := c.bg, bg := c.fg)
  }

  function Reset(p: Palette, c: Colours): (r: Colours)
    ensures ColoursOk(r)
  {
    var d := if c.reverse then Swapped(c.(reverse := false)) else c;
    d.(bold := false, bgBold := false, primary := -1, back := -1, bg := TRANSPARENT, fg := p.defaultFg)
  }

  /** Foreground colour for a palette index. */
  function SetFg(p: Palette, c: Colours, index: nat): Colours
    requires PaletteOk(p) && index < 8
  {
    c.(fg := if (c.bold && !c.reverse) || (c.bgBold && c.reverse) then p.bright[index] else p.ansi[index])
  }

  function SetBg(p: Palette, c: Colours, index: nat): Colours
    requires PaletteOk(p) && index < 8
  {
    c.(bg := if (c.bold && c.reverse) || (c.bgBold && !c.reverse) then p.bright[index] else p.ansi[index])
  }

  /** One parameter other than 38 and 48. */
  function One(p: Palette, c: Colours, v: nat): (r: Colours)
    requires PaletteOk(p) && ColoursOk(c)
    ensures ColoursOk(r)
  {
    if v == 0 then Reset(p, c)
    else if v == 1 then
      var d := c.(bold := true);
      if c.primary != -1 then (if c.reverse then d.(bg := p.bright[c.primary]) else d.(fg := p.bright[c.primary]))
      else if c.reverse then d.(bg := p.defaultBgBright) else d.(fg := p.defaultFgBright)
    else if v == 5 then
      var d := c.(bgBold := true);
      if c.back != -1 then (if c.reverse then d.(fg := p.bright[c.back]) else d.(bg := p.bright[c.back]))
      else if c.reverse then d.(fg := p.defaultFgBright) else d.(bg := p.defaultBgBright)
    else if v == 22 then
      var d := c.(bold := false);
      if c.primary != -1 then (if c.reverse then d.(bg := p.ansi[c.primary]) else d.(fg := p.ansi[c.primary]))
      else if c.reverse then d.(bg := TRANSPARENT) else d.(fg := p.defaultFg)
    else if v == 25 then
      var d := c.(bgBold := false);
      if c.back != -1 then (if c.reverse then d.(fg := p.ansi[c.back]) else d.(bg := p.ansi[c.back]))
      else if c.reverse then d.(fg := p.defaultFg) else d.(bg := TRANSPARENT)
    else if 30 <= v <= 37 then
      var d := c.(primary := v - 30);
      if c.reverse then SetBg(p, d, v - 30) else SetFg(p, d, v - 30)
    else if 40 <= v <= 47 then
      var d := c.(back := v - 40);
      if c.reverse then SetFg(p, d, v - 40) else SetBg(p, d, v - 40)
    else if 90 <= v <= 97 then
      var d := c.(primary := v - 90);
      if c.reverse then d.(bg := p.bright[v - 90]) else d.(fg := p.bright[v - 90])
    else if 100 <= v <= 107 then
      var d := c.(back := v - 100);
      if c.reverse then d.(fg := p.bright[v - 100]) else d.(bg := p.bright[v - 100])
    else if v == 39 then
      var d := c.(primary := -1);
      var e := if c.reverse then Swapped(d) else d;
      var f := e.(fg := if c.bold then p.defaultFgBright else p.defaultFg);
      if c.reverse then Swapped(f) else f
    else if v == 49 then
      var d := c.(back := -1);
      var e := if c.reverse then Swapped(d) else d;
      var f := e.(bg := if c.bgBold then p.defaultBgBright else TRANSPARENT);
      if c.reverse then Swapped(f) else f
    else if v == 7 then
      if c.reverse then c else Swapped(c.(reverse := true))
    else if v == 27 then
      if c.reverse then Swapped(c.(reverse := false)) else c
    else c
  }

  /** `r << 16 | g << 8 | b` in 32 bits. */
  function Rgb(r: nat, g: nat, b: nat): nat {
    BitOr(BitOr((r * 0x1_0000) % 0x1_0000_0000, (g * 0x100) % 0x1_0000_0000), b)
  }

  /** Three numbers that fit a byte each become one, a byte each. */
  lemma RgbBytes(r: nat, g: nat, b: nat)
    requires r < 256 && g < 256 && b < 256
    ensures Rgb(r, g, b) == 0x1_0000 * r + 0x100 * g + b
  {
    hide BitOr, Shl;
    SixteenBits();
    ShlIsProduct(r, 16);
    ShlIsProduct(0x100 * r + g, 8);
    OrDisjoint(r, 16, 0x100 * g);
    OrDisjoint(0x100 * r + g, 8, b);
  }

  lemma SixteenBits()
    ensures Pow2(8) == 0x100 && Pow2(16) == 0x1_0000
  {
    assert Pow2(8) == 0x100;
  }

  function SetDirect(c: Colours, fg: bool, value: nat): Colours {
    if fg then c.(fg := value) else c.(bg := value)
  }

  /** Colour number n of the 256-colour selection. */
  function Indexed(p: Palette, c: Colours, fg: bool, n: nat): Colours
    requires PaletteOk(p)
  {
    if n < 8 then SetDirect(c, fg, p.ansi[n])
    else if n < 16 then SetDirect(c, fg, p.bright[n - 8])
    else if n < 256 then SetDirect(c, fg, p.convert(p.col256[n - 16]))
    else c
  }

  /** The parameter loop. */
  function Params(p: Palette, c: Colours, vs: seq<nat>): (r: Colours)
    requires PaletteOk(p) && ColoursOk(c)
    ensures ColoursOk(r)
    decreases |vs|
  {
    if |vs| == 0 then c
    else if vs[0] != 38 && vs[0] != 48 then Params(p, One(p, c, vs[0]), vs[1..])
    else if |vs| == 1 then c
    else if vs[1] == 2 then
      (if |vs| <= 4 then c
       else Params(p, SetDirect(c, vs[0] == 38, p.convert(Rgb(vs[2], vs[3], vs[4]))), vs[5..]))
    else if vs[1] == 5 then
      (if |vs| <= 2 then c else Params(p, Indexed(p, c, vs[0] == 38, vs[2]), vs[3..]))
    else Params(p, c, vs[2..])
  }

  /** A whole SGR sequence; without parameters it resets. */
  function Sequence(p: Palette, c: Colours, vs: seq<nat>): (r: Colours)
    requires PaletteOk(p) && ColoursOk(c)
    ensures ColoursOk(r)
  {
    if |vs| == 0 then Reset(p, c) else Params(p, c, vs)
  }

  /** The renditions a reset selects. */
  function Initial(p: Palette): Colours {
    Colours(p.defaultFg, TRANSPARENT, false, false, false, -1, -1)
  }

  /** A 0 leaves nothing of what was selected before it, in this sequence or an earlier one: whatever the
      renditions were, with reverse video on or off, what follows applies to the initial ones. */
  lemma {:induction false} ResetForgets(p: Palette, c: Colours, vs: seq<nat>, ws: seq<nat>)
    requires PaletteOk(p) && ColoursOk(c)
    requires forall i :: 0 <= i < |vs| ==> vs[i] != 38 && vs[i] != 48
    ensures Reset(p, c) == Initial(p)
    ensures Params(p, c, vs + [0] + ws) == Params(p, Initial(p), ws)
    decreases |vs|
  {
    var all := vs + [0] + ws;
    if vs == [] {
      assert all[1..] == ws;
    } else {
      assert all[1..] == vs[1..] + [0] + ws;
      ResetForgets(p, One(p, c, vs[0]), vs[1..], ws);
    }
  }

  // ---- reverse video -------------------------------------------------------------------

  /** b is c as it would be had reverse video never been touched. */
  ghost predicate SameButReverse(c: Colours, b: Colours) {
    && !b.reverse && c.bold == b.bold && c.bgBold == b.bgBold && c.primary == b.primary && c.back == b.back
    && (if c.reverse then c.fg == b.bg && c.bg == b.fg else c.fg == b.fg && c.bg == b.bg)
  }

  predicate Selects(v: nat) {
    v == 0 || 30 <= v <= 37 || v == 39 || 40 <= v <= 47 || v == 49 || 90 <= v <= 97 || 100 <= v <= 107
  }

  predicate Reverses(v: nat) {
    v == 7 || v == 27
  }

  /** The list without its reverse-video parameters. */
  function Plain(vs: seq<nat>): seq<nat> {
    if vs == [] then [] else if Reverses(vs[0]) then Plain(vs[1..]) else [vs[0]] + Plain(vs[1..])
  }

  /** Reverse video commutes with colour selection: the colours are always those of the list without
      7 and 27, swapped while reverse video is on. */
  lemma {:induction false} ReverseCommutes(p: Palette, c: Colours, b: Colours, vs: seq<nat>)
    requires PaletteOk(p) && ColoursOk(c) && ColoursOk(b) && SameButReverse(c, b)
    requires forall i :: 0 <= i < |vs| ==> Selects(vs[i]) || Reverses(vs[i])
    ensures SameButReverse(Params(p, c, vs), Params(p, b, Plain(vs)))
    decreases |vs|
  {
    if vs == [] {
    } else {
      assert Selects(vs[0]) || Reverses(vs[0]);
      if Reverses(vs[0]) {
        ReverseCommutes(p, One(p, c, vs[0]), b, vs[1..]);
      } else {
        assert Plain(vs)[1..] == Plain(vs[1..]);
        ReverseCommutes(p, One(p, c, vs[0]), One(p, b, vs[0]), vs[1..]);
      }
    }
  }

  /** The intensity parameters commute too unless reverse video is on while their colour is the
      default: then the code sets the default of the other side. */
  lemma IntensityCommutesIff(p: Palette, c: Colours, b: Colours, v: nat)
    requires PaletteOk(p) && ColoursOk(c) && ColoursOk(b) && SameButReverse(c, b)
    requires v == 1 || v == 5 || v == 22 || v == 25
    ensures SameButReverse(One(p, c, v), One(p, b, v)) <==>
      || !c.reverse
      || (if v == 1 || v == 22 then c.primary else c.back) != -1
      || (if v == 1 || v == 5 then p.defaultFgBright == p.defaultBgBright else p.defaultFg == TRANSPARENT)
  {
  }

  /** The colour that 38 or 48 with these arguments selects, if any. */
  function Extended(p: Palette, vs: seq<nat>): Option<nat>
    requires PaletteOk(p)
  {
    if |vs| == 5 && vs[1] == 2 then Some(p.convert(Rgb(vs[2], vs[3], vs[4])))
    else if |vs| == 3 && vs[1] == 5 && vs[2] < 8 then Some(p.ansi[vs[2]])
    else if |vs| == 3 && vs[1] == 5 && vs[2] < 16 then Some(p.bright[vs[2] - 8])
    else if |vs| == 3 && vs[1] == 5 && vs[2] < 256 then Some(p.convert(p.col256[vs[2] - 16]))
    else None
  }

  /** Extended colours take no notice of reverse video. So they commute with it if and only if it is off, or both
      colours were the one selected already. */
  lemma ExtendedCommutesIff(p: Palette, c: Colours, b: Colours, vs: seq<nat>)
    requires PaletteOk(p) && ColoursOk(c) && ColoursOk(b) && SameButReverse(c, b)
    requires vs != [] && (vs[0] == 38 || vs[0] == 48) && Extended(p, vs).Some?
    ensures SameButReverse(Params(p, c, vs), Params(p, b, vs)) <==>
      !c.reverse || b.fg == b.bg == Extended(p, vs).value
  {
    hide Rgb;
    var rest := vs[|vs|..];
    assert rest == [];
    var value, fg := Extended(p, vs).value, vs[0] == 38;
    assert Params(p, c, vs) == SetDirect(c, fg, value) && Params(p, b, vs) == SetDirect(b, fg, value);
  }

  /** Two reversals in a row, whatever is selected in between, show what none would. */
  lemma ReverseThenBack(p: Palette, c: Colours, vs: seq<nat>)
    requires PaletteOk(p) && ColoursOk(c) && !c.reverse
    requires forall i :: 0 <= i < |vs| ==> Selects(vs[i])
    ensures Params(p, c, [7] + vs + [27]) == Params(p, c, vs)
  {
    var all := [7] + vs + [27];
    ReverseCommutes(p, c, c, all);
    PlainOf(vs);
    EndsUnreversed(p, c, [7] + vs);
  }

  lemma {:induction false} PlainOf(vs: seq<nat>)
    requires forall i :: 0 <= i < |vs| ==> Selects(vs[i])
    ensures Plain([7] + vs + [27]) == vs
  {
    assert ([7] + vs + [27])[1..] == vs + [27];
    PlainKeeps(vs, [27]);
    assert Plain([27]) == [];
  }

  lemma {:induction false} PlainKeeps(vs: seq<nat>, ws: seq<nat>)
    requires forall i :: 0 <= i < |vs| ==> Selects(vs[i])
    ensures Plain(vs + ws) == vs + Plain(ws)
  {
    if vs == [] {
      assert vs + ws == ws;
    } else {
      assert Selects(vs[0]);
      assert (vs + ws)[1..] == vs[1..] + ws;
      PlainKeeps(vs[1..], ws);
    }
  }

  lemma {:induction false} EndsUnreversed(p: Palette, c: Colours, vs: seq<nat>)
    requires PaletteOk(p) && ColoursOk(c)
    requires forall i :: 0 <= i < |vs| ==> Selects(vs[i]) || Reverses(vs[i])
    ensures !Params(p, c, vs + [27]).reverse
    decreases |vs|
  {
    if vs == [] {
      assert vs + [27] == [27];
      assert [27][1..] == [];
      assert Params(p, c, [27]) == Params(p, One(p, c, 27), []);
    } else {
      assert Selects(vs[0]) || Reverses(vs[0]);
      assert (vs + [27])[1..] == vs[1..] + [27];
      EndsUnreversed(p, One(p, c, vs[0]), vs[1..]);
    }
  }
}
