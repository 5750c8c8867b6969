/** What byte sequences mean: UTF-8 decoding, parameter parsing and cursor addressing. */
module TerminalLaws {
  import opened Bits
  import opened Screen
  import opened TerminalSpec
  import opened TerminalSafety
  import Sgr

  // ---- UTF-8 (RFC 3629 section 3) --------------------------------------------------------------

  function Encode(cp: nat): seq<Byte>
    requires 0x80 <= cp < 0x11_0000
  {
    if cp < 0x800 then [0xC0 + cp / 0x40, 0x80 + cp % 0x40]
    else if cp < 0x1_0000 then [0xE0 + cp / 0x1000, 0x80 + (cp / 0x40) % 0x40, 0x80 + cp % 0x40]
    else [0xF0 + cp / 0x4_0000, 0x80 + (cp / 0x1000) % 0x40, 0x80 + (cp / 0x40) % 0x40, 0x80 + cp % 0x40]
  }

  /** No byte is pending and nothing is to be discarded. */
  predicate Between(p: Parser) {
    !p.discardNext && p.utf8.remaining == 0
  }

  lemma LeadStep(k: Config, t: Term, c: Byte)
    requires Ok(k, t) && Between(t.p) && 0xc0 <= c <= 0xf7
    ensures Step(k, t, c) == t.(p := LeadByte(t.p, c))
  {
  }

  lemma ContinuationStep(k: Config, t: Term, low: nat)
    requires Ok(k, t) && !t.p.discardNext && t.p.utf8.remaining > 0 && low < 0x40
    ensures var rest := t.p.utf8.remaining - 1;
            var cp := BitOr(t.p.utf8.codePoint, Shl(low, 6 * rest));
            Step(k, t, 0x80 + low) ==
              Term(t.p.(utf8 := Utf8(rest, cp)), if rest == 0 then CodePointPut(k, t.s, cp) else t.s)
  {
    hide Shl, BitOr, CodePointPut;
    assert (0x80 + low) / 0x40 == 2 && (0x80 + low) % 0x40 == low;
  }

  /** Shifting by six bits at a time, as arithmetic. */
  lemma SixBitShifts(x: nat)
    ensures Shl(x, 0) == x && Shl(x, 6) == 0x40 * x && Shl(x, 12) == 0x1000 * x && Shl(x, 18) == 0x4_0000 * x
  {
    PowersUsed();
    ShlIsProduct(x, 6);
    ShlIsProduct(x, 12);
    ShlIsProduct(x, 18);
  }

  lemma OrSixBits(x: nat, y: nat, z: nat)
    requires z < 0x40
    ensures BitOr(0x40 * x, z) == 0x40 * x + z
    ensures y < 0x1000 ==> BitOr(0x1000 * x, y) == 0x1000 * x + y
    ensures y < 0x4_0000 ==> BitOr(0x4_0000 * x, y) == 0x4_0000 * x + y
  {
    PowersUsed();
    SixBitShifts(x);
    OrDisjoint(x, 6, z);
    if y < 0x1000 { OrDisjoint(x, 12, y); }
    if y < 0x4_0000 { OrDisjoint(x, 18, y); }
  }

  /** Feeding the encoding of any code point from U+0080 on decodes to exactly that code point, which
      is then drawn; nothing else of the parser changes. */
  lemma DecodeInvertsEncode(k: Config, t: Term, cp: nat)
    requires Ok(k, t) && Between(t.p) && 0x80 <= cp < 0x11_0000
    ensures Feed(k, t, Encode(cp)) == Term(t.p.(utf8 := Utf8(0, cp)), CodePointPut(k, t.s, cp))
  {
    if cp < 0x800 {
      DecodeTwo(k, t, cp);
    } else if cp < 0x1_0000 {
      DecodeThree(k, t, cp);
    } else {
      DecodeFour(k, t, cp);
    }
  }

  lemma DecodeTwo(k: Config, t: Term, cp: nat)
    requires Ok(k, t) && Between(t.p) && 0x80 <= cp < 0x800
    ensures Feed(k, t, Encode(cp)) == Term(t.p.(utf8 := Utf8(0, cp)), CodePointPut(k, t.s, cp))
  {
    hide CodePointPut, Feed;
    TwoBytes(k, t, cp / 0x40, cp % 0x40);
  }

  /** Any lead byte of two and any continuation byte make a character, the overlong forms too, which RFC 3629
      section 3 rules out: it is an encoding if and only if the code point is U+0080 or above. */
  lemma TwoBytes(k: Config, t: Term, h: nat, l: nat)
    requires Ok(k, t) && Between(t.p) && h < 0x20 && l < 0x40
    ensures var cp := 0x40 * h + l;
            && Feed(k, t, [0xC0 + h, 0x80 + l]) == Term(t.p.(utf8 := Utf8(0, cp)), CodePointPut(k, t.s, cp))
            && (cp >= 0x80 <==> h >= 2) && (cp >= 0x80 ==> Encode(cp) == [0xC0 + h, 0x80 + l])
  {
    hide Shl, BitOr, CodePointPut, Step, Feed;
    FeedTwo(k, t, 0xC0 + h, 0x80 + l);
    LeadStep(k, t, 0xC0 + h);
    ContinuationStep(k, Step(k, t, 0xC0 + h), l);
    SixBitShifts(h);
    SixBitShifts(l);
    OrSixBits(h, 0, l);
    assert (0xC0 + h) % 0x20 == h;
  }

  /** A byte that does not continue a multi-byte character drops it and counts as if it had not been begun. */
  lemma BrokenCharacter(k: Config, t: Term, c: Byte)
    requires Ok(k, t) && !t.p.discardNext && c / 0x40 != 2 && c != 0x18 && c != 0x1A
    ensures Step(k, t, c) == Step(k, t.(p := t.p.(utf8 := Utf8(0, t.p.utf8.codePoint))), c)
  {
    hide SingleByte;
  }

  /** The last two bytes of a three- or four-byte sequence. */
  lemma DecodeTail(k: Config, t: Term, x: nat, m: nat, l: nat)
    requires Ok(k, t) && !t.p.discardNext && t.p.utf8 == Utf8(2, 0x1000 * x) && m < 0x40 && l < 0x40
    ensures var cp := 0x1000 * x + 0x40 * m + l;
            Feed(k, t, [0x80 + m, 0x80 + l]) == Term(t.p.(utf8 := Utf8(0, cp)), CodePointPut(k, t.s, cp))
  {
    hide Shl, BitOr, CodePointPut, Step, Feed;
    FeedTwo(k, t, 0x80 + m, 0x80 + l);
    ContinuationStep(k, t, m);
    ContinuationStep(k, Step(k, t, 0x80 + m), l);
    SixBitShifts(m);
    SixBitShifts(l);
    OrSixBits(x, 0x40 * m, l);
    OrSixBits(0x40 * x + m, 0, l);
  }

  lemma DecodeThree(k: Config, t: Term, cp: nat)
    requires Ok(k, t) && Between(t.p) && 0x800 <= cp < 0x1_0000
    ensures Feed(k, t, Encode(cp)) == Term(t.p.(utf8 := Utf8(0, cp)), CodePointPut(k, t.s, cp))
  {
    hide Shl, BitOr, CodePointPut, Step, Feed;
    var h, m, l := cp / 0x1000, (cp / 0x40) % 0x40, cp % 0x40;
    assert Encode(cp) == [0xE0 + h] + [0x80 + m, 0x80 + l];
    FeedInPieces(k, t, [0xE0 + h], [0x80 + m, 0x80 + l]);
    FeedOne(k, t, 0xE0 + h);
    LeadStep(k, t, 0xE0 + h);
    SixBitShifts(h);
    assert (0xE0 + h) % 0x10 == h;
    DecodeTail(k, Step(k, t, 0xE0 + h), h, m, l);
    SixBitDigits(cp);
  }

  lemma SixBitDigits(cp: nat)
    ensures cp == 0x1000 * (cp / 0x1000) + 0x40 * ((cp / 0x40) % 0x40) + cp % 0x40
    ensures cp / 0x1000 == 0x40 * (cp / 0x4_0000) + (cp / 0x1000) % 0x40
  {
    assert cp / 0x1000 == (cp / 0x40) / 0x40;
    assert cp / 0x4_0000 == (cp / 0x1000) / 0x40;
  }

  lemma DecodeFour(k: Config, t: Term, cp: nat)
    requires Ok(k, t) && Between(t.p) && 0x1_0000 <= cp < 0x11_0000
    ensures Feed(k, t, Encode(cp)) == Term(t.p.(utf8 := Utf8(0, cp)), CodePointPut(k, t.s, cp))
  {
    hide Shl, BitOr, CodePointPut, Step, Feed;
    var h, n, m, l := cp / 0x4_0000, (cp / 0x1000) % 0x40, (cp / 0x40) % 0x40, cp % 0x40;
    assert Encode(cp) == [0xF0 + h, 0x80 + n] + [0x80 + m, 0x80 + l];
    FeedInPieces(k, t, [0xF0 + h, 0x80 + n], [0x80 + m, 0x80 + l]);
    DecodeHead(k, t, h, n);
    DecodeTail(k, Feed(k, t, [0xF0 + h, 0x80 + n]), 0x40 * h + n, m, l);
    SixBitDigits(cp);
  }

  lemma DecodeHead(k: Config, t: Term, h: nat, n: nat)
    requires Ok(k, t) && Between(t.p) && h < 8 && n < 0x40
    ensures Feed(k, t, [0xF0 + h, 0x80 + n]) == t.(p := t.p.(utf8 := Utf8(2, 0x1000 * (0x40 * h + n))))
    ensures Ok(k, Feed(k, t, [0xF0 + h, 0x80 + n]))
  {
    hide Shl, BitOr, CodePointPut, Step, Feed;
    FeedTwo(k, t, 0xF0 + h, 0x80 + n);
    LeadStep(k, t, 0xF0 + h);
    assert (0xF0 + h) % 0x08 == h;
    ContinuationStep(k, Step(k, t, 0xF0 + h), n);
    SixBitShifts(h);
    SixBitShifts(n);
    OrSixBits(h, 0x1000 * n, 0);
    EveryByteStringKeepsOk(k, t, [0xF0 + h, 0x80 + n]);
  }

  lemma FeedOne(k: Config, t: Term, c: Byte)
    requires Ok(k, t)
    ensures Ok(k, Step(k, t, c)) && Feed(k, t, [c]) == Step(k, t, c)
  {
    hide Step, Ok;
    StepKeepsOk(k, t, c);
    assert [c][1..] == [];
  }

  lemma FeedTwo(k: Config, t: Term, a: Byte, b: Byte)
    requires Ok(k, t)
    ensures Ok(k, Step(k, t, a)) && Feed(k, t, [a, b]) == Step(k, Step(k, t, a), b)
  {
    hide Step, Feed, ParserOk, Sane, ConfigOk;
    FeedOne(k, t, a);
    FeedOne(k, Step(k, t, a), b);
    FeedInPieces(k, t, [a], [b]);
    assert [a] + [b] == [a, b];
  }

  // ---- control sequence parameters (ECMA-48 section 5.4) ---------------------------------------------

  function Decimal(n: nat): (r: seq<Byte>)
    ensures |r| > 0 && forall i :: 0 <= i < |r| ==> IsDigit(r[i])
  {
    if n < 10 then [0x30 + n] else Decimal(n / 10) + [0x30 + n % 10]
  }

  /** Parameters in decimal, separated by semicolons. */
  function ParameterString(ps: seq<nat>): seq<Byte> {
    if ps == [] then []
    else if |ps| == 1 then Decimal(ps[0])
    else ParameterString(ps[..|ps| - 1]) + [0x3B] + Decimal(ps[|ps| - 1])
  }

  /** Inside a control sequence, after `ESC [`. */
  predicate InSequence(p: Parser) {
    Between(p) && p.escape && p.csi.active && !p.osc.active && p.escapeOffset >= 1
  }

  lemma DigitStep(k: Config, t: Term, c: Byte)
    requires Ok(k, t) && InSequence(t.p) && IsDigit(c)
    ensures Step(k, t, c) == t.(p := t.p.(escapeOffset := t.p.escapeOffset + 1, csi := Digit(k, t.p.csi, c)))
    ensures InSequence(Step(k, t, c).p)
  {
    hide Finished, Digit, Separator;
  }

  lemma SeparatorStep(k: Config, t: Term)
    requires Ok(k, t) && InSequence(t.p)
    ensures Step(k, t, 0x3B) == t.(p := t.p.(escapeOffset := t.p.escapeOffset + 1, csi := Separator(k, t.p.csi)))
    ensures InSequence(Step(k, t, 0x3B).p)
  {
    hide Finished, Digit, Separator;
  }

  /** The parser with n more bytes of the sequence read and its parameters replaced. */
  function Advanced(t: Term, n: nat, q: Csi): Term {
    t.(p := t.p.(escapeOffset := t.p.escapeOffset + n, csi := q))
  }

  lemma DigitValue(k: Config, q: Csi, n: nat)
    requires CsiOk(k, q) && q.count < k.maxValues && q.values[q.count] == n / 10 && n < U32
    ensures Digit(k, q, 0x30 + n % 10) == q.(rrr := true, values := q.values[q.count := n])
  {
    assert (n / 10) * 10 + n % 10 == n;
  }

  /** The digits of a number put that number into the current parameter. */
  lemma {:induction false} NumberRead(k: Config, t: Term, n: nat)
    requires Ok(k, t) && InSequence(t.p) && n < U32
    requires t.p.csi.count < k.maxValues && t.p.csi.values[t.p.csi.count] == 0
    ensures var q := t.p.csi.(rrr := true, values := t.p.csi.values[t.p.csi.count := n]);
            Feed(k, t, Decimal(n)) == Advanced(t, |Decimal(n)|, q) && InSequence(Advanced(t, |Decimal(n)|, q).p)
    decreases n
  {
    hide Step, Feed, Digit, Sane, ConfigOk, LookOk;
    var digit := 0x30 + n % 10;
    if n < 10 {
      DigitValue(k, t.p.csi, n);
      DigitStep(k, t, digit);
      FeedOne(k, t, digit);
    } else {
      NumberRead(k, t, n / 10);
      FeedInPieces(k, t, Decimal(n / 10), [digit]);
      var u := Feed(k, t, Decimal(n / 10));
      DigitValue(k, u.p.csi, n);
      DigitStep(k, u, digit);
      FeedOne(k, u, digit);
      assert t.p.csi.values[t.p.csi.count := n / 10][t.p.csi.count := n] == t.p.csi.values[t.p.csi.count := n];
    }
  }

  /** The parameters in place, the last one, if there are any, still open. */
  ghost predicate Holding(q: Csi, ps: seq<nat>) {
    && q.active && q.rrr == (ps != []) && q.count == (if ps == [] then 0 else |ps| - 1) && |ps| <= |q.values|
    && q.values == ps + Zeros(|q.values| - |ps|)
  }

  /** Printing a parameter list and feeding it to the parser puts exactly that list in its table. */
  lemma {:induction false} ParametersRead(k: Config, t: Term, ps: seq<nat>)
    requires Ok(k, t) && InSequence(t.p) && t.p.csi.count == 0 && !t.p.csi.rrr && t.p.csi.values == Zeros(k.maxValues)
    requires |ps| <= k.maxValues && forall i :: 0 <= i < |ps| ==> ps[i] < U32
    ensures var u := Feed(k, t, ParameterString(ps));
            Ok(k, u) && InSequence(u.p) && Holding(u.p.csi, ps)
            && u == Advanced(t, |ParameterString(ps)|, u.p.csi) && u.p.csi.decPrivate == t.p.csi.decPrivate
    decreases |ps|
  {
    hide Step, Feed;
    EveryByteStringKeepsOk(k, t, ParameterString(ps));
    if ps == [] {
      FeedNothing(k, t);
    } else if |ps| == 1 {
      NumberRead(k, t, ps[0]);
      assert Zeros(k.maxValues)[0 := ps[0]] == ps + Zeros(k.maxValues - 1);
    } else {
      var front, last := ps[..|ps| - 1], ps[|ps| - 1];
      ParametersRead(k, t, front);
      var a, b := ParameterString(front), [0x3B] + Decimal(last);
      assert ParameterString(ps) == a + b;
      FeedInPieces(k, t, a, b);
      var u := Feed(k, t, a);
      NextParameter(k, u, front, last);
      assert ps == front + [last];
    }
  }

  /** A separator and a number extend the list by one. */
  lemma NextParameter(k: Config, u: Term, front: seq<nat>, last: nat)
    requires Ok(k, u) && InSequence(u.p) && Holding(u.p.csi, front) && 1 <= |front| < k.maxValues && last < U32
    ensures var w := Feed(k, u, [0x3B] + Decimal(last));
            InSequence(w.p) && Holding(w.p.csi, front + [last])
            && w == Advanced(u, 1 + |Decimal(last)|, w.p.csi) && w.p.csi.decPrivate == u.p.csi.decPrivate
  {
    hide Step, Feed, Decimal;
    FeedInPieces(k, u, [0x3B], Decimal(last));
    FeedOne(k, u, 0x3B);
    SeparatorStep(k, u);
    var v := Step(k, u, 0x3B);
    assert v.p.csi.values[|front|] == 0;
    NumberRead(k, v, last);
    assert v.p.csi.values[|front| := last] == front + [last] + Zeros(|v.p.csi.values| - (|front| + 1));
  }

  /** Nothing is in progress, except that a `?` of an abandoned sequence may be left over. */
  predicate Ground(p: Parser) {
    Between(p) && !p.escape && !p.csi.active && !p.osc.active && p.gSelect == 0
  }

  /** `ESC [` opens a sequence without parameters; nothing else changes. */
  lemma SequenceOpens(k: Config, t: Term)
    requires Ok(k, t) && Ground(t.p)
    ensures var u := Feed(k, t, [0x1B, 0x5B]);
            Ok(k, u) && InSequence(u.p)
            && u == t.(p := t.p.(escape := true, escapeOffset := 1,
                                 csi := Csi(true, t.p.csi.decPrivate, false, Zeros(k.maxValues), 0)))
  {
    hide Feed;
    FeedTwo(k, t, 0x1B, 0x5B);
    StepKeepsOk(k, Step(k, t, 0x1B), 0x5B);
  }

  /** A control sequence as bytes. */
  function SequenceBytes(ps: seq<nat>, final: Byte): seq<Byte> {
    [0x1B, 0x5B] + ParameterString(ps) + [final]
  }

  /** The terminal when the final byte comes: the parameters as printed, the last one, if any, still open. */
  function Pending(k: Config, t: Term, ps: seq<nat>, decPrivate: bool): Term
    requires |ps| <= k.maxValues
  {
    t.(p := t.p.(escape := true, escapeOffset := |ParameterString(ps)| + 2,
                 csi := Csi(true, decPrivate, ps != [], ps + Zeros(k.maxValues - |ps|),
                            if ps == [] then 0 else |ps| - 1)))
  }

  /** A complete control sequence performs its final byte on the parameters as printed, and on the rest of the
      terminal as it was; a `?` left over makes it DEC-private. */
  lemma SequenceRuns(k: Config, t: Term, ps: seq<nat>, final: Byte)
    requires Ok(k, t) && Ground(t.p) && |ps| <= k.maxValues && forall i :: 0 <= i < |ps| ==> ps[i] < U32
    requires 0x40 <= final <= 0x7E && final != 0x5B
    ensures Ok(k, Pending(k, t, ps, t.p.csi.decPrivate))
    ensures Feed(k, t, SequenceBytes(ps, final)) == Finished(k, Pending(k, t, ps, t.p.csi.decPrivate), final)
  {
    hide Feed, Finished, Decimal, ParameterString;
    var open, text := [0x1B, 0x5B], ParameterString(ps);
    SequenceOpens(k, t);
    var t1 := Feed(k, t, open);
    ParametersRead(k, t1, ps);
    var t2 := Feed(k, t1, text);
    FeedInPieces(k, t, open, text);
    FeedInPieces(k, t, open + text, [final]);
    FeedOne(k, t2, final);
    FinalStep(k, t2, final);
    var u := t2.(p := t2.p.(escapeOffset := t2.p.escapeOffset + 1));
    assert u == Pending(k, t, ps, t.p.csi.decPrivate);
  }

  /** What a final byte finds in the parameter table: the parameters as printed, then its defaults. */
  function Given(k: Config, ps: seq<nat>, c: Byte): (values: seq<nat>)
    requires |ps| <= k.maxValues
    ensures |values| == k.maxValues
  {
    ps + seq(k.maxValues - |ps|, _ => DefaultValue(c))
  }

  lemma GivenFront(k: Config, ps: seq<nat>, c: Byte)
    requires |ps| <= k.maxValues
    ensures Given(k, ps, c)[..|ps|] == ps && (ps != [] ==> Given(k, ps, c)[0] == ps[0])
  {
  }

  lemma PendingGiven(k: Config, t: Term, ps: seq<nat>, decPrivate: bool, c: Byte)
    requires |ps| <= k.maxValues
    ensures Defaulted(Counted(Pending(k, t, ps, decPrivate).p.csi), c)
            == Csi(true, decPrivate, false, Given(k, ps, c), |ps|)
  {
    var q := Defaulted(Counted(Pending(k, t, ps, decPrivate).p.csi), c);
    assert q.values == Given(k, ps, c);
  }

  /** Final byte c does the same with and without a `?`. Setting and resetting a mode: neither mode 4 nor mode 25
      is to change. Everything else does nothing after a `?`: the renditions selected are there already, the
      cursor saved already, the cursor there already, or no cell, margin or cursor to change. */
  predicate SameEitherWay(k: Config, t: Term, ps: seq<nat>, c: Byte)
    requires Ok(k, t) && |ps| <= k.maxValues && forall i :: 0 <= i < |ps| ==> ps[i] < U32
  {
    var idle, values := t.s.(scrollEnabled := false), Given(k, ps, c);
    if c == 0x68 || c == 0x6C then
      ps == [] || ((ps[0] == 4 ==> t.p.modes.insert == (c == 0x68)) &&
                   (ps[0] == 25 ==> t.s.cursorEnabled == (c == 0x68)))
    else if c == 0x6D then Sgr.Sequence(k.palette, ColoursOf(t), ps) == ColoursOf(t)
    else if c == 0x73 then t.p.savedCursor == CursorSeen(t.s)
    else if Moves(c) then Moved(idle, values, t.p.savedCursor, c).cursor == t.s.cursor
    else Edits(c) ==> Edited(idle, values, |ps|, c) == idle
  }

  /** The sequence does what its final byte says exactly when no `?` is left over, or it does the same after one. */
  lemma SequenceAsPrintedIff(k: Config, t: Term, ps: seq<nat>, final: Byte)
    requires Ok(k, t) && Ground(t.p) && |ps| <= k.maxValues && forall i :: 0 <= i < |ps| ==> ps[i] < U32
    requires 0x40 <= final <= 0x7E && final != 0x5B
    ensures var plain := Pending(k, t, ps, false);
            Ok(k, plain) &&
            (Feed(k, t, SequenceBytes(ps, final)) == Finished(k, plain, final) <==>
               !t.p.csi.decPrivate || SameEitherWay(k, t, ps, final))
  {
    hide Feed, Finished, SameEitherWay;
    SequenceRuns(k, t, ps, final);
    SequenceRuns(k, t.(p := t.p.(csi := t.p.csi.(decPrivate := false))), ps, final);
    if t.p.csi.decPrivate {
      EitherWay(k, t, ps, final);
    }
  }

  lemma EitherWay(k: Config, t: Term, ps: seq<nat>, c: Byte)
    requires Ok(k, t) && |ps| <= k.maxValues && forall i :: 0 <= i < |ps| ==> ps[i] < U32
    requires Ok(k, Pending(k, t, ps, true)) && Ok(k, Pending(k, t, ps, false))
    ensures Finished(k, Pending(k, t, ps, true), c) == Finished(k, Pending(k, t, ps, false), c) <==>
      SameEitherWay(k, t, ps, c)
  {
    hide Moved, Edited, Sgr.Sequence, Given, Counted, Defaulted, ParameterString;
    PendingGiven(k, t, ps, true, c);
    PendingGiven(k, t, ps, false, c);
    GivenFront(k, ps, c);
    var a, b := Finished(k, Pending(k, t, ps, true), c), Finished(k, Pending(k, t, ps, false), c);
    if c == 0x6D {
      assert ColoursOf(a) == ColoursOf(t) && ColoursOf(b) == Sgr.Sequence(k.palette, ColoursOf(t), ps);
      assert b == WithColours(a, ColoursOf(b)) && WithColours(a, ColoursOf(a)) == a;
    }
  }

  /** With a `?` left over every final byte but h and l is swallowed; the `?` is then gone. */
  lemma SequenceSwallowed(k: Config, t: Term, ps: seq<nat>, final: Byte)
    requires Ok(k, t) && Ground(t.p) && |ps| <= k.maxValues && forall i :: 0 <= i < |ps| ==> ps[i] < U32
    requires 0x40 <= final <= 0x7E && final != 0x5B && final != 0x68 && final != 0x6C && t.p.csi.decPrivate
    ensures var u := Feed(k, t, SequenceBytes(ps, final)); u.s == t.s && Ground(u.p) && !u.p.csi.decPrivate
  {
    hide Feed, Final;
    SequenceRuns(k, t, ps, final);
    CsiKeepsOk(k, Pending(k, t, ps, true).p.csi, final);
  }

  /** How a `?` is left over: CAN does not clear it. */
  lemma CancelLeavesPrivate(k: Config, t: Term)
    requires Ok(k, t) && Ground(t.p)
    ensures var u := Feed(k, t, [0x1B, 0x5B] + [0x3F, 0x18]);
            Ground(u.p) && u.p.csi.decPrivate && u.s == t.s
  {
    hide Feed;
    SequenceOpens(k, t);
    FeedInPieces(k, t, [0x1B, 0x5B], [0x3F, 0x18]);
    FeedTwo(k, Feed(k, t, [0x1B, 0x5B]), 0x3F, 0x18);
  }

  /** CAN and SUB leave nothing in progress, whatever there was, and touch nothing else: not the screen, not the
      modes, not a `?`. */
  lemma CancelAbandons(k: Config, t: Term, c: Byte)
    requires Ok(k, t) && (c == 0x18 || c == 0x1A)
    ensures var u := Step(k, t, c);
            && u.s == t.s && Ground(u.p) && u.p.csi.decPrivate == t.p.csi.decPrivate && u.p.osc == Osc(false, false)
            && u.p == t.p.(escape := false, discardNext := false, csi := u.p.csi, osc := u.p.osc, utf8 := u.p.utf8,
                           gSelect := 0)
  {
  }

  lemma FinalStep(k: Config, t: Term, c: Byte)
    requires Ok(k, t) && InSequence(t.p) && 0x40 <= c <= 0x7E && c != 0x5B
    ensures Step(k, t, c) == Finished(k, t.(p := t.p.(escapeOffset := t.p.escapeOffset + 1)), c)
  {
    hide Finished, Digit, Separator;
  }

  /** A sequence that moves the cursor or edits the screen, with no `?` left over, does to the screen what its final
      byte does given the parameters as printed and defaults for the rest, and nothing to the parser but its
      record of the sequence. */
  lemma ScreenSequenceRuns(k: Config, t: Term, ps: seq<nat>, final: Byte)
    requires Ok(k, t) && Ground(t.p) && !t.p.csi.decPrivate
    requires |ps| <= k.maxValues && (forall i :: 0 <= i < |ps| ==> ps[i] < U32) && (Moves(final) || Edits(final))
    ensures forall i :: 0 <= i < k.maxValues ==> Given(k, ps, final)[i] < U32
    ensures var u, idle := Feed(k, t, SequenceBytes(ps, final)), t.s.(scrollEnabled := false);
            && u.s == ScreenFinal(idle, Given(k, ps, final), |ps|, t.p.savedCursor, final).(scrollEnabled := true)
            && u.p == t.p.(csi := u.p.csi, escapeOffset := u.p.escapeOffset) && Ground(u.p) && !u.p.csi.decPrivate
  {
    hide Feed, ScreenFinal, ParameterString, Given, Counted, Defaulted;
    SequenceRuns(k, t, ps, final);
    PendingGiven(k, t, ps, false, final);
    GivenBound(k, ps, final);
  }

  lemma GivenBound(k: Config, ps: seq<nat>, c: Byte)
    requires |ps| <= k.maxValues && forall i :: 0 <= i < |ps| ==> ps[i] < U32
    ensures forall i :: 0 <= i < k.maxValues ==> Given(k, ps, c)[i] < U32
    ensures forall i :: 0 <= i < k.maxValues ==> Given(k, ps, c)[i] == if i < |ps| then ps[i] else DefaultValue(c)
  {
  }

  lemma CupFinal(s: Screen, values: seq<nat>, count: nat, saved: Cursor, c: Byte,
                 row: nat, column: nat)
    requires Sane(s) && (c == 0x48 || c == 0x66) && 2 <= |values| && (forall i :: 0 <= i < |values| ==> values[i] < U32)
    requires values[0] == row && values[1] == column && 1 <= row <= s.rows && 1 <= column <= s.cols
    ensures ScreenFinal(s, values, count, saved, c) == s.(cursor := Cursor(column - 1, row - 1))
  {
  }

  /** CUP (ECMA-48 section 8.3.21): `ESC [ row ; column H`, or f, a number not given being 1, puts the cursor there and
      changes nothing else on the screen, exactly when no `?` is left over or the cursor is there already. */
  lemma CursorPositionWorks(k: Config, t: Term, ps: seq<nat>, c: Byte, row: nat, column: nat)
    requires Ok(k, t) && Ground(t.p) && 1 <= row <= t.s.rows && 1 <= column <= t.s.cols
    requires |ps| <= 2 && (c == 0x48 || c == 0x66)
    requires row == (if |ps| >= 1 then ps[0] else 1) && column == (if |ps| == 2 then ps[1] else 1)
    ensures Feed(k, t, SequenceBytes(ps, c)).s == t.s.(cursor := Cursor(column - 1, row - 1)) <==>
      !t.p.csi.decPrivate || t.s.cursor == Cursor(column - 1, row - 1)
  {
    hide Feed, ParameterString, Finished, ScreenFinal, Given;
    if t.p.csi.decPrivate {
      SequenceSwallowed(k, t, ps, c);
      assert t.s.(cursor := t.s.cursor) == t.s;
    } else {
      ScreenSequenceRuns(k, t, ps, c);
      GivenBound(k, ps, c);
      CupFinal(t.s.(scrollEnabled := false), Given(k, ps, c), |ps|, t.p.savedCursor, c, row, column);
    }
  }

  /** `ESC [ K` and `ESC [ J`, without a parameter, erase to the end of the row and of the screen. */
  lemma EraseRuns(k: Config, t: Term)
    requires Ok(k, t) && Ground(t.p) && !t.p.csi.decPrivate
    ensures var idle, at := t.s.(scrollEnabled := false), CursorSeen(t.s);
            && Feed(k, t, SequenceBytes([], 0x4B)).s == LineErased(idle, at, 0).(scrollEnabled := true)
            && Feed(k, t, SequenceBytes([], 0x4A)).s == Erased(idle, at, 0).(scrollEnabled := true)
  {
    hide Feed, Given, LineErased, Erased, SequenceBytes;
    ScreenSequenceRuns(k, t, [], 0x4B);
    ScreenSequenceRuns(k, t, [], 0x4A);
    GivenBound(k, [], 0x4B);
    GivenBound(k, [], 0x4A);
  }

  // ---- operating system commands --------------------------------------------------------------------------

  /** `ESC ]` opens a command, and its first byte closes it, unless that is an ESC or cuts the command off: the bytes
      after it are taken as if the command had ended. */
  lemma CommandEnds(k: Config, t: Term, text: seq<Byte>)
    requires Ok(k, t) && Ground(t.p) && text != [] && !Begins(text[0])
    ensures var ended := t.(p := t.p.(escapeOffset := 2, osc := Osc(false, false)));
            Ok(k, ended) && Feed(k, t, [0x1B, 0x5D] + text) == Feed(k, ended, text[1..])
  {
    hide Feed;
    assert [0x1B, 0x5D] + text == [0x1B, 0x5D] + [text[0]] + text[1..];
    FeedInPieces(k, t, [0x1B, 0x5D] + [text[0]], text[1..]);
    FeedInPieces(k, t, [0x1B, 0x5D], [text[0]]);
    FeedTwo(k, t, 0x1B, 0x5D);
    FeedOne(k, Feed(k, t, [0x1B, 0x5D]), text[0]);
  }

  /** ESCs do not end a command, so it ends at its first byte other than ESC. */
  lemma {:induction false} CommandSkipsEscapes(k: Config, t: Term, n: nat, text: seq<Byte>)
    requires Ok(k, t) && Ground(t.p) && text != [] && !Begins(text[0])
    ensures var ended := t.(p := t.p.(escapeOffset := n + 2, osc := Osc(false, false)));
            Ok(k, ended) && Feed(k, t, [0x1B, 0x5D] + Escapes(n) + text) == Feed(k, ended, text[1..])
  {
    hide Feed;
    var open, first := [0x1B, 0x5D] + Escapes(n), [text[0]];
    FedEscapes(k, t, n);
    assert open + text == open + first + text[1..];
    FeedInPieces(k, t, open + first, text[1..]);
    FeedInPieces(k, t, open, first);
    FeedOne(k, Feed(k, t, open), text[0]);
  }

  function Escapes(n: nat): seq<Byte> {
    if n == 0 then [] else Escapes(n - 1) + [0x1B]
  }

  lemma {:induction false} FedEscapes(k: Config, t: Term, n: nat)
    requires Ok(k, t) && Ground(t.p)
    ensures var u := Feed(k, t, [0x1B, 0x5D] + Escapes(n));
            Ok(k, u) && u == t.(p := t.p.(escape := true, escapeOffset := n + 1, osc := Osc(true, n > 0)))
  {
    hide Feed;
    FeedTwo(k, t, 0x1B, 0x5D);
    EveryByteStringKeepsOk(k, t, [0x1B, 0x5D] + Escapes(n));
    if n == 0 {
      assert [0x1B, 0x5D] + Escapes(0) == [0x1B, 0x5D];
    } else {
      FedEscapes(k, t, n - 1);
      assert [0x1B, 0x5D] + Escapes(n) == [0x1B, 0x5D] + Escapes(n - 1) + [0x1B];
      FeedInPieces(k, t, [0x1B, 0x5D] + Escapes(n - 1), [0x1B]);
      FeedOne(k, Feed(k, t, [0x1B, 0x5D] + Escapes(n - 1)), 0x1B);
    }
  }

  /** ESC, the bytes that cancel, and those that start a multi-byte character. */
  predicate Begins(c: Byte) {
    c == 0x1B || c == 0x18 || c == 0x1A || 0xC0 <= c <= 0xF7
  }

  /** The bytes of ASCII text. */
  predicate IsText(text: seq<Byte>) {
    forall i :: 0 <= i < |text| ==> 0x20 <= text[i] <= 0x7E
  }

  /** So a command of ASCII text, closed by a BEL, shows nothing exactly when it has at most one character (given
      that the row has room for the others). */
  lemma CommandHiddenIff(k: Config, t: Term, text: seq<Byte>)
    requires Ok(k, t) && Ground(t.p) && IsText(text) && t.s.cursor.x + |text| <= t.s.cols + 1
    ensures Feed(k, t, [0x1B, 0x5D] + text + [0x07]).s == t.s <==> |text| <= 1
  {
    hide Feed;
    var bytes := text + [0x07];
    assert [0x1B, 0x5D] + text + [0x07] == [0x1B, 0x5D] + bytes;
    CommandEnds(k, t, bytes);
    var ended := t.(p := t.p.(escapeOffset := 2, osc := Osc(false, false)));
    if text == [] {
      assert bytes[1..] == [];
      FeedNothing(k, ended);
    } else {
      assert bytes[1..] == text[1..] + [0x07];
      FeedInPieces(k, ended, text[1..], [0x07]);
      TextAdvances(k, ended, text[1..]);
      FeedOne(k, Feed(k, ended, text[1..]), 0x07);
    }
  }

  /** Text that fits the row moves the cursor by its length. */
  lemma {:induction false} TextAdvances(k: Config, t: Term, text: seq<Byte>)
    requires Ok(k, t) && Ground(t.p) && IsText(text) && t.s.cursor.x + |text| <= t.s.cols
    ensures var u := Feed(k, t, text);
            Ok(k, u) && u.p == t.p && u.s.cursor == Cursor(t.s.cursor.x + |text|, t.s.cursor.y)
            && (text == [] ==> u.s == t.s)
    decreases |text|
  {
    hide Step;
    EveryByteStringKeepsOk(k, t, text);
    if text == [] {
    } else {
      StepKeepsOk(k, t, text[0]);
      TextStep(k, t, text[0]);
      TextAdvances(k, Step(k, t, text[0]), text[1..]);
    }
  }

  lemma TextStep(k: Config, t: Term, c: Byte)
    requires Ok(k, t) && Ground(t.p) && 0x20 <= c <= 0x7E && t.s.cursor.x < t.s.cols
    ensures var u := Step(k, t, c);
            u.p == t.p && u.s == t.s.(cells := u.s.cells, cursor := Cursor(t.s.cursor.x + 1, t.s.cursor.y))
  {
    hide PushedRight, GlyphOf, Put;
  }

  // ---- colours over bytes ----------------------------------------------------------------------------------

  /** `ESC [ ps m` does to the colours what the parameter list does, and changes nothing else but the parser's
      record of the sequence. */
  lemma RenditionRuns(k: Config, t: Term, ps: seq<nat>)
    requires Ok(k, t) && Ground(t.p) && !t.p.csi.decPrivate
    requires |ps| <= k.maxValues && forall i :: 0 <= i < |ps| ==> ps[i] < U32
    ensures var u := Feed(k, t, SequenceBytes(ps, 0x6D));
            && Ok(k, u) && Ground(u.p) && !u.p.csi.decPrivate
            && ColoursOf(u) == Sgr.Sequence(k.palette, ColoursOf(t), ps)
            && u.s == t.s.(fg := u.s.fg, bg := u.s.bg)
            && u.p == t.p.(look := u.p.look, csi := u.p.csi, escapeOffset := u.p.escapeOffset)
  {
    hide Feed, Sgr.Sequence, ParameterString;
    SequenceRuns(k, t, ps, 0x6D);
    EveryByteStringKeepsOk(k, t, SequenceBytes(ps, 0x6D));
    var w := Pending(k, t, ps, false);
    CsiKeepsOk(k, w.p.csi, 0x6D);
    var q := Defaulted(Counted(w.p.csi), 0x6D);
    assert q.values[..q.count] == ps;
    assert ColoursOf(Term(w.p.(csi := q), w.s.(scrollEnabled := false))) == ColoursOf(t);
  }

  /** Several such sequences, one after another. */
  function RenditionBytes(pss: seq<seq<nat>>): seq<Byte> {
    if pss == [] then [] else SequenceBytes(pss[0], 0x6D) + RenditionBytes(pss[1..])
  }

  /** One such sequence without its 7s and 27s; the empty one is a reset. */
  function PlainSequence(p: Sgr.Palette, c: Sgr.Colours, ps: seq<nat>): (r: Sgr.Colours)
    requires Sgr.PaletteOk(p) && Sgr.ColoursOk(c)
    ensures Sgr.ColoursOk(r)
  {
    if ps == [] then Sgr.Reset(p, c) else Sgr.Params(p, c, Sgr.Plain(ps))
  }

  function PlainParams(p: Sgr.Palette, c: Sgr.Colours, pss: seq<seq<nat>>): (r: Sgr.Colours)
    requires Sgr.PaletteOk(p) && Sgr.ColoursOk(c)
    ensures Sgr.ColoursOk(r)
    decreases |pss|
  {
    if pss == [] then c else PlainParams(p, PlainSequence(p, c, pss[0]), pss[1..])
  }

  /** Reverse video commutes with colour selection for whatever is fed: after any run of such sequences of colour
      selections and 7 and 27, the terminal's colours are those the selections alone would give, swapped while
      reverse video is on. */
  lemma {:induction false} FedReverseCommutes(k: Config, t: Term, b: Sgr.Colours, pss: seq<seq<nat>>)
    requires Ok(k, t) && Ground(t.p) && !t.p.csi.decPrivate && Sgr.ColoursOk(b) && Sgr.SameButReverse(ColoursOf(t), b)
    requires forall j :: 0 <= j < |pss| ==> |pss[j]| <= k.maxValues
    requires forall j, i :: 0 <= j < |pss| && 0 <= i < |pss[j]| ==> Sgr.Selects(pss[j][i]) || Sgr.Reverses(pss[j][i])
    ensures Sgr.SameButReverse(ColoursOf(Feed(k, t, RenditionBytes(pss))), PlainParams(k.palette, b, pss))
    decreases |pss|
  {
    hide Feed, Sgr.Sequence, PlainSequence, Sgr.SameButReverse, Ground, SequenceBytes;
    if pss == [] {
      FeedNothing(k, t);
    } else {
      var ps, first, rest := pss[0], SequenceBytes(pss[0], 0x6D), RenditionBytes(pss[1..]);
      forall i | 0 <= i < |ps| ensures ps[i] < U32 {
        assert Sgr.Selects(pss[0][i]) || Sgr.Reverses(pss[0][i]);
      }
      RenditionRuns(k, t, ps);
      OneReverseCommutes(k.palette, ColoursOf(t), b, ps);
      FeedInPieces(k, t, first, rest);
      FedReverseCommutes(k, Feed(k, t, first), PlainSequence(k.palette, b, ps), pss[1..]);
    }
  }

  lemma OneReverseCommutes(p: Sgr.Palette, c: Sgr.Colours, b: Sgr.Colours, ps: seq<nat>)
    requires Sgr.PaletteOk(p) && Sgr.ColoursOk(c) && Sgr.ColoursOk(b) && Sgr.SameButReverse(c, b)
    requires forall i :: 0 <= i < |ps| ==> Sgr.Selects(ps[i]) || Sgr.Reverses(ps[i])
    ensures Sgr.SameButReverse(Sgr.Sequence(p, c, ps), PlainSequence(p, b, ps))
  {
    hide Sgr.Params;
    if ps != [] {
      Sgr.ReverseCommutes(p, c, b, ps);
    }
  }

  lemma FeedNothing(k: Config, t: Term)
    requires Ok(k, t)
    ensures Feed(k, t, []) == t
  {
  }

  /** The colours a reset should leave: as they are, with no rendition in force. */
  function Unrendered(c: Sgr.Colours): Sgr.Colours {
    c.(bold := false, bgBold := false, primary := -1, back := -1)
  }

  /** `ESC c` forgets that reverse video was on without swapping the colours back. So the colours are still those of
      the same selections without it exactly when it was off, or both colours were the same. */
  lemma ResetKeepsReverseIff(k: Config, t: Term, b: Sgr.Colours)
    requires Ok(k, t) && Ground(t.p) && Sgr.SameButReverse(ColoursOf(t), b)
    ensures var u := Feed(k, t, [0x1B, 0x63]);
            Sgr.SameButReverse(ColoursOf(u), Unrendered(b)) <==> !t.p.look.reverse || t.s.fg == t.s.bg
  {
    hide Feed;
    FeedTwo(k, t, 0x1B, 0x63);
  }
}
