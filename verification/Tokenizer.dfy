/** strtok_r: tokens are cut out of a buffer in place, one call at a time. */
module Tokenizer {
  import opened Bits

  // ---- runs of a text ---------------------------------------------------------------------

  predicate DelimiterAt(s: seq<Byte>, delim: seq<Byte>, k: int) {
    0 <= k < |s| && s[k] in delim
  }

  /** [i, j) is a maximal non-empty run without delimiters. */
  ghost predicate IsRun(s: seq<Byte>, delim: seq<Byte>, i: nat, j: nat) {
    && i < j <= |s| && (forall k :: i <= k < j ==> s[k] !in delim)
    && (i > 0 ==> s[i - 1] in delim) && (j < |s| ==> s[j] in delim)
  }

  /** The first position from i on whose byte is (or is not) a delimiter. */
  function Skip(s: seq<Byte>, delim: seq<Byte>, i: nat, delimiters: bool): (j: nat)
    requires i <= |s|
    ensures i <= j <= |s| && (j < |s| ==> (s[j] in delim) != delimiters)
    ensures forall k :: i <= k < j ==> (s[k] in delim) == delimiters
    decreases |s| - i
  {
    if i < |s| && (s[i] in delim) == delimiters then Skip(s, delim, i + 1, delimiters) else i
  }

  datatype Span = Span(start: nat, end: nat)

  /** The runs from position p on, in order. */
  function Spans(s: seq<Byte>, delim: seq<Byte>, p: nat): seq<Span>
    requires p <= |s|
    decreases |s| - p
  {
    var start := Skip(s, delim, p, true);
    if start == |s| then []
    else
      var end := Skip(s, delim, start, false);
      [Span(start, end)] + Spans(s, delim, if end < |s| then end + 1 else end)
  }

  lemma SpansStep(s: seq<Byte>, delim: seq<Byte>, p: nat)
    requires p <= |s| && Spans(s, delim, p) != []
    ensures var start := Skip(s, delim, p, true); var end := Skip(s, delim, start, false);
            && start < |s| && Spans(s, delim, p)[0] == Span(start, end)
            && Spans(s, delim, p)[1..] == Spans(s, delim, if end < |s| then end + 1 else end)
  {
  }

  /** Spans lists exactly the maximal delimiter-free runs, each once, from left to right. */
  lemma {:induction false} SpansAreTheRuns(s: seq<Byte>, delim: seq<Byte>, p: nat)
    requires p <= |s| && (p == 0 || p == |s| || s[p - 1] in delim)
    ensures forall i: nat, j: nat :: p <= i ==> (Span(i, j) in Spans(s, delim, p) <==> IsRun(s, delim, i, j))
    ensures forall k :: 0 <= k < |Spans(s, delim, p)| ==> p <= Spans(s, delim, p)[k].start < Spans(s, delim, p)[k].end
    ensures forall k :: 0 < k < |Spans(s, delim, p)| ==> Spans(s, delim, p)[k - 1].end < Spans(s, delim, p)[k].start
    decreases |s| - p
  {
    hide IsRun;
    var ps := Spans(s, delim, p);
    var start := Skip(s, delim, p, true);
    if start == |s| {
      NoRuns(s, delim, p);
    } else {
      var end := Skip(s, delim, start, false);
      var next := if end < |s| then end + 1 else end;
      SpansAreTheRuns(s, delim, next);
      var rest := Spans(s, delim, next);
      assert ps == [Span(start, end)] + rest;
      forall i: nat, j: nat | p <= i ensures Span(i, j) in ps <==> IsRun(s, delim, i, j) {
        if i < next {
          RunBefore(s, delim, p, start, end, i, j);
        }
      }
    }
  }

  lemma NoRuns(s: seq<Byte>, delim: seq<Byte>, p: nat)
    requires p <= |s| && Skip(s, delim, p, true) == |s|
    ensures forall i: nat, j: nat :: p <= i ==> !IsRun(s, delim, i, j)
  {
    forall i: nat, j: nat | p <= i ensures !IsRun(s, delim, i, j) {
      assert i < |s| ==> s[i] in delim;
    }
  }

  /** Between p and the end of the first run there is no other run. */
  lemma RunBefore(s: seq<Byte>, delim: seq<Byte>, p: nat, start: nat, end: nat, i: nat, j: nat)
    requires p <= |s| && (p == 0 || p == |s| || s[p - 1] in delim) && p <= i
    requires start == Skip(s, delim, p, true) < |s| && end == Skip(s, delim, start, false)
    requires i < if end < |s| then end + 1 else end
    ensures IsRun(s, delim, i, j) <==> i == start && j == end
  {
    if IsRun(s, delim, i, j) {
      assert s[i] !in delim;
      assert i > start ==> DelimiterAt(s, delim, i - 1);
      assert j < |s| ==> s[j] in delim;
      assert end < j ==> !DelimiterAt(s, delim, end);
    }
    assert start > p ==> s[start - 1] in delim;
  }

  // ---- the buffer ------------------------------------------------------------------------------

  /** The buffer holds the text from position p on, then a terminator. */
  ghost predicate TextAt(b: seq<Byte>, p: nat, s: seq<Byte>) {
    p <= |s| < |b| && b[p..|s|] == s[p..] && b[|s|] == 0 && 0 !in s
  }

  /** strspn: how many delimiters there are from position p on. */
  method StrSpn(buf: array<Byte>, p: nat, delim: seq<Byte>, ghost s: seq<Byte>) returns (count: nat)
    requires TextAt(buf[..], p, s)
    ensures p + count == Skip(s, delim, p, true)
  {
    count := 0;
    while buf[p + count] != 0
      invariant p + count <= |s| && Skip(s, delim, p, true) == Skip(s, delim, p + count, true)
      decreases |s| - count
    {
      ByteOfText(buf[..], p, s, p + count);
      var found := false;
      for i := 0 to |delim|
        invariant !found && s[p + count] !in delim[..i]
      {
        if buf[p + count] == delim[i] {
          found := true;
          break;
        }
      }
      if !found {
        break;
      }
      count := count + 1;
    }
    if p + count < |s| { ByteOfText(buf[..], p, s, p + count); }
  }

  /** strpbrk: the first delimiter from position p on. */
  method StrPBrk(buf: array<Byte>, p: nat, delim: seq<Byte>, ghost s: seq<Byte>) returns (at: Option<nat>)
    requires TextAt(buf[..], p, s)
    ensures var end := Skip(s, delim, p, false); at == if end < |s| then Some(end) else None
  {
    var q := p;
    while buf[q] != 0
      invariant p <= q <= |s| && Skip(s, delim, p, false) == Skip(s, delim, q, false)
      decreases |s| - q
    {
      ByteOfText(buf[..], p, s, q);
      for i := 0 to |delim|
        invariant s[q] !in delim[..i]
      {
        if buf[q] == delim[i] {
          return Some(q);
        }
      }
      q := q + 1;
    }
    if q < |s| { ByteOfText(buf[..], p, s, q); }
    at := None;
  }

  lemma ByteOfText(b: seq<Byte>, p: nat, s: seq<Byte>, k: nat)
    requires TextAt(b, p, s) && p <= k < |s|
    ensures b[k] == s[k] != 0
  {
    assert b[p..|s|][k - p] == s[p..][k - p];
    assert s[k] in s;
  }

  /** One call: the first run from the resume point on, terminated in place, and where to resume. */
  method StrTokR(buf: array<Byte>, p: nat, delim: seq<Byte>, ghost s: seq<Byte>)
      returns (token: Option<nat>, saved: nat)
    requires TextAt(buf[..], p, s)
    modifies buf
    ensures p <= saved <= |s| && TextAt(buf[..], saved, s)
    ensures match token
            case None => Spans(s, delim, p) == [] && saved == |s| && buf[..] == old(buf[..])
            case Some(t) =>
              && Spans(s, delim, p) != [] && Spans(s, delim, p)[0].start == t
              && (var end := Spans(s, delim, p)[0].end;
                  && p <= t < end <= |s| && saved == (if end < |s| then end + 1 else end)
                  && InPlace(buf[..], s, Span(t, end))
                  && (forall k :: 0 <= k < buf.Length && k != end ==> buf[k] == old(buf[k]))
                  && Spans(s, delim, p)[1..] == Spans(s, delim, saved))
  {
    hide Spans, Skip, InPlace, TextAt;
    ghost var b := buf[..];
    TextBounds(b, p, s);
    var skipped := StrSpn(buf, p, delim, s);
    var str := p + skipped;
    if str < |s| { ByteOfText(b, p, s, str); }
    NoSpans(s, delim, p);
    if buf[str] == 0 {
      TextLater(b, p, s, str);
      return None, str;
    }
    SpansStep(s, delim, p);
    TextLater(b, p, s, str);
    var brk := StrPBrk(buf, str, delim, s);
    token := Some(str);
    if brk.None? {
      saved := StrEnd(buf, str, s);
      CutText(b, str, s, |s|);
    } else {
      saved := brk.value + 1;
      CutText(b, str, s, brk.value);
      buf[brk.value] := 0;
      assert buf[..] == b[brk.value := 0];
    }
  }

  /** token + strlen(token) */
  method StrEnd(buf: array<Byte>, p: nat, ghost s: seq<Byte>) returns (q: nat)
    requires TextAt(buf[..], p, s)
    ensures q == |s|
  {
    q := p;
    while buf[q] != 0
      invariant p <= q <= |s|
      decreases |s| - q
    {
      q := q + 1;
    }
    if q < |s| { ByteOfText(buf[..], p, s, q); }
  }

  lemma TextBounds(b: seq<Byte>, p: nat, s: seq<Byte>)
    requires TextAt(b, p, s)
    ensures p <= |s| < |b| && b[|s|] == 0
  {
  }

  lemma TextLater(b: seq<Byte>, p: nat, s: seq<Byte>, q: nat)
    requires TextAt(b, p, s) && p <= q <= |s|
    ensures TextAt(b, q, s)
  {
    assert b[q..|s|] == b[p..|s|][q - p..] == s[p..][q - p..];
  }

  lemma NoSpans(s: seq<Byte>, delim: seq<Byte>, p: nat)
    requires p <= |s|
    ensures Spans(s, delim, p) == [] <==> Skip(s, delim, p, true) == |s|
  {
  }

  /** Terminating a token leaves it and the text after it. */
  lemma CutText(b: seq<Byte>, p: nat, s: seq<Byte>, end: nat)
    requires TextAt(b, p, s) && p < end <= |s|
    ensures var r := b[end := 0];
            InPlace(r, s, Span(p, end)) && TextAt(r, if end < |s| then end + 1 else end, s) && (end == |s| ==> r == b)
  {
    var r := b[end := 0];
    assert r[p..end] == b[p..|s|][..end - p] == s[p..][..end - p] == s[p..end];
    if end < |s| {
      assert r[end + 1..|s|] == b[p..|s|][end + 1 - p..] == s[p..][end + 1 - p..];
    }
  }

  /** The loop every caller writes: token after token until there is none. It sees exactly the maximal
      delimiter-free runs of the text, in order, and afterwards every one of them is still in the
      buffer, terminated. */
  method Tokenize(buf: array<Byte>, delim: seq<Byte>, ghost s: seq<Byte>) returns (tokens: seq<nat>)
    requires TextAt(buf[..], 0, s)
    modifies buf
    ensures |tokens| == |Spans(s, delim, 0)|
    ensures forall k :: 0 <= k < |tokens| ==> tokens[k] == Spans(s, delim, 0)[k].start
    ensures forall k :: 0 <= k < |tokens| ==> InPlace(buf[..], s, Spans(s, delim, 0)[k])
  {
    hide Spans, TextAt, InPlace;
    TextBounds(buf[..], 0, s);
    tokens := [];
    var saved := 0;
    ghost var all := Spans(s, delim, 0);
    ghost var rest := all;
    while true
      invariant saved <= |s| && TextAt(buf[..], saved, s) && |tokens| <= |all| &&
        rest == all[|tokens|..] == Spans(s, delim, saved)
      invariant forall k :: 0 <= k < |tokens| ==>
        tokens[k] == all[k].start && all[k].end <= saved && InPlace(buf[..], s, all[k])
      decreases |rest|
    {
      ghost var b, p := buf[..], saved;
      var token;
      token, saved := StrTokR(buf, saved, delim, s);
      if token.None? {
        break;
      }
      StillInPlace(b, buf[..], s, all[..|tokens|], rest[0].end, p);
      assert rest[0] == all[|tokens|];
      rest := rest[1..];
      tokens := tokens + [token.value];
    }
  }

  /** Writing at a later position leaves tokens in place. */
  lemma StillInPlace(b: seq<Byte>, r: seq<Byte>, s: seq<Byte>, ts: seq<Span>, at: nat, p: nat)
    requires |r| == |b| && (forall k :: 0 <= k < |b| && k != at ==> r[k] == b[k]) && p < at
    requires forall k :: 0 <= k < |ts| ==> ts[k].end <= p && InPlace(b, s, ts[k])
    ensures forall k :: 0 <= k < |ts| ==> InPlace(r, s, ts[k])
  {
    forall k | 0 <= k < |ts| ensures InPlace(r, s, ts[k]) {
      assert r[ts[k].start..ts[k].end] == b[ts[k].start..ts[k].end];
    }
  }

  /** A token and its terminator are in the buffer. */
  ghost predicate InPlace(b: seq<Byte>, s: seq<Byte>, t: Span) {
    t.start < t.end <= |s| < |b| && b[t.start..t.end] == s[t.start..t.end] && b[t.end] == 0
  }
}
