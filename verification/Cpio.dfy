/** The initial RAM disk: a cpio archive in the New ASCII Format, its encoder as a specification and
    the parser that inverts it. */
module Cpio {
  import opened Bits

  const HEADER: nat := 110
  const MAX_ENTRIES: nat := 16

  /** "070701" */
  function Magic(): (r: seq<Byte>)
    ensures |r| == 6
  {
    [0x30, 0x37, 0x30, 0x37, 0x30, 0x31]
  }

  /** "TRAILER!!!" */
  function TrailerName(): (r: seq<Byte>)
    ensures |r| == 10 && 0 !in r
  {
    [0x54, 0x52, 0x41, 0x49, 0x4C, 0x45, 0x52, 0x21, 0x21, 0x21]
  }

  // ---- hexadecimal ---------------------------------------------------------------------------

  function DigitValue(c: Byte): (r: Option<nat>)
    ensures r.Some? ==> r.value < 16
  {
    if 0x30 <= c <= 0x39 then Some(c - 0x30)
    else if 0x61 <= c <= 0x66 then Some(c - 0x61 + 10)
    else if 0x41 <= c <= 0x46 then Some(c - 0x41 + 10)
    else None
  }

  /** One more character of a 32-bit number; anything but a digit counts as 0. */
  function HexStep(v: nat, c: Byte): (r: nat)
    requires v < U32
    ensures r == (v * 16) % U32 + (if DigitValue(c).Some? then DigitValue(c).value else 0) && r < U32
  {
    var shifted := (v * 16) % U32;
    ShiftedIsShl(v);
    if DigitValue(c).Some? then
      PowersUsed();
      OrDisjoint(shifted / 16, 4, DigitValue(c).value);
      BitOr(shifted, DigitValue(c).value)
    else shifted
  }

  lemma ShiftedIsShl(v: nat)
    ensures (v * 16) % U32 % 16 == 0 && (v * 16) % U32 + 15 < U32 && Shl((v * 16) % U32 / 16, 4) == (v * 16) % U32
  {
    PowersUsed();
    ShlIsProduct((v * 16) % U32 / 16, 4);
    assert (v * 16) % U32 == v * 16 - U32 * (v * 16 / U32);
  }

  function Hex(s: seq<Byte>): (r: nat)
    ensures r < U32
  {
    if s == [] then 0 else HexStep(Hex(s[..|s| - 1]), s[|s| - 1])
  }

  method Hex2U32(s: array<Byte>, at: nat, n: nat) returns (v: nat)
    requires at + n <= s.Length
    ensures v == Hex(s[at..at + n])
  {
    v := 0;
    for i := 0 to n
      invariant v < U32 && v == Hex(s[at..at + i])
    {
      assert s[at..at + i + 1][..i] == s[at..at + i];
      v := HexStep(v, s[at + i]);
    }
  }

  function HexDigit(d: nat, upper: bool): Byte
    requires d < 16
  {
    if d < 10 then 0x30 + d else if upper then 0x41 + d - 10 else 0x61 + d - 10
  }

  /** The last n hexadecimal digits of v. */
  function HexDigits(v: nat, n: nat, upper: bool): (r: seq<Byte>)
    ensures |r| == n
  {
    if n == 0 then [] else HexDigits(v / 16, n - 1, upper) + [HexDigit(v % 16, upper)]
  }

  function Pow16(n: nat): nat {
    if n == 0 then 1 else 16 * Pow16(n - 1)
  }

  /** Reading inverts printing, in either case of letters. */
  lemma {:induction false} HexInvertsDigits(v: nat, n: nat, upper: bool)
    requires v < Pow16(n) && v < U32
    ensures Hex(HexDigits(v, n, upper)) == v
  {
    hide DigitValue, HexDigit, HexStep;
    if n == 0 {
    } else {
      HexInvertsDigits(v / 16, n - 1, upper);
      var s := HexDigits(v, n, upper);
      assert s[..n - 1] == HexDigits(v / 16, n - 1, upper);
      StepInverts(v, upper);
    }
  }

  lemma StepInverts(v: nat, upper: bool)
    requires v < U32
    ensures HexStep(v / 16, HexDigit(v % 16, upper)) == v
  {
    hide HexStep;
    assert (v / 16) * 16 < U32;
  }

  lemma EightDigits()
    ensures Pow16(8) == U32
  {
    assert Pow16(4) == 0x1_0000;
  }

  // ---- the archive format ------------------------------------------------------------------------

  /** A file to archive. `before` is inode, mode, owner, group, links and time; `between` the four
      device numbers; `check` the checksum. */
  datatype Entry = Entry(name: seq<Byte>, data: seq<Byte>, before: seq<nat>, between: seq<nat>, check: nat)

  ghost predicate EntryOk(e: Entry) {
    |e.before| == 6 && |e.between| == 4 && 0 !in e.name && |e.name| + 1 < U32 && |e.data| < U32
  }

  function Fields(vs: seq<nat>, upper: bool): (r: seq<Byte>)
    ensures |r| == 8 * |vs|
  {
    if vs == [] then [] else HexDigits(vs[0], 8, upper) + Fields(vs[1..], upper)
  }

  /** Zeros up to a multiple of four. */
  function Padding(n: nat): (r: seq<Byte>)
    ensures (n + |r|) % 4 == 0 && |r| < 4
  {
    seq((4 - n % 4) % 4, _ => 0)
  }

  function Header(e: Entry, upper: bool): (r: seq<Byte>)
    requires |e.before| == 6 && |e.between| == 4
    ensures |r| == HEADER
  {
    Magic() + Fields(e.before, upper) + HexDigits(|e.data|, 8, upper) + Fields(e.between, upper)
    + HexDigits(|e.name| + 1, 8, upper) + HexDigits(e.check, 8, upper)
  }

  /** The bytes of a text. */
  function Bytes(s: string): (r: seq<Byte>)
    requires forall i :: 0 <= i < |s| ==> s[i] < 256 as char
    ensures |r| == |s| && forall i :: 0 <= i < |s| ==> r[i] == s[i] as int
  {
    seq(|s|, i requires 0 <= i < |s| && s[i] < 256 as char => s[i] as int)
  }

  /** Where the New ASCII Format has what the parser reads: the magic first, the file size in characters 54 to 61 and
      the length of the name, terminator included, in 94 to 101; and the names of magic and trailer. */
  lemma HeaderLayout(e: Entry, upper: bool)
    requires |e.before| == 6 && |e.between| == 4
    ensures var h := Header(e, upper);
            h[..6] == Bytes("070701") && h[54..62] == HexDigits(|e.data|, 8, upper)
            && h[94..102] == HexDigits(|e.name| + 1, 8, upper)
    ensures TrailerName() == Bytes("TRAILER!!!")
  {
    hide HexDigits, Fields;
    var h, p := Header(e, upper), Magic() + Fields(e.before, upper);
    assert |Fields(e.before, upper)| == 48 && |Fields(e.between, upper)| == 32 && |p| == 54;
    var q := p + HexDigits(|e.data|, 8, upper) + Fields(e.between, upper);
    assert |q| == 94;
    assert h == p + (HexDigits(|e.data|, 8, upper) + (Fields(e.between, upper) + HexDigits(|e.name| + 1, 8, upper)
                     + HexDigits(e.check, 8, upper)));
    assert h == q + (HexDigits(|e.name| + 1, 8, upper) + HexDigits(e.check, 8, upper));
    assert Magic() == Bytes("070701");
    assert h[54..62] == HexDigits(|e.data|, 8, upper);
  }

  function Encoded(e: Entry, upper: bool): (r: seq<Byte>)
    requires |e.before| == 6 && |e.between| == 4
  {
    Header(e, upper) + (e.name + [0]) + Padding(HEADER + |e.name| + 1) + e.data + Padding(|e.data|)
  }

  function Trailer(): Entry {
    Entry(TrailerName(), [], [0, 0, 0, 0, 1, 0], [0, 0, 0, 0], 0)
  }

  function Archive(es: seq<Entry>, upper: bool): seq<Byte>
    requires forall i :: 0 <= i < |es| ==> EntryOk(es[i])
  {
    if es == [] then Encoded(Trailer(), upper)
    else assert EntryOk(es[0]); Encoded(es[0], upper) + Archive(es[1..], upper)
  }

  // ---- parsing -------------------------------------------------------------------------------------

  /** A file found in memory: where its name and its data are, and its size. */
  datatype FileRef = FileRef(name: nat, data: nat, size: nat)

  /** strcmp finds the bytes s, up to their terminator, at position `at`. */
  predicate StringAt(mem: seq<Byte>, at: nat, s: seq<Byte>) {
    at + |s| < |mem| && mem[at..at + |s|] == s && mem[at + |s|] == 0
  }

  /** The first position from `at` on whose address is a multiple of four. */
  function Aligned(base: nat, at: nat): (r: nat)
    ensures at <= r < at + 4 && (base + r) % 4 == 0
  {
    (base + at + 3) / 4 * 4 - base
  }

  /** What the parser finds from position p on, having found `count` files. */
  function Parsed(mem: seq<Byte>, base: nat, len: nat, p: nat, count: nat): (r: seq<FileRef>)
    requires len <= |mem|
    ensures |r| + count <= MAX_ENTRIES || r == []
    decreases if p < len then len - p else 0
  {
    if p + HEADER >= len || count >= MAX_ENTRIES || mem[p..p + 6] != Magic() then []
    else
      var nameSize, fileSize := Hex(mem[p + 94..p + 102]), Hex(mem[p + 54..p + 62]);
      if nameSize > 0 && StringAt(mem, p + HEADER, TrailerName()) then []
      else
        var data := Aligned(base, p + HEADER + nameSize);
        var next := Aligned(base, data + fileSize);
        if next > len then [] else [FileRef(p + HEADER, data, fileSize)] + Parsed(mem, base, len, next, count + 1)
  }

  // ---- parsing inverts encoding ---------------------------------------------------------------------

  /** mem has the bytes s at position p. */
  predicate Holds(mem: seq<Byte>, p: nat, s: seq<Byte>) {
    p + |s| <= |mem| && mem[p..p + |s|] == s
  }

  lemma HoldsSplit(mem: seq<Byte>, p: nat, a: seq<Byte>, b: seq<Byte>)
    requires Holds(mem, p, a + b)
    ensures Holds(mem, p, a) && Holds(mem, p + |a|, b)
  {
    assert mem[p..p + |a|] == (a + b)[..|a|];
    assert mem[p + |a|..p + |a| + |b|] == (a + b)[|a|..];
  }

  /** Padding computed from the length is padding computed from the address. */
  lemma PaddingAligns(base: nat, p: nat, n: nat)
    requires (base + p) % 4 == 0
    ensures Aligned(base, p + n) == p + n + |Padding(n)| && (base + (p + n + |Padding(n)|)) % 4 == 0
  {
  }

  /** The parts of an encoded entry. */
  lemma EntryParts(mem: seq<Byte>, p: nat, e: Entry, upper: bool, rest: seq<Byte>)
    requires EntryOk(e) && Holds(mem, p, Encoded(e, upper) + rest)
    ensures Holds(mem, p, Header(e, upper)) && Holds(mem, p + HEADER, e.name + [0])
    ensures var d := p + HEADER + |e.name| + 1 + |Padding(HEADER + |e.name| + 1)|;
            Holds(mem, d, e.data) && Holds(mem, d + |e.data| + |Padding(|e.data|)|, rest)
  {
    hide Header, Holds;
    var h, n, x, y := Header(e, upper), e.name + [0], Padding(HEADER + |e.name| + 1), Padding(|e.data|);
    HoldsSplit(mem, p, Encoded(e, upper), rest);
    HoldsSplit(mem, p, h + n + x + e.data, y);
    HoldsSplit(mem, p, h + n + x, e.data);
    HoldsSplit(mem, p, h + n, x);
    HoldsSplit(mem, p, h, n);
  }

  /** The fields of a header the parser looks at. */
  lemma HeaderParts(mem: seq<Byte>, p: nat, e: Entry, upper: bool)
    requires EntryOk(e) && Holds(mem, p, Header(e, upper))
    ensures p + HEADER <= |mem| && mem[p..p + 6] == Magic()
    ensures Hex(mem[p + 54..p + 62]) == |e.data| && Hex(mem[p + 94..p + 102]) == |e.name| + 1
  {
    hide HexDigits, Fields, Hex, Magic;
    var a, b, s, n, c := Fields(e.before, upper), Fields(e.between, upper),
                         HexDigits(|e.data|, 8, upper), HexDigits(|e.name| + 1, 8, upper), HexDigits(e.check, 8, upper);
    HoldsSplit(mem, p, Magic() + a + s + b + n, c);
    HoldsSplit(mem, p, Magic() + a + s + b, n);
    HoldsSplit(mem, p, Magic() + a + s, b);
    HoldsSplit(mem, p, Magic() + a, s);
    HoldsSplit(mem, p, Magic(), a);
    EightDigits();
    HexInvertsDigits(|e.data|, 8, upper);
    HexInvertsDigits(|e.name| + 1, 8, upper);
  }

  /** A NUL-free string in memory is no other NUL-free string. */
  lemma StringsDiffer(mem: seq<Byte>, at: nat, s: seq<Byte>, t: seq<Byte>)
    requires StringAt(mem, at, s) && 0 !in s && 0 !in t
    ensures StringAt(mem, at, t) <==> s == t
  {
  }

  /** r is the file e: its name, its size and its bytes. */
  predicate RefersTo(mem: seq<Byte>, r: FileRef, e: Entry) {
    StringAt(mem, r.name, e.name) && r.size == |e.data| && Holds(mem, r.data, e.data)
  }

  /** One entry parses to a reference to it, and parsing goes on where it ends. */
  lemma ParsesEntry(mem: seq<Byte>, base: nat, len: nat, p: nat, count: nat, e: Entry, upper: bool, rest: seq<Byte>)
    requires EntryOk(e) && e.name != TrailerName() && (base + p) % 4 == 0 && count < MAX_ENTRIES
    requires |rest| > 0 && Holds(mem, p, Encoded(e, upper) + rest) && p + |Encoded(e, upper) + rest| <= len <= |mem|
    ensures var next := p + |Encoded(e, upper)|;
            var ps := Parsed(mem, base, len, p, count);
            && Holds(mem, next, rest) && (base + next) % 4 == 0 && next + |rest| <= len
            && |ps| > 0 && RefersTo(mem, ps[0], e) && ps[1..] == Parsed(mem, base, len, next, count + 1)
  {
    hide Hex, Header, TrailerName, Magic, Aligned, Padding, Holds, Parsed, StringAt;
    var n, d := p + HEADER + |e.name| + 1, p + HEADER + |e.name| + 1 + |Padding(HEADER + |e.name| + 1)|;
    EntryParts(mem, p, e, upper, rest);
    HeaderParts(mem, p, e, upper);
    NamePart(mem, p + HEADER, e.name);
    StringsDiffer(mem, p + HEADER, e.name, TrailerName());
    PaddingAligns(base, p, HEADER + |e.name| + 1);
    PaddingAligns(base, d, |e.data|);
    ParsedIs(mem, base, len, p, count, |e.name| + 1, |e.data|);
  }

  lemma ParsedIs(mem: seq<Byte>, base: nat, len: nat, p: nat, count: nat, nameSize: nat, fileSize: nat)
    requires p + HEADER < len <= |mem| && count < MAX_ENTRIES && mem[p..p + 6] == Magic()
    requires Hex(mem[p + 94..p + 102]) == nameSize && Hex(mem[p + 54..p + 62]) == fileSize
    ensures var data := Aligned(base, p + HEADER + nameSize);
            var next := Aligned(base, data + fileSize);
            Parsed(mem, base, len, p, count) ==
              if (nameSize > 0 && StringAt(mem, p + HEADER, TrailerName())) || next > len then []
              else [FileRef(p + HEADER, data, fileSize)] + Parsed(mem, base, len, next, count + 1)
  {
  }

  lemma NamePart(mem: seq<Byte>, at: nat, name: seq<Byte>)
    requires Holds(mem, at, name + [0])
    ensures StringAt(mem, at, name)
  {
    HoldsSplit(mem, at, name, [0]);
    assert mem[at + |name|] == mem[at + |name|..at + |name| + 1][0];
  }

  /** Parsing the archive of any list of named files, wherever it lies at an address that is a multiple
      of four and whatever follows it, finds the same names, sizes and bytes in the same order, up
      to the sixteenth. */
  lemma {:induction false} ParseInvertsArchive(mem: seq<Byte>, base: nat, len: nat, p: nat, count: nat,
      es: seq<Entry>, upper: bool)
    requires (forall i :: 0 <= i < |es| ==> EntryOk(es[i]) && es[i].name != TrailerName()) && (base + p) % 4 == 0
    requires count <= MAX_ENTRIES && Holds(mem, p, Archive(es, upper)) && p + |Archive(es, upper)| <= len <= |mem|
    ensures var ps := Parsed(mem, base, len, p, count);
            && |ps| == (if count + |es| > MAX_ENTRIES then MAX_ENTRIES - count else |es|)
            && forall i :: 0 <= i < |ps| ==> RefersTo(mem, ps[i], es[i])
    decreases |es|
  {
    hide Parsed, RefersTo, Encoded;
    if es == [] {
      TrailerStops(mem, base, len, p, count, upper);
    } else if count == MAX_ENTRIES {
      Exhausted(mem, base, len, p, count);
    } else {
      var rest := Archive(es[1..], upper);
      assert EntryOk(es[0]);
      ArchiveNotEmpty(es[1..], upper);
      ParsesEntry(mem, base, len, p, count, es[0], upper, rest);
      ParseInvertsArchive(mem, base, len, p + |Encoded(es[0], upper)|, count + 1, es[1..], upper);
    }
  }

  lemma ArchiveNotEmpty(es: seq<Entry>, upper: bool)
    requires forall i :: 0 <= i < |es| ==> EntryOk(es[i])
    ensures |Archive(es, upper)| > 0
  {
    if es != [] {
      assert EntryOk(es[0]);
    }
  }

  lemma TrailerStops(mem: seq<Byte>, base: nat, len: nat, p: nat, count: nat, upper: bool)
    requires Holds(mem, p, Encoded(Trailer(), upper)) && p + |Encoded(Trailer(), upper)| <= len <= |mem|
    ensures Parsed(mem, base, len, p, count) == []
  {
    hide Hex, Header, Magic;
    assert Encoded(Trailer(), upper) + [] == Encoded(Trailer(), upper);
    EntryParts(mem, p, Trailer(), upper, []);
    HeaderParts(mem, p, Trailer(), upper);
    NamePart(mem, p + HEADER, TrailerName());
  }

  /** Files inside the archive from position p on, in order and without overlap. */
  predicate Inside(base: nat, len: nat, p: nat, refs: seq<FileRef>)
    decreases |refs|
  {
    refs == [] ||
    (&& refs[0].name == p + HEADER < len && refs[0].name <= refs[0].data && refs[0].data + refs[0].size <= len
     && (base + refs[0].data) % 4 == 0
     && Inside(base, len, Aligned(base, refs[0].data + refs[0].size), refs[1..]))
  }

  /** Whatever is in memory, what the parser finds lies inside the archive. */
  lemma {:induction false} FoundInside(mem: seq<Byte>, base: nat, len: nat, p: nat, count: nat)
    requires len <= |mem|
    ensures Inside(base, len, p, Parsed(mem, base, len, p, count))
    decreases if p < len then len - p else 0
  {
    hide Hex, StringAt, Magic;
    var ps := Parsed(mem, base, len, p, count);
    if ps == [] {
    } else {
      FoundInside(mem, base, len, Aligned(base, ps[0].data + ps[0].size), count + 1);
      assert ps[1..] == Parsed(mem, base, len, Aligned(base, ps[0].data + ps[0].size), count + 1);
    }
  }

  /** So every file found has its bytes within the archive. */
  lemma {:induction false} InsideEach(base: nat, len: nat, p: nat, refs: seq<FileRef>, i: nat)
    requires Inside(base, len, p, refs) && i < |refs|
    ensures refs[i].name < len && refs[i].data + refs[i].size <= len && p < refs[i].name
    ensures i > 0 ==> refs[i - 1].data + refs[i - 1].size < refs[i].name
    decreases |refs|
  {
    if i == 0 {
    } else {
      var next := Aligned(base, refs[0].data + refs[0].size);
      InsideEach(base, len, next, refs[1..], i - 1);
    }
  }

  /** Masking off the two low bits of a 64-bit address. */
  lemma MaskAligns(x: nat)
    requires x < WORD_LIMIT
    ensures BitAnd(x, WORD_LIMIT - 4) == x / 4 * 4
  {
    PowersUsed();
    assert Pow2(62) * 4 == Pow2(64) by {
      assert Pow2(63) == 2 * Pow2(62);
      assert Pow2(64) == 2 * Pow2(63);
    }
    ShlIsProduct(x / 4, 2);
    ShlIsProduct(Pow2(62) - 1, 2);
    AndHighMask(2, 62, x / 4, x % 4);
  }

  // ---- the parser ---------------------------------------------------------------------------------

  class Initramfs {
    /** Memory from the module's base address on. */
    const memory: array<Byte>
    const base: nat
    const files: array<FileRef>
    var fileCount: nat

    constructor (m: array<Byte>, address: nat)
      ensures memory == m && base == address && files.Length == MAX_ENTRIES && fileCount == 0 && fresh(files)
    {
      memory, base := m, address;
      files := new FileRef[MAX_ENTRIES](_ => FileRef(0, 0, 0));
      fileCount := 0;
    }

    /** memcmp and strcmp against a constant. */
    method BytesAt(at: nat, s: seq<Byte>) returns (same: bool)
      requires at + |s| <= memory.Length
      ensures same == (memory[at..at + |s|] == s)
    {
      for i := 0 to |s|
        invariant memory[at..at + i] == s[..i]
      {
        if memory[at + i] != s[i] {
          assert memory[at..at + |s|][i] != s[i];
          return false;
        }
        assert memory[at..at + i + 1] == memory[at..at + i] + [memory[at + i]];
      }
      same := true;
    }

    method StringIs(at: nat, s: seq<Byte>) returns (same: bool)
      requires at + |s| < memory.Length
      ensures same == StringAt(memory[..], at, s)
    {
      same := BytesAt(at, s);
      assert memory[..][at..at + |s|] == memory[at..at + |s|];
      same := same && memory[at + |s|] == 0;
    }

    /** (address + 3) & ~3 on a 64-bit address, as a position. */
    method AlignUp(at: nat) returns (r: nat)
      requires base + at + 3 < WORD_LIMIT
      ensures r == Aligned(base, at)
    {
      MaskAligns(base + at + 3);
      r := BitAnd(base + at + 3, WORD_LIMIT - 4) - base;
    }

    /** Reads the archive. The name comparison may look at eleven bytes past a name that starts
        before the end, so that much has to be readable; addresses do not wrap around. */
    method Init(len: nat)
      requires files.Length == MAX_ENTRIES && len + 11 <= memory.Length && base + len + 3 * U32 < WORD_LIMIT
      modifies this, files
      ensures fileCount <= MAX_ENTRIES && files[..fileCount] == Parsed(memory[..], base, len, 0, 0)
    {
      hide Parsed;
      fileCount := 0;
      ghost var mem := memory[..];
      var p := 0;
      ghost var rest := Parsed(mem, base, len, p, 0);
      while p + HEADER < len && fileCount < MAX_ENTRIES
        invariant fileCount <= MAX_ENTRIES && rest == Parsed(mem, base, len, p, fileCount)
        invariant files[..fileCount] + rest == Parsed(mem, base, len, 0, 0)
        decreases if p < len then len - p else 0
      {
        var r, next := Next(len, p, fileCount);
        if r.None? {
          return;
        }
        files[fileCount] := r.value;
        fileCount := fileCount + 1;
        p := next;
        rest := rest[1..];
      }
      Exhausted(mem, base, len, p, fileCount);
    }

    /** One header: the file it describes and where the next one is, or nothing. */
    method Next(len: nat, p: nat, ghost count: nat) returns (r: Option<FileRef>, next: nat)
      requires len + 11 <= memory.Length && base + len + 3 * U32 < WORD_LIMIT && p + HEADER < len && count < MAX_ENTRIES
      ensures r.None? ==> Parsed(memory[..], base, len, p, count) == []
      ensures r.Some? ==> next > p
      ensures r.Some? ==>
        Parsed(memory[..], base, len, p, count) == [r.value] + Parsed(memory[..], base, len, next, count + 1)
    {
      hide Hex, StringAt, Parsed, Aligned, Magic, TrailerName;
      ghost var mem := memory[..];
      r, next := None, p;
      var magic := BytesAt(p, Magic());
      assert mem[p..p + 6] == memory[p..p + 6];
      if !magic {
        BadMagic(mem, base, len, p, count);
        return;
      }
      var nameSize := Hex2U32(memory, p + 94, 8);
      var fileSize := Hex2U32(memory, p + 54, 8);
      assert mem[p + 94..p + 102] == memory[p + 94..p + 102] && mem[p + 54..p + 62] == memory[p + 54..p + 62];
      ParsedIs(mem, base, len, p, count, nameSize, fileSize);
      var trailer := StringIs(p + HEADER, TrailerName());
      if nameSize > 0 && trailer {
        return;
      }
      var data := AlignUp(p + HEADER + nameSize);
      next := AlignUp(data + fileSize);
      if next > len {
        return;
      }
      r := Some(FileRef(p + HEADER, data, fileSize));
    }

    /** The first file of that name. */
    method Find(name: seq<Byte>) returns (r: Option<nat>)
      requires fileCount <= files.Length && forall i :: 0 <= i < fileCount ==> files[i].name + |name| < memory.Length
      ensures match r
              case Some(i) => i < fileCount && StringAt(memory[..], files[i].name, name)
                              && forall j :: 0 <= j < i ==> !StringAt(memory[..], files[j].name, name)
              case None => forall j :: 0 <= j < fileCount ==> !StringAt(memory[..], files[j].name, name)
    {
      hide StringAt;
      for i := 0 to fileCount
        invariant forall j :: 0 <= j < i ==> !StringAt(memory[..], files[j].name, name)
      {
        var same := StringIs(files[i].name, name);
        if same {
          return Some(i);
        }
      }
      r := None;
    }
  }

  lemma BadMagic(mem: seq<Byte>, base: nat, len: nat, p: nat, count: nat)
    requires p + HEADER < len <= |mem| && mem[p..p + 6] != Magic()
    ensures Parsed(mem, base, len, p, count) == []
  {
  }

  lemma Exhausted(mem: seq<Byte>, base: nat, len: nat, p: nat, count: nat)
    requires len <= |mem| && (p + HEADER >= len || count >= MAX_ENTRIES)
    ensures Parsed(mem, base, len, p, count) == []
  {
  }
}
