/** exec: building a process image from the loadable segments of an ELF file, and its stack. */
module ElfLoader {
  import opened Bits
  import opened Arithmetic
  import opened PageTables
  import opened AddressSpaces
  import opened Processes
  import FA = FrameAllocator

  const STACK_FIRST_PAGE: nat := 0x7_FFF8    // page of 0x7FFF8000

  /** A program header; `load` says its type is PT_LOAD. */
  datatype Segment = Segment(load: bool, vaddr: nat, memsz: nat, filesz: nat, offset: nat, writable: bool,
    executable: bool)

  // ---- the flat image (System V gABI chapter 5, Program Loading) ---------------------------

  /** The byte the file prescribes for address a of the segment's pages. */
  function ByteAt(seg: Segment, file: seq<Byte>, a: nat): Byte
    requires seg.offset + seg.filesz <= |file|
  {
    if seg.vaddr <= a < seg.vaddr + seg.memsz && a < seg.vaddr + seg.filesz then file[seg.offset + (a - seg.vaddr)]
    else 0
  }

  /** The first filesz bytes of a segment are the file's, those up to memsz zeros; a page that it shares has zeros
      around it. */
  lemma ImageBytes(seg: Segment, file: seq<Byte>, k: nat, a: nat)
    requires seg.offset + seg.filesz <= |file|
    ensures k < seg.memsz ==> ByteAt(seg, file, seg.vaddr + k) == if k < seg.filesz then file[seg.offset + k] else 0
    ensures !Holds(seg, a) ==> ByteAt(seg, file, a) == 0
  {
  }

  ghost predicate IsImage(content: Page, seg: Segment, file: seq<Byte>, p: nat)
    requires seg.offset + seg.filesz <= |file|
  {
    forall i :: 0 <= i < 4096 ==> content[i] == ByteAt(seg, file, 4096 * p + i)
  }

  /** How many times the page loop of a segment runs. */
  function PageCount(seg: Segment): nat {
    (seg.memsz + 4095) / 4096
  }

  /** The page loop of the segment reaches page p. */
  predicate Visits(seg: Segment, p: nat) {
    seg.load && seg.vaddr / 4096 <= p < seg.vaddr / 4096 + PageCount(seg)
  }

  predicate Holds(seg: Segment, a: nat) {
    seg.vaddr <= a < seg.vaddr + seg.memsz
  }

  /** The loop reaches every page of the segment exactly when its first byte's offset and its
      length leave no extra page at the end. */
  lemma AllPagesVisitedIff(seg: Segment)
    requires seg.load && seg.memsz > 0
    ensures (forall a: nat :: Holds(seg, a) ==> Visits(seg, a / 4096)) <==>
      seg.vaddr % 4096 + (seg.memsz - 1) % 4096 < 4096
  {
    var last := seg.vaddr + seg.memsz - 1;
    var v, n := seg.vaddr % 4096, seg.memsz - 1;
    assert last == 4096 * (seg.vaddr / 4096 + n / 4096) + (v + n % 4096);
    assert PageCount(seg) == n / 4096 + 1;
    if v + n % 4096 < 4096 {
      assert last / 4096 == seg.vaddr / 4096 + n / 4096;
    } else {
      assert last / 4096 == seg.vaddr / 4096 + n / 4096 + 1;
      assert Holds(seg, last) && !Visits(seg, last / 4096);
    }
  }

  /** Every page the loop reaches holds some byte of the segment. */
  lemma VisitedPagesBelong(seg: Segment, p: nat)
    requires Visits(seg, p)
    ensures exists a: nat :: Holds(seg, a) && a / 4096 == p
  {
    var k := p - seg.vaddr / 4096;
    var a := seg.vaddr + 4096 * k;
    assert a / 4096 == p;
    assert Holds(seg, a);
  }

  function SegmentFlags(seg: Segment): (flags: nat)
    ensures Present(flags) && (flags < 4096 || PTE_NX <= flags < PTE_NX + 4096)
    ensures flags < 4096 <==> seg.executable
  {
    PTE_PRESENT + PTE_USER + (if seg.writable then PTE_WRITABLE else 0) + (if seg.executable then 0 else PTE_NX)
  }

  /** `phys | flags` for a frame c. */
  lemma SegmentEntry(c: nat, flags: nat)
    requires c < 0x10_0000 && Present(flags) && (flags < 4096 || PTE_NX <= flags < PTE_NX + 4096)
    ensures LeafOf(BitOr(4096 * c, flags)) == Some(4096 * c + flags)
    ensures FrameOf(4096 * c + flags) == c
  {
    hide BitOr, FrameOf, Present;
    PresentSum(c, flags);
    EntryFrame(c, flags);
    if flags < 4096 {
      OrLow(c, flags);
    } else {
      OrWithNx(4096 * c, flags - PTE_NX);
    }
  }

  lemma PresentSum(c: nat, flags: nat)
    ensures Present(4096 * c + flags) <==> Present(flags)
    ensures (4096 * c) % 4096 == 0
  {
    DivModUnique(4096 * c, 4096, c, 0);
    DivModUnique(4096 * c + flags, 2, 2048 * c + flags / 2, flags % 2);
  }

  // ---- one page ---------------------------------------------------------------------------------

  /** Page p of `root` went to a fresh frame holding `content`, all other pages stayed. */
  ghost predicate PageAdded(s: State, t: State, root: nat, p: nat, flags: nat) {
    && Undisturbed(s, t, root)
    && PageLeaf(t.mem, root, p).Some?
    && var c := FrameOf(PageLeaf(t.mem, root, p).value);
       c in s.free && c !in t.free && c !in t.tables && FA.LOW_MEMORY_FRAMES <= c < |t.mem|
       && PageLeaf(t.mem, root, p) == Some(4096 * c + flags)
       && t.free == s.free - t.tables.Keys - {c}
       && (forall q :: 0 <= q < USER_PAGES && q != p ==> PageLeaf(t.mem, root, q) == PageLeaf(s.mem, root, q))
  }

  lemma AddedPage(s: State, c: nat, t: State, root: nat, p: nat, flags: nat)
    requires WellFormed(s) && WellFormed(t) && IsRoot(s.tables, root) && p < USER_PAGES
    requires c in s.free && c >= FA.LOW_MEMORY_FRAMES && Present(flags)
    requires flags < 4096 || PTE_NX <= flags < PTE_NX + 4096
    requires Grows(WithFrame(s, c, s.mem[c]), t)
    requires OnlyPageChanged(WithFrame(s, c, s.mem[c]).mem, t.mem, s.tables, root, 4096 * p,
      LeafOf(BitOr(4096 * c, flags)))
    ensures PageAdded(s, t, root, p, flags) && FrameOf(PageLeaf(t.mem, root, p).value) == c
  {
    hide Leaf, FrameOf, BitOr, Shape, OnlyPageChanged, Present;
    SegmentEntry(c, flags);
    StepUndisturbed(s, s, c, s.mem[c], t, root, 4096 * p, LeafOf(BitOr(4096 * c, flags)));
    forall q | 0 <= q < USER_PAGES
      ensures PageLeaf(t.mem, root, q) == if q == p then Some(4096 * c + flags) else PageLeaf(s.mem, root, q)
    {
      StepLeaves(s, c, s.mem[c], t, root, p, q, LeafOf(BitOr(4096 * c, flags)));
    }
  }

  /** Filling the new page's frame keeps all that. */
  lemma FillPage(s: State, t: State, root: nat, p: nat, flags: nat, x: Page)
    requires WellFormed(s) && WellFormed(t) && IsRoot(s.tables, root) && p < USER_PAGES &&
      PageAdded(s, t, root, p, flags)
    ensures var c := FrameOf(PageLeaf(t.mem, root, p).value);
            var u := t.(mem := t.mem[c := x]);
            WellFormed(u) && PageAdded(s, u, root, p, flags) && PageLeaf(u.mem, root, p) == PageLeaf(t.mem, root, p)
  {
    hide Lookup, FrameOf;
    var c := FrameOf(PageLeaf(t.mem, root, p).value);
    var u := t.(mem := t.mem[c := x]);
    TranslationsReadTables(t.mem, u.mem, t.tables);
    forall q | 0 <= q < USER_PAGES ensures PageLeaf(u.mem, root, q) == PageLeaf(t.mem, root, q) {
      assert IsRoot(t.tables, root);
    }
    forall r, v | IsRoot(s.tables, r) && r != root && 0 <= v < USER_LIMIT
      ensures Leaf(u.mem, r, v) == Leaf(s.mem, r, v)
    {
      assert IsRoot(t.tables, r);
      assert Leaf(u.mem, r, v) == Leaf(t.mem, r, v);
    }
  }

  /** A process whose pages were private keeps that property. */
  lemma AddedPageKeepsPrivate(s: State, t: State, root: nat, p: nat, flags: nat)
    requires WellFormed(s) && Private(s, root) && PageAdded(s, t, root, p, flags) && p < USER_PAGES
    ensures Private(t, root)
  {
    hide Leaf, FrameOf;
    var c := FrameOf(PageLeaf(t.mem, root, p).value);
    forall q | 0 <= q < USER_PAGES ensures LivePage(t, root, q) {
      assert LivePage(s, root, q);
    }
    forall q, r | 0 <= q < r < USER_PAGES && PageLeaf(t.mem, root, q).Some? && PageLeaf(t.mem, root, r).Some?
      ensures FrameOf(PageLeaf(t.mem, root, q).value) != FrameOf(PageLeaf(t.mem, root, r).value)
    {
      assert LivePage(s, root, q) && LivePage(s, root, r);
    }
  }

  // ---- the loader -------------------------------------------------------------------------------

  /** The last of the first n segments whose loop reaches page p. */
  function LastVisitor(segs: seq<Segment>, n: nat, p: nat): (r: Option<nat>)
    requires n <= |segs|
    ensures r.Some? ==> r.value < n && Visits(segs[r.value], p)
    ensures forall j :: (if r.Some? then r.value else -1) < j < n ==> !Visits(segs[j], p)
  {
    if n == 0 then None
    else if Visits(segs[n - 1], p) then Some(n - 1)
    else LastVisitor(segs, n - 1, p)
  }

  ghost predicate InFile(segs: seq<Segment>, file: seq<Byte>) {
    forall i :: 0 <= i < |segs| && segs[i].load ==>
      segs[i].offset + segs[i].filesz <= |file| && segs[i].vaddr + segs[i].memsz <= USER_LIMIT
  }

  /** Page p of `root` is a frame of its own holding the segment's image, with its flags. */
  ghost predicate PageLoaded(t: State, root: nat, seg: Segment, file: seq<Byte>, p: nat)
    requires seg.offset + seg.filesz <= |file|
  {
    PageLeaf(t.mem, root, p).Some? &&
    var c := FrameOf(PageLeaf(t.mem, root, p).value);
    && c < |t.mem|
    && PageLeaf(t.mem, root, p) == Some(4096 * c + SegmentFlags(seg))
    && IsImage(t.mem[c], seg, file, p)
  }

  /** The first k pages of the segment are loaded and no page but those changed. */
  ghost predicate LoadedPages(s: State, t: State, root: nat, seg: Segment, file: seq<Byte>, k: nat)
    requires seg.offset + seg.filesz <= |file|
  {
    && Undisturbed(s, t, root) && Private(t, root)
    && (forall p :: seg.vaddr / 4096 <= p < seg.vaddr / 4096 + k ==> PageLoaded(t, root, seg, file, p))
    && (forall p :: 0 <= p < USER_PAGES && !(seg.vaddr / 4096 <= p < seg.vaddr / 4096 + k) ==>
          PageLeaf(t.mem, root, p) == PageLeaf(s.mem, root, p))
  }

  /** The page holds the image of the last of the first n segments that reaches it; if none does it
      is as before. */
  ghost predicate PageFate(s: State, t: State, root: nat, segs: seq<Segment>, file: seq<Byte>, n: nat, p: nat)
    requires InFile(segs, file) && n <= |segs|
  {
    match LastVisitor(segs, n, p)
    case None => PageLeaf(t.mem, root, p) == PageLeaf(s.mem, root, p)
    case Some(j) => PageLoaded(t, root, segs[j], file, p)
  }

  ghost predicate Loaded(s: State, t: State, root: nat, segs: seq<Segment>, file: seq<Byte>, n: nat)
    requires InFile(segs, file) && n <= |segs|
  {
    && Undisturbed(s, t, root) && Private(t, root)
    && (forall p :: 0 <= p < USER_PAGES ==> PageFate(s, t, root, segs, file, n, p))
  }

  /** A page loaded before survives the loading of other pages. */
  lemma LoadedPageSurvives(t: State, u: State, root: nat, seg: Segment, file: seq<Byte>, p: nat)
    requires seg.offset + seg.filesz <= |file|
    requires WellFormed(t) && Private(t, root) && PageLoaded(t, root, seg, file, p) && p < USER_PAGES
    requires Undisturbed(t, u, root) && PageLeaf(u.mem, root, p) == PageLeaf(t.mem, root, p)
    ensures PageLoaded(u, root, seg, file, p)
  {
    hide Leaf, FrameOf, SegmentFlags, ByteAt;
    assert LivePage(t, root, p);
  }

  lemma OnePageMore(s: State, t: State, u: State, root: nat, seg: Segment, file: seq<Byte>, k: nat)
    requires seg.offset + seg.filesz <= |file| && seg.vaddr + 4096 * k < USER_LIMIT
    requires WellFormed(t) && LoadedPages(s, t, root, seg, file, k)
    requires PageAdded(t, u, root, seg.vaddr / 4096 + k, SegmentFlags(seg))
    requires IsImage(u.mem[FrameOf(PageLeaf(u.mem, root, seg.vaddr / 4096 + k).value)], seg, file, seg.vaddr / 4096 + k)
    ensures LoadedPages(s, u, root, seg, file, k + 1)
  {
    hide Leaf, FrameOf, SegmentFlags, ByteAt, LivePage, Undisturbed, IsImage;
    var first := seg.vaddr / 4096;
    assert first + k < USER_PAGES;
    UndisturbedTransitive(s, t, u, root);
    AddedPageKeepsPrivate(t, u, root, first + k, SegmentFlags(seg));
    forall p | first <= p < first + k + 1 ensures PageLoaded(u, root, seg, file, p) {
      if p < first + k {
        LoadedPageSurvives(t, u, root, seg, file, p);
      }
    }
  }

  lemma OneSegmentMore(s: State, t: State, u: State, root: nat, segs: seq<Segment>, file: seq<Byte>, n: nat)
    requires InFile(segs, file) && n < |segs| && segs[n].load
    requires WellFormed(t) && Loaded(s, t, root, segs, file, n)
    requires LoadedPages(t, u, root, segs[n], file, PageCount(segs[n]))
    ensures Loaded(s, u, root, segs, file, n + 1)
  {
    hide Leaf, FrameOf, SegmentFlags, ByteAt, LivePage, Undisturbed, PageLoaded, PageCount;
    UndisturbedTransitive(s, t, u, root);
    var next := n + 1;
    forall p | 0 <= p < USER_PAGES ensures PageFate(s, u, root, segs, file, next, p) {
      assert PageFate(s, t, root, segs, file, n, p);
      if !Visits(segs[n], p) && LastVisitor(segs, n, p).Some? {
        LoadedPageSurvives(t, u, root, segs[LastVisitor(segs, n, p).value], file, p);
      }
    }
  }

  lemma SkippedSegment(s: State, t: State, root: nat, segs: seq<Segment>, file: seq<Byte>, n: nat)
    requires InFile(segs, file) && n < |segs| && !segs[n].load && Loaded(s, t, root, segs, file, n)
    ensures Loaded(s, t, root, segs, file, n + 1)
  {
    hide Leaf, FrameOf, Undisturbed, PageLoaded, PageCount;
    var next := n + 1;
    forall p | 0 <= p < USER_PAGES ensures PageFate(s, t, root, segs, file, next, p) {
      assert PageFate(s, t, root, segs, file, n, p);
    }
  }

  /** The last segment to reach a page decides all of it, also the bytes an earlier one had put there. */
  lemma LastSegmentWins(s: State, t: State, root: nat, segs: seq<Segment>, file: seq<Byte>, j: nat, a: nat)
    requires InFile(segs, file) && Loaded(s, t, root, segs, file, |segs|)
    requires j < |segs| && Visits(segs[j], a / 4096) && a < USER_LIMIT
    requires forall i :: j < i < |segs| ==> !Visits(segs[i], a / 4096)
    ensures PageContent(t.mem, root, a / 4096).Some?
    ensures PageContent(t.mem, root, a / 4096).value[a % 4096] == ByteAt(segs[j], file, a)
  {
    hide Leaf, FrameOf, SegmentFlags, ByteAt;
    assert LastVisitor(segs, |segs|, a / 4096) == Some(j);
    assert PageFate(s, t, root, segs, file, |segs|, a / 4096);
    assert 4096 * (a / 4096) + a % 4096 == a;
  }

  /** A byte of the pages a segment's loop reaches is there as that segment has it exactly when the last segment
      to reach the page has the same byte at that address. */
  lemma ByteShownIff(s: State, t: State, root: nat, segs: seq<Segment>, file: seq<Byte>, i: nat, a: nat)
    requires InFile(segs, file) && Loaded(s, t, root, segs, file, |segs|)
    requires i < |segs| && Visits(segs[i], a / 4096) && a < USER_LIMIT
    ensures var last := LastVisitor(segs, |segs|, a / 4096);
            && last.Some? && last.value >= i && PageContent(t.mem, root, a / 4096).Some?
            && (PageContent(t.mem, root, a / 4096).value[a % 4096] == ByteAt(segs[i], file, a) <==>
                ByteAt(segs[last.value], file, a) == ByteAt(segs[i], file, a))
  {
    hide Leaf, FrameOf, SegmentFlags, ByteAt, Loaded;
    var j := LastVisitor(segs, |segs|, a / 4096).value;
    LastSegmentWins(s, t, root, segs, file, j, a);
  }

  /** So a segment is in memory as its own image on every page its loop reaches, exactly when every later segment
      that is the last to reach one of these pages agrees with it there. */
  lemma SegmentShownIff(s: State, t: State, root: nat, segs: seq<Segment>, file: seq<Byte>, i: nat)
    requires InFile(segs, file) && Loaded(s, t, root, segs, file, |segs|) && i < |segs|
    ensures (forall a: nat :: a < USER_LIMIT && Visits(segs[i], a / 4096) ==>
               var page := PageContent(t.mem, root, a / 4096);
               page.Some? && page.value[a % 4096] == ByteAt(segs[i], file, a))
            <==>
            (forall a: nat :: a < USER_LIMIT && Visits(segs[i], a / 4096) ==>
               var last := LastVisitor(segs, |segs|, a / 4096);
               last.Some? && ByteAt(segs[last.value], file, a) == ByteAt(segs[i], file, a))
  {
    hide Leaf, FrameOf, SegmentFlags, ByteAt, Loaded, PageContent, LastVisitor;
    forall a: nat | a < USER_LIMIT && Visits(segs[i], a / 4096)
      ensures var last, page := LastVisitor(segs, |segs|, a / 4096), PageContent(t.mem, root, a / 4096);
              && last.Some? && page.Some?
              && (page.value[a % 4096] == ByteAt(segs[i], file, a) <==>
                  ByteAt(segs[last.value], file, a) == ByteAt(segs[i], file, a))
    {
      ByteShownIff(s, t, root, segs, file, i, a);
    }
  }

  /** And the last segment to reach a page decides what the process may do with it: user mode may read it, write it
      exactly when that segment is writable, and execute it exactly when that segment is executable. */
  lemma LoadedRights(s: State, t: State, root: nat, segs: seq<Segment>, file: seq<Byte>, p: nat)
    requires WellFormed(t) && InFile(segs, file) && Loaded(s, t, root, segs, file, |segs|)
    requires p < USER_PAGES && LastVisitor(segs, |segs|, p).Some?
    ensures var seg := segs[LastVisitor(segs, |segs|, p).value];
            PageRights(t.mem, root, p) == Rights(seg.writable, true, seg.executable)
  {
    hide Lookup, Shape, LivePage, Undisturbed, IsImage, EntryAllows;
    assert PageFate(s, t, root, segs, file, |segs|, p);
    var seg := segs[LastVisitor(segs, |segs|, p).value];
    EntryRights(FrameOf(PageLeaf(t.mem, root, p).value), SegmentFlags(seg));
    FlagBits(seg);
    LeafDecides(t.mem, t.tables, root, 4096 * p);
  }

  lemma FlagBits(seg: Segment)
    ensures var flags := SegmentFlags(seg);
            flags / 4 % 2 == 1 && (flags / 2 % 2 == 1 <==> seg.writable) && (flags >= PTE_NX <==> !seg.executable)
  {
    var flags, low := SegmentFlags(seg), SegmentFlags(seg) % 4096;
    assert PTE_NX == 4 * 0x2000_0000_0000_0000 && PTE_NX == 8 * 0x1000_0000_0000_0000;
  }

  /** Page p holds a byte of the segment. */
  predicate Spans(seg: Segment, p: nat) {
    seg.load && seg.memsz > 0 && seg.vaddr / 4096 <= p <= (seg.vaddr + seg.memsz - 1) / 4096
  }

  ghost predicate PageDisjoint(segs: seq<Segment>) {
    forall i, j, p: nat :: 0 <= i < j < |segs| ==> !(Spans(segs[i], p) && Spans(segs[j], p))
  }

  /** Loading page-disjoint segments into an empty process gives the flat image: bytes of mapped pages
      are the file's, and a segment is mapped in full exactly when its start offset and length allow. */
  lemma FlatImage(s: State, t: State, root: nat, segs: seq<Segment>, file: seq<Byte>, j: nat)
    requires InFile(segs, file) && PageDisjoint(segs) && Loaded(s, t, root, segs, file, |segs|)
    requires forall p :: 0 <= p < USER_PAGES ==> PageLeaf(s.mem, root, p) == None
    requires j < |segs| && segs[j].load && segs[j].memsz > 0
    ensures forall a: nat :: Holds(segs[j], a) && PageContent(t.mem, root, a / 4096).Some? ==>
              PageContent(t.mem, root, a / 4096).value[a % 4096] == ByteAt(segs[j], file, a)
    ensures (forall a: nat :: Holds(segs[j], a) ==> PageContent(t.mem, root, a / 4096).Some?)
            <==> segs[j].vaddr % 4096 + (segs[j].memsz - 1) % 4096 < 4096
  {
    hide Leaf, FrameOf, SegmentFlags, ByteAt;
    forall a: nat | Holds(segs[j], a)
      ensures PageContent(t.mem, root, a / 4096).Some? <==> Visits(segs[j], a / 4096)
      ensures PageContent(t.mem, root, a / 4096).Some? ==>
                PageContent(t.mem, root, a / 4096).value[a % 4096] == ByteAt(segs[j], file, a)
    {
      ByteOfDisjoint(s, t, root, segs, file, j, a);
    }
    AllPagesVisitedIff(segs[j]);
  }

  lemma ByteOfDisjoint(s: State, t: State, root: nat, segs: seq<Segment>, file: seq<Byte>, j: nat, a: nat)
    requires InFile(segs, file) && PageDisjoint(segs) && Loaded(s, t, root, segs, file, |segs|)
    requires forall p :: 0 <= p < USER_PAGES ==> PageLeaf(s.mem, root, p) == None
    requires j < |segs| && segs[j].load && Holds(segs[j], a)
    ensures PageContent(t.mem, root, a / 4096).Some? <==> Visits(segs[j], a / 4096)
    ensures PageContent(t.mem, root, a / 4096).Some? ==>
              PageContent(t.mem, root, a / 4096).value[a % 4096] == ByteAt(segs[j], file, a)
  {
    hide Leaf, FrameOf, SegmentFlags, ByteAt;
    var p := a / 4096;
    assert Spans(segs[j], p);
    forall i | 0 <= i < |segs| && i != j ensures !Visits(segs[i], p) {
      assert !Spans(segs[i], p);
      VisitsWithinSpan(segs[i], p);
    }
    if Visits(segs[j], p) {
      LastSegmentWins(s, t, root, segs, file, j, a);
    } else {
      assert PageFate(s, t, root, segs, file, |segs|, p);
    }
  }

  lemma VisitsWithinSpan(seg: Segment, p: nat)
    ensures Visits(seg, p) ==> Spans(seg, p)
  {
  }

  lemma PageStart(vaddr: nat, k: nat)
    ensures PageBits(vaddr + 4096 * k) == 4096 * (vaddr / 4096 + k)
  {
    DivModUnique(vaddr + 4096 * k, 4096, vaddr / 4096 + k, vaddr % 4096);
  }

  class Loader {
    const vm: VirtualMemory

    constructor (spaces: VirtualMemory)
      ensures vm == spaces
    {
      vm := spaces;
    }

    /** Allocates a frame and maps it at page p; gives the frame back when mapping fails. */
    method AddPage(root: nat, p: nat, flags: nat) returns (c: nat, ok: bool)
      requires vm.Valid() && IsRoot(vm.tables, root) && p < USER_PAGES && Present(flags)
      requires flags < 4096 || PTE_NX <= flags < PTE_NX + 4096
      modifies vm`tables, vm.frames, vm.pmm`lastIndex, vm.pmm.bitmap
      ensures vm.Valid() && Undisturbed(old(vm.View()), vm.View(), root)
      ensures ok ==> PageAdded(old(vm.View()), vm.View(), root, p, flags) &&
                     FrameOf(PageLeaf(vm.frames[..], root, p).value) == c
      ensures !ok ==> NearlyExhausted(vm.pmm.FreeFrames())
    {
      hide Leaf, Lookup, FrameOf, Shape, OnlyPageChanged, Grows, SamePage, Present, Undisturbed, SameTranslations,
           BitOr;
      ghost var s := vm.View();
      StartUndisturbed(s, root);
      c := 0;
      var phys := vm.pmm.AllocFrame();
      if phys == 0 {
        return c, false;
      }
      c := phys / FA.PAGE_SIZE;
      TakeFrame(s, c, s.mem[c]);
      assert vm.View() == WithFrame(s, c, s.mem[c]);
      ok := vm.MapPage(root, 4096 * p, phys, flags);
      StepUndisturbed(s, s, c, s.mem[c], vm.View(), root, 4096 * p, LeafOf(BitOr(phys, flags)));
      if ok {
        AddedPage(s, c, vm.View(), root, p, flags);
      } else {
        GiveBack(s, s, c, s.mem[c], vm.View(), root);
        vm.pmm.FreeFrame(phys);
      }
    }

    /** The page's file bytes, as the copy-range computation of the loader produces them. */
    method SegmentPage(seg: Segment, file: seq<Byte>, pageStart: nat) returns (content: Page)
      requires seg.offset + seg.filesz <= |file|
      ensures forall i :: 0 <= i < 4096 ==> content[i] == ByteAt(seg, file, pageStart + i)
    {
      content := ZeroPage();
      var segmentEndInFile := seg.offset + seg.filesz;
      var pageEnd := pageStart + FA.PAGE_SIZE;
      var segmentEnd := seg.vaddr + seg.memsz;
      var copyStart := if pageStart > seg.vaddr then pageStart else seg.vaddr;
      var copyEnd := if pageEnd < segmentEnd then pageEnd else segmentEnd;
      if copyStart < copyEnd {
        var inPage := copyStart - pageStart;
        var fileOffset := seg.offset + (copyStart - seg.vaddr);
        var bytes := copyEnd - copyStart;
        if fileOffset + bytes > segmentEndInFile {
          bytes := if fileOffset >= segmentEndInFile then 0 else segmentEndInFile - fileOffset;
        }
        if bytes > 0 {
          content := content[..inPage] + file[fileOffset..fileOffset + bytes] + content[inPage + bytes..];
        }
      }
    }

    method LoadSegment(root: nat, seg: Segment, file: seq<Byte>) returns (ok: bool)
      requires vm.Valid() && Private(vm.View(), root)
      requires seg.offset + seg.filesz <= |file| && seg.vaddr + seg.memsz <= USER_LIMIT
      modifies vm`tables, vm.frames, vm.pmm`lastIndex, vm.pmm.bitmap
      ensures vm.Valid() && Undisturbed(old(vm.View()), vm.View(), root)
      ensures ok ==> LoadedPages(old(vm.View()), vm.View(), root, seg, file, PageCount(seg))
      ensures !ok ==> NearlyExhausted(vm.pmm.FreeFrames())
    {
      hide Leaf, Lookup, FrameOf, Shape, Undisturbed, Private, PageLoaded, PageAdded, SegmentFlags, LoadedPages,
           IsImage, PageBits;
      ghost var s := vm.View();
      StartLoading(s, root, seg, file);
      var offset := 0;
      ghost var k := 0;
      while offset < seg.memsz
        invariant offset == 4096 * k && k <= PageCount(seg)
        invariant vm.Valid() && LoadedPages(s, vm.View(), root, seg, file, k)
      {
        LoadingFacts(s, vm.View(), root, seg, file, k);
        var pageStart := PageBits(seg.vaddr + offset);
        PageStart(seg.vaddr, k);
        var done := LoadPage(s, root, seg, file, pageStart / 4096, k);
        if !done {
          return false;
        }
        offset := offset + FA.PAGE_SIZE;
        k := k + 1;
      }
      LoadingFacts(s, vm.View(), root, seg, file, k);
      return true;
    }

    method LoadPage(ghost s: State, root: nat, seg: Segment, file: seq<Byte>, p: nat, ghost k: nat) returns (ok: bool)
      requires vm.Valid() && seg.offset + seg.filesz <= |file| && seg.vaddr + 4096 * k < USER_LIMIT
      requires p == seg.vaddr / 4096 + k && LoadedPages(s, vm.View(), root, seg, file, k)
      modifies vm`tables, vm.frames, vm.pmm`lastIndex, vm.pmm.bitmap
      ensures vm.Valid() && Undisturbed(s, vm.View(), root)
      ensures ok ==> LoadedPages(s, vm.View(), root, seg, file, k + 1)
      ensures !ok ==> NearlyExhausted(vm.pmm.FreeFrames())
    {
      hide Leaf, Lookup, FrameOf, Shape, Undisturbed, Private, PageLoaded, PageAdded, SegmentFlags, LoadedPages,
           ByteAt, Present;
      ghost var t := vm.View();
      LoadingFacts(s, t, root, seg, file, k);
      var flags := SegmentFlags(seg);
      var c;
      c, ok := AddPage(root, p, flags);
      ghost var u := vm.View();
      UndisturbedTransitive(s, t, u, root);
      if !ok {
        return;
      }
      var content := SegmentPage(seg, file, 4096 * p);
      AddedFacts(t, u, root, p, flags);
      FillPage(t, u, root, p, flags, content);
      vm.frames[c] := content;
      assert vm.View() == u.(mem := u.mem[c := content]);
      OnePageMore(s, t, vm.View(), root, seg, file, k);
      LoadingFacts(s, vm.View(), root, seg, file, k + 1);
    }

    /** Loads every PT_LOAD segment in order. */
    method LoadSegments(root: nat, segs: seq<Segment>, file: seq<Byte>) returns (ok: bool)
      requires vm.Valid() && Private(vm.View(), root) && InFile(segs, file)
      modifies vm`tables, vm.frames, vm.pmm`lastIndex, vm.pmm.bitmap
      ensures vm.Valid() && Undisturbed(old(vm.View()), vm.View(), root)
      ensures ok ==> Loaded(old(vm.View()), vm.View(), root, segs, file, |segs|)
      ensures !ok ==> NearlyExhausted(vm.pmm.FreeFrames())
    {
      hide Leaf, Lookup, FrameOf, Shape, Undisturbed, PageLoaded, LoadedPages, Private, LivePage;
      ghost var s := vm.View();
      StartUndisturbed(s, root);
      for i := 0 to |segs|
        invariant vm.Valid() && Loaded(s, vm.View(), root, segs, file, i)
      {
        if segs[i].load {
          ghost var t := vm.View();
          var done := LoadSegment(root, segs[i], file);
          UndisturbedTransitive(s, t, vm.View(), root);
          if !done {
            return false;
          }
          OneSegmentMore(s, t, vm.View(), root, segs, file, i);
        } else {
          SkippedSegment(s, vm.View(), root, segs, file, i);
        }
      }
      return true;
    }
  }

  lemma StartUndisturbed(s: State, root: nat)
    ensures Undisturbed(s, s, root)
  {
  }

  lemma StartLoading(s: State, root: nat, seg: Segment, file: seq<Byte>)
    requires Private(s, root) && seg.offset + seg.filesz <= |file|
    ensures LoadedPages(s, s, root, seg, file, 0)
  {
  }

  lemma LoadingFacts(s: State, t: State, root: nat, seg: Segment, file: seq<Byte>, k: nat)
    requires seg.offset + seg.filesz <= |file| && LoadedPages(s, t, root, seg, file, k)
    ensures Undisturbed(s, t, root) && Private(t, root) && IsRoot(t.tables, root)
  {
  }

  lemma AddedFacts(s: State, t: State, root: nat, p: nat, flags: nat)
    requires PageAdded(s, t, root, p, flags)
    ensures PageLeaf(t.mem, root, p).Some?
    ensures var c := FrameOf(PageLeaf(t.mem, root, p).value); c < |t.mem| && c !in t.free && c !in t.tables
  {
  }
}
