/** One concrete input for each place where the code does not do what is meant. */
module Departures {
  import opened Bits
  import opened Screen
  import opened TerminalSpec
  import opened LineEditing
  import opened PageTables
  import AddressSpaces
  import Processes
  import Fork
  import ElfLoader
  import Framebuffer
  import RamFs
  import Ext2
  import Ext2Paths
  import Sgr
  import TerminalLaws
  import opened TerminalSafety

  // ---- memory -----------------------------------------------------------------------------------

  /** Frame 5, mapped present and no-execute, is reported 2^63 bytes too high. */
  lemma NoExecuteTranslation(m: Memory, root: nat)
    requires Leaf(m, root, 0x40_0000) == Some(PTE_NX + 0x5001)
    ensures Translate(m, root, 0x40_0000) == PTE_NX + 0x5000 && HardwareAddress(PTE_NX + 0x5001, 0x40_0000) == 0x5000
  {
    hide Leaf, PageBits;
    assert PTE_NX % 4096 == 0 && (PTE_NX + 0x5000) % 4096 == 0;
    PageBitsOfSum(PTE_NX + 0x5000, 1);
  }

  /** A page that the parent may write below its stack is read-only in the child. */
  lemma ChildLosesWrite(s: AddressSpaces.State, t: AddressSpaces.State, parent: nat, child: nat)
    requires Fork.Forked(s, t, parent, child) && Processes.PageLeaf(s.mem, parent, 0x600) == Some(0x100_0007)
    ensures Processes.PageRights(s.mem, parent, 0x600) == Processes.Rights(true, true, true)
    ensures Processes.PageRights(t.mem, child, 0x600) == Processes.Rights(false, true, true)
  {
    hide Lookup, Processes.Allowed, Processes.FrameOf, Shape;
    assert Fork.Copied(s, t, parent, child, 0x600);
    Fork.ChildRights(s, t, parent, child, 0x600);
    Processes.LeafDecides(s.mem, s.tables, parent, 4096 * 0x600);
    Processes.EntryRights(0x1000, 7);
  }

  /** Two bytes at 0x400fff: the second one's page is never mapped. */
  lemma UnalignedSegment()
    ensures var seg := ElfLoader.Segment(true, 0x40_0FFF, 2, 2, 0, false, true);
            ElfLoader.Holds(seg, 0x40_1000) && ElfLoader.Visits(seg, 0x400) && !ElfLoader.Visits(seg, 0x401)
  {
    var seg := ElfLoader.Segment(true, 0x40_0FFF, 2, 2, 0, false, true);
    assert ElfLoader.PageCount(seg) == 1;
    assert (seg.vaddr + 0 * 4096) / 4096 == 0x400;
  }

  /** Of two one-byte segments next to each other the second one's page takes the first one's byte away. */
  lemma SharedPage(s: AddressSpaces.State, t: AddressSpaces.State, root: nat)
    requires var segs := Neighbours(); ElfLoader.Loaded(s, t, root, segs, [0x41, 0x42], |segs|)
    ensures ElfLoader.ByteAt(Neighbours()[0], [0x41, 0x42], 0x40_0000) == 0x41
    ensures var page := Processes.PageContent(t.mem, root, 0x400); page.Some? && page.value[0] == 0
  {
    hide ElfLoader.Loaded, Processes.PageContent;
    ElfLoader.ByteShownIff(s, t, root, Neighbours(), [0x41, 0x42], 0, 0x40_0000);
    ElfLoader.ByteShownIff(s, t, root, Neighbours(), [0x41, 0x42], 1, 0x40_0000);
  }

  function Neighbours(): (segs: seq<ElfLoader.Segment>)
    ensures ElfLoader.InFile(segs, [0x41, 0x42])
  {
    [ElfLoader.Segment(true, 0x40_0000, 1, 1, 0, false, true), ElfLoader.Segment(true, 0x40_0001, 1, 1, 1, false, true)]
  }

  // ---- screens ------------------------------------------------------------------------------------

  /** A character on a screen of black and white. */
  function Shown(c: Byte): Cell {
    Cell(c, 7, 0)
  }

  /** A screen with these cells, no saved state, and scrolling off, as while a control function runs. */
  function Small(cols: nat, rows: nat, cells: seq<Cell>, cursor: Cursor, bottom: nat): Screen {
    Screen(cols, rows, cells, cursor, 7, 0, Saved(Cursor(0, 0), 7, 0), 0, bottom, false, true)
  }

  /** "ab" written on a screen of two columns leaves a wrap pending; EL 0 then keeps the b and blanks the c below. */
  lemma PendingEraseLine()
    ensures var s := Small(2, 2, [Shown(0x61), Shown(0x62), Shown(0x63), Shown(0x64)], Cursor(2, 0), 2);
            LineErased(s, CursorSeen(s), 0).cells == [Shown(0x61), Shown(0x62), Shown(0x20), Shown(0x64)]
  {
    var s := Small(2, 2, [Shown(0x61), Shown(0x62), Shown(0x63), Shown(0x64)], Cursor(2, 0), 2);
    assert CharsPut(s, 0x20, 1) == CharPut(CharsPut(s, 0x20, 0), 0x20);
  }

  /** ED 0 on the same screen keeps the b too. */
  lemma PendingEraseDisplay()
    ensures var s := Small(2, 2, [Shown(0x61), Shown(0x62), Shown(0x63), Shown(0x64)], Cursor(2, 0), 2);
            Erased(s, CursorSeen(s), 0).cells == [Shown(0x61), Shown(0x62), Shown(0x20), Shown(0x20)]
  {
    var s := Small(2, 2, [Shown(0x61), Shown(0x62), Shown(0x63), Shown(0x64)], Cursor(2, 0), 2);
    var t := CharsPut(s, 0x20, 1);
    assert t == CharPut(CharsPut(s, 0x20, 0), 0x20);
    assert CharsPut(s, 0x20, 2) == CharPut(t, 0x20);
    assert CharsPut(s, 0x20, 3) == CharPut(CharsPut(s, 0x20, 2), 0x20);
  }

  /** ED 0 from the top of a screen of one column and two rows never gets to the second row. */
  lemma TallEraseDisplay()
    ensures var s := Small(1, 2, [Shown(0x61), Shown(0x62)], Cursor(0, 0), 2);
            Erased(s, CursorSeen(s), 0).cells == [Shown(0x20), Shown(0x62)]
  {
    var s := Small(1, 2, [Shown(0x61), Shown(0x62)], Cursor(0, 0), 2);
    assert CharsPut(s, 0x20, 1) == CharPut(CharsPut(s, 0x20, 0), 0x20);
    assert CharsPut(s, 0x20, 2) == CharPut(CharsPut(s, 0x20, 1), 0x20);
  }

  /** ED 0 from the end of the region's last row does not get to the row below the region. */
  lemma MarginEraseDisplay()
    ensures var a := Shown(0x61);
            var s := Small(3, 3, [a, a, a, a, a, a, a, a, a], Cursor(2, 1), 2);
            ScreenOk(s) && Erased(s, CursorSeen(s), 0).cells == [a, a, a, a, a, Shown(0x20), a, a, a]
  {
    var a := Shown(0x61);
    var s := Small(3, 3, [a, a, a, a, a, a, a, a, a], Cursor(2, 1), 2);
    var t := CharsPut(s, 0x20, 1);
    assert t == CharPut(CharsPut(s, 0x20, 0), 0x20);
    assert CharsPut(s, 0x20, 2) == CharPut(t, 0x20);
    assert CharsPut(s, 0x20, 3) == CharPut(CharsPut(s, 0x20, 2), 0x20);
    assert CharsPut(s, 0x20, 4) == CharPut(CharsPut(s, 0x20, 3), 0x20);
  }

  /** ED 1 on the second row of one column leaves the cursor's own cell. */
  lemma TallEraseToCursor()
    ensures var s := Small(1, 2, [Shown(0x61), Shown(0x62)], Cursor(0, 1), 2);
            Erased(s, CursorSeen(s), 1).cells == [Shown(0x20), Shown(0x62)]
  {
    var s := CursorSet(Small(1, 2, [Shown(0x61), Shown(0x62)], Cursor(0, 1), 2), 0, 0);
    assert CharsPut(s, 0x20, 1) == CharPut(CharsPut(s, 0x20, 0), 0x20);
    assert CharsPut(s, 0x20, 2) == CharPut(CharsPut(s, 0x20, 1), 0x20);
  }

  /** EL 1 leaves the cursor's own cell. */
  lemma EraseLineToCursor()
    ensures var s := Small(2, 1, [Shown(0x61), Shown(0x62)], Cursor(1, 0), 1);
            LineErased(s, CursorSeen(s), 1).cells == [Shown(0x20), Shown(0x62)]
  {
    var s := CursorSet(Small(2, 1, [Shown(0x61), Shown(0x62)], Cursor(1, 0), 1), 0, 0);
    assert CharsPut(s, 0x20, 1) == CharPut(CharsPut(s, 0x20, 0), 0x20);
  }

  /** ECH 2 in the last column blanks the first cell of the next row. */
  lemma EraseCharactersRunOn()
    ensures var s := Small(2, 2, [Shown(0x61), Shown(0x62), Shown(0x63), Shown(0x64)], Cursor(1, 0), 2);
            CharsErased(s, CursorSeen(s), 2).cells == [Shown(0x61), Shown(0x20), Shown(0x20), Shown(0x64)]
  {
    var s := Small(2, 2, [Shown(0x61), Shown(0x62), Shown(0x63), Shown(0x64)], Cursor(1, 0), 2);
    var t := CharsPut(s, 0x20, 1);
    assert t == CharPut(CharsPut(s, 0x20, 0), 0x20);
    assert CharsPut(s, 0x20, 2) == CharPut(t, 0x20);
  }

  /** ICH 0 blanks the cursor's cell. */
  lemma InsertNothing()
    ensures var s := Small(1, 1, [Shown(0x61)], Cursor(0, 0), 1);
            Inserted(s, 0, 0, 0, 0).cells == [Shown(0x20)]
  {
  }

  /** DCH 2 in the last column blanks the cell before the cursor. */
  lemma DeletePastEnd()
    ensures var s := Small(2, 1, [Shown(0x61), Shown(0x62)], Cursor(1, 0), 1);
            Deleted(s, CursorSeen(s), 2).cells == [Shown(0x20), Shown(0x20)]
  {
    var s := Small(2, 1, [Shown(0x61), Shown(0x62)], Cursor(1, 0), 1);
    assert PulledLeft(s, 0, 2, 3) == s;
    var u := CursorSet(s, 0, 0);
    var t := CharsPut(u, 0x20, 1);
    assert t == CharPut(CharsPut(u, 0x20, 0), 0x20);
    assert CharsPut(u, 0x20, 2) == CharPut(t, 0x20);
  }

  /** DL 1 on the second row removes the first. */
  lemma DeleteLineAtTop()
    ensures var s := Small(1, 2, [Shown(0x61), Shown(0x62)], Cursor(0, 1), 2);
            Edited(s, [1, 1], 1, 0x4D).cells == [Shown(0x62), Shown(0x20)]
  {
    var s := Small(1, 2, [Shown(0x61), Shown(0x62)], Cursor(0, 1), 2);
    assert ScrolledTimes(s, 1) == Scrolled(ScrolledTimes(s, 0));
  }

  /** CHA 0 goes to the last of two columns. */
  lemma ColumnZero()
    ensures var s := Small(2, 1, [Shown(0x61), Shown(0x62)], Cursor(0, 0), 1);
            Moved(s, [0, 1], Cursor(0, 0), 0x47).cursor == Cursor(1, 0)
  {
  }

  /** IL 1 on the row below the region blanks that row. */
  lemma InsertLineBelow()
    ensures var s := Small(1, 3, [Shown(0x61), Shown(0x62), Shown(0x63)], Cursor(0, 2), 2);
            ScreenOk(s) && Edited(s, [1, 1], 1, 0x4C).cells == [Shown(0x61), Shown(0x62), Shown(0x20)]
  {
    var s := Small(1, 3, [Shown(0x61), Shown(0x62), Shown(0x63)], Cursor(0, 2), 2);
    var from := s.(top := 2);
    assert RevScrolledTimes(from, 1) == RevScrolled(RevScrolledTimes(from, 0));
  }

  /** From the row just below a region of two rows, CUD 1 goes up. */
  lemma DownGoesUp()
    ensures var s := Small(1, 3, [Shown(0x61), Shown(0x62), Shown(0x63)], Cursor(0, 2), 2);
            ScreenOk(s) && DownTarget(s, 2, 1) == 1
  {
  }

  /** A wrap on the last of three rows, with the margin above it, goes to row 3. */
  lemma WrapLeavesGrid()
    ensures var s := Small(4, 3, seq(12, _ => Shown(0x61)), Cursor(4, 2), 2).(scrollEnabled := true);
            ScreenOk(s) && CharPut(s, 0x62).cursor.y == 3
  {
  }

  /** A full refresh over a pending write of b, then a write of c: the flush shows b. */
  lemma RefreshShowsOld()
    ensures var b := Framebuffer.QueueItem(0, 0, Shown(0x62));
            var c := Framebuffer.QueueItem(0, 0, Shown(0x63));
            var d := Framebuffer.Buffers(2, [Shown(0x62), Shown(0x61)], [b, c], [Some(1), None], 2);
            Framebuffer.SpotsInRange(d, 2) &&
            Framebuffer.Committed(d, 0, Framebuffer.Drawing(d.grid, d.map_, d.grid)).grid == [Shown(0x62), Shown(0x61)]
  {
    var b, c := Framebuffer.QueueItem(0, 0, Shown(0x62)), Framebuffer.QueueItem(0, 0, Shown(0x63));
    var d := Framebuffer.Buffers(2, [Shown(0x62), Shown(0x61)], [b, c], [Some(1), None], 2);
    var e := Framebuffer.Drawing(d.grid, d.map_, d.grid);
    var f := Framebuffer.CommittedOne(d, 0, e);
    assert Framebuffer.CommittedOne(d, 1, f) == f;
    assert Framebuffer.Committed(d, 2, f) == f && Framebuffer.Committed(d, 1, f) == f;
  }

  /** Intensity under reverse video with the default colours: the bright default background, not foreground, is set. */
  lemma IntensityOtherSide(p: Sgr.Palette)
    requires Sgr.PaletteOk(p) && p.defaultFgBright == 15 && p.defaultBgBright == 8
    ensures Sgr.One(p, Sgr.Colours(0, 7, false, false, true, -1, -1), 1).bg == 8
    ensures Sgr.One(p, Sgr.Colours(7, 0, false, false, false, -1, -1), 1).fg == 15
  {
  }

  /** Palette colour 1 as foreground, chosen under reverse video, is the background once that is off. */
  lemma ExtendedOtherSide(p: Sgr.Palette)
    requires Sgr.PaletteOk(p)
    ensures Sgr.Params(p, Sgr.Initial(p), [7, 38, 5, 1, 27]).bg == p.ansi[1]
    ensures Sgr.Params(p, Sgr.Initial(p), [38, 5, 1]).fg == p.ansi[1]
  {
    var c := Sgr.One(p, Sgr.Initial(p), 7);
    assert [7, 38, 5, 1, 27][1..] == [38, 5, 1, 27] && [38, 5, 1, 27][3..] == [27] && [27][1..] == [];
    assert [38, 5, 1][3..] == [];
    assert Sgr.Params(p, c, [38, 5, 1, 27]) == Sgr.Params(p, Sgr.Indexed(p, c, true, 1), [27]);
    assert Sgr.Params(p, Sgr.Indexed(p, c, true, 1), [27]) == Sgr.One(p, Sgr.Indexed(p, c, true, 1), 27);
  }

  /** A command that sets the title `hi` leaves the i on the screen. */
  lemma CommandSpills(k: Config, t: Term)
    requires Ok(k, t) && TerminalLaws.Ground(t.p) && t.s.cursor.x < t.s.cols
    ensures Feed(k, t, [0x1B, 0x5D] + [0x68, 0x69] + [0x07]).s != t.s
  {
    hide Feed;
    TerminalLaws.CommandHiddenIff(k, t, [0x68, 0x69]);
  }

  // ---- files ------------------------------------------------------------------------------------------

  /** From an empty pool: a file of 300 bytes in a buffer of 600 and, behind it, one that holds an A. */
  method TwoFiles(fs: RamFs.RamFs, half: seq<Byte>)
    requires fs.Valid() && fs.files == [] && fs.used == 0 && |half| == 300
    modifies fs, fs.pool
    ensures fs.Valid() && |fs.files| == 2 && fs.files[0].data == Some(256) && fs.files[1].data == Some(856)
    ensures var s := fs.View();
            s.entries[0].isFile && s.entries[0].capacity == 600 && |s.entries[0].bytes| == 300
            && s.entries[1].bytes == [0x41]
  {
    hide RamFs.Outcome, RamFs.Written, RamFs.Bytes;
    var i := fs.CreateFile([0x61]);
    ghost var s := fs.View();
    assert s == RamFs.Store([RamFs.Entry([0x61], [], 256, true)], 256);
    var n := fs.Write(0, 0, half);
    assert fs.View() == RamFs.Wrote(s, 0, 0, half);
    var j := fs.CreateFile([0x62]);
    s := fs.View();
    assert s.entries[1] == RamFs.Entry([0x62], [], 256, true);
    n := fs.Write(1, 0, [0x41]);
    assert fs.View() == RamFs.Wrote(s, 1, 0, [0x41]);
  }

  /** Filling the first of them makes that A a NUL. */
  method TerminatorSpills(fs: RamFs.RamFs, half: seq<Byte>)
    requires fs.Valid() && fs.files == [] && fs.used == 0 && |half| == 300
    modifies fs, fs.pool
    ensures fs.Valid() && |fs.files| == 2 && fs.View().entries[1].bytes == [0]
  {
    hide RamFs.Written, RamFs.Damages, RamFs.Bytes;
    TwoFiles(fs, half);
    RamFs.SizesAgree(fs.pool[..], fs.files, fs.used);
    var n := fs.Write(0, 300, half);
  }

  /** In an empty pool: a file, a write that makes it grow to the pool's end, and one that fills it. The last
      terminator lands on the byte after the pool. */
  method LeavesPoolRun(fs: RamFs.RamFs, name: seq<Byte>, half: seq<Byte>)
    requires fs.Valid() && fs.files == [] && fs.used == 0 && |half| == 32640
    modifies fs, fs.pool
    ensures fs.Valid() && fs.pool[RamFs.POOL_SIZE] == 0
  {
    hide RamFs.Outcome, RamFs.Written;
    assert RamFs.Opened(fs.View(), name) == None;
    var i := fs.CreateFile(name);
    ghost var s := fs.View();
    assert s.entries == [RamFs.Entry(RamFs.Kept(name), [], 256, true)];
    var n := fs.Write(0, 0, half);
    assert fs.View() == RamFs.Wrote(s, 0, 0, half);
    assert |RamFs.Written([], 0, half)| == 32640;
    n := fs.Write(0, 32640, half);
  }

  /** `./` followed by thirty characters is kept with twenty-nine of them and not found again. */
  lemma LongDotName()
    ensures var name: seq<Byte> := [0x2E, 0x2F] + seq(30, _ => 0x61);
            !RamFs.Matches(RamFs.Kept(name), name)
  {
    var name: seq<Byte> := [0x2E, 0x2F] + seq(30, _ => 0x61);
    assert |RamFs.Stripped(RamFs.Kept(name))| == 29 && |RamFs.Kept(RamFs.Stripped(name))| == 30;
    assert RamFs.Kept(name)[0] == 0x2E && RamFs.Kept(RamFs.Stripped(name))[0] == 0x61;
    assert |RamFs.Kept(name)| == 31 && |name| == 32;
  }

  /** An unused entry in front of a file hides it. */
  lemma UnusedHides()
    ensures var es := [Ext2Paths.DirEntry(0, [], 0, []), Ext2Paths.DirEntry(12, [0x61], 1, [])];
            Ext2Paths.Match(es, [0x61]) == Some(12) && Ext2Paths.Match(Ext2Paths.BeforeUnused(es), [0x61]) == None
  {
    var es := [Ext2Paths.DirEntry(0, [], 0, []), Ext2Paths.DirEntry(12, [0x61], 1, [])];
    assert es[1..] == [es[1]];
    assert Ext2Paths.Match(es[1..], [0x61]) == Some(12);
  }

  /** A socket passes for a directory. */
  lemma SocketIsDirectory(n: Ext2.Inode)
    requires n.mode == 0xC000
    ensures Ext2Paths.IsDirectory(n) && Ext2Paths.Format(n.mode) != 4
  {
    hide Ext2Paths.IsDirectory;
    assert Ext2Paths.Format(0xC000) == 12;
    Ext2Paths.IsDirectoryIff(n);
  }

  /** Of an image of eight gigabytes with blocks of 4096 bytes, block 0 is read for block 2^20. */
  lemma FarBlock()
    ensures Ext2.BlockOffset(0x2_0000_0000, 4096, 0x20_0000, 0x10_0000) == Some(0)
  {
  }
}
