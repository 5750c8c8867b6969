# ppoOS kernel model

A Dafny model of the stateful parts of a small x86-64 kernel, with proofs that their intricate
implementations keep simple meanings.

**Memory.** `FrameAllocator` is the bitmap of 4 KiB frames with its wrapping next-fit scan; its meaning is
a set of free frames. `PageTables` gives the meaning of the 4-level tables (Intel SDM volume 3A, section
4.5): per address space a partial map from pages to leaf entries, read off a forest of table frames in
physical memory. `AddressSpaces` is the code that creates address spaces, maps, unmaps and translates,
on the same physical memory and allocator; the forest invariant says that no table is shared, free or a
data frame. `Processes`, `Fork`, `ElfLoader` and `UserStack` build on it: what a process sees, what a
fork copies, which image the loader produces (System V gABI chapter 5), how the stack comes and goes.

**Terminal.** `Screen` is a plain array of cells with a cursor. `Framebuffer` is the lazy backend: cells last
drawn, a queue of pending writes, a map from cells to pending writes. `TerminalSpec` is the byte-driven
escape, control sequence (ECMA-48 section 5.4), OSC, UTF-8 (RFC 3629 section 3) and character-set
machine as a function of state and byte, with `Sgr` for colours; `TerminalSafety`, `TerminalLaws`,
`TextFlow`, `CursorLaws`, `BlankRuns`, `LineEditing`, `RegionEditing` and `SavedState` prove what holds of it. `ControlFunctions` and
`Terminal` are the code that updates one context in place, proved equal to that function; `CodePoints` is the
width table's binary search.

**Files.** `RamFs` is the in-memory file system in its 64 KiB pool, `Descriptors` the open-file table with
open, read and close, `Cpio` the initial archive's parser with the New ASCII Format's encoder as
specification, `Boot` the way from that archive to open files, `Ext2` and `Ext2Paths` the reader of ext2
images, `Tokenizer` the string library's strtok_r.

`Bits` and `Arithmetic` hold bitwise operators on natural numbers and facts about division and products.
Mutable entities are classes; each method's contract equates the new state with a function of the old
one or states the promised property outright, and the lemmas are about those functions.

## Where the code departs from what is promised

Each departure is a proved statement with its exact condition; `Departures` has a concrete input for most of them.

- A translation keeps bit 63, so a no-execute page does not translate to its frame
  (`PageTables.TranslateExactIff`, `TranslateNoExecute`); a program can be forked exactly when all pages its
  segments own below the stack are executable (`UserStack.LaunchedForkable`), because otherwise the copy reads
  beyond physical memory (`Fork.HighLeafLeavesMemory`).
- The child of a fork cannot write its data pages: rights are kept exactly when the parent writes nothing but its
  stack (`Fork.ForkKeepsRightsIff`, `UserStack.LaunchedForkRightsIff`).
- The loader steps by offset, not by page: the last page of an unaligned segment can stay unmapped
  (`ElfLoader.AllPagesVisitedIff`, `FlatImage`). Segments that share a page overwrite each other
  (`LastSegmentWins`, `SegmentShownIff`).
- The cursor row is clamped against the column count: with more columns than rows a wrap can leave the
  grid (`TerminalSafety.RowEscapes`), with fewer a run of blanks cannot reach the last row
  (`LineEditing.ClampProtectsLastRow`).
- After a character in the last column a wrap is pending and the erasing functions start with it: EL 0 and ED 0
  leave the row's last character, and EL 0 blanks the next row's first (`LineEditing.EraseLineEndIff`,
  `EraseLineEndGuard`, `EraseToEndIff`, `EraseToEndGuard`). ED 0 and ED 1 also stop at the bottom margin and,
  with more rows than columns, at the clamp (`EraseToEndIff`, `EraseToCursorIff`).
- ECH runs on into the next row (`LineEditing.EraseCharactersIff`); ICH 0 blanks the rest of the row
  (`InsertIsShiftIff`); EL 1 leaves the cursor's own cell (`EraseLineStartIff`); insert mode does not
  move the row for a multi-byte character (`InsertCodePointIff`).
- Deleting past the end of the row also disturbs cells before the cursor (`LineEditing.DeleteIsShiftIff`), and
  deleting more than a row's worth blanks a whole row, or runs on into the next (`DeleteBeyondIff`).
- Deleting lines scrolls from the top margin instead of the cursor (`RegionEditing.DeleteLinesIff`); inserting
  lines from the bottom margin down blanks the cursor's row (`InsertLinesBelowIff`); moving down from the row
  just below the margin jumps up into the region (`CursorDownMeaning`).
- VPA 0 and CHA 0 go to the last row and column instead of the first (`CursorLaws.NumberZeroIff`).
- CAN and SUB leave a `?` in force, which makes the next sequence DEC-private and so, unless it ends in h or l,
  void (`TerminalLaws.CancelLeavesPrivate`, `SequenceAsPrintedIff`, `SequenceSwallowed`, `CursorPositionWorks`).
- `ESC c` under reverse video leaves the colours swapped (`TerminalLaws.ResetKeepsReverseIff`); intensity changes
  under reverse video pick the other side's default colour (`Sgr.IntensityCommutesIff`), and extended colours take
  no notice of it (`ExtendedCommutesIff`).
- Overlong forms of two bytes are taken for characters (`TerminalLaws.TwoBytes`).
- An operating system command ends at its first byte, the rest of it is printed (`TerminalLaws.CommandEnds`,
  `CommandHiddenIff`).
- A full refresh is safe only if the cursor's cell has no pending write and the cursor has not moved
  (`Framebuffer.Framebuffer.FullRefresh`); otherwise the next write to that cell is lost, unless the cursor is drawn
  there at the next flush (`RefreshLosesWrite`).
- A file write that ends exactly where its buffer does puts its terminator on the neighbour's first byte, or on
  the byte after the pool (`RamFs.RamFs.Write`: `Damages`, `LeavesPool`). A file created under no name, or under a
  long one that starts with `./`, is not found again (`CreatedIsFoundIff`).
- A directory scan stops at the first unused entry of a block instead of skipping it
  (`Ext2Paths.ScanIsMatchIff`, `LookupIsMatchIff`); block devices and sockets pass for directories (`IsDirectoryIff`); a block beyond
  four gigabytes is read from elsewhere (`Ext2.OwnBlockIff`).

## Model

| member | source | states |
|---|---|---|
| FrameAllocator.FrameAllocator.SetBit | kernel/src/src/vmm.c:38-40 | the shift-and-or makes exactly that one bit of the bitmap used; every other bit keeps its state |
| FrameAllocator.FrameAllocator.UnsetBit | kernel/src/src/vmm.c:42-44 | the complemented mask frees exactly that one bit |
| FrameAllocator.FrameAllocator.TestBit | kernel/src/src/vmm.c:46-48 | reports the bit, through the masked byte |
| FrameAllocator.FrameAllocator.AllocFrame | kernel/src/src/vmm.c:200-223 | the scan hands out the frame the next-fit specification picks and takes exactly that frame from the free set; 0 leaves everything as it was |
| FrameAllocator.FrameAllocator.FreeFrame | kernel/src/src/vmm.c:226-254 | exactly the frame at that address becomes free; misaligned addresses and those at or above the highest known one are ignored |
| FrameAllocator.FrameAllocator.Init | kernel/src/src/vmm.c:70-196 | afterwards the free frames are exactly the frames lying wholly inside usable entries and touching neither the kernel's nor the bitmap's range |
| FrameAllocator.FrameAllocator.ReleaseEntry | kernel/src/src/vmm.c:95-120 | one usable entry frees its whole frames, no partial ones, and nothing else |
| FrameAllocator.CoversIff | kernel/src/src/vmm.c:99-102 | an entry covers a frame if and only if it is usable and has every byte of the frame |
| FrameAllocator.FrameAllocator.MarkRange | kernel/src/src/vmm.c:157-189 | every frame a byte range touches becomes used, no other changes |
| FrameAllocator.TouchesIff | kernel/src/src/vmm.c:148-149 | a frame touches a range if and only if they share a byte |
| FrameAllocator.SaneSpan | kernel/src/src/vmm.c:139-143 | the linker's span is taken as it is if it is between 1 byte and 512 MiB; else 16 MiB |
| FrameAllocator.ReservedBytes | kernel/src/src/vmm.c:136-189 | so after init no byte of the kernel or of the bitmap lies in a free frame, given such a span |
| FrameAllocator.NextFitSound | kernel/src/src/vmm.c:206-218 | whatever the wrapping scan returns is free and at or above 1 MiB |
| FrameAllocator.NextFitComplete | kernel/src/src/vmm.c:206-222 | the scan returns nothing if and only if no free frame lies at or above 1 MiB, since the modular probes reach every index |
| FrameAllocator.NextFitIsNext | kernel/src/src/vmm.c:206-218 | what it returns is the next free frame from where the last scan ended, or the first of all if there is none |
| FrameAllocator.ProbeOf | kernel/src/src/vmm.c:206-208 | for every index there is a probe of the scan that examines it |
| FrameAllocator.StepSound | kernel/src/src/vmm.c:200-254 | one allocation or legal free keeps free and outstanding frames a partition of the managed ones, and an allocation never returns a live or low frame |
| FrameAllocator.AfterFreeMeans | kernel/src/src/vmm.c:226-254 | freeing gives back exactly the frame at that address if it is aligned and below the highest known one, else nothing |
| FrameAllocator.ReusedLastIff | kernel/src/src/vmm.c:200-223 | a frame freed as soon as it was handed out is handed out again at once if and only if there is no other |
| FrameAllocator.EveryRunIsSound | kernel/src/src/vmm.c:200-254 | the same after every prefix of every run in which only outstanding frames are freed; a failed allocation means exhaustion |
| PageTables.MasksAreRemainders | kernel/src/src/vmm.h:8-20 | the kernel's page mask, present test and offset mask are the remainders the model computes with, for every 64-bit entry |
| PageTables.StoreWordEntries | kernel/src/src/vmm.c:339-382 | storing one little-endian entry changes that entry only |
| PageTables.OrLow | kernel/src/src/vmm.c:339-341 | or-ing flag bits into an aligned address is addition |
| PageTables.IndicesIdentifyPage | kernel/src/src/vmm.c:322-325 | two lower-half addresses have the same four table indices if and only if they are in the same page |
| PageTables.TranslationsReadTables | kernel/src/src/vmm.c:429-458 | memory that agrees on the table frames translates every address in every address space alike |
| PageTables.HangKeepsTranslations | kernel/src/src/vmm.c:333-372 | linking a zeroed frame into an absent entry keeps the tables a forest and changes no translation of any address space |
| PageTables.BottomHasOnePath | kernel/src/src/vmm.c:429-458 | in a forest a last-level table is reached from one root and for one two-megabyte range only |
| PageTables.WriteLeafChangesOnePage | kernel/src/src/vmm.c:374-427 | writing one leaf entry changes the translation of exactly one page of one address space |
| PageTables.TranslateExactIff | kernel/src/src/vmm.c:429-458 | the reported physical address is the processor's if and only if the leaf's twelve highest bits are clear |
| PageTables.TranslateLowFlags | kernel/src/src/vmm.c:320-458 | mapping an aligned frame with flags below 4096 and translating gives that frame plus the page offset |
| PageTables.TranslateNoExecute | kernel/src/src/vmm.c:429-458 | a page mapped with the no-execute flag comes back with bit 63 set, never as its frame |
| AddressSpaces.VirtualMemory.FollowOrCreate | kernel/src/src/vmm.c:333-342 | one step down the tree follows a present entry or hangs a frame that was free; no translation changes; failure means no frame is left |
| AddressSpaces.VirtualMemory.WalkOrCreate | kernel/src/src/vmm.c:327-372 | three such steps reach the last-level table of the address, and only growth of the forest happens on the way |
| AddressSpaces.VirtualMemory.MapPage | kernel/src/src/vmm.c:320-393 | on success every translation of every address space is as before except that page's, which is `phys | flags`; on failure none changes and no frame at or above 1 MiB is left |
| AddressSpaces.VirtualMemory.UnmapPage | kernel/src/src/vmm.c:395-427 | exactly that page is gone from exactly that address space, and only table frames are written |
| AddressSpaces.VirtualMemory.GetPhysicalAddress | kernel/src/src/vmm.c:429-458 | the walk computes the translation the map specification gives, 0 when unmapped |
| AddressSpaces.VirtualMemory.CopyKernelHalf | kernel/src/src/vmm.c:306-312 | entries 256 to 511 repeat the kernel's present ones, entries 0 to 255 stay zero |
| AddressSpaces.VirtualMemory.CreateAddressSpace | kernel/src/src/vmm.c:276-317 | the new root was free, has an empty lower half and the kernel's upper half; no existing translation changes; failure means exhaustion |
| AddressSpaces.HangExtends | kernel/src/src/vmm.c:333-342 | taking a free frame, zeroing it and linking it keeps the whole memory invariant: tables form a forest, are never free and never shared |
| AddressSpaces.ExtendsTransitive | kernel/src/src/vmm.c:327-372 | growth of the table forest composes over any number of steps |
| Processes.StepUndisturbed | kernel/src/src/syscall.c:516-558 | allocate, fill and map (or fail to map) one page of one process: every other address space keeps its translations and every live frame its content |
| Processes.GiveBack | kernel/src/src/syscall.c:551-557 | after a failed mapping, freeing the frame restores the free set that the growth of the tables left |
| Processes.WriteKeepsLeaves | kernel/src/src/syscall.c:533-537 | storing into a frame that is no page table changes no translation of any process |
| Processes.EntryRights | kernel/src/src/vmm.c:339-382 | what an entry allows is what its flags say, whatever its frame |
| Processes.LeafDecides | kernel/src/src/vmm.c:333-382 | every table entry above a page allows everything, so what the processor allows there is what the leaf says |
| Fork.Forker.CloneFrame | kernel/src/src/syscall.c:525-537 | a frame that was free, now holding byte for byte what the source frame holds |
| Fork.HighLeafLeavesMemory | kernel/src/src/syscall.c:516-537 | a mapped page whose leaf has any of its twelve top bits set makes the fork loop copy from beyond physical memory |
| Fork.ForkableIff | kernel/src/src/syscall.c:516-537 | a process can be forked if and only if every page the loop copies has its source inside physical memory |
| Fork.Forker.CopyPage | kernel/src/src/syscall.c:516-558 | one round: a mapped page is copied to a frame of its own, an unmapped one skipped, a failed one undone; it fails only when at most one frame is left |
| Fork.Forker.Fork | kernel/src/src/syscall.c:454-603 | success gives the next pid and a child whose pages below 0x80000000 are exactly the parent's, equal in content, in frames nobody used before; failure means that at most one frame is left; in every outcome no translation of any existing process changes and every frame taken is a page table or holds a page of the child |
| Fork.ForkMirrors | kernel/src/src/syscall.c:516-558 | after a fork parent and child see the same bytes at every page, and they are the bytes the parent saw before |
| Fork.ChildRights | kernel/src/src/syscall.c:540-550 | the child may execute all its pages and write exactly those of its stack |
| Fork.ForkKeepsRightsIff | kernel/src/src/syscall.c:540-550 | forking keeps the parent's rights if and only if the parent may execute all its pages and write exactly those of its stack |
| Fork.ChildWritesStayPrivate | kernel/src/src/syscall.c:516-558 | a store into any page of the child is seen by the child at that page and nowhere else in either process |
| Fork.ParentWritesStayPrivate | kernel/src/src/syscall.c:516-558 | a store into any page of the parent is never seen by the child |
| ElfLoader.ImageBytes | kernel/src/src/exec.c:162-201 | the first filesz bytes of a segment are the file's, those up to memsz are zeros, and so is the rest of its pages |
| ElfLoader.AllPagesVisitedIff | kernel/src/src/exec.c:124-132 | the loop that steps by offset reaches every page of a segment if and only if the start's page offset plus that of the last byte stays below a page |
| ElfLoader.VisitedPagesBelong | kernel/src/src/exec.c:124-132 | every page the loop reaches holds a byte of the segment |
| ElfLoader.Loader.AddPage | kernel/src/src/exec.c:140-160 | a frame that was free is mapped at the page with the flags, or given back when mapping fails; nothing else changes; it fails only when at most one frame is left |
| ElfLoader.Loader.SegmentPage | kernel/src/src/exec.c:162-201 | the zeroing and copy-range arithmetic produces exactly the image the file prescribes for that page |
| ElfLoader.Loader.LoadPage | kernel/src/src/exec.c:131-207 | one page more of the segment is loaded, earlier ones stay |
| ElfLoader.Loader.LoadSegment | kernel/src/src/exec.c:108-207 | the pages the loop reaches hold the segment's image in private frames, and no other page of any process changes; it fails only when at most one frame is left |
| ElfLoader.Loader.LoadSegments | kernel/src/src/exec.c:101-208 | after all headers each page holds the image of the last segment whose loop reaches it, or is as before; it fails only when at most one frame is left |
| ElfLoader.LastSegmentWins | kernel/src/src/exec.c:101-208 | where segments share a page the last one decides all of its bytes, also those an earlier segment had put there |
| ElfLoader.LoadedRights | kernel/src/src/exec.c:149-152 | and what the process may do with the page: user mode may reach it, write it if and only if that segment is writable, execute it if and only if that segment is executable |
| ElfLoader.ByteShownIff | kernel/src/src/exec.c:101-208 | a byte of a page a segment's loop reaches is in memory as that segment has it if and only if the last segment to reach the page has the same byte there |
| ElfLoader.SegmentShownIff | kernel/src/src/exec.c:101-208 | so a segment is in memory as its own image on all these pages if and only if the last segments to reach them agree with it there |
| ElfLoader.FlatImage | kernel/src/src/exec.c:101-208 | for page-disjoint segments every byte of a mapped page is the file's byte or zero, and the segment is mapped in full if and only if its start offset and length leave no extra page |
| UserStack.Exec.MapStack | kernel/src/src/exec.c:211-236 | all eight stack pages get frames of their own; nothing else of any process changes; it fails only when at most one frame is left |
| UserStack.Exec.ReleaseStack | kernel/src/src/exec.c:261-272 | all eight pages are unmapped and exactly their frames are free again |
| UserStack.StackRoundTrip | kernel/src/src/exec.c:211-272 | mapping and releasing the stack gives back every frame but those that became tables, and leaves every other page of the process as it was |
| UserStack.Exec.Launch | kernel/src/src/exec.c:86-236 | a new process consists of exactly the loaded segments and the mapped stack, in a fresh address space started from the memory before the call; every other process keeps its translations and every frame that was in use its content; the stack can then be released; it fails only when at most one frame is left |
| UserStack.Exec.Execute | kernel/src/src/exec.c:86-272 | launch and release compose: the stack of what was launched is gone and its frames are free |
| UserStack.LaunchedImage | kernel/src/src/exec.c:101-236 | after the launch every byte of a page-disjoint segment below the stack is in memory as the file has it, unless its page was never reached |
| UserStack.LaunchedRights | kernel/src/src/exec.c:101-236 | a launched program has exactly the pages its segments reach and the stack; it may do with the former what the last segment to reach them says, and everything with the stack |
| UserStack.LaunchedForkRightsIff | kernel/src/src/syscall.c:540-550 | a launched program that forks passes its rights on if and only if no segment that owns a page below the stack is writable |
| UserStack.LaunchedForkable | kernel/src/src/syscall.c:516-558 | fork copies a launched program from inside physical memory only, which is all it needs, if and only if every page below the stack that a segment owns is executable |
| Screen.ScrollShiftsRows | kernel/src/src/flanterm_fb_backend.c:637-660 | scrolling moves the rows of the margin region up by one, blanks its last row and leaves all other rows |
| Screen.RevScrollShiftsRows | kernel/src/src/flanterm_fb_backend.c:609-635 | reverse scrolling moves them down by one, blanks the first and leaves all other rows |
| Screen.ScrollUndoesRevScroll | kernel/src/src/flanterm_fb_backend.c:609-660 | scrolling back after a reverse scroll restores every row but the region's last |
| Framebuffer.SpotsDistinct | kernel/src/src/flanterm_fb_backend.c:585-607 | queued cells are pairwise distinct |
| Framebuffer.RoomForOneMore | kernel/src/src/flanterm_fb_backend.c:596-604 | while some cell has no pending write the queue has room for it (pigeonhole), so its index never passes rows times columns |
| Framebuffer.OverwriteKeeps | kernel/src/src/flanterm_fb_backend.c:590-606 | a push to a mapped cell changes what that cell is going to show and keeps queue and map in correspondence |
| Framebuffer.AppendKeeps | kernel/src/src/flanterm_fb_backend.c:590-606 | so does a push that appends to the queue |
| Framebuffer.Framebuffer.constructor | kernel/src/src/flanterm_fb_backend.c:1127-1203 | the initial framebuffer is consistent, stands for the blank screen and displays it with the cursor inverted |
| Framebuffer.Framebuffer.PushToQueue | kernel/src/src/flanterm_fb_backend.c:585-607 | the view, pending write if any else grid, changes at that one cell as a plain array would; out-of-range pushes change nothing |
| Framebuffer.Framebuffer.Scroll | kernel/src/src/flanterm_fb_backend.c:637-660 | the cell-by-cell copy and blanking loops scroll the plain array |
| Framebuffer.Framebuffer.RevScroll | kernel/src/src/flanterm_fb_backend.c:609-635 | the downward loop with its unsigned exit test reverse-scrolls the plain array |
| Framebuffer.Framebuffer.Clear | kernel/src/src/flanterm_fb_backend.c:662-677 | every cell becomes blank in the current colours; the cursor goes home if asked |
| Framebuffer.Framebuffer.SetCursorPos | kernel/src/src/flanterm_fb_backend.c:679-698 | the clamp to the grid, with the signed reading of the low 32 bits |
| Framebuffer.Framebuffer.GetCursorPos | kernel/src/src/flanterm_fb_backend.c:700-705 | a pending wrap is reported as the last column |
| Framebuffer.Framebuffer.MoveCharacter | kernel/src/src/flanterm_fb_backend.c:707-726 | copies what a cell is going to show, pending or drawn |
| Framebuffer.Framebuffer.RawPutchar | kernel/src/src/flanterm_fb_backend.c:844-864 | wrap, scroll at the margin, clamp and write, as on the plain array, whose rows TextFlow.PutInRow and PutAcross give |
| TextFlow.PutInRow | kernel/src/src/flanterm_fb_backend.c:844-864 | a character with no wrap pending: its cell, the cursor one further, and no other row or cell |
| TextFlow.PutAcross | kernel/src/src/flanterm_fb_backend.c:844-864 | a character with a wrap pending: on the bottom margin the region's rows move up by one, elsewhere none do; the character comes first in the row the wrap goes to |
| TextFlow.TextFlows | kernel/src/src/flanterm_fb_backend.c:844-864 | text is written on an endless sheet, and the region shows the end of it, moved up no further than the text takes; rows outside the region stay |
| TextFlow.FedTextFlows | kernel/src/src/flanterm.c:1280-1354 | the same of ASCII text fed to the terminal, every character as itself in the colours in force |
| TextFlow.ShiftSelects | kernel/src/src/flanterm.c:1320-1327 | bytes 14 and 15 select G1 and G0 |
| TextFlow.SetsDesignated | kernel/src/src/flanterm.c:1268-1279 | ESC ( and ESC ) with B or 0 make the default or the line-drawing set G0 or G1 |
| TextFlow.LineGlyphs | kernel/src/src/flanterm.c:891-935 | with the line-drawing set selected its characters are drawn as their code page 437 glyphs, every other printable one as itself |
| Framebuffer.Framebuffer.SwapPalette | kernel/src/src/flanterm_fb_backend.c:464-469 | exchanges the two colours and nothing else |
| Framebuffer.Framebuffer.SaveState | kernel/src/src/flanterm_fb_backend.c:448-454 | keeps cursor and colours, nothing else changes |
| Framebuffer.Framebuffer.RestoreState | kernel/src/src/flanterm_fb_backend.c:456-462 | brings back exactly the kept cursor and colours |
| Framebuffer.Framebuffer.DrawCursor | kernel/src/src/flanterm_fb_backend.c:788-812 | shows the cursor's cell inverted and commits its pending write, no other cell, whether or not queue and map correspond |
| Framebuffer.InvertedSwaps | kernel/src/src/flanterm_fb_backend.c:795-802 | inverting swaps a cell's two colours and keeps its character |
| Framebuffer.CursorDrawnIs | kernel/src/src/flanterm_fb_backend.c:788-812 | when they do, that is the cell the plain array has there |
| Framebuffer.DrainStep | kernel/src/src/flanterm_fb_backend.c:822-834 | one round of the flush loop commits and shows one write, and skips the one the cursor took |
| Framebuffer.Framebuffer.DrainQueue | kernel/src/src/flanterm_fb_backend.c:822-834 | the flush loop is the fold of such rounds, whether or not queue and map correspond |
| Framebuffer.Framebuffer.FlushBuffers | kernel/src/src/flanterm_fb_backend.c:814-842 | cursor, flush loop and previous cursor in turn are the flush of the three buffers as values |
| Framebuffer.FlushMeaning | kernel/src/src/flanterm_fb_backend.c:814-842 | when queue and map correspond, that leaves nothing pending, the grid the plain array, and the display showing it with exactly the cursor's cell inverted |
| Framebuffer.Framebuffer.DoubleBufferFlush | kernel/src/src/flanterm_fb_backend.c:814-842 | nothing stays pending, the grid is the plain array, and the display shows it with exactly the enabled cursor's cell inverted; the view does not change |
| Framebuffer.Framebuffer.FullRefresh | kernel/src/src/flanterm_fb_backend.c:866-891 | the framebuffer stays consistent if and only if the cursor is not drawn, or its cell has no pending write and the display's cursor is there already (or looks the same inverted) |
| Framebuffer.RefreshOutcome | kernel/src/src/flanterm_fb_backend.c:866-891 | the same condition on the three buffers as values: the lost queue item breaks the correspondence |
| Framebuffer.FirstWriteWins | kernel/src/src/flanterm_fb_backend.c:822-834 | of two queued writes to one mapped cell the flush draws and keeps the first and drops the second |
| Framebuffer.RefreshLosesWrite | kernel/src/src/flanterm_fb_backend.c:814-891 | after a full refresh over a pending write and a new write to that cell, the whole next flush shows and keeps the older character, unless the cursor is then drawn in that cell: then the new one, inverted |
| Framebuffer.Framebuffer.Run | kernel/src/src/flanterm_fb_backend.c:585-864 | after any run of pushes, characters, moves, scrolls, clears, cursor moves and flushes the lazy buffers stand for what a plain array becomes under the same run |
| Sgr.ResetForgets | kernel/src/src/flanterm.c:134-146 | a parameter 0 selects the default renditions and nothing selected before it, in this sequence or earlier, reverse video included, has any effect on what follows |
| Sgr.Params | kernel/src/src/flanterm.c:131-391 | whatever the parameters, colour indices stay -1 to 7, so every palette access is in range |
| Sgr.ReverseCommutes | kernel/src/src/flanterm.c:125-337 | for every list of colour selections and 7 and 27 the colours are the swap, while reverse video is on, of what the list without 7 and 27 gives |
| Sgr.IntensityCommutesIff | kernel/src/src/flanterm.c:148-218 | 1, 5, 22 and 25 commute too if and only if reverse video is off, or that colour is not the default one, or the two defaults coincide |
| Sgr.RgbBytes | kernel/src/src/flanterm.c:352-358 | three numbers below 256 become one number with a byte each |
| Sgr.ExtendedCommutesIff | kernel/src/src/flanterm.c:340-388 | 38 and 48 commute with reverse video if and only if it is off or both colours were the selected one already |
| Sgr.ReverseThenBack | kernel/src/src/flanterm.c:322-337 | 7, any selections, 27 shows what the selections alone would |
| TerminalSpec.Digit | kernel/src/src/flanterm.c:498-506 | a digit changes only the open parameter, keeps every parameter in 32 bits, and leaves the number of parameters and the rest of the sequence alone |
| TerminalSpec.Margins | kernel/src/src/flanterm.c:753-774 | the region is always the whole screen or at least two rows of it |
| TerminalSpec.ScreenFinal | kernel/src/src/flanterm.c:541-790 | no final byte changes size, colours or modes; margins stay proper |
| TerminalSafety.StepKeepsOk | kernel/src/src/flanterm.c:1208-1355 | one byte keeps parameters counted and in 32 bits, margins around the whole screen or at least two rows, selectors inside their tables, the continuation count at most 3, colour indices -1 to 7, and scrolling enabled |
| TerminalSafety.EveryByteStringKeepsOk | kernel/src/src/flanterm.c:115-123 | so does every byte string |
| TerminalSafety.FeedInPieces | kernel/src/src/flanterm.c:115-123 | cutting a byte string anywhere makes no difference |
| TerminalSafety.FinalKeepsCursorOk | kernel/src/src/flanterm.c:541-790 | no control function moves the cursor past the larger dimension |
| TerminalSafety.RowEscapes | kernel/src/src/flanterm_fb_backend.c:844-858 | a wrap puts the cursor row outside the grid if and only if it starts on the last row, that row is not the bottom margin, and there are more columns than rows |
| TerminalLaws.DecodeInvertsEncode | kernel/src/src/flanterm.c:1220-1261 | feeding the UTF-8 encoding of any code point from U+0080 to U+10FFFF leaves exactly that code point, nothing pending, and its glyph drawn |
| TerminalLaws.TwoBytes | kernel/src/src/flanterm.c:1220-1255 | every lead byte of two with every continuation byte makes a character; that is its encoding if and only if it is U+0080 or above, so overlong forms are taken |
| TerminalLaws.BrokenCharacter | kernel/src/src/flanterm.c:1220-1224 | a byte that does not continue a multi-byte character drops it and counts as if it had not been begun |
| TerminalLaws.NumberRead | kernel/src/src/flanterm.c:498-506 | feeding the decimal digits of any 32-bit number puts that number into the open parameter |
| TerminalLaws.ParametersRead | kernel/src/src/flanterm.c:498-521 | feeding a printed parameter list, the empty one included, puts exactly that list into the table |
| TerminalLaws.SequenceOpens | kernel/src/src/flanterm.c:835-841 | ESC [ clears the table and opens a sequence; nothing else of the terminal changes, a `?` left over included |
| TerminalLaws.SequenceRuns | kernel/src/src/flanterm.c:486-790 | from any state between bytes, a complete sequence, with parameters or without, performs its final byte on exactly the parameters as printed and on the rest of the terminal as it was, as DEC-private if a `?` was left over |
| TerminalLaws.SequenceAsPrintedIff | kernel/src/src/flanterm.c:486-790 | so it does what was printed if and only if no `?` was left over, or its final byte does the same after one: by final byte, h and l change neither mode 4 nor 25, m selects what is in force, s saves what is saved, cursor movement goes nowhere, editing changes nothing |
| TerminalLaws.SequenceSwallowed | kernel/src/src/flanterm.c:394-426 | with a `?` left over every final byte but h and l changes nothing on the screen and uses the `?` up |
| TerminalLaws.ScreenSequenceRuns | kernel/src/src/flanterm.c:523-790 | fed as bytes, a sequence that moves the cursor or edits does to the screen what its final byte does, given the parameters as printed and the defaults for the others, and nothing else to the parser |
| TerminalLaws.EraseRuns | kernel/src/src/flanterm.c:523-752 | ESC [ K and ESC [ J without a parameter are EL 0 and ED 0 |
| TerminalLaws.CancelLeavesPrivate | kernel/src/src/flanterm.c:1209-1218 | ESC [ ? CAN leaves a `?` over, from every state between bytes |
| TerminalLaws.CancelAbandons | kernel/src/src/flanterm.c:1209-1218 | CAN and SUB leave nothing in progress, whatever there was, and touch neither the screen nor the modes nor a `?` |
| TerminalLaws.CursorPositionWorks | kernel/src/src/flanterm.c:613-626 | ESC [ row ; column H, or f, a number not given being 1, puts the cursor there and changes nothing else on the screen, if and only if no `?` was left over or the cursor is there already |
| TerminalLaws.RenditionRuns | kernel/src/src/flanterm.c:125-391 | ESC [ parameters m does to the colours what the parameter list does, ESC [ m a reset; cells, cursor, margins, modes, character sets and saved state stay |
| TerminalLaws.FedReverseCommutes | kernel/src/src/flanterm.c:125-337 | over any run of such sequences fed as bytes, the colours are those the selections alone would give, swapped while reverse video is on |
| TerminalLaws.ResetKeepsReverseIff | kernel/src/src/flanterm.c:81-111 | ESC c keeps the colours those of the same selections without reverse video if and only if reverse video was off or both colours were the same |
| TerminalLaws.CommandEnds | kernel/src/src/flanterm.c:464-484 | an operating system command ends at its first byte, unless that is an ESC or cuts it off; the bytes behind are taken as if the command were over |
| TerminalLaws.CommandSkipsEscapes | kernel/src/src/flanterm.c:464-484 | ESCs do not end a command: it ends at its first byte other than ESC |
| TerminalLaws.CommandHiddenIff | kernel/src/src/flanterm.c:464-484 | so a command of ASCII text closed by a BEL shows nothing if and only if it has at most one character, given room for the others in the row |
| BlankRuns.BlankRun | kernel/src/src/flanterm_fb_backend.c:844-864 | blanks written from the start of a row fill row after row and stay in the last they can reach: the bottom margin's, or the one the column clamp keeps them in |
| BlankRuns.RunCells | kernel/src/src/flanterm_fb_backend.c:844-864 | exactly which cells n blanks cover from any cursor, with a wrap pending or not, with any margins and any shape of screen |
| LineEditing.EraseToEndCells | kernel/src/src/flanterm.c:664-674 | exactly which cells ED 0 blanks on every screen; the cursor ends where it was reported |
| LineEditing.EraseToEndIff | kernel/src/src/flanterm.c:664-674 | that is every cell from the cursor on and no other if and only if the cells missed, and those blanked besides, were blank already |
| LineEditing.EraseToEndGuard | kernel/src/src/flanterm.c:664-674 | on a screen without blanks: if and only if no wrap is pending, the cursor is in the grid, and it is on the last row or the region reaches the last row and there are no more rows than columns |
| LineEditing.EraseToEndExact | kernel/src/src/flanterm.c:664-674 | in that case, whatever the cells hold: ED 0 blanks exactly the cells at or after the cursor and restores the cursor |
| LineEditing.EraseToCursorCells | kernel/src/src/flanterm.c:675-691 | ED 1 blanks the cells up to and including the cursor's, as far as the bottom margin and the column clamp let it |
| LineEditing.EraseToCursorIff | kernel/src/src/flanterm.c:675-691 | that is all of them if and only if those it does not get to were blank already |
| LineEditing.ClampProtectsLastRow | kernel/src/src/flanterm_fb_backend.c:844-858 | with more rows than columns a run of blanks that starts above the last row never reaches it |
| LineEditing.EraseLineEndCells | kernel/src/src/flanterm.c:731-737 | exactly which cells EL 0 blanks on every screen: the rest of the row, or, with a wrap pending, the first cell of the next row |
| LineEditing.EraseLineEndIff | kernel/src/src/flanterm.c:731-737 | that is the rest of the cursor's row if and only if what it misses, and what it blanks in the next row, was blank already |
| LineEditing.EraseLineEndGuard | kernel/src/src/flanterm.c:731-737 | on a screen without blanks: if and only if the cursor is in the grid with no wrap pending, or the screen has one column and the wrap comes back to the cursor's cell |
| LineEditing.EraseLineExact | kernel/src/src/flanterm.c:738-751 | on every screen EL 1 blanks the cells before the cursor but not the cursor's own, EL 2 the whole row; both keep the cursor where it was reported |
| LineEditing.EraseLineStartIff | kernel/src/src/flanterm.c:738-743 | EL 1 is the erase up to and including the cursor if and only if the cursor's cell was blank already |
| LineEditing.EraseCharactersCells | kernel/src/src/flanterm.c:714-720 | exactly which cells ECH n blanks on every screen: at most a row's worth from the cursor, going on into the next row |
| LineEditing.EraseCharactersIff | kernel/src/src/flanterm.c:714-720 | that is the n characters in the cursor's row if and only if what it blanks besides, and what it misses, was blank already |
| LineEditing.EraseCharactersExact | kernel/src/src/flanterm.c:714-720 | it is when the characters are all in the row or there is no row to go on in, whatever the cells hold |
| LineEditing.InsertCharactersExact | kernel/src/src/flanterm.c:698-708 | on every screen ICH n shifts the row from the cursor on right by n, blanks n cells, changes no other cell and keeps the cursor where it was reported; ICH 0 blanks the rest of the row |
| LineEditing.InsertIsShiftIff | kernel/src/src/flanterm.c:698-708 | ICH n is the shift by n if and only if n is not 0 or the rest of the row is blank |
| LineEditing.DeleteCharactersExact | kernel/src/src/flanterm.c:709-720 | DCH n of at most a row's worth, on every screen: what every cell of the row holds afterwards; no other row changes; the cursor stays where it was reported |
| LineEditing.DeleteIsShiftIff | kernel/src/src/flanterm.c:709-720 | that is the left shift with blanks at the end if and only if the n characters are all in the row or the cells it reaches before the cursor were blank |
| LineEditing.DeleteBeyondCells | kernel/src/src/flanterm.c:709-720 | DCH n of more than a row's worth: exactly which cells become blank, with the 64-bit difference as the column it starts at |
| LineEditing.DeleteBeyondIff | kernel/src/src/flanterm.c:709-720 | that is the rest of the cursor's row if and only if what it blanks besides, and what it misses, was blank already |
| LineEditing.PushedRightExact | kernel/src/src/flanterm.c:1330-1337 | insert mode, on every screen: the cells after the cursor take their left neighbour's content, the row's last is lost, no other row changes |
| LineEditing.PutWrapped | kernel/src/src/flanterm_fb_backend.c:844-864 | with a wrap pending, a character does what it does after the wrap |
| LineEditing.CodePointCells | kernel/src/src/flanterm.c:1232-1245 | a decoded character that fits the row: its glyph, or the replacement and blanks up to its width, in those cells and no others; width 0 draws nothing |
| LineEditing.InsertCodePointIff | kernel/src/src/flanterm.c:1232-1245 | insert mode plays no part in that; the row is what it should make of it if and only if it looks the same moved right by the character's width |
| ControlFunctions.PutChars | kernel/src/src/flanterm.c:669-672 | the counted loop puts n characters; for blanks BlankRuns.RunCells says which cells that is |
| ControlFunctions.CursorUp | kernel/src/src/flanterm.c:545-563 | the row RegionEditing.CursorUpMeaning describes |
| ControlFunctions.CursorDown | kernel/src/src/flanterm.c:564-583 | the row RegionEditing.CursorDownMeaning describes |
| ControlFunctions.InsertLines | kernel/src/src/flanterm.c:634-643 | reverse scrolling with the cursor row as top margin, which is then restored; on rows: RegionEditing.InsertLinesExact and InsertLinesBelow |
| ControlFunctions.EraseToCursor | kernel/src/src/flanterm.c:675-691 | the nested loops with their break are the run of blanks whose cells LineEditing.EraseToCursorCells gives |
| ControlFunctions.EraseInDisplay | kernel/src/src/flanterm.c:663-697 | ED, each variant; 0 and 1 on cells: LineEditing.EraseToEndIff and EraseToCursorIff, 2 and 3 blank the screen |
| ControlFunctions.EraseInLine | kernel/src/src/flanterm.c:730-752 | EL, each variant; on cells: LineEditing.EraseLineEndIff and EraseLineExact |
| ControlFunctions.InsertCharacters | kernel/src/src/flanterm.c:698-708 | the backward loop; on cells: LineEditing.InsertCharactersExact |
| ControlFunctions.DeleteCharacters | kernel/src/src/flanterm.c:709-720 | the forward loop and the fall-through; on cells: LineEditing.DeleteCharactersExact and DeleteBeyondCells |
| ControlFunctions.EraseCharacters | kernel/src/src/flanterm.c:714-720 | the clamped loop; on cells: LineEditing.EraseCharactersCells |
| ControlFunctions.SetMargins | kernel/src/src/flanterm.c:753-774 | an impossible or one-row region selects the whole screen; the cursor goes home |
| ControlFunctions.LineFeed | kernel/src/src/flanterm.c:852-867 | the line feed whose rows RegionEditing.LineFeedRows gives |
| ControlFunctions.ReverseLineFeed | kernel/src/src/flanterm.c:868-876 | the reverse line feed whose rows RegionEditing.ReverseFeedRows gives |
| ControlFunctions.PushRight | kernel/src/src/flanterm.c:1330-1337 | the backward loop of insert mode; on cells: LineEditing.PushedRightExact |
| ControlFunctions.Tab | kernel/src/src/flanterm.c:1291-1297 | the tab whose column RegionEditing.TabMeaning gives |
| ControlFunctions.PutCodePoint | kernel/src/src/flanterm.c:1232-1245 | the glyph or replacement; on cells: LineEditing.CodePointCells |
| Terminal.Terminal.constructor | kernel/src/src/flanterm_fb_backend.c:982-1211 | the initial context is the reset one and meets the invariant of every byte string |
| Terminal.Terminal.ContextReinit | kernel/src/src/flanterm.c:81-111 | a reset puts every field of the parser and the margins to its initial value and leaves the saved state alone |
| Terminal.Terminal.Parameter | kernel/src/src/flanterm.c:134-337 | one SGR parameter, across the shared labels, changes the colours as the colour specification says |
| Terminal.Terminal.ExtendedColour | kernel/src/src/flanterm.c:340-388 | 38 and 48 consume exactly their arguments and set the direct or indexed colour |
| Terminal.Terminal.SelectGraphicRendition | kernel/src/src/flanterm.c:125-391 | the in-place loop is the specification's fold over the parameters |
| Terminal.Terminal.FinalByte | kernel/src/src/flanterm.c:541-790 | the dispatch on the final byte |
| Terminal.Terminal.FillDefaults | kernel/src/src/flanterm.c:523-533 | the parameters not given take the final byte's default, the given ones stay |
| Terminal.Terminal.DecPrivateParse | kernel/src/src/flanterm.c:394-426 | only mode 25 is known; it shows or hides the cursor |
| Terminal.Terminal.FinishSequence | kernel/src/src/flanterm.c:508-790 | default parameters, DEC-private or not, scrolling off in between and back to what it was, sequence closed |
| Terminal.Terminal.ControlSequenceParse | kernel/src/src/flanterm.c:486-790 | one byte inside a control sequence |
| Terminal.Terminal.OscParse | kernel/src/src/flanterm.c:464-484 | an operating system command ends at anything but ESC, or at ESC backslash |
| Terminal.Terminal.SaveState | kernel/src/src/flanterm.c:803-812 | keeps cursor, colours, renditions and character set |
| Terminal.Terminal.RestoreState | kernel/src/src/flanterm.c:792-801 | brings exactly those back |
| Terminal.Terminal.EscapeParse | kernel/src/src/flanterm.c:814-889 | one byte of an escape sequence |
| Terminal.Terminal.TranslateCharset | kernel/src/src/flanterm.c:1339-1354 | the glyph a byte is drawn with in the selected character set |
| Terminal.Terminal.PlainChar | kernel/src/src/flanterm.c:1280-1354 | controls, insert mode and printing outside any sequence |
| Terminal.Terminal.Cancel | kernel/src/src/flanterm.c:1209-1218 | CAN, SUB and a pending discard abandon a sequence, command or character in progress; a `?` already seen stays in force for the next sequence |
| Terminal.Terminal.Putchar | kernel/src/src/flanterm.c:1208-1355 | one byte updates the context in place exactly as the step function says, on the lazily drawn screen as on the plain one |
| Terminal.Terminal.Write | kernel/src/src/flanterm.c:115-123 | a whole buffer does what its bytes one after another do to the plain-array terminal; with autoflush on, the display then shows exactly that screen and its cursor |
| Terminal.ContinuationMasks | kernel/src/src/flanterm.c:1220-1230 | the two masks recognise exactly the bytes 0x80 to 0xBF and take their low six bits |
| CodePoints.Bisearch | kernel/src/src/flanterm.c:937-954 | on a sorted table of disjoint intervals, true if and only if some interval contains the code point |
| RamFs.OwnBytes | kernel/src/src/fs.c:359-371 | gap, copy and terminator leave in the file's buffer exactly the old bytes, zero-padded to the offset, overwritten by the new ones |
| RamFs.OtherFile | kernel/src/src/fs.c:359-371 | another file's bytes stay, except that the terminator of a write that fills its buffer zeroes the first byte of the file placed right after it |
| RamFs.GrownKeepsBytes | kernel/src/src/fs.c:338-357 | moving a file to a bigger buffer keeps the bytes of every file |
| RamFs.RamFs.Alloc | kernel/src/src/fs.c:12-25 | bump allocation: the next bytes of the pool or nothing |
| RamFs.RamFs.Open | kernel/src/src/fs.c:197-250 | the first entry that one of the three name comparisons accepts |
| RamFs.RamFs.Import | kernel/src/src/fs.c:65-80 | an archive file becomes an entry with a full buffer of its own, if there is an entry and room |
| RamFs.RamFs.CreateFile | kernel/src/src/fs.c:285-323 | an existing file is returned; else a new empty file of capacity 256 appears and no other file changes; no room changes nothing |
| RamFs.RamFs.Read | kernel/src/src/fs.c:252-269 | returns the matching slice of the file's bytes and how long it is; the rest of the caller's buffer stays |
| RamFs.RamFs.Grow | kernel/src/src/fs.c:338-357 | the file's buffer is moved and enlarged if the pool has room, without changing any file's bytes |
| RamFs.RamFs.Write | kernel/src/src/fs.c:325-374 | every file's bytes after the write; a refused one changes nothing; the files behave as independent byte sequences if and only if no neighbour's first byte is destroyed by the terminator; the byte after the pool becomes 0 exactly when the write fills a buffer that ends there, else stays |
| RamFs.RamFs.Run | kernel/src/src/fs.c:285-374 | after any run of creations and writes in which no write makes its file end exactly where its buffer does, the pool holds what independent byte sequences would have become, and the byte after it is as it was |
| RamFs.OnlyOwnWritesMatter | kernel/src/src/fs.c:325-374 | in a run where no write is refused a file's bytes are determined by its own writes alone, through any growth of buffers |
| RamFs.ReadBack | kernel/src/src/fs.c:359-371 | what was written reads back, the gap reads as zeros, the bytes before stay |
| RamFs.CreatedIsFoundIff | kernel/src/src/fs.c:197-323 | a file just created is found again under the same name if and only if the name is not empty and fits 31 bytes, does not start with ./, or reads the same shifted by two |
| RamFs.MatchesMeans | kernel/src/src/fs.c:205-246 | a name finds the entry of exactly that name, the one of the name without a ./ in front and cut off after 31 bytes, and the one with a ./ in front of that; no other |
| RamFs.DotSlashOpensSame | kernel/src/src/fs.c:205-246 | so a ./ in front of a name makes no difference to what is opened |
| Descriptors.UserRange | kernel/src/src/syscall.c:77-106 | accepts exactly the non-empty ranges that start above 0 and end below the kernel's half, with no overflow |
| Descriptors.Descriptors.CopyToUser | kernel/src/src/syscall.c:126-138 | copies the whole range or, when it is not in user memory, nothing |
| Descriptors.Descriptors.Read | kernel/src/src/syscall.c:249-307 | delivers the next at most 4096 bytes and advances by exactly what was delivered; a bad buffer moves nothing; no other descriptor changes |
| Descriptors.Descriptors.Open | kernel/src/src/syscall.c:310-360 | the lowest free descriptor from 3 on now stands for the first file that the path matches, at its beginning, and no other descriptor changes; otherwise -1 and no change, because the path cannot be read, no file matches or no descriptor is free |
| Descriptors.OpensFile | kernel/src/src/syscall.c:310-360 | the same of the specified table |
| Descriptors.Descriptors.Close | kernel/src/src/syscall.c:362-381 | frees exactly that descriptor, or -1 |
| Descriptors.OneCall | kernel/src/src/syscall.c:249-381 | any call leaves a descriptor that it does not close in use, and moves it by what it delivered on it |
| Descriptors.SequentialReads | kernel/src/src/syscall.c:249-381 | in any run that neither closes the descriptor nor writes its file, whatever else happens, the bytes delivered on it put together are the file from its first to its last position |
| Descriptors.Cat | programs/cat.c:21-24 | the read loop sees the whole rest of the file, in chunks none of which is empty, and moves no other descriptor |
| Descriptors.CatFile | programs/cat.c:11-31 | opened, read to the end and closed, a file is seen from its first byte to its last, and its descriptor is free again |
| Cpio.HexStep | kernel/src/src/initramfs.c:17-23 | shift and or are the arithmetic of one more hexadecimal digit in 32 bits |
| Cpio.Hex2U32 | kernel/src/src/initramfs.c:15-25 | the loop computes the number its characters spell |
| Cpio.HexInvertsDigits | kernel/src/src/initramfs.c:15-25 | reading the hexadecimal digits of any 32-bit number gives that number, in either case of letters |
| Cpio.MaskAligns | kernel/src/src/initramfs.c:53-60 | adding 3 and masking rounds every 64-bit address up to a multiple of four |
| Cpio.PaddingAligns | kernel/src/src/initramfs.c:53-60 | rounding the address and padding by length agree at aligned positions |
| Cpio.HeaderLayout | kernel/src/src/initramfs.c:34-52 | the encoder puts magic, size and name length where the format has them and the parser reads them |
| Cpio.ParsesEntry | kernel/src/src/initramfs.c:34-75 | an encoded entry parses to a reference to its name, size and bytes, and parsing goes on at the next entry |
| Cpio.ParseInvertsArchive | kernel/src/src/initramfs.c:27-77 | parsing the encoded archive of any list of named files at a multiple of four finds the same names, sizes and bytes in order, up to the sixteenth |
| Cpio.FoundInside | kernel/src/src/initramfs.c:27-77 | whatever memory holds, every file found lies inside the archive, after the one before |
| Cpio.InsideEach | kernel/src/src/initramfs.c:62-66 | so each file's name starts, and all its bytes lie, within the archive, behind the previous file's bytes |
| Cpio.Initramfs.Next | kernel/src/src/initramfs.c:34-75 | one round of the loop: the header's file, or none |
| Cpio.Initramfs.Init | kernel/src/src/initramfs.c:27-77 | the loop stores exactly what the specification finds, at most sixteen files |
| Cpio.Initramfs.Find | kernel/src/src/initramfs.c:79-84 | the first file of that name, or none |
| Ext2.Reader.ReadBlock | kernel/src/src/ext2.c:20-32 | a block's position with the 32-bit product, or nothing when it is out of range; the position is the block's own if and only if that fits 32 bits |
| Ext2.OwnBlockIff | kernel/src/src/ext2.c:20-32 | the same of the specification every read is proved against |
| Ext2.AmountsAddUp | kernel/src/src/ext2.c:91-111 | the per-block amounts take the read exactly from block to block and sum to the length, so the clamp never changes anything for a non-empty read |
| Ext2.CopiedBytes | kernel/src/src/ext2.c:86-111 | what is copied from a block is what belongs at its place in the blocks laid end to end |
| Ext2.Reader.BlockAmount | kernel/src/src/ext2.c:91-108 | the branches for the first and the last block compute that amount, clamp included |
| Ext2.Reader.ReadInodeData | kernel/src/src/ext2.c:67-122 | gives nothing at or beyond the end of the file; else no more than was asked for, nothing beyond the end, and less only at the end or in front of a block that cannot be read; each byte the one of the flat slice; the rest of the buffer stays |
| Ext2.ReadGivesAll | kernel/src/src/ext2.c:67-122 | the same of the specified count |
| Ext2.ReadsAllIff | kernel/src/src/ext2.c:67-122 | the read is complete if and only if every block it touches is direct and readable |
| Ext2.SliceOfBlocks | kernel/src/src/ext2.c:67-122 | a complete read is that slice of the concatenated blocks |
| Ext2Paths.ScanFindsMatch | kernel/src/src/ext2.c:191-215 | scanning an encoded directory block finds the first entry of that name among those before the first unused one |
| Ext2Paths.ScanIsMatchIff | kernel/src/src/ext2.c:197-199 | that is the lookup the format means if and only if no unused entry comes before the entry looked for |
| Ext2Paths.ScanBlock | kernel/src/src/ext2.c:191-215 | the in-buffer loop ends and is that scan |
| Ext2Paths.FindEntry | kernel/src/src/ext2.c:173-216 | direct blocks in order, absent and unreadable ones skipped |
| Ext2Paths.LookupFindsMatch | kernel/src/src/ext2.c:173-216 | looking a name up over all direct blocks finds the first entry of that name among those before the first unused one of their block |
| Ext2Paths.LookupIsMatchIff | kernel/src/src/ext2.c:173-216 | that is the lookup the format means if and only if the entry looked for does not come after an unused one of its block, unless a later block makes up for it |
| Ext2Paths.EnteredMeans | kernel/src/src/ext2.c:168-224 | one component: that entry's inode if it exists; nothing from an inode that is no directory |
| Ext2Paths.IsDirectoryIff | kernel/src/src/ext2.c:168-171 | testing one mode bit decides right whether an inode is a directory if and only if it is neither a block device nor a socket |
| Ext2Paths.SlashSeparates | kernel/src/src/ext2.c:146-166 | a slash only separates components: repeated, leading and trailing ones are irrelevant |
| Ext2Paths.NextComponent | kernel/src/src/ext2.c:154-166 | cutting at the next slash takes exactly the next component and leaves the rest of the path |
| Ext2Paths.FindInodeByPath | kernel/src/src/ext2.c:125-227 | resolving a path is folding directory lookup over the non-empty components of its first 127 bytes, from inode 2; the empty path names nothing |
| Ext2Paths.NamedMeans | kernel/src/src/ext2.c:125-152 | a path of up to 127 bytes is resolved as it is from inode 2, of a longer one only the first 127 count |
| Ext2Paths.ResolvedInSteps | kernel/src/src/ext2.c:154-224 | going down two lists of components is going down their concatenation |
| Ext2Paths.PathInSteps | kernel/src/src/ext2.c:125-227 | a longer path names what its last part names from the directory its first part names |
| Tokenizer.SpansAreTheRuns | kernel/src/lib/string.c:236-263 | the spans enumerated are exactly the maximal delimiter-free runs, each once, from left to right |
| Tokenizer.StrSpn | kernel/src/lib/string.c:274-294 | the length of the leading run of delimiters |
| Tokenizer.StrPBrk | kernel/src/lib/string.c:297-309 | the first delimiter, if there is one |
| Tokenizer.StrTokR | kernel/src/lib/string.c:236-263 | one call cuts out the next run, terminates it in place, and the text after it is still there; only that one byte changes |
| Tokenizer.Tokenize | kernel/src/lib/string.c:236-271 | calls until nothing comes enumerate exactly the maximal runs, all of them still in the buffer and terminated at the end |
| RegionEditing.ScrolledTimesRows | kernel/src/src/flanterm_fb_backend.c:637-660 | scrolling n times moves the margin region up by n rows and blanks the rows that come in |
| RegionEditing.RevScrolledTimesRows | kernel/src/src/flanterm_fb_backend.c:609-635 | reverse scrolling n times moves it down by n likewise |
| RegionEditing.InsertLinesExact | kernel/src/src/flanterm.c:634-643 | IL n above the bottom margin moves the rows from the cursor's to the margin down by n, blanks the rows at the cursor and leaves every other row |
| RegionEditing.InsertLinesBelow | kernel/src/src/flanterm.c:634-643 | from the bottom margin down, IL n with n > 0 blanks the cursor's row and leaves every other; IL 0 nothing |
| RegionEditing.InsertLinesBelowIff | kernel/src/src/flanterm.c:634-643 | so there it does nothing if and only if n is 0 or the cursor's row is blank already |
| RegionEditing.DeleteLinesExact | kernel/src/src/flanterm.c:627-633 | DL n moves the rows from the top margin, not from the cursor, up by n |
| RegionEditing.DeleteLinesIff | kernel/src/src/flanterm.c:627-633 | that is the delete at the cursor if and only if the rows between the top margin and the cursor look the same after moving up |
| RegionEditing.CursorUpMeaning | kernel/src/src/flanterm.c:545-563 | CUU goes up n rows but stops at the top margin from within or below the region, and at the top of the screen from above it |
| RegionEditing.CursorDownMeaning | kernel/src/src/flanterm.c:564-583 | CUD goes down n rows but stops at the bottom margin or the bottom of the screen; it never moves up if and only if it does not start on the row just below the margin |
| RegionEditing.UpUndoesDown | kernel/src/src/flanterm.c:545-583 | within the region, up n undoes down n unless the margin cut it short |
| RegionEditing.LineFeedRows | kernel/src/src/flanterm.c:852-867 | a line feed on the bottom margin moves the region's rows up by one and blanks its last; elsewhere no cell changes and the cursor goes down a row, but not below the screen |
| RegionEditing.ReverseFeedRows | kernel/src/src/flanterm.c:868-876 | a reverse line feed on the top margin moves the rows down by one and blanks the first; elsewhere no cell changes and the cursor goes up a row; always to the first column |
| RegionEditing.TabMeaning | kernel/src/src/flanterm.c:1291-1297 | a tab goes to the first multiple of the tab size after the cursor, or to the last column if the row has none left |
| CursorLaws.MovesMean | kernel/src/src/flanterm.c:584-612 | CUF and CUB move in the row but not out of it, VPA and CHA to a row and a column counted from 1, restore to the saved position |
| CursorLaws.LinesMean | kernel/src/src/flanterm.c:545-583 | CUU and CUD keep the column, CPL and CNL go to the first |
| CursorLaws.MovesRun | kernel/src/src/flanterm.c:541-626 | fed as bytes, with a number or without, the finals A to G, a, d, e, ` and u move the cursor there and change nothing else on the screen |
| CursorLaws.EditsRun | kernel/src/src/flanterm.c:627-774 | fed as bytes, the finals @, J, K, L, M, P, X and r edit the screen as specified, with the parameters as printed and defaults for the others |
| CursorLaws.EmptyParameter | kernel/src/src/flanterm.c:508-521 | a parameter left out in front of another is 0 |
| CursorLaws.NumberZeroIff | kernel/src/src/flanterm.c:601-612 | VPA 0 and CHA 0 are the first row and column if and only if there is only one: they go to the last |
| CursorLaws.ControlsMove | kernel/src/src/flanterm.c:1300-1316 | backspace, carriage return and line feed as bytes |
| CursorLaws.IndexesRun | kernel/src/src/flanterm.c:852-876 | ESC D, ESC E and ESC M: line feed in the column, to the first column, and reverse |
| CursorLaws.PrivateRuns | kernel/src/src/flanterm.c:486-540 | a sequence printed with its `?` performs its final byte as DEC-private and changes nothing else but the parser's record of the sequence |
| CursorLaws.CursorShown | kernel/src/src/flanterm.c:394-426 | ESC [ ? 25 h shows the cursor, ESC [ ? 25 l hides it; no other private mode or final byte changes the screen |
| CursorLaws.InsertModeSet | kernel/src/src/flanterm.c:438-462 | ESC [ 4 h turns insert mode on and ESC [ 4 l off, nothing else; other modes change nothing |
| CursorLaws.CursorKept | kernel/src/src/flanterm.c:724-729 | ESC [ s keeps the reported cursor, ESC [ u brings the kept one back |
| CursorLaws.MarginsMean | kernel/src/src/flanterm.c:753-774 | the region is the rows given, the first and last by default, if and only if that is at least two rows of the screen; else the whole screen |
| CursorLaws.EraseAllMeans | kernel/src/src/flanterm.c:692-696 | ED 2 and 3 blank every cell and leave the cursor |
| CursorLaws.ResetMeans | kernel/src/src/flanterm.c:846-850 | ESC c blanks every cell, puts the cursor first and on, makes the whole screen the region, and forgets modes, renditions and character sets, but not what ESC 7 saved |
| CursorLaws.ColoursSelected | kernel/src/src/flanterm.c:220-320 | 30 to 37, 90 to 97, 40 to 47, 100 to 107, 39 and 49 select the colour of their number, bright for 90 and 100 on and with bold |
| CursorLaws.IntensityFollows | kernel/src/src/flanterm.c:148-218 | 1 and 22, 5 and 25 make the selected colour bright and plain again, before or after it is selected |
| SavedState.StepKeepsSaved | kernel/src/src/flanterm.c:1208-1355 | no byte but a 7 straight after an ESC changes the saved cursor, colours, renditions or character set: not a 7 in text, in a parameter or in a command |
| SavedState.StepSaves | kernel/src/src/flanterm.c:803-850 | and that one saves what is in force |
| SavedState.BytesKeepSaved | kernel/src/src/flanterm.c:792-850 | so no byte string in which no such 7 comes does, a full reset included |
| SavedState.NeverSavesInPieces | kernel/src/src/flanterm.c:115-123 | byte strings that do not save compose |
| SavedState.TextNeverSaves | kernel/src/src/flanterm.c:1280-1354 | bytes without an ESC do not save, 7s among them or not |
| SavedState.SequenceNeverSaves | kernel/src/src/flanterm.c:486-790 | no control sequence does, ESC [ 7 m included |
| SavedState.RestoreUndoesAll | kernel/src/src/flanterm.c:792-850 | ESC 7, any bytes that do not save again and leave nothing half done, ESC 8: cursor, colours, renditions and character set are what they were, the cells as those bytes left them |
| Boot.NameAt | kernel/src/src/fs.c:54 | the string at a name pointer, up to its terminator |
| Boot.ImportFiles | kernel/src/src/fs.c:41-80 | the import loop adds the archive's files in order until one does not fit |
| Boot.ImportedFiles | kernel/src/src/fs.c:41-80 | if everything fits the pool, file i is archive entry i, name and bytes |
| Boot.OpenFindsImported | kernel/src/src/fs.c:197-250 | opening a plain name after boot finds the archive's file of that name with the archive's bytes |
| Boot.FromArchive | kernel/src/src/fs.c:27-80 | parsing and importing an encoded archive of at most sixteen regular files gives the file system built directly from the list of files |
| Departures.NoExecuteTranslation | kernel/src/src/vmm.c:429-458 | frame 5, mapped no-execute, is reported 2^63 bytes too high |
| Departures.ChildLosesWrite | kernel/src/src/syscall.c:540-550 | a page that the parent may write below its stack is read-only in the child |
| Departures.UnalignedSegment | kernel/src/src/exec.c:124-132 | the second of two bytes at 0x400fff is never mapped |
| Departures.SharedPage | kernel/src/src/exec.c:101-208 | of two one-byte segments side by side the second one's page takes the first one's byte away |
| Departures.PendingEraseLine | kernel/src/src/flanterm.c:731-737 | EL 0 after a full row keeps the row's last character and blanks the first of the next row |
| Departures.PendingEraseDisplay | kernel/src/src/flanterm.c:664-674 | ED 0 after a full row keeps the row's last character |
| Departures.TallEraseDisplay | kernel/src/src/flanterm.c:664-674 | ED 0 on one column and two rows never gets to the second row |
| Departures.MarginEraseDisplay | kernel/src/src/flanterm.c:664-674 | ED 0 from the end of the region's last row leaves the row below it |
| Departures.TallEraseToCursor | kernel/src/src/flanterm.c:675-691 | ED 1 on the second row of one column leaves the cursor's own cell |
| Departures.EraseLineToCursor | kernel/src/src/flanterm.c:738-743 | EL 1 leaves the cursor's own cell |
| Departures.EraseCharactersRunOn | kernel/src/src/flanterm.c:714-720 | ECH 2 in the last column blanks the first cell of the next row |
| Departures.InsertNothing | kernel/src/src/flanterm.c:698-708 | ICH 0 blanks the cursor's cell |
| Departures.DeletePastEnd | kernel/src/src/flanterm.c:709-720 | DCH 2 in the last column blanks the cell before the cursor |
| Departures.DeleteLineAtTop | kernel/src/src/flanterm.c:627-633 | DL 1 on the second row removes the first |
| Departures.InsertLineBelow | kernel/src/src/flanterm.c:634-643 | IL 1 on the row below a two-row region blanks that row |
| Departures.ColumnZero | kernel/src/src/flanterm.c:607-612 | CHA 0 goes to the last of two columns |
| Departures.DownGoesUp | kernel/src/src/flanterm.c:564-583 | CUD 1 from just below a two-row region goes up |
| Departures.WrapLeavesGrid | kernel/src/src/flanterm_fb_backend.c:844-858 | a wrap on the last of three rows with the margin above it goes to a fourth |
| Departures.RefreshShowsOld | kernel/src/src/flanterm_fb_backend.c:822-891 | after a full refresh over a pending b, a c written there is shown as b |
| Departures.IntensityOtherSide | kernel/src/src/flanterm.c:148-218 | bold under reverse video gives the bright default background, not foreground |
| Departures.ExtendedOtherSide | kernel/src/src/flanterm.c:340-388 | a foreground chosen by 38 under reverse video is the background once that is off |
| Departures.CommandSpills | kernel/src/src/flanterm.c:464-484 | a command that sets the title hi changes the screen |
| Departures.TerminatorSpills | kernel/src/src/fs.c:325-374 | from an empty pool: a grown file, one behind it that holds an A, and a write that fills the first make that A a NUL |
| Departures.LeavesPoolRun | kernel/src/src/fs.c:325-374 | from an empty pool: a file grown to the pool's end and filled puts a 0 on the byte after the pool |
| Departures.LongDotName | kernel/src/src/fs.c:197-323 | a name of ./ and thirty characters is not found again |
| Departures.UnusedHides | kernel/src/src/ext2.c:197-199 | an unused entry hides the file behind it |
| Departures.SocketIsDirectory | kernel/src/src/ext2.c:168-171 | a socket passes for a directory |
| Departures.FarBlock | kernel/src/src/ext2.c:20-32 | in an image of eight gigabytes block 0 is read for block 2^20 |

## Left out

- AddressSpaces.VirtualMemory.MapPage: the model covers lower-half addresses only; upper-half entries are shared with the kernel's tables, which are outside the forest. It also takes the physical address and the flags to be 64-bit values.
- AddressSpaces.VirtualMemory.UnmapPage: lower-half addresses only, for the same reason.
- AddressSpaces.VirtualMemory.GetPhysicalAddress: lower-half addresses only, for the same reason.
- Fork.Forker.Fork: requires the parent's leaves below 0x80000000 to have their twelve top bits clear (see LaunchedForkable for when that holds); register context, the pages a failed fork leaks and running the child are not modelled.
- Fork.Forker.CopyPage: requires the same of the page's leaf; Fork.HighLeafLeavesMemory says what the code does otherwise, and memory beyond the modelled pages has no content to copy.
- ElfLoader.Loader.LoadSegment: segments within the file and below the user limit, which the code does not check.
- ElfLoader.Loader.LoadSegments: segments lie within the file and below the user limit, with no 64-bit wrap of addresses; the headers are taken as already decoded. Frames of a failed load are leaked, as in the code.
- Terminal.Terminal.Write: requires fewer than 2^31 columns and rows and margins that enclose a row; both hold initially and are kept.
- UserStack.Exec.Execute: the program's own run is not modelled; the stack is released from the memory as launched.
- RamFs.RamFs.Write: does not model wrap-around of offset plus length in 64 bits, because no caller passes such offsets and the pool is 64 KiB.
- Descriptors.Descriptors.Read: descriptors other than standard input; the keyboard is not modelled. User memory is one array of bytes, so page faults during a copy are not.
- Descriptors.Cat: collects what the loop reads; printing it, which stops at a NUL in the buffer, is not modelled.
- Cpio.Initramfs.Init: requires eleven readable bytes after the archive, which the name comparison may look at, and addresses that do not wrap around.
- Boot.ImportFiles: archives of regular files; a name that ends in a slash makes the code create a directory entry instead.
- Ext2.Reader.ReadInodeData: the block size is positive, and offset plus length does not wrap around in 64 bits.
- Ext2Paths.FindInodeByPath: directory blocks hold entries that lie within the block; the inode table is a finite map from numbers to inodes, so the group-descriptor arithmetic of ext2_read_inode is not modelled.
- flanterm.h is not part of this model: the number of kept parameters is any number from 2 on, parameters are 32-bit, and the parameter table after a completed sequence is taken as it was when the final byte came (every sequence clears it first).
- Terminal callbacks: the kernel never registers one. The two code-point tables, the 256-colour table and the colour conversion are parameters.
- Pixel plotting, fonts, the canvas and gui.c: the display is what each cell shows.
- Hardware: CR3, TLB, huge pages, MSRs, interrupts, serial, keyboard, mouse, the jump to user mode. Physical memory is an array of pages, and a copy of a page stays within it.
- pmm_init's search for the bitmap's own frames takes its virtual address as physical; the model takes that address as a parameter.
- Directories of the in-memory file system, the current directory, fs_init's log output and its search for disk images; permissions.
- ext2_open, ext2_read and ext2_list: the open-file handle keeps a block count instead of an identity, so there is no faithful specification. Indirect blocks are not read by the code either.
- System calls other than fork, read, open and close; shell, environment, both printf implementations, elf.c printers.
