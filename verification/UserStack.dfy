/** exec: mapping the user stack, giving it back when the program returns, and the whole launch. */
module UserStack {
  import opened Bits
  import opened PageTables
  import opened AddressSpaces
  import opened Processes
  import opened ElfLoader
  import Fork

  const STACK_FLAGS: nat := 7
  const STACK_END_PAGE: nat := 0x8_0000

  /** The frames behind the stack pages below `end`. */
  ghost function StackFrames(m: Memory, root: nat, end: nat): set<nat> {
    set p | STACK_FIRST_PAGE <= p < end && PageLeaf(m, root, p).Some? :: FrameOf(PageLeaf(m, root, p).value)
  }

  ghost predicate OnStackFrame(s: State, t: State, leaf: Option<nat>) {
    leaf.Some? && leaf.value == 4096 * FrameOf(leaf.value) + STACK_FLAGS
    && FrameOf(leaf.value) in s.free && FrameOf(leaf.value) !in t.tables
  }

  /** Stack pages below `end` have frames of their own, taken from the free set; apart from them only
      page tables were taken. */
  ghost predicate StackMapped(s: State, t: State, root: nat, end: nat) {
    && Undisturbed(s, t, root) && Private(t, root)
    && (forall p :: STACK_FIRST_PAGE <= p < end ==> OnStackFrame(s, t, PageLeaf(t.mem, root, p)))
    && (forall p :: 0 <= p < USER_PAGES && !(STACK_FIRST_PAGE <= p < end) ==>
         PageLeaf(t.mem, root, p) == PageLeaf(s.mem, root, p))
    && t.free == s.free - t.tables.Keys - StackFrames(t.mem, root, end)
  }

  /** Stack pages below `end` are gone and their frames are free again; nothing else changed. */
  ghost predicate StackReleased(s: State, t: State, root: nat, end: nat) {
    && |t.mem| == |s.mem| && t.tables == s.tables && Private(t, root)
    && (forall r, v :: IsRoot(s.tables, r) && r != root && 0 <= v < USER_LIMIT ==>
         Leaf(t.mem, r, v) == Leaf(s.mem, r, v))
    && (forall f :: 0 <= f < |s.mem| && f !in s.tables ==> t.mem[f] == s.mem[f])
    && (forall p :: 0 <= p < USER_PAGES ==>
          PageLeaf(t.mem, root, p) == if STACK_FIRST_PAGE <= p < end then None else PageLeaf(s.mem, root, p))
    && t.free == s.free + StackFrames(s.mem, root, end)
  }

  /** Stack leaves carry no high flag, so their translations are their frames. */
  ghost predicate PlainStack(m: Memory, root: nat) {
    forall p :: STACK_FIRST_PAGE <= p < STACK_END_PAGE && PageLeaf(m, root, p).Some? ==>
      PageLeaf(m, root, p).value < LEAF_LIMIT
  }

  /** Mapping the stack and then releasing it gives every frame back except those that became
      page tables, and leaves the process's other pages as they were. */
  lemma StackRoundTrip(s: State, t: State, u: State, root: nat)
    requires StackMapped(s, t, root, STACK_END_PAGE) && StackReleased(t, u, root, STACK_END_PAGE)
    ensures u.free == s.free - u.tables.Keys
    ensures forall p :: 0 <= p < USER_PAGES ==>
      PageLeaf(u.mem, root, p) == if STACK_FIRST_PAGE <= p < STACK_END_PAGE then None else PageLeaf(s.mem, root, p)
  {
    hide Leaf, FrameOf;
    var frames := StackFrames(t.mem, root, STACK_END_PAGE);
    forall f | f in frames ensures f in s.free && f !in t.tables {
      var p :| STACK_FIRST_PAGE <= p < STACK_END_PAGE && PageLeaf(t.mem, root, p).Some? &&
        f == FrameOf(PageLeaf(t.mem, root, p).value);
    }
  }

  lemma OneStackPageMore(s: State, t: State, u: State, root: nat, p: nat)
    requires WellFormed(t) && StackMapped(s, t, root, p) && STACK_FIRST_PAGE <= p < STACK_END_PAGE
    requires PageAdded(t, u, root, p, STACK_FLAGS)
    ensures StackMapped(s, u, root, p + 1)
  {
    hide Leaf, FrameOf, LivePage, Undisturbed;
    UndisturbedTransitive(s, t, u, root);
    AddedPageKeepsPrivate(t, u, root, p, STACK_FLAGS);
    var c := FrameOf(PageLeaf(u.mem, root, p).value);
    UndisturbedFacts(s, t, root);
    UndisturbedFacts(t, u, root);
    FramesOneMore(t.mem, u.mem, root, p);
  }

  lemma UndisturbedFacts(s: State, t: State, root: nat)
    requires Undisturbed(s, t, root)
    ensures t.free <= s.free && s.tables.Keys <= t.tables.Keys && |t.mem| == |s.mem|
    ensures forall f :: f in t.tables && f !in s.tables ==> f in s.free
  {
  }

  /** StackFrames is determined by the leaves, and grows by the next page's frame. */
  lemma FramesOneMore(m: Memory, n: Memory, root: nat, p: nat)
    requires STACK_FIRST_PAGE <= p
    requires forall q :: STACK_FIRST_PAGE <= q < p ==> PageLeaf(n, root, q) == PageLeaf(m, root, q)
    ensures StackFrames(n, root, p + 1) ==
      StackFrames(m, root, p) + (if PageLeaf(n, root, p).Some? then {FrameOf(PageLeaf(n, root, p).value)} else {})
  {
    hide Leaf, FrameOf;
    var longer, shorter := StackFrames(n, root, p + 1), StackFrames(m, root, p);
    forall f | f in shorter ensures f in longer {
      var q :| STACK_FIRST_PAGE <= q < p && PageLeaf(m, root, q).Some? && f == FrameOf(PageLeaf(m, root, q).value);
      assert PageLeaf(n, root, q) == PageLeaf(m, root, q);
    }
    forall f | f in longer
      ensures f in shorter || (PageLeaf(n, root, p).Some? && f == FrameOf(PageLeaf(n, root, p).value))
    {
      var q :| STACK_FIRST_PAGE <= q < p + 1 && PageLeaf(n, root, q).Some? && f == FrameOf(PageLeaf(n, root, q).value);
      if q < p {
        assert PageLeaf(m, root, q) == PageLeaf(n, root, q);
      }
    }
  }

  /** Page p, freed and unmapped. */
  lemma OneStackPageLess(s: State, t: State, u: State, root: nat, p: nat)
    requires WellFormed(t) && WellFormed(s) && Private(s, root) && StackReleased(s, t, root, p)
    requires STACK_FIRST_PAGE <= p < STACK_END_PAGE && PageLeaf(s.mem, root, p).Some?
    requires u.tables == t.tables && u.free == t.free + {FrameOf(PageLeaf(s.mem, root, p).value)} && |u.mem| == |t.mem|
    requires OnlyPageChanged(t.mem, u.mem, t.tables, root, 4096 * p, None)
    requires forall f :: 0 <= f < |t.mem| && f !in t.tables ==> u.mem[f] == t.mem[f]
    ensures StackReleased(s, u, root, p + 1)
  {
    hide Leaf, FrameOf, SamePage, LivePage;
    forall q | 0 <= q < USER_PAGES
      ensures PageLeaf(u.mem, root, q) == if q == p then None else PageLeaf(t.mem, root, q)
    {
      PagesDiffer(q, p);
    }
    forall r, v | IsRoot(s.tables, r) && r != root && 0 <= v < USER_LIMIT
      ensures Leaf(u.mem, r, v) == Leaf(s.mem, r, v)
    {
      assert Leaf(t.mem, r, v) == Leaf(s.mem, r, v);
    }
    FramesOneMore(s.mem, s.mem, root, p);
    LessKeepsPrivate(s, t, u, root, p);
  }

  lemma LessKeepsPrivate(s: State, t: State, u: State, root: nat, p: nat)
    requires Private(s, root) && Private(t, root) && p < USER_PAGES && PageLeaf(s.mem, root, p).Some?
    requires PageLeaf(t.mem, root, p) == PageLeaf(s.mem, root, p)
    requires u.tables == t.tables && u.free == t.free + {FrameOf(PageLeaf(s.mem, root, p).value)} && |u.mem| == |t.mem|
    requires forall q :: 0 <= q < USER_PAGES ==>
      PageLeaf(u.mem, root, q) == if q == p then None else PageLeaf(t.mem, root, q)
    ensures Private(u, root)
  {
    hide Leaf, FrameOf;
    forall q | 0 <= q < USER_PAGES ensures LivePage(u, root, q) {
      assert LivePage(t, root, q);
    }
  }

  lemma NothingLess(s: State, t: State, root: nat, p: nat)
    requires StackReleased(s, t, root, p) && STACK_FIRST_PAGE <= p < STACK_END_PAGE && PageLeaf(s.mem, root, p) == None
    ensures StackReleased(s, t, root, p + 1)
  {
    hide Leaf, FrameOf;
    FramesOneMore(s.mem, s.mem, root, p);
  }

  /** What the translation of a stack page says while earlier ones are being released. */
  lemma StackFrameOf(s: State, t: State, root: nat, p: nat)
    requires WellFormed(t) && Private(s, root) && PlainStack(s.mem, root) && StackReleased(s, t, root, p)
    requires STACK_FIRST_PAGE <= p < STACK_END_PAGE
    ensures PageLeaf(t.mem, root, p) == PageLeaf(s.mem, root, p) && IsRoot(t.tables, root)
    ensures var r := Translate(t.mem, root, 4096 * p);
            r % 4096 == 0 && if r == 0 then PageLeaf(s.mem, root, p) == None
            else PageLeaf(s.mem, root, p).Some? && r / 4096 == FrameOf(PageLeaf(s.mem, root, p).value)
                 && r / 4096 < |t.mem| && r / 4096 !in t.tables
  {
    hide Lookup;
    assert LivePage(t, root, p);
  }

  class Exec {
    const vm: VirtualMemory
    const loader: Loader

    constructor (spaces: VirtualMemory)
      ensures vm == spaces && loader.vm == spaces
    {
      vm := spaces;
      loader := new Loader(spaces);
    }

    method MapStack(root: nat) returns (ok: bool)
      requires vm.Valid() && loader.vm == vm && Private(vm.View(), root)
      modifies vm`tables, vm.frames, vm.pmm`lastIndex, vm.pmm.bitmap
      ensures vm.Valid() && Undisturbed(old(vm.View()), vm.View(), root)
      ensures ok ==> StackMapped(old(vm.View()), vm.View(), root, STACK_END_PAGE)
      ensures !ok ==> NearlyExhausted(vm.pmm.FreeFrames())
    {
      hide Leaf, Lookup, FrameOf, Shape, Undisturbed, LivePage, PageAdded, StackFrames;
      ghost var s := vm.View();
      StartUndisturbed(s, root);
      NoFramesYet(s.mem, root);
      for p := STACK_FIRST_PAGE to STACK_END_PAGE
        invariant vm.Valid() && StackMapped(s, vm.View(), root, p)
      {
        ghost var t := vm.View();
        var c, added := loader.AddPage(root, p, STACK_FLAGS);
        UndisturbedTransitive(s, t, vm.View(), root);
        if !added {
          return false;
        }
        OneStackPageMore(s, t, vm.View(), root, p);
      }
      return true;
    }

    method ReleaseStack(root: nat)
      requires vm.Valid() && Private(vm.View(), root) && PlainStack(vm.frames[..], root)
      requires Releasable(vm.frames[..], root, vm.pmm.FrameCount(), vm.kernelRoot)
      modifies vm.frames, vm.pmm.bitmap
      ensures vm.Valid() && StackReleased(old(vm.View()), vm.View(), root, STACK_END_PAGE)
    {
      hide Leaf, Lookup, FrameOf, Shape, LivePage, StackFrames, StackReleased, PageBits, Translate, SamePage,
           OnlyPageChanged;
      ghost var s := vm.View();
      NothingReleased(s, root);
      for p := STACK_FIRST_PAGE to STACK_END_PAGE
        invariant vm.Valid() && StackReleased(s, vm.View(), root, p)
      {
        ghost var t := vm.View();
        StackFrameOf(s, t, root, p);
        var phys := vm.GetPhysicalAddress(root, 4096 * p);
        if phys != 0 {
          vm.pmm.FreeFrame(phys);
          assert vm.View() == t.(free := t.free + {phys / 4096});
          vm.UnmapPage(root, 4096 * p);
          OneStackPageLess(s, t, vm.View(), root, p);
        } else {
          NothingLess(s, t, root, p);
        }
      }
    }

    /** A new process: fresh address space, loaded segments, mapped stack. Nothing of any other process changes,
        neither its translations nor the content of a frame that was in use. */
    method Launch(segs: seq<Segment>, file: seq<Byte>) returns (root: nat, ok: bool)
      requires vm.Valid() && loader.vm == vm && InFile(segs, file)
      modifies vm`tables, vm.frames, vm.pmm`lastIndex, vm.pmm.bitmap
      ensures vm.Valid() && Undisturbed(old(vm.View()), vm.View(), root)
      ensures SameTranslations(old(vm.frames[..]), vm.frames[..], old(vm.tables))
      ensures ok ==> root !in old(vm.tables) && Private(vm.View(), root)
      ensures ok ==> PlainStack(vm.frames[..], root) &&
                     Releasable(vm.frames[..], root, vm.pmm.FrameCount(), vm.kernelRoot)
      ensures ok ==> exists s, t :: Begun(old(vm.View()), s, root) && Launched(s, t, vm.View(), root, segs, file)
      ensures !ok ==> NearlyExhausted(vm.pmm.FreeFrames())
    {
      hide Leaf, Lookup, FrameOf, Shape, LivePage, Loaded, StackMapped, Undisturbed, PlainStack, Releasable, Begun,
           Launched;
      ghost var s0 := vm.View();
      root, ok := vm.CreateAddressSpace();
      if !ok {
        StartUndisturbed(s0, root);
        return;
      }
      ghost var s := vm.View();
      BegunFacts(s0, s, root);
      ok := loader.LoadSegments(root, segs, file);
      ghost var t := vm.View();
      OthersKept(s0, s, t, root);
      if !ok {
        return;
      }
      LoadedFacts(s, t, root, segs, file);
      ok := MapStack(root);
      UndisturbedTransitive(s, t, vm.View(), root);
      OthersKept(s0, s, vm.View(), root);
      if ok {
        StackFacts(t, vm.View(), root);
        StackIsPlain(s0, s, t, vm.View(), root, vm.pmm.FrameCount(), vm.kernelRoot);
        LaunchedByParts(s0, s, t, vm.View(), root, segs, file);
      }
    }

    /** A program launched and, once it has returned with its memory map as it was, its stack released. */
    method Execute(segs: seq<Segment>, file: seq<Byte>) returns (root: nat, ok: bool)
      requires vm.Valid() && loader.vm == vm && InFile(segs, file)
      modifies vm`tables, vm.frames, vm.pmm`lastIndex, vm.pmm.bitmap
      ensures vm.Valid()
      ensures ok ==> exists s, t, u :: Begun(old(vm.View()), s, root) && Launched(s, t, u, root, segs, file)
                                    && StackReleased(u, vm.View(), root, STACK_END_PAGE)
      ensures !ok ==> NearlyExhausted(vm.pmm.FreeFrames())
    {
      hide Begun, Launched, StackReleased, Private, PlainStack, Releasable, Undisturbed;
      root, ok := Launch(segs, file);
      if ok {
        ReleaseStack(root);
      }
    }
  }

  /** s is s0 with a new address space whose lower half is empty. */
  ghost predicate Begun(s0: State, s: State, root: nat) {
    && root in s0.free && s.tables == s0.tables[root := Root] && s.free == s0.free - {root}
    && |s.mem| == |s0.mem| && (forall f :: 0 <= f < |s.mem| && f != root ==> s.mem[f] == s0.mem[f])
    && SameTranslations(s0.mem, s.mem, s0.tables)
    && forall v :: 0 <= v < USER_LIMIT ==> Leaf(s.mem, root, v) == None
  }

  /** Stack frames are managed ones and none is the kernel's root. */
  ghost predicate Releasable(m: Memory, root: nat, frameCount: nat, kernelRoot: nat) {
    forall p :: STACK_FIRST_PAGE <= p < STACK_END_PAGE && PageLeaf(m, root, p).Some? ==>
      FrameOf(PageLeaf(m, root, p).value) < frameCount && FrameOf(PageLeaf(m, root, p).value) != kernelRoot
  }

  lemma BegunFacts(s0: State, s: State, root: nat)
    requires root in s0.free && s.tables == s0.tables[root := Root] && s.free == s0.free - {root} && root !in s0.tables
    requires |s.mem| == |s0.mem| && (forall f :: 0 <= f < |s.mem| && f != root ==> s.mem[f] == s0.mem[f])
    requires SameTranslations(s0.mem, s.mem, s0.tables) &&
      forall v :: 0 <= v < USER_LIMIT ==> Leaf(s.mem, root, v) == None
    ensures Begun(s0, s, root) && Private(s, root)
    ensures forall p :: 0 <= p < USER_PAGES ==> PageLeaf(s.mem, root, p) == None
  {
    hide Lookup, Leaf;
  }

  lemma StackIsPlain(s0: State, s: State, t: State, u: State, root: nat, frameCount: nat, kernelRoot: nat)
    requires Begun(s0, s, root) && Undisturbed(s, t, root) && StackMapped(t, u, root, STACK_END_PAGE)
    requires forall f :: f in s0.free ==> f < frameCount && f != kernelRoot && f < 0x10_0000
    ensures PlainStack(u.mem, root) && Releasable(u.mem, root, frameCount, kernelRoot)
  {
    hide Leaf, FrameOf;
    forall p | STACK_FIRST_PAGE <= p < STACK_END_PAGE
      ensures OnStackFrame(t, u, PageLeaf(u.mem, root, p)) && FrameOf(PageLeaf(u.mem, root, p).value) in s0.free
    {
      assert OnStackFrame(t, u, PageLeaf(u.mem, root, p));
    }
  }

  lemma LaunchedByParts(s0: State, s: State, t: State, u: State, root: nat, segs: seq<Segment>, file: seq<Byte>)
    requires InFile(segs, file) && Begun(s0, s, root) && Loaded(s, t, root, segs, file, |segs|) &&
      StackMapped(t, u, root, STACK_END_PAGE)
    requires forall p :: 0 <= p < USER_PAGES ==> PageLeaf(s.mem, root, p) == None
    ensures exists a, b :: Begun(s0, a, root) && Launched(a, b, u, root, segs, file)
  {
    hide Leaf, Begun, Loaded, StackMapped;
    assert Launched(s, t, u, root, segs, file);
  }

  /** After a launch every page below the stack still shows what was loaded: the flat image, in the final memory. */
  lemma LaunchedImage(s: State, t: State, u: State, root: nat, segs: seq<Segment>, file: seq<Byte>, j: nat, a: nat)
    requires InFile(segs, file) && PageDisjoint(segs) && Launched(s, t, u, root, segs, file) &&
      a / 4096 < STACK_FIRST_PAGE
    requires j < |segs| && segs[j].load && Holds(segs[j], a)
    ensures PageContent(u.mem, root, a / 4096).Some? <==> Visits(segs[j], a / 4096)
    ensures PageContent(u.mem, root, a / 4096).Some? ==>
      PageContent(u.mem, root, a / 4096).value[a % 4096] == ByteAt(segs[j], file, a)
  {
    hide Leaf, FrameOf, ByteAt, IsImage;
    ByteOfDisjoint(s, t, root, segs, file, j, a);
    assert PageLeaf(u.mem, root, a / 4096) == PageLeaf(t.mem, root, a / 4096) && LivePage(t, root, a / 4096);
  }

  /** What a launched program may do with its pages: below the stack what the last segment to reach the page says,
      everything on the stack, and there are no others. */
  lemma LaunchedRights(s: State, t: State, u: State, root: nat, segs: seq<Segment>, file: seq<Byte>, p: nat)
    requires InFile(segs, file) && WellFormed(t) && WellFormed(u) && Launched(s, t, u, root, segs, file)
    requires p < USER_PAGES
    ensures PageLeaf(u.mem, root, p).Some? <==>
      STACK_FIRST_PAGE <= p < STACK_END_PAGE || LastVisitor(segs, |segs|, p).Some?
    ensures PageLeaf(u.mem, root, p).Some? ==>
      PageRights(u.mem, root, p) ==
        if STACK_FIRST_PAGE <= p < STACK_END_PAGE then Rights(true, true, true)
        else var seg := segs[LastVisitor(segs, |segs|, p).value]; Rights(seg.writable, true, seg.executable)
  {
    hide Lookup, Shape, LivePage, Undisturbed, IsImage, EntryAllows, FrameOf, Allowed;
    assert PageFate(s, t, root, segs, file, |segs|, p);
    if STACK_FIRST_PAGE <= p < STACK_END_PAGE {
      assert OnStackFrame(t, u, PageLeaf(u.mem, root, p));
      StackEntry(PageLeaf(u.mem, root, p).value);
      LeafDecides(u.mem, u.tables, root, 4096 * p);
    } else if LastVisitor(segs, |segs|, p).Some? {
      LoadedRights(s, t, root, segs, file, p);
      LeafDecides(t.mem, t.tables, root, 4096 * p);
      LeafDecides(u.mem, u.tables, root, 4096 * p);
    }
  }

  lemma StackEntry(e: nat)
    requires e == 4096 * FrameOf(e) + STACK_FLAGS
    ensures EntryAllows(e) == Rights(true, true, true)
  {
    EntryRights(FrameOf(e), STACK_FLAGS);
  }

  /** So a launched program that forks passes its rights on if and only if no segment that owns a page below the
      stack is writable: the child cannot write its data. */
  lemma LaunchedForkRightsIff(s: State, t: State, u: State, root: nat, segs: seq<Segment>, file: seq<Byte>,
                              v: State, child: nat)
    requires InFile(segs, file) && WellFormed(t) && Launched(s, t, u, root, segs, file)
    requires Fork.Forked(u, v, root, child)
    ensures (forall p :: 0 <= p < Fork.FORK_PAGES && PageLeaf(u.mem, root, p).Some? ==>
               PageRights(v.mem, child, p) == PageRights(u.mem, root, p))
            <==> forall p :: 0 <= p < STACK_FIRST_PAGE && LastVisitor(segs, |segs|, p).Some? ==>
                   !segs[LastVisitor(segs, |segs|, p).value].writable
  {
    hide Leaf, Allowed, Launched, Fork.CopiedBelow, LivePage, WellFormed;
    Fork.ForkKeepsRightsIff(u, v, root, child);
    if forall p :: 0 <= p < Fork.FORK_PAGES && PageLeaf(u.mem, root, p).Some? ==>
         PageRights(u.mem, root, p) == Rights(Fork.OnStack(p), true, true) {
      forall p | 0 <= p < STACK_FIRST_PAGE && LastVisitor(segs, |segs|, p).Some?
        ensures !segs[LastVisitor(segs, |segs|, p).value].writable
      {
        RightsBeforeFork(s, t, u, root, segs, file, p);
        assert PageLeaf(u.mem, root, p).Some?;
      }
    } else {
      var p :| 0 <= p < Fork.FORK_PAGES && PageLeaf(u.mem, root, p).Some? &&
        PageRights(u.mem, root, p) != Rights(Fork.OnStack(p), true, true);
      RightsBeforeFork(s, t, u, root, segs, file, p);
    }
  }

  lemma RightsBeforeFork(s: State, t: State, u: State, root: nat, segs: seq<Segment>, file: seq<Byte>, p: nat)
    requires InFile(segs, file) && WellFormed(t) && WellFormed(u) && Launched(s, t, u, root, segs, file)
    requires Fork.ForkableParent(u, root) && p < Fork.FORK_PAGES
    ensures PageLeaf(u.mem, root, p).Some? <==> p >= STACK_FIRST_PAGE || LastVisitor(segs, |segs|, p).Some?
    ensures PageLeaf(u.mem, root, p).Some? ==>
      (PageRights(u.mem, root, p) == Rights(Fork.OnStack(p), true, true) <==>
       p >= STACK_FIRST_PAGE || !segs[LastVisitor(segs, |segs|, p).value].writable)
  {
    hide Leaf, Allowed, Launched, LivePage, WellFormed;
    LaunchedRights(s, t, u, root, segs, file, p);
    if PageLeaf(u.mem, root, p).Some? {
      LowLeafExecutes(u, root, p);
    }
  }

  lemma LowLeafExecutes(u: State, root: nat, p: nat)
    requires WellFormed(u) && IsRoot(u.tables, root) && p < USER_PAGES
    requires PageLeaf(u.mem, root, p).Some? && PageLeaf(u.mem, root, p).value < LEAF_LIMIT
    ensures PageRights(u.mem, root, p).execute
  {
    hide Lookup, Shape, Allowed;
    LeafDecides(u.mem, u.tables, root, 4096 * p);
  }

  /** s: the empty address space; t: segments loaded; u: stack mapped as well. */
  ghost predicate Launched(s: State, t: State, u: State, root: nat, segs: seq<Segment>, file: seq<Byte>)
    requires InFile(segs, file)
  {
    && (forall p :: 0 <= p < USER_PAGES ==> PageLeaf(s.mem, root, p) == None)
    && Loaded(s, t, root, segs, file, |segs|)
    && StackMapped(t, u, root, STACK_END_PAGE)
  }

  /** Whatever segment ends up owning page p is executable. */
  predicate ExecutableAt(segs: seq<Segment>, p: nat) {
    LastVisitor(segs, |segs|, p).Some? ==> segs[LastVisitor(segs, |segs|, p).value].executable
  }

  /** Forking a launched program copies from physical memory only, and so meets fork's contract, exactly when
      every page below its stack that a segment owns is executable: the loader marks the others no-execute, and
      fork's address translation keeps that bit. */
  lemma LaunchedForkable(s: State, t: State, u: State, root: nat, segs: seq<Segment>, file: seq<Byte>)
    requires InFile(segs, file) && Launched(s, t, u, root, segs, file) && |u.mem| <= 0x100_0000
    ensures Fork.CopiesFromMemory(u, root) <==> forall p :: 0 <= p < STACK_FIRST_PAGE ==> ExecutableAt(segs, p)
    ensures Fork.ForkableParent(u, root) <==> Fork.CopiesFromMemory(u, root)
  {
    hide Leaf, FrameOf, LivePage, ExecutableAt, Fork.CopiesFromMemory;
    forall p | 0 <= p < Fork.FORK_PAGES
      ensures (PageLeaf(u.mem, root, p).Some? ==> PageLeaf(u.mem, root, p).value < LEAF_LIMIT) <==>
              (p < STACK_FIRST_PAGE ==> ExecutableAt(segs, p))
    {
      HighLeaf(s, t, u, root, segs, file, p);
    }
    Fork.ForkableIff(u, root);
    if Fork.ForkableParent(u, root) {
      forall p | 0 <= p < STACK_FIRST_PAGE ensures ExecutableAt(segs, p) {
        assert p < Fork.FORK_PAGES && LivePage(u, root, p);
      }
    } else {
      assert IsRoot(u.tables, root);
      var p :| 0 <= p < Fork.FORK_PAGES
        && !(LivePage(u, root, p) && (PageLeaf(u.mem, root, p).Some? ==> PageLeaf(u.mem, root, p).value < LEAF_LIMIT));
      assert LivePage(u, root, p);
    }
  }

  lemma HighLeaf(s: State, t: State, u: State, root: nat, segs: seq<Segment>, file: seq<Byte>, p: nat)
    requires InFile(segs, file) && Launched(s, t, u, root, segs, file) && p < Fork.FORK_PAGES && |u.mem| <= 0x100_0000
    ensures (PageLeaf(u.mem, root, p).Some? ==> PageLeaf(u.mem, root, p).value < LEAF_LIMIT) <==>
            (p < STACK_FIRST_PAGE ==> ExecutableAt(segs, p))
  {
    hide Leaf, FrameOf, IsImage;
    assert LivePage(u, root, p);
    if p < STACK_FIRST_PAGE {
      assert PageFate(s, t, root, segs, file, |segs|, p);
    }
  }

  lemma NoFramesYet(m: Memory, root: nat)
    ensures StackFrames(m, root, STACK_FIRST_PAGE) == {}
  {
  }

  lemma NothingReleased(s: State, root: nat)
    requires Private(s, root)
    ensures StackReleased(s, s, root, STACK_FIRST_PAGE)
  {
    hide Leaf, FrameOf, LivePage;
    NoFramesYet(s.mem, root);
  }

  /** What happens in the new address space leaves everything that was there before alone. */
  lemma OthersKept(s0: State, s: State, t: State, root: nat)
    requires Begun(s0, s, root) && Undisturbed(s, t, root) && root !in s0.tables
    ensures SameTranslations(s0.mem, t.mem, s0.tables) && Undisturbed(s0, t, root)
  {
    hide Leaf;
    forall r, v | IsRoot(s0.tables, r) && 0 <= v < USER_LIMIT ensures Leaf(t.mem, r, v) == Leaf(s0.mem, r, v) {
      assert IsRoot(s.tables, r) && Leaf(s.mem, r, v) == Leaf(s0.mem, r, v);
    }
  }

  lemma StackFacts(s: State, t: State, root: nat)
    requires StackMapped(s, t, root, STACK_END_PAGE)
    ensures Private(t, root)
  {
  }

  lemma LoadedFacts(s: State, t: State, root: nat, segs: seq<Segment>, file: seq<Byte>)
    requires InFile(segs, file) && Loaded(s, t, root, segs, file, |segs|)
    ensures Private(t, root)
  {
  }
}
