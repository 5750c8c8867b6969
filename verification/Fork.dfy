/** The fork system call: a page-by-page copy of the parent's user memory into a new
    address space. */
module Fork {
  import opened Bits
  import opened PageTables
  import opened AddressSpaces
  import opened Processes
  import FA = FrameAllocator

  const USER_STACK_TOP: nat := 0x7FFF_F000
  const USER_STACK_BOTTOM: nat := 0x7FFF_8000
  const FORK_PAGES: nat := 0x8_0000      // pages below 0x80000000

  /** Every user page below 0x80000000 is live and its leaf has the top twelve bits clear. */
  ghost predicate ForkableParent(s: State, parent: nat) {
    IsRoot(s.tables, parent) &&
    forall p :: 0 <= p < FORK_PAGES ==>
      LivePage(s, parent, p) && (PageLeaf(s.mem, parent, p).Some? ==> PageLeaf(s.mem, parent, p).value < LEAF_LIMIT)
  }

  /** Every page the fork loop copies has its source inside physical memory. */
  ghost predicate CopiesFromMemory(s: State, parent: nat) {
    forall p :: 0 <= p < FORK_PAGES && PageLeaf(s.mem, parent, p).Some? ==>
      Translate(s.mem, parent, 4096 * p) / 4096 < |s.mem|
  }

  /** A leaf with any of its twelve top bits set makes the loop copy from beyond physical memory. */
  lemma HighLeafLeavesMemory(m: Memory, root: nat, p: nat)
    requires |m| <= 0x100_0000 && PageLeaf(m, root, p).Some? && PageLeaf(m, root, p).value >= LEAF_LIMIT
    ensures Translate(m, root, 4096 * p) / 4096 >= |m|
  {
  }

  /** So a process all of whose pages are live can be forked exactly when every copy has its source in memory. */
  lemma ForkableIff(s: State, parent: nat)
    requires IsRoot(s.tables, parent) && |s.mem| <= 0x100_0000
    requires forall p :: 0 <= p < FORK_PAGES ==> LivePage(s, parent, p)
    ensures ForkableParent(s, parent) <==> CopiesFromMemory(s, parent)
  {
    hide Leaf, Translate, LivePage;
    forall p | 0 <= p < FORK_PAGES && PageLeaf(s.mem, parent, p).Some?
      ensures PageLeaf(s.mem, parent, p).value < LEAF_LIMIT <==> Translate(s.mem, parent, 4096 * p) / 4096 < |s.mem|
    {
      if PageLeaf(s.mem, parent, p).value >= LEAF_LIMIT {
        HighLeafLeavesMemory(s.mem, parent, p);
      } else {
        LowLeafInMemory(s, parent, p);
      }
    }
  }

  lemma LowLeafInMemory(s: State, parent: nat, p: nat)
    requires LivePage(s, parent, p) && PageLeaf(s.mem, parent, p).Some? && PageLeaf(s.mem, parent, p).value < LEAF_LIMIT
    ensures Translate(s.mem, parent, 4096 * p) / 4096 < |s.mem|
  {
    hide Lookup;
  }

  /** The flags given to the copy of page p. */
  function ChildFlags(p: nat): (flags: nat)
    ensures flags < 4096 && Present(flags)
  {
    PTE_PRESENT + PTE_USER + (if USER_STACK_BOTTOM <= 4096 * p <= USER_STACK_TOP then PTE_WRITABLE else 0)
  }

  /** Page p of the child is its own frame, once free, holding what the parent's page held. */
  ghost predicate Copied(s: State, t: State, parent: nat, child: nat, p: nat) {
    match PageLeaf(s.mem, parent, p)
    case None => PageLeaf(t.mem, child, p) == None
    case Some(e) =>
      && FrameOf(e) < |s.mem|
      && PageLeaf(t.mem, child, p).Some?
      && var c := FrameOf(PageLeaf(t.mem, child, p).value);
         c in s.free && c !in t.free && c !in t.tables && c < |t.mem|
         && PageLeaf(t.mem, child, p) == Some(4096 * c + ChildFlags(p))
         && t.mem[c] == s.mem[FrameOf(e)]
  }

  /** The first `end` pages are copied, each to a frame of its own; the rest are unmapped. */
  ghost predicate CopiedBelow(s: State, t: State, parent: nat, child: nat, end: nat) {
    && Undisturbed(s, t, child)
    && IsRoot(t.tables, child) && child in s.free
    && (forall p :: 0 <= p < end ==> Copied(s, t, parent, child, p))
    && (forall p :: end <= p < USER_PAGES ==> PageLeaf(t.mem, child, p) == None)
    && (forall p, q :: 0 <= p < q < end && PageLeaf(t.mem, child, p).Some? && PageLeaf(t.mem, child, q).Some? ==>
          FrameOf(PageLeaf(t.mem, child, p).value) != FrameOf(PageLeaf(t.mem, child, q).value))
  }

  lemma SkipPage(s: State, t: State, parent: nat, child: nat, p: nat)
    requires CopiedBelow(s, t, parent, child, p) && p < FORK_PAGES
    requires PageLeaf(s.mem, parent, p) == None
    ensures CopiedBelow(s, t, parent, child, p + 1)
  {
    hide Leaf, FrameOf;
  }

  lemma CopyStep(s: State, t: State, c: nat, u: State, parent: nat, child: nat, p: nat)
    requires WellFormed(s) && WellFormed(t) && ForkableParent(s, parent) && p < FORK_PAGES
    requires CopiedBelow(s, t, parent, child, p)
    requires PageLeaf(s.mem, parent, p).Some? && c in t.free
    requires var e := PageLeaf(s.mem, parent, p).value;
             FrameOf(e) < |t.mem| && Grows(WithFrame(t, c, t.mem[FrameOf(e)]), u)
             && OnlyPageChanged(WithFrame(t, c, t.mem[FrameOf(e)]).mem, u.mem, t.tables, child, 4096 * p,
               Some(4096 * c + ChildFlags(p)))
    ensures CopiedBelow(s, u, parent, child, p + 1)
  {
    hide Leaf, FrameOf, SamePage, OnlyPageChanged, ChildFlags;
    var e := PageLeaf(s.mem, parent, p).value;
    var content := t.mem[FrameOf(e)];
    var entry := 4096 * c + ChildFlags(p);
    StepUndisturbed(s, t, c, content, u, child, 4096 * p, Some(entry));
    EntryFrame(c, ChildFlags(p));
    forall q | 0 <= q < USER_PAGES
      ensures PageLeaf(u.mem, child, q) == if q == p then Some(entry) else PageLeaf(t.mem, child, q)
    {
      StepLeaves(t, c, content, u, child, p, q, Some(entry));
    }
    forall q | 0 <= q < p + 1 ensures Copied(s, u, parent, child, q) {
      if q < p {
        CopySurvives(s, t, c, content, u, parent, child, q);
      } else {
        assert u.mem[c] == content;
      }
    }
    forall q, r | 0 <= q < r < p + 1 && PageLeaf(u.mem, child, q).Some? && PageLeaf(u.mem, child, r).Some?
      ensures FrameOf(PageLeaf(u.mem, child, q).value) != FrameOf(PageLeaf(u.mem, child, r).value)
    {
      assert Copied(s, t, parent, child, q);
    }
  }

  /** A page copied earlier is not touched by the next round. */
  lemma CopySurvives(s: State, t: State, c: nat, content: Page, u: State, parent: nat, child: nat, q: nat)
    requires WellFormed(t) && c in t.free && Grows(WithFrame(t, c, content), u)
    requires Copied(s, t, parent, child, q) && PageLeaf(u.mem, child, q) == PageLeaf(t.mem, child, q)
    ensures Copied(s, u, parent, child, q)
  {
    hide Leaf, FrameOf, ChildFlags;
  }

  /** Every frame taken since s is a page table or holds a page of the child. */
  ghost predicate Accounted(s: State, t: State, child: nat) {
    forall f :: f in s.free && f !in t.free ==> f in t.tables || Holds(t.mem, child, f)
  }

  ghost predicate Holds(m: Memory, root: nat, f: nat) {
    exists p :: 0 <= p < FORK_PAGES && PageLeaf(m, root, p).Some? && FrameOf(PageLeaf(m, root, p).value) == f
  }

  lemma AccountedStep(s: State, t: State, c: nat, content: Page, u: State, child: nat, p: nat, leaf: Option<nat>)
    requires WellFormed(t) && c in t.free && IsRoot(t.tables, child) && Accounted(s, t, child) && p < FORK_PAGES
    requires Grows(WithFrame(t, c, content), u)
    requires OnlyPageChanged(WithFrame(t, c, content).mem, u.mem, t.tables, child, 4096 * p, leaf)
    requires PageLeaf(t.mem, child, p) == None && leaf.Some? && FrameOf(leaf.value) == c
    ensures Accounted(s, u, child)
  {
    hide Leaf, FrameOf, SamePage, OnlyPageChanged;
    forall q | 0 <= q < FORK_PAGES
      ensures PageLeaf(u.mem, child, q) == if q == p then leaf else PageLeaf(t.mem, child, q)
    {
      StepLeaves(t, c, content, u, child, p, q, leaf);
    }
    forall f | f in s.free && f !in u.free ensures f in u.tables || Holds(u.mem, child, f) {
      if f in t.free && f !in u.tables {
        assert f == c && PageLeaf(u.mem, child, p) == leaf;
      } else if f !in t.tables && f !in t.free {
        var q :| 0 <= q < FORK_PAGES && PageLeaf(t.mem, child, q).Some? &&
          FrameOf(PageLeaf(t.mem, child, q).value) == f;
        assert PageLeaf(u.mem, child, q) == PageLeaf(t.mem, child, q);
      }
    }
  }

  lemma AccountedGiveBack(s: State, t: State, c: nat, content: Page, u: State, child: nat)
    requires WellFormed(t) && c in t.free && IsRoot(t.tables, child) && Accounted(s, t, child)
    requires Grows(WithFrame(t, c, content), u) && SameTranslations(WithFrame(t, c, content).mem, u.mem, t.tables)
    ensures Accounted(s, u.(free := u.free + {c}), child)
  {
    hide Leaf, FrameOf;
    TakeFrame(t, c, content);
    forall q | 0 <= q < FORK_PAGES ensures PageLeaf(u.mem, child, q) == PageLeaf(t.mem, child, q) {
      assert Leaf(WithFrame(t, c, content).mem, child, 4096 * q) == Leaf(t.mem, child, 4096 * q);
    }
    forall f | f in s.free && f !in u.free + {c} ensures f in u.tables || Holds(u.mem, child, f) {
      if f !in t.tables && f !in t.free {
        var q :| 0 <= q < FORK_PAGES && PageLeaf(t.mem, child, q).Some? &&
          FrameOf(PageLeaf(t.mem, child, q).value) == f;
        assert PageLeaf(u.mem, child, q) == PageLeaf(t.mem, child, q);
      }
    }
  }

  /** What the translation of page p of the parent says at this point of the copy. */
  lemma ParentFrame(s: State, t: State, parent: nat, child: nat, p: nat)
    requires WellFormed(s) && WellFormed(t) && ForkableParent(s, parent) && p < FORK_PAGES
    requires CopiedBelow(s, t, parent, child, p)
    ensures Undisturbed(s, t, child) && IsRoot(t.tables, parent) && IsRoot(t.tables, child) && child in s.free
    ensures 4096 * p < USER_LIMIT && PageLeaf(t.mem, child, p) == None
    ensures var r := Translate(t.mem, parent, 4096 * p);
            if r == 0 then PageLeaf(s.mem, parent, p) == None
            else PageLeaf(s.mem, parent, p).Some? && r / 4096 == FrameOf(PageLeaf(s.mem, parent, p).value)
                 && r / 4096 < |t.mem| && r / 4096 !in t.free
  {
    hide Lookup;
    assert Leaf(t.mem, parent, 4096 * p) == Leaf(s.mem, parent, 4096 * p);
  }

  lemma ChildEntry(c: nat, flags: nat)
    requires flags < 4096 && Present(flags)
    ensures LeafOf(BitOr(4096 * c, flags)) == Some(4096 * c + flags)
  {
    hide BitOr;
    OrLow(c, flags);
  }

  // ---- what a completed fork means -------------------------------------------------

  ghost predicate Forked(s: State, t: State, parent: nat, child: nat) {
    && WellFormed(s) && WellFormed(t) && ForkableParent(s, parent)
    && CopiedBelow(s, t, parent, child, FORK_PAGES)
  }

  /** Child and parent see the same memory image, which is the one the parent had. */
  lemma ForkMirrors(s: State, t: State, parent: nat, child: nat, p: nat)
    requires Forked(s, t, parent, child) && p < FORK_PAGES
    ensures PageContent(t.mem, child, p) == PageContent(s.mem, parent, p)
    ensures PageContent(t.mem, parent, p) == PageContent(s.mem, parent, p)
  {
    hide Lookup, FrameOf;
    assert Copied(s, t, parent, child, p);
    assert PageLeaf(t.mem, parent, p) == PageLeaf(s.mem, parent, p);
  }

  /** The pages of the stack. */
  predicate OnStack(p: nat) {
    USER_STACK_BOTTOM <= 4096 * p <= USER_STACK_TOP
  }

  /** The child may execute every page it has and write those of its stack. */
  lemma ChildRights(s: State, t: State, parent: nat, child: nat, p: nat)
    requires Forked(s, t, parent, child) && p < FORK_PAGES && PageLeaf(t.mem, child, p).Some?
    ensures PageRights(t.mem, child, p) == Rights(OnStack(p), true, true)
  {
    hide Lookup, Shape, EntryAllows;
    assert Copied(s, t, parent, child, p);
    EntryRights(FrameOf(PageLeaf(t.mem, child, p).value), ChildFlags(p));
    ChildFlagBits(p);
    LeafDecides(t.mem, t.tables, child, 4096 * p);
  }

  lemma ChildFlagBits(p: nat)
    ensures var flags := ChildFlags(p); flags / 4 % 2 == 1 && (flags / 2 % 2 == 1 <==> OnStack(p))
  {
  }

  /** Forking keeps the parent's rights if and only if the parent can execute every page it has and write exactly
      those of its stack. */
  lemma ForkKeepsRightsIff(s: State, t: State, parent: nat, child: nat)
    requires Forked(s, t, parent, child)
    ensures (forall p :: 0 <= p < FORK_PAGES && PageLeaf(s.mem, parent, p).Some? ==>
               PageRights(t.mem, child, p) == PageRights(s.mem, parent, p))
            <==> forall p :: 0 <= p < FORK_PAGES && PageLeaf(s.mem, parent, p).Some? ==>
                   PageRights(s.mem, parent, p) == Rights(OnStack(p), true, true)
  {
    hide Leaf, FrameOf, Allowed, ChildFlags;
    forall p | 0 <= p < FORK_PAGES && PageLeaf(s.mem, parent, p).Some?
      ensures PageRights(t.mem, child, p) == Rights(OnStack(p), true, true)
    {
      assert Copied(s, t, parent, child, p);
      ChildRights(s, t, parent, child, p);
    }
  }

  /** Storing into page p of the child is seen there and nowhere else in either process. */
  lemma ChildWritesStayPrivate(s: State, t: State, parent: nat, child: nat, p: nat, q: nat, x: Page)
    requires Forked(s, t, parent, child) && p < FORK_PAGES && q < FORK_PAGES
    requires PageLeaf(t.mem, child, p).Some?
    ensures var f := FrameOf(PageLeaf(t.mem, child, p).value);
            f < |t.mem| &&
            PageContent(t.mem[f := x], parent, q) == PageContent(t.mem, parent, q) &&
            PageContent(t.mem[f := x], child, q) == if q == p then Some(x) else PageContent(t.mem, child, q)
  {
    hide Leaf, FrameOf;
    assert Copied(s, t, parent, child, p) && Copied(s, t, parent, child, q);
    var f := FrameOf(PageLeaf(t.mem, child, p).value);
    WriteKeepsLeaves(t, f, x, parent, q);
    WriteKeepsLeaves(t, f, x, child, q);
    assert PageLeaf(t.mem, parent, q) == PageLeaf(s.mem, parent, q);
  }

  /** Storing into page p of the parent is never seen by the child. */
  lemma ParentWritesStayPrivate(s: State, t: State, parent: nat, child: nat, p: nat, q: nat, x: Page)
    requires Forked(s, t, parent, child) && p < FORK_PAGES && q < FORK_PAGES
    requires PageLeaf(t.mem, parent, p).Some?
    ensures var f := FrameOf(PageLeaf(t.mem, parent, p).value);
            f < |t.mem| && PageContent(t.mem[f := x], child, q) == PageContent(t.mem, child, q)
  {
    hide Leaf, FrameOf;
    assert Copied(s, t, parent, child, q);
    assert PageLeaf(t.mem, parent, p) == PageLeaf(s.mem, parent, p);
    var f := FrameOf(PageLeaf(t.mem, parent, p).value);
    WriteKeepsLeaves(t, f, x, child, q);
  }

  class Forker {
    const vm: VirtualMemory
    var nextPid: nat

    constructor (spaces: VirtualMemory)
      ensures vm == spaces && nextPid == 1
    {
      vm := spaces;
      nextPid := 1;
    }

    /** A frame of its own holding what the frame at `source` holds. */
    method CloneFrame(source: nat) returns (address: nat)
      requires vm.Valid() && source / FA.PAGE_SIZE < vm.frames.Length && source / FA.PAGE_SIZE !in vm.pmm.FreeFrames()
      modifies vm.frames, vm.pmm`lastIndex, vm.pmm.bitmap
      ensures address == 0 ==> vm.Valid() && vm.View() == old(vm.View()) && NearlyExhausted(vm.pmm.FreeFrames())
      ensures address != 0 ==>
        && address % FA.PAGE_SIZE == 0 && address / FA.PAGE_SIZE in old(vm.pmm.FreeFrames())
        && vm.View() == WithFrame(old(vm.View()), address / FA.PAGE_SIZE, old(vm.frames[source / FA.PAGE_SIZE]))
        && vm.Valid()
    {
      hide Leaf, Lookup, Shape, SameTranslations;
      ghost var t := vm.View();
      address := vm.pmm.AllocFrame();
      if address != 0 {
        TakeFrame(t, address / FA.PAGE_SIZE, vm.frames[source / FA.PAGE_SIZE]);
        vm.frames[address / FA.PAGE_SIZE] := vm.frames[source / FA.PAGE_SIZE];
      }
    }

    /** One round of the copy loop. */
    method CopyPage(ghost s: State, parent: nat, child: nat, p: nat) returns (ok: bool)
      requires vm.Valid() && WellFormed(s) && ForkableParent(s, parent) && p < FORK_PAGES
      requires CopiedBelow(s, vm.View(), parent, child, p) && Accounted(s, vm.View(), child)
      modifies vm`tables, vm.frames, vm.pmm`lastIndex, vm.pmm.bitmap
      ensures vm.Valid() && Undisturbed(s, vm.View(), child) && Accounted(s, vm.View(), child)
      ensures ok ==> CopiedBelow(s, vm.View(), parent, child, p + 1)
      ensures !ok ==> NearlyExhausted(vm.pmm.FreeFrames())
    {
      hide Leaf, Lookup, FrameOf, PageBits, Shape, Entry, OnlyPageChanged, Grows, SamePage, Present, CopiedBelow,
           Undisturbed, ForkableParent, SameTranslations, Translate, BitOr;
      ghost var t := vm.View();
      ParentFrame(s, t, parent, child, p);
      var parentPhys := vm.GetPhysicalAddress(parent, 4096 * p);
      if parentPhys == 0 {
        SkipPage(s, t, parent, child, p);
        return true;
      }
      var childPhys := CloneFrame(parentPhys);
      if childPhys == 0 {
        return false;
      }
      ghost var c := childPhys / FA.PAGE_SIZE;
      ghost var content := t.mem[parentPhys / FA.PAGE_SIZE];
      var flags := ChildFlags(p);
      ok := vm.MapPage(child, 4096 * p, childPhys, flags);
      StepUndisturbed(s, t, c, content, vm.View(), child, 4096 * p, LeafOf(BitOr(childPhys, flags)));
      if ok {
        ChildEntry(c, flags);
        CopyStep(s, t, c, vm.View(), parent, child, p);
        EntryFrame(c, flags);
        AccountedStep(s, t, c, content, vm.View(), child, p, Some(4096 * c + flags));
      } else {
        AccountedGiveBack(s, t, c, content, vm.View(), child);
        GiveBack(s, t, c, content, vm.View(), child);
        vm.pmm.FreeFrame(childPhys);
      }
    }

    /** The child's pid, or -1. On success the child holds an equal copy of every page below
        0x80000000 in frames nobody used before; in every case nothing of the caller changes. */
    method Fork(parent: nat) returns (result: int, child: nat)
      requires vm.Valid() && ForkableParent(vm.View(), parent) && nextPid > 0
      modifies this, vm`tables, vm.frames, vm.pmm`lastIndex, vm.pmm.bitmap
      ensures vm.Valid() && Undisturbed(old(vm.View()), vm.View(), child)
      ensures SameTranslations(old(vm.frames[..]), vm.frames[..], old(vm.tables))
      ensures result == -1 ==> nextPid == old(nextPid) && NearlyExhausted(vm.pmm.FreeFrames())
      ensures Accounted(old(vm.View()), vm.View(), child)
      ensures result != -1 ==> result == old(nextPid) && nextPid == old(nextPid) + 1
      ensures result != -1 ==> CopiedBelow(old(vm.View()), vm.View(), parent, child, FORK_PAGES)
    {
      hide Leaf, FrameOf, Shape, Entry, OnlyPageChanged, Grows, SamePage, Present;
      ghost var s := vm.View();
      var ok;
      child, ok := vm.CreateAddressSpace();
      if !ok {
        return -1, child;
      }
      for p := 0 to FORK_PAGES
        invariant vm.Valid() && nextPid == old(nextPid)
        invariant CopiedBelow(s, vm.View(), parent, child, p) && Accounted(s, vm.View(), child)
      {
        var copied := CopyPage(s, parent, child, p);
        if !copied {
          return -1, child;
        }
      }
      result := nextPid;
      nextPid := nextPid + 1;
    }
  }
}
