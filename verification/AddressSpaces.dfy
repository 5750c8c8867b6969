/** The virtual memory manager: page tables held in physical frames, allocated on demand. */
module AddressSpaces {
  import opened Bits
  import opened PageTables
  import FA = FrameAllocator

  /** Memory, the table forest and the free frames, at one moment. */
  datatype State = State(mem: Memory, tables: map<nat, Slot>, free: set<nat>)

  ghost predicate WellFormed(s: State) {
    && Shape(s.mem, s.tables)
    && (forall f :: f in s.free ==> f < |s.mem| && f < 0x10_0000 && f !in s.tables)
  }

  /** Entries that lead to a table stay as they are. */
  ghost predicate KeepsLinks(s: State, t: State) {
    |t.mem| == |s.mem| &&
    forall f, i ::
      f in s.tables && f < |s.mem| && LevelOf(s.tables[f]) > 1 && 0 <= i < 512 && Present(Entry(s.mem[f], i)) ==>
      Entry(t.mem[f], i) == Entry(s.mem[f], i)
  }

  /** The forest grew by frames that were free; nothing else happened to the free set and no
      frame outside the forest was written. */
  ghost predicate Grows(s: State, t: State) {
    && |t.mem| == |s.mem|
    && (forall f :: f in s.tables ==> f in t.tables && t.tables[f] == s.tables[f])
    && (forall f :: f in t.tables && f !in s.tables ==> f in s.free && t.tables[f].Child?)
    && t.free == s.free - t.tables.Keys
    && (forall f :: 0 <= f < |s.mem| && f !in t.tables ==> t.mem[f] == s.mem[f])
  }

  /** Growth that no translation notices. */
  ghost predicate Extends(s: State, t: State) {
    Grows(s, t) && KeepsLinks(s, t) && SameTranslations(s.mem, t.mem, s.tables)
  }

  lemma ExtendsReflexive(s: State)
    requires WellFormed(s)
    ensures Extends(s, s)
  {
  }

  lemma ExtendsTransitive(s: State, t: State, u: State)
    requires WellFormed(s) && Extends(s, t) && Extends(t, u)
    ensures Extends(s, u)
  {
    hide Leaf, Entry, Present;
    forall r, v | IsRoot(s.tables, r) && 0 <= v < USER_LIMIT ensures Leaf(u.mem, r, v) == Leaf(s.mem, r, v) {
      assert IsRoot(t.tables, r);
      assert Leaf(t.mem, r, v) == Leaf(s.mem, r, v);
    }
  }

  /** The entry under `index` of `table` leads to `child`. */
  ghost predicate Leads(s: State, table: nat, index: nat, child: nat) {
    && table in s.tables && table < |s.mem| && index < 512
    && Present(Entry(s.mem[table], index))
    && PageBits(Entry(s.mem[table], index)) / 4096 == child
  }

  lemma PresentLeads(s: State, table: nat, index: nat)
    requires WellFormed(s) && table in s.tables && LevelOf(s.tables[table]) > 1 && index < Width(s.tables[table])
    ensures Present(Entry(s.mem[table], index)) ==>
      var child := PageBits(Entry(s.mem[table], index)) / 4096;
      Leads(s, table, index, child)
      && child in s.tables && s.tables[child] == Child(LevelOf(s.tables[table]) - 1, table, index)
  {
    hide Entry, Present, PageBits;
  }

  lemma HangIsTwoWrites(m: Memory, table: nat, index: nat, child: nat)
    requires table < |m| && child < |m| && index < 512 && child < 0x10_0000
    ensures Hang(m, table, index, child) ==
      m[child := ZeroPage()][table := SetEntry(m[table], index, TableEntry(child))]
  {
  }

  /** Hanging a free frame in an absent slot extends the forest. */
  lemma HangExtends(s: State, table: nat, index: nat, child: nat)
    requires WellFormed(s) && CanHang(s.mem, s.tables, table, index, child) && child in s.free
    ensures var u := State(Hang(s.mem, table, index, child),
                           s.tables[child := Child(LevelOf(s.tables[table]) - 1, table, index)], s.free - {child});
            WellFormed(u) && Extends(s, u) && Leads(u, table, index, child)
  {
    hide Entry, PageBits, Present, Leaf;
    HangKeepsTranslations(s.mem, s.tables, table, index, child);
    HangLeads(s, table, index, child);
  }

  lemma HangLeads(s: State, table: nat, index: nat, child: nat)
    requires WellFormed(s) && CanHang(s.mem, s.tables, table, index, child) && child in s.free
    ensures var m := Hang(s.mem, table, index, child);
            Present(Entry(m[table], index)) && PageBits(Entry(m[table], index)) / 4096 == child
    ensures KeepsLinks(s, State(Hang(s.mem, table, index, child),
                           s.tables[child := Child(LevelOf(s.tables[table]) - 1, table, index)], s.free - {child}))
  {
    hide Entry, PageBits, Present, Leaf, TableEntry;
  }

  class VirtualMemory {
    const pmm: FA.FrameAllocator
    const frames: array<Page>
    var kernelRoot: nat
    ghost var tables: map<nat, Slot>

    ghost function View(): State
      requires pmm.Valid()
      reads this, frames, pmm, pmm.bitmap
    {
      State(frames[..], tables, pmm.FreeFrames())
    }

    ghost predicate Valid()
      reads this, frames, pmm, pmm.bitmap
    {
      && pmm.Valid()
      && pmm.FrameCount() <= frames.Length
      && kernelRoot < frames.Length
      && kernelRoot !in pmm.FreeFrames() && kernelRoot !in tables
      && WellFormed(View())
    }

    /** No address space yet: every frame the memory map offers is free. */
    constructor (allocator: FA.FrameAllocator, frameCount: nat, kernel: nat)
      requires allocator.Valid() && allocator.FrameCount() <= frameCount
      requires kernel < frameCount && kernel !in allocator.FreeFrames()
      ensures Valid() && tables == map[] && pmm == allocator && fresh(frames)
    {
      pmm := allocator;
      frames := new Page[frameCount](_ => ZeroPage());
      kernelRoot := kernel;
      tables := map[];
    }

    /** One step down the tree: follow the entry, or hang a zeroed table in its place. */
    method FollowOrCreate(table: nat, index: nat) returns (child: nat, ok: bool)
      requires Valid() && table in tables && LevelOf(tables[table]) > 1 && index < Width(tables[table])
      modifies `tables, frames, pmm`lastIndex, pmm.bitmap
      ensures Valid() && Extends(old(View()), View())
      ensures ok ==> child in tables && tables[child] == Child(LevelOf(tables[table]) - 1, table, index)
      ensures ok ==> Leads(View(), table, index, child)
      ensures !ok ==> View() == old(View()) && forall f :: f in pmm.FreeFrames() ==> f < FA.LOW_MEMORY_FRAMES
    {
      hide PageBits, Present, Entry, SetEntry, TableEntry, Leaf, Hang, Extends, Leads;
      ghost var before := View();
      ExtendsReflexive(before);
      PresentLeads(before, table, index);
      var entry := Entry(frames[table], index);
      if !Present(entry) {
        var address := pmm.AllocFrame();
        if address == 0 {
          return 0, false;
        }
        child := address / FA.PAGE_SIZE;
        HangExtends(before, table, index, child);
        HangIsTwoWrites(before.mem, table, index, child);
        frames[child] := ZeroPage();
        frames[table] := SetEntry(frames[table], index, TableEntry(child));
        tables := tables[child := Child(LevelOf(tables[table]) - 1, table, index)];
        assert frames[..] == Hang(before.mem, table, index, child);
        return child, true;
      } else {
        return PageBits(entry) / 4096, true;
      }
    }

    /** Follows the three upper levels for virt, creating what is missing. */
    method WalkOrCreate(root: nat, virt: nat) returns (pt: nat, ok: bool)
      requires Valid() && IsRoot(tables, root) && virt < USER_LIMIT
      modifies `tables, frames, pmm`lastIndex, pmm.bitmap
      ensures Valid() && Extends(old(View()), View())
      ensures ok ==> Bottom(frames[..], root, 4, virt) == Some(pt)
      ensures !ok ==> forall f :: f in pmm.FreeFrames() ==> f < FA.LOW_MEMORY_FRAMES
    {
      hide PageBits, Present, Entry, SetEntry, TableEntry, Leaf, Index;
      IndicesIdentifyPage(virt, virt);
      ghost var s0 := View();
      var pdpt, pd;
      pt := 0;
      pdpt, ok := FollowOrCreate(root, Index(virt, 4));
      if !ok { return; }
      ghost var s1 := View();
      pd, ok := FollowOrCreate(pdpt, Index(virt, 3));
      ghost var s2 := View();
      ExtendsTransitive(s0, s1, s2);
      if !ok { return; }
      pt, ok := FollowOrCreate(pd, Index(virt, 2));
      ghost var s3 := View();
      ExtendsTransitive(s0, s2, s3);
      if !ok { return; }
      LinksStay(s1, s2, root, Index(virt, 4), pdpt);
      LinksStay(s2, s3, root, Index(virt, 4), pdpt);
      LinksStay(s2, s3, pdpt, Index(virt, 3), pd);
      BottomByLinks(s3, root, virt, pdpt, pd, pt);
    }

    /** Translations after mapping differ at that one page, whose leaf is `phys | flags`; a failed
        call changes none. */
    method MapPage(root: nat, virt: nat, phys: nat, flags: nat) returns (ok: bool)
      requires Valid() && IsRoot(tables, root) && virt < USER_LIMIT && phys < WORD_LIMIT && flags < WORD_LIMIT
      modifies `tables, frames, pmm`lastIndex, pmm.bitmap
      ensures Valid() && Grows(old(View()), View())
      ensures ok ==> OnlyPageChanged(old(frames[..]), frames[..], old(tables), root, virt, LeafOf(BitOr(phys, flags)))
      ensures !ok ==> SameTranslations(old(frames[..]), frames[..], old(tables))
      ensures !ok ==> forall f :: f in pmm.FreeFrames() ==> f < FA.LOW_MEMORY_FRAMES
    {
      hide PageBits, Present, Entry, SetEntry, Leaf, BitOr, Index, Bottom, Grows, KeepsLinks, Shape, OnlyPageChanged,
           SameTranslations;
      ghost var s0 := View();
      var pt;
      pt, ok := WalkOrCreate(root, virt);
      if !ok { return; }
      ghost var s := View();
      var entry := Combine(phys, flags);
      RootStays(s0, s, root);
      WriteLeafChangesOnePage(s.mem, s.tables, root, virt, pt, entry);
      LeafWriteGrows(s0, s, pt, Index(virt, 1), entry);
      frames[pt] := SetEntry(frames[pt], Index(virt, 1), entry);
      assert frames[..] == WriteLeaf(s.mem, pt, Index(virt, 1), entry);
      ChangesCompose(old(frames[..]), s.mem, frames[..], old(tables), s.tables, root, virt, LeafOf(entry));
    }

    method UnmapPage(root: nat, virt: nat)
      requires Valid() && IsRoot(tables, root) && virt < USER_LIMIT
      modifies frames
      ensures Valid()
      ensures OnlyPageChanged(old(frames[..]), frames[..], tables, root, virt, None)
      ensures forall f :: 0 <= f < frames.Length && f !in tables ==> frames[f] == old(frames[f])
    {
      hide PageBits, Entry, SetEntry, Index, SamePage;
      IndicesIdentifyPage(virt, virt);
      ghost var m := frames[..];
      LookupViaBottom(m, root, 4, virt);
      AbsentLeafUnchanged(m, tables, root, virt);
      var pml4e := Entry(frames[root], Index(virt, 4));
      if !Present(pml4e) { return; }
      var pdpt := PageBits(pml4e) / 4096;
      assert tables[pdpt] == Child(3, root, Index(virt, 4));
      var pdpte := Entry(frames[pdpt], Index(virt, 3));
      if !Present(pdpte) { return; }
      var pd := PageBits(pdpte) / 4096;
      assert tables[pd] == Child(2, pdpt, Index(virt, 3));
      var pde := Entry(frames[pd], Index(virt, 2));
      if !Present(pde) { return; }
      var pt := PageBits(pde) / 4096;
      assert tables[pt] == Child(1, pd, Index(virt, 2));
      var pte := Entry(frames[pt], Index(virt, 1));
      if !Present(pte) { return; }
      WriteLeafChangesOnePage(m, tables, root, virt, pt, 0);
      frames[pt] := SetEntry(frames[pt], Index(virt, 1), 0);
      assert frames[..] == WriteLeaf(m, pt, Index(virt, 1), 0);
    }

    method GetPhysicalAddress(root: nat, virt: nat) returns (address: nat)
      requires Valid() && IsRoot(tables, root) && virt < USER_LIMIT
      ensures address == Translate(frames[..], root, virt)
    {
      hide PageBits, Entry, Index;
      IndicesIdentifyPage(virt, virt);
      var pml4e := Entry(frames[root], Index(virt, 4));
      if !Present(pml4e) { return 0; }
      var pdpt := PageBits(pml4e) / 4096;
      assert tables[pdpt] == Child(3, root, Index(virt, 4));
      var pdpte := Entry(frames[pdpt], Index(virt, 3));
      if !Present(pdpte) { return 0; }
      var pd := PageBits(pdpte) / 4096;
      assert tables[pd] == Child(2, pdpt, Index(virt, 3));
      var pde := Entry(frames[pd], Index(virt, 2));
      if !Present(pde) { return 0; }
      var pt := PageBits(pde) / 4096;
      assert tables[pt] == Child(1, pd, Index(virt, 2));
      var pte := Entry(frames[pt], Index(virt, 1));
      if !Present(pte) { return 0; }
      assert Lookup(frames[..], pt, 1, virt) == Some(pte);
      assert Lookup(frames[..], pd, 2, virt) == Some(pte);
      assert Lookup(frames[..], pdpt, 3, virt) == Some(pte);
      return PageBits(pte) + virt % 4096;
    }

    /** Copies the kernel's present upper-half entries into a zeroed table. */
    method CopyKernelHalf(root: nat)
      requires root < frames.Length && kernelRoot < frames.Length && root != kernelRoot
      requires forall i :: 0 <= i < 512 ==> Entry(frames[root], i) == 0
      modifies frames
      ensures forall f :: 0 <= f < frames.Length && f != root ==> frames[f] == old(frames[f])
      ensures forall i :: 0 <= i < 512 ==>
        Entry(frames[root], i) == KernelHalf(frames[kernelRoot], i)
    {
      hide Entry, SetEntry;
      for i := 256 to 512
        invariant forall f :: 0 <= f < frames.Length && f != root ==> frames[f] == old(frames[f])
        invariant forall j :: 0 <= j < 512 ==>
          Entry(frames[root], j) == if j < i then KernelHalf(frames[kernelRoot], j) else 0
      {
        var entry := Entry(frames[kernelRoot], i);
        if Present(entry) {
          frames[root] := SetEntry(frames[root], i, entry);
        }
      }
    }

    /** A root whose lower half is empty and whose upper half repeats the kernel's present
        entries; no existing translation changes. */
    method CreateAddressSpace() returns (root: nat, ok: bool)
      requires Valid()
      modifies `tables, frames, pmm`lastIndex, pmm.bitmap
      ensures Valid()
      ensures !ok ==> View() == old(View()) && forall f :: f in pmm.FreeFrames() ==> f < FA.LOW_MEMORY_FRAMES
      ensures ok ==> root in old(pmm.FreeFrames()) && root >= FA.LOW_MEMORY_FRAMES
      ensures ok ==> tables == old(tables)[root := Root] && pmm.FreeFrames() == old(pmm.FreeFrames()) - {root}
      ensures ok ==> forall f :: 0 <= f < frames.Length && f != root ==> frames[f] == old(frames[f])
      ensures ok ==> SameTranslations(old(frames[..]), frames[..], old(tables))
      ensures ok ==> forall v :: 0 <= v < USER_LIMIT ==> Leaf(frames[..], root, v) == None
      ensures ok ==> forall i :: 256 <= i < 512 ==>
        Entry(frames[root], i) == if Present(Entry(frames[kernelRoot], i)) then Entry(frames[kernelRoot], i) else 0
    {
      hide Entry, SetEntry, Leaf, PageBits, Lookup, Index, SameTranslations;
      ghost var before := View();
      var address := pmm.AllocFrame();
      if address == 0 {
        return 0, false;
      }
      root := address / FA.PAGE_SIZE;
      frames[root] := ZeroPage();
      forall i | 0 <= i < 512 ensures Entry(frames[root], i) == 0 {
        ZeroPageEntry(i);
      }
      CopyKernelHalf(root);
      NewRoot(before, frames[..], root);
      tables := tables[root := Root];
      return root, true;
    }
  }

  function KernelHalf(p: Page, i: nat): nat
    requires i < 512
  {
    if 256 <= i && Present(Entry(p, i)) then Entry(p, i) else 0
  }

  lemma NewRoot(s: State, n: Memory, root: nat)
    requires WellFormed(s) && root in s.free && |n| == |s.mem|
    requires forall f :: 0 <= f < |n| && f != root ==> n[f] == s.mem[f]
    requires forall i :: 0 <= i < 256 ==> Entry(n[root], i) == 0
    ensures Shape(n, s.tables[root := Root]) && SameTranslations(s.mem, n, s.tables)
    ensures forall v :: 0 <= v < USER_LIMIT ==> Leaf(n, root, v) == None
  {
    hide Entry, Leaf, PageBits;
    TranslationsReadTables(s.mem, n, s.tables);
    forall v | 0 <= v < USER_LIMIT ensures Leaf(n, root, v) == None {
      EmptyRoot(n, root, v);
    }
  }

  lemma LinksStay(s: State, t: State, table: nat, index: nat, child: nat)
    requires Leads(s, table, index, child) && Extends(s, t) && LevelOf(s.tables[table]) > 1
    ensures Leads(t, table, index, child)
  {
    hide Entry, Present, PageBits;
  }

  lemma RootStays(s: State, t: State, root: nat)
    requires Grows(s, t) && IsRoot(s.tables, root)
    ensures IsRoot(t.tables, root)
    ensures forall f :: f in s.tables ==> f in t.tables && t.tables[f] == s.tables[f]
  {
  }

  lemma LeafWriteGrows(s: State, t: State, pt: nat, i: nat, e: nat)
    requires Grows(s, t) && pt in t.tables && pt < |t.mem| && i < 512 && e < WORD_LIMIT
    ensures Grows(s, t.(mem := WriteLeaf(t.mem, pt, i, e)))
  {
    hide SetEntry;
  }

  lemma ChangesCompose(m: Memory, n: Memory, o: Memory, tables: map<nat, Slot>, more: map<nat, Slot>,
                       root: nat, virt: nat, leaf: Option<nat>)
    requires SameTranslations(m, n, tables) && OnlyPageChanged(n, o, more, root, virt, leaf)
    requires forall f :: f in tables ==> f in more && more[f] == tables[f]
    ensures OnlyPageChanged(m, o, tables, root, virt, leaf)
  {
    hide Leaf;
    forall r, v | IsRoot(tables, r) && 0 <= v < USER_LIMIT
      ensures Leaf(o, r, v) == if r == root && SamePage(v, virt) then leaf else Leaf(m, r, v)
    {
      assert IsRoot(more, r);
      assert Leaf(n, r, v) == Leaf(m, r, v);
    }
  }

  /** `phys | flags`. */
  function Combine(phys: nat, flags: nat): (e: nat)
    requires phys < WORD_LIMIT && flags < WORD_LIMIT
    ensures e < WORD_LIMIT && e == BitOr(phys, flags)
  {
    PowersUsed();
    OrBound(phys, flags, 64);
    BitOr(phys, flags)
  }

  lemma EmptyRoot(m: Memory, root: nat, v: nat)
    requires root < |m| && v < USER_LIMIT
    requires forall i :: 0 <= i < 256 ==> Entry(m[root], i) == 0
    ensures Leaf(m, root, v) == None
  {
    IndicesIdentifyPage(v, v);
  }

  lemma BottomByLinks(s: State, root: nat, virt: nat, pdpt: nat, pd: nat, pt: nat)
    requires Leads(s, root, Index(virt, 4), pdpt)
    requires Leads(s, pdpt, Index(virt, 3), pd)
    requires Leads(s, pd, Index(virt, 2), pt) && pt < |s.mem|
    ensures Bottom(s.mem, root, 4, virt) == Some(pt)
  {
    hide Entry, Present, PageBits, Index;
    assert Bottom(s.mem, pd, 2, virt) == Some(pt);
    assert Bottom(s.mem, pdpt, 3, virt) == Some(pt);
  }

  /** If a page has no leaf, no page of its address space sharing its number has one. */
  lemma AbsentLeafUnchanged(m: Memory, tables: map<nat, Slot>, root: nat, virt: nat)
    requires Shape(m, tables) && IsRoot(tables, root) && virt < USER_LIMIT
    ensures Leaf(m, root, virt) == None ==> OnlyPageChanged(m, m, tables, root, virt, None)
  {
    forall v | 0 <= v < USER_LIMIT && SamePage(v, virt) ensures Leaf(m, root, v) == Leaf(m, root, virt) {
      LeafOfSamePage(m, root, v, virt);
    }
  }

  lemma LeafOfSamePage(m: Memory, root: nat, v: nat, w: nat)
    requires v < USER_LIMIT && w < USER_LIMIT && SamePage(v, w)
    ensures Leaf(m, root, v) == Leaf(m, root, w)
  {
    IndicesIdentifyPage(v, w);
    LookupViaBottom(m, root, 4, v);
    LookupViaBottom(m, root, 4, w);
    SamePathSameBottom(m, root, 4, v, w);
  }
}
