/** A process's user memory as seen through its page tables, and the one step fork and exec
    share: take a free frame and map it at a page. */
module Processes {
  import opened Bits
  import opened Arithmetic
  import opened PageTables
  import opened AddressSpaces
  import FA = FrameAllocator

  const USER_PAGES: nat := 0x8_0000_0000 // pages of the lower half
  const LEAF_LIMIT: nat := 0x10_0000_0000_0000 // leaves below this have bits 52 to 63 clear

  /** The leaf entry of page p. */
  function PageLeaf(m: Memory, root: nat, p: nat): Option<nat> {
    Leaf(m, root, 4096 * p)
  }

  /** The frame the processor goes to for a leaf: bits 12 to 51. */
  function FrameOf(e: nat): nat {
    (e / 4096) % 0x100_0000_0000
  }

  // ---- access rights (Intel SDM volume 3A, section 4.6) ---------------------------------------

  /** Whether user mode may write, reach and execute a page. */
  datatype Rights = Rights(write: bool, user: bool, execute: bool)

  /** What one entry allows: bits 1, 2 and 63. */
  function EntryAllows(e: nat): Rights {
    Rights(e / 2 % 2 == 1, e / 4 % 2 == 1, e / PTE_NX % 2 == 0)
  }

  /** What the walk from a table allows: what every entry on the way does. */
  function Allowed(m: Memory, table: nat, level: nat, virt: nat): Rights
    requires 1 <= level <= 4
    decreases level
  {
    if table >= |m| then Rights(false, false, false)
    else
      var e := Entry(m[table], Index(virt, level));
      if level == 1 then EntryAllows(e)
      else
        var r, q := EntryAllows(e), Allowed(m, PageBits(e) / 4096, level - 1, virt);
        Rights(r.write && q.write, r.user && q.user, r.execute && q.execute)
  }

  function PageRights(m: Memory, root: nat, p: nat): Rights {
    Allowed(m, root, 4, 4096 * p)
  }

  lemma TablesAllow(f: nat)
    requires f < 0x10_0000
    ensures EntryAllows(TableEntry(f)) == Rights(true, true, true)
  {
    EntryRights(f, TABLE_FLAGS);
  }

  /** The tables above a page allow everything, so the leaf decides. */
  lemma {:induction false} LeafDecides(m: Memory, tables: map<nat, Slot>, f: nat, virt: nat)
    requires Shape(m, tables) && f in tables && virt < USER_LIMIT && Lookup(m, f, LevelOf(tables[f]), virt).Some?
    ensures Allowed(m, f, LevelOf(tables[f]), virt) == EntryAllows(Lookup(m, f, LevelOf(tables[f]), virt).value)
    decreases LevelOf(tables[f])
  {
    hide PageBits, Present, Entry, EntryAllows, TableEntry;
    var e := Entry(m[f], Index(virt, LevelOf(tables[f])));
    if LevelOf(tables[f]) == 1 {
    } else {
      var t := PageBits(e) / 4096;
      TablesAllow(t);
      LeafDecides(m, tables, t, virt);
    }
  }

  /** They are those of the flags, for any frame a leaf can name. */
  lemma EntryRights(c: nat, flags: nat)
    requires c < 0x100_0000_0000 && (flags < 4096 || PTE_NX <= flags < PTE_NX + 4096)
    ensures EntryAllows(4096 * c + flags) == Rights(flags / 2 % 2 == 1, flags / 4 % 2 == 1, flags < PTE_NX)
  {
    var e := 4096 * c + flags;
    DivModUnique(e, 2, 2048 * c + flags / 2, flags % 2);
    DivModUnique(2048 * c + flags / 2, 2, 1024 * c + flags / 2 / 2, flags / 2 % 2);
    DivModUnique(e, 4, 1024 * c + flags / 4, flags % 4);
    DivModUnique(1024 * c + flags / 4, 2, 512 * c + flags / 4 / 2, flags / 4 % 2);
    if flags < 4096 {
      DivModUnique(e, PTE_NX, 0, e);
    } else {
      DivModUnique(e, PTE_NX, 1, e - PTE_NX);
    }
  }

  /** What a process sees at page p. */
  ghost function PageContent(m: Memory, root: nat, p: nat): Option<Page> {
    match PageLeaf(m, root, p)
    case None => None
    case Some(e) => if FrameOf(e) < |m| then Some(m[FrameOf(e)]) else None
  }

  /** Page p leads to a frame that is live and is no page table. */
  ghost predicate LivePage(s: State, root: nat, p: nat) {
    match PageLeaf(s.mem, root, p)
    case None => true
    case Some(e) =>
      FA.LOW_MEMORY_FRAMES <= FrameOf(e) < |s.mem| && FrameOf(e) !in s.free && FrameOf(e) !in s.tables
  }

  /** Every page of the process is live and no two pages share a frame. */
  ghost predicate Private(s: State, root: nat) {
    && IsRoot(s.tables, root)
    && (forall p :: 0 <= p < USER_PAGES ==> LivePage(s, root, p))
    && (forall p, q :: 0 <= p < q < USER_PAGES && PageLeaf(s.mem, root, p).Some? && PageLeaf(s.mem, root, q).Some? ==>
          FrameOf(PageLeaf(s.mem, root, p).value) != FrameOf(PageLeaf(s.mem, root, q).value))
  }

  /** No frame that allocation hands out is free, except for at most one. */
  ghost predicate NearlyExhausted(free: set<nat>) {
    forall f, g :: f in free && g in free && f >= FA.LOW_MEMORY_FRAMES && g >= FA.LOW_MEMORY_FRAMES ==> f == g
  }

  /** Only frames and tables that were free are used between s and t, and of the address spaces
      known at s only `root` may translate differently. */
  ghost predicate Undisturbed(s: State, t: State, root: nat) {
    && |t.mem| == |s.mem|
    && (forall r, v :: IsRoot(s.tables, r) && r != root && 0 <= v < USER_LIMIT ==>
         Leaf(t.mem, r, v) == Leaf(s.mem, r, v))
    && (forall f :: f in s.tables ==> f in t.tables && t.tables[f] == s.tables[f])
    && (forall f :: f in t.tables && f !in s.tables ==> f in s.free)
    && t.free <= s.free
    && (forall f :: 0 <= f < |s.mem| && f !in s.tables && f !in s.free ==> t.mem[f] == s.mem[f])
  }

  lemma PagesDiffer(p: nat, q: nat)
    ensures SamePage(4096 * p, 4096 * q) <==> p == q
  {
  }

  lemma EntryFrame(c: nat, flags: nat)
    requires c < 0x100_0000_0000 && (flags < 4096 || PTE_NX <= flags < PTE_NX + 4096)
    ensures FrameOf(4096 * c + flags) == c
  {
    if flags >= PTE_NX {
      var low := flags - PTE_NX;
      assert (4096 * c + flags) / 4096 == c + 0x8_0000_0000_0000;
      assert (c + 0x8_0000_0000_0000) % 0x100_0000_0000 == c;
    }
  }

  /** t, with frame c taken from the free set and holding `content`. */
  function WithFrame(t: State, c: nat, content: Page): State
    requires c < |t.mem|
  {
    State(t.mem[c := content], t.tables, t.free - {c})
  }

  lemma TakeFrame(t: State, c: nat, content: Page)
    requires WellFormed(t) && c in t.free
    ensures WellFormed(WithFrame(t, c, content))
    ensures SameTranslations(t.mem, WithFrame(t, c, content).mem, t.tables)
  {
    TranslationsReadTables(t.mem, WithFrame(t, c, content).mem, t.tables);
  }

  /** Taking a frame, filling it and mapping it in `root` (or failing to) disturbs nothing else. */
  lemma StepUndisturbed(s: State, t: State, c: nat, content: Page, u: State, root: nat, virt: nat, leaf: Option<nat>)
    requires WellFormed(t) && Undisturbed(s, t, root) && c in t.free
    requires Grows(WithFrame(t, c, content), u)
    requires OnlyPageChanged(WithFrame(t, c, content).mem, u.mem, t.tables, root, virt, leaf)
             || SameTranslations(WithFrame(t, c, content).mem, u.mem, t.tables)
    ensures Undisturbed(s, u, root)
  {
    hide Leaf;
    var b := WithFrame(t, c, content);
    TakeFrame(t, c, content);
    forall r, v | IsRoot(s.tables, r) && r != root && 0 <= v < USER_LIMIT
      ensures Leaf(u.mem, r, v) == Leaf(s.mem, r, v)
    {
      assert IsRoot(t.tables, r);
      assert Leaf(t.mem, r, v) == Leaf(s.mem, r, v);
      assert Leaf(b.mem, r, v) == Leaf(t.mem, r, v);
    }
  }

  /** The map of `root` after such a step. */
  lemma StepLeaves(t: State, c: nat, content: Page, u: State, root: nat, p: nat, q: nat, leaf: Option<nat>)
    requires WellFormed(t) && c in t.free && IsRoot(t.tables, root)
    requires OnlyPageChanged(WithFrame(t, c, content).mem, u.mem, t.tables, root, 4096 * p, leaf)
    requires p < USER_PAGES && q < USER_PAGES
    ensures PageLeaf(u.mem, root, q) == if q == p then leaf else PageLeaf(t.mem, root, q)
  {
    hide Leaf;
    TakeFrame(t, c, content);
    PagesDiffer(q, p);
  }

  /** After a failed mapping the frame goes back to the free set. */
  lemma GiveBack(s: State, t: State, c: nat, content: Page, u: State, root: nat)
    requires WellFormed(t) && c in t.free && WellFormed(u) && Grows(WithFrame(t, c, content), u)
    requires Undisturbed(s, t, root) && Undisturbed(s, u, root)
    ensures WellFormed(u.(free := u.free + {c})) && Undisturbed(s, u.(free := u.free + {c}), root)
  {
    hide Shape, Leaf;
  }

  lemma UndisturbedTransitive(s: State, t: State, u: State, root: nat)
    requires Undisturbed(s, t, root) && Undisturbed(t, u, root)
    ensures Undisturbed(s, u, root)
  {
    hide Leaf;
    forall r, v | IsRoot(s.tables, r) && r != root && 0 <= v < USER_LIMIT
      ensures Leaf(u.mem, r, v) == Leaf(s.mem, r, v)
    {
      assert IsRoot(t.tables, r);
      assert Leaf(t.mem, r, v) == Leaf(s.mem, r, v);
    }
  }

  /** A write to frame f that is no page table changes no leaf. */
  lemma WriteKeepsLeaves(t: State, f: nat, x: Page, root: nat, p: nat)
    requires WellFormed(t) && f < |t.mem| && f !in t.tables && IsRoot(t.tables, root) && p < USER_PAGES
    ensures PageLeaf(t.mem[f := x], root, p) == PageLeaf(t.mem, root, p)
    ensures WellFormed(t.(mem := t.mem[f := x]))
  {
    hide Lookup;
    TranslationsReadTables(t.mem, t.mem[f := x], t.tables);
  }
}
