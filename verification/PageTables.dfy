/** Four-level page tables (Intel SDM volume 3A, section 4.5) read as a partial map from
    pages to leaf entries, and what a single table update does to that map. */
module PageTables {
  import opened Bits

  const USER_LIMIT: nat := 0x8000_0000_0000   // first address above the lower half
  const PTE_PRESENT: nat := 1
  const PTE_WRITABLE: nat := 2
  const PTE_USER: nat := 4
  const PTE_NX: nat := 0x8000_0000_0000_0000
  const PAGE_MASK: nat := 0xFFFF_FFFF_FFFF_F000
  const TABLE_FLAGS: nat := 7

  type Page = s: seq<Byte> | |s| == 4096 witness seq(4096, _ => 0)

  /** Physical memory, frame by frame. */
  type Memory = seq<Page>

  function ZeroPage(): Page {
    seq(4096, _ => 0)
  }

  function Entry(p: Page, i: nat): (e: nat)
    requires i < 512
    ensures e < WORD_LIMIT
  {
    FromLEBound(p[8 * i..8 * i + 8]);
    assert Pow256(8) == WORD_LIMIT;
    FromLE(p[8 * i..8 * i + 8])
  }

  function SetEntry(p: Page, i: nat, v: nat): (q: Page)
    requires i < 512 && v < WORD_LIMIT
    ensures Entry(q, i) == v
    ensures forall j :: 0 <= j < 512 && j != i ==> Entry(q, j) == Entry(p, j)
  {
    StoreWordEntries(p, i, v);
    StoreWord(p, i, v)
  }

  function StoreWord(p: Page, i: nat, v: nat): Page
    requires i < 512
  {
    p[..8 * i] + ToLE(v, 8) + p[8 * i + 8..]
  }

  lemma StoreWordEntries(p: Page, i: nat, v: nat)
    requires i < 512 && v < WORD_LIMIT
    ensures Entry(StoreWord(p, i, v), i) == v
    ensures forall j :: 0 <= j < 512 && j != i ==> Entry(StoreWord(p, i, v), j) == Entry(p, j)
  {
    var q := StoreWord(p, i, v);
    assert q[8 * i..8 * i + 8] == ToLE(v, 8);
    assert Pow256(8) == WORD_LIMIT;
    FromToLE(v, 8);
    forall j | 0 <= j < 512 && j != i ensures Entry(q, j) == Entry(p, j) {
      assert q[8 * j..8 * j + 8] == p[8 * j..8 * j + 8];
    }
  }

  lemma ZeroPageEntry(i: nat)
    requires i < 512
    ensures Entry(ZeroPage(), i) == 0
  {
    FromLEZero(ZeroPage()[8 * i..8 * i + 8]);
  }

  // ---- entries -----------------------------------------------------------------

  /** `e & PTE_PRESENT`. */
  predicate Present(e: nat) {
    e % 2 == 1
  }

  /** `e & PAGE_MASK`: clears the low twelve bits and keeps bit 63. */
  function PageBits(e: nat): nat {
    e - e % 4096
  }

  /** The kernel's masks are the remainders used here. */
  lemma MasksAreRemainders(e: nat)
    requires e < WORD_LIMIT
    ensures BitAnd(e, PTE_PRESENT) != 0 <==> Present(e)
    ensures BitAnd(e, PAGE_MASK) == PageBits(e)
    ensures BitAnd(e, 0xFFF) == e % 4096
    ensures BitAnd(e, 0x1FF) == e % 512
  {
    hide BitAnd;
    AndPow2(e, 0);
    assert Pow2(0) == 1;
    PowersUsed();
    HighMask(e / 4096, e % 4096);
    LowMask(12, e / 4096, e % 4096);
    LowMask(9, e / 512, e % 512);
  }

  lemma HighMask(q: nat, r: nat)
    requires r < 4096 && q < 0x10_0000_0000_0000
    ensures BitAnd(4096 * q + r, PAGE_MASK) == 4096 * q
  {
    hide BitAnd;
    PowersUsed();
    AndHighMask(12, 52, q, r);
    ShlIsProduct(q, 12);
    ShlIsProduct(Pow2(52) - 1, 12);
  }

  lemma LowMask(k: nat, q: nat, r: nat)
    requires r < Pow2(k)
    ensures BitAnd(Pow2(k) * q + r, Pow2(k) - 1) == r
  {
    AndLowMask(k, q, r);
    ShlIsProduct(q, k);
  }

  /** Or-ing low bits into a page address is addition: table entries and translated addresses
      are built this way. */
  lemma OrLow(q: nat, y: nat)
    requires y < 4096
    ensures BitOr(4096 * q, y) == 4096 * q + y
  {
    PowersUsed();
    ShlIsProduct(q, 12);
    OrDisjoint(q, 12, y);
  }

  /** The index into the table at the given level: 4 for the PML4, 1 for the page table. */
  function Index(virt: nat, level: nat): (i: nat)
    requires 1 <= level <= 4
    ensures i < 512
  {
    if level == 4 then (virt / 0x80_0000_0000) % 512
    else if level == 3 then (virt / 0x4000_0000) % 512
    else if level == 2 then (virt / 0x20_0000) % 512
    else (virt / 0x1000) % 512
  }

  predicate SamePage(v: nat, w: nat) {
    v / 4096 == w / 4096
  }

  lemma IndexOfPage(v: nat)
    ensures Index(v, 1) == (v / 4096) % 512
    ensures Index(v, 2) == (v / 4096 / 512) % 512
    ensures Index(v, 3) == (v / 4096 / 512 / 512) % 512
    ensures Index(v, 4) == (v / 4096 / 512 / 512 / 512) % 512
  {
    assert v / 0x20_0000 == v / 4096 / 512;
    assert v / 0x4000_0000 == v / 0x20_0000 / 512;
    assert v / 0x80_0000_0000 == v / 0x4000_0000 / 512;
  }

  /** The four indices identify a page. */
  lemma IndicesIdentifyPage(v: nat, w: nat)
    requires v < USER_LIMIT && w < USER_LIMIT
    ensures (forall level :: 1 <= level <= 4 ==> Index(v, level) == Index(w, level)) <==> SamePage(v, w)
    ensures Index(v, 4) < 256
  {
    hide Index;
    IndexOfPage(v);
    IndexOfPage(w);
    var v1, w1 := v / 4096, w / 4096;
    var v2, w2 := v1 / 512, w1 / 512;
    var v3, w3 := v2 / 512, w2 / 512;
    assert v3 / 512 < 256 && w3 / 512 < 256;
    if forall level :: 1 <= level <= 4 ==> Index(v, level) == Index(w, level) {
      assert Index(v, 4) == Index(w, 4);
      assert Index(v, 3) == Index(w, 3);
      assert v3 == w3;
      assert Index(v, 2) == Index(w, 2);
      assert v2 == w2;
      assert Index(v, 1) == Index(w, 1);
      assert v1 == w1;
    }
  }

  /** A table entry for frame f: `frame | PTE_PRESENT | PTE_WRITABLE | PTE_USER`. */
  function TableEntry(f: nat): (e: nat)
    requires f < 0x10_0000
    ensures Present(e) && e < WORD_LIMIT && PageBits(e) / 4096 == f
  {
    4096 * f + TABLE_FLAGS
  }

  // ---- walking -------------------------------------------------------------------

  /** The leaf entry found for virt from a table at the given level, if every entry on the way
      and the leaf itself are present. */
  function Lookup(m: Memory, table: nat, level: nat, virt: nat): Option<nat>
    requires 1 <= level <= 4
    decreases level
  {
    if table >= |m| then None
    else
      var e := Entry(m[table], Index(virt, level));
      if !Present(e) then None
      else if level == 1 then Some(e)
      else Lookup(m, PageBits(e) / 4096, level - 1, virt)
  }

  function Leaf(m: Memory, root: nat, virt: nat): Option<nat> {
    Lookup(m, root, 4, virt)
  }

  /** The address vmm_get_physical_address reports: 0 when unmapped. */
  function Translate(m: Memory, root: nat, virt: nat): nat {
    match Leaf(m, root, virt)
    case None => 0
    case Some(e) => PageBits(e) + virt % 4096
  }

  lemma {:induction false} LeafBound(m: Memory, table: nat, level: nat, virt: nat)
    requires 1 <= level <= 4
    ensures Lookup(m, table, level, virt).Some? ==>
              Lookup(m, table, level, virt).value < WORD_LIMIT && Present(Lookup(m, table, level, virt).value)
    decreases level
  {
    if table >= |m| || level <= 1 {
    } else {
      var e := Entry(m[table], Index(virt, level));
      LeafBound(m, PageBits(e) / 4096, level - 1, virt);
    }
  }

  /** The level-1 table reached for virt. */
  function Bottom(m: Memory, table: nat, level: nat, virt: nat): Option<nat>
    requires 1 <= level <= 4
    decreases level
  {
    if table >= |m| then None
    else if level == 1 then Some(table)
    else
      var e := Entry(m[table], Index(virt, level));
      if !Present(e) then None else Bottom(m, PageBits(e) / 4096, level - 1, virt)
  }

  lemma {:induction false} LookupViaBottom(m: Memory, table: nat, level: nat, virt: nat)
    requires 1 <= level <= 4
    ensures Lookup(m, table, level, virt) ==
            match Bottom(m, table, level, virt)
            case None => None
            case Some(t) => Lookup(m, t, 1, virt)
    decreases level
  {
    if table >= |m| || level <= 1 {
    } else {
      LookupViaBottom(m, PageBits(Entry(m[table], Index(virt, level))) / 4096, level - 1, virt);
    }
  }

  // ---- the shape of the table forest ------------------------------------------------

  /** Where a table hangs: a root, or under one entry of one parent. */
  datatype Slot = Root | Child(level: nat, parent: nat, index: nat)

  function LevelOf(s: Slot): nat {
    if s.Root? then 4 else s.level
  }

  /** Entries of a table that belong to the lower half. */
  function Width(s: Slot): nat {
    if s.Root? then 256 else 512
  }

  /** Every present lower-half entry of a table above level 1 leads to the one table that
      hangs in that very slot. */
  ghost predicate Shape(m: Memory, tables: map<nat, Slot>) {
    && (forall f :: f in tables ==> f < |m| && 1 <= LevelOf(tables[f]) <= 4)
    && (forall f, i :: f in tables && 0 <= i < Width(tables[f]) && LevelOf(tables[f]) > 1 && Present(Entry(m[f], i)) ==>
          var t := PageBits(Entry(m[f], i)) / 4096;
          t in tables && tables[t] == Child(LevelOf(tables[f]) - 1, f, i)
          && t < 0x10_0000 && Entry(m[f], i) == TableEntry(t))
  }

  ghost predicate IsRoot(tables: map<nat, Slot>, r: nat) {
    r in tables && tables[r].Root?
  }

  /** Every lower-half translation of every address space is the same in m and n. */
  ghost predicate SameTranslations(m: Memory, n: Memory, tables: map<nat, Slot>) {
    forall r, v :: IsRoot(tables, r) && 0 <= v < USER_LIMIT ==> Leaf(n, r, v) == Leaf(m, r, v)
  }

  /** Tables unchanged, translations unchanged. */
  lemma {:induction false} LookupReadsTables(m: Memory, n: Memory, tables: map<nat, Slot>, f: nat, virt: nat)
    requires Shape(m, tables) && |m| == |n| && f in tables && virt < USER_LIMIT
    requires forall g :: g in tables ==> m[g] == n[g]
    ensures Lookup(n, f, LevelOf(tables[f]), virt) == Lookup(m, f, LevelOf(tables[f]), virt)
    decreases LevelOf(tables[f])
  {
    IndicesIdentifyPage(virt, virt);
    var e := Entry(m[f], Index(virt, LevelOf(tables[f])));
    if LevelOf(tables[f]) > 1 && Present(e) {
      LookupReadsTables(m, n, tables, PageBits(e) / 4096, virt);
    }
  }

  lemma TranslationsReadTables(m: Memory, n: Memory, tables: map<nat, Slot>)
    requires Shape(m, tables) && |m| == |n|
    requires forall g :: g in tables ==> m[g] == n[g]
    ensures Shape(n, tables) && SameTranslations(m, n, tables)
  {
    forall r, v | IsRoot(tables, r) && 0 <= v < USER_LIMIT ensures Leaf(n, r, v) == Leaf(m, r, v) {
      LookupReadsTables(m, n, tables, r, v);
    }
  }

  // ---- hanging a fresh, empty table ---------------------------------------------------

  function Hang(m: Memory, t: nat, i: nat, child: nat): Memory
    requires t < |m| && child < |m| && i < 512 && child < 0x10_0000
  {
    m[child := ZeroPage()][t := SetEntry(m[t], i, TableEntry(child))]
  }

  ghost predicate CanHang(m: Memory, tables: map<nat, Slot>, t: nat, i: nat, child: nat) {
    && Shape(m, tables)
    && t in tables && LevelOf(tables[t]) > 1 && i < Width(tables[t])
    && !Present(Entry(m[t], i))
    && child < |m| && child < 0x10_0000 && child !in tables
  }

  lemma HangKeepsShape(m: Memory, tables: map<nat, Slot>, t: nat, i: nat, child: nat)
    requires CanHang(m, tables, t, i, child)
    ensures Shape(Hang(m, t, i, child), tables[child := Child(LevelOf(tables[t]) - 1, t, i)])
  {
    var n := Hang(m, t, i, child);
    var after := tables[child := Child(LevelOf(tables[t]) - 1, t, i)];
    forall f, j | f in after && 0 <= j < Width(after[f]) && LevelOf(after[f]) > 1 && Present(Entry(n[f], j))
      ensures var s := PageBits(Entry(n[f], j)) / 4096;
              s in after && after[s] == Child(LevelOf(after[f]) - 1, f, j)
    {
      if f == child {
        ZeroPageEntry(j);
      } else if f == t && j == i {
      } else {
        assert Entry(n[f], j) == Entry(m[f], j);
      }
    }
  }

  lemma {:induction false} HangKeepsLookup(m: Memory, tables: map<nat, Slot>, t: nat, i: nat, child: nat, f: nat,
      virt: nat)
    requires CanHang(m, tables, t, i, child) && f in tables && virt < USER_LIMIT
    ensures Lookup(Hang(m, t, i, child), f, LevelOf(tables[f]), virt) == Lookup(m, f, LevelOf(tables[f]), virt)
    decreases LevelOf(tables[f])
  {
    assert !Present(0);
    hide Index, PageBits, Present, Entry, SetEntry, TableEntry;
    var n := Hang(m, t, i, child);
    var level := LevelOf(tables[f]);
    IndicesIdentifyPage(virt, virt);
    var j := Index(virt, level);
    if f == t && j == i {
      ZeroPageEntry(Index(virt, level - 1));
      assert Lookup(n, child, level - 1, virt) == None;
    } else {
      assert Entry(n[f], j) == Entry(m[f], j);
      if level > 1 && Present(Entry(m[f], j)) {
        HangKeepsLookup(m, tables, t, i, child, PageBits(Entry(m[f], j)) / 4096, virt);
      }
    }
  }

  /** Hanging a zeroed frame in an absent slot keeps the shape and every translation. */
  lemma HangKeepsTranslations(m: Memory, tables: map<nat, Slot>, t: nat, i: nat, child: nat)
    requires CanHang(m, tables, t, i, child)
    ensures Shape(Hang(m, t, i, child), tables[child := Child(LevelOf(tables[t]) - 1, t, i)])
    ensures SameTranslations(m, Hang(m, t, i, child), tables)
  {
    HangKeepsShape(m, tables, t, i, child);
    forall r, v | IsRoot(tables, r) && 0 <= v < USER_LIMIT
      ensures Leaf(Hang(m, t, i, child), r, v) == Leaf(m, r, v)
    {
      HangKeepsLookup(m, tables, t, i, child, r, v);
    }
  }

  // ---- writing a leaf -------------------------------------------------------------------

  /** A level-1 table is reached only through the slots recorded for it. */
  lemma BottomHasOnePath(m: Memory, tables: map<nat, Slot>, r: nat, v: nat, t: nat)
    requires Shape(m, tables) && IsRoot(tables, r) && v < USER_LIMIT
    requires Bottom(m, r, 4, v) == Some(t)
    ensures t in tables && tables[t].Child? && tables[t].level == 1 && tables[t].index == Index(v, 2)
    ensures var d := tables[t].parent;
            d in tables && tables[d].Child? && tables[d].index == Index(v, 3) &&
            var p := tables[d].parent;
            p in tables && tables[p].Child? && tables[p].index == Index(v, 4) && tables[p].parent == r
  {
    IndicesIdentifyPage(v, v);
    var p := PageBits(Entry(m[r], Index(v, 4))) / 4096;
    assert Bottom(m, r, 4, v) == Bottom(m, p, 3, v);
    assert tables[p] == Child(3, r, Index(v, 4));
    var d := PageBits(Entry(m[p], Index(v, 3))) / 4096;
    assert Bottom(m, p, 3, v) == Bottom(m, d, 2, v);
    assert tables[d] == Child(2, p, Index(v, 3));
    var b := PageBits(Entry(m[d], Index(v, 2))) / 4096;
    assert Bottom(m, d, 2, v) == Bottom(m, b, 1, v);
    assert tables[b] == Child(1, d, Index(v, 2));
  }

  function WriteLeaf(m: Memory, t: nat, i: nat, e: nat): Memory
    requires t < |m| && i < 512 && e < WORD_LIMIT
  {
    m[t := SetEntry(m[t], i, e)]
  }

  lemma {:induction false} WriteLeafKeepsBottom(m: Memory, tables: map<nat, Slot>, t: nat, i: nat, e: nat, f: nat,
      virt: nat)
    requires Shape(m, tables) && t in tables && LevelOf(tables[t]) == 1 && i < 512 && e < WORD_LIMIT
    requires f in tables && virt < USER_LIMIT
    ensures Bottom(WriteLeaf(m, t, i, e), f, LevelOf(tables[f]), virt) == Bottom(m, f, LevelOf(tables[f]), virt)
    decreases LevelOf(tables[f])
  {
    IndicesIdentifyPage(virt, virt);
    var level := LevelOf(tables[f]);
    if level > 1 && Present(Entry(m[f], Index(virt, level))) {
      WriteLeafKeepsBottom(m, tables, t, i, e, PageBits(Entry(m[f], Index(virt, level))) / 4096, virt);
    }
  }

  function LeafOf(e: nat): Option<nat> {
    if Present(e) then Some(e) else None
  }

  /** The map after a leaf write differs at exactly one page of one address space. */
  ghost predicate OnlyPageChanged(m: Memory, n: Memory, tables: map<nat, Slot>, root: nat, virt: nat,
      leaf: Option<nat>) {
    forall r, v :: IsRoot(tables, r) && 0 <= v < USER_LIMIT ==>
      Leaf(n, r, v) == if r == root && SamePage(v, virt) then leaf else Leaf(m, r, v)
  }

  lemma WriteLeafChangesOnePage(m: Memory, tables: map<nat, Slot>, root: nat, virt: nat, t: nat, e: nat)
    requires Shape(m, tables) && IsRoot(tables, root) && virt < USER_LIMIT && e < WORD_LIMIT
    requires Bottom(m, root, 4, virt) == Some(t)
    ensures t in tables && t < |m| && LevelOf(tables[t]) == 1
    ensures Shape(WriteLeaf(m, t, Index(virt, 1), e), tables)
    ensures OnlyPageChanged(m, WriteLeaf(m, t, Index(virt, 1), e), tables, root, virt, LeafOf(e))
  {
    BottomHasOnePath(m, tables, root, virt, t);
    var n := WriteLeaf(m, t, Index(virt, 1), e);
    forall r, v | IsRoot(tables, r) && 0 <= v < USER_LIMIT
      ensures Leaf(n, r, v) == if r == root && SamePage(v, virt) then LeafOf(e) else Leaf(m, r, v)
    {
      WriteLeafOnePage(m, tables, root, virt, t, e, r, v);
    }
  }

  lemma WriteLeafOnePage(m: Memory, tables: map<nat, Slot>, root: nat, virt: nat, t: nat, e: nat, r: nat, v: nat)
    requires Shape(m, tables) && IsRoot(tables, root) && virt < USER_LIMIT && e < WORD_LIMIT
    requires Bottom(m, root, 4, virt) == Some(t) && t in tables && LevelOf(tables[t]) == 1
    requires IsRoot(tables, r) && v < USER_LIMIT
    ensures Leaf(WriteLeaf(m, t, Index(virt, 1), e), r, v) ==
            if r == root && SamePage(v, virt) then LeafOf(e) else Leaf(m, r, v)
  {
    hide Index, PageBits, SamePage, TableEntry, Entry, Bottom;
    var n := WriteLeaf(m, t, Index(virt, 1), e);
    LookupViaBottom(n, r, 4, v);
    LookupViaBottom(m, r, 4, v);
    WriteLeafKeepsBottom(m, tables, t, Index(virt, 1), e, r, v);
    IndicesIdentifyPage(v, virt);
    BottomHasOnePath(m, tables, root, virt, t);
    if r == root && SamePage(v, virt) {
      SamePathSameBottom(m, r, 4, v, virt);
    } else if Bottom(m, r, 4, v) == Some(t) {
      BottomHasOnePath(m, tables, r, v, t);
      assert Index(v, 1) != Index(virt, 1);
    }
  }

  lemma {:induction false} SamePathSameBottom(m: Memory, table: nat, level: nat, v: nat, w: nat)
    requires 1 <= level <= 4
    requires forall k :: 1 <= k <= 4 ==> Index(v, k) == Index(w, k)
    ensures Bottom(m, table, level, v) == Bottom(m, table, level, w)
    decreases level
  {
    if table >= |m| || level <= 1 {
    } else {
      SamePathSameBottom(m, PageBits(Entry(m[table], Index(v, level))) / 4096, level - 1, v, w);
    }
  }

  // ---- what a translation reports ---------------------------------------------------------

  lemma OrTop(y: nat)
    requires y < PTE_NX
    ensures BitOr(PTE_NX, y) == PTE_NX + y
  {
    PowersUsed();
    ShlIsProduct(1, 63);
    OrDisjoint(1, 63, y);
  }

  /** The address the processor derives from a leaf: bits 12 to 51, then the offset. */
  function HardwareAddress(e: nat, virt: nat): nat {
    ((e / 4096) % 0x100_0000_0000) * 4096 + virt % 4096
  }

  /** The reported address is the processor's exactly when the leaf's top twelve bits, the
      no-execute bit among them, are clear. */
  lemma TranslateExactIff(m: Memory, root: nat, virt: nat, e: nat)
    requires Leaf(m, root, virt) == Some(e)
    ensures Translate(m, root, virt) == HardwareAddress(e, virt) <==> e < 0x10_0000_0000_0000
  {
    hide Lookup;
    var q := e / 4096;
    assert e < 0x10_0000_0000_0000 <==> q < 0x100_0000_0000;
  }

  /** With flags below 4096, an aligned mapping translates back exactly. */
  lemma TranslateLowFlags(m: Memory, root: nat, virt: nat, phys: nat, flags: nat)
    requires virt < USER_LIMIT && phys % 4096 == 0 && phys < WORD_LIMIT && flags < 4096
    requires Leaf(m, root, virt) == Some(BitOr(phys, flags))
    ensures BitOr(phys, flags) == phys + flags
    ensures Translate(m, root, virt) == phys + virt % 4096
  {
    hide BitOr, Lookup, PageBits;
    OrLow(phys / 4096, flags);
    PageBitsOfSum(phys, flags);
  }

  /** A no-execute page comes back with bit 63 set, so its translation is never the frame. */
  lemma TranslateNoExecute(m: Memory, root: nat, virt: nat, phys: nat, low: nat)
    requires virt < USER_LIMIT && phys % 4096 == 0 && phys < PTE_NX && low < 4096
    requires Leaf(m, root, virt) == Some(BitOr(phys, PTE_NX + low))
    ensures BitOr(phys, PTE_NX + low) == PTE_NX + phys + low
    ensures Translate(m, root, virt) == PTE_NX + phys + virt % 4096
  {
    hide BitOr, Lookup, PageBits;
    OrWithNx(phys, low);
    assert PTE_NX % 4096 == 0;
    PageBitsOfSum(PTE_NX + phys, low);
  }

  lemma PageBitsOfSum(a: nat, low: nat)
    requires a % 4096 == 0 && low < 4096
    ensures PageBits(a + low) == a
  {
  }

  lemma OrWithNx(phys: nat, low: nat)
    requires phys % 4096 == 0 && phys < PTE_NX && low < 4096
    ensures BitOr(phys, PTE_NX + low) == PTE_NX + phys + low
  {
    hide BitOr;
    calc {
      BitOr(phys, PTE_NX + low);
      { OrTop(low); }
      BitOr(phys, BitOr(PTE_NX, low));
      { OrCommutes(phys, BitOr(PTE_NX, low)); }
      BitOr(BitOr(PTE_NX, low), phys);
      { OrAssociates(PTE_NX, low, phys); }
      BitOr(PTE_NX, BitOr(low, phys));
      { OrCommutes(low, phys); OrLow(phys / 4096, low); }
      BitOr(PTE_NX, phys + low);
      { OrTop(phys + low); }
      PTE_NX + phys + low;
    }
  }

  lemma {:induction false} OrAssociates(a: nat, b: nat, c: nat)
    ensures BitOr(BitOr(a, b), c) == BitOr(a, BitOr(b, c))
  {
    if a == 0 {
    } else {
      OrHalves(a, b);
      OrHalves(b, c);
      OrHalves(BitOr(a, b), c);
      OrHalves(a, BitOr(b, c));
      OrAssociates(a / 2, b / 2, c / 2);
    }
  }

  lemma OrHalves(a: nat, b: nat)
    ensures BitOr(a, b) / 2 == BitOr(a / 2, b / 2)
    ensures BitOr(a, b) % 2 == (if a % 2 == 1 || b % 2 == 1 then 1 else 0)
  {
  }
}
