/** The physical memory manager: a bitmap of 4 KiB frames scanned next-fit. */
module FrameAllocator {
  import opened Bits
  import opened Arithmetic

  const PAGE_SIZE: nat := 4096
  const MAX_PHYSICAL: nat := 0x1_0000_0000
  const BITMAP_BYTES: nat := 131072
  const LOW_MEMORY_FRAMES: nat := 256

  // ---- the bitmap as a set of bits -------------------------------------------

  predicate Used(bytes: seq<Byte>, bit: nat)
    requires bit / 8 < |bytes|
  {
    BitAnd(bytes[bit / 8], Pow2(bit % 8)) != 0
  }

  function WithBit(b: Byte, k: nat): (r: Byte)
    requires k < 8
    ensures forall j: nat :: BitAnd(r, Pow2(j)) != 0 <==> j == k || BitAnd(b, Pow2(j)) != 0
  {
    PowersUsed();
    Pow2Below(k, 8);
    OrBound(b, Pow2(k), 8);
    assert forall j: nat :: BitAnd(BitOr(b, Pow2(k)), Pow2(j)) != 0 <==> j == k || BitAnd(b, Pow2(j)) != 0 by {
      forall j: nat ensures BitAnd(BitOr(b, Pow2(k)), Pow2(j)) != 0 <==> j == k || BitAnd(b, Pow2(j)) != 0 {
        AndPow2(BitOr(b, Pow2(k)), j);
        AndPow2(b, j);
        BitOfOr(b, Pow2(k), j);
        BitOfPow2(k, j);
      }
    }
    BitOr(b, Pow2(k))
  }

  /** `b & ~(1 << k)` truncated to a byte. */
  function WithoutBit(b: Byte, k: nat): (r: Byte)
    requires k < 8
    ensures forall j: nat :: j < 8 ==> (BitAnd(r, Pow2(j)) != 0 <==> j != k && BitAnd(b, Pow2(j)) != 0)
  {
    PowersUsed();
    Pow2Below(k, 8);
    AndBound(b, 255 - Pow2(k));
    assert forall j: nat :: j < 8 ==>
      (BitAnd(BitAnd(b, 255 - Pow2(k)), Pow2(j)) != 0 <==> j != k && BitAnd(b, Pow2(j)) != 0) by {
      forall j: nat | j < 8
        ensures BitAnd(BitAnd(b, 255 - Pow2(k)), Pow2(j)) != 0 <==> j != k && BitAnd(b, Pow2(j)) != 0
      {
        AndPow2(BitAnd(b, 255 - Pow2(k)), j);
        AndPow2(b, j);
        BitOfAnd(b, 255 - Pow2(k), j);
        BitOfComplement(8, k, j);
      }
    }
    BitAnd(b, 255 - Pow2(k))
  }

  lemma {:induction false} Pow2Below(k: nat, n: nat)
    requires k < n
    ensures Pow2(k) < Pow2(n)
    decreases n
  {
    if k >= n - 1 {
    } else {
      Pow2Below(k, n - 1);
    }
  }

  /** The n-bit complement of a single bit has every other bit set. */
  lemma {:induction false} BitOfComplement(n: nat, k: nat, j: nat)
    requires k < n && j < n
    ensures Pow2(k) < Pow2(n)
    ensures Bit(Pow2(n) - 1 - Pow2(k), j) <==> j != k
  {
    Pow2Below(k, n);
    var a := Pow2(n) - 1 - Pow2(k);
    if k == 0 {
      assert a == 2 * (Pow2(n - 1) - 1);
      if j > 0 {
        BitOfOnes(n - 1, j - 1);
      }
    } else {
      assert a == 2 * (Pow2(n - 1) - 1 - Pow2(k - 1)) + 1;
      if j > 0 {
        BitOfComplement(n - 1, k - 1, j - 1);
      }
    }
  }

  lemma {:induction false} BitOfOnes(n: nat, j: nat)
    requires j < n
    ensures Bit(Pow2(n) - 1, j)
  {
    if j == 0 {
    } else {
      assert (Pow2(n) - 1) / 2 == Pow2(n - 1) - 1;
      BitOfOnes(n - 1, j - 1);
    }
  }

  // ---- the scan as a function of the free set ---------------------------------

  predicate Eligible(free: set<nat>, index: nat) {
    LOW_MEMORY_FRAMES <= index && index in free
  }

  /** The index examined at the j-th probe of a scan that starts at `last`. */
  function Probe(last: nat, max: nat, j: nat): (index: nat)
    requires max > 0
    ensures index < max
  {
    (last + j) % max
  }

  /** What the scan finds from its i-th probe on. */
  function NextFit(free: set<nat>, last: nat, max: nat, i: nat): Option<nat>
    decreases max - i
  {
    if i >= max then None
    else if Eligible(free, Probe(last, max, i)) then Some(Probe(last, max, i))
    else NextFit(free, last, max, i + 1)
  }

  lemma {:induction false} NextFitSound(free: set<nat>, last: nat, max: nat, i: nat)
    ensures var r := NextFit(free, last, max, i);
            r.Some? ==> Eligible(free, r.value) && r.value < max
    ensures NextFit(free, last, max, i) == None ==>
              forall j: nat :: i <= j < max ==> !Eligible(free, Probe(last, max, j))
    decreases max - i
  {
    if i < max && !Eligible(free, Probe(last, max, i)) {
      NextFitSound(free, last, max, i + 1);
    }
  }

  /** The modular scan probes every index, so it fails only when nothing is eligible. */
  lemma NextFitComplete(free: set<nat>, last: nat, max: nat)
    requires forall f :: f in free ==> f < max
    ensures NextFit(free, last, max, 0) == None <==> forall f :: f in free ==> f < LOW_MEMORY_FRAMES
  {
    NextFitSound(free, last, max, 0);
    if NextFit(free, last, max, 0) == None {
      forall f | f in free ensures f < LOW_MEMORY_FRAMES {
        var j := ProbeOf(last, max, f);
      }
    }
  }

  /** The probe number at which the scan starting at `last` reaches index f. */
  lemma ProbeOf(last: nat, max: nat, f: nat) returns (j: nat)
    requires f < max
    ensures j < max && Probe(last, max, j) == f
  {
    var q, r := last / max, last % max;
    if r <= f {
      j := f - r;
      assert last + j == max * q + f;
      DivModUnique(last + j, max, q, f);
    } else {
      j := max + f - r;
      assert last + j == max * (q + 1) + f;
      DivModUnique(last + j, max, q + 1, f);
    }
  }

  /** What it returns is the next eligible frame from `last` on or, if there is none, the first of all. */
  lemma NextFitIsNext(free: set<nat>, last: nat, max: nat)
    requires last <= max && NextFit(free, last, max, 0).Some?
    ensures var f := NextFit(free, last, max, 0).value;
            if f >= last then forall g :: last <= g < f ==> !Eligible(free, g)
            else forall g: nat :: g < f || last <= g < max ==> !Eligible(free, g)
  {
    NextFitSound(free, last, max, 0);
    var f := NextFit(free, last, max, 0).value;
    var j := NextFitFirst(free, last, max, 0);
    forall g: nat | g < max && (if f >= last then last <= g < f else g < f || last <= g) ensures !Eligible(free, g) {
      var i := ProbeOf(last, max, g);
      ProbeIs(last, max, i);
      ProbeIs(last, max, j);
    }
  }

  lemma ProbeIs(last: nat, max: nat, i: nat)
    requires i < max && last <= max
    ensures Probe(last, max, i) == if last + i < max then last + i else last + i - max
  {
    if last + i < max {
      DivModUnique(last + i, max, 0, last + i);
    } else if last + i < 2 * max {
      DivModUnique(last + i, max, 1, last + i - max);
    }
  }

  lemma {:induction false} NextFitFirst(free: set<nat>, last: nat, max: nat, i: nat) returns (j: nat)
    requires NextFit(free, last, max, i).Some?
    ensures i <= j < max && Probe(last, max, j) == NextFit(free, last, max, i).value
    ensures forall k :: i <= k < j ==> !Eligible(free, Probe(last, max, k))
    decreases max - i
  {
    if Eligible(free, Probe(last, max, i)) {
      j := i;
    } else {
      j := NextFitFirst(free, last, max, i + 1);
    }
  }

  // ---- whole runs --------------------------------------------------------------

  datatype Pool = Pool(free: set<nat>, last: nat, max: nat)

  datatype Op = Alloc | Free(address: nat)

  /** The pool together with the frames handed out and not yet given back. */
  datatype History = History(pool: Pool, outstanding: set<nat>)

  function Allocate(p: Pool): Option<nat> {
    NextFit(p.free, p.last, p.max, 0)
  }

  function AfterAlloc(p: Pool): Pool {
    match Allocate(p)
    case None => p
    case Some(f) => p.(free := p.free - {f}, last := f + 1)
  }

  function AfterFree(p: Pool, address: nat): Pool {
    if address % PAGE_SIZE != 0 || address / PAGE_SIZE >= p.max then p
    else p.(free := p.free + {address / PAGE_SIZE})
  }

  function Step(h: History, op: Op): History {
    match op
    case Alloc =>
      (match Allocate(h.pool)
       case None => h
       case Some(f) => History(AfterAlloc(h.pool), h.outstanding + {f}))
    case Free(a) => History(AfterFree(h.pool, a), h.outstanding - {a / PAGE_SIZE})
  }

  function Run(h: History, ops: seq<Op>): History
    decreases |ops|
  {
    if ops == [] then h else Run(Step(h, ops[0]), ops[1..])
  }

  /** Freeing: exactly the frame at that address, which has to be aligned and below the highest known one. */
  lemma AfterFreeMeans(p: Pool, f: nat, offset: nat)
    requires offset < PAGE_SIZE
    ensures AfterFree(p, f * PAGE_SIZE + offset) ==
      if offset == 0 && f < p.max then p.(free := p.free + {f}) else p
  {
    DivModUnique(f * PAGE_SIZE + offset, PAGE_SIZE, f, offset);
  }

  /** The scan goes on behind the frame handed out last: freed at once, that frame comes next if and only if there is
      no other. */
  lemma ReusedLastIff(p: Pool)
    requires p.last <= p.max && (forall f :: f in p.free ==> f < p.max) && Allocate(p).Some?
    ensures var f := Allocate(p).value;
            var q := AfterFree(AfterAlloc(p), f * PAGE_SIZE);
            q.free == p.free &&
            (Allocate(q) == Some(f) <==> forall g :: g in p.free && g >= LOW_MEMORY_FRAMES ==> g == f)
  {
    NextFitSound(p.free, p.last, p.max, 0);
    var f := Allocate(p).value;
    var q := AfterFree(AfterAlloc(p), f * PAGE_SIZE);
    AfterFreeMeans(AfterAlloc(p), f, 0);
    assert q.free == p.free;
    NextFitComplete(q.free, q.last, q.max);
    NextFitSound(q.free, q.last, q.max, 0);
    assert f in q.free && q.last == f + 1;
    NextFitIsNext(q.free, q.last, q.max);
    if Allocate(q) == Some(f) {
      forall g | g in p.free && g >= LOW_MEMORY_FRAMES ensures g == f {
        assert Eligible(q.free, g);
      }
    } else {
      assert Allocate(q).Some? && Eligible(q.free, Allocate(q).value);
    }
  }

  /** Only frames that are outstanding at that point are ever freed. */
  predicate Disciplined(h: History, ops: seq<Op>)
    decreases |ops|
  {
    ops == [] ||
    ((ops[0].Free? ==> ops[0].address % PAGE_SIZE == 0 && ops[0].address / PAGE_SIZE in h.outstanding)
     && Disciplined(Step(h, ops[0]), ops[1..]))
  }

  predicate Sound(h: History, managed: set<nat>) {
    && h.pool.free !! h.outstanding
    && h.pool.free + h.outstanding == managed
    && (forall f :: f in managed ==> f < h.pool.max)
    && (forall f :: f in h.outstanding ==> LOW_MEMORY_FRAMES <= f)
  }

  lemma StepSound(h: History, op: Op, managed: set<nat>)
    requires Sound(h, managed)
    requires op.Free? ==> op.address % PAGE_SIZE == 0 && op.address / PAGE_SIZE in h.outstanding
    ensures Sound(Step(h, op), managed)
    ensures op.Alloc? ==>
      match Allocate(h.pool)
      case None => forall f :: f in h.pool.free ==> f < LOW_MEMORY_FRAMES
      case Some(f) => f in managed && f !in h.outstanding && LOW_MEMORY_FRAMES <= f
  {
    if op.Alloc? {
      NextFitSound(h.pool.free, h.pool.last, h.pool.max, 0);
      NextFitComplete(h.pool.free, h.pool.last, h.pool.max);
    }
  }

  /** In every disciplined run: no live or low frame is handed out, failure means exhaustion,
      and the free and the outstanding frames always partition the managed ones. */
  lemma {:induction false} EveryRunIsSound(h: History, ops: seq<Op>, managed: set<nat>, n: nat)
    requires Sound(h, managed) && Disciplined(h, ops) && n <= |ops|
    ensures Sound(Run(h, ops[..n]), managed)
    ensures n < |ops| && ops[n].Alloc? ==>
      var before := Run(h, ops[..n]);
      match Allocate(before.pool)
      case None => forall f :: f in before.pool.free ==> f < LOW_MEMORY_FRAMES
      case Some(f) => f in managed && f !in before.outstanding && LOW_MEMORY_FRAMES <= f
    decreases n
  {
    if n > 0 {
      StepSound(h, ops[0], managed);
      EveryRunIsSound(Step(h, ops[0]), ops[1..], managed, n - 1);
      assert ops[..n][1..] == ops[1..][..n - 1];
    } else if ops != [] {
      StepSound(h, ops[0], managed);
      assert ops[..0] == [];
    }
  }

  // ---- the allocator itself ------------------------------------------------------

  datatype MemoryMapEntry = MemoryMapEntry(base: nat, length: nat, usable: bool)

  /** Frame f lies wholly inside the entry's range. */
  predicate Covers(e: MemoryMapEntry, f: nat) {
    e.usable && e.base <= f * PAGE_SIZE && (f + 1) * PAGE_SIZE <= e.base + e.length
  }

  /** That is: every byte of the frame is in the range. */
  lemma CoversIff(e: MemoryMapEntry, f: nat)
    ensures Covers(e, f) <==> e.usable && forall a: nat :: a / PAGE_SIZE == f ==> e.base <= a < e.base + e.length
  {
    var first, last := f * PAGE_SIZE, f * PAGE_SIZE + (PAGE_SIZE - 1);
    assert first / PAGE_SIZE == f && last / PAGE_SIZE == f;
  }

  predicate CoveredBy(entries: seq<MemoryMapEntry>, f: nat) {
    exists i :: 0 <= i < |entries| && Covers(entries[i], f)
  }

  /** Frame f overlaps the byte range [base, base + size). */
  predicate Touches(base: nat, size: nat, f: nat) {
    base / PAGE_SIZE <= f < (base + size + PAGE_SIZE - 1) / PAGE_SIZE
  }

  /** That is: the frame has a byte of the range. */
  lemma TouchesIff(base: nat, size: nat, f: nat)
    requires size > 0
    ensures Touches(base, size, f) <==> exists a: nat :: base <= a < base + size && a / PAGE_SIZE == f
  {
    if Touches(base, size, f) {
      var a := if f * PAGE_SIZE < base then base else f * PAGE_SIZE;
      assert a / PAGE_SIZE == f;
    }
  }

  class FrameAllocator {
    const bitmap: array<Byte>
    var lastIndex: nat
    var highest: nat

    ghost predicate Valid()
      reads this
    {
      && bitmap.Length == BITMAP_BYTES
      && highest % PAGE_SIZE == 0
      && highest <= MAX_PHYSICAL
    }

    function FrameCount(): nat
      reads this
    {
      highest / PAGE_SIZE
    }

    ghost function FreeFrames(): set<nat>
      requires Valid()
      reads this, bitmap
    {
      set f: nat | f < FrameCount() && !Used(bitmap[..], f)
    }

    ghost function View(): Pool
      requires Valid()
      reads this, bitmap
    {
      Pool(FreeFrames(), lastIndex, FrameCount())
    }

    constructor ()
      ensures Valid() && highest == 0 && fresh(bitmap)
    {
      bitmap := new Byte[BITMAP_BYTES](_ => 255);
      lastIndex := 0;
      highest := 0;
    }

    method SetBit(bit: nat)
      requires Valid() && bit < 8 * BITMAP_BYTES
      modifies bitmap
      ensures forall b: nat :: b < 8 * BITMAP_BYTES ==> (Used(bitmap[..], b) <==> b == bit || old(Used(bitmap[..], b)))
    {
      bitmap[bit / 8] := WithBit(bitmap[bit / 8], bit % 8);
    }

    method UnsetBit(bit: nat)
      requires Valid() && bit < 8 * BITMAP_BYTES
      modifies bitmap
      ensures forall b: nat :: b < 8 * BITMAP_BYTES ==> (Used(bitmap[..], b) <==> b != bit && old(Used(bitmap[..], b)))
    {
      bitmap[bit / 8] := WithoutBit(bitmap[bit / 8], bit % 8);
    }

    method TestBit(bit: nat) returns (used: bool)
      requires Valid() && bit < 8 * BITMAP_BYTES
      ensures used <==> Used(bitmap[..], bit)
    {
      used := BitAnd(bitmap[bit / 8], Pow2(bit % 8)) != 0;
    }

    /** Physical address of a free frame, now in use; 0 when the scan finds none. */
    method AllocFrame() returns (address: nat)
      requires Valid()
      modifies this`lastIndex, bitmap
      ensures Valid()
      ensures View() == AfterAlloc(old(View()))
      ensures address == match Allocate(old(View())) case None => 0 case Some(f) => f * PAGE_SIZE
      ensures address == 0 <==> forall f :: f in old(FreeFrames()) ==> f < LOW_MEMORY_FRAMES
      ensures address != 0 ==>
        && address % PAGE_SIZE == 0
        && LOW_MEMORY_FRAMES <= address / PAGE_SIZE < FrameCount()
        && address / PAGE_SIZE in old(FreeFrames())
        && FreeFrames() == old(FreeFrames()) - {address / PAGE_SIZE}
      ensures address == 0 ==> FreeFrames() == old(FreeFrames())
    {
      hide Used, Probe;
      var maxBits := highest / PAGE_SIZE;
      ghost var free := FreeFrames();
      NextFitComplete(free, lastIndex, maxBits);
      NextFitSound(free, lastIndex, maxBits, 0);
      var i := 0;
      while i < maxBits
        invariant 0 <= i <= maxBits
        invariant NextFit(free, lastIndex, maxBits, 0) == NextFit(free, lastIndex, maxBits, i)
        invariant lastIndex == old(lastIndex) && bitmap[..] == old(bitmap[..])
      {
        var current := Probe(lastIndex, maxBits, i);
        if current * PAGE_SIZE >= 0x100000 {
          var used := TestBit(current);
          if !used {
            SetBit(current);
            lastIndex := current + 1;
            return current * PAGE_SIZE;
          }
        }
        i := i + 1;
      }
      return 0;
    }

    method FreeFrame(address: nat)
      requires Valid()
      modifies bitmap
      ensures View() == AfterFree(old(View()), address)
    {
      if address % PAGE_SIZE != 0 {
        return;
      }
      var bit := address / PAGE_SIZE;
      if bit * PAGE_SIZE >= highest {
        return;
      }
      UnsetBit(bit);
    }

    /** Everything used, then whole usable frames freed, then the kernel's and the bitmap's own
        ranges marked used again. */
    method Init(entries: seq<MemoryMapEntry>, kernelBase: nat, kernelSpan: nat, bitmapAddress: nat)
      requires bitmap.Length == BITMAP_BYTES
      modifies this, bitmap
      ensures Valid() && lastIndex == 0
      ensures forall f: nat :: f in FreeFrames() <==>
        && f * PAGE_SIZE < MAX_PHYSICAL
        && CoveredBy(entries, f)
        && !Touches(kernelBase, KernelSize(kernelSpan), f)
        && !Touches(bitmapAddress, BITMAP_BYTES, f)
    {
      highest := 0;
      for b := 0 to bitmap.Length
        invariant highest == 0
        invariant forall k :: 0 <= k < b ==> bitmap[k] == 255
      {
        bitmap[b] := 255;
      }
      AllUsed(bitmap[..]);
      for i := 0 to |entries|
        invariant Valid()
        invariant forall f: nat :: f < 8 * BITMAP_BYTES ==> (!Used(bitmap[..], f) <==> CoveredBy(entries[..i], f))
        invariant forall f: nat :: f < 8 * BITMAP_BYTES && CoveredBy(entries[..i], f) ==> f < FrameCount()
      {
        ReleaseEntry(entries[i], entries[..i]);
        forall f: nat ensures CoveredBy(entries[..i + 1], f) <==> CoveredBy(entries[..i], f) || Covers(entries[i], f) {
          CoveredByOneMore(entries, i, f);
        }
      }
      assert entries[..|entries|] == entries;
      MarkRange(kernelBase, KernelSize(kernelSpan));
      MarkRange(bitmapAddress, BITMAP_BYTES);
      lastIndex := 0;
    }

    /** Frees every whole frame of one usable entry; `done` are the entries handled before. */
    method ReleaseEntry(entry: MemoryMapEntry, ghost done: seq<MemoryMapEntry>)
      requires Valid()
      requires forall f: nat :: f < 8 * BITMAP_BYTES ==> (!Used(bitmap[..], f) <==> CoveredBy(done, f))
      requires forall f: nat :: f < 8 * BITMAP_BYTES && CoveredBy(done, f) ==> f < FrameCount()
      modifies this`highest, bitmap
      ensures Valid()
      ensures forall f: nat :: f < 8 * BITMAP_BYTES ==>
        (!Used(bitmap[..], f) <==> CoveredBy(done, f) || Covers(entry, f))
      ensures forall f: nat :: f < 8 * BITMAP_BYTES && CoveredBy(done, f) ==> f < FrameCount()
      ensures forall f: nat :: f < 8 * BITMAP_BYTES && Covers(entry, f) ==> f < FrameCount()
    {
      if entry.usable {
        var start := (entry.base + PAGE_SIZE - 1) / PAGE_SIZE;
        var end := (entry.base + entry.length) / PAGE_SIZE;
        assert forall f: nat :: Covers(entry, f) <==> start <= f < end;
        var frame := start;
        while frame < end
          invariant start <= frame && (frame <= end || frame == start)
          invariant Valid()
          invariant forall f: nat :: f < 8 * BITMAP_BYTES ==>
            (!Used(bitmap[..], f) <==> CoveredBy(done, f) || start <= f < frame)
          invariant forall f: nat :: f < 8 * BITMAP_BYTES && CoveredBy(done, f) ==> f < FrameCount()
          invariant start < frame && start < 8 * BITMAP_BYTES ==>
            frame <= FrameCount() || 8 * BITMAP_BYTES <= FrameCount()
        {
          if frame * PAGE_SIZE < MAX_PHYSICAL {
            UnsetBit(frame);
            if (frame + 1) * PAGE_SIZE > highest {
              highest := (frame + 1) * PAGE_SIZE;
            }
          }
          frame := frame + 1;
        }
      }
    }

    method MarkRange(base: nat, size: nat)
      requires Valid()
      modifies bitmap
      ensures forall f: nat :: f < 8 * BITMAP_BYTES ==>
        (Used(bitmap[..], f) <==> Touches(base, size, f) || old(Used(bitmap[..], f)))
    {
      var start, end := base / PAGE_SIZE, (base + size + PAGE_SIZE - 1) / PAGE_SIZE;
      var frame := start;
      while frame < end
        invariant start <= frame <= end || frame == start
        invariant forall f: nat :: f < 8 * BITMAP_BYTES ==>
          (Used(bitmap[..], f) <==> start <= f < frame || old(Used(bitmap[..], f)))
      {
        if frame * PAGE_SIZE < MAX_PHYSICAL {
          SetBit(frame);
        }
        frame := frame + 1;
      }
    }
  }

  /** The linker's span for the kernel image, or 16 MiB when it looks wrong. */
  function KernelSize(span: nat): nat {
    if span == 0 || span > 512 * 1024 * 1024 then 16 * 1024 * 1024 else span
  }

  /** A span up to 512 MiB is taken as it is, and 16 MiB for any other. */
  lemma SaneSpan(span: nat)
    ensures KernelSize(span) == if 0 < span <= 0x2000_0000 then span else 0x100_0000
  {
  }

  /** So after Init, for an image with a sane span, no byte of the kernel or the bitmap lies in a free frame. */
  lemma ReservedBytes(kernelBase: nat, span: nat, bitmapAddress: nat, f: nat, a: nat)
    requires !Touches(kernelBase, KernelSize(span), f) && !Touches(bitmapAddress, BITMAP_BYTES, f)
    requires 0 < span <= 0x2000_0000
    requires kernelBase <= a < kernelBase + span || bitmapAddress <= a < bitmapAddress + BITMAP_BYTES
    ensures a / PAGE_SIZE != f
  {
    hide Touches;
    TouchesIff(kernelBase, span, f);
    TouchesIff(bitmapAddress, BITMAP_BYTES, f);
  }

  lemma CoveredByOneMore(entries: seq<MemoryMapEntry>, i: nat, f: nat)
    requires i < |entries|
    ensures CoveredBy(entries[..i + 1], f) <==> CoveredBy(entries[..i], f) || Covers(entries[i], f)
  {
    var longer, shorter := entries[..i + 1], entries[..i];
    if CoveredBy(longer, f) {
      var k :| 0 <= k < |longer| && Covers(longer[k], f);
      if k < i { assert Covers(shorter[k], f); }
    }
    if CoveredBy(shorter, f) {
      var k :| 0 <= k < |shorter| && Covers(shorter[k], f);
      assert Covers(longer[k], f);
    }
    if Covers(entries[i], f) { assert Covers(longer[i], f); }
  }

  lemma AllUsed(bytes: seq<Byte>)
    requires forall k :: 0 <= k < |bytes| ==> bytes[k] == 255
    ensures forall f: nat :: f / 8 < |bytes| ==> Used(bytes, f)
  {
    forall f: nat | f / 8 < |bytes| ensures Used(bytes, f) {
      PowersUsed();
      AndPow2(255, f % 8);
      BitOfOnes(8, f % 8);
    }
  }
}
