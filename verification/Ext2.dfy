/** The ext2 reader: block-chunked reads of an inode's data, and path resolution by directory scan. */
module Ext2 {
  import opened Bits
  import opened Arithmetic

  const DIRECT: nat := 12
  const ROOT: nat := 2
  const MAX_PATH: nat := 128
  const SLASH: Byte := 0x2F
  const DIRECTORY_BIT: nat := 0x4000

  datatype Inode = Inode(mode: nat, size: nat, block: seq<nat>)

  ghost predicate InodeOk(n: Inode) {
    |n.block| == 15 && n.size < U32 && forall i :: 0 <= i < 15 ==> n.block[i] < U32
  }

  // ---- blocks ----------------------------------------------------------------------------

  /** Where block n of the image is; the multiplication is in 32 bits. */
  function BlockOffset(size: nat, blockSize: nat, blocksCount: nat, n: nat): (r: Option<nat>)
    ensures r.Some? ==> r.value + blockSize <= size
  {
    if blockSize == 0 || n >= blocksCount then None
    else
      var offset := (n * blockSize) % U32;
      if offset + blockSize > size then None else Some(offset)
  }

  /** What is read for block n is block n if and only if its position fits 32 bits: the product does not. */
  lemma OwnBlockIff(size: nat, blockSize: nat, blocksCount: nat, n: nat)
    requires BlockOffset(size, blockSize, blocksCount, n).Some?
    ensures BlockOffset(size, blockSize, blocksCount, n) == Some(n * blockSize) <==> n * blockSize < U32
  {
  }

  /** The image and its geometry. */
  datatype Disk = Disk(image: seq<Byte>, blockSize: nat, blocksCount: nat, inodes: map<nat, Inode>)

  ghost predicate DiskOk(d: Disk) {
    d.blockSize > 0 && forall i :: i in d.inodes ==> InodeOk(d.inodes[i])
  }

  /** The bytes of a block, if it can be read. */
  function BlockBytes(d: Disk, n: nat): (r: Option<seq<Byte>>)
    ensures r.Some? ==> |r.value| == d.blockSize > 0
  {
    var o := BlockOffset(|d.image|, d.blockSize, d.blocksCount, n);
    if o.None? then None else Some(d.image[o.value..o.value + d.blockSize])
  }

  // ---- an inode's data -------------------------------------------------------------------------

  /** The block a position falls in, and where in it. */
  function Index(pos: nat, blockSize: nat): nat
    requires blockSize > 0
  {
    pos / blockSize
  }

  function Within(pos: nat, blockSize: nat): (r: nat)
    requires blockSize > 0
    ensures r < blockSize
  {
    pos % blockSize
  }

  lemma Position(pos: nat, blockSize: nat)
    requires blockSize > 0
    ensures pos == Index(pos, blockSize) * blockSize + Within(pos, blockSize)
  {
  }

  lemma PositionUnique(pos: nat, blockSize: nat, i: nat, j: nat)
    requires j < blockSize && pos == i * blockSize + j
    ensures Index(pos, blockSize) == i && Within(pos, blockSize) == j
  {
    DivModUnique(pos, blockSize, i, j);
  }

  /** Byte `pos` of the inode's direct blocks laid end to end. */
  function ByteAt(d: Disk, n: Inode, pos: nat): Byte
    requires d.blockSize > 0
  {
    var i := Index(pos, d.blockSize);
    if i < DIRECT && i < |n.block| && BlockBytes(d, n.block[i]).Some? then
      BlockBytes(d, n.block[i]).value[Within(pos, d.blockSize)]
    else 0
  }

  /** The bytes of the direct blocks laid end to end, from pos on. */
  function Slice(d: Disk, n: Inode, pos: nat, len: nat): (r: seq<Byte>)
    requires d.blockSize > 0
    ensures |r| == len && forall k {:trigger r[k]} :: 0 <= k < len ==> r[k] == ByteAt(d, n, pos + k)
  {
    seq<Byte>(len, k requires 0 <= k < len && d.blockSize > 0 => ByteAt(d, n, pos + k))
  }

  /** Direct block i can be read. */
  predicate Readable(d: Disk, n: Inode, i: nat) {
    i < DIRECT && i < |n.block| && BlockBytes(d, n.block[i]).Some?
  }

  /** The first block from i on, up to `end`, that cannot be read; `end` + 1 if all can. */
  function FirstBad(d: Disk, n: Inode, i: nat, end: nat): (r: nat)
    requires i <= end + 1
    ensures i <= r <= end + 1 && (r <= end ==> !Readable(d, n, r)) && forall j :: i <= j < r ==> Readable(d, n, j)
    decreases end + 1 - i
  {
    if i > end || !Readable(d, n, i) then i else FirstBad(d, n, i + 1, end)
  }

  /** How much is asked for, within the file. */
  function Wanted(n: Inode, offset: nat, len: nat): nat {
    if offset >= n.size then 0 else if offset + len > n.size then n.size - offset else len
  }

  /** How much is read: what is wanted, cut off at the first unreadable block. */
  function ReadCount(d: Disk, n: Inode, offset: nat, len: nat): nat
    requires d.blockSize > 0
  {
    var want := Wanted(n, offset, len);
    if want == 0 then 0
    else
      var bad := FirstBad(d, n, Index(offset, d.blockSize), EndBlock(d.blockSize, offset, want));
      Upto(d.blockSize, offset, want, bad)
  }

  function EndBlock(blockSize: nat, offset: nat, want: nat): (r: nat)
    requires blockSize > 0 && want > 0
    ensures Index(offset, blockSize) <= r == Index(offset + want - 1, blockSize)
  {
    IndexOrder(offset, offset + want - 1, blockSize);
    Index(offset + want - 1, blockSize)
  }

  lemma IndexOrder(a: nat, b: nat, n: nat)
    requires n > 0 && a <= b
    ensures Index(a, n) <= Index(b, n)
  {
    hide Index, Within;
    Position(a, n);
    Position(b, n);
    if Index(b, n) < Index(a, n) {
      ProductOrder(Index(b, n), Index(a, n), n);
    }
  }

  /** How much of the wanted range lies before block i. */
  function Upto(blockSize: nat, offset: nat, want: nat, i: nat): nat {
    if i * blockSize <= offset then 0 else if i * blockSize - offset > want then want else i * blockSize - offset
  }

  /** The amount the loop takes from block i, before it is clamped. */
  function Amount(blockSize: nat, offset: nat, want: nat, i: nat): (r: int)
    requires blockSize > 0 && want > 0
  {
    var first := i == Index(offset, blockSize);
    var blockOffset := Within(offset, blockSize);
    var a := if first then blockSize - blockOffset else blockSize;
    if i == EndBlock(blockSize, offset, want) && Within(offset + want, blockSize) > 0
    then Within(offset + want, blockSize) - (if first then blockOffset else 0)
    else a
  }

  /** The amounts add up: block i takes the read exactly to where block i + 1 begins or the range ends,
      so the clamp never changes anything. */
  lemma AmountsAddUp(blockSize: nat, offset: nat, want: nat, i: nat)
    requires blockSize > 0 && want > 0 && Index(offset, blockSize) <= i <= EndBlock(blockSize, offset, want)
    ensures Amount(blockSize, offset, want, i) > 0
    ensures Upto(blockSize, offset, want, i) + Amount(blockSize, offset, want, i) ==
      Upto(blockSize, offset, want, i + 1) <= want
    ensures i == EndBlock(blockSize, offset, want) <==> Upto(blockSize, offset, want, i + 1) == want
  {
    hide Index, Within, EndBlock;
    var last := offset + want - 1;
    var first, end := Index(offset, blockSize), Index(last, blockSize);
    Position(offset, blockSize);
    Position(last, blockSize);
    OneMoreRow(i, blockSize);
    ProductOrder(first, i, blockSize);
    ProductOrder(i, end, blockSize);
    NextWithin(last, blockSize);
  }

  lemma NextWithin(a: nat, n: nat)
    requires n > 0
    ensures Within(a + 1, n) == if Within(a, n) == n - 1 then 0 else Within(a, n) + 1
  {
    hide Index, Within;
    Position(a, n);
    if Within(a, n) == n - 1 {
      OneMoreRow(Index(a, n), n);
      PositionUnique(a + 1, n, Index(a, n) + 1, 0);
    } else {
      PositionUnique(a + 1, n, Index(a, n), Within(a, n) + 1);
    }
  }

  // ---- how much is read -------------------------------------------------------------------------

  /** count bytes is what a read at this offset into len bytes should give: nothing beyond the end of the file, no
      more than was asked for, and less only at the end of the file or in front of a block that cannot be read. */
  ghost predicate GivesAll(d: Disk, n: Inode, offset: nat, len: nat, count: nat)
    requires d.blockSize > 0
  {
    if offset >= n.size then count == 0
    else
      && count <= len && offset + count <= n.size
      && (count < len ==> offset + count == n.size || !Readable(d, n, Index(offset + count, d.blockSize)))
      && forall i :: Index(offset, d.blockSize) <= i && i * d.blockSize < offset + count ==>
           Readable(d, n, i) || count == 0
  }

  lemma ReadGivesAll(d: Disk, n: Inode, offset: nat, len: nat)
    requires d.blockSize > 0
    ensures GivesAll(d, n, offset, len, ReadCount(d, n, offset, len))
  {
    hide Index, Within, EndBlock, Readable;
    var b, want := d.blockSize, Wanted(n, offset, len);
    if want > 0 {
      var first, end := Index(offset, b), EndBlock(b, offset, want);
      var bad := FirstBad(d, n, first, end);
      Position(offset, b);
      if bad <= end {
        UptoExact(b, offset, want, bad);
        PositionIs(b, offset + Upto(b, offset, want, bad), bad, if bad == first then Within(offset, b) else 0);
      } else {
        AmountsAddUp(b, offset, want, end);
      }
      forall i | first <= i && i * b < offset + Upto(b, offset, want, bad) && Upto(b, offset, want, bad) > 0
        ensures Readable(d, n, i)
      {
        BeforeBad(b, offset, want, bad, i);
      }
    }
  }

  lemma PositionIs(blockSize: nat, pos: nat, i: nat, j: nat)
    requires j < blockSize && pos == i * blockSize + j
    ensures Index(pos, blockSize) == i
  {
    PositionUnique(pos, blockSize, i, j);
  }

  /** A block that starts within what is read comes before the first bad one. */
  lemma BeforeBad(blockSize: nat, offset: nat, want: nat, bad: nat, i: nat)
    requires blockSize > 0 && want > 0 && i * blockSize < offset + Upto(blockSize, offset, want, bad)
    requires Upto(blockSize, offset, want, bad) > 0
    ensures i < bad
  {
    if i >= bad {
      ProductOrder(bad, i, blockSize);
    }
  }

  // ---- complete reads ----------------------------------------------------------------------------

  /** A read gets all that is wanted exactly when every block it touches is direct and can be read. */
  lemma ReadsAllIff(d: Disk, n: Inode, offset: nat, len: nat)
    requires d.blockSize > 0 && Wanted(n, offset, len) > 0
    ensures ReadCount(d, n, offset, len) == Wanted(n, offset, len) <==>
      forall i :: Index(offset, d.blockSize) <= i <= EndBlock(d.blockSize, offset, Wanted(n, offset, len)) ==>
        Readable(d, n, i)
  {
    hide Index, Within, EndBlock, BlockBytes;
    var b, want := d.blockSize, Wanted(n, offset, len);
    var first, end := Index(offset, b), EndBlock(b, offset, want);
    var bad := FirstBad(d, n, first, end);
    if bad <= end {
      AmountsAddUp(b, offset, want, bad);
      assert !Readable(d, n, bad);
    } else {
      AmountsAddUp(b, offset, want, end);
    }
  }

  /** The first m direct blocks, one after the other. */
  function Blocks(d: Disk, n: Inode, m: nat): (r: seq<Byte>)
    requires forall i :: 0 <= i < m ==> Readable(d, n, i)
    ensures |r| == m * d.blockSize
  {
    if m == 0 then [] else
      OneMoreRow(m - 1, d.blockSize);
      assert Readable(d, n, m - 1);
      Blocks(d, n, m - 1) + BlockBytes(d, n.block[m - 1]).value
  }

  lemma {:induction false} BlocksByte(d: Disk, n: Inode, m: nat, pos: nat)
    requires d.blockSize > 0 && (forall i :: 0 <= i < m ==> Readable(d, n, i)) && pos < m * d.blockSize
    ensures Blocks(d, n, m)[pos] == ByteAt(d, n, pos)
  {
    hide Index, Within, BlockBytes;
    OneMoreRow(m - 1, d.blockSize);
    assert Readable(d, n, m - 1);
    if pos < (m - 1) * d.blockSize {
      BlocksByte(d, n, m - 1, pos);
    } else {
      PositionUnique(pos, d.blockSize, m - 1, pos - (m - 1) * d.blockSize);
    }
  }

  /** What a complete read delivers is that slice of the blocks laid end to end. */
  lemma SliceOfBlocks(d: Disk, n: Inode, m: nat, offset: nat, len: nat)
    requires d.blockSize > 0 && (forall i :: 0 <= i < m ==> Readable(d, n, i)) && offset + len <= m * d.blockSize
    ensures Slice(d, n, offset, len) == Blocks(d, n, m)[offset..offset + len]
  {
    hide ByteAt, Readable;
    forall k | 0 <= k < len ensures Slice(d, n, offset, len)[k] == Blocks(d, n, m)[offset + k] {
      BlocksByte(d, n, m, offset + k);
    }
  }

  class Reader {
    const image: array<Byte>
    const blockSize: nat
    const blocksCount: nat
    const inodes: map<nat, Inode>

    ghost function View(): Disk
      reads image
    {
      Disk(image[..], blockSize, blocksCount, inodes)
    }

    ghost predicate Valid()
      reads image
    {
      DiskOk(View())
    }

    constructor (data: array<Byte>, size: nat, count: nat, table: map<nat, Inode>)
      requires size > 0 && forall i :: i in table ==> InodeOk(table[i])
      ensures Valid() && View() == Disk(data[..], size, count, table)
    {
      image, blockSize, blocksCount, inodes := data, size, count, table;
    }

    method ReadBlock(n: nat) returns (at: Option<nat>)
      ensures at == BlockOffset(image.Length, blockSize, blocksCount, n)
      ensures at.Some? ==> (at.value == n * blockSize <==> n * blockSize < U32)
    {
      if blockSize == 0 || n >= blocksCount {
        return None;
      }
      var offset := (n * blockSize) % U32;
      if offset + blockSize > image.Length {
        return None;
      }
      at := Some(offset);
    }

    /** memcpy out of a block of the image. */
    method CopyOut(from: nat, buf: array<Byte>, at: nat, n: nat)
      requires from + n <= image.Length && at + n <= buf.Length && buf != image
      modifies buf
      ensures buf[..at + n] == old(buf[..at]) + image[from..from + n] && buf[at + n..] == old(buf[at + n..])
    {
      forall k | 0 <= k < n {
        buf[at + k] := image[from + k];
      }
    }

    /** The amount the loop takes from block i, clamp included. */
    method BlockAmount(i: nat, startBlock: nat, endBlock: nat, blockOffset: nat, offset: nat, want: nat, bytesRead: nat)
      returns (toRead: nat)
      requires blockSize > 0 && startBlock == Index(offset, blockSize) && blockOffset == Within(offset, blockSize) &&
        startBlock <= i
      requires if want == 0 then i == startBlock && bytesRead == 0
               else endBlock == EndBlock(blockSize, offset, want) && i <= endBlock &&
                    bytesRead == Upto(blockSize, offset, want, i)
      ensures if want == 0 then toRead == 0 else toRead == Amount(blockSize, offset, want, i)
    {
      var amount := blockSize;
      if i == startBlock {
        amount := amount - blockOffset;
      }
      if i == endBlock {
        var endOffset := Within(offset + want, blockSize);
        if endOffset > 0 {
          amount := endOffset - (if i == startBlock then blockOffset else 0);
        }
      }
      if want > 0 {
        AmountsAddUp(blockSize, offset, want, i);
      }
      if bytesRead + amount > want {
        amount := want - bytesRead;
      }
      toRead := amount;
    }

    /** Copies what the range wants from block i, which is at `at` in the image. */
    method CopyBlock(inode: Inode, i: nat, at: nat, startBlock: nat, endBlock: nat, offset: nat, want: nat,
                     buf: array<Byte>, bytesRead: nat)
      returns (toRead: nat)
      requires blockSize > 0 && startBlock == Index(offset, blockSize) && startBlock <= i < DIRECT && i < |inode.block|
      requires BlockOffset(image.Length, blockSize, blocksCount, inode.block[i]) == Some(at)
      requires if want == 0 then i == startBlock && bytesRead == 0
               else endBlock == EndBlock(blockSize, offset, want) && i <= endBlock &&
                    bytesRead == Upto(blockSize, offset, want, i)
      requires want <= buf.Length && buf != image && bytesRead <= want
      requires buf[..bytesRead] == Slice(View(), inode, offset, bytesRead)
      modifies buf
      ensures if want == 0 then toRead == 0
              else toRead > 0 && bytesRead + toRead == Upto(blockSize, offset, want, i + 1) <= want
      ensures buf[..bytesRead + toRead] == Slice(View(), inode, offset, bytesRead + toRead)
      ensures buf[bytesRead + toRead..] == old(buf[bytesRead + toRead..])
    {
      hide Upto, Amount, Slice, EndBlock, BlockOffset, Index, Within;
      ghost var d := View();
      var blockOffset := Within(offset, blockSize);
      toRead := BlockAmount(i, startBlock, endBlock, blockOffset, offset, want, bytesRead);
      var from := at + if i == startBlock then blockOffset else 0;
      BlockFits(image.Length, blockSize, blocksCount, inode.block[i]);
      if want > 0 {
        AmountsAddUp(blockSize, offset, want, i);
        CopiedBytes(d, inode, offset, want, i, at);
        SliceJoins(d, inode, offset, bytesRead, toRead);
      }
      assert from + toRead <= image.Length;
      assert Slice(d, inode, offset, bytesRead + toRead) == buf[..bytesRead] + image[from..from + toRead];
      CopyOut(from, buf, bytesRead, toRead);
      assert View() == d;
    }

    /** Reads up to len bytes from offset on: exactly what is wanted up to the first block that cannot be
        read, each byte the one at its place in the blocks laid end to end. For len 0 at offset 0 the
        last block wraps around in 64 bits. */
    method ReadInodeData(inode: Inode, offset: nat, buf: array<Byte>, len: nat) returns (bytesRead: nat)
      requires Valid() && InodeOk(inode) && len <= buf.Length && buf != image && offset + len < WORD_LIMIT
      modifies buf
      ensures bytesRead == ReadCount(View(), inode, offset, len) <= len
      ensures GivesAll(View(), inode, offset, len, bytesRead)
      ensures buf[..bytesRead] == Slice(View(), inode, offset, bytesRead) && buf[bytesRead..] == old(buf[bytesRead..])
    {
      hide Upto, Amount, Slice, EndBlock, BlockBytes, BlockOffset, Index, Within, GivesAll;
      ReadGivesAll(View(), inode, offset, len);
      if offset >= inode.size {
        return 0;
      }
      var want := if offset + len > inode.size then inode.size - offset else len;
      ghost var d := View();
      var startBlock := Index(offset, blockSize);
      var endBlock := LastBlock(offset, want);
      bytesRead := 0;
      UptoBounds(blockSize, offset, want, startBlock);
      var i := startBlock;
      while i <= endBlock && i < DIRECT
        invariant startBlock <= i && bytesRead <= want
        invariant if want == 0 then i == startBlock && bytesRead == 0
                  else i <= endBlock + 1 && bytesRead == Upto(blockSize, offset, want, i)
                       && FirstBad(d, inode, startBlock, endBlock) == FirstBad(d, inode, i, endBlock)
        invariant buf[..bytesRead] == Slice(d, inode, offset, bytesRead) && buf[bytesRead..] == old(buf[bytesRead..])
        decreases endBlock + 1 - i
      {
        ReadableIs(d, inode, i);
        if want > 0 {
          AmountsAddUp(blockSize, offset, want, i);
        }
        var at := ReadBlock(inode.block[i]);
        if at.None? {
          break;
        }
        var toRead := CopyBlock(inode, i, at.value, startBlock, endBlock, offset, want, buf, bytesRead);
        bytesRead := bytesRead + toRead;
        if bytesRead >= want {
          break;
        }
        i := i + 1;
      }
    }

    method LastBlock(offset: nat, want: nat) returns (endBlock: nat)
      requires blockSize > 0 && offset + want < U32
      ensures want > 0 ==> endBlock == EndBlock(blockSize, offset, want)
    {
      if offset + want == 0 {
        endBlock := ((WORD_LIMIT - 1) / blockSize) % U32;
      } else {
        endBlock := Index(offset + want - 1, blockSize);
      }
    }
  }

  lemma BlockFits(size: nat, blockSize: nat, blocksCount: nat, n: nat)
    ensures var at := BlockOffset(size, blockSize, blocksCount, n); at.Some? ==> at.value + blockSize <= size
  {
  }

  lemma ReadableIs(d: Disk, n: Inode, i: nat)
    requires i < DIRECT && i < |n.block|
    ensures Readable(d, n, i) <==> BlockOffset(|d.image|, d.blockSize, d.blocksCount, n.block[i]).Some?
  {
  }

  lemma UptoBounds(blockSize: nat, offset: nat, want: nat, i: nat)
    requires blockSize > 0 && i == Index(offset, blockSize)
    ensures Upto(blockSize, offset, want, i) == 0
  {
    Position(offset, blockSize);
  }

  /** Where block i takes over. */
  lemma UptoExact(blockSize: nat, offset: nat, want: nat, i: nat)
    requires blockSize > 0 && want > 0 && Index(offset, blockSize) <= i <= EndBlock(blockSize, offset, want)
    ensures var from := if i == Index(offset, blockSize) then Within(offset, blockSize) else 0;
            && offset + Upto(blockSize, offset, want, i) == i * blockSize + from
            && 0 < Amount(blockSize, offset, want, i) && from + Amount(blockSize, offset, want, i) <= blockSize
  {
    hide Amount, Index, Within, EndBlock;
    var last := offset + want - 1;
    Position(offset, blockSize);
    Position(last, blockSize);
    ProductOrder(i, Index(last, blockSize), blockSize);
    ProductOrder(Index(offset, blockSize), i, blockSize);
    OneMoreRow(i, blockSize);
    AmountsAddUp(blockSize, offset, want, i);
  }

  lemma ByteInBlock(d: Disk, n: Inode, i: nat, at: nat, j: nat, pos: nat)
    requires i < DIRECT && i < |n.block| && BlockOffset(|d.image|, d.blockSize, d.blocksCount, n.block[i]) == Some(at)
    requires j < d.blockSize && pos == i * d.blockSize + j
    ensures ByteAt(d, n, pos) == d.image[at + j]
  {
    hide BlockOffset, Index, Within;
    PositionUnique(pos, d.blockSize, i, j);
  }

  /** What is copied from block i is what belongs at its place. */
  lemma CopiedBytes(d: Disk, n: Inode, offset: nat, want: nat, i: nat, at: nat)
    requires d.blockSize > 0 && want > 0 && Index(offset, d.blockSize) <= i <= EndBlock(d.blockSize, offset, want)
    requires i < DIRECT && i < |n.block| && BlockOffset(|d.image|, d.blockSize, d.blocksCount, n.block[i]) == Some(at)
    ensures var from := if i == Index(offset, d.blockSize) then Within(offset, d.blockSize) else 0;
            var done, a := Upto(d.blockSize, offset, want, i), Amount(d.blockSize, offset, want, i);
            && 0 < a && from + a <= d.blockSize && at + d.blockSize <= |d.image|
            && d.image[at + from..at + from + a] == Slice(d, n, offset + done, a)
  {
    hide Upto, Amount, EndBlock, ByteAt, BlockOffset, Index, Within;
    var from := if i == Index(offset, d.blockSize) then Within(offset, d.blockSize) else 0;
    var done, a := Upto(d.blockSize, offset, want, i), Amount(d.blockSize, offset, want, i);
    UptoExact(d.blockSize, offset, want, i);
    var copied, slice := d.image[at + from..at + from + a], Slice(d, n, offset + done, a);
    forall k | 0 <= k < a ensures copied[k] == slice[k] {
      ByteInBlock(d, n, i, at, from + k, offset + done + k);
    }
  }

  lemma SliceJoins(d: Disk, n: Inode, pos: nat, a: nat, b: nat)
    requires d.blockSize > 0
    ensures Slice(d, n, pos, a) + Slice(d, n, pos + a, b) == Slice(d, n, pos, a + b)
  {
    hide ByteAt;
  }
}
