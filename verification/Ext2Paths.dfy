/** Path resolution: a destructive tokeniser and a directory scan, proved equal to looking up the
    path's components one after another. */
module Ext2Paths {
  import opened Bits
  import opened Arithmetic
  import opened Ext2

  // ---- directory entries ----------------------------------------------------------------------

  /** A little-endian field of n bytes. */
  function Field(b: seq<Byte>, at: nat, n: nat): nat
    requires at + n <= |b|
  {
    FromLE(b[at..at + n])
  }

  /** The entries from `at` on lie within the block, up to the first that ends the scan. */
  predicate Walkable(b: seq<Byte>, at: nat)
    decreases if at < |b| then |b| - at else 0
  {
    at >= |b| ||
    (&& at + 8 <= |b| && at + 8 + b[at + 6] <= |b|
     && (Field(b, at, 4) == 0 || Field(b, at + 4, 2) == 0 || Walkable(b, at + Field(b, at + 4, 2))))
  }

  /** The inode number of the first entry with that name; an entry with inode or length 0 ends the
      scan of the block. */
  function Scan(b: seq<Byte>, at: nat, name: seq<Byte>): Option<nat>
    requires Walkable(b, at)
    decreases if at < |b| then |b| - at else 0
  {
    if at >= |b| || Field(b, at, 4) == 0 || Field(b, at + 4, 2) == 0 then None
    else if b[at + 6] == |name| && b[at + 8..at + 8 + b[at + 6]] == name then Some(Field(b, at, 4))
    else Scan(b, at + Field(b, at + 4, 2), name)
  }

  /** A directory entry. Its record is as long as its fields, its name and `slack` more bytes. */
  datatype DirEntry = DirEntry(inode: nat, name: seq<Byte>, fileType: Byte, slack: seq<Byte>)

  predicate EntryOk(e: DirEntry) {
    e.inode < U32 && |e.name| < 256 && 8 + |e.name| + |e.slack| < 0x1_0000
  }

  function Record(e: DirEntry): (r: seq<Byte>)
    requires EntryOk(e)
    ensures |r| == 8 + |e.name| + |e.slack|
  {
    ToLE(e.inode, 4) + ToLE(8 + |e.name| + |e.slack|, 2) + [|e.name|, e.fileType] + e.name + e.slack
  }

  /** A directory block: the records one after another. */
  function Records(es: seq<DirEntry>): seq<Byte>
    requires forall i :: 0 <= i < |es| ==> EntryOk(es[i])
  {
    if es == [] then [] else assert EntryOk(es[0]); Record(es[0]) + Records(es[1..])
  }

  /** The first entry in use that has the name. */
  function Match(es: seq<DirEntry>, name: seq<Byte>): Option<nat> {
    if es == [] then None
    else if es[0].inode != 0 && es[0].name == name then Some(es[0].inode)
    else Match(es[1..], name)
  }

  /** The entries before the first unused one. */
  function BeforeUnused(es: seq<DirEntry>): seq<DirEntry> {
    if es == [] || es[0].inode == 0 then [] else [es[0]] + BeforeUnused(es[1..])
  }

  lemma RecordFields(b: seq<Byte>, at: nat, e: DirEntry)
    requires EntryOk(e) && at + |Record(e)| <= |b| && b[at..at + |Record(e)|] == Record(e)
    ensures Field(b, at, 4) == e.inode && Field(b, at + 4, 2) == |Record(e)| && b[at + 6] == |e.name|
    ensures b[at + 8..at + 8 + |e.name|] == e.name
  {
    hide FromLE, ToLE, Record;
    var r := Record(e);
    RecordParts(e);
    PartOfPart(b, at, |r|, 0, 4);
    PartOfPart(b, at, |r|, 4, 6);
    PartOfPart(b, at, |r|, 8, 8 + |e.name|);
    assert b[at + 6] == b[at..at + |r|][6];
    SmallWords();
    FromToLE(e.inode, 4);
    FromToLE(|r|, 2);
  }

  lemma RecordParts(e: DirEntry)
    requires EntryOk(e)
    ensures var r := Record(e);
            r[..4] == ToLE(e.inode, 4) && r[4..6] == ToLE(|r|, 2) && r[6] == |e.name| && r[8..8 + |e.name|] == e.name
  {
    hide ToLE;
  }

  lemma PartOfPart(b: seq<Byte>, at: nat, n: nat, i: nat, j: nat)
    requires at + n <= |b| && i <= j <= n
    ensures b[at + i..at + j] == b[at..at + n][i..j]
  {
    var x, y := b[at + i..at + j], b[at..at + n][i..j];
    assert |x| == |y| == j - i;
    forall k | 0 <= k < j - i ensures x[k] == y[k] {
    }
  }

  lemma SmallWords()
    ensures Pow256(2) == 0x1_0000 && Pow256(4) == U32
  {
    assert Pow256(4) == 256 * Pow256(3);
  }

  /** Scanning a block of records finds the first match among the entries before the first unused one. */
  lemma {:induction false} ScanFindsMatch(b: seq<Byte>, at: nat, es: seq<DirEntry>, name: seq<Byte>)
    requires (forall i :: 0 <= i < |es| ==> EntryOk(es[i])) && at <= |b| && b[at..] == Records(es)
    ensures Walkable(b, at) && Scan(b, at, name) == Match(BeforeUnused(es), name)
    decreases |es|
  {
    hide Field, Record;
    if es == [] {
    } else {
      var e := es[0];
      assert EntryOk(e);
      var n := |Record(e)|;
      assert b[at..at + n] == b[at..][..n] == Record(e);
      assert b[at + n..] == b[at..][n..] == Records(es[1..]);
      RecordFields(b, at, e);
      ScanFindsMatch(b, at + n, es[1..], name);
      if e.inode != 0 {
        assert BeforeUnused(es)[1..] == BeforeUnused(es[1..]);
      }
    }
  }

  /** An unused entry hides everything after it in its block. */
  predicate Hidden(es: seq<DirEntry>, name: seq<Byte>) {
    es != [] && if es[0].inode == 0 then Match(es[1..], name).Some? else es[0].name != name && Hidden(es[1..], name)
  }

  /** So the scan is the lookup exactly when no unused entry comes before the entry looked for. */
  lemma {:induction false} ScanIsMatchIff(es: seq<DirEntry>, name: seq<Byte>)
    ensures Match(BeforeUnused(es), name) == Match(es, name) <==> !Hidden(es, name)
  {
    if es == [] || es[0].inode == 0 {
    } else {
      assert BeforeUnused(es)[1..] == BeforeUnused(es[1..]);
      ScanIsMatchIff(es[1..], name);
    }
  }

  // ---- paths ------------------------------------------------------------------------------------

  function Slash(s: seq<Byte>): (n: nat)
    ensures n <= |s| && SLASH !in s[..n] && (n < |s| ==> s[n] == SLASH)
  {
    if s == [] || s[0] == SLASH then 0 else 1 + Slash(s[1..])
  }

  /** The non-empty components of a path. */
  function Components(s: seq<Byte>): seq<seq<Byte>>
    decreases |s|
  {
    if s == [] then []
    else if s[0] == SLASH then Components(s[1..])
    else [s[..Slash(s)]] + Components(s[Slash(s)..])
  }

  /** A slash only separates: how many there are, and whether one comes first or last, is irrelevant. */
  lemma {:induction false} SlashSeparates(a: seq<Byte>, b: seq<Byte>)
    ensures Components(a + [SLASH] + b) == Components(a) + Components(b)
    decreases |a|
  {
    var s := a + [SLASH] + b;
    if a == [] {
      assert s[1..] == b;
    } else if a[0] == SLASH {
      assert s[1..] == a[1..] + [SLASH] + b;
      SlashSeparates(a[1..], b);
    } else {
      var n := Slash(a);
      SlashOfPrefix(a, b);
      assert s[..n] == a[..n] && s[n..] == a[n..] + [SLASH] + b;
      SlashSeparates(a[n..], b);
      assert Components(s) == [a[..n]] + Components(a[n..] + [SLASH] + b);
    }
  }

  lemma {:induction false} SlashOfPrefix(a: seq<Byte>, b: seq<Byte>)
    ensures Slash(a + [SLASH] + b) == Slash(a)
  {
    var s := a + [SLASH] + b;
    if a == [] {
      assert s[0] == SLASH;
    } else if a[0] != SLASH {
      assert s[1..] == a[1..] + [SLASH] + b;
      SlashOfPrefix(a[1..], b);
    }
  }

  // ---- lookup -----------------------------------------------------------------------------------

  predicate IsDirectory(n: Inode) {
    BitAnd(n.mode, DIRECTORY_BIT) != 0
  }

  /** The file format bits of a mode: 1 pipe, 2 character device, 4 directory, 6 block device, 8 regular file,
      10 symbolic link, 12 socket. */
  function Format(mode: nat): nat {
    mode / 0x1000 % 16
  }

  predicate IsFormat(f: nat) {
    f == 1 || f == 2 || f == 4 || f == 6 || f == 8 || f == 10 || f == 12
  }

  /** Testing one bit takes an inode for a directory that is one, and so decides right if and only if the inode is
      neither a block device nor a socket. */
  lemma IsDirectoryIff(n: Inode)
    requires IsFormat(Format(n.mode))
    ensures (IsDirectory(n) <==> Format(n.mode) == 4) <==> Format(n.mode) != 6 && Format(n.mode) != 12
  {
    hide BitAnd, Bit;
    DirectoryBit();
    AndPow2(n.mode, 14);
    BitIsDigit(n.mode, 14);
    FormatBit(n.mode);
  }

  lemma DirectoryBit()
    ensures Pow2(14) == DIRECTORY_BIT
  {
    assert Pow2(7) == 128;
  }

  lemma FormatBit(mode: nat)
    ensures mode / 0x4000 % 2 == Format(mode) / 4 % 2
  {
    var q, g, f := mode / 0x1000, mode / 0x1000 / 16, Format(mode);
    FormatQuotient(mode);
    DivModUnique(q, 4, 4 * g + f / 4, f % 4);
    DivModUnique(4 * g + f / 4, 2, 2 * g + f / 8, f / 4 % 2);
  }

  lemma FormatQuotient(mode: nat)
    ensures mode / 0x4000 == mode / 0x1000 / 4
  {
    var q, r := mode / 0x1000, mode % 0x1000;
    assert mode == 0x1000 * q + r;
    DivModUnique(mode, 0x4000, q / 4, 0x1000 * (q % 4) + r);
  }

  /** A readable block of a directory holds entries that lie within it. */
  ghost predicate Tidy(d: Disk) {
    forall i :: i in d.inodes ==> TidyInode(d, d.inodes[i])
  }

  ghost predicate TidyInode(d: Disk, n: Inode) {
    |n.block| == 15 &&
    (IsDirectory(n) ==> forall k :: 0 <= k < DIRECT && BlockBytes(d, n.block[k]).Some? ==>
       Walkable(BlockBytes(d, n.block[k]).value, 0))
  }

  /** The inode number a directory has for a name, looking through its direct blocks from k on. */
  function Lookup(d: Disk, dir: Inode, name: seq<Byte>, k: nat): Option<nat>
    requires TidyInode(d, dir) && IsDirectory(dir) && k <= DIRECT
    decreases DIRECT - k
  {
    if k == DIRECT then None
    else
      var bytes := if dir.block[k] == 0 then None else BlockBytes(d, dir.block[k]);
      if bytes.Some? && Scan(bytes.value, 0, name).Some? then Scan(bytes.value, 0, name)
      else Lookup(d, dir, name, k + 1)
  }

  /** The directory's block k, if it has one that can be read, consists of the records of ess[k]. */
  ghost predicate DirectoryHolds(d: Disk, dir: Inode, ess: seq<seq<DirEntry>>)
    requires |dir.block| == 15
  {
    |ess| == DIRECT &&
    forall k :: 0 <= k < DIRECT ==>
      if dir.block[k] != 0 && BlockBytes(d, dir.block[k]).Some? then
        (forall i :: 0 <= i < |ess[k]| ==> EntryOk(ess[k][i])) && BlockBytes(d, dir.block[k]).value == Records(ess[k])
      else ess[k] == []
  }

  /** The entries of several blocks, one block after the other. */
  function Joined(ess: seq<seq<DirEntry>>): seq<DirEntry> {
    if ess == [] then [] else ess[0] + Joined(ess[1..])
  }

  function Visible(ess: seq<seq<DirEntry>>): seq<DirEntry> {
    if ess == [] then [] else BeforeUnused(ess[0]) + Visible(ess[1..])
  }

  lemma {:induction false} MatchJoins(a: seq<DirEntry>, b: seq<DirEntry>, name: seq<Byte>)
    ensures Match(a + b, name) == if Match(a, name).Some? then Match(a, name) else Match(b, name)
  {
    if a == [] {
      assert a + b == b;
    } else {
      assert (a + b)[1..] == a[1..] + b;
      MatchJoins(a[1..], b, name);
    }
  }

  /** Looking a name up finds the first entry of that name in the whole directory, among those that come before the
      first unused one of their block. */
  lemma {:induction false} LookupFindsMatch(d: Disk, dir: Inode, ess: seq<seq<DirEntry>>, name: seq<Byte>, k: nat)
    requires TidyInode(d, dir) && IsDirectory(dir) && DirectoryHolds(d, dir, ess) && k <= DIRECT
    ensures Lookup(d, dir, name, k) == Match(Visible(ess[k..]), name)
    decreases DIRECT - k
  {
    hide IsDirectory, BlockBytes, Scan, Walkable, BeforeUnused, Records;
    if k == DIRECT {
      assert ess[k..] == [];
    } else {
      assert ess[k..][1..] == ess[k + 1..];
      LookupFindsMatch(d, dir, ess, name, k + 1);
      MatchJoins(BeforeUnused(ess[k]), Visible(ess[k + 1..]), name);
      if dir.block[k] != 0 && BlockBytes(d, dir.block[k]).Some? {
        var bytes := BlockBytes(d, dir.block[k]).value;
        assert bytes[0..] == bytes;
        ScanFindsMatch(bytes, 0, ess[k], name);
      } else {
        NothingVisible();
      }
    }
  }

  lemma NothingVisible()
    ensures BeforeUnused([]) == []
  {
  }

  /** The first entry of that name comes after an unused one of its block, and no later block makes up for it. */
  predicate Overlooked(ess: seq<seq<DirEntry>>, name: seq<Byte>) {
    ess != [] &&
    if Hidden(ess[0], name) then Match(Visible(ess[1..]), name) != Match(ess[0], name)
    else Match(ess[0], name).None? && Overlooked(ess[1..], name)
  }

  /** That is the lookup the format means, over all blocks and all entries in use, if and only if the entry looked
      for is not overlooked. */
  lemma {:induction false} LookupIsMatchIff(ess: seq<seq<DirEntry>>, name: seq<Byte>)
    ensures Match(Visible(ess), name) == Match(Joined(ess), name) <==> !Overlooked(ess, name)
    decreases |ess|
  {
    hide BeforeUnused, Match;
    if ess == [] {
    } else {
      MatchJoins(BeforeUnused(ess[0]), Visible(ess[1..]), name);
      MatchJoins(ess[0], Joined(ess[1..]), name);
      ScanIsMatchIff(ess[0], name);
      HiddenScan(ess[0], name);
      LookupIsMatchIff(ess[1..], name);
    }
  }

  lemma {:induction false} HiddenScan(es: seq<DirEntry>, name: seq<Byte>)
    ensures Hidden(es, name) ==> Match(BeforeUnused(es), name).None? && Match(es, name).Some?
    ensures Match(es, name).None? ==> Match(BeforeUnused(es), name).None?
  {
    if es == [] || es[0].inode == 0 {
    } else {
      assert BeforeUnused(es)[1..] == BeforeUnused(es[1..]);
      HiddenScan(es[1..], name);
    }
  }

  ghost predicate Resolvable(d: Disk) {
    DiskOk(d) && Tidy(d)
  }

  lemma TidyEach(d: Disk, i: nat)
    requires Resolvable(d) && i in d.inodes
    ensures TidyInode(d, d.inodes[i])
  {
  }

  /** One component: the current inode has to be a directory that has the name. */
  function Entered(d: Disk, at: nat, name: seq<Byte>): (r: Option<nat>)
    requires Resolvable(d) && at in d.inodes
    ensures r.Some? ==> r.value in d.inodes
  {
    TidyEach(d, at);
    if !IsDirectory(d.inodes[at]) then None
    else
      var found := Lookup(d, d.inodes[at], name, 0);
      if found.Some? && found.value in d.inodes then found else None
  }

  /** Looking up components one after another. */
  function Resolved(d: Disk, at: nat, names: seq<seq<Byte>>): (r: Option<nat>)
    requires Resolvable(d) && at in d.inodes
    ensures r.Some? ==> r.value in d.inodes
    decreases |names|
  {
    if names == [] then Some(at)
    else
      var next := Entered(d, at, names[0]);
      if next.None? then None else Resolved(d, next.value, names[1..])
  }

  /** What a path names: nothing if it is empty, else its components from the root, of the first 127 bytes. */
  function Named(d: Disk, path: seq<Byte>): Option<nat>
    requires Resolvable(d)
  {
    if path == [] || ROOT !in d.inodes then None
    else Resolved(d, ROOT, Components(if |path| < MAX_PATH then path else path[..MAX_PATH - 1]))
  }

  /** A path of up to 127 bytes is resolved as it is, from inode 2; of a longer one only the first 127 count. */
  lemma NamedMeans(d: Disk, path: seq<Byte>)
    requires Resolvable(d) && path != [] && 2 in d.inodes
    ensures |path| <= 127 ==> Named(d, path) == Resolved(d, 2, Components(path))
    ensures |path| > 127 ==> Named(d, path) == Named(d, path[..127])
  {
  }

  /** Going into a component from a directory gives the first entry of that name before the first unused one of its
      block, if the inode it names exists; from anything that is no directory nothing. */
  lemma EnteredMeans(d: Disk, at: nat, ess: seq<seq<DirEntry>>, name: seq<Byte>)
    requires Resolvable(d) && at in d.inodes
    requires IsDirectory(d.inodes[at]) ==> |d.inodes[at].block| == 15 && DirectoryHolds(d, d.inodes[at], ess)
    ensures !IsDirectory(d.inodes[at]) ==> Entered(d, at, name) == None
    ensures IsDirectory(d.inodes[at]) ==>
      var found := Match(Visible(ess), name);
      Entered(d, at, name) == if found.Some? && found.value in d.inodes then found else None
  {
    hide IsDirectory, DirectoryHolds, Lookup;
    TidyEach(d, at);
    if IsDirectory(d.inodes[at]) {
      LookupFindsMatch(d, d.inodes[at], ess, name, 0);
      assert ess[0..] == ess by { HasTwelve(d, d.inodes[at], ess); }
    }
  }

  lemma HasTwelve(d: Disk, dir: Inode, ess: seq<seq<DirEntry>>)
    requires |dir.block| == 15 && DirectoryHolds(d, dir, ess)
    ensures |ess| == DIRECT
  {
  }

  /** Going down a and then b is going down both at once. */
  lemma {:induction false} ResolvedInSteps(d: Disk, at: nat, a: seq<seq<Byte>>, b: seq<seq<Byte>>)
    requires Resolvable(d) && at in d.inodes
    ensures Resolved(d, at, a + b) ==
      if Resolved(d, at, a).None? then None else Resolved(d, Resolved(d, at, a).value, b)
    decreases |a|
  {
    hide Entered;
    if a == [] {
      assert a + b == b;
    } else {
      assert (a + b)[1..] == a[1..] + b;
      var next := Entered(d, at, a[0]);
      if next.Some? {
        ResolvedInSteps(d, next.value, a[1..], b);
      }
    }
  }

  /** A longer path names what its last part names from the directory its first part names. */
  lemma PathInSteps(d: Disk, a: seq<Byte>, b: seq<Byte>)
    requires Resolvable(d) && ROOT in d.inodes && a != [] && |a| + 1 + |b| < MAX_PATH
    ensures Named(d, a + [SLASH] + b) ==
      if Named(d, a).None? then None else Resolved(d, Named(d, a).value, Components(b))
  {
    hide Resolved;
    SlashSeparates(a, b);
    ResolvedInSteps(d, ROOT, Components(a), Components(b));
  }

  // ---- the resolver ---------------------------------------------------------------------------------

  /** Walks the entries of a block. */
  method ScanBlock(block: array<Byte>, name: seq<Byte>) returns (found: Option<nat>)
    requires Walkable(block[..], 0)
    ensures found == Scan(block[..], 0, name)
  {
    ghost var b := block[..];
    var offset := 0;
    while offset < block.Length
      invariant Walkable(b, offset) && Scan(b, offset, name) == Scan(b, 0, name)
      decreases if offset < block.Length then block.Length - offset else 0
    {
      var inode, recLen := FromLE(block[offset..offset + 4]), FromLE(block[offset + 4..offset + 6]);
      var nameLen := block[offset + 6];
      assert block[offset..offset + 4] == b[offset..offset + 4] &&
        block[offset + 4..offset + 6] == b[offset + 4..offset + 6];
      if inode == 0 || recLen == 0 {
        return None;
      }
      if nameLen == |name| && block[offset + 8..offset + 8 + nameLen] == name {
        return Some(inode);
      }
      offset := offset + recLen;
    }
    found := None;
  }

  /** Looks a name up in the direct blocks of a directory, each copied out before it is scanned. */
  method FindEntry(r: Reader, dir: Inode, name: seq<Byte>) returns (found: Option<nat>)
    requires r.Valid() && TidyInode(r.View(), dir) && IsDirectory(dir)
    ensures found == Lookup(r.View(), dir, name, 0)
  {
    hide Walkable, Scan, IsDirectory, BlockBytes, Reader.Valid;
    ghost var d := r.View();
    for i := 0 to DIRECT
      invariant Lookup(d, dir, name, i) == Lookup(d, dir, name, 0)
    {
      if dir.block[i] != 0 {
        var buffer := LoadBlock(r, dir.block[i]);
        if buffer.Some? {
          found := ScanBlock(buffer.value, name);
          if found.Some? {
            return;
          }
        }
      }
    }
    found := None;
  }

  /** A copy of a block, if it can be read. */
  method LoadBlock(r: Reader, n: nat) returns (buffer: Option<array<Byte>>)
    ensures buffer.Some? == BlockBytes(r.View(), n).Some?
    ensures buffer.Some? ==> fresh(buffer.value) && buffer.value[..] == BlockBytes(r.View(), n).value
  {
    var at := r.ReadBlock(n);
    if at.None? {
      return None;
    }
    var block := new Byte[r.blockSize](_ => 0);
    r.CopyOut(at.value, block, 0, r.blockSize);
    assert block[..] == block[..r.blockSize];
    buffer := Some(block);
  }

  /** strchr(token, '/'): the first slash before the terminator. */
  method FindSlash(buf: array<Byte>, token: nat, ghost rest: seq<Byte>) returns (n: nat)
    requires token + |rest| < buf.Length && buf[token..token + |rest|] == rest && buf[token + |rest|] == 0 && 0 !in rest
    ensures n == token + Slash(rest)
  {
    n := token;
    while buf[n] != 0 && buf[n] != SLASH
      invariant token <= n <= token + |rest| && Slash(rest) == n - token + Slash(rest[n - token..])
      decreases token + |rest| - n
    {
      assert buf[n] == rest[n - token];
      assert rest[n - token..][1..] == rest[n + 1 - token..];
      n := n + 1;
    }
    assert n < token + |rest| ==> buf[n] == rest[n - token];
  }

  /** Takes the component at `token` out of the buffer, overwriting the slash after it. */
  method NextComponent(buf: array<Byte>, token: nat, len: nat) returns (name: seq<Byte>, next: nat)
    requires token < len < buf.Length && 0 !in buf[token..len] && buf[len] == 0
    modifies buf
    ensures name == old(buf[token..len][..Slash(buf[token..len])]) && token < next <= len
    ensures buf[next..len] == AfterComponent(old(buf[token..len])) && buf[len] == 0 && (next < len ==> buf[next] != 0)
  {
    ghost var rest := buf[token..len];
    var slash := FindSlash(buf, token, rest);
    name := buf[token..slash];
    assert name == rest[..Slash(rest)];
    next := len;
    if buf[slash] == SLASH {
      next := slash + 1;
      assert buf[next..len] == rest[Slash(rest)..][1..];
      assert next < len ==> buf[next] == buf[token..len][next - token];
      buf[slash] := 0;
    } else {
      assert buf[len..len] == [];
    }
  }

  /** What is left after a component and the slash that ends it. */
  function AfterComponent(s: seq<Byte>): (r: seq<Byte>)
    ensures forall b :: b in r ==> b in s
  {
    var n := Slash(s); if n < |s| then s[n..][1..] else []
  }

  /** Finds the inode a path names: the path is copied, its slashes are overwritten one by one, and each
      non-empty component is looked up in the directory found so far. */
  method FindInodeByPath(r: Reader, path: seq<Byte>) returns (found: Option<nat>)
    requires r.Valid() && Resolvable(r.View()) && 0 !in path
    ensures found == Named(r.View(), path)
  {
    hide Resolvable, Reader.Valid, Entered, Components, Resolved, Slash, AfterComponent;
    ghost var d := r.View();
    if path == [] || ROOT !in r.inodes {
      return None;
    }
    if path == [SLASH] {
      RootPath(d);
      return Some(ROOT);
    }
    var buf, len := CopyPath(path);
    ghost var rest := path[..len];
    assert rest == if |path| < MAX_PATH then path else path[..MAX_PATH - 1];
    LeadingSlash(rest);
    var token := 0;
    if buf[0] == SLASH {
      token := 1;
      rest := rest[1..];
    }
    var current := ROOT;
    while buf[token] != 0
      invariant token <= len < buf.Length && buf[token..len] == rest && 0 !in rest && buf[len] == 0
      invariant token < len ==> buf[token] != 0
      invariant current in r.inodes && Resolved(d, current, Components(rest)) == Named(d, path)
      decreases len - token
    {
      ComponentStep(rest);
      var name, next := NextComponent(buf, token, len);
      if name != [] {
        ResolvedStep(d, current, Components(rest));
        var entered := Enter(r, current, name);
        if entered.None? {
          return None;
        }
        current := entered.value;
      }
      token := next;
      rest := AfterComponent(rest);
    }
    EmptyPath(d, current);
    found := Some(current);
  }

  /** strncpy into a 128-byte buffer, terminated. */
  method CopyPath(path: seq<Byte>) returns (buf: array<Byte>, len: nat)
    requires 0 !in path
    ensures fresh(buf) && buf.Length == MAX_PATH && len == (if |path| < MAX_PATH then |path| else MAX_PATH - 1)
    ensures buf[..len] == path[..len] && buf[len] == 0 && forall i :: 0 <= i < len ==> buf[i] != 0
  {
    len := if |path| < MAX_PATH then |path| else MAX_PATH - 1;
    buf := new Byte[MAX_PATH](i => if 0 <= i < |path| && i < MAX_PATH - 1 then path[i] else 0);
  }

  /** One component from the inode `at`. */
  method Enter(r: Reader, at: nat, name: seq<Byte>) returns (found: Option<nat>)
    requires r.Valid() && Resolvable(r.View()) && at in r.inodes
    ensures found == Entered(r.View(), at, name)
  {
    hide Lookup, TidyInode, Tidy;
    TidyEach(r.View(), at);
    var dir := r.inodes[at];
    if BitAnd(dir.mode, DIRECTORY_BIT) == 0 {
      return None;
    }
    found := FindEntry(r, dir, name);
    if found.Some? && found.value !in r.inodes {
      found := None;
    }
  }

  lemma RootPath(d: Disk)
    requires Resolvable(d) && ROOT in d.inodes
    ensures Named(d, [SLASH]) == Some(ROOT)
  {
    assert [SLASH][1..] == [];
    assert Components([SLASH]) == [];
  }

  lemma EmptyPath(d: Disk, at: nat)
    requires Resolvable(d) && at in d.inodes
    ensures Components([]) == [] && Resolved(d, at, []) == Some(at)
  {
  }

  lemma LeadingSlash(s: seq<Byte>)
    requires s != []
    ensures Components(s) == Components(if s[0] == SLASH then s[1..] else s)
  {
  }

  lemma ComponentStep(s: seq<Byte>)
    requires s != []
    ensures var name := s[..Slash(s)];
            Components(s) ==
              if name == [] then Components(AfterComponent(s)) else [name] + Components(AfterComponent(s))
  {
    var n := Slash(s);
    if n == 0 {
      assert s[0..] == s;
    } else if n == |s| {
      assert s[n..] == [];
    }
  }

  lemma ResolvedStep(d: Disk, at: nat, names: seq<seq<Byte>>)
    requires Resolvable(d) && at in d.inodes && names != []
    ensures Resolved(d, at, names) ==
      var next := Entered(d, at, names[0]); if next.None? then None else Resolved(d, next.value, names[1..])
  {
  }
}
