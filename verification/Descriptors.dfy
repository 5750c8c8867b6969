/** Open files: the descriptor table and the calls that open, read and close. */
module Descriptors {
  import opened Bits
  import opened RamFs

  const MAX_FDS: nat := 16
  const FIRST_FD: nat := 3
  const CHUNK: nat := 4096
  const PATH_BYTES: nat := 255
  /** User addresses lie below this. */
  const KERNEL_BASE: nat := 0xffff_8000_0000_0000

  datatype Descriptor = Descriptor(file: Option<nat>, position: nat, used: bool)

  // ---- user memory ---------------------------------------------------------------------

  /** The address check: neither end of the range is in the kernel's half, computed in 64 bits. */
  predicate UserRange(vaddr: nat, size: nat): (ok: bool)
    requires vaddr < WORD_LIMIT && size < WORD_LIMIT
    ensures ok <==> vaddr > 0 && size > 0 && vaddr + size <= KERNEL_BASE
  {
    if vaddr == 0 || size == 0 then false
    else if vaddr + (size - 1) >= WORD_LIMIT then false
    else if vaddr >= KERNEL_BASE || vaddr + (size - 1) >= KERNEL_BASE then false
    else true
  }

  /** The bytes before the first NUL. */
  function CString(bytes: seq<Byte>): (r: seq<Byte>)
    ensures r <= bytes && 0 !in r && (|r| < |bytes| ==> bytes[|r|] == 0)
  {
    if bytes == [] || bytes[0] == 0 then [] else [bytes[0]] + CString(bytes[1..])
  }

  // ---- the calls on the table as a value ---------------------------------------------------

  predicate Usable(table: seq<Descriptor>, fd: nat) {
    FIRST_FD <= fd < MAX_FDS && fd < |table| && table[fd].used
  }

  /** Used descriptors refer to files. */
  ghost predicate TableOk(table: seq<Descriptor>, s: Store) {
    |table| == MAX_FDS && forall k :: 0 <= k < MAX_FDS && table[k].used ==>
      table[k].file.Some? && table[k].file.value < |s.entries|
  }

  /** What one read at this position takes from a file: at most 4096 bytes. */
  function Chunk(bytes: seq<Byte>, position: nat, count: nat): (r: seq<Byte>)
    ensures |r| <= count && |r| <= CHUNK
    ensures |r| > 0 ==> position + |r| <= |bytes| && r == bytes[position..position + |r|]
    ensures r == [] <==> count == 0 || position >= |bytes|
  {
    var n := if count > CHUNK then CHUNK else count;
    if position >= |bytes| then []
    else if |bytes| - position > n then bytes[position..position + n]
    else bytes[position..]
  }

  /** The bytes a read on fd finds. */
  function Found(s: Store, table: seq<Descriptor>, fd: nat, count: nat): seq<Byte>
    requires TableOk(table, s) && Usable(table, fd)
  {
    Chunk(s.entries[table[fd].file.value].bytes, table[fd].position, count)
  }

  /** The bytes a read on fd delivers: none when the buffer is not in user memory. */
  function Delivered(s: Store, table: seq<Descriptor>, fd: nat, buf: nat, count: nat): seq<Byte>
    requires TableOk(table, s) && buf < WORD_LIMIT
  {
    if Usable(table, fd) && UserRange(buf, |Found(s, table, fd, count)|) then Found(s, table, fd, count) else []
  }

  /** 0 at the end of the file, -1 for a bad descriptor or buffer, else how many bytes were delivered. */
  function ReadResult(s: Store, table: seq<Descriptor>, fd: nat, buf: nat, count: nat): int
    requires TableOk(table, s) && buf < WORD_LIMIT
  {
    if count == 0 then 0
    else if !Usable(table, fd) then -1
    else if Found(s, table, fd, count) == [] then 0
    else if Delivered(s, table, fd, buf, count) == [] then -1
    else |Delivered(s, table, fd, buf, count)|
  }

  function AfterRead(s: Store, table: seq<Descriptor>, fd: nat, buf: nat, count: nat): (r: seq<Descriptor>)
    requires TableOk(table, s) && buf < WORD_LIMIT
    ensures TableOk(r, s)
  {
    if Usable(table, fd) then
      table[fd := table[fd].(position := table[fd].position + |Delivered(s, table, fd, buf, count)|)]
    else table
  }

  /** The lowest free descriptor from `from` on. */
  function FirstFree(table: seq<Descriptor>, from: nat): (r: Option<nat>)
    requires |table| == MAX_FDS && from <= MAX_FDS
    ensures r.Some? ==> from <= r.value < MAX_FDS && !table[r.value].used
    ensures forall k :: from <= k < (if r.Some? then r.value else MAX_FDS) ==> table[k].used
    decreases MAX_FDS - from
  {
    if from == MAX_FDS then None else if !table[from].used then Some(from) else FirstFree(table, from + 1)
  }

  /** The descriptor an open of this path gets, if it succeeds. None stands for a path that could not
      be copied from user memory or is too long. */
  function OpenResult(s: Store, table: seq<Descriptor>, path: Option<seq<Byte>>): Option<nat>
    requires |table| == MAX_FDS
  {
    if path.None? || Opened(s, path.value).None? then None else FirstFree(table, FIRST_FD)
  }

  function AfterOpen(s: Store, table: seq<Descriptor>, path: Option<seq<Byte>>): (r: seq<Descriptor>)
    requires TableOk(table, s)
    ensures TableOk(r, s)
  {
    var fd := OpenResult(s, table, path);
    if fd.Some? then table[fd.value := Descriptor(Opened(s, path.value), 0, true)] else table
  }

  /** What open should do: the lowest free descriptor from 3 on now stands for the first file that the path matches,
      at its beginning, and no other has changed; or nothing has, because the path cannot be read, no file matches
      it, or no descriptor is free. */
  ghost predicate IsOpened(s: Store, before: seq<Descriptor>, after: seq<Descriptor>, path: Option<seq<Byte>>, r: int) {
    |before| == |after| == MAX_FDS &&
    if r >= 0 then
      && FIRST_FD <= r < MAX_FDS && !before[r].used && (forall k :: FIRST_FD <= k < r ==> before[k].used)
      && after[r].used && after[r].position == 0 && after[r].file.Some? && after[r].file.value < |s.entries|
      && path.Some? && path.value != [] && Matches(s.entries[after[r].file.value].name, path.value)
      && (forall i :: 0 <= i < after[r].file.value ==> !Matches(s.entries[i].name, path.value))
      && forall k :: 0 <= k < MAX_FDS && k != r ==> after[k] == before[k]
    else
      && r == -1 && after == before
      && (path.None? || path.value == []
          || (forall i :: 0 <= i < |s.entries| ==> !Matches(s.entries[i].name, path.value))
          || forall k :: FIRST_FD <= k < MAX_FDS ==> before[k].used)
  }

  lemma OpensFile(s: Store, table: seq<Descriptor>, path: Option<seq<Byte>>)
    requires TableOk(table, s)
    ensures var fd := OpenResult(s, table, path);
            IsOpened(s, table, AfterOpen(s, table, path), path, if fd.Some? then fd.value else -1)
  {
    hide Matches;
  }

  function AfterClose(table: seq<Descriptor>, fd: nat): seq<Descriptor> {
    if Usable(table, fd) then table[fd := Descriptor(None, 0, false)] else table
  }

  // ---- the calls --------------------------------------------------------------------------------

  class Descriptors {
    const fs: RamFs
    const table: array<Descriptor>
    /** User memory, by address. */
    const user: array<Byte>

    ghost predicate Valid()
      reads this, fs, fs.pool, table
    {
      fs.Valid() && user.Length == KERNEL_BASE && user != fs.pool && table.Length == MAX_FDS &&
      TableOk(table[..], fs.View())
    }

    constructor (files: RamFs, memory: array<Byte>)
      requires files.Valid() && memory.Length == KERNEL_BASE && memory != files.pool
      ensures Valid() && fs == files && user == memory && fresh(table)
    {
      fs, user := files, memory;
      table := new Descriptor[MAX_FDS](_ => Descriptor(None, 0, false));
    }

    method CopyToUser(dest: nat, src: array<Byte>, size: nat) returns (r: int)
      requires user.Length == KERNEL_BASE && dest < WORD_LIMIT && size <= src.Length && size < WORD_LIMIT && src != user
      modifies user
      ensures r == if UserRange(dest, size) then size else -1
      ensures UserRange(dest, size) ==> user[..] == Stored(old(user[..]), dest, src[..size])
      ensures !UserRange(dest, size) ==> user[..] == old(user[..])
    {
      if !UserRange(dest, size) {
        return -1;
      }
      forall k | 0 <= k < size {
        user[dest + k] := src[k];
      }
      r := size;
    }

    /** What the file has at the descriptor's position, in a kernel buffer. */
    method Fetch(fd: nat, count: nat) returns (kbuf: array<Byte>, n: nat)
      requires Valid() && count > 0 && Usable(table[..], fd)
      ensures fresh(kbuf) && n <= kbuf.Length && n < WORD_LIMIT && kbuf[..n] == Found(fs.View(), table[..], fd, count)
    {
      hide RamFs.Valid, RamFs.View;
      FileIndexed(fs);
      var toRead := if count > CHUNK then CHUNK else count;
      kbuf := new Byte[CHUNK];
      n := fs.Read(table[fd].file.value, table[fd].position, kbuf, toRead);
    }

    method Read(fd: nat, buf: nat, count: nat) returns (r: int)
      requires Valid() && buf < WORD_LIMIT && count < WORD_LIMIT && fd != 0
      modifies table, user
      ensures Valid() && r == ReadResult(fs.View(), old(table[..]), fd, buf, count)
      ensures table[..] == AfterRead(fs.View(), old(table[..]), fd, buf, count)
      ensures var bytes := Delivered(fs.View(), old(table[..]), fd, buf, count);
              user[..] == if bytes == [] then old(user[..]) else Stored(old(user[..]), buf, bytes)
    {
      hide RamFs.Valid, RamFs.View, Stored, Found, UserRange;
      if count == 0 {
        NothingFound(fs.View(), table[..], fd, buf, count);
        return 0;
      }
      if FIRST_FD <= fd < MAX_FDS && table[fd].used {
        var kbuf, n := Fetch(fd, count);
        if n == 0 {
          NothingFound(fs.View(), table[..], fd, buf, count);
          return 0;
        }
        r := CopyToUser(buf, kbuf, n);
        if r < 0 {
          return -1;
        }
        table[fd] := table[fd].(position := table[fd].position + n);
        return;
      }
      r := -1;
    }

    /** The path at a user address: 255 bytes are copied, whatever its length. */
    ghost function PathAt(path: nat): Option<seq<Byte>>
      requires user.Length == KERNEL_BASE && path < WORD_LIMIT
      reads user
    {
      if !UserRange(path, PATH_BYTES) then None
      else var name := CString(user[path..path + PATH_BYTES]); if |name| == PATH_BYTES then None else Some(name)
    }

    method Open(path: nat) returns (r: int)
      requires Valid() && path < WORD_LIMIT
      modifies table
      ensures Valid() && table[..] == AfterOpen(fs.View(), old(table[..]), old(PathAt(path)))
      ensures var fd := OpenResult(fs.View(), old(table[..]), old(PathAt(path))); r == if fd.Some? then fd.value else -1
      ensures IsOpened(fs.View(), old(table[..]), table[..], old(PathAt(path)), r)
    {
      hide RamFs.Valid, RamFs.View, UserRange, Opened, FirstFree, IsOpened;
      OpensFile(fs.View(), table[..], PathAt(path));
      var fd := FreeDescriptor();
      if fd.None? {
        return -1;
      }
      var name := CopyPath(path);
      if name.None? {
        return -1;
      }
      var file := fs.Open(name.value);
      if file.None? {
        return -1;
      }
      table[fd.value] := Descriptor(file, 0, true);
      assert table[..] == old(table[..])[fd.value := Descriptor(file, 0, true)];
      r := fd.value;
    }

    method FreeDescriptor() returns (fd: Option<nat>)
      requires table.Length == MAX_FDS
      ensures fd == FirstFree(table[..], FIRST_FD)
    {
      for i := FIRST_FD to MAX_FDS
        invariant FirstFree(table[..], FIRST_FD) == FirstFree(table[..], i)
      {
        if !table[i].used {
          return Some(i);
        }
      }
      fd := None;
    }

    method CopyPath(path: nat) returns (name: Option<seq<Byte>>)
      requires user.Length == KERNEL_BASE && path < WORD_LIMIT
      ensures name == PathAt(path)
    {
      if !UserRange(path, PATH_BYTES) {
        return None;
      }
      var kpath := CString(user[path..path + PATH_BYTES]);
      name := if |kpath| >= PATH_BYTES then None else Some(kpath);
    }

    method Close(fd: nat) returns (r: int)
      requires Valid()
      modifies table
      ensures Valid() && table[..] == AfterClose(old(table[..]), fd) &&
        r == if Usable(old(table[..]), fd) then 0 else -1
    {
      if FIRST_FD <= fd < MAX_FDS && table[fd].used {
        table[fd] := Descriptor(None, 0, false);
        return 0;
      }
      r := -1;
    }
  }

  // ---- runs -----------------------------------------------------------------------------------

  /** A call made by the program or, for the files, by the kernel's shell. */
  datatype Call =
    | ReadCall(fd: nat, buf: nat, count: nat)
    | OpenCall(path: Option<seq<Byte>>)
    | CloseCall(fd: nat)
    | FileCall(op: FileOp)

  predicate CallOk(call: Call) {
    call.ReadCall? ==> call.buf < WORD_LIMIT
  }

  function StoreAfter(s: Store, call: Call): Store {
    if call.FileCall? then Perform(s, call.op) else s
  }

  function TableAfter(s: Store, table: seq<Descriptor>, call: Call): (r: seq<Descriptor>)
    requires TableOk(table, s) && CallOk(call)
    ensures TableOk(r, StoreAfter(s, call))
  {
    match call
    case ReadCall(fd, buf, count) => AfterRead(s, table, fd, buf, count)
    case OpenCall(path) => AfterOpen(s, table, path)
    case CloseCall(fd) => AfterClose(table, fd)
    case FileCall(op) => table
  }

  function TableAfterAll(s: Store, table: seq<Descriptor>, calls: seq<Call>): (r: seq<Descriptor>)
    requires TableOk(table, s) && forall i :: 0 <= i < |calls| ==> CallOk(calls[i])
    decreases |calls|
  {
    if calls == [] then table
    else TableAfterAll(StoreAfter(s, calls[0]), TableAfter(s, table, calls[0]), calls[1..])
  }

  /** Everything the reads on fd deliver over a run, in order. */
  function Received(s: Store, table: seq<Descriptor>, calls: seq<Call>, fd: nat): seq<Byte>
    requires TableOk(table, s) && forall i :: 0 <= i < |calls| ==> CallOk(calls[i])
    decreases |calls|
  {
    if calls == [] then []
    else
      assert CallOk(calls[0]);
      (if calls[0].ReadCall? && calls[0].fd == fd then Delivered(s, table, fd, calls[0].buf, calls[0].count) else [])
      + Received(StoreAfter(s, calls[0]), TableAfter(s, table, calls[0]), calls[1..], fd)
  }

  /** The run neither closes fd nor writes to file i. */
  predicate Leaves(calls: seq<Call>, fd: nat, i: nat) {
    forall k :: 0 <= k < |calls| ==>
      calls[k] != CloseCall(fd) && (calls[k].FileCall? && calls[k].op.Put? ==> calls[k].op.index != i)
  }

  /** Whatever else happens meanwhile, on other descriptors, to other files or to the table: what the
      reads on a descriptor deliver is, put together, the file from where the descriptor was to
      where it is now. */
  lemma {:induction false} SequentialReads(s: Store, table: seq<Descriptor>, calls: seq<Call>, fd: nat)
    requires TableOk(table, s) && (forall i :: 0 <= i < |calls| ==> CallOk(calls[i])) && Usable(table, fd)
    requires Leaves(calls, fd, table[fd].file.value) && table[fd].position <= |s.entries[table[fd].file.value].bytes|
    ensures var bytes, end := s.entries[table[fd].file.value].bytes, TableAfterAll(s, table, calls);
            && Usable(end, fd) && end[fd].file == table[fd].file
            && table[fd].position <= end[fd].position <= |bytes|
            && Received(s, table, calls, fd) == bytes[table[fd].position..end[fd].position]
    decreases |calls|
  {
    hide Chunk, Opened, Wrote, UserRange, FirstFree;
    if calls == [] {
    } else {
      var i := table[fd].file.value;
      var s1, table1 := StoreAfter(s, calls[0]), TableAfter(s, table, calls[0]);
      FileStays(s, calls[0], i, fd);
      OneCall(s, table, calls[0], fd);
      SequentialReads(s1, table1, calls[1..], fd);
    }
  }

  lemma FileStays(s: Store, call: Call, i: nat, fd: nat)
    requires i < |s.entries| && Leaves([call], fd, i)
    ensures i < |StoreAfter(s, call).entries| && StoreAfter(s, call).entries[i] == s.entries[i]
  {
    hide Wrote, Opened;
    assert [call][0] == call;
  }

  /** One call moves the descriptor by exactly what it delivers on it. */
  lemma OneCall(s: Store, table: seq<Descriptor>, call: Call, fd: nat)
    requires TableOk(table, s) && CallOk(call) && Usable(table, fd) && call != CloseCall(fd)
    ensures var d := if call.ReadCall? && call.fd == fd then Delivered(s, table, fd, call.buf, call.count) else [];
            var t := TableAfter(s, table, call);
            Usable(t, fd) && t[fd] == table[fd].(position := table[fd].position + |d|)
  {
    hide Chunk, Opened, UserRange;
  }

  lemma NothingFound(s: Store, table: seq<Descriptor>, fd: nat, buf: nat, count: nat)
    requires TableOk(table, s) && buf < WORD_LIMIT &&
      (count == 0 || (Usable(table, fd) && Found(s, table, fd, count) == []))
    ensures AfterRead(s, table, fd, buf, count) == table && Delivered(s, table, fd, buf, count) == []
  {
    if Usable(table, fd) {
      assert table[fd].(position := table[fd].position + 0) == table[fd];
    }
  }

  lemma FileIndexed(fs: RamFs)
    requires fs.Valid()
    ensures |fs.files| == |fs.View().entries|
  {
  }

  // ---- a program that reads a whole file ---------------------------------------------------------

  /** The table after `seen` has been read on fd, and nothing else has happened. */
  ghost predicate Progress(s: Store, start: seq<Descriptor>, table: seq<Descriptor>, fd: nat, seen: seq<Byte>) {
    && TableOk(start, s) && Usable(start, fd)
    && (var bytes, from := s.entries[start[fd].file.value].bytes, start[fd].position;
        && from + |seen| <= |bytes| && seen == bytes[from..from + |seen|]
        && table == start[fd := start[fd].(position := from + |seen|)])
  }

  /** The loop of cat: reads into one buffer until nothing comes. It has then seen the whole rest of
      the file, in chunks none of which was empty, and moved no other descriptor. */
  method Cat(d: Descriptors, fd: nat, buf: nat, size: nat) returns (seen: seq<Byte>, chunks: seq<seq<Byte>>)
    requires d.Valid() && Usable(d.table[..], fd)
    requires 0 < size && 0 < buf && buf + size <= KERNEL_BASE
    requires d.table[fd].position <= |d.fs.View().entries[d.table[fd].file.value].bytes|
    modifies d.table, d.user
    ensures d.Valid() && seen == Flat(chunks) && forall k :: 0 <= k < |chunks| ==> 0 < |chunks[k]| <= size
    ensures seen == old(d.fs.View().entries[d.table[fd].file.value].bytes[d.table[fd].position..])
    ensures Progress(old(d.fs.View()), old(d.table[..]), d.table[..], fd, seen)
  {
    hide RamFs.Valid, RamFs.View, Stored, Chunk, UserRange, Progress, AfterRead, ReadResult, Delivered, Flat;
    ghost var s, start := d.fs.View(), d.table[..];
    seen, chunks := [], [];
    ProgressStart(s, start, fd);
    FlatNothing();
    while true
      invariant d.Valid() && d.fs.View() == s && Progress(s, start, d.table[..], fd, seen)
      invariant seen == Flat(chunks) && forall k :: 0 <= k < |chunks| ==> 0 < |chunks[k]| <= size
      decreases |s.entries[start[fd].file.value].bytes| - |seen|
    {
      CatStep(s, start, d.table[..], fd, buf, size, seen);
      ghost var more := Delivered(s, d.table[..], fd, buf, size);
      var n := d.Read(fd, buf, size);
      if n <= 0 {
        assert seen + more == seen;
        break;
      }
      var chunk := d.user[buf..buf + n];
      assert chunk == more;
      FlatAppends(chunks, chunk);
      seen, chunks := seen + chunk, chunks + [chunk];
    }
  }

  /** The whole of cat on the path at a user address: opened, read to the end and closed, a file is seen in full, and
      the table is as it was. */
  method CatFile(d: Descriptors, path: nat, buf: nat, size: nat) returns (r: int, seen: seq<Byte>)
    requires d.Valid() && path < WORD_LIMIT && 0 < size && 0 < buf && buf + size <= KERNEL_BASE
    modifies d.table, d.user
    ensures d.Valid() && (r >= 0 ==> 0 <= r < MAX_FDS)
    ensures r < 0 ==> seen == [] && d.table[..] == old(d.table[..])
    ensures r >= 0 ==>
      var s, name := old(d.fs.View()), old(d.PathAt(path));
      name.Some? && Opened(s, name.value).Some? && seen == s.entries[Opened(s, name.value).value].bytes
    ensures r >= 0 ==> d.table[..] == old(d.table[..])[r := Descriptor(None, 0, false)]
    ensures r < 0 ==> IsOpened(old(d.fs.View()), old(d.table[..]), old(d.table[..]), old(d.PathAt(path)), -1)
  {
    hide RamFs.Valid, RamFs.View, UserRange, Opened, FirstFree, IsOpened, Progress;
    seen := [];
    r := d.Open(path);
    if r >= 0 {
      OpenedFacts(d.fs.View(), old(d.table[..]), old(d.PathAt(path)));
      ghost var start := d.table[..];
      var chunks;
      seen, chunks := Cat(d, r, buf, size);
      ProgressTable(d.fs.View(), start, d.table[..], r, seen);
      var closed := d.Close(r);
    }
  }

  lemma OpenedFacts(s: Store, table: seq<Descriptor>, path: Option<seq<Byte>>)
    requires TableOk(table, s) && OpenResult(s, table, path).Some?
    ensures var fd, t := OpenResult(s, table, path).value, AfterOpen(s, table, path);
            && Usable(t, fd) && t[fd].position == 0 && t[fd].file == Opened(s, path.value)
            && t == table[fd := t[fd]]
  {
    hide Opened;
  }

  lemma ProgressTable(s: Store, start: seq<Descriptor>, table: seq<Descriptor>, fd: nat, seen: seq<Byte>)
    requires Progress(s, start, table, fd, seen)
    ensures Usable(table, fd) && table == start[fd := table[fd]]
  {
  }

  function Flat(chunks: seq<seq<Byte>>): seq<Byte> {
    if chunks == [] then [] else chunks[0] + Flat(chunks[1..])
  }

  lemma FlatNothing()
    ensures Flat([]) == []
  {
  }

  lemma {:induction false} FlatAppends(chunks: seq<seq<Byte>>, chunk: seq<Byte>)
    ensures Flat(chunks + [chunk]) == Flat(chunks) + chunk
  {
    if chunks == [] {
      assert chunks + [chunk] == [chunk] && [chunk][1..] == [];
    } else {
      assert (chunks + [chunk])[1..] == chunks[1..] + [chunk];
      FlatAppends(chunks[1..], chunk);
    }
  }

  lemma ProgressStart(s: Store, start: seq<Descriptor>, fd: nat)
    requires TableOk(start, s) && Usable(start, fd) && start[fd].position <= |s.entries[start[fd].file.value].bytes|
    ensures Progress(s, start, start, fd, [])
  {
    assert start[fd].(position := start[fd].position + 0) == start[fd];
  }

  /** A read into a buffer in user memory takes the next bytes, and nothing only at the end. */
  lemma CatStep(s: Store, start: seq<Descriptor>, table: seq<Descriptor>, fd: nat, buf: nat, size: nat, seen: seq<Byte>)
    requires Progress(s, start, table, fd, seen) && TableOk(table, s) && 0 < size && 0 < buf &&
      buf + size <= KERNEL_BASE
    ensures var bytes, from := s.entries[start[fd].file.value].bytes, start[fd].position;
            var d := Delivered(s, table, fd, buf, size);
            && ReadResult(s, table, fd, buf, size) == |d| <= size && |seen| + |d| <= |bytes|
            && (d == [] ==> seen == bytes[from..])
            && Progress(s, start, AfterRead(s, table, fd, buf, size), fd, seen + d)
  {
  }
}
