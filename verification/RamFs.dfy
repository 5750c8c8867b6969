/** The in-memory file system: files with growable buffers carved from one static pool. */
module RamFs {
  import opened Bits

  const POOL_SIZE: nat := 65536
  const MAX_FILES: nat := 32
  const NAME_LIMIT: nat := 31
  const FIRST_CAPACITY: nat := 256

  /** A file entry. `data` is a position in the pool; directories have none. */
  datatype File = File(name: seq<Byte>, data: Option<nat>, size: nat, capacity: nat)

  // ---- the pool as a value ----------------------------------------------------------------

  /** p with `bytes` stored from position `at` on. */
  function Stored(p: seq<Byte>, at: nat, bytes: seq<Byte>): (r: seq<Byte>)
    requires at + |bytes| <= |p|
    ensures |r| == |p|
    ensures forall k {:trigger r[k]} :: 0 <= k < |r| ==> r[k] == if at <= k < at + |bytes| then bytes[k - at] else p[k]
  {
    p[..at] + bytes + p[at + |bytes|..]
  }

  function Zeros(n: nat): (r: seq<Byte>)
    ensures |r| == n && forall k :: 0 <= k < n ==> r[k] == 0
  {
    seq(n, _ => 0)
  }

  /** What an offset write makes of a file: zeros up to the offset if it was shorter, then the bytes. */
  function Written(old_: seq<Byte>, offset: nat, bytes: seq<Byte>): (r: seq<Byte>)
    ensures |r| == if offset + |bytes| > |old_| then offset + |bytes| else |old_|
    ensures forall k {:trigger r[k]} :: 0 <= k < |r| ==>
      r[k] == if offset <= k < offset + |bytes| then bytes[k - offset] else if k < |old_| then old_[k] else 0
  {
    var padded := if offset > |old_| then old_ + Zeros(offset - |old_|) else old_;
    padded[..offset] + bytes + (if offset + |bytes| < |padded| then padded[offset + |bytes|..] else [])
  }

  /** The bytes of a file, given the pool. */
  function Bytes(p: seq<Byte>, f: File): (r: seq<Byte>)
  {
    if f.data.Some? && f.data.value + f.size <= |p| then p[f.data.value..f.data.value + f.size] else []
  }

  /** Buffers lie in the used part of the pool. */
  ghost predicate Placed(files: seq<File>, used: nat) {
    forall i :: 0 <= i < |files| ==>
      files[i].size <= files[i].capacity
      && (match files[i].data case Some(d) => d + files[i].capacity <= used case None => files[i].size == 0)
  }

  /** Buffers do not overlap. */
  predicate Apart(f: File, g: File) {
    f.data.Some? && g.data.Some? ==>
      f.data.value + f.capacity <= g.data.value || g.data.value + g.capacity <= f.data.value
  }

  ghost predicate AllApart(files: seq<File>) {
    forall i, j :: 0 <= i < |files| && 0 <= j < |files| && i != j ==> Apart(files[i], files[j])
  }

  // ---- one write ----------------------------------------------------------------------------

  /** The pool after a write to a buffer at `data` that has room for it: gap, bytes, terminator. */
  function PoolWritten(p: seq<Byte>, data: nat, size: nat, offset: nat, bytes: seq<Byte>): (r: seq<Byte>)
    requires data + size <= |p| && data + offset + |bytes| < |p|
    ensures |r| == |p|
  {
    var p1 := if offset > size then Stored(p, data + size, Zeros(offset - size)) else p;
    var p2 := Stored(p1, data + offset, bytes);
    if offset + |bytes| > size then p2[data + offset + |bytes| := 0] else p2
  }

  /** The buffer then holds exactly what the write should make of the file. */
  lemma OwnBytes(p: seq<Byte>, data: nat, size: nat, offset: nat, bytes: seq<Byte>)
    requires data + size <= |p| && data + offset + |bytes| < |p|
    ensures var newSize := if offset + |bytes| > size then offset + |bytes| else size;
            PoolWritten(p, data, size, offset, bytes)[data..data + newSize] ==
              Written(p[data..data + size], offset, bytes)
  {
    var newSize := if offset + |bytes| > size then offset + |bytes| else size;
    var r, w := PoolWritten(p, data, size, offset, bytes), Written(p[data..data + size], offset, bytes);
    forall k | 0 <= k < newSize ensures r[data + k] == w[k] {
    }
  }

  /** Every other byte of the pool stays, except the one the terminator lands on. */
  lemma OtherBytes(p: seq<Byte>, data: nat, size: nat, offset: nat, bytes: seq<Byte>, k: nat)
    requires data + size <= |p| && data + offset + |bytes| < |p|
    requires k < |p| && (k < data || k >= data + offset + |bytes|) && (k < data || k >= data + size)
    ensures PoolWritten(p, data, size, offset, bytes)[k] ==
      if offset + |bytes| > size && k == data + offset + |bytes| then 0 else p[k]
  {
  }

  /** The terminator of a write that fills the buffer at `data` to its end lands on this file's first byte. */
  predicate Spills(f: File, end: nat) {
    f.data == Some(end) && f.size > 0
  }

  function Spilled(f: File, end: nat, bytes: seq<Byte>): seq<Byte> {
    if Spills(f, end) && |bytes| > 0 then bytes[0 := 0] else bytes
  }

  /** Another file's bytes after the write. */
  lemma OtherFile(p: seq<Byte>, f: File, g: File, used: nat, offset: nat, bytes: seq<Byte>)
    requires f.data.Some? && f.size <= f.capacity && f.data.value + f.capacity <= used < |p|
    requires offset + |bytes| <= f.capacity && Apart(f, g)
    requires g.size <= g.capacity && (g.data.Some? ==> g.data.value + g.capacity <= used)
    ensures var r := PoolWritten(p, f.data.value, f.size, offset, bytes);
            Bytes(r, g) == if offset + |bytes| == f.capacity > f.size then
              Spilled(g, f.data.value + f.capacity, Bytes(p, g))
                           else Bytes(p, g)
  {
    hide PoolWritten;
    var d := f.data.value;
    var r := PoolWritten(p, d, f.size, offset, bytes);
    if g.data.Some? {
      var e := g.data.value;
      var before, after := Bytes(p, g), Bytes(r, g);
      assert |before| == |after| == g.size;
      forall k | 0 <= k < g.size
        ensures after[k] ==
          if offset + |bytes| == f.capacity > f.size && e == d + f.capacity && k == 0 then 0 else before[k]
      {
        OtherBytes(p, d, f.size, offset, bytes, e + k);
        assert after[k] == r[e + k] && before[k] == p[e + k];
      }
    }
  }

  /** The pool after a bigger buffer at `used` has been zeroed and given the file's bytes. */
  function PoolGrown(p: seq<Byte>, f: File, used: nat, capacity: nat): (r: seq<Byte>)
    requires used + capacity <= |p| && |Bytes(p, f)| <= capacity
    ensures |r| == |p|
  {
    Stored(Stored(p, used, Zeros(capacity)), used, Bytes(p, f))
  }

  lemma GrownKeepsBytes(p: seq<Byte>, f: File, used: nat, capacity: nat, g: File)
    requires used + capacity <= |p| && f.size <= capacity && |Bytes(p, f)| <= capacity
    requires f.data.Some? && f.data.value + f.size <= used
    requires g.size <= g.capacity && (g.data.Some? ==> g.data.value + g.capacity <= used)
    ensures var r := PoolGrown(p, f, used, capacity);
            Bytes(r, g) == Bytes(p, g) && Bytes(r, f.(data := Some(used), capacity := capacity)) == Bytes(p, f)
  {
  }

  // ---- names ---------------------------------------------------------------------------------

  /** strncpy into a 32-byte field, terminated. */
  function Kept(name: seq<Byte>): (r: seq<Byte>)
    ensures |r| <= NAME_LIMIT && r <= name
  {
    if |name| > NAME_LIMIT then name[..NAME_LIMIT] else name
  }

  predicate DotSlash(name: seq<Byte>) {
    |name| >= 2 && name[0] == 0x2E && name[1] == 0x2F
  }

  function Stripped(name: seq<Byte>): seq<Byte> {
    if DotSlash(name) then name[2..] else name
  }

  /** The three comparisons of fs_open. */
  predicate Matches(entry: seq<Byte>, name: seq<Byte>) {
    Stripped(entry) == Kept(Stripped(name)) || entry == Kept(Stripped(name)) || entry == name
  }

  /** Which entries a name finds: the one of exactly that name, the one of the name without a `./` in front and cut
      off after 31 bytes, and the one that has a `./` in front of that. */
  lemma MatchesMeans(entry: seq<Byte>, name: seq<Byte>)
    ensures var plain := Kept(Stripped(name));
            Matches(entry, name) <==> entry == name || entry == plain || entry == [0x2E, 0x2F] + plain
  {
    var plain := Kept(Stripped(name));
    assert DotSlash(entry) ==> entry == [0x2E, 0x2F] + entry[2..];
    assert entry == [0x2E, 0x2F] + plain ==> entry[2..] == plain;
  }

  // ---- the file system as independent byte sequences ---------------------------------------------

  datatype Entry = Entry(name: seq<Byte>, bytes: seq<Byte>, capacity: nat, isFile: bool)

  datatype Store = Store(entries: seq<Entry>, used: nat)

  function Find(entries: seq<Entry>, name: seq<Byte>, from: nat): (r: Option<nat>)
    requires from <= |entries|
    ensures r.Some? ==> from <= r.value < |entries| && Matches(entries[r.value].name, name)
    ensures forall i :: from <= i < (if r.Some? then r.value else |entries|) ==> !Matches(entries[i].name, name)
    decreases |entries| - from
  {
    if from == |entries| then None
    else if Matches(entries[from].name, name) then Some(from)
    else Find(entries, name, from + 1)
  }

  function Opened(s: Store, name: seq<Byte>): (r: Option<nat>)
    ensures r.Some? ==> r.value < |s.entries|
  {
    if name == [] then None else Find(s.entries, name, 0)
  }

  /** So a `./` in front of a name makes no difference to what is opened. */
  lemma DotSlashOpensSame(s: Store, name: seq<Byte>)
    requires name != [] && |name| <= NAME_LIMIT && !DotSlash(name)
    ensures Opened(s, [0x2E, 0x2F] + name) == Opened(s, name)
  {
    DotSlashFindsSame(s.entries, name, 0);
  }

  lemma {:induction false} DotSlashFindsSame(entries: seq<Entry>, name: seq<Byte>, from: nat)
    requires from <= |entries| && |name| <= NAME_LIMIT && !DotSlash(name)
    ensures Find(entries, [0x2E, 0x2F] + name, from) == Find(entries, name, from)
    decreases |entries| - from
  {
    hide Matches;
    if from == |entries| {
    } else {
      var dotted := [0x2E, 0x2F] + name;
      assert dotted[2..] == name;
      MatchesMeans(entries[from].name, name);
      MatchesMeans(entries[from].name, dotted);
      DotSlashFindsSame(entries, name, from + 1);
    }
  }

  /** A file of the given capacity and bytes, if there is an entry and room for it. */
  function Added(s: Store, name: seq<Byte>, bytes: seq<Byte>, capacity: nat): Store {
    if |s.entries| >= MAX_FILES || s.used + capacity > POOL_SIZE then s
    else Store(s.entries + [Entry(Kept(name), bytes, capacity, true)], s.used + capacity)
  }

  function Created(s: Store, name: seq<Byte>): Store {
    if Opened(s, name).Some? then s else Added(s, name, [], FIRST_CAPACITY)
  }

  /** No room for the bigger buffer that a write needs. */
  predicate OutOfRoom(s: Store, i: nat, offset: nat, bytes: seq<Byte>)
    requires i < |s.entries|
  {
    offset + |bytes| > s.entries[i].capacity && s.used + (offset + |bytes|) * 2 > POOL_SIZE
  }

  function Wrote(s: Store, i: nat, offset: nat, bytes: seq<Byte>): (t: Store)
    requires i < |s.entries|
    ensures |t.entries| == |s.entries| && forall j :: 0 <= j < |s.entries| && j != i ==> t.entries[j] == s.entries[j]
  {
    var e, n := s.entries[i], offset + |bytes|;
    if !e.isFile || OutOfRoom(s, i, offset, bytes) then s
    else if n > e.capacity then
      Store(s.entries[i := e.(bytes := Written(e.bytes, offset, bytes), capacity := n * 2)], s.used + n * 2)
    else s.(entries := s.entries[i := e.(bytes := Written(e.bytes, offset, bytes))])
  }

  /** The write makes the file longer and fills its buffer to the last byte, so that its terminator
      lands on the byte after the buffer. */
  predicate Overruns(s: Store, i: nat, offset: nat, bytes: seq<Byte>)
    requires i < |s.entries|
  {
    s.entries[i].isFile && offset + |bytes| == s.entries[i].capacity > |s.entries[i].bytes|
  }

  function EntryOf(p: seq<Byte>, f: File): Entry {
    Entry(f.name, Bytes(p, f), f.capacity, f.data.Some?)
  }

  function ViewOf(p: seq<Byte>, files: seq<File>, used: nat): (s: Store)
    ensures |s.entries| == |files| && s.used == used
    ensures forall i :: 0 <= i < |files| ==> s.entries[i] == EntryOf(p, files[i])
  {
    Store(seq(|files|, i requires 0 <= i < |files| => EntryOf(p, files[i])), used)
  }

  // ---- the file system --------------------------------------------------------------------------------

  class RamFs {
    /** The pool and, last, the byte that follows it in memory. */
    const pool: array<Byte>
    var used: nat
    var files: seq<File>

    ghost predicate Valid()
      reads this
    {
      && pool.Length == POOL_SIZE + 1 && used <= POOL_SIZE && |files| <= MAX_FILES
      && Placed(files, used) && AllApart(files) && forall i :: 0 <= i < |files| ==> |files[i].name| <= NAME_LIMIT
    }

    /** The independent byte sequences this file system stands for. */
    ghost function View(): (s: Store)
      reads this, pool
    {
      ViewOf(pool[..], files, used)
    }

    constructor ()
      ensures Valid() && View() == Store([], 0) && fresh(pool)
    {
      pool := new Byte[POOL_SIZE + 1](_ => 0);
      used := 0;
      files := [];
    }

    method Alloc(size: nat) returns (data: Option<nat>)
      requires used <= POOL_SIZE
      modifies `used
      ensures data == if old(used) + size > POOL_SIZE then None else Some(old(used))
      ensures used == if data.Some? then old(used) + size else old(used)
    {
      if used + size > POOL_SIZE {
        return None;
      }
      data := Some(used);
      used := used + size;
    }

    /** memcpy and memset into the pool. */
    method Put(at: nat, bytes: seq<Byte>)
      requires at + |bytes| <= pool.Length
      modifies pool
      ensures pool[..] == Stored(old(pool[..]), at, bytes)
      ensures forall k :: at + |bytes| <= k < pool.Length ==> pool[k] == old(pool[k])
    {
      forall k | 0 <= k < |bytes| {
        pool[at + k] := bytes[k];
      }
    }

    /** The first entry that matches. */
    method Open(name: seq<Byte>) returns (r: Option<nat>)
      requires Valid()
      ensures r == Opened(View(), name)
    {
      if name == [] {
        return None;
      }
      var processedName := Kept(Stripped(name));
      for i := 0 to |files|
        invariant Find(View().entries, name, 0) == Find(View().entries, name, i)
      {
        var processedEntry := Stripped(files[i].name);
        if processedEntry == processedName || files[i].name == processedName || files[i].name == name {
          return Some(i);
        }
      }
      return None;
    }

    /** A new file entry with a buffer of its own. */
    method Add(name: seq<Byte>, bytes: seq<Byte>, capacity: nat) returns (r: Option<nat>)
      requires Valid() && |bytes| <= capacity
      modifies this, pool
      ensures Valid() && View() == Added(old(View()), name, bytes, capacity)
      ensures pool[POOL_SIZE] == old(pool[POOL_SIZE]) && old(files) <= files
      ensures r.Some? ==> |files| == |old(files)| + 1 && files[|old(files)|].data == Some(old(used))
      ensures r == if View() == old(View()) then None else Some(|old(files)|)
    {
      ghost var p := pool[..];
      if |files| >= MAX_FILES {
        return None;
      }
      var data := Alloc(capacity);
      if data.None? {
        return None;
      }
      Put(data.value, bytes);
      files := files + [File(Kept(name), data, |bytes|, capacity)];
      forall i | 0 <= i < |files| - 1 ensures Bytes(pool[..], files[i]) == Bytes(p, files[i]) {
      }
      assert View().entries == ViewOf(p, old(files), old(used)).entries + [Entry(Kept(name), bytes, capacity, true)];
      r := Some(|files| - 1);
    }

    /** One regular file of the initial archive. */
    method Import(name: seq<Byte>, bytes: seq<Byte>) returns (r: Option<nat>)
      requires Valid()
      modifies this, pool
      ensures Valid() && View() == Added(old(View()), name, bytes, |bytes|)
      ensures pool[POOL_SIZE] == old(pool[POOL_SIZE])
      ensures r == if View() == old(View()) then None else Some(|old(files)|)
    {
      r := Add(name, bytes, |bytes|);
    }

    method CreateFile(name: seq<Byte>) returns (r: Option<nat>)
      requires Valid()
      modifies this, pool
      ensures Valid() && View() == Created(old(View()), name)
      ensures pool[POOL_SIZE] == old(pool[POOL_SIZE]) && old(files) <= files
      ensures View() != old(View()) ==> |files| == |old(files)| + 1 && files[|old(files)|].data == Some(old(used))
      ensures r == if Opened(old(View()), name).Some? then Opened(old(View()), name)
                   else if View() == old(View()) then None else Some(|old(files)|)
    {
      var existing := Open(name);
      if existing.Some? {
        return existing;
      }
      r := Add(name, [], FIRST_CAPACITY);
      if r.Some? {
        var data := files[r.value].data.value;
        ghost var p := pool[..];
        pool[data] := 0;
        PokeUnseen(p, files, used, r.value);
        assert pool[..] == p[data := 0];
      }
    }

    /** At most len bytes from offset on, into buf. */
    method Read(i: nat, offset: nat, buf: array<Byte>, len: nat) returns (n: nat)
      requires Valid() && i < |files| && len <= buf.Length && buf != pool
      modifies buf
      ensures var bytes := View().entries[i].bytes;
              && n == (if offset >= |bytes| then 0 else if |bytes| - offset < len then |bytes| - offset else len)
              && (n > 0 ==> buf[..n] == bytes[offset..offset + n])
      ensures buf[n..] == old(buf[n..])
    {
      if offset >= files[i].size || files[i].data.None? {
        return 0;
      }
      var data := files[i].data.value;
      n := files[i].size - offset;
      if n > len {
        n := len;
      }
      ghost var bytes := View().entries[i].bytes;
      forall k | 0 <= k < n {
        buf[k] := pool[data + offset + k];
      }
      assert buf[..n] == bytes[offset..offset + n] by {
        forall k | 0 <= k < n ensures buf[k] == bytes[offset + k] {
          assert bytes[offset + k] == pool[data + offset + k];
        }
      }
    }

    /** Moves file i to a bigger, zeroed buffer, if there is room. */
    method Grow(i: nat, capacity: nat) returns (ok: bool)
      requires Valid() && i < |files| && files[i].data.Some? && files[i].size <= capacity
      modifies this, pool
      ensures Valid() && ok == (old(used) + capacity <= POOL_SIZE)
      ensures if ok then files == old(files)[i := old(files)[i].(data := Some(old(used)), capacity := capacity)]
                         && View() == Store(old(View()).entries[i := old(View()).entries[i].(capacity := capacity)],
                           old(used) + capacity)
              else View() == old(View()) && files == old(files)
      ensures pool[POOL_SIZE] == old(pool[POOL_SIZE])
    {
      hide Stored, Zeros, Bytes, PoolGrown;
      ghost var p, f, u := pool[..], files[i], used;
      ghost var old_ := View();
      BytesLength(p, f);
      var data := Alloc(capacity);
      if data.None? {
        return false;
      }
      Put(data.value, Zeros(capacity));
      var bytes := pool[files[i].data.value..files[i].data.value + files[i].size];
      GrownSource(p, f, u, capacity);
      Put(data.value, bytes);
      GrownIs(p, f, u, capacity);
      files := files[i := files[i].(data := data, capacity := capacity)];
      forall j | 0 <= j < |files|
        ensures View().entries[j] == old_.entries[i := old_.entries[i].(capacity := capacity)][j]
      {
        GrownKeepsBytes(p, f, u, capacity, old(files)[j]);
      }
      assert View() == Store(old_.entries[i := old_.entries[i].(capacity := capacity)], u + capacity);
      ok := true;
    }

    /** Gap, bytes and terminator at a buffer's position in the pool. */
    method StoreBytes(data: nat, size: nat, offset: nat, bytes: seq<Byte>)
      requires data + size <= pool.Length && data + offset + |bytes| < pool.Length
      modifies pool
      ensures pool[..] == PoolWritten(old(pool[..]), data, size, offset, bytes)
    {
      hide Stored, Zeros;
      if offset > size {
        Put(data + size, Zeros(offset - size));
      }
      Put(data + offset, bytes);
      if offset + |bytes| > size {
        ghost var p := pool[..];
        pool[data + offset + |bytes|] := 0;
        assert pool[..] == p[data + offset + |bytes| := 0];
      }
    }

    /** Writes into a buffer that has room. */
    method WriteInPlace(i: nat, offset: nat, bytes: seq<Byte>)
      requires Valid() && i < |files| && files[i].data.Some? && offset + |bytes| <= files[i].capacity
      modifies `files, pool
      ensures Valid() && Outcome(old(files), old(View()), View(), i, offset, bytes)
      ensures pool[POOL_SIZE] ==
        if LeavesPool(old(files), old(View()), i, offset, bytes) then 0 else old(pool[POOL_SIZE])
      ensures |files| == |old(files)| && forall j :: 0 <= j < |files| ==> files[j].data == old(files)[j].data
    {
      hide PoolWritten, Written, Bytes, Spilled;
      ghost var p, fs := pool[..], files;
      var f := files[i];
      SizesAgree(p, fs, used);
      var newSize := offset + |bytes|;
      StoreBytes(f.data.value, f.size, offset, bytes);
      if newSize > f.size {
        files := files[i := f.(size := newSize)];
      }
      OtherBytes(p, f.data.value, f.size, offset, bytes, POOL_SIZE);
      OverwriteView(p, fs, used, i, offset, bytes);
      OutcomeByParts(p, fs, pool[..], files, used, i, offset, bytes);
    }

    /** Writes bytes at an offset. Every file's bytes afterwards are stated outright; the file system is
        then what the same write makes of independent byte sequences, exactly when the terminator
        does not destroy the first byte of a neighbouring file. The byte after the pool is overwritten exactly
        when that is where the terminator lands. */
    method Write(i: nat, offset: nat, bytes: seq<Byte>) returns (n: nat)
      requires Valid() && i < |files|
      modifies this, pool
      ensures Valid()
      ensures n == if !old(View()).entries[i].isFile || OutOfRoom(old(View()), i, offset, bytes) then 0 else |bytes|
      ensures Outcome(old(files), old(View()), View(), i, offset, bytes)
      ensures View() == Wrote(old(View()), i, offset, bytes) <==> !Damages(old(files), old(View()), i, offset, bytes)
      ensures pool[POOL_SIZE] ==
        if LeavesPool(old(files), old(View()), i, offset, bytes) then 0 else old(pool[POOL_SIZE])
      ensures |files| == |old(files)| && forall j :: 0 <= j < |files| ==>
        files[j].data == if j == i && Moves(old(View()), i, offset, bytes) then Some(old(used)) else old(files)[j].data
    {
      hide PoolWritten, Written, Bytes, Spilled, Outcome, Damages;
      ghost var s, fs := View(), files;
      SizesAgree(pool[..], files, used);
      if files[i].data.None? {
        NoOutcome(fs, s, i, offset, bytes);
        OutcomeIndependent(fs, s, View(), i, offset, bytes);
        return 0;
      }
      var newSize := offset + |bytes|;
      n := |bytes|;
      if newSize > files[i].capacity {
        var ok := Grow(i, newSize * 2);
        if ok {
          ghost var m, ms := View(), files;
          WriteInPlace(i, offset, bytes);
          GrownOutcome(fs, s, ms, m, View(), i, offset, bytes);
        } else {
          NoOutcome(fs, s, i, offset, bytes);
          n := 0;
        }
      } else {
        WriteInPlace(i, offset, bytes);
      }
      OutcomeIndependent(fs, s, View(), i, offset, bytes);
    }

    method Apply(op: FileOp)
      requires Valid() && Quiet(View(), op)
      modifies this, pool
      ensures Valid() && View() == Perform(old(View()), op) && pool[POOL_SIZE] == old(pool[POOL_SIZE])
    {
      hide Outcome, Added, Wrote;
      match op
      case Create(name) => var _ := CreateFile(name);
      case Put(i, offset, bytes) =>
        if i < |files| {
          var _ := Write(i, offset, bytes);
        }
    }

    /** After any run of creations and writes in which no write makes its file end exactly where its
        buffer does, the pool holds what independent byte sequences would have become and the byte after it
        is as it was. */
    method Run(ops: seq<FileOp>)
      requires Valid() && AllQuiet(View(), ops)
      modifies this, pool
      ensures Valid() && View() == PerformAll(old(View()), ops) && pool[POOL_SIZE] == old(pool[POOL_SIZE])
    {
      hide Quiet, Perform;
      ghost var s := View();
      for i := 0 to |ops|
        invariant Valid() && AllQuiet(View(), ops[i..]) && PerformAll(View(), ops[i..]) == PerformAll(s, ops)
        invariant pool[POOL_SIZE] == old(pool[POOL_SIZE])
      {
        assert ops[i..][1..] == ops[i + 1..];
        Apply(ops[i]);
      }
    }
  }

  datatype FileOp = Create(name: seq<Byte>) | Put(index: nat, offset: nat, bytes: seq<Byte>)

  function Perform(s: Store, op: FileOp): Store {
    match op
    case Create(name) => Created(s, name)
    case Put(i, offset, bytes) => if i < |s.entries| then Wrote(s, i, offset, bytes) else s
  }

  function PerformAll(s: Store, ops: seq<FileOp>): Store
    decreases |ops|
  {
    if ops == [] then s else PerformAll(Perform(s, ops[0]), ops[1..])
  }

  predicate Quiet(s: Store, op: FileOp) {
    op.Put? && op.index < |s.entries| ==> !Overruns(s, op.index, op.offset, op.bytes)
  }

  predicate AllQuiet(s: Store, ops: seq<FileOp>)
    decreases |ops|
  {
    ops != [] ==> Quiet(s, ops[0]) && AllQuiet(Perform(s, ops[0]), ops[1..])
  }

  /** The write needs a bigger buffer and gets it. */
  predicate Moves(s: Store, i: nat, offset: nat, bytes: seq<Byte>)
    requires i < |s.entries|
  {
    s.entries[i].isFile && offset + |bytes| > s.entries[i].capacity && !OutOfRoom(s, i, offset, bytes)
  }

  /** The terminator of the write lands on the byte after the pool. */
  predicate LeavesPool(files: seq<File>, s: Store, i: nat, offset: nat, bytes: seq<Byte>)
    requires |files| == |s.entries| && i < |files|
  {
    Overruns(s, i, offset, bytes) && files[i].data.Some? && files[i].data.value + files[i].capacity == POOL_SIZE
  }

  /** File j after a write to file i of the given file system. */
  function NeighbourAfter(files: seq<File>, s: Store, i: nat, offset: nat, bytes: seq<Byte>, j: nat): Entry
    requires |files| == |s.entries| && i < |files| && j < |files|
  {
    if Overruns(s, i, offset, bytes) && files[i].data.Some? then
      s.entries[j].(bytes := Spilled(files[j], files[i].data.value + files[i].capacity, s.entries[j].bytes))
    else s.entries[j]
  }

  /** The terminator of the write lands on a neighbouring file's first byte, which is not zero. */
  ghost predicate Damages(files: seq<File>, s: Store, i: nat, offset: nat, bytes: seq<Byte>)
    requires |files| == |s.entries| && i < |files|
  {
    Overruns(s, i, offset, bytes) && files[i].data.Some? &&
    exists j :: 0 <= j < |files| && j != i && Spills(files[j], files[i].data.value + files[i].capacity)
                && |s.entries[j].bytes| > 0 && s.entries[j].bytes[0] != 0
  }

  /** t is s after the write. */
  ghost predicate Outcome(files: seq<File>, s: Store, t: Store, i: nat, offset: nat, bytes: seq<Byte>) {
    && |files| == |s.entries| == |t.entries| && i < |files|
    && t.entries[i] == Wrote(s, i, offset, bytes).entries[i] && t.used == Wrote(s, i, offset, bytes).used
    && forall j :: 0 <= j < |files| && j != i ==> t.entries[j] == NeighbourAfter(files, s, i, offset, bytes, j)
  }

  lemma SizesAgree(p: seq<Byte>, files: seq<File>, used: nat)
    requires Placed(files, used) && used <= |p|
    ensures forall i :: 0 <= i < |files| ==> |ViewOf(p, files, used).entries[i].bytes| == files[i].size
  {
  }

  lemma NoOutcome(files: seq<File>, s: Store, i: nat, offset: nat, bytes: seq<Byte>)
    requires |files| == |s.entries| && i < |files| && (!s.entries[i].isFile || OutOfRoom(s, i, offset, bytes))
    ensures Outcome(files, s, s, i, offset, bytes)
  {
    hide Written;
  }

  lemma OutcomeByParts(p: seq<Byte>, files: seq<File>, q: seq<Byte>, after: seq<File>, used: nat, i: nat, offset: nat,
      bytes: seq<Byte>)
    requires Placed(files, used) && used <= |p| && i < |files| && files[i].data.Some? &&
      offset + |bytes| <= files[i].capacity
    requires after ==
      files[i := files[i].(size := if offset + |bytes| > files[i].size then offset + |bytes| else files[i].size)]
    requires Bytes(q, after[i]) == Written(Bytes(p, files[i]), offset, bytes)
    requires forall j {:trigger files[j]} :: 0 <= j < |files| && j != i ==> (Bytes(q, files[j]) ==
               if offset + |bytes| == files[i].capacity > files[i].size
               then Spilled(files[j], files[i].data.value + files[i].capacity, Bytes(p, files[j]))
               else Bytes(p, files[j]))
    ensures Outcome(files, ViewOf(p, files, used), ViewOf(q, after, used), i, offset, bytes)
  {
    hide Written, Spilled;
    SizesAgree(p, files, used);
    hide Bytes;
  }

  /** Growing first and then writing in place is one write; the new buffer is never filled to its end. */
  lemma GrownOutcome(files: seq<File>, s: Store, ms: seq<File>, m: Store, t: Store, i: nat, offset: nat,
      bytes: seq<Byte>)
    requires |files| == |s.entries| == |ms| == |m.entries| && i < |files| && s.entries[i].isFile
    requires offset + |bytes| > s.entries[i].capacity && s.used + (offset + |bytes|) * 2 <= POOL_SIZE
    requires m == Store(s.entries[i := s.entries[i].(capacity := (offset + |bytes|) * 2)],
      s.used + (offset + |bytes|) * 2)
    requires Outcome(ms, m, t, i, offset, bytes)
    ensures Outcome(files, s, t, i, offset, bytes)
  {
    hide Written, Spilled;
  }

  lemma OutcomeIndependent(files: seq<File>, s: Store, t: Store, i: nat, offset: nat, bytes: seq<Byte>)
    requires |files| == |s.entries| && i < |files| && Outcome(files, s, t, i, offset, bytes)
    ensures t == Wrote(s, i, offset, bytes) <==> !Damages(files, s, i, offset, bytes)
  {
    hide Written;
    var w := Wrote(s, i, offset, bytes);
    if Damages(files, s, i, offset, bytes) {
      var j :| 0 <= j < |files| && j != i && Spills(files[j], files[i].data.value + files[i].capacity)
        && |s.entries[j].bytes| > 0 && s.entries[j].bytes[0] != 0;
      assert t.entries[j].bytes[0] == 0;
    } else {
      forall j | 0 <= j < |files| ensures t.entries[j] == w.entries[j] {
      }
      assert t.entries == w.entries;
    }
  }

  /** A byte poked into the buffer of an empty file is seen by no file. */
  lemma PokeUnseen(p: seq<Byte>, files: seq<File>, used: nat, i: nat)
    requires Placed(files, used) && AllApart(files) && used < |p|
    requires i < |files| && files[i].data.Some? && files[i].size == 0 && files[i].capacity > 0
    ensures ViewOf(p[files[i].data.value := 0], files, used) == ViewOf(p, files, used)
  {
    var q := p[files[i].data.value := 0];
    forall j | 0 <= j < |files| ensures Bytes(q, files[j]) == Bytes(p, files[j]) {
      assert j != i ==> Apart(files[i], files[j]);
    }
  }

  /** All files after gap, bytes and terminator have been stored. */
  lemma OverwriteView(p: seq<Byte>, files: seq<File>, used: nat, i: nat, offset: nat, bytes: seq<Byte>)
    requires Placed(files, used) && AllApart(files) && used < |p|
    requires i < |files| && files[i].data.Some? && offset + |bytes| <= files[i].capacity
    ensures var f := files[i];
            var q := PoolWritten(p, f.data.value, f.size, offset, bytes);
            var size := if offset + |bytes| > f.size then offset + |bytes| else f.size;
            && Bytes(q, f.(size := size)) == Written(Bytes(p, f), offset, bytes)
            && forall j {:trigger files[j]} :: 0 <= j < |files| && j != i ==> (Bytes(q, files[j]) ==
                 if offset + |bytes| == f.capacity > f.size then
                   Spilled(files[j], f.data.value + f.capacity, Bytes(p, files[j]))
                 else Bytes(p, files[j]))
  {
    hide PoolWritten, Written, Spilled;
    OwnBytes(p, files[i].data.value, files[i].size, offset, bytes);
    forall j | 0 <= j < |files| && j != i
      ensures Bytes(PoolWritten(p, files[i].data.value, files[i].size, offset, bytes), files[j]) ==
                if offset + |bytes| == files[i].capacity > files[i].size
                then Spilled(files[j], files[i].data.value + files[i].capacity, Bytes(p, files[j]))
                else Bytes(p, files[j])
    {
      OtherFile(p, files[i], files[j], used, offset, bytes);
    }
  }

  lemma BytesLength(p: seq<Byte>, f: File)
    ensures |Bytes(p, f)| <= f.size
  {
  }

  lemma GrownIs(p: seq<Byte>, f: File, used: nat, capacity: nat)
    requires used + capacity <= |p| && |Bytes(p, f)| <= capacity
    ensures PoolGrown(p, f, used, capacity) == Stored(Stored(p, used, Zeros(capacity)), used, Bytes(p, f))
  {
  }

  lemma GrownSource(p: seq<Byte>, f: File, used: nat, capacity: nat)
    requires used + capacity <= |p| && f.data.Some? && f.data.value + f.size <= used
    ensures Stored(p, used, Zeros(capacity))[f.data.value..f.data.value + f.size] == Bytes(p, f)
  {
  }

  // ---- what independence means ---------------------------------------------------------------------

  /** The writes of a run that go to file i. */
  function WritesTo(ops: seq<FileOp>, i: nat): seq<FileOp> {
    if ops == [] then []
    else if ops[0].Put? && ops[0].index == i then [ops[0]] + WritesTo(ops[1..], i)
    else WritesTo(ops[1..], i)
  }

  /** In a run where the pool never fills, a file's bytes depend only on the writes to it. */
  function BytesAfter(old_: seq<Byte>, writes: seq<FileOp>): seq<Byte>
    requires forall k :: 0 <= k < |writes| ==> writes[k].Put?
    decreases |writes|
  {
    if writes == [] then old_ else BytesAfter(Written(old_, writes[0].offset, writes[0].bytes), writes[1..])
  }

  /** No write of the run is refused. */
  predicate AllFit(s: Store, ops: seq<FileOp>)
    decreases |ops|
  {
    ops != [] ==>
      (ops[0].Put? && ops[0].index < |s.entries| ==> !OutOfRoom(s, ops[0].index, ops[0].offset, ops[0].bytes))
      && AllFit(Perform(s, ops[0]), ops[1..])
  }

  lemma {:induction false} OnlyOwnWritesMatter(s: Store, ops: seq<FileOp>, i: nat)
    requires i < |s.entries| && s.entries[i].isFile && AllFit(s, ops)
    ensures forall k :: 0 <= k < |WritesTo(ops, i)| ==> WritesTo(ops, i)[k].Put?
    ensures i < |PerformAll(s, ops).entries|
    ensures PerformAll(s, ops).entries[i].bytes == BytesAfter(s.entries[i].bytes, WritesTo(ops, i))
    decreases |ops|
  {
    hide Written, Opened;
    if ops == [] {
    } else {
      var t := Perform(s, ops[0]);
      OnlyOwnWritesMatter(t, ops[1..], i);
      if ops[0].Put? && ops[0].index == i {
        assert WritesTo(ops, i)[1..] == WritesTo(ops[1..], i);
      }
    }
  }

  /** Reading back what was just written, and zeros in the gap before it. */
  lemma ReadBack(old_: seq<Byte>, offset: nat, bytes: seq<Byte>)
    ensures Written(old_, offset, bytes)[offset..offset + |bytes|] == bytes
    ensures offset >= |old_| ==> Written(old_, offset, bytes)[|old_|..offset] == Zeros(offset - |old_|)
    ensures offset <= |old_| ==> Written(old_, offset, bytes)[..offset] == old_[..offset]
  {
  }

  /** A file that was just created is found again under the same name exactly when there is a name and it
      was kept whole, or does not start with "./", or reads the same shifted by two. The empty name makes
      a new file each time and finds none. */
  lemma CreatedIsFoundIff(s: Store, name: seq<Byte>)
    requires Opened(s, name).None? && Created(s, name) != s
    ensures Opened(Created(s, name), name) == Some(|s.entries|) <==>
      name != [] && (|name| <= NAME_LIMIT || !DotSlash(name) || Kept(name) == Kept(name[2..]))
  {
    var t := Created(s, name);
    assert t.entries[|s.entries|].name == Kept(name);
    if name != [] {
      FindAppended(s.entries, t.entries[|s.entries|], name, 0);
      if |name| > NAME_LIMIT && DotSlash(name) {
        assert Kept(name)[2..] != Kept(name[2..]) by {
          assert |Kept(name)[2..]| == NAME_LIMIT - 2;
          assert |Kept(name[2..])| >= NAME_LIMIT - 1;
        }
      }
    }
  }

  lemma {:induction false} FindAppended(entries: seq<Entry>, e: Entry, name: seq<Byte>, from: nat)
    requires from <= |entries| && Find(entries, name, from).None?
    ensures Find(entries + [e], name, from) == if Matches(e.name, name) then Some(|entries|) else None
    decreases |entries| - from
  {
    hide Matches;
    if from >= |entries| {
    } else {
      FindAppended(entries, e, name, from + 1);
    }
  }
}
