/** From the initial archive to open files: what the kernel imports at boot is what the archive was
    built from. */
module Boot {
  import opened Bits
  import C = Cpio
  import opened RamFs

  predicate EndsInSlash(name: seq<Byte>) {
    |name| > 0 && name[|name| - 1] == 0x2F
  }

  /** The import loop over a list of regular files: it stops at the first that does not fit. */
  function Imported(s: Store, es: seq<C.Entry>): Store
    decreases |es|
  {
    if es == [] || Added(s, es[0].name, es[0].data, |es[0].data|) == s then s
    else Imported(Added(s, es[0].name, es[0].data, |es[0].data|), es[1..])
  }

  function TotalSize(es: seq<C.Entry>): nat {
    if es == [] then 0 else |es[0].data| + TotalSize(es[1..])
  }

  /** The bytes of a C string in memory. */
  method NameAt(ram: C.Initramfs, at: nat, ghost name: seq<Byte>) returns (r: seq<Byte>)
    requires C.StringAt(ram.memory[..], at, name) && 0 !in name
    ensures r == name
  {
    r := [];
    while ram.memory[at + |r|] != 0
      invariant |r| <= |name| && r == name[..|r|]
      decreases |name| - |r|
    {
      NameByte(ram.memory[..], at, name, |r|);
      r := r + [ram.memory[at + |r|]];
    }
    NameByte(ram.memory[..], at, name, |r|);
  }

  lemma NameByte(mem: seq<Byte>, at: nat, name: seq<Byte>, k: nat)
    requires C.StringAt(mem, at, name) && 0 !in name && k <= |name|
    ensures at + k < |mem| && (if k < |name| then mem[at + k] == name[k] != 0 else mem[at + k] == 0)
  {
    if k < |name| {
      assert mem[at..at + |name|][k] == name[k];
      assert name[k] in name;
    }
  }

  /** The import loop, for an archive of regular files. */
  method ImportFiles(ram: C.Initramfs, fs: RamFs, ghost es: seq<C.Entry>)
    requires fs.Valid() && ram.memory != fs.pool && ram.fileCount == |es| <= ram.files.Length
    requires forall i :: 0 <= i < |es| ==>
      C.RefersTo(ram.memory[..], ram.files[i], es[i]) && 0 !in es[i].name && !EndsInSlash(es[i].name)
    modifies fs, fs.pool
    ensures fs.Valid() && fs.View() == Imported(old(fs.View()), es)
  {
    hide Added, RamFs.Valid, RamFs.View, C.StringAt;
    ghost var s := fs.View();
    var count := 0;
    assert es[0..] == es;
    while count < ram.fileCount
      invariant count <= |es| && fs.Valid() && Imported(fs.View(), es[count..]) == Imported(s, es)
    {
      var src := ram.files[count];
      var name := NameAt(ram, src.name, es[count].name);
      var bytes := ram.memory[src.data..src.data + src.size];
      assert bytes == es[count].data;
      assert es[count..][1..] == es[count + 1..];
      var r := fs.Import(name, bytes);
      if r.None? {
        return;
      }
      count := count + 1;
    }
  }

  /** If everything fits the pool, file i is archive entry i, for all of at most thirty-two. */
  lemma {:induction false} ImportedFiles(s: Store, es: seq<C.Entry>, i: nat)
    requires |s.entries| + |es| <= MAX_FILES && s.used + TotalSize(es) <= POOL_SIZE
    requires i < |s.entries| + |es|
    ensures |Imported(s, es).entries| == |s.entries| + |es|
    ensures Imported(s, es).entries[i] ==
      if i < |s.entries| then s.entries[i]
      else var e := es[i - |s.entries|]; Entry(Kept(e.name), e.data, |e.data|, true)
    decreases |es|
  {
    if es == [] {
    } else {
      var t := Added(s, es[0].name, es[0].data, |es[0].data|);
      assert |t.entries| == |s.entries| + 1;
      ImportedFiles(t, es[1..], i);
    }
  }

  /** Names that fs_open compares as they are. */
  predicate PlainName(name: seq<Byte>) {
    0 < |name| <= NAME_LIMIT && !DotSlash(name)
  }

  /** Opening a name after boot finds the archive's file of that name, with the archive's bytes. */
  lemma {:induction false} OpenFindsImported(es: seq<C.Entry>, k: nat)
    requires |es| <= MAX_FILES && TotalSize(es) <= POOL_SIZE && k < |es|
    requires forall i :: 0 <= i < |es| ==> PlainName(es[i].name)
    requires forall i, j :: 0 <= i < j < |es| ==> es[i].name != es[j].name
    ensures var s := Imported(Store([], 0), es);
            Opened(s, es[k].name) == Some(k) && s.entries[k].bytes == es[k].data
  {
    hide Imported, Find;
    var s := Imported(Store([], 0), es);
    forall i | 0 <= i < |es|
      ensures |s.entries| == |es| && s.entries[i] == Entry(es[i].name, es[i].data, |es[i].data|, true)
    {
      ImportedFiles(Store([], 0), es, i);
    }
    assert PlainName(es[k].name);
    forall i | 0 <= i < |es| ensures Matches(s.entries[i].name, es[k].name) <==> i == k {
      assert PlainName(es[i].name);
    }
    FirstFound(s.entries, es[k].name, 0, k);
  }

  lemma {:induction false} FirstFound(entries: seq<Entry>, name: seq<Byte>, from: nat, k: nat)
    requires from <= k < |entries| && Matches(entries[k].name, name)
    requires forall i :: from <= i < k ==> !Matches(entries[i].name, name)
    ensures Find(entries, name, from) == Some(k)
    decreases k - from
  {
    hide Matches;
    if from >= k {
    } else {
      FirstFound(entries, name, from + 1, k);
    }
  }

  /** Boot from an encoded archive of at most sixteen regular files: parse it, then import what was found. */
  method FromArchive(ram: C.Initramfs, fs: RamFs, len: nat, ghost es: seq<C.Entry>, ghost upper: bool)
    requires fs.Valid() && fs.View() == Store([], 0) && ram.memory != fs.pool
    requires ram.files.Length == C.MAX_ENTRIES && len + 11 <= ram.memory.Length && ram.base + len + 3 * U32 < WORD_LIMIT
    requires |es| <= C.MAX_ENTRIES && ram.base % 4 == 0
    requires forall i :: 0 <= i < |es| ==> C.EntryOk(es[i]) && es[i].name != C.TrailerName() && !EndsInSlash(es[i].name)
    requires C.Holds(ram.memory[..], 0, C.Archive(es, upper)) && |C.Archive(es, upper)| <= len
    modifies ram, ram.files, fs, fs.pool
    ensures fs.Valid() && fs.View() == Imported(Store([], 0), es)
  {
    hide Imported, C.Parsed, C.Archive, C.Holds, C.StringAt, RamFs.Valid, RamFs.View;
    C.ParseInvertsArchive(ram.memory[..], ram.base, len, 0, 0, es, upper);
    ram.Init(len);
    ghost var refs := ram.files[..ram.fileCount];
    assert forall i :: 0 <= i < |es| ==> ram.files[i] == refs[i];
    ImportFiles(ram, fs, es);
  }
}
