/** The file system as its callers see it: a map from names to bytes, and the proof that every run keeps to it. */
module FileSystem {
  import opened Bytes
  import opened BlockCache
  import opened Bitmaps
  import opened InodeTree
  import opened EfsState
  import opened EfsSteps
  import opened Vfs
  import opened Dirents
  import opened Directory

  // ---------- the specification

  /** Files by name, the names in order of creation, and the number of free blocks. */
  datatype FsState = FsState(files: map<Name, seq<byte>>, order: seq<Name>, free: int)

  datatype Op =
    | Create(name: Name)
    | Write(name: Name, offset: nat, bytes: seq<byte>)
    | Read(name: Name, offset: nat, len: nat)
    | Clear(name: Name)
    | List

  datatype Outcome =
    | Made
    | AlreadyThere
    | NotFound
    | Wrote(n: nat)
    | Got(bytes: seq<byte>)
    | Cleared
    | Listing(names: seq<Name>)

  /** Blocks, index blocks included, of a file of the given size. */
  function BlocksOf(size: nat): nat {
    TotalOf(DataBlocksOf(size))
  }

  function Growth(size: nat, newSize: nat): int {
    if newSize < size then 0 else BlocksOf(newSize) - BlocksOf(size)
  }

  /** The part of s from offset on that fits into len bytes. */
  function Slice(s: seq<byte>, offset: nat, len: nat): (t: seq<byte>) {
    if offset >= |s| then [] else if offset + len <= |s| then s[offset..offset + len] else s[offset..]
  }

  function Next(s: FsState, op: Op): FsState {
    match op
    case Create(name) =>
      if name in s.files then s
      else FsState(s.files[name := []], s.order + [name], s.free - EntryNeeds(|s.order|))
    case Write(name, offset, bytes) =>
      if name !in s.files then s
      else s.(files := s.files[name := Written(s.files[name], offset, bytes)],
              free := s.free - Growth(|s.files[name]|, offset + |bytes|))
    case Clear(name) =>
      if name !in s.files then s
      else s.(files := s.files[name := []], free := s.free + BlocksOf(|s.files[name]|))
    case Read(_, _, _) => s
    case List => s
  }

  function Result(s: FsState, op: Op): Outcome {
    match op
    case Create(name) => if name in s.files then AlreadyThere else Made
    case Write(name, _, bytes) => if name !in s.files then NotFound else Wrote(|bytes|)
    case Read(name, offset, len) => if name !in s.files then NotFound else Got(Slice(s.files[name], offset, len))
    case Clear(name) => if name !in s.files then NotFound else Cleared
    case List => Listing(s.order)
  }

  /** What callers must see to: legal names and sizes, enough space, and no empty write where a new index block would be needed. */
  predicate Enabled(s: FsState, inodes: nat, op: Op) {
    match op
    case Create(name) =>
      && ValidName(name)
      && (name !in s.files ==>
            && |s.order| + 1 < inodes && 32 * |s.order| + 32 <= MAX_FILE_SIZE
            && EntryNeeds(|s.order|) <= s.free)
    case Write(name, offset, bytes) =>
      name in s.files ==>
        && offset + |bytes| <= MAX_FILE_SIZE
        && Growth(|s.files[name]|, offset + |bytes|) <= s.free
        && (bytes != [] || offset < |s.files[name]| || offset % 512 != 0 || SharesIndexBlock(offset / 512))
    case _ => true
  }

  function NextAll(s: FsState, ops: seq<Op>): FsState {
    if ops == [] then s else Next(NextAll(s, ops[..|ops| - 1]), ops[|ops| - 1])
  }

  ghost predicate AllEnabled(s: FsState, inodes: nat, ops: seq<Op>) {
    forall k :: 0 <= k < |ops| ==> Enabled(NextAll(s, ops[..k]), inodes, ops[k])
  }

  // ---------- properties of the specification

  /** What was written is read back, and other files read as before. */
  lemma WriteThenRead(s: FsState, name: Name, offset: nat, bytes: seq<byte>, other: Name)
    requires name in s.files && other in s.files
    ensures var t := Next(s, Write(name, offset, bytes));
            && Result(t, Read(name, offset, |bytes|)) == Got(bytes)
            && (forall i :: 0 <= i < |t.files[name]| && !(offset <= i < offset + |bytes|) ==>
                  t.files[name][i] == if i < |s.files[name]| then s.files[name][i] else 0)
            && (other != name ==> forall off, len :: Result(t, Read(other, off, len)) == Result(s, Read(other, off, len)))
  {
    var t := Next(s, Write(name, offset, bytes));
    assert bytes != [] ==> t.files[name][offset..offset + |bytes|] == bytes;
    assert bytes == [] && offset < |t.files[name]| ==> t.files[name][offset..offset] == [];
  }

  /** The names in order are those of the files, each once. */
  ghost predicate Ordered(s: FsState) {
    && (forall j, k :: 0 <= j < k < |s.order| ==> s.order[j] != s.order[k])
    && (forall name :: name in s.files <==> name in s.order)
  }

  function SumBlocks(files: map<Name, seq<byte>>, order: seq<Name>): nat {
    if order == [] then 0
    else
      var last := order[|order| - 1];
      SumBlocks(files, order[..|order| - 1]) + (if last in files then BlocksOf(|files[last]|) else 0)
  }

  lemma {:induction false} SumBlocksUpdate(files: map<Name, seq<byte>>, order: seq<Name>, name: Name, data: seq<byte>)
    requires name in files
    requires forall j, k :: 0 <= j < k < |order| ==> order[j] != order[k]
    ensures SumBlocks(files[name := data], order)
         == SumBlocks(files, order) + (if name in order then BlocksOf(|data|) - BlocksOf(|files[name]|) else 0)
  {
    if order != [] {
      var n := |order| - 1;
      SumBlocksUpdate(files, order[..n], name, data);
      assert order == order[..n] + [order[n]];
    }
  }

  lemma {:induction false} SumBlocksFresh(files: map<Name, seq<byte>>, order: seq<Name>, name: Name, data: seq<byte>)
    requires name !in order
    ensures SumBlocks(files[name := data], order) == SumBlocks(files, order)
  {
    if order != [] {
      var n := |order| - 1;
      SumBlocksFresh(files, order[..n], name, data);
      assert order == order[..n] + [order[n]];
    }
  }

  /** A new, empty file takes no blocks. */
  lemma SumBlocksSnoc(files: map<Name, seq<byte>>, order: seq<Name>, name: Name)
    requires name !in order
    ensures SumBlocks(files[name := []], order + [name]) == SumBlocks(files, order)
  {
    SumBlocksFresh(files, order, name, []);
    assert (order + [name])[..|order|] == order;
    NoBlocks();
  }

  lemma NoBlocks()
    ensures BlocksOf(0) == 0
  {
  }

  /** All the blocks there are: the free ones, the directory's and the files'. */
  function Capacity(s: FsState): int {
    s.free + BlocksOf(32 * |s.order|) + SumBlocks(s.files, s.order)
  }

  /** No operation gains or loses a block. */
  lemma BlocksConserved(s: FsState, op: Op)
    requires Ordered(s)
    ensures Ordered(Next(s, op)) && Capacity(Next(s, op)) == Capacity(s)
  {
    hide TotalOf, DataBlocksOf, SumBlocks, Written;
    var t := Next(s, op);
    match op
    case Create(name) =>
      if name !in s.files {
        SumBlocksSnoc(s.files, s.order, name);
        assert 32 * |t.order| == 32 * |s.order| + 32;
      }
    case Write(name, offset, bytes) =>
      if name in s.files {
        SumBlocksUpdate(s.files, s.order, name, t.files[name]);
      }
    case Clear(name) =>
      if name in s.files {
        SumBlocksUpdate(s.files, s.order, name, []);
        NoBlocks();
      }
    case _ =>
  }

  lemma {:induction false} RunConserves(s: FsState, ops: seq<Op>)
    requires Ordered(s)
    ensures Ordered(NextAll(s, ops)) && Capacity(NextAll(s, ops)) == Capacity(s)
  {
    if ops != [] {
      RunConserves(s, ops[..|ops| - 1]);
      BlocksConserved(NextAll(s, ops[..|ops| - 1]), ops[|ops| - 1]);
    }
  }

  // ---------- the implementation keeps to the specification

  /** What the device holds, as the specification sees it. */
  ghost function Abs(dir: Inode): FsState
    reads dir.fs.cache
  {
    var d, g := dir.fs.cache.view, dir.fs.g;
    FsState(Files(d, g), NameList(Dir(d, g)), Free(d, g))
  }

  method DoCreate(dir: Inode, name: Name) returns (out: Outcome)
    requires Steady(dir) && Enabled(Abs(dir), dir.fs.g.Inodes(), Create(name))
    modifies dir.fs.cache
    ensures Steady(dir) && dir.fs.cache.StaysSynced() && Abs(dir) == Next(old(Abs(dir)), Create(name)) && out == Result(old(Abs(dir)), Create(name))
  {
    hide BlockCacheManager.Valid, Steady, Dir, InodeOf, Files, Free, EntryNeeds, ValidName;
    ghost var d, g := dir.fs.cache.view, dir.fs.g;
    var r := Directory.Create(dir, name);
    if r.None? {
      return AlreadyThere;
    }
    NameListCreated(d, dir.fs.cache.view, g, name, r.value.id);
    out := Made;
  }

  lemma NameListCreated(d: seq<Block>, d': seq<Block>, g: Geometry, name: Name, id: nat)
    requires Created(d, d', g, name, id) && ValidName(name)
    ensures NameList(Dir(d', g)) == NameList(Dir(d, g)) + [name]
    ensures name !in Files(d, g)
  {
    hide Dir, NameOf, NewEntry;
    var inodeNumber: u32 :| id == inodeNumber && |name| <= 28 && Dir(d', g) == Dir(d, g) + [NewEntry(name, inodeNumber)];
    NameRoundTrip(name, inodeNumber);
  }

  method DoWrite(dir: Inode, name: Name, offset: nat, bytes: seq<byte>) returns (out: Outcome)
    requires Steady(dir) && Enabled(Abs(dir), dir.fs.g.Inodes(), Write(name, offset, bytes))
    modifies dir.fs.cache
    ensures Steady(dir) && dir.fs.cache.StaysSynced() && Abs(dir) == Next(old(Abs(dir)), Write(name, offset, bytes))
    ensures out == Result(old(Abs(dir)), Write(name, offset, bytes))
  {
    hide BlockCacheManager.Valid, Inv, Dir, InodeOf, Free, Contents, RecAt, BitAt, OthersSame, SameHead, DirOk, Written, NameList;
    ghost var d, g := dir.fs.cache.view, dir.fs.g;
    var r := Find(dir, name);
    if r.None? {
      return NotFound;
    }
    var inode := r.value;
    SteadyBounds(dir);
    NamedInode(d, g, name);
    assert inode.Data() == Files(d, g)[name];
    var n := inode.WriteAt(offset, bytes);
    FileChanged(d, dir.fs.cache.view, g, name);
    out := Wrote(n);
  }

  lemma SteadyBounds(dir: Inode)
    requires Steady(dir)
    ensures dir.fs.g.Valid() && dir.fs.g.Total() <= |dir.fs.cache.view| && DirOk(dir.fs.cache.view, dir.fs.g)
  {
  }

  method DoRead(dir: Inode, name: Name, offset: nat, len: nat) returns (out: Outcome)
    requires Steady(dir)
    modifies dir.fs.cache`queue, dir.fs.cache`disk, dir.fs.cache`held
    ensures Steady(dir) && dir.fs.cache.StaysSynced() && Abs(dir) == old(Abs(dir))
    ensures out == Result(old(Abs(dir)), Read(name, offset, len))
  {
    hide BlockCacheManager.Valid, Inv, Dir, InodeOf, Free, Contents, RecAt, BitAt, DirOk, NameList;
    var r := Find(dir, name);
    if r.None? {
      return NotFound;
    }
    var inode, buf := r.value, new byte[len];
    assert inode.Data() == Files(dir.fs.cache.view, dir.fs.g)[name];
    var n := inode.ReadAt(offset, buf);
    out := Got(buf[..n]);
  }

  method DoClear(dir: Inode, name: Name) returns (out: Outcome)
    requires Steady(dir)
    modifies dir.fs.cache
    ensures Steady(dir) && dir.fs.cache.StaysSynced() && Abs(dir) == Next(old(Abs(dir)), Clear(name)) && out == Result(old(Abs(dir)), Clear(name))
  {
    hide BlockCacheManager.Valid, Inv, Dir, InodeOf, Free, Contents, RecAt, BitAt, OthersSame, SameHead, DirOk, NameList;
    ghost var d, g := dir.fs.cache.view, dir.fs.g;
    var r := Find(dir, name);
    if r.None? {
      return NotFound;
    }
    var inode := r.value;
    SteadyBounds(dir);
    NamedInode(d, g, name);
    assert inode.Data() == Files(d, g)[name];
    inode.Clear();
    FileChanged(d, dir.fs.cache.view, g, name);
    out := Cleared;
  }

  method DoList(dir: Inode) returns (out: Outcome)
    requires Steady(dir)
    modifies dir.fs.cache`queue, dir.fs.cache`disk, dir.fs.cache`held
    ensures Steady(dir) && dir.fs.cache.StaysSynced() && Abs(dir) == old(Abs(dir)) && out == Result(old(Abs(dir)), List)
  {
    hide BlockCacheManager.Valid, Inv, Dir, Files, Free, DirOk, NameList;
    var names := Ls(dir);
    out := Listing(names);
  }

  method Execute(dir: Inode, op: Op) returns (out: Outcome)
    requires Steady(dir) && Enabled(Abs(dir), dir.fs.g.Inodes(), op)
    modifies dir.fs.cache
    ensures Steady(dir) && dir.fs.cache.StaysSynced() && Abs(dir) == Next(old(Abs(dir)), op) && out == Result(old(Abs(dir)), op)
  {
    hide Steady, Abs;
    match op
    case Create(name) => out := DoCreate(dir, name);
    case Write(name, offset, bytes) => out := DoWrite(dir, name, offset, bytes);
    case Read(name, offset, len) => out := DoRead(dir, name, offset, len);
    case Clear(name) => out := DoClear(dir, name);
    case List => out := DoList(dir);
  }

  lemma NextAllNone(s: FsState)
    ensures NextAll(s, []) == s
  {
  }

  lemma NextAllSnoc(s: FsState, ops: seq<Op>, i: nat)
    requires i < |ops|
    ensures NextAll(s, ops[..i + 1]) == Next(NextAll(s, ops[..i]), ops[i])
  {
    assert ops[..i + 1][..i] == ops[..i];
  }

  /** Any run of operations leaves the files, and answers, as the specification says; a synced device stays synced. */
  method Run(dir: Inode, ops: seq<Op>) returns (outs: seq<Outcome>)
    requires Steady(dir) && AllEnabled(Abs(dir), dir.fs.g.Inodes(), ops)
    modifies dir.fs.cache
    ensures Steady(dir) && dir.fs.cache.StaysSynced() && Abs(dir) == NextAll(old(Abs(dir)), ops)
    ensures |outs| == |ops|
    ensures forall k :: 0 <= k < |ops| ==> outs[k] == Result(NextAll(old(Abs(dir)), ops[..k]), ops[k])
  {
    hide Steady, Abs, Enabled, Next, Result, NextAll;
    ghost var s0 := Abs(dir);
    NextAllNone(s0);
    outs := [];
    var i := 0;
    while i < |ops|
      invariant i == |outs| <= |ops| && Steady(dir) && dir.fs.cache.StaysSynced() && Abs(dir) == NextAll(s0, ops[..i])
      invariant forall k :: 0 <= k < i ==> outs[k] == Result(NextAll(s0, ops[..k]), ops[k])
    {
      var out := Execute(dir, ops[i]);
      NextAllSnoc(s0, ops, i);
      outs := outs + [out];
      i := i + 1;
    }
    assert ops[..i] == ops;
  }
}
