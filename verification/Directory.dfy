/** The flat root directory: finding, creating and listing files by name. */
module Directory {
  import opened Bytes
  import opened Collections
  import opened BlockCache
  import opened Bitmaps
  import opened InodeTree
  import opened Layout
  import opened EfsState
  import opened EfsSteps
  import opened Vfs
  import opened Dirents

  // ---------- the directory on the device

  /** The root directory's entries. */
  function Dir(d: seq<Block>, g: Geometry): seq<DirEntry> {
    Entries(Contents(d, RecAt(d, g, 0)))
  }

  /** The inodes that have a name. */
  function InodeOf(d: seq<Block>, g: Geometry): map<Name, u32> {
    Names(Dir(d, g))
  }

  ghost predicate ListsInode(es: seq<DirEntry>, i: nat) {
    exists k :: 0 <= k < |es| && es[k].inodeNumber == i
  }

  ghost predicate EntryOk(d: seq<Block>, g: Geometry, e: DirEntry) {
    0 < e.inodeNumber < g.Inodes() && !RecAt(d, g, e.inodeNumber).isDir
  }

  ghost predicate EntriesOk(d: seq<Block>, g: Geometry, es: seq<DirEntry>) {
    forall k :: 0 <= k < |es| ==> EntryOk(d, g, es[k])
  }

  /** The root is a directory of whole entries naming plain files, and the inodes in use are the root and those named. */
  ghost predicate DirOk(d: seq<Block>, g: Geometry) {
    && RecAt(d, g, 0).isDir && RecAt(d, g, 0).size % 32 == 0
    && Distinct(Dir(d, g))
    && EntriesOk(d, g, Dir(d, g))
    && forall i: nat :: i < g.Inodes() ==> (BitAt(d, 1, i) <==> i == 0 || ListsInode(Dir(d, g), i))
  }

  /** The contents of every named file. */
  function Files(d: seq<Block>, g: Geometry): (files: map<Name, seq<byte>>)
    ensures files.Keys == InodeOf(d, g).Keys
  {
    map name | name in InodeOf(d, g) :: Contents(d, RecAt(d, g, InodeOf(d, g)[name]))
  }

  lemma NamedInode(d: seq<Block>, g: Geometry, name: Name)
    requires DirOk(d, g) && name in InodeOf(d, g)
    ensures var id := InodeOf(d, g)[name];
            && 0 < id < g.Inodes() && BitAt(d, 1, id) && !RecAt(d, g, id).isDir
            && ListsInode(Dir(d, g), id)
  {
    hide BitAt, Distinct, Entries, NameOf;
    var es, id := Dir(d, g), InodeOf(d, g)[name];
    NamesListed(es);
    assert Lists(es, name, id);
    var k :| 0 <= k < |es| && NameOf(es[k]) == Some(name) && es[k].inodeNumber == id;
    assert EntryOk(d, g, es[k]);
  }

  /** A change to the file `name` changes that file only. */
  lemma FileChanged(d: seq<Block>, d': seq<Block>, g: Geometry, name: Name)
    requires g.Valid() && g.Total() <= |d| && DirOk(d, g) && name in InodeOf(d, g)
    requires OthersSame(d, d', g, InodeOf(d, g)[name]) && SameHead(d, d', g)
    requires !RecAt(d', g, InodeOf(d, g)[name]).isDir
    ensures DirOk(d', g) && Dir(d', g) == Dir(d, g)
    ensures Files(d', g) == Files(d, g)[name := Contents(d', RecAt(d', g, InodeOf(d, g)[name]))]
  {
    hide BitAt, Distinct, Entries, Contents, SameHead, RecAt;
    var id := InodeOf(d, g)[name];
    NamedInode(d, g, name);
    assert Dir(d', g) == Dir(d, g);
    forall k | 0 <= k < |Dir(d, g)|
      ensures EntryOk(d', g, Dir(d, g)[k])
    {
      assert EntryOk(d, g, Dir(d, g)[k]);
    }
    forall i: nat | i < g.Inodes()
      ensures BitAt(d', 1, i) == BitAt(d, 1, i)
    {
      SameInodeBits(d, d', g, i);
    }
    forall other | other in InodeOf(d, g) && other != name
      ensures Files(d', g)[other] == Files(d, g)[other]
    {
      NamedInode(d, g, other);
      if InodeOf(d, g)[other] == id {
        NamesInjective(Dir(d, g), other, name);
      }
    }
  }

  /** Registering the new, empty inode id under `name`, from d over d1 (inode ready) to d' (entry written). */
  lemma FileAdded(d: seq<Block>, d1: seq<Block>, d': seq<Block>, g: Geometry, name: Name, id: u32)
    requires g.Valid() && g.Total() <= |d| && DirOk(d, g)
    requires ValidName(name) && name !in InodeOf(d, g) && id < g.Inodes() && !BitAt(d, 1, id)
    requires OthersSame(d, d1, g, id) && RecAt(d1, g, id) == EmptyInode(false)
    requires forall i: nat :: i < g.Inodes() ==> (BitAt(d1, 1, i) <==> i == id || BitAt(d, 1, i))
    requires |d1| == |d| && OthersSame(d1, d', g, 0) && SameHead(d1, d', g) && RecAt(d', g, 0).isDir
    requires Contents(d', RecAt(d', g, 0)) == Contents(d, RecAt(d, g, 0)) + AsBytes(NewEntry(name, id))
    ensures DirOk(d', g) && Dir(d', g) == Dir(d, g) + [NewEntry(name, id)]
    ensures InodeOf(d', g) == InodeOf(d, g)[name := id]
    ensures Files(d', g) == Files(d, g)[name := []]
  {
    var es, e := Dir(d, g), NewEntry(name, id);
    hide BitAt, Contents, SameHead, RecAt, Distinct, EntriesOk, ListsInode, NameOf, OthersSame, ValidName, NewEntry, Dir, InodeOf;
    EntryAppended(d, d', g, name, id);
    NewToDirectory(d, g, name, id);
    NameRoundTrip(name, id);
    DistinctSnoc(es, e, name);
    EntriesStayOk(d, d1, d', g, es, e);
    NewEntryOk(d, d1, d', g, e);
    OthersKept(d, d1, d', g, id);
    FilesExtended(d, d', g, name, id);
  }

  lemma EntryAppended(d: seq<Block>, d': seq<Block>, g: Geometry, name: Name, id: u32)
    requires ValidName(name) && RecAt(d, g, 0).size % 32 == 0
    requires Contents(d', RecAt(d', g, 0)) == Contents(d, RecAt(d, g, 0)) + AsBytes(NewEntry(name, id))
    ensures Dir(d', g) == Dir(d, g) + [NewEntry(name, id)]
    ensures InodeOf(d', g) == InodeOf(d, g)[name := id]
    ensures RecAt(d', g, 0).size % 32 == 0
  {
    hide Contents, RecAt, NewEntry;
    NameRoundTrip(name, id);
    EntriesAppend(Contents(d, RecAt(d, g, 0)), NewEntry(name, id));
    NamesSnoc(Dir(d, g), NewEntry(name, id));
    assert |Contents(d', RecAt(d', g, 0))| == |Contents(d, RecAt(d, g, 0))| + 32;
  }

  lemma FilesExtended(d: seq<Block>, d': seq<Block>, g: Geometry, name: Name, id: u32)
    requires InodeOf(d', g) == InodeOf(d, g)[name := id] && name !in InodeOf(d, g)
    requires Contents(d', RecAt(d', g, id)) == []
    requires forall other :: other in InodeOf(d, g) ==>
               Contents(d', RecAt(d', g, InodeOf(d, g)[other])) == Contents(d, RecAt(d, g, InodeOf(d, g)[other]))
    ensures Files(d', g) == Files(d, g)[name := []]
  {
    hide InodeOf, Contents, RecAt;
  }

  lemma OthersKept(d: seq<Block>, d1: seq<Block>, d': seq<Block>, g: Geometry, id: u32)
    requires DirOk(d, g) && id < g.Inodes() && !BitAt(d, 1, id)
    requires OthersSame(d, d1, g, id) && OthersSame(d1, d', g, 0) && RecAt(d1, g, id) == EmptyInode(false)
    ensures Contents(d', RecAt(d', g, id)) == []
    ensures forall other :: other in InodeOf(d, g) ==>
              Contents(d', RecAt(d', g, InodeOf(d, g)[other])) == Contents(d, RecAt(d, g, InodeOf(d, g)[other]))
  {
    hide BitAt, Contents, RecAt, Dir, Own;
    forall other | other in InodeOf(d, g)
      ensures Contents(d', RecAt(d', g, InodeOf(d, g)[other])) == Contents(d, RecAt(d, g, InodeOf(d, g)[other]))
    {
      NamedInode(d, g, other);
    }
  }

  /** No entry carries a new name or a free inode. */
  lemma NewToDirectory(d: seq<Block>, g: Geometry, name: Name, id: u32)
    requires DirOk(d, g) && name !in InodeOf(d, g) && id < g.Inodes() && !BitAt(d, 1, id)
    ensures id != 0
    ensures forall k :: 0 <= k < |Dir(d, g)| ==> NameOf(Dir(d, g)[k]) != Some(name) && Dir(d, g)[k].inodeNumber != id
  {
    hide BitAt, Contents, RecAt, NameOf, Names, Entries, Dir, EntryOk;
    var es := Dir(d, g);
    assert BitAt(d, 1, 0);
    NamesListed(es);
    forall k | 0 <= k < |es|
      ensures NameOf(es[k]) != Some(name) && es[k].inodeNumber != id
    {
      assert ListsInode(es, es[k].inodeNumber);
      assert Lists(es, NameOf(es[k]).value, es[k].inodeNumber);
    }
  }

  lemma DistinctSnoc(es: seq<DirEntry>, e: DirEntry, name: Name)
    requires Distinct(es) && NameOf(e) == Some(name)
    requires forall k :: 0 <= k < |es| ==> NameOf(es[k]) != Some(name) && es[k].inodeNumber != e.inodeNumber
    ensures Distinct(es + [e])
  {
    hide NameOf;
  }

  /** The inodes other than a new one and the root are as they were. */
  lemma EntriesStayOk(d: seq<Block>, d1: seq<Block>, d': seq<Block>, g: Geometry, es: seq<DirEntry>, e: DirEntry)
    requires EntriesOk(d, g, es) && 0 < e.inodeNumber < g.Inodes()
    requires forall k :: 0 <= k < |es| ==> es[k].inodeNumber != e.inodeNumber
    requires OthersSame(d, d1, g, e.inodeNumber) && RecAt(d1, g, e.inodeNumber) == EmptyInode(false)
    requires OthersSame(d1, d', g, 0)
    ensures EntriesOk(d', g, es + [e])
  {
    hide RecAt, Contents, Own;
    forall k | 0 <= k < |es + [e]|
      ensures EntryOk(d', g, (es + [e])[k])
    {
      if k < |es| {
        assert EntryOk(d, g, es[k]);
      }
    }
  }

  lemma NewEntryOk(d: seq<Block>, d1: seq<Block>, d': seq<Block>, g: Geometry, e: DirEntry)
    requires DirOk(d, g) && g.Valid() && g.InodeAreaStart() <= |d1| && SameHead(d1, d', g)
    requires forall i: nat :: i < g.Inodes() ==> (BitAt(d1, 1, i) <==> i == e.inodeNumber || BitAt(d, 1, i))
    ensures forall i: nat :: i < g.Inodes() ==> (BitAt(d', 1, i) <==> i == 0 || ListsInode(Dir(d, g) + [e], i))
  {
    hide BitAt, RecAt, Distinct, EntriesOk, Dir, ListsInode, SameHead;
    forall i: nat | i < g.Inodes()
      ensures BitAt(d', 1, i) <==> i == 0 || ListsInode(Dir(d, g) + [e], i)
    {
      SameInodeBits(d1, d', g, i);
      ListsInodeSnoc(Dir(d, g), e, i);
    }
  }

  lemma ListsInodeSnoc(es: seq<DirEntry>, e: DirEntry, i: nat)
    ensures ListsInode(es + [e], i) <==> ListsInode(es, i) || e.inodeNumber == i
  {
    var more := es + [e];
    if ListsInode(es, i) {
      var k :| 0 <= k < |es| && es[k].inodeNumber == i;
      assert more[k].inodeNumber == i;
    }
    assert more[|es|] == e;
  }

  /** While the root and the named files are fewer than the inodes, one is free. */
  lemma FreeInodeExists(d: seq<Block>, g: Geometry)
    requires DirOk(d, g) && 1 + |Dir(d, g)| < g.Inodes()
    ensures exists i: nat :: i < g.Inodes() && !BitAt(d, 1, i)
  {
    hide BitAt, Dir, Distinct, EntriesOk;
    var es := Dir(d, g);
    if forall i: nat :: i < g.Inodes() ==> BitAt(d, 1, i) {
      var named := InodeNumbers(es);
      forall i: nat | i in Range(g.Inodes())
        ensures i in named + {0}
      {
        assert BitAt(d, 1, i);
      }
      SubsetSize(Range(g.Inodes()), named + {0});
      assert false;
    }
  }

  ghost function InodeNumbers(es: seq<DirEntry>): (s: set<nat>)
    ensures forall i: nat :: i in s <==> ListsInode(es, i)
    ensures |s| <= |es|
  {
    if es == [] then {}
    else
      ListsInodeAll(es[..|es| - 1], es[|es| - 1]);
      assert es == es[..|es| - 1] + [es[|es| - 1]];
      InodeNumbers(es[..|es| - 1]) + {es[|es| - 1].inodeNumber as nat}
  }

  lemma ListsInodeAll(es: seq<DirEntry>, e: DirEntry)
    ensures forall i: nat :: ListsInode(es + [e], i) <==> ListsInode(es, i) || e.inodeNumber == i
  {
    forall i: nat
      ensures ListsInode(es + [e], i) <==> ListsInode(es, i) || e.inodeNumber == i
    {
      ListsInodeSnoc(es, e, i);
    }
  }

  // ---------- operations

  /** dir is the root inode, nothing is locked, and the device holds a file system with its directory. */
  ghost predicate Steady(dir: Inode)
    reads dir.fs.cache
  {
    && dir.Wired() && dir.id == 0
    && dir.fs.Ready({}) && dir.fs.cache.held == {}
    && DirOk(dir.fs.cache.view, dir.fs.g)
  }

  /** The root inode is in use and of a size that files can have. */
  lemma RootInode(d: seq<Block>, g: Geometry)
    requires Inv(d, g, {}) && DirOk(d, g)
    ensures 0 < g.Inodes() && BitAt(d, 1, 0) && g.Valid() && g.Total() <= |d|
    ensures RecAt(d, g, 0).size == 32 * |Dir(d, g)| <= MAX_FILE_SIZE
    ensures |Contents(d, RecAt(d, g, 0))| == 32 * |Dir(d, g)|
  {
    hide BitAt, Distinct, EntriesOk, BlocksOk, OwnersDisjoint, FreeInodesEmpty, SpareBitsClear, Tree, TailZero;
    assert InodeOk(d, g, 0);
    assert BitAt(d, 1, 0);
  }

  /** Reads entry i of the locked directory into a buffer. */
  method ReadEntry(dir: Inode, node: DiskInode, i: nat, dirent: array<byte>) returns (e: DirEntry)
    requires dir.Wired() && dir.id == 0 && dir.fs.Ready({}) && dir.fs.cache.held == {dir.blockId}
    requires node.Rec() == dir.Rec() && i < |Dir(dir.fs.cache.view, dir.fs.g)| && dirent.Length == 32
    modifies dirent, dir.fs.cache`queue, dir.fs.cache`disk, dir.fs.cache`held
    ensures dir.fs.Ready({}) && dir.fs.cache.held == {dir.blockId} && dir.fs.cache.StaysSynced()
    ensures e == Dir(dir.fs.cache.view, dir.fs.g)[i]
  {
    hide BlockCacheManager.Valid, Inv, FromBytes, Contents, Tree, NoDup;
    InodeAccessible(dir.fs.cache.view, dir.fs.g, 0, dir.blockId);
    var n := node.ReadAt(32 * i, dirent, dir.fs.cache);
    assert n == 32;
    e := FromBytes(dirent[..]);
    assert dirent[..] == Contents(dir.fs.cache.view, node.Rec())[32 * i..32 * i + 32];
  }

  /** The inode of the entry with the given name, in the locked directory. */
  method FindInodeId(dir: Inode, name: Name, node: DiskInode) returns (r: Option<u32>)
    requires dir.Wired() && dir.id == 0 && dir.fs.Ready({}) && dir.fs.cache.held == {dir.blockId}
    requires DirOk(dir.fs.cache.view, dir.fs.g) && node.Rec() == dir.Rec()
    modifies dir.fs.cache`queue, dir.fs.cache`disk, dir.fs.cache`held
    ensures dir.fs.Ready({}) && dir.fs.cache.held == {dir.blockId} && dir.fs.cache.StaysSynced()
    ensures r.Some? <==> name in InodeOf(dir.fs.cache.view, dir.fs.g)
    ensures r.Some? ==> r.value == InodeOf(dir.fs.cache.view, dir.fs.g)[name]
  {
    hide BlockCacheManager.Valid, Inv, NameOf, Contents, Names, EntriesOk, BitAt, Dir, Entries;
    ghost var es := Dir(dir.fs.cache.view, dir.fs.g);
    RootInode(dir.fs.cache.view, dir.fs.g);
    NamesListed(es);
    assert forall n :: n in Names(es) ==> Lists(es, n, Names(es)[n]);
    assert node.isDir;
    var fileCount := node.size / 32;
    var dirent := new byte[32];
    var i := 0;
    while i < fileCount
      invariant i <= fileCount && dir.fs.Ready({}) && dir.fs.cache.held == {dir.blockId} && dir.fs.cache.StaysSynced()
      invariant fresh(dirent)
      invariant forall k :: 0 <= k < i ==> NameOf(es[k]) != Some(name)
    {
      var e := ReadEntry(dir, node, i, dirent);
      if NameOf(e) == Some(name) {
        assert Lists(es, name, e.inodeNumber);
        return Some(e.inodeNumber);
      }
      i := i + 1;
    }
    assert forall id :: !Lists(es, name, id);
    r := None;
  }

  /** Locks the directory, looks the name up, and unlocks it. */
  method Lookup(dir: Inode, name: Name) returns (r: Option<u32>)
    requires Steady(dir)
    modifies dir.fs.cache`queue, dir.fs.cache`disk, dir.fs.cache`held
    ensures Steady(dir) && dir.fs.cache.StaysSynced()
    ensures r.Some? <==> name in InodeOf(dir.fs.cache.view, dir.fs.g)
    ensures r.Some? ==> r.value == InodeOf(dir.fs.cache.view, dir.fs.g)[name]
  {
    hide BlockCacheManager.Valid, Inv, DirOk, InodeOf;
    var node := dir.Open({});
    assert dir.fs.cache.held == {dir.blockId};
    r := FindInodeId(dir, name, node);
    dir.fs.cache.Unlock(dir.blockId);
    assert dir.fs.cache.held == {};
  }

  /** A handle on the file of the given name. */
  method Find(dir: Inode, name: Name) returns (r: Option<Inode>)
    requires Steady(dir)
    modifies dir.fs.cache`queue, dir.fs.cache`disk, dir.fs.cache`held
    ensures Steady(dir) && dir.fs.cache.StaysSynced()
    ensures r.Some? <==> name in InodeOf(dir.fs.cache.view, dir.fs.g)
    ensures r.Some? ==> r.value.fs == dir.fs && r.value.Wired() && r.value.id == InodeOf(dir.fs.cache.view, dir.fs.g)[name]
  {
    hide BlockCacheManager.Valid, Inv, InodeOf;
    var found := Lookup(dir, name);
    if found.None? {
      return None;
    }
    var id := found.value;
    NamedInode(dir.fs.cache.view, dir.fs.g, name);
    var inode := new Inode(dir.fs, dir.fs.g.InodeBlock(id), dir.fs.g.InodeSlot(id), id);
    r := Some(inode);
  }

  /** The names of a directory, in the order of its entries. */
  function NameList(es: seq<DirEntry>): (names: seq<Name>)
    ensures |names| == |es|
    ensures forall k :: 0 <= k < |es| ==> NameOf(es[k]).Some? ==> names[k] == NameOf(es[k]).value
  {
    seq(|es|, k requires 0 <= k < |es| => if NameOf(es[k]).Some? then NameOf(es[k]).value else [])
  }

  /** Lists the names. */
  method Ls(dir: Inode) returns (names: seq<Name>)
    requires Steady(dir)
    modifies dir.fs.cache`queue, dir.fs.cache`disk, dir.fs.cache`held
    ensures Steady(dir) && dir.fs.cache.StaysSynced()
    ensures names == NameList(Dir(dir.fs.cache.view, dir.fs.g))
  {
    hide BlockCacheManager.Valid, Inv, NameOf, Contents, Names, EntriesOk, BitAt, Dir, Entries;
    ghost var es := Dir(dir.fs.cache.view, dir.fs.g);
    var node := dir.Open({});
    assert dir.fs.cache.held == {dir.blockId};
    RootInode(dir.fs.cache.view, dir.fs.g);
    var fileCount := node.size / 32;
    names := [];
    var i := 0;
    while i < fileCount
      invariant i <= fileCount && dir.fs.Ready({}) && dir.fs.cache.held == {dir.blockId} && dir.fs.cache.StaysSynced()
      invariant node.Rec() == dir.Rec() && names == NameList(es)[..i]
    {
      var dirent := new byte[32];
      var e := ReadEntry(dir, node, i, dirent);
      names := names + [NameOf(e).value];
      i := i + 1;
    }
    dir.fs.cache.Unlock(dir.blockId);
    assert dir.fs.cache.held == {};
  }

  /** Initializes the record of a newly allocated inode. */
  method InitInode(inode: Inode, directory: bool)
    requires inode.Wired() && inode.fs.Ready({}) && inode.fs.cache.held == {} && inode.Allocated()
    requires inode.Rec().size == 0
    modifies inode.fs.cache
    ensures inode.fs.Ready({}) && inode.fs.cache.held == {}
    ensures inode.Rec() == EmptyInode(directory)
    ensures OthersSame(old(inode.fs.cache.view), inode.fs.cache.view, inode.fs.g, inode.id)
    ensures SameHead(old(inode.fs.cache.view), inode.fs.cache.view, inode.fs.g)
    ensures Free(inode.fs.cache.view, inode.fs.g) == old(Free(inode.fs.cache.view, inode.fs.g))
  {
    hide BlockCacheManager.Valid, Inv, BitAt, OthersSame, SameHead, Contents, CanCommit;
    ghost var d := inode.fs.cache.view;
    var node := inode.Open({});
    assert inode.fs.cache.held == {inode.blockId};
    node.Initialize(directory);
    InitStep(d, inode.fs.g, inode.id, directory);
    StoreStep(d, d, inode.fs.g, inode.id, node.Rec(), [], {}, {});
    inode.Store(node);
    inode.fs.cache.Unlock(inode.blockId);
    assert inode.fs.cache.held == {};
  }

  /** An inode without blocks may be replaced by a fresh one. */
  lemma InitStep(d: seq<Block>, g: Geometry, i: nat, directory: bool)
    requires Inv(d, g, {}) && i < g.Inodes() && RecAt(d, g, i).size == 0
    ensures CanCommit(d, d, g, i, EmptyInode(directory), [], {}, {})
  {
    EmptyTree(d, EmptyInode(directory));
    assert Own(d, g, i) == [];
  }

  /** Appends an entry to the directory. */
  method AppendEntry(dir: Inode, e: DirEntry)
    requires dir.Wired() && dir.id == 0 && dir.fs.Ready({}) && dir.fs.cache.held == {} && dir.Allocated()
    requires e.WellFormed() && dir.Rec().size % 32 == 0 && dir.Rec().size + 32 <= MAX_FILE_SIZE
    requires dir.Needed(dir.Rec().size + 32) <= Free(dir.fs.cache.view, dir.fs.g)
    modifies dir.fs.cache
    ensures dir.fs.Ready({}) && dir.fs.cache.held == {} && dir.fs.cache.disk == dir.fs.cache.view
    ensures dir.Rec().isDir == old(dir.Rec().isDir)
    ensures dir.Data() == old(dir.Data()) + AsBytes(e)
    ensures OthersSame(old(dir.fs.cache.view), dir.fs.cache.view, dir.fs.g, 0)
    ensures SameHead(old(dir.fs.cache.view), dir.fs.cache.view, dir.fs.g)
    ensures Free(dir.fs.cache.view, dir.fs.g) == old(Free(dir.fs.cache.view, dir.fs.g)) - old(dir.Needed(dir.Rec().size + 32))
  {
    hide BlockCacheManager.Valid, Inv, BitAt, OthersSame, SameHead, Contents;
    var node := dir.Open({});
    assert dir.fs.cache.held == {dir.blockId};
    var fileCount := node.size / 32;
    var n := dir.WriteLocked(fileCount * 32, AsBytes(e), node);
    WrittenAtEnd(old(dir.Data()), AsBytes(e));
    dir.fs.cache.Unlock(dir.blockId);
    assert dir.fs.cache.held == {};
    dir.fs.cache.SyncAll();
  }

  lemma WrittenAtEnd(s: seq<byte>, buf: seq<byte>)
    ensures Written(s, |s|, buf) == s + buf
  {
    assert buf == [] ==> s + buf == s;
  }

  /** How many blocks the next directory entry takes. */
  function EntryNeeds(entries: nat): int {
    TotalOf(DataBlocksOf(32 * entries + 32)) - TotalOf(DataBlocksOf(32 * entries))
  }

  /** Creates an empty file, unless there is one of that name. */
  method Create(dir: Inode, name: Name) returns (r: Option<Inode>)
    requires Steady(dir) && ValidName(name)
    requires name !in InodeOf(dir.fs.cache.view, dir.fs.g) ==>
               var entries := |Dir(dir.fs.cache.view, dir.fs.g)|;
               && entries + 1 < dir.fs.g.Inodes() && 32 * entries + 32 <= MAX_FILE_SIZE
               && EntryNeeds(entries) <= Free(dir.fs.cache.view, dir.fs.g)
    modifies dir.fs.cache
    ensures Steady(dir)
    ensures r.None? <==> name in InodeOf(old(dir.fs.cache.view), dir.fs.g)
    ensures r.None? ==> dir.fs.cache.view == old(dir.fs.cache.view) && dir.fs.cache.StaysSynced()
    ensures r.Some? ==>
              && r.value.fs == dir.fs && r.value.Wired()
              && Created(old(dir.fs.cache.view), dir.fs.cache.view, dir.fs.g, name, r.value.id)
              && dir.fs.cache.disk == dir.fs.cache.view
  {
    hide BlockCacheManager.Valid, Inv, BitAt, OthersSame, SameHead, Contents, RecAt, InodeOf, Dir, AllSame;
    var found := Lookup(dir, name);
    if found.Some? {
      return None;
    }
    ghost var d0, g := dir.fs.cache.view, dir.fs.g;
    RootInode(d0, g);
    FreeInodeExists(d0, g);
    var id := dir.fs.AllocInode();
    ghost var d1 := dir.fs.cache.view;
    var inode := new Inode(dir.fs, dir.fs.g.InodeBlock(id), dir.fs.g.InodeSlot(id), id);
    InitInode(inode, false);
    ghost var d2 := dir.fs.cache.view;
    AllocatedAndInitialized(d0, d1, d2, g, id);
    AppendEntry(dir, NewEntry(name, id));
    FileAdded(d0, d2, dir.fs.cache.view, g, name, id);
    r := Some(inode);
  }

  /** What creating a file does. */
  ghost predicate Created(d: seq<Block>, d': seq<Block>, g: Geometry, name: Name, id: nat) {
    && name !in InodeOf(d, g)
    && name in InodeOf(d', g) && InodeOf(d', g)[name] == id
    && (exists inodeNumber: u32 :: id == inodeNumber && |name| <= 28 && Dir(d', g) == Dir(d, g) + [NewEntry(name, inodeNumber)])
    && Files(d', g) == Files(d, g)[name := []]
    && Free(d', g) == Free(d, g) - EntryNeeds(|Dir(d, g)|)
  }

  lemma AllocatedAndInitialized(d: seq<Block>, d1: seq<Block>, d2: seq<Block>, g: Geometry, id: nat)
    requires Inv(d, g, {}) && DirOk(d, g) && id < g.Inodes() && !BitAt(d, 1, id)
    requires AllSame(d, d1, g) && |d1| == |d|
    requires forall j: nat :: BitAt(d1, 1, j) <==> j == id || BitAt(d, 1, j)
    requires OthersSame(d1, d2, g, id) && SameHead(d1, d2, g)
    ensures OthersSame(d, d2, g, id) && |d2| == |d|
    ensures forall i: nat :: i < g.Inodes() ==> (BitAt(d2, 1, i) <==> i == id || BitAt(d, 1, i))
    ensures BitAt(d2, 1, 0) && RecAt(d2, g, 0) == RecAt(d, g, 0)
    ensures Contents(d2, RecAt(d2, g, 0)) == Contents(d, RecAt(d, g, 0))
  {
    hide BitAt, Contents, RecAt, Own, Distinct, EntriesOk, InodesOk, BlocksOk, OwnersDisjoint, SpareBitsClear, FreeInodesEmpty;
    assert BitAt(d, 1, 0);
    forall i: nat | i < g.Inodes()
      ensures BitAt(d2, 1, i) <==> BitAt(d1, 1, i)
    {
      SameInodeBits(d1, d2, g, i);
    }
  }
}
