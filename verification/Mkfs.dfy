/** Making an empty file system on a device, and opening one. */
module Mkfs {
  import opened Bytes
  import opened Collections
  import opened BlockCache
  import opened Bitmaps
  import opened InodeTree
  import opened EfsState
  import opened EfsSteps
  import opened Efs
  import opened Vfs
  import opened Directory
  import opened FileSystem

  /** How the device is divided; None where there is no room for the inodes and the subtraction would underflow. */
  function Divide(totalBlocks: u32, inodeBitmapBlocks: u32): Option<Geometry> {
    var inodeAreaBlocks := (inodeBitmapBlocks * 4096 * 128 + 511) / 512;
    if totalBlocks < 1 + inodeBitmapBlocks + inodeAreaBlocks then None
    else
      var dataTotal := totalBlocks - 1 - (inodeBitmapBlocks + inodeAreaBlocks);
      var dataBitmapBlocks := (dataTotal + 4096) / 4097;
      Some(Geometry(inodeBitmapBlocks, inodeAreaBlocks, dataBitmapBlocks, dataTotal - dataBitmapBlocks))
  }

  /** The areas fill the device exactly, every data block has a bit, and less than one bitmap block of bits is spare. */
  lemma DivideFits(totalBlocks: u32, inodeBitmapBlocks: u32)
    requires Divide(totalBlocks, inodeBitmapBlocks).Some? && 0 < inodeBitmapBlocks <= 0x10_0000
    ensures var g := Divide(totalBlocks, inodeBitmapBlocks).value;
            && g.Valid() && g.Total() == totalBlocks
            && g.dataBitmapBlocks * 4096 - g.dataAreaBlocks <= 4096
  {
    var g := Divide(totalBlocks, inodeBitmapBlocks).value;
    assert g.inodeAreaBlocks == inodeBitmapBlocks * 1024;
    var dataTotal := totalBlocks - 1 - (inodeBitmapBlocks + g.inodeAreaBlocks);
    assert 4097 * g.dataBitmapBlocks >= dataTotal > 4097 * g.dataBitmapBlocks - 4097;
  }

  // ---------- the device after clearing

  /** Only the super block is not zero. */
  ghost predicate Blank(d: seq<Block>, g: Geometry) {
    && g.Valid() && g.Total() <= |d| && HoldsSuperBlock(d[0], g)
    && forall b :: 1 <= b < g.Total() ==> d[b] == ZERO_BLOCK
  }

  lemma BlankBit(d: seq<Block>, g: Geometry, start: nat, blocks: nat, k: nat)
    requires Blank(d, g) && 1 <= start && start + blocks <= g.Total() && k < blocks * 4096
    ensures !BitAt(d, start, k)
  {
    var (block, word, inner) := Decomposition(k);
    LongZeroBlock(word);
    ZeroBits(inner);
  }

  lemma BlankInode(d: seq<Block>, g: Geometry, i: nat)
    requires Blank(d, g) && i < g.Inodes()
    ensures RecAt(d, g, i).size == 0 && Own(d, g, i) == [] && InodeOk(d, g, i)
  {
    g.InodeBlockInArea(i);
    var r := RecAt(d, g, i);
    forall k: nat | k < 128
      ensures Word(d[g.InodeBlock(i)], k) == 0
    {
      WordZeroBlock(k);
    }
    EmptyTree(d, r);
  }

  /** A blank device is an empty file system without inodes. */
  lemma BlankInv(d: seq<Block>, g: Geometry)
    requires Blank(d, g)
    ensures Inv(d, g, {}) && Free(d, g) == g.dataAreaBlocks
    ensures forall i: nat :: i < g.Inodes() ==> !BitAt(d, 1, i)
  {
    hide BitAt, Tree, TailZero, RecAt, HoldsSuperBlock, InodeOk, Own;
    forall i: nat | i < g.Inodes()
      ensures InodeOk(d, g, i) && Own(d, g, i) == [] && RecAt(d, g, i).size == 0 && !BitAt(d, 1, i)
    {
      BlankInode(d, g, i);
      BlankBit(d, g, 1, g.inodeBitmapBlocks, i);
    }
    forall k: nat | k < g.dataBitmapBlocks * 4096
      ensures !BitAt(d, g.DataBitmapStart(), k)
    {
      BlankBit(d, g, g.DataBitmapStart(), g.dataBitmapBlocks, k);
    }
    assert Used(d, g) == {};
  }

  /** Once the root inode is there, the directory is empty. */
  lemma EmptyDirectory(d: seq<Block>, g: Geometry)
    requires RecAt(d, g, 0) == EmptyInode(true)
    requires forall i: nat :: i < g.Inodes() ==> (BitAt(d, 1, i) <==> i == 0)
    ensures DirOk(d, g) && Dir(d, g) == [] && Files(d, g) == map[]
  {
    hide BitAt;
    assert Contents(d, RecAt(d, g, 0)) == [];
    assert Dir(d, g) == [];
  }

  // ---------- operations

  /** EasyFileSystem::create: clears the device, writes the super block and makes the root directory. */
  method Format(cache: BlockCacheManager, totalBlocks: u32, inodeBitmapBlocks: u32) returns (dir: Inode)
    requires cache.Valid() && cache.held == {} && totalBlocks <= |cache.view|
    requires 0 < inodeBitmapBlocks <= 0x10_0000 && Divide(totalBlocks, inodeBitmapBlocks).Some?
    modifies cache
    ensures dir.fs.cache == cache && dir.fs.g == Divide(totalBlocks, inodeBitmapBlocks).value
    ensures Steady(dir) && cache.disk == cache.view
    ensures Abs(dir) == FsState(map[], [], dir.fs.g.dataAreaBlocks)
  {
    hide BlockCacheManager.Valid, Inv, BitAt, Blank, RecAt, AllSame, SameHead, OthersSame, Free, NameList, Dir, Files;
    DivideFits(totalBlocks, inodeBitmapBlocks);
    var g := Divide(totalBlocks, inodeBitmapBlocks).value;
    var fs := new EasyFileSystem(cache, g);
    ClearAll(cache, g);
    BlankInv(cache.view, g);
    MakeRoot(fs);
    dir := new Inode(fs, g.InodeBlock(0), g.InodeSlot(0), 0);
    cache.SyncAll();
  }

  /** Zeroes every block and writes the super block. */
  method ClearAll(cache: BlockCacheManager, g: Geometry)
    requires cache.Valid() && cache.held == {} && g.Valid() && g.Total() <= |cache.view|
    modifies cache
    ensures cache.Valid() && cache.held == {} && Blank(cache.view, g)
  {
    hide BlockCacheManager.Valid, Word, PutWords, SuperBlockWords;
    var i := 0;
    while i < g.Total()
      invariant i <= g.Total() && cache.Valid() && cache.held == {} && |cache.view| == |old(cache.view)|
      invariant forall b :: 0 <= b < i ==> cache.view[b] == ZERO_BLOCK
    {
      var data := cache.Lock(i);
      cache.Modify(i, ZERO_BLOCK);
      cache.Unlock(i);
      assert cache.held == {};
      i := i + 1;
    }
    var data := cache.Lock(0);
    WordsAfterPutWords(data, 0, SuperBlockWords(g));
    cache.Modify(0, PutWords(data, 0, SuperBlockWords(g)));
    cache.Unlock(0);
    assert cache.held == {};
  }

  /** Allocates inode 0, which it must be, for the root directory. */
  method MakeRoot(fs: EasyFileSystem)
    requires fs.Ready({}) && fs.cache.held == {} && Free(fs.cache.view, fs.g) == fs.g.dataAreaBlocks
    requires 0 < fs.g.Inodes() && forall i: nat :: i < fs.g.Inodes() ==> !BitAt(fs.cache.view, 1, i)
    modifies fs.cache
    ensures fs.Ready({}) && fs.cache.held == {} && DirOk(fs.cache.view, fs.g)
    ensures Dir(fs.cache.view, fs.g) == [] && Files(fs.cache.view, fs.g) == map[]
    ensures Free(fs.cache.view, fs.g) == fs.g.dataAreaBlocks
  {
    hide BlockCacheManager.Valid, Inv, BitAt, RecAt, AllSame, SameHead, OthersSame, Free, Dir, Files;
    ghost var d0 := fs.cache.view;
    assert !BitAt(d0, 1, 0);
    var id := fs.AllocInode();
    assert id == 0;
    ghost var d1 := fs.cache.view;
    var root := new Inode(fs, fs.g.InodeBlock(id), fs.g.InodeSlot(id), id);
    InitInode(root, true);
    RootBits(d1, fs.cache.view, fs.g);
    EmptyDirectory(fs.cache.view, fs.g);
  }

  lemma RootBits(d1: seq<Block>, d2: seq<Block>, g: Geometry)
    requires SameHead(d1, d2, g) && Inv(d2, g, {})
    ensures forall i: nat :: i < g.Inodes() ==> (BitAt(d2, 1, i) <==> BitAt(d1, 1, i))
  {
    hide BitAt, InodesOk, BlocksOk, OwnersDisjoint, SpareBitsClear, FreeInodesEmpty;
    forall i: nat | i < g.Inodes()
      ensures BitAt(d2, 1, i) <==> BitAt(d1, 1, i)
    {
      SameInodeBits(d1, d2, g, i);
    }
  }

  /** EasyFileSystem::open: refuses a device whose super block lacks the magic number. */
  method Open(cache: BlockCacheManager) returns (r: Option<EasyFileSystem>)
    requires cache.Valid() && cache.held == {} && 0 < |cache.view|
    modifies cache`queue, cache`disk, cache`held
    ensures cache.Valid() && cache.held == {}
    ensures r.Some? <==> Word(cache.view[0], 0) == EFS_MAGIC
    ensures r.Some? ==> r.value.cache == cache && r.value.Shaped()
    ensures r.Some? ==> forall g: Geometry :: HoldsSuperBlock(cache.view[0], g) ==> r.value.g == g
  {
    hide BlockCacheManager.Valid, Word;
    var data := cache.Read(0);
    if Word(data, 0) != EFS_MAGIC {
      return None;
    }
    var fs := new EasyFileSystem(cache, Geometry(Word(data, 2), Word(data, 3), Word(data, 4), Word(data, 5)));
    r := Some(fs);
    forall g: Geometry | HoldsSuperBlock(cache.view[0], g)
      ensures fs.g == g
    {
      assert forall k :: 0 <= k < 6 ==> Word(data, k) == SuperBlockWords(g)[k];
    }
  }

  /** A device written back by an earlier run is opened with the files that run left. */
  method Mount(device: seq<Block>, ghost g: Geometry) returns (dir: Inode)
    requires Inv(device, g, {}) && DirOk(device, g)
    ensures fresh(dir) && Steady(dir) && dir.fs.g == g && dir.fs.cache.view == device
    ensures Abs(dir) == FsState(Files(device, g), NameList(Dir(device, g)), Free(device, g))
  {
    hide BlockCacheManager.Valid, InodesOk, BlocksOk, OwnersDisjoint, SpareBitsClear, FreeInodesEmpty, Free, NameList, Dir, Files, DirOk;
    var cache := new BlockCacheManager(device);
    assert Word(device[0], 0) == SuperBlockWords(g)[0];
    var r := Open(cache);
    dir := new Inode(r.value, r.value.g.InodeBlock(0), r.value.g.InodeSlot(0), 0);
  }

  /** A run, after which the device is opened anew: the files are those that the run left. */
  method RunAndRemount(dir: Inode, ops: seq<Op>) returns (outs: seq<Outcome>, again: Inode)
    requires Steady(dir) && dir.fs.cache.disk == dir.fs.cache.view && AllEnabled(Abs(dir), dir.fs.g.Inodes(), ops)
    modifies dir.fs.cache
    ensures fresh(again) && Steady(again) && again.fs.g == dir.fs.g && again.fs.cache.view == dir.fs.cache.disk
    ensures Abs(again) == NextAll(old(Abs(dir)), ops)
    ensures |outs| == |ops| && forall k :: 0 <= k < |ops| ==> outs[k] == Result(NextAll(old(Abs(dir)), ops[..k]), ops[k])
  {
    hide NextAll, Result, Next, AllEnabled, BlockCacheManager.Valid, Inv, DirOk, Free, NameList, Dir, Files;
    outs := Run(dir, ops);
    again := Mount(dir.fs.cache.disk, dir.fs.g);
  }
}
