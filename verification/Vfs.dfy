/** Files: reading, writing and clearing one inode through the cache. */
module Vfs {
  import opened Bytes
  import opened Collections
  import opened BlockCache
  import opened Bitmaps
  import opened InodeTree
  import opened Layout
  import opened EfsState
  import opened EfsSteps
  import opened Efs

  /** File contents after buf has been written at offset: extended with zeros as far as needed, then overwritten. */
  function Written(s: seq<byte>, offset: nat, buf: seq<byte>): (t: seq<byte>)
    ensures |t| == if offset + |buf| > |s| then offset + |buf| else |s|
  {
    Splice(if offset + |buf| > |s| then s + Zeros(offset + |buf| - |s|) else s, offset, buf)
  }

  /** A handle on inode `id`, which it knows by the block and slot of its record. */
  class Inode {
    const fs: EasyFileSystem
    const blockId: nat
    const slot: nat
    ghost const id: nat

    constructor (fs: EasyFileSystem, blockId: nat, slot: nat, ghost id: nat)
      requires fs.Shaped() && id < fs.g.Inodes() && blockId == fs.g.InodeBlock(id) && slot == fs.g.InodeSlot(id)
      ensures this.fs == fs && this.id == id && Wired()
    {
      this.fs, this.blockId, this.slot, this.id := fs, blockId, slot, id;
    }

    ghost predicate Wired() {
      && fs.Shaped() && id < fs.g.Inodes()
      && blockId == fs.g.InodeBlock(id) && slot == fs.g.InodeSlot(id)
    }

    ghost function Rec(): InodeRec
      reads fs.cache
    {
      RecAt(fs.cache.view, fs.g, id)
    }

    /** The bytes of this file. */
    ghost function Data(): seq<byte>
      reads fs.cache
    {
      Contents(fs.cache.view, Rec())
    }

    ghost predicate Allocated()
      reads fs.cache
    {
      BitAt(fs.cache.view, 1, id)
    }

    /** Locks the inode's block and gives access to the inode in it. */
    method Open(ghost transit: set<nat>) returns (node: DiskInode)
      requires Wired() && fs.Ready(transit) && blockId !in fs.cache.held && |fs.cache.held| <= 1
      modifies fs.cache`queue, fs.cache`disk, fs.cache`held
      ensures fs.Ready(transit) && fs.cache.held == old(fs.cache.held) + {blockId}
      ensures fresh(node) && node.Rec() == Rec() && fs.cache.StaysSynced()
    {
      hide BlockCacheManager.Valid, InodesOk, OwnersDisjoint, BlocksOk, SpareBitsClear, FreeInodesEmpty;
      fs.g.InodeBlockInArea(id);
      var data := fs.cache.Lock(blockId);
      node := new DiskInode(DecodeInode(data, slot));
    }

    /** The inode's fields, changed in place in its locked block. */
    method Store(node: DiskInode)
      requires Wired() && fs.cache.Valid() && blockId in fs.cache.held && node.Rec().WellFormed()
      modifies fs.cache
      ensures fs.cache.Valid() && fs.cache.held == old(fs.cache.held)
      ensures blockId < |old(fs.cache.view)|
      ensures fs.cache.view == WithRec(old(fs.cache.view), fs.g, id, node.Rec())
    {
      hide BlockCacheManager.Valid;
      var data := fs.cache.Peek(blockId);
      var rec := node.Snapshot();
      fs.cache.Modify(blockId, EncodeInode(data, slot, rec));
    }

    /** How many blocks growing the file to newSize takes. */
    ghost function Needed(newSize: nat): int
      reads fs.cache
    {
      if newSize < Rec().size then 0 else TotalOf(DataBlocksOf(newSize)) - TotalOf(DataBlocksOf(Rec().size))
    }

    /** Grows the file, whose block is locked, to newSize; does nothing when it is larger already. */
    method IncreaseSize(newSize: u32, node: DiskInode)
      requires Wired() && fs.Ready({}) && fs.cache.held == {blockId} && Allocated()
      requires node.Rec() == Rec()
      requires newSize <= MAX_FILE_SIZE && Needed(newSize) <= Free(fs.cache.view, fs.g)
      modifies fs.cache, node
      ensures fs.Ready({}) && fs.cache.held == {blockId}
      ensures node.Rec() == Rec()
      ensures Rec().isDir == old(Rec().isDir)
      ensures Data() == old(Data()) + Zeros(if newSize < |old(Data())| then 0 else newSize - |old(Data())|)
      ensures OthersSame(old(fs.cache.view), fs.cache.view, fs.g, id)
      ensures SameHead(old(fs.cache.view), fs.cache.view, fs.g)
      ensures Free(fs.cache.view, fs.g) == old(Free(fs.cache.view, fs.g)) - old(Needed(newSize))
    {
      hide BlockCacheManager.Valid, Inv, BitAt;
      if newSize < node.size {
        assert Data() == old(Data()) + Zeros(0);
        return;
      }
      ghost var d0 := fs.cache.view;
      TotalMonotone(DataBlocksOf(node.size), DataBlocksOf(newSize));
      TotalMonotone(DataBlocksOf(newSize), MAX_DATA_BLOCKS);
      var v := AllocBlocks(TotalOf(DataBlocksOf(newSize)) - TotalOf(DataBlocksOf(node.size)));
      ghost var d := fs.cache.view;
      assert RecAt(d, fs.g, id) == RecAt(d0, fs.g, id);
      fs.ReadyBounds(AsSet(v));
      SameInodeBits(d0, d, fs.g, id);
      GrowBy(newSize, v, node);
    }

    /** Puts the blocks v, which are in transit, into the file. */
    method GrowBy(newSize: u32, v: seq<u32>, node: DiskInode)
      requires Wired() && fs.Ready(AsSet(v)) && fs.cache.held == {blockId} && Allocated()
      requires node.Rec() == Rec()
      requires Rec().size <= newSize <= MAX_FILE_SIZE
      requires |v| == TotalOf(DataBlocksOf(newSize)) - TotalOf(DataBlocksOf(Rec().size))
      requires NoDup(v) && forall b :: b in v ==> b < |fs.cache.view| && fs.cache.view[b] == ZERO_BLOCK
      modifies fs.cache, node
      ensures fs.Ready({}) && fs.cache.held == {blockId}
      ensures node.Rec() == Rec() && Rec().isDir == old(Rec().isDir)
      ensures Data() == old(Data()) + Zeros(newSize - |old(Data())|)
      ensures OthersSame(old(fs.cache.view), fs.cache.view, fs.g, id)
      ensures SameHead(old(fs.cache.view), fs.cache.view, fs.g)
      ensures Free(fs.cache.view, fs.g) == old(Free(fs.cache.view, fs.g))
    {
      hide BlockCacheManager.Valid, Inv, Tree, BitAt, CanCommit, OthersSame, SameHead, CanGrow, Contents, NoDup;
      hide SameOutside, IndexBlocks, TotalOf, Free, WithRec;
      ghost var d, own := fs.cache.view, Own(fs.cache.view, fs.g, id);
      TotalMonotone(DataBlocksOf(newSize), MAX_DATA_BLOCKS);
      TransitCanGrow(d, fs.g, id, v);
      GrowthAccessible(d, fs.g, id, v);
      node.IncreaseSize(newSize, v, fs.cache);
      GrowStep(d, fs.cache.view, fs.g, id, node.Rec(), v);
      StoreStep(d, fs.cache.view, fs.g, id, node.Rec(), own + v, AsSet(v), {});
      Store(node);
    }

    /** Takes n free data blocks, all zero. */
    method AllocBlocks(n: nat) returns (v: seq<u32>)
      requires Wired() && fs.Ready({}) && n <= Free(fs.cache.view, fs.g)
      modifies fs.cache
      ensures fs.Ready(AsSet(v)) && fs.cache.held == old(fs.cache.held)
      ensures |v| == n && NoDup(v)
      ensures forall b :: b in v ==> b < |fs.cache.view| && fs.cache.view[b] == ZERO_BLOCK
      ensures AllSame(old(fs.cache.view), fs.cache.view, fs.g) && SameHead(old(fs.cache.view), fs.cache.view, fs.g)
      ensures Free(fs.cache.view, fs.g) == old(Free(fs.cache.view, fs.g)) - n
    {
      hide BlockCacheManager.Valid, Inv, BitAt;
      v := [];
      assert AsSet(v) == {};
      while |v| < n
        invariant |v| <= n && fs.Ready(AsSet(v)) && fs.cache.held == old(fs.cache.held) && NoDup(v)
        invariant forall b :: b in v ==> b < |fs.cache.view| && fs.cache.view[b] == ZERO_BLOCK && b >= fs.g.DataStart()
        invariant AllSame(old(fs.cache.view), fs.cache.view, fs.g) && SameHead(old(fs.cache.view), fs.cache.view, fs.g)
        invariant Free(fs.cache.view, fs.g) == old(Free(fs.cache.view, fs.g)) - |v|
      {
        ghost var d := fs.cache.view;
        var r := fs.AllocData(AsSet(v));
        var b := r.value;
        assert AsSet(v + [b]) == AsSet(v) + {b};
        fs.ReadyBounds(AsSet(v + [b]));
        forall c | c in v
          ensures fs.cache.view[c] == ZERO_BLOCK
        {
          assert fs.cache.view[c] == d[c];
        }
        v := v + [b];
      }
    }

    /** A write of len bytes at offset stays on the device: it writes something, or starts where a block lookup is safe. */
    ghost predicate CanStartAt(offset: nat, len: nat)
      reads fs.cache
    {
      0 < len || offset < Rec().size || offset % 512 != 0 || SharesIndexBlock(offset / 512)
    }

    /** Grows the file, whose block is locked, as far as the write needs, and writes buf at offset. */
    method WriteLocked(offset: nat, buf: seq<byte>, node: DiskInode) returns (n: nat)
      requires Wired() && fs.Ready({}) && fs.cache.held == {blockId} && Allocated()
      requires node.Rec() == Rec()
      requires offset + |buf| <= MAX_FILE_SIZE && Needed(offset + |buf|) <= Free(fs.cache.view, fs.g)
      requires CanStartAt(offset, |buf|)
      modifies fs.cache, node
      ensures fs.Ready({}) && fs.cache.held == {blockId}
      ensures n == |buf| && Rec().isDir == old(Rec().isDir)
      ensures Data() == Written(old(Data()), offset, buf)
      ensures OthersSame(old(fs.cache.view), fs.cache.view, fs.g, id)
      ensures SameHead(old(fs.cache.view), fs.cache.view, fs.g)
      ensures Free(fs.cache.view, fs.g) == old(Free(fs.cache.view, fs.g)) - old(Needed(offset + |buf|))
    {
      hide BlockCacheManager.Valid, Inv, BitAt, OthersSame, SameHead, Contents;
      ghost var d0 := fs.cache.view;
      fs.ReadyBounds({});
      IncreaseSize(offset + |buf|, node);
      ghost var d1 := fs.cache.view;
      SameInodeBits(d0, d1, fs.g, id);
      n := Overwrite(offset, buf, node);
      OthersSameTrans(d0, d1, fs.cache.view, fs.g, id);
      SameHeadTrans(d0, d1, fs.cache.view, fs.g);
    }

    /** Writes buf at offset, which lies within the file. */
    method Overwrite(offset: nat, buf: seq<byte>, node: DiskInode) returns (n: nat)
      requires Wired() && fs.Ready({}) && fs.cache.held == {blockId} && Allocated()
      requires node.Rec() == Rec() && offset + |buf| <= Rec().size
      requires offset / 512 < DataBlocksOf(Rec().size) || SharesIndexBlock(offset / 512)
      modifies fs.cache, node
      ensures fs.Ready({}) && fs.cache.held == {blockId}
      ensures n == |buf| && Rec() == old(Rec())
      ensures Data() == Splice(old(Data()), offset, buf)
      ensures OthersSame(old(fs.cache.view), fs.cache.view, fs.g, id)
      ensures SameHead(old(fs.cache.view), fs.cache.view, fs.g)
      ensures Free(fs.cache.view, fs.g) == old(Free(fs.cache.view, fs.g))
    {
      hide BlockCacheManager.Valid, Inv, BitAt, OthersSame, SameHead, Contents, Tree, SameOutside, Overwritten, CanCommit, NoDup;
      ghost var d1, own := fs.cache.view, Own(fs.cache.view, fs.g, id);
      InodeAccessible(d1, fs.g, id, blockId);
      n := node.WriteAt(offset, buf, fs.cache);
      assert buf[..n] == buf;
      WriteStep(d1, fs.cache.view, fs.g, id, offset, buf);
      StoreStep(d1, fs.cache.view, fs.g, id, node.Rec(), own, {}, {});
      Store(node);
    }

    /** Reads from offset on as much as fits into buf, and returns how much that is. */
    method ReadAt(offset: nat, buf: array<byte>) returns (n: nat)
      requires Wired() && fs.Ready({}) && fs.cache.held == {}
      modifies buf, fs.cache`queue, fs.cache`disk, fs.cache`held
      ensures fs.Ready({}) && fs.cache.held == {} && fs.cache.StaysSynced()
      ensures n == if offset >= |Data()| then 0 else if offset + buf.Length <= |Data()| then buf.Length else |Data()| - offset
      ensures offset + n <= |Data()| || n == 0
      ensures buf[..n] == if n == 0 then [] else Data()[offset..offset + n]
      ensures buf[n..] == old(buf[n..])
    {
      hide BlockCacheManager.Valid, Inv, BitAt;
      var node := Open({});
      InodeAccessible(fs.cache.view, fs.g, id, blockId);
      n := node.ReadAt(offset, buf, fs.cache);
      fs.cache.Unlock(blockId);
      assert fs.cache.held == {};
    }

    /** Writes buf at offset, and everything to the device. */
    method WriteAt(offset: nat, buf: seq<byte>) returns (n: nat)
      requires Wired() && fs.Ready({}) && fs.cache.held == {} && Allocated()
      requires offset + |buf| <= MAX_FILE_SIZE && Needed(offset + |buf|) <= Free(fs.cache.view, fs.g)
      requires CanStartAt(offset, |buf|)
      modifies fs.cache
      ensures fs.Ready({}) && fs.cache.held == {} && fs.cache.disk == fs.cache.view
      ensures n == |buf| && Rec().isDir == old(Rec().isDir)
      ensures Data() == Written(old(Data()), offset, buf)
      ensures OthersSame(old(fs.cache.view), fs.cache.view, fs.g, id)
      ensures SameHead(old(fs.cache.view), fs.cache.view, fs.g)
      ensures Free(fs.cache.view, fs.g) == old(Free(fs.cache.view, fs.g)) - old(Needed(offset + |buf|))
    {
      hide BlockCacheManager.Valid, Inv, BitAt, OthersSame, SameHead, Contents;
      var node := Open({});
      assert fs.cache.held == {blockId};
      n := WriteLocked(offset, buf, node);
      fs.cache.Unlock(blockId);
      assert fs.cache.held == {};
      fs.cache.SyncAll();
    }

    /** Empties the file and frees its blocks, index blocks included. */
    method Clear()
      requires Wired() && fs.Ready({}) && fs.cache.held == {} && Allocated()
      modifies fs.cache
      ensures fs.Ready({}) && fs.cache.held == {} && fs.cache.disk == fs.cache.view
      ensures Data() == [] && Rec().isDir == old(Rec().isDir)
      ensures OthersSame(old(fs.cache.view), fs.cache.view, fs.g, id)
      ensures SameHead(old(fs.cache.view), fs.cache.view, fs.g)
      ensures Free(fs.cache.view, fs.g) == old(Free(fs.cache.view, fs.g)) + TotalOf(DataBlocksOf(old(Rec().size)))
    {
      hide BlockCacheManager.Valid, Inv, BitAt, OthersSame, SameHead, Contents, CanCommit, Tree, Owned, NoDup;
      ghost var d0 := fs.cache.view;
      var node := Open({});
      InodeAccessible(d0, fs.g, id, blockId);
      var size := node.size;
      var v := node.ClearSize(fs.cache);
      assert |v| == TotalOf(DataBlocksOf(size));
      ClearStep(d0, fs.g, id);
      StoreStep(d0, d0, fs.g, id, node.Rec(), [], {}, AsSet(v));
      Store(node);
      ghost var d1 := fs.cache.view;
      FreeBlocks(v);
      SameThenAllSame(d0, d1, fs.cache.view, fs.g, id);
      SameHeadTrans(d0, d1, fs.cache.view, fs.g);
      fs.cache.Unlock(blockId);
      assert fs.cache.held == {};
      fs.cache.SyncAll();
    }

    /** Frees the blocks v, which are in transit. */
    method FreeBlocks(v: seq<u32>)
      requires Wired() && fs.Ready(AsSet(v)) && NoDup(v)
      modifies fs.cache
      ensures fs.Ready({}) && fs.cache.held == old(fs.cache.held)
      ensures AllSame(old(fs.cache.view), fs.cache.view, fs.g) && SameHead(old(fs.cache.view), fs.cache.view, fs.g)
      ensures Free(fs.cache.view, fs.g) == old(Free(fs.cache.view, fs.g)) + |v|
    {
      hide BlockCacheManager.Valid, Inv, BitAt;
      var i := 0;
      assert v[0..] == v;
      while i < |v|
        invariant i <= |v| && fs.Ready(AsSet(v[i..])) && fs.cache.held == old(fs.cache.held)
        invariant AllSame(old(fs.cache.view), fs.cache.view, fs.g) && SameHead(old(fs.cache.view), fs.cache.view, fs.g)
        invariant Free(fs.cache.view, fs.g) == old(Free(fs.cache.view, fs.g)) + i
      {
        assert AsSet(v[i..]) - {v[i]} == AsSet(v[i + 1..]);
        fs.DeallocData(v[i], AsSet(v[i..]));
        i := i + 1;
      }
      assert AsSet(v[i..]) == {};
    }
  }

  lemma OthersSameTrans(d0: seq<Block>, d1: seq<Block>, d2: seq<Block>, g: Geometry, i: nat)
    requires OthersSame(d0, d1, g, i) && OthersSame(d1, d2, g, i)
    ensures OthersSame(d0, d2, g, i)
  {
  }

  lemma SameThenAllSame(d0: seq<Block>, d1: seq<Block>, d2: seq<Block>, g: Geometry, i: nat)
    requires OthersSame(d0, d1, g, i) && AllSame(d1, d2, g) && i < g.Inodes()
    ensures OthersSame(d0, d2, g, i)
    ensures RecAt(d2, g, i) == RecAt(d1, g, i) && Contents(d2, RecAt(d2, g, i)) == Contents(d1, RecAt(d1, g, i))
  {
  }

  lemma SameHeadTrans(d0: seq<Block>, d1: seq<Block>, d2: seq<Block>, g: Geometry)
    requires SameHead(d0, d1, g) && SameHead(d1, d2, g)
    ensures SameHead(d0, d2, g)
  {
  }

  /** The blocks of an inode can be locked while its own block is. */
  lemma InodeAccessible(d: seq<Block>, g: Geometry, i: nat, blockId: nat)
    requires Inv(d, g, {}) && i < g.Inodes() && blockId == g.InodeBlock(i)
    ensures RecAt(d, g, i).size <= MAX_FILE_SIZE
    ensures Tree(d, RecAt(d, g, i), Own(d, g, i)) && NoDup(Own(d, g, i))
    ensures forall k :: 0 <= k < |Own(d, g, i)| ==> Own(d, g, i)[k] < |d| && Own(d, g, i)[k] != blockId
    ensures 0 < |d| && blockId != 0
  {
    hide TailZero, BlocksOk, OwnersDisjoint, BitAt;
    g.InodeBlockInArea(i);
    assert InodeOk(d, g, i);
    forall k | 0 <= k < |Own(d, g, i)|
      ensures Own(d, g, i)[k] < |d| && Own(d, g, i)[k] != blockId
    {
      assert Own(d, g, i)[k] in Own(d, g, i);
    }
  }

  /** Blocks of inodes and blocks in transit are on the device and in the data area. */
  lemma GrowthAccessible(d: seq<Block>, g: Geometry, i: nat, v: seq<u32>)
    requires Inv(d, g, AsSet(v)) && i < g.Inodes()
    ensures forall k :: 0 <= k < |Own(d, g, i) + v| ==> (Own(d, g, i) + v)[k] < |d| && (Own(d, g, i) + v)[k] >= g.DataStart()
  {
    hide Tree, TailZero, BlocksOk, OwnersDisjoint, BitAt;
    var own := Own(d, g, i);
    assert InodeOk(d, g, i);
    forall k | 0 <= k < |own + v|
      ensures (own + v)[k] < |d| && (own + v)[k] >= g.DataStart()
    {
      assert (own + v)[k] in own || (own + v)[k] in AsSet(v);
    }
  }
}
