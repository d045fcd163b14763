/** The file system object: allocation and freeing of inodes and data blocks on the cached device. */
module Efs {
  import opened Bytes
  import opened Collections
  import opened BlockCache
  import opened Bitmaps
  import opened EfsState
  import opened EfsSteps

  class EasyFileSystem {
    const cache: BlockCacheManager
    const g: Geometry
    const inodeBitmap: Bitmap
    const dataBitmap: Bitmap

    constructor (cache: BlockCacheManager, g: Geometry)
      ensures this.cache == cache && this.g == g && Shaped()
    {
      this.cache, this.g := cache, g;
      inodeBitmap := new Bitmap(1, g.inodeBitmapBlocks);
      dataBitmap := new Bitmap(g.DataBitmapStart(), g.dataBitmapBlocks);
    }

    /** The bitmaps are those of the geometry. */
    ghost predicate Shaped() {
      && inodeBitmap.start == 1 && inodeBitmap.blocks == g.inodeBitmapBlocks
      && dataBitmap.start == g.DataBitmapStart() && dataBitmap.blocks == g.dataBitmapBlocks
    }

    /** The invariant holds, and of the device's blocks at most two inode blocks are held. */
    ghost predicate Ready(transit: set<nat>)
      reads cache
    {
      && Shaped() && cache.Valid() && Inv(cache.view, g, transit)
      && (forall b :: b in cache.held ==> g.InodeAreaStart() <= b < g.DataBitmapStart())
      && |cache.held| <= 2
    }

    /**
     * Takes the first free data block; it is zero, and now in transit. With no block free the answer is the block past
     * the data area, for which the bitmap has a spare bit, or none, where the original panics.
     */
    method AllocData(ghost transit: set<nat>) returns (r: Option<u32>)
      requires Ready(transit)
      modifies cache
      ensures cache.Valid() && cache.held == old(cache.held)
      ensures old(Free(cache.view, g)) > 0 <==> r.Some? && g.InDataArea(r.value)
      ensures old(Free(cache.view, g)) > 0 ==>
                && Ready(transit + {r.value}) && r.value !in transit && cache.view[r.value] == ZERO_BLOCK
                && AllSame(old(cache.view), cache.view, g) && SameHead(old(cache.view), cache.view, g)
                && (forall b: nat :: b < |cache.view| && g.DataStart() <= b ==> cache.view[b] == old(cache.view)[b])
                && Free(cache.view, g) == old(Free(cache.view, g)) - 1
                && (forall b: nat :: b < r.value - g.DataStart() ==> BitAt(old(cache.view), g.DataBitmapStart(), b))
      ensures old(Free(cache.view, g)) <= 0 ==>
                if g.dataAreaBlocks < g.dataBitmapBlocks * 4096
                then r == Some(g.Total()) && BitChanged(old(cache.view), cache.view, g.DataBitmapStart(), g.dataBitmapBlocks,
                                                        g.dataAreaBlocks, true)
                else r == None && cache.view == old(cache.view)
    {
      hide BlockCacheManager.Valid, Inv, BitAt, AllSame;
      ghost var d := cache.view;
      ReadyBounds(transit);
      var bit := dataBitmap.Alloc(cache);
      FirstFreeInArea(d, g, transit, bit);
      if bit.None? {
        return None;
      }
      if Free(d, g) > 0 {
        MarkUsed(d, cache.view, g, transit, bit.value);
        FreeBlockInArea(g, bit.value);
      }
      r := Some(g.DataStart() + bit.value);
    }

    /** What Ready says about the bitmaps' places. */
    lemma ReadyBounds(transit: set<nat>)
      requires Ready(transit)
      ensures inodeBitmap.Usable(cache) && dataBitmap.Usable(cache)
      ensures g.Valid() && g.Total() <= |cache.view|
    {
    }

    /** Zeroes a block in transit and frees it. */
    method DeallocData(id: u32, ghost transit: set<nat>)
      requires Ready(transit) && id in transit
      modifies cache
      ensures Ready(transit - {id}) && cache.held == old(cache.held)
      ensures AllSame(old(cache.view), cache.view, g) && SameHead(old(cache.view), cache.view, g)
      ensures Free(cache.view, g) == old(Free(cache.view, g)) + 1
    {
      hide BlockCacheManager.Valid, BitAt, AllSame, InodesOk, OwnersDisjoint, BlocksOk;
      ghost var d := cache.view;
      ReadyBounds(transit);
      InTransitMarked(d, g, transit, id);
      var data := cache.Lock(id);
      cache.Modify(id, ZERO_BLOCK);
      cache.Unlock(id);
      dataBitmap.Dealloc(cache, id - g.DataStart());
      ZeroAndFree(d, cache.view, g, transit, id);
    }

    /** Takes the first free inode. */
    method AllocInode() returns (id: nat)
      requires Ready({}) && (exists i: nat :: i < g.Inodes() && !BitAt(cache.view, 1, i))
      modifies cache
      ensures Ready({}) && cache.held == old(cache.held)
      ensures id < g.Inodes() && !BitAt(old(cache.view), 1, id)
      ensures forall j: nat :: j < id ==> BitAt(old(cache.view), 1, j)
      ensures AllSame(old(cache.view), cache.view, g)
      ensures forall j: nat :: BitAt(cache.view, 1, j) <==> j == id || BitAt(old(cache.view), 1, j)
      ensures |cache.view| == |old(cache.view)| && Free(cache.view, g) == old(Free(cache.view, g))
      ensures RecAt(cache.view, g, id).size == 0
    {
      hide BlockCacheManager.Valid, BitAt, AllSame, InodesOk, OwnersDisjoint, BlocksOk;
      ghost var d := cache.view;
      ReadyBounds({});
      var bit := inodeBitmap.Alloc(cache);
      assert bit.Some?;
      id := bit.value;
      MarkInodeUsed(d, cache.view, g, id);
    }
  }

  lemma FreeBlockInArea(g: Geometry, k: nat)
    requires g.Valid() && k < g.dataAreaBlocks
    ensures g.InDataArea(g.DataStart() + k) && g.DataStart() + k < 0x1_0000_0000
  {
  }

  /**
   * First fit finds a block of the data area exactly when one is free. Otherwise it takes the first spare bit, which
   * stands for no block, if the bitmap has one.
   */
  lemma FirstFreeInArea(d: seq<Block>, g: Geometry, transit: set<nat>, bit: Option<nat>)
    requires Inv(d, g, transit)
    requires bit.None? ==> FullBelow(d, g.DataBitmapStart(), g.dataBitmapBlocks * 4096)
    requires bit.Some? ==>
               && bit.value < g.dataBitmapBlocks * 4096
               && FullBelow(d, g.DataBitmapStart(), bit.value) && !BitAt(d, g.DataBitmapStart(), bit.value)
    ensures bit.Some? && bit.value < g.dataAreaBlocks <==> Free(d, g) > 0
    ensures Free(d, g) <= 0 ==> bit == if g.dataAreaBlocks < g.dataBitmapBlocks * 4096 then Some(g.dataAreaBlocks) else None
  {
    hide InodesOk, OwnersDisjoint, BlocksOk, BitAt;
    var n := g.dataBitmapBlocks * 4096;
    if Free(d, g) > 0 {
      FirstClearIsLow(d, g.DataBitmapStart(), n, if bit.Some? then bit.value else n, g.dataAreaBlocks);
    } else if bit.Some? && bit.value < g.dataAreaBlocks {
      var others := Range(g.dataAreaBlocks) - {bit.value};
      assert Used(d, g) <= others;
      SubsetSize(Used(d, g), others);
    } else if g.dataAreaBlocks < n {
      assert !BitAt(d, g.DataBitmapStart(), g.dataAreaBlocks);
    }
  }

  lemma InTransitMarked(d: seq<Block>, g: Geometry, transit: set<nat>, b: nat)
    requires Inv(d, g, transit) && b in transit
    ensures g.InDataArea(b) && b < |d| && BitAt(d[b := ZERO_BLOCK], g.DataBitmapStart(), b - g.DataStart())
    ensures b - g.DataStart() < g.dataBitmapBlocks * 4096
  {
    hide InodesOk, OwnersDisjoint, BitAt;
    assert BlockOk(d, g, transit, b);
    BitsAfterZeroing(d, g, b);
  }

  lemma MarkInodeUsed(d: seq<Block>, d': seq<Block>, g: Geometry, k: nat)
    requires Inv(d, g, {}) && k < g.Inodes() && !BitAt(d, 1, k)
    requires BitChanged(d, d', 1, g.inodeBitmapBlocks, k, true)
    ensures Inv(d', g, {}) && AllSame(d, d', g) && Free(d', g) == Free(d, g)
    ensures RecAt(d', g, k).size == 0
  {
    hide InodeOk, InodesOk, BitAt;
    var range := BlockRange(1, g.inodeBitmapBlocks);
    BitmapNotOwned(d, g, {});
    NoInodeTouched(d, d', g, {}, range);
    forall j: nat | j < g.dataBitmapBlocks * 4096
      ensures BitAt(d', g.DataBitmapStart(), j) == BitAt(d, g.DataBitmapStart(), j)
    {
      SameBits(d, d', g.DataBitmapStart(), g.dataBitmapBlocks, range, j);
    }
    assert Used(d', g) == Used(d, g);
    forall b: nat | g.InDataArea(b)
      ensures BlockOk(d', g, {}, b)
    {
      assert BlockOk(d, g, {}, b);
    }
  }
}
