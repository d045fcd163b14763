/** The on-disk inode and its methods: growing, clearing, reading and writing a file's blocks. */
module Layout {
  import opened Bytes
  import opened BlockCache
  import opened InodeTree

  /** What a method on an inode needs of the cache: the inode's blocks are on the device, and two more can be locked. */
  ghost predicate Accessible(cache: BlockCacheManager, own: seq<u32>)
    reads cache
  {
    && cache.Valid()
    && |cache.held| + 2 <= BLOCK_CACHE_SIZE
    && forall i :: 0 <= i < |own| ==> own[i] < |cache.view| && own[i] !in cache.held
  }

  class DiskInode {
    var size: u32
    var direct: seq<u32>
    var indirect1: u32
    var indirect2: u32
    var isDir: bool

    ghost function Rec(): InodeRec
      reads this
    {
      InodeRec(size, direct, indirect1, indirect2, isDir)
    }

    constructor (r: InodeRec)
      ensures Rec() == r
    {
      size, direct, indirect1, indirect2, isDir := r.size, r.direct, r.indirect1, r.indirect2, r.isDir;
    }

    method Snapshot() returns (r: InodeRec)
      ensures r == Rec()
    {
      r := InodeRec(size, direct, indirect1, indirect2, isDir);
    }

    /** Initializes an inode: empty, with no blocks. */
    method Initialize(directory: bool)
      modifies this
      ensures Rec() == EmptyInode(directory)
    {
      size, direct, indirect1, indirect2, isDir := 0, seq(28, _ => 0), 0, 0, directory;
    }

    /** Data block k of the file; or, just past its last block, 0 where that needs no new index block. */
    method GetBlockId(k: nat, cache: BlockCacheManager) returns (id: u32)
      requires Tree(cache.view, Rec(), Owned(cache.view, Rec())) && Accessible(cache, Owned(cache.view, Rec()))
      requires size <= MAX_FILE_SIZE
      requires k < DataBlocksOf(size) || (k == DataBlocksOf(size) && SharesIndexBlock(k))
      modifies cache`queue, cache`disk, cache`held
      ensures cache.Valid() && cache.held == old(cache.held) && cache.StaysSynced()
      ensures k < DataBlocksOf(size) ==> DataPos(k) < |Owned(cache.view, Rec())| && id == Owned(cache.view, Rec())[DataPos(k)]
      ensures k == DataBlocksOf(size) ==> id == 0
    {
      hide BlockCacheManager.Valid;
      if k == DataBlocksOf(size) {
        PastEndIsZero(cache.view, Rec(), Owned(cache.view, Rec()), k);
      }
      ghost var own := Owned(cache.view, Rec());
      LookupPath(cache.view, Rec(), k);
      if k < 28 {
        id := direct[k];
      } else if k < 156 {
        assert own[28] == indirect1;
        var b := cache.Read(indirect1);
        id := Word(b, k - 28);
      } else {
        assert own[157] == indirect2;
        var b2 := cache.Read(indirect2);
        var sub := Word(b2, (k - 156) / 128);
        assert own[SubPos(k)] == sub;
        var b1 := cache.Read(sub);
        id := Word(b1, (k - 156) % 128);
      }
    }

    /**
     * Grows the file to newSize, taking the blocks it needs from newBlocks in order: afterwards the
     * file's blocks are the old ones followed by exactly the new ones, and only its index blocks
     * have been written.
     */
    method IncreaseSize(newSize: u32, newBlocks: seq<u32>, cache: BlockCacheManager)
      requires size <= newSize <= MAX_FILE_SIZE
      requires CanGrow(cache.view, Rec(), Owned(cache.view, Rec()), newBlocks)
      requires Accessible(cache, Owned(cache.view, Rec()) + newBlocks)
      requires |newBlocks| == TotalOf(DataBlocksOf(newSize)) - TotalOf(DataBlocksOf(size))
      modifies this, cache
      ensures cache.Valid() && cache.held == old(cache.held)
      ensures size == newSize && isDir == old(isDir)
      ensures Owned(cache.view, Rec()) == old(Owned(cache.view, Rec())) + newBlocks
      ensures Tree(cache.view, Rec(), Owned(cache.view, Rec()))
      ensures SameOutside(old(cache.view), cache.view, IndexBlocks(Owned(cache.view, Rec())))
    {
      hide BlockCacheManager.Valid, Growing, CanGrow, Tree, SameOutside;
      ghost var d0, r0, own0 := cache.view, Rec(), Owned(cache.view, Rec());
      var current := DataBlocksOf(size);
      size := newSize;
      var total := DataBlocksOf(size);
      StartGrowing(d0, r0, Rec(), own0, newBlocks);
      var used: nat;
      current, used := FillDirect(current, total, newBlocks, cache, d0, r0, own0);
      if total > 28 {
        current, used := FillIndirect1(current - 28, total - 28, newBlocks, used, cache, d0, r0, own0);
        if total - 28 > 128 {
          used := FillIndirect2(current - 128, total - 156, newBlocks, used, cache, d0, r0, own0);
        }
      }
      EndGrowing(d0, own0, newBlocks, cache.view, Rec());
    }

    /** increase_size, first part: the direct pointers. */
    method FillDirect(start: nat, total: nat, newBlocks: seq<u32>, cache: BlockCacheManager,
                      ghost d0: seq<Block>, ghost r0: InodeRec, ghost own0: seq<u32>)
        returns (current: nat, used: nat)
      requires CanGrow(d0, r0, own0, newBlocks) && Growing(d0, own0, newBlocks, cache.view, Rec(), 0)
      requires start <= total && |own0| == TotalOf(start) && |own0| + |newBlocks| == TotalOf(total)
      modifies this`direct
      ensures Growing(d0, own0, newBlocks, cache.view, Rec(), used)
      ensures current == if start < 28 then (if total < 28 then total else 28) else start
      ensures |own0| + used == TotalOf(current)
    {
      current, used := start, 0;
      while current < total && current < 28
        invariant start <= current <= total && (start < 28 ==> current <= 28) && (start >= 28 ==> current == start)
        invariant used == current - start
        invariant Growing(d0, own0, newBlocks, cache.view, Rec(), used)
      {
        GrowingField(d0, r0, own0, newBlocks, cache.view, Rec(), used);
        direct := direct[current := newBlocks[used]];
        current, used := current + 1, used + 1;
      }
    }

    /** Second part, counting data blocks from 28: the single-indirect block. */
    method FillIndirect1(start: nat, total: nat, newBlocks: seq<u32>, startUsed: nat, cache: BlockCacheManager,
                         ghost d0: seq<Block>, ghost r0: InodeRec, ghost own0: seq<u32>)
        returns (current: nat, used: nat)
      requires CanGrow(d0, r0, own0, newBlocks) && Growing(d0, own0, newBlocks, cache.view, Rec(), startUsed)
      requires Accessible(cache, own0 + newBlocks) && |cache.view| == |d0|
      requires start <= total && 0 < total
      requires |own0| + startUsed == TotalOf(start + 28) && |own0| + |newBlocks| == TotalOf(total + 28)
      modifies this`indirect1, cache
      ensures cache.Valid() && cache.held == old(cache.held) && |cache.view| == |d0|
      ensures Growing(d0, own0, newBlocks, cache.view, Rec(), used)
      ensures current == if start < 128 then (if total < 128 then total else 128) else start
      ensures if current <= 128 then |own0| + used == 29 + current else used == startUsed
    {
      hide Growing, CanGrow, TotalOf, BlockCacheManager.Valid;
      current, used := start, startUsed;
      TotalIndirect(start);
      TotalIndirect(total);
      if current == 0 {
        GrowingField(d0, r0, own0, newBlocks, cache.view, Rec(), used);
        indirect1 := newBlocks[used];
        used := used + 1;
      }
      GrowingAt(d0, own0, newBlocks, cache.view, Rec(), used, 28);
      assert (own0 + newBlocks)[28] == indirect1;
      ghost var id := indirect1;
      var b1 := cache.Lock(indirect1);
      assert cache.view[indirect1 := b1] == cache.view;
      while current < total && current < 128
        invariant start <= current <= total && (start < 128 ==> current <= 128) && (start >= 128 ==> current == start)
        invariant if current <= 128 then |own0| + used == 29 + current else used == startUsed
        invariant cache.Valid() && cache.held == old(cache.held) + {id} && indirect1 == id < |cache.view| == |d0|
        invariant Growing(d0, own0, newBlocks, cache.view[indirect1 := b1], Rec(), used)
      {
        ghost var d := cache.view[indirect1 := b1];
        GrowingIndirect1(d0, r0, own0, newBlocks, d, Rec(), used, current);
        b1 := SetWord(b1, current, newBlocks[used]);
        assert d[indirect1 := b1] == cache.view[indirect1 := b1];
        current, used := current + 1, used + 1;
      }
      cache.Modify(indirect1, b1);
      cache.Unlock(indirect1);
      assert cache.held == old(cache.held);
    }

    /** Last part, counting data blocks from 156: the double-indirect block and its sub-blocks. */
    method FillIndirect2(start: nat, total: nat, newBlocks: seq<u32>, startUsed: nat, cache: BlockCacheManager,
                         ghost d0: seq<Block>, ghost r0: InodeRec, ghost own0: seq<u32>)
        returns (used: nat)
      requires CanGrow(d0, r0, own0, newBlocks) && Growing(d0, own0, newBlocks, cache.view, Rec(), startUsed)
      requires Accessible(cache, own0 + newBlocks) && |cache.view| == |d0|
      requires start <= total && 0 < total <= 128 * 128
      requires |own0| + startUsed == TotalOf(start + 156) && |own0| + |newBlocks| == TotalOf(total + 156)
      modifies this`indirect2, cache
      ensures cache.Valid() && cache.held == old(cache.held)
      ensures Growing(d0, own0, newBlocks, cache.view, Rec(), |newBlocks|) && used == |newBlocks|
    {
      hide Growing, CanGrow, TotalOf, BlockCacheManager.Valid, Word, SetWord;
      used := startUsed;
      TotalDouble(start);
      TotalDouble(total);
      if start == 0 {
        GrowingField(d0, r0, own0, newBlocks, cache.view, Rec(), used);
        indirect2 := newBlocks[used];
        used := used + 1;
      }
      var a0: nat, b0: nat := start / 128, start % 128;
      var a1, b1 := total / 128, total % 128;
      GrowingAt(d0, own0, newBlocks, cache.view, Rec(), used, 157);
      assert (own0 + newBlocks)[157] == indirect2;
      ghost var id := indirect2;
      var data2 := cache.Lock(indirect2);
      assert cache.view[indirect2 := data2] == cache.view;
      while a0 < a1 || (a0 == a1 && b0 < b1)
        invariant cache.Valid() && cache.held == old(cache.held) + {id} && indirect2 == id < |cache.view| == |d0|
        invariant b0 < 128 && 128 * a0 + b0 <= total
        invariant |own0| + used == 158 + 129 * a0 + (if b0 == 0 then 0 else b0 + 1)
        invariant Growing(d0, own0, newBlocks, cache.view[indirect2 := data2], Rec(), used)
        decreases total - (128 * a0 + b0)
      {
        PositionBefore(a0, b0, total);
        if b0 == 0 {
          ghost var d := cache.view[indirect2 := data2];
          GrowingSubBlock(d0, r0, own0, newBlocks, d, Rec(), used, a0);
          data2 := SetWord(data2, a0, newBlocks[used]);
          assert d[indirect2 := data2] == cache.view[indirect2 := data2];
          used := used + 1;
        }
        FillSubEntry(a0, b0, data2, newBlocks, used, cache, d0, r0, own0);
        used := used + 1;
        b0 := b0 + 1;
        if b0 == 128 {
          a0, b0 := a0 + 1, 0;
        }
      }
      cache.Modify(indirect2, data2);
      cache.Unlock(indirect2);
      assert cache.held == old(cache.held);
    }

    /** The next new block becomes entry b0 of sub-block a0. */
    method FillSubEntry(a0: nat, b0: nat, data2: Block, newBlocks: seq<u32>, used: nat, cache: BlockCacheManager,
                        ghost d0: seq<Block>, ghost r0: InodeRec, ghost own0: seq<u32>)
      requires cache.Valid() && indirect2 in cache.held && |cache.held| < BLOCK_CACHE_SIZE
      requires forall i :: 0 <= i < |own0 + newBlocks| ==> (own0 + newBlocks)[i] !in cache.held - {indirect2}
      requires indirect2 < |cache.view| == |d0| && CanGrow(d0, r0, own0, newBlocks)
      requires Growing(d0, own0, newBlocks, cache.view[indirect2 := data2], Rec(), used) && used < |newBlocks|
      requires |own0| + used == 158 + 129 * a0 + 1 + b0 && a0 < 128 && b0 < 128
      modifies cache
      ensures cache.Valid() && cache.held == old(cache.held) && |cache.view| == |d0|
      ensures Growing(d0, own0, newBlocks, cache.view[indirect2 := data2], Rec(), used + 1)
    {
      hide Growing, CanGrow, BlockCacheManager.Valid;
      ghost var d := cache.view[indirect2 := data2];
      GrowingSubEntry(d0, r0, own0, newBlocks, d, Rec(), used, a0, b0);
      var sub := Word(data2, a0);
      var data1 := cache.Lock(sub);
      var after := SetWord(data1, b0, newBlocks[used]);
      cache.Modify(sub, after);
      assert d[sub := after] == cache.view[indirect2 := data2];
      cache.Unlock(sub);
      assert cache.held == old(cache.held);
    }

    /**
     * Empties the file and returns its blocks, all of them and in the order in which they were added.
     * No block's bytes change.
     */
    method ClearSize(cache: BlockCacheManager) returns (v: seq<u32>)
      requires size <= MAX_FILE_SIZE
      requires Tree(cache.view, Rec(), Owned(cache.view, Rec())) && Accessible(cache, Owned(cache.view, Rec()))
      modifies this, cache
      ensures cache.Valid() && cache.held == old(cache.held) && cache.view == old(cache.view)
      ensures v == old(Owned(cache.view, Rec()))
      ensures Rec() == EmptyInode(old(isDir))
    {
      ghost var d, r0, own := cache.view, Rec(), Owned(cache.view, Rec());
      var n := DataBlocksOf(size);
      size := 0;
      ClearedFields(d, r0, own, n);
      v := ClearDirect(n, d, r0);
      if n > 28 {
        v := v + [indirect1];
        assert own[28] == r0.indirect1;
        v := ListIndirect1(v, n - 28, cache, d, r0);
        indirect1 := 0;
        if n - 28 > 128 {
          v := v + [indirect2];
          assert own[157] == r0.indirect2;
          v := ListIndirect2(v, n - 156, cache, d, r0);
          indirect2 := 0;
        }
      }
      assert |v| == TotalOf(n);
    }

    /** clear_size, first part: lists and zeroes the direct pointers. */
    method ClearDirect(n: nat, ghost d: seq<Block>, ghost r0: InodeRec) returns (v: seq<u32>)
      requires direct == r0.direct && r0.WellFormed()
      requires forall i :: n <= i < 28 ==> direct[i] == 0
      modifies this`direct
      ensures v == Pointers(d, r0, if n < 28 then n else 28)
      ensures direct == seq(28, _ => 0)
    {
      v := [];
      var current := 0;
      while current < n && current < 28
        invariant current <= n && current <= 28 && v == Pointers(d, r0, current)
        invariant |direct| == 28
        invariant forall i :: 0 <= i < 28 ==> direct[i] == if i < current then 0 else r0.direct[i]
      {
        v := v + [direct[current]];
        ListPointer(d, r0, current);
        direct := direct[current := 0];
        current := current + 1;
      }
    }

    /** Lists the first n entries of the single-indirect block. */
    method ListIndirect1(start: seq<u32>, n: nat, cache: BlockCacheManager, ghost d: seq<Block>, ghost r0: InodeRec)
        returns (v: seq<u32>)
      requires cache.Valid() && cache.view == d && |cache.held| + 2 <= BLOCK_CACHE_SIZE
      requires indirect1 == r0.indirect1 < |d| && indirect1 !in cache.held
      requires start == Pointers(d, r0, 29)
      modifies cache
      ensures cache.Valid() && cache.view == d && cache.held == old(cache.held)
      ensures v == Pointers(d, r0, 29 + (if n < 128 then n else 128))
    {
      hide BlockCacheManager.Valid;
      v := start;
      var data := cache.Lock(indirect1);
      var current := 0;
      while current < n && current < 128
        invariant current <= n && current <= 128 && v == Pointers(d, r0, 29 + current)
        invariant cache.Valid() && cache.view == d && cache.held == old(cache.held) + {r0.indirect1} && indirect1 == r0.indirect1
      {
        v := v + [Word(data, current)];
        assert Ptr(d, r0, 29 + current) == Entry(d, r0.indirect1, current);
        ListPointer(d, r0, 29 + current);
        current := current + 1;
      }
      cache.Modify(indirect1, data);
      cache.Unlock(indirect1);
      assert cache.held == old(cache.held);
    }

    /** Lists the sub-blocks of the double-indirect block and the n data blocks below them. */
    method ListIndirect2(start: seq<u32>, n: nat, cache: BlockCacheManager, ghost d: seq<Block>, ghost r0: InodeRec)
        returns (v: seq<u32>)
      requires cache.Valid() && cache.view == d && |cache.held| + 2 <= BLOCK_CACHE_SIZE
      requires indirect2 == r0.indirect2 < |d| && indirect2 !in cache.held
      requires 0 < n <= 128 * 128
      requires forall a: nat {:trigger Entry(d, r0.indirect2, a)} :: 128 * a < n ==>
                 var sub := Entry(d, r0.indirect2, a); sub < |d| && sub !in cache.held && sub != r0.indirect2
      requires start == Pointers(d, r0, 158)
      modifies cache
      ensures cache.Valid() && cache.view == d && cache.held == old(cache.held)
      ensures v == Pointers(d, r0, TotalOf(n + 156))
    {
      hide BlockCacheManager.Valid;
      v := start;
      var a1, b1 := n / 128, n % 128;
      ghost var id := indirect2;
      var data := cache.Lock(indirect2);
      var a := 0;
      while a < a1
        invariant a <= a1 && v == Pointers(d, r0, 158 + 129 * a)
        invariant cache.Valid() && cache.view == d && cache.held == old(cache.held) + {id} && indirect2 == id
      {
        assert Word(data, a) == Entry(d, r0.indirect2, a);
        v := ListSub(v, a, Word(data, a), 128, cache, d, r0);
        a := a + 1;
      }
      if b1 > 0 {
        assert Word(data, a1) == Entry(d, r0.indirect2, a1);
        v := ListSub(v, a1, Word(data, a1), b1, cache, d, r0);
      }
      TotalDouble(n);
      cache.Modify(indirect2, data);
      cache.Unlock(indirect2);
      assert cache.held == old(cache.held);
    }

    /** Lists sub-block a, whose id is sub, and its first n entries. */
    method ListSub(start: seq<u32>, a: nat, sub: u32, n: nat, cache: BlockCacheManager,
                   ghost d: seq<Block>, ghost r0: InodeRec)
        returns (v: seq<u32>)
      requires cache.Valid() && cache.view == d && |cache.held| < BLOCK_CACHE_SIZE
      requires sub == Entry(d, r0.indirect2, a) && sub < |d| && sub !in cache.held
      requires start == Pointers(d, r0, 158 + 129 * a) && n <= 128
      modifies cache
      ensures cache.Valid() && cache.view == d && cache.held == old(cache.held)
      ensures v == Pointers(d, r0, 158 + 129 * a + 1 + n)
    {
      hide BlockCacheManager.Valid, Ptr, Word;
      ListSubEntry(d, r0, a, 0);
      ListPointer(d, r0, 158 + 129 * a);
      v := start + [sub];
      var data := cache.Lock(sub);
      var b := 0;
      while b < n
        invariant b <= n && v == Pointers(d, r0, 158 + 129 * a + 1 + b)
        invariant cache.Valid() && cache.view == d && cache.held == old(cache.held) + {sub}
      {
        ListSubEntry(d, r0, a, b);
        ListPointer(d, r0, 158 + 129 * a + 1 + b);
        v := v + [Word(data, b)];
        b := b + 1;
      }
      cache.Modify(sub, data);
      cache.Unlock(sub);
      assert cache.held == old(cache.held);
    }

    /** Reads as much of buf as the file has from offset on, and returns how much that is. */
    method ReadAt(offset: nat, buf: array<byte>, cache: BlockCacheManager) returns (n: nat)
      requires size <= MAX_FILE_SIZE
      requires Tree(cache.view, Rec(), Owned(cache.view, Rec())) && Accessible(cache, Owned(cache.view, Rec()))
      modifies buf, cache`queue, cache`disk, cache`held
      ensures cache.Valid() && cache.held == old(cache.held) && cache.StaysSynced()
      ensures n == if offset >= size then 0 else if offset + buf.Length <= size then buf.Length else size - offset
      ensures offset + n <= size || n == 0
      ensures forall i :: 0 <= i < n ==> buf[i] == Contents(cache.view, Rec())[offset + i]
      ensures forall i :: n <= i < buf.Length ==> buf[i] == old(buf[i])
    {
      hide BlockCacheManager.Valid, Tree, FileByte, DataBlocksOf;
      var start := offset;
      var end := if offset + buf.Length <= size then offset + buf.Length else size;
      n := 0;
      if start >= end {
        return;
      }
      ghost var own := Owned(cache.view, Rec());
      while true
        invariant cache.Valid() && cache.held == old(cache.held) && cache.StaysSynced()
        invariant start == offset + n < end
        invariant forall i :: 0 <= i < n ==> buf[i] == FileByte(cache.view, own, offset + i)
        invariant forall i :: n <= i < buf.Length ==> buf[i] == old(buf[i])
        decreases end - start
      {
        var endBlock := (start / 512 + 1) * 512;
        if endBlock > end {
          endBlock := end;
        }
        ReadBlock(start, endBlock - start, buf, n, cache);
        n := n + (endBlock - start);
        if endBlock == end {
          break;
        }
        start := endBlock;
      }
    }

    /** Copies the count bytes from `start` on, which lie in one block of the file, to position n of buf. */
    method ReadBlock(start: nat, count: nat, buf: array<byte>, n: nat, cache: BlockCacheManager)
      requires Tree(cache.view, Rec(), Owned(cache.view, Rec())) && Accessible(cache, Owned(cache.view, Rec()))
      requires size <= MAX_FILE_SIZE
      requires start < size && start % 512 + count <= 512 && n + count <= buf.Length
      modifies buf, cache`queue, cache`disk, cache`held
      ensures cache.Valid() && cache.held == old(cache.held) && cache.StaysSynced()
      ensures forall i :: 0 <= i < buf.Length ==>
                buf[i] == if n <= i < n + count then FileByte(cache.view, Owned(cache.view, Rec()), start + (i - n)) else old(buf[i])
    {
      hide BlockCacheManager.Valid;
      ghost var own := Owned(cache.view, Rec());
      InFile(cache.view, Rec(), start);
      assert own[DataPos(start / 512)] < |cache.view| && own[DataPos(start / 512)] !in cache.held;
      var id := GetBlockId(start / 512, cache);
      BlockBytes(cache.view, own, start, count);
      var data := cache.Read(id);
      forall i | 0 <= i < count {
        buf[n + i] := data[start % 512 + i];
      }
    }

    /**
     * Writes buf at offset, up to the file's size, and returns how many bytes that is. With nothing to
     * write it still looks up the block at offset, and then touches the super block if there is none.
     */
    method WriteAt(offset: nat, buf: seq<byte>, cache: BlockCacheManager) returns (n: nat)
      requires size <= MAX_FILE_SIZE
      requires Tree(cache.view, Rec(), Owned(cache.view, Rec())) && Accessible(cache, Owned(cache.view, Rec()))
      requires offset <= size && (offset / 512 < DataBlocksOf(size) || SharesIndexBlock(offset / 512))
      requires 0 < |cache.view| && 0 !in cache.held
      modifies cache
      ensures cache.Valid() && cache.held == old(cache.held)
      ensures n == if offset + |buf| <= size then |buf| else size - offset
      ensures Owned(cache.view, Rec()) == old(Owned(cache.view, Rec()))
      ensures Tree(cache.view, Rec(), Owned(cache.view, Rec()))
      ensures SameOutside(old(cache.view), cache.view, DataBlockSet(Owned(cache.view, Rec())))
      ensures Overwritten(old(cache.view), cache.view, Owned(cache.view, Rec()), offset, buf[..n])
    {
      hide BlockCacheManager.Valid, Tree, FileByte, SameOutside, DataBlockSet;
      var start := offset;
      var end := if offset + |buf| <= size then offset + |buf| else size;
      n := 0;
      ghost var own, d0 := Owned(cache.view, Rec()), cache.view;
      SameOutsideRefl(d0, DataBlockSet(own));
      while true
        invariant cache.Valid() && cache.held == old(cache.held)
        invariant start == offset + n <= end && n <= |buf| && |cache.view| == |d0|
        invariant start / 512 < DataBlocksOf(size) || (start == end && start / 512 == DataBlocksOf(size) && SharesIndexBlock(start / 512))
        invariant Rec() == old(Rec())
        invariant Owned(cache.view, Rec()) == own && Tree(cache.view, Rec(), own)
        invariant SameOutside(d0, cache.view, DataBlockSet(own))
        invariant Overwritten(d0, cache.view, own, offset, buf[..n])
        decreases end - start
      {
        var endBlock := (start / 512 + 1) * 512;
        if endBlock > end {
          endBlock := end;
        }
        var count := endBlock - start;
        ghost var d := cache.view;
        SameOutsideLength(d0, d, DataBlockSet(own));
        WriteBlock(start, buf[n..n + count], cache);
        SameOutsideTrans(d0, d, cache.view, DataBlockSet(own));
        OverwrittenTrans(d0, d, cache.view, own, offset, buf[..n], buf[n..n + count]);
        assert buf[..n] + buf[n..n + count] == buf[..n + count];
        n := n + count;
        if endBlock == end {
          break;
        }
        start := endBlock;
      }
    }

    /** Writes piece at `start`; it fits in one block of the file. */
    method WriteBlock(start: nat, piece: seq<byte>, cache: BlockCacheManager)
      requires Tree(cache.view, Rec(), Owned(cache.view, Rec())) && Accessible(cache, Owned(cache.view, Rec()))
      requires size <= MAX_FILE_SIZE
      requires start / 512 < DataBlocksOf(size)
               || (piece == [] && start / 512 == DataBlocksOf(size) && SharesIndexBlock(start / 512))
      requires start % 512 + |piece| <= 512
      requires 0 < |cache.view| && 0 !in cache.held
      modifies cache
      ensures cache.Valid() && cache.held == old(cache.held)
      ensures Owned(cache.view, Rec()) == old(Owned(cache.view, Rec()))
      ensures Tree(cache.view, Rec(), Owned(cache.view, Rec()))
      ensures SameOutside(old(cache.view), cache.view, DataBlockSet(Owned(cache.view, Rec())))
      ensures Overwritten(old(cache.view), cache.view, Owned(cache.view, Rec()), start, piece)
    {
      hide BlockCacheManager.Valid, Tree, SameOutside, DataBlockSet, FileByte, Overwritten, Word;
      ghost var own, r := Owned(cache.view, Rec()), Rec();
      ghost var d := cache.view;
      LookupPath(d, r, start / 512);
      if start / 512 < DataBlocksOf(size) {
        assert own[DataPos(start / 512)] < |d| && own[DataPos(start / 512)] !in cache.held;
        BlockOverwritten(d, r, own, start, piece);
      } else {
        NothingWritten(d, r, own, start);
      }
      var id := GetBlockId(start / 512, cache);
      var data := cache.Lock(id);
      cache.Modify(id, Splice(data, start % 512, piece));
      cache.Unlock(id);
      assert cache.held == old(cache.held);
    }
  }

  /** Overwriting part of one data block overwrites that part of the file. */
  lemma BlockOverwritten(d: seq<Block>, r: InodeRec, own: seq<u32>, start: nat, piece: seq<byte>)
    requires Tree(d, r, own) && DataPos(start / 512) < |own| && own == Owned(d, r) && start % 512 + |piece| <= 512
    ensures own[DataPos(start / 512)] < |d|
    ensures var b := own[DataPos(start / 512)];
            var d' := d[b := Splice(d[b], start % 512, piece)];
            && Tree(d', r, own) && Owned(d', r) == own
            && SameOutside(d, d', DataBlockSet(own)) && Overwritten(d, d', own, start, piece)
  {
    WriteDataBlock(d, r, own, start / 512, start % 512, piece);
  }

  /** Writing nothing past the end touches the super block and changes nothing. */
  lemma NothingWritten(d: seq<Block>, r: InodeRec, own: seq<u32>, start: nat)
    requires Tree(d, r, own) && 0 < |d|
    ensures d[0 := Splice(d[0], start % 512, [])] == d
    ensures SameOutside(d, d, DataBlockSet(own)) && Overwritten(d, d, own, start, [])
  {
    assert Splice(d[0], start % 512, []) == d[0];
  }

  /** Between d and d' the file with blocks own changed as if patch had been copied over its bytes at offset. */
  ghost predicate Overwritten(d: seq<Block>, d': seq<Block>, own: seq<u32>, offset: nat, patch: seq<byte>) {
    forall k: nat :: FileByte(d', own, k) ==
      if offset <= k < offset + |patch| then patch[k - offset] else FileByte(d, own, k)
  }

  lemma OverwrittenTrans(d0: seq<Block>, d1: seq<Block>, d2: seq<Block>, own: seq<u32>, offset: nat,
                         patch1: seq<byte>, patch2: seq<byte>)
    requires Overwritten(d0, d1, own, offset, patch1)
    requires Overwritten(d1, d2, own, offset + |patch1|, patch2)
    ensures Overwritten(d0, d2, own, offset, patch1 + patch2)
  {
    hide FileByte;
  }

  lemma SameOutsideRefl(d: seq<Block>, changed: set<nat>)
    ensures SameOutside(d, d, changed)
  {
  }

  lemma SameOutsideLength(d: seq<Block>, d': seq<Block>, changed: set<nat>)
    requires SameOutside(d, d', changed)
    ensures |d'| == |d|
  {
  }

  lemma SameOutsideTrans(d0: seq<Block>, d1: seq<Block>, d2: seq<Block>, changed: set<nat>)
    requires SameOutside(d0, d1, changed) && SameOutside(d1, d2, changed)
    ensures SameOutside(d0, d2, changed)
  {
  }

  /** A byte below the file's size lies in one of its blocks. */
  lemma InFile(d: seq<Block>, r: InodeRec, k: nat)
    requires k < r.size
    ensures k / 512 < DataBlocksOf(r.size)
    ensures DataPos(k / 512) < |Owned(d, r)|
  {
    DataPosIsLast(k / 512);
    TotalMonotone(k / 512 + 1, DataBlocksOf(r.size));
  }

  lemma BlockBytes(d: seq<Block>, own: seq<u32>, start: nat, count: nat)
    requires start % 512 + count <= 512
    requires DataPos(start / 512) < |own| && own[DataPos(start / 512)] < |d|
    ensures forall k: nat {:trigger FileByte(d, own, k)} :: start <= k < start + count ==>
              FileByte(d, own, k) == d[own[DataPos(start / 512)]][start % 512 + (k - start)]
  {
    forall k: nat | start <= k < start + count
      ensures FileByte(d, own, k) == d[own[DataPos(start / 512)]][start % 512 + (k - start)]
    {
      assert k / 512 == start / 512 && k % 512 == start % 512 + (k - start);
    }
  }

  /** What clear_size may rely on: pointers past the file's blocks are zero already. */
  lemma ClearedFields(d: seq<Block>, r: InodeRec, own: seq<u32>, n: nat)
    requires Tree(d, r, own) && |own| == TotalOf(n)
    ensures forall i :: n <= i < 28 ==> r.direct[i] == 0
    ensures n <= 28 ==> r.indirect1 == 0
    ensures n <= 156 ==> r.indirect2 == 0
    ensures forall a: nat {:trigger Entry(d, r.indirect2, a)} :: n > 156 && 128 * a < n - 156 ==>
              && 158 + 129 * a < |own| && Entry(d, r.indirect2, a) == own[158 + 129 * a]
              && own[158 + 129 * a] != own[157]
  {
    forall i | n <= i < 28
      ensures r.direct[i] == 0
    {
      assert Ptr(d, r, i) == 0;
    }
    assert n <= 28 ==> Ptr(d, r, 28) == 0;
    assert n <= 156 ==> Ptr(d, r, 157) == 0;
    forall a: nat | n > 156 && 128 * a < n - 156
      ensures 158 + 129 * a < |own| && Entry(d, r.indirect2, a) == own[158 + 129 * a]
      ensures own[158 + 129 * a] != own[157]
    {
      TotalDouble(n - 156);
      assert (n - 156) / 128 >= a;
      ListSubEntry(d, r, a, 0);
      assert Pointers(d, r, |own|)[158 + 129 * a] == own[158 + 129 * a];
    }
  }

  lemma StartGrowing(d: seq<Block>, r: InodeRec, r': InodeRec, own: seq<u32>, newBlocks: seq<u32>)
    requires CanGrow(d, r, own, newBlocks)
    requires r'.direct == r.direct && r'.indirect1 == r.indirect1 && r'.indirect2 == r.indirect2
    ensures Growing(d, own, newBlocks, d, r', 0)
  {
    TreeSize(d, r, r', own);
    assert own + newBlocks[..0] == own;
  }

  lemma EndGrowing(d0: seq<Block>, own0: seq<u32>, newBlocks: seq<u32>, d: seq<Block>, r: InodeRec)
    requires Growing(d0, own0, newBlocks, d, r, |newBlocks|)
    requires |own0| + |newBlocks| == TotalOf(DataBlocksOf(r.size))
    ensures Owned(d, r) == own0 + newBlocks && Tree(d, r, own0 + newBlocks)
    ensures SameOutside(d0, d, IndexBlocks(own0 + newBlocks))
  {
    assert newBlocks[..|newBlocks|] == newBlocks;
  }

  /** Block counts once growth has passed the direct pointers. */
  lemma TotalIndirect(n: nat)
    ensures n <= 128 ==> TotalOf(n + 28) == if n == 0 then 28 else n + 29
    ensures n > 128 ==> TotalOf(n + 28) > n + 29
  {
  }

  /** Entry b of sub-block a comes before the end of a file that reaches past it. */
  lemma PositionBefore(a: nat, b: nat, total: nat)
    requires b < 128 && 128 * a + b < total <= 128 * 128
    ensures a < 128 && 158 + 129 * a + 1 + b < TotalOf(total + 156)
  {
    TotalDouble(total);
    if total / 128 > a {
      assert 129 * (total / 128) >= 129 * a + 129;
    }
  }

  /** Block counts once growth has passed the single-indirect pointers. */
  lemma TotalDouble(n: nat)
    ensures TotalOf(n + 156) == if n == 0 then 157 else 158 + 129 * (n / 128) + (if n % 128 == 0 then 0 else n % 128 + 1)
  {
  }
}
