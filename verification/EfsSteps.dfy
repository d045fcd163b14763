/** What allocating, freeing, growing, writing and clearing do to the file system's invariant. */
module EfsSteps {
  import opened Bytes
  import opened Collections
  import opened Bitmaps
  import opened InodeTree
  import opened EfsState
  import opened Layout

  /** The blocks marked used in the data bitmap, as numbers in the data area. */
  function Used(d: seq<Block>, g: Geometry): set<nat> {
    UsedBits(d, g.DataBitmapStart(), g.dataBitmapBlocks * 4096)
  }

  /** How many data blocks are free. */
  function Free(d: seq<Block>, g: Geometry): int {
    g.dataAreaBlocks - |Used(d, g)|
  }

  /** Every inode is as before, contents included. */
  ghost predicate AllSame(d: seq<Block>, d': seq<Block>, g: Geometry) {
    forall j: nat :: j < g.Inodes() ==>
      && RecAt(d', g, j) == RecAt(d, g, j)
      && Own(d', g, j) == Own(d, g, j)
      && Contents(d', RecAt(d', g, j)) == Contents(d, RecAt(d, g, j))
  }

  /** Changes that miss the super block, the inode area and all owned blocks leave every file alone. */
  lemma NoInodeTouched(d: seq<Block>, d': seq<Block>, g: Geometry, transit: set<nat>, changed: set<nat>)
    requires Inv(d, g, transit) && SameOutside(d, d', changed)
    requires forall b :: b in changed ==> b != 0 && !(g.InodeAreaStart() <= b < g.DataBitmapStart()) && !IsOwned(d, g, b)
    ensures OnDevice(d', g) && InodesOk(d', g) && OwnersDisjoint(d', g) && AllSame(d, d', g)
    ensures forall b: nat :: IsOwned(d', g, b) <==> IsOwned(d, g, b)
  {
    hide Tree, TailZero, BlocksOk;
    forall j: nat | j < g.Inodes()
      ensures InodeOk(d', g, j)
      ensures RecAt(d', g, j) == RecAt(d, g, j) && Own(d', g, j) == Own(d, g, j)
      ensures Contents(d', RecAt(d', g, j)) == Contents(d, RecAt(d, g, j))
    {
      InodeUntouched(d, d', g, j, changed);
    }
    forall b: nat
      ensures IsOwned(d', g, b) <==> IsOwned(d, g, b)
    {
      if IsOwned(d, g, b) {
        var j :| 0 <= j < g.Inodes() && b in Own(d, g, j);
        assert b in Own(d', g, j);
      }
    }
  }

  lemma InodeUntouched(d: seq<Block>, d': seq<Block>, g: Geometry, j: nat, changed: set<nat>)
    requires OnDevice(d, g) && InodeOk(d, g, j) && j < g.Inodes() && SameOutside(d, d', changed)
    requires forall b :: b in changed ==> !(g.InodeAreaStart() <= b < g.DataBitmapStart()) && !IsOwned(d, g, b)
    ensures InodeOk(d', g, j)
    ensures RecAt(d', g, j) == RecAt(d, g, j) && Own(d', g, j) == Own(d, g, j)
    ensures Contents(d', RecAt(d', g, j)) == Contents(d, RecAt(d, g, j))
  {
    g.InodeBlockInArea(j);
    forall b | b in Own(d, g, j)
      ensures b !in changed
    {
      assert IsOwned(d, g, b);
    }
    OtherInode(d, d', g, j, changed);
  }

  /** The blocks of a bitmap. */
  ghost function BlockRange(start: nat, blocks: nat): (s: set<nat>)
    ensures forall b: nat :: b in s <==> start <= b < start + blocks
  {
    if blocks == 0 then {} else BlockRange(start, blocks - 1) + {start + blocks - 1}
  }

  /** Marking a free block used puts it in transit; the block is all zero. */
  lemma MarkUsed(d: seq<Block>, d': seq<Block>, g: Geometry, transit: set<nat>, k: nat)
    requires Inv(d, g, transit) && k < g.dataAreaBlocks
    requires !BitAt(d, g.DataBitmapStart(), k)
    requires BitChanged(d, d', g.DataBitmapStart(), g.dataBitmapBlocks, k, true)
    ensures var b := g.DataStart() + k;
            && Inv(d', g, transit + {b})
            && b !in transit && !IsOwned(d, g, b) && d'[b] == ZERO_BLOCK
    ensures AllSame(d, d', g)
    ensures forall b: nat :: b < |d| && b !in BlockRange(g.DataBitmapStart(), g.dataBitmapBlocks) ==> d'[b] == d[b]
    ensures Free(d', g) == Free(d, g) - 1
  {
    hide InodeOk, InodesOk, BitAt, IsOwned, OwnersDisjoint, HoldsSuperBlock, RecAt, Own, Contents;
    var range := BlockRange(g.DataBitmapStart(), g.dataBitmapBlocks);
    BitmapNotOwned(d, g, transit);
    NoInodeTouched(d, d', g, transit, range);
    var b := g.DataStart() + k;
    assert BlockOk(d, g, transit, b);
    forall c: nat | g.InDataArea(c)
      ensures BlockOk(d', g, transit + {b}, c)
    {
      assert BlockOk(d, g, transit, c);
    }
    InodeBitsSame(d, d', g, range);
    UsedAfter(d, d', g, k, true);
  }

  /** Only data-area blocks are owned. */
  lemma BitmapNotOwned(d: seq<Block>, g: Geometry, transit: set<nat>)
    requires Inv(d, g, transit)
    ensures forall b: nat :: IsOwned(d, g, b) ==> g.InDataArea(b)
  {
    forall b: nat | IsOwned(d, g, b)
      ensures g.InDataArea(b)
    {
      var i :| 0 <= i < g.Inodes() && b in Own(d, g, i);
      assert InodeOk(d, g, i);
    }
  }

  lemma InodeBitsSame(d: seq<Block>, d': seq<Block>, g: Geometry, changed: set<nat>)
    requires OnDevice(d, g) && FreeInodesEmpty(d, g) && SameOutside(d, d', changed)
    requires forall b :: b in changed ==> b >= g.DataBitmapStart()
    ensures FreeInodesEmpty(d', g)
  {
    forall j: nat | j < g.Inodes() && !BitAt(d', 1, j)
      ensures RecAt(d', g, j).size == 0
    {
      SameBits(d, d', 1, g.inodeBitmapBlocks, changed, j);
      g.InodeBlockInArea(j);
    }
  }

  lemma UsedAfter(d: seq<Block>, d': seq<Block>, g: Geometry, k: nat, value: bool)
    requires BitChanged(d, d', g.DataBitmapStart(), g.dataBitmapBlocks, k, value)
    requires BitAt(d, g.DataBitmapStart(), k) == !value
    requires k < g.dataBitmapBlocks * 4096
    ensures Free(d', g) == Free(d, g) + (if value then -1 else 1)
  {
    hide BitAt;
    if value {
      assert Used(d', g) == Used(d, g) + {k};
    } else {
      assert Used(d', g) == Used(d, g) - {k};
    }
  }

  /** Zeroing a block in transit and then clearing its bit frees it. */
  lemma ZeroAndFree(d: seq<Block>, d': seq<Block>, g: Geometry, transit: set<nat>, b: nat)
    requires Inv(d, g, transit) && b in transit
    requires BitChanged(d[b := ZERO_BLOCK], d', g.DataBitmapStart(), g.dataBitmapBlocks, b - g.DataStart(), false)
    ensures Inv(d', g, transit - {b}) && AllSame(d, d', g)
    ensures BitAt(d, g.DataBitmapStart(), b - g.DataStart())
    ensures Free(d', g) == Free(d, g) + 1
  {
    hide InodeOk, InodesOk, BitAt;
    var range := BlockRange(g.DataBitmapStart(), g.dataBitmapBlocks);
    var changed := range + {b};
    var z := d[b := ZERO_BLOCK];
    assert BlockOk(d, g, transit, b);
    BitmapNotOwned(d, g, transit);
    NoInodeTouched(d, d', g, transit, changed);
    BitsAfterZeroing(d, g, b);
    forall c: nat | g.InDataArea(c)
      ensures BlockOk(d', g, transit - {b}, c)
    {
      assert BlockOk(d, g, transit, c);
    }
    InodeBitsSame(d, d', g, changed);
    UsedAfter(z, d', g, b - g.DataStart(), false);
    assert Used(z, g) == Used(d, g);
    forall k: nat | g.dataAreaBlocks <= k < g.dataBitmapBlocks * 4096
      ensures !BitAt(d', g.DataBitmapStart(), k)
    {
      assert !BitAt(d, g.DataBitmapStart(), k);
      assert BitAt(z, g.DataBitmapStart(), k) == BitAt(d, g.DataBitmapStart(), k);
    }
  }

  lemma BitsAfterZeroing(d: seq<Block>, g: Geometry, b: nat)
    requires g.InDataArea(b) && b < |d|
    ensures forall k: nat :: k < g.dataBitmapBlocks * 4096 ==>
              BitAt(d[b := ZERO_BLOCK], g.DataBitmapStart(), k) == BitAt(d, g.DataBitmapStart(), k)
  {
    forall k: nat | k < g.dataBitmapBlocks * 4096
      ensures BitAt(d[b := ZERO_BLOCK], g.DataBitmapStart(), k) == BitAt(d, g.DataBitmapStart(), k)
    {
      SameBits(d, d[b := ZERO_BLOCK], g.DataBitmapStart(), g.dataBitmapBlocks, {b}, k);
    }
  }

  // ---------- the three changes to an inode

  /** Blocks in transit are new to every inode, so an inode may grow by them. */
  lemma TransitCanGrow(d: seq<Block>, g: Geometry, i: nat, v: seq<u32>)
    requires Inv(d, g, AsSet(v)) && i < g.Inodes()
    requires NoDup(v) && (forall b :: b in v ==> b < |d| && d[b] == ZERO_BLOCK)
    requires |Own(d, g, i)| + |v| <= MAX_POINTERS
    ensures CanGrow(d, RecAt(d, g, i), Own(d, g, i), v)
  {
    var own := Own(d, g, i);
    assert InodeOk(d, g, i);
    forall x, y | 0 <= x < |own| && 0 <= y < |v|
      ensures own[x] != v[y]
    {
      assert v[y] in AsSet(v) && BlockOk(d, g, AsSet(v), v[y]);
      assert own[x] in own;
      assert IsOwned(d, g, own[x]);
    }
    assert forall y :: 0 <= y < |v| ==> v[y] in v;
  }

  /** After growth the old bytes are where they were and the new ones are zero. */
  lemma GrownBytes(d: seq<Block>, d1: seq<Block>, own: seq<u32>, v: seq<u32>, n0: nat, n1: nat)
    requires NoDup(own + v) && |own| == TotalOf(n0) && |own| + |v| == TotalOf(n1) && n0 <= n1
    requires SameOutside(d, d1, IndexBlocks(own + v))
    requires forall b :: b in v ==> b < |d| && d[b] == ZERO_BLOCK
    ensures forall k: nat :: k < 512 * n1 ==> FileByte(d1, own + v, k) == if k < 512 * n0 then FileByte(d, own, k) else 0
  {
    forall k: nat | k < 512 * n1
      ensures FileByte(d1, own + v, k) == if k < 512 * n0 then FileByte(d, own, k) else 0
    {
      GrownByte(d, d1, own, v, n0, n1, k);
    }
  }

  lemma GrownByte(d: seq<Block>, d1: seq<Block>, own: seq<u32>, v: seq<u32>, n0: nat, n1: nat, k: nat)
    requires NoDup(own + v) && |own| == TotalOf(n0) && |own| + |v| == TotalOf(n1) && n0 <= n1
    requires SameOutside(d, d1, IndexBlocks(own + v))
    requires forall b :: b in v ==> b < |d| && d[b] == ZERO_BLOCK
    requires k < 512 * n1
    ensures FileByte(d1, own + v, k) == if k < 512 * n0 then FileByte(d, own, k) else 0
  {
    var p := DataPos(k / 512);
    PositionOf(n0, n1, k / 512);
    IndexAndDataDisjoint(own + v);
    assert (own + v)[p] in DataBlockSet(own + v);
    assert (own + v)[p] !in IndexBlocks(own + v);
    if p >= |own| {
      assert (own + v)[p] == v[p - |own|];
      assert v[p - |own|] in v;
    }
  }

  lemma PositionOf(n0: nat, n1: nat, j: nat)
    requires n0 <= n1 && j < n1
    ensures DataPos(j) < TotalOf(n1) && !IsIndexPos(DataPos(j))
    ensures DataPos(j) < TotalOf(n0) <==> j < n0
  {
    DataPosIsLast(j);
    TotalMonotone(j + 1, n1);
    if j < n0 {
      TotalMonotone(j + 1, n0);
    } else {
      TotalMonotone(n0, j);
      TotalStep(j);
    }
  }

  /** Growing inode i by the blocks in transit. */
  lemma GrowStep(d: seq<Block>, d1: seq<Block>, g: Geometry, i: nat, r1: InodeRec, v: seq<u32>)
    requires Inv(d, g, AsSet(v)) && i < g.Inodes() && BitAt(d, 1, i)
    requires NoDup(v) && (forall b :: b in v ==> b < |d| && d[b] == ZERO_BLOCK)
    requires RecAt(d, g, i).size <= r1.size <= MAX_FILE_SIZE
    requires Owned(d1, r1) == Own(d, g, i) + v && Tree(d1, r1, Owned(d1, r1))
    requires SameOutside(d, d1, IndexBlocks(Own(d, g, i) + v))
    ensures CanCommit(d, d1, g, i, r1, Own(d, g, i) + v, AsSet(v), {})
    ensures Contents(d1, r1) == Contents(d, RecAt(d, g, i)) + Zeros(r1.size - RecAt(d, g, i).size)
  {
    var r0, own := RecAt(d, g, i), Own(d, g, i);
    assert InodeOk(d, g, i);
    assert NoDup(own + v);
    hide Tree, FileByte, BlocksOk, OwnersDisjoint, NoDup, BitAt, SpareBitsClear, FreeInodesEmpty;
    GrownBytes(d, d1, own, v, DataBlocksOf(r0.size), DataBlocksOf(r1.size));
    assert IndexBlocks(own + v) <= AsSet(own + v);
    assert AsSet(own + v) == AsSet(own) + AsSet(v);
  }

  /** Overwriting bytes of inode i. */
  lemma WriteStep(d: seq<Block>, d1: seq<Block>, g: Geometry, i: nat, offset: nat, patch: seq<byte>)
    requires Inv(d, g, {}) && i < g.Inodes() && BitAt(d, 1, i)
    requires offset + |patch| <= RecAt(d, g, i).size
    requires Owned(d1, RecAt(d, g, i)) == Own(d, g, i) && Tree(d1, RecAt(d, g, i), Own(d, g, i))
    requires SameOutside(d, d1, DataBlockSet(Own(d, g, i)))
    requires Overwritten(d, d1, Own(d, g, i), offset, patch)
    ensures CanCommit(d, d1, g, i, RecAt(d, g, i), Own(d, g, i), {}, {})
    ensures Contents(d1, RecAt(d, g, i)) == Splice(Contents(d, RecAt(d, g, i)), offset, patch)
  {
    var own := Own(d, g, i);
    assert InodeOk(d, g, i);
    hide Tree, FileByte, BlocksOk, OwnersDisjoint, NoDup, BitAt, SpareBitsClear, FreeInodesEmpty;
    assert DataBlockSet(own) <= AsSet(own);
  }

  /** Emptying inode i: its blocks go into transit. */
  lemma ClearStep(d: seq<Block>, g: Geometry, i: nat)
    requires Inv(d, g, {}) && i < g.Inodes()
    ensures CanCommit(d, d, g, i, EmptyInode(RecAt(d, g, i).isDir), [], {}, AsSet(Own(d, g, i)))
  {
    EmptyTree(d, EmptyInode(RecAt(d, g, i).isDir));
  }

  /** The super block and the inode bitmap are as before. */
  ghost predicate SameHead(d: seq<Block>, d': seq<Block>, g: Geometry) {
    && |d'| == |d|
    && forall b: nat :: b < 1 + g.inodeBitmapBlocks && b < |d| ==> d'[b] == d[b]
  }

  /** So the same inodes are allocated. */
  lemma SameInodeBits(d: seq<Block>, d': seq<Block>, g: Geometry, i: nat)
    requires SameHead(d, d', g) && i < g.Inodes() && g.InodeAreaStart() <= |d|
    ensures BitAt(d', 1, i) == BitAt(d, 1, i)
  {
  }

  lemma InodeInRange(d: seq<Block>, d1: seq<Block>, g: Geometry, i: nat, r: InodeRec, own: seq<u32>,
                     transit: set<nat>, transit': set<nat>)
    requires CanCommit(d, d1, g, i, r, own, transit, transit')
    ensures i < g.Inodes()
  {
  }

  /** Storing a changed inode: the invariant, the other files, the free count and the inode bitmap are kept. */
  lemma StoreStep(d: seq<Block>, d1: seq<Block>, g: Geometry, i: nat, r: InodeRec, own: seq<u32>,
                  transit: set<nat>, transit': set<nat>)
    requires Inv(d, g, transit) && CanCommit(d, d1, g, i, r, own, transit, transit')
    ensures g.InodeBlock(i) < |d1|
    ensures var d2 := WithRec(d1, g, i, r);
            && Inv(d2, g, transit')
            && RecAt(d2, g, i) == r && Own(d2, g, i) == own
            && Contents(d2, r) == Contents(d1, r)
            && OthersSame(d, d2, g, i)
            && SameHead(d, d2, g) && Free(d2, g) == Free(d, g)
  {
    hide CanCommit, InodesOk, BlocksOk, OwnersDisjoint, BitAt, RecAt, Own, Contents, HoldsSuperBlock, SpareBitsClear, FreeInodesEmpty;
    CommitInode(d, d1, g, i, r, own, transit, transit');
    CommitArea(d, d1, g, i, r, own, transit, transit');
    assert i < g.Inodes() by {
      InodeInRange(d, d1, g, i, r, own, transit, transit');
    }
    var d2, changed := WithRec(d1, g, i, r), AsSet(own) + {g.InodeBlock(i)};
    g.InodeBlockInArea(i);
    forall k: nat | k < g.dataBitmapBlocks * 4096
      ensures BitAt(d2, g.DataBitmapStart(), k) == BitAt(d, g.DataBitmapStart(), k)
    {
      SameBits(d, d2, g.DataBitmapStart(), g.dataBitmapBlocks, changed, k);
    }
    assert Used(d2, g) == Used(d, g);
  }
}
