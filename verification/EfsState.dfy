/** Where things lie on the device, and the invariant of the file system's blocks. */
module EfsState {
  import opened Bytes
  import opened Collections
  import opened Bitmaps
  import opened InodeTree

  /** Sizes of the areas, in device order after the super block. */
  datatype Geometry = Geometry(inodeBitmapBlocks: nat, inodeAreaBlocks: nat, dataBitmapBlocks: nat, dataAreaBlocks: nat) {
    function InodeAreaStart(): nat { 1 + inodeBitmapBlocks }

    function DataBitmapStart(): nat { 1 + inodeBitmapBlocks + inodeAreaBlocks }

    function DataStart(): nat { 1 + inodeBitmapBlocks + inodeAreaBlocks + dataBitmapBlocks }

    function Total(): nat { 1 + inodeBitmapBlocks + inodeAreaBlocks + dataBitmapBlocks + dataAreaBlocks }

    function Inodes(): nat { inodeBitmapBlocks * 4096 }

    /** Every inode has a place in the inode area and every data block a bit in the data bitmap. */
    predicate Valid() {
      && 0 < inodeBitmapBlocks
      && inodeAreaBlocks == inodeBitmapBlocks * 1024
      && dataAreaBlocks <= dataBitmapBlocks * 4096
      && Total() < 0x1_0000_0000 && Inodes() <= 0x1_0000_0000
    }

    /** get_disk_inode_pos: the block of inode i, and its place there in units of one inode. */
    function InodeBlock(i: nat): nat { InodeAreaStart() + i / 4 }

    function InodeSlot(i: nat): (slot: nat)
      ensures slot < 4
    {
      i % 4
    }

    lemma InodeBlockInArea(i: nat)
      requires Valid() && i < Inodes()
      ensures InodeAreaStart() <= InodeBlock(i) < DataBitmapStart()
    {
    }

    predicate InDataArea(b: nat) {
      DataStart() <= b < Total()
    }
  }

  // ---------- inode records in their blocks

  /** The inode in quarter `slot` of block b. */
  function DecodeInode(b: Block, slot: nat): (r: InodeRec)
    requires slot < 4
    ensures r.WellFormed()
  {
    InodeRec(Word(b, 32 * slot), seq<u32>(28, k requires 0 <= k < 28 => Word(b, 32 * slot + 1 + k)),
             Word(b, 32 * slot + 29), Word(b, 32 * slot + 30), Word(b, 32 * slot + 31) % 256 == 1)
  }

  function PutWords(b: Block, base: nat, ws: seq<u32>): (r: Block)
    requires base + |ws| <= 128
    decreases |ws|
  {
    if ws == [] then b
    else SetWord(PutWords(b, base, ws[..|ws| - 1]), base + |ws| - 1, ws[|ws| - 1])
  }

  lemma {:induction false} WordsAfterPutWords(b: Block, base: nat, ws: seq<u32>)
    requires base + |ws| <= 128
    ensures forall k :: 0 <= k < 128 ==>
              Word(PutWords(b, base, ws), k) == if base <= k < base + |ws| then ws[k - base] else Word(b, k)
    decreases |ws|
  {
    if ws != [] {
      var n := |ws| - 1;
      WordsAfterPutWords(b, base, ws[..n]);
      WordSetWord(PutWords(b, base, ws[..n]), base + n, ws[n]);
    }
  }

  /** The 32 words of an inode record; the three padding bytes after its type are kept from `last`. */
  function InodeWords(r: InodeRec, last: u32): (ws: seq<u32>)
    requires r.WellFormed()
    ensures |ws| == 32
  {
    [r.size] + r.direct + [r.indirect1, r.indirect2, last - last % 256 + (if r.isDir then 1 else 0)]
  }

  /** Writing an inode in place. */
  function EncodeInode(b: Block, slot: nat, r: InodeRec): (b': Block)
    requires slot < 4 && r.WellFormed()
  {
    PutWords(b, 32 * slot, InodeWords(r, Word(b, 32 * slot + 31)))
  }

  /** Decoding looks at the inode's 32 words only. */
  lemma DecodeFrame(b: Block, b': Block, slot: nat)
    requires slot < 4
    requires forall k :: 32 * slot <= k < 32 * slot + 32 ==> Word(b', k) == Word(b, k)
    ensures DecodeInode(b', slot) == DecodeInode(b, slot)
  {
    hide Word;
    assert DecodeInode(b', slot).direct == DecodeInode(b, slot).direct;
  }

  lemma DecodeEncode(b: Block, slot: nat, r: InodeRec)
    requires slot < 4 && r.WellFormed()
    ensures DecodeInode(EncodeInode(b, slot, r), slot) == r
    ensures forall s :: 0 <= s < 4 && s != slot ==> DecodeInode(EncodeInode(b, slot, r), s) == DecodeInode(b, s)
  {
    hide Word, PutWords;
    WordsAfterPutWords(b, 32 * slot, InodeWords(r, Word(b, 32 * slot + 31)));
    var b' := EncodeInode(b, slot, r);
    assert DecodeInode(b', slot).direct == r.direct;
    forall s | 0 <= s < 4 && s != slot
      ensures DecodeInode(b', s) == DecodeInode(b, s)
    {
      DecodeFrame(b, b', s);
    }
  }

  function RecAt(d: seq<Block>, g: Geometry, i: nat): (r: InodeRec)
    ensures r.WellFormed()
  {
    if g.InodeBlock(i) < |d| then DecodeInode(d[g.InodeBlock(i)], g.InodeSlot(i)) else EmptyInode(false)
  }

  /** The device after inode i's record has been set to r. */
  function WithRec(d: seq<Block>, g: Geometry, i: nat, r: InodeRec): (d': seq<Block>)
    requires g.InodeBlock(i) < |d| && r.WellFormed()
  {
    d[g.InodeBlock(i) := EncodeInode(d[g.InodeBlock(i)], g.InodeSlot(i), r)]
  }

  lemma RecAtWithRec(d: seq<Block>, g: Geometry, i: nat, r: InodeRec, j: nat)
    requires g.InodeBlock(i) < |d| && r.WellFormed()
    ensures RecAt(WithRec(d, g, i, r), g, j) == if j == i then r else RecAt(d, g, j)
  {
    DecodeEncode(d[g.InodeBlock(i)], g.InodeSlot(i), r);
  }

  /** All blocks of inode i. */
  function Own(d: seq<Block>, g: Geometry, i: nat): seq<u32> {
    Owned(d, RecAt(d, g, i))
  }

  // ---------- the super block

  /** The super block's six words. */
  function SuperBlockWords(g: Geometry): (ws: seq<u32>)
    requires g.Total() < 0x1_0000_0000
    ensures |ws| == 6
  {
    [EFS_MAGIC, g.Total(), g.inodeBitmapBlocks, g.inodeAreaBlocks, g.dataBitmapBlocks, g.dataAreaBlocks]
  }

  ghost predicate HoldsSuperBlock(b: Block, g: Geometry) {
    && g.Total() < 0x1_0000_0000
    && forall k :: 0 <= k < 6 ==> Word(b, k) == SuperBlockWords(g)[k]
  }

  // ---------- the invariant

  /** Inode i is a tree of data-area blocks, with nothing but zeros past its size. */
  ghost predicate InodeOk(d: seq<Block>, g: Geometry, i: nat) {
    var r := RecAt(d, g, i);
    && r.size <= MAX_FILE_SIZE
    && Tree(d, r, Own(d, g, i))
    && TailZero(d, r)
    && forall b :: b in Own(d, g, i) ==> g.InDataArea(b)
  }

  ghost predicate InodesOk(d: seq<Block>, g: Geometry) {
    forall i :: 0 <= i < g.Inodes() ==> InodeOk(d, g, i)
  }

  ghost predicate OwnersDisjoint(d: seq<Block>, g: Geometry) {
    forall i, j, b :: 0 <= i < g.Inodes() && 0 <= j < g.Inodes() && b in Own(d, g, i) && b in Own(d, g, j) ==> i == j
  }

  ghost predicate IsOwned(d: seq<Block>, g: Geometry, b: nat) {
    exists i :: 0 <= i < g.Inodes() && b in Own(d, g, i)
  }

  /**
   * Block b is marked used exactly when an inode owns it or it is in transit (allocated but not yet put into
   * an inode, or taken out of one but not yet freed), never both, and a block not marked used is all zero.
   */
  ghost predicate BlockOk(d: seq<Block>, g: Geometry, transit: set<nat>, b: nat)
    requires g.InDataArea(b) && b < |d|
  {
    && (BitAt(d, g.DataBitmapStart(), b - g.DataStart()) <==> b in transit || IsOwned(d, g, b))
    && !(b in transit && IsOwned(d, g, b))
    && (b in transit || IsOwned(d, g, b) || d[b] == ZERO_BLOCK)
  }

  ghost predicate BlocksOk(d: seq<Block>, g: Geometry, transit: set<nat>)
    requires g.Total() <= |d|
  {
    forall b: nat :: g.InDataArea(b) ==> BlockOk(d, g, transit, b)
  }

  /** The data bitmap's spare bits, which stand for no block, are clear. */
  ghost predicate SpareBitsClear(d: seq<Block>, g: Geometry) {
    forall k: nat :: g.dataAreaBlocks <= k < g.dataBitmapBlocks * 4096 ==> !BitAt(d, g.DataBitmapStart(), k)
  }

  /** An inode that is not allocated has no blocks. */
  ghost predicate FreeInodesEmpty(d: seq<Block>, g: Geometry) {
    forall i: nat :: i < g.Inodes() && !BitAt(d, 1, i) ==> RecAt(d, g, i).size == 0
  }

  ghost predicate OnDevice(d: seq<Block>, g: Geometry) {
    g.Valid() && g.Total() <= |d| && HoldsSuperBlock(d[0], g)
  }

  ghost predicate Inv(d: seq<Block>, g: Geometry, transit: set<nat>) {
    && OnDevice(d, g)
    && InodesOk(d, g)
    && OwnersDisjoint(d, g)
    && (forall b :: b in transit ==> g.InDataArea(b))
    && BlocksOk(d, g, transit)
    && SpareBitsClear(d, g)
    && FreeInodesEmpty(d, g)
  }

  /** Inode j is unaffected by changes that miss its record and its blocks. */
  lemma OtherInode(d: seq<Block>, d': seq<Block>, g: Geometry, j: nat, changed: set<nat>)
    requires InodeOk(d, g, j)
    requires SameOutside(d, d', changed)
    requires RecAt(d', g, j) == RecAt(d, g, j)
    requires changed !! AsSet(Own(d, g, j))
    ensures Own(d', g, j) == Own(d, g, j)
    ensures InodeOk(d', g, j)
    ensures forall k: nat :: FileByte(d', Own(d, g, j), k) == FileByte(d, Own(d, g, j), k)
  {
    var r, own := RecAt(d, g, j), Own(d, g, j);
    TreeFrame(d, d', r, own, changed);
    assert Owned(d', r) == own;
    SameBytes(d, d', own, changed);
  }

  lemma SameBytes(d: seq<Block>, d': seq<Block>, own: seq<u32>, changed: set<nat>)
    requires SameOutside(d, d', changed) && changed !! AsSet(own)
    ensures forall k: nat :: FileByte(d', own, k) == FileByte(d, own, k)
  {
    forall k: nat
      ensures FileByte(d', own, k) == FileByte(d, own, k)
    {
      var p := DataPos(k / 512);
      if p < |own| {
        assert own[p] in own;
      }
    }
  }

  // ---------- putting a changed inode back

  /** Every inode but i is as before, contents included. */
  ghost predicate OthersSame(d: seq<Block>, d': seq<Block>, g: Geometry, i: nat) {
    forall j: nat :: j < g.Inodes() && j != i ==>
      && RecAt(d', g, j) == RecAt(d, g, j)
      && Own(d', g, j) == Own(d, g, j)
      && Contents(d', RecAt(d', g, j)) == Contents(d, RecAt(d, g, j))
  }

  /**
   * Inode i may be replaced by r, whose blocks are own on device d': only those blocks differ from d, and
   * they together with the blocks then in transit are the inode's old blocks and those in transit before.
   */
  ghost predicate CanCommit(d: seq<Block>, d': seq<Block>, g: Geometry, i: nat, r: InodeRec, own: seq<u32>,
                            transit: set<nat>, transit': set<nat>) {
    && i < g.Inodes()
    && (BitAt(d, 1, i) || r.size == 0)
    && SameOutside(d, d', AsSet(own))
    && r.WellFormed() && r.size <= MAX_FILE_SIZE && own == Owned(d', r)
    && Tree(d', r, own) && TailZero(d', r)
    && AsSet(own) + transit' == AsSet(Own(d, g, i)) + transit
    && AsSet(own) !! transit'
  }

  lemma CommitArea(d: seq<Block>, d': seq<Block>, g: Geometry, i: nat, r: InodeRec, own: seq<u32>,
                   transit: set<nat>, transit': set<nat>)
    requires Inv(d, g, transit) && CanCommit(d, d', g, i, r, own, transit, transit')
    ensures forall b :: b in own || b in transit' ==> g.InDataArea(b)
    ensures |d'| == |d| && g.InodeBlock(i) < |d| && !g.InDataArea(g.InodeBlock(i))
    ensures SameOutside(d, WithRec(d', g, i, r), AsSet(own) + {g.InodeBlock(i)})
  {
    g.InodeBlockInArea(i);
    forall b | b in own || b in transit'
      ensures g.InDataArea(b)
    {
      assert b in AsSet(own) + transit';
      assert b in Own(d, g, i) || b in transit;
      assert InodeOk(d, g, i);
    }
  }

  lemma CommitOther(d: seq<Block>, d': seq<Block>, g: Geometry, i: nat, r: InodeRec, own: seq<u32>,
                    transit: set<nat>, transit': set<nat>, j: nat)
    requires Inv(d, g, transit) && CanCommit(d, d', g, i, r, own, transit, transit')
    requires j < g.Inodes() && j != i && g.InodeBlock(i) < |d'|
    ensures var d2 := WithRec(d', g, i, r);
            && RecAt(d2, g, j) == RecAt(d, g, j) && Own(d2, g, j) == Own(d, g, j)
            && InodeOk(d2, g, j)
            && Contents(d2, RecAt(d2, g, j)) == Contents(d, RecAt(d, g, j))
            && AsSet(own) !! AsSet(Own(d, g, j))
  {
    var d2 := WithRec(d', g, i, r);
    CommitArea(d, d', g, i, r, own, transit, transit');
    var changed := AsSet(own) + {g.InodeBlock(i)};
    assert InodeOk(d, g, j);
    forall b | b in Own(d, g, j)
      ensures b !in changed
    {
      assert g.InDataArea(b);
      assert IsOwned(d, g, b);
      assert BlockOk(d, g, transit, b);
      assert b !in AsSet(Own(d, g, i)) + transit;
    }
    OtherRecord(d, d', g, i, j, AsSet(own));
    RecAtWithRec(d', g, i, r, j);
    OtherInode(d, d2, g, j, changed);
  }

  /** Records lie outside the data area. */
  lemma OtherRecord(d: seq<Block>, d': seq<Block>, g: Geometry, i: nat, j: nat, changed: set<nat>)
    requires g.Valid() && j < g.Inodes() && SameOutside(d, d', changed)
    requires forall b :: b in changed ==> g.InDataArea(b)
    ensures RecAt(d', g, j) == RecAt(d, g, j)
  {
    g.InodeBlockInArea(j);
  }

  lemma CommitThis(d: seq<Block>, d': seq<Block>, g: Geometry, i: nat, r: InodeRec, own: seq<u32>,
                   transit: set<nat>, transit': set<nat>)
    requires Inv(d, g, transit) && CanCommit(d, d', g, i, r, own, transit, transit')
    ensures g.InodeBlock(i) < |d'|
    ensures var d2 := WithRec(d', g, i, r);
            && RecAt(d2, g, i) == r && Own(d2, g, i) == own
            && InodeOk(d2, g, i)
            && Contents(d2, r) == Contents(d', r)
  {
    CommitArea(d, d', g, i, r, own, transit, transit');
    var d2, changed := WithRec(d', g, i, r), {g.InodeBlock(i)};
    RecAtWithRec(d', g, i, r, i);
    assert IndexBlocks(own) <= AsSet(own);
    TreeFrame(d', d2, r, own, changed);
    assert Owned(d2, r) == own;
    SameBytes(d', d2, own, changed);
  }

  /** Bits of a bitmap whose blocks did not change. */
  lemma SameBits(d: seq<Block>, d': seq<Block>, start: nat, blocks: nat, changed: set<nat>, k: nat)
    requires SameOutside(d, d', changed) && start + blocks <= |d|
    requires forall b :: b in changed ==> !(start <= b < start + blocks)
    requires k < blocks * 4096
    ensures BitAt(d', start, k) == BitAt(d, start, k)
  {
  }

  lemma CommitOwned(d: seq<Block>, d': seq<Block>, g: Geometry, i: nat, r: InodeRec, own: seq<u32>,
                    transit: set<nat>, transit': set<nat>, b: nat)
    requires Inv(d, g, transit) && CanCommit(d, d', g, i, r, own, transit, transit')
    requires g.InodeBlock(i) < |d'|
    ensures IsOwned(WithRec(d', g, i, r), g, b) <==> b in own || (b !in Own(d, g, i) && IsOwned(d, g, b))
  {
    var d2 := WithRec(d', g, i, r);
    CommitThis(d, d', g, i, r, own, transit, transit');
    if IsOwned(d2, g, b) && b !in own {
      var j :| 0 <= j < g.Inodes() && b in Own(d2, g, j);
      CommitOther(d, d', g, i, r, own, transit, transit', j);
      assert b in Own(d, g, j);
    }
    if b !in Own(d, g, i) && IsOwned(d, g, b) {
      var j :| 0 <= j < g.Inodes() && b in Own(d, g, j);
      CommitOther(d, d', g, i, r, own, transit, transit', j);
      assert b in Own(d2, g, j);
    }
    if b in own {
      assert b in Own(d2, g, i);
    }
  }

  lemma CommitBlock(d: seq<Block>, d': seq<Block>, g: Geometry, i: nat, r: InodeRec, own: seq<u32>,
                    transit: set<nat>, transit': set<nat>, b: nat)
    requires Inv(d, g, transit) && CanCommit(d, d', g, i, r, own, transit, transit')
    requires g.InodeBlock(i) < |d'| == |d| && g.InDataArea(b)
    ensures BlockOk(WithRec(d', g, i, r), g, transit', b)
  {
    hide Tree, TailZero, InodesOk, InodeOk, OwnersDisjoint, BitAt, WithRec, RecAt, SpareBitsClear, FreeInodesEmpty, HoldsSuperBlock;
    var d2 := WithRec(d', g, i, r);
    CommitArea(d, d', g, i, r, own, transit, transit');
    CommitOwned(d, d', g, i, r, own, transit, transit', b);
    SameBits(d, d2, g.DataBitmapStart(), g.dataBitmapBlocks, AsSet(own) + {g.InodeBlock(i)}, b - g.DataStart());
    assert BlockOk(d, g, transit, b) by {
      assert IsOwned(d, g, b) || !IsOwned(d, g, b);
    }
    assert b in Own(d, g, i) ==> IsOwned(d, g, b);
    assert b in own || b in transit' <==> b in AsSet(own) + transit';
    assert b in Own(d, g, i) || b in transit <==> b in AsSet(Own(d, g, i)) + transit;
  }

  /** Replacing inode i keeps the invariant and every other file. */
  lemma CommitInode(d: seq<Block>, d': seq<Block>, g: Geometry, i: nat, r: InodeRec, own: seq<u32>,
                    transit: set<nat>, transit': set<nat>)
    requires Inv(d, g, transit) && CanCommit(d, d', g, i, r, own, transit, transit')
    ensures g.InodeBlock(i) < |d'|
    ensures var d2 := WithRec(d', g, i, r);
            && Inv(d2, g, transit')
            && RecAt(d2, g, i) == r && Own(d2, g, i) == own
            && Contents(d2, r) == Contents(d', r)
            && OthersSame(d, d2, g, i)
  {
    var d2 := WithRec(d', g, i, r);
    CommitThis(d, d', g, i, r, own, transit, transit');
    CommitArea(d, d', g, i, r, own, transit, transit');
    CommitDisjoint(d, d', g, i, r, own, transit, transit');
    CommitBits(d, d', g, i, r, own, transit, transit');
    CommitBlocks(d, d', g, i, r, own, transit, transit');
  }

  lemma CommitBlocks(d: seq<Block>, d': seq<Block>, g: Geometry, i: nat, r: InodeRec, own: seq<u32>,
                     transit: set<nat>, transit': set<nat>)
    requires Inv(d, g, transit) && CanCommit(d, d', g, i, r, own, transit, transit')
    requires g.InodeBlock(i) < |d'| == |d|
    ensures BlocksOk(WithRec(d', g, i, r), g, transit')
  {
    hide BlockOk, IsOwned;
    var d2 := WithRec(d', g, i, r);
    forall b: nat | g.InDataArea(b)
      ensures BlockOk(d2, g, transit', b)
    {
      CommitBlock(d, d', g, i, r, own, transit, transit', b);
    }
  }

  lemma CommitDisjoint(d: seq<Block>, d': seq<Block>, g: Geometry, i: nat, r: InodeRec, own: seq<u32>,
                       transit: set<nat>, transit': set<nat>)
    requires Inv(d, g, transit) && CanCommit(d, d', g, i, r, own, transit, transit')
    requires g.InodeBlock(i) < |d'|
    ensures var d2 := WithRec(d', g, i, r);
            InodesOk(d2, g) && OwnersDisjoint(d2, g) && OthersSame(d, d2, g, i)
  {
    hide Tree, TailZero, BlocksOk;
    var d2 := WithRec(d', g, i, r);
    CommitThis(d, d', g, i, r, own, transit, transit');
    forall j: nat | j < g.Inodes() && j != i
      ensures InodeOk(d2, g, j) && RecAt(d2, g, j) == RecAt(d, g, j) && Own(d2, g, j) == Own(d, g, j)
      ensures Contents(d2, RecAt(d2, g, j)) == Contents(d, RecAt(d, g, j))
      ensures AsSet(own) !! AsSet(Own(d2, g, j))
    {
      CommitOther(d, d', g, i, r, own, transit, transit', j);
    }
  }

  lemma CommitBits(d: seq<Block>, d': seq<Block>, g: Geometry, i: nat, r: InodeRec, own: seq<u32>,
                   transit: set<nat>, transit': set<nat>)
    requires Inv(d, g, transit) && CanCommit(d, d', g, i, r, own, transit, transit')
    requires g.InodeBlock(i) < |d'|
    ensures var d2 := WithRec(d', g, i, r);
            OnDevice(d2, g) && SpareBitsClear(d2, g) && FreeInodesEmpty(d2, g)
  {
    hide Tree, TailZero, BlocksOk, InodesOk, OwnersDisjoint, BitAt;
    var d2, changed := WithRec(d', g, i, r), AsSet(own) + {g.InodeBlock(i)};
    CommitArea(d, d', g, i, r, own, transit, transit');
    g.InodeBlockInArea(i);
    forall k: nat | k < g.dataBitmapBlocks * 4096
      ensures BitAt(d2, g.DataBitmapStart(), k) == BitAt(d, g.DataBitmapStart(), k)
    {
      SameBits(d, d2, g.DataBitmapStart(), g.dataBitmapBlocks, changed, k);
    }
    forall j: nat | j < g.Inodes() && !BitAt(d2, 1, j)
      ensures RecAt(d2, g, j).size == 0
    {
      SameBits(d, d2, 1, g.inodeBitmapBlocks, changed, j);
      RecAtWithRec(d', g, i, r, j);
      OtherRecord(d, d', g, i, j, AsSet(own));
    }
  }
}
