/**
 * The block tree of one inode as a single list. Pointers are numbered in the order in which growth
 * fills them: 28 direct pointers, the single-indirect block, its 128 entries, the double-indirect
 * block, and then each of its entries followed by the 128 entries of that sub-block. A file of n data
 * blocks uses exactly the first TotalOf(n) pointers.
 */
module InodeTree {
  import opened Bytes
  import opened Collections

  const MAX_DATA_BLOCKS: nat := 28 + 128 + 128 * 128
  const MAX_POINTERS: nat := 28 + 1 + 128 + 1 + 128 * 129
  const MAX_FILE_SIZE: nat := (28 + 128 + 128 * 128) * 512

  /** The fields of an on-disk inode. */
  datatype InodeRec = InodeRec(size: u32, direct: seq<u32>, indirect1: u32, indirect2: u32, isDir: bool) {
    ghost predicate WellFormed() {
      |direct| == 28
    }
  }

  /** An inode just initialized. */
  function EmptyInode(isDir: bool): (r: InodeRec)
    ensures r.WellFormed()
  {
    InodeRec(0, seq(28, _ => 0), 0, 0, isDir)
  }

  function DataBlocksOf(size: nat): nat {
    (size + 511) / 512
  }

  /** Blocks used by n data blocks, index blocks included. */
  function TotalOf(n: nat): nat {
    n + (if n > 28 then 1 else 0) + (if n > 156 then 1 + (n - 156 + 127) / 128 else 0)
  }

  /** Number of the pointer to data block k. */
  function DataPos(k: nat): nat {
    if k < 28 then k
    else if k < 156 then k + 1
    else k + 2 + (k - 156) / 128 + 1
  }

  predicate IsIndexPos(p: nat) {
    p == 28 || p == 157 || (p >= 158 && (p - 158) % 129 == 0)
  }

  /** The pointer number of data block k lies just below TotalOf(k + 1), and is not an index block's. */
  lemma DataPosIsLast(k: nat)
    ensures DataPos(k) == TotalOf(k + 1) - 1
    ensures !IsIndexPos(DataPos(k))
  {
  }

  lemma TotalMonotone(n: nat, m: nat)
    requires n <= m
    ensures TotalOf(n) <= TotalOf(m)
    ensures m <= MAX_DATA_BLOCKS ==> TotalOf(m) <= MAX_POINTERS
  {
  }

  lemma DataPosInjective(j: nat, k: nat)
    requires j < k
    ensures DataPos(j) < DataPos(k)
  {
  }

  /** Growing by one data block takes the block itself, after the index blocks that must exist for it. */
  lemma TotalStep(n: nat)
    ensures TotalOf(n + 1) == TotalOf(n) + 1 + (if n == 28 then 1 else 0)
                              + (if n == 156 then 1 else 0) + (if n >= 156 && (n - 156) % 128 == 0 then 1 else 0)
  {
  }

  /** Which pointers live in the inode itself. */
  predicate IsField(p: nat) {
    p <= 28 || p == 157
  }

  /** For a pointer in an index block: the number of the pointer to that block. */
  function Parent(p: nat): (q: nat)
    requires !IsField(p)
    ensures q < p && IsIndexPos(q)
  {
    if p < 157 then 28
    else if (p - 158) % 129 == 0 then 157
    else 158 + (p - 158) / 129 * 129
  }

  /** Its place in that block. */
  function EntryIndex(p: nat): nat
    requires !IsField(p)
  {
    if p < 157 then p - 29
    else if (p - 158) % 129 == 0 then (p - 158) / 129
    else (p - 158) % 129 - 1
  }

  lemma EntryIndexRange(p: nat)
    requires !IsField(p) && p < MAX_POINTERS
    ensures EntryIndex(p) < 128
  {
  }

  /** Block and entry determine the pointer. */
  lemma EntryUnique(p: nat, q: nat)
    requires !IsField(p) && !IsField(q)
    requires Parent(p) == Parent(q) && EntryIndex(p) == EntryIndex(q)
    ensures p == q
  {
  }

  /** Entry k of the index block b, as an IndirectBlock. */
  function Entry(d: seq<Block>, b: nat, k: nat): u32 {
    if b < |d| && k < 128 then Word(d[b], k) else 0
  }

  /** Pointer p of inode r on device d. */
  function Ptr(d: seq<Block>, r: InodeRec, p: nat): u32
    decreases p
  {
    if p < 28 then (if p < |r.direct| then r.direct[p] else 0)
    else if p == 28 then r.indirect1
    else if p == 157 then r.indirect2
    else Entry(d, Ptr(d, r, Parent(p)), EntryIndex(p))
  }

  /** get_block_id's three cases: where the pointer to data block k is found. */
  function Lookup(d: seq<Block>, r: InodeRec, k: nat): u32 {
    if k < 28 then (if k < |r.direct| then r.direct[k] else 0)
    else if k < 156 then Entry(d, r.indirect1, k - 28)
    else Entry(d, Entry(d, r.indirect2, (k - 156) / 128), (k - 156) % 128)
  }

  /** Number of the pointer to the sub-block that holds the pointer to data block k. */
  function SubPos(k: nat): nat
    requires k >= 156
  {
    158 + (k - 156) / 128 * 129
  }

  lemma SubPosFacts(k: nat)
    requires k >= 156
    ensures 157 < SubPos(k) < DataPos(k)
    ensures Parent(DataPos(k)) == SubPos(k) && EntryIndex(DataPos(k)) == (k - 156) % 128
    ensures Parent(SubPos(k)) == 157 && EntryIndex(SubPos(k)) == (k - 156) / 128
  {
    var a, b := (k - 156) / 128, (k - 156) % 128;
    assert SubPos(k) - 158 == 129 * a;
    assert DataPos(k) - 158 == 129 * a + (b + 1);
    assert (DataPos(k) - 158) / 129 == a && (DataPos(k) - 158) % 129 == b + 1;
    assert (SubPos(k) - 158) / 129 == a && (SubPos(k) - 158) % 129 == 0;
  }

  lemma LookupIsPtr(d: seq<Block>, r: InodeRec, k: nat)
    ensures Lookup(d, r, k) == Ptr(d, r, DataPos(k))
    ensures k >= 156 ==> Ptr(d, r, SubPos(k)) == Entry(d, r.indirect2, (k - 156) / 128)
  {
    if k >= 156 {
      SubPosFacts(k);
      assert Ptr(d, r, SubPos(k)) == Entry(d, Ptr(d, r, 157), (k - 156) / 128);
      assert Ptr(d, r, DataPos(k)) == Entry(d, Ptr(d, r, SubPos(k)), (k - 156) % 128);
    } else if k >= 28 {
      assert Parent(DataPos(k)) == 28 && EntryIndex(DataPos(k)) == k - 28;
    }
  }

  /** The blocks get_block_id reads on its way to an allocated data block are blocks of the file. */
  lemma LookupPath(d: seq<Block>, r: InodeRec, k: nat)
    requires k < DataBlocksOf(r.size) || (k == DataBlocksOf(r.size) && SharesIndexBlock(k))
    ensures k < DataBlocksOf(r.size) ==> DataPos(k) < |Owned(d, r)| && Owned(d, r)[DataPos(k)] == Lookup(d, r, k)
    ensures 28 <= k ==> 28 < |Owned(d, r)| && Owned(d, r)[28] == r.indirect1
    ensures 156 <= k ==>
              && 157 < SubPos(k) < |Owned(d, r)| && Owned(d, r)[157] == r.indirect2
              && Owned(d, r)[SubPos(k)] == Entry(d, r.indirect2, (k - 156) / 128)
  {
    LookupIsPtr(d, r, k);
    if k < DataBlocksOf(r.size) {
      DataPosIsLast(k);
      TotalMonotone(k + 1, DataBlocksOf(r.size));
    } else if k >= 156 {
      SharedSub(k);
    }
    if k >= 156 {
      SubPosFacts(k);
    }
  }

  /** The pointer to data block k lies in an index block that earlier data blocks use, or in the inode. */
  predicate SharesIndexBlock(k: nat) {
    k != 28 && !(k >= 156 && (k - 156) % 128 == 0)
  }

  lemma SharedSub(k: nat)
    requires k >= 156 && SharesIndexBlock(k)
    ensures SubPos(k) < TotalOf(k)
  {
  }

  /** The first t pointers. */
  function Pointers(d: seq<Block>, r: InodeRec, t: nat): (own: seq<u32>)
    ensures |own| == t
    ensures forall p :: 0 <= p < t ==> own[p] == Ptr(d, r, p)
  {
    seq(t, p requires 0 <= p < t => Ptr(d, r, p))
  }

  /** All blocks of an inode, in the order growth added them. */
  function Owned(d: seq<Block>, r: InodeRec): (own: seq<u32>)
    ensures |own| == TotalOf(DataBlocksOf(r.size))
  {
    Pointers(d, r, TotalOf(DataBlocksOf(r.size)))
  }

  /** The index blocks among a list of blocks given in pointer order. */
  ghost function IndexBlocks(own: seq<u32>): (s: set<nat>) {
    set p | 0 <= p < |own| && IsIndexPos(p) :: own[p]
  }

  /** d' agrees with d outside the given blocks. */
  ghost predicate SameOutside(d: seq<Block>, d': seq<Block>, changed: set<nat>) {
    && |d'| == |d|
    && forall b :: 0 <= b < |d| && b !in changed ==> d'[b] == d[b]
  }

  /** The pointers depend on the inode's fields and its index blocks only. */
  lemma {:induction false} PtrFrame(d: seq<Block>, d': seq<Block>, r: InodeRec, r': InodeRec, p: nat)
    requires |d'| == |d|
    requires r'.direct == r.direct && r'.indirect1 == r.indirect1 && r'.indirect2 == r.indirect2
    requires forall q :: 0 <= q < p && IsIndexPos(q) && Ptr(d, r, q) < |d| ==> d'[Ptr(d, r, q)] == d[Ptr(d, r, q)]
    ensures Ptr(d', r', p) == Ptr(d, r, p)
  {
    if !IsField(p) {
      PtrFrame(d, d', r, r', Parent(p));
    }
  }

  lemma PointersFrame(d: seq<Block>, d': seq<Block>, r: InodeRec, r': InodeRec, t: nat, changed: set<nat>)
    requires SameOutside(d, d', changed)
    requires r'.direct == r.direct && r'.indirect1 == r.indirect1 && r'.indirect2 == r.indirect2
    requires IndexBlocks(Pointers(d, r, t)) !! changed
    ensures Pointers(d', r', t) == Pointers(d, r, t)
  {
    forall p | 0 <= p < t
      ensures Ptr(d', r', p) == Ptr(d, r, p)
    {
      forall q | 0 <= q < p && IsIndexPos(q) && Ptr(d, r, q) < |d|
        ensures d'[Ptr(d, r, q)] == d[Ptr(d, r, q)]
      {
        assert Pointers(d, r, t)[q] in IndexBlocks(Pointers(d, r, t));
      }
      PtrFrame(d, d', r, r', p);
    }
  }

  /** r after the pointer p, which is one of its fields, has been set. */
  function WithField(r: InodeRec, p: nat, w: u32): InodeRec
    requires IsField(p) && r.WellFormed()
  {
    if p < 28 then r.(direct := r.direct[p := w])
    else if p == 28 then r.(indirect1 := w)
    else r.(indirect2 := w)
  }

  /** d after the pointer p, which lives in an index block, has been written there. */
  function WithEntry(d: seq<Block>, r: InodeRec, p: nat, w: u32): (d': seq<Block>)
    requires !IsField(p) && p < MAX_POINTERS && Ptr(d, r, Parent(p)) < |d|
  {
    EntryIndexRange(p);
    var b := Ptr(d, r, Parent(p));
    d[b := SetWord(d[b], EntryIndex(p), w)]
  }

  /** Setting a field leaves every other pointer alone, except those that live in the block it names. */
  lemma FieldElsewhere(d: seq<Block>, r: InodeRec, p: nat, w: u32, q: nat)
    requires IsField(p) && r.WellFormed() && q != p
    requires !IsField(q) ==> Parent(q) < p || Parent(q) == 28 != p
    ensures Ptr(d, WithField(r, p, w), q) == Ptr(d, r, q)
  {
  }

  /** Writing an entry leaves alone every other pointer whose index block is one of the first p blocks. */
  lemma {:induction false} EntryElsewhere(d: seq<Block>, r: InodeRec, p: nat, w: u32, q: nat)
    requires !IsField(p) && p < MAX_POINTERS && q < MAX_POINTERS && q != p
    requires !IsField(q) ==> Parent(q) < p
    requires NoDup(Pointers(d, r, p)) && Ptr(d, r, Parent(p)) < |d|
    ensures Ptr(WithEntry(d, r, p, w), r, q) == Ptr(d, r, q)
    decreases q
  {
    if !IsField(q) {
      var b := Ptr(d, r, Parent(p));
      EntryElsewhere(d, r, p, w, Parent(q));
      EntryIndexRange(q);
      EntryIndexRange(p);
      WordSetWord(d[b], EntryIndex(p), w);
      if Ptr(d, r, Parent(q)) == b {
        assert Pointers(d, r, p)[Parent(q)] == Pointers(d, r, p)[Parent(p)];
        assert Parent(q) == Parent(p);
        if EntryIndex(q) == EntryIndex(p) {
          EntryUnique(p, q);
        }
      }
    }
  }

  lemma EntryWritten(d: seq<Block>, r: InodeRec, p: nat, w: u32)
    requires !IsField(p) && p < MAX_POINTERS
    requires NoDup(Pointers(d, r, p)) && Ptr(d, r, Parent(p)) < |d|
    ensures Ptr(WithEntry(d, r, p, w), r, p) == w
  {
    EntryIndexRange(p);
    EntryElsewhere(d, r, p, w, Parent(p));
    WordSetWord(d[Ptr(d, r, Parent(p))], EntryIndex(p), w);
  }

  /** Pointers not yet in use, where there is a place for them, are zero. */
  ghost predicate SpareZero(d: seq<Block>, r: InodeRec, t: nat) {
    forall q {:trigger Ptr(d, r, q)} :: t <= q < MAX_POINTERS && (IsField(q) || Parent(q) < t) ==> Ptr(d, r, q) == 0
  }

  /** The first |own| pointers of r are own: distinct blocks of the device, and the spare pointers are zero. */
  ghost predicate Tree(d: seq<Block>, r: InodeRec, own: seq<u32>) {
    && r.WellFormed()
    && |own| <= MAX_POINTERS
    && Pointers(d, r, |own|) == own
    && NoDup(own)
    && (forall i :: 0 <= i < |own| ==> own[i] < |d|)
    && SpareZero(d, r, |own|)
  }

  ghost predicate NewBlock(d: seq<Block>, own: seq<u32>, w: u32) {
    w < |d| && w !in own && d[w] == ZERO_BLOCK
  }

  /** A zero block used as a new index block holds zero pointers. */
  lemma ZeroEntries(d: seq<Block>, b: nat, k: nat)
    requires b < |d| ==> d[b] == ZERO_BLOCK
    ensures Entry(d, b, k) == 0
  {
    if b < |d| && k < 128 {
      WordZeroBlock(k);
    }
  }

  /**
   * Partway through growth: from a tree with blocks own0 on device d0, the first `used` of the new
   * blocks have been put in, and nothing but index blocks of the tree has been written.
   */
  ghost predicate Growing(d0: seq<Block>, own0: seq<u32>, extra: seq<u32>, d: seq<Block>, r: InodeRec, used: nat) {
    && used <= |extra|
    && Tree(d, r, own0 + extra[..used])
    && SameOutside(d0, d, IndexBlocks(own0 + extra[..used]))
  }

  /** Growth may start: the tree and the new blocks are distinct blocks of the device, the new ones zero. */
  ghost predicate CanGrow(d: seq<Block>, r: InodeRec, own: seq<u32>, extra: seq<u32>) {
    && Tree(d, r, own)
    && NoDup(own + extra)
    && |own| + |extra| <= MAX_POINTERS
    && forall i :: 0 <= i < |extra| ==> extra[i] < |d| && d[extra[i]] == ZERO_BLOCK
  }

  lemma NextIsNew(d0: seq<Block>, r0: InodeRec, own0: seq<u32>, extra: seq<u32>, d: seq<Block>, r: InodeRec, used: nat)
    requires CanGrow(d0, r0, own0, extra) && Growing(d0, own0, extra, d, r, used) && used < |extra|
    ensures NewBlock(d, own0 + extra[..used], extra[used])
    ensures own0 + extra[..used + 1] == own0 + extra[..used] + [extra[used]]
  {
    var own, w := own0 + extra[..used], extra[used];
    assert (own0 + extra)[|own|] == w;
    forall i | 0 <= i < |own|
      ensures own[i] != w
    {
      assert (own0 + extra)[i] == own[i];
    }
  }

  lemma GrowingField(d0: seq<Block>, r0: InodeRec, own0: seq<u32>, extra: seq<u32>, d: seq<Block>, r: InodeRec, used: nat)
    requires CanGrow(d0, r0, own0, extra) && Growing(d0, own0, extra, d, r, used) && used < |extra|
    requires IsField(|own0| + used)
    ensures Growing(d0, own0, extra, d, WithField(r, |own0| + used, extra[used]), used + 1)
  {
    NextIsNew(d0, r0, own0, extra, d, r, used);
    GrowField(d, r, own0 + extra[..used], extra[used]);
    IndexBlocksAppend(own0 + extra[..used], extra[used]);
  }

  lemma GrowingEntry(d0: seq<Block>, r0: InodeRec, own0: seq<u32>, extra: seq<u32>, d: seq<Block>, r: InodeRec, used: nat)
    requires CanGrow(d0, r0, own0, extra) && Growing(d0, own0, extra, d, r, used) && used < |extra|
    requires !IsField(|own0| + used)
    ensures var p := |own0| + used;
            && Ptr(d, r, Parent(p)) == (own0 + extra)[Parent(p)]
            && Ptr(d, r, Parent(p)) < |d|
            && Growing(d0, own0, extra, WithEntry(d, r, p, extra[used]), r, used + 1)
  {
    hide Ptr, Parent, IsField, EntryIndex;
    var own := own0 + extra[..used];
    NextIsNew(d0, r0, own0, extra, d, r, used);
    GrowEntry(d, r, own, extra[used]);
    IndexBlocksAppend(own, extra[used]);
    assert own[Parent(|own|)] in IndexBlocks(own);
    assert (own0 + extra)[Parent(|own|)] == own[Parent(|own|)];
  }

  /** While growing, the pointers are those of the final list. */
  lemma GrowingAt(d0: seq<Block>, own0: seq<u32>, extra: seq<u32>, d: seq<Block>, r: InodeRec, used: nat, p: nat)
    requires Growing(d0, own0, extra, d, r, used) && p < |own0| + used
    ensures Ptr(d, r, p) == (own0 + extra)[p] && Ptr(d, r, p) < |d|
  {
    var own := own0 + extra[..used];
    assert own[p] == (own0 + extra)[p];
    assert Pointers(d, r, |own|)[p] == own[p];
  }

  /** Arithmetic of the pointers below the double-indirect block: sub-block a, and its entry b. */
  lemma SubPositions(a: nat, b: nat)
    requires b < 128
    ensures var q := 158 + 129 * a;
            && !IsField(q) && Parent(q) == 157 && EntryIndex(q) == a
            && !IsField(q + 1 + b) && Parent(q + 1 + b) == q && EntryIndex(q + 1 + b) == b
  {
    assert (129 * a) / 129 == a && (129 * a) % 129 == 0;
    assert (129 * a + 1 + b) / 129 == a && (129 * a + 1 + b) % 129 == b + 1;
  }

  lemma GrowingIndirect1(d0: seq<Block>, r0: InodeRec, own0: seq<u32>, extra: seq<u32>, d: seq<Block>, r: InodeRec,
                         used: nat, k: nat)
    requires CanGrow(d0, r0, own0, extra) && Growing(d0, own0, extra, d, r, used) && used < |extra|
    requires k < 128 && |own0| + used == 29 + k
    ensures r.indirect1 == (own0 + extra)[28] && r.indirect1 < |d|
    ensures Growing(d0, own0, extra, d[r.indirect1 := SetWord(d[r.indirect1], k, extra[used])], r, used + 1)
  {
    var p := |own0| + used;
    assert Parent(p) == 28 && EntryIndex(p) == k;
    GrowingAt(d0, own0, extra, d, r, used, 28);
    GrowingEntry(d0, r0, own0, extra, d, r, used);
  }

  lemma GrowingSubBlock(d0: seq<Block>, r0: InodeRec, own0: seq<u32>, extra: seq<u32>, d: seq<Block>, r: InodeRec,
                        used: nat, a: nat)
    requires CanGrow(d0, r0, own0, extra) && Growing(d0, own0, extra, d, r, used) && used < |extra|
    requires a < 128 && |own0| + used == 158 + 129 * a
    ensures r.indirect2 == (own0 + extra)[157] && r.indirect2 < |d|
    ensures Growing(d0, own0, extra, d[r.indirect2 := SetWord(d[r.indirect2], a, extra[used])], r, used + 1)
  {
    hide Growing, CanGrow, Parent, EntryIndex;
    SubPositions(a, 0);
    GrowingAt(d0, own0, extra, d, r, used, 157);
    GrowingEntry(d0, r0, own0, extra, d, r, used);
  }

  lemma GrowingSubEntry(d0: seq<Block>, r0: InodeRec, own0: seq<u32>, extra: seq<u32>, d: seq<Block>, r: InodeRec,
                        used: nat, a: nat, b: nat)
    requires CanGrow(d0, r0, own0, extra) && Growing(d0, own0, extra, d, r, used) && used < |extra|
    requires a < 128 && b < 128 && |own0| + used == 158 + 129 * a + 1 + b
    ensures r.indirect2 == (own0 + extra)[157] && r.indirect2 < |d|
    ensures var sub := Word(d[r.indirect2], a);
            && sub == (own0 + extra)[158 + 129 * a] && sub < |d| && sub != r.indirect2
            && Growing(d0, own0, extra, d[sub := SetWord(d[sub], b, extra[used])], r, used + 1)
  {
    hide Growing, CanGrow, Word, SetWord, Ptr;
    SubBlockAt(d0, r0, own0, extra, d, r, used, a);
    SubEntryGrown(d0, r0, own0, extra, d, r, used, a, b, Ptr(d, r, 158 + 129 * a));
  }

  lemma SubEntryGrown(d0: seq<Block>, r0: InodeRec, own0: seq<u32>, extra: seq<u32>, d: seq<Block>, r: InodeRec,
                      used: nat, a: nat, b: nat, sub: u32)
    requires CanGrow(d0, r0, own0, extra) && Growing(d0, own0, extra, d, r, used) && used < |extra|
    requires a < 128 && b < 128 && |own0| + used == 158 + 129 * a + 1 + b
    requires sub == Ptr(d, r, 158 + 129 * a) && sub < |d|
    ensures Growing(d0, own0, extra, d[sub := SetWord(d[sub], b, extra[used])], r, used + 1)
  {
    hide Growing, CanGrow, Ptr, Parent, EntryIndex, IsField, SetWord;
    SubPositions(a, b);
    GrowingEntry(d0, r0, own0, extra, d, r, used);
  }

  /** Where sub-block a is, once it is there. */
  lemma SubBlockAt(d0: seq<Block>, r0: InodeRec, own0: seq<u32>, extra: seq<u32>, d: seq<Block>, r: InodeRec, used: nat, a: nat)
    requires CanGrow(d0, r0, own0, extra) && Growing(d0, own0, extra, d, r, used)
    requires a < 128 && 158 + 129 * a < |own0| + used && used <= |extra|
    ensures r.indirect2 == (own0 + extra)[157] && r.indirect2 < |d|
    ensures var sub := Word(d[r.indirect2], a);
            && sub == (own0 + extra)[158 + 129 * a] == Ptr(d, r, 158 + 129 * a) && sub < |d| && sub != r.indirect2
  {
    var q := 158 + 129 * a;
    ListSubEntry(d, r, a, 0);
    DoublePtr(d, r);
    assert NoDup(own0 + extra);
    hide Growing, CanGrow, Ptr, NoDup;
    GrowingAt(d0, own0, extra, d, r, used, 157);
    GrowingAt(d0, own0, extra, d, r, used, q);
    DistinctAt(own0 + extra, 157, q);
  }

  lemma DoublePtr(d: seq<Block>, r: InodeRec)
    ensures Ptr(d, r, 157) == r.indirect2
  {
  }

  lemma DistinctAt(s: seq<nat>, i: nat, j: nat)
    requires NoDup(s) && i < j < |s|
    ensures s[i] != s[j]
  {
  }

  /** Pointers do not depend on the size and type fields. */
  lemma TreeSize(d: seq<Block>, r: InodeRec, r': InodeRec, own: seq<u32>)
    requires Tree(d, r, own)
    requires r'.direct == r.direct && r'.indirect1 == r.indirect1 && r'.indirect2 == r.indirect2
    ensures Tree(d, r', own)
  {
    forall p
      ensures Ptr(d, r', p) == Ptr(d, r, p)
    {
      PtrFrame(d, d, r, r', p);
    }
    assert Pointers(d, r', |own|) == own;
  }

  lemma IndexBlocksAppend(own: seq<u32>, w: u32)
    ensures IndexBlocks(own) <= IndexBlocks(own + [w])
  {
    forall b | b in IndexBlocks(own)
      ensures b in IndexBlocks(own + [w])
    {
      var p :| 0 <= p < |own| && IsIndexPos(p) && own[p] == b;
      assert (own + [w])[p] == b;
    }
  }

  /** Growing the tree by a pointer that is a field. */
  lemma GrowField(d: seq<Block>, r: InodeRec, own: seq<u32>, w: u32)
    requires Tree(d, r, own) && NewBlock(d, own, w)
    requires IsField(|own|)
    ensures Tree(d, WithField(r, |own|, w), own + [w])
  {
    var p := |own|;
    var r' := WithField(r, p, w);
    forall q | 0 <= q < p
      ensures Ptr(d, r', q) == own[q]
    {
      FieldElsewhere(d, r, p, w, q);
    }
    forall q | p < q < MAX_POINTERS && (IsField(q) || Parent(q) <= p)
      ensures Ptr(d, r', q) == 0
    {
      if !IsField(q) && Parent(q) == p {
        ZeroEntries(d, w, EntryIndex(q));
      } else {
        FieldElsewhere(d, r, p, w, q);
      }
    }
  }

  /** Growing the tree by a pointer that lives in an index block. */
  lemma GrowEntry(d: seq<Block>, r: InodeRec, own: seq<u32>, w: u32)
    requires Tree(d, r, own) && NewBlock(d, own, w)
    requires |own| < MAX_POINTERS && !IsField(|own|)
    ensures Ptr(d, r, Parent(|own|)) == own[Parent(|own|)]
    ensures Tree(WithEntry(d, r, |own|, w), r, own + [w])
  {
    var p := |own|;
    assert Ptr(d, r, Parent(p)) == own[Parent(p)];
    var d' := WithEntry(d, r, p, w);
    forall q | 0 <= q < p
      ensures Ptr(d', r, q) == own[q]
    {
      EntryElsewhere(d, r, p, w, q);
    }
    EntryWritten(d, r, p, w);
    forall q | p < q < MAX_POINTERS && (IsField(q) || Parent(q) <= p)
      ensures Ptr(d', r, q) == 0
    {
      if !IsField(q) && Parent(q) == p {
        assert d'[w] == d[w];
        ZeroEntries(d', w, EntryIndex(q));
      } else {
        EntryElsewhere(d, r, p, w, q);
      }
    }
  }

  // ---------- the bytes of a file

  /** Byte k of the blocks a file with block list own occupies, whether or not it lies below the file's size. */
  function FileByte(d: seq<Block>, own: seq<u32>, k: nat): byte {
    var p := DataPos(k / 512);
    if p < |own| && own[p] < |d| then d[own[p]][k % 512] else 0
  }

  function Raw(d: seq<Block>, own: seq<u32>, len: nat): (s: seq<byte>)
    ensures |s| == len
    ensures forall k :: 0 <= k < len ==> s[k] == FileByte(d, own, k)
  {
    seq(len, k requires 0 <= k < len => FileByte(d, own, k))
  }

  /** The contents of the file. */
  function Contents(d: seq<Block>, r: InodeRec): (s: seq<byte>)
    ensures |s| == r.size
  {
    Raw(d, Owned(d, r), r.size)
  }

  /** The bytes of the last block that lie past the file's size are zero. */
  ghost predicate TailZero(d: seq<Block>, r: InodeRec) {
    forall k :: r.size <= k < 512 * DataBlocksOf(r.size) ==> FileByte(d, Owned(d, r), k) == 0
  }

  ghost function DataBlockSet(own: seq<u32>): (s: set<nat>) {
    set p | 0 <= p < |own| && !IsIndexPos(p) :: own[p]
  }

  lemma IndexAndDataDisjoint(own: seq<u32>)
    requires NoDup(own)
    ensures IndexBlocks(own) !! DataBlockSet(own)
  {
    forall b | b in IndexBlocks(own)
      ensures b !in DataBlockSet(own)
    {
    }
  }

  /** A tree survives changes outside its index blocks. */
  lemma TreeFrame(d: seq<Block>, d': seq<Block>, r: InodeRec, own: seq<u32>, changed: set<nat>)
    requires Tree(d, r, own) && SameOutside(d, d', changed)
    requires IndexBlocks(own) !! changed
    ensures Tree(d', r, own)
  {
    PointersFrame(d, d', r, r, |own|, changed);
    forall q | |own| <= q < MAX_POINTERS && (IsField(q) || Parent(q) < |own|)
      ensures Ptr(d', r, q) == 0
    {
      assert Ptr(d, r, q) == 0;
      if !IsField(q) {
        assert Pointers(d, r, |own|)[Parent(q)] == own[Parent(q)];
        assert own[Parent(q)] in IndexBlocks(own);
        assert Pointers(d', r, |own|)[Parent(q)] == own[Parent(q)];
        assert Ptr(d', r, q) == Entry(d', own[Parent(q)], EntryIndex(q));
        assert Ptr(d, r, q) == Entry(d, own[Parent(q)], EntryIndex(q));
      }
    }
  }

  /** Overwriting part of data block j changes the file's bytes there and nowhere else. */
  lemma WriteDataBlock(d: seq<Block>, r: InodeRec, own: seq<u32>, j: nat, off: nat, patch: seq<byte>)
    requires Tree(d, r, own) && DataPos(j) < |own| && off + |patch| <= 512
    ensures var b := own[DataPos(j)];
            var d' := d[b := Splice(d[b], off, patch)];
            && Tree(d', r, own)
            && SameOutside(d, d', DataBlockSet(own))
            && forall k: nat :: FileByte(d', own, k) ==
                 if 512 * j + off <= k < 512 * j + off + |patch| then patch[k - 512 * j - off] else FileByte(d, own, k)
  {
    var b := own[DataPos(j)];
    var d' := d[b := Splice(d[b], off, patch)];
    DataPosIsLast(j);
    IndexAndDataDisjoint(own);
    TreeFrame(d, d', r, own, {b});
    forall k: nat
      ensures FileByte(d', own, k) ==
                if 512 * j + off <= k < 512 * j + off + |patch| then patch[k - 512 * j - off] else FileByte(d, own, k)
    {
      if k / 512 < j {
        DataPosInjective(k / 512, j);
      } else if j < k / 512 {
        DataPosInjective(j, k / 512);
      }
    }
  }

  // ---------- listing the blocks, as clear_size does

  lemma ListPointer(d: seq<Block>, r: InodeRec, p: nat)
    ensures Pointers(d, r, p + 1) == Pointers(d, r, p) + [Ptr(d, r, p)]
  {
  }

  /** Where clear_size finds entry b of sub-block a. */
  lemma ListSubEntry(d: seq<Block>, r: InodeRec, a: nat, b: nat)
    requires b < 128
    ensures Ptr(d, r, 158 + 129 * a) == Entry(d, r.indirect2, a)
    ensures Ptr(d, r, 158 + 129 * a + 1 + b) == Entry(d, Entry(d, r.indirect2, a), b)
  {
    SubPositions(a, b);
    assert Ptr(d, r, 158 + 129 * a) == Entry(d, Ptr(d, r, 157), a);
  }

  /** An inode without blocks has only zero pointers, and an inode with zero pointers is a tree without blocks. */
  lemma EmptyTree(d: seq<Block>, r: InodeRec)
    requires r.WellFormed()
    ensures Tree(d, r, []) <==> (forall i :: 0 <= i < 28 ==> r.direct[i] == 0) && r.indirect1 == 0 && r.indirect2 == 0
  {
    if Tree(d, r, []) {
      forall i | 0 <= i < 28
        ensures r.direct[i] == 0
      {
        assert Ptr(d, r, i) == 0;
      }
      assert Ptr(d, r, 28) == 0 && Ptr(d, r, 157) == 0;
    }
  }

  // ---------- looking up the block just past the end, as an empty write at the end does

  const EFS_MAGIC: u32 := 0x3b800001

  /** Every block that get_block_id(k) touches or returns is on the device. */
  ghost predicate LookupReaches(d: seq<Block>, r: InodeRec, k: nat) {
    && k < MAX_DATA_BLOCKS
    && (28 <= k < 156 ==> r.indirect1 < |d|)
    && (156 <= k ==> r.indirect2 < |d| && Entry(d, r.indirect2, (k - 156) / 128) < |d|)
    && Lookup(d, r, k) < |d|
  }

  lemma PastEndIsZero(d: seq<Block>, r: InodeRec, own: seq<u32>, n: nat)
    requires Tree(d, r, own) && |own| == TotalOf(n) && n < MAX_DATA_BLOCKS && SharesIndexBlock(n)
    ensures Lookup(d, r, n) == 0
  {
    LookupIsPtr(d, r, n);
    DataPosIsLast(n);
    TotalMonotone(n + 1, MAX_DATA_BLOCKS);
    assert TotalOf(n + 1) == TotalOf(n) + 1;
    if !IsField(DataPos(n)) {
      assert Parent(DataPos(n)) < |own|;
    }
    assert Ptr(d, r, DataPos(n)) == 0;
  }

  /**
   * Looking up the block just past a file of n blocks stays on a device (whose super block starts with
   * the magic number) exactly when that block's pointer needs no new index block.
   */
  lemma PastEndLookup(d: seq<Block>, r: InodeRec, own: seq<u32>, n: nat)
    requires Tree(d, r, own) && |own| == TotalOf(n) && n <= MAX_DATA_BLOCKS
    requires 0 < |d| <= EFS_MAGIC && Word(d[0], 0) == EFS_MAGIC
    ensures LookupReaches(d, r, n) <==> SharesIndexBlock(n)
  {
    if SharesIndexBlock(n) {
      assert n < MAX_DATA_BLOCKS;
      PastEndIsZero(d, r, own, n);
      if n >= 156 {
        SharedSub(n);
        SubPosFacts(n);
        LookupIsPtr(d, r, n);
        assert Pointers(d, r, |own|)[157] == own[157] && Pointers(d, r, |own|)[SubPos(n)] == own[SubPos(n)];
      } else if n > 28 {
        assert Pointers(d, r, |own|)[28] == own[28];
      }
    } else if n == 28 {
      assert Ptr(d, r, 28) == 0;
    } else if n == 156 {
      assert Ptr(d, r, 157) == 0;
    } else if n < MAX_DATA_BLOCKS {
      var a := (n - 156) / 128;
      SubPositions(a, 0);
      assert TotalOf(n) == 158 + 129 * a;
      ListSubEntry(d, r, a, 0);
      assert Ptr(d, r, 158 + 129 * a) == 0;
    }
  }
}
