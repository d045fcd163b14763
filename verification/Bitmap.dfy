/** A bitmap kept in consecutive disk blocks, 64 words of 64 bits each, allocated first fit. */
module Bitmaps {
  import opened Bytes
  import opened Collections
  import opened BlockCache

  // ---------- bits of one word

  function Pow2(n: nat): (p: nat)
    ensures p > 0
  {
    if n == 0 then 1 else 2 * Pow2(n - 1)
  }

  predicate Bit(w: nat, j: nat) {
    if j == 0 then w % 2 == 1 else Bit(w / 2, j - 1)
  }

  function TrailingOnes(w: nat): nat {
    if w % 2 == 1 then 1 + TrailingOnes(w / 2) else 0
  }

  lemma Pow2Word()
    ensures Pow2(64) == 0x1_0000_0000_0000_0000
  {
    assert Pow2(8) == 0x100;
    assert Pow2(16) == 0x1_0000;
    assert Pow2(24) == 0x100_0000;
    assert Pow2(32) == 0x1_0000_0000;
    assert Pow2(40) == 0x100_0000_0000;
    assert Pow2(48) == 0x1_0000_0000_0000;
    assert Pow2(56) == 0x100_0000_0000_0000;
  }

  /** trailing_ones finds the lowest clear bit, and in an n-bit word that is not all ones it lies below n. */
  lemma {:induction false} TrailingOnesIsFirstClear(w: nat, n: nat)
    requires w < Pow2(n) - 1
    ensures TrailingOnes(w) < n
    ensures !Bit(w, TrailingOnes(w))
    ensures OnesBelow(w, TrailingOnes(w))
  {
    if w % 2 == 1 {
      TrailingOnesIsFirstClear(w / 2, n - 1);
      forall j: nat | j < TrailingOnes(w)
        ensures Bit(w, j)
      {
        if j > 0 {
          assert Bit(w / 2, j - 1);
        }
      }
    }
  }

  lemma {:induction false} AllOnes(n: nat, j: nat)
    requires j < n
    ensures Bit(Pow2(n) - 1, j)
  {
    if j > 0 {
      assert (Pow2(n) - 1) / 2 == Pow2(n - 1) - 1;
      AllOnes(n - 1, j - 1);
    }
  }

  /** Adding 2^j to a word whose bit j is clear sets that bit alone, which is what `|= 1 << j` does. */
  lemma {:induction false} SetBit(w: nat, j: nat, n: nat)
    requires !Bit(w, j) && w < Pow2(n) && j < n
    ensures w + Pow2(j) < Pow2(n)
    ensures WordBitChanged(w, w + Pow2(j), j, true)
  {
    if j == 0 {
      assert (w + 1) / 2 == w / 2;
    } else {
      assert (w + Pow2(j)) / 2 == w / 2 + Pow2(j - 1);
      SetBit(w / 2, j - 1, n - 1);
      forall i: nat
        ensures Bit(w + Pow2(j), i) <==> i == j || Bit(w, i)
      {
        if i > 0 {
          assert Bit(w + Pow2(j), i) <==> Bit(w / 2 + Pow2(j - 1), i - 1);
        }
      }
    }
  }

  lemma {:induction false} ClearBit(w: nat, j: nat)
    requires Bit(w, j)
    ensures w >= Pow2(j)
    ensures WordBitChanged(w, w - Pow2(j), j, false)
  {
    if j == 0 {
      assert (w - 1) / 2 == w / 2;
    } else {
      ClearBit(w / 2, j - 1);
      assert (w - Pow2(j)) / 2 == w / 2 - Pow2(j - 1);
      forall i: nat
        ensures Bit(w - Pow2(j), i) <==> i != j && Bit(w, i)
      {
        if i > 0 {
          assert Bit(w - Pow2(j), i) <==> Bit(w / 2 - Pow2(j - 1), i - 1);
        }
      }
    }
  }

  /** w' is w with bit j set to value. */
  ghost predicate WordBitChanged(w: nat, w': nat, j: nat, value: bool) {
    forall i: nat :: Bit(w', i) <==> if i == j then value else Bit(w, i)
  }

  lemma {:induction false} ZeroBits(j: nat)
    ensures !Bit(0, j)
  {
    if j > 0 {
      ZeroBits(j - 1);
    }
  }

  /** Setting the lowest clear bit of a 64-bit word that is not all ones. */
  lemma WordFirstFit(w: u64)
    requires w != 0xFFFF_FFFF_FFFF_FFFF
    ensures var inner := TrailingOnes(w);
            && inner < 64 && !Bit(w, inner) && OnesBelow(w, inner)
            && w + Pow2(inner) < 0x1_0000_0000_0000_0000 && WordBitChanged(w, w + Pow2(inner), inner, true)
  {
    Pow2Word();
    TrailingOnesIsFirstClear(w, 64);
    SetBit(w, TrailingOnes(w), 64);
  }

  // ---------- bits of a whole bitmap

  /** (block, word in the block, bit in the word) of a bit number. */
  function Decomposition(bit: nat): (pos: (nat, nat, nat))
    ensures pos.1 < 64 && pos.2 < 64
    ensures bit == pos.0 * 4096 + pos.1 * 64 + pos.2
  {
    var inBlock := bit % 4096;
    (bit / 4096, inBlock / 64, inBlock % 64)
  }

  lemma DecompositionUnique(block: nat, word: nat, inner: nat)
    requires word < 64 && inner < 64
    ensures Decomposition(block * 4096 + word * 64 + inner) == (block, word, inner)
  {
  }

  /** Bit k of the bitmap that starts at block `start` of device d. */
  predicate BitAt(d: seq<Block>, start: nat, k: nat) {
    var (block, word, inner) := Decomposition(k);
    start + block < |d| && Bit(Long(d[start + block], word), inner)
  }

  /** The bits set among the first n. */
  function UsedBits(d: seq<Block>, start: nat, n: nat): (used: set<nat>) {
    set k | 0 <= k < n && BitAt(d, start, k)
  }

  function Range(n: nat): (r: set<nat>)
    ensures |r| == n
    ensures forall k: nat :: k in r <==> k < n
  {
    if n == 0 then {} else Range(n - 1) + {n - 1}
  }

  /** Pigeonhole: a first clear bit lies below any bound that exceeds the number of set bits. */
  lemma FirstClearIsLow(d: seq<Block>, start: nat, n: nat, k: nat, bound: nat)
    requires bound <= n
    requires |UsedBits(d, start, n)| < bound
    requires forall j: nat :: j < k ==> BitAt(d, start, j)
    ensures k < bound
  {
    if bound <= k {
      assert Range(bound) <= UsedBits(d, start, n);
      SubsetSize(Range(bound), UsedBits(d, start, n));
    }
  }

  lemma {:induction false} SubsetSize(a: set<nat>, b: set<nat>)
    requires a <= b
    ensures |a| <= |b|
  {
    if a != {} {
      var x :| x in a;
      SubsetSize(a - {x}, b - {x});
    }
  }

  /** The n lowest bits of w are set. */
  ghost predicate OnesBelow(w: nat, n: nat) {
    forall i: nat :: i < n ==> Bit(w, i)
  }

  /** Every bit of the first `words` words is set. */
  ghost predicate WordsFull(data: Block, words: nat) {
    forall k: nat, j: nat {:trigger Bit(Long(data, k), j)} :: k < words && k < 64 && j < 64 ==> Bit(Long(data, k), j)
  }

  /** Every bit below n is set. */
  ghost predicate FullBelow(d: seq<Block>, start: nat, n: nat) {
    forall j: nat :: j < n ==> BitAt(d, start, j)
  }

  /** d' is d with bit k set to value; all other bits and all blocks outside the bitmap are as before. */
  ghost predicate BitChanged(d: seq<Block>, d': seq<Block>, start: nat, blocks: nat, k: nat, value: bool) {
    && |d'| == |d|
    && (forall j: nat :: BitAt(d', start, j) <==> if j == k then value else BitAt(d, start, j))
    && (forall b :: 0 <= b < |d| && !(start <= b < start + blocks) ==> d'[b] == d[b])
  }

  /** The device after word `word` of bitmap block `block` has become w. */
  function WithLong(d: seq<Block>, start: nat, block: nat, word: nat, w: u64): (d': seq<Block>)
    requires start + block < |d| && word < 64
  {
    d[start + block := SetLong(d[start + block], word, w)]
  }

  /** Replacing one word changes only the bits that word holds. */
  lemma BitsAfterWithLong(d: seq<Block>, start: nat, block: nat, word: nat, w: u64, k: nat)
    requires start + block < |d| && word < 64
    ensures var (b, l, i) := Decomposition(k);
            BitAt(WithLong(d, start, block, word, w), start, k)
              == if b == block && l == word then Bit(w, i) else BitAt(d, start, k)
  {
    LongSetLong(d[start + block], word, w);
  }

  /** If the new word differs from the old one in bit `inner` alone, so do the bitmaps. */
  lemma WithLongChangesBit(d: seq<Block>, start: nat, blocks: nat, bit: nat, w: u64, value: bool)
    requires var (block, word, inner) := Decomposition(bit);
             && start + block < |d| && block < blocks
             && WordBitChanged(Long(d[start + block], word), w, inner, value)
    ensures var (block, word, inner) := Decomposition(bit);
            BitChanged(d, WithLong(d, start, block, word, w), start, blocks, bit, value)
  {
    var (block, word, inner) := Decomposition(bit);
    var d' := WithLong(d, start, block, word, w);
    forall j: nat
      ensures BitAt(d', start, j) <==> if j == bit then value else BitAt(d, start, j)
    {
      BitsAfterWithLong(d, start, block, word, w, j);
    }
  }

  lemma FullBelowWord(d: seq<Block>, start: nat, id: nat, words: nat, n: nat)
    requires start + id < |d| && words <= 64
    requires FullBelow(d, start, id * 4096) && WordsFull(d[start + id], words)
    requires if words == 64 then n == 0 else n < 64 && OnesBelow(Long(d[start + id], words), n)
    ensures FullBelow(d, start, id * 4096 + words * 64 + n)
  {
    forall j: nat | j < id * 4096 + words * 64 + n
      ensures BitAt(d, start, j)
    {
      if j >= id * 4096 {
        var (b, l, i) := Decomposition(j);
        assert b == id;
        if l < words {
          assert Bit(Long(d[start + id], l), i);
        }
      }
    }
  }

  /** `bit` was the first clear bit of the bitmap, and d' is d with it set. */
  ghost predicate FirstClearSet(d: seq<Block>, d': seq<Block>, start: nat, blocks: nat, bit: nat) {
    && bit < blocks * 4096
    && !BitAt(d, start, bit) && FullBelow(d, start, bit)
    && BitChanged(d, d', start, blocks, bit, true)
  }

  /** What alloc does to a block whose first word with a clear bit is `word`, `inner` being its lowest clear bit. */
  lemma FirstFit(d: seq<Block>, start: nat, blocks: nat, id: nat, word: nat, inner: nat, w: u64)
    requires start + id < |d| && id < blocks && word < 64 && inner < 64
    requires FullBelow(d, start, id * 4096) && WordsFull(d[start + id], word)
    requires OnesBelow(Long(d[start + id], word), inner) && !Bit(Long(d[start + id], word), inner)
    requires WordBitChanged(Long(d[start + id], word), w, inner, true)
    ensures FirstClearSet(d, WithLong(d, start, id, word, w), start, blocks, id * 4096 + word * 64 + inner)
  {
    hide Bit, BitChanged, FullBelow, WordsFull, WithLong, OnesBelow, WordBitChanged;
    var bit := id * 4096 + word * 64 + inner;
    DecompositionUnique(id, word, inner);
    FullBelowWord(d, start, id, word, inner);
    WithLongChangesBit(d, start, blocks, bit, w, true);
  }

  lemma ClearOne(d: seq<Block>, start: nat, blocks: nat, bit: nat)
    requires bit < blocks * 4096 && BitAt(d, start, bit)
    ensures var (block, word, inner) := Decomposition(bit);
            && start + block < |d|
            && var w := Long(d[start + block], word);
            && block < blocks && start + block < |d| && w >= Pow2(inner)
            && BitChanged(d, WithLong(d, start, block, word, w - Pow2(inner)), start, blocks, bit, false)
  {
    hide Bit, BitChanged, WithLong, Pow2, WordBitChanged;
    var (block, word, inner) := Decomposition(bit);
    ClearBit(Long(d[start + block], word), inner);
    ClearOneBit(d, start, blocks, bit, Long(d[start + block], word) - Pow2(inner));
  }

  lemma ClearOneBit(d: seq<Block>, start: nat, blocks: nat, bit: nat, w: u64)
    requires bit < blocks * 4096
    requires var (block, word, inner) := Decomposition(bit);
             start + block < |d| && WordBitChanged(Long(d[start + block], word), w, inner, false)
    ensures var (block, word, inner) := Decomposition(bit);
            block < blocks && BitChanged(d, WithLong(d, start, block, word, w), start, blocks, bit, false)
  {
    WithLongChangesBit(d, start, blocks, bit, w, false);
  }

  class Bitmap {
    const start: nat
    const blocks: nat

    constructor (start: nat, blocks: nat)
      ensures this.start == start && this.blocks == blocks
    {
      this.start, this.blocks := start, blocks;
    }

    function Maximum(): nat {
      blocks * 4096
    }

    /** The bitmap lies on the device and nobody holds any of its blocks. */
    ghost predicate Usable(cache: BlockCacheManager)
      reads cache
    {
      && cache.Valid() && start + blocks <= |cache.view|
      && |cache.held| < BLOCK_CACHE_SIZE && (forall b :: start <= b < start + blocks ==> b !in cache.held)
    }

    /** Sets and returns the lowest clear bit, or returns None when every bit is set. */
    method Alloc(cache: BlockCacheManager) returns (bit: Option<nat>)
      requires Usable(cache)
      modifies cache
      ensures cache.Valid() && cache.held == old(cache.held)
      ensures bit.None? ==> cache.view == old(cache.view) && FullBelow(cache.view, start, Maximum())
      ensures bit.Some? ==> FirstClearSet(old(cache.view), cache.view, start, blocks, bit.value)
    {
      var id := 0;
      while id < blocks
        invariant Usable(cache) && cache.held == old(cache.held) && cache.view == old(cache.view)
        invariant id <= blocks
        invariant FullBelow(cache.view, start, id * 4096)
      {
        bit := AllocInBlock(cache, id);
        if bit.Some? {
          return;
        }
        id := id + 1;
      }
      bit := None;
    }

    /** The body of the loop in alloc: looks for a clear bit in one bitmap block. */
    method AllocInBlock(cache: BlockCacheManager, id: nat) returns (bit: Option<nat>)
      requires Usable(cache) && id < blocks
      requires FullBelow(cache.view, start, id * 4096)
      modifies cache
      ensures cache.Valid() && cache.held == old(cache.held)
      ensures bit.None? ==> cache.view == old(cache.view) && FullBelow(cache.view, start, (id + 1) * 4096)
      ensures bit.Some? ==> FirstClearSet(old(cache.view), cache.view, start, blocks, bit.value)
    {
      hide FirstClearSet, FullBelow, BlockCacheManager.Valid;
      ghost var d := cache.view;
      var data := cache.Lock(start + id);
      var after: Block;
      bit, after := FirstFitIn(data, id, d, start, blocks);
      cache.Modify(start + id, after);
      cache.Unlock(start + id);
      assert cache.held == old(cache.held);
    }

    /** Clears a set bit. */
    method Dealloc(cache: BlockCacheManager, bit: nat)
      requires Usable(cache)
      requires bit < Maximum() && BitAt(cache.view, start, bit)
      modifies cache
      ensures cache.Valid() && cache.held == old(cache.held)
      ensures BitChanged(old(cache.view), cache.view, start, blocks, bit, false)
    {
      hide Bit, BitAt, BitChanged, BlockCacheManager.Valid, Pow2, Long, SetLong, Decomposition;
      ClearOne(cache.view, start, blocks, bit);
      var (block, word, inner) := Decomposition(bit);
      var data := cache.Lock(start + block);
      var w := Long(data, word);
      cache.Modify(start + block, SetLong(data, word, w - Pow2(inner)));
      cache.Unlock(start + block);
      assert cache.held == old(cache.held);
    }
  }

  /** The closure alloc runs on one bitmap block. */
  method FirstFitIn(data: Block, id: nat, ghost d: seq<Block>, ghost start: nat, ghost blocks: nat)
      returns (bit: Option<nat>, after: Block)
    requires start + id < |d| && id < blocks && d[start + id] == data
    requires FullBelow(d, start, id * 4096)
    ensures bit.None? ==> after == data && FullBelow(d, start, (id + 1) * 4096)
    ensures bit.Some? ==> FirstClearSet(d, d[start + id := after], start, blocks, bit.value)
  {
    hide Bit, FirstClearSet, FullBelow, WordsFull, Pow2, TrailingOnes;
    var word := FirstNotFull(data);
    if word == 64 {
      FullBelowWord(d, start, id, 64, 0);
      bit, after := None, data;
    } else {
      var w := Long(data, word);
      var inner := TrailingOnes(w);
      WordFirstFit(w);
      FirstFit(d, start, blocks, id, word, inner, w + Pow2(inner));
      bit, after := Some(id * 4096 + word * 64 + inner), SetLong(data, word, w + Pow2(inner));
    }
  }

  /** Index of the first word that is not all ones, or 64. */
  method FirstNotFull(data: Block) returns (word: nat)
    ensures word <= 64
    ensures word < 64 ==> Long(data, word) != 0xFFFF_FFFF_FFFF_FFFF
    ensures WordsFull(data, word)
  {
    word := 0;
    Pow2Word();
    while word < 64 && Long(data, word) == 0xFFFF_FFFF_FFFF_FFFF
      invariant word <= 64
      invariant WordsFull(data, word)
    {
      forall j: nat | j < 64
        ensures Bit(Long(data, word), j)
      {
        AllOnes(64, j);
      }
      word := word + 1;
    }
  }
}
