/** The format of the device, byte by byte: what any other reader of it may rely on. */
module DiskFormat {
  import opened Bytes
  import opened Bitmaps
  import opened EfsState
  import opened Dirents

  // ---------- integers

  /** The low byte comes first: byte k counts 256 to the power of k. */
  lemma {:induction false} LowByteFirst(a: seq<byte>, b: seq<byte>)
    ensures FromLe(a + b) == FromLe(a) + Pow256(|a|) * FromLe(b)
  {
    if a == [] {
      assert a + b == b;
    } else {
      assert (a + b)[1..] == a[1..] + b;
      LowByteFirst(a[1..], b);
      Distribute(a[0], FromLe(a[1..]), Pow256(|a| - 1), FromLe(b));
    }
  }

  lemma Distribute(x: nat, y: nat, p: nat, z: nat)
    ensures x + 256 * (y + p * z) == x + 256 * y + 256 * p * z
  {
  }

  lemma OneByte(x: byte)
    ensures FromLe([x]) == x
  {
  }

  // ---------- the bitmaps

  /** Bit r of a byte. */
  predicate ByteBit(x: byte, r: nat)
    requires r < 8
  {
    x / [1, 2, 4, 8, 16, 32, 64, 128][r] % 2 == 1
  }

  lemma {:induction false} ByteBitMeans(x: byte, r: nat)
    requires r < 8
    ensures Bit(x, r) <==> ByteBit(x, r)
  {
    if r > 0 {
      ByteBitMeans(x / 2, r - 1);
      HalfBit(x, r);
    }
  }

  lemma HalfBit(x: byte, r: nat)
    requires 0 < r < 8
    ensures ByteBit(x, r) <==> ByteBit(x / 2, r - 1)
  {
    match r
    case 1 => assert x / 2 / 1 == x / 2;
    case 2 => assert x / 2 / 2 == x / 4;
    case 3 => assert x / 2 / 4 == x / 8;
    case 4 => assert x / 2 / 8 == x / 16;
    case 5 => assert x / 2 / 16 == x / 32;
    case 6 => assert x / 2 / 32 == x / 64;
    case 7 => assert x / 2 / 64 == x / 128;
  }

  lemma NextByte(w: nat, j: nat)
    ensures Bit(w, j + 8) <==> Bit(w / 256, j)
  {
    assert Bit(w, j + 8) <==> Bit(w / 2, j + 7);
    assert Bit(w, j + 8) <==> Bit(w / 2 / 2, j + 6);
    assert Bit(w, j + 8) <==> Bit(w / 2 / 2 / 2, j + 5);
    assert Bit(w, j + 8) <==> Bit(w / 2 / 2 / 2 / 2, j + 4);
    assert Bit(w, j + 8) <==> Bit(w / 2 / 2 / 2 / 2 / 2, j + 3);
    assert Bit(w, j + 8) <==> Bit(w / 2 / 2 / 2 / 2 / 2 / 2, j + 2);
    assert Bit(w, j + 8) <==> Bit(w / 2 / 2 / 2 / 2 / 2 / 2 / 2, j + 1);
    assert w / 2 / 2 / 2 / 2 / 2 / 2 / 2 / 2 == w / 256;
  }

  lemma {:induction false} LowBits(x: nat, y: nat, n: nat, r: nat)
    requires r < n
    ensures Bit(x + Pow2(n) * y, r) <==> Bit(x, r)
  {
    var p := Pow2(n - 1) * y;
    assert Pow2(n) * y == 2 * p;
    if r > 0 {
      assert (x + 2 * p) / 2 == x / 2 + p;
      LowBits(x / 2, y, n - 1, r - 1);
    }
  }

  /** Bit 8q + r of a little-endian integer is bit r of its byte q. */
  lemma {:induction false} BitOfByte(s: seq<byte>, q: nat, r: nat)
    requires q < |s| && r < 8
    ensures Bit(FromLe(s), 8 * q + r) <==> Bit(s[q], r)
  {
    assert Pow2(8) == 256;
    if q == 0 {
      LowBits(s[0], FromLe(s[1..]), 8, r);
    } else {
      NextByte(FromLe(s), 8 * (q - 1) + r);
      assert FromLe(s) / 256 == FromLe(s[1..]);
      BitOfByte(s[1..], q - 1, r);
    }
  }

  /** Bit k of a bitmap is a bit of a byte, 4096 bits a block and 8 a byte, the lowest first. */
  lemma BitmapFormat(d: seq<Block>, start: nat, k: nat)
    requires start + k / 4096 < |d|
    ensures BitAt(d, start, k) <==> ByteBit(d[start + k / 4096][k % 4096 / 8], k % 8)
  {
    hide Decomposition, Bit, ByteBit, FromLe;
    var (block, word, inner) := Decomposition(k);
    BitPlace(k);
    WordBit(d[start + block], word, inner / 8, inner % 8);
  }

  /** Where bit k lies, by words and by bytes. */
  lemma BitPlace(k: nat)
    ensures var (block, word, inner) := Decomposition(k);
            && block == k / 4096 && 8 * word + inner / 8 == k % 4096 / 8 && inner % 8 == k % 8
            && word < 64 && inner == 8 * (inner / 8) + inner % 8 && inner / 8 < 8
  {
    var (block, word, inner) := Decomposition(k);
    hide Decomposition;
    var j, q, r := 64 * word + inner, inner / 8, inner % 8;
    InBlock(k, block, j);
    Eight(8 * word + q, r, j);
    Eight(512 * block + 8 * word + q, r, k);
  }

  lemma InBlock(k: nat, block: nat, j: nat)
    requires k == 4096 * block + j && j < 4096
    ensures k / 4096 == block && k % 4096 == j
  {
  }

  lemma Eight(a: nat, r: nat, x: nat)
    requires x == 8 * a + r && r < 8
    ensures x / 8 == a && x % 8 == r
  {
  }

  lemma WordBit(b: Block, word: nat, q: nat, r: nat)
    requires word < 64 && q < 8 && r < 8
    ensures Bit(Long(b, word), 8 * q + r) <==> ByteBit(b[8 * word + q], r)
  {
    hide Bit, ByteBit, FromLe;
    var part := b[8 * word..8 * word + 8];
    assert part[q] == b[8 * word + q];
    BitOfByte(part, q, r);
    ByteBitMeans(part[q], r);
  }

  // ---------- super block, inodes and directory entries

  /** The super block: the magic number 0x3b800001, then five counts of blocks. */
  lemma SuperBlockFormat(b: Block, g: Geometry)
    requires HoldsSuperBlock(b, g)
    ensures LeAt(b, 0, 4) == 0x3b80_0001 && LeAt(b, 4, 4) == g.Total()
    ensures LeAt(b, 8, 4) == g.inodeBitmapBlocks && LeAt(b, 12, 4) == g.inodeAreaBlocks
    ensures LeAt(b, 16, 4) == g.dataBitmapBlocks && LeAt(b, 20, 4) == g.dataAreaBlocks
  {
    var ws := SuperBlockWords(g);
    assert Word(b, 0) == ws[0] && Word(b, 1) == ws[1] && Word(b, 2) == ws[2];
    assert Word(b, 3) == ws[3] && Word(b, 4) == ws[4] && Word(b, 5) == ws[5];
  }

  /** The areas follow the super block one after the other. */
  lemma AreaFormat(g: Geometry)
    ensures g.InodeAreaStart() == 1 + g.inodeBitmapBlocks
    ensures g.DataBitmapStart() == g.InodeAreaStart() + g.inodeAreaBlocks
    ensures g.DataStart() == g.DataBitmapStart() + g.dataBitmapBlocks
    ensures g.Total() == g.DataStart() + g.dataAreaBlocks
  {
  }

  /** Inodes lie in the inode area one after the other, 128 bytes each. */
  lemma InodePlace(g: Geometry, i: nat)
    ensures 512 * g.InodeBlock(i) + 128 * g.InodeSlot(i) == 512 * g.InodeAreaStart() + 128 * i
  {
  }

  /** An inode: its size, 28 direct pointers, the two indirect ones, and a byte that is 1 for a directory. */
  lemma InodeFormat(b: Block, slot: nat, k: nat)
    requires slot < 4 && k < 28
    ensures var r := DecodeInode(b, slot);
            && r.size == LeAt(b, 128 * slot, 4) && r.direct[k] == LeAt(b, 128 * slot + 4 + 4 * k, 4)
            && r.indirect1 == LeAt(b, 128 * slot + 116, 4) && r.indirect2 == LeAt(b, 128 * slot + 120, 4)
            && (r.isDir <==> b[128 * slot + 124] == 1)
  {
    hide FromLe, Pow256;
    var at := 128 * slot + 124;
    assert DecodeInode(b, slot).direct[k] == Word(b, 32 * slot + 1 + k);
    assert 4 * (32 * slot + 31) == at;
    LowByte(b[at..at + 4]);
    assert 4 * (32 * slot + 1 + k) == 128 * slot + 4 + 4 * k;
  }

  lemma LowByte(s: seq<byte>)
    requires s != []
    ensures FromLe(s) % 256 == s[0]
  {
  }

  /** A directory entry: 28 bytes with the name, NULs behind it, and the inode number. */
  lemma EntryFormat(name: Name, inodeNumber: u32, k: nat)
    requires |name| <= 28 && k < 28
    ensures var s := AsBytes(NewEntry(name, inodeNumber));
            s[k] == (if k < |name| then name[k] else 0) && LeAt(s, 28, 4) == inodeNumber
  {
    Pow256Values();
    FromLeToLe(inodeNumber, 4);
    assert AsBytes(NewEntry(name, inodeNumber))[28..32] == ToLe(inodeNumber, 4);
  }
}
