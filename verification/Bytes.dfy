/** Bytes, and the little-endian integers that disk blocks and memory pages hold. */
module Bytes {

  type byte = x: int | 0 <= x < 256
  type u32 = x: int | 0 <= x < 0x1_0000_0000
  type u64 = x: int | 0 <= x < 0x1_0000_0000_0000_0000

  function Zeros(n: nat): (s: seq<byte>)
    ensures |s| == n && forall i :: 0 <= i < n ==> s[i] == 0
  {
    seq(n, _ => 0)
  }

  /** What s looks like after patch has been copied over it at offset off. */
  function Splice(s: seq<byte>, off: nat, patch: seq<byte>): (r: seq<byte>)
    requires off + |patch| <= |s|
    ensures |r| == |s|
    ensures forall i :: 0 <= i < |s| ==> r[i] == if off <= i < off + |patch| then patch[i - off] else s[i]
  {
    s[..off] + patch + s[off + |patch|..]
  }

  function Pow256(n: nat): (p: nat)
    ensures p > 0
  {
    if n == 0 then 1 else 256 * Pow256(n - 1)
  }

  function FromLe(s: seq<byte>): nat {
    if s == [] then 0 else s[0] + 256 * FromLe(s[1..])
  }

  function ToLe(v: nat, n: nat): (s: seq<byte>)
    ensures |s| == n
  {
    if n == 0 then [] else [v % 256] + ToLe(v / 256, n - 1)
  }

  lemma {:induction false} FromLeBound(s: seq<byte>)
    ensures FromLe(s) < Pow256(|s|)
  {
    if s != [] {
      FromLeBound(s[1..]);
    }
  }

  /** Encoding in n bytes loses nothing when the value fits. */
  lemma {:induction false} FromLeToLe(v: nat, n: nat)
    requires v < Pow256(n)
    ensures FromLe(ToLe(v, n)) == v
  {
    if n > 0 {
      FromLeToLe(v / 256, n - 1);
      assert ToLe(v, n)[1..] == ToLe(v / 256, n - 1);
    }
  }

  lemma {:induction false} FromLeZeros(n: nat)
    ensures FromLe(Zeros(n)) == 0
  {
    if n > 0 {
      assert Zeros(n)[1..] == Zeros(n - 1);
      FromLeZeros(n - 1);
    }
  }

  lemma Pow256Values()
    ensures Pow256(4) == 0x1_0000_0000 && Pow256(8) == 0x1_0000_0000_0000_0000
  {
    assert Pow256(2) == 0x1_0000;
    assert Pow256(4) == 0x1_0000 * 0x1_0000;
    assert Pow256(6) == 0x1_0000 * 0x1_0000 * 0x1_0000;
  }

  /** The n-byte integer at byte offset off. */
  function LeAt(s: seq<byte>, off: nat, n: nat): (v: nat)
    requires off + n <= |s|
    ensures v < Pow256(n)
  {
    FromLeBound(s[off..off + n]);
    FromLe(s[off..off + n])
  }

  function PutLe(s: seq<byte>, off: nat, n: nat, v: nat): (r: seq<byte>)
    requires off + n <= |s|
    ensures |r| == |s|
    ensures forall i :: 0 <= i < |s| && !(off <= i < off + n) ==> r[i] == s[i]
  {
    Splice(s, off, ToLe(v, n))
  }

  lemma LeAtPutLe(s: seq<byte>, off: nat, n: nat, v: nat)
    requires off + n <= |s| && v < Pow256(n)
    ensures LeAt(PutLe(s, off, n, v), off, n) == v
  {
    assert PutLe(s, off, n, v)[off..off + n] == ToLe(v, n);
    FromLeToLe(v, n);
  }

  lemma LeAtPutLeElsewhere(s: seq<byte>, off: nat, n: nat, v: nat, off': nat, n': nat)
    requires off + n <= |s| && off' + n' <= |s|
    requires off' + n' <= off || off + n <= off'
    ensures LeAt(PutLe(s, off, n, v), off', n') == LeAt(s, off', n')
  {
    assert PutLe(s, off, n, v)[off'..off' + n'] == s[off'..off' + n'];
  }

  lemma LeAtZeros(len: nat, off: nat, n: nat)
    requires off + n <= len
    ensures LeAt(Zeros(len), off, n) == 0
  {
    assert Zeros(len)[off..off + n] == Zeros(n);
    FromLeZeros(n);
  }

  // ---------- 512-byte disk blocks read as arrays of 32-bit or 64-bit words

  const BLOCK_SZ: nat := 512

  type Block = b: seq<byte> | |b| == BLOCK_SZ witness Zeros(BLOCK_SZ)

  const ZERO_BLOCK: Block := Zeros(BLOCK_SZ)

  function Word(b: Block, k: nat): (w: u32)
    requires k < 128
  {
    Pow256Values();
    LeAt(b, 4 * k, 4)
  }

  function SetWord(b: Block, k: nat, w: u32): (r: Block)
    requires k < 128
  {
    PutLe(b, 4 * k, 4, w)
  }

  lemma WordSetWord(b: Block, k: nat, w: u32)
    requires k < 128
    ensures Word(SetWord(b, k, w), k) == w
    ensures forall j :: 0 <= j < 128 && j != k ==> Word(SetWord(b, k, w), j) == Word(b, j)
  {
    Pow256Values();
    LeAtPutLe(b, 4 * k, 4, w);
    forall j | 0 <= j < 128 && j != k
      ensures Word(SetWord(b, k, w), j) == Word(b, j)
    {
      LeAtPutLeElsewhere(b, 4 * k, 4, w, 4 * j, 4);
    }
  }

  lemma WordZeroBlock(k: nat)
    requires k < 128
    ensures Word(ZERO_BLOCK, k) == 0
  {
    LeAtZeros(BLOCK_SZ, 4 * k, 4);
  }

  function Long(b: Block, k: nat): (w: u64)
    requires k < 64
  {
    Pow256Values();
    LeAt(b, 8 * k, 8)
  }

  function SetLong(b: Block, k: nat, w: u64): (r: Block)
    requires k < 64
  {
    PutLe(b, 8 * k, 8, w)
  }

  lemma LongSetLong(b: Block, k: nat, w: u64)
    requires k < 64
    ensures Long(SetLong(b, k, w), k) == w
    ensures forall j :: 0 <= j < 64 && j != k ==> Long(SetLong(b, k, w), j) == Long(b, j)
  {
    Pow256Values();
    LeAtPutLe(b, 8 * k, 8, w);
    forall j | 0 <= j < 64 && j != k
      ensures Long(SetLong(b, k, w), j) == Long(b, j)
    {
      LeAtPutLeElsewhere(b, 8 * k, 8, w, 8 * j, 8);
    }
  }

  lemma LongZeroBlock(k: nat)
    requires k < 64
    ensures Long(ZERO_BLOCK, k) == 0
  {
    LeAtZeros(BLOCK_SZ, 8 * k, 8);
  }
}
