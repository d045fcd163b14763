/** What each file operation means to its callers, and that every operation of every run does just that. */
module FileSystemLaws {
  import opened Bytes
  import opened InodeTree
  import opened Vfs
  import opened Dirents
  import opened Directory
  import opened FileSystem

  /** Blocks of a file: one for each 512 bytes begun, and the index blocks that more than 28, and more than 156, need. */
  function BlocksTaken(size: nat): nat {
    var n := if size % 512 == 0 then size / 512 else size / 512 + 1;
    if n <= 28 then n
    else if n <= 156 then n + 1
    else n + 2 + if (n - 156) % 128 == 0 then (n - 156) / 128 else (n - 156) / 128 + 1
  }

  lemma BlocksMean(size: nat)
    ensures BlocksOf(size) == BlocksTaken(size)
  {
    Begun(size, 512);
    var n := DataBlocksOf(size);
    if n > 156 {
      Begun(n - 156, 128);
    }
  }

  lemma Begun(n: nat, unit: nat)
    requires unit == 512 || unit == 128
    ensures (n + unit - 1) / unit == if n % unit == 0 then n / unit else n / unit + 1
  {
  }

  /** Of a file of that size, as many bytes from offset on as there are and as fit into len. */
  function Readable(size: nat, offset: nat, len: nat): nat {
    if offset >= size then 0 else if size - offset < len then size - offset else len
  }

  /** A file comes into being empty, behind the others; the directory grows by 32 bytes. */
  ghost predicate CreateIs(s: FsState, name: Name, t: FsState, out: Outcome) {
    if name in s.files then out == AlreadyThere && t == s
    else
      && out == Made && t.files == s.files[name := []] && t.order == s.order + [name]
      && s.free - t.free == BlocksTaken(32 * |s.order| + 32) - BlocksTaken(32 * |s.order|)
  }

  /** The bytes written are there, what was there before is around them, and zeros fill a gap. */
  ghost predicate WriteIs(s: FsState, name: Name, offset: nat, bytes: seq<byte>, t: FsState, out: Outcome) {
    if name !in s.files then out == NotFound && t == s
    else
      && out == Wrote(|bytes|) && t.order == s.order && t.files.Keys == s.files.Keys
      && (forall n :: n in s.files && n != name ==> t.files[n] == s.files[n])
      && var (old', new') := (s.files[name], t.files[name]);
      && |new'| == (if offset + |bytes| > |old'| then offset + |bytes| else |old'|)
      && (forall i :: 0 <= i < |new'| ==>
            new'[i] == if offset <= i < offset + |bytes| then bytes[i - offset] else if i < |old'| then old'[i] else 0)
      && s.free - t.free == BlocksTaken(|new'|) - BlocksTaken(|old'|)
  }

  /** The bytes of the file from offset on, as many as are asked for or as there are; nothing changes. */
  ghost predicate ReadIs(s: FsState, name: Name, offset: nat, len: nat, t: FsState, out: Outcome) {
    && t == s
    && if name !in s.files then out == NotFound
       else
         && out.Got? && |out.bytes| == Readable(|s.files[name]|, offset, len)
         && forall i :: 0 <= i < |out.bytes| ==> out.bytes[i] == s.files[name][offset + i]
  }

  /** The file is empty, and its blocks are free. */
  ghost predicate ClearIs(s: FsState, name: Name, t: FsState, out: Outcome) {
    if name !in s.files then out == NotFound && t == s
    else
      && out == Cleared && t.files == s.files[name := []] && t.order == s.order
      && t.free == s.free + BlocksTaken(|s.files[name]|)
  }

  ghost predicate Lawful(s: FsState, op: Op, t: FsState, out: Outcome) {
    match op
    case Create(name) => CreateIs(s, name, t, out)
    case Write(name, offset, bytes) => WriteIs(s, name, offset, bytes, t, out)
    case Read(name, offset, len) => ReadIs(s, name, offset, len, t, out)
    case Clear(name) => ClearIs(s, name, t, out)
    case List => t == s && out == Listing(s.order)
  }

  lemma WriteLawful(s: FsState, name: Name, offset: nat, bytes: seq<byte>)
    ensures var op := Write(name, offset, bytes); WriteIs(s, name, offset, bytes, Next(s, op), Result(s, op))
  {
    hide BlocksOf, BlocksTaken, Written;
    if name in s.files {
      BlocksMean(|s.files[name]|);
      BlocksMean(offset + |bytes|);
      WrittenBytes(s.files[name], offset, bytes);
    }
  }

  lemma WrittenBytes(old': seq<byte>, offset: nat, bytes: seq<byte>)
    ensures var new' := Written(old', offset, bytes);
            forall i :: 0 <= i < |new'| ==>
              new'[i] == if offset <= i < offset + |bytes| then bytes[i - offset] else if i < |old'| then old'[i] else 0
  {
  }

  lemma ReadLawful(s: FsState, name: Name, offset: nat, len: nat)
    ensures var op := Read(name, offset, len); ReadIs(s, name, offset, len, Next(s, op), Result(s, op))
  {
  }

  /** Every operation does what its law says. */
  lemma EveryOpLawful(s: FsState, op: Op)
    ensures Lawful(s, op, Next(s, op), Result(s, op))
  {
    match op
    case Create(name) =>
      hide BlocksOf, BlocksTaken, EntryNeeds;
      BlocksMean(32 * |s.order| + 32);
      BlocksMean(32 * |s.order|);
      EntryBlocks(|s.order|);
    case Write(name, offset, bytes) => WriteLawful(s, name, offset, bytes);
    case Read(name, offset, len) => ReadLawful(s, name, offset, len);
    case Clear(name) =>
      hide BlocksOf, BlocksTaken;
      if name in s.files {
        BlocksMean(|s.files[name]|);
      }
    case List =>
  }

  lemma EntryBlocks(entries: nat)
    ensures EntryNeeds(entries) == BlocksOf(32 * entries + 32) - BlocksOf(32 * entries)
  {
  }

  /** What callers must see to, in numbers: reading, listing and clearing ask for nothing. */
  lemma EnabledMeans(s: FsState, inodes: nat, op: Op)
    ensures op.Read? || op.Clear? || op.List? ==> Enabled(s, inodes, op)
    ensures op.Create? && op.name !in s.files ==>
              (Enabled(s, inodes, op) <==>
                 && |op.name| <= 27 && 0 !in op.name && |s.order| + 1 < inodes && 32 * |s.order| + 32 <= 8468480
                 && BlocksTaken(32 * |s.order| + 32) - BlocksTaken(32 * |s.order|) <= s.free)
    ensures op.Write? && op.name in s.files && op.bytes != [] ==>
              (Enabled(s, inodes, op) <==>
                 && op.offset + |op.bytes| <= 8468480
                 && (op.offset + |op.bytes| < |s.files[op.name]| ==> 0 <= s.free)
                 && (op.offset + |op.bytes| >= |s.files[op.name]| ==>
                       BlocksTaken(op.offset + |op.bytes|) - BlocksTaken(|s.files[op.name]|) <= s.free))
  {
    hide BlocksOf, BlocksTaken, EntryNeeds;
    if op.Create? {
      BlocksMean(32 * |s.order| + 32);
      BlocksMean(32 * |s.order|);
      EntryBlocks(|s.order|);
    } else if op.Write? && op.name in s.files {
      BlocksMean(|s.files[op.name]|);
      BlocksMean(op.offset + |op.bytes|);
    }
  }

  /** Any run on a device goes through states between which each operation does what its law says. */
  method RunLawfully(dir: Inode, ops: seq<Op>) returns (outs: seq<Outcome>, ghost states: seq<FsState>)
    requires Steady(dir) && AllEnabled(Abs(dir), dir.fs.g.Inodes(), ops)
    modifies dir.fs.cache
    ensures Steady(dir) && |outs| == |ops| && |states| == |ops| + 1
    ensures states[0] == old(Abs(dir)) && states[|ops|] == Abs(dir)
    ensures forall k :: 0 <= k < |ops| ==> Lawful(states[k], ops[k], states[k + 1], outs[k])
  {
    hide Steady, Abs, Enabled, Next, Result, NextAll, Lawful;
    ghost var s0 := Abs(dir);
    outs := Run(dir, ops);
    states := seq(|ops| + 1, k requires 0 <= k <= |ops| => NextAll(s0, ops[..k]));
    NextAllNone(s0);
    assert ops[..|ops|] == ops && ops[..0] == [];
    forall k | 0 <= k < |ops|
      ensures Lawful(states[k], ops[k], states[k + 1], outs[k])
    {
      NextAllSnoc(s0, ops, k);
      EveryOpLawful(states[k], ops[k]);
    }
  }

  /** After a file has been cleared, reads give nothing until it is written again. */
  lemma {:induction false} ClearedStaysEmpty(s: FsState, name: Name, ops: seq<Op>, offset: nat, len: nat)
    requires name in s.files && forall k :: 0 <= k < |ops| && ops[k].Write? ==> ops[k].name != name
    ensures var t := NextAll(Next(s, Clear(name)), ops);
            name in t.files && t.files[name] == [] && Result(t, Read(name, offset, len)) == Got([])
  {
    EveryOpLawful(s, Clear(name));
    var s1 := Next(s, Clear(name));
    if ops != [] {
      hide Next, Result;
      var n := |ops| - 1;
      ClearedStaysEmpty(s, name, ops[..n], offset, len);
      EveryOpLawful(NextAll(s1, ops[..n]), ops[n]);
    }
    EveryOpLawful(NextAll(s1, ops), Read(name, offset, len));
  }
}
