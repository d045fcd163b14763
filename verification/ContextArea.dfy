/** The agent's context area: 64 KB of user memory that the kernel reads and writes through the page table. */
module ContextAreas {
  import opened Bytes
  import opened Collections
  import opened PageWalk
  import opened PageTables
  import opened UserMemory

  const AREA_SIZE: nat := 0x1_0000

  class ContextArea {
    const mem: Memory
    const root: nat
    const base: nat
    ghost const owner: map<nat, Node>

    constructor (mem: Memory, root: nat, base: nat, ghost owner: map<nat, Node>)
      requires base + AREA_SIZE <= 0x40_0000_0000 && TableOk(mem.pages, root, owner)
      requires Reachable(mem.pages, root, base, AREA_SIZE) && OwnFrames(mem.pages, root, owner, base, AREA_SIZE)
      ensures Valid() && this.mem == mem && this.root == root && this.base == base && this.owner == owner
    {
      this.mem, this.root, this.base, this.owner := mem, root, base, owner;
    }

    /** The area is mapped, page by page to frames of its own that are not page tables. */
    ghost predicate Valid()
      reads mem
    {
      && base + AREA_SIZE <= 0x40_0000_0000 && TableOk(mem.pages, root, owner)
      && Reachable(mem.pages, root, base, AREA_SIZE) && OwnFrames(mem.pages, root, owner, base, AREA_SIZE)
    }

    /** The bytes of the area. */
    ghost function Contents(): (s: seq<byte>)
      requires Valid()
      reads mem
      ensures |s| == AREA_SIZE
    {
      LoadAll(mem.pages, Addrs(mem.pages, root, base, AREA_SIZE))
    }

    /** Writes data at an offset of the area; the page tables are untouched. */
    method Write(off: nat, data: seq<byte>)
      requires Valid() && off + |data| <= AREA_SIZE
      modifies mem`pages
      ensures Valid() && Contents() == Splice(old(Contents()), off, data)
      ensures SameOn(old(mem.pages), mem.pages, owner.Keys)
    {
      hide TableOk, Reachable, OwnFrames, Addrs, LoadAll, StoreAll, SameOn;
      ghost var pages := mem.pages;
      PartOfArea(pages, root, owner, base, off, |data|);
      assert VaFrom(base + off) == base + off;
      WriteUserBytes(mem, root, base + off, data);
      AreaWritten(pages, root, owner, base, off, data);
    }

    /** Fills the buffer from an offset of the area. */
    method Read(off: nat, buf: array<byte>)
      requires Valid() && off + buf.Length <= AREA_SIZE
      modifies buf
      ensures Valid() && Contents() == old(Contents()) && buf[..] == Contents()[off..off + buf.Length]
    {
      hide TableOk, Reachable, OwnFrames, Addrs, LoadAll;
      PartOfArea(mem.pages, root, owner, base, off, buf.Length);
      assert VaFrom(base + off) == base + off;
      ReadUserBytes(mem, root, base + off, buf);
      LoadPart(mem.pages, root, owner, base, off, buf.Length);
    }
  }

  /** A range within the area is as well mapped as the area. */
  lemma PartOfArea(pages: seq<Page>, root: nat, owner: map<nat, Node>, base: nat, off: nat, len: nat)
    requires Reachable(pages, root, base, AREA_SIZE) && OwnFrames(pages, root, owner, base, AREA_SIZE)
    requires off + len <= AREA_SIZE
    ensures Reachable(pages, root, base + off, len) && OwnFrames(pages, root, owner, base + off, len)
    ensures Addrs(pages, root, base + off, len) == Addrs(pages, root, base, AREA_SIZE)[off..off + len]
  {
    hide TranslateVa;
  }

  lemma LoadPart(pages: seq<Page>, root: nat, owner: map<nat, Node>, base: nat, off: nat, len: nat)
    requires Reachable(pages, root, base, AREA_SIZE) && OwnFrames(pages, root, owner, base, AREA_SIZE)
    requires off + len <= AREA_SIZE && Reachable(pages, root, base + off, len)
    ensures LoadAll(pages, Addrs(pages, root, base + off, len)) == LoadAll(pages, Addrs(pages, root, base, AREA_SIZE))[off..off + len]
  {
    hide Reachable, OwnFrames, Addrs, ByteAt;
    PartOfArea(pages, root, owner, base, off, len);
  }

  /** After a write of part of the area its bytes are the old ones with that part replaced. */
  lemma AreaWritten(pages: seq<Page>, root: nat, owner: map<nat, Node>, base: nat, off: nat, data: seq<byte>)
    requires TableOk(pages, root, owner)
    requires Reachable(pages, root, base, AREA_SIZE) && OwnFrames(pages, root, owner, base, AREA_SIZE)
    requires off + |data| <= AREA_SIZE
    ensures Reachable(pages, root, base + off, |data|) && OnMemory(pages, Addrs(pages, root, base + off, |data|))
    ensures var pages' := StoreAll(pages, Addrs(pages, root, base + off, |data|), data);
            && TableOk(pages', root, owner)
            && Reachable(pages', root, base, AREA_SIZE) && OwnFrames(pages', root, owner, base, AREA_SIZE)
            && LoadAll(pages', Addrs(pages', root, base, AREA_SIZE))
            == Splice(LoadAll(pages, Addrs(pages, root, base, AREA_SIZE)), off, data)
            && SameOn(pages, pages', owner.Keys)
  {
    hide TableOk, Reachable, OwnFrames, Addrs, StoreAll, OnMemory, ByteAt, TranslateVa, NoDup, Find, SameOn;
    PartOfArea(pages, root, owner, base, off, |data|);
    var part, all := Addrs(pages, root, base + off, |data|), Addrs(pages, root, base, AREA_SIZE);
    WriteThenRead(pages, root, owner, base + off, data, 0);
    var pages' := StoreAll(pages, part, data);
    TablesUntouched(pages, root, owner, base + off, data);
    SameTranslations(pages, pages', root, base, AREA_SIZE);
    SameOwnFrames(pages, pages', root, owner, base, AREA_SIZE);
    DistinctAddrs(pages, root, owner, base, AREA_SIZE);
    DistinctAddrs(pages, root, owner, base + off, |data|);
    forall k | 0 <= k < AREA_SIZE
      ensures ByteAt(pages', all[k]) == if off <= k < off + |data| then data[k - off] else ByteAt(pages, all[k])
    {
      StoredBytes(pages, part, data, all[k]);
      InPart(all, off, |data|, k);
    }
  }

  lemma InPart(all: seq<nat>, off: nat, len: nat, k: nat)
    requires NoDup(all) && off + len <= |all| && k < |all|
    ensures off <= k < off + len ==> all[off..off + len][k - off] == all[k]
    ensures !(off <= k < off + len) ==> all[k] !in all[off..off + len]
  {
  }

  lemma SameOwnFrames(pages: seq<Page>, pages': seq<Page>, root: nat, owner: map<nat, Node>, va: nat, len: nat)
    requires |pages'| == |pages| && Reachable(pages, root, va, len) && Reachable(pages', root, va, len)
    requires OwnFrames(pages, root, owner, va, len)
    requires forall v :: Find(pages', root, v) == Find(pages, root, v)
    ensures OwnFrames(pages', root, owner, va, len)
  {
    hide Find;
    forall a: nat
      ensures TranslateVa(pages', root, a) == TranslateVa(pages, root, a)
    {
      assert Find(pages', root, Floor(a)) == Find(pages, root, Floor(a));
    }
    hide TranslateVa;
  }
}
