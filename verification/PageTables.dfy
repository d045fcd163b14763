/** Physical memory with its frame allocator, and page tables kept in frames of it. */
module PageTables {
  import opened Bytes
  import opened Collections
  import opened PageWalk

  /** Physical memory, and the stack allocator of the frames first..end of it. */
  class Memory {
    var pages: seq<Page>
    var current: nat
    const end: nat
    var recycled: seq<nat>
    ghost const first: nat

    ghost predicate Valid()
      reads this
    {
      && first <= current <= end <= |pages| <= 0x1000_0000_0000
      && NoDup(recycled) && forall p :: p in recycled ==> first <= p < current
    }

    /** The frames given out and not returned. */
    ghost function Taken(): set<nat>
      reads this
    {
      set p | first <= p < current && p !in recycled
    }

    ghost function FreeFrames(): int
      reads this
    {
      end - current + |recycled|
    }

    /** The free frames are those not taken. */
    lemma FreeIsRest()
      requires Valid()
      ensures FreeFrames() == end - first - |Taken()|
    {
      var all, back := Between(first, current), AsSet(recycled);
      NoDupCount(recycled);
      assert Taken() == all - back && back <= all;
      assert all == Taken() + back;
    }

    /** init: the frames l..r of a memory are there to be given out. */
    constructor (pages: seq<Page>, l: nat, r: nat)
      requires l <= r <= |pages| <= 0x1000_0000_0000
      ensures Valid() && this.pages == pages && Taken() == {} && FreeFrames() == r - l
    {
      this.pages, current, end, recycled, first := pages, l, r, [], l;
    }

    /** A frame nobody has, all zero; None exactly when none is free. */
    method FrameAlloc() returns (r: Option<nat>)
      requires Valid()
      modifies this
      ensures Valid() && |pages| == |old(pages)|
      ensures r.None? <==> old(FreeFrames()) == 0
      ensures r.None? ==> pages == old(pages) && Taken() == old(Taken()) && FreeFrames() == 0
      ensures r.Some? ==>
                && r.value < |pages| && r.value !in old(Taken()) && Taken() == old(Taken()) + {r.value}
                && pages == old(pages)[r.value := ZERO_PAGE] && FreeFrames() == old(FreeFrames()) - 1
    {
      if recycled != [] {
        var n := |recycled| - 1;
        var p := recycled[n];
        assert p in recycled;
        assert forall i :: 0 <= i < n ==> recycled[..n][i] == recycled[i];
        assert forall x :: x in recycled <==> x in recycled[..n] || x == p;
        recycled := recycled[..n];
        r := Some(p);
      } else if current == end {
        return None;
      } else {
        current := current + 1;
        r := Some(current - 1);
      }
      ClearPage(r.value);
    }

    /** FrameTracker::new: page cleaning. */
    method ClearPage(p: nat)
      requires p < |pages|
      modifies this`pages
      ensures pages == old(pages)[p := ZERO_PAGE]
    {
      ghost var before := pages;
      for i := 0 to PAGE_SIZE
        invariant |pages| == |before| && pages == before[p := pages[p]]
        invariant forall j :: 0 <= j < i ==> pages[p][j] == 0
      {
        pages := pages[p := pages[p][i := 0]];
      }
      assert pages[p] == ZERO_PAGE;
    }

    /** Returns a frame. */
    method FrameDealloc(p: nat)
      requires Valid() && p in Taken()
      modifies this`recycled
      ensures Valid() && Taken() == old(Taken()) - {p} && FreeFrames() == old(FreeFrames()) + 1
    {
      recycled := recycled + [p];
    }

    /** Copies bytes into a page at an offset. */
    method WriteBytes(p: nat, off: nat, data: seq<byte>)
      requires p < |pages| && off + |data| <= PAGE_SIZE
      modifies this`pages
      ensures pages == old(pages)[p := Splice(old(pages)[p], off, data)]
      ensures Taken() == old(Taken()) && FreeFrames() == old(FreeFrames()) && (old(Valid()) ==> Valid())
    {
      pages := pages[p := Splice(pages[p], off, data)];
    }

    /** Copies a whole page. */
    method CopyPage(src: nat, dst: nat)
      requires src < |pages| && dst < |pages|
      modifies this`pages
      ensures pages == old(pages)[dst := old(pages)[src]]
      ensures Taken() == old(Taken()) && FreeFrames() == old(FreeFrames()) && (old(Valid()) ==> Valid())
    {
      pages := pages[dst := pages[src]];
    }
  }

  function WithV(flags: nat): (f: nat)
    requires flags < 256
    ensures f < 256 && f % 2 == 1 && f / 2 == flags / 2
  {
    if flags % 2 == 0 then flags + 1 else flags
  }

  /** The entry of a page mapped to ppn: the page number above ten bits, the flags asked for, and V, bit 0. */
  ghost predicate MapsTo(e: u64, ppn: nat, flags: nat) {
    e / 1024 == ppn && e % 1024 / 2 == flags / 2 && e % 2 == 1
  }

  lemma EntryMeans(ppn: nat, flags: nat)
    requires ppn < 0x1000_0000_0000 && flags < 256
    ensures var e := PteNew(ppn, WithV(flags));
            && MapsTo(e, ppn, flags) && IsValid(e) && PtePpn(e) == ppn && PteFlags(e) / 2 == flags / 2
  {
    PteRoundTrip(ppn, WithV(flags));
    EntryParts(ppn, WithV(flags));
  }

  lemma EntryParts(ppn: nat, f: nat)
    requires ppn < 0x1000_0000_0000 && f < 256
    ensures PteNew(ppn, f) / 1024 == ppn && PteNew(ppn, f) % 1024 == f && PteNew(ppn, f) % 2 == f % 2
  {
    assert 1024 * ppn % 2 == 0;
  }

  /**
   * A page table with frames `own` came to have frames `own'`, all new ones just taken; frames taken by others
   * stay taken and keep their bytes.
   */
  ghost predicate Extended(pages: seq<Page>, taken: set<nat>, own: set<nat>,
                           pages': seq<Page>, taken': set<nat>, own': set<nat>) {
    && taken' == taken + (own' - own) && own <= own' && (own' - own) !! taken
    && SameOn(pages, pages', taken - own)
  }

  lemma ExtendedTrans(pages: seq<Page>, taken: set<nat>, own: set<nat>, pages1: seq<Page>, taken1: set<nat>, own1: set<nat>,
                      pages2: seq<Page>, taken2: set<nat>, own2: set<nat>)
    requires Extended(pages, taken, own, pages1, taken1, own1) && Extended(pages1, taken1, own1, pages2, taken2, own2)
    ensures Extended(pages, taken, own, pages2, taken2, own2)
  {
  }

  /** How many tables a mapping of vpn still lacks. */
  function Missing(pages: seq<Page>, root: nat, vpn: nat): nat {
    if Mid(pages, root, Index(vpn, 0)).None? then 2
    else if Leaf(pages, root, Index(vpn, 0), Index(vpn, 1)).None? then 1 else 0
  }

  /** What the tables there are for. */
  ghost function Nodes(owner: map<nat, Node>): set<Node> {
    owner.Values
  }

  /** The tables below the root that the walk for vpn goes through. */
  function Needs(vpn: nat): set<Node> {
    {MidTable(Index(vpn, 0)), LeafTable(Index(vpn, 0), Index(vpn, 1))}
  }

  /** What is missing for vpn are the tables it needs that are not there. */
  lemma MissingIsNeeded(pages: seq<Page>, root: nat, owner: map<nat, Node>, vpn: nat)
    requires TableOk(pages, root, owner)
    ensures Missing(pages, root, vpn) == |Needs(vpn) - Nodes(owner)|
  {
    hide Entry, IsValid, PtePpn, Index;
    var i, j := Index(vpn, 0), Index(vpn, 1);
    NodePresent(pages, root, owner, MidTable(i));
    NodePresent(pages, root, owner, LeafTable(i, j));
    var lacking := Needs(vpn) - Nodes(owner);
    if Mid(pages, root, i).None? {
      assert lacking == {MidTable(i), LeafTable(i, j)};
    } else if Leaf(pages, root, i, j).None? {
      assert lacking == {LeafTable(i, j)};
    } else {
      assert lacking == {};
    }
  }

  /** The tables there are those that the walk finds. */
  lemma NodePresent(pages: seq<Page>, root: nat, owner: map<nat, Node>, node: Node)
    requires TableOk(pages, root, owner)
    requires match node case RootTable => true case MidTable(i) => i < 512 case LeafTable(i, j) => i < 512 && j < 512
    ensures node in Nodes(owner) <==>
              match node
              case RootTable => true
              case MidTable(i) => Mid(pages, root, i).Some?
              case LeafTable(i, j) => Leaf(pages, root, i, j).Some?
  {
    hide Mid, Leaf;
    if node in Nodes(owner) {
      var p :| p in owner && owner[p] == node;
      assert InPlaceTable(pages, root, p, owner[p]);
    }
    match node
    case RootTable => assert owner[root] == RootTable;
    case MidTable(i) => assert Mid(pages, root, i).Some? ==> owner[Mid(pages, root, i).value] == MidTable(i);
    case LeafTable(i, j) => assert Leaf(pages, root, i, j).Some? ==> owner[Leaf(pages, root, i, j).value] == LeafTable(i, j);
  }

  lemma OneMoreValue(owner: map<nat, Node>, p: nat, node: Node)
    requires p !in owner
    ensures Nodes(owner[p := node]) == Nodes(owner) + {node}
  {
    var more := owner[p := node];
    assert more[p] == node;
    forall n | n in Nodes(owner)
      ensures n in Nodes(more)
    {
      var q :| q in owner && owner[q] == n;
      assert more[q] == n;
    }
  }

  /** The table that the walk for vpn consults at a level is t. */
  ghost predicate AtLevel(pages: seq<Page>, root: nat, vpn: nat, level: nat, t: nat) {
    if level == 0 then t == root
    else if level == 1 then Mid(pages, root, Index(vpn, 0)) == Some(t)
    else Leaf(pages, root, Index(vpn, 0), Index(vpn, 1)) == Some(t)
  }

  /** A page table, with the frames of its tables. */
  class PageTable {
    const mem: Memory
    const root: nat
    var frames: seq<nat>
    ghost var owner: map<nat, Node>

    ghost predicate Valid()
      reads this, mem
    {
      && mem.Valid() && TableOk(mem.pages, root, owner)
      && NoDup(frames) && AsSet(frames) == owner.Keys && owner.Keys <= mem.Taken()
    }

    /** The mapping of vpn. */
    ghost function Map(vpn: nat): Option<u64>
      reads this, mem
    {
      Mapped(mem.pages, root, vpn)
    }

    /** What every method keeps: the frames taken by others, and their bytes. */
    twostate predicate OthersKept()
      reads this, mem
    {
      Extended(old(mem.pages), old(mem.Taken()), old(owner.Keys), mem.pages, mem.Taken(), owner.Keys)
    }

    /** A table that maps nothing. */
    constructor (mem: Memory, frame: nat)
      requires mem.Valid() && frame in mem.Taken() && frame < |mem.pages| && mem.pages[frame] == ZERO_PAGE
      ensures Valid() && this.mem == mem && root == frame && owner == map[frame := RootTable]
      ensures forall v :: Map(v) == None
    {
      this.mem, root, frames, owner := mem, frame, [frame], map[frame := RootTable];
      new;
      NewRoot(mem.pages, frame);
    }

    /** from_token: a table to look pages up in, which owns no frames. */
    constructor At(mem: Memory, root: nat)
      ensures this.mem == mem && this.root == root
    {
      this.mem, this.root, frames, owner := mem, root, [], map[];
    }

    /** find_pte: the third-level table that has the entry for vpn, if the walk gets there. */
    method FindPte(vpn: nat) returns (r: Option<nat>)
      ensures r.Some? <==> Missing(mem.pages, root, vpn) == 0
      ensures r.Some? ==> AtLevel(mem.pages, root, vpn, 2, r.value)
    {
      hide Entry, IsValid, PtePpn, Index;
      var idxs := Indexes(vpn);
      var ppn := root;
      for i := 0 to 2
        invariant AtLevel(mem.pages, root, vpn, i, ppn)
        invariant forall k :: 0 <= k < 3 ==> idxs[k] == Index(vpn, k)
      {
        var pte := Entry(mem.pages, ppn, idxs[i]);
        if !IsValid(pte) {
          NeedsFrame(mem.pages, root, vpn, i, ppn);
          return None;
        }
        Descend(mem.pages, root, vpn, i, ppn);
        ppn := PtePpn(pte);
      }
      r := Some(ppn);
    }

    /** find_pte_create, one level down: makes the next table if it does not exist; fails when no frame is left for it. */
    method NextTable(vpn: nat, level: nat, idx: nat, t: nat) returns (ok: bool, next: nat)
      requires Valid() && level < 2 && AtLevel(mem.pages, root, vpn, level, t) && idx == Index(vpn, level)
      modifies this, mem
      ensures Valid() && (ok ==> AtLevel(mem.pages, root, vpn, level + 1, next))
      ensures forall v :: Map(v) == old(Map(v))
      ensures OthersKept()
      ensures ok && !old(IsValid(Entry(mem.pages, t, idx))) ==> Entry(mem.pages, t, idx) == 1024 * next + 1
      ensures !ok ==> mem.FreeFrames() == 0 && Missing(mem.pages, root, vpn) > 0
      ensures ok ==> Nodes(owner) == old(Nodes(owner)) + {NodeBelow(vpn, level)}
      ensures mem.FreeFrames() - Missing(mem.pages, root, vpn) == old(mem.FreeFrames() - Missing(mem.pages, root, vpn))
    {
      hide TableOk, Entry, SetEntry, IsValid, PtePpn, PteNew, Index, Mapped, NoDup, Mid, Leaf, Missing, AtLevel, Nodes;
      LevelTable(mem.pages, root, owner, vpn, level, t);
      if IsValid(Entry(mem.pages, t, idx)) {
        Descend(mem.pages, root, vpn, level, t);
        TableBelow(mem.pages, root, owner, vpn, level, PtePpn(Entry(mem.pages, t, idx)));
        return true, PtePpn(Entry(mem.pages, t, idx));
      }
      ghost var pages := mem.pages;
      NeedsFrame(pages, root, vpn, level, t);
      var frame := mem.FrameAlloc();
      if frame.None? {
        return false, t;
      }
      ok, next := true, frame.value;
      UnusedFrame(pages, mem.pages, root, owner, next);
      SameLevel(pages, mem.pages, root, owner, vpn, level, t);
      NeedsFrame(mem.pages, root, vpn, level, t);
      AddTable(mem.pages, root, owner, vpn, level, t, next);
      OneMoreValue(owner, next, NodeBelow(vpn, level));
      owner := owner[next := NodeBelow(vpn, level)];
      PointerEntry(mem.pages, t, idx, next);
      mem.pages := SetEntry(mem.pages, t, idx, PteNew(next, FLAG_V));
      NoDupConcat(frames, [next]);
      frames := frames + [next];
    }

    /** find_pte_create: the third-level table for vpn, made if need be, while frames last. */
    method FindPteCreate(vpn: nat) returns (ok: bool, t: nat)
      requires Valid()
      modifies this, mem
      ensures ok <==> old(Missing(mem.pages, root, vpn)) <= old(mem.FreeFrames())
      ensures Valid() && (ok ==> t < |mem.pages| && Leaf(mem.pages, root, Index(vpn, 0), Index(vpn, 1)) == Some(t))
      ensures forall v :: Map(v) == old(Map(v))
      ensures OthersKept()
      ensures ok ==> mem.FreeFrames() == old(mem.FreeFrames() - Missing(mem.pages, root, vpn))
      ensures ok ==> Nodes(owner) == old(Nodes(owner)) + Needs(vpn)
    {
      hide TableOk, Mapped, NoDup, Index, Mid, Leaf, Nodes;
      ok, t := true, root;
      var idxs := Indexes(vpn);
      var level := 0;
      while ok && level < 2
        invariant level <= 2 && Valid() && (ok ==> AtLevel(mem.pages, root, vpn, level, t))
        invariant forall k :: 0 <= k < 3 ==> idxs[k] == Index(vpn, k)
        invariant forall v :: Map(v) == old(Map(v))
        invariant OthersKept()
        invariant ok ==> Nodes(owner) == old(Nodes(owner)) + (if level > 0 then {NodeBelow(vpn, 0)} else {}) +
                         (if level > 1 then {NodeBelow(vpn, 1)} else {})
        invariant mem.FreeFrames() - Missing(mem.pages, root, vpn) == old(mem.FreeFrames() - Missing(mem.pages, root, vpn))
        invariant !ok ==> mem.FreeFrames() < Missing(mem.pages, root, vpn)
        decreases 2 - level
      {
        ghost var pages, taken, own := mem.pages, mem.Taken(), owner.Keys;
        ok, t := NextTable(vpn, level, idxs[level], t);
        ExtendedTrans(old(mem.pages), old(mem.Taken()), old(owner.Keys), pages, taken, own, mem.pages, mem.Taken(), owner.Keys);
        level := level + 1;
      }
      if ok {
        LeafTableIn(mem.pages, root, owner, vpn, t);
      }
    }

    /** Maps vpn to ppn, if it is not mapped and there are frames for the tables it lacks; the original panics otherwise. */
    method MapPage(vpn: nat, ppn: nat, flags: nat) returns (ok: bool)
      requires Valid() && vpn < 0x800_0000 && ppn < 0x1000_0000_0000 && flags < 256
      modifies this, mem
      ensures ok <==> old(Map(vpn)).None? && old(Missing(mem.pages, root, vpn)) <= old(mem.FreeFrames())
      ensures Valid() && Map(vpn) == if ok then Some(PteNew(ppn, WithV(flags))) else old(Map(vpn))
      ensures ok ==> MapsTo(Map(vpn).value, ppn, flags)
      ensures forall v :: v < 0x800_0000 && v != vpn ==> Map(v) == old(Map(v))
      ensures OthersKept()
      ensures ok ==> mem.FreeFrames() == old(mem.FreeFrames() - Missing(mem.pages, root, vpn))
      ensures ok ==> Nodes(owner) == old(Nodes(owner)) + Needs(vpn)
    {
      hide TableOk, NoDup, Index, Mid, Leaf, Missing, Needs, Nodes, Entry, SetEntry, PtePpn, PteNew, IsValid, MapsTo;
      var t;
      ok, t := FindPteCreate(vpn);
      if !ok {
        return;
      }
      MappedAtLeaf(mem.pages, root, vpn, t);
      if IsValid(Entry(mem.pages, t, Index(vpn, 2))) {
        return false;
      }
      SetMapping(mem.pages, root, owner, vpn, t, PteNew(ppn, WithV(flags)));
      EntryMeans(ppn, flags);
      mem.pages := SetEntry(mem.pages, t, Index(vpn, 2), PteNew(ppn, WithV(flags)));
    }

    /** Unmaps vpn, which must be mapped. Its entry stays there, empty, so translate still finds one. */
    method UnmapPage(vpn: nat)
      requires Valid() && vpn < 0x800_0000 && Map(vpn).Some?
      modifies this, mem
      ensures Valid() && Map(vpn) == None && Find(mem.pages, root, vpn) == Some(0)
      ensures forall v :: v < 0x800_0000 && v != vpn ==> Map(v) == old(Map(v))
      ensures OthersKept() && owner == old(owner)
      ensures forall p :: 0 <= p < |mem.pages| && p !in owner ==> mem.pages[p] == old(mem.pages)[p]
      ensures mem.Taken() == old(mem.Taken()) && mem.FreeFrames() == old(mem.FreeFrames())
    {
      hide TableOk, NoDup, Index, Mid, Entry, SetEntry, PtePpn, IsValid;
      MappedHasTable(mem.pages, root, vpn);
      var pte := FindPte(vpn);
      var t := pte.value;
      LeafTableIn(mem.pages, root, owner, vpn, t);
      assert !IsValid(0) by {
        EmptyEntry();
      }
      SetMapping(mem.pages, root, owner, vpn, t, 0);
      mem.pages := SetEntry(mem.pages, t, Index(vpn, 2), 0);
    }

    /** Dropping the page table: its frames are returned one by one. */
    method Drop()
      requires Valid()
      modifies mem
      ensures mem.Valid() && mem.pages == old(mem.pages) && mem.Taken() == old(mem.Taken()) - owner.Keys
    {
      hide TableOk;
      for i := 0 to |frames|
        invariant mem.Valid() && mem.pages == old(mem.pages)
        invariant mem.Taken() == old(mem.Taken()) - AsSet(frames[..i])
      {
        assert frames[i] in frames && frames[i] !in frames[..i];
        assert AsSet(frames[..i + 1]) == AsSet(frames[..i]) + {frames[i]};
        mem.FrameDealloc(frames[i]);
      }
      assert frames[..|frames|] == frames;
    }

    /** The entry for vpn, valid or not: there is an answer exactly when no table is missing. */
    method Translate(vpn: nat) returns (e: Option<u64>)
      ensures e.Some? <==> Missing(mem.pages, root, vpn) == 0
      ensures e == Find(mem.pages, root, vpn)
    {
      hide Entry, Index;
      var pte := FindPte(vpn);
      e := if pte.None? then None else Some(Entry(mem.pages, pte.value, Index(vpn, 2)));
    }
  }

  lemma MappedHasTable(pages: seq<Page>, root: nat, vpn: nat)
    requires Mapped(pages, root, vpn).Some?
    ensures Missing(pages, root, vpn) == 0
  {
  }

  /** Whether a page has an answer depends on its group of 512 pages only, and not on its own entry. */
  lemma GroupAnswers(pages: seq<Page>, root: nat, v: nat, w: nat)
    requires v / 512 == w / 512
    ensures Find(pages, root, v).Some? <==> Find(pages, root, w).Some?
    ensures Missing(pages, root, v) == Missing(pages, root, w)
  {
    DivTwice(v);
    DivTwice(w);
  }

  /**
   * An answer for an unmapped page: exactly when its third-level table exists and holds an invalid entry for it; so
   * once one page of a group of 512 is mapped, all the others of the group have an answer.
   */
  lemma UnmappedAnswers(pages: seq<Page>, root: nat, w: nat)
    ensures Find(pages, root, w).Some? && Mapped(pages, root, w).None? <==>
              exists t :: AtLevel(pages, root, w, 2, t) && !IsValid(Entry(pages, t, Index(w, 2)))
    ensures (exists v :: v / 512 == w / 512 && Mapped(pages, root, v).Some?) ==> Find(pages, root, w).Some?
  {
    hide Entry, IsValid, Index;
    var leaf := Leaf(pages, root, Index(w, 0), Index(w, 1));
    assert leaf.Some? ==> AtLevel(pages, root, w, 2, leaf.value);
    if v :| v / 512 == w / 512 && Mapped(pages, root, v).Some? {
      GroupAnswers(pages, root, v, w);
    }
  }

  /** A case of it: the page just unmapped, and its neighbour that was never mapped. */
  method UnmapThenTranslate(table: PageTable, v: nat, w: nat) returns (e: Option<u64>, e2: Option<u64>)
    requires table.Valid() && v < 0x800_0000 && table.Map(v).Some?
    requires w < 0x800_0000 && w / 512 == v / 512 && table.Map(w).None?
    modifies table, table.mem
    ensures table.Map(v).None? && e == Some(0)
    ensures table.Map(w).None? && e2.Some?
  {
    hide Find, Mapped, Missing;
    table.UnmapPage(v);
    e := table.Translate(v);
    GroupAnswers(table.mem.pages, table.root, v, w);
    e2 := table.Translate(w);
  }

  lemma EmptyEntry()
    ensures !IsValid(0)
  {
  }

  lemma LeafTableIn(pages: seq<Page>, root: nat, owner: map<nat, Node>, vpn: nat, t: nat)
    requires TableOk(pages, root, owner) && Leaf(pages, root, Index(vpn, 0), Index(vpn, 1)) == Some(t)
    ensures t in owner && t < |pages| && Missing(pages, root, vpn) == 0
  {
    assert owner[t] == LeafTable(Index(vpn, 0), Index(vpn, 1));
    assert InPlaceTable(pages, root, t, owner[t]);
  }

  lemma MappedAtLeaf(pages: seq<Page>, root: nat, vpn: nat, t: nat)
    requires Leaf(pages, root, Index(vpn, 0), Index(vpn, 1)) == Some(t)
    ensures Mapped(pages, root, vpn).Some? <==> IsValid(Entry(pages, t, Index(vpn, 2)))
  {
  }

  lemma SetMapping(pages: seq<Page>, root: nat, owner: map<nat, Node>, vpn: nat, t: nat, e: u64)
    requires TableOk(pages, root, owner) && vpn < 0x800_0000
    requires Leaf(pages, root, Index(vpn, 0), Index(vpn, 1)) == Some(t)
    ensures t < |pages| && t in owner
    ensures var pages' := SetEntry(pages, t, Index(vpn, 2), e);
            && TableOk(pages', root, owner) && Find(pages', root, vpn) == Some(e)
            && Mapped(pages', root, vpn) == (if IsValid(e) then Some(e) else None)
            && forall v :: v < 0x800_0000 && v != vpn ==> Mapped(pages', root, v) == Mapped(pages, root, v)
  {
    hide TableOk, Entry, SetEntry, Leaf, IsValid, Index;
    LeafTableIn(pages, root, owner, vpn, t);
    SetLeafEntry(pages, root, owner, vpn, t, e);
  }

  /** The entry for a table below has the flag V alone: with R, W or X it would not lead to a table. */
  lemma PointerEntry(pages: seq<Page>, t: nat, idx: nat, p: nat)
    requires t < |pages| && idx < 512 && p < 0x1000_0000_0000
    ensures Entry(SetEntry(pages, t, idx, PteNew(p, FLAG_V)), t, idx) == 1024 * p + 1
  {
    hide Entry, SetEntry;
    EntrySet(pages, t, idx, PteNew(p, FLAG_V));
  }

  /** What the table found below a level is for. */
  function NodeBelow(vpn: nat, level: nat): Node {
    if level == 0 then MidTable(Index(vpn, 0)) else LeafTable(Index(vpn, 0), Index(vpn, 1))
  }

  lemma LevelTable(pages: seq<Page>, root: nat, owner: map<nat, Node>, vpn: nat, level: nat, t: nat)
    requires TableOk(pages, root, owner) && level < 2 && AtLevel(pages, root, vpn, level, t)
    ensures t in owner && t < |pages|
  {
    assert t in owner;
    assert InPlaceTable(pages, root, t, owner[t]);
  }

  lemma TableBelow(pages: seq<Page>, root: nat, owner: map<nat, Node>, vpn: nat, level: nat, t: nat)
    requires TableOk(pages, root, owner) && level < 2 && AtLevel(pages, root, vpn, level + 1, t)
    ensures NodeBelow(vpn, level) in Nodes(owner) && Nodes(owner) == Nodes(owner) + {NodeBelow(vpn, level)}
  {
    assert owner[t] == NodeBelow(vpn, level);
  }

  lemma Descend(pages: seq<Page>, root: nat, vpn: nat, level: nat, t: nat)
    requires level < 2 && AtLevel(pages, root, vpn, level, t) && IsValid(Entry(pages, t, Index(vpn, level)))
    ensures AtLevel(pages, root, vpn, level + 1, PtePpn(Entry(pages, t, Index(vpn, level))))
  {
  }

  lemma NeedsFrame(pages: seq<Page>, root: nat, vpn: nat, level: nat, t: nat)
    requires level < 2 && AtLevel(pages, root, vpn, level, t) && !IsValid(Entry(pages, t, Index(vpn, level)))
    ensures Missing(pages, root, vpn) == 2 - level
  {
  }

  lemma SameLevel(pages: seq<Page>, pages': seq<Page>, root: nat, owner: map<nat, Node>, vpn: nat, level: nat, t: nat)
    requires TableOk(pages, root, owner) && level < 2 && AtLevel(pages, root, vpn, level, t)
    requires SameOn(pages, pages', owner.Keys)
    ensures AtLevel(pages', root, vpn, level, t)
    ensures Entry(pages', t, Index(vpn, level)) == Entry(pages, t, Index(vpn, level))
  {
    WalkFrame(pages, pages', root, owner);
    LevelTable(pages, root, owner, vpn, level, t);
  }

  /** Hanging a zeroed frame into the table the walk has come to. */
  lemma AddTable(pages: seq<Page>, root: nat, owner: map<nat, Node>, vpn: nat, level: nat, t: nat, p: nat)
    requires TableOk(pages, root, owner) && level < 2 && AtLevel(pages, root, vpn, level, t)
    requires !IsValid(Entry(pages, t, Index(vpn, level)))
    requires p < |pages| && p !in owner && pages[p] == ZERO_PAGE && p < 0x1000_0000_0000
    ensures t < |pages| && t in owner
    ensures var pages' := SetEntry(pages, t, Index(vpn, level), PteNew(p, FLAG_V));
            && TableOk(pages', root, owner[p := NodeBelow(vpn, level)])
            && AtLevel(pages', root, vpn, level + 1, p)
            && Missing(pages', root, vpn) == Missing(pages, root, vpn) - 1
            && (forall v :: Mapped(pages', root, v) == Mapped(pages, root, v))
  {
    LevelTable(pages, root, owner, vpn, level, t);
    hide TableOk, Entry, SetEntry, PtePpn, PteNew, Index, Mapped;
    if level == 0 {
      AddMid(pages, root, owner, Index(vpn, 0), p);
      var pages' := SetEntry(pages, root, Index(vpn, 0), PteNew(p, FLAG_V));
      assert p != root;
      ZeroPageEntries(pages', p, Index(vpn, 1));
    } else {
      AddLeaf(pages, root, owner, Index(vpn, 0), Index(vpn, 1), t, p);
      MidStays(pages, root, owner, vpn, t, p);
    }
  }

  lemma MidStays(pages: seq<Page>, root: nat, owner: map<nat, Node>, vpn: nat, t: nat, p: nat)
    requires TableOk(pages, root, owner) && Mid(pages, root, Index(vpn, 0)) == Some(t) && t < |pages|
    requires p < 0x1000_0000_0000
    ensures Mid(SetEntry(pages, t, Index(vpn, 1), PteNew(p, FLAG_V)), root, Index(vpn, 0)) == Some(t)
  {
    assert owner[t] == MidTable(Index(vpn, 0));
    EntrySet(pages, t, Index(vpn, 1), PteNew(p, FLAG_V));
  }

  /** Zeroing a frame that is not one of its tables changes nothing for a page table. */
  lemma UnusedFrame(pages: seq<Page>, pages': seq<Page>, root: nat, owner: map<nat, Node>, p: nat)
    requires TableOk(pages, root, owner) && p < |pages| && p !in owner && pages' == pages[p := ZERO_PAGE]
    ensures TableOk(pages', root, owner)
    ensures forall v :: Find(pages', root, v) == Find(pages, root, v)
    ensures forall v :: Mapped(pages', root, v) == Mapped(pages, root, v)
    ensures forall q, i :: q in owner ==> Entry(pages', q, i) == Entry(pages, q, i)
  {
    hide TableOk;
    WalkFrame(pages, pages', root, owner);
  }
}
