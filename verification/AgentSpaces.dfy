/** How an agent comes by its context area: a framed area of its address space, with a header and an empty path. */
module AgentSpaces {
  import opened Bytes
  import opened Collections
  import opened PageWalk
  import opened PageTables
  import opened UserMemory
  import opened MemorySets
  import opened UserSpaces
  import opened ContextAreas
  import opened ContextPaths

  const CONTEXT_AREA_BASE: nat := 0x8000_0000
  const USER_READ_WRITE: nat := 2 + 4 + 16
  const MAX_NODES: nat := 128
  const MAX_BYTES: nat := 0x4000

  /** MapArea::new: the pages that the addresses from startVa to endVa touch. */
  function NewArea(startVa: nat, endVa: nat, mapType: MapType, perm: nat): (a: MapArea)
    ensures startVa < endVa ==> forall va :: startVa <= va < endVa ==> a.Has(Floor(va))
    ensures forall v: nat :: a.Has(v) ==> startVa < (v + 1) * PAGE_SIZE && v * PAGE_SIZE < endVa
  {
    MapArea(Floor(startVa), Ceil(endVa), map[], mapType, perm)
  }

  /** The frame of page v of a framed area: a page of memory that is no page table and holds no other page. */
  lemma FrameOfPage(pages: seq<Page>, root: nat, owner: map<nat, Node>, taken: set<nat>, areas: seq<MapArea>, fixed: set<nat>,
                    backing: map<nat, nat>, i: nat, v: nat)
    requires SpaceOk(pages, root, owner.Keys, taken, areas, fixed, backing)
    requires i < |areas| && areas[i].mapType.Framed? && areas[i].Has(v)
    ensures Find(pages, root, v).Some? && v in areas[i].frames && PtePpn(Find(pages, root, v).value) == areas[i].frames[v]
    ensures areas[i].frames[v] < |pages| && areas[i].frames[v] !in owner
    ensures areas[i].frames[v] in backing && backing[areas[i].frames[v]] == v
  {
    hide Find, PtePpn, Mapped, Holds, InArea;
    AreaTarget(pages, root, areas[i], v);
  }

  /** Where address a of a framed area is. */
  lemma FramedByte(pages: seq<Page>, root: nat, owner: map<nat, Node>, taken: set<nat>, areas: seq<MapArea>, fixed: set<nat>,
                   backing: map<nat, nat>, i: nat, a: nat)
    requires SpaceOk(pages, root, owner.Keys, taken, areas, fixed, backing)
    requires i < |areas| && areas[i].mapType.Framed? && areas[i].Has(Floor(a))
    ensures TranslateVa(pages, root, a).Some? && Floor(a) in areas[i].frames
    ensures var p := TranslateVa(pages, root, a).value / PAGE_SIZE;
            && p == areas[i].frames[Floor(a)] && p < |pages| && p !in owner && p in backing && backing[p] == Floor(a)
  {
    hide SpaceOk, Find, PtePpn, TranslateVa, Floor, MapArea.Has;
    FrameOfPage(pages, root, owner, taken, areas, fixed, backing, i, Floor(a));
    PageOf(pages, root, a);
  }

  /** A range of addresses within a framed area is mapped to frames of its own, that are no page tables. */
  lemma FramedRange(pages: seq<Page>, root: nat, owner: map<nat, Node>, taken: set<nat>, areas: seq<MapArea>, fixed: set<nat>,
                    backing: map<nat, nat>, i: nat, va: nat, len: nat)
    requires SpaceOk(pages, root, owner.Keys, taken, areas, fixed, backing) && i < |areas| && areas[i].mapType.Framed?
    requires forall a :: va <= a < va + len ==> areas[i].Has(Floor(a))
    ensures Reachable(pages, root, va, len) && OwnFrames(pages, root, owner, va, len)
    ensures forall a :: va <= a < va + len ==>
              Floor(a) in areas[i].frames && TranslateVa(pages, root, a).value / PAGE_SIZE == areas[i].frames[Floor(a)]
  {
    hide SpaceOk, TranslateVa, Floor;
    forall a | va <= a < va + len
      ensures TranslateVa(pages, root, a).Some? && Floor(a) in areas[i].frames
      ensures var p := TranslateVa(pages, root, a).value / PAGE_SIZE;
              && p == areas[i].frames[Floor(a)] && p < |pages| && p !in owner && p in backing && backing[p] == Floor(a)
    {
      FramedByte(pages, root, owner, taken, areas, fixed, backing, i, a);
    }
  }

  /** Addresses in zeroed frames read as zero. */
  lemma ZeroRange(pages: seq<Page>, root: nat, va: nat, len: nat)
    requires Reachable(pages, root, va, len)
    requires forall a :: va <= a < va + len ==> pages[TranslateVa(pages, root, a).value / PAGE_SIZE] == ZERO_PAGE
    ensures LoadAll(pages, Addrs(pages, root, va, len)) == Zeros(len)
  {
    hide TranslateVa;
    var addrs := Addrs(pages, root, va, len);
    forall k | 0 <= k < len
      ensures ByteAt(pages, addrs[k]) == 0
    {
      assert pages[TranslateVa(pages, root, va + k).value / PAGE_SIZE] == ZERO_PAGE;
    }
  }

  /** The sixteen pages of the context area. */
  function ContextMapArea(): (a: MapArea)
    ensures a.start == 0x8_0000 && a.end == 0x8_0010
  {
    NewArea(CONTEXT_AREA_BASE, CONTEXT_AREA_BASE + AREA_SIZE, Framed, USER_READ_WRITE)
  }

  /** The sixteen pages of the area are there for user programs to read and write: V, R, W and U, bits 0, 1, 2 and 4. */
  ghost predicate UserPages(space: MemorySet)
    reads space, space.pt, space.pt.mem
  {
    forall v :: 0x8_0000 <= v < 0x8_0010 ==> space.pt.Map(v).Some? && space.pt.Map(v).value % 1024 == 1 + 2 + 4 + 16
  }

  lemma PagesForUser(space: MemorySet, areas0: seq<MapArea>)
    requires space.Valid() && Pushed(areas0, space.areas, ContextMapArea())
    ensures UserPages(space)
  {
    hide TableOk, NoDup, Mapped, PteNew, BackingOk, OnlyAreas, RangesDisjoint, MapsTo;
    var (pages, root, a) := (space.pt.mem.pages, space.pt.root, space.areas[|space.areas| - 1]);
    assert AreaOk(pages, root, a);
    forall v | 0x8_0000 <= v < 0x8_0010
      ensures Mapped(pages, root, v).Some? && Mapped(pages, root, v).value % 1024 == 1 + 2 + 4 + 16
    {
      assert a.Has(v);
      MappedToMeans(pages, root, v, a.Target(v), a.perm);
      FlagsOfEntry(Mapped(pages, root, v).value, a.Target(v));
    }
  }

  lemma FlagsOfEntry(e: u64, ppn: nat)
    requires MapsTo(e, ppn, USER_READ_WRITE)
    ensures e % 1024 == 1 + 2 + 4 + 16
  {
    assert e % 2 == e % 1024 % 2;
  }

  /** No page of the context area is mapped in the space. */
  ghost predicate AreaUnmapped(space: MemorySet)
    reads space, space.pt, space.pt.mem
  {
    forall v :: ContextMapArea().Has(v) ==> space.pt.Map(v).None?
  }

  /** The frames that the area takes, where the tables `have` are there. */
  ghost function ContextCost(have: set<Node>): int {
    AreaCost(ContextMapArea(), ContextMapArea().end, have)
  }

  /**
   * AgentContextArea::allocate: maps the area into the agent's space, whose bytes are then all zero. Null, where the
   * original panics, exactly when a page of the area is mapped already or there are fewer frames than it takes.
   */
  method Allocate(space: MemorySet) returns (area: ContextArea?)
    requires space.Valid()
    modifies space, space.pt, space.pt.mem
    ensures area != null <==> old(AreaUnmapped(space)) && ContextCost(old(Nodes(space.pt.owner))) <= old(space.pt.mem.FreeFrames())
    ensures area != null ==>
              && space.Valid() && space.fixed == old(space.fixed) && Pushed(old(space.areas), space.areas, ContextMapArea())
              && area.Valid() && area.mem == space.pt.mem && area.owner == space.pt.owner && area.base == CONTEXT_AREA_BASE
              && area.Contents() == Zeros(AREA_SIZE) && UserPages(space)
  {
    hide TableOk, SpaceOk, AreaCost, Needed, Nodes, NoDup, FreshFrames, Mapped;
    var ok := space.Push(ContextMapArea());
    if !ok {
      return null;
    }
    FreshArea(space.pt.mem.pages, space.pt.root, space.pt.owner, old(space.pt.mem.Taken()), space.pt.mem.Taken(),
              old(space.areas), space.areas, space.fixed, space.backing);
    PagesForUser(space, old(space.areas));
    hide Reachable, OwnFrames, LoadAll, Addrs, UserPages;
    area := new ContextArea(space.pt.mem, space.pt.root, CONTEXT_AREA_BASE, space.pt.owner);
  }

  lemma FreshArea(pages: seq<Page>, root: nat, owner: map<nat, Node>, taken0: set<nat>, taken: set<nat>, areas0: seq<MapArea>,
                  areas: seq<MapArea>, fixed: set<nat>, backing: map<nat, nat>)
    requires SpaceOk(pages, root, owner.Keys, taken, areas, fixed, backing) && Pushed(areas0, areas, ContextMapArea())
    requires FreshFrames(areas[|areas| - 1], taken0, pages, taken, owner.Keys)
    ensures Reachable(pages, root, CONTEXT_AREA_BASE, AREA_SIZE)
    ensures OwnFrames(pages, root, owner, CONTEXT_AREA_BASE, AREA_SIZE)
    ensures LoadAll(pages, Addrs(pages, root, CONTEXT_AREA_BASE, AREA_SIZE)) == Zeros(AREA_SIZE)
  {
    hide SpaceOk, OwnFrames, TranslateVa;
    FramedRange(pages, root, owner, taken, areas, fixed, backing, |areas| - 1, CONTEXT_AREA_BASE, AREA_SIZE);
    ZeroRange(pages, root, CONTEXT_AREA_BASE, AREA_SIZE);
  }

  /**
   * sys_agent_create's part in memory: the area, its header and an empty path; the rest of the space is as it was. Null,
   * where the original panics, exactly when a page of the area is mapped already or frames run out.
   */
  method CreateContext(space: MemorySet, padding: seq<byte>) returns (path: ContextPath?)
    requires space.Valid() && |padding| == 4
    modifies space, space.pt, space.pt.mem
    ensures path != null <==> old(AreaUnmapped(space)) && ContextCost(old(Nodes(space.pt.owner))) <= old(space.pt.mem.FreeFrames())
    ensures path != null ==>
              && space.Valid() && space.fixed == old(space.fixed) && Pushed(old(space.areas), space.areas, ContextMapArea())
              && path.Valid() && path.nodes == [] && path.maxNodes == 128 && path.maxBytes == 16384
              && path.area.mem == space.pt.mem && path.area.base == 0x8000_0000 && HoldsHeader(path.area.Contents())
              && UserPages(space)
  {
    hide TableOk, SpaceOk, ContextCost, AreaUnmapped, UserPages, Nodes, NoDup, Mapped, Pushed, HoldsHeader, HoldsCounts;
    hide ContextArea.Contents, ContextArea.Valid;
    var area := Allocate(space);
    if area == null {
      return null;
    }
    ghost var pages := space.pt.mem.pages;
    InitHeader(area, padding);
    SpaceFrame(pages, space.pt.mem.pages, space.pt.root, space.pt.owner, space.pt.mem.Taken(), space.pt.mem.Taken(),
               space.areas, space.fixed, space.backing);
    PagesForUser(space, old(space.areas));
    path := new ContextPath(area, MAX_NODES, MAX_BYTES, Lru);
  }

  // ---------- forking an agent

  /** A clone has a page of the area mapped exactly when the space it was cloned from has. */
  lemma CloneMapsArea(pages0: seq<Page>, pages: seq<Page>, uroot: nat, utables: set<nat>, taken0: set<nat>, uareas: seq<MapArea>,
                      fixed: set<nat>, ubacking: map<nat, nat>, root: nat, tables: set<nat>, taken: set<nat>,
                      areas: seq<MapArea>, backing: map<nat, nat>)
    requires SpaceOk(pages0, uroot, utables, taken0, uareas, fixed, ubacking)
    requires SpaceOk(pages, root, tables, taken, areas, fixed, backing)
    requires |areas| == |uareas| && Copies(pages0, taken0, pages, uareas, areas)
    ensures forall v :: ContextMapArea().Has(v) ==> (Mapped(pages, root, v).Some? <==> Mapped(pages0, uroot, v).Some?)
  {
    hide SpaceOk, Copies, Mapped;
    forall v: nat | ContextMapArea().Has(v)
      ensures Mapped(pages, root, v).Some? <==> Mapped(pages0, uroot, v).Some?
    {
      CloneTranslates(pages0, pages, uroot, utables, taken0, uareas, fixed, ubacking, root, tables, taken, areas, backing, v);
    }
  }

  /** Right after a fork every address of the user's areas reads the same in both spaces. */
  lemma CloneReads(pages0: seq<Page>, pages: seq<Page>, uroot: nat, uowner: map<nat, Node>, taken0: set<nat>, uareas: seq<MapArea>,
                   fixed: set<nat>, ubacking: map<nat, nat>, root: nat, owner: map<nat, Node>, taken: set<nat>,
                   areas: seq<MapArea>, backing: map<nat, nat>, i: nat, a: nat)
    requires SpaceOk(pages0, uroot, uowner.Keys, taken0, uareas, fixed, ubacking)
    requires SpaceOk(pages, root, owner.Keys, taken, areas, fixed, backing)
    requires |areas| == |uareas| && Copies(pages0, taken0, pages, uareas, areas)
    requires i < |uareas| && uareas[i].mapType.Framed? && uareas[i].Has(Floor(a))
    ensures TranslateVa(pages0, uroot, a).Some? && TranslateVa(pages, root, a).Some?
    ensures ByteAt(pages, TranslateVa(pages, root, a).value) == ByteAt(pages0, TranslateVa(pages0, uroot, a).value)
  {
    hide SpaceOk, Find, PtePpn, TranslateVa, Floor;
    assert CopyOf(pages0, taken0, pages, uareas[i], areas[i], uareas[i].end);
    FramedByte(pages0, uroot, uowner, taken0, uareas, fixed, ubacking, i, a);
    FramedByte(pages, root, owner, taken, areas, fixed, backing, i, a);
    OffsetOf(pages0, uroot, a);
    OffsetOf(pages, root, a);
  }

  /** The frames for a copy of the areas and a context area beside them. */
  ghost function ForkAndCreateCost(areas: seq<MapArea>, trampoline: nat): int {
    CloneCost(areas, trampoline, |areas|) + ContextCost({RootTable} + TablesFor(areas, trampoline, |areas|))
  }

  /**
   * fork, and sys_agent_create in the child: the area is copied although the child is no agent, so the child's call
   * succeeds exactly when the parent's space does not map the area and frames suffice; in the child of an agent it
   * always panics.
   */
  method ForkThenCreate(user: MemorySet, trampoline: nat, strampoline: nat, padding: seq<byte>)
    returns (child: MemorySet?, path: ContextPath?)
    requires user.Valid() && (forall k :: 0 <= k < |user.areas| ==> user.areas[k].mapType.Framed?)
    requires trampoline < 0x800_0000 && strampoline < 0x1000_0000_0000 && user.fixed == {trampoline} && |padding| == 4
    modifies user.pt.mem
    ensures child == null ==> path == null
    ensures child != null <==> CloneCost(user.areas, trampoline, |user.areas|) <= old(user.pt.mem.FreeFrames())
    ensures path != null <==> old(AreaUnmapped(user)) && ForkAndCreateCost(user.areas, trampoline) <= old(user.pt.mem.FreeFrames())
  {
    hide TableOk, SpaceOk, NoDup, CloneCost, Needed, TablesFor, Nodes, Mapped, PteNew, Copies, Kept;
    ghost var pages0, taken0 := user.pt.mem.pages, user.pt.mem.Taken();
    child := FromExistedUser(user, trampoline, strampoline);
    if child == null {
      return null, null;
    }
    CloneMapsArea(pages0, user.pt.mem.pages, user.pt.root, user.pt.owner.Keys, taken0, user.areas, user.fixed, user.backing,
                  child.pt.root, child.pt.owner.Keys, child.pt.mem.Taken(), child.areas, child.backing);
    path := CreateContext(child, padding);
  }

  /** An agent forks: its child cannot become an agent, however many frames are free. */
  method AgentsChild(space: MemorySet, padding: seq<byte>, trampoline: nat, strampoline: nat)
    returns (path: ContextPath?, child: MemorySet?, childPath: ContextPath?)
    requires space.Valid() && (forall k :: 0 <= k < |space.areas| ==> space.areas[k].mapType.Framed?)
    requires trampoline < 0x800_0000 && strampoline < 0x1000_0000_0000 && space.fixed == {trampoline} && |padding| == 4
    modifies space, space.pt, space.pt.mem
    ensures path != null ==> childPath == null
  {
    hide TableOk, NoDup, CloneCost, ContextCost, TablesFor, Nodes, PteNew, SpaceOk, Mapped, AreaUnmapped, ForkAndCreateCost;
    hide ContextArea.Valid, HoldsHeader;
    child, childPath := null, null;
    path := CreateContext(space, padding);
    if path != null {
      NotUnmapped(space, old(space.areas));
      child, childPath := ForkThenCreate(space, trampoline, strampoline, padding);
    }
  }

  lemma NotUnmapped(space: MemorySet, areas0: seq<MapArea>)
    requires space.Valid() && Pushed(areas0, space.areas, ContextMapArea())
    ensures !AreaUnmapped(space)
  {
    hide TableOk, NoDup, Mapped, PteNew, BackingOk, OnlyAreas, RangesDisjoint;
    var a := space.areas[|space.areas| - 1];
    assert AreaOk(space.pt.mem.pages, space.pt.root, a) && a.Has(0x8_0000);
    assert ContextMapArea().Has(0x8_0000) && space.pt.Map(0x8_0000).Some?;
  }
}
