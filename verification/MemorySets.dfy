/** Address spaces: areas of pages mapped through a page table, and their copies. */
module MemorySets {
  import opened Bytes
  import opened Collections
  import opened PageWalk
  import opened PageTables

  datatype MapType = Identical | Framed

  /** The pages start..end, mapped to frames of their own or to themselves, with one permission. */
  datatype MapArea = MapArea(start: nat, end: nat, frames: map<nat, nat>, mapType: MapType, perm: nat) {
    /** The page that vpn is mapped to. */
    function Target(vpn: nat): nat {
      if mapType.Framed? then (if vpn in frames then frames[vpn] else 0) else vpn
    }

    predicate Has(vpn: nat) {
      start <= vpn < end
    }
  }

  /** All pages of the area are mapped as it says. */
  ghost predicate AreaOk(pages: seq<Page>, root: nat, a: MapArea) {
    && a.start <= a.end <= 0x800_0000 && a.perm < 256
    && (a.mapType.Framed? ==> forall v :: v in a.frames <==> a.Has(v))
    && (a.mapType.Identical? ==> a.frames == map[])
    && (forall v :: a.Has(v) ==> MappedTo(pages, root, v, a.Target(v), a.perm))
  }

  ghost predicate MappedTo(pages: seq<Page>, root: nat, vpn: nat, ppn: nat, perm: nat)
    requires perm < 256
  {
    ppn < 0x1000_0000_0000 && Mapped(pages, root, vpn) == Some(PteNew(ppn, WithV(perm)))
  }

  /** The page is mapped to that frame with that permission, bit by bit. */
  lemma MappedToMeans(pages: seq<Page>, root: nat, vpn: nat, ppn: nat, perm: nat)
    requires perm < 256 && MappedTo(pages, root, vpn, ppn, perm)
    ensures Mapped(pages, root, vpn).Some? && MapsTo(Mapped(pages, root, vpn).value, ppn, perm)
  {
    hide Mapped;
    EntryMeans(ppn, perm);
  }

  ghost predicate AreasOk(pages: seq<Page>, root: nat, areas: seq<MapArea>) {
    forall i :: 0 <= i < |areas| ==> AreaOk(pages, root, areas[i])
  }

  ghost predicate RangesDisjoint(areas: seq<MapArea>) {
    forall i, j, v :: 0 <= i < |areas| && 0 <= j < |areas| && areas[i].Has(v) && areas[j].Has(v) ==> i == j
  }

  ghost predicate InArea(areas: seq<MapArea>, vpn: nat) {
    exists i :: 0 <= i < |areas| && areas[i].Has(vpn)
  }

  /**
   * `backing` tells for every frame that holds a page of some area which page that is: so no frame holds two.
   * These frames are taken, and none of them is a page table.
   */
  ghost predicate BackingOk(pages: seq<Page>, tables: set<nat>, taken: set<nat>, areas: seq<MapArea>, backing: map<nat, nat>) {
    && (forall i, v :: 0 <= i < |areas| && v in areas[i].frames ==>
          areas[i].frames[v] in backing && backing[areas[i].frames[v]] == v)
    && (forall p :: p in backing ==> p in taken && p !in tables && p < |pages| && Holds(areas, backing[p], p))
  }

  /** Frame p holds page v of some area. */
  ghost predicate Holds(areas: seq<MapArea>, v: nat, p: nat) {
    exists i :: 0 <= i < |areas| && v in areas[i].frames && areas[i].frames[v] == p
  }

  lemma HoldsSnoc(areas: seq<MapArea>, a: MapArea, a': MapArea, v: nat, p: nat)
    requires v in a.frames ==> v in a'.frames && a'.frames[v] == a.frames[v]
    ensures Holds(areas + [a], v, p) ==> Holds(areas + [a'], v, p)
    ensures Holds(areas, v, p) ==> Holds(areas + [a'], v, p)
    ensures v in a'.frames && a'.frames[v] == p ==> Holds(areas + [a'], v, p)
  {
    var more, more' := areas + [a], areas + [a'];
    assert more'[|areas|] == a';
    assert forall i :: 0 <= i < |areas| ==> more[i] == areas[i] == more'[i];
    if Holds(more, v, p) {
      var i :| 0 <= i < |more| && v in more[i].frames && more[i].frames[v] == p;
      assert v in more'[i].frames && more'[i].frames[v] == p;
    }
    if Holds(areas, v, p) {
      var i :| 0 <= i < |areas| && v in areas[i].frames && areas[i].frames[v] == p;
      assert v in more'[i].frames && more'[i].frames[v] == p;
    }
  }

  /** What is mapped is the areas' pages and the fixed ones. */
  ghost predicate OnlyAreas(pages: seq<Page>, root: nat, areas: seq<MapArea>, fixed: set<nat>) {
    && (forall v :: v in fixed ==> v < 0x800_0000 && !InArea(areas, v) && Mapped(pages, root, v).Some?)
    && (forall v :: 0 <= v < 0x800_0000 && Mapped(pages, root, v).Some? ==> InArea(areas, v) || v in fixed)
  }

  ghost predicate SpaceOk(pages: seq<Page>, root: nat, tables: set<nat>, taken: set<nat>, areas: seq<MapArea>,
                          fixed: set<nat>, backing: map<nat, nat>) {
    && AreasOk(pages, root, areas) && RangesDisjoint(areas)
    && BackingOk(pages, tables, taken, areas, backing) && OnlyAreas(pages, root, areas, fixed)
  }

  /** The frames not used for page tables keep their bytes while tables and taken frames grow. */
  ghost predicate Grown(pages: seq<Page>, taken: set<nat>, tables: set<nat>, pages': seq<Page>, taken': set<nat>, tables': set<nat>) {
    && taken <= taken' && tables <= tables' && (tables' - tables) !! taken
    && SameOn(pages, pages', taken - tables)
  }

  lemma GrownTrans(pages: seq<Page>, taken: set<nat>, tables: set<nat>, pages1: seq<Page>, taken1: set<nat>, tables1: set<nat>,
                   pages2: seq<Page>, taken2: set<nat>, tables2: set<nat>)
    requires Grown(pages, taken, tables, pages1, taken1, tables1) && Grown(pages1, taken1, tables1, pages2, taken2, tables2)
    ensures Grown(pages, taken, tables, pages2, taken2, tables2)
  {
  }

  /** The tables that the pages lo..hi need. */
  ghost function Needed(lo: nat, hi: nat): set<Node>
    decreases hi - lo
  {
    if lo >= hi then {} else Needed(lo, hi - 1) + Needs(hi - 1)
  }

  /** The frames that the pages a.start..upto of the area take where the tables `have` are there. */
  ghost function AreaCost(a: MapArea, upto: nat, have: set<Node>): int {
    (if a.mapType.Framed? then upto - a.start else 0) + |Needed(a.start, upto) - have|
  }

  /** One page further, with the tables it lacks. */
  lemma CostStep(a: MapArea, v: nat, have: set<Node>)
    requires a.start <= v
    ensures Needed(a.start, v + 1) == Needed(a.start, v) + Needs(v)
    ensures AreaCost(a, v + 1, have) ==
            AreaCost(a, v, have) + (if a.mapType.Framed? then 1 else 0) + |Needs(v) - (have + Needed(a.start, v))|
  {
    var done, more := Needed(a.start, v) - have, Needs(v) - (have + Needed(a.start, v));
    assert Needed(a.start, v + 1) - have == done + more && done !! more;
  }

  lemma {:induction false} CostGrows(a: MapArea, v: nat, upto: nat, have: set<Node>)
    requires a.start <= v <= upto
    ensures AreaCost(a, v, have) <= AreaCost(a, upto, have)
    decreases upto - v
  {
    if v < upto {
      CostStep(a, v, have);
      CostGrows(a, v + 1, upto, have);
    }
  }

  lemma NoCost(a: MapArea, have: set<Node>)
    ensures AreaCost(a, a.start, have) == 0 && have == have + Needed(a.start, a.start)
  {
  }

  /** Page v of the area takes a frame for itself and one for each table missing. */
  lemma CostNext(pages: seq<Page>, root: nat, owner: map<nat, Node>, a: MapArea, v: nat, have: set<Node>)
    requires TableOk(pages, root, owner) && a.start <= v < a.end && Nodes(owner) == have + Needed(a.start, v)
    ensures AreaCost(a, v + 1, have) == AreaCost(a, v, have) + (if a.mapType.Framed? then 1 else 0) + Missing(pages, root, v)
    ensures AreaCost(a, v + 1, have) <= AreaCost(a, a.end, have)
    ensures Nodes(owner) + Needs(v) == have + Needed(a.start, v + 1)
  {
    hide TableOk, Missing, Needs, Nodes;
    MissingIsNeeded(pages, root, owner, v);
    CostStep(a, v, have);
    CostGrows(a, v + 1, a.end, have);
  }

  class MemorySet {
    const pt: PageTable
    var areas: seq<MapArea>
    /** Pages mapped outside all areas (the trampoline), and the pages that frames hold. */
    ghost var fixed: set<nat>
    ghost var backing: map<nat, nat>

    ghost predicate Valid()
      reads this, pt, pt.mem
    {
      pt.Valid() && SpaceOk(pt.mem.pages, pt.root, pt.owner.Keys, pt.mem.Taken(), areas, fixed, backing)
    }

    /** The frames taken by others: neither page tables nor pages of this space. */
    ghost function Others(): set<nat>
      reads this, pt, pt.mem
    {
      pt.mem.Taken() - pt.owner.Keys - backing.Keys
    }

    /** A space that maps nothing, over a new page table. */
    constructor (pt: PageTable)
      requires pt.Valid() && forall v :: pt.Map(v) == None
      ensures Valid() && this.pt == pt && areas == [] && fixed == {} && backing == map[]
    {
      forall v: nat
        ensures Mapped(pt.mem.pages, pt.root, v) == None
      {
        assert pt.Map(v) == None;
      }
      EmptySpace(pt.mem.pages, pt.root, pt.owner.Keys, pt.mem.Taken());
      this.pt, areas, fixed, backing := pt, [], {}, map[];
    }

    /** map_one: maps one page of an area that is being mapped; false when it is mapped already or frames run out. */
    method MapOne(a: MapArea, vpn: nat) returns (ok: bool, a': MapArea)
      requires pt.Valid() && vpn < 0x800_0000 && a.perm < 256 && vpn !in a.frames
      modifies pt, pt.mem
      ensures pt.Valid()
      ensures ok <==> old(pt.Map(vpn)).None? &&
                      (if a.mapType.Framed? then 1 else 0) + old(Missing(pt.mem.pages, pt.root, vpn)) <= old(pt.mem.FreeFrames())
      ensures ok ==> pt.mem.FreeFrames() == old(pt.mem.FreeFrames() - Missing(pt.mem.pages, pt.root, vpn))
                                            - if a.mapType.Framed? then 1 else 0
      ensures ok ==> Nodes(pt.owner) == old(Nodes(pt.owner)) + Needs(vpn)
      ensures ok ==> pt.mem.Taken() == old(pt.mem.Taken()) + (pt.owner.Keys - old(pt.owner.Keys))
                                       + (if a.mapType.Framed? then {a'.Target(vpn)} else {})
      ensures a' == if a.mapType.Framed? && ok then a.(frames := a.frames[vpn := a'.Target(vpn)]) else a
      ensures Grown(old(pt.mem.pages), old(pt.mem.Taken()), old(pt.owner.Keys), pt.mem.pages, pt.mem.Taken(), pt.owner.Keys)
      ensures ok ==>
                && a'.Target(vpn) < 0x1000_0000_0000 && pt.Map(vpn) == Some(PteNew(a'.Target(vpn), WithV(a.perm)))
                && SameMapping(old(pt.mem.pages), pt.mem.pages, pt.root, vpn, vpn + 1)
                && (a.mapType.Framed? ==> NewFrame(old(pt.mem.Taken()), pt.mem.pages, pt.mem.Taken(), pt.owner.Keys, a'.Target(vpn)))
    {
      hide TableOk, PteNew, Mapped, NoDup, Mid, Leaf, Index, Missing, Needs, Nodes;
      a' := a;
      var ppn := vpn;
      ghost var pages, taken := pt.mem.pages, pt.mem.Taken();
      if a.mapType.Framed? {
        var frame := pt.mem.FrameAlloc();
        if frame.None? {
          return false, a;
        }
        ppn := frame.value;
        UnusedFrame(pages, pt.mem.pages, pt.root, pt.owner, ppn);
        SameMissing(pages, pt.mem.pages, pt.root, pt.owner, vpn);
        a' := a.(frames := a.frames[vpn := ppn]);
      }
      label Before:
      ok := pt.MapPage(vpn, ppn, a.perm);
      if !ok {
        return false, a;
      }
      forall v: nat | v < 0x800_0000 && v != vpn
        ensures Mapped(pt.mem.pages, pt.root, v) == Mapped(pages, pt.root, v)
      {
        assert pt.Map(v) == old@Before(pt.Map(v));
      }
    }

    /**
     * push: maps the area page by page, and adds it; false exactly when one of its pages is mapped already or there are
     * fewer frames than it takes, where the original panics.
     */
    method Push(area: MapArea) returns (ok: bool)
      requires Valid() && area.start <= area.end <= 0x800_0000 && area.perm < 256 && area.frames == map[]
      modifies this, pt, pt.mem
      ensures ok <==> (forall v :: area.Has(v) ==> old(pt.Map(v)).None?) &&
                      AreaCost(area, area.end, old(Nodes(pt.owner))) <= old(pt.mem.FreeFrames())
      ensures ok ==> pt.mem.FreeFrames() == old(pt.mem.FreeFrames()) - AreaCost(area, area.end, old(Nodes(pt.owner)))
      ensures ok ==> Nodes(pt.owner) == old(Nodes(pt.owner)) + Needed(area.start, area.end)
      ensures ok ==> Others() == old(Others())
      ensures ok ==> Valid() && fixed == old(fixed)
      ensures ok ==> Pushed(old(areas), areas, area) && SameMapping(old(pt.mem.pages), pt.mem.pages, pt.root, area.start, area.end)
      ensures ok ==> Grown(old(pt.mem.pages), old(pt.mem.Taken()), old(pt.owner.Keys), pt.mem.pages, pt.mem.Taken(), pt.owner.Keys)
      ensures ok ==> FreshFrames(areas[|areas| - 1], old(pt.mem.Taken()), pt.mem.pages, pt.mem.Taken(), pt.owner.Keys)
    {
      hide TableOk, NoDup, Mapped, AreasOk, RangesDisjoint, BackingOk, OnlyAreas, PteNew, FreshFrames, Needs, Missing, AreaCost, Needed, Nodes;
      var a, v := area, area.start;
      ghost var have := Nodes(pt.owner);
      NoCost(area, have);
      StartArea(pt.mem.pages, pt.root, pt.owner.Keys, pt.mem.Taken(), areas, area, fixed, backing);
      ok := true;
      while ok && v < area.end
        invariant area.start <= v <= area.end && a == area.(frames := a.frames) && areas == old(areas) && fixed == old(fixed)
        invariant ok ==> pt.Valid()
        invariant ok ==> pt.mem.FreeFrames() == old(pt.mem.FreeFrames()) - AreaCost(area, v, have) >= 0
        invariant ok ==> Nodes(pt.owner) == have + Needed(area.start, v)
        invariant ok ==> Others() == old(Others())
        invariant ok ==> forall w :: area.start <= w < v ==> old(pt.Map(w)).None?
        invariant !ok ==> (exists w :: area.Has(w) && old(pt.Map(w)).Some?) || AreaCost(area, area.end, have) > old(pt.mem.FreeFrames())
        invariant ok ==> SpaceOk(pt.mem.pages, pt.root, pt.owner.Keys, pt.mem.Taken(), areas + [a.(end := v)], fixed, backing)
        invariant ok ==> SameMapping(old(pt.mem.pages), pt.mem.pages, pt.root, area.start, v)
        invariant ok ==> Grown(old(pt.mem.pages), old(pt.mem.Taken()), old(pt.owner.Keys), pt.mem.pages, pt.mem.Taken(), pt.owner.Keys)
        invariant ok ==> FreshFrames(a, old(pt.mem.Taken()), pt.mem.pages, pt.mem.Taken(), pt.owner.Keys)
        decreases area.end - v, ok
      {
        ghost var pages, taken, tables, b, used := pt.mem.pages, pt.mem.Taken(), pt.owner.Keys, a, backing.Keys;
        assert area.Has(v) && pt.Map(v) == old(pt.Map(v));
        NotYetInArea(pages, pt.root, areas, a, v);
        CostNext(pages, pt.root, pt.owner, area, v, have);
        ok, a := MapOne(a, v);
        if ok {
          AreaGrows(pages, taken, tables, pt.mem.pages, pt.mem.Taken(), pt.owner.Keys, pt.root, areas, b, a, v, fixed, backing);
          GrownTrans(old(pt.mem.pages), old(pt.mem.Taken()), old(pt.owner.Keys), pages, taken, tables,
                     pt.mem.pages, pt.mem.Taken(), pt.owner.Keys);
          FreshGrows(b, a, v, old(pt.mem.Taken()), pages, taken, tables, pt.mem.pages, pt.mem.Taken(), pt.owner.Keys);
          if a.mapType.Framed? {
            UsedIsTaken(pages, tables, taken, areas + [b.(end := v)], backing);
            backing := backing[a.Target(v) := v];
          }
          assert Others() == taken - tables - used;
          v := v + 1;
        }
      }
      if ok {
        assert a.(end := v) == a;
        areas := areas + [a];
      }
    }

    /** map_trampoline: one page outside all areas. */
    method MapTrampoline(vpn: nat, ppn: nat, flags: nat) returns (ok: bool)
      requires Valid() && vpn < 0x800_0000 && ppn < 0x1000_0000_0000 && flags < 256
      modifies this, pt, pt.mem
      ensures ok <==> old(pt.Map(vpn)).None? && |Needs(vpn) - old(Nodes(pt.owner))| <= old(pt.mem.FreeFrames())
      ensures ok ==> pt.mem.FreeFrames() == old(pt.mem.FreeFrames()) - |Needs(vpn) - old(Nodes(pt.owner))|
      ensures ok ==> Nodes(pt.owner) == old(Nodes(pt.owner)) + Needs(vpn)
      ensures ok ==> Others() == old(Others()) && backing == old(backing)
      ensures ok ==> Valid() && areas == old(areas) && fixed == old(fixed) + {vpn}
      ensures ok ==> SameMapping(old(pt.mem.pages), pt.mem.pages, pt.root, vpn, vpn + 1)
      ensures ok ==> pt.Map(vpn) == Some(PteNew(ppn, WithV(flags)))
      ensures ok ==> Grown(old(pt.mem.pages), old(pt.mem.Taken()), old(pt.owner.Keys), pt.mem.pages, pt.mem.Taken(), pt.owner.Keys)
    {
      hide TableOk, NoDup, Mapped, AreasOk, RangesDisjoint, BackingOk, OnlyAreas, PteNew, Needs, Missing, Nodes;
      ghost var pages, taken, tables := pt.mem.pages, pt.mem.Taken(), pt.owner.Keys;
      MissingIsNeeded(pages, pt.root, pt.owner, vpn);
      ok := pt.MapPage(vpn, ppn, flags);
      if ok {
        forall v: nat | v < 0x800_0000 && v != vpn
          ensures Mapped(pt.mem.pages, pt.root, v) == Mapped(pages, pt.root, v)
        {
          assert pt.Map(v) == old(pt.Map(v));
        }
        assert pt.Map(vpn).Some?;
        FixedGrows(pages, taken, tables, pt.mem.pages, pt.mem.Taken(), pt.owner.Keys, pt.root, areas, vpn, fixed, backing);
        fixed := fixed + {vpn};
      }
    }

    /** unmap_one: frees the frame of a page, and unmaps the page. */
    method UnmapOne(a: MapArea, vpn: nat) returns (a': MapArea)
      requires pt.Valid() && vpn < 0x800_0000 && pt.Map(vpn).Some?
      requires a.mapType.Framed? ==> vpn in a.frames && a.frames[vpn] in pt.mem.Taken() && a.frames[vpn] !in pt.owner
      modifies pt, pt.mem
      ensures pt.Valid() && pt.owner == old(pt.owner)
      ensures a' == if a.mapType.Framed? then a.(frames := a.frames - {vpn}) else a
      ensures pt.mem.Taken() == old(pt.mem.Taken()) - (if a.mapType.Framed? then {a.frames[vpn]} else {})
      ensures pt.Map(vpn) == None && SameMapping(old(pt.mem.pages), pt.mem.pages, pt.root, vpn, vpn + 1)
      ensures SameOutsideTables(old(pt.mem.pages), pt.mem.pages, pt.owner.Keys)
    {
      hide TableOk, NoDup, Mapped, Mid, Leaf, Index;
      ghost var pages := pt.mem.pages;
      a' := a;
      if a.mapType.Framed? {
        a' := a.(frames := a.frames - {vpn});
        pt.mem.FrameDealloc(a.frames[vpn]);
      }
      label Before:
      pt.UnmapPage(vpn);
      forall v: nat | v < 0x800_0000 && v != vpn
        ensures Mapped(pt.mem.pages, pt.root, v) == Mapped(pages, pt.root, v)
      {
        assert pt.Map(v) == old@Before(pt.Map(v));
      }
    }

    /** Unmaps the first area that starts at startVpn, if any, and frees its frames. */
    method RemoveAreaWithStartVpn(startVpn: nat) returns (found: bool)
      requires Valid()
      modifies this, pt, pt.mem
      ensures Valid() && fixed == old(fixed) && Others() == old(Others())
      ensures !found ==> (forall i :: 0 <= i < |old(areas)| ==> old(areas)[i].start != startVpn)
                         && areas == old(areas) && pt.mem.pages == old(pt.mem.pages) && pt.mem.Taken() == old(pt.mem.Taken())
      ensures found ==> exists idx: nat :: FirstAt(old(areas), startVpn, idx) && areas == Without(old(areas), idx)
                                           && AreaGone(old(areas)[idx], old(pt.mem.pages), old(pt.mem.Taken()), pt.mem.pages,
                                                       pt.mem.Taken(), pt.root, pt.owner.Keys)
    {
      hide TableOk, NoDup, Mapped, AreasOk, RangesDisjoint, BackingOk, OnlyAreas, PteNew;
      var idx := 0;
      while idx < |areas| && areas[idx].start != startVpn
        invariant idx <= |areas| && forall i :: 0 <= i < idx ==> areas[i].start != startVpn
      {
        idx := idx + 1;
      }
      if idx == |areas| {
        return false;
      }
      found := true;
      UnmapArea(idx);
      DropArea(pt.mem.pages, pt.root, pt.owner.Keys, pt.mem.Taken(), areas, idx, fixed, backing);
      areas := Without(areas, idx);
      assert areas == Without(old(areas), idx);
    }

    /**
     * recycle_data_pages: drops all areas, and with them their frames. The page table keeps its entries, so the space is
     * good for nothing but to be dropped.
     */
    method RecycleDataPages()
      requires Valid()
      modifies this, pt.mem
      ensures pt.Valid() && areas == [] && backing == map[]
      ensures pt.mem.pages == old(pt.mem.pages) && pt.mem.Taken() == old(Others()) + pt.owner.Keys
    {
      hide TableOk, NoDup, Mapped, OnlyAreas, PteNew;
      BackingIsFrames(pt.mem.pages, pt.root, pt.owner.Keys, pt.mem.Taken(), areas, fixed, backing);
      while areas != []
        invariant pt.Valid() && pt.mem.pages == old(pt.mem.pages) && pt.owner == old(pt.owner)
        invariant pt.mem.Taken() == old(Others()) + pt.owner.Keys + backing.Keys
        invariant backing.Keys !! pt.owner.Keys && backing.Keys !! old(Others())
        invariant OwnFramesOnly(areas, backing)
        decreases |areas|
      {
        DropFrames();
        areas := areas[1..];
      }
      NoAreasNoFrames(backing);
    }

    /** Drops the frames of the first area, page by page. */
    method DropFrames()
      requires pt.Valid() && areas != [] && OwnFramesOnly(areas, backing)
      requires backing.Keys <= pt.mem.Taken() && backing.Keys !! pt.owner.Keys
      modifies this`backing, pt.mem
      ensures pt.Valid() && pt.mem.pages == old(pt.mem.pages) && OwnFramesOnly(areas[1..], backing)
      ensures backing.Keys <= old(backing).Keys && pt.mem.Taken() == old(pt.mem.Taken()) - (old(backing).Keys - backing.Keys)
    {
      hide TableOk, NoDup, OwnFramesOnly, PartLeft;
      var a := areas[0];
      var left := a.frames.Keys;
      FirstAreaLeft(areas, backing);
      while left != {}
        invariant left <= a.frames.Keys && areas == old(areas) && pt.Valid() && pt.mem.pages == old(pt.mem.pages)
        invariant backing.Keys <= old(backing).Keys && backing.Keys !! pt.owner.Keys && backing.Keys <= pt.mem.Taken()
        invariant pt.mem.Taken() == old(pt.mem.Taken()) - (old(backing).Keys - backing.Keys)
        invariant PartLeft(areas, left, backing)
        decreases |left|
      {
        var v :| v in left;
        PageDropped(areas, left, backing, v);
        pt.mem.FrameDealloc(a.frames[v]);
        backing := backing - {a.frames[v]};
        left := left - {v};
      }
      FirstAreaGone(areas, backing);
    }

    /** MapArea::unmap: unmaps the pages of an area one by one, and frees their frames. */
    method UnmapArea(idx: nat)
      requires Valid() && idx < |areas|
      modifies this, pt, pt.mem
      ensures pt.Valid() && fixed == old(fixed) && pt.owner == old(pt.owner) && Others() == old(Others())
      ensures |areas| == |old(areas)| && areas == old(areas)[idx := old(areas)[idx].(frames := map[])]
      ensures SpaceOk(pt.mem.pages, pt.root, pt.owner.Keys, pt.mem.Taken(),
                      areas[idx := areas[idx].(start := areas[idx].end)], fixed, backing)
      ensures AreaGone(old(areas)[idx], old(pt.mem.pages), old(pt.mem.Taken()), pt.mem.pages, pt.mem.Taken(), pt.root, pt.owner.Keys)
    {
      hide TableOk, NoDup, Mapped, AreasOk, RangesDisjoint, BackingOk, OnlyAreas, PteNew;
      var v, end := areas[idx].start, areas[idx].end;
      ghost var a0 := areas[idx];
      AreaAt(pt.mem.pages, pt.root, pt.owner.Keys, pt.mem.Taken(), areas, idx, fixed, backing);
      assert areas == areas[idx := areas[idx].(start := v)];
      while v < end
        invariant a0.start <= v <= end && pt.owner == old(pt.owner) && fixed == old(fixed)
        invariant pt.Valid() && |areas| == |old(areas)| && areas == old(areas)[idx := a0.(frames := areas[idx].frames)]
        invariant SpaceOk(pt.mem.pages, pt.root, pt.owner.Keys, pt.mem.Taken(), areas[idx := areas[idx].(start := v)], fixed, backing)
        invariant forall w :: a0.start <= w < v ==> pt.Map(w).None?
        invariant SameMapping(old(pt.mem.pages), pt.mem.pages, pt.root, a0.start, v)
        invariant a0.frames.Values == areas[idx].frames.Values + (old(pt.mem.Taken()) - pt.mem.Taken())
        invariant pt.mem.Taken() <= old(pt.mem.Taken()) && Others() == old(Others())
        invariant SameOutsideTables(old(pt.mem.pages), pt.mem.pages, pt.owner.Keys)
      {
        ghost var pages, taken, before := pt.mem.pages, pt.mem.Taken(), areas;
        FirstPage(pages, pt.root, pt.owner.Keys, taken, areas, idx, v, fixed, backing);
        label Before:
        var a := UnmapOne(areas[idx], v);
        AreaShrinks(pages, pt.mem.pages, pt.root, pt.owner.Keys, taken, pt.mem.Taken(), before, idx, before[idx], a, v, fixed, backing);
        areas := areas[idx := a];
        if a.mapType.Framed? {
          backing := backing - {before[idx].frames[v]};
        }
        assert areas[idx := a.(start := v + 1)] == before[idx := a.(start := v + 1)];
        forall w: nat | a0.start <= w < v
          ensures pt.Map(w).None?
        {
          assert old@Before(pt.Map(w)).None?;
        }
        v := v + 1;
      }
      NothingLeft(pt.mem.pages, pt.root, pt.owner.Keys, pt.mem.Taken(), areas, idx, fixed, backing);
      forall w | a0.Has(w)
        ensures Mapped(pt.mem.pages, pt.root, w).None?
      {
        assert pt.Map(w).None?;
      }
    }
  }

  /** The area's pages are unmapped, no others; its frames are free again, and only page tables were written. */
  ghost predicate AreaGone(a: MapArea, pages: seq<Page>, taken: set<nat>, pages': seq<Page>, taken': set<nat>,
                           root: nat, tables: set<nat>) {
    && (forall v :: a.Has(v) ==> Mapped(pages', root, v).None?)
    && SameMapping(pages, pages', root, a.start, a.end)
    && taken' == taken - a.frames.Values
    && SameOutsideTables(pages, pages', tables)
  }

  ghost predicate SameOutsideTables(pages: seq<Page>, pages': seq<Page>, tables: set<nat>) {
    |pages'| == |pages| && forall p :: 0 <= p < |pages| && p !in tables ==> pages'[p] == pages[p]
  }

  /** The first area that starts at vpn. */
  ghost predicate FirstAt(areas: seq<MapArea>, vpn: nat, idx: nat) {
    idx < |areas| && areas[idx].start == vpn && forall i :: 0 <= i < idx ==> areas[i].start != vpn
  }

  lemma AreaAt(pages: seq<Page>, root: nat, tables: set<nat>, taken: set<nat>, areas: seq<MapArea>, idx: nat,
               fixed: set<nat>, backing: map<nat, nat>)
    requires SpaceOk(pages, root, tables, taken, areas, fixed, backing) && idx < |areas|
    ensures areas[idx].start <= areas[idx].end <= 0x800_0000 && areas[idx].perm < 256
  {
    assert AreaOk(pages, root, areas[idx]);
  }

  /** The first page still mapped of an area that is being unmapped. */
  lemma FirstPage(pages: seq<Page>, root: nat, tables: set<nat>, taken: set<nat>, areas: seq<MapArea>, idx: nat, v: nat,
                  fixed: set<nat>, backing: map<nat, nat>)
    requires idx < |areas| && v < areas[idx].end
    requires SpaceOk(pages, root, tables, taken, areas[idx := areas[idx].(start := v)], fixed, backing)
    ensures v < 0x800_0000 && Mapped(pages, root, v).Some?
    ensures areas[idx].mapType.Framed? ==>
              && v in areas[idx].frames && areas[idx].frames[v] in taken && areas[idx].frames[v] !in tables
              && areas[idx].frames[v] in backing
              && areas[idx].frames.Values == (areas[idx].frames - {v}).Values + {areas[idx].frames[v]}
              && areas[idx].frames[v] !in (areas[idx].frames - {v}).Values
    ensures areas[idx].mapType.Identical? ==> areas[idx].frames == map[]
  {
    hide Mapped, PteNew;
    var more := areas[idx := areas[idx].(start := v)];
    assert AreaOk(pages, root, more[idx]) && more[idx].Has(v);
    if areas[idx].mapType.Framed? {
      var frames := areas[idx].frames;
      assert v in more[idx].frames;
      ValuesSplit(frames, v);
      assert forall w :: w in frames ==> more[idx].frames[w] in backing && backing[frames[w]] == w;
    }
  }

  lemma ValuesSplit(m: map<nat, nat>, v: nat)
    requires v in m
    ensures m.Values == (m - {v}).Values + {m[v]}
  {
    forall p | p in m.Values
      ensures p in (m - {v}).Values + {m[v]}
    {
      var w :| w in m && m[w] == p;
      assert w != v ==> w in m - {v} && (m - {v})[w] == p;
    }
    forall p | p in (m - {v}).Values
      ensures p in m.Values
    {
      var w :| w in m - {v} && (m - {v})[w] == p;
      assert m[w] == p;
    }
  }

  lemma FramesInRange(pages: seq<Page>, root: nat, areas: seq<MapArea>)
    requires AreasOk(pages, root, areas)
    ensures forall i, v :: 0 <= i < |areas| && v in areas[i].frames ==> areas[i].Has(v)
  {
    forall i | 0 <= i < |areas|
      ensures forall v :: v in areas[i].frames ==> areas[i].Has(v)
    {
      assert AreaOk(pages, root, areas[i]);
    }
  }

  lemma AreaShrinks(pages: seq<Page>, pages': seq<Page>, root: nat, tables: set<nat>, taken: set<nat>, taken': set<nat>,
                    areas: seq<MapArea>, idx: nat, a: MapArea, a': MapArea, v: nat, fixed: set<nat>, backing: map<nat, nat>)
    requires idx < |areas| && v < a.end
    requires SpaceOk(pages, root, tables, taken, areas[idx := a.(start := v)], fixed, backing)
    requires a.mapType.Framed? ==> v in a.frames
    requires a' == if a.mapType.Framed? then a.(frames := a.frames - {v}) else a
    requires taken' == taken - (if a.mapType.Framed? then {a.frames[v]} else {})
    requires |pages'| == |pages| && SameMapping(pages, pages', root, v, v + 1) && Mapped(pages', root, v).None?
    ensures SpaceOk(pages', root, tables, taken', areas[idx := a'.(start := v + 1)], fixed,
                    if a.mapType.Framed? then backing - {a.frames[v]} else backing)
  {
    hide Mapped, PteNew, Holds, InArea;
    var more, more' := areas[idx := a.(start := v)], areas[idx := a'.(start := v + 1)];
    ShrinkAreas(pages, pages', root, areas, idx, more, more', a, a', v);
    forall w
      ensures InArea(more', w) <==> InArea(more, w) && w != v
    {
      ShrinkRange(pages, root, areas, idx, more, more', a, a', v, w);
    }
    FramesInRange(pages, root, more);
    ShrinkBacking(pages, pages', tables, taken, taken', areas, idx, more, more', a, a', v, backing);
    HasIsIn(more, idx, v);
    assert RangesDisjoint(more') by {
      assert forall i, w :: 0 <= i < |more'| && more'[i].Has(w) ==> more[i].Has(w);
    }
  }

  lemma HasIsIn(areas: seq<MapArea>, i: nat, v: nat)
    requires i < |areas| && areas[i].Has(v)
    ensures InArea(areas, v)
  {
  }

  lemma ShrinkAreas(pages: seq<Page>, pages': seq<Page>, root: nat, areas: seq<MapArea>, idx: nat, more: seq<MapArea>,
                    more': seq<MapArea>, a: MapArea, a': MapArea, v: nat)
    requires idx < |areas| && v < a.end && more == areas[idx := a.(start := v)] && more' == areas[idx := a'.(start := v + 1)]
    requires AreasOk(pages, root, more) && RangesDisjoint(more)
    requires a.mapType.Framed? ==> v in a.frames
    requires a' == if a.mapType.Framed? then a.(frames := a.frames - {v}) else a
    requires SameMapping(pages, pages', root, v, v + 1)
    ensures AreasOk(pages', root, more')
  {
    hide Mapped, PteNew;
    assert more[idx].Has(v);
    forall i | 0 <= i < |more'|
      ensures AreaOk(pages', root, more'[i])
    {
      assert AreaOk(pages, root, more[i]);
      assert i != idx ==> !more[i].Has(v);
      forall w | more'[i].Has(w)
        ensures MappedTo(pages', root, w, more'[i].Target(w), more'[i].perm)
      {
        assert w != v && more[i].Has(w) && MappedTo(pages, root, w, more[i].Target(w), more[i].perm);
      }
    }
  }

  lemma ShrinkRange(pages: seq<Page>, root: nat, areas: seq<MapArea>, idx: nat, more: seq<MapArea>, more': seq<MapArea>,
                    a: MapArea, a': MapArea, v: nat, w: nat)
    requires idx < |areas| && v < a.end && more == areas[idx := a.(start := v)] && more' == areas[idx := a'.(start := v + 1)]
    requires RangesDisjoint(more) && a'.end == a.end
    ensures InArea(more', w) <==> InArea(more, w) && w != v
  {
    assert more[idx].Has(v);
    if InArea(more, w) && w != v {
      var i :| 0 <= i < |more| && more[i].Has(w);
      assert more'[i].Has(w);
    }
    if InArea(more', w) {
      var i :| 0 <= i < |more'| && more'[i].Has(w);
      assert more[i].Has(w);
    }
  }

  lemma ShrinkBacking(pages: seq<Page>, pages': seq<Page>, tables: set<nat>, taken: set<nat>, taken': set<nat>,
                      areas: seq<MapArea>, idx: nat, more: seq<MapArea>, more': seq<MapArea>, a: MapArea, a': MapArea, v: nat,
                      backing: map<nat, nat>)
    requires idx < |areas| && more == areas[idx := a.(start := v)] && more' == areas[idx := a'.(start := v + 1)]
    requires BackingOk(pages, tables, taken, more, backing) && |pages'| == |pages|
    requires forall i, w :: 0 <= i < |more| && w in more[i].frames ==> more[i].Has(w)
    requires RangesDisjoint(more) && more[idx].Has(v)
    requires a.mapType.Framed? ==> v in a.frames
    requires a' == if a.mapType.Framed? then a.(frames := a.frames - {v}) else a
    requires taken' == taken - (if a.mapType.Framed? then {a.frames[v]} else {})
    ensures BackingOk(pages', tables, taken', more', if a.mapType.Framed? then backing - {a.frames[v]} else backing)
  {
    hide Holds, InArea;
    forall w, p | Holds(more, w, p)
      ensures w != v || a.mapType.Identical? ==> Holds(more', w, p)
      ensures w == v && a.mapType.Framed? ==> p == a.frames[v]
    {
      ShrinkHolds(areas, idx, more, more', a, a', v, w, p);
    }
    assert a.mapType.Framed? ==> more[idx].frames[v] in backing && backing[more[idx].frames[v]] == v;
    forall i, w | 0 <= i < |more'| && w in more'[i].frames
      ensures more'[i].frames[w] in backing && backing[more'[i].frames[w]] == w
      ensures a.mapType.Framed? ==> more'[i].frames[w] != a.frames[v]
    {
      assert w in more[i].frames && more[i].frames[w] == more'[i].frames[w];
      assert a.mapType.Framed? && i != idx ==> w != v;
    }
  }

  lemma ShrinkHolds(areas: seq<MapArea>, idx: nat, more: seq<MapArea>, more': seq<MapArea>, a: MapArea, a': MapArea,
                    v: nat, w: nat, p: nat)
    requires idx < |areas| && more == areas[idx := a.(start := v)] && more' == areas[idx := a'.(start := v + 1)]
    requires forall i, w :: 0 <= i < |more| && w in more[i].frames ==> more[i].Has(w)
    requires RangesDisjoint(more) && more[idx].Has(v) && (a.mapType.Framed? ==> v in a.frames)
    requires a' == if a.mapType.Framed? then a.(frames := a.frames - {v}) else a
    requires Holds(more, w, p)
    ensures w != v || a.mapType.Identical? ==> Holds(more', w, p)
    ensures w == v && a.mapType.Framed? ==> p == a.frames[v]
  {
    var i :| 0 <= i < |more| && w in more[i].frames && more[i].frames[w] == p;
    assert more[i].Has(w);
    if w != v || a.mapType.Identical? {
      assert w in more'[i].frames && more'[i].frames[w] == p;
    }
  }

  // ---------- the end of a space

  /** The frames are those of the areas, each holding one page of one area. */
  ghost predicate OwnFramesOnly(areas: seq<MapArea>, backing: map<nat, nat>) {
    && (forall i, v :: 0 <= i < |areas| && v in areas[i].frames ==>
          areas[i].frames[v] in backing && backing[areas[i].frames[v]] == v)
    && PageOnce(areas)
    && (forall p :: p in backing ==> Holds(areas, backing[p], p))
  }

  ghost predicate PageOnce(areas: seq<MapArea>) {
    forall i, j, v :: 0 <= i < |areas| && 0 <= j < |areas| && v in areas[i].frames && v in areas[j].frames ==> i == j
  }

  lemma PageOnceRest(areas: seq<MapArea>)
    requires PageOnce(areas) && areas != []
    ensures PageOnce(areas[1..])
  {
    assert forall i :: 0 <= i < |areas[1..]| ==> areas[1..][i] == areas[i + 1];
  }

  /** As long as the first area's pages in `left` have their frames. */
  ghost predicate PartLeft(areas: seq<MapArea>, left: set<nat>, backing: map<nat, nat>) {
    && areas != []
    && (forall i, v {:trigger areas[i].frames[v]} :: 0 <= i < |areas| && v in areas[i].frames && (i == 0 ==> v in left) ==>
          areas[i].frames[v] in backing && backing[areas[i].frames[v]] == v)
    && PageOnce(areas)
    && (forall p :: p in backing ==> HoldsLeft(areas, left, backing[p], p))
  }

  ghost predicate HoldsLeft(areas: seq<MapArea>, left: set<nat>, v: nat, p: nat) {
    exists i :: 0 <= i < |areas| && v in areas[i].frames && areas[i].frames[v] == p && (i == 0 ==> v in left)
  }

  lemma BackingIsFrames(pages: seq<Page>, root: nat, tables: set<nat>, taken: set<nat>, areas: seq<MapArea>,
                        fixed: set<nat>, backing: map<nat, nat>)
    requires SpaceOk(pages, root, tables, taken, areas, fixed, backing)
    ensures OwnFramesOnly(areas, backing) && backing.Keys <= taken && backing.Keys !! tables
  {
    hide Mapped, PteNew, Holds, InArea;
    FramesInRange(pages, root, areas);
  }

  lemma FirstAreaLeft(areas: seq<MapArea>, backing: map<nat, nat>)
    requires OwnFramesOnly(areas, backing) && areas != []
    ensures PartLeft(areas, areas[0].frames.Keys, backing)
  {
    forall p | p in backing
      ensures HoldsLeft(areas, areas[0].frames.Keys, backing[p], p)
    {
      assert Holds(areas, backing[p], p);
    }
  }

  lemma PageDropped(areas: seq<MapArea>, left: set<nat>, backing: map<nat, nat>, v: nat)
    requires PartLeft(areas, left, backing) && v in left && v in areas[0].frames
    ensures areas[0].frames[v] in backing
    ensures PartLeft(areas, left - {v}, backing - {areas[0].frames[v]})
  {
    var f := areas[0].frames[v];
    forall i, w | 0 <= i < |areas| && w in areas[i].frames && (i == 0 ==> w in left - {v})
      ensures areas[i].frames[w] in backing && backing[areas[i].frames[w]] == w && areas[i].frames[w] != f
    {
      assert backing[f] == v;
    }
    forall p | p in backing && p != f
      ensures HoldsLeft(areas, left - {v}, backing[p], p)
    {
      assert HoldsLeft(areas, left, backing[p], p);
    }
  }

  lemma FirstAreaGone(areas: seq<MapArea>, backing: map<nat, nat>)
    requires PartLeft(areas, {}, backing)
    ensures OwnFramesOnly(areas[1..], backing)
  {
    var rest := areas[1..];
    PageOnceRest(areas);
    hide PageOnce;
    forall i, v | 0 <= i < |rest| && v in rest[i].frames
      ensures v in areas[i + 1].frames && rest[i] == areas[i + 1]
      ensures rest[i].frames[v] in backing && backing[rest[i].frames[v]] == v
    {
    }
    forall p | p in backing
      ensures Holds(rest, backing[p], p)
    {
      assert HoldsLeft(areas, {}, backing[p], p);
      var i :| 0 <= i < |areas| && backing[p] in areas[i].frames && areas[i].frames[backing[p]] == p && i != 0;
      assert backing[p] in rest[i - 1].frames && rest[i - 1].frames[backing[p]] == p;
    }
  }

  lemma NoAreasNoFrames(backing: map<nat, nat>)
    requires OwnFramesOnly([], backing)
    ensures backing == map[]
  {
    if backing != map[] {
      var p :| p in backing;
      NobodyHolds(backing[p], p);
      assert false;
    }
  }

  lemma NobodyHolds(v: nat, p: nat)
    ensures !Holds([], v, p)
  {
  }

  /** What is left of an area all of whose pages are unmapped. */
  lemma NothingLeft(pages: seq<Page>, root: nat, tables: set<nat>, taken: set<nat>, areas: seq<MapArea>, idx: nat,
                    fixed: set<nat>, backing: map<nat, nat>)
    requires idx < |areas|
    requires SpaceOk(pages, root, tables, taken, areas[idx := areas[idx].(start := areas[idx].end)], fixed, backing)
    ensures areas[idx].frames == map[] && areas[idx].frames.Values == {}
  {
    var more := areas[idx := areas[idx].(start := areas[idx].end)];
    assert AreaOk(pages, root, more[idx]);
  }

  /** An empty area can go. */
  lemma DropArea(pages: seq<Page>, root: nat, tables: set<nat>, taken: set<nat>, areas: seq<MapArea>, idx: nat,
                 fixed: set<nat>, backing: map<nat, nat>)
    requires idx < |areas| && areas[idx].frames == map[]
    requires SpaceOk(pages, root, tables, taken, areas[idx := areas[idx].(start := areas[idx].end)], fixed, backing)
    ensures SpaceOk(pages, root, tables, taken, Without(areas, idx), fixed, backing)
  {
    hide Mapped, PteNew, Holds, InArea;
    var more, rest := areas[idx := areas[idx].(start := areas[idx].end)], Without(areas, idx);
    assert forall k :: 0 <= k < |rest| ==> rest[k] == more[if k < idx then k else k + 1];
    forall w
      ensures InArea(rest, w) <==> InArea(more, w)
    {
      DropOne(areas, idx, more, rest, w);
    }
    forall w, p
      ensures Holds(more, w, p) ==> Holds(rest, w, p)
    {
      DropOne(areas, idx, more, rest, w);
    }
    assert BackingOk(pages, tables, taken, rest, backing);
  }

  lemma DropOne(areas: seq<MapArea>, idx: nat, more: seq<MapArea>, rest: seq<MapArea>, w: nat)
    requires idx < |areas| && areas[idx].frames == map[]
    requires more == areas[idx := areas[idx].(start := areas[idx].end)] && rest == Without(areas, idx)
    ensures InArea(rest, w) <==> InArea(more, w)
    ensures forall p :: Holds(more, w, p) ==> Holds(rest, w, p)
  {
    assert forall k :: 0 <= k < |rest| ==> rest[k] == more[if k < idx then k else k + 1];
    if InArea(more, w) {
      var i :| 0 <= i < |more| && more[i].Has(w);
      assert rest[if i < idx then i else i - 1].Has(w);
    }
    forall p | Holds(more, w, p)
      ensures Holds(rest, w, p)
    {
      var i :| 0 <= i < |more| && w in more[i].frames && more[i].frames[w] == p;
      var j := if i < idx then i else i - 1;
      assert w in rest[j].frames && rest[j].frames[w] == p;
    }
  }

  lemma FixedGrows(pages: seq<Page>, taken: set<nat>, tables: set<nat>, pages': seq<Page>, taken': set<nat>, tables': set<nat>,
                   root: nat, areas: seq<MapArea>, vpn: nat, fixed: set<nat>, backing: map<nat, nat>)
    requires SpaceOk(pages, root, tables, taken, areas, fixed, backing) && vpn < 0x800_0000
    requires Grown(pages, taken, tables, pages', taken', tables')
    requires Mapped(pages, root, vpn).None? && Mapped(pages', root, vpn).Some? && SameMapping(pages, pages', root, vpn, vpn + 1)
    ensures SpaceOk(pages', root, tables', taken', areas, fixed + {vpn}, backing)
  {
    hide Mapped, PteNew, Holds, InArea;
    forall i | 0 <= i < |areas|
      ensures AreaOk(pages', root, areas[i]) && !areas[i].Has(vpn)
    {
      assert AreaOk(pages, root, areas[i]);
    }
    NotIn(areas, vpn);
  }

  lemma NotIn(areas: seq<MapArea>, v: nat)
    requires forall i :: 0 <= i < |areas| ==> !areas[i].Has(v)
    ensures !InArea(areas, v)
  {
  }

  /** The area is added behind the others, with frames for its pages. */
  ghost predicate Pushed(areas: seq<MapArea>, areas': seq<MapArea>, area: MapArea) {
    && |areas'| == |areas| + 1 && areas'[..|areas|] == areas
    && areas'[|areas|] == area.(frames := areas'[|areas|].frames)
  }

  /** The area's frames are new, and zeroed. */
  ghost predicate FreshFrames(a: MapArea, taken: set<nat>, pages': seq<Page>, taken': set<nat>, tables': set<nat>) {
    forall v :: v in a.frames ==> NewFrame(taken, pages', taken', tables', a.frames[v])
  }

  lemma UsedIsTaken(pages: seq<Page>, tables: set<nat>, taken: set<nat>, areas: seq<MapArea>, backing: map<nat, nat>)
    requires BackingOk(pages, tables, taken, areas, backing)
    ensures backing.Keys <= taken && backing.Keys !! tables
  {
  }

  lemma StartArea(pages: seq<Page>, root: nat, tables: set<nat>, taken: set<nat>, areas: seq<MapArea>, area: MapArea,
                  fixed: set<nat>, backing: map<nat, nat>)
    requires SpaceOk(pages, root, tables, taken, areas, fixed, backing)
    requires area.start <= area.end <= 0x800_0000 && area.perm < 256 && area.frames == map[]
    ensures SpaceOk(pages, root, tables, taken, areas + [area.(end := area.start)], fixed, backing)
    ensures FreshFrames(area, taken, pages, taken, tables) && Grown(pages, taken, tables, pages, taken, tables)
  {
    hide Mapped, PteNew, InArea, Holds;
    var more := areas + [area.(end := area.start)];
    assert forall i :: 0 <= i < |areas| ==> more[i] == areas[i];
    forall v
      ensures InArea(more, v) <==> InArea(areas, v)
    {
      InAreaSnoc(areas, area.(end := area.start), v);
    }
    forall v, p
      ensures Holds(areas, v, p) ==> Holds(more, v, p)
    {
      HoldsSnoc(areas, area, area.(end := area.start), v, p);
    }
  }

  lemma NotYetInArea(pages: seq<Page>, root: nat, areas: seq<MapArea>, a: MapArea, v: nat)
    requires AreasOk(pages, root, areas + [a.(end := v)])
    ensures v !in a.frames
  {
    var more := areas + [a.(end := v)];
    assert more[|areas|] == a.(end := v) && AreaOk(pages, root, more[|areas|]);
  }

  lemma FreshGrows(b: MapArea, a: MapArea, v: nat, taken0: set<nat>, pages: seq<Page>, taken: set<nat>, tables: set<nat>,
                   pages': seq<Page>, taken': set<nat>, tables': set<nat>)
    requires FreshFrames(b, taken0, pages, taken, tables) && Grown(pages, taken, tables, pages', taken', tables')
    requires a == if b.mapType.Framed? then b.(frames := b.frames[v := a.Target(v)]) else b
    requires b.mapType.Framed? ==> NewFrame(taken, pages', taken', tables', a.Target(v))
    requires taken0 <= taken
    ensures FreshFrames(a, taken0, pages', taken', tables')
  {
  }

  /** p is newly taken, for data, and zeroed. */
  ghost predicate NewFrame(taken: set<nat>, pages': seq<Page>, taken': set<nat>, tables': set<nat>, p: nat) {
    p !in taken && p in taken' && p !in tables' && p < |pages'| && pages'[p] == ZERO_PAGE
  }

  lemma EmptySpace(pages: seq<Page>, root: nat, tables: set<nat>, taken: set<nat>)
    requires forall v :: Mapped(pages, root, v) == None
    ensures SpaceOk(pages, root, tables, taken, [], {}, map[])
  {
    hide Mapped;
  }

  /** The mappings of all pages but lo..hi are unchanged. */
  ghost predicate SameMapping(pages: seq<Page>, pages': seq<Page>, root: nat, lo: nat, hi: nat) {
    forall v :: 0 <= v < 0x800_0000 && !(lo <= v < hi) ==> Mapped(pages', root, v) == Mapped(pages, root, v)
  }

  /** An area that is being mapped, and has got as far as page v, gets one page further. */
  lemma AreaGrows(pages: seq<Page>, taken: set<nat>, tables: set<nat>, pages': seq<Page>, taken': set<nat>, tables': set<nat>,
                  root: nat, areas: seq<MapArea>, a: MapArea, a': MapArea, v: nat, fixed: set<nat>, backing: map<nat, nat>)
    requires SpaceOk(pages, root, tables, taken, areas + [a.(end := v)], fixed, backing)
    requires Grown(pages, taken, tables, pages', taken', tables')
    requires a.start <= v < 0x800_0000 && Mapped(pages, root, v).None? && a.perm < 256
    requires SameMapping(pages, pages', root, v, v + 1) && MappedTo(pages', root, v, a'.Target(v), a.perm)
    requires a' == if a.mapType.Framed? then a.(frames := a.frames[v := a'.Target(v)]) else a
    requires a.mapType.Framed? ==> NewFrame(taken, pages', taken', tables', a'.Target(v))
    ensures SpaceOk(pages', root, tables', taken', areas + [a'.(end := v + 1)], fixed,
                    if a.mapType.Framed? then backing[a'.Target(v) := v] else backing)
  {
    hide Mapped;
    var more, more' := areas + [a.(end := v)], areas + [a'.(end := v + 1)];
    forall w
      ensures InArea(more', w) <==> InArea(more, w) || w == v
    {
      InAreaSnoc(areas, a.(end := v), w);
      InAreaSnoc(areas, a'.(end := v + 1), w);
    }
    GrowAreas(pages, pages', root, areas, a, a', v);
    GrowRanges(pages, root, areas, a, a', v);
    NotYetInArea(pages, root, areas, a, v);
    GrowBacking(pages, taken, tables, pages', taken', tables', areas, more, more', a, a', v, backing);
  }

  lemma InAreaSnoc(areas: seq<MapArea>, a: MapArea, v: nat)
    ensures InArea(areas + [a], v) <==> InArea(areas, v) || a.Has(v)
  {
    var more := areas + [a];
    if InArea(areas, v) {
      var i :| 0 <= i < |areas| && areas[i].Has(v);
      assert more[i].Has(v);
    }
    assert more[|areas|] == a;
  }

  lemma GrowAreas(pages: seq<Page>, pages': seq<Page>, root: nat, areas: seq<MapArea>, a: MapArea, a': MapArea, v: nat)
    requires AreasOk(pages, root, areas + [a.(end := v)])
    requires a.start <= v < 0x800_0000 && Mapped(pages, root, v).None? && a.perm < 256
    requires SameMapping(pages, pages', root, v, v + 1) && MappedTo(pages', root, v, a'.Target(v), a.perm)
    requires a' == if a.mapType.Framed? then a.(frames := a.frames[v := a'.Target(v)]) else a
    ensures AreasOk(pages', root, areas + [a'.(end := v + 1)])
  {
    hide Mapped, PteNew;
    var more, more' := areas + [a.(end := v)], areas + [a'.(end := v + 1)];
    assert more[|areas|] == a.(end := v);
    assert AreaOk(pages, root, a.(end := v));
    forall i | 0 <= i < |more'|
      ensures AreaOk(pages', root, more'[i])
    {
      assert AreaOk(pages, root, more[i]);
      assert i < |areas| ==> !more[i].Has(v);
      forall w | more'[i].Has(w)
        ensures MappedTo(pages', root, w, more'[i].Target(w), more'[i].perm)
      {
        assert w != v ==> more[i].Has(w) && MappedTo(pages, root, w, more[i].Target(w), more[i].perm);
      }
    }
  }

  lemma GrowRanges(pages: seq<Page>, root: nat, areas: seq<MapArea>, a: MapArea, a': MapArea, v: nat)
    requires AreasOk(pages, root, areas + [a.(end := v)]) && RangesDisjoint(areas + [a.(end := v)])
    requires a.start <= v && Mapped(pages, root, v).None? && a'.start == a.start
    ensures RangesDisjoint(areas + [a'.(end := v + 1)])
  {
    hide Mapped, PteNew;
    var more, more' := areas + [a.(end := v)], areas + [a'.(end := v + 1)];
    forall i, w | 0 <= i < |areas| && more'[i].Has(w)
      ensures more[i].Has(w) && w != v
    {
      assert AreaOk(pages, root, more[i]);
    }
    assert forall w :: more'[|areas|].Has(w) <==> w == v || more[|areas|].Has(w);
  }

  lemma GrowBacking(pages: seq<Page>, taken: set<nat>, tables: set<nat>, pages': seq<Page>, taken': set<nat>, tables': set<nat>,
                    areas: seq<MapArea>, more: seq<MapArea>, more': seq<MapArea>, a: MapArea, a': MapArea, v: nat, backing: map<nat, nat>)
    requires more == areas + [a.(end := v)] && more' == areas + [a'.(end := v + 1)]
    requires BackingOk(pages, tables, taken, more, backing) && v !in a.frames
    requires Grown(pages, taken, tables, pages', taken', tables')
    requires a' == if a.mapType.Framed? then a.(frames := a.frames[v := a'.Target(v)]) else a
    requires a.mapType.Framed? ==> NewFrame(taken, pages', taken', tables', a'.Target(v))
    ensures BackingOk(pages', tables', taken', more', if a.mapType.Framed? then backing[a'.Target(v) := v] else backing)
  {
    hide InArea, Holds;
    forall w, p
      ensures Holds(more, w, p) ==> Holds(more', w, p)
    {
      HoldsSnoc(areas, a.(end := v), a'.(end := v + 1), w, p);
    }
    HoldsSnoc(areas, a.(end := v), a'.(end := v + 1), v, a'.Target(v));
    assert more[|areas|] == a.(end := v);
    forall i, w | 0 <= i < |more'| && w in more'[i].frames && !(i == |areas| && w == v && a.mapType.Framed?)
      ensures more'[i].frames[w] in backing && backing[more'[i].frames[w]] == w
    {
      assert w in more[i].frames && more[i].frames[w] == more'[i].frames[w];
    }
  }

  // ---------- writing to the areas' pages

  /** A space does not notice writes to frames other than its page tables, nor frames taken by others. */
  lemma SpaceFrame(pages: seq<Page>, pages': seq<Page>, root: nat, owner: map<nat, Node>, taken: set<nat>, taken': set<nat>,
                   areas: seq<MapArea>, fixed: set<nat>, backing: map<nat, nat>)
    requires TableOk(pages, root, owner) && SpaceOk(pages, root, owner.Keys, taken, areas, fixed, backing)
    requires SameOn(pages, pages', owner.Keys) && taken <= taken'
    ensures TableOk(pages', root, owner) && SpaceOk(pages', root, owner.Keys, taken', areas, fixed, backing)
    ensures forall v :: Mapped(pages', root, v) == Mapped(pages, root, v)
  {
    hide TableOk, PteNew, InArea, Holds;
    WalkFrame(pages, pages', root, owner);
    assert forall v :: Mapped(pages', root, v) == Mapped(pages, root, v) by {
      SameMapped(pages, pages', root);
    }
    hide Mapped;
    forall i | 0 <= i < |areas|
      ensures AreaOk(pages', root, areas[i])
    {
      assert AreaOk(pages, root, areas[i]);
    }
  }

  lemma SameMissing(pages: seq<Page>, pages': seq<Page>, root: nat, owner: map<nat, Node>, vpn: nat)
    requires TableOk(pages, root, owner) && TableOk(pages', root, owner)
    ensures Missing(pages', root, vpn) == Missing(pages, root, vpn)
  {
    hide TableOk, Missing, Needs, Nodes;
    MissingIsNeeded(pages, root, owner, vpn);
    MissingIsNeeded(pages', root, owner, vpn);
  }

  lemma SameMapped(pages: seq<Page>, pages': seq<Page>, root: nat)
    requires forall v :: Find(pages', root, v) == Find(pages, root, v)
    ensures forall v :: Mapped(pages', root, v) == Mapped(pages, root, v)
  {
    hide Find;
  }

  /** Whoever writes a frame of its own areas is unseen by another space: its translations and its areas' bytes stay. */
  lemma WritesInvisible(pages: seq<Page>, p: nat, bytes: Page, root: nat, owner: map<nat, Node>, taken: set<nat>,
                        areas: seq<MapArea>, fixed: set<nat>, backing: map<nat, nat>)
    requires TableOk(pages, root, owner) && SpaceOk(pages, root, owner.Keys, taken, areas, fixed, backing)
    requires p < |pages| && p !in owner && p !in backing
    ensures var pages' := pages[p := bytes];
            && SpaceOk(pages', root, owner.Keys, taken, areas, fixed, backing)
            && (forall v :: Mapped(pages', root, v) == Mapped(pages, root, v))
            && (forall i, v :: 0 <= i < |areas| && v in areas[i].frames ==>
                  areas[i].frames[v] < |pages| && pages'[areas[i].frames[v]] == pages[areas[i].frames[v]])
  {
    hide TableOk, Mapped, AreasOk, RangesDisjoint, OnlyAreas, Holds;
    SpaceFrame(pages, pages[p := bytes], root, owner, taken, taken, areas, fixed, backing);
  }

  /** The part of data that belongs to the i-th page. */
  function PageOfData(data: seq<byte>, i: nat): (part: seq<byte>)
    ensures |part| <= PAGE_SIZE
  {
    if PAGE_SIZE * i >= |data| then []
    else if PAGE_SIZE * i + PAGE_SIZE <= |data| then data[PAGE_SIZE * i..PAGE_SIZE * i + PAGE_SIZE]
    else data[PAGE_SIZE * i..]
  }

  /** The frames of an area: pages of memory, one each, and no page tables. */
  ghost predicate OwnPages(pages: seq<Page>, tables: set<nat>, a: MapArea) {
    && (forall v :: v in a.frames ==> a.frames[v] < |pages| && a.frames[v] !in tables)
    && (forall v, w :: v in a.frames && w in a.frames && a.frames[v] == a.frames[w] ==> v == w)
  }

  /** The area's pages below `upto` hold the data, byte for byte, and past its end what they held; nothing else changed. */
  ghost predicate Filled(pages: seq<Page>, pages': seq<Page>, a: MapArea, data: seq<byte>, upto: nat) {
    && |pages'| == |pages|
    && (forall v: nat :: v in a.frames && a.frames[v] < |pages| && v >= a.start ==>
          pages'[a.frames[v]] == if v < upto then Splice(pages[a.frames[v]], 0, PageOfData(data, v - a.start)) else pages[a.frames[v]])
    && (forall p :: 0 <= p < |pages| && p !in a.frames.Values ==> pages'[p] == pages[p])
  }

  lemma FillNext(pages: seq<Page>, pages1: seq<Page>, tables: set<nat>, a: MapArea, data: seq<byte>, v: nat)
    requires Filled(pages, pages1, a, data, v) && OwnPages(pages, tables, a) && v in a.frames && v >= a.start
    ensures a.frames[v] < |pages1|
    ensures var p := a.frames[v];
            && Filled(pages, pages1[p := Splice(pages1[p], 0, PageOfData(data, v - a.start))], a, data, v + 1)
            && SameOn(pages1, pages1[p := Splice(pages1[p], 0, PageOfData(data, v - a.start))], tables)
  {
    hide PageOfData;
    assert a.frames[v] in a.frames.Values;
  }

  /** Past the end of the data nothing is left to fill. */
  lemma FillRest(pages: seq<Page>, pages': seq<Page>, a: MapArea, data: seq<byte>, v: nat, end: nat)
    requires Filled(pages, pages', a, data, v) && a.start <= v && |data| <= PAGE_SIZE * (v - a.start)
    ensures Filled(pages, pages', a, data, if v < end then end else v)
  {
    hide PageOfData, Splice;
    forall w: nat | w in a.frames && a.frames[w] < |pages| && w >= v
      ensures Splice(pages[a.frames[w]], 0, PageOfData(data, w - a.start)) == pages[a.frames[w]]
    {
      NoDataLeft(pages[a.frames[w]], data, w - a.start);
    }
  }

  lemma NoDataLeft(page: Page, data: seq<byte>, i: nat)
    requires |data| <= PAGE_SIZE * i
    ensures Splice(page, 0, PageOfData(data, i)) == page
  {
    assert PageOfData(data, i) == [];
  }

  /** Byte k of the area's pages, in their order, is byte k of the data, and behind the data what it was. */
  lemma FilledMeans(pages: seq<Page>, pages': seq<Page>, a: MapArea, data: seq<byte>, k: nat)
    requires Filled(pages, pages', a, data, a.end) && a.start + k / 4096 < a.end
    requires a.start + k / 4096 in a.frames && a.frames[a.start + k / 4096] < |pages|
    ensures var p := a.frames[a.start + k / 4096];
            pages'[p][k % 4096] == if k < |data| then data[k] else pages[p][k % 4096]
  {
    var v, p := a.start + k / 4096, a.frames[a.start + k / 4096];
    var part := PageOfData(data, k / 4096);
    assert pages'[p] == Splice(pages[p], 0, part);
    assert k == 4096 * (k / 4096) + k % 4096;
  }

  /** copy_data: page by page from the area's first on. */
  method CopyData(pt: PageTable, a: MapArea, data: seq<byte>)
    requires pt.Valid() && AreaOk(pt.mem.pages, pt.root, a) && a.mapType.Framed? && OwnPages(pt.mem.pages, pt.owner.Keys, a)
    requires a.start < a.end && |data| <= PAGE_SIZE * (a.end - a.start)
    modifies pt.mem`pages
    ensures pt.Valid() && Filled(old(pt.mem.pages), pt.mem.pages, a, data, a.end)
  {
    hide TableOk, NoDup, Find, PteNew, PtePpn, AreaOk, Filled, PageOfData, OwnPages;
    ghost var pages := pt.mem.pages;
    var start, vpn, i := 0, a.start, 0;
    FillStart(pages, a, data);
    while true
      invariant start == PAGE_SIZE * i && vpn == a.start + i && a.Has(vpn)
      invariant pt.Valid() && AreaOk(pt.mem.pages, pt.root, a) && Filled(pages, pt.mem.pages, a, data, vpn)
      decreases a.end - vpn
    {
      var src := PageOfData(data, i);
      var e := pt.Translate(vpn);
      AreaTarget(pt.mem.pages, pt.root, a, vpn);
      var ppn := PtePpn(e.value);
      ghost var before := pt.mem.pages;
      FillNext(pages, before, pt.owner.Keys, a, data, vpn);
      pt.mem.WriteBytes(ppn, 0, src);
      AreaFrame(before, pt.mem.pages, pt.root, pt.owner, a);
      start := start + PAGE_SIZE;
      if start >= |data| {
        FillRest(pages, pt.mem.pages, a, data, vpn + 1, a.end);
        break;
      }
      i, vpn := i + 1, vpn + 1;
    }
  }

  lemma FillStart(pages: seq<Page>, a: MapArea, data: seq<byte>)
    ensures Filled(pages, pages, a, data, a.start)
  {
    hide PageOfData;
  }

  lemma AreaFrame(pages: seq<Page>, pages': seq<Page>, root: nat, owner: map<nat, Node>, a: MapArea)
    requires TableOk(pages, root, owner) && AreaOk(pages, root, a) && SameOn(pages, pages', owner.Keys)
    ensures TableOk(pages', root, owner) && AreaOk(pages', root, a)
  {
    hide TableOk, PteNew;
    WalkFrame(pages, pages', root, owner);
    SameMapped(pages, pages', root);
    hide Mapped;
  }

  /** The entry found for a page of an area names its frame. */
  lemma AreaTarget(pages: seq<Page>, root: nat, a: MapArea, vpn: nat)
    requires AreaOk(pages, root, a) && a.Has(vpn)
    ensures Find(pages, root, vpn).Some? && PtePpn(Find(pages, root, vpn).value) == a.Target(vpn)
    ensures a.mapType.Framed? ==> vpn in a.frames && a.Target(vpn) == a.frames[vpn]
  {
    assert MappedTo(pages, root, vpn, a.Target(vpn), a.perm);
    PteRoundTrip(a.Target(vpn), WithV(a.perm));
  }
}
