/** Cloning a user address space, and why the two spaces are then apart. */
module UserSpaces {
  import opened Bytes
  import opened Collections
  import opened PageWalk
  import opened PageTables
  import opened MemorySets

  const TRAMPOLINE_FLAGS: nat := 2 + 8

  /** b is a copy of a as far as page `upto`: same pages, same permission, same bytes, in frames not taken before. */
  ghost predicate CopyOf(pages0: seq<Page>, taken0: set<nat>, pages: seq<Page>, a: MapArea, b: MapArea, upto: nat) {
    && b == a.(frames := b.frames)
    && (forall v :: v in a.frames <==> v in b.frames)
    && (forall v :: v in b.frames ==> b.frames[v] !in taken0 && b.frames[v] < |pages|)
    && (forall v :: v in b.frames && v in a.frames && v < upto ==>
          a.frames[v] < |pages0| && pages[b.frames[v]] == pages0[a.frames[v]])
  }

  ghost predicate Copies(pages0: seq<Page>, taken0: set<nat>, pages: seq<Page>, from: seq<MapArea>, to: seq<MapArea>) {
    |to| <= |from| && forall k :: 0 <= k < |to| ==> CopyOf(pages0, taken0, pages, from[k], to[k], from[k].end)
  }

  /** Frames taken before stay taken, are no page tables of the new space, and keep their bytes. */
  ghost predicate Kept(pages0: seq<Page>, taken0: set<nat>, pages: seq<Page>, taken: set<nat>, tables: set<nat>) {
    SameOn(pages0, pages, taken0) && taken0 <= taken && tables !! taken0
  }

  /** The tables below the root that the trampoline and the first n areas need. */
  ghost function TablesFor(areas: seq<MapArea>, trampoline: nat, n: nat): set<Node>
    requires n <= |areas|
  {
    if n == 0 then Needs(trampoline)
    else TablesFor(areas, trampoline, n - 1) + Needed(areas[n - 1].start, areas[n - 1].end)
  }

  /** The pages of the first n areas. */
  ghost function PageCount(areas: seq<MapArea>, n: nat): int
    requires n <= |areas|
  {
    if n == 0 then 0 else PageCount(areas, n - 1) + areas[n - 1].end - areas[n - 1].start
  }

  /** The frames for the root table, the tables below it and the pages of the first n areas. */
  ghost function CloneCost(areas: seq<MapArea>, trampoline: nat, n: nat): int
    requires n <= |areas|
  {
    1 + |TablesFor(areas, trampoline, n)| + PageCount(areas, n)
  }

  lemma CloneCostNext(areas: seq<MapArea>, trampoline: nat, n: nat, have: set<Node>)
    requires n < |areas| && areas[n].mapType.Framed? && have == {RootTable} + TablesFor(areas, trampoline, n)
    ensures CloneCost(areas, trampoline, n + 1) == CloneCost(areas, trampoline, n) + AreaCost(areas[n], areas[n].end, have)
    ensures have + Needed(areas[n].start, areas[n].end) == {RootTable} + TablesFor(areas, trampoline, n + 1)
  {
    var done, more := TablesFor(areas, trampoline, n), Needed(areas[n].start, areas[n].end) - have;
    NoRootNeeded(areas[n].start, areas[n].end);
    assert TablesFor(areas, trampoline, n + 1) == done + more && done !! more;
  }

  lemma {:induction false} NoRootNeeded(lo: nat, hi: nat)
    ensures RootTable !in Needed(lo, hi)
    decreases hi - lo
  {
    if lo < hi {
      NoRootNeeded(lo, hi - 1);
    }
  }

  lemma {:induction false} CloneCostGrows(areas: seq<MapArea>, trampoline: nat, m: nat, n: nat)
    requires m <= n <= |areas| && forall k :: 0 <= k < |areas| ==> areas[k].start <= areas[k].end
    ensures CloneCost(areas, trampoline, m) <= CloneCost(areas, trampoline, n)
    ensures TablesFor(areas, trampoline, m) <= TablesFor(areas, trampoline, n)
    decreases n - m
  {
    if m < n {
      CloneCostGrows(areas, trampoline, m, n - 1);
      SetSize(TablesFor(areas, trampoline, n - 1), TablesFor(areas, trampoline, n));
    }
  }

  lemma SetSize(a: set<Node>, b: set<Node>)
    requires a <= b
    ensures |a| <= |b|
  {
    assert b == a + (b - a);
  }

  /** The trampoline is readable and executable, and not for user programs: V, R and X, bits 0, 1 and 3. */
  function TrampolineEntry(strampoline: nat): (e: u64)
    requires strampoline < 0x1000_0000_0000
    ensures e / 1024 == strampoline && e % 1024 == 1 + 2 + 8
  {
    EntryMeans(strampoline, TRAMPOLINE_FLAGS);
    PteNew(strampoline, WithV(TRAMPOLINE_FLAGS))
  }

  /** new_bare and map_trampoline: a space with the trampoline alone; null exactly when frames run out. */
  method NewUserSpace(mem: Memory, trampoline: nat, strampoline: nat) returns (s: MemorySet?)
    requires mem.Valid() && trampoline < 0x800_0000 && strampoline < 0x1000_0000_0000
    modifies mem
    ensures s != null <==> 1 + |Needs(trampoline)| <= old(mem.FreeFrames())
    ensures s != null ==>
              && fresh(s) && fresh(s.pt) && s.pt.mem == mem && s.Valid() && s.areas == [] && s.fixed == {trampoline}
              && mem.FreeFrames() == old(mem.FreeFrames()) - 1 - |Needs(trampoline)|
              && Nodes(s.pt.owner) == {RootTable} + Needs(trampoline)
              && old(mem.Taken()) <= mem.Taken() && s.pt.owner.Keys !! old(mem.Taken()) && s.Others() == old(mem.Taken())
              && SameOn(old(mem.pages), mem.pages, old(mem.Taken()))
              && s.pt.Map(trampoline) == Some(TrampolineEntry(strampoline))
  {
    hide TableOk, NoDup, Mapped, SpaceOk, PteNew, Needs, Nodes;
    var root := mem.FrameAlloc();
    if root.None? {
      return null;
    }
    var pt := new PageTable(mem, root.value);
    OnlyRoot(root.value, trampoline);
    s := new MemorySet(pt);
    assert pt.Map(trampoline).None?;
    var ok := s.MapTrampoline(trampoline, strampoline, TRAMPOLINE_FLAGS);
    if !ok {
      return null;
    }
  }

  lemma OnlyRoot(root: nat, trampoline: nat)
    ensures Nodes(map[root := RootTable]) == {RootTable} && Needs(trampoline) - {RootTable} == Needs(trampoline)
  {
    assert map[root := RootTable][root] == RootTable;
  }

  lemma StillKept(pages0: seq<Page>, taken0: set<nat>, pages: seq<Page>, taken: set<nat>, tables: set<nat>)
    requires SameOn(pages0, pages, taken0) && taken0 <= taken && tables !! taken0
    ensures Kept(pages0, taken0, pages, taken, tables)
  {
  }

  /** The user's space as it was, with memory and the frames taken then. */
  datatype Before = Before(pages: seq<Page>, taken: set<nat>, root: nat, owner: map<nat, Node>, areas: seq<MapArea>,
                           fixed: set<nat>, backing: map<nat, nat>)

  /** It was a valid space all of whose areas have frames of their own. */
  ghost predicate BeforeOk(u: Before) {
    && TableOk(u.pages, u.root, u.owner) && u.owner.Keys <= u.taken
    && SpaceOk(u.pages, u.root, u.owner.Keys, u.taken, u.areas, u.fixed, u.backing)
    && forall k :: 0 <= k < |u.areas| ==> u.areas[k].mapType.Framed?
  }

  lemma BeforeArea(u: Before, i: nat)
    requires BeforeOk(u) && i < |u.areas|
    ensures u.areas[i].start <= u.areas[i].end <= 0x800_0000 && u.areas[i].perm < 256 && u.areas[i].mapType.Framed?
  {
    AreaAt(u.pages, u.root, u.owner.Keys, u.taken, u.areas, i, u.fixed, u.backing);
  }

  /** The new space holds copies of the first n areas, and what was there before is untouched. */
  ghost predicate CopiedSoFar(u: Before, pages: seq<Page>, taken: set<nat>, tables: set<nat>, areas: seq<MapArea>, n: nat) {
    |areas| == n && Copies(u.pages, u.taken, pages, u.areas, areas) && Kept(u.pages, u.taken, pages, taken, tables)
  }

  /**
   * MemorySet::from_existed_user; null exactly when there are fewer frames than the copy takes. All areas of a user
   * space have frames of their own.
   */
  method FromExistedUser(user: MemorySet, trampoline: nat, strampoline: nat) returns (space: MemorySet?)
    requires user.Valid() && (forall k :: 0 <= k < |user.areas| ==> user.areas[k].mapType.Framed?)
    requires trampoline < 0x800_0000 && strampoline < 0x1000_0000_0000 && user.fixed == {trampoline}
    modifies user.pt.mem
    ensures space != null <==> CloneCost(user.areas, trampoline, |user.areas|) <= old(user.pt.mem.FreeFrames())
    ensures space != null ==>
              user.pt.mem.FreeFrames() == old(user.pt.mem.FreeFrames()) - CloneCost(user.areas, trampoline, |user.areas|)
    ensures space != null ==>
              && fresh(space) && fresh(space.pt) && space.pt.mem == user.pt.mem
              && space.Valid() && user.Valid() && space.Others() == old(user.pt.mem.Taken())
              && Kept(old(user.pt.mem.pages), old(user.pt.mem.Taken()), user.pt.mem.pages, user.pt.mem.Taken(), space.pt.owner.Keys)
              && |space.areas| == |user.areas| && space.fixed == user.fixed
              && Nodes(space.pt.owner) == {RootTable} + TablesFor(user.areas, trampoline, |user.areas|)
              && Copies(old(user.pt.mem.pages), old(user.pt.mem.Taken()), user.pt.mem.pages, user.areas, space.areas)
              && space.pt.Map(trampoline) == Some(TrampolineEntry(strampoline))
  {
    hide TableOk, NoDup, Mapped, SpaceOk, PteNew, Copies, Needs, TablesFor, CloneCost, Kept, SameOn, Nodes;
    hide Memory.Taken, Memory.FreeFrames;
    var mem := user.pt.mem;
    ghost var u := Before(mem.pages, mem.Taken(), user.pt.root, user.pt.owner, user.areas, user.fixed, user.backing);
    CloneCostStart(user.areas, trampoline);
    WholeCost(u, trampoline);
    var s := NewUserSpace(mem, trampoline, strampoline);
    if s == null {
      return null;
    }
    StillKept(u.pages, u.taken, mem.pages, mem.Taken(), s.pt.owner.Keys);
    NoCopies(u.pages, u.taken, mem.pages, user.areas);
    var ok := CloneAreas(user, s, trampoline, u);
    if !ok {
      return null;
    }
    UserStays(user.pt.root, user.pt.owner, user.areas, user.fixed, user.backing, u.pages, u.taken, mem.pages, mem.Taken(), s.pt.owner.Keys);
    space := s;
  }

  lemma WholeCost(u: Before, trampoline: nat)
    requires BeforeOk(u)
    ensures CloneCost(u.areas, trampoline, 0) <= CloneCost(u.areas, trampoline, |u.areas|)
  {
    OrderedAreas(u.pages, u.root, u.owner.Keys, u.taken, u.areas, u.fixed, u.backing);
    CloneCostGrows(u.areas, trampoline, 0, |u.areas|);
  }

  /** The loop over the areas. */
  method CloneAreas(user: MemorySet, s: MemorySet, trampoline: nat, ghost u: Before) returns (ok: bool)
    requires BeforeOk(u) && IsUser(user, s, u)
    requires s.Valid() && s.fixed == u.fixed == {trampoline}
    requires CopiedSoFar(u, s.pt.mem.pages, s.pt.mem.Taken(), s.pt.owner.Keys, s.areas, 0)
    requires Nodes(s.pt.owner) == {RootTable} + TablesFor(u.areas, trampoline, 0) && s.pt.mem.FreeFrames() >= 0
    modifies s, s.pt, s.pt.mem
    ensures ok <==> CloneCost(u.areas, trampoline, |u.areas|) - CloneCost(u.areas, trampoline, 0) <= old(s.pt.mem.FreeFrames())
    ensures ok ==> s.pt.mem.FreeFrames() == old(s.pt.mem.FreeFrames()) + CloneCost(u.areas, trampoline, 0)
                                            - CloneCost(u.areas, trampoline, |u.areas|)
    ensures ok ==> s.Valid() && s.fixed == old(s.fixed) && s.Others() == old(s.Others())
    ensures ok ==> CopiedSoFar(u, s.pt.mem.pages, s.pt.mem.Taken(), s.pt.owner.Keys, s.areas, |u.areas|)
    ensures ok ==> s.pt.Map(trampoline) == old(s.pt.Map(trampoline))
    ensures ok ==> Nodes(s.pt.owner) == {RootTable} + TablesFor(u.areas, trampoline, |u.areas|)
  {
    hide BeforeOk, CopiedSoFar, Needed, TablesFor, CloneCost, AreaCost, Nodes;
    hide Memory.Taken, Memory.FreeFrames, MemorySet.Valid, PageTable.Map;
    ghost var free0 := s.pt.mem.FreeFrames() + CloneCost(u.areas, trampoline, 0);
    var i := 0;
    while i < |user.areas|
      invariant i <= |u.areas| && s.Valid() && s.fixed == {trampoline} && IsUser(user, s, u) && s.Others() == old(s.Others())
      invariant CopiedSoFar(u, s.pt.mem.pages, s.pt.mem.Taken(), s.pt.owner.Keys, s.areas, i)
      invariant s.pt.Map(trampoline) == old(s.pt.Map(trampoline))
      invariant s.pt.mem.FreeFrames() == free0 - CloneCost(u.areas, trampoline, i) >= 0
      invariant Nodes(s.pt.owner) == {RootTable} + TablesFor(u.areas, trampoline, i)
    {
      NextCost(u, trampoline, i, Nodes(s.pt.owner));
      ok := CloneArea(user, s, i, u);
      if !ok {
        return;
      }
      i := i + 1;
    }
    ok := true;
  }

  lemma NextCost(u: Before, trampoline: nat, i: nat, have: set<Node>)
    requires BeforeOk(u) && i < |u.areas| && have == {RootTable} + TablesFor(u.areas, trampoline, i)
    ensures CloneCost(u.areas, trampoline, i + 1) == CloneCost(u.areas, trampoline, i) + AreaCost(u.areas[i], u.areas[i].end, have)
    ensures CloneCost(u.areas, trampoline, i + 1) <= CloneCost(u.areas, trampoline, |u.areas|)
    ensures have + Needed(u.areas[i].start, u.areas[i].end) == {RootTable} + TablesFor(u.areas, trampoline, i + 1)
  {
    hide TableOk, SpaceOk, TablesFor, CloneCost, Needed, AreaCost;
    OrderedAreas(u.pages, u.root, u.owner.Keys, u.taken, u.areas, u.fixed, u.backing);
    CloneCostNext(u.areas, trampoline, i, have);
    CloneCostGrows(u.areas, trampoline, i + 1, |u.areas|);
  }

  /** The space that is cloned is the one of before, and not the clone. */
  ghost predicate IsUser(user: MemorySet, s: MemorySet, u: Before)
    reads user, user.pt, s
  {
    && user.pt.mem == s.pt.mem && user != s && user.pt != s.pt && user.areas == u.areas && user.pt.root == u.root
    && user.pt.owner == u.owner && user.fixed == u.fixed && user.backing == u.backing
  }

  lemma OrderedAreas(pages: seq<Page>, root: nat, tables: set<nat>, taken: set<nat>, areas: seq<MapArea>,
                     fixed: set<nat>, backing: map<nat, nat>)
    requires SpaceOk(pages, root, tables, taken, areas, fixed, backing)
    ensures forall k :: 0 <= k < |areas| ==> areas[k].start <= areas[k].end
  {
    assert forall k :: 0 <= k < |areas| ==> AreaOk(pages, root, areas[k]);
  }

  lemma CloneCostStart(areas: seq<MapArea>, trampoline: nat)
    ensures CloneCost(areas, trampoline, 0) == 1 + |Needs(trampoline)| && TablesFor(areas, trampoline, 0) == Needs(trampoline)
  {
  }

  /** Areas with the same pages and the same kind of mapping take the same frames. */
  lemma SameCost(a: MapArea, b: MapArea, have: set<Node>)
    requires a.start == b.start && a.mapType == b.mapType && a.end == b.end
    ensures AreaCost(a, a.end, have) == AreaCost(b, b.end, have)
  {
  }

  /** One area of the loop: maps an area like it, and copies its pages. */
  method CloneArea(user: MemorySet, s: MemorySet, i: nat, ghost u: Before) returns (ok: bool)
    requires BeforeOk(u) && IsUser(user, s, u) && i < |u.areas|
    requires s.Valid() && s.fixed == u.fixed && CopiedSoFar(u, s.pt.mem.pages, s.pt.mem.Taken(), s.pt.owner.Keys, s.areas, i)
    modifies s, s.pt, s.pt.mem
    ensures ok <==> AreaCost(u.areas[i], u.areas[i].end, old(Nodes(s.pt.owner))) <= old(s.pt.mem.FreeFrames())
    ensures ok ==> s.pt.mem.FreeFrames() == old(s.pt.mem.FreeFrames()) - AreaCost(u.areas[i], u.areas[i].end, old(Nodes(s.pt.owner)))
    ensures ok ==> Nodes(s.pt.owner) == old(Nodes(s.pt.owner)) + Needed(u.areas[i].start, u.areas[i].end)
    ensures ok ==> s.Valid() && s.fixed == old(s.fixed) && s.Others() == old(s.Others())
    ensures ok ==> CopiedSoFar(u, s.pt.mem.pages, s.pt.mem.Taken(), s.pt.owner.Keys, s.areas, i + 1)
    ensures ok ==> forall v :: v in s.fixed ==> s.pt.Map(v) == old(s.pt.Map(v))
  {
    hide TableOk, SpaceOk, Copies, CopyOf, Kept, AreaCost, Needed, Nodes, Mapped, Memory.Taken, Memory.FreeFrames, MemorySet.Valid;
    BeforeArea(u, i);
    ok := MapLike(user, s, i, u);
    if ok {
      CopyPages(user, s, i, u.pages, u.taken);
    }
  }

  /** The first i areas are copied, and the next one is mapped. */
  ghost predicate AreaMapped(u: Before, pages: seq<Page>, taken: set<nat>, tables: set<nat>, areas: seq<MapArea>, i: nat) {
    && i < |u.areas| && |areas| == i + 1
    && CopiedSoFar(u, pages, taken, tables, areas[..i], i)
    && CopyOf(u.pages, u.taken, pages, u.areas[i], areas[i], u.areas[i].start)
  }

  /** from_another and push: maps an area with the pages of the user's. */
  method MapLike(user: MemorySet, s: MemorySet, i: nat, ghost u: Before) returns (ok: bool)
    requires BeforeOk(u) && IsUser(user, s, u) && i < |u.areas|
    requires s.Valid() && s.fixed == u.fixed && CopiedSoFar(u, s.pt.mem.pages, s.pt.mem.Taken(), s.pt.owner.Keys, s.areas, i)
    modifies s, s.pt, s.pt.mem
    ensures ok <==> AreaCost(u.areas[i], u.areas[i].end, old(Nodes(s.pt.owner))) <= old(s.pt.mem.FreeFrames())
    ensures ok ==> s.pt.mem.FreeFrames() == old(s.pt.mem.FreeFrames()) - AreaCost(u.areas[i], u.areas[i].end, old(Nodes(s.pt.owner)))
    ensures ok ==> Nodes(s.pt.owner) == old(Nodes(s.pt.owner)) + Needed(u.areas[i].start, u.areas[i].end)
    ensures ok ==> s.Valid() && s.fixed == old(s.fixed) && s.Others() == old(s.Others())
    ensures ok ==> AreaMapped(u, s.pt.mem.pages, s.pt.mem.Taken(), s.pt.owner.Keys, s.areas, i)
    ensures ok ==> forall v :: v in s.fixed ==> s.pt.Map(v) == old(s.pt.Map(v))
  {
    BeforeArea(u, i);
    hide TableOk, NoDup, Mapped, SpaceOk, PteNew, Copies, CopyOf, AreaCost, Needed;
    hide Kept, Grown, FreshFrames, SameMapping, Nodes, Memory.Taken, Memory.FreeFrames, Memory.Valid;
    var a := user.areas[i];
    var b := MapArea(a.start, a.end, map[], a.mapType, a.perm);
    SameCost(a, b, Nodes(s.pt.owner));
    ghost var pages1, taken1, tables1, areas1, backing1 := s.pt.mem.pages, s.pt.mem.Taken(), s.pt.owner.Keys, s.areas, s.backing;
    NothingThere(u.pages, u.root, u.owner.Keys, u.taken, u.areas, u.fixed, u.backing,
                 pages1, s.pt.root, tables1, taken1, areas1, backing1, i);
    ok := s.Push(b);
    if !ok {
      return;
    }
    ghost var pages2 := s.pt.mem.pages;
    FixedStay(u.pages, u.root, u.owner.Keys, u.taken, u.areas, u.fixed, u.backing, pages1, pages2, s.pt.root, i);
    PushedCopy(u.pages, u.root, u.owner.Keys, u.taken, u.areas, u.fixed, u.backing, i,
               pages1, taken1, tables1, s.pt.root, areas1, s.fixed, backing1,
               pages2, s.pt.mem.Taken(), s.pt.owner.Keys, s.areas, s.backing);
    assert s.areas[..i] == areas1;
  }

  /** Copies the pages of an area that the new space has just mapped. */
  method CopyPages(user: MemorySet, s: MemorySet, i: nat, ghost pages0: seq<Page>, ghost taken0: set<nat>)
    requires user.pt.mem == s.pt.mem && user != s && user.pt != s.pt
    requires TableOk(pages0, user.pt.root, user.pt.owner) && user.pt.owner.Keys <= taken0
    requires SpaceOk(pages0, user.pt.root, user.pt.owner.Keys, taken0, user.areas, user.fixed, user.backing)
    requires i < |user.areas| && user.areas[i].mapType.Framed? && user.areas[i].start <= user.areas[i].end
    requires s.Valid() && |s.areas| == i + 1
    requires Copies(pages0, taken0, s.pt.mem.pages, user.areas, s.areas[..i])
    requires CopyOf(pages0, taken0, s.pt.mem.pages, user.areas[i], s.areas[i], user.areas[i].start)
    requires Kept(pages0, taken0, s.pt.mem.pages, s.pt.mem.Taken(), s.pt.owner.Keys)
    modifies s.pt.mem`pages
    ensures s.Valid() && Copies(pages0, taken0, s.pt.mem.pages, user.areas, s.areas)
    ensures Kept(pages0, taken0, s.pt.mem.pages, s.pt.mem.Taken(), s.pt.owner.Keys)
    ensures forall w :: Mapped(s.pt.mem.pages, s.pt.root, w) == Mapped(old(s.pt.mem.pages), s.pt.root, w)
    ensures s.pt.mem.Taken() == old(s.pt.mem.Taken()) && s.pt.mem.FreeFrames() == old(s.pt.mem.FreeFrames())
  {
    hide TableOk, NoDup, Mapped, SpaceOk, PteNew, Copies, CopyOf, Find, PtePpn, Missing, Kept, Memory.Taken, Memory.FreeFrames;
    var a, v := user.areas[i], user.areas[i].start;
    ghost var b, areas1, pages2 := s.areas[i], s.areas[..i], s.pt.mem.pages;
    assert s.areas == areas1 + [b];
    CopyShape(pages0, taken0, pages2, a, b, v);
    while v < a.end
      invariant a.start <= v <= a.end && s.Valid() && s.areas == areas1 + [b]
      invariant Copies(pages0, taken0, s.pt.mem.pages, user.areas, areas1)
      invariant CopyOf(pages0, taken0, s.pt.mem.pages, a, b, v)
      invariant Kept(pages0, taken0, s.pt.mem.pages, s.pt.mem.Taken(), s.pt.owner.Keys)
      invariant forall w :: Mapped(s.pt.mem.pages, s.pt.root, w) == Mapped(pages2, s.pt.root, w)
      invariant s.pt.mem.Taken() == old(s.pt.mem.Taken()) && s.pt.mem.FreeFrames() == old(s.pt.mem.FreeFrames())
    {
      ghost var pages := s.pt.mem.pages;
      var from := user.pt.Translate(v);
      var to := s.pt.Translate(v);
      PagesFound(user.pt.root, user.pt.owner, user.areas, user.fixed, user.backing, pages0, taken0, i,
                 pages, s.pt.mem.Taken(), s.pt.root, s.pt.owner, s.areas, s.fixed, s.backing, v);
      var src, dst := PtePpn(from.value), PtePpn(to.value);
      OnePage(pages, s.pt.root, s.pt.owner.Keys, s.pt.mem.Taken(), s.areas, s.fixed, s.backing, i, v);
      CopyStep(pages0, taken0, pages, s.pt.mem.Taken(), s.pt.owner.Keys, user.areas, areas1, b, i, v, src, dst);
      PageWritten(pages, s.pt.root, s.pt.owner, s.pt.mem.Taken(), s.areas, s.fixed, s.backing, dst, pages[src]);
      s.pt.mem.CopyPage(src, dst);
      v := v + 1;
    }
    LastCopied(pages0, taken0, s.pt.mem.pages, user.areas, areas1, b, i);
  }

  /** Pages of the next area are not mapped in the new space yet. */
  lemma NothingThere(pages0: seq<Page>, uroot: nat, utables: set<nat>, taken0: set<nat>, uareas: seq<MapArea>, fixed: set<nat>,
                     ubacking: map<nat, nat>, pages: seq<Page>, root: nat, tables: set<nat>, taken: set<nat>,
                     areas: seq<MapArea>, backing: map<nat, nat>, i: nat)
    requires SpaceOk(pages0, uroot, utables, taken0, uareas, fixed, ubacking)
    requires SpaceOk(pages, root, tables, taken, areas, fixed, backing)
    requires Copies(pages0, taken0, pages, uareas, areas) && |areas| == i < |uareas|
    ensures forall v :: uareas[i].Has(v) ==> Mapped(pages, root, v).None?
  {
    hide Mapped, PteNew, BackingOk;
    forall v | uareas[i].Has(v)
      ensures Mapped(pages, root, v).None?
    {
      assert AreaOk(pages0, uroot, uareas[i]);
      HasIsIn(uareas, i, v);
      forall k | 0 <= k < |areas|
        ensures !areas[k].Has(v)
      {
        assert CopyOf(pages0, taken0, pages, uareas[k], areas[k], uareas[k].end);
        assert areas[k].start == uareas[k].start && areas[k].end == uareas[k].end;
        assert k != i;
      }
    }
  }

  /** Fixed pages are not in the area just mapped. */
  lemma FixedStay(pages0: seq<Page>, uroot: nat, utables: set<nat>, taken0: set<nat>, uareas: seq<MapArea>, fixed: set<nat>,
                  ubacking: map<nat, nat>, pages1: seq<Page>, pages2: seq<Page>, root: nat, i: nat)
    requires SpaceOk(pages0, uroot, utables, taken0, uareas, fixed, ubacking) && i < |uareas|
    requires SameMapping(pages1, pages2, root, uareas[i].start, uareas[i].end)
    ensures forall v :: v in fixed ==> Mapped(pages2, root, v) == Mapped(pages1, root, v)
  {
    hide Mapped, BackingOk, AreasOk;
    forall v | v in fixed
      ensures Mapped(pages2, root, v) == Mapped(pages1, root, v)
    {
      assert !InArea(uareas, v);
      assert !uareas[i].Has(v);
    }
  }

  /** After the area is mapped the copies made so far are intact, and its frames are new. */
  lemma PushedCopy(pages0: seq<Page>, uroot: nat, utables: set<nat>, taken0: set<nat>, uareas: seq<MapArea>, fixed: set<nat>,
                   ubacking: map<nat, nat>, i: nat,
                   pages1: seq<Page>, taken1: set<nat>, tables1: set<nat>, root: nat, areas1: seq<MapArea>, fixed1: set<nat>,
                   backing1: map<nat, nat>, pages2: seq<Page>, taken2: set<nat>, tables2: set<nat>, areas2: seq<MapArea>,
                   backing2: map<nat, nat>)
    requires SpaceOk(pages0, uroot, utables, taken0, uareas, fixed, ubacking) && i < |uareas| && uareas[i].mapType.Framed?
    requires SpaceOk(pages1, root, tables1, taken1, areas1, fixed1, backing1) && |areas1| == i
    requires SpaceOk(pages2, root, tables2, taken2, areas2, fixed1, backing2)
    requires Pushed(areas1, areas2, MapArea(uareas[i].start, uareas[i].end, map[], uareas[i].mapType, uareas[i].perm))
    requires Copies(pages0, taken0, pages1, uareas, areas1) && Kept(pages0, taken0, pages1, taken1, tables1)
    requires Grown(pages1, taken1, tables1, pages2, taken2, tables2)
    requires FreshFrames(areas2[i], taken1, pages2, taken2, tables2)
    ensures areas2 == areas1 + [areas2[i]]
    ensures Copies(pages0, taken0, pages2, uareas, areas1) && Kept(pages0, taken0, pages2, taken2, tables2)
    ensures CopyOf(pages0, taken0, pages2, uareas[i], areas2[i], uareas[i].start)
  {
    hide Mapped, PteNew, InArea, Holds, OnlyAreas, RangesDisjoint;
    assert AreaOk(pages0, uroot, uareas[i]) && AreaOk(pages2, root, areas2[i]);
    forall k | 0 <= k < |areas1|
      ensures CopyOf(pages0, taken0, pages2, uareas[k], areas1[k], uareas[k].end)
    {
      assert CopyOf(pages0, taken0, pages1, uareas[k], areas1[k], uareas[k].end);
      forall v | v in areas1[k].frames
        ensures areas1[k].frames[v] < |pages2| && pages2[areas1[k].frames[v]] == pages1[areas1[k].frames[v]]
      {
        assert areas1[k].frames[v] in backing1;
      }
    }
  }

  /** What the two translations find: a frame of the user's, still with its old bytes, and one of the copy's. */
  lemma PagesFound(uroot: nat, uowner: map<nat, Node>, uareas: seq<MapArea>, fixed: set<nat>, ubacking: map<nat, nat>,
                   pages0: seq<Page>, taken0: set<nat>, i: nat,
                   pages: seq<Page>, taken: set<nat>, root: nat, owner: map<nat, Node>, areas: seq<MapArea>, sfixed: set<nat>,
                   backing: map<nat, nat>, v: nat)
    requires TableOk(pages0, uroot, uowner) && uowner.Keys <= taken0
    requires SpaceOk(pages0, uroot, uowner.Keys, taken0, uareas, fixed, ubacking) && i < |uareas| && uareas[i].mapType.Framed?
    requires SpaceOk(pages, root, owner.Keys, taken, areas, sfixed, backing) && |areas| == i + 1
    requires uareas[i].Has(v) && areas[i].mapType.Framed? && areas[i].start == uareas[i].start && areas[i].end == uareas[i].end
    requires Kept(pages0, taken0, pages, taken, owner.Keys)
    ensures v in uareas[i].frames && v in areas[i].frames
    ensures Find(pages, uroot, v).Some? && PtePpn(Find(pages, uroot, v).value) == uareas[i].frames[v]
    ensures Find(pages, root, v).Some? && PtePpn(Find(pages, root, v).value) == areas[i].frames[v]
    ensures uareas[i].frames[v] < |pages0| == |pages| && uareas[i].frames[v] in taken0
    ensures pages[uareas[i].frames[v]] == pages0[uareas[i].frames[v]]
    ensures areas[i].frames[v] < |pages| && areas[i].frames[v] !in owner && areas[i].frames[v] in backing
    ensures backing[areas[i].frames[v]] == v
  {
    hide Mapped, PteNew, InArea, Holds, OnlyAreas, RangesDisjoint, TableOk, Find, PtePpn;
    WalkFrame(pages0, pages, uroot, uowner);
    AreaTarget(pages0, uroot, uareas[i], v);
    AreaTarget(pages, root, areas[i], v);
    assert uareas[i].frames[v] in ubacking && areas[i].frames[v] in backing;
  }

  /** No other page has the frame of page v of area i. */
  lemma OnePage(pages: seq<Page>, root: nat, tables: set<nat>, taken: set<nat>, areas: seq<MapArea>, fixed: set<nat>,
                backing: map<nat, nat>, i: nat, v: nat)
    requires SpaceOk(pages, root, tables, taken, areas, fixed, backing) && i < |areas| && v in areas[i].frames
    ensures OnlyHolder(areas, i, v)
  {
    hide Mapped, PteNew, InArea, Holds, OnlyAreas, AreaOk;
    FramesInRange(pages, root, areas);
  }

  ghost predicate OnlyHolder(areas: seq<MapArea>, i: nat, v: nat)
    requires i < |areas| && v in areas[i].frames
  {
    forall k, w :: 0 <= k < |areas| && w in areas[k].frames && areas[k].frames[w] == areas[i].frames[v] ==> k == i && w == v
  }

  /** Copying one page: it is copied, the others stay copied, and what was there before stays. */
  lemma CopyStep(pages0: seq<Page>, taken0: set<nat>, pages: seq<Page>, taken: set<nat>, tables: set<nat>, uareas: seq<MapArea>,
                 areas1: seq<MapArea>, b: MapArea, i: nat, v: nat, src: nat, dst: nat)
    requires Copies(pages0, taken0, pages, uareas, areas1) && i == |areas1| < |uareas|
    requires CopyOf(pages0, taken0, pages, uareas[i], b, v) && Kept(pages0, taken0, pages, taken, tables)
    requires v in uareas[i].frames && v in b.frames && dst == b.frames[v] && src == uareas[i].frames[v]
    requires (areas1 + [b])[i] == b && OnlyHolder(areas1 + [b], i, v)
    requires src < |pages| == |pages0| && dst < |pages| && pages[src] == pages0[src]
    ensures Copies(pages0, taken0, pages[dst := pages[src]], uareas, areas1)
    ensures CopyOf(pages0, taken0, pages[dst := pages[src]], uareas[i], b, v + 1)
    ensures Kept(pages0, taken0, pages[dst := pages[src]], taken, tables)
  {
    var areas := areas1 + [b];
    forall k | 0 <= k < |areas1|
      ensures CopyOf(pages0, taken0, pages[dst := pages[src]], uareas[k], areas1[k], uareas[k].end)
    {
      assert CopyOf(pages0, taken0, pages, uareas[k], areas1[k], uareas[k].end);
      assert areas[k] == areas1[k];
      assert forall w :: w in areas1[k].frames ==> areas[k].frames[w] != dst;
    }
    assert forall w :: w in b.frames && w != v ==> areas[i].frames[w] != dst;
  }

  /** The space does not notice that a page of its areas is written. */
  lemma PageWritten(pages: seq<Page>, root: nat, owner: map<nat, Node>, taken: set<nat>, areas: seq<MapArea>, fixed: set<nat>,
                    backing: map<nat, nat>, dst: nat, bytes: Page)
    requires TableOk(pages, root, owner) && SpaceOk(pages, root, owner.Keys, taken, areas, fixed, backing)
    requires dst < |pages| && dst !in owner
    ensures TableOk(pages[dst := bytes], root, owner)
    ensures SpaceOk(pages[dst := bytes], root, owner.Keys, taken, areas, fixed, backing)
    ensures forall w :: Mapped(pages[dst := bytes], root, w) == Mapped(pages, root, w)
  {
    SpaceFrame(pages, pages[dst := bytes], root, owner, taken, taken, areas, fixed, backing);
  }

  lemma CopyShape(pages0: seq<Page>, taken0: set<nat>, pages: seq<Page>, a: MapArea, b: MapArea, upto: nat)
    requires CopyOf(pages0, taken0, pages, a, b, upto)
    ensures b.start == a.start && b.end == a.end && b.mapType == a.mapType
  {
  }

  lemma NoCopies(pages0: seq<Page>, taken0: set<nat>, pages: seq<Page>, uareas: seq<MapArea>)
    ensures Copies(pages0, taken0, pages, uareas, [])
  {
  }

  lemma LastCopied(pages0: seq<Page>, taken0: set<nat>, pages: seq<Page>, uareas: seq<MapArea>, areas1: seq<MapArea>, b: MapArea, i: nat)
    requires Copies(pages0, taken0, pages, uareas, areas1) && i == |areas1| < |uareas|
    requires CopyOf(pages0, taken0, pages, uareas[i], b, uareas[i].end)
    ensures Copies(pages0, taken0, pages, uareas, areas1 + [b])
  {
    hide CopyOf;
  }

  /** The user's space is as it was. */
  lemma UserStays(uroot: nat, uowner: map<nat, Node>, uareas: seq<MapArea>, fixed: set<nat>, ubacking: map<nat, nat>,
                  pages0: seq<Page>, taken0: set<nat>, pages: seq<Page>, taken: set<nat>, tables: set<nat>)
    requires TableOk(pages0, uroot, uowner) && SpaceOk(pages0, uroot, uowner.Keys, taken0, uareas, fixed, ubacking)
    requires Kept(pages0, taken0, pages, taken, tables) && uowner.Keys <= taken0
    ensures TableOk(pages, uroot, uowner) && SpaceOk(pages, uroot, uowner.Keys, taken, uareas, fixed, ubacking)
    ensures uowner.Keys <= taken
  {
    hide TableOk, SpaceOk;
    SpaceFrame(pages0, pages, uroot, uowner, taken0, taken, uareas, fixed, ubacking);
  }

  // ---------- the end of a process

  /**
   * What exit and the reaping that follows do to a space, recycle_data_pages and the drop of its page table: exactly the
   * frames it held are free again.
   */
  method Release(space: MemorySet)
    requires space.Valid()
    modifies space, space.pt.mem
    ensures space.pt.mem.Valid() && space.pt.mem.pages == old(space.pt.mem.pages)
    ensures space.pt.mem.Taken() == old(space.Others())
  {
    hide TableOk, SpaceOk, NoDup;
    space.RecycleDataPages();
    space.pt.Drop();
  }

  /** fork, exit and reaping: no frame is lost or won, and the parent's space is untouched. */
  method ForkThenRelease(user: MemorySet, trampoline: nat, strampoline: nat) returns (forked: bool)
    requires user.Valid() && (forall k :: 0 <= k < |user.areas| ==> user.areas[k].mapType.Framed?)
    requires trampoline < 0x800_0000 && strampoline < 0x1000_0000_0000 && user.fixed == {trampoline}
    modifies user.pt.mem
    ensures forked <==> CloneCost(user.areas, trampoline, |user.areas|) <= old(user.pt.mem.FreeFrames())
    ensures forked ==>
              && user.Valid() && user.pt.mem.Taken() == old(user.pt.mem.Taken())
              && user.pt.mem.FreeFrames() == old(user.pt.mem.FreeFrames())
              && SameOn(old(user.pt.mem.pages), user.pt.mem.pages, old(user.pt.mem.Taken()))
  {
    hide TableOk, SpaceOk, NoDup, CloneCost, Copies, Mapped, PteNew, Memory.Taken, Memory.FreeFrames;
    user.pt.mem.FreeIsRest();
    ghost var pages0, taken0 := user.pt.mem.pages, user.pt.mem.Taken();
    var child := FromExistedUser(user, trampoline, strampoline);
    forked := child != null;
    if forked {
      Release(child);
      user.pt.mem.FreeIsRest();
      SpaceFrame(pages0, user.pt.mem.pages, user.pt.root, user.pt.owner, taken0, taken0, user.areas, user.fixed, user.backing);
    }
  }

  // ---------- what a clone is

  /** The clone maps exactly the pages of the original, with the same flags. */
  lemma CloneTranslates(pages0: seq<Page>, pages: seq<Page>, uroot: nat, utables: set<nat>, taken0: set<nat>, uareas: seq<MapArea>,
                        fixed: set<nat>, ubacking: map<nat, nat>, root: nat, tables: set<nat>, taken: set<nat>,
                        areas: seq<MapArea>, backing: map<nat, nat>, v: nat)
    requires SpaceOk(pages0, uroot, utables, taken0, uareas, fixed, ubacking)
    requires SpaceOk(pages, root, tables, taken, areas, fixed, backing)
    requires |areas| == |uareas| && Copies(pages0, taken0, pages, uareas, areas) && v < 0x800_0000
    ensures Mapped(pages, root, v).Some? <==> Mapped(pages0, uroot, v).Some?
    ensures v !in fixed && Mapped(pages, root, v).Some? ==>
              PteFlags(Mapped(pages, root, v).value) == PteFlags(Mapped(pages0, uroot, v).value)
  {
    hide Mapped, PteNew, PteFlags, BackingOk, PtePpn;
    forall k | 0 <= k < |areas|
      ensures areas[k].Has(v) <==> uareas[k].Has(v)
    {
      assert CopyOf(pages0, taken0, pages, uareas[k], areas[k], uareas[k].end);
    }
    assert InArea(areas, v) <==> InArea(uareas, v);
    if InArea(areas, v) {
      var k :| 0 <= k < |areas| && areas[k].Has(v);
      assert CopyOf(pages0, taken0, pages, uareas[k], areas[k], uareas[k].end);
      assert AreaOk(pages0, uroot, uareas[k]) && AreaOk(pages, root, areas[k]);
      PteRoundTrip(areas[k].Target(v), WithV(areas[k].perm));
      PteRoundTrip(uareas[k].Target(v), WithV(uareas[k].perm));
    }
  }

  /**
   * The two spaces share no frame, so a write to a page of an area of one is invisible in the other: each
   * space's page frames are neither page tables nor page frames of the other.
   */
  lemma CloneApart(pages0: seq<Page>, pages: seq<Page>, uroot: nat, utables: set<nat>, taken0: set<nat>, uareas: seq<MapArea>,
                   fixed: set<nat>, ubacking: map<nat, nat>, root: nat, tables: set<nat>, taken: set<nat>,
                   areas: seq<MapArea>, backing: map<nat, nat>, p: nat)
    requires SpaceOk(pages0, uroot, utables, taken0, uareas, fixed, ubacking) && utables <= taken0
    requires SpaceOk(pages, root, tables, taken, areas, fixed, backing)
    requires Copies(pages0, taken0, pages, uareas, areas) && Kept(pages0, taken0, pages, taken, tables)
    ensures p in ubacking ==> p !in tables && p !in backing
    ensures p in backing ==> p !in utables && p !in ubacking
  {
    hide Mapped, PteNew, InArea, OnlyAreas, AreasOk, RangesDisjoint;
    if p in backing {
      var k :| 0 <= k < |areas| && backing[p] in areas[k].frames && areas[k].frames[backing[p]] == p;
      assert CopyOf(pages0, taken0, pages, uareas[k], areas[k], uareas[k].end);
      assert p !in taken0;
    }
    assert p in ubacking ==> p in taken0;
  }
}
