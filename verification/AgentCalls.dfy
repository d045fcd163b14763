/** System calls that change both the kernel's tasks and the running task's memory. */
module AgentCalls {
  import opened Bytes
  import opened Collections
  import opened Tasks
  import opened KernelSteps
  import opened AgentKernel
  import opened PageWalk
  import opened PageTables
  import opened UserMemory
  import opened MemorySets
  import opened UserSpaces
  import opened ContextAreas
  import opened ContextPaths
  import opened AgentSpaces

  /** The running task is in no wait, and its task record says of its address space what is so. */
  ghost predicate Runs(k: Kernel, space: MemorySet)
    reads k, space, space.pt, space.pt.mem
  {
    && k.Valid() && k.current.Some? && k.current.value in k.tasks && k.tasks[k.current.value].wait.None?
    && space.Valid() && (k.tasks[k.current.value].area <==> !AreaUnmapped(space))
  }

  /**
   * sys_agent_create: a plain process becomes an agent with an empty path. It panics exactly when something is mapped
   * in the place of the context area, or frames run out.
   */
  method AgentCreate(k: Kernel, space: MemorySet, padding: seq<byte>) returns (panics: bool, path: ContextPath?)
    requires Runs(k, space) && |padding| == 4
    modifies k, space, space.pt, space.pt.mem
    ensures panics <==> OwnExt(old(k.State())).None?
                        && (OwnArea(old(k.State())) || ContextCost(old(Nodes(space.pt.owner))) > old(space.pt.mem.FreeFrames()))
    ensures OwnExt(old(k.State())).Some? ==> path == null && k.State() == old(k.State()) && Runs(k, space)
    ensures OwnExt(old(k.State())).None? && !panics ==>
              && k.State() == AgentMade(old(k.State())) && Runs(k, space)
              && path != null && path.Valid() && path.nodes == [] && path.area.mem == space.pt.mem
              && path.area.base == CONTEXT_AREA_BASE && HoldsHeader(path.area.Contents())
  {
    hide Kernel.Valid, MemorySet.Valid, AreaUnmapped, ContextCost, ContextPath.Valid, HoldsHeader, ContextArea.Contents;
    if k.tasks[k.current.value].ext.Some? {
      return false, null;
    }
    path := CreateContext(space, padding);
    if path == null {
      return true, null;
    }
    NotUnmapped(space, old(space.areas));
    panics := k.AgentCreate();
  }

  /**
   * sys_fork: the child, a plain process, gets a copy of the address space, context area included; it panics exactly
   * when frames for the copy run out.
   */
  method Fork(k: Kernel, user: MemorySet, child: nat, trampoline: nat, strampoline: nat) returns (panics: bool, space: MemorySet?)
    requires Runs(k, user) && child !in k.tasks && (forall i :: 0 <= i < |user.areas| ==> user.areas[i].mapType.Framed?)
    requires trampoline < 0x800_0000 && strampoline < 0x1000_0000_0000 && user.fixed == {trampoline}
    modifies k, user.pt.mem
    ensures panics <==> CloneCost(user.areas, trampoline, |user.areas|) > old(user.pt.mem.FreeFrames())
    ensures !panics ==>
              && k.State() == ForkedSched(old(k.State()), old(k.current.value), child) && Runs(k, user)
              && space != null && space.Valid() && |space.areas| == |user.areas|
              && Copies(old(user.pt.mem.pages), old(user.pt.mem.Taken()), user.pt.mem.pages, user.areas, space.areas)
              && child in k.tasks && (k.tasks[child].area <==> !AreaUnmapped(space))
  {
    hide Kernel.Valid, TableOk, SpaceOk, NoDup, CloneCost, TablesFor, Nodes, Mapped, PteNew, Copies;
    ghost var pages0, taken0 := user.pt.mem.pages, user.pt.mem.Taken();
    space := FromExistedUser(user, trampoline, strampoline);
    if space == null {
      return true, null;
    }
    k.Fork(child);
    panics := false;
    SameArea(user, space, pages0, taken0);
  }

  lemma SameArea(user: MemorySet, space: MemorySet, pages0: seq<Page>, taken0: set<nat>)
    requires user.Valid() && space.Valid() && user.pt.mem == space.pt.mem && space.fixed == user.fixed
    requires TableOk(pages0, user.pt.root, user.pt.owner) && user.pt.owner.Keys <= taken0
    requires SpaceOk(pages0, user.pt.root, user.pt.owner.Keys, taken0, user.areas, user.fixed, user.backing)
    requires Kept(pages0, taken0, user.pt.mem.pages, user.pt.mem.Taken(), space.pt.owner.Keys)
    requires |space.areas| == |user.areas| && Copies(pages0, taken0, user.pt.mem.pages, user.areas, space.areas)
    ensures AreaUnmapped(user) <==> forall v :: ContextMapArea().Has(v) ==> Mapped(pages0, user.pt.root, v).None?
    ensures AreaUnmapped(space) <==> AreaUnmapped(user)
  {
    hide TableOk, SpaceOk, Copies, Find;
    CloneMapsArea(pages0, user.pt.mem.pages, user.pt.root, user.pt.owner.Keys, taken0, user.areas, user.fixed, user.backing,
                  space.pt.root, space.pt.owner.Keys, space.pt.mem.Taken(), space.areas, space.backing);
    WalkFrame(pages0, user.pt.mem.pages, user.pt.root, user.pt.owner);
  }

  /** What of the running agent's oldest message fits into its buffer. */
  function Fitting(s: Sched, buf: nat, bufLen: nat): seq<byte> {
    match OwnExt(s)
    case Some(e) =>
      if buf == 0 || e.mailbox == [] then []
      else if bufLen <= |e.mailbox[0]| then e.mailbox[0][..bufLen] else e.mailbox[0]
    case None => []
  }

  /** sys_mailbox_recv: takes the oldest message and stores what of it fits at address buf, which must be mapped there. */
  method MailboxRecv(k: Kernel, pt: PageTable, buf: nat, bufLen: nat) returns (r: int)
    requires k.Valid() && k.current.Some? && k.current.value in k.tasks && k.tasks[k.current.value].wait.None? && pt.Valid()
    requires var n := |Fitting(k.State(), buf, bufLen)|; Canonical(buf, n) && Reachable(pt.mem.pages, pt.root, VaFrom(buf), n)
    modifies k, pt.mem`pages
    ensures k.Valid()
    ensures var bytes := Fitting(old(k.State()), buf, bufLen);
            && Received(old(k.State()), k.State(), buf, bufLen, r, bytes)
            && OnMemory(old(pt.mem.pages), Addrs(old(pt.mem.pages), pt.root, VaFrom(buf), |bytes|))
            && pt.mem.pages == StoreAll(old(pt.mem.pages), Addrs(old(pt.mem.pages), pt.root, VaFrom(buf), |bytes|), bytes)
            && (OwnFrames(old(pt.mem.pages), pt.root, pt.owner, VaFrom(buf), |bytes|) ==>
                  && Reachable(pt.mem.pages, pt.root, VaFrom(buf), |bytes|)
                  && LoadAll(pt.mem.pages, Addrs(pt.mem.pages, pt.root, VaFrom(buf), |bytes|)) == bytes)
  {
    hide Kernel.Valid, TableOk, Canonical, Reachable, Addrs, OnMemory, StoreAll, LoadAll, OwnFrames, VaFrom;
    ghost var pages0 := pt.mem.pages;
    var bytes;
    r, bytes := k.MailboxRecv(buf, bufLen);
    WriteUserBytes(pt.mem, pt.root, buf, bytes);
    if OwnFrames(pages0, pt.root, pt.owner, VaFrom(buf), |bytes|) {
      WriteThenRead(pages0, pt.root, pt.owner, VaFrom(buf), bytes, 0);
    }
  }
}
