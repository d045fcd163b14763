/** The kernel's steps between two switches: scheduling, process life, waiting and waking. */
module AgentKernel {
  import opened Bytes
  import opened Collections
  import opened Tasks
  import opened Scheduling
  import opened KernelSteps

  class Kernel {
    var tasks: map<nat, Tcb>
    var current: Option<nat>
    var ready: seq<nat>
    var blocked: seq<BlockedEntry>
    /** Creation order of the tasks, the time so far, and the agents woken by a timeout that have not run since. */
    ghost var birth: map<nat, nat>
    ghost var births: nat
    ghost var clock: nat
    ghost var expired: set<nat>

    ghost function State(): Sched
      reads this
    {
      Sched(tasks, current, ready, blocked)
    }

    ghost predicate Valid()
      reads this
    {
      && Tree(tasks, birth) && Placed(State(), [])
      && DeadlinesListed(State()) && WaitsOk(tasks, clock) && AllQuiet(tasks)
      && (forall p :: p in tasks && p in birth ==> birth[p] < births)
      && ExpiredOk(tasks, expired, clock)
    }

    /** INITPROC alone, ready. */
    constructor ()
      ensures Valid() && clock == 0
      ensures State() == Booted()
    {
      tasks := map[INITPROC := Tcb(Ready, None, [], 0, DEFAULT_PRIORITY, None, None, false)];
      current, ready, blocked := None, [INITPROC], [];
      birth, births, clock, expired := map[INITPROC := 0], 1, 0, {};
    }

    // ---------- scheduling

    /** TaskManager::fetch: takes the first of the ready tasks with the highest priority. */
    method Fetch() returns (r: Option<nat>)
      requires forall p :: p in ready ==> p in tasks
      modifies this`ready
      ensures r.None? ==> old(ready) == [] == ready
      ensures r.Some? ==> exists i: nat :: i < |old(ready)| && IsBest(tasks, old(ready), i)
                                           && r.value == old(ready)[i] && ready == Without(old(ready), i)
    {
      if ready == [] {
        return None;
      }
      var bestIdx, bestPrio := 0, tasks[ready[0]].priority;
      var i := 1;
      while i < |ready|
        invariant 1 <= i <= |ready| && bestIdx < i && bestPrio == tasks[ready[bestIdx]].priority
        invariant forall j :: 0 <= j < i ==> tasks[ready[j]].priority <= bestPrio
        invariant forall j :: 0 <= j < bestIdx ==> tasks[ready[j]].priority < bestPrio
      {
        var p := tasks[ready[i]].priority;
        if p > bestPrio {
          bestIdx, bestPrio := i, p;
        }
        i := i + 1;
      }
      r := Some(ready[bestIdx]);
      ready := Without(ready, bestIdx);
    }

    /** One round of the idle loop: dispatches a ready task, if there is one. */
    method Dispatch()
      requires Valid() && current.None?
      modifies this
      ensures Valid() && clock == old(clock) && expired == old(expired)
      ensures old(ready) == [] ==> State() == old(State())
      ensures old(ready) != [] ==>
                exists i: nat :: i < |old(ready)| && IsBest(old(tasks), old(ready), i) && State() == Dispatched(old(State()), i)
    {
      hide Tree, DeadlinesListed, WaitsOk, AllQuiet, ExpiredOk, IsBest, BlockedOk;
      ghost var s := State();
      var r := Fetch();
      if r.Some? {
        ghost var i: nat :| i < |s.ready| && IsBest(s.tasks, s.ready, i) && r.value == s.ready[i] && ready == Without(s.ready, i);
        tasks := tasks[r.value := tasks[r.value].(status := Running)];
        current := r;
        DispatchKeeps(s, i, birth, clock);
        ExpiredKept(s.tasks, tasks, expired, clock);
      }
    }

    /** The running task goes to the end of the ready queue. */
    method Suspend()
      requires Valid() && current.Some?
      modifies this
      ensures Valid() && clock == old(clock) && expired == old(expired)
      ensures State() == Suspended(old(State()))
    {
      hide Tree, DeadlinesListed, WaitsOk, AllQuiet, ExpiredOk, Placed;
      ghost var s := State();
      InPlace(s);
      var task := current.value;
      current := None;
      tasks := tasks[task := tasks[task].(status := Ready)];
      ready := ready + [task];
      SuspendKeeps(s, birth, clock);
      ExpiredKept(s.tasks, tasks, expired, clock);
    }

    // ---------- process life

    /** The running task exits and its children become INITPROC's; INITPROC's own exit shuts the machine down instead. */
    method Exit(exitCode: int) returns (shutdown: bool)
      requires Valid() && current.Some? && tasks[current.value].wait.None?
      modifies this
      ensures Valid() && clock == old(clock)
      ensures shutdown == (old(current).value == INITPROC)
      ensures if shutdown then State() == old(State())
              else State() == Sched(Exited(old(tasks), old(current).value, exitCode), None, old(ready), old(blocked))
    {
      hide Tree, DeadlinesListed, WaitsOk, AllQuiet, ExpiredOk, Placed;
      ghost var s := State();
      InPlace(s);
      var p := current.value;
      if p == INITPROC {
        return true;
      }
      var kids := tasks[p].children;
      ChildrenApart(tasks, birth, p);
      ReparentNone(tasks);
      assert kids[..0] == [];
      current := None;
      var i := 0;
      while i < |kids|
        invariant i <= |kids| && tasks == Reparented(s.tasks, kids[..i])
        invariant State() == Sched(tasks, None, s.ready, s.blocked)
        invariant birth == old(birth) && births == old(births) && clock == old(clock) && expired == old(expired)
      {
        ReparentOne(s.tasks, kids[..i], kids[i]);
        assert kids[..i + 1] == kids[..i] + [kids[i]];
        tasks := tasks[kids[i] := tasks[kids[i]].(parent := Some(INITPROC))];
        tasks := tasks[INITPROC := tasks[INITPROC].(children := tasks[INITPROC].children + [kids[i]])];
        i := i + 1;
      }
      assert kids[..i] == kids;
      tasks := tasks[p := tasks[p].(status := Zombie, exitCode := exitCode, children := [])];
      ExitKeeps(s, birth, clock, exitCode);
      FewerExpired(s.tasks, expired, p, clock);
      expired := expired - {p};
      ExpiredKept(s.tasks, tasks, expired, clock);
      shutdown := false;
    }

    /** Adds a child of the running task, a plain process with its parent's priority, and makes it ready. */
    method Fork(child: nat)
      requires Valid() && current.Some? && tasks[current.value].wait.None? && child !in tasks
      modifies this
      ensures Valid() && clock == old(clock) && expired == old(expired)
      ensures old(current).value in old(tasks) && State() == ForkedSched(old(State()), old(current).value, child)
    {
      hide Tree, DeadlinesListed, WaitsOk, AllQuiet, ExpiredOk, Placed;
      ghost var s := State();
      InPlace(s);
      var p := current.value;
      tasks := tasks[p := tasks[p].(children := tasks[p].children + [child])]
                    [child := Tcb(Ready, Some(p), [], 0, tasks[p].priority, None, None, tasks[p].area)];
      ready := ready + [child];
      ForkKeeps(s, birth, clock, child, births);
      ForkExpired(s.tasks, expired, clock, p, child);
      birth, births := birth[child := births], births + 1;
    }

    /**
     * Reaps a zombie child: -1 when no child is named, -2 when none named has exited yet, else its pid.
     * The child taken off the list has no other holder, which is what the strong-count assertion demands.
     */
    method WaitPid(pid: int) returns (result: int, exitCode: int)
      requires Valid() && current.Some? && tasks[current.value].wait.None?
      modifies this
      ensures Valid() && clock == old(clock) && expired == old(expired)
      ensures old(current).value in old(tasks)
      ensures WaitedPid(old(State()), State(), old(current).value, pid, result, exitCode)
    {
      hide Tree, DeadlinesListed, WaitsOk, AllQuiet, ExpiredOk, Placed, Holders;
      ghost var s := State();
      InPlace(s);
      var p := current.value;
      var kids := tasks[p].children;
      ChildrenApart(tasks, birth, p);
      var any := HasMatch(kids, pid);
      if !any {
        return -1, 0;
      }
      var idx := FindZombie(kids, pid);
      if idx == |kids| {
        return -2, 0;
      }
      ZombieHeldOnce(s, birth, p, idx);
      ReapKeeps(s, birth, clock, p, idx);
      ReapExpired(tasks, expired, clock, p, idx);
      result, exitCode := kids[idx], tasks[kids[idx]].exitCode;
      tasks := (tasks - {kids[idx]})[p := tasks[p].(children := Without(kids, idx))];
    }

    method HasMatch(kids: seq<nat>, pid: int) returns (any: bool)
      ensures any <==> exists c :: c in kids && Matches(pid, c)
    {
      for i := 0 to |kids|
        invariant forall j :: 0 <= j < i ==> !Matches(pid, kids[j])
      {
        if Matches(pid, kids[i]) {
          assert kids[i] in kids;
          return true;
        }
      }
      any := false;
    }

    /** Position of the first zombie named, or the number of children. */
    method FindZombie(kids: seq<nat>, pid: int) returns (idx: nat)
      requires forall i :: 0 <= i < |kids| ==> kids[i] in tasks
      ensures idx <= |kids| && (idx < |kids| ==> FirstZombie(tasks, kids, pid, idx))
      ensures idx == |kids| ==> forall i: nat :: !FirstZombie(tasks, kids, pid, i)
    {
      idx := 0;
      while idx < |kids| && !(tasks[kids[idx]].status.Zombie? && Matches(pid, kids[idx]))
        invariant idx <= |kids|
        invariant forall j :: 0 <= j < idx ==> !(tasks[kids[j]].status.Zombie? && Matches(pid, kids[j]))
      {
        idx := idx + 1;
      }
    }

    /** All processes, breadth first from INITPROC: each exactly once. */
    method SnapshotAllProcesses() returns (out: seq<nat>)
      requires Tree(tasks, birth)
      ensures NoDup(out) && forall p :: p in out <==> p in tasks
      ensures out == Snapshot(tasks)
    {
      hide Tree, Walking;
      out := [];
      var queue := [INITPROC];
      WalkStart(tasks, birth);
      assert [] + queue == [INITPROC];
      while queue != []
        invariant Walking(tasks, out, out + queue) && Walk(tasks, out, queue) == Snapshot(tasks)
        decreases |tasks| - |out|
      {
        var task := queue[0];
        WalkNext(tasks, birth, out, queue);
        queue := queue[1..];
        var children := tasks[task].children;
        var i := 0;
        ghost var rest := queue;
        while i < |children|
          invariant i <= |children| && queue == rest + children[..i]
        {
          queue := queue + [children[i]];
          i := i + 1;
        }
        assert queue == rest + children;
        out := out + [task];
      }
      assert out + queue == out;
      WalkedAll(tasks, birth, out);
    }

    // ---------- blocking and waking

    /** Puts a task that was just taken off the blocked list into the ready queue. */
    method WakeOne(task: nat)
      requires task in tasks
      modifies this`tasks, this`ready
      ensures tasks == old(tasks)[task := old(tasks)[task].(status := Ready)] && ready == old(ready) + [task]
    {
      tasks := tasks[task := tasks[task].(status := Ready)];
      ready := ready + [task];
    }

    /** Wakes the given task if it is blocked. */
    method WakeAgentByPid(pid: nat) returns (woke: bool)
      requires Placed(State(), [])
      modifies this`tasks, this`ready, this`blocked
      ensures Placed(State(), []) && Woken(old(State()), State(), {pid})
      ensures woke <==> pid in old(tasks) && old(tasks)[pid].status.Blocked?
      ensures State() == WakePid(old(State()), pid)
    {
      hide Placed, Woken;
      ghost var s := State();
      var idx := 0;
      while idx < |blocked| && blocked[idx].pid != pid
        invariant idx <= |blocked| && forall j :: 0 <= j < idx ==> blocked[j].pid != pid
      {
        idx := idx + 1;
      }
      EntryIs(blocked, pid, idx);
      if idx == |blocked| {
        NotOnList(s, pid);
        return false;
      }
      WakeFromList(s, idx);
      blocked := SwapRemoved(blocked, idx);
      WakeOne(pid);
      woke := true;
    }

    method WakeAll(pids: seq<nat>)
      requires Placed(State(), [])
      modifies this`tasks, this`ready, this`blocked
      ensures Placed(State(), []) && Woken(old(State()), State(), AsSet(pids))
      ensures State() == WakePids(old(State()), pids)
    {
      hide Placed, Woken;
      WokenNobody(State());
      ghost var done: set<nat> := {};
      for i := 0 to |pids|
        invariant Placed(State(), []) && Woken(old(State()), State(), done)
        invariant done == AsSet(pids[..i]) && State() == WakePids(old(State()), pids[..i])
      {
        ghost var s1 := State();
        WakePidsSnoc(old(State()), pids[..i], pids[i]);
        assert pids[..i + 1] == pids[..i] + [pids[i]];
        var woke := WakeAgentByPid(pids[i]);
        WokenTrans(old(State()), s1, State(), done, {pids[i]});
        done := done + {pids[i]};
      }
      assert pids[..|pids|] == pids;
    }

    /** Wakes every blocked task whose deadline has come. */
    method TickWakeTimeouts(now: u64)
      requires Placed(State(), [])
      modifies this`tasks, this`ready, this`blocked
      ensures Placed(State(), []) && Woken(old(State()), State(), ExpiredPids(old(blocked), now))
      ensures forall e :: e in blocked ==> !Expired(e, now)
      ensures State() == WakeTimeouts(old(State()), now)
    {
      hide Placed, Woken, Scan, Scanned, Expired, Sorted, Waking, WakeTimeouts;
      ghost var s := State();
      var toWake: seq<nat> := [];
      var i := 0;
      ScanStart(blocked, now);
      SortStart(blocked, now);
      while i < |blocked|
        invariant i <= |blocked| && Placed(State(), toWake) && State() == s.(blocked := blocked)
        invariant Sorted(s.blocked, blocked, toWake, now)
        invariant Scanned(s.blocked, blocked, i, toWake, now)
        invariant forall j :: 0 <= j < i ==> !Expired(blocked[j], now)
        decreases |blocked| - i
      {
        ScanStep(s.blocked, blocked, i, toWake, now);
        if Expired(blocked[i], now) {
          TakeOffList(State(), i, toWake);
          SortOut(State(), s.blocked, i, toWake, now);
          toWake := toWake + [blocked[i].pid];
          blocked := SwapRemoved(blocked, i);
        } else {
          i := i + 1;
        }
      }
      ScanEnd(s.blocked, blocked, toWake, now);
      ghost var left := blocked;
      assert forall e :: e in left ==> !Expired(e, now);
      ghost var s1 := State();
      assert toWake[0..] == toWake;
      WakingStart(s1);
      for k := 0 to |toWake|
        invariant Placed(State(), toWake[k..]) && Waking(s1, State(), toWake[..k])
      {
        assert toWake[k..] == [toWake[k]] + toWake[k + 1..];
        WakeFromLimbo(State(), toWake[k], toWake[k + 1..]);
        WakingNext(s1, State(), toWake[..k], toWake[k]);
        assert toWake[..k + 1] == toWake[..k] + [toWake[k]];
        WakeOne(toWake[k]);
      }
      assert toWake[|toWake|..] == [] && toWake[..|toWake|] == toWake;
      TimeoutsWoken(s, s1, State(), toWake, now);
      ScannedWake(s, s1, State(), toWake, now);
    }

    // ---------- events

    /** Marks every agent whose heartbeat is due, and wakes those of them that are blocked. */
    method TickAllAgents(now: u64)
      requires Valid() && clock <= now
      modifies this
      ensures Valid() && clock == now && expired == old(expired)
      ensures Woken(old(State()).(tasks := Ticked(old(tasks), now)), State(), DuePids(old(tasks), now))
      ensures Beaten(old(State()), State(), now)
    {
      hide Tree, DeadlinesListed, WaitsOk, AllQuiet, ExpiredOk, Placed, Woken, DuePids, Ticked, Picked, Snapshot, WakePids, Beaten;
      ghost var s := State();
      var all := SnapshotAllProcesses();
      var toWake := MarkHeartbeats(all, now);
      TickKeeps(s, birth, clock, now, expired);
      clock := now;
      ghost var s1 := State();
      WakeAll(toWake);
      WokenKeeps(s1, State(), AsSet(toWake), birth, clock);
      WokenExpired(s1, State(), AsSet(toWake), expired, clock);
      AllBeaten(s, State(), toWake, now);
    }

    /** The loop over the snapshot; returns whom to wake. */
    method MarkHeartbeats(all: seq<nat>, now: u64) returns (toWake: seq<nat>)
      requires NoDup(all) && forall p :: p in all <==> p in tasks
      modifies this`tasks
      ensures tasks == Ticked(old(tasks), now) && AsSet(toWake) == DuePids(old(tasks), now)
      ensures toWake == Picked(all, DuePids(old(tasks), now))
    {
      hide Due, TickTcb;
      ghost var tasks0 := tasks;
      toWake := [];
      for i := 0 to |all|
        invariant tasks == TickedSome(tasks0, all[..i], now)
        invariant toWake == Picked(all[..i], DuePids(tasks0, now))
      {
        var p := all[i];
        PickedSnoc(all, i, DuePids(tasks0, now));
        TickNext(tasks0, all, i, now);
        if Due(tasks[p], now) {
          DueIsAgent(tasks[p], now);
          var e := tasks[p].ext.value;
          tasks := tasks[p := tasks[p].(ext := Some(e.(heartbeatPending := true, lastBeat := now)))];
          toWake := toWake + [p];
        } else {
          NotDue(tasks[p], now);
          assert tasks[p := tasks[p]] == tasks;
        }
      }
      assert all[..|all|] == all;
      TickedEveryone(tasks0, all, now);
    }

    /** Puts a message into an agent's mailbox and wakes the agent if it is blocked. */
    method DeliverMessage(target: nat, payload: seq<byte>) returns (delivered: bool)
      requires Valid()
      modifies this
      ensures Valid() && clock == old(clock) && expired == old(expired)
      ensures delivered <==> target in old(tasks) && old(tasks)[target].ext.Some?
      ensures !delivered ==> State() == old(State())
      ensures delivered ==> Woken(old(State()).(tasks := Mailed(old(tasks), target, payload)), State(), {target})
      ensures delivered ==> State() == WakePid(old(State()).(tasks := Mailed(old(tasks), target, payload)), target)
    {
      hide Tree, DeadlinesListed, WaitsOk, AllQuiet, ExpiredOk, Placed, Woken, Snapshot, WakePid, Quiet;
      ghost var s := State();
      var all := SnapshotAllProcesses();
      var i := 0;
      while i < |all| && all[i] != target
        invariant i <= |all| && target !in all[..i]
      {
        i := i + 1;
      }
      assert i == |all| ==> all[..i] == all;
      if i == |all| || tasks[all[i]].ext.None? {
        return false;
      }
      var e := tasks[target].ext.value;
      tasks := tasks[target := tasks[target].(ext := Some(e.(mailbox := Posted(e.mailbox, payload))))];
      MailKeeps(s, birth, clock, target, payload, expired);
      ghost var s1 := State();
      var woke := WakeAgentByPid(target);
      WokenKeeps(s1, State(), {target}, birth, clock);
      WokenExpired(s1, State(), {target}, expired, clock);
      delivered := true;
    }

    /** Tells every agent that watches file events that a file changed, and wakes those of them that are blocked. */
    method BroadcastFileEvent()
      requires Valid()
      modifies this
      ensures Valid() && clock == old(clock) && expired == old(expired)
      ensures Woken(old(State()).(tasks := Notified(old(tasks))), State(), WatcherPids(old(tasks)))
      ensures State() == WakePids(old(State()).(tasks := Notified(old(tasks))), Picked(Snapshot(old(tasks)), WatcherPids(old(tasks))))
    {
      hide Tree, DeadlinesListed, WaitsOk, AllQuiet, ExpiredOk, Placed, Woken, WatcherPids, Notified, Picked, Snapshot, WakePids;
      ghost var s := State();
      var all := SnapshotAllProcesses();
      var toWake := MarkFileEvents(all);
      NotifyKeeps(s, birth, clock, expired);
      ghost var s1 := State();
      WakeAll(toWake);
      WokenKeeps(s1, State(), AsSet(toWake), birth, clock);
      WokenExpired(s1, State(), AsSet(toWake), expired, clock);
    }

    method MarkFileEvents(all: seq<nat>) returns (toWake: seq<nat>)
      requires NoDup(all) && forall p :: p in all <==> p in tasks
      modifies this`tasks
      ensures tasks == Notified(old(tasks)) && AsSet(toWake) == WatcherPids(old(tasks))
      ensures toWake == Picked(all, WatcherPids(old(tasks)))
    {
      ghost var tasks0 := tasks;
      toWake := [];
      for i := 0 to |all|
        invariant tasks == NotifiedSome(tasks0, all[..i])
        invariant toWake == Picked(all[..i], WatcherPids(tasks0))
      {
        var p := all[i];
        PickedSnoc(all, i, WatcherPids(tasks0));
        NotifyNext(tasks0, all, i);
        if WatchesFiles(tasks[p]) {
          var e := tasks[p].ext.value;
          tasks := tasks[p := tasks[p].(ext := Some(e.(filePending := true)))];
          toWake := toWake + [p];
        }
      }
      assert all[..|all|] == all;
      NotifiedEveryone(tasks0, all);
    }

    /**
     * The timer interrupt: heartbeats at now1, timeouts at now2, then the running task yields. Afterwards no
     * blocked deadline has passed, and the tasks woken by their timeouts are noted in `expired`.
     */
    method Timer(now1: u63, now2: u63)
      requires Valid() && current.Some? && tasks[current.value].wait.None? && clock <= now1 <= now2
      modifies this
      ensures Valid() && clock == now2 && current.None?
      ensures TimerDone(old(State()), State(), now1, now2)
      ensures forall e :: e in blocked <==> e in old(blocked) && !Expired(e, now2) && e.pid !in DuePids(old(tasks), now1)
      ensures ready != [] && ready[|ready| - 1] == old(current).value && old(ready) <= ready
      ensures tasks == TimerTasks(old(State()), now1, now2)
      ensures expired == old(expired) + (ExpiredPids(old(blocked), now2) - DuePids(old(tasks), now1))
    {
      hide Tree, DeadlinesListed, WaitsOk, AllQuiet, ExpiredOk, Placed, Woken, Due, TickTcb, TimerTasks;
      ghost var s := State();
      TickAllAgents(now1);
      ghost var s1 := State();
      TickWakeTimeouts(now2);
      TimeoutKeeps(s1, State(), now1, now2, birth, expired);
      clock := now2;
      expired := expired + ExpiredPids(s1.blocked, now2);
      ghost var s2 := State();
      CurrentStays(s, s1, s2, now1, now2);
      Suspend();
      TimerEffect(s, s1, s2, now1, now2);
      NobodyTwice(s1);
      NobodyTwice(s2);
      assert Beaten(s, s1, now1) && WokenOnce(s1, s2, ExpiredPids(s1.blocked, now2));
    }

    // ---------- an agent's system calls

    /** Replaces the running agent's event state. */
    method SetOwnExt(e: AgentExt)
      requires Valid() && current.Some? && tasks[current.value].wait.None?
      modifies this`tasks
      ensures Valid() && State() == WithOwnExt(old(State()), e)
    {
      hide Tree, DeadlinesListed, WaitsOk, AllQuiet, ExpiredOk, Placed;
      ghost var s := State();
      InPlace(s);
      var p := current.value;
      tasks := tasks[p := tasks[p].(ext := Some(e))];
      RunningChanged(s, tasks[p], birth, clock);
      ExpiredKept(s.tasks, tasks, expired, clock);
    }

    /**
     * Makes the running task an agent, if it is not one yet. Where something is mapped in the place of the context
     * area, as in the child of an agent, mapping the area panics.
     */
    method AgentCreate() returns (panics: bool)
      requires Valid() && current.Some? && tasks[current.value].wait.None?
      modifies this`tasks
      ensures Valid() && (panics <==> OwnExt(old(State())).None? && OwnArea(old(State())))
      ensures State() == if OwnExt(old(State())).None? && !panics then AgentMade(old(State())) else old(State())
    {
      if tasks[current.value].ext.Some? {
        return false;
      }
      if tasks[current.value].area {
        return true;
      }
      SetOwnExt(NEW_AGENT);
      Exec(true);
      panics := false;
    }

    /** The running task's address space is replaced; the input tells whether the new one has the context area's place mapped. */
    method Exec(area: bool)
      requires Valid() && current.Some? && tasks[current.value].wait.None?
      modifies this`tasks
      ensures Valid() && State() == WithOwnArea(old(State()), area)
    {
      hide Tree, DeadlinesListed, WaitsOk, AllQuiet, ExpiredOk, Placed;
      ghost var s := State();
      InPlace(s);
      WaitOkAt(tasks, current.value, clock);
      var p := current.value;
      tasks := tasks[p := tasks[p].(area := area)];
      RunningChanged(s, tasks[p], birth, clock);
      ExpiredKept(s.tasks, tasks, expired, clock);
    }

    method AgentWatch(mask: bv32) returns (r: int)
      requires Valid() && current.Some? && tasks[current.value].wait.None?
      modifies this`tasks
      ensures Valid() && r == if OwnExt(old(State())).None? then -4 else 0
      ensures State() == match OwnExt(old(State()))
                         case None => old(State())
                         case Some(e) => WithOwnExt(old(State()), e.(watched := e.watched | mask))
    {
      if tasks[current.value].ext.None? {
        return -4;
      }
      var e := tasks[current.value].ext.value;
      SetOwnExt(e.(watched := e.watched | mask));
      r := 0;
    }

    method AgentUnwatch(mask: bv32) returns (r: int)
      requires Valid() && current.Some? && tasks[current.value].wait.None?
      modifies this`tasks
      ensures Valid() && r == if OwnExt(old(State())).None? then -4 else 0
      ensures State() == match OwnExt(old(State()))
                         case None => old(State())
                         case Some(e) => WithOwnExt(old(State()), e.(watched := e.watched & !mask))
    {
      if tasks[current.value].ext.None? {
        return -4;
      }
      var e := tasks[current.value].ext.value;
      SetOwnExt(e.(watched := e.watched & !mask));
      r := 0;
    }

    /** Sets the heartbeat's interval, counting from now; a pending beat is dropped. */
    method HeartbeatSet(interval: u64, now: u63) returns (r: int)
      requires Valid() && current.Some? && tasks[current.value].wait.None?
      modifies this`tasks
      ensures Valid() && r == if OwnExt(old(State())).None? then -4 else 0
      ensures State() == match OwnExt(old(State()))
                         case None => old(State())
                         case Some(e) => WithOwnExt(old(State()), e.(interval := interval, lastBeat := now, heartbeatPending := false))
    {
      if tasks[current.value].ext.None? {
        return -4;
      }
      var e := tasks[current.value].ext.value;
      SetOwnExt(e.(interval := interval, lastBeat := now, heartbeatPending := false));
      r := 0;
    }

    /** Stops the heartbeat; a pending beat is dropped. */
    method HeartbeatStop() returns (r: int)
      requires Valid() && current.Some? && tasks[current.value].wait.None?
      modifies this`tasks
      ensures Valid() && r == if OwnExt(old(State())).None? then -4 else 0
      ensures State() == match OwnExt(old(State()))
                         case None => old(State())
                         case Some(e) => WithOwnExt(old(State()), e.(interval := 0, heartbeatPending := false))
    {
      if tasks[current.value].ext.None? {
        return -4;
      }
      var e := tasks[current.value].ext.value;
      SetOwnExt(e.(interval := 0, heartbeatPending := false));
      r := 0;
    }

    /** Sets the running task's priority, at most MAX_PRIORITY. */
    method SetPriority(priority: nat) returns (r: int)
      requires Valid() && current.Some? && tasks[current.value].wait.None?
      modifies this`tasks
      ensures Valid() && r == (if priority <= MAX_PRIORITY then priority else MAX_PRIORITY)
      ensures State() == WithOwnPriority(old(State()), r)
    {
      hide Tree, DeadlinesListed, WaitsOk, AllQuiet, ExpiredOk, Placed;
      ghost var s := State();
      InPlace(s);
      WaitOkAt(tasks, current.value, clock);
      var p := current.value;
      var n := if priority <= MAX_PRIORITY then priority else MAX_PRIORITY;
      tasks := tasks[p := tasks[p].(priority := n)];
      RunningChanged(s, tasks[p], birth, clock);
      ExpiredKept(s.tasks, tasks, expired, clock);
      r := n;
    }

    /**
     * Takes the oldest message out of the mailbox; as much of it as fits is what is stored in the buffer at
     * address buf.
     */
    method MailboxRecv(buf: nat, bufLen: nat) returns (r: int, bytes: seq<byte>)
      requires Valid() && current.Some? && tasks[current.value].wait.None?
      modifies this`tasks
      ensures Valid() && Received(old(State()), State(), buf, bufLen, r, bytes)
    {
      if buf == 0 {
        return -1, [];
      }
      if tasks[current.value].ext.None? {
        return -4, [];
      }
      var e := tasks[current.value].ext.value;
      if e.mailbox == [] {
        return -6, [];
      }
      var msg := e.mailbox[0];
      SetOwnExt(e.(mailbox := e.mailbox[1..]));
      var n := if bufLen <= |msg| then bufLen else |msg|;
      r, bytes := n, msg[..n];
    }

    /** agent_wait: start and at are the two clock readings before its loop, now the one in the first round. */
    method AgentWait(timeout: i64, start: u63, at: u63, now: u63) returns (r: WaitResult)
      requires Valid() && current.Some? && tasks[current.value].wait.None? && clock <= start <= at <= now
      modifies this
      ensures Valid()
      ensures r == NotAgent <==> OwnExt(old(State())).None?
      ensures r == NotAgent ==> State() == old(State()) && clock == old(clock)
      ensures r != NotAgent ==>
                var s := WithOwnWait(old(State()), Some(Wait(start, at, timeout, DeadlineOf(at, timeout))));
                clock == now && RoundResult(s, now) == r && State() == AfterRound(s, now)
    {
      hide Tree, DeadlinesListed, WaitsOk, AllQuiet, ExpiredOk, Placed, DeadlineOf, Triggered;
      ghost var s := State();
      InPlace(s);
      var p := current.value;
      if tasks[p].ext.None? {
        return NotAgent;
      }
      tasks := tasks[p := tasks[p].(wait := Some(Wait(start, at, timeout, DeadlineOf(at, timeout))))];
      LaterWaits(s.tasks, clock, now, expired);
      clock := now;
      RunningChanged(s, tasks[p], birth, clock);
      NotWaitingNotExpired(s.tasks, p, expired, clock);
      ExpiredKept(s.tasks, tasks, expired, clock);
      r := WaitRound(now);
    }

    /** An agent that was woken goes on with its wait; if its timeout woke it, the wait ends. */
    method Resume(now: u63) returns (r: WaitResult)
      requires Valid() && current.Some? && tasks[current.value].wait.Some? && clock <= now
      modifies this
      ensures Valid() && clock == now
      ensures old(current).value in old(tasks) && OwnExt(old(State())).Some?
      ensures RoundResult(old(State()), now) == r && State() == AfterRound(old(State()), now)
      ensures old(current).value in old(expired) && !Overflows(old(tasks)[old(current).value].wait.value) ==> r.Caused?
    {
      hide Tree, DeadlinesListed, WaitsOk, AllQuiet, Placed, Triggered;
      InPlace(State());
      assert WaitOk(tasks[current.value], clock) by {
        WaitOkAt(tasks, current.value, clock);
      }
      LaterWaits(tasks, clock, now, expired);
      clock := now;
      r := WaitRound(now);
    }

    /** One round of the wait loop: take the events that end the wait, give up after the timeout, or block. */
    method WaitRound(now: u63) returns (r: WaitResult)
      requires Valid() && current.Some? && tasks[current.value].wait.Some? && clock == now
      modifies this
      ensures Valid() && clock == now
      ensures OwnExt(old(State())).Some?
      ensures RoundResult(old(State()), now) == r && State() == AfterRound(old(State()), now)
    {
      hide Tree, DeadlinesListed, WaitsOk, AllQuiet, ExpiredOk, Placed, Triggered;
      ghost var s := State();
      InPlace(s);
      WaitOkAt(tasks, current.value, clock);
      var p := current.value;
      var e, w := tasks[p].ext.value, tasks[p].wait.value;
      var cause := Triggered(e);
      tasks := tasks[p := tasks[p].(ext := Some(Consumed(e)))];
      FewerExpired(s.tasks, expired, p, clock);
      expired := expired - {p};
      if cause != 0 || TimedOut(w, now) {
        tasks := tasks[p := tasks[p].(wait := None)];
        r := Caused(cause);
        assert tasks == s.tasks[p := tasks[p]];
        RunningChanged(s, tasks[p], birth, clock);
        ExpiredKept(s.tasks, tasks, expired, clock);
      } else {
        current := None;
        tasks := tasks[p := tasks[p].(status := Blocked)];
        blocked := blocked + [BlockedEntry(p, w.deadline)];
        r := Asleep;
        NothingConsumed(e);
        assert tasks == SetStatus(s.tasks, p, Blocked);
        BlockKeeps(s, birth, clock);
        ExpiredKept(s.tasks, tasks, expired, clock);
      }
    }
  }
}
