/** What the kernel's steps do to the scheduler's state, and the invariants they keep. */
module KernelSteps {
  import opened Bytes
  import opened Collections
  import opened Tasks
  import opened Scheduling

  /** Agents the timeout scan has woken and that have not run since: their deadlines have passed. */
  ghost predicate ExpiredOk(tasks: map<nat, Tcb>, expired: set<nat>, clock: nat) {
    forall p :: p in expired ==>
      && p in tasks && tasks[p].wait.Some? && !tasks[p].status.Blocked?
      && tasks[p].wait.value.deadline.Some? && tasks[p].wait.value.deadline.value <= clock
  }

  function SetStatus(tasks: map<nat, Tcb>, p: nat, status: Status): map<nat, Tcb> {
    if p in tasks then tasks[p := tasks[p].(status := status)] else tasks
  }

  function Dispatched(s: Sched, i: nat): Sched
    requires i < |s.ready|
  {
    Sched(SetStatus(s.tasks, s.ready[i], Running), Some(s.ready[i]), Without(s.ready, i), s.blocked)
  }

  function Suspended(s: Sched): Sched {
    if s.current.None? then s
    else Sched(SetStatus(s.tasks, s.current.value, Ready), None, s.ready + [s.current.value], s.blocked)
  }

  /** Changes that leave the waits and the blocked tasks alone. */
  lemma ExpiredKept(tasks: map<nat, Tcb>, tasks2: map<nat, Tcb>, expired: set<nat>, clock: nat)
    requires ExpiredOk(tasks, expired, clock)
    requires forall p :: p in expired && p in tasks ==>
               p in tasks2 && tasks2[p].wait == tasks[p].wait && (tasks2[p].status.Blocked? ==> tasks[p].status.Blocked?)
    ensures ExpiredOk(tasks2, expired, clock)
  {
  }

  lemma SetStatusKeeps(s: Sched, p: nat, status: Status, birth: map<nat, nat>, clock: nat)
    requires p in s.tasks && !status.Zombie? && !status.Blocked? && !s.tasks[p].status.Zombie?
    requires Tree(s.tasks, birth) && DeadlinesListed(s) && WaitsOk(s.tasks, clock) && AllQuiet(s.tasks)
    ensures var tasks2 := SetStatus(s.tasks, p, status);
            && Tree(tasks2, birth) && DeadlinesListed(s.(tasks := tasks2)) && WaitsOk(tasks2, clock) && AllQuiet(tasks2)
  {
    hide Tree;
    TreeKept(s.tasks, SetStatus(s.tasks, p, status), birth);
  }

  lemma DispatchKeeps(s: Sched, i: nat, birth: map<nat, nat>, clock: nat)
    requires Tree(s.tasks, birth) && DeadlinesListed(s) && WaitsOk(s.tasks, clock) && AllQuiet(s.tasks)
    requires Placed(s, []) && s.current.None? && i < |s.ready|
    ensures var s2 := Dispatched(s, i);
            && Tree(s2.tasks, birth) && DeadlinesListed(s2) && WaitsOk(s2.tasks, clock) && AllQuiet(s2.tasks)
            && Placed(s2, [])
  {
    hide Tree, DeadlinesListed, WaitsOk, AllQuiet, Placed;
    InPlace(s);
    SetStatusKeeps(s, s.ready[i], Running, birth, clock);
    DeadlinesDepend(s.(tasks := Dispatched(s, i).tasks), Dispatched(s, i));
    DispatchPlaced(s, i);
  }

  lemma DispatchPlaced(s: Sched, i: nat)
    requires Placed(s, []) && s.current.None? && i < |s.ready|
    ensures Placed(Dispatched(s, i), [])
  {
    hide NoDup;
    NoDupWithout(s.ready, i);
    assert s.ready[i] in s.ready;
  }

  lemma DeadlinesDepend(s: Sched, s2: Sched)
    requires DeadlinesListed(s) && s2.tasks == s.tasks && s2.blocked == s.blocked
    ensures DeadlinesListed(s2)
  {
  }

  lemma SuspendKeeps(s: Sched, birth: map<nat, nat>, clock: nat)
    requires Tree(s.tasks, birth) && DeadlinesListed(s) && WaitsOk(s.tasks, clock) && AllQuiet(s.tasks)
    requires Placed(s, []) && s.current.Some?
    ensures var s2 := Suspended(s);
            && Tree(s2.tasks, birth) && DeadlinesListed(s2) && WaitsOk(s2.tasks, clock) && AllQuiet(s2.tasks)
            && Placed(s2, [])
  {
    hide Tree, DeadlinesListed, WaitsOk, AllQuiet;
    var p, s2 := s.current.value, Suspended(s);
    SetStatusKeeps(s, p, Ready, birth, clock);
    DeadlinesDepend(s.(tasks := s2.tasks), s2);
    assert p !in s.ready;
    assert s2.ready[|s.ready|] == p;
  }

  lemma FewerExpired(tasks: map<nat, Tcb>, expired: set<nat>, p: nat, clock: nat)
    requires ExpiredOk(tasks, expired, clock)
    ensures ExpiredOk(tasks, expired - {p}, clock)
  {
  }

  /** The children of p, which are neither p nor INITPROC. */
  lemma ChildrenApart(tasks: map<nat, Tcb>, birth: map<nat, nat>, p: nat)
    requires Tree(tasks, birth) && p in tasks
    ensures INITPROC in tasks && p !in tasks[p].children
    ensures forall i :: 0 <= i < |tasks[p].children| ==> tasks[p].children[i] in tasks && tasks[p].children[i] != INITPROC
  {
    assert ChildrenOk(tasks, p);
    assert p != INITPROC ==> HasParent(tasks, birth, p);
    assert forall i :: 0 <= i < |tasks[p].children| ==> tasks[p].children[i] in tasks[p].children;
  }

  /** One more child handed over. */
  lemma ReparentOne(tasks: map<nat, Tcb>, kids: seq<nat>, c: nat)
    requires INITPROC in tasks && c in tasks && c != INITPROC
    ensures var t1 := Reparented(tasks, kids);
            var t2 := t1[c := t1[c].(parent := Some(INITPROC))];
            Reparented(tasks, kids + [c]) == t2[INITPROC := t2[INITPROC].(children := t2[INITPROC].children + [c])]
  {
    var t1 := Reparented(tasks, kids);
    var t2 := t1[c := t1[c].(parent := Some(INITPROC))];
    var t3 := t2[INITPROC := t2[INITPROC].(children := t2[INITPROC].children + [c])];
    assert tasks[INITPROC].children + (kids + [c]) == tasks[INITPROC].children + kids + [c];
    forall q | q in tasks
      ensures Reparented(tasks, kids + [c])[q] == t3[q]
    {
      assert q in kids + [c] <==> q in kids || q == c;
    }
  }

  lemma ReparentNone(tasks: map<nat, Tcb>)
    requires INITPROC in tasks
    ensures Reparented(tasks, []) == tasks
  {
    assert tasks[INITPROC].children + [] == tasks[INITPROC].children;
  }

  lemma ExitKeeps(s: Sched, birth: map<nat, nat>, clock: nat, exitCode: int)
    requires Tree(s.tasks, birth) && DeadlinesListed(s) && WaitsOk(s.tasks, clock) && AllQuiet(s.tasks)
    requires Placed(s, []) && s.current.Some? && s.current.value in s.tasks && s.current.value != INITPROC
    requires INITPROC in s.tasks && s.tasks[s.current.value].wait.None?
    ensures var s2 := Sched(Exited(s.tasks, s.current.value, exitCode), None, s.ready, s.blocked);
            && Tree(s2.tasks, birth) && DeadlinesListed(s2) && WaitsOk(s2.tasks, clock) && AllQuiet(s2.tasks)
            && Placed(s2, [])
  {
    hide Tree, DeadlinesListed, WaitsOk, AllQuiet, Placed;
    TreeExited(s.tasks, birth, s.current.value, exitCode);
    ExitPlaced(s, exitCode);
    ExitWaits(s, clock, exitCode);
  }

  lemma ExitPlaced(s: Sched, exitCode: int)
    requires Placed(s, []) && s.current.Some? && s.current.value in s.tasks && INITPROC in s.tasks
    ensures Placed(Sched(Exited(s.tasks, s.current.value, exitCode), None, s.ready, s.blocked), [])
  {
    hide NoDup;
  }

  lemma ExitWaits(s: Sched, clock: nat, exitCode: int)
    requires DeadlinesListed(s) && WaitsOk(s.tasks, clock) && AllQuiet(s.tasks)
    requires s.current.Some? && s.current.value in s.tasks && INITPROC in s.tasks
    requires s.tasks[s.current.value].wait.None?
    ensures var s2 := Sched(Exited(s.tasks, s.current.value, exitCode), None, s.ready, s.blocked);
            DeadlinesListed(s2) && WaitsOk(s2.tasks, clock) && AllQuiet(s2.tasks)
  {
  }

  function ForkedSched(s: Sched, p: nat, child: nat): Sched
    requires p in s.tasks && child !in s.tasks
  {
    s.(tasks := Forked(s.tasks, p, child), ready := s.ready + [child])
  }

  lemma ForkKeeps(s: Sched, birth: map<nat, nat>, clock: nat, child: nat, b: nat)
    requires Tree(s.tasks, birth) && DeadlinesListed(s) && WaitsOk(s.tasks, clock) && AllQuiet(s.tasks)
    requires Placed(s, []) && s.current.Some? && s.current.value in s.tasks && child !in s.tasks
    requires forall q :: q in s.tasks && q in birth ==> birth[q] < b
    ensures var s2 := ForkedSched(s, s.current.value, child);
            && Tree(s2.tasks, birth[child := b]) && DeadlinesListed(s2) && WaitsOk(s2.tasks, clock) && AllQuiet(s2.tasks)
            && Placed(s2, [])
  {
    hide Tree, DeadlinesListed, WaitsOk, AllQuiet, Placed;
    InPlace(s);
    TreeForked(s.tasks, birth, s.current.value, child, b);
    ForkPlaced(s, child);
    ForkWaits(s, clock, child);
  }

  lemma ForkPlaced(s: Sched, child: nat)
    requires Placed(s, []) && s.current.Some? && s.current.value in s.tasks && child !in s.tasks
    ensures Placed(ForkedSched(s, s.current.value, child), [])
  {
    var s2 := ForkedSched(s, s.current.value, child);
    assert child !in s.ready;
    NoDupConcat(s.ready, [child]);
    hide NoDup;
    assert forall p :: p in s2.ready <==> p in s.ready || p == child;
  }

  lemma ForkWaits(s: Sched, clock: nat, child: nat)
    requires DeadlinesListed(s) && WaitsOk(s.tasks, clock) && AllQuiet(s.tasks)
    requires s.current.Some? && s.current.value in s.tasks && child !in s.tasks
    ensures var s2 := ForkedSched(s, s.current.value, child);
            DeadlinesListed(s2) && WaitsOk(s2.tasks, clock) && AllQuiet(s2.tasks)
  {
  }

  lemma ReapKeeps(s: Sched, birth: map<nat, nat>, clock: nat, p: nat, idx: nat)
    requires Tree(s.tasks, birth) && DeadlinesListed(s) && WaitsOk(s.tasks, clock) && AllQuiet(s.tasks)
    requires Placed(s, []) && p in s.tasks && idx < |s.tasks[p].children|
    requires s.tasks[p].children[idx] in s.tasks && s.tasks[s.tasks[p].children[idx]].status.Zombie?
    ensures var s2 := s.(tasks := Reaped(s.tasks, p, idx));
            && Tree(s2.tasks, birth) && DeadlinesListed(s2) && WaitsOk(s2.tasks, clock) && AllQuiet(s2.tasks)
            && Placed(s2, [])
    ensures Reaped(s.tasks, p, idx).Keys == s.tasks.Keys - {s.tasks[p].children[idx]}
  {
    hide Tree, DeadlinesListed, WaitsOk, AllQuiet, Placed, Reaped;
    TreeReaped(s.tasks, birth, p, idx);
    NotOwnChild(s.tasks, birth, p, idx);
    ReapedTasks(s.tasks, p, idx);
    ReapPlaced(s, p, idx);
    InPlace(s);
    ReapWaits(s, clock, p, idx);
  }

  lemma NotOwnChild(tasks: map<nat, Tcb>, birth: map<nat, nat>, p: nat, idx: nat)
    requires Tree(tasks, birth) && p in tasks && idx < |tasks[p].children|
    ensures p != tasks[p].children[idx] && tasks[p].children[idx] in tasks
  {
    ChildrenApart(tasks, birth, p);
    assert tasks[p].children[idx] in tasks[p].children;
  }

  lemma ReapPlaced(s: Sched, p: nat, idx: nat)
    requires Placed(s, []) && p in s.tasks && idx < |s.tasks[p].children| && p != s.tasks[p].children[idx]
    requires s.tasks[p].children[idx] in s.tasks && s.tasks[s.tasks[p].children[idx]].status.Zombie?
    ensures Placed(s.(tasks := Reaped(s.tasks, p, idx)), [])
  {
    hide Reaped, NoDup;
    ReapedTasks(s.tasks, p, idx);
  }

  lemma ReapWaits(s: Sched, clock: nat, p: nat, idx: nat)
    requires DeadlinesListed(s) && WaitsOk(s.tasks, clock) && AllQuiet(s.tasks)
    requires forall e :: e in s.blocked ==> e.pid in s.tasks && s.tasks[e.pid].status.Blocked?
    requires p in s.tasks && idx < |s.tasks[p].children| && p != s.tasks[p].children[idx]
    requires s.tasks[p].children[idx] in s.tasks && s.tasks[s.tasks[p].children[idx]].status.Zombie?
    ensures var s2 := s.(tasks := Reaped(s.tasks, p, idx));
            DeadlinesListed(s2) && WaitsOk(s2.tasks, clock) && AllQuiet(s2.tasks)
  {
    hide Reaped;
    ReapedTasks(s.tasks, p, idx);
  }

  lemma ReapExpired(tasks: map<nat, Tcb>, expired: set<nat>, clock: nat, p: nat, idx: nat)
    requires ExpiredOk(tasks, expired, clock) && WaitsOk(tasks, clock)
    requires p in tasks && idx < |tasks[p].children| && p != tasks[p].children[idx]
    requires tasks[p].children[idx] in tasks && tasks[tasks[p].children[idx]].status.Zombie?
    ensures ExpiredOk(Reaped(tasks, p, idx), expired, clock)
  {
    hide Reaped;
    ReapedTasks(tasks, p, idx);
    assert WaitOk(tasks[tasks[p].children[idx]], clock);
  }

  /** waitpid's argument names child c. */
  predicate Matches(pid: int, c: nat) {
    pid == -1 || pid == c
  }

  /** The child at idx is the first zombie that waitpid's argument names. */
  ghost predicate FirstZombie(tasks: map<nat, Tcb>, kids: seq<nat>, pid: int, idx: nat) {
    && idx < |kids| && kids[idx] in tasks && tasks[kids[idx]].status.Zombie? && Matches(pid, kids[idx])
    && forall j :: 0 <= j < idx ==> !(kids[j] in tasks && tasks[kids[j]].status.Zombie? && Matches(pid, kids[j]))
  }

  lemma ForkExpired(tasks: map<nat, Tcb>, expired: set<nat>, clock: nat, p: nat, child: nat)
    requires ExpiredOk(tasks, expired, clock) && p in tasks && child !in tasks
    ensures ExpiredOk(Forked(tasks, p, child), expired, clock)
  {
  }

  lemma WalkStart(tasks: map<nat, Tcb>, birth: map<nat, nat>)
    requires Tree(tasks, birth)
    ensures Walking(tasks, [], [INITPROC])
  {
  }

  /** The next task in the queue is new, so the walk gets closer to its end. */
  lemma WalkNext(tasks: map<nat, Tcb>, birth: map<nat, nat>, out: seq<nat>, queue: seq<nat>)
    requires Tree(tasks, birth) && Walking(tasks, out, out + queue) && queue != []
    ensures queue[0] in tasks && |out| < |tasks|
    ensures Walking(tasks, out + [queue[0]], out + [queue[0]] + (queue[1..] + tasks[queue[0]].children))
  {
    hide Tree, Walking, NoDup;
    assert NoDup(out + queue) && forall x :: x in out + queue ==> x in tasks by {
      WalkFound(tasks, out, out + queue);
    }
    HeadIsNew(out, queue, tasks.Keys);
    WalkStep(tasks, birth, out, out + queue, queue[0]);
    Requeued(out, queue, tasks[queue[0]].children);
  }

  lemma WalkFound(tasks: map<nat, Tcb>, out: seq<nat>, found: seq<nat>)
    requires Walking(tasks, out, found)
    ensures NoDup(found) && forall x :: x in found ==> x in tasks
  {
  }

  lemma Requeued(out: seq<nat>, queue: seq<nat>, kids: seq<nat>)
    requires queue != []
    ensures out + queue + kids == out + [queue[0]] + (queue[1..] + kids)
  {
  }

  lemma HeadIsNew(out: seq<nat>, queue: seq<nat>, all: set<nat>)
    requires NoDup(out + queue) && queue != [] && forall x :: x in out + queue ==> x in all
    ensures queue[0] in out + queue && queue[0] !in out && |out| < |all|
  {
    var found, upto := out + queue, out + [queue[0]];
    assert found[|out|] == queue[0];
    assert forall i :: 0 <= i < |upto| ==> upto[i] == found[i];
    assert forall x :: x in upto ==> x in found;
    assert NoDup(upto) && upto[|out|] == queue[0];
    assert forall i :: 0 <= i < |out| ==> out[i] == upto[i];
    NoDupSize(upto, all);
  }

  /** What waitpid returns and does for task p. */
  ghost predicate WaitedPid(s: Sched, s2: Sched, p: nat, pid: int, result: int, exitCode: int)
    requires p in s.tasks
  {
    var kids := s.tasks[p].children;
    && (result == -1 <==> forall c :: c in kids ==> !Matches(pid, c))
    && (result < 0 ==> (result == -1 || result == -2) && s2 == s && forall i: nat :: !FirstZombie(s.tasks, kids, pid, i))
    && (result >= 0 ==> exists idx: nat :: FirstZombie(s.tasks, kids, pid, idx) && ReapedAt(s, s2, p, idx, result, exitCode))
  }

  ghost predicate ReapedAt(s: Sched, s2: Sched, p: nat, idx: nat, result: int, exitCode: int)
    requires p in s.tasks && idx < |s.tasks[p].children| && s.tasks[p].children[idx] in s.tasks
  {
    var c := s.tasks[p].children[idx];
    && result == c && exitCode == s.tasks[c].exitCode
    && Holders(s, c) == {ChildOf(p, idx)}
    && s2 == s.(tasks := Reaped(s.tasks, p, idx))
  }

  // ---------- waking

  lemma NotOnList(s: Sched, pid: nat)
    requires Placed(s, []) && forall j :: 0 <= j < |s.blocked| ==> s.blocked[j].pid != pid
    ensures Woken(s, s, {pid})
    ensures pid in s.tasks ==> !s.tasks[pid].status.Blocked?
  {
    assert pid !in Pids(s.blocked);
  }

  /** Taking entry idx off the blocked list and making its task ready wakes that task. */
  lemma WakeFromList(s: Sched, idx: nat)
    requires Placed(s, []) && idx < |s.blocked|
    ensures var pid := s.blocked[idx].pid;
            && pid in s.tasks && s.tasks[pid].status.Blocked?
            && var s2 := Sched(s.tasks[pid := s.tasks[pid].(status := Ready)], s.current, s.ready + [pid],
                               SwapRemoved(s.blocked, idx));
            && Placed(s2, []) && Woken(s, s2, {pid})
  {
    var pid := s.blocked[idx].pid;
    assert pid in s.tasks && s.tasks[pid].status.Blocked? && NoDup(Pids(s.blocked)) by {
      assert Pids(s.blocked)[idx] == pid;
    }
    TakeOffList(s, idx, []);
    assert [] + [pid] == [pid] + [];
    hide Placed;
    var s1 := s.(blocked := SwapRemoved(s.blocked, idx));
    WakeFromLimbo(s1, pid, []);
    SwapRemovedElements(s.blocked, idx);
  }

  /** The blocked list `all` sorted into those left and, by pid, those to wake, whose deadline has come. */
  ghost predicate Sorted(all: seq<BlockedEntry>, left: seq<BlockedEntry>, toWake: seq<nat>, now: u64) {
    && (forall e :: e in left ==> e in all)
    && (forall e :: e in all ==> e in left || e.pid in toWake)
    && (forall p :: p in toWake ==> p in ExpiredPids(all, now))
  }

  lemma SortStart(all: seq<BlockedEntry>, now: u64)
    ensures Sorted(all, all, [], now)
  {
  }

  lemma SortOut(s: Sched, all: seq<BlockedEntry>, i: nat, toWake: seq<nat>, now: u64)
    requires Placed(s, toWake) && Sorted(all, s.blocked, toWake, now) && i < |s.blocked| && Expired(s.blocked[i], now)
    ensures Sorted(all, SwapRemoved(s.blocked, i), toWake + [s.blocked[i].pid], now)
  {
    assert NoDup(Pids(s.blocked));
    hide Placed;
    SwapRemovedElements(s.blocked, i);
    assert s.blocked[i] in s.blocked;
  }

  /** The tasks in `done`, which were in limbo in s1, have been made ready since. */
  ghost predicate Waking(s1: Sched, s2: Sched, done: seq<nat>) {
    && s2.current == s1.current && s2.blocked == s1.blocked && s2.ready == s1.ready + done
    && s2.tasks.Keys == s1.tasks.Keys
    && forall p :: p in s1.tasks ==> s2.tasks[p] == if p in done then s1.tasks[p].(status := Ready) else s1.tasks[p]
  }

  lemma WakingStart(s1: Sched)
    ensures Waking(s1, s1, [])
  {
  }

  lemma WakingNext(s1: Sched, s2: Sched, done: seq<nat>, p: nat)
    requires Waking(s1, s2, done) && p in s2.tasks
    ensures Waking(s1, s2.(tasks := s2.tasks[p := s2.tasks[p].(status := Ready)], ready := s2.ready + [p]), done + [p])
  {
    assert s1.ready + (done + [p]) == s1.ready + done + [p];
  }

  lemma TimeoutsWoken(s: Sched, s1: Sched, s2: Sched, toWake: seq<nat>, now: u64)
    requires Placed(s, []) && Placed(s1, toWake) && s1 == s.(blocked := s1.blocked) && Waking(s1, s2, toWake)
    requires Sorted(s.blocked, s1.blocked, toWake, now) && forall e :: e in s1.blocked ==> !Expired(e, now)
    ensures Woken(s, s2, ExpiredPids(s.blocked, now)) && s2.blocked == s1.blocked
  {
    var who := ExpiredPids(s.blocked, now);
    forall p | p in toWake
      ensures p in s.tasks && s.tasks[p].status.Blocked?
    {
    }
    forall e | e in s.blocked
      ensures e.pid in who <==> e.pid in toWake
      ensures e in s1.blocked <==> e.pid !in toWake
    {
      ListedOnce(s, e);
      PidsMembers(s1.blocked);
    }
    forall p | p in who
      ensures p in toWake
    {
      var e :| e in s.blocked && Expired(e, now) && e.pid == p;
    }
    assert s2.ready[|s.ready|..] == toWake;
  }

  /** The scan has come to its end, and the tasks it took off have been made ready. */
  lemma ScannedWake(s: Sched, s1: Sched, s2: Sched, toWake: seq<nat>, now: u64)
    requires s1 == s.(blocked := s1.blocked) && Waking(s1, s2, toWake) && Scan(s.blocked, 0, now) == (s1.blocked, toWake)
    ensures s2 == WakeTimeouts(s, now)
  {
    assert s2.tasks == WakeTimeouts(s, now).tasks;
  }

  /** One entry per task. */
  lemma ListedOnce(s: Sched, e: BlockedEntry)
    requires Placed(s, []) && e in s.blocked
    ensures forall e2 :: e2 in s.blocked && e2.pid == e.pid ==> e2 == e
  {
    forall e2 | e2 in s.blocked && e2.pid == e.pid
      ensures e2 == e
    {
      var i :| 0 <= i < |s.blocked| && s.blocked[i] == e;
      var j :| 0 <= j < |s.blocked| && s.blocked[j] == e2;
      assert Pids(s.blocked)[i] == Pids(s.blocked)[j];
    }
  }

  lemma WokenExpired(s: Sched, s2: Sched, who: set<nat>, expired: set<nat>, clock: nat)
    requires Woken(s, s2, who) && ExpiredOk(s.tasks, expired, clock)
    ensures ExpiredOk(s2.tasks, expired, clock)
  {
  }

  // ---------- heartbeats

  /** The tasks in `done` have been ticked. */
  ghost function TickedSome(tasks: map<nat, Tcb>, done: seq<nat>, now: u64): map<nat, Tcb> {
    map p | p in tasks :: if p in done then TickTcb(tasks[p], now) else tasks[p]
  }

  lemma TickNext(tasks: map<nat, Tcb>, all: seq<nat>, i: nat, now: u64)
    requires NoDup(all) && i < |all| && forall p :: p in all ==> p in tasks
    ensures all[i] in tasks && TickedSome(tasks, all[..i], now)[all[i]] == tasks[all[i]]
    ensures all[..i + 1] == all[..i] + [all[i]]
    ensures TickedSome(tasks, all[..i + 1], now) == TickedSome(tasks, all[..i], now)[all[i] := TickTcb(tasks[all[i]], now)]
  {
    assert all[i] in all;
    assert all[i] !in all[..i];
    assert all[..i + 1] == all[..i] + [all[i]];
  }

  lemma DueIsAgent(t: Tcb, now: u64)
    requires Due(t, now)
    ensures t.ext.Some? && TickTcb(t, now) == t.(ext := Some(t.ext.value.(heartbeatPending := true, lastBeat := now)))
  {
  }

  lemma NotDue(t: Tcb, now: u64)
    requires !Due(t, now)
    ensures TickTcb(t, now) == t
  {
  }

  lemma TickedEveryone(tasks: map<nat, Tcb>, all: seq<nat>, now: u64)
    requires forall p :: p in all <==> p in tasks
    ensures TickedSome(tasks, all, now) == Ticked(tasks, now)
  {
  }

  lemma TickKeeps(s: Sched, birth: map<nat, nat>, clock: nat, now: u64, expired: set<nat>)
    requires Tree(s.tasks, birth) && Placed(s, []) && DeadlinesListed(s) && WaitsOk(s.tasks, clock) && AllQuiet(s.tasks)
    requires ExpiredOk(s.tasks, expired, clock) && clock <= now
    ensures var s1 := s.(tasks := Ticked(s.tasks, now));
            && Tree(s1.tasks, birth) && Placed(s1, []) && DeadlinesListed(s1) && WaitsOk(s1.tasks, now)
            && ExpiredOk(s1.tasks, expired, now)
            && forall p :: p in s1.tasks && p !in DuePids(s.tasks, now) ==> Quiet(s1.tasks[p])
  {
    hide Tree, Placed, DeadlinesListed, Due;
    ExtsChangedKeeps(s, Ticked(s.tasks, now), birth, clock);
  }

  // ---------- messages and file events

  lemma MailKeeps(s: Sched, birth: map<nat, nat>, clock: nat, target: nat, payload: seq<byte>, expired: set<nat>)
    requires Tree(s.tasks, birth) && Placed(s, []) && DeadlinesListed(s) && WaitsOk(s.tasks, clock) && AllQuiet(s.tasks)
    requires ExpiredOk(s.tasks, expired, clock) && target in s.tasks && s.tasks[target].ext.Some?
    ensures var s1 := s.(tasks := Mailed(s.tasks, target, payload));
            && Tree(s1.tasks, birth) && Placed(s1, []) && DeadlinesListed(s1) && WaitsOk(s1.tasks, clock)
            && ExpiredOk(s1.tasks, expired, clock)
            && forall p :: p in s1.tasks && p != target ==> Quiet(s1.tasks[p])
  {
    hide Tree, Placed, DeadlinesListed;
    ExtsChangedKeeps(s, Mailed(s.tasks, target, payload), birth, clock);
  }

  ghost function NotifiedSome(tasks: map<nat, Tcb>, done: seq<nat>): map<nat, Tcb> {
    map p | p in tasks :: if p in done then NotifyTcb(tasks[p]) else tasks[p]
  }

  lemma NotifyNext(tasks: map<nat, Tcb>, all: seq<nat>, i: nat)
    requires NoDup(all) && i < |all| && forall p :: p in all ==> p in tasks
    ensures all[i] in tasks && NotifiedSome(tasks, all[..i])[all[i]] == tasks[all[i]]
    ensures all[..i + 1] == all[..i] + [all[i]]
    ensures NotifiedSome(tasks, all[..i + 1]) == NotifiedSome(tasks, all[..i])[all[i] := NotifyTcb(tasks[all[i]])]
  {
    assert all[i] in all;
    assert all[i] !in all[..i];
    assert all[..i + 1] == all[..i] + [all[i]];
  }

  lemma NotifiedEveryone(tasks: map<nat, Tcb>, all: seq<nat>)
    requires forall p :: p in all <==> p in tasks
    ensures NotifiedSome(tasks, all) == Notified(tasks)
  {
  }

  lemma NotifyKeeps(s: Sched, birth: map<nat, nat>, clock: nat, expired: set<nat>)
    requires Tree(s.tasks, birth) && Placed(s, []) && DeadlinesListed(s) && WaitsOk(s.tasks, clock) && AllQuiet(s.tasks)
    requires ExpiredOk(s.tasks, expired, clock)
    ensures var s1 := s.(tasks := Notified(s.tasks));
            && Tree(s1.tasks, birth) && Placed(s1, []) && DeadlinesListed(s1) && WaitsOk(s1.tasks, clock)
            && ExpiredOk(s1.tasks, expired, clock)
            && forall p :: p in s1.tasks && p !in WatcherPids(s.tasks) ==> Quiet(s1.tasks[p])
  {
    hide Tree, Placed, DeadlinesListed, WatchesFiles;
    ExtsChangedKeeps(s, Notified(s.tasks), birth, clock);
  }

  // ---------- the timer interrupt

  /** All tasks after a timer interrupt. */
  ghost function TimerTasks(s: Sched, now1: u64, now2: u64): map<nat, Tcb> {
    map p | p in s.tasks ::
      var t := TickTcb(s.tasks[p], now1);
      if s.current == Some(p) then t.(status := Ready)
      else if t.status.Blocked? && (Due(s.tasks[p], now1) || p in ExpiredPids(s.blocked, now2)) then t.(status := Ready)
      else t
  }

  /** What a timer interrupt does: heartbeats at now1, timeouts at now2, and the running task yields. */
  ghost predicate TimerDone(s: Sched, s3: Sched, now1: u64, now2: u64) {
    exists s1, s2 ::
      && Beaten(s, s1, now1) && WokenOnce(s1, s2, ExpiredPids(s1.blocked, now2)) && s2 == WakeTimeouts(s1, now2)
      && s3 == Suspended(s2)
  }

  /** What a round of heartbeats does: the agents that are due are woken in the order of the snapshot. */
  ghost predicate Beaten(s: Sched, s1: Sched, now: u64) {
    && s1 == WakePids(s.(tasks := Ticked(s.tasks, now)), Picked(Snapshot(s.tasks), DuePids(s.tasks, now)))
    && WokenOnce(s.(tasks := Ticked(s.tasks, now)), s1, DuePids(s.tasks, now))
  }

  /** Its two rounds of waking. */
  lemma TimerRounds(s: Sched, s3: Sched, now1: u64, now2: u64) returns (s1: Sched, s2: Sched)
    requires TimerDone(s, s3, now1, now2)
    ensures WokenOnce(s.(tasks := Ticked(s.tasks, now1)), s1, DuePids(s.tasks, now1))
    ensures WokenOnce(s1, s2, ExpiredPids(s1.blocked, now2)) && s3 == Suspended(s2)
  {
    hide WokenOnce, WakePids, WakeTimeouts, Picked, Snapshot;
    s1, s2 :|
      && Beaten(s, s1, now1) && WokenOnce(s1, s2, ExpiredPids(s1.blocked, now2)) && s2 == WakeTimeouts(s1, now2)
      && s3 == Suspended(s2);
  }

  lemma AllBeaten(s: Sched, s1: Sched, toWake: seq<nat>, now: u64)
    requires toWake == Picked(Snapshot(s.tasks), DuePids(s.tasks, now)) && AsSet(toWake) == DuePids(s.tasks, now)
    requires s1 == WakePids(s.(tasks := Ticked(s.tasks, now)), toWake) && Placed(s1, [])
    requires Woken(s.(tasks := Ticked(s.tasks, now)), s1, AsSet(toWake))
    ensures Beaten(s, s1, now)
  {
    NobodyTwice(s1);
  }

  /** Time passes. */
  lemma LaterWaits(tasks: map<nat, Tcb>, clock: nat, now: nat, expired: set<nat>)
    requires clock <= now && WaitsOk(tasks, clock) && ExpiredOk(tasks, expired, clock)
    ensures WaitsOk(tasks, now) && ExpiredOk(tasks, expired, now)
  {
  }

  lemma TimeoutKeeps(s: Sched, s2: Sched, now1: u64, now: u64, birth: map<nat, nat>, expired: set<nat>)
    requires Tree(s.tasks, birth) && Placed(s, []) && DeadlinesListed(s) && WaitsOk(s.tasks, now1) && AllQuiet(s.tasks)
    requires now1 <= now && ExpiredOk(s.tasks, expired, now1) && Woken(s, s2, ExpiredPids(s.blocked, now))
    ensures Tree(s2.tasks, birth) && DeadlinesListed(s2) && WaitsOk(s2.tasks, now) && AllQuiet(s2.tasks)
    ensures ExpiredOk(s2.tasks, expired + ExpiredPids(s.blocked, now), now)
    ensures s2.tasks.Keys == s.tasks.Keys && s2.current == s.current
  {
    hide Tree, WaitsOk, AllQuiet;
    var who := ExpiredPids(s.blocked, now);
    LaterWaits(s.tasks, now1, now, expired);
    assert forall p :: p in s.tasks && p !in who ==> Quiet(s.tasks[p]) by {
      QuietAt(s.tasks);
    }
    InPlace(s);
    hide Placed;
    WokenKeeps(s, s2, who, birth, now);
    WokenExpired(s, s2, who, expired, now);
    forall p | p in who
      ensures p in s2.tasks && s2.tasks[p].wait.Some? && !s2.tasks[p].status.Blocked?
              && s2.tasks[p].wait.value.deadline.Some? && s2.tasks[p].wait.value.deadline.value <= now
    {
      var e :| e in s.blocked && Expired(e, now) && e.pid == p;
    }
  }

  lemma QuietAt(tasks: map<nat, Tcb>)
    requires AllQuiet(tasks)
    ensures forall p :: p in tasks ==> Quiet(tasks[p])
  {
  }

  lemma CurrentStays(s: Sched, s1: Sched, s2: Sched, now1: u64, now2: u64)
    requires Placed(s, []) && s.current.Some?
    requires Woken(s.(tasks := Ticked(s.tasks, now1)), s1, DuePids(s.tasks, now1))
    requires Woken(s1, s2, ExpiredPids(s1.blocked, now2))
    ensures s2.current == s.current && s.ready <= s2.ready
  {
  }

  lemma TimerEffect(s: Sched, s1: Sched, s2: Sched, now1: u64, now2: u64)
    requires Placed(s, []) && s.current.Some? && s2.current == s.current
    requires Woken(s.(tasks := Ticked(s.tasks, now1)), s1, DuePids(s.tasks, now1))
    requires Woken(s1, s2, ExpiredPids(s1.blocked, now2))
    ensures Suspended(s2).tasks == TimerTasks(s, now1, now2)
    ensures ExpiredPids(s1.blocked, now2) == ExpiredPids(s.blocked, now2) - DuePids(s.tasks, now1)
    ensures forall e :: e in s2.blocked <==> e in s.blocked && !Expired(e, now2) && e.pid !in DuePids(s.tasks, now1)
  {
    hide Due, TickTcb, Placed, Expired;
    InPlace(s);
    assert ExpiredPids(s1.blocked, now2) == ExpiredPids(s.blocked, now2) - DuePids(s.tasks, now1);
    assert Suspended(s2).tasks == TimerTasks(s, now1, now2);
    forall e | e in s1.blocked
      ensures e.pid in ExpiredPids(s1.blocked, now2) <==> Expired(e, now2)
    {
      ListedOnce(s, e);
    }
  }

  // ---------- the running agent

  function OwnExt(s: Sched): Option<AgentExt> {
    if s.current.Some? && s.current.value in s.tasks then s.tasks[s.current.value].ext else None
  }

  function WithOwnExt(s: Sched, e: AgentExt): Sched {
    if s.current.Some? && s.current.value in s.tasks
    then s.(tasks := s.tasks[s.current.value := s.tasks[s.current.value].(ext := Some(e))])
    else s
  }

  function WithOwnWait(s: Sched, w: Option<Wait>): Sched {
    if s.current.Some? && s.current.value in s.tasks
    then s.(tasks := s.tasks[s.current.value := s.tasks[s.current.value].(wait := w)])
    else s
  }

  function OwnWait(s: Sched): Option<Wait> {
    if s.current.Some? && s.current.value in s.tasks then s.tasks[s.current.value].wait else None
  }

  /** Whether the running task's address space has something mapped where the context area goes. */
  predicate OwnArea(s: Sched) {
    s.current.Some? && s.current.value in s.tasks && s.tasks[s.current.value].area
  }

  function WithOwnArea(s: Sched, area: bool): Sched {
    if s.current.Some? && s.current.value in s.tasks
    then s.(tasks := s.tasks[s.current.value := s.tasks[s.current.value].(area := area)])
    else s
  }

  /** The running task has become an agent. */
  function AgentMade(s: Sched): Sched {
    WithOwnArea(WithOwnExt(s, NEW_AGENT), true)
  }

  function WithOwnPriority(s: Sched, priority: nat): Sched {
    if s.current.Some? && s.current.value in s.tasks
    then s.(tasks := s.tasks[s.current.value := s.tasks[s.current.value].(priority := priority)])
    else s
  }

  /** What receiving a message into the buffer at address buf does and returns. */
  ghost predicate Received(s: Sched, s2: Sched, buf: nat, bufLen: nat, r: int, bytes: seq<byte>) {
    if buf == 0 then r == -1 && bytes == [] && s2 == s
    else match OwnExt(s)
    case None => r == -4 && bytes == [] && s2 == s
    case Some(e) =>
      if e.mailbox == [] then r == -6 && bytes == [] && s2 == s
      else
        && r == |bytes| <= |e.mailbox[0]| && bytes == e.mailbox[0][..r]
        && r <= bufLen && (r == bufLen || r == |e.mailbox[0]|)
        && s2 == WithOwnExt(s, e.(mailbox := e.mailbox[1..]))
  }

  /** The heartbeat and file events that end a wait are used up; messages stay in the mailbox. */
  function Consumed(e: AgentExt): AgentExt {
    e.(heartbeatPending := e.heartbeatPending && Triggered(e) & EVENT_HEARTBEAT == 0,
       filePending := e.filePending && Triggered(e) & EVENT_FILE_MODIFIED == 0)
  }

  /** How a round of a wait ends: not an agent, with its cause (0 for a timeout), or asleep. */
  datatype WaitResult = NotAgent | Caused(events: bv32) | Asleep

  /** The result of a round of a wait. */
  function RoundResult(s: Sched, now: u63): WaitResult {
    match (OwnExt(s), OwnWait(s))
    case (Some(e), Some(w)) => if Triggered(e) != 0 || TimedOut(w, now) then Caused(Triggered(e)) else Asleep
    case _ => NotAgent
  }

  /** The state after it: the wait is over, or the agent is on the blocked list. */
  function AfterRound(s: Sched, now: u63): Sched {
    match (OwnExt(s), OwnWait(s))
    case (Some(e), Some(w)) =>
      if Triggered(e) != 0 || TimedOut(w, now) then WithOwnWait(WithOwnExt(s, Consumed(e)), None)
      else Sched(SetStatus(s.tasks, s.current.value, Blocked), None, s.ready, s.blocked + [BlockedEntry(s.current.value, w.deadline)])
    case _ => s
  }

  /** The deadline of a wait overflows 64 bits. */
  predicate Overflows(w: Wait) {
    w.timeout >= 0 && w.at + w.timeout >= 0x8000_0000_0000_0000
  }

  lemma WaitOkAt(tasks: map<nat, Tcb>, p: nat, clock: nat)
    requires WaitsOk(tasks, clock) && p in tasks
    ensures WaitOk(tasks[p], clock)
  {
  }

  lemma NotWaitingNotExpired(tasks: map<nat, Tcb>, p: nat, expired: set<nat>, clock: nat)
    requires ExpiredOk(tasks, expired, clock) && p in tasks && tasks[p].wait.None?
    ensures p !in expired
  {
  }

  /** Where no event triggers, none is used up. */
  lemma NothingConsumed(e: AgentExt)
    requires Triggered(e) == 0
    ensures Consumed(e) == e
  {
    assert 0 & EVENT_HEARTBEAT == 0 && 0 & EVENT_FILE_MODIFIED == 0;
  }

  lemma BlockKeeps(s: Sched, birth: map<nat, nat>, clock: nat)
    requires Tree(s.tasks, birth) && Placed(s, []) && DeadlinesListed(s) && WaitsOk(s.tasks, clock) && AllQuiet(s.tasks)
    requires OwnExt(s).Some? && OwnWait(s).Some? && Triggered(OwnExt(s).value) == 0
    ensures var p := s.current.value;
            var s2 := Sched(SetStatus(s.tasks, p, Blocked), None, s.ready, s.blocked + [BlockedEntry(p, OwnWait(s).value.deadline)]);
            && Tree(s2.tasks, birth) && Placed(s2, []) && DeadlinesListed(s2) && WaitsOk(s2.tasks, clock) && AllQuiet(s2.tasks)
  {
    hide Tree, Placed, DeadlinesListed, WaitsOk, AllQuiet, Triggered;
    InPlace(s);
    var p := s.current.value;
    TreeKept(s.tasks, SetStatus(s.tasks, p, Blocked), birth);
    BlockPlaced(s, OwnWait(s).value.deadline);
    BlockWaits(s, clock);
  }

  lemma BlockPlaced(s: Sched, deadline: Option<u64>)
    requires Placed(s, []) && s.current.Some? && s.current.value in s.tasks
    ensures Placed(Sched(SetStatus(s.tasks, s.current.value, Blocked), None, s.ready,
                         s.blocked + [BlockedEntry(s.current.value, deadline)]), [])
  {
    var p := s.current.value;
    assert p !in Pids(s.blocked);
    NoDupConcat(Pids(s.blocked), [p]);
    assert Pids(s.blocked + [BlockedEntry(p, deadline)]) == Pids(s.blocked) + [p];
    hide NoDup;
  }

  lemma BlockWaits(s: Sched, clock: nat)
    requires DeadlinesListed(s) && WaitsOk(s.tasks, clock) && AllQuiet(s.tasks)
    requires OwnExt(s).Some? && OwnWait(s).Some? && Triggered(OwnExt(s).value) == 0
    ensures var p := s.current.value;
            var s2 := Sched(SetStatus(s.tasks, p, Blocked), None, s.ready, s.blocked + [BlockedEntry(p, OwnWait(s).value.deadline)]);
            DeadlinesListed(s2) && WaitsOk(s2.tasks, clock) && AllQuiet(s2.tasks)
  {
    hide Triggered;
  }
}
