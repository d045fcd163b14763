/** Where tasks are, when a blocked agent is due, and what waking does. */
module Scheduling {
  import opened Bytes
  import opened Collections
  import opened Tasks

  // ---------- places

  function Pids(blocked: seq<BlockedEntry>): (pids: seq<nat>)
    ensures |pids| == |blocked|
    ensures forall i :: 0 <= i < |blocked| ==> pids[i] == blocked[i].pid
  {
    seq(|blocked|, i requires 0 <= i < |blocked| => blocked[i].pid)
  }

  /** The running task is the processor's. */
  ghost predicate CurrentOk(s: Sched) {
    && (s.current.Some? ==> s.current.value in s.tasks && s.tasks[s.current.value].status.Running?)
    && (forall p :: p in s.tasks && s.tasks[p].status.Running? ==> s.current == Some(p))
  }

  ghost predicate ReadyOk(s: Sched) {
    && NoDup(s.ready)
    && (forall p :: p in s.ready ==> p in s.tasks && s.tasks[p].status.Ready?)
    && (forall p :: p in s.tasks && s.tasks[p].status.Ready? ==> p in s.ready)
  }

  /** The blocked tasks are those on the blocked list, and those in limbo, just taken off it. */
  ghost predicate BlockedOk(s: Sched, limbo: seq<nat>) {
    && NoDup(Pids(s.blocked)) && NoDup(limbo)
    && (forall p :: p in limbo ==> p !in Pids(s.blocked))
    && (forall p :: p in Pids(s.blocked) || p in limbo ==> p in s.tasks && s.tasks[p].status.Blocked?)
    && (forall p :: p in s.tasks && s.tasks[p].status.Blocked? ==> p in Pids(s.blocked) || p in limbo)
  }

  /** Every live task is in exactly one place, the one its status names; zombies are in none. */
  ghost predicate Placed(s: Sched, limbo: seq<nat>) {
    CurrentOk(s) && ReadyOk(s) && BlockedOk(s, limbo)
  }

  /** A place from which a task is referred to, as a strong count counts them. */
  datatype Holder = Processor | ReadyAt(i: nat) | BlockedAt(i: nat) | ChildOf(q: nat, i: nat) | InitprocStatic

  ghost function PlacesOf(s: Sched, p: nat): set<Holder> {
    (if s.current == Some(p) then {Processor} else {})
    + (set i: nat | i < |s.ready| && s.ready[i] == p :: ReadyAt(i))
    + (set i: nat | i < |s.blocked| && s.blocked[i].pid == p :: BlockedAt(i))
  }

  ghost function Holders(s: Sched, p: nat): set<Holder> {
    PlacesOf(s, p)
    + (set q, i | q in s.tasks && 0 <= i < |s.tasks[q].children| && s.tasks[q].children[i] == p :: ChildOf(q, i))
    + (if p == INITPROC then {InitprocStatic} else {})
  }

  /** A live task is in one place, a zombie in none. */
  lemma OnePlace(s: Sched, p: nat)
    requires Placed(s, []) && p in s.tasks
    ensures if s.tasks[p].status.Zombie? then PlacesOf(s, p) == {} else exists h :: PlacesOf(s, p) == {h}
  {
    var waiting := Pids(s.blocked);
    assert forall i: nat :: i < |s.blocked| ==> waiting[i] in waiting && s.blocked[i].pid == waiting[i];
    match s.tasks[p].status
    case Zombie =>
      assert p !in s.ready && p !in waiting;
      assert PlacesOf(s, p) == {};
    case Running =>
      assert p !in s.ready && p !in waiting;
      assert PlacesOf(s, p) == {Processor};
    case Ready =>
      assert p in s.ready && p !in waiting;
      var i: nat :| i < |s.ready| && s.ready[i] == p;
      assert PlacesOf(s, p) == {ReadyAt(i)};
    case Blocked =>
      assert p in waiting && p !in s.ready;
      var i: nat :| i < |s.blocked| && waiting[i] == p;
      assert PlacesOf(s, p) == {BlockedAt(i)};
  }

  /** A zombie is held by its parent alone, so once it is taken off the parent's list nothing else refers to it. */
  lemma ZombieHeldOnce(s: Sched, birth: map<nat, nat>, p: nat, idx: nat)
    requires Tree(s.tasks, birth) && Placed(s, [])
    requires p in s.tasks && idx < |s.tasks[p].children| && s.tasks[p].children[idx] in s.tasks
    requires s.tasks[s.tasks[p].children[idx]].status.Zombie?
    ensures Holders(s, s.tasks[p].children[idx]) == {ChildOf(p, idx)}
  {
    var c := s.tasks[p].children[idx];
    OnePlace(s, c);
    forall q, i | q in s.tasks && 0 <= i < |s.tasks[q].children| && s.tasks[q].children[i] == c
      ensures q == p && i == idx
    {
      assert ChildrenOk(s.tasks, q) && ChildrenOk(s.tasks, p);
      assert s.tasks[q].children[i] in s.tasks[q].children && s.tasks[p].children[idx] in s.tasks[p].children;
    }
  }

  // ---------- events

  function Pending(e: AgentExt): bv32 {
    (if e.heartbeatPending then EVENT_HEARTBEAT else 0)
    | (if e.mailbox != [] then EVENT_MESSAGE else 0)
    | (if e.filePending then EVENT_FILE_MODIFIED else 0)
  }

  /** The events that end a wait; an agent that watches nothing waits for heartbeats and messages. */
  function Mask(e: AgentExt): bv32 {
    if e.watched == 0 then EVENT_HEARTBEAT | EVENT_MESSAGE else e.watched
  }

  function Triggered(e: AgentExt): bv32 {
    Pending(e) & Mask(e)
  }

  /** Nothing an agent waits for has happened while it is blocked. */
  ghost predicate Quiet(t: Tcb) {
    t.status.Blocked? ==> t.ext.Some? && t.wait.Some? && Triggered(t.ext.value) == 0
  }

  ghost predicate AllQuiet(tasks: map<nat, Tcb>) {
    forall p :: p in tasks ==> Quiet(tasks[p])
  }

  // ---------- deadlines

  function WrapI64(x: int): (r: i64)
    requires 0 <= x < 0x1_0000_0000_0000_0000
  {
    if x < 0x8000_0000_0000_0000 then x else x - 0x1_0000_0000_0000_0000
  }

  /** The deadline of a wait: `at + timeout` in 64-bit arithmetic, but not below zero; none when the timeout is negative. */
  function DeadlineOf(at: u63, timeout: i64): Option<u64> {
    if timeout < 0 then None
    else if WrapI64(at + timeout) < 0 then Some(0) else Some(WrapI64(at + timeout))
  }

  function TimedOut(w: Wait, now: u63): bool {
    w.timeout >= 0 && now - w.start >= w.timeout
  }

  ghost predicate WaitOk(t: Tcb, clock: nat) {
    t.wait.Some? ==>
      var w := t.wait.value;
      && t.ext.Some? && !t.status.Zombie?
      && w.start <= w.at <= clock && w.deadline == DeadlineOf(w.at, w.timeout)
  }

  ghost predicate WaitsOk(tasks: map<nat, Tcb>, clock: nat) {
    forall p :: p in tasks ==> WaitOk(tasks[p], clock)
  }

  /** The blocked list carries the deadlines of the waits. */
  ghost predicate DeadlinesListed(s: Sched) {
    forall e :: e in s.blocked ==> e.pid in s.tasks && s.tasks[e.pid].wait.Some? && s.tasks[e.pid].wait.value.deadline == e.deadline
  }

  predicate Expired(e: BlockedEntry, now: u64) {
    e.deadline.Some? && now >= e.deadline.value
  }

  /**
   * For an agent that blocked at time t0 because its timeout had not run out: every wake-up at or after its
   * deadline finds the timeout run out, so that the wait returns, exactly when the deadline did not overflow.
   */
  lemma DeadlineMeansTimeout(w: Wait, t0: u63)
    requires w.timeout >= 0 && w.start <= w.at <= t0 && w.deadline == DeadlineOf(w.at, w.timeout)
    requires !TimedOut(w, t0)
    ensures (forall now: u63 :: t0 <= now && now >= w.deadline.value ==> TimedOut(w, now))
       <==> w.at + w.timeout < 0x8000_0000_0000_0000
  {
    if w.at + w.timeout >= 0x8000_0000_0000_0000 {
      assert w.deadline == Some(0);
      assert t0 >= w.deadline.value && !TimedOut(w, t0);
    }
  }

  // ---------- waking

  /** Vec::swap_remove: the last element takes the place of the one removed. */
  function SwapRemoved<T>(s: seq<T>, i: nat): (r: seq<T>)
    requires i < |s|
    ensures |r| == |s| - 1
    ensures forall k :: 0 <= k < |r| ==> r[k] == if k == i then s[|s| - 1] else s[k]
  {
    if i == |s| - 1 then s[..i] else s[..|s| - 1][i := s[|s| - 1]]
  }

  lemma SwapRemovedElements(blocked: seq<BlockedEntry>, i: nat)
    requires i < |blocked| && NoDup(Pids(blocked))
    ensures var rest := SwapRemoved(blocked, i);
            && NoDup(Pids(rest))
            && (forall e :: e in rest <==> e in blocked && e.pid != blocked[i].pid)
            && (forall p :: p in Pids(rest) <==> p in Pids(blocked) && p != blocked[i].pid)
  {
    var rest, n := SwapRemoved(blocked, i), |blocked| - 1;
    var pids := Pids(blocked);
    assert forall k :: 0 <= k < |rest| ==> Pids(rest)[k] == pids[if k == i then n else k];
    forall e | e in blocked && e.pid != blocked[i].pid
      ensures e in rest
    {
      var k :| 0 <= k < |blocked| && blocked[k] == e;
      assert rest[if k == n then i else k] == e;
    }
    forall e | e in rest
      ensures e in blocked && e.pid != blocked[i].pid
    {
      var k :| 0 <= k < |rest| && rest[k] == e;
      assert pids[if k == i then n else k] != pids[i];
    }
    PidsMembers(blocked);
    PidsMembers(rest);
  }

  lemma PidsMembers(blocked: seq<BlockedEntry>)
    ensures forall p :: p in Pids(blocked) <==> exists e :: e in blocked && e.pid == p
  {
    forall p | p in Pids(blocked)
      ensures exists e :: e in blocked && e.pid == p
    {
      var k :| 0 <= k < |blocked| && Pids(blocked)[k] == p;
      assert blocked[k] in blocked;
    }
    forall e | e in blocked
      ensures e.pid in Pids(blocked)
    {
      var k :| 0 <= k < |blocked| && blocked[k] == e;
      assert Pids(blocked)[k] == e.pid;
    }
  }

  /** Between s and s2 exactly the blocked tasks in `who` were made ready, behind those ready before. */
  ghost predicate Woken(s: Sched, s2: Sched, who: set<nat>) {
    && s2.current == s.current && s2.tasks.Keys == s.tasks.Keys
    && (forall p :: p in s.tasks ==>
          s2.tasks[p] == if p in who && s.tasks[p].status.Blocked? then s.tasks[p].(status := Ready) else s.tasks[p])
    && (forall e :: e in s2.blocked <==> e in s.blocked && e.pid !in who)
    && s.ready <= s2.ready
    && (forall p :: p in s2.ready[|s.ready|..] <==> p in who && p in s.tasks && s.tasks[p].status.Blocked?)
  }

  /** As Woken, and nobody is queued or listed twice afterwards. */
  ghost predicate WokenOnce(s: Sched, s2: Sched, who: set<nat>) {
    Woken(s, s2, who) && NoDup(s2.ready) && NoDup(Pids(s2.blocked))
  }

  // ---------- the order of waking

  /** Position of the first entry of a task, or the number of entries. */
  function EntryOf(blocked: seq<BlockedEntry>, pid: nat): (i: nat)
    ensures i <= |blocked| && (i < |blocked| ==> blocked[i].pid == pid)
    ensures forall j :: 0 <= j < i ==> blocked[j].pid != pid
  {
    if blocked == [] || blocked[0].pid == pid then 0 else 1 + EntryOf(blocked[1..], pid)
  }

  /** A task that is on the blocked list is taken off it and put at the end of the ready queue. */
  function WakePid(s: Sched, pid: nat): Sched {
    var i := EntryOf(s.blocked, pid);
    if i == |s.blocked| || pid !in s.tasks then s
    else Sched(s.tasks[pid := s.tasks[pid].(status := Ready)], s.current, s.ready + [pid], SwapRemoved(s.blocked, i))
  }

  /** Several tasks, one after the other. */
  function WakePids(s: Sched, pids: seq<nat>): Sched {
    if pids == [] then s else WakePid(WakePids(s, pids[..|pids| - 1]), pids[|pids| - 1])
  }

  lemma WakePidsSnoc(s: Sched, pids: seq<nat>, pid: nat)
    ensures WakePids(s, pids + [pid]) == WakePid(WakePids(s, pids), pid)
  {
    assert (pids + [pid])[..|pids|] == pids;
  }

  lemma EntryIs(blocked: seq<BlockedEntry>, pid: nat, i: nat)
    requires i <= |blocked| && (i < |blocked| ==> blocked[i].pid == pid) && forall j :: 0 <= j < i ==> blocked[j].pid != pid
    ensures EntryOf(blocked, pid) == i
  {
  }

  /** The scan of the blocked list from position i on: the entries left, and the tasks taken off, in this order. */
  function Scan(blocked: seq<BlockedEntry>, i: nat, now: u64): (seq<BlockedEntry>, seq<nat>)
    decreases |blocked| - i
  {
    if i >= |blocked| then (blocked, [])
    else if Expired(blocked[i], now) then
      var (left, taken) := Scan(SwapRemoved(blocked, i), i, now);
      (left, [blocked[i].pid] + taken)
    else Scan(blocked, i + 1, now)
  }

  /** The scan has come to position i of what is left of the list, and has taken off the tasks in `taken`. */
  ghost predicate Scanned(blocked0: seq<BlockedEntry>, blocked: seq<BlockedEntry>, i: nat, taken: seq<nat>, now: u64) {
    Scan(blocked0, 0, now) == (Scan(blocked, i, now).0, taken + Scan(blocked, i, now).1)
  }

  lemma ScanStart(blocked: seq<BlockedEntry>, now: u64)
    ensures Scanned(blocked, blocked, 0, [], now)
  {
    assert [] + Scan(blocked, 0, now).1 == Scan(blocked, 0, now).1;
  }

  lemma ScanStep(blocked0: seq<BlockedEntry>, blocked: seq<BlockedEntry>, i: nat, taken: seq<nat>, now: u64)
    requires Scanned(blocked0, blocked, i, taken, now) && i < |blocked|
    ensures if Expired(blocked[i], now) then Scanned(blocked0, SwapRemoved(blocked, i), i, taken + [blocked[i].pid], now)
            else Scanned(blocked0, blocked, i + 1, taken, now)
  {
    if Expired(blocked[i], now) {
      var rest := Scan(SwapRemoved(blocked, i), i, now).1;
      assert taken + ([blocked[i].pid] + rest) == taken + [blocked[i].pid] + rest;
    }
  }

  lemma ScanEnd(blocked0: seq<BlockedEntry>, blocked: seq<BlockedEntry>, taken: seq<nat>, now: u64)
    requires Scanned(blocked0, blocked, |blocked|, taken, now)
    ensures Scan(blocked0, 0, now) == (blocked, taken)
  {
    assert taken + [] == taken;
  }

  /** The tasks whose deadline has come are made ready in the order of that scan. */
  function WakeTimeouts(s: Sched, now: u64): Sched {
    var (left, taken) := Scan(s.blocked, 0, now);
    Sched(map p | p in s.tasks :: if p in taken then s.tasks[p].(status := Ready) else s.tasks[p],
          s.current, s.ready + taken, left)
  }

  /** Those of a list that are in a set, in the list's order. */
  ghost function Picked(all: seq<nat>, who: set<nat>): (r: seq<nat>)
    ensures forall p :: p in r <==> p in all && p in who
  {
    if all == [] then []
    else
      var n := |all| - 1;
      assert forall p :: p in all <==> p in all[..n] || p == all[n];
      if all[n] in who then Picked(all[..n], who) + [all[n]] else Picked(all[..n], who)
  }

  lemma PickedSnoc(all: seq<nat>, i: nat, who: set<nat>)
    requires i < |all|
    ensures Picked(all[..i + 1], who) == if all[i] in who then Picked(all[..i], who) + [all[i]] else Picked(all[..i], who)
  {
    assert all[..i + 1][..i] == all[..i];
  }

  lemma NobodyTwice(s: Sched)
    requires Placed(s, [])
    ensures NoDup(s.ready) && NoDup(Pids(s.blocked))
  {
  }

  lemma WokenPlaced(s: Sched, s2: Sched, who: set<nat>)
    requires Placed(s, []) && WokenOnce(s, s2, who)
    ensures Placed(s2, [])
  {
    hide NoDup;
    PidsMembers(s.blocked);
    PidsMembers(s2.blocked);
    assert forall p :: p in s2.ready <==> p in s.ready || p in s2.ready[|s.ready|..];
  }

  lemma WokenNobody(s: Sched)
    ensures Woken(s, s, {})
  {
  }

  /** Waking in two rounds. */
  lemma WokenTrans(s: Sched, s1: Sched, s2: Sched, a: set<nat>, b: set<nat>)
    requires Woken(s, s1, a) && Woken(s1, s2, b)
    ensures Woken(s, s2, a + b)
  {
    assert s2.ready[|s.ready|..] == s1.ready[|s.ready|..] + s2.ready[|s1.ready|..];
  }

  /** One blocked task, in limbo, becomes ready. */
  lemma WakeFromLimbo(s: Sched, pid: nat, rest: seq<nat>)
    requires Placed(s, [pid] + rest)
    ensures pid in s.tasks
    ensures Placed(s.(tasks := s.tasks[pid := s.tasks[pid].(status := Ready)], ready := s.ready + [pid]), rest)
  {
    var limbo := [pid] + rest;
    assert limbo[0] == pid;
    assert forall i :: 0 <= i < |rest| ==> limbo[i + 1] == rest[i];
    var s2 := s.(tasks := s.tasks[pid := s.tasks[pid].(status := Ready)], ready := s.ready + [pid]);
    assert pid !in s.ready;
    assert pid in s2.ready by {
      assert s2.ready[|s.ready|] == pid;
    }
    assert pid !in rest;
    assert forall p :: p in limbo <==> p == pid || p in rest;
  }

  /** Taking an entry off the blocked list puts its task in limbo. */
  lemma TakeOffList(s: Sched, i: nat, limbo: seq<nat>)
    requires Placed(s, limbo) && i < |s.blocked|
    ensures Placed(s.(blocked := SwapRemoved(s.blocked, i)), limbo + [s.blocked[i].pid])
  {
    SwapRemovedElements(s.blocked, i);
    var pid := s.blocked[i].pid;
    assert Pids(s.blocked)[i] == pid;
    NoDupConcat(limbo, [pid]);
    assert forall p :: p in limbo + [pid] <==> p in limbo || p == pid;
  }

  // ---------- what keeps the invariants

  /** What waking keeps: the tree, the deadlines and, for those not woken, that nothing they wait for has happened. */
  lemma WokenKeeps(s: Sched, s2: Sched, who: set<nat>, birth: map<nat, nat>, clock: nat)
    requires Woken(s, s2, who) && Tree(s.tasks, birth) && DeadlinesListed(s) && WaitsOk(s.tasks, clock)
    requires forall p :: p in s.tasks && p !in who ==> Quiet(s.tasks[p])
    ensures Tree(s2.tasks, birth) && DeadlinesListed(s2) && WaitsOk(s2.tasks, clock) && AllQuiet(s2.tasks)
    ensures s2.tasks.Keys == s.tasks.Keys && s2.current == s.current
  {
    TreeKept(s.tasks, s2.tasks, birth);
  }

  /** Between tasks and tasks2 only agents' event state changed. */
  ghost predicate ExtsChanged(tasks: map<nat, Tcb>, tasks2: map<nat, Tcb>) {
    && tasks2.Keys == tasks.Keys
    && forall p :: p in tasks ==>
         && tasks2[p] == tasks[p].(ext := tasks2[p].ext)
         && tasks2[p].ext.Some? == tasks[p].ext.Some?
  }

  lemma ExtsChangedKeeps(s: Sched, tasks2: map<nat, Tcb>, birth: map<nat, nat>, clock: nat)
    requires ExtsChanged(s.tasks, tasks2)
    requires Tree(s.tasks, birth) && Placed(s, []) && DeadlinesListed(s) && WaitsOk(s.tasks, clock)
    ensures Tree(tasks2, birth) && Placed(s.(tasks := tasks2), []) && DeadlinesListed(s.(tasks := tasks2))
    ensures WaitsOk(tasks2, clock)
  {
    hide Tree, Placed;
    TreeKept(s.tasks, tasks2, birth);
    PlacedKept(s, tasks2, []);
  }

  /** Places depend on the tasks' status only. */
  lemma PlacedKept(s: Sched, tasks2: map<nat, Tcb>, limbo: seq<nat>)
    requires Placed(s, limbo) && tasks2.Keys == s.tasks.Keys
    requires forall p :: p in s.tasks ==> tasks2[p].status == s.tasks[p].status
    ensures Placed(s.(tasks := tasks2), limbo)
  {
    hide NoDup;
  }

  /** The running task's event state, wait, priority or address space changed. */
  lemma RunningChanged(s: Sched, t: Tcb, birth: map<nat, nat>, clock: nat)
    requires Tree(s.tasks, birth) && Placed(s, []) && DeadlinesListed(s) && WaitsOk(s.tasks, clock) && AllQuiet(s.tasks)
    requires s.current.Some? && WaitOk(t, clock)
    requires s.current.value in s.tasks && t == s.tasks[s.current.value].(ext := t.ext, wait := t.wait, priority := t.priority, area := t.area)
    ensures var tasks2 := s.tasks[s.current.value := t];
            && Tree(tasks2, birth) && Placed(s.(tasks := tasks2), []) && DeadlinesListed(s.(tasks := tasks2))
            && WaitsOk(tasks2, clock) && AllQuiet(tasks2)
  {
    hide Tree, Placed, WaitOk, Quiet, DeadlinesListed;
    InPlace(s);
    TreeKept(s.tasks, s.tasks[s.current.value := t], birth);
    PlacedKept(s, s.tasks[s.current.value := t], []);
    RunningDeadlines(s, t);
  }

  lemma RunningDeadlines(s: Sched, t: Tcb)
    requires DeadlinesListed(s) && s.current.Some? && t.status.Running?
    requires forall e :: e in s.blocked ==> e.pid in s.tasks && s.tasks[e.pid].status.Blocked?
    requires s.current.value in s.tasks && s.tasks[s.current.value].status.Running?
    ensures DeadlinesListed(s.(tasks := s.tasks[s.current.value := t])) && Quiet(t)
  {
  }

  /** What the places say about the running task and the blocked list. */
  lemma InPlace(s: Sched)
    requires Placed(s, [])
    ensures s.current.Some? ==> s.current.value in s.tasks && s.tasks[s.current.value].status.Running?
    ensures forall p :: p in s.ready ==> p in s.tasks && s.tasks[p].status.Ready?
    ensures forall e :: e in s.blocked ==> e.pid in s.tasks && s.tasks[e.pid].status.Blocked?
  {
    PidsMembers(s.blocked);
  }

  // ---------- heartbeats, messages and file events

  /** The heartbeat of an agent is due; saturating_sub guards against a clock behind the last beat. */
  predicate Due(t: Tcb, now: u64) {
    && t.ext.Some? && t.ext.value.interval > 0
    && (if now < t.ext.value.lastBeat then 0 else now - t.ext.value.lastBeat) >= t.ext.value.interval
  }

  function TickTcb(t: Tcb, now: u64): Tcb {
    if Due(t, now) then t.(ext := Some(t.ext.value.(heartbeatPending := true, lastBeat := now))) else t
  }

  function Ticked(tasks: map<nat, Tcb>, now: u64): (tasks2: map<nat, Tcb>)
    ensures ExtsChanged(tasks, tasks2)
  {
    map p | p in tasks :: TickTcb(tasks[p], now)
  }

  function DuePids(tasks: map<nat, Tcb>, now: u64): set<nat> {
    set p | p in tasks && Due(tasks[p], now)
  }

  /** A full mailbox drops its oldest message. */
  function Posted(mailbox: seq<seq<byte>>, payload: seq<byte>): (m: seq<seq<byte>>) {
    (if |mailbox| >= MAILBOX_CAPACITY then mailbox[1..] else mailbox) + [payload]
  }

  function Mailed(tasks: map<nat, Tcb>, target: nat, payload: seq<byte>): (tasks2: map<nat, Tcb>)
    requires target in tasks && tasks[target].ext.Some?
    ensures ExtsChanged(tasks, tasks2)
  {
    var e := tasks[target].ext.value;
    tasks[target := tasks[target].(ext := Some(e.(mailbox := Posted(e.mailbox, payload))))]
  }

  predicate WatchesFiles(t: Tcb) {
    t.ext.Some? && t.ext.value.watched & EVENT_FILE_MODIFIED != 0
  }

  function NotifyTcb(t: Tcb): Tcb {
    if WatchesFiles(t) then t.(ext := Some(t.ext.value.(filePending := true))) else t
  }

  function Notified(tasks: map<nat, Tcb>): (tasks2: map<nat, Tcb>)
    ensures ExtsChanged(tasks, tasks2)
  {
    map p | p in tasks :: NotifyTcb(tasks[p])
  }

  function WatcherPids(tasks: map<nat, Tcb>): set<nat> {
    set p | p in tasks && WatchesFiles(tasks[p])
  }

  function ExpiredPids(blocked: seq<BlockedEntry>, now: u64): set<nat> {
    set e | e in blocked && Expired(e, now) :: e.pid
  }

  // ---------- choosing whom to run

  /** Position i of the queue has the highest priority, and is the first of its priority. */
  ghost predicate IsBest(tasks: map<nat, Tcb>, ready: seq<nat>, i: nat)
    requires i < |ready| && forall p :: p in ready ==> p in tasks
  {
    && (forall j :: 0 <= j < |ready| ==> tasks[ready[j]].priority <= tasks[ready[i]].priority)
    && (forall j :: 0 <= j < i ==> tasks[ready[j]].priority < tasks[ready[i]].priority)
  }

  // ---------- listing all processes

  /** Partway through the breadth-first walk: `found` lists the tasks met, of which those in `out` are done with. */
  ghost predicate Walking(tasks: map<nat, Tcb>, out: seq<nat>, found: seq<nat>) {
    && NoDup(found) && INITPROC in found
    && (forall p :: p in found ==> p in tasks)
    && (forall p :: p in found && p != INITPROC ==> tasks[p].parent.Some? && tasks[p].parent.value in out)
    && (forall p, c :: p in out && p in tasks && c in tasks[p].children ==> c in found)
  }

  /** The breadth-first walk, from the tasks listed and those in the queue on. */
  ghost function Walk(tasks: map<nat, Tcb>, out: seq<nat>, queue: seq<nat>): seq<nat>
    decreases |tasks| - |out|
  {
    if queue == [] || queue[0] !in tasks || |out| >= |tasks| then out
    else Walk(tasks, out + [queue[0]], queue[1..] + tasks[queue[0]].children)
  }

  /** All processes, breadth first from INITPROC. */
  ghost function Snapshot(tasks: map<nat, Tcb>): seq<nat> {
    Walk(tasks, [], [INITPROC])
  }

  lemma WalkStep(tasks: map<nat, Tcb>, birth: map<nat, nat>, out: seq<nat>, found: seq<nat>, p: nat)
    requires Tree(tasks, birth) && Walking(tasks, out, found) && p in found && p !in out
    ensures p in tasks && Walking(tasks, out + [p], found + tasks[p].children)
  {
    assert ChildrenOk(tasks, p);
    hide Tree, NoDup;
    WalkOn(tasks, out, found, p);
  }

  lemma WalkOn(tasks: map<nat, Tcb>, out: seq<nat>, found: seq<nat>, p: nat)
    requires Walking(tasks, out, found) && p in found && p !in out && p in tasks && ChildrenOk(tasks, p)
    requires INITPROC in tasks && tasks[INITPROC].parent.None?
    ensures Walking(tasks, out + [p], found + tasks[p].children)
  {
    hide NoDup;
    var kids := tasks[p].children;
    assert NoDup(kids) && forall c :: c in kids ==> c in tasks && tasks[c].parent == Some(p);
    hide ChildrenOk;
    assert forall c :: c in kids ==> c !in found;
    NoDupConcat(found, kids);
    assert forall x :: x in found + kids <==> x in found || x in kids;
    assert forall x :: x in out + [p] <==> x in out || x == p;
  }

  lemma WalkedAll(tasks: map<nat, Tcb>, birth: map<nat, nat>, out: seq<nat>)
    requires Tree(tasks, birth) && Walking(tasks, out, out)
    ensures NoDup(out) && forall p :: p in out <==> p in tasks
  {
    forall p | p in tasks
      ensures p in out
    {
      ClosedIsAll(tasks, birth, (set x | x in out), p);
    }
  }

  lemma {:induction false} NoDupSize(s: seq<nat>, all: set<nat>)
    requires NoDup(s) && forall x :: x in s ==> x in all
    ensures |s| <= |all|
  {
    if s != [] {
      NoDupSize(s[1..], all - {s[0]});
    }
  }
}
