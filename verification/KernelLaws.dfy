/** What the kernel's events mean to the tasks: fields before and after each, in plain numbers and flags. */
module KernelLaws {
  import opened Bytes
  import opened Collections
  import opened Tasks
  import opened Scheduling
  import opened KernelSteps
  import opened KernelSpec

  // ---------- what may happen, and how long it takes

  /** INITPROC is task 0, ready, with priority 16; there is no other. */
  lemma BootLaw()
    ensures Booted() == Sched(map[0 := Tcb(Ready, None, [], 0, 16, None, None, false)], None, [0], [])
  {
  }

  /** While the machine is on and its clock does not run out, the idle loop runs alone, and a wait can only go on. */
  lemma PossibleMeans(m: Moment, e: Event)
    ensures Possible(m, e) <==>
            && m.on && m.now + Elapsed(e) < 0x8000_0000_0000_0000
            && (e.Idle? <==> m.s.current.None?)
            && (m.s.current.Some? ==>
                  (e.Continue? <==> m.s.current.value in m.s.tasks && m.s.tasks[m.s.current.value].wait.Some?))
            && (e.ForkAs? ==> e.child !in m.s.tasks)
  {
  }

  lemma TimePasses(m: Moment, e: Event, m2: Moment, a: Answer)
    requires Stepped(m, e, m2, a)
    ensures m2.now == m.now + match e
                              case WaitFor(_, x, y, z) => x + y + z
                              case Continue(x) => x
                              case TimerInterrupt(x, y) => x + y
                              case _ => 0
  {
    hide Effect;
  }

  // ---------- scheduling and process life

  /** Only task p's record changes. */
  ghost predicate Only(s: Sched, s2: Sched, p: nat) {
    p in s.tasks && s2.tasks.Keys == s.tasks.Keys && forall q :: q in s.tasks && q != p ==> s2.tasks[q] == s.tasks[q]
  }

  /** The ready task of the highest number runs, of equal ones the first in the queue; the others keep their places. */
  lemma DispatchLaw(m: Moment, m2: Moment, a: Answer)
    requires Stepped(m, Idle, m2, a) && m.s.ready != []
    ensures m2.s.current.Some? && m2.s.blocked == m.s.blocked
    ensures exists i: nat ::
              && i < |m.s.ready| && m2.s.current.value == m.s.ready[i] && m2.s.ready == m.s.ready[..i] + m.s.ready[i + 1..]
              && Only(m.s, m2.s, m.s.ready[i]) && m2.s.tasks[m.s.ready[i]] == m.s.tasks[m.s.ready[i]].(status := Running)
              && (forall j :: 0 <= j < |m.s.ready| && m.s.ready[j] in m.s.tasks ==>
                    m.s.tasks[m.s.ready[j]].priority <= m.s.tasks[m.s.ready[i]].priority)
              && (forall j :: 0 <= j < i && m.s.ready[j] in m.s.tasks ==>
                    m.s.tasks[m.s.ready[j]].priority < m.s.tasks[m.s.ready[i]].priority)
  {
    var i: nat :| i < |m.s.ready| && IsBest(m.s.tasks, m.s.ready, i) && m2.s == Dispatched(m.s, i);
    assert m.s.ready[i] in m.s.ready;
    assert Only(m.s, m2.s, m.s.ready[i]);
  }

  lemma YieldLaw(m: Moment, m2: Moment, a: Answer)
    requires Stepped(m, Yield, m2, a)
    ensures var p := m.s.current.value;
            && Only(m.s, m2.s, p) && m2.s.tasks[p] == m.s.tasks[p].(status := Ready)
            && m2.s.current.None? && m2.s.ready == m.s.ready + [p] && m2.s.blocked == m.s.blocked
  {
  }

  /** The child is a plain process with the parent's priority and mappings, ready behind all others. */
  lemma ForkLaw(m: Moment, child: nat, m2: Moment, a: Answer)
    requires Stepped(m, ForkAs(child), m2, a)
    ensures var p := m.s.current.value;
            && child !in m.s.tasks && m2.s.tasks.Keys == m.s.tasks.Keys + {child}
            && m2.s.tasks[child] == Tcb(Ready, Some(p), [], 0, m.s.tasks[p].priority, None, None, m.s.tasks[p].area)
            && m2.s.tasks[p] == m.s.tasks[p].(children := m.s.tasks[p].children + [child])
            && (forall q :: q in m.s.tasks && q != p ==> m2.s.tasks[q] == m.s.tasks[q])
            && m2.s.current == m.s.current && m2.s.ready == m.s.ready + [child] && m2.s.blocked == m.s.blocked
  {
  }

  /** The task is a zombie with its code; its children are INITPROC's, behind those INITPROC had. */
  lemma ExitLaw(m: Moment, exitCode: int, m2: Moment, a: Answer)
    requires Stepped(m, ExitWith(exitCode), m2, a) && m.s.current != Some(INITPROC)
    ensures var p := m.s.current.value;
            && m2.s.tasks.Keys == m.s.tasks.Keys && m2.on
            && m2.s.tasks[p] == m.s.tasks[p].(status := Zombie, exitCode := exitCode, children := [])
            && m2.s.tasks[INITPROC].children == m.s.tasks[INITPROC].children + m.s.tasks[p].children
            && (forall q :: q in m.s.tasks && q != p && q != INITPROC ==>
                  m2.s.tasks[q] == if q in m.s.tasks[p].children then m.s.tasks[q].(parent := Some(INITPROC)) else m.s.tasks[q])
            && m2.s.current.None? && m2.s.ready == m.s.ready && m2.s.blocked == m.s.blocked
  {
  }

  /** The exit of INITPROC stops the machine. */
  lemma ShutdownLaw(m: Moment, exitCode: int, m2: Moment, a: Answer)
    requires Stepped(m, ExitWith(exitCode), m2, a) && m.s.current == Some(INITPROC)
    ensures !m2.on && m2.s == m.s
  {
  }

  /**
   * waitpid: -1 when no child is asked for, -2 when none of those has exited; else the first of them that has, whose
   * code is answered and who is gone from the tasks and from its parent's list.
   */
  lemma ReapLaw(m: Moment, pid: int, m2: Moment, a: Answer)
    requires Stepped(m, Reap(pid), m2, a)
    ensures a.Reaping? && var (p, s) := (m.s.current.value, m.s);
            var kids := s.tasks[p].children;
            && (a.result == -1 <==> forall c :: c in kids ==> pid != -1 && pid != c)
            && (a.result < 0 ==>
                  && a.result in {-1, -2} && m2.s == s
                  && forall c :: c in kids && c in s.tasks && s.tasks[c].status.Zombie? ==> pid != -1 && pid != c)
            && (a.result >= 0 ==> exists i: nat ::
                  && i < |kids| && kids[i] == a.result && kids[i] in s.tasks
                  && s.tasks[kids[i]].status.Zombie? && a.exitCode == s.tasks[kids[i]].exitCode && (pid == -1 || pid == kids[i])
                  && (forall j :: 0 <= j < i && kids[j] in s.tasks && s.tasks[kids[j]].status.Zombie? ==> pid != -1 && pid != kids[j])
                  && m2.s == s.(tasks := (s.tasks - {kids[i]})[p := s.tasks[p].(children := kids[..i] + kids[i + 1..])]))
  {
    hide Holders;
    var (p, s) := (m.s.current.value, m.s);
    var kids := s.tasks[p].children;
    if a.result < 0 {
      forall c | c in kids && c in s.tasks && s.tasks[c].status.Zombie?
        ensures pid != -1 && pid != c
      {
        ZombieNamed(s.tasks, kids, pid, c);
      }
    } else {
      var i: nat :| FirstZombie(s.tasks, kids, pid, i) && ReapedAt(s, m2.s, p, i, a.result, a.exitCode);
      assert Without(kids, i) == kids[..i] + kids[i + 1..];
    }
  }

  /** Where a zombie is named there is a first one. */
  lemma ZombieNamed(tasks: map<nat, Tcb>, kids: seq<nat>, pid: int, c: nat)
    requires c in kids && c in tasks && tasks[c].status.Zombie?
    ensures pid == -1 || pid == c ==> exists i: nat :: FirstZombie(tasks, kids, pid, i)
  {
    if Matches(pid, c) {
      var i: nat :| i < |kids| && kids[i] == c;
      var first := FirstNamed(tasks, kids, pid, i);
    }
  }

  lemma {:induction false} FirstNamed(tasks: map<nat, Tcb>, kids: seq<nat>, pid: int, i: nat) returns (first: nat)
    requires i < |kids| && kids[i] in tasks && tasks[kids[i]].status.Zombie? && Matches(pid, kids[i])
    ensures FirstZombie(tasks, kids, pid, first)
  {
    first := i;
    if j :| 0 <= j < i && kids[j] in tasks && tasks[kids[j]].status.Zombie? && Matches(pid, kids[j]) {
      first := FirstNamed(tasks, kids, pid, j);
    }
  }

  // ---------- what a task changes of itself

  /** These calls change the caller's own record, in the one field they are about, and nothing else. */
  lemma OwnTaskLaw(m: Moment, e: Event, m2: Moment, a: Answer)
    requires Stepped(m, e, m2, a) && (e.Prioritize? || e.Exec?)
    ensures Only(m.s, m2.s, m.s.current.value)
    ensures m2.s.current == m.s.current && m2.s.ready == m.s.ready && m2.s.blocked == m.s.blocked
    ensures var (t, t2) := (m.s.tasks[m.s.current.value], m2.s.tasks[m.s.current.value]);
            match e
            case Prioritize(n) => var k := if n < 255 then n else 255; a == Code(k) && t2 == t.(priority := k)
            case Exec(area) => t2 == t.(area := area)
  {
  }

  /** So do these, in an agent's event state; a plain process gets -4. */
  lemma OwnExtLaw(m: Moment, e: Event, m2: Moment, a: Answer)
    requires Stepped(m, e, m2, a) && (e.Watch? || e.Unwatch? || e.Heartbeat? || e.StopHeartbeat?)
    ensures Only(m.s, m2.s, m.s.current.value)
    ensures m2.s.current == m.s.current && m2.s.ready == m.s.ready && m2.s.blocked == m.s.blocked
    ensures var (t, t2) := (m.s.tasks[m.s.current.value], m2.s.tasks[m.s.current.value]);
            if t.ext.None? then a == Code(-4) && t2 == t
            else
              && a == Code(0) && t2.ext.Some? && t2 == t.(ext := t2.ext)
              && ExtChanges(e, m.now, t.ext.value, t2.ext.value)
  {
  }

  predicate ExtChanges(e: Event, now: nat, x: AgentExt, x2: AgentExt) {
    match e
    case Watch(mask) => x2 == x.(watched := x.watched | mask)
    case Unwatch(mask) => x2 == x.(watched := x.watched & !mask)
    case Heartbeat(n) => x2.lastBeat == now && x2 == x.(interval := n, lastBeat := x2.lastBeat, heartbeatPending := false)
    case StopHeartbeat => x2 == x.(interval := 0, heartbeatPending := false)
    case _ => x2 == x
  }

  /** A new agent watches nothing in particular, has no heartbeat, and no mail. */
  lemma BecomeAgentLaw(m: Moment, m2: Moment, a: Answer)
    requires Stepped(m, BecomeAgent, m2, a)
    ensures Only(m.s, m2.s, m.s.current.value)
    ensures m2.s.current == m.s.current && m2.s.ready == m.s.ready && m2.s.blocked == m.s.blocked
    ensures var (t, t2) := (m.s.tasks[m.s.current.value], m2.s.tasks[m.s.current.value]);
            && (if t.ext.None? && !t.area then t2 == t.(ext := Some(AgentExt(0, 0, 0, false, false, [])), area := true) else t2 == t)
            && (m2.on <==> t.ext.Some? || !t.area)
  {
  }

  // ---------- events and waits

  /** A heartbeat, a message or a file event has come that the agent waits for; with no mask these are the first two. */
  predicate Beat(x: AgentExt) {
    x.heartbeatPending && (x.watched == 0 || x.watched & 1 != 0)
  }

  predicate Mail(x: AgentExt) {
    x.mailbox != [] && (x.watched == 0 || x.watched & 2 != 0)
  }

  predicate FileSeen(x: AgentExt) {
    x.filePending && x.watched & 4 != 0
  }

  /** The events that end a wait are these, as bits 0, 1 and 2. */
  lemma TriggeredBits(x: AgentExt)
    ensures Triggered(x) & 1 != 0 <==> Beat(x)
    ensures Triggered(x) & 2 != 0 <==> Mail(x)
    ensures Triggered(x) & 4 != 0 <==> FileSeen(x)
    ensures Triggered(x) & 0xFFFF_FFF8 == 0
    ensures Triggered(x) == 0 <==> !Beat(x) && !Mail(x) && !FileSeen(x)
  {
    PendingBits(x.heartbeatPending, x.mailbox != [], x.filePending);
    MaskBits(x.watched);
    Bits(Pending(x), Mask(x));
  }

  lemma PendingBits(beat: bool, mail: bool, file: bool)
    ensures var p: bv32 := (if beat then 1 else 0) | (if mail then 2 else 0) | (if file then 4 else 0);
            (p & 1 != 0 <==> beat) && (p & 2 != 0 <==> mail) && (p & 4 != 0 <==> file) && p & 0xFFFF_FFF8 == 0
  {
  }

  lemma MaskBits(watched: bv32)
    ensures var k: bv32 := if watched == 0 then 1 | 2 else watched;
            && (k & 1 != 0 <==> watched == 0 || watched & 1 != 0)
            && (k & 2 != 0 <==> watched == 0 || watched & 2 != 0)
            && (k & 4 != 0 <==> watched & 4 != 0)
  {
  }

  lemma Bits(p: bv32, k: bv32)
    requires p & 0xFFFF_FFF8 == 0
    ensures (p & k) & 1 != 0 <==> p & 1 != 0 && k & 1 != 0
    ensures (p & k) & 2 != 0 <==> p & 2 != 0 && k & 2 != 0
    ensures (p & k) & 4 != 0 <==> p & 4 != 0 && k & 4 != 0
    ensures (p & k) & 0xFFFF_FFF8 == 0
    ensures p & k == 0 <==> (p & k) & 1 == 0 && (p & k) & 2 == 0 && (p & k) & 4 == 0
  {
  }

  /** A heartbeat or file event that ends a wait is used up; one the agent does not wait for stays; so do messages. */
  lemma ConsumedBits(x: AgentExt)
    ensures Consumed(x) == x.(heartbeatPending := x.heartbeatPending && !Beat(x), filePending := x.filePending && !FileSeen(x))
  {
    hide Triggered;
    TriggeredBits(x);
  }

  /** When the wait of the running task began, when its deadline was computed, and its timeout. */
  ghost predicate WaitIs(m: Moment, e: Event, start: int, at: int, timeout: int)
    requires e.WaitFor? || e.Continue?
  {
    match e
    case WaitFor(n, toStart, toDeadline, _) => start == m.now + toStart && at == m.now + toStart + toDeadline && timeout == n
    case Continue(_) =>
      && m.s.current.Some? && m.s.current.value in m.s.tasks && m.s.tasks[m.s.current.value].wait.Some?
      && var w := m.s.tasks[m.s.current.value].wait.value; start == w.start && at == w.at && timeout == w.timeout
  }

  /** The running agent goes to sleep exactly when nothing it waits for has come and its timeout has not run out. */
  lemma SleepLaw(m: Moment, e: Event, m2: Moment, a: Answer, x: AgentExt, start: int, at: int, timeout: int)
    requires Stepped(m, e, m2, a) && (e.WaitFor? || e.Continue?) && OwnExt(m.s) == Some(x) && WaitIs(m, e, start, at, timeout)
    ensures a.Waiting? && !a.outcome.NotAgent?
    ensures a == Waiting(Asleep) <==> !Beat(x) && !Mail(x) && !FileSeen(x) && (timeout < 0 || m2.now - start < timeout)
  {
    hide Triggered, DeadlineOf, Consumed;
    TriggeredBits(x);
  }

  /** A wait that returns tells what has come, uses up heartbeats and file events, and leaves the agent running. */
  lemma ReturnLaw(m: Moment, e: Event, m2: Moment, a: Answer, x: AgentExt)
    requires Stepped(m, e, m2, a) && (e.WaitFor? || e.Continue?) && OwnExt(m.s) == Some(x) && a != Waiting(Asleep)
    ensures var (p, events) := (m.s.current.value, a.outcome.events);
            && (events & 1 != 0 <==> Beat(x)) && (events & 2 != 0 <==> Mail(x)) && (events & 4 != 0 <==> FileSeen(x))
            && events & 0xFFFF_FFF8 == 0
            && Only(m.s, m2.s, p) && m2.s.current == m.s.current && m2.s.ready == m.s.ready && m2.s.blocked == m.s.blocked
            && m2.s.tasks[p] == m.s.tasks[p].(wait := None,
                 ext := Some(x.(heartbeatPending := x.heartbeatPending && !Beat(x), filePending := x.filePending && !FileSeen(x))))
  {
    hide Triggered, DeadlineOf, Consumed;
    TriggeredBits(x);
    ConsumedBits(x);
  }

  /**
   * An agent that falls asleep is blocked, and listed with a deadline: none without a timeout, at plus timeout where that
   * is below 2^63, else 0.
   */
  lemma AsleepLaw(m: Moment, e: Event, m2: Moment, a: Answer, h: History, start: int, at: int, timeout: int)
    requires Invariant(m.s, h) && h.clock <= m.now && Stepped(m, e, m2, a) && a == Waiting(Asleep)
    requires (e.WaitFor? || e.Continue?) && WaitIs(m, e, start, at, timeout)
    ensures var p := m.s.current.value;
            && Only(m.s, m2.s, p) && m2.s.tasks[p].status.Blocked? && m2.s.tasks[p].ext == m.s.tasks[p].ext
            && m2.s.current.None? && m2.s.ready == m.s.ready && |m2.s.blocked| == |m.s.blocked| + 1
            && m2.s.blocked[..|m.s.blocked|] == m.s.blocked && m2.s.blocked[|m.s.blocked|].pid == p
    ensures var deadline := m2.s.blocked[|m.s.blocked|].deadline;
            && (deadline.None? <==> timeout < 0)
            && (timeout >= 0 ==> deadline.value == if at + timeout < 0x8000_0000_0000_0000 then at + timeout else 0)
  {
    hide Tree, Placed, DeadlinesListed, WaitsOk, AllQuiet, ExpiredOk, Triggered, Consumed;
    if e.Continue? {
      WaitOkAt(m.s.tasks, m.s.current.value, h.clock);
    }
  }

  /** Having returned with its heartbeat or file event, an agent without mail that waits again sleeps. */
  lemma SecondWaitSleeps(m: Moment, e: Event, m1: Moment, a: Answer, e2: Event, m2: Moment, a2: Answer)
    requires Stepped(m, e, m1, a) && (e.WaitFor? || e.Continue?) && a != Waiting(Asleep)
    requires OwnExt(m.s).Some? && OwnExt(m.s).value.mailbox == []
    requires Stepped(m1, e2, m2, a2) && e2.WaitFor? && (e2.timeout < 0 || e2.toDeadline + e2.toRound < e2.timeout)
    ensures a2 == Waiting(Asleep)
  {
    hide Stepped;
    ReturnLaw(m, e, m1, a, OwnExt(m.s).value);
    assert m2.now == m1.now + e2.toStart + e2.toDeadline + e2.toRound by {
      TimePasses(m1, e2, m2, a2);
    }
    SleepLaw(m1, e2, m2, a2, OwnExt(m1.s).value, m1.now + e2.toStart, m1.now + e2.toStart + e2.toDeadline, e2.timeout);
  }

  // ---------- the timer interrupt

  /** An agent's heartbeat interval has passed since its last beat. */
  predicate BeatDue(t: Tcb, now: nat) {
    t.ext.Some? && t.ext.value.interval > 0 && now - t.ext.value.lastBeat >= t.ext.value.interval
  }

  /** A wait with a timeout has reached its deadline, or has one that overflowed. */
  predicate DeadlineReached(t: Tcb, now: nat) {
    && t.wait.Some? && t.wait.value.timeout >= 0
    && (t.wait.value.at + t.wait.value.timeout <= now || t.wait.value.at + t.wait.value.timeout >= 0x8000_0000_0000_0000)
  }

  lemma DueMeans(t: Tcb, now: u64)
    ensures Due(t, now) <==> BeatDue(t, now)
    ensures TickTcb(t, now) == if BeatDue(t, now) then t.(ext := Some(t.ext.value.(heartbeatPending := true, lastBeat := now))) else t
  {
  }

  /** A listed deadline has come exactly when the wait has reached it. */
  lemma ExpiredMeans(s: Sched, p: nat, clock: nat, now: u63)
    requires Placed(s, []) && DeadlinesListed(s) && WaitsOk(s.tasks, clock) && p in s.tasks && s.tasks[p].status.Blocked?
    ensures p in ExpiredPids(s.blocked, now) <==> DeadlineReached(s.tasks[p], now)
  {
    var i :| 0 <= i < |s.blocked| && Pids(s.blocked)[i] == p;
    var e := s.blocked[i];
    assert e in s.blocked && WaitOk(s.tasks[p], clock);
    ListedOnce(s, e);
    hide Placed, WaitsOk;
    assert Expired(e, now) <==> DeadlineReached(s.tasks[p], now);
  }

  /**
   * A timer interrupt marks the agents whose heartbeat is due. Of the blocked tasks it makes ready exactly those that are
   * due or have reached their deadline; the running task goes to the end of the queue; nothing else changes.
   */
  lemma TimerLaw(m: Moment, toBeats: nat, toTimeouts: nat, m2: Moment, a: Answer, h: History, p: nat)
    requires Invariant(m.s, h) && h.clock <= m.now && Stepped(m, TimerInterrupt(toBeats, toTimeouts), m2, a) && p in m.s.tasks
    ensures m2.s.tasks.Keys == m.s.tasks.Keys && m2.s.current.None? && m2.now == m.now + toBeats + toTimeouts
    ensures m2.s.ready != [] && m2.s.ready[|m2.s.ready| - 1] == m.s.current.value
    ensures var (t, now1) := (m.s.tasks[p], m.now + toBeats);
            m2.s.tasks[p] == t.(
              ext := if BeatDue(t, now1) then Some(t.ext.value.(heartbeatPending := true, lastBeat := now1)) else t.ext,
              status := if t.status.Running? || (t.status.Blocked? && (BeatDue(t, now1) || DeadlineReached(t, m2.now))) then Ready
                        else t.status)
  {
    hide TimerDone, WokenOnce, Woken, Placed, Tree, Due, TickTcb, ExpiredPids, DuePids, BeatDue, DeadlineReached;
    hide WaitsOk, AllQuiet, ExpiredOk, DeadlinesListed;
    var now1: u63, now2: u63 := m.now + toBeats, m2.now;
    var s1, s2 := TimerRounds(m.s, m2.s, now1, now2);
    assert Woken(m.s.(tasks := Ticked(m.s.tasks, now1)), s1, DuePids(m.s.tasks, now1)) && Woken(s1, s2, ExpiredPids(s1.blocked, now2)) by {
      RoundsWoken(m.s, s1, s2, now1, now2);
    }
    CurrentStays(m.s, s1, s2, now1, now2);
    TimerEffect(m.s, s1, s2, now1, now2);
    DueMeans(m.s.tasks[p], now1);
    if m.s.tasks[p].status.Blocked? {
      ExpiredMeans(m.s, p, h.clock, now2);
    }
    hide Stepped;
    RunsIfCurrent(m.s, p);
  }

  lemma RoundsWoken(s: Sched, s1: Sched, s2: Sched, now1: u64, now2: u64)
    requires WokenOnce(s.(tasks := Ticked(s.tasks, now1)), s1, DuePids(s.tasks, now1))
    requires WokenOnce(s1, s2, ExpiredPids(s1.blocked, now2))
    ensures Woken(s.(tasks := Ticked(s.tasks, now1)), s1, DuePids(s.tasks, now1)) && Woken(s1, s2, ExpiredPids(s1.blocked, now2))
  {
  }

  lemma RunsIfCurrent(s: Sched, p: nat)
    requires Placed(s, []) && p in s.tasks
    ensures s.tasks[p].status.Running? <==> s.current == Some(p)
  {
  }

  // ---------- messages and file events

  /** A message goes to the end of the agent's mailbox, the oldest one being lost when 32 are there; a sleeper wakes. */
  lemma SendLaw(m: Moment, target: nat, payload: seq<byte>, m2: Moment, a: Answer)
    requires Stepped(m, Send(target, payload), m2, a)
    ensures a == Delivered(target in m.s.tasks && m.s.tasks[target].ext.Some?)
    ensures a == Delivered(false) ==> m2.s == m.s
    ensures a == Delivered(true) ==>
              && Only(m.s, m2.s, target)
              && var (t, box) := (m.s.tasks[target], m.s.tasks[target].ext.value.mailbox);
              m2.s.tasks[target] == t.(
                ext := Some(t.ext.value.(mailbox := if |box| >= 32 then box[1..] + [payload] else box + [payload])),
                status := if t.status.Blocked? then Ready else t.status)
  {
    hide WakePid;
  }

  /** Receiving takes the first message out of the mailbox; what of it fits is returned. */
  lemma ReceiveLaw(m: Moment, buf: nat, bufLen: nat, m2: Moment, a: Answer)
    requires Stepped(m, Receive(buf, bufLen), m2, a)
    ensures a.Message? && Only(m.s, m2.s, m.s.current.value)
    ensures m2.s.current == m.s.current && m2.s.ready == m.s.ready && m2.s.blocked == m.s.blocked
    ensures var (t, t2) := (m.s.tasks[m.s.current.value], m2.s.tasks[m.s.current.value]);
            if buf == 0 then a == Message(-1, []) && t2 == t
            else if t.ext.None? then a == Message(-4, []) && t2 == t
            else if t.ext.value.mailbox == [] then a == Message(-6, []) && t2 == t
            else
              var box := t.ext.value.mailbox;
              && a.r == (if bufLen < |box[0]| then bufLen else |box[0]|) && a.bytes == box[0][..a.r]
              && t2 == t.(ext := Some(t.ext.value.(mailbox := box[1..])))
  {
  }

  /** A file event marks and wakes the agents that watch bit 2 of the events, and no others. */
  lemma FileChangedLaw(m: Moment, m2: Moment, a: Answer, p: nat)
    requires Stepped(m, FileChanged, m2, a) && p in m.s.tasks
    ensures m2.s.tasks.Keys == m.s.tasks.Keys && m2.s.current == m.s.current
    ensures var t := m.s.tasks[p];
            m2.s.tasks[p] == if t.ext.Some? && t.ext.value.watched & 4 != 0
                             then t.(ext := Some(t.ext.value.(filePending := true)), status := if t.status.Blocked? then Ready else t.status)
                             else t
  {
    hide WakePids, Picked, Snapshot;
  }

  // ---------- the order of waking

  /** The blocked tasks. */
  ghost function Sleepers(s: Sched): set<nat> {
    set p | p in s.tasks && s.tasks[p].status.Blocked?
  }

  lemma WakePidLaw(s: Sched, p: nat)
    requires Placed(s, [])
    ensures Placed(WakePid(s, p), []) && WakePid(s, p).ready == s.ready + (if p in Sleepers(s) then [p] else [])
    ensures Sleepers(WakePid(s, p)) == Sleepers(s) - {p}
  {
    hide Placed, Woken;
    var i := EntryOf(s.blocked, p);
    if i == |s.blocked| {
      NotOnList(s, p);
    } else {
      WakeFromList(s, i);
    }
  }

  /** Tasks that are woken one after the other enter the ready queue in that order, those that are not blocked not at all. */
  lemma {:induction false} WakePidsLaw(s: Sched, pids: seq<nat>)
    requires Placed(s, []) && NoDup(pids)
    ensures Placed(WakePids(s, pids), []) && WakePids(s, pids).ready == s.ready + Picked(pids, Sleepers(s))
    ensures Sleepers(WakePids(s, pids)) == Sleepers(s) - AsSet(pids)
  {
    hide Placed, Sleepers, NoDup, WakePid;
    if pids != [] {
      var n := |pids| - 1;
      LastApart(pids);
      WakePidsLaw(s, pids[..n]);
      WakePidLaw(WakePids(s, pids[..n]), pids[n]);
    }
  }

  lemma LastApart(pids: seq<nat>)
    requires NoDup(pids) && pids != []
    ensures var n := |pids| - 1; NoDup(pids[..n]) && pids[n] !in pids[..n] && AsSet(pids) == AsSet(pids[..n]) + {pids[n]}
  {
    var n := |pids| - 1;
    assert forall i :: 0 <= i < n ==> pids[..n][i] == pids[i];
    assert forall p :: p in pids <==> p in pids[..n] || p == pids[n];
  }

  lemma {:induction false} PickedTwice(list: seq<nat>, a: set<nat>, b: set<nat>)
    ensures Picked(Picked(list, a), b) == Picked(list, a * b)
  {
    if list != [] {
      var n := |list| - 1;
      PickedTwice(list[..n], a, b);
      var part := Picked(list[..n], a);
      assert (part + [list[n]])[..|part|] == part;
    }
  }

  lemma {:induction false} PickedOnce(list: seq<nat>, who: set<nat>)
    requires NoDup(list)
    ensures NoDup(Picked(list, who))
  {
    if list != [] {
      var n := |list| - 1;
      assert forall i :: 0 <= i < n ==> list[..n][i] == list[i];
      PickedOnce(list[..n], who);
      assert list[n] !in list[..n];
    }
  }

  /** Waking those of a snapshot that are in a set. */
  lemma PickedWoken(s: Sched, s1: Sched, birth: map<nat, nat>, who: set<nat>)
    requires Tree(s.tasks, birth) && Placed(s1, []) && Sleepers(s1) == Sleepers(s)
    ensures var woken := WakePids(s1, Picked(Snapshot(s.tasks), who));
            Placed(woken, []) && woken.ready == s1.ready + Picked(Snapshot(s.tasks), who * Sleepers(s))
  {
    hide Placed, Sleepers, Tree, Snapshot, WakePids;
    SnapshotOnce(s.tasks, birth);
    PickedOnce(Snapshot(s.tasks), who);
    WakePidsLaw(s1, Picked(Snapshot(s.tasks), who));
    PickedTwice(Snapshot(s.tasks), who, Sleepers(s));
  }

  /** A file event wakes the watchers that sleep, in the order of the snapshot. */
  lemma FileChangedQueue(m: Moment, m2: Moment, a: Answer, h: History, who: set<nat>)
    requires Invariant(m.s, h) && Stepped(m, FileChanged, m2, a)
    requires who == set p | p in m.s.tasks && m.s.tasks[p].status.Blocked? && m.s.tasks[p].ext.Some?
                            && m.s.tasks[p].ext.value.watched & 4 != 0
    ensures m2.s.ready == m.s.ready + Picked(Snapshot(m.s.tasks), who)
  {
    hide Tree, Placed, DeadlinesListed, WaitsOk, AllQuiet, ExpiredOk, WokenOnce, Quiet, WakePids, Picked, Snapshot;
    NotifyKeeps(m.s, h.birth, h.clock, h.expired);
    NotifySleepers(m.s);
    PickedWoken(m.s, m.s.(tasks := Notified(m.s.tasks)), h.birth, WatcherPids(m.s.tasks));
    assert WatcherPids(m.s.tasks) * Sleepers(m.s) == who;
  }

  lemma NotifySleepers(s: Sched)
    ensures Sleepers(s.(tasks := Notified(s.tasks))) == Sleepers(s)
  {
  }

  /** A message wakes its owner, if it sleeps, behind all that are ready. */
  lemma SendQueue(m: Moment, target: nat, payload: seq<byte>, m2: Moment, a: Answer, h: History)
    requires Invariant(m.s, h) && Stepped(m, Send(target, payload), m2, a) && a == Delivered(true)
    ensures m2.s.ready == m.s.ready + (if target in m.s.tasks && m.s.tasks[target].status.Blocked? then [target] else [])
    ensures m2.s.current == m.s.current
  {
    hide Tree, Placed, DeadlinesListed, WaitsOk, AllQuiet, ExpiredOk, WokenOnce, Quiet, WakePid;
    MailKeeps(m.s, h.birth, h.clock, target, payload, h.expired);
    WakePidLaw(m.s.(tasks := Mailed(m.s.tasks, target, payload)), target);
    assert m2.s.current == m.s.current by {
      CurrentAfterWake(m.s.(tasks := Mailed(m.s.tasks, target, payload)), target);
    }
  }

  lemma CurrentAfterWake(s: Sched, p: nat)
    ensures WakePid(s, p).current == s.current
  {
  }

  /**
   * The queue after a timer interrupt: those ready before, then the sleepers whose heartbeat is due, in the order of the
   * snapshot, then those whose deadline has come, then the task that was running.
   */
  lemma TimerQueue(m: Moment, toBeats: nat, toTimeouts: nat, m2: Moment, a: Answer, h: History) returns (late: seq<nat>)
    requires Invariant(m.s, h) && h.clock <= m.now && Stepped(m, TimerInterrupt(toBeats, toTimeouts), m2, a)
    ensures var (s, now1) := (m.s, m.now + toBeats);
            var due := set p | p in s.tasks && s.tasks[p].status.Blocked? && BeatDue(s.tasks[p], now1);
            && m2.s.ready == s.ready + Picked(Snapshot(s.tasks), due) + late + [s.current.value]
            && forall p :: p in late <==> p in s.tasks && s.tasks[p].status.Blocked? && p !in due && DeadlineReached(s.tasks[p], m2.now)
  {
    hide Tree, Placed, DeadlinesListed, WaitsOk, AllQuiet, ExpiredOk, WokenOnce, Quiet, WakePids, Picked, Snapshot, WakeTimeouts;
    hide Due, TickTcb, BeatDue, DeadlineReached, ExpiredPids;
    var s: Sched, now1: u63 := m.s, m.now + toBeats;
    var s1, s2 :|
      && Beaten(s, s1, now1) && WokenOnce(s1, s2, ExpiredPids(s1.blocked, m2.now)) && s2 == WakeTimeouts(s1, m2.now)
      && m2.s == Suspended(s2);
    hide Stepped;
    var due := set p | p in s.tasks && s.tasks[p].status.Blocked? && BeatDue(s.tasks[p], now1);
    BeatQueue(s, s1, h, now1, due);
    late := LateQueue(s, s1, s2, h, now1, m2.now, due);
    assert Suspended(s2).ready == s2.ready + [s.current.value];
  }

  lemma BeatQueue(s: Sched, s1: Sched, h: History, now1: u63, due: set<nat>)
    requires Invariant(s, h) && h.clock <= now1 && Beaten(s, s1, now1)
    requires due == set p | p in s.tasks && s.tasks[p].status.Blocked? && BeatDue(s.tasks[p], now1)
    ensures s1.ready == s.ready + Picked(Snapshot(s.tasks), due)
  {
    hide Tree, Placed, DeadlinesListed, WaitsOk, AllQuiet, ExpiredOk, WokenOnce, Quiet, WakePids, Picked, Snapshot, Due, TickTcb, BeatDue;
    TickKeeps(s, h.birth, h.clock, now1, h.expired);
    TickSleepers(s, now1);
    PickedWoken(s, s.(tasks := Ticked(s.tasks, now1)), h.birth, DuePids(s.tasks, now1));
    forall p | p in s.tasks
      ensures Due(s.tasks[p], now1) <==> BeatDue(s.tasks[p], now1)
    {
      DueMeans(s.tasks[p], now1);
    }
    assert DuePids(s.tasks, now1) * Sleepers(s) == due;
  }

  lemma TickSleepers(s: Sched, now: u64)
    ensures Sleepers(s.(tasks := Ticked(s.tasks, now))) == Sleepers(s)
  {
  }

  lemma LateQueue(s: Sched, s1: Sched, s2: Sched, h: History, now1: u63, now2: u63, due: set<nat>) returns (late: seq<nat>)
    requires Invariant(s, h) && h.clock <= now1 <= now2
    requires WokenOnce(s.(tasks := Ticked(s.tasks, now1)), s1, DuePids(s.tasks, now1)) && WokenOnce(s1, s2, ExpiredPids(s1.blocked, now2))
    requires due == set p | p in s.tasks && s.tasks[p].status.Blocked? && BeatDue(s.tasks[p], now1)
    ensures s2.ready == s1.ready + late && s2.current == s.current
    ensures forall p :: p in late <==> p in s.tasks && s.tasks[p].status.Blocked? && p !in due && DeadlineReached(s.tasks[p], now2)
  {
    hide Tree, DeadlinesListed, WaitsOk, AllQuiet, ExpiredOk, Due, TickTcb, BeatDue, DeadlineReached, ExpiredPids, NoDup, Placed;
    late := s2.ready[|s1.ready|..];
    forall p | p in s.tasks
      ensures Due(s.tasks[p], now1) <==> BeatDue(s.tasks[p], now1)
      ensures TickTcb(s.tasks[p], now1).status == s.tasks[p].status
    {
      DueMeans(s.tasks[p], now1);
    }
    assert forall p :: p in DuePids(s.tasks, now1) && s.tasks[p].status.Blocked? <==> p in due;
    forall p | p in s.tasks && s.tasks[p].status.Blocked?
      ensures p in ExpiredPids(s.blocked, now2) <==> DeadlineReached(s.tasks[p], now2)
    {
      ExpiredMeans(s, p, h.clock, now2);
    }
    ExpiredRest(s, s1, now1, now2);
  }

  lemma ExpiredRest(s: Sched, s1: Sched, now1: u64, now2: u64)
    requires Woken(s.(tasks := Ticked(s.tasks, now1)), s1, DuePids(s.tasks, now1))
    ensures ExpiredPids(s1.blocked, now2) == ExpiredPids(s.blocked, now2) - DuePids(s.tasks, now1)
  {
    hide Expired, DuePids;
  }

  // ---------- the order of the snapshot

  lemma SnapshotOnce(tasks: map<nat, Tcb>, birth: map<nat, nat>)
    requires Tree(tasks, birth)
    ensures NoDup(Snapshot(tasks)) && forall p :: p in Snapshot(tasks) <==> p in tasks
  {
    hide Tree, Walking, Walk;
    WalkStart(tasks, birth);
    assert [] + [INITPROC] == [INITPROC];
    WalkOnce(tasks, birth, [], [INITPROC]);
  }

  lemma {:induction false} WalkOnce(tasks: map<nat, Tcb>, birth: map<nat, nat>, out: seq<nat>, queue: seq<nat>)
    requires Tree(tasks, birth) && Walking(tasks, out, out + queue)
    ensures NoDup(Walk(tasks, out, queue)) && forall p :: p in Walk(tasks, out, queue) <==> p in tasks
    decreases |tasks| - |out|
  {
    hide Tree, Walking;
    if queue == [] {
      assert out + queue == out;
      WalkedAll(tasks, birth, out);
    } else {
      WalkNext(tasks, birth, out, queue);
      WalkOnce(tasks, birth, out + [queue[0]], queue[1..] + tasks[queue[0]].children);
    }
  }

  /** The children of each task of a list, one after the other. */
  ghost function KidsOf(tasks: map<nat, Tcb>, list: seq<nat>): seq<nat> {
    if list == [] then []
    else
      var last := list[|list| - 1];
      KidsOf(tasks, list[..|list| - 1]) + if last in tasks then tasks[last].children else []
  }

  lemma KidsOfSnoc(tasks: map<nat, Tcb>, list: seq<nat>, p: nat)
    requires p in tasks
    ensures KidsOf(tasks, list + [p]) == KidsOf(tasks, list) + tasks[p].children
  {
    assert (list + [p])[..|list|] == list;
  }

  /** Breadth first: INITPROC, then the children of each task listed, in the order of the list. */
  lemma SnapshotLaw(tasks: map<nat, Tcb>, birth: map<nat, nat>)
    requires Tree(tasks, birth)
    ensures Snapshot(tasks) == [INITPROC] + KidsOf(tasks, Snapshot(tasks))
  {
    hide Tree, Walking, Walk;
    WalkStart(tasks, birth);
    assert [] + [INITPROC] == [INITPROC] && [INITPROC] + KidsOf(tasks, []) == [INITPROC];
    WalkLaw(tasks, birth, [], [INITPROC]);
  }

  lemma {:induction false} WalkLaw(tasks: map<nat, Tcb>, birth: map<nat, nat>, out: seq<nat>, queue: seq<nat>)
    requires Tree(tasks, birth) && Walking(tasks, out, out + queue) && out + queue == [INITPROC] + KidsOf(tasks, out)
    ensures Walk(tasks, out, queue) == [INITPROC] + KidsOf(tasks, Walk(tasks, out, queue))
    decreases |tasks| - |out|
  {
    hide Tree, Walking;
    if queue == [] {
      assert out + queue == out;
    } else {
      WalkNext(tasks, birth, out, queue);
      var out2, queue2 := out + [queue[0]], queue[1..] + tasks[queue[0]].children;
      KidsOfSnoc(tasks, out, queue[0]);
      assert out2 + queue2 == out + queue + tasks[queue[0]].children;
      assert [INITPROC] + KidsOf(tasks, out2) == [INITPROC] + KidsOf(tasks, out) + tasks[queue[0]].children;
      WalkLaw(tasks, birth, out2, queue2);
    }
  }
}
