/** The kernel as a transition system: what may happen, what each event does, and what every run keeps. */
module KernelSpec {
  import opened Bytes
  import opened Collections
  import opened Tasks
  import opened Scheduling
  import opened KernelSteps

  /** What may happen next. Clock readings are given as the milliseconds that passed before each. */
  datatype Event =
    | Idle
    | Yield
    | ExitWith(exitCode: int)
    | ForkAs(child: nat)
    | Reap(pid: int)
    | Prioritize(priority: nat)
    | BecomeAgent
    | Exec(area: bool)
    | Watch(mask: bv32)
    | Unwatch(mask: bv32)
    | Heartbeat(interval: u64)
    | StopHeartbeat
    | Receive(buf: nat, bufLen: nat)
    | WaitFor(timeout: i64, toStart: nat, toDeadline: nat, toRound: nat)
    | Continue(toRound: nat)
    | Send(target: nat, payload: seq<byte>)
    | FileChanged
    | TimerInterrupt(toBeats: nat, toTimeouts: nat)

  /** What a step returns to the running task, unless the kernel panics. */
  datatype Answer =
    | Silent
    | Panicked
    | Code(r: int)
    | Reaping(result: int, exitCode: int)
    | Message(r: int, bytes: seq<byte>)
    | Waiting(outcome: WaitResult)
    | Delivered(delivered: bool)

  /** The scheduler's state at some time, and whether the machine still runs. */
  datatype Moment = Moment(s: Sched, now: nat, on: bool)

  function Elapsed(e: Event): nat {
    match e
    case WaitFor(_, a, b, c) => a + b + c
    case Continue(a) => a
    case TimerInterrupt(a, b) => a + b
    case _ => 0
  }

  /**
   * Whether the kernel can take the event: the idle loop runs when no task does, and then nothing else can
   * happen; a task inside a wait can only go on with it; the clock does not run out.
   */
  predicate Possible(m: Moment, e: Event) {
    && m.on && m.now + Elapsed(e) < 0x8000_0000_0000_0000
    && match e
       case Idle => m.s.current.None?
       case Continue(_) => OwnWait(m.s).Some?
       case ForkAs(child) => m.s.current.Some? && OwnWait(m.s).None? && child !in m.s.tasks
       case _ => m.s.current.Some? && OwnWait(m.s).None?
  }

  /** The tasks referred to exist. */
  ghost predicate Closed(s: Sched) {
    && INITPROC in s.tasks && (s.current.Some? ==> s.current.value in s.tasks)
    && forall p :: p in s.ready ==> p in s.tasks
  }

  /** What one event does to the state, and what it answers. */
  ghost predicate Effect(s: Sched, now: nat, e: Event, s2: Sched, a: Answer)
    requires Closed(s) && Possible(Moment(s, now, true), e)
  {
    match e
    case Idle => a == Silent && DispatchDone(s, s2)
    case Yield => a == Silent && s2 == Suspended(s)
    case ExitWith(exitCode) =>
      a == Silent && s2 == if s.current.value == INITPROC then s else ExitedSched(s, exitCode)
    case ForkAs(child) => a == Silent && s2 == ForkedSched(s, s.current.value, child)
    case Reap(pid) => a.Reaping? && WaitedPid(s, s2, s.current.value, pid, a.result, a.exitCode)
    case Prioritize(n) =>
      var p := if n <= MAX_PRIORITY then n else MAX_PRIORITY;
      a == Code(p) && s2 == WithOwnPriority(s, p)
    case BecomeAgent =>
      if AreaInTheWay(s) then a == Panicked && s2 == s
      else a == Silent && s2 == if OwnExt(s).None? then AgentMade(s) else s
    case Exec(area) => a == Silent && s2 == WithOwnArea(s, area)
    case Watch(mask) => OwnExtDone(s, s2, a, (x: AgentExt) => x.(watched := x.watched | mask))
    case Unwatch(mask) => OwnExtDone(s, s2, a, (x: AgentExt) => x.(watched := x.watched & !mask))
    case Heartbeat(n) => OwnExtDone(s, s2, a, (x: AgentExt) => x.(interval := n, lastBeat := now, heartbeatPending := false))
    case StopHeartbeat => OwnExtDone(s, s2, a, (x: AgentExt) => x.(interval := 0, heartbeatPending := false))
    case Receive(buf, bufLen) => a.Message? && Received(s, s2, buf, bufLen, a.r, a.bytes)
    case WaitFor(timeout, toStart, toDeadline, toRound) =>
      var at := now + toStart + toDeadline;
      var s1 := WithOwnWait(s, Some(Wait(now + toStart, at, timeout, DeadlineOf(at, timeout))));
      if OwnExt(s).None? then a == Waiting(NotAgent) && s2 == s
      else RoundDone(s1, at + toRound, s2, a)
    case Continue(toRound) => RoundDone(s, now + toRound, s2, a)
    case Send(target, payload) =>
      if target in s.tasks && s.tasks[target].ext.Some?
      then a == Delivered(true) && Sent(s, s2, target, payload)
      else a == Delivered(false) && s2 == s
    case FileChanged => a == Silent && Broadcast(s, s2)
    case TimerInterrupt(toBeats, _) => a == Silent && TimerDone(s, s2, now + toBeats, now + Elapsed(e))
  }

  /** With a ready task, the first of the highest priority runs. */
  ghost predicate DispatchDone(s: Sched, s2: Sched)
    requires Closed(s)
  {
    if s.ready == [] then s2 == s
    else exists i: nat :: i < |s.ready| && IsBest(s.tasks, s.ready, i) && s2 == Dispatched(s, i)
  }

  function ExitedSched(s: Sched, exitCode: int): Sched
    requires INITPROC in s.tasks && s.current.Some? && s.current.value in s.tasks
  {
    Sched(Exited(s.tasks, s.current.value, exitCode), None, s.ready, s.blocked)
  }

  /** An agent changes its own event state; -4 for a task that is no agent. */
  ghost predicate OwnExtDone(s: Sched, s2: Sched, a: Answer, change: AgentExt -> AgentExt) {
    match OwnExt(s)
    case None => a == Code(-4) && s2 == s
    case Some(x) => a == Code(0) && s2 == WithOwnExt(s, change(x))
  }

  /** A plain process asks to become an agent, and something is mapped where the context area goes. */
  predicate AreaInTheWay(s: Sched) {
    OwnExt(s).None? && OwnArea(s)
  }

  /** A message has been put into the mailbox, and its owner woken. */
  ghost predicate Sent(s: Sched, s2: Sched, target: nat, payload: seq<byte>)
    requires target in s.tasks && s.tasks[target].ext.Some?
  {
    var s1 := s.(tasks := Mailed(s.tasks, target, payload));
    s2 == WakePid(s1, target) && WokenOnce(s1, s2, {target})
  }

  /** All that watch files have been told of a change, and woken in the order of the snapshot. */
  ghost predicate Broadcast(s: Sched, s2: Sched) {
    var s1, who := s.(tasks := Notified(s.tasks)), WatcherPids(s.tasks);
    s2 == WakePids(s1, Picked(Snapshot(s.tasks), who)) && WokenOnce(s1, s2, who)
  }

  ghost predicate RoundDone(s: Sched, now: u63, s2: Sched, a: Answer) {
    a == Waiting(RoundResult(s, now)) && s2 == AfterRound(s, now)
  }

  ghost predicate Stepped(m: Moment, e: Event, m2: Moment, a: Answer) {
    && Possible(m, e) && Closed(m.s) && Effect(m.s, m.now, e, m2.s, a)
    && m2.now == m.now + Elapsed(e) && m2.on == !Halts(m, e)
  }

  /** The machine stops: INITPROC exits, or mapping a context area panics. */
  predicate Halts(m: Moment, e: Event) {
    (e.ExitWith? && m.s.current == Some(INITPROC)) || (e.BecomeAgent? && AreaInTheWay(m.s))
  }

  /** A run: from the start, every event that the kernel can take is taken, and the others change nothing. */
  ghost predicate IsRun(events: seq<Event>, run: seq<Moment>, answers: seq<Answer>) {
    && |run| == |events| + 1 && |answers| == |events| && run[0] == Moment(Booted(), 0, true)
    && forall i :: 0 <= i < |events| ==> Taken(run[i], events[i], run[i + 1], answers[i])
  }

  ghost predicate Taken(m: Moment, e: Event, m2: Moment, a: Answer) {
    if Possible(m, e) then Stepped(m, e, m2, a) else m2 == m
  }

  // ---------- the invariant

  /** Creation order of the tasks, the time so far, and the agents woken by a timeout that have not run since. */
  datatype History = History(birth: map<nat, nat>, births: nat, clock: nat, expired: set<nat>)

  ghost predicate Invariant(s: Sched, h: History) {
    && Tree(s.tasks, h.birth) && Placed(s, [])
    && DeadlinesListed(s) && WaitsOk(s.tasks, h.clock) && AllQuiet(s.tasks)
    && (forall p :: p in s.tasks && p in h.birth ==> h.birth[p] < h.births)
    && ExpiredOk(s.tasks, h.expired, h.clock)
  }

  lemma BootedInvariant()
    ensures Invariant(Booted(), History(map[INITPROC := 0], 1, 0, {}))
  {
  }

  // ---------- every step keeps it

  lemma DispatchStep(s: Sched, s2: Sched, h: History)
    requires Invariant(s, h) && s.current.None? && Closed(s) && DispatchDone(s, s2)
    ensures Invariant(s2, h)
  {
    hide Tree, Placed, DeadlinesListed, WaitsOk, AllQuiet, ExpiredOk, IsBest;
    if s.ready != [] {
      var i: nat :| i < |s.ready| && IsBest(s.tasks, s.ready, i) && s2 == Dispatched(s, i);
      DispatchKeeps(s, i, h.birth, h.clock);
      ExpiredKept(s.tasks, s2.tasks, h.expired, h.clock);
    }
  }

  lemma SuspendStep(s: Sched, h: History)
    requires Invariant(s, h) && s.current.Some?
    ensures Invariant(Suspended(s), h)
  {
    InPlace(s);
    hide Tree, Placed, DeadlinesListed, WaitsOk, AllQuiet, ExpiredOk;
    SuspendKeeps(s, h.birth, h.clock);
    ExpiredKept(s.tasks, Suspended(s).tasks, h.expired, h.clock);
  }

  lemma ExitStep(s: Sched, h: History, exitCode: int)
    requires Invariant(s, h) && Closed(s) && s.current.Some? && s.current.value != INITPROC
    requires s.tasks[s.current.value].wait.None?
    ensures Invariant(ExitedSched(s, exitCode), h.(expired := h.expired - {s.current.value}))
  {
    hide Tree, Placed, DeadlinesListed, WaitsOk, AllQuiet, ExpiredOk;
    ExitKeeps(s, h.birth, h.clock, exitCode);
    FewerExpired(s.tasks, h.expired, s.current.value, h.clock);
    ExpiredKept(s.tasks, ExitedSched(s, exitCode).tasks, h.expired - {s.current.value}, h.clock);
  }

  lemma ForkStep(s: Sched, h: History, child: nat)
    requires Invariant(s, h) && Closed(s) && s.current.Some? && child !in s.tasks
    ensures Invariant(ForkedSched(s, s.current.value, child), h.(birth := h.birth[child := h.births], births := h.births + 1))
  {
    hide Tree, Placed, DeadlinesListed, WaitsOk, AllQuiet, ExpiredOk;
    ForkKeeps(s, h.birth, h.clock, child, h.births);
    ForkExpired(s.tasks, h.expired, h.clock, s.current.value, child);
  }

  lemma ReapStep(s: Sched, s2: Sched, h: History, pid: int, result: int, exitCode: int)
    requires Invariant(s, h) && Closed(s) && s.current.Some?
    requires WaitedPid(s, s2, s.current.value, pid, result, exitCode)
    ensures Invariant(s2, h)
  {
    hide Tree, Placed, DeadlinesListed, WaitsOk, AllQuiet, ExpiredOk, Holders;
    if result >= 0 {
      var p := s.current.value;
      var idx: nat :| FirstZombie(s.tasks, s.tasks[p].children, pid, idx) && ReapedAt(s, s2, p, idx, result, exitCode);
      NotOwnChild(s.tasks, h.birth, p, idx);
      ReapKeeps(s, h.birth, h.clock, p, idx);
      ReapExpired(s.tasks, h.expired, h.clock, p, idx);
    }
  }

  /** The running task, which is in no wait, changes its event state, priority or address space. */
  lemma OwnStep(s: Sched, h: History, t: Tcb)
    requires Invariant(s, h) && Closed(s) && s.current.Some? && OwnWait(s).None?
    requires t == s.tasks[s.current.value].(ext := t.ext, priority := t.priority, area := t.area)
    ensures Invariant(s.(tasks := s.tasks[s.current.value := t]), h)
  {
    hide Tree, Placed, DeadlinesListed, WaitsOk, AllQuiet, ExpiredOk;
    RunningChanged(s, t, h.birth, h.clock);
    ExpiredKept(s.tasks, s.tasks[s.current.value := t], h.expired, h.clock);
  }

  lemma WaitStep(s: Sched, h: History, w: Wait)
    requires Invariant(s, h) && Closed(s) && OwnExt(s).Some? && OwnWait(s).None?
    requires h.clock <= w.start <= w.at && w.deadline == DeadlineOf(w.at, w.timeout)
    ensures Invariant(WithOwnWait(s, Some(w)), h.(clock := w.at))
  {
    hide Tree, Placed, DeadlinesListed, WaitsOk, AllQuiet, ExpiredOk, DeadlineOf;
    var p := s.current.value;
    var t := s.tasks[p].(wait := Some(w));
    InPlace(s);
    LaterWaits(s.tasks, h.clock, w.at, h.expired);
    RunningChanged(s, t, h.birth, w.at);
    NotWaitingNotExpired(s.tasks, p, h.expired, w.at);
    ExpiredKept(s.tasks, s.tasks[p := t], h.expired, w.at);
  }

  lemma RoundStep(s: Sched, h: History, now: u63)
    requires Invariant(s, h) && Closed(s) && OwnWait(s).Some? && h.clock <= now
    ensures OwnExt(s).Some?
    ensures Invariant(AfterRound(s, now), h.(clock := now, expired := h.expired - {s.current.value}))
  {
    hide Tree, Placed, DeadlinesListed, WaitsOk, AllQuiet, ExpiredOk, Triggered;
    var p, s2 := s.current.value, AfterRound(s, now);
    InPlace(s);
    WaitOkAt(s.tasks, p, h.clock);
    LaterWaits(s.tasks, h.clock, now, h.expired);
    FewerExpired(s.tasks, h.expired, p, now);
    var e, w := s.tasks[p].ext.value, s.tasks[p].wait.value;
    if Triggered(e) != 0 || TimedOut(w, now) {
      var t := s.tasks[p].(ext := Some(Consumed(e)), wait := None);
      RunningChanged(s, t, h.birth, now);
      assert s2.tasks == s.tasks[p := t];
    } else {
      BlockKeeps(s, h.birth, now);
    }
    ExpiredKept(s.tasks, s2.tasks, h.expired - {p}, now);
  }

  lemma WokenStep(s1: Sched, s2: Sched, h: History, who: set<nat>)
    requires Tree(s1.tasks, h.birth) && Placed(s1, []) && DeadlinesListed(s1) && WaitsOk(s1.tasks, h.clock)
    requires forall p :: p in s1.tasks && p in h.birth ==> h.birth[p] < h.births
    requires ExpiredOk(s1.tasks, h.expired, h.clock)
    requires forall p :: p in s1.tasks && p !in who ==> Quiet(s1.tasks[p])
    requires WokenOnce(s1, s2, who)
    ensures Invariant(s2, h)
  {
    WokenPlaced(s1, s2, who);
    hide Tree, Placed, DeadlinesListed, WaitsOk, AllQuiet, ExpiredOk, Woken, Quiet;
    WokenKeeps(s1, s2, who, h.birth, h.clock);
    WokenExpired(s1, s2, who, h.expired, h.clock);
  }

  lemma SendStep(s: Sched, s2: Sched, h: History, target: nat, payload: seq<byte>)
    requires Invariant(s, h) && target in s.tasks && s.tasks[target].ext.Some?
    requires Sent(s, s2, target, payload)
    ensures Invariant(s2, h)
  {
    hide Tree, Placed, DeadlinesListed, WaitsOk, AllQuiet, ExpiredOk, WokenOnce, Quiet;
    MailKeeps(s, h.birth, h.clock, target, payload, h.expired);
    WokenStep(s.(tasks := Mailed(s.tasks, target, payload)), s2, h, {target});
  }

  lemma NotifyStep(s: Sched, s2: Sched, h: History)
    requires Invariant(s, h) && Broadcast(s, s2)
    ensures Invariant(s2, h)
  {
    hide Tree, Placed, DeadlinesListed, WaitsOk, AllQuiet, ExpiredOk, WokenOnce, Quiet;
    NotifyKeeps(s, h.birth, h.clock, h.expired);
    WokenStep(s.(tasks := Notified(s.tasks)), s2, h, WatcherPids(s.tasks));
  }

  lemma BeatStep(s: Sched, s1: Sched, h: History, now: u63)
    requires Invariant(s, h) && h.clock <= now && WokenOnce(s.(tasks := Ticked(s.tasks, now)), s1, DuePids(s.tasks, now))
    ensures Invariant(s1, h.(clock := now)) && s1.current == s.current
  {
    assert s1.current == s.current;
    hide Tree, Placed, DeadlinesListed, WaitsOk, AllQuiet, ExpiredOk, WokenOnce, Quiet;
    TickKeeps(s, h.birth, h.clock, now, h.expired);
    WokenStep(s.(tasks := Ticked(s.tasks, now)), s1, h.(clock := now), DuePids(s.tasks, now));
  }

  lemma TimeoutStep(s: Sched, s2: Sched, h: History, now: u63)
    requires Invariant(s, h) && h.clock <= now && WokenOnce(s, s2, ExpiredPids(s.blocked, now))
    ensures Invariant(s2, h.(clock := now, expired := h.expired + ExpiredPids(s.blocked, now)))
    ensures s2.current == s.current
  {
    WokenPlaced(s, s2, ExpiredPids(s.blocked, now));
    hide Tree, Placed, DeadlinesListed, WaitsOk, AllQuiet, ExpiredOk, Woken, Quiet;
    TimeoutKeeps(s, s2, h.clock, now, h.birth, h.expired);
  }

  lemma TimerStep(s: Sched, s3: Sched, h: History, now1: u63, now2: u63) returns (h2: History)
    requires Invariant(s, h) && s.current.Some? && h.clock <= now1 <= now2 && TimerDone(s, s3, now1, now2)
    ensures Invariant(s3, h2) && h2.clock == now2
  {
    hide Invariant, TimerDone, WokenOnce;
    var s1, s2 := TimerRounds(s, s3, now1, now2);
    BeatStep(s, s1, h, now1);
    TimeoutStep(s1, s2, h.(clock := now1), now2);
    h2 := h.(clock := now2, expired := h.expired + ExpiredPids(s1.blocked, now2));
    SuspendStep(s2, h2);
  }

  /** The calls by which a task changes its own event state, priority or address space. */
  predicate OwnCall(e: Event) {
    e.Prioritize? || e.BecomeAgent? || e.Exec? || e.Watch? || e.Unwatch? || e.Heartbeat? || e.StopHeartbeat? || e.Receive?
  }

  lemma OwnCallStep(m: Moment, e: Event, m2: Moment, a: Answer, h: History)
    requires Invariant(m.s, h) && Stepped(m, e, m2, a) && OwnCall(e)
    ensures Invariant(m2.s, h)
  {
    hide Invariant;
    if e.Prioritize? || e.Exec? || e.BecomeAgent? {
      OwnTaskStep(m, e, m2, a, h);
    } else {
      OwnExtStep(m.s, m2.s, h);
    }
  }

  lemma OwnTaskStep(m: Moment, e: Event, m2: Moment, a: Answer, h: History)
    requires Invariant(m.s, h) && Stepped(m, e, m2, a) && (e.Prioritize? || e.Exec? || e.BecomeAgent?)
    ensures Invariant(m2.s, h)
  {
    hide Invariant;
    var p := m.s.current.value;
    assert m2.s == m.s || m2.s.tasks == m.s.tasks[p := m2.s.tasks[p]];
    if m2.s != m.s {
      OwnStep(m.s, h, m2.s.tasks[p]);
    }
  }

  lemma ProcessStep(m: Moment, e: Event, m2: Moment, a: Answer, h: History) returns (h2: History)
    requires Invariant(m.s, h) && h.clock <= m.now && Stepped(m, e, m2, a)
    requires e.Idle? || e.Yield? || e.ExitWith? || e.ForkAs? || e.Reap?
    ensures Invariant(m2.s, h2) && h2.clock <= m2.now
  {
    hide Invariant, DispatchDone, WaitedPid;
    h2 := h;
    var s, s2 := m.s, m2.s;
    match e
    case Idle => DispatchStep(s, s2, h);
    case Yield => SuspendStep(s, h);
    case ExitWith(exitCode) =>
      if s.current.value != INITPROC {
        ExitStep(s, h, exitCode);
        h2 := h.(expired := h.expired - {s.current.value});
      }
    case ForkAs(child) =>
      ForkStep(s, h, child);
      h2 := h.(birth := h.birth[child := h.births], births := h.births + 1);
    case Reap(pid) => ReapStep(s, s2, h, pid, a.result, a.exitCode);
  }

  lemma WaitingStep(m: Moment, e: Event, m2: Moment, a: Answer, h: History) returns (h2: History)
    requires Invariant(m.s, h) && h.clock <= m.now && Stepped(m, e, m2, a) && (e.WaitFor? || e.Continue?)
    ensures Invariant(m2.s, h2) && h2.clock <= m2.now
  {
    hide Invariant, RoundResult, AfterRound, DeadlineOf;
    h2 := h;
    var s := m.s;
    match e
    case WaitFor(timeout, toStart, toDeadline, toRound) =>
      if OwnExt(s).Some? {
        var at := m.now + toStart + toDeadline;
        var w := Wait(m.now + toStart, at, timeout, DeadlineOf(at, timeout));
        WaitStep(s, h, w);
        RoundStep(WithOwnWait(s, Some(w)), h.(clock := at), at + toRound);
        h2 := h.(clock := at + toRound, expired := h.expired - {s.current.value});
      }
    case Continue(toRound) =>
      RoundStep(s, h, m2.now);
      h2 := h.(clock := m2.now, expired := h.expired - {s.current.value});
  }

  lemma SignalStep(m: Moment, e: Event, m2: Moment, a: Answer, h: History) returns (h2: History)
    requires Invariant(m.s, h) && h.clock <= m.now && Stepped(m, e, m2, a) && (e.Send? || e.FileChanged? || e.TimerInterrupt?)
    ensures Invariant(m2.s, h2) && h2.clock <= m2.now
  {
    hide Invariant, Sent, Broadcast, TimerDone;
    h2 := h;
    match e
    case Send(target, payload) =>
      if a.delivered {
        SendStep(m.s, m2.s, h, target, payload);
      }
    case FileChanged => NotifyStep(m.s, m2.s, h);
    case TimerInterrupt(toBeats, toTimeouts) =>
      h2 := TimerStep(m.s, m2.s, h, m.now + toBeats, m2.now);
  }

  /** Every event the kernel takes keeps the invariant. */
  lemma StepKeeps(m: Moment, e: Event, m2: Moment, a: Answer, h: History) returns (h2: History)
    requires Invariant(m.s, h) && h.clock <= m.now && Stepped(m, e, m2, a)
    ensures Invariant(m2.s, h2) && h2.clock <= m2.now
  {
    assert m.now <= m2.now by {
      hide Effect, Invariant;
    }
    hide Invariant, Stepped;
    if OwnCall(e) {
      OwnCallStep(m, e, m2, a, h);
      h2 := h;
    } else if e.WaitFor? || e.Continue? {
      h2 := WaitingStep(m, e, m2, a, h);
    } else if e.Send? || e.FileChanged? || e.TimerInterrupt? {
      h2 := SignalStep(m, e, m2, a, h);
    } else {
      h2 := ProcessStep(m, e, m2, a, h);
    }
  }

  lemma OwnExtStep(s: Sched, s2: Sched, h: History)
    requires Invariant(s, h) && Closed(s) && s.current.Some? && OwnWait(s).None?
    requires s2 == s || exists x :: s2 == WithOwnExt(s, x)
    ensures Invariant(s2, h)
  {
    if s2 != s {
      var x :| s2 == WithOwnExt(s, x);
      OwnStep(s, h, s2.tasks[s.current.value]);
    }
  }

  // ---------- runs

  /** What every reachable state satisfies. */
  ghost predicate Safe(s: Sched) {
    && (forall p :: p in s.tasks && s.tasks[p].status.Zombie? ==> PlacesOf(s, p) == {})
    && (forall p :: p in s.tasks && !s.tasks[p].status.Zombie? ==> exists h :: PlacesOf(s, p) == {h})
    && (exists birth :: Tree(s.tasks, birth) && forall p :: p in s.tasks ==> Below(s.tasks, birth, INITPROC, p))
    && (forall p :: p in s.tasks && s.tasks[p].status.Blocked? ==>
          s.tasks[p].ext.Some? && s.tasks[p].wait.Some? && Triggered(s.tasks[p].ext.value) == 0)
  }

  lemma InvariantIsSafe(s: Sched, h: History)
    requires Invariant(s, h)
    ensures Safe(s)
  {
    hide Tree, Placed, PlacesOf, Triggered;
    forall p | p in s.tasks
      ensures if s.tasks[p].status.Zombie? then PlacesOf(s, p) == {} else exists h :: PlacesOf(s, p) == {h}
    {
      OnePlace(s, p);
    }
    forall p | p in s.tasks
      ensures Below(s.tasks, h.birth, INITPROC, p)
    {
      AllBelowInitproc(s.tasks, h.birth, p);
    }
    assert forall p :: p in s.tasks ==> Quiet(s.tasks[p]);
  }

  lemma {:induction false} RunKeeps(events: seq<Event>, run: seq<Moment>, answers: seq<Answer>, i: nat) returns (h: History)
    requires IsRun(events, run, answers) && i < |run|
    ensures Invariant(run[i].s, h) && h.clock <= run[i].now
  {
    hide Invariant, Stepped, Possible;
    if i == 0 {
      BootedInvariant();
      h := History(map[INITPROC := 0], 1, 0, {});
    } else {
      h := RunKeeps(events, run, answers, i - 1);
      assert Taken(run[i - 1], events[i - 1], run[i], answers[i - 1]);
      if Possible(run[i - 1], events[i - 1]) {
        h := StepKeeps(run[i - 1], events[i - 1], run[i], answers[i - 1], h);
      }
    }
  }

  /** Every moment of every run is safe. */
  lemma RunIsSafe(events: seq<Event>, run: seq<Moment>, answers: seq<Answer>, i: nat)
    requires IsRun(events, run, answers) && i < |run|
    ensures Safe(run[i].s)
  {
    hide Invariant, Safe, IsRun;
    var h := RunKeeps(events, run, answers, i);
    InvariantIsSafe(run[i].s, h);
  }
}
