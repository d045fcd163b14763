/** Which runs go on: when the kernel is stuck, and who gets the processor. */
module KernelProgress {
  import opened Bytes
  import opened Collections
  import opened Tasks
  import opened Scheduling
  import opened KernelSteps
  import opened KernelSpec

  // ---------- a stuck kernel

  /** No task runs and none is ready. */
  predicate Stuck(s: Sched) {
    s.current.None? && s.ready == []
  }

  lemma StuckMeans(s: Sched, h: History)
    requires Invariant(s, h)
    ensures Stuck(s) <==> forall p :: p in s.tasks ==> s.tasks[p].status.Blocked? || s.tasks[p].status.Zombie?
  {
    hide Tree, NoDup, DeadlinesListed, WaitsOk, AllQuiet, ExpiredOk, Pids;
    assert s.ready != [] ==> s.ready[0] in s.ready;
  }

  /** A stuck kernel stays as it is: the idle loop takes no interrupts, so no heartbeat or timeout wakes anybody. */
  lemma {:induction false} StuckStays(events: seq<Event>, run: seq<Moment>, answers: seq<Answer>, i: nat, j: nat)
    requires IsRun(events, run, answers) && i <= j < |run| && Stuck(run[i].s)
    ensures run[j].s == run[i].s
  {
    if i < j {
      StuckStays(events, run, answers, i, j - 1);
      assert Taken(run[j - 1], events[j - 1], run[j], answers[j - 1]);
    }
  }

  /** The running task gives up the processor without becoming ready: it exits, or its wait puts it to sleep. */
  predicate GivesUp(m: Moment, e: Event) {
    match e
    case ExitWith(_) => m.s.current != Some(INITPROC)
    case WaitFor(timeout, _, b, c) => OwnExt(m.s).Some? && Triggered(OwnExt(m.s).value) == 0 && (timeout < 0 || b + c < timeout)
    case Continue(toRound) =>
      && OwnExt(m.s).Some? && Triggered(OwnExt(m.s).value) == 0 && OwnWait(m.s).Some?
      && var w := OwnWait(m.s).value; (w.timeout < 0 || m.now + toRound - w.start < w.timeout)
    case _ => false
  }

  lemma WaitSticks(m: Moment, e: Event, m2: Moment, a: Answer)
    requires Stepped(m, e, m2, a) && (e.WaitFor? || e.Continue?)
    ensures Stuck(m2.s) <==> m.s.ready == [] && GivesUp(m, e)
  {
    hide Triggered, DeadlineOf, Consumed;
  }

  lemma SignalLeavesReady(m: Moment, e: Event, m2: Moment, a: Answer)
    requires Stepped(m, e, m2, a) && (e.Send? || e.FileChanged? || e.TimerInterrupt?)
    ensures !Stuck(m2.s)
  {
    hide Mailed, Notified, WatcherPids, Due, ExpiredPids;
    if e.TimerInterrupt? {
      hide WokenOnce, Beaten;
      assert m2.s.ready != [];
    }
  }

  /** A step gets the kernel stuck exactly when the running task gives up the processor with no other ready. */
  lemma GetsStuck(m: Moment, e: Event, m2: Moment, a: Answer)
    requires Stepped(m, e, m2, a) && !Stuck(m.s)
    ensures Stuck(m2.s) <==> m.s.ready == [] && GivesUp(m, e)
  {
    hide WaitedPid, IsBest, Exited, TimerDone, WokenOnce, RoundResult, AfterRound, Received;
    match e
    case Send(_, _) => SignalLeavesReady(m, e, m2, a);
    case FileChanged => SignalLeavesReady(m, e, m2, a);
    case TimerInterrupt(_, _) => SignalLeavesReady(m, e, m2, a);
    case WaitFor(_, _, _, _) => WaitSticks(m, e, m2, a);
    case Continue(_) => WaitSticks(m, e, m2, a);
    case Receive(_, _) => OwnCallRuns(m, e, m2, a);
    case Idle => assert m2.s.current.Some?;
    case Reap(pid) => ReapStays(m.s, m2.s, m.s.current.value, pid, a.result, a.exitCode);
    case _ =>
  }

  lemma OwnCallRuns(m: Moment, e: Event, m2: Moment, a: Answer)
    requires Stepped(m, e, m2, a) && OwnCall(e)
    ensures m2.s.current == m.s.current && m2.s.ready == m.s.ready
  {
  }

  /** INITPROC is ready or running, and in no wait. */
  predicate InitprocAwake(s: Sched) {
    && INITPROC in s.tasks && s.tasks[INITPROC].wait.None?
    && (s.tasks[INITPROC].status.Ready? || s.tasks[INITPROC].status.Running?)
  }

  /** Reaping removes a zombie and touches the parent's list of children only. */
  lemma ReapStays(s: Sched, s2: Sched, p: nat, pid: int, result: int, exitCode: int)
    requires p in s.tasks && WaitedPid(s, s2, p, pid, result, exitCode)
    ensures s2.current == s.current && s2.ready == s.ready
    ensures forall q :: q in s.tasks && !s.tasks[q].status.Zombie? && q in s2.tasks ==>
              s2.tasks[q].status == s.tasks[q].status && s2.tasks[q].wait == s.tasks[q].wait
    ensures forall q :: q in s.tasks && !s.tasks[q].status.Zombie? ==> q in s2.tasks
  {
    hide Holders;
  }

  lemma WokenAwake(s: Sched, s2: Sched, who: set<nat>)
    requires Woken(s, s2, who) && InitprocAwake(s)
    ensures InitprocAwake(s2)
  {
  }

  lemma TimerAwake(s: Sched, s3: Sched, now1: u64, now2: u64)
    requires TimerDone(s, s3, now1, now2) && InitprocAwake(s)
    ensures InitprocAwake(s3)
  {
    hide Woken, Due, TimerDone;
    var s1, s2 := TimerRounds(s, s3, now1, now2);
    WokenAwake(s.(tasks := Ticked(s.tasks, now1)), s1, DuePids(s.tasks, now1));
    WokenAwake(s1, s2, ExpiredPids(s1.blocked, now2));
  }

  lemma ScheduleAwake(m: Moment, e: Event, m2: Moment, a: Answer)
    requires Stepped(m, e, m2, a) && (e.Idle? || e.Yield?) && InitprocAwake(m.s)
    ensures InitprocAwake(m2.s)
  {
    hide IsBest;
  }

  lemma ExitAwake(s: Sched, exitCode: int)
    requires Closed(s) && s.current.Some? && s.current.value != INITPROC && InitprocAwake(s)
    ensures InitprocAwake(ExitedSched(s, exitCode))
  {
  }

  lemma OwnCallAwake(m: Moment, e: Event, m2: Moment, a: Answer)
    requires Stepped(m, e, m2, a) && OwnCall(e) && InitprocAwake(m.s)
    ensures InitprocAwake(m2.s)
  {
  }

  lemma WaitAwake(m: Moment, e: Event, m2: Moment, a: Answer)
    requires Stepped(m, e, m2, a) && (e.WaitFor? || e.Continue?) && InitprocAwake(m.s)
    requires e.WaitFor? ==> m.s.current != Some(INITPROC)
    ensures InitprocAwake(m2.s)
  {
    hide Triggered, DeadlineOf, Consumed;
  }

  lemma SignalAwake(m: Moment, e: Event, m2: Moment, a: Answer)
    requires Stepped(m, e, m2, a) && (e.Send? || e.FileChanged? || e.TimerInterrupt?) && InitprocAwake(m.s)
    ensures InitprocAwake(m2.s)
  {
    hide Woken, TimerDone, Notified;
    match e
    case Send(target, payload) =>
      if a.delivered {
        WokenAwake(m.s.(tasks := Mailed(m.s.tasks, target, payload)), m2.s, {target});
      }
    case FileChanged =>
      NotifiedAwake(m.s);
      WokenAwake(m.s.(tasks := Notified(m.s.tasks)), m2.s, WatcherPids(m.s.tasks));
    case TimerInterrupt(toBeats, _) => TimerAwake(m.s, m2.s, m.now + toBeats, m2.now);
  }

  lemma ProcessAwake(m: Moment, e: Event, m2: Moment, a: Answer)
    requires Stepped(m, e, m2, a) && (e.ExitWith? || e.ForkAs? || e.Reap?) && InitprocAwake(m.s)
    ensures InitprocAwake(m2.s)
  {
    hide WaitedPid, Exited;
    match e
    case ExitWith(exitCode) =>
      if m.s.current.value != INITPROC {
        ExitAwake(m.s, exitCode);
      }
    case ForkAs(_) =>
    case Reap(pid) => ReapStays(m.s, m2.s, m.s.current.value, pid, a.result, a.exitCode);
  }

  /** INITPROC falls asleep only by waiting. */
  lemma StaysAwake(m: Moment, e: Event, m2: Moment, a: Answer)
    requires Stepped(m, e, m2, a) && InitprocAwake(m.s)
    requires e.WaitFor? ==> m.s.current != Some(INITPROC)
    ensures InitprocAwake(m2.s)
  {
    hide Stepped, InitprocAwake;
    if e.Idle? || e.Yield? {
      ScheduleAwake(m, e, m2, a);
    } else if OwnCall(e) {
      OwnCallAwake(m, e, m2, a);
    } else if e.WaitFor? || e.Continue? {
      WaitAwake(m, e, m2, a);
    } else if e.ExitWith? || e.ForkAs? || e.Reap? {
      ProcessAwake(m, e, m2, a);
    } else {
      SignalAwake(m, e, m2, a);
    }
  }

  lemma NotifiedAwake(s: Sched)
    requires InitprocAwake(s)
    ensures InitprocAwake(s.(tasks := Notified(s.tasks)))
  {
  }

  /** As long as INITPROC starts no wait, no run gets stuck. */
  lemma {:induction false} InitprocKeepsGoing(events: seq<Event>, run: seq<Moment>, answers: seq<Answer>, i: nat)
    requires IsRun(events, run, answers) && i < |run|
    requires forall j :: 0 <= j < i && events[j].WaitFor? ==> run[j].s.current != Some(INITPROC)
    ensures !Stuck(run[i].s) && InitprocAwake(run[i].s)
  {
    hide Invariant, Stepped, Possible;
    if i > 0 {
      InitprocKeepsGoing(events, run, answers, i - 1);
      assert Taken(run[i - 1], events[i - 1], run[i], answers[i - 1]);
      if Possible(run[i - 1], events[i - 1]) {
        StaysAwake(run[i - 1], events[i - 1], run[i], answers[i - 1]);
      }
    }
    var h := RunKeeps(events, run, answers, i);
    AwakeNotStuck(run[i].s, h);
  }

  /** Unless INITPROC is blocked, somebody can run. */
  lemma AwakeNotStuck(s: Sched, h: History)
    requires Invariant(s, h) && INITPROC in s.tasks && !s.tasks[INITPROC].status.Blocked?
    ensures !Stuck(s)
  {
    assert !s.tasks[INITPROC].status.Zombie?;
    hide Invariant;
    StuckMeans(s, h);
  }

  /** It does happen: INITPROC becomes an agent, sets a heartbeat and waits for it. */
  lemma StuckRun(timeout: i64) returns (run: seq<Moment>, answers: seq<Answer>)
    requires timeout < 0
    ensures IsRun([Idle, BecomeAgent, Heartbeat(1000), WaitFor(timeout, 0, 0, 0)], run, answers) && Stuck(run[4].s)
  {
    hide Stepped, Possible;
    var m0, m1, m2 := Moment(Booted(), 0, true), Moment(InitRunning(None, None), 0, true), Moment(InitRunning(Some(NEW_AGENT), None), 0, true);
    var x := NEW_AGENT.(interval := 1000);
    var m3 := Moment(InitRunning(Some(x), None), 0, true);
    var m4 := Moment(AfterRound(InitRunning(Some(x), Some(Wait(0, 0, timeout, None))), 0), 0, true);
    FirstDispatch();
    InitBecomesAgent();
    InitSetsHeartbeat();
    InitSleeps(x, timeout);
    run, answers := [m0, m1, m2, m3, m4], [Silent, Silent, Code(0), Waiting(Asleep)];
    assert Taken(m0, Idle, m1, Silent) && Taken(m1, BecomeAgent, m2, Silent) && Taken(m2, Heartbeat(1000), m3, Code(0));
  }

  /** INITPROC, alone, runs; if it is an agent, it has a context area. */
  function InitRunning(ext: Option<AgentExt>, wait: Option<Wait>): Sched {
    Sched(map[INITPROC := Tcb(Running, None, [], 0, DEFAULT_PRIORITY, ext, wait, ext.Some?)], Some(INITPROC), [], [])
  }

  lemma FirstDispatch()
    ensures Possible(Moment(Booted(), 0, true), Idle)
    ensures Stepped(Moment(Booted(), 0, true), Idle, Moment(InitRunning(None, None), 0, true), Silent)
  {
    assert IsBest(Booted().tasks, Booted().ready, 0) && InitRunning(None, None) == Dispatched(Booted(), 0);
  }

  lemma InitBecomesAgent()
    ensures var m := Moment(InitRunning(None, None), 0, true);
            Possible(m, BecomeAgent) && Stepped(m, BecomeAgent, m.(s := InitRunning(Some(NEW_AGENT), None)), Silent)
  {
  }

  lemma InitSetsHeartbeat()
    ensures var m := Moment(InitRunning(Some(NEW_AGENT), None), 0, true);
            var m2 := m.(s := InitRunning(Some(NEW_AGENT.(interval := 1000)), None));
            Possible(m, Heartbeat(1000)) && Stepped(m, Heartbeat(1000), m2, Code(0))
  {
  }

  lemma InitSleeps(x: AgentExt, timeout: i64)
    requires x == NEW_AGENT.(interval := 1000) && timeout < 0
    ensures var m := Moment(InitRunning(Some(x), None), 0, true);
            var m2 := m.(s := AfterRound(InitRunning(Some(x), Some(Wait(0, 0, timeout, None))), 0));
            Possible(m, WaitFor(timeout, 0, 0, 0)) && Stepped(m, WaitFor(timeout, 0, 0, 0), m2, Waiting(Asleep)) && Stuck(m2.s)
  {
    var w := Wait(0, 0, timeout, None);
    var s2 := InitRunning(Some(x), Some(w));
    NothingYet(x);
    RoundSleeps(s2, 0);
    hide Triggered, RoundResult, AfterRound;
    assert WithOwnWait(InitRunning(Some(x), None), Some(w)) == s2;
  }

  lemma RoundSleeps(s: Sched, now: u63)
    requires OwnExt(s).Some? && OwnWait(s).Some? && Triggered(OwnExt(s).value) == 0 && !TimedOut(OwnWait(s).value, now)
    ensures RoundResult(s, now) == Asleep
    ensures AfterRound(s, now) == Sched(SetStatus(s.tasks, s.current.value, Blocked), None, s.ready,
                                        s.blocked + [BlockedEntry(s.current.value, OwnWait(s).value.deadline)])
  {
    hide Triggered;
  }

  lemma NothingYet(x: AgentExt)
    requires !x.heartbeatPending && !x.filePending && x.mailbox == []
    ensures Triggered(x) == 0
  {
    assert Pending(x) == 0;
    assert 0 & Mask(x) == 0;
  }

  // ---------- who gets the processor

  /** No ready task has a higher priority than p. */
  predicate OnTop(s: Sched, p: nat) {
    p in s.tasks && forall q :: q in s.ready && q in s.tasks ==> s.tasks[q].priority <= s.tasks[p].priority
  }

  lemma DispatchAdvances(m: Moment, m2: Moment, a: Answer, i: nat)
    requires Stepped(m, Idle, m2, a) && i < |m.s.ready| && OnTop(m.s, m.s.ready[i])
    ensures m2.s.current == Some(m.s.ready[i]) || (0 < i <= |m2.s.ready| && m2.s.ready[i - 1] == m.s.ready[i])
  {
    var k: nat :| k < |m.s.ready| && IsBest(m.s.tasks, m.s.ready, k) && m2.s == Dispatched(m.s, k);
    assert m.s.tasks[m.s.ready[i]].priority <= m.s.tasks[m.s.ready[k]].priority;
    assert k <= i;
  }

  /** Nothing but a dispatch moves the tasks in the ready queue. */
  lemma KeepsPlace(m: Moment, e: Event, m2: Moment, a: Answer)
    requires Stepped(m, e, m2, a) && !e.Idle?
    ensures m.s.ready <= m2.s.ready
  {
    hide WaitedPid, IsBest, Exited, TimerDone, RoundResult, AfterRound, Received, Mailed, Notified, WatcherPids;
    match e
    case TimerInterrupt(toBeats, _) => TimerKeepsPlace(m.s, m2.s, m.now + toBeats, m2.now);
    case WaitFor(_, _, _, _) => WaitKeepsPlace(m, e, m2, a);
    case Continue(_) => WaitKeepsPlace(m, e, m2, a);
    case Reap(pid) => ReapStays(m.s, m2.s, m.s.current.value, pid, a.result, a.exitCode);
    case Receive(_, _) => OwnCallRuns(m, e, m2, a);
    case _ =>
  }

  lemma WaitKeepsPlace(m: Moment, e: Event, m2: Moment, a: Answer)
    requires Stepped(m, e, m2, a) && (e.WaitFor? || e.Continue?)
    ensures m2.s.ready == m.s.ready
  {
    hide Triggered, DeadlineOf, Consumed;
  }

  lemma TimerKeepsPlace(s: Sched, s3: Sched, now1: u64, now2: u64)
    requires TimerDone(s, s3, now1, now2)
    ensures s.ready <= s3.ready
  {
    hide TimerDone;
    var s1, s2 := TimerRounds(s, s3, now1, now2);
  }

  /** How many tasks have been dispatched between two moments. */
  ghost function Dispatches(events: seq<Event>, run: seq<Moment>, from: nat, to: nat): nat
    requires from <= to <= |events| <= |run|
  {
    if from == to then 0
    else Dispatches(events, run, from, to - 1) + if events[to - 1].Idle? && Possible(run[to - 1], Idle) then 1 else 0
  }

  /** A ready task that nobody outranks runs after at most as many dispatches as tasks are queued before it. */
  lemma {:induction false} NotStarved(events: seq<Event>, run: seq<Moment>, answers: seq<Answer>, from: nat, to: nat, i: nat)
    requires IsRun(events, run, answers) && from <= to < |run| && i < |run[from].s.ready|
    requires forall k :: from <= k < to ==> OnTop(run[k].s, run[from].s.ready[i])
    requires forall k :: from < k <= to ==> run[k].s.current != Some(run[from].s.ready[i])
    ensures var d := Dispatches(events, run, from, to);
            d <= i && i - d < |run[to].s.ready| && run[to].s.ready[i - d] == run[from].s.ready[i]
  {
    hide Stepped, Possible, OnTop;
    if from < to {
      NotStarved(events, run, answers, from, to - 1, i);
      var m, e, j := run[to - 1], events[to - 1], i - Dispatches(events, run, from, to - 1);
      assert Taken(m, e, run[to], answers[to - 1]);
      if Possible(m, e) {
        if e.Idle? {
          DispatchAdvances(m, run[to], answers[to - 1], j);
        } else {
          KeepsPlace(m, e, run[to], answers[to - 1]);
        }
      }
    }
  }
}
