/** Which runs panic: who has something mapped where an agent's context area goes. */
module KernelPanics {
  import opened Bytes
  import opened Collections
  import opened Tasks
  import opened Scheduling
  import opened KernelSteps
  import opened KernelSpec
  import opened KernelProgress

  /** Every task of s2 is one of s, an agent or not as before, and with the area's place mapped or not as before. */
  ghost predicate SameKinds(s: Sched, s2: Sched) {
    forall p :: p in s2.tasks ==> p in s.tasks && s2.tasks[p].area == s.tasks[p].area && s2.tasks[p].ext.Some? == s.tasks[p].ext.Some?
  }

  lemma WokenKinds(s: Sched, s2: Sched, who: set<nat>)
    requires WokenOnce(s, s2, who)
    ensures SameKinds(s, s2)
  {
  }

  lemma TimerKinds(s: Sched, s3: Sched, now1: u64, now2: u64)
    requires TimerDone(s, s3, now1, now2)
    ensures SameKinds(s, s3)
  {
    hide TimerDone, WokenOnce, Due;
    var s1, s2 := TimerRounds(s, s3, now1, now2);
    WokenKinds(s.(tasks := Ticked(s.tasks, now1)), s1, DuePids(s.tasks, now1));
    WokenKinds(s1, s2, ExpiredPids(s1.blocked, now2));
  }

  lemma SignalKinds(m: Moment, e: Event, m2: Moment, a: Answer)
    requires Stepped(m, e, m2, a) && (e.Send? || e.FileChanged? || e.TimerInterrupt?)
    ensures SameKinds(m.s, m2.s)
  {
    hide WokenOnce, TimerDone, WakePid, WakePids, Picked, Snapshot;
    match e
    case Send(target, payload) =>
      if a.delivered {
        WokenKinds(m.s.(tasks := Mailed(m.s.tasks, target, payload)), m2.s, {target});
      }
    case FileChanged => WokenKinds(m.s.(tasks := Notified(m.s.tasks)), m2.s, WatcherPids(m.s.tasks));
    case TimerInterrupt(toBeats, _) => TimerKinds(m.s, m2.s, m.now + toBeats, m2.now);
  }

  lemma WaitKinds(m: Moment, e: Event, m2: Moment, a: Answer)
    requires Stepped(m, e, m2, a) && (e.WaitFor? || e.Continue?)
    ensures SameKinds(m.s, m2.s)
  {
    hide Triggered, DeadlineOf, Consumed;
  }

  lemma ScheduleKinds(m: Moment, e: Event, m2: Moment, a: Answer)
    requires Stepped(m, e, m2, a) && (e.Idle? || e.Yield? || e.ExitWith? || e.Reap?)
    ensures SameKinds(m.s, m2.s)
  {
    hide IsBest, Holders, FirstZombie;
  }

  lemma OwnCallKinds(m: Moment, e: Event, m2: Moment, a: Answer)
    requires Stepped(m, e, m2, a) && OwnCall(e) && !e.BecomeAgent? && !e.Exec?
    ensures SameKinds(m.s, m2.s)
  {
  }

  /** How task p, after an event, comes to have the area's place mapped, and to be an agent. */
  predicate KindFollows(m: Moment, e: Event, m2: Moment, a: Answer, p: nat)
    requires p in m2.s.tasks
  {
    var own, agentMade := m.s.current == Some(p), e.BecomeAgent? && a == Silent && OwnExt(m.s).None?;
    && (p in m.s.tasks || e == ForkAs(p))
    && m2.s.tasks[p].area == (if e == ForkAs(p) then OwnArea(m.s)
                              else if own && e.Exec? then e.area
                              else (own && agentMade) || m.s.tasks[p].area)
    && m2.s.tasks[p].ext.Some? == (p in m.s.tasks && (m.s.tasks[p].ext.Some? || (own && agentMade)))
  }

  /**
   * Only fork, exec and agent_create say who is an agent and who has the area's place mapped: a child is no agent and
   * has its parent's mappings, exec replaces the running task's own, and agent_create gives it both where it succeeds.
   */
  lemma KindsAfter(m: Moment, e: Event, m2: Moment, a: Answer, p: nat)
    requires Stepped(m, e, m2, a) && p in m2.s.tasks
    ensures KindFollows(m, e, m2, a, p)
  {
    hide SameKinds, Stepped;
    if e.ForkAs? || e.Exec? || e.BecomeAgent? {
      KindsChange(m, e, m2, a, p);
    } else {
      if e.Send? || e.FileChanged? || e.TimerInterrupt? {
        SignalKinds(m, e, m2, a);
      } else if e.WaitFor? || e.Continue? {
        WaitKinds(m, e, m2, a);
      } else if OwnCall(e) {
        OwnCallKinds(m, e, m2, a);
      } else {
        ScheduleKinds(m, e, m2, a);
      }
      KindsAt(m.s, m2.s, p);
    }
  }

  lemma KindsAt(s: Sched, s2: Sched, p: nat)
    requires SameKinds(s, s2) && p in s2.tasks
    ensures p in s.tasks && s2.tasks[p].area == s.tasks[p].area && s2.tasks[p].ext.Some? == s.tasks[p].ext.Some?
  {
  }

  lemma KindsChange(m: Moment, e: Event, m2: Moment, a: Answer, p: nat)
    requires Stepped(m, e, m2, a) && p in m2.s.tasks && (e.ForkAs? || e.Exec? || e.BecomeAgent?)
    ensures KindFollows(m, e, m2, a, p)
  {
  }

  // ---------- an agent's child

  /** p is a plain process with something mapped where the context area goes. */
  predicate InTheWay(s: Sched, p: nat) {
    p in s.tasks && s.tasks[p].area && s.tasks[p].ext.None?
  }

  /** A child forked by a task that has the place mapped, as a new agent has, is in that state until it calls exec. */
  lemma {:induction false} ChildInTheWay(events: seq<Event>, run: seq<Moment>, answers: seq<Answer>, j: nat, child: nat, k: nat)
    requires IsRun(events, run, answers) && j < k < |run|
    requires events[j] == ForkAs(child) && Possible(run[j], events[j]) && OwnArea(run[j].s)
    requires forall l :: j < l <= k ==> child in run[l].s.tasks
    requires forall l :: j < l < k && events[l].Exec? ==> run[l].s.current != Some(child)
    ensures InTheWay(run[k].s, child)
  {
    hide Stepped, Possible;
    var m, e, a := run[k - 1], events[k - 1], answers[k - 1];
    assert Taken(m, e, run[k], a);
    if j + 1 < k {
      ChildInTheWay(events, run, answers, j, child, k - 1);
    }
    if Possible(m, e) {
      KindsAfter(m, e, run[k], a, child);
      NotForkedTwice(m, e, child);
      if j + 1 < k {
        PanicsOnly(m, e, run[k], a, child);
      }
    }
  }

  lemma NotForkedTwice(m: Moment, e: Event, child: nat)
    requires Possible(m, e)
    ensures e == ForkAs(child) ==> child !in m.s.tasks
  {
  }

  /** Such a task never becomes an agent: when it asks to, the kernel panics and the machine stops. */
  lemma PanicsOnly(m: Moment, e: Event, m2: Moment, a: Answer, p: nat)
    requires Stepped(m, e, m2, a) && InTheWay(m.s, p)
    ensures e.BecomeAgent? && m.s.current == Some(p) ==> a == Panicked && !m2.on && m2.s == m.s
  {
  }

  /** An agent's child that has not called exec panics the kernel by asking to become an agent. */
  lemma AgentsChildPanics(events: seq<Event>, run: seq<Moment>, answers: seq<Answer>, j: nat, child: nat, k: nat)
    requires IsRun(events, run, answers) && j < k < |events|
    requires events[j] == ForkAs(child) && Possible(run[j], events[j]) && OwnArea(run[j].s)
    requires forall l :: j < l <= k ==> child in run[l].s.tasks
    requires forall l :: j < l < k && events[l].Exec? ==> run[l].s.current != Some(child)
    requires events[k] == BecomeAgent && Possible(run[k], events[k]) && run[k].s.current == Some(child)
    ensures answers[k] == Panicked && !run[k + 1].on
  {
    hide Stepped, Possible;
    ChildInTheWay(events, run, answers, j, child, k);
    assert Taken(run[k], events[k], run[k + 1], answers[k]);
    PanicsOnly(run[k], events[k], run[k + 1], answers[k], child);
  }

  /** An agent and its child, to which fork gave the agent's context area. */
  function Family(agent: Status, child: Status): map<nat, Tcb> {
    map[INITPROC := Tcb(agent, None, [1], 0, DEFAULT_PRIORITY, Some(NEW_AGENT), None, true),
        1 := Tcb(child, Some(INITPROC), [], 0, DEFAULT_PRIORITY, None, None, true)]
  }

  /** It does happen: INITPROC becomes an agent and forks, and its child asks to become one too. */
  lemma PanicRun() returns (run: seq<Moment>, answers: seq<Answer>)
    ensures IsRun([Idle, BecomeAgent, ForkAs(1), Yield, Idle, BecomeAgent], run, answers)
    ensures answers[5] == Panicked && !run[6].on
  {
    hide Stepped, Possible;
    var m0, m1, m2 := Moment(Booted(), 0, true), Moment(InitRunning(None, None), 0, true), Moment(InitRunning(Some(NEW_AGENT), None), 0, true);
    var m3 := Moment(Sched(Family(Running, Ready), Some(INITPROC), [1], []), 0, true);
    var m4 := Moment(Sched(Family(Ready, Ready), None, [1, INITPROC], []), 0, true);
    var m5 := Moment(Sched(Family(Ready, Running), Some(1), [INITPROC], []), 0, true);
    FirstDispatch();
    InitBecomesAgent();
    AgentForks(m2, m3);
    AgentYields(m3, m4);
    ChildRuns(m4, m5);
    ChildPanics(m5);
    run, answers := [m0, m1, m2, m3, m4, m5, m5.(on := false)], [Silent, Silent, Silent, Silent, Silent, Panicked];
    assert Taken(m0, Idle, m1, Silent) && Taken(m1, BecomeAgent, m2, Silent) && Taken(m2, ForkAs(1), m3, Silent);
    assert Taken(m3, Yield, m4, Silent) && Taken(m4, Idle, m5, Silent);
  }

  lemma AgentForks(m2: Moment, m3: Moment)
    requires m2 == Moment(InitRunning(Some(NEW_AGENT), None), 0, true)
    requires m3 == Moment(Sched(Family(Running, Ready), Some(INITPROC), [1], []), 0, true)
    ensures Possible(m2, ForkAs(1)) && Stepped(m2, ForkAs(1), m3, Silent)
  {
    assert m2.s.tasks[INITPROC].children + [1] == [1];
    assert Forked(m2.s.tasks, INITPROC, 1) == Family(Running, Ready);
  }

  lemma AgentYields(m3: Moment, m4: Moment)
    requires m3 == Moment(Sched(Family(Running, Ready), Some(INITPROC), [1], []), 0, true)
    requires m4 == Moment(Sched(Family(Ready, Ready), None, [1, INITPROC], []), 0, true)
    ensures Possible(m3, Yield) && Stepped(m3, Yield, m4, Silent)
  {
  }

  lemma ChildRuns(m4: Moment, m5: Moment)
    requires m4 == Moment(Sched(Family(Ready, Ready), None, [1, INITPROC], []), 0, true)
    requires m5 == Moment(Sched(Family(Ready, Running), Some(1), [INITPROC], []), 0, true)
    ensures Possible(m4, Idle) && Stepped(m4, Idle, m5, Silent)
  {
    assert m4.s.ready[0] == 1 && m4.s.ready[1] == INITPROC;
    assert IsBest(m4.s.tasks, m4.s.ready, 0);
    assert m5.s == Dispatched(m4.s, 0);
  }

  lemma ChildPanics(m5: Moment)
    requires m5 == Moment(Sched(Family(Ready, Running), Some(1), [INITPROC], []), 0, true)
    ensures Possible(m5, BecomeAgent) && Stepped(m5, BecomeAgent, m5.(on := false), Panicked)
  {
  }

  // ---------- runs that do not panic

  /** No plain process has anything mapped where the context area goes. */
  ghost predicate NobodyInTheWay(s: Sched) {
    forall p :: p in s.tasks ==> !InTheWay(s, p)
  }

  /** What keeps a run going: INITPROC does not exit, nobody forks who has the place mapped, and no program brings it. */
  predicate Harmless(m: Moment, e: Event) {
    && (e.ExitWith? ==> m.s.current != Some(INITPROC))
    && (e.ForkAs? ==> !OwnArea(m.s))
    && (e.Exec? ==> !e.area)
  }

  lemma HarmlessStep(m: Moment, e: Event, m2: Moment, a: Answer)
    requires Stepped(m, e, m2, a) && Harmless(m, e) && NobodyInTheWay(m.s)
    ensures m2.on && NobodyInTheWay(m2.s)
  {
    assert !Halts(m, e);
    assert m2.on;
    hide Stepped;
    forall p | p in m2.s.tasks
      ensures !InTheWay(m2.s, p)
    {
      KindsAfter(m, e, m2, a, p);
      assert p in m.s.tasks ==> !InTheWay(m.s, p);
    }
  }

  /** Then the machine never stops. */
  lemma {:induction false} StaysOn(events: seq<Event>, run: seq<Moment>, answers: seq<Answer>, i: nat)
    requires IsRun(events, run, answers) && i < |run|
    requires forall j :: 0 <= j < i && Possible(run[j], events[j]) ==> Harmless(run[j], events[j])
    ensures run[i].on && NobodyInTheWay(run[i].s)
  {
    hide Stepped, Possible, Harmless;
    if i > 0 {
      StaysOn(events, run, answers, i - 1);
      assert Taken(run[i - 1], events[i - 1], run[i], answers[i - 1]);
      if Possible(run[i - 1], events[i - 1]) {
        HarmlessStep(run[i - 1], events[i - 1], run[i], answers[i - 1]);
      }
    }
  }
}
