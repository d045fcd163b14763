/** Which waits end: no deadline is missed, and the one kind of wait that never returns. */
module KernelWaits {
  import opened Bytes
  import opened Collections
  import opened Tasks
  import opened Scheduling
  import opened KernelSteps
  import opened KernelSpec
  import opened KernelProgress

  /** After a timer interrupt no blocked deadline has passed. */
  lemma NoDeadlineMissed(m: Moment, toBeats: nat, toTimeouts: nat, m2: Moment, a: Answer)
    requires Stepped(m, TimerInterrupt(toBeats, toTimeouts), m2, a)
    ensures forall b :: b in m2.s.blocked ==> !Expired(b, m2.now)
  {
    hide TimerDone;
    var s1, s2 := TimerRounds(m.s, m2.s, m.now + toBeats, m2.now);
    forall b | b in s2.blocked
      ensures !Expired(b, m2.now)
    {
      assert b in s1.blocked && b.pid !in ExpiredPids(s1.blocked, m2.now);
    }
  }

  /** An agent that goes on with its wait at or after its deadline returns, unless the deadline overflowed. */
  lemma WaitEnds(m: Moment, toRound: nat, m2: Moment, a: Answer, h: History)
    requires Invariant(m.s, h) && h.clock <= m.now && Stepped(m, Continue(toRound), m2, a)
    requires OwnWait(m.s).value.deadline.Some? && OwnWait(m.s).value.deadline.value <= m2.now
    requires !Overflows(OwnWait(m.s).value)
    ensures a.Waiting? && a.outcome.Caused?
  {
    hide Tree, Placed, DeadlinesListed, WaitsOk, AllQuiet, ExpiredOk, Triggered, Consumed, DeadlineOf, TimedOut, Overflows;
    WaitOkAt(m.s.tasks, m.s.current.value, h.clock);
    DeadlinePassed(OwnWait(m.s).value, m2.now);
  }

  lemma DeadlinePassed(w: Wait, now: u63)
    requires w.start <= w.at && w.deadline == DeadlineOf(w.at, w.timeout) && !Overflows(w)
    requires w.deadline.Some? && w.deadline.value <= now
    ensures TimedOut(w, now)
  {
  }

  /** The deadline of a wait whose timeout has not run out has passed exactly when it overflowed, and then always. */
  lemma OverflowExpired(w: Wait, pid: nat, now: u63)
    requires w.start <= w.at <= now && w.deadline == DeadlineOf(w.at, w.timeout) && !TimedOut(w, now)
    ensures Expired(BlockedEntry(pid, w.deadline), now) <==> Overflows(w)
    ensures Overflows(w) <==> forall t: u64 :: Expired(BlockedEntry(pid, w.deadline), t)
  {
    if !Overflows(w) {
      assert !Expired(BlockedEntry(pid, w.deadline), now);
    }
  }

  /**
   * A wait that puts the agent to sleep, at its start or going on, lists it with its deadline. That deadline has
   * passed already, so that the next timer interrupt wakes the agent again, exactly when it overflowed; it has then
   * passed at every time.
   */
  lemma OverflowNeverSleeps(m: Moment, e: Event, m2: Moment, a: Answer, h: History)
    requires Invariant(m.s, h) && h.clock <= m.now && Stepped(m, e, m2, a) && a == Waiting(Asleep)
    requires e.WaitFor? || e.Continue?
    ensures m.s.current.Some? && m.s.current.value in m2.s.tasks && m2.s.tasks[m.s.current.value].wait.Some?
    ensures var w := m2.s.tasks[m.s.current.value].wait.value;
            var entry := BlockedEntry(m.s.current.value, w.deadline);
            && (if e.Continue? then OwnWait(m.s) == Some(w) else w.at == m.now + e.toStart + e.toDeadline && w.timeout == e.timeout)
            && m2.s.blocked == m.s.blocked + [entry]
            && (Expired(entry, m2.now) <==> Overflows(w)) && (Overflows(w) <==> forall t: u64 :: Expired(entry, t))
  {
    hide Tree, Placed, DeadlinesListed, WaitsOk, AllQuiet, ExpiredOk, Triggered, Consumed, DeadlineOf, Overflows, Expired;
    var p := m.s.current.value;
    if e.Continue? {
      WaitOkAt(m.s.tasks, p, h.clock);
    }
    OverflowExpired(m2.s.tasks[p].wait.value, p, m2.now);
  }

  /** The longest timeout, counted from clock 1, gives the deadline 0. */
  function SpinningWait(): Wait {
    Wait(1, 1, 0x7FFF_FFFF_FFFF_FFFF, Some(0))
  }

  /** INITPROC with an agent that waits with that timeout, and whose status is the one given. */
  function Spinning(init: Status, agent: Status): map<nat, Tcb> {
    map[INITPROC := Tcb(init, None, [1], 0, DEFAULT_PRIORITY, None, None, false),
        1 := Tcb(agent, Some(INITPROC), [], 0, DEFAULT_PRIORITY, Some(NEW_AGENT), Some(SpinningWait()), true)]
  }

  /** The agent asleep, INITPROC ready. */
  function Spun(): Sched {
    Sched(Spinning(Ready, Blocked), None, [INITPROC], [BlockedEntry(1, Some(0))])
  }

  /** One timer interrupt later the agent has run, has not returned and is asleep again, however much time has passed. */
  lemma SpinsOn(m: Moment, toBeats: nat, toTimeouts: nat, toRound: nat,
                m1: Moment, m2: Moment, m3: Moment, m4: Moment, a: seq<Answer>)
    requires m.s == Spun() && 1 <= m.now && |a| == 4
    requires Stepped(m, Idle, m1, a[0]) && Stepped(m1, TimerInterrupt(toBeats, toTimeouts), m2, a[1])
    requires Stepped(m2, Idle, m3, a[2]) && Stepped(m3, Continue(toRound), m4, a[3])
    ensures m4.s == m.s && m4.now >= m.now && a[3] == Waiting(Asleep)
  {
    hide Stepped;
    InitprocRuns(m, m1, a[0]);
    AgentWakes(m1, toBeats, toTimeouts, m2, a[1]);
    AgentRuns(m2, m3, a[2]);
    AgentSleeps(m3, toRound, m4, a[3]);
  }

  lemma InitprocRuns(m: Moment, m1: Moment, a: Answer)
    requires m.s == Spun() && Stepped(m, Idle, m1, a)
    ensures m1.s == Sched(Spinning(Running, Blocked), Some(INITPROC), [], [BlockedEntry(1, Some(0))]) && m1.now == m.now
  {
    hide IsBest;
    assert m1.s.tasks == Spinning(Running, Blocked);
  }

  /** Where no heartbeat is set, a round of heartbeats does nothing. */
  lemma NoBeats(s: Sched, s1: Sched, now: u64)
    requires WokenOnce(s.(tasks := Ticked(s.tasks, now)), s1, DuePids(s.tasks, now))
    requires forall p :: p in s.tasks && s.tasks[p].ext.Some? ==> s.tasks[p].ext.value.interval == 0
    ensures s1.tasks == s.tasks && s1.current == s.current && s1.ready == s.ready
    ensures (forall e :: e in s1.blocked <==> e in s.blocked) && NoDup(Pids(s1.blocked))
  {
    assert DuePids(s.tasks, now) == {};
    assert Ticked(s.tasks, now) == s.tasks;
    hide Due, DuePids, Ticked;
    var tail := s1.ready[|s.ready|..];
    FirstIn(tail);
    assert s1.ready == s.ready + tail;
  }

  lemma FirstIn<T>(s: seq<T>)
    ensures s == [] || s[0] in s
  {
  }

  lemma FirstTwo(s: seq<nat>)
    requires NoDup(s)
    ensures |s| < 2 || (s[0] in s && s[1] in s && s[0] != s[1])
  {
  }

  lemma OnlyOne(r: seq<nat>, x: nat)
    requires NoDup(r) && forall p :: p in r <==> p == x
    ensures r == [x]
  {
    assert x in r;
    FirstIn(r);
    FirstTwo(r);
  }

  lemma OnlyEntry(blocked: seq<BlockedEntry>, e: BlockedEntry)
    requires NoDup(Pids(blocked)) && forall b :: b in blocked <==> b == e
    ensures blocked == [e]
  {
    PidsMembers(blocked);
    OnlyOne(Pids(blocked), e.pid);
    assert blocked[0] in blocked;
  }

  /** Nothing blocked is left and the one that was is ready. */
  lemma OnlyOneWakes(s: Sched, s2: Sched, e: BlockedEntry, now: u64)
    requires s.blocked == [e] && Expired(e, now) && WokenOnce(s, s2, ExpiredPids(s.blocked, now))
    requires e.pid in s.tasks && s.tasks[e.pid].status.Blocked?
    ensures s2 == Sched(SetStatus(s.tasks, e.pid, Ready), s.current, s.ready + [e.pid], [])
  {
    assert e in s.blocked;
    assert ExpiredPids(s.blocked, now) == {e.pid};
    var tail := s2.ready[|s.ready|..];
    assert forall i :: 0 <= i < |tail| ==> tail[i] == s2.ready[|s.ready| + i];
    OnlyOne(tail, e.pid);
    assert s2.ready == s.ready + tail;
    FirstIn(s2.blocked);
    assert s2.tasks == SetStatus(s.tasks, e.pid, Ready);
  }

  lemma AgentWakes(m1: Moment, toBeats: nat, toTimeouts: nat, m2: Moment, a: Answer)
    requires m1.s == Sched(Spinning(Running, Blocked), Some(INITPROC), [], [BlockedEntry(1, Some(0))])
    requires Stepped(m1, TimerInterrupt(toBeats, toTimeouts), m2, a)
    ensures m2.s == Sched(Spinning(Ready, Ready), None, [1, INITPROC], []) && m2.now >= m1.now
  {
    hide TimerDone, WokenOnce, Stepped, Spinning;
    InterruptTimes(m1, toBeats, toTimeouts, m2, a);
    var e := BlockedEntry(1, Some(0));
    var s1, s2 := TimerRounds(m1.s, m2.s, m1.now + toBeats, m2.now);
    SpinningTasks();
    NoBeats(m1.s, s1, m1.now + toBeats);
    OnlyEntry(s1.blocked, e);
    OnlyOneWakes(s1, s2, e, m2.now);
  }

  lemma InterruptTimes(m: Moment, toBeats: nat, toTimeouts: nat, m2: Moment, a: Answer)
    requires Stepped(m, TimerInterrupt(toBeats, toTimeouts), m2, a)
    ensures m.now + toBeats <= m2.now == m.now + toBeats + toTimeouts < 0x8000_0000_0000_0000
    ensures TimerDone(m.s, m2.s, m.now + toBeats, m2.now)
  {
    hide TimerDone;
  }

  lemma SpinningTasks()
    ensures var tasks := Spinning(Running, Blocked);
            && INITPROC in tasks && 1 in tasks && tasks[1].status.Blocked?
            && (forall p :: p in tasks && tasks[p].ext.Some? ==> tasks[p].ext.value.interval == 0)
            && SetStatus(SetStatus(tasks, 1, Ready), INITPROC, Ready) == Spinning(Ready, Ready)
  {
  }

  lemma AgentRuns(m2: Moment, m3: Moment, a: Answer)
    requires m2.s == Sched(Spinning(Ready, Ready), None, [1, INITPROC], []) && Stepped(m2, Idle, m3, a)
    ensures m3.s == Sched(Spinning(Ready, Running), Some(1), [INITPROC], []) && m3.now == m2.now
  {
    var i: nat :| i < 2 && IsBest(m2.s.tasks, m2.s.ready, i) && m3.s == Dispatched(m2.s, i);
    assert m2.s.tasks[m2.s.ready[0]].priority == m2.s.tasks[m2.s.ready[1]].priority;
    assert i == 0;
    assert m3.s.tasks == Spinning(Ready, Running);
  }

  lemma AgentSleeps(m3: Moment, toRound: nat, m4: Moment, a: Answer)
    requires m3.s == Sched(Spinning(Ready, Running), Some(1), [INITPROC], []) && 1 <= m3.now
    requires Stepped(m3, Continue(toRound), m4, a)
    ensures m4.s == Spun() && m4.now >= m3.now && a == Waiting(Asleep)
  {
    NothingYet(NEW_AGENT);
    RoundSleeps(m3.s, m4.now);
  }

  function LongestTimeout(): i64 {
    0x7FFF_FFFF_FFFF_FFFF
  }

  /** INITPROC and its child, which may be an agent. */
  function Pair(init: Status, child: Status, ext: Option<AgentExt>): map<nat, Tcb> {
    map[INITPROC := Tcb(init, None, [1], 0, DEFAULT_PRIORITY, None, None, false),
        1 := Tcb(child, Some(INITPROC), [], 0, DEFAULT_PRIORITY, ext, None, ext.Some?)]
  }

  /** A run leads there: INITPROC forks and yields, the child becomes an agent and waits with the longest timeout. */
  lemma SpinRun(timeout: i64) returns (run: seq<Moment>, answers: seq<Answer>)
    requires timeout == LongestTimeout()
    ensures IsRun([Idle, ForkAs(1), Yield, Idle, BecomeAgent, WaitFor(timeout, 1, 0, 0)], run, answers)
    ensures run[6] == Moment(Spun(), 1, true)
  {
    hide Stepped, Possible;
    var m0, m1 := Moment(Booted(), 0, true), Moment(InitRunning(None, None), 0, true);
    var m2 := Moment(Sched(Pair(Running, Ready, None), Some(INITPROC), [1], []), 0, true);
    var m3 := Moment(Sched(Pair(Ready, Ready, None), None, [1, INITPROC], []), 0, true);
    var m4 := Moment(Sched(Pair(Ready, Running, None), Some(1), [INITPROC], []), 0, true);
    var m5 := Moment(Sched(Pair(Ready, Running, Some(NEW_AGENT)), Some(1), [INITPROC], []), 0, true);
    var m6 := Moment(Spun(), 1, true);
    FirstDispatch();
    InitForks(m1, m2);
    InitYields(m2, m3);
    ChildRuns(m3, m4);
    ChildBecomesAgent(m4, m5);
    ChildSleeps(m5, m6, timeout);
    run, answers := [m0, m1, m2, m3, m4, m5, m6], [Silent, Silent, Silent, Silent, Silent, Waiting(Asleep)];
    assert Taken(m0, Idle, m1, Silent) && Taken(m1, ForkAs(1), m2, Silent) && Taken(m2, Yield, m3, Silent);
    assert Taken(m3, Idle, m4, Silent) && Taken(m4, BecomeAgent, m5, Silent);
  }

  lemma InitForks(m1: Moment, m2: Moment)
    requires m1 == Moment(InitRunning(None, None), 0, true)
    requires m2 == Moment(Sched(Pair(Running, Ready, None), Some(INITPROC), [1], []), 0, true)
    ensures Stepped(m1, ForkAs(1), m2, Silent)
  {
    assert m1.s.tasks[INITPROC].children + [1] == [1];
    assert Forked(m1.s.tasks, INITPROC, 1) == Pair(Running, Ready, None);
  }

  lemma InitYields(m2: Moment, m3: Moment)
    requires m2 == Moment(Sched(Pair(Running, Ready, None), Some(INITPROC), [1], []), 0, true)
    requires m3 == Moment(Sched(Pair(Ready, Ready, None), None, [1, INITPROC], []), 0, true)
    ensures Stepped(m2, Yield, m3, Silent)
  {
  }

  lemma ChildRuns(m3: Moment, m4: Moment)
    requires m3 == Moment(Sched(Pair(Ready, Ready, None), None, [1, INITPROC], []), 0, true)
    requires m4 == Moment(Sched(Pair(Ready, Running, None), Some(1), [INITPROC], []), 0, true)
    ensures Stepped(m3, Idle, m4, Silent)
  {
    assert m3.s.ready[0] == 1 && m3.s.ready[1] == INITPROC;
    assert IsBest(m3.s.tasks, m3.s.ready, 0);
    assert m4.s == Dispatched(m3.s, 0);
  }

  lemma ChildBecomesAgent(m4: Moment, m5: Moment)
    requires m4 == Moment(Sched(Pair(Ready, Running, None), Some(1), [INITPROC], []), 0, true)
    requires m5 == Moment(Sched(Pair(Ready, Running, Some(NEW_AGENT)), Some(1), [INITPROC], []), 0, true)
    ensures Stepped(m4, BecomeAgent, m5, Silent)
  {
    assert AgentMade(m4.s).tasks == m5.s.tasks;
  }

  lemma ChildSleeps(m5: Moment, m6: Moment, timeout: i64)
    requires m5 == Moment(Sched(Pair(Ready, Running, Some(NEW_AGENT)), Some(1), [INITPROC], []), 0, true)
    requires m6 == Moment(Spun(), 1, true) && timeout == LongestTimeout()
    ensures Possible(m5, WaitFor(timeout, 1, 0, 0)) && Stepped(m5, WaitFor(timeout, 1, 0, 0), m6, Waiting(Asleep))
  {
    var s := WithOwnWait(m5.s, Some(SpinningWait()));
    NothingYet(NEW_AGENT);
    RoundSleeps(s, 1);
    hide Triggered, RoundResult, AfterRound;
    assert s.tasks == Spinning(Ready, Running);
    assert SetStatus(s.tasks, 1, Blocked) == Spinning(Ready, Blocked);
  }
}
