/** What whole runs of the kernel promise to a task: mail in order, exit codes that arrive, and no sleep past a deadline. */
module KernelTraces {
  import opened Bytes
  import opened Collections
  import opened Tasks
  import opened Scheduling
  import opened KernelSteps
  import opened KernelSpec
  import opened KernelLaws

  // ---------- deadlines

  /** After a timer interrupt in any run, nobody sleeps whose timeout, counted from the call, has been reached. */
  lemma NobodyOversleeps(events: seq<Event>, run: seq<Moment>, answers: seq<Answer>, i: nat, p: nat)
    requires IsRun(events, run, answers) && i < |events| && events[i].TimerInterrupt? && Possible(run[i], events[i])
    requires p in run[i].s.tasks && run[i].s.tasks[p].wait.Some? && run[i].s.tasks[p].wait.value.timeout >= 0
    requires run[i].s.tasks[p].wait.value.at + run[i].s.tasks[p].wait.value.timeout <= run[i + 1].now
    ensures p in run[i + 1].s.tasks && !run[i + 1].s.tasks[p].status.Blocked?
  {
    hide Stepped, Possible, Invariant;
    var h := RunKeeps(events, run, answers, i);
    assert Taken(run[i], events[i], run[i + 1], answers[i]);
    TimerLaw(run[i], events[i].toBeats, events[i].toTimeouts, run[i + 1], answers[i], h, p);
  }

  /** Nor does anybody wake early: a sleeper that is neither due nor at its deadline sleeps on. */
  lemma NobodyWakesEarly(events: seq<Event>, run: seq<Moment>, answers: seq<Answer>, i: nat, p: nat)
    requires IsRun(events, run, answers) && i < |events| && events[i].TimerInterrupt? && Possible(run[i], events[i])
    requires p in run[i].s.tasks && run[i].s.tasks[p].status.Blocked?
    requires !BeatDue(run[i].s.tasks[p], run[i].now + events[i].toBeats) && !DeadlineReached(run[i].s.tasks[p], run[i + 1].now)
    ensures p in run[i + 1].s.tasks && run[i + 1].s.tasks[p] == run[i].s.tasks[p]
  {
    hide Stepped, Possible, Invariant, BeatDue, DeadlineReached;
    var h := RunKeeps(events, run, answers, i);
    assert Taken(run[i], events[i], run[i + 1], answers[i]);
    TimerLaw(run[i], events[i].toBeats, events[i].toTimeouts, run[i + 1], answers[i], h, p);
  }

  /** An agent that falls asleep with a timeout is listed with a deadline that comes exactly when the timeout has passed. */
  lemma ListedDeadline(events: seq<Event>, run: seq<Moment>, answers: seq<Answer>, i: nat, start: int, at: int, timeout: int, now: u64)
    requires IsRun(events, run, answers) && i < |events| && (events[i].WaitFor? || events[i].Continue?) && Possible(run[i], events[i])
    requires answers[i] == Waiting(Asleep) && WaitIs(run[i], events[i], start, at, timeout)
    requires timeout >= 0 && at + timeout < 0x8000_0000_0000_0000
    ensures run[i + 1].s.blocked != []
    ensures var entry := run[i + 1].s.blocked[|run[i + 1].s.blocked| - 1];
            && Some(entry.pid) == run[i].s.current && (Expired(entry, now) <==> now >= at + timeout)
  {
    hide Stepped, Possible, Invariant, WaitIs;
    var h := RunKeeps(events, run, answers, i);
    assert Taken(run[i], events[i], run[i + 1], answers[i]);
    AsleepLaw(run[i], events[i], run[i + 1], answers[i], h, start, at, timeout);
    CurrentIs(run[i], events[i], run[i + 1], answers[i]);
  }

  lemma CurrentIs(m: Moment, e: Event, m2: Moment, a: Answer)
    requires Stepped(m, e, m2, a) && !e.Idle?
    ensures m.s.current.Some?
  {
    hide Effect;
  }

  // ---------- mail

  predicate IsAgent(s: Sched, p: nat) {
    p in s.tasks && s.tasks[p].ext.Some?
  }

  function Box(s: Sched, p: nat): seq<seq<byte>>
    requires IsAgent(s, p)
  {
    s.tasks[p].ext.value.mailbox
  }

  /** The mail of p that a step delivers. */
  function Arriving(m: Moment, e: Event, p: nat): seq<seq<byte>> {
    if Possible(m, e) && e.Send? && e.target == p then [e.payload] else []
  }

  /** Whether the step takes a message out of the mailbox of p: the owner receives one, or mail arrives where 32 wait. */
  predicate Receives(m: Moment, e: Event, p: nat)
    requires IsAgent(m.s, p)
  {
    Possible(m, e) && e.Receive? && m.s.current == Some(p) && e.buf != 0 && Box(m.s, p) != []
  }

  predicate Loses(m: Moment, e: Event, p: nat)
    requires IsAgent(m.s, p)
  {
    Possible(m, e) && e.Send? && e.target == p && |Box(m.s, p)| >= 32
  }

  /** Boxes of agents that both states have. */
  ghost predicate SameBoxes(s: Sched, s2: Sched) {
    forall p :: IsAgent(s, p) && IsAgent(s2, p) ==> Box(s2, p) == Box(s, p)
  }

  lemma TimerBoxes(s: Sched, s3: Sched, now1: u64, now2: u64)
    requires TimerDone(s, s3, now1, now2)
    ensures SameBoxes(s, s3)
  {
    hide TimerDone;
    var s1, s2 := TimerRounds(s, s3, now1, now2);
    hide WokenOnce;
    WokenBoxes(s.(tasks := Ticked(s.tasks, now1)), s1, DuePids(s.tasks, now1));
    WokenBoxes(s1, s2, ExpiredPids(s1.blocked, now2));
  }

  lemma WokenBoxes(s: Sched, s2: Sched, who: set<nat>)
    requires WokenOnce(s, s2, who)
    ensures forall p :: p in s2.tasks <==> p in s.tasks
    ensures forall p :: p in s.tasks ==> s2.tasks[p].ext == s.tasks[p].ext && s2.tasks[p].exitCode == s.tasks[p].exitCode
    ensures forall p :: p in s.tasks ==> (s2.tasks[p].status.Zombie? <==> s.tasks[p].status.Zombie?)
  {
  }

  lemma SignalBoxes(m: Moment, e: Event, m2: Moment, a: Answer)
    requires Stepped(m, e, m2, a) && (e.FileChanged? || e.TimerInterrupt?)
    ensures SameBoxes(m.s, m2.s)
  {
    hide TimerDone, WokenOnce, WakePids, Picked, Snapshot;
    if e.TimerInterrupt? {
      TimerBoxes(m.s, m2.s, m.now + e.toBeats, m2.now);
    } else {
      WokenBoxes(m.s.(tasks := Notified(m.s.tasks)), m2.s, WatcherPids(m.s.tasks));
    }
  }

  lemma WaitBoxes(m: Moment, e: Event, m2: Moment, a: Answer)
    requires Stepped(m, e, m2, a) && (e.WaitFor? || e.Continue?)
    ensures SameBoxes(m.s, m2.s)
  {
    hide Triggered, DeadlineOf;
  }

  lemma ProcessBoxes(m: Moment, e: Event, m2: Moment, a: Answer)
    requires Stepped(m, e, m2, a) && (e.Idle? || e.Yield? || e.ExitWith? || e.ForkAs? || e.Reap?)
    ensures SameBoxes(m.s, m2.s)
  {
    hide IsBest, Holders, FirstZombie;
  }

  lemma OwnBoxes(m: Moment, e: Event, m2: Moment, a: Answer)
    requires Stepped(m, e, m2, a) && OwnCall(e) && !e.Receive?
    ensures SameBoxes(m.s, m2.s)
  {
    hide Stepped;
    if e.BecomeAgent? {
      BecomeAgentLaw(m, m2, a);
    } else if e.Prioritize? || e.Exec? {
      OwnTaskLaw(m, e, m2, a);
    } else {
      OwnExtLaw(m, e, m2, a);
    }
  }

  /** A step takes at most one message from the front of an agent's mailbox, and puts what arrives at its end. */
  lemma BoxStep(m: Moment, e: Event, m2: Moment, a: Answer, p: nat)
    requires Taken(m, e, m2, a) && IsAgent(m.s, p) && IsAgent(m2.s, p)
    ensures var gone := if Receives(m, e, p) || Loses(m, e, p) then 1 else 0;
            && gone <= |Box(m.s, p) + Arriving(m, e, p)|
            && Box(m2.s, p) == (Box(m.s, p) + Arriving(m, e, p))[gone..]
    ensures Receives(m, e, p) ==>
              && a.Message? && a.r == (if e.bufLen < |Box(m.s, p)[0]| then e.bufLen else |Box(m.s, p)[0]|)
              && a.bytes == Box(m.s, p)[0][..a.r]
  {
    hide Stepped, Possible;
    assert Box(m.s, p) + [] == Box(m.s, p);
    if Possible(m, e) {
      if e.Send? {
        SendLaw(m, e.target, e.payload, m2, a);
      } else if e.Receive? {
        CurrentIs(m, e, m2, a);
        ReceiveLaw(m, e.buf, e.bufLen, m2, a);
      } else if e.FileChanged? || e.TimerInterrupt? {
        SignalBoxes(m, e, m2, a);
      } else if e.WaitFor? || e.Continue? {
        WaitBoxes(m, e, m2, a);
      } else if OwnCall(e) {
        OwnBoxes(m, e, m2, a);
      } else {
        ProcessBoxes(m, e, m2, a);
      }
    }
  }

  /** The mail sent to p between two moments, and how many messages its mailbox has given up meanwhile. */
  ghost function Sent(events: seq<Event>, run: seq<Moment>, p: nat, i: nat, j: nat): seq<seq<byte>>
    requires i <= j <= |events| < |run|
  {
    if i == j then [] else Sent(events, run, p, i, j - 1) + Arriving(run[j - 1], events[j - 1], p)
  }

  ghost predicate AgentThroughout(run: seq<Moment>, p: nat, i: nat, j: nat)
    requires i <= j < |run|
  {
    forall l :: i <= l <= j ==> IsAgent(run[l].s, p)
  }

  ghost function Gone(events: seq<Event>, run: seq<Moment>, p: nat, i: nat, j: nat): nat
    requires i <= j <= |events| < |run| && AgentThroughout(run, p, i, j)
  {
    if i == j then 0
    else Gone(events, run, p, i, j - 1) + if Receives(run[j - 1], events[j - 1], p) || Loses(run[j - 1], events[j - 1], p) then 1 else 0
  }

  /** In any run an agent's mailbox holds, in order, what was there and what was sent since, less the messages it gave up first. */
  lemma {:induction false} MailInOrder(events: seq<Event>, run: seq<Moment>, answers: seq<Answer>, p: nat, i: nat, j: nat)
    requires IsRun(events, run, answers) && i <= j <= |events| && AgentThroughout(run, p, i, j)
    ensures var all := Box(run[i].s, p) + Sent(events, run, p, i, j);
            Gone(events, run, p, i, j) <= |all| && Box(run[j].s, p) == all[Gone(events, run, p, i, j)..]
  {
    hide Stepped, Possible;
    if i < j {
      MailInOrder(events, run, answers, p, i, j - 1);
      assert Taken(run[j - 1], events[j - 1], run[j], answers[j - 1]);
      BoxStep(run[j - 1], events[j - 1], run[j], answers[j - 1], p);
      hide Taken, Receives, Loses, Arriving;
      var all, k, x := Box(run[i].s, p) + Sent(events, run, p, i, j - 1), Gone(events, run, p, i, j - 1), Arriving(run[j - 1], events[j - 1], p);
      assert all + x == Box(run[i].s, p) + Sent(events, run, p, i, j);
      assert (all + x)[k..] == all[k..] + x;
    }
  }

  /** So the messages an agent receives are those sent to it, in the order in which they were sent. */
  lemma ReceivedInOrder(events: seq<Event>, run: seq<Moment>, answers: seq<Answer>, p: nat, i: nat, j: nat)
    requires IsRun(events, run, answers) && i <= j < |events| && AgentThroughout(run, p, i, j)
    requires events[j].Receive? && Possible(run[j], events[j]) && run[j].s.current == Some(p) && events[j].buf != 0
    ensures var (all, n) := (Box(run[i].s, p) + Sent(events, run, p, i, j), Gone(events, run, p, i, j));
            if n == |all| then answers[j] == Message(-6, [])
            else n < |all| && answers[j].Message?
                 && answers[j].r == (if events[j].bufLen < |all[n]| then events[j].bufLen else |all[n]|)
                 && answers[j].bytes == all[n][..answers[j].r]
  {
    hide Stepped, Possible;
    MailInOrder(events, run, answers, p, i, j);
    assert Taken(run[j], events[j], run[j + 1], answers[j]);
    ReceiveLaw(run[j], events[j].buf, events[j].bufLen, run[j + 1], answers[j]);
  }

  // ---------- exit codes

  /** A zombie keeps its exit code as long as it is there. */
  lemma ZombieStep(m: Moment, e: Event, m2: Moment, a: Answer, p: nat)
    requires Taken(m, e, m2, a) && p in m.s.tasks && p in m2.s.tasks && m.s.tasks[p].status.Zombie?
    requires Closed(m.s) && Placed(m.s, [])
    ensures m2.s.tasks[p].status.Zombie? && m2.s.tasks[p].exitCode == m.s.tasks[p].exitCode
  {
    hide Stepped, Possible, Placed;
    if Possible(m, e) {
      NotRunning(m.s, p);
      if e.Send? {
        SendLaw(m, e.target, e.payload, m2, a);
      } else if e.Receive? {
        ReceiveLaw(m, e.buf, e.bufLen, m2, a);
      } else if e.FileChanged? {
        FileChangedLaw(m, m2, a, p);
      } else if e.BecomeAgent? {
        BecomeAgentLaw(m, m2, a);
      } else if e.Prioritize? || e.Exec? {
        OwnTaskLaw(m, e, m2, a);
      } else if OwnCall(e) {
        OwnExtLaw(m, e, m2, a);
      } else {
        ZombieElsewhere(m, e, m2, a, p);
      }
    }
  }

  lemma NotRunning(s: Sched, p: nat)
    requires Placed(s, []) && p in s.tasks && s.tasks[p].status.Zombie?
    ensures s.current != Some(p) && p !in s.ready
  {
  }

  lemma ZombieElsewhere(m: Moment, e: Event, m2: Moment, a: Answer, p: nat)
    requires Stepped(m, e, m2, a) && p in m.s.tasks && p in m2.s.tasks && m.s.tasks[p].status.Zombie?
    requires m.s.current != Some(p) && p !in m.s.ready && Closed(m.s)
    requires !OwnCall(e) && !e.Send? && !e.FileChanged?
    ensures m2.s.tasks[p].status.Zombie? && m2.s.tasks[p].exitCode == m.s.tasks[p].exitCode
  {
    hide TimerDone, Triggered, DeadlineOf, Consumed, IsBest, Holders, FirstZombie;
    if e.TimerInterrupt? {
      ZombieTimed(m.s, m2.s, m.now + e.toBeats, m2.now, p);
    }
  }

  lemma ZombieTimed(s: Sched, s3: Sched, now1: u64, now2: u64, p: nat)
    requires TimerDone(s, s3, now1, now2) && p in s.tasks && s.tasks[p].status.Zombie? && s.current != Some(p)
    ensures p in s3.tasks && s3.tasks[p].status.Zombie? && s3.tasks[p].exitCode == s.tasks[p].exitCode
  {
    hide TimerDone, WokenOnce, Due, DuePids, ExpiredPids;
    var s1, s2 := TimerRounds(s, s3, now1, now2);
    WokenBoxes(s.(tasks := Ticked(s.tasks, now1)), s1, DuePids(s.tasks, now1));
    WokenBoxes(s1, s2, ExpiredPids(s1.blocked, now2));
    SameCurrent(s, s3, s1, s2, now1, now2);
  }

  lemma SameCurrent(s: Sched, s3: Sched, s1: Sched, s2: Sched, now1: u64, now2: u64)
    requires WokenOnce(s.(tasks := Ticked(s.tasks, now1)), s1, DuePids(s.tasks, now1))
    requires WokenOnce(s1, s2, ExpiredPids(s1.blocked, now2)) && s3 == Suspended(s2)
    ensures s2.current == s.current
  {
  }

  /** waitpid answers the code that was passed to exit: in any run, as long as the pid was not used again meanwhile. */
  lemma ExitCodeArrives(events: seq<Event>, run: seq<Moment>, answers: seq<Answer>, j: nat, k: nat, p: nat)
    requires IsRun(events, run, answers) && j < k < |events| && p != INITPROC
    requires events[j].ExitWith? && Possible(run[j], events[j]) && run[j].s.current == Some(p)
    requires forall l :: j < l <= k ==> p in run[l].s.tasks
    requires events[k].Reap? && Possible(run[k], events[k]) && answers[k].Reaping? && answers[k].result == p
    ensures answers[k].exitCode == events[j].exitCode && p !in run[k + 1].s.tasks
  {
    hide Stepped, Possible;
    StaysZombie(events, run, answers, j, k, p);
    assert Taken(run[k], events[k], run[k + 1], answers[k]);
    CurrentIs(run[k], events[k], run[k + 1], answers[k]);
    ReapLaw(run[k], events[k].pid, run[k + 1], answers[k]);
    NotRunningAt(events, run, answers, k, p);
  }

  lemma NotRunningAt(events: seq<Event>, run: seq<Moment>, answers: seq<Answer>, k: nat, p: nat)
    requires IsRun(events, run, answers) && k < |run| && p in run[k].s.tasks && run[k].s.tasks[p].status.Zombie?
    ensures Closed(run[k].s) && Placed(run[k].s, []) && run[k].s.current != Some(p)
  {
    hide Stepped, Possible, IsRun;
    var h := RunKeeps(events, run, answers, k);
    NotRunning(run[k].s, p);
    InPlace(run[k].s);
  }

  lemma {:induction false} StaysZombie(events: seq<Event>, run: seq<Moment>, answers: seq<Answer>, j: nat, k: nat, p: nat)
    requires IsRun(events, run, answers) && j < k < |run| && p != INITPROC
    requires events[j].ExitWith? && Possible(run[j], events[j]) && run[j].s.current == Some(p)
    requires forall l :: j < l <= k ==> p in run[l].s.tasks
    ensures run[k].s.tasks[p].status.Zombie? && run[k].s.tasks[p].exitCode == events[j].exitCode
  {
    hide Stepped, Possible;
    assert Taken(run[k - 1], events[k - 1], run[k], answers[k - 1]);
    if j + 1 == k {
      ExitLaw(run[j], events[j].exitCode, run[k], answers[j]);
    } else {
      StaysZombie(events, run, answers, j, k - 1, p);
      NotRunningAt(events, run, answers, k - 1, p);
      hide Placed, Closed;
      ZombieStep(run[k - 1], events[k - 1], run[k], answers[k - 1], p);
    }
  }
}
