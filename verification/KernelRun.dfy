/** Whole runs of the kernel. */
module KernelRun {
  import opened Collections
  import opened Tasks
  import opened Scheduling
  import opened KernelSteps
  import opened KernelSpec
  import opened AgentKernel

  lemma ValidIsInvariant(k: Kernel)
    requires k.Valid()
    ensures Invariant(k.State(), History(k.birth, k.births, k.clock, k.expired))
    ensures Closed(k.State()) && NoDup(k.ready) && NoDup(Pids(k.blocked))
  {
    InPlace(k.State());
  }

  /** The kernel, at time now, can take e. The methods below take one kind of event each. */
  ghost predicate CanTake(k: Kernel, now: u63, e: Event)
    reads k
  {
    k.Valid() && k.clock <= now && Closed(k.State()) && Possible(Moment(k.State(), now, true), e)
  }

  method TakeSchedule(k: Kernel, now: u63, e: Event) returns (a: Answer)
    requires CanTake(k, now, e) && (e.Idle? || e.Yield?)
    modifies k
    ensures k.Valid() && k.clock <= now + Elapsed(e) && Effect(old(k.State()), now, e, k.State(), a)
  {
    hide Kernel.Valid;
    match e {
      case Idle =>
        k.Dispatch();
        a := Silent;
      case Yield =>
        k.Suspend();
        a := Silent;
    }
  }

  method TakeProcess(k: Kernel, now: u63, e: Event) returns (a: Answer)
    requires CanTake(k, now, e) && (e.ExitWith? || e.ForkAs? || e.Reap?)
    modifies k
    ensures k.Valid() && k.clock <= now + Elapsed(e) && Effect(old(k.State()), now, e, k.State(), a)
  {
    hide Kernel.Valid;
    match e {
      case ExitWith(exitCode) =>
        var shutdown := k.Exit(exitCode);
        a := Silent;
      case ForkAs(child) =>
        k.Fork(child);
        a := Silent;
      case Reap(pid) =>
        var result, exitCode := k.WaitPid(pid);
        a := Reaping(result, exitCode);
    }
  }

  method TakeRank(k: Kernel, now: u63, e: Event) returns (a: Answer)
    requires CanTake(k, now, e) && (e.Prioritize? || e.BecomeAgent? || e.Exec?)
    modifies k
    ensures k.Valid() && k.clock <= now + Elapsed(e) && Effect(old(k.State()), now, e, k.State(), a)
  {
    hide Kernel.Valid;
    match e {
      case Prioritize(n) =>
        var r := k.SetPriority(n);
        a := Code(r);
      case BecomeAgent =>
        var panics := k.AgentCreate();
        a := if panics then Panicked else Silent;
      case Exec(area) =>
        k.Exec(area);
        a := Silent;
    }
  }

  method TakeMask(k: Kernel, now: u63, e: Event) returns (a: Answer)
    requires CanTake(k, now, e) && (e.Watch? || e.Unwatch?)
    modifies k
    ensures k.Valid() && k.clock <= now + Elapsed(e) && Effect(old(k.State()), now, e, k.State(), a)
  {
    hide Kernel.Valid;
    match e {
      case Watch(mask) =>
        var r := k.AgentWatch(mask);
        a := Code(r);
      case Unwatch(mask) =>
        var r := k.AgentUnwatch(mask);
        a := Code(r);
    }
  }

  method TakeBeat(k: Kernel, now: u63, e: Event) returns (a: Answer)
    requires CanTake(k, now, e) && (e.Heartbeat? || e.StopHeartbeat?)
    modifies k
    ensures k.Valid() && k.clock <= now + Elapsed(e) && Effect(old(k.State()), now, e, k.State(), a)
  {
    hide Kernel.Valid;
    match e {
      case Heartbeat(interval) =>
        var r := k.HeartbeatSet(interval, now);
        a := Code(r);
      case StopHeartbeat =>
        var r := k.HeartbeatStop();
        a := Code(r);
    }
  }

  method TakeMail(k: Kernel, now: u63, e: Event) returns (a: Answer)
    requires CanTake(k, now, e) && (e.Receive? || e.Send?)
    modifies k
    ensures k.Valid() && k.clock <= now + Elapsed(e) && Effect(old(k.State()), now, e, k.State(), a)
  {
    hide Kernel.Valid;
    match e {
      case Receive(buf, bufLen) =>
        var r, bytes := k.MailboxRecv(buf, bufLen);
        a := Message(r, bytes);
      case Send(target, payload) =>
        var delivered := k.DeliverMessage(target, payload);
        ValidIsInvariant(k);
        a := Delivered(delivered);
    }
  }

  method TakeWait(k: Kernel, now: u63, e: Event) returns (a: Answer)
    requires CanTake(k, now, e) && e.WaitFor?
    modifies k
    ensures k.Valid() && k.clock <= now + Elapsed(e) && Effect(old(k.State()), now, e, k.State(), a)
  {
    hide Kernel.Valid;
    var at := now + e.toStart + e.toDeadline;
    var r := k.AgentWait(e.timeout, now + e.toStart, at, at + e.toRound);
    a := Waiting(r);
  }

  method TakeContinue(k: Kernel, now: u63, e: Event) returns (a: Answer)
    requires CanTake(k, now, e) && e.Continue?
    modifies k
    ensures k.Valid() && k.clock <= now + Elapsed(e) && Effect(old(k.State()), now, e, k.State(), a)
  {
    hide Kernel.Valid;
    var r := k.Resume(now + e.toRound);
    a := Waiting(r);
  }

  method TakeSignal(k: Kernel, now: u63, e: Event) returns (a: Answer)
    requires CanTake(k, now, e) && (e.FileChanged? || e.TimerInterrupt?)
    modifies k
    ensures k.Valid() && k.clock <= now + Elapsed(e) && Effect(old(k.State()), now, e, k.State(), a)
  {
    hide Kernel.Valid, TimerDone;
    match e {
      case FileChanged =>
        k.BroadcastFileEvent();
        ValidIsInvariant(k);
        a := Silent;
      case TimerInterrupt(b, c) =>
        k.Timer(now + b, now + b + c);
        a := Silent;
    }
  }

  /** Takes one event: the kernel's method has the effect that the transition system gives the event. */
  method Take(k: Kernel, now: u63, e: Event) returns (later: u63, a: Answer)
    requires k.Valid() && k.clock <= now && Possible(Moment(k.State(), now, true), e)
    modifies k
    ensures k.Valid() && k.clock <= later == now + Elapsed(e)
    ensures Closed(old(k.State())) && Effect(old(k.State()), now, e, k.State(), a)
  {
    ValidIsInvariant(k);
    hide Kernel.Valid, Invariant, Effect, Closed;
    later := now + Elapsed(e);
    if e.Idle? || e.Yield? {
      a := TakeSchedule(k, now, e);
    } else if e.ExitWith? || e.ForkAs? || e.Reap? {
      a := TakeProcess(k, now, e);
    } else if e.Prioritize? || e.BecomeAgent? || e.Exec? {
      a := TakeRank(k, now, e);
    } else if e.Watch? || e.Unwatch? {
      a := TakeMask(k, now, e);
    } else if e.Heartbeat? || e.StopHeartbeat? {
      a := TakeBeat(k, now, e);
    } else if e.Receive? || e.Send? {
      a := TakeMail(k, now, e);
    } else if e.WaitFor? {
      a := TakeWait(k, now, e);
    } else if e.Continue? {
      a := TakeContinue(k, now, e);
    } else {
      a := TakeSignal(k, now, e);
    }
  }

  /** From the start, takes every event that can be taken; the answers and the states on the way are a run. */
  method Run(events: seq<Event>) returns (k: Kernel, answers: seq<Answer>, ghost run: seq<Moment>)
    ensures fresh(k) && k.Valid() && IsRun(events, run, answers)
    ensures k.State() == run[|events|].s
    ensures forall i :: 0 <= i <= |events| ==> Safe(run[i].s)
  {
    hide Kernel.Valid, Safe, Possible, Effect, Closed;
    k := new Kernel();
    var now: u63, on := 0, true;
    answers, run := [], [Moment(k.State(), now, on)];
    for i := 0 to |events|
      invariant fresh(k) && k.Valid() && k.clock <= now
      invariant IsRun(events[..i], run, answers) && run[i] == Moment(k.State(), now, on)
    {
      var possible := IsPossible(k, now, on, events[i]);
      var a := Silent;
      ghost var m := run[i];
      if possible {
        OnlyOn(m, events[i]);
        var halts := IsHalting(k, now, on, events[i]);
        on := !halts;
        now, a := Take(k, now, events[i]);
      }
      ghost var m2 := Moment(k.State(), now, on);
      assert Taken(m, events[i], m2, a);
      Longer(events[..i], run, answers, events[i], m2, a);
      assert events[..i + 1] == events[..i] + [events[i]];
      answers, run := answers + [a], run + [m2];
    }
    assert events[..|events|] == events;
    forall i | 0 <= i <= |events|
      ensures Safe(run[i].s)
    {
      RunIsSafe(events, run, answers, i);
    }
  }

  lemma OnlyOn(m: Moment, e: Event)
    requires Possible(m, e)
    ensures m.on
  {
  }

  /** A run goes on. */
  lemma Longer(events: seq<Event>, run: seq<Moment>, answers: seq<Answer>, e: Event, m2: Moment, a: Answer)
    requires IsRun(events, run, answers) && Taken(run[|events|], e, m2, a)
    ensures IsRun(events + [e], run + [m2], answers + [a])
  {
    hide Taken;
  }

  method IsPossible(k: Kernel, now: nat, on: bool, e: Event) returns (possible: bool)
    ensures possible == Possible(Moment(k.State(), now, on), e)
  {
    possible := Possible(Moment(Sched(k.tasks, k.current, k.ready, k.blocked), now, on), e);
  }

  method IsHalting(k: Kernel, now: nat, on: bool, e: Event) returns (halts: bool)
    ensures halts == Halts(Moment(k.State(), now, on), e)
  {
    halts := Halts(Moment(Sched(k.tasks, k.current, k.ready, k.blocked), now, on), e);
  }
}
