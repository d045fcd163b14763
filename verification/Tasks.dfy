/** Tasks, the process tree, the places a task can be in, and the events an agent waits for. */
module Tasks {
  import opened Bytes
  import opened Collections

  datatype Status = Ready | Running | Zombie | Blocked

  const INITPROC: nat := 0
  const EVENT_HEARTBEAT: bv32 := 1
  const EVENT_MESSAGE: bv32 := 2
  const EVENT_FILE_MODIFIED: bv32 := 4
  const MAILBOX_CAPACITY: nat := 32
  const DEFAULT_PRIORITY: nat := 16
  const MAX_PRIORITY: nat := 255

  /** What makes a task an agent, as far as events go. */
  datatype AgentExt = AgentExt(watched: bv32, interval: u64, lastBeat: u64, heartbeatPending: bool,
                               filePending: bool, mailbox: seq<seq<byte>>)

  const NEW_AGENT: AgentExt := AgentExt(0, 0, 0, false, false, [])

  /** The variables of a wait in progress: when it began, when its deadline was computed, its timeout and deadline. */
  datatype Wait = Wait(start: u63, at: u63, timeout: i64, deadline: Option<u64>)

  type u63 = x: int | 0 <= x < 0x8000_0000_0000_0000
  type i64 = x: int | -0x8000_0000_0000_0000 <= x < 0x8000_0000_0000_0000

  /**
   * A task; `wait` is its suspended wait call, if it is in one, and `area` tells whether its address space has
   * something mapped where an agent's context area goes.
   */
  datatype Tcb = Tcb(status: Status, parent: Option<nat>, children: seq<nat>, exitCode: int, priority: nat,
                     ext: Option<AgentExt>, wait: Option<Wait>, area: bool)

  datatype BlockedEntry = BlockedEntry(pid: nat, deadline: Option<u64>)

  /** All tasks by pid, and who holds them: the processor, the ready queue and the blocked list. */
  datatype Sched = Sched(tasks: map<nat, Tcb>, current: Option<nat>, ready: seq<nat>, blocked: seq<BlockedEntry>)

  /** INITPROC alone, ready. */
  function Booted(): Sched {
    Sched(map[INITPROC := Tcb(Ready, None, [], 0, DEFAULT_PRIORITY, None, None, false)], None, [INITPROC], [])
  }

  // ---------- the process tree

  ghost predicate HasParent(tasks: map<nat, Tcb>, birth: map<nat, nat>, p: nat)
    requires p in tasks
  {
    && p in birth
    && tasks[p].parent.Some?
    && var q := tasks[p].parent.value;
    && q in tasks && q in birth && birth[q] < birth[p] && p in tasks[q].children
  }

  ghost predicate ChildrenOk(tasks: map<nat, Tcb>, q: nat)
    requires q in tasks
  {
    && NoDup(tasks[q].children)
    && (tasks[q].status.Zombie? ==> tasks[q].children == [])
    && forall c :: c in tasks[q].children ==> c in tasks && tasks[c].parent == Some(q)
  }

  /**
   * Every task but INITPROC is a child of exactly one task, its parent, which is older. `birth` orders
   * the tasks by creation, pids being reused.
   */
  ghost predicate Tree(tasks: map<nat, Tcb>, birth: map<nat, nat>) {
    && INITPROC in tasks && INITPROC in birth && tasks[INITPROC].parent.None? && !tasks[INITPROC].status.Zombie?
    && (forall p :: p in tasks && p != INITPROC ==> HasParent(tasks, birth, p))
    && (forall q :: q in tasks ==> ChildrenOk(tasks, q))
  }

  /** d is p or below p. */
  ghost predicate Below(tasks: map<nat, Tcb>, birth: map<nat, nat>, p: nat, d: nat)
    requires Tree(tasks, birth) && d in tasks
    decreases if d in birth then birth[d] else 0
  {
    d == p || (d != INITPROC && Below(tasks, birth, p, TheParent(tasks, birth, d)))
  }

  ghost function TheParent(tasks: map<nat, Tcb>, birth: map<nat, nat>, p: nat): (q: nat)
    requires Tree(tasks, birth) && p in tasks && p != INITPROC
    ensures q in tasks && q in birth && p in birth && birth[q] < birth[p] && p in tasks[q].children
  {
    assert HasParent(tasks, birth, p);
    tasks[p].parent.value
  }

  /** The tree has one root: every task is below INITPROC. */
  lemma {:induction false} AllBelowInitproc(tasks: map<nat, Tcb>, birth: map<nat, nat>, p: nat)
    requires Tree(tasks, birth) && p in tasks
    ensures p in birth && Below(tasks, birth, INITPROC, p)
    decreases if p in birth then birth[p] else 0
  {
    if p != INITPROC {
      AllBelowInitproc(tasks, birth, TheParent(tasks, birth, p));
    }
  }

  lemma {:induction false} RootIsOldest(tasks: map<nat, Tcb>, birth: map<nat, nat>, p: nat)
    requires Tree(tasks, birth) && p in tasks && p != INITPROC
    ensures p in birth && birth[INITPROC] < birth[p]
    decreases if p in birth then birth[p] else 0
  {
    if TheParent(tasks, birth, p) != INITPROC {
      RootIsOldest(tasks, birth, TheParent(tasks, birth, p));
    }
  }

  /** A set that holds the root and is closed under children holds every task. */
  lemma {:induction false} ClosedIsAll(tasks: map<nat, Tcb>, birth: map<nat, nat>, found: set<nat>, p: nat)
    requires Tree(tasks, birth) && p in tasks && INITPROC in found
    requires forall q, c :: q in found && q in tasks && c in tasks[q].children ==> c in found
    ensures p in found
    decreases if p in birth then birth[p] else 0
  {
    if p != INITPROC {
      ClosedIsAll(tasks, birth, found, TheParent(tasks, birth, p));
    }
  }

  /** Tasks agree on parents and children, and on who is a zombie. */
  ghost predicate SameTree(tasks: map<nat, Tcb>, tasks': map<nat, Tcb>) {
    && tasks'.Keys == tasks.Keys
    && forall p :: p in tasks ==>
         && tasks'[p].parent == tasks[p].parent && tasks'[p].children == tasks[p].children
         && tasks'[p].status.Zombie? == tasks[p].status.Zombie?
  }

  lemma TreeKept(tasks: map<nat, Tcb>, tasks': map<nat, Tcb>, birth: map<nat, nat>)
    requires Tree(tasks, birth) && SameTree(tasks, tasks')
    ensures Tree(tasks', birth)
  {
    forall p | p in tasks' && p != INITPROC
      ensures HasParent(tasks', birth, p)
    {
      assert HasParent(tasks, birth, p);
    }
    forall q | q in tasks'
      ensures ChildrenOk(tasks', q)
    {
      assert ChildrenOk(tasks, q);
    }
  }

  /** A new youngest task below p, with a copy of p's address space. */
  function Forked(tasks: map<nat, Tcb>, p: nat, child: nat): map<nat, Tcb>
    requires p in tasks && child !in tasks
  {
    tasks[p := tasks[p].(children := tasks[p].children + [child])]
         [child := Tcb(Ready, Some(p), [], 0, tasks[p].priority, None, None, tasks[p].area)]
  }

  lemma TreeForked(tasks: map<nat, Tcb>, birth: map<nat, nat>, p: nat, child: nat, b: nat)
    requires Tree(tasks, birth) && p in tasks && child !in tasks && !tasks[p].status.Zombie?
    requires forall q :: q in tasks && q in birth ==> birth[q] < b
    ensures Tree(Forked(tasks, p, child), birth[child := b])
  {
    hide HasParent, ChildrenOk;
    var tasks' := Forked(tasks, p, child);
    assert p in birth by {
      AllBelowInitproc(tasks, birth, p);
    }
    forall x | x in tasks' && x != INITPROC
      ensures HasParent(tasks', birth[child := b], x)
    {
      ForkedParent(tasks, birth, p, child, b, x);
    }
    forall q | q in tasks'
      ensures ChildrenOk(tasks', q)
    {
      ForkedChildren(tasks, p, child, q);
    }
  }

  lemma ForkedParent(tasks: map<nat, Tcb>, birth: map<nat, nat>, p: nat, child: nat, b: nat, x: nat)
    requires p in tasks && p in birth && child !in tasks && birth[p] < b
    requires x != child ==> x in tasks && HasParent(tasks, birth, x)
    ensures HasParent(Forked(tasks, p, child), birth[child := b], x)
  {
    var kids := Forked(tasks, p, child)[p].children;
    assert kids[|tasks[p].children|] == child;
    assert x != child && tasks[x].parent == Some(p) ==> x in kids;
  }

  lemma ForkedChildren(tasks: map<nat, Tcb>, p: nat, child: nat, q: nat)
    requires p in tasks && child !in tasks && !tasks[p].status.Zombie?
    requires q != child ==> q in tasks && ChildrenOk(tasks, q)
    ensures ChildrenOk(Forked(tasks, p, child), q)
  {
    if q != child {
      assert child !in tasks[q].children;
    }
  }

  /** The children kids handed over to INITPROC. */
  function Reparented(tasks: map<nat, Tcb>, kids: seq<nat>): (tasks': map<nat, Tcb>)
    requires INITPROC in tasks
    ensures tasks'.Keys == tasks.Keys
  {
    map q | q in tasks ::
      var t := if q in kids then tasks[q].(parent := Some(INITPROC)) else tasks[q];
      if q == INITPROC then t.(children := t.children + kids) else t
  }

  /** Task p dead, its children INITPROC's. */
  function Exited(tasks: map<nat, Tcb>, p: nat, exitCode: int): map<nat, Tcb>
    requires INITPROC in tasks && p in tasks
  {
    Reparented(tasks, tasks[p].children)[p := tasks[p].(status := Zombie, exitCode := exitCode, children := [])]
  }

  lemma TreeExited(tasks: map<nat, Tcb>, birth: map<nat, nat>, p: nat, exitCode: int)
    requires Tree(tasks, birth) && p in tasks && p != INITPROC
    ensures Tree(Exited(tasks, p, exitCode), birth)
  {
    var tasks', kids := Exited(tasks, p, exitCode), tasks[p].children;
    assert HasParent(tasks, birth, p) && ChildrenOk(tasks, p) && ChildrenOk(tasks, INITPROC);
    assert INITPROC !in kids;
    assert tasks[p].parent != Some(p);
    assert p !in kids;
    forall x | x in tasks' && x != INITPROC
      ensures HasParent(tasks', birth, x)
    {
      assert HasParent(tasks, birth, x);
      RootIsOldest(tasks, birth, x);
      if x in kids {
        assert x in tasks'[INITPROC].children;
      }
    }
    forall q | q in tasks'
      ensures ChildrenOk(tasks', q)
    {
      assert ChildrenOk(tasks, q);
      ExitedChildren(tasks, p, exitCode, q);
    }
  }

  lemma ExitedChildren(tasks: map<nat, Tcb>, p: nat, exitCode: int, q: nat)
    requires INITPROC in tasks && !tasks[INITPROC].status.Zombie?
    requires p in tasks && p != INITPROC && q in tasks && ChildrenOk(tasks, q) && ChildrenOk(tasks, p)
    requires p !in tasks[p].children && INITPROC !in tasks[p].children
    ensures ChildrenOk(Exited(tasks, p, exitCode), q)
  {
    var tasks', kids := Exited(tasks, p, exitCode), tasks[p].children;
    assert q != INITPROC && q != p ==> forall c :: c in tasks[q].children ==> c !in kids;
    if q == INITPROC {
      assert forall c :: c in tasks[q].children ==> c !in kids;
      NoDupConcat(tasks[q].children, kids);
    }
  }

  /** Zombie c, the child of p at position idx, gone. */
  function Reaped(tasks: map<nat, Tcb>, p: nat, idx: nat): map<nat, Tcb>
    requires p in tasks && idx < |tasks[p].children|
  {
    (tasks - {tasks[p].children[idx]})[p := tasks[p].(children := Without(tasks[p].children, idx))]
  }

  lemma TreeReaped(tasks: map<nat, Tcb>, birth: map<nat, nat>, p: nat, idx: nat)
    requires Tree(tasks, birth) && p in tasks && idx < |tasks[p].children|
    requires tasks[p].children[idx] in tasks && tasks[tasks[p].children[idx]].status.Zombie?
    ensures Tree(Reaped(tasks, p, idx), birth)
  {
    var tasks', c := Reaped(tasks, p, idx), tasks[p].children[idx];
    assert ChildrenOk(tasks, p) && ChildrenOk(tasks, c);
    assert c in tasks[p].children;
    hide HasParent, ChildrenOk, Reaped;
    ReapedTasks(tasks, p, idx);
    forall x | x in tasks' && x != INITPROC
      ensures HasParent(tasks', birth, x)
    {
      ReapedParent(tasks, birth, p, idx, x);
    }
    forall q | q in tasks'
      ensures ChildrenOk(tasks', q)
    {
      ReapedChildren(tasks, p, idx, q);
    }
  }

  lemma ReapedTasks(tasks: map<nat, Tcb>, p: nat, idx: nat)
    requires p in tasks && idx < |tasks[p].children| && p != tasks[p].children[idx]
    ensures Reaped(tasks, p, idx).Keys == tasks.Keys - {tasks[p].children[idx]}
    ensures forall q :: q in Reaped(tasks, p, idx) && q != p ==> Reaped(tasks, p, idx)[q] == tasks[q]
    ensures Reaped(tasks, p, idx)[p] == tasks[p].(children := Without(tasks[p].children, idx))
  {
  }

  lemma ReapedParent(tasks: map<nat, Tcb>, birth: map<nat, nat>, p: nat, idx: nat, x: nat)
    requires p in tasks && idx < |tasks[p].children|
    requires x in Reaped(tasks, p, idx) && x in tasks && x != tasks[p].children[idx] && HasParent(tasks, birth, x)
    requires tasks[p].children[idx] != p
    requires tasks[p].children[idx] in tasks && tasks[tasks[p].children[idx]].children == []
    ensures HasParent(Reaped(tasks, p, idx), birth, x)
  {
    if tasks[x].parent.value == p {
      InWithout(tasks[p].children, idx, x);
    }
  }

  lemma ReapedChildren(tasks: map<nat, Tcb>, p: nat, idx: nat, q: nat)
    requires p in tasks && idx < |tasks[p].children| && ChildrenOk(tasks, p)
    requires q in tasks && q in Reaped(tasks, p, idx) && ChildrenOk(tasks, q)
    requires tasks[p].children[idx] != p
    ensures ChildrenOk(Reaped(tasks, p, idx), q)
  {
    var kids, rest := tasks[p].children, Without(tasks[p].children, idx);
    assert kids[idx] in kids;
    if q == p {
      assert forall i :: 0 <= i < |rest| ==> rest[i] != kids[idx] && rest[i] in kids;
    }
  }
}
