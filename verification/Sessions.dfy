/**
  Process groups and sessions: setpgid and setsid over a table of tasks, with fork,
  thread creation, exec and exit as steps of the environment.  All members of a
  process group share one session, over every run.
 */
module Sessions {
  import opened Errno

  /** A process, that is a thread group leader, or another thread of one.  parent is the process of the real parent. */
  datatype Task =
    | Process(pgrp: nat, session: nat, leader: bool, parent: nat, forkNoExec: bool)
    | Thread(process: nat)

  type Tasks = map<nat, Task>

  predicate IsProcess(ts: Tasks, p: int) { p >= 0 && p in ts && ts[p].Process? }

  /** Process q belongs to the group g. */
  predicate Member(ts: Tasks, q: nat, g: nat) { IsProcess(ts, q) && ts[q].pgrp == g }

  /** Number n is in use as the id of a task, of a group or of a session. */
  ghost predicate InUse(ts: Tasks, n: nat)
  {
    n in ts || exists q :: IsProcess(ts, q) && (ts[q].pgrp == n || ts[q].session == n)
  }

  // ----- the invariant

  ghost predicate GroupsShareSessions(ts: Tasks)
  {
    forall p, q {:trigger IsProcess(ts, p), IsProcess(ts, q)} ::
      IsProcess(ts, p) && IsProcess(ts, q) && ts[p].pgrp == ts[q].pgrp ==> ts[p].session == ts[q].session
  }

  ghost predicate LeadersLead(ts: Tasks)
  {
    forall p :: IsProcess(ts, p) && ts[p].leader ==> ts[p].session == ts[p].pgrp == p
  }

  /** The strengthening: a live process shares its session with the group that bears its id. */
  ghost predicate NamesakesShareSessions(ts: Tasks)
  {
    forall p, q {:trigger IsProcess(ts, p), IsProcess(ts, q)} ::
      IsProcess(ts, p) && IsProcess(ts, q) && ts[q].pgrp == p ==> ts[q].session == ts[p].session
  }

  /** A live process whose id names a session leads it. */
  ghost predicate SessionsHaveLeaders(ts: Tasks)
  {
    forall p, q {:trigger IsProcess(ts, p), IsProcess(ts, q)} ::
      IsProcess(ts, p) && IsProcess(ts, q) && ts[q].session == p ==> ts[p].leader
  }

  ghost predicate Inv(ts: Tasks)
  {
    GroupsShareSessions(ts) && LeadersLead(ts) && NamesakesShareSessions(ts) && SessionsHaveLeaders(ts)
  }

  // ----- what the calls do

  /** Some process of the group g belongs to session s. */
  ghost predicate GroupIn(ts: Tasks, g: nat, s: nat)
  {
    exists q :: Member(ts, q, g) && ts[q].session == s
  }

  /**
    POSIX on setpgid: the caller may move itself, or a child of its own session that has not executed
    another program, unless the process leads a session; and only into a group of its own or into one that
    exists in the caller's session.
   */
  ghost predicate MayMove(ts: Tasks, caller: nat, p: int, g: int)
    requires IsProcess(ts, caller)
  {
    && IsProcess(ts, p) && !ts[p].leader && g >= 0
    && (if ts[p].parent == caller then ts[p].session == ts[caller].session && ts[p].forkNoExec else p == caller)
    && (g == p || GroupIn(ts, g, ts[caller].session))
  }

  /** The error that answers a move that is not allowed. */
  function Refusal(ts: Tasks, caller: nat, p: int, g: int): int
    requires IsProcess(ts, caller)
  {
    if g < 0 || (p >= 0 && p in ts && ts[p].Thread?) then -EINVAL
    else if !IsProcess(ts, p) || (p != caller && ts[p].parent != caller) then -ESRCH
    else if ts[p].parent == caller && ts[p].session == ts[caller].session && !ts[p].forkNoExec then -EACCES
    else -EPERM
  }

  function Moved(ts: Tasks, p: nat, g: nat): Tasks
    requires IsProcess(ts, p)
  {
    ts[p := ts[p].(pgrp := g)]
  }

  /** POSIX on setsid: refused to a process that leads a session or whose id is that of a group. */
  ghost predicate MayLead(ts: Tasks, caller: nat)
    requires IsProcess(ts, caller)
  {
    !ts[caller].leader && forall q :: !Member(ts, q, caller)
  }

  function Led(ts: Tasks, p: nat): Tasks
    requires IsProcess(ts, p)
  {
    ts[p := ts[p].(leader := true, session := p, pgrp := p)]
  }

  class TaskTable {
    var tasks: Tasks

    ghost predicate Valid()
      reads this
    {
      Inv(tasks)
    }

    /** pid_task(pgrp, PIDTYPE_PGID): some member of the group, if it has any. */
    method FindMember(g: nat) returns (found: bool, q: nat)
      ensures found ==> Member(tasks, q, g)
      ensures !found ==> forall r :: !Member(tasks, r, g)
    {
      if r: nat :| r in tasks && Member(tasks, r, g) {
        found, q := true, r;
      } else {
        found, q := false, 0;
      }
    }

    /**
      setpgid, called by a thread of process caller; hook is the answer of the security module.  The
      call does what POSIX allows and nothing else, whichever member of the target group it examines.
     */
    method Setpgid(caller: nat, pid: int, pgid: int, hook: int) returns (err: int)
      requires Valid() && IsProcess(tasks, caller)
      modifies this
      ensures Valid()
      ensures var p := if pid == 0 then caller else pid;
              var g := if pgid == 0 then p else pgid;
              && (err == 0 <==> MayMove(old(tasks), caller, p, g) && hook == 0)
              && err == (if MayMove(old(tasks), caller, p, g) then hook else Refusal(old(tasks), caller, p, g))
              && tasks == if err == 0 then Moved(old(tasks), p, g) else old(tasks)
    {
      var p, g := pid, pgid;
      if p == 0 {
        p := caller;
      }
      if g == 0 {
        g := p;
      }
      if g < 0 {
        return -EINVAL;
      }
      if p < 0 || p !in tasks {
        return -ESRCH;
      }
      if !tasks[p].Process? {
        return -EINVAL;
      }
      if tasks[p].parent == caller {
        if tasks[p].session != tasks[caller].session {
          return -EPERM;
        }
        if !tasks[p].forkNoExec {
          return -EACCES;
        }
      } else if p != caller {
        return -ESRCH;
      }
      if tasks[p].leader {
        return -EPERM;
      }
      if g != p {
        var found, q := FindMember(g);
        if !found || tasks[q].session != tasks[caller].session {
          return -EPERM;
        }
        assert GroupIn(tasks, g, tasks[caller].session);
      }
      if hook != 0 {
        return hook;
      }
      MoveKeeps(tasks, caller, p, g);
      if tasks[p].pgrp != g {
        tasks := tasks[p := tasks[p].(pgrp := g)];
      }
      err := 0;
    }

    /** setsid, called by a thread of process caller. */
    method Setsid(caller: nat) returns (r: int)
      requires Valid() && IsProcess(tasks, caller)
      modifies this
      ensures Valid()
      ensures MayLead(old(tasks), caller) ==> r == caller && tasks == Led(old(tasks), caller)
      ensures !MayLead(old(tasks), caller) ==> r == -EPERM && tasks == old(tasks)
    {
      if tasks[caller].leader {
        return -EPERM;
      }
      var found, q := FindMember(caller);
      if found {
        return -EPERM;
      }
      LeadKeeps(tasks, caller);
      tasks := tasks[caller := tasks[caller].(leader := true)];
      SetSpecialPids(caller);
      assert tasks == Led(old(tasks), caller);
      r := caller;
    }

    method SetSpecialPids(caller: nat)
      requires IsProcess(tasks, caller)
      modifies this
      ensures tasks == old(tasks)[caller := old(tasks)[caller].(session := caller, pgrp := caller)]
    {
      if tasks[caller].session != caller {
        tasks := tasks[caller := tasks[caller].(session := caller)];
      }
      if tasks[caller].pgrp != caller {
        tasks := tasks[caller := tasks[caller].(pgrp := caller)];
      }
    }
  }

  lemma MoveKeeps(ts: Tasks, caller: nat, p: nat, g: nat)
    requires Inv(ts) && IsProcess(ts, caller) && MayMove(ts, caller, p, g)
    ensures Inv(Moved(ts, p, g))
  {
    var ts' := Moved(ts, p, g);
    assert forall q :: IsProcess(ts', q) <==> IsProcess(ts, q);
    if g != p {
      var m :| Member(ts, m, g) && ts[m].session == ts[caller].session;
      assert IsProcess(ts, m);
    }
  }

  lemma LeadKeeps(ts: Tasks, p: nat)
    requires Inv(ts) && IsProcess(ts, p) && MayLead(ts, p)
    ensures Inv(Led(ts, p))
  {
    var ts' := Led(ts, p);
    assert forall q :: IsProcess(ts', q) <==> IsProcess(ts, q);
    assert forall q: nat :: IsProcess(ts, q) ==> !Member(ts, q, p);
  }

  // ----- runs

  datatype Event =
    | SetPgid(caller: nat, pid: nat, pgid: nat)
    | SetSid(caller: nat)
    | Fork(parent: nat, child: nat)
    | Clone(process: nat, thread: nat)
    | Exec(process: nat)
    | ExitThread(thread: nat)
    | Exit(process: nat, heir: nat)

  /** Can the event happen?  Calls that are refused change nothing and are left out. */
  ghost predicate Enabled(ts: Tasks, e: Event)
  {
    match e
    case SetPgid(caller, p, g) => IsProcess(ts, caller) && MayMove(ts, caller, p, g)
    case SetSid(caller) => IsProcess(ts, caller) && MayLead(ts, caller)
    case Fork(parent, child) => IsProcess(ts, parent) && !InUse(ts, child)
    case Clone(p, t) => IsProcess(ts, p) && !InUse(ts, t)
    case Exec(p) => IsProcess(ts, p)
    case ExitThread(t) => t in ts && ts[t].Thread?
    case Exit(p, _) => IsProcess(ts, p)
  }

  /** The children of a process that exits go to its heir. */
  function Reparented(t: Task, p: nat, heir: nat): Task
  {
    if t.Process? && t.parent == p then t.(parent := heir) else t
  }

  function After(ts: Tasks, e: Event): Tasks
    requires Enabled(ts, e)
  {
    match e
    case SetPgid(_, p, g) => Moved(ts, p, g)
    case SetSid(caller) => Led(ts, caller)
    case Fork(parent, child) => ts[child := Process(ts[parent].pgrp, ts[parent].session, false, parent, true)]
    case Clone(p, t) => ts[t := Thread(p)]
    case Exec(p) => ts[p := ts[p].(forkNoExec := false)]
    case ExitThread(t) => ts - {t}
    case Exit(p, heir) => map q | q in ts && q != p && ts[q] != Thread(p) :: Reparented(ts[q], p, heir)
  }

  ghost predicate CanRun(ts: Tasks, es: seq<Event>)
    decreases |es|
  {
    es != [] ==> Enabled(ts, es[0]) && CanRun(After(ts, es[0]), es[1..])
  }

  function AfterAll(ts: Tasks, es: seq<Event>): Tasks
    requires CanRun(ts, es)
    decreases |es|
  {
    if es == [] then ts else AfterAll(After(ts, es[0]), es[1..])
  }

  /** A process that joins, beside one that it takes after. */
  lemma ForkKeeps(ts: Tasks, parent: nat, child: nat)
    requires Inv(ts) && Enabled(ts, Fork(parent, child))
    ensures Inv(After(ts, Fork(parent, child)))
  {
    var ts' := After(ts, Fork(parent, child));
    assert forall q :: IsProcess(ts', q) <==> IsProcess(ts, q) || q == child;
    assert forall q: nat :: IsProcess(ts, q) ==> ts[q].pgrp != child && ts[q].session != child;
  }

  /** Tasks that keep their group, session and leadership, some of them gone. */
  ghost predicate Thinned(ts: Tasks, ts': Tasks)
  {
    forall q :: IsProcess(ts', q) ==>
      IsProcess(ts, q) && ts'[q].pgrp == ts[q].pgrp && ts'[q].session == ts[q].session && ts'[q].leader == ts[q].leader
  }

  lemma ThinnedKeeps(ts: Tasks, ts': Tasks)
    requires Inv(ts) && Thinned(ts, ts')
    ensures Inv(ts')
  {
  }

  lemma EventKeeps(ts: Tasks, e: Event)
    requires Inv(ts) && Enabled(ts, e)
    ensures Inv(After(ts, e))
  {
    match e
    case SetPgid(caller, p, g) => MoveKeeps(ts, caller, p, g);
    case SetSid(caller) => LeadKeeps(ts, caller);
    case Fork(parent, child) => ForkKeeps(ts, parent, child);
    case Clone(p, t) => ThinnedKeeps(ts, After(ts, e));
    case Exec(p) => ThinnedKeeps(ts, After(ts, e));
    case ExitThread(t) => ThinnedKeeps(ts, After(ts, e));
    case Exit(p, heir) => ThinnedKeeps(ts, After(ts, e));
  }

  /**
    Over every run all members of a process group share one session and session leaders keep session = group = own id.
   */
  lemma {:induction false} RunKeepsGroups(ts: Tasks, es: seq<Event>)
    requires Inv(ts) && CanRun(ts, es)
    ensures Inv(AfterAll(ts, es))
    decreases |es|
  {
    if es != [] {
      EventKeeps(ts, es[0]);
      RunKeepsGroups(After(ts, es[0]), es[1..]);
    }
  }

  /** The first process starts outside every group and session that bears its id. */
  lemma InitialInv(id: nat, group: nat, session: nat, parent: nat)
    requires group != id && session != id
    ensures Inv(map[id := Process(group, session, false, parent, true)])
  {
    var ts := map[id := Process(group, session, false, parent, true)];
    assert forall p :: IsProcess(ts, p) ==> p == id;
  }

  /** Does p survive the run? */
  predicate Survives(p: nat, es: seq<Event>)
  {
    forall i :: 0 <= i < |es| ==> !(es[i].Exit? && es[i].process == p)
  }

  lemma LeaderStays(ts: Tasks, e: Event, p: nat)
    requires Inv(ts) && Enabled(ts, e) && IsProcess(ts, p) && ts[p].leader && !(e.Exit? && e.process == p)
    ensures IsProcess(After(ts, e), p) && After(ts, e)[p].leader
  {
  }

  /** Once a session leader, always one, in the session and the group of its own id, until it exits. */
  lemma {:induction false} LeaderForLife(ts: Tasks, es: seq<Event>, p: nat)
    requires Inv(ts) && CanRun(ts, es) && IsProcess(ts, p) && ts[p].leader && Survives(p, es)
    ensures var ts' := AfterAll(ts, es); IsProcess(ts', p) && ts'[p].leader && ts'[p].session == ts'[p].pgrp == p
    decreases |es|
  {
    if es != [] {
      EventKeeps(ts, es[0]);
      LeaderStays(ts, es[0], p);
      assert forall i :: 0 <= i < |es[1..]| ==> es[1..][i] == es[i + 1];
      LeaderForLife(After(ts, es[0]), es[1..], p);
    }
  }

  /** A process that never calls setsid stays in the session it was born in. */
  lemma {:induction false} SessionForLife(ts: Tasks, es: seq<Event>, p: nat)
    requires Inv(ts) && CanRun(ts, es) && IsProcess(ts, p) && Survives(p, es)
    requires forall i :: 0 <= i < |es| ==> !(es[i].SetSid? && es[i].caller == p)
    ensures IsProcess(AfterAll(ts, es), p) && AfterAll(ts, es)[p].session == ts[p].session
    decreases |es|
  {
    if es != [] {
      EventKeeps(ts, es[0]);
      assert IsProcess(After(ts, es[0]), p) && After(ts, es[0])[p].session == ts[p].session;
      assert forall i :: 0 <= i < |es[1..]| ==> es[1..][i] == es[i + 1];
      SessionForLife(After(ts, es[0]), es[1..], p);
    }
  }

  /** A session that setsid opens is new: the caller is its only member. */
  lemma NewSession(ts: Tasks, caller: nat, q: nat)
    requires Inv(ts) && IsProcess(ts, caller) && MayLead(ts, caller) && IsProcess(ts, q) && q != caller
    ensures Led(ts, caller)[q].session != caller && Led(ts, caller)[q].pgrp != caller
  {
    assert !Member(ts, q, caller);
  }

  /** Without the strengthening the invariant is not kept: a process may own a group's id but not its session. */
  lemma WeakInvariantFails() returns (ts: Tasks, p: nat)
    ensures GroupsShareSessions(ts) && LeadersLead(ts) && IsProcess(ts, p) && MayMove(ts, p, p, p)
    ensures !GroupsShareSessions(Moved(ts, p, p))
  {
    p := 5;
    ts := map[5 := Process(1, 1, false, 9, true), 6 := Process(5, 2, false, 9, true)];
    assert IsProcess(ts, 5) && IsProcess(ts, 6);
    assert IsProcess(Moved(ts, p, p), 5) && IsProcess(Moved(ts, p, p), 6);
  }

  // ----- what must be allowed

  /** A process that the caller may move: itself, or a child that has not executed another program yet. */
  predicate OwnToMove(ts: Tasks, caller: nat, p: nat)
    requires IsProcess(ts, caller) && IsProcess(ts, p)
  {
    if ts[p].parent == caller then ts[p].session == ts[caller].session && ts[p].forkNoExec else p == caller
  }

  /** Such a process, unless it leads a session, joins any group that has a member in the caller's session. */
  lemma JoinAllowed(ts: Tasks, caller: nat, p: nat, g: nat, q: nat)
    requires IsProcess(ts, caller) && IsProcess(ts, p) && OwnToMove(ts, caller, p) && !ts[p].leader
    requires Member(ts, q, g) && ts[q].session == ts[caller].session
    ensures Enabled(ts, SetPgid(caller, p, g))
    ensures var ts' := After(ts, SetPgid(caller, p, g));
            && Member(ts', p, g) && ts'[p] == ts[p].(pgrp := g)
            && forall r :: r in ts && r != p ==> r in ts' && ts'[r] == ts[r]
  {
    assert GroupIn(ts, g, ts[caller].session);
  }

  /** And it founds its own. */
  lemma FoundAllowed(ts: Tasks, caller: nat, p: nat)
    requires IsProcess(ts, caller) && IsProcess(ts, p) && OwnToMove(ts, caller, p) && !ts[p].leader
    ensures Enabled(ts, SetPgid(caller, p, p)) && Member(After(ts, SetPgid(caller, p, p)), p, p)
  {
  }

  /** No process can be moved into a group that exists in other sessions only, but into one of its own. */
  lemma JoinRefused(ts: Tasks, caller: nat, p: nat, g: nat)
    requires IsProcess(ts, caller) && p != g && forall q :: Member(ts, q, g) ==> ts[q].session != ts[caller].session
    ensures !Enabled(ts, SetPgid(caller, p, g))
  {
  }

  /**
    Job control: the parent can move a child that it has just forked into a group of the child's own, or into the
    group of any process of the session; once the child has executed a program, it cannot.
   */
  lemma ChildMovable(ts: Tasks, parent: nat, child: nat, q: nat)
    requires Inv(ts) && Enabled(ts, Fork(parent, child)) && IsProcess(ts, q) && ts[q].session == ts[parent].session
    ensures var born := After(ts, Fork(parent, child));
            && Enabled(born, SetPgid(parent, child, child)) && Enabled(born, SetPgid(parent, child, ts[q].pgrp))
            && Enabled(born, SetSid(child))
            && Enabled(born, Exec(child))
            && forall g: nat :: !Enabled(After(born, Exec(child)), SetPgid(parent, child, g))
  {
    var born := After(ts, Fork(parent, child));
    assert parent != child && q != child by {
      assert parent in ts && q in ts;
    }
    assert Member(born, q, ts[q].pgrp) && born[q].session == born[parent].session;
    JoinAllowed(born, parent, child, ts[q].pgrp, q);
    FoundAllowed(born, parent, child);
    ChildMayLead(ts, parent, child);
  }

  /** A new child can always open a session, for no group can bear its id. */
  lemma ChildMayLead(ts: Tasks, parent: nat, child: nat)
    requires Enabled(ts, Fork(parent, child))
    ensures Enabled(After(ts, Fork(parent, child)), SetSid(child))
  {
    var born := After(ts, Fork(parent, child));
    forall q
      ensures !Member(born, q, child)
    {
      if IsProcess(born, q) {
        var like := if q == child then parent else q;
        assert IsProcess(ts, like) && born[q].pgrp == ts[like].pgrp;
      }
    }
  }

  lemma StepFixed(ts: Tasks, e: Event, p: nat)
    requires Enabled(ts, e) && IsProcess(ts, p) && !ts[p].forkNoExec && ts[p].parent != p
    requires !(e.Exit? && e.process == p)
    requires (e.SetPgid? || e.SetSid?) ==> e.caller != p
    requires e.Exit? ==> e.heir != p
    ensures var ts' := After(ts, e);
            && IsProcess(ts', p) && ts'[p].pgrp == ts[p].pgrp && ts'[p].session == ts[p].session
            && !ts'[p].forkNoExec && ts'[p].parent != p
  {
  }

  /**
    Once a process has executed a program nobody else can move it: as long as it makes neither call itself its group
    and its session stay what they are, over every run.
   */
  lemma {:induction false} ExecFixesGroup(ts: Tasks, es: seq<Event>, p: nat)
    requires CanRun(ts, es) && IsProcess(ts, p) && !ts[p].forkNoExec && ts[p].parent != p && Survives(p, es)
    requires forall i :: 0 <= i < |es| && (es[i].SetPgid? || es[i].SetSid?) ==> es[i].caller != p
    requires forall i :: 0 <= i < |es| && es[i].Exit? ==> es[i].heir != p
    ensures var ts' := AfterAll(ts, es);
            IsProcess(ts', p) && ts'[p].pgrp == ts[p].pgrp && ts'[p].session == ts[p].session
    decreases |es|
  {
    if es != [] {
      StepFixed(ts, es[0], p);
      assert forall i :: 0 <= i < |es[1..]| ==> es[1..][i] == es[i + 1];
      ExecFixesGroup(After(ts, es[0]), es[1..], p);
    }
  }

  /** The error of a refused move, from the error back to its cause. */
  lemma RefusalMeans(ts: Tasks, caller: nat, p: int, g: int)
    requires IsProcess(ts, caller) && !MayMove(ts, caller, p, g)
    ensures var err := Refusal(ts, caller, p, g);
            && (err == -EINVAL <==> g < 0 || (p >= 0 && p in ts && ts[p].Thread?))
            && (err == -ESRCH <==>
                  g >= 0 && (p < 0 || p !in ts || (ts[p].Process? && p != caller && ts[p].parent != caller)))
            && (err == -EACCES <==>
                  && g >= 0 && IsProcess(ts, p) && ts[p].parent == caller
                  && ts[p].session == ts[caller].session && !ts[p].forkNoExec)
            && (err == -EPERM ==>
                  || ts[p].leader
                  || (ts[p].parent == caller && ts[p].session != ts[caller].session)
                  || (g != p && !GroupIn(ts, g, ts[caller].session)))
  {
  }
}
