/**
  setpriority: the nice value of every selected task is set where that is permitted, and
  one error code is folded out of the outcomes of all of them.
 */
module Priority {
  import opened Errno

  const MIN_NICE := -20
  const MAX_NICE := 19

  const PRIO_PROCESS := 0
  const PRIO_USER := 2

  /** A selected task, and the answers about it: permission, the right to raise its priority, the security module. */
  datatype Target = Target(task: nat, permitted: bool, canNice: bool, hook: int)

  function Apart(a: int, b: int): nat { if a < b then b - a else a - b }

  /** The nearest value of the range. */
  function Clamp(n: int): (r: int)
    ensures MIN_NICE <= r <= MAX_NICE && forall m :: MIN_NICE <= m <= MAX_NICE ==> Apart(r, n) <= Apart(m, n)
  {
    if n < MIN_NICE then MIN_NICE else if n > MAX_NICE then MAX_NICE else n
  }

  /** The outcome for one task whose nice value is now nice: 0 or an error. */
  function Outcome(t: Target, nice: int, value: int): int
  {
    if !t.permitted then -EPERM
    else if value < nice && !t.canNice then -EACCES
    else t.hook
  }

  type Nices = map<nat, int>

  /** The targets are distinct tasks. */
  predicate Selection(nices: Nices, ts: seq<Target>)
  {
    && (forall i :: 0 <= i < |ts| ==> ts[i].task in nices)
    && forall i, j :: 0 <= i < j < |ts| ==> ts[i].task != ts[j].task
  }

  /** The outcome for the i-th target. */
  function At(nices: Nices, ts: seq<Target>, value: int, i: nat): int
    requires i < |ts| && Selection(nices, ts)
  {
    Outcome(ts[i], nices[ts[i].task], value)
  }

  // ----- the fold over the tasks

  /** The error code after the first n targets. */
  function Folded(nices: Nices, ts: seq<Target>, value: int, n: nat): int
    requires n <= |ts| && Selection(nices, ts)
  {
    if n == 0 then -ESRCH
    else
      var before, now := Folded(nices, ts, value, n - 1), At(nices, ts, value, n - 1);
      if now != 0 then now else if before == -ESRCH then 0 else before
  }

  /** Exactly the first n targets whose outcome is good have the new value. */
  ghost predicate SetUpTo(nices: Nices, nices': Nices, ts: seq<Target>, value: int, n: nat)
    requires n <= |ts| && Selection(nices, ts)
  {
    && nices'.Keys == nices.Keys
    && (forall i :: 0 <= i < n ==>
          nices'[ts[i].task] == if At(nices, ts, value, i) == 0 then value else nices[ts[i].task])
    && forall k :: k in nices && (forall i :: 0 <= i < n ==> ts[i].task != k) ==> nices'[k] == nices[k]
  }

  datatype Call = Call(which: int, targets: seq<Target>, niceval: int)

  /** What one call does to the nice values. */
  ghost predicate Called(nices: Nices, c: Call, nices': Nices)
  {
    && Selection(nices, c.targets)
    && if PRIO_PROCESS <= c.which <= PRIO_USER
       then SetUpTo(nices, nices', c.targets, Clamp(c.niceval), |c.targets|)
       else nices' == nices
  }

  class Scheduler {
    var nices: Nices

    method SetOnePrio(t: Target, value: int, error: int) returns (err: int)
      requires t.task in nices
      modifies this
      ensures var o := Outcome(t, old(nices)[t.task], value);
              && nices == (if o == 0 then old(nices)[t.task := value] else old(nices))
              && err == if o != 0 then o else if error == -ESRCH then 0 else error
      ensures nices[t.task] == value <==>
                || old(nices)[t.task] == value
                || (t.permitted && t.hook == 0 && (old(nices)[t.task] < value || t.canNice))
    {
      err := error;
      if !t.permitted {
        return -EPERM;
      }
      if value < nices[t.task] && !t.canNice {
        return -EACCES;
      }
      if t.hook != 0 {
        return t.hook;
      }
      if err == -ESRCH {
        err := 0;
      }
      nices := nices[t.task := value];
    }

    /** which tells how the targets were selected; they are found before the first one is changed. */
    method Setpriority(which: int, ts: seq<Target>, niceval: int) returns (error: int)
      requires Selection(nices, ts)
      modifies this
      ensures !(PRIO_PROCESS <= which <= PRIO_USER) ==> error == -EINVAL && nices == old(nices)
      ensures PRIO_PROCESS <= which <= PRIO_USER ==>
                && error == Folded(old(nices), ts, Clamp(niceval), |ts|)
                && SetUpTo(old(nices), nices, ts, Clamp(niceval), |ts|)
      ensures Called(old(nices), Call(which, ts, niceval), nices)
    {
      error := -EINVAL;
      if which > PRIO_USER || which < PRIO_PROCESS {
        return;
      }
      error := -ESRCH;
      var value := niceval;
      if value < MIN_NICE {
        value := MIN_NICE;
      }
      if value > MAX_NICE {
        value := MAX_NICE;
      }
      ghost var before := nices;
      for i := 0 to |ts|
        invariant SetUpTo(before, nices, ts, value, i)
        invariant error == Folded(before, ts, value, i)
      {
        assert nices[ts[i].task] == before[ts[i].task];
        ghost var mid := nices;
        error := SetOnePrio(ts[i], value, error);
        SetNext(before, mid, nices, ts, value, i);
      }
    }
  }

  lemma SetNext(nices: Nices, mid: Nices, nices': Nices, ts: seq<Target>, value: int, i: nat)
    requires i < |ts| && Selection(nices, ts) && SetUpTo(nices, mid, ts, value, i)
    requires nices' == if At(nices, ts, value, i) == 0 then mid[ts[i].task := value] else mid
    ensures SetUpTo(nices, nices', ts, value, i + 1)
  {
    assert mid[ts[i].task] == nices[ts[i].task];
  }

  // ----- who gets the value, and why not

  /** A permitted target to which the security module does not object gets the value, unless that is below its own and
      it has not the right to a lower one; otherwise it keeps its own. */
  lemma GetsValueIff(nices: Nices, c: Call, nices': Nices, i: nat)
    requires Called(nices, c, nices') && PRIO_PROCESS <= c.which <= PRIO_USER && i < |c.targets|
    ensures var t, value := c.targets[i], Clamp(c.niceval);
            && t.task in nices'
            && (nices'[t.task] == value <==>
                  || nices[t.task] == value
                  || (t.permitted && t.hook == 0 && (nices[t.task] < value || t.canNice)))
            && (nices'[t.task] != value ==> nices'[t.task] == nices[t.task])
  {
    assert At(nices, c.targets, Clamp(c.niceval), i) == 0 || nices'[c.targets[i].task] == nices[c.targets[i].task];
  }

  /** The outcome for one target, from the error back to its cause. */
  lemma OutcomeMeans(t: Target, nice: int, value: int)
    requires t.hook == 0
    ensures Outcome(t, nice, value) == -EPERM <==> !t.permitted
    ensures Outcome(t, nice, value) == -EACCES <==> t.permitted && value < nice && !t.canNice
    ensures Outcome(t, nice, value) == 0 <==> t.permitted && (nice <= value || t.canNice)
  {
  }

  /** The security module is asked last, and its answer stands. */
  lemma HookMeans(t: Target, nice: int, value: int, hook: int)
    requires t.hook == 0
    ensures Outcome(t.(hook := hook), nice, value)
         == if Outcome(t, nice, value) == 0 then hook else Outcome(t, nice, value)
  {
  }

  // ----- runs

  ghost predicate Run(nices: Nices, cs: seq<Call>, nices': Nices)
    decreases |cs|
  {
    if cs == [] then nices' == nices else exists mid :: Called(nices, cs[0], mid) && Run(mid, cs[1..], nices')
  }

  /** No target of the call may be given a lower value. */
  predicate Ordinary(c: Call) { forall i :: 0 <= i < |c.targets| ==> !c.targets[i].canNice }

  lemma CallNeverLowers(nices: Nices, c: Call, nices': Nices, k: nat)
    requires Called(nices, c, nices') && Ordinary(c) && k in nices
    ensures k in nices' && nices[k] <= nices'[k]
  {
    if PRIO_PROCESS <= c.which <= PRIO_USER {
      if i :| 0 <= i < |c.targets| && c.targets[i].task == k {
        GetsValueIff(nices, c, nices', i);
      }
    }
  }

  /** Over every run that never grants the right, no task's nice value falls. */
  lemma {:induction false} RunNeverLowers(nices: Nices, cs: seq<Call>, nices': Nices, k: nat)
    requires Run(nices, cs, nices') && k in nices && forall j :: 0 <= j < |cs| ==> Ordinary(cs[j])
    ensures k in nices' && nices[k] <= nices'[k]
    decreases |cs|
  {
    if cs != [] {
      var mid :| Called(nices, cs[0], mid) && Run(mid, cs[1..], nices');
      CallNeverLowers(nices, cs[0], mid, k);
      RunNeverLowers(mid, cs[1..], nices', k);
    }
  }

  lemma {:induction false} RunInRange(nices: Nices, cs: seq<Call>, nices': Nices, k: nat)
    requires Run(nices, cs, nices') && k in nices
    ensures k in nices' && (nices'[k] == nices[k] || MIN_NICE <= nices'[k] <= MAX_NICE)
    decreases |cs|
  {
    if cs != [] {
      var mid :| Called(nices, cs[0], mid) && Run(mid, cs[1..], nices');
      RunInRange(mid, cs[1..], nices', k);
      if i :| 0 <= i < |cs[0].targets| && cs[0].targets[i].task == k {
        assert PRIO_PROCESS <= cs[0].which <= PRIO_USER || mid[k] == nices[k];
      }
    }
  }

  /** Some run without that right takes task k from its nice value to v. */
  ghost predicate Reaches(nices: Nices, k: nat, v: int)
  {
    exists cs, nices' :: Run(nices, cs, nices') && (forall j :: 0 <= j < |cs| ==> Ordinary(cs[j]))
                      && k in nices' && nices'[k] == v
  }

  /** Without the right a task can be taken to exactly the values of the range that are not below its own. */
  lemma ReachesIff(nices: Nices, k: nat, v: int)
    requires k in nices
    ensures Reaches(nices, k, v) <==> v == nices[k] || (nices[k] < v && MIN_NICE <= v <= MAX_NICE)
  {
    if v == nices[k] {
      assert Run(nices, [], nices);
    } else if nices[k] < v && MIN_NICE <= v <= MAX_NICE {
      var c := Call(PRIO_PROCESS, [Target(k, true, false, 0)], v);
      var nices' := nices[k := v];
      assert Clamp(v) == v;
      assert At(nices, c.targets, v, 0) == 0;
      assert Called(nices, c, nices') && Run(nices', [c][1..], nices');
      assert Run(nices, [c], nices');
    }
    forall cs, nices' | Run(nices, cs, nices') && (forall j :: 0 <= j < |cs| ==> Ordinary(cs[j]))
      ensures k in nices' && (nices'[k] == nices[k] || (nices[k] < nices'[k] && MIN_NICE <= nices'[k] <= MAX_NICE))
    {
      RunNeverLowers(nices, cs, nices', k);
      RunInRange(nices, cs, nices', k);
    }
  }

  // ----- what the folded code means

  /** Target i is the last one that failed. */
  ghost predicate LastFailure(nices: Nices, ts: seq<Target>, value: int, i: nat)
    requires Selection(nices, ts)
  {
    i < |ts| && At(nices, ts, value, i) != 0 && forall j :: i < j < |ts| ==> At(nices, ts, value, j) == 0
  }

  ghost predicate AllGood(nices: Nices, ts: seq<Target>, value: int, n: nat)
    requires n <= |ts| && Selection(nices, ts)
  {
    forall i :: 0 <= i < n ==> At(nices, ts, value, i) == 0
  }

  lemma {:induction false} FoldedGood(nices: Nices, ts: seq<Target>, value: int, n: nat)
    requires n <= |ts| && Selection(nices, ts) && AllGood(nices, ts, value, n)
    ensures Folded(nices, ts, value, n) == if n == 0 then -ESRCH else 0
  {
    if n > 0 {
      FoldedGood(nices, ts, value, n - 1);
    }
  }

  lemma {:induction false} FoldedAfter(nices: Nices, ts: seq<Target>, value: int, i: nat, n: nat)
    requires i < n <= |ts| && Selection(nices, ts) && LastFailure(nices, ts, value, i)
    ensures Folded(nices, ts, value, n)
         == if At(nices, ts, value, i) == -ESRCH && i + 1 < n then 0 else At(nices, ts, value, i)
  {
    if i + 1 < n {
      FoldedAfter(nices, ts, value, i, n - 1);
    }
  }

  lemma {:induction false} SomeLastFailure(nices: Nices, ts: seq<Target>, value: int, n: nat) returns (i: nat)
    requires n <= |ts| && Selection(nices, ts) && !AllGood(nices, ts, value, n)
    requires forall j :: n <= j < |ts| ==> At(nices, ts, value, j) == 0
    ensures LastFailure(nices, ts, value, i)
    decreases n
  {
    if At(nices, ts, value, n - 1) != 0 {
      i := n - 1;
    } else {
      i := SomeLastFailure(nices, ts, value, n - 1);
    }
  }

  /** The security module never answers "no such process". */
  predicate HooksKnow(ts: seq<Target>) { forall i :: 0 <= i < |ts| ==> ts[i].hook != -ESRCH }

  /**
    The code says: no task, if there was none; success, if there were some and all went well; otherwise
    the error of the last task that failed.
   */
  lemma FoldedMeans(nices: Nices, ts: seq<Target>, value: int)
    requires Selection(nices, ts) && HooksKnow(ts)
    ensures Folded(nices, ts, value, |ts|) == -ESRCH <==> ts == []
    ensures Folded(nices, ts, value, |ts|) == 0 <==> ts != [] && AllGood(nices, ts, value, |ts|)
    ensures forall i :: LastFailure(nices, ts, value, i) ==> Folded(nices, ts, value, |ts|) == At(nices, ts, value, i)
  {
    if AllGood(nices, ts, value, |ts|) {
      FoldedGood(nices, ts, value, |ts|);
    } else {
      var i := SomeLastFailure(nices, ts, value, |ts|);
      FoldedAfter(nices, ts, value, i, |ts|);
      forall j | LastFailure(nices, ts, value, j)
        ensures Folded(nices, ts, value, |ts|) == At(nices, ts, value, j)
      {
        FoldedAfter(nices, ts, value, j, |ts|);
      }
    }
  }

  /** In general the last failure is reported exactly unless it says "no such process" and a task after it went well. */
  lemma LastFailureReportedIff(nices: Nices, ts: seq<Target>, value: int, i: nat)
    requires Selection(nices, ts) && LastFailure(nices, ts, value, i)
    ensures Folded(nices, ts, value, |ts|) == At(nices, ts, value, i)
       <==> !(At(nices, ts, value, i) == -ESRCH && i + 1 < |ts|)
  {
    FoldedAfter(nices, ts, value, i, |ts|);
  }

  /** For instance: the module answers so for the first of two tasks, and the call reports success. */
  lemma HiddenFailure() returns (nices: Nices, ts: seq<Target>)
    ensures Selection(nices, ts) && !AllGood(nices, ts, 5, |ts|) && Folded(nices, ts, 5, |ts|) == 0
  {
    nices := map[1 := 0, 2 := 0];
    ts := [Target(1, true, true, -ESRCH), Target(2, true, true, 0)];
    assert At(nices, ts, 5, 0) == -ESRCH && At(nices, ts, 5, 1) == 0;
    assert Folded(nices, ts, 5, 0) == -ESRCH;
    assert Folded(nices, ts, 5, 1) == -ESRCH;
  }
}
