/**
  Resource limits: do_prlimit and prlimit64 on the limits of a process, the conversion
  between native and 64-bit limits for every native width, and what holds over every
  run of limit changes.
 */
module Limits {
  import opened Errno
  import opened Bytes
  import Credentials

  const RLIM_NLIMITS := 16
  const RLIMIT_CPU := 0
  const RLIMIT_NOFILE := 7

  /** A soft and a hard limit. */
  datatype Rlimit = Rlimit(cur: nat, max: nat)

  // ----- native and 64-bit limits

  const RLIM64_INFINITY: nat := 0xffff_ffff_ffff_ffff

  /** top is the largest native unsigned long, which stands for infinity. */
  predicate Width(top: nat) { top <= RLIM64_INFINITY }

  predicate IsInfinity64(top: nat, x: nat) { if top < RLIM64_INFINITY then x >= top else x == RLIM64_INFINITY }

  function Widen(top: nat, x: nat): nat { if x == top then RLIM64_INFINITY else x }

  /** The cast keeps what the native width can hold. */
  function Narrow(top: nat, x: nat): nat { if IsInfinity64(top, x) then top else x % (top + 1) }

  function ToRlimit64(top: nat, r: Rlimit): Rlimit { Rlimit(Widen(top, r.cur), Widen(top, r.max)) }

  function FromRlimit64(top: nat, r: Rlimit): Rlimit { Rlimit(Narrow(top, r.cur), Narrow(top, r.max)) }

  /** The cast never cuts anything off: a 64-bit limit is narrowed to the nearest native one. */
  lemma NarrowSaturates(top: nat, x: nat)
    requires Width(top) && x <= RLIM64_INFINITY
    ensures Narrow(top, x) == if x < top then x else top
  {
    if x < top {
      assert x % (top + 1) == x;
    }
  }

  /** Native to 64 bits and back is the identity. */
  lemma NativeRoundTrip(top: nat, r: Rlimit)
    requires Width(top) && r.cur <= top && r.max <= top
    ensures FromRlimit64(top, ToRlimit64(top, r)) == r
  {
    NarrowSaturates(top, Widen(top, r.cur));
    NarrowSaturates(top, Widen(top, r.max));
  }

  /** 64 bits to native and back is the identity exactly for limits that are below native infinity or infinite. */
  lemma WideRoundTripIff(top: nat, x: nat)
    requires Width(top) && x <= RLIM64_INFINITY
    ensures Widen(top, Narrow(top, x)) == x <==> x < top || x == RLIM64_INFINITY
  {
    NarrowSaturates(top, x);
  }

  /** Soft stays at most hard, and infinity stays infinity, in both directions. */
  lemma ConversionsKeepOrder(top: nat, x: nat, y: nat)
    requires Width(top) && x <= y
    ensures y <= RLIM64_INFINITY ==> Narrow(top, x) <= Narrow(top, y)
    ensures y <= top ==> Widen(top, x) <= Widen(top, y)
  {
    if y <= RLIM64_INFINITY {
      NarrowSaturates(top, x);
      NarrowSaturates(top, y);
    }
  }

  // ----- changing limits

  /** The answers from outside: is the target alive, the capability, the security module, the ceiling on open files. */
  datatype Answers = Answers(alive: bool, capable: bool, hook: int, nrOpen: nat)

  type Table = t: seq<Rlimit> | |t| == RLIM_NLIMITS witness seq(RLIM_NLIMITS, _ => Rlimit(0, 0))

  /** May resource be given the limit new? */
  predicate Allowed(t: Table, resource: nat, limit: Rlimit, a: Answers)
  {
    && resource < RLIM_NLIMITS && limit.cur <= limit.max && a.alive && a.hook == 0
    && (resource == RLIMIT_NOFILE ==> limit.max <= a.nrOpen)
    && (limit.max > t[resource].max ==> a.capable)
  }

  /** The error that answers a call that is refused. */
  function Refusal(t: Table, resource: nat, limit: Option<Rlimit>, a: Answers): int
  {
    if resource >= RLIM_NLIMITS || (limit.Some? && limit.value.cur > limit.value.max) then -EINVAL
    else if limit.Some? && resource == RLIMIT_NOFILE && limit.value.max > a.nrOpen then -EPERM
    else if !a.alive then -ESRCH
    else if limit.Some? && limit.value.max > t[resource].max && !a.capable then -EPERM
    else a.hook
  }

  /** An immediate expiry of processor time is turned into one second. */
  function Adjusted(resource: nat, limit: Rlimit): Rlimit
  {
    if resource == RLIMIT_CPU && limit.cur == 0 then limit.(cur := 1) else limit
  }

  function Changed(t: Table, resource: nat, limit: Rlimit, a: Answers): Table
  {
    if Allowed(t, resource, limit, a) then t[resource := Adjusted(resource, limit)] else t
  }

  class Process {
    var rlim: Table

    constructor (rlim: Table)
      ensures this.rlim == rlim
    {
      this.rlim := rlim;
    }

    method DoPrlimit(resource: nat, limit: Option<Rlimit>, a: Answers) returns (retval: int, was: Option<Rlimit>)
      modifies this`rlim
      ensures limit.Some? ==> rlim == Changed(old(rlim), resource, limit.value, a)
      ensures limit.Some? ==> (retval == 0 <==> Allowed(old(rlim), resource, limit.value, a))
      ensures limit.Some? && retval == 0 ==>
                && rlim[resource] == (if resource == RLIMIT_CPU && limit.value.cur == 0 then Rlimit(1, limit.value.max)
                                      else limit.value)
                && forall i :: 0 <= i < RLIM_NLIMITS && i != resource ==> rlim[i] == old(rlim)[i]
      ensures limit.None? ==> rlim == old(rlim) && (retval == 0 <==> resource < RLIM_NLIMITS && a.alive)
      ensures retval == 0 ==> resource < RLIM_NLIMITS && was == Some(old(rlim)[resource])
      ensures retval != 0 ==> rlim == old(rlim) && was == None && retval == Refusal(old(rlim), resource, limit, a)
    {
      was := None;
      if resource >= RLIM_NLIMITS {
        return -EINVAL, None;
      }
      if limit.Some? {
        if limit.value.cur > limit.value.max {
          return -EINVAL, None;
        }
        if resource == RLIMIT_NOFILE && limit.value.max > a.nrOpen {
          return -EPERM, None;
        }
      }
      if !a.alive {
        return -ESRCH, None;
      }
      retval := 0;
      var wanted := limit;
      if limit.Some? {
        if limit.value.max > rlim[resource].max && !a.capable {
          retval := -EPERM;
        }
        if retval == 0 {
          retval := a.hook;
        }
        if resource == RLIMIT_CPU && limit.value.cur == 0 {
          wanted := Some(limit.value.(cur := 1));
        }
      }
      if retval == 0 {
        was := Some(rlim[resource]);
        if wanted.Some? {
          rlim := rlim[resource := wanted.value];
        }
      }
    }

    /** prlimit64 on this process, once the caller has been found to be permitted. */
    method Prlimit64(top: nat, resource: nat, limit64: Option<Rlimit>, permitted: bool, a: Answers)
      returns (ret: int, was64: Option<Rlimit>)
      requires Width(top)
      requires (limit64.Some? ==> limit64.value.cur <= RLIM64_INFINITY && limit64.value.max <= RLIM64_INFINITY)
      modifies this`rlim
      ensures !permitted ==> ret == -EPERM && rlim == old(rlim) && was64 == None
      ensures permitted && limit64.Some? ==> rlim == Changed(old(rlim), resource, FromRlimit64(top, limit64.value), a)
      ensures permitted && limit64.None? ==> rlim == old(rlim)
      ensures ret == 0 ==> resource < RLIM_NLIMITS && was64 == Some(ToRlimit64(top, old(rlim)[resource]))
      ensures ret != 0 ==> rlim == old(rlim) && was64 == None
      ensures permitted && limit64.Some? ==>
                (ret == 0 <==> Allowed(old(rlim), resource, FromRlimit64(top, limit64.value), a))
      ensures permitted && limit64.None? ==> (ret == 0 <==> resource < RLIM_NLIMITS && a.alive)
      ensures permitted && ret != 0 ==>
                ret == Refusal(old(rlim), resource,
                               if limit64.Some? then Some(FromRlimit64(top, limit64.value)) else None, a)
    {
      if !permitted {
        return -EPERM, None;
      }
      var limit := if limit64.Some? then Some(FromRlimit64(top, limit64.value)) else None;
      var was;
      ret, was := DoPrlimit(resource, limit, a);
      was64 := if ret == 0 then Some(ToRlimit64(top, was.value)) else None;
    }
  }

  /** check_prlimit_permission: oneself, a process with the caller's real ids in all three places, or by capability. */
  predicate MayLimit(self: bool, uid: nat, gid: nat, target: Credentials.Ids, targetGroup: Credentials.Ids,
                     capable: bool)
  {
    self || (target.Base() == {uid} && targetGroup.Base() == {gid}) || capable
  }

  method CheckPrlimitPermission(self: bool, uid: nat, gid: nat, target: Credentials.Ids, targetGroup: Credentials.Ids,
                                capable: bool) returns (err: int)
    ensures err == if MayLimit(self, uid, gid, target, targetGroup, capable) then 0 else -EPERM
  {
    if self {
      return 0;
    }
    if uid == target.eid && uid == target.sid && uid == target.rid
       && gid == targetGroup.eid && gid == targetGroup.sid && gid == targetGroup.rid {
      return 0;
    }
    if capable {
      return 0;
    }
    assert target.rid in target.Base() && target.eid in target.Base() && target.sid in target.Base();
    assert targetGroup.rid in targetGroup.Base() && targetGroup.eid in targetGroup.Base();
    assert targetGroup.sid in targetGroup.Base();
    err := -EPERM;
  }

  // ----- runs

  /** Soft limits are at most the hard ones; for processor time, at most one second if the hard limit is zero. */
  ghost predicate Ordered(t: Table)
  {
    forall i :: 0 <= i < RLIM_NLIMITS ==> t[i].cur <= t[i].max || (i == RLIMIT_CPU && t[i] == Rlimit(1, 0))
  }

  datatype Request = Request(resource: nat, limit: Rlimit, answers: Answers)

  function AfterRequests(t: Table, rs: seq<Request>): Table
  {
    if rs == [] then t
    else
      var n := |rs| - 1;
      Changed(AfterRequests(t, rs[..n]), rs[n].resource, rs[n].limit, rs[n].answers)
  }

  /** Over every run soft limits stay at most the hard ones. */
  lemma {:induction false} RunKeepsOrder(t: Table, rs: seq<Request>)
    requires Ordered(t)
    ensures Ordered(AfterRequests(t, rs))
  {
    if rs != [] {
      RunKeepsOrder(t, rs[..|rs| - 1]);
    }
  }

  /** Only a request for no processor time at all, hard and soft, leaves a soft limit above the hard one. */
  lemma StrictOrderIff(t: Table, resource: nat, limit: Rlimit, a: Answers)
    requires Allowed(t, resource, limit, a)
    ensures var now := Changed(t, resource, limit, a)[resource];
            now.cur <= now.max <==> !(resource == RLIMIT_CPU && limit == Rlimit(0, 0))
  {
  }

  /** Over every run without the capability no hard limit ever rises, so no soft limit passes the first hard one. */
  lemma {:induction false} RunNeverRaises(t: Table, rs: seq<Request>, i: nat)
    requires i < RLIM_NLIMITS && forall k :: 0 <= k < |rs| ==> !rs[k].answers.capable
    ensures AfterRequests(t, rs)[i].max <= t[i].max
    ensures Ordered(t) ==>
              AfterRequests(t, rs)[i].cur <= t[i].max || (i == RLIMIT_CPU && AfterRequests(t, rs)[i].cur == 1)
  {
    if rs != [] {
      RunNeverRaises(t, rs[..|rs| - 1], i);
    }
    if Ordered(t) {
      RunKeepsOrder(t, rs);
      assert AfterRequests(t, rs)[i].cur <= AfterRequests(t, rs)[i].max || i == RLIMIT_CPU;
    }
  }

  /**
    A query returns exactly what the last allowed request asked for, whatever was asked for other resources since; only
    zero processor time has become one second.
   */
  lemma {:induction false} LastWins(t: Table, rs: seq<Request>, resource: nat, limit: Rlimit, a: Answers,
                                    others: seq<Request>)
    requires Allowed(AfterRequests(t, rs), resource, limit, a)
    requires forall k :: 0 <= k < |others| ==> others[k].resource != resource
    ensures AfterRequests(t, rs + [Request(resource, limit, a)] + others)[resource]
         == if resource == RLIMIT_CPU && limit.cur == 0 then Rlimit(1, limit.max) else limit
    decreases |others|
  {
    var all := rs + [Request(resource, limit, a)] + others;
    if others == [] {
      assert all[..|all| - 1] == rs;
    } else {
      var n := |others| - 1;
      LastWins(t, rs, resource, limit, a, others[..n]);
      assert all[..|all| - 1] == rs + [Request(resource, limit, a)] + others[..n];
      assert all[|all| - 1] == others[n];
    }
  }

  /** A 64-bit limit as the caller gets it back: what native words cannot hold has become infinite. */
  function Returned(top: nat, x: nat): nat { if x < top then x else RLIM64_INFINITY }

  /** The same through prlimit64, for every native width. */
  lemma LastWins64(top: nat, t: Table, rs: seq<Request>, resource: nat, limit: Rlimit, a: Answers, others: seq<Request>)
    requires 1 < top && Width(top) && limit.cur <= RLIM64_INFINITY && limit.max <= RLIM64_INFINITY
    requires Allowed(AfterRequests(t, rs), resource, FromRlimit64(top, limit), a)
    requires forall k :: 0 <= k < |others| ==> others[k].resource != resource
    ensures ToRlimit64(top, AfterRequests(t, rs + [Request(resource, FromRlimit64(top, limit), a)] + others)[resource])
         == Rlimit(if resource == RLIMIT_CPU && limit.cur == 0 then 1 else Returned(top, limit.cur),
                   Returned(top, limit.max))
  {
    LastWins(t, rs, resource, FromRlimit64(top, limit), a, others);
    NarrowSaturates(top, limit.cur);
    NarrowSaturates(top, limit.max);
  }

  /** Requests that the target does not live to see, or to which the security module objects, change nothing. */
  lemma {:induction false} ObjectionsStand(t: Table, rs: seq<Request>)
    requires forall k :: 0 <= k < |rs| ==> !rs[k].answers.alive || rs[k].answers.hook != 0
    ensures AfterRequests(t, rs) == t
  {
    if rs != [] {
      ObjectionsStand(t, rs[..|rs| - 1]);
    }
  }

  /** Over every run, even with the capability, the ceiling bounds how far the limit on open files rises. */
  lemma {:induction false} OpenFilesBounded(t: Table, rs: seq<Request>, ceiling: nat)
    requires t[RLIMIT_NOFILE].max <= ceiling && forall k :: 0 <= k < |rs| ==> rs[k].answers.nrOpen <= ceiling
    ensures AfterRequests(t, rs)[RLIMIT_NOFILE].max <= ceiling
  {
    if rs != [] {
      OpenFilesBounded(t, rs[..|rs| - 1], ceiling);
    }
  }

  /** Some run without the capability takes the limit of a resource to the given one. */
  ghost predicate Reaches(t: Table, resource: nat, limit: Rlimit)
    requires resource < RLIM_NLIMITS
  {
    exists rs: seq<Request> ::
      (forall k :: 0 <= k < |rs| ==> !rs[k].answers.capable) && AfterRequests(t, rs)[resource] == limit
  }

  /**
    The present limit, those that are in order, not above the present hard limit and, for processor time, not zero;
    and for processor time also soft 1 with hard 0.
   */
  ghost predicate Within(t: Table, resource: nat, limit: Rlimit)
    requires resource < RLIM_NLIMITS
  {
    || limit == t[resource]
    || (limit.cur <= limit.max <= t[resource].max && (resource == RLIMIT_CPU ==> limit.cur > 0))
    || (resource == RLIMIT_CPU && limit == Rlimit(1, 0))
  }

  /** Without the capability exactly those limits are within reach. */
  lemma ReachesIff(t: Table, resource: nat, limit: Rlimit)
    requires resource < RLIM_NLIMITS
    ensures Reaches(t, resource, limit) <==> Within(t, resource, limit)
  {
    var none: seq<Request> := [];
    assert AfterRequests(t, none) == t;
    var asked := if resource == RLIMIT_CPU && limit == Rlimit(1, 0) then Rlimit(0, 0) else limit;
    var rs := [Request(resource, asked, Answers(true, false, 0, limit.max))];
    assert rs[..0] == none;
    if asked.cur <= asked.max <= t[resource].max && (resource == RLIMIT_CPU ==> limit.cur > 0) {
      assert AfterRequests(t, rs)[resource] == limit;
    }
    forall rs: seq<Request> | (forall k :: 0 <= k < |rs| ==> !rs[k].answers.capable)
      ensures Within(t, resource, AfterRequests(t, rs)[resource])
    {
      RunWithin(t, rs, resource);
    }
  }

  lemma {:induction false} RunWithin(t: Table, rs: seq<Request>, resource: nat)
    requires resource < RLIM_NLIMITS && forall k :: 0 <= k < |rs| ==> !rs[k].answers.capable
    ensures Within(t, resource, AfterRequests(t, rs)[resource])
  {
    if rs != [] {
      RunWithin(t, rs[..|rs| - 1], resource);
    }
  }

  /** The error of a refused request, from the error back to its cause, if the security module does not object. */
  lemma RefusalMeans(t: Table, resource: nat, limit: Rlimit, a: Answers)
    requires a.hook == 0 && !Allowed(t, resource, limit, a)
    ensures var err := Refusal(t, resource, Some(limit), a);
            && (err == -EINVAL <==> resource >= RLIM_NLIMITS || limit.cur > limit.max)
            && (err == -ESRCH <==>
                  && resource < RLIM_NLIMITS && limit.cur <= limit.max && !a.alive
                  && (resource == RLIMIT_NOFILE ==> limit.max <= a.nrOpen))
            && (err == -EPERM <==>
                  && resource < RLIM_NLIMITS && limit.cur <= limit.max
                  && ((resource == RLIMIT_NOFILE && limit.max > a.nrOpen) || a.alive))
  {
  }

  /** The answer of the security module is returned if nothing else stands against the request. */
  lemma HookReported(t: Table, resource: nat, limit: Rlimit, a: Answers)
    requires Allowed(t, resource, limit, a.(hook := 0))
    ensures Refusal(t, resource, Some(limit), a) == a.hook
  {
  }

  /** A stranger without the capability may limit a process exactly if all six of its ids are the caller's real ones. */
  lemma StrangerMayLimitIff(uid: nat, gid: nat, target: Credentials.Ids, targetGroup: Credentials.Ids)
    ensures MayLimit(false, uid, gid, target, targetGroup, false) <==>
              && target.rid == uid && target.eid == uid && target.sid == uid
              && targetGroup.rid == gid && targetGroup.eid == gid && targetGroup.sid == gid
  {
    assert target.rid in target.Base() && target.eid in target.Base() && target.sid in target.Base();
    assert targetGroup.rid in targetGroup.Base() && targetGroup.eid in targetGroup.Base();
    assert targetGroup.sid in targetGroup.Base();
  }
}
