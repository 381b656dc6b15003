/**
  The set*uid and set*gid calls: how the real, effective, saved and file system ids
  of a process change, which ids it can still reach without the capability, and when
  it has given the others up for good.
 */
module Credentials {
  import opened Errno

  /** The argument (uid_t) -1, which leaves an id alone. */
  const KEEP := 0xffff_ffff

  datatype Ids = Ids(rid: nat, eid: nat, sid: nat, fsid: nat)
  {
    function Set(): set<nat> { {rid, eid, sid, fsid} }

    /** The ids that permission checks compare with: the file system id does not count. */
    function Base(): set<nat> { {rid, eid, sid} }
  }

  datatype Id = Valid(k: nat) | Invalid

  /** How the ids of the caller's user namespace map to the kernel's; not every number is mapped. */
  type Namespace = nat -> Id

  /**
    The answers a call gets from outside: whether the new credentials could be allocated, the capability,
    set_user, and the security module (negative means refused; setfsuid takes any answer but zero for a refusal).
   */
  datatype Answers = Answers(alloc: bool, capable: bool, user: bool, hook: int)

  // ----- what the calls compute

  /** An argument is acceptable if it is KEEP or mapped. */
  predicate Ok(ns: Namespace, id: nat) { id == KEEP || ns(id).Valid? }

  /** The id that an argument stands for, the old one if it is KEEP. */
  function Pick(ns: Namespace, id: nat, was: nat): nat
    requires Ok(ns, id)
  {
    if id == KEEP then was else ns(id).k
  }

  /** Without the capability an id may change only to one of those given. */
  predicate Permitted(ns: Namespace, id: nat, among: set<nat>, capable: bool)
    requires Ok(ns, id)
  {
    id == KEEP || ns(id).k in among || capable
  }

  function ReIds(ns: Namespace, i: Ids, r: nat, e: nat): Ids
    requires Ok(ns, r) && Ok(ns, e)
  {
    var r1, e1 := Pick(ns, r, i.rid), Pick(ns, e, i.eid);
    Ids(r1, e1, if r != KEEP || (e != KEEP && e1 != i.rid) then e1 else i.sid, e1)
  }

  function ResIds(ns: Namespace, i: Ids, r: nat, e: nat, s: nat): Ids
    requires Ok(ns, r) && Ok(ns, e) && Ok(ns, s)
  {
    Ids(Pick(ns, r, i.rid), Pick(ns, e, i.eid), Pick(ns, s, i.sid), Pick(ns, e, i.eid))
  }

  function SetIds(i: Ids, k: nat, capable: bool): Ids
  {
    if capable then Ids(k, k, k, k) else i.(eid := k, fsid := k)
  }

  datatype Call =
    | SetRe(r: nat, e: nat)
    | Set(id: nat)
    | SetRes(r: nat, e: nat, s: nat)
    | SetFs(id: nat)

  /** Are the arguments acceptable and the change permitted? */
  predicate Allowed(ns: Namespace, i: Ids, c: Call, capable: bool)
  {
    match c
    case SetRe(r, e) =>
      && Ok(ns, r) && Ok(ns, e)
      && Permitted(ns, r, {i.rid, i.eid}, capable) && Permitted(ns, e, i.Base(), capable)
    case Set(id) => ns(id).Valid? && (ns(id).k in {i.rid, i.sid} || capable)
    case SetRes(r, e, s) =>
      && Ok(ns, r) && Ok(ns, e) && Ok(ns, s)
      && Permitted(ns, r, i.Base(), capable)
      && Permitted(ns, e, i.Base(), capable)
      && Permitted(ns, s, i.Base(), capable)
    case SetFs(id) => ns(id).Valid? && (ns(id).k in i.Set() || capable)
  }

  /** The ids after an allowed call that nothing else stops. */
  function Result(ns: Namespace, i: Ids, c: Call, capable: bool): Ids
    requires Allowed(ns, i, c, capable)
  {
    match c
    case SetRe(r, e) => ReIds(ns, i, r, e)
    case Set(id) => SetIds(i, ns(id).k, capable)
    case SetRes(r, e, s) => ResIds(ns, i, r, e, s)
    case SetFs(id) => i.(fsid := ns(id).k)
  }

  /** The call goes through: a user structure is needed only if the real id changes. */
  predicate GoesThrough(ns: Namespace, i: Ids, c: Call, a: Answers)
  {
    && a.alloc && Allowed(ns, i, c, a.capable) && (a.hook == 0 || (a.hook > 0 && !c.SetFs?))
    && (Result(ns, i, c, a.capable).rid != i.rid ==> a.user)
  }

  /** The ids after a call: those of the result, or the old ones if it fails. */
  function Next(ns: Namespace, i: Ids, c: Call, a: Answers): Ids
  {
    if GoesThrough(ns, i, c, a) then Result(ns, i, c, a.capable) else i
  }

  /** The error of a call that does not go through. */
  function Failure(ns: Namespace, i: Ids, c: Call, a: Answers): int
  {
    if c.SetRe? && !(Ok(ns, c.r) && Ok(ns, c.e)) then -EINVAL
    else if c.Set? && ns(c.id).Invalid? then -EINVAL
    else if c.SetRes? && !(Ok(ns, c.r) && Ok(ns, c.e) && Ok(ns, c.s)) then -EINVAL
    else if !a.alloc then -ENOMEM
    else if !Allowed(ns, i, c, a.capable) then -EPERM
    else if Result(ns, i, c, a.capable).rid != i.rid && !a.user then -EAGAIN
    else a.hook
  }

  // ----- the calls

  class Task {
    const users: Namespace
    const groups: Namespace
    /** How the kernel's ids are shown to the caller, unmapped ones included. */
    const userShown: nat -> nat
    const groupShown: nat -> nat
    var uid: Ids
    var gid: Ids

    constructor (users: Namespace, groups: Namespace, userShown: nat -> nat, groupShown: nat -> nat, uid: Ids, gid: Ids)
      ensures this.users == users && this.groups == groups && this.uid == uid && this.gid == gid
      ensures this.userShown == userShown && this.groupShown == groupShown
    {
      this.users, this.groups, this.userShown, this.groupShown := users, groups, userShown, groupShown;
      this.uid, this.gid := uid, gid;
    }

    method Setreuid(ruid: nat, euid: nat, a: Answers) returns (ret: int)
      modifies this`uid
      ensures uid == Next(users, old(uid), SetRe(ruid, euid), a)
      ensures ret == if GoesThrough(users, old(uid), SetRe(ruid, euid), a) then 0
                     else Failure(users, old(uid), SetRe(ruid, euid), a)
    {
      var kruid, keuid := users(ruid), users(euid);
      if ruid != KEEP && !kruid.Valid? {
        return -EINVAL;
      }
      if euid != KEEP && !keuid.Valid? {
        return -EINVAL;
      }
      if !a.alloc {
        return -ENOMEM;
      }
      var next := uid;
      if ruid != KEEP {
        next := next.(rid := kruid.k);
        if uid.rid != kruid.k && uid.eid != kruid.k && !a.capable {
          return -EPERM;
        }
      }
      if euid != KEEP {
        next := next.(eid := keuid.k);
        if uid.rid != keuid.k && uid.eid != keuid.k && uid.sid != keuid.k && !a.capable {
          return -EPERM;
        }
      }
      if next.rid != uid.rid {
        if !a.user {
          return -EAGAIN;
        }
      }
      if ruid != KEEP || (euid != KEEP && keuid.k != uid.rid) {
        next := next.(sid := next.eid);
      }
      next := next.(fsid := next.eid);
      if a.hook < 0 {
        return a.hook;
      }
      uid := next;
      ret := 0;
    }

    method Setuid(id: nat, a: Answers) returns (ret: int)
      modifies this`uid
      ensures uid == Next(users, old(uid), Set(id), a)
      ensures ret == if GoesThrough(users, old(uid), Set(id), a) then 0 else Failure(users, old(uid), Set(id), a)
    {
      var kuid := users(id);
      if !kuid.Valid? {
        return -EINVAL;
      }
      if !a.alloc {
        return -ENOMEM;
      }
      var next := uid;
      if a.capable {
        next := next.(sid := kuid.k, rid := kuid.k);
        if kuid.k != uid.rid {
          if !a.user {
            return -EAGAIN;
          }
        }
      } else if kuid.k != uid.rid && kuid.k != next.sid {
        return -EPERM;
      }
      next := next.(fsid := kuid.k, eid := kuid.k);
      if a.hook < 0 {
        return a.hook;
      }
      uid := next;
      ret := 0;
    }

    method Setresuid(ruid: nat, euid: nat, suid: nat, a: Answers) returns (ret: int)
      modifies this`uid
      ensures uid == Next(users, old(uid), SetRes(ruid, euid, suid), a)
      ensures ret == if GoesThrough(users, old(uid), SetRes(ruid, euid, suid), a) then 0
                     else Failure(users, old(uid), SetRes(ruid, euid, suid), a)
      ensures ret == 0 ==>
                && (if ruid == KEEP then uid.rid == old(uid).rid else users(ruid) == Valid(uid.rid))
                && (if euid == KEEP then uid.eid == old(uid).eid else users(euid) == Valid(uid.eid))
                && (if suid == KEEP then uid.sid == old(uid).sid else users(suid) == Valid(uid.sid))
                && uid.fsid == uid.eid
    {
      var kruid, keuid, ksuid := users(ruid), users(euid), users(suid);
      if ruid != KEEP && !kruid.Valid? {
        return -EINVAL;
      }
      if euid != KEEP && !keuid.Valid? {
        return -EINVAL;
      }
      if suid != KEEP && !ksuid.Valid? {
        return -EINVAL;
      }
      if !a.alloc {
        return -ENOMEM;
      }
      var next := uid;
      if !a.capable {
        if ruid != KEEP && kruid.k != uid.rid && kruid.k != uid.eid && kruid.k != uid.sid {
          return -EPERM;
        }
        if euid != KEEP && keuid.k != uid.rid && keuid.k != uid.eid && keuid.k != uid.sid {
          return -EPERM;
        }
        if suid != KEEP && ksuid.k != uid.rid && ksuid.k != uid.eid && ksuid.k != uid.sid {
          return -EPERM;
        }
      }
      if ruid != KEEP {
        next := next.(rid := kruid.k);
        if kruid.k != uid.rid {
          if !a.user {
            return -EAGAIN;
          }
        }
      }
      if euid != KEEP {
        next := next.(eid := keuid.k);
      }
      if suid != KEEP {
        next := next.(sid := ksuid.k);
      }
      next := next.(fsid := next.eid);
      if a.hook < 0 {
        return a.hook;
      }
      uid := next;
      ret := 0;
    }

    /** Returns the old file system id, as the caller knows it, whether or not it was changed. */
    method Setfsuid(id: nat, a: Answers) returns (old_fsuid: nat)
      modifies this`uid
      ensures old_fsuid == userShown(old(uid).fsid)
      ensures uid == Next(users, old(uid), SetFs(id), a)
    {
      old_fsuid := userShown(uid.fsid);
      var kuid := users(id);
      if !kuid.Valid? {
        return;
      }
      if !a.alloc {
        return;
      }
      var next := uid;
      if kuid.k == uid.rid || kuid.k == uid.eid || kuid.k == uid.sid || kuid.k == uid.fsid || a.capable {
        if kuid.k != uid.fsid {
          next := next.(fsid := kuid.k);
          if a.hook == 0 {
            uid := next;
          }
        }
      }
    }

    // Group ids need no user structure and no security module is asked about them.

    method Setregid(rgid: nat, egid: nat, alloc: bool, capable: bool) returns (ret: int)
      modifies this`gid
      ensures var c, a := SetRe(rgid, egid), Answers(alloc, capable, true, 0);
              && gid == Next(groups, old(gid), c, a)
              && ret == if GoesThrough(groups, old(gid), c, a) then 0 else Failure(groups, old(gid), c, a)
    {
      var krgid, kegid := groups(rgid), groups(egid);
      if rgid != KEEP && !krgid.Valid? {
        return -EINVAL;
      }
      if egid != KEEP && !kegid.Valid? {
        return -EINVAL;
      }
      if !alloc {
        return -ENOMEM;
      }
      var next := gid;
      if rgid != KEEP {
        if gid.rid == krgid.k || gid.eid == krgid.k || capable {
          next := next.(rid := krgid.k);
        } else {
          return -EPERM;
        }
      }
      if egid != KEEP {
        if gid.rid == kegid.k || gid.eid == kegid.k || gid.sid == kegid.k || capable {
          next := next.(eid := kegid.k);
        } else {
          return -EPERM;
        }
      }
      if rgid != KEEP || (egid != KEEP && kegid.k != gid.rid) {
        next := next.(sid := next.eid);
      }
      gid := next.(fsid := next.eid);
      ret := 0;
    }

    method Setgid(id: nat, alloc: bool, capable: bool) returns (ret: int)
      modifies this`gid
      ensures var c, a := Set(id), Answers(alloc, capable, true, 0);
              && gid == Next(groups, old(gid), c, a)
              && ret == if GoesThrough(groups, old(gid), c, a) then 0 else Failure(groups, old(gid), c, a)
    {
      var kgid := groups(id);
      if !kgid.Valid? {
        return -EINVAL;
      }
      if !alloc {
        return -ENOMEM;
      }
      if capable {
        gid := Ids(kgid.k, kgid.k, kgid.k, kgid.k);
      } else if kgid.k == gid.rid || kgid.k == gid.sid {
        gid := gid.(eid := kgid.k, fsid := kgid.k);
      } else {
        return -EPERM;
      }
      ret := 0;
    }

    method Setresgid(rgid: nat, egid: nat, sgid: nat, alloc: bool, capable: bool) returns (ret: int)
      modifies this`gid
      ensures var c, a := SetRes(rgid, egid, sgid), Answers(alloc, capable, true, 0);
              && gid == Next(groups, old(gid), c, a)
              && ret == if GoesThrough(groups, old(gid), c, a) then 0 else Failure(groups, old(gid), c, a)
      ensures ret == 0 ==>
                && (if rgid == KEEP then gid.rid == old(gid).rid else groups(rgid) == Valid(gid.rid))
                && (if egid == KEEP then gid.eid == old(gid).eid else groups(egid) == Valid(gid.eid))
                && (if sgid == KEEP then gid.sid == old(gid).sid else groups(sgid) == Valid(gid.sid))
                && gid.fsid == gid.eid
    {
      var krgid, kegid, ksgid := groups(rgid), groups(egid), groups(sgid);
      if rgid != KEEP && !krgid.Valid? {
        return -EINVAL;
      }
      if egid != KEEP && !kegid.Valid? {
        return -EINVAL;
      }
      if sgid != KEEP && !ksgid.Valid? {
        return -EINVAL;
      }
      if !alloc {
        return -ENOMEM;
      }
      if !capable {
        if rgid != KEEP && krgid.k != gid.rid && krgid.k != gid.eid && krgid.k != gid.sid {
          return -EPERM;
        }
        if egid != KEEP && kegid.k != gid.rid && kegid.k != gid.eid && kegid.k != gid.sid {
          return -EPERM;
        }
        if sgid != KEEP && ksgid.k != gid.rid && ksgid.k != gid.eid && ksgid.k != gid.sid {
          return -EPERM;
        }
      }
      var next := gid;
      if rgid != KEEP {
        next := next.(rid := krgid.k);
      }
      if egid != KEEP {
        next := next.(eid := kegid.k);
      }
      if sgid != KEEP {
        next := next.(sid := ksgid.k);
      }
      gid := next.(fsid := next.eid);
      ret := 0;
    }

    method Setfsgid(id: nat, alloc: bool, capable: bool) returns (old_fsgid: nat)
      modifies this`gid
      ensures old_fsgid == groupShown(old(gid).fsid)
      ensures gid == Next(groups, old(gid), SetFs(id), Answers(alloc, capable, true, 0))
    {
      old_fsgid := groupShown(gid.fsid);
      var kgid := groups(id);
      if !kgid.Valid? || !alloc {
        return;
      }
      if kgid.k == gid.rid || kgid.k == gid.eid || kgid.k == gid.sid || kgid.k == gid.fsid || capable {
        if kgid.k != gid.fsid {
          gid := gid.(fsid := kgid.k);
        }
      }
    }
  }

  // ----- which argument sets which id

  /**
    setresuid: each argument other than KEEP becomes its own id, KEEP leaves that id alone, and the file system id
    follows the effective one.
   */
  lemma SetresSets(ns: Namespace, i: Ids, r: nat, e: nat, s: nat, a: Answers)
    requires GoesThrough(ns, i, SetRes(r, e, s), a)
    ensures var n := Next(ns, i, SetRes(r, e, s), a);
            && (if r == KEEP then n.rid == i.rid else ns(r) == Valid(n.rid))
            && (if e == KEEP then n.eid == i.eid else ns(e) == Valid(n.eid))
            && (if s == KEEP then n.sid == i.sid else ns(s) == Valid(n.sid))
            && n.fsid == n.eid
  {
  }

  /** An argument decides its own id and no other: calls that agree in it agree in that id. */
  lemma SetresApart(ns: Namespace, i: Ids, c: Call, c': Call, a: Answers, a': Answers)
    requires c.SetRes? && c'.SetRes? && GoesThrough(ns, i, c, a) && GoesThrough(ns, i, c', a')
    ensures c.r == c'.r ==> Next(ns, i, c, a).rid == Next(ns, i, c', a').rid
    ensures c.e == c'.e ==> Next(ns, i, c, a).eid == Next(ns, i, c', a').eid
    ensures c.s == c'.s ==> Next(ns, i, c, a).sid == Next(ns, i, c', a').sid
  {
    SetresSets(ns, i, c.r, c.e, c.s, a);
    SetresSets(ns, i, c'.r, c'.e, c'.s, a');
  }

  /** r, e and s are how the caller writes the three ids. */
  predicate Writes(ns: Namespace, r: nat, e: nat, s: nat, i: Ids)
  {
    r != KEEP && e != KEEP && s != KEEP && ns(r) == Valid(i.rid) && ns(e) == Valid(i.eid) && ns(s) == Valid(i.sid)
  }

  /**
    The three old ids undo every setresuid: without the capability exactly if none of them has been given up, with it
    always.
   */
  lemma SetresUndone(ns: Namespace, i: Ids, c: Call, a: Answers, r: nat, e: nat, s: nat, capable: bool)
    requires c.SetRes? && GoesThrough(ns, i, c, a) && Writes(ns, r, e, s, i)
    ensures var n := Next(ns, i, c, a);
            var back := (SetRes(r, e, s), Answers(true, capable, true, 0));
            && (GoesThrough(ns, n, back.0, back.1) <==> capable || {i.rid, i.eid, i.sid} <= {n.rid, n.eid, n.sid})
            && (GoesThrough(ns, n, back.0, back.1) ==>
                  AfterCalls(ns, i, [(c, a), back]) == Ids(i.rid, i.eid, i.sid, i.eid))
  {
    var n := Next(ns, i, c, a);
    var back := (SetRes(r, e, s), Answers(true, capable, true, 0));
    TwoCalls(ns, i, (c, a), back);
    if GoesThrough(ns, n, back.0, back.1) {
      SetresSets(ns, n, r, e, s, back.1);
    }
  }

  /**
    setreuid: the two arguments become the real and the effective id.  The saved id stays as it was only if no real id
    is given, and either no effective id or the old real one; otherwise it becomes the new effective id.
   */
  lemma SetreSets(ns: Namespace, i: Ids, r: nat, e: nat, a: Answers)
    requires GoesThrough(ns, i, SetRe(r, e), a)
    ensures var n := Next(ns, i, SetRe(r, e), a);
            && (if r == KEEP then n.rid == i.rid else ns(r) == Valid(n.rid))
            && (if e == KEEP then n.eid == i.eid else ns(e) == Valid(n.eid))
            && n.sid == (if r == KEEP && (e == KEEP || ns(e) == Valid(i.rid)) then i.sid else n.eid)
            && n.fsid == n.eid
  {
  }

  /** So setreuid(-1, e) saves e exactly if e is not the old real id, unless that was the saved id already. */
  lemma SavedIff(ns: Namespace, i: Ids, e: nat, a: Answers)
    requires e != KEEP && GoesThrough(ns, i, SetRe(KEEP, e), a)
    ensures ns(e) == Valid(Next(ns, i, SetRe(KEEP, e), a).sid) <==> ns(e) != Valid(i.rid) || i.sid == i.rid
  {
    SetreSets(ns, i, KEEP, e, a);
  }

  /** setuid: with the capability all four ids become the one asked for, without it the effective and the fs id. */
  lemma SetSets(ns: Namespace, i: Ids, id: nat, a: Answers)
    requires GoesThrough(ns, i, Set(id), a)
    ensures var n := Next(ns, i, Set(id), a);
            && ns(id) == Valid(n.eid) && n.fsid == n.eid
            && if a.capable then n.rid == n.sid == n.eid else n.rid == i.rid && n.sid == i.sid
  {
  }

  /** setfsuid touches no other id. */
  lemma SetFsSets(ns: Namespace, i: Ids, id: nat, a: Answers)
    requires GoesThrough(ns, i, SetFs(id), a)
    ensures var n := Next(ns, i, SetFs(id), a);
            ns(id) == Valid(n.fsid) && n.rid == i.rid && n.eid == i.eid && n.sid == i.sid
  {
  }

  /** Without the capability, and if nothing else stops them, exactly these calls go through. */
  lemma UnprivilegedIff(ns: Namespace, i: Ids, c: Call, a: Answers)
    requires a == Answers(true, false, true, 0)
    ensures c.SetRe? ==>
              (GoesThrough(ns, i, c, a) <==>
                 && (c.r == KEEP || ns(c.r) in {Valid(i.rid), Valid(i.eid)})
                 && (c.e == KEEP || ns(c.e) in {Valid(i.rid), Valid(i.eid), Valid(i.sid)}))
    ensures c.Set? ==> (GoesThrough(ns, i, c, a) <==> ns(c.id) in {Valid(i.rid), Valid(i.sid)})
    ensures c.SetRes? ==>
              (GoesThrough(ns, i, c, a) <==>
                 forall x :: x in {c.r, c.e, c.s} && x != KEEP ==> ns(x) in {Valid(i.rid), Valid(i.eid), Valid(i.sid)})
    ensures c.SetFs? ==>
              (GoesThrough(ns, i, c, a) <==> ns(c.id) in {Valid(i.rid), Valid(i.eid), Valid(i.sid), Valid(i.fsid)})
  {
    if c.SetRes? {
      assert c.r in {c.r, c.e, c.s} && c.e in {c.r, c.e, c.s} && c.s in {c.r, c.e, c.s};
    }
  }

  /** The numbers that a call is given. */
  function Arguments(c: Call): set<nat>
  {
    match c
    case SetRe(r, e) => {r, e}
    case Set(id) => {id}
    case SetRes(r, e, s) => {r, e, s}
    case SetFs(id) => {id}
  }

  /** With the capability, and if nothing else stops it, a call goes through exactly if its arguments are mapped. */
  lemma PrivilegedIff(ns: Namespace, i: Ids, c: Call, a: Answers)
    requires a == Answers(true, true, true, 0)
    ensures GoesThrough(ns, i, c, a) <==>
              forall x :: x in Arguments(c) ==> ns(x).Valid? || (x == KEEP && (c.SetRe? || c.SetRes?))
  {
    match c
    case SetRe(r, e) => assert r in Arguments(c) && e in Arguments(c);
    case Set(id) => assert id in Arguments(c);
    case SetRes(r, e, s) => assert r in Arguments(c) && e in Arguments(c) && s in Arguments(c);
    case SetFs(id) => assert id in Arguments(c);
  }

  /** A new user structure is needed exactly if the real id changes. */
  lemma UserNeededIff(ns: Namespace, i: Ids, c: Call, a: Answers)
    requires a.user && GoesThrough(ns, i, c, a)
    ensures GoesThrough(ns, i, c, a.(user := false)) <==> Next(ns, i, c, a).rid == i.rid
  {
  }

  /** Without memory, or if the security module objects, no call goes through, and the module's answer is returned. */
  lemma ObjectionsStand(ns: Namespace, i: Ids, c: Call, a: Answers)
    requires !a.alloc || a.hook < 0
    ensures Next(ns, i, c, a) == i
    ensures !c.SetFs? && GoesThrough(ns, i, c, a.(hook := 0)) ==> Failure(ns, i, c, a) == a.hook
  {
  }

  /** The error, from the error back to its cause, of a call that the security module does not stop. */
  lemma FailureMeans(ns: Namespace, i: Ids, c: Call, a: Answers)
    requires a.hook == 0 && !c.SetFs? && !GoesThrough(ns, i, c, a)
    ensures var err := Failure(ns, i, c, a);
            var mapped := forall x :: x in Arguments(c) ==> ns(x).Valid? || (x == KEEP && !c.Set?);
            && (err == -EINVAL <==> !mapped)
            && (err == -ENOMEM <==> mapped && !a.alloc)
            && (err == -EPERM <==> mapped && a.alloc && !GoesThrough(ns, i, c, a.(user := true)))
            && (err == -EAGAIN <==> mapped && a.alloc && GoesThrough(ns, i, c, a.(user := true)))
  {
    match c
    case SetRe(r, e) => assert r in Arguments(c) && e in Arguments(c);
    case Set(id) => assert id in Arguments(c);
    case SetRes(r, e, s) => assert r in Arguments(c) && e in Arguments(c) && s in Arguments(c);
  }

  // ----- runs

  /** The ids after a run of calls, each with the answers it gets; failing calls are part of it. */
  function AfterCalls(ns: Namespace, i: Ids, run: seq<(Call, Answers)>): Ids
  {
    if run == [] then i
    else
      var n := |run| - 1;
      Next(ns, AfterCalls(ns, i, run[..n]), run[n].0, run[n].1)
  }

  /** The capability is refused throughout. */
  predicate Unprivileged(run: seq<(Call, Answers)>)
  {
    forall k :: 0 <= k < |run| ==> !run[k].1.capable
  }

  lemma CallShrinks(ns: Namespace, i: Ids, c: Call, a: Answers)
    requires !a.capable
    ensures Next(ns, i, c, a).Set() <= i.Set() && Next(ns, i, c, a).Base() <= i.Base()
  {
  }

  /** Over every run without the capability the ids only ever get fewer. */
  lemma {:induction false} RunShrinks(ns: Namespace, i: Ids, run: seq<(Call, Answers)>)
    requires Unprivileged(run)
    ensures AfterCalls(ns, i, run).Set() <= i.Set() && AfterCalls(ns, i, run).Base() <= i.Base()
  {
    if run != [] {
      var n := |run| - 1;
      RunShrinks(ns, i, run[..n]);
      CallShrinks(ns, AfterCalls(ns, i, run[..n]), run[n].0, run[n].1);
    }
  }

  /** The calls that give all other ids up: setuid(u) with the capability, setreuid(u, u), setresuid(u, u, u). */
  predicate Drops(c: Call, u: nat, capable: bool)
  {
    u != KEEP && (c == SetRe(u, u) || c == SetRes(u, u, u) || (capable && c == Set(u)))
  }

  /**
    After such a call has gone through, all four ids are the one asked for, and without the capability
    they stay so for the rest of every run.
   */
  lemma {:induction false} DroppedForGood(ns: Namespace, i: Ids, c: Call, u: nat, a: Answers, run: seq<(Call, Answers)>)
    requires Drops(c, u, a.capable) && GoesThrough(ns, i, c, a) && Unprivileged(run)
    ensures ns(u).Valid? && AfterCalls(ns, Next(ns, i, c, a), run) == Ids(ns(u).k, ns(u).k, ns(u).k, ns(u).k)
  {
    var k := ns(u).k;
    var after := Next(ns, i, c, a);
    assert after == Ids(k, k, k, k);
    RunShrinks(ns, after, run);
    var final := AfterCalls(ns, after, run);
    assert final.Set() <= {k};
    assert final.rid in final.Set() && final.eid in final.Set();
    assert final.sid in final.Set() && final.fsid in final.Set();
  }

  lemma TwoCalls(ns: Namespace, i: Ids, c: (Call, Answers), c': (Call, Answers))
    ensures AfterCalls(ns, i, [c]) == Next(ns, i, c.0, c.1)
    ensures AfterCalls(ns, i, [c, c']) == Next(ns, Next(ns, i, c.0, c.1), c'.0, c'.1)
  {
    assert [c][..0] == [] && [c, c'][..1] == [c];
  }

  /** setuid(u) without the capability gives nothing up for good: the old real and saved ids can be taken back. */
  lemma NotDropped(ns: Namespace, i: Ids, id: nat, back: nat, a: Answers)
    requires a == Answers(true, false, true, 0) && Allowed(ns, i, Set(id), false)
    requires ns(back).Valid? && ns(back).k in {i.rid, i.sid}
    ensures AfterCalls(ns, i, [(Set(id), a), (Set(back), a)]) == i.(eid := ns(back).k, fsid := ns(back).k)
  {
    TwoCalls(ns, i, (Set(id), a), (Set(back), a));
  }

  /**
    An id that the namespace maps is within reach as effective id, without the capability, exactly if it is one of the
    three.
   */
  lemma ReachableIff(ns: Namespace, i: Ids, id: nat)
    requires id != KEEP && ns(id).Valid?
    ensures (exists run :: Unprivileged(run) && AfterCalls(ns, i, run).eid == ns(id).k) <==> ns(id).k in i.Base()
  {
    var k := ns(id).k;
    if k in i.Base() {
      var run := [(SetRes(KEEP, id, KEEP), Answers(true, false, true, 0))];
      TwoCalls(ns, i, run[0], run[0]);
      assert Unprivileged(run) && AfterCalls(ns, i, run).eid == k;
    }
    forall run | Unprivileged(run) && AfterCalls(ns, i, run).eid == k
      ensures k in i.Base()
    {
      RunShrinks(ns, i, run);
      assert k in AfterCalls(ns, i, run).Base();
    }
  }

  /** A setuid program can lay its privilege down and take it up again by swapping real and effective id. */
  lemma SwapTwice(ns: Namespace, i: Ids, r: nat, e: nat, a: Answers)
    requires a == Answers(true, false, true, 0) && r != KEEP && e != KEEP
    requires ns(r) == Valid(i.rid) && ns(e) == Valid(i.eid)
    ensures AfterCalls(ns, i, [(SetRe(e, r), a)]) == Ids(i.eid, i.rid, i.rid, i.rid)
    ensures AfterCalls(ns, i, [(SetRe(e, r), a), (SetRe(r, e), a)]) == Ids(i.rid, i.eid, i.eid, i.eid)
  {
    TwoCalls(ns, i, (SetRe(e, r), a), (SetRe(r, e), a));
  }

  // ----- all states within reach

  /** Without the capability some run takes the ids from i to t. */
  ghost predicate Reaches(ns: Namespace, i: Ids, t: Ids)
  {
    exists run :: Unprivileged(run) && AfterCalls(ns, i, run) == t
  }

  /**
    The file system id alone has become one of the four; or the first three are among the old three and the file
    system id is one of the new three.
   */
  predicate Within(i: Ids, t: Ids)
  {
    || (t.rid == i.rid && t.eid == i.eid && t.sid == i.sid && t.fsid in {i.rid, i.eid, i.sid, i.fsid})
    || ({t.rid, t.eid, t.sid} <= {i.rid, i.eid, i.sid} && t.fsid in {t.rid, t.eid, t.sid})
  }

  lemma {:induction false} RunWithin(ns: Namespace, i: Ids, run: seq<(Call, Answers)>)
    requires Unprivileged(run)
    ensures Within(i, AfterCalls(ns, i, run))
  {
    if run != [] {
      var n := |run| - 1;
      RunWithin(ns, i, run[..n]);
      CallWithin(ns, i, AfterCalls(ns, i, run[..n]), run[n].0, run[n].1);
    }
  }

  lemma CallWithin(ns: Namespace, i: Ids, t: Ids, c: Call, a: Answers)
    requires Within(i, t) && !a.capable
    ensures Within(i, Next(ns, t, c, a))
  {
  }

  /** The caller can write every one of the ids ks. */
  ghost predicate Writable(ns: Namespace, ks: set<nat>)
  {
    forall k :: k in ks ==> exists x :: x != KEEP && ns(x) == Valid(k)
  }

  /** Exactly those states are within reach, if the namespace maps the ids that the process has. */
  lemma ReachesIff(ns: Namespace, i: Ids, t: Ids)
    requires Writable(ns, i.Set())
    ensures Reaches(ns, i, t) <==> Within(i, t)
  {
    if Within(i, t) {
      WithinReached(ns, i, t);
    }
    forall run | Unprivileged(run) && AfterCalls(ns, i, run) == t
      ensures Within(i, t)
    {
      RunWithin(ns, i, run);
    }
  }

  lemma WithinReached(ns: Namespace, i: Ids, t: Ids)
    requires Writable(ns, i.Set()) && Within(i, t)
    ensures Reaches(ns, i, t)
  {
    assert t.rid in i.Set() && t.eid in i.Set() && t.sid in i.Set() && t.fsid in i.Set();
    var f :| f != KEEP && ns(f) == Valid(t.fsid);
    if t == i.(fsid := t.fsid) {
      FsReached(ns, i, t, f);
    } else {
      var r :| r != KEEP && ns(r) == Valid(t.rid);
      var e :| e != KEEP && ns(e) == Valid(t.eid);
      var s :| s != KEEP && ns(s) == Valid(t.sid);
      ResReached(ns, i, t, r, e, s, f);
    }
  }

  lemma FsReached(ns: Namespace, i: Ids, t: Ids, f: nat)
    requires t == i.(fsid := t.fsid) && t.fsid in i.Set() && ns(f) == Valid(t.fsid)
    ensures Reaches(ns, i, t)
  {
    var run := [(SetFs(f), Answers(true, false, true, 0))];
    TwoCalls(ns, i, run[0], run[0]);
    assert Unprivileged(run) && AfterCalls(ns, i, run) == t;
  }

  lemma ResReached(ns: Namespace, i: Ids, t: Ids, r: nat, e: nat, s: nat, f: nat)
    requires t.Base() <= i.Base() && t.fsid in t.Base() && Writes(ns, r, e, s, t) && ns(f) == Valid(t.fsid)
    ensures Reaches(ns, i, t)
  {
    var a := Answers(true, false, true, 0);
    var run := [(SetRes(r, e, s), a), (SetFs(f), a)];
    assert t.rid in t.Base() && t.eid in t.Base() && t.sid in t.Base();
    TwoCalls(ns, i, run[0], run[1]);
    assert Next(ns, i, SetRes(r, e, s), a) == t.(fsid := t.eid);
    assert Unprivileged(run) && AfterCalls(ns, i, run) == t;
  }
}
