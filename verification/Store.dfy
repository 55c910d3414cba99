/** The four files on disk, their lock, and the calls that read and rewrite them. */
module Store {
  import opened Types
  import opened Sequences
  import opened AtomicFile
  import opened Entries
  import opened Locking
  import opened GroupSpec
  import opened UserSpec
  import ShadowLock

  /** The loop of the first-match lookups (src/common/gum-file.c). */
  method FindEntry<R>(s: seq<R>, p: R -> bool) returns (r: Option<R>)
    ensures r == Find(s, p)
  {
    var n := 0;
    while n < |s|
      invariant 0 <= n <= |s|
      invariant forall i :: 0 <= i < n ==> !p(s[i])
    {
      if p(s[n]) {
        assert First(s, p) == n;
        return Some(s[n]);
      }
      n := n + 1;
    }
    return None;
  }

  /**
   * What an operation leaves of the lock: the depth it found; the system's lock held exactly at positive
   * depth, if that was so and the system releases it; and the privileges likewise.
   */
  ghost predicate LockKept(before: LockState, after: LockState, env: Env) {
    && after.count == before.count
    && (before.HeldIffDeep() && env.unlockOk ==> after.HeldIffDeep())
    && (before.PrivilegedIffDeep() && env.unlockOk && env.lockOk ==> after.PrivilegedIffDeep())
  }

  /** The lock inside an operation that found it as `before`. */
  ghost predicate Inside(before: LockState, now: LockState, env: Env) {
    && now.count == before.count + 1
    && (before.HeldIffDeep() && env.unlockOk ==> now.HeldIffDeep())
    && (before.PrivilegedIffDeep() && env.unlockOk && env.lockOk ==> now.PrivilegedIffDeep())
  }

  lemma StillInside(before: LockState, a: LockState, b: LockState, env: Env)
    requires Inside(before, a, env) && LockKept(a, b, env)
    ensures Inside(before, b, env)
  {
  }

  lemma KeptAgain(a: LockState, b: LockState, c: LockState, env: Env)
    requires LockKept(a, b, env) && LockKept(b, c, env)
    ensures LockKept(a, c, env) && (a.count > 0 ==> c.count > 0)
  {
  }

  lemma Untouched(s: LockState, env: Env)
    ensures LockKept(s, s, env)
  {
  }

  class AccountStore {
    const passwd: DbFile<Passwd>
    const shadow: DbFile<Shadow>
    const group: DbFile<Group>
    const gshadow: DbFile<Gshadow>
    const lock: PwdfLock
    var tick: nat

    constructor (passwd: DbFile<Passwd>, shadow: DbFile<Shadow>, group: DbFile<Group>, gshadow: DbFile<Gshadow>,
                 lock: PwdfLock)
      ensures this.passwd == passwd && this.shadow == shadow && this.group == group && this.gshadow == gshadow
      ensures this.lock == lock
      ensures tick == 0
    {
      this.passwd, this.shadow, this.group, this.gshadow, this.lock := passwd, shadow, group, gshadow, lock;
      tick := 0;
    }

    /** The files are different objects. */
    ghost predicate Separate() {
      && passwd as object != shadow as object && passwd as object != group as object
      && passwd as object != gshadow as object
      && shadow as object != group as object && shadow as object != gshadow as object
      && group as object != gshadow as object
    }

    /** Every file but gshadow exists. */
    ghost predicate Valid()
      reads this, passwd, shadow, group, gshadow
    {
      && Separate()
      && passwd.Valid() && shadow.Valid() && group.Valid() && gshadow.Valid()
      && passwd.Records().Some? && shadow.Records().Some? && group.Records().Some?
    }

    ghost function View(): Db
      requires Valid()
      reads this, passwd, shadow, group, gshadow
    {
      Db(passwd.Records().value, shadow.Records().value, group.Records().value, gshadow.Records(), tick)
    }

    /**
     * One replacement of the passwd file, under the lock; at every step its name leads to all of the old
     * or all of the new lines.
     */
    method UpdatePasswd(op: OpType, pw: PwReq, oldName: Option<string>, io: Oracle) returns (ok: bool)
      requires Valid() && lock.count > 0
      modifies this`tick, passwd
      ensures Valid()
      ensures DbOk(View(), ok) == WritePasswd(old(View()), io, NextPasswd(op, old(View()).passwd, pw, oldName))
      ensures Outcome(old(passwd.dir), passwd.steps, NextPasswd(op, old(View()).passwd, pw, oldName), io(old(tick)), ok)
    {
      hide NextEntries, Outcome, DbFile.Valid, DbFile.Records;
      hide HitPasswd, PasswdLine, Always;
      ok := FileUpdate(passwd, op, true, HitPasswd(op, pw, oldName), Always(PasswdLine(pw)), PasswdLine(pw), io(tick));
      tick := tick + 1;
    }

    method UpdateShadow(op: OpType, sp: SpReq, oldName: Option<string>, io: Oracle) returns (ok: bool)
      requires Valid() && lock.count > 0
      modifies this`tick, shadow
      ensures Valid()
      ensures DbOk(View(), ok) == WriteShadow(old(View()), io, NextShadow(op, old(View()).shadow, sp, oldName))
      ensures Outcome(old(shadow.dir), shadow.steps, NextShadow(op, old(View()).shadow, sp, oldName), io(old(tick)), ok)
    {
      hide NextEntries, Outcome, DbFile.Valid, DbFile.Records;
      hide HitShadow, ShadowLine, Always;
      ok := FileUpdate(shadow, op, false, HitShadow(op, sp, oldName), Always(ShadowLine(sp)), ShadowLine(sp), io(tick));
      tick := tick + 1;
    }

    /** The lock and unlock of a user's shadow entry. */
    method LockShadow(name: Option<string>, lockIt: bool, io: Oracle) returns (ok: bool)
      requires Valid() && lock.count > 0
      modifies this`tick, shadow
      ensures Valid() && DbOk(View(), ok) == WriteShadow(old(View()), io, NextLocked(old(View()).shadow, name, lockIt))
      ensures Outcome(old(shadow.dir), shadow.steps, NextLocked(old(View()).shadow, name, lockIt), io(old(tick)), ok)
      ensures ok ==> name.Some? && ShadowLock.Relocked(old(View()).shadow, View().shadow, name.value, lockIt)
      ensures !ok ==> View().shadow == old(View()).shadow
    {
      hide NextEntries, Outcome, DbFile.Valid, DbFile.Records;
      hide HitLock, EditLock, ShadowLock.Relocked;
      if name.Some? {
        ShadowLock.NextLockedExact(shadow.Records().value, name.value, lockIt);
      } else {
        ShadowLock.NoNameToLock(shadow.Records().value, lockIt);
      }
      ok := FileUpdate(shadow, Modify, false, HitLock(name), EditLock(lockIt), NO_SHADOW, io(tick));
      tick := tick + 1;
    }

    method UpdateGroup(op: OpType, gr: GrReq, oldName: Option<string>, io: Oracle) returns (ok: bool)
      requires Valid() && lock.count > 0
      modifies this`tick, group
      ensures Valid() && DbOk(View(), ok) == WriteGroup(old(View()), io, NextGroup(op, old(View()).group, gr, oldName))
      ensures Outcome(old(group.dir), group.steps, NextGroup(op, old(View()).group, gr, oldName), io(old(tick)), ok)
    {
      hide NextEntries, Outcome, DbFile.Valid, DbFile.Records;
      hide HitGroup, GroupLine, Always;
      ok := FileUpdate(group, op, true, HitGroup(op, gr, oldName), Always(GroupLine(gr)), GroupLine(gr), io(tick));
      tick := tick + 1;
    }

    method UpdateGshadow(op: OpType, sg: SgReq, oldName: Option<string>, io: Oracle) returns (ok: bool)
      requires Valid() && lock.count > 0 && View().gshadow.Some?
      modifies this`tick, gshadow
      ensures Valid()
      ensures DbOk(View(), ok) == WriteGshadow(old(View()), io, NextGshadow(op, old(View()).gshadow.value, sg, oldName))
      ensures Outcome(old(gshadow.dir), gshadow.steps,
                      NextGshadow(op, old(View()).gshadow.value, sg, oldName), io(old(tick)), ok)
    {
      hide NextEntries, Outcome, DbFile.Valid, DbFile.Records;
      hide HitGshadow, GshadowLine, Always;
      ok := FileUpdate(gshadow, op, false, HitGshadow(op, sg, oldName), Always(GshadowLine(sg)),
                       GshadowLine(sg), io(tick));
      tick := tick + 1;
    }

    /** The first loop of gumd_daemon_group_delete_user_membership. */
    method PurgeGroupFile(user: string, io: Oracle) returns (ok: bool, started: bool)
      requires Valid() && lock.count > 0
      modifies this`tick, group
      ensures Valid()
      ensures DbOk(View(), ok) == WriteGroup(old(View()), io, Some(MapEntries(old(View()).group, PurgeGroup(user))))
      ensures var f := io(old(View()).tick); started <==> f.openSource && f.openDup && f.attributes
      ensures Outcome(old(group.dir), group.steps,
                      Some(MapEntries(old(View()).group, PurgeGroup(user))), io(old(tick)), ok)
    {
      hide NextEntries, Outcome, DbFile.Valid;
      ok, started := RewriteEntries(group, PurgeGroup(user), io(tick));
      tick := tick + 1;
    }

    /** The second loop of gumd_daemon_group_delete_user_membership. */
    method PurgeGshadowFile(user: string, io: Oracle) returns (ok: bool)
      requires Valid() && lock.count > 0 && View().gshadow.Some?
      modifies this`tick, gshadow
      ensures Valid()
      ensures DbOk(View(), ok)
           == WriteGshadow(old(View()), io, Some(MapEntries(old(View()).gshadow.value, PurgeGshadow(user))))
      ensures Outcome(old(gshadow.dir), gshadow.steps,
                      Some(MapEntries(old(View()).gshadow.value, PurgeGshadow(user))), io(old(tick)), ok)
    {
      hide NextEntries, Outcome, DbFile.Valid, DbFile.Records;
      var started;
      ok, started := RewriteEntries(gshadow, PurgeGshadow(user), io(tick));
      tick := tick + 1;
    }

    /** The lock is taken at the start of an operation. */
    method Enter(env: Env) returns (ok: bool)
      modifies lock
      ensures ok <==> old(lock.count) > 0 || env.lockOk
      ensures ok ==> lock.count > 0 && Inside(old(lock.State()), lock.State(), env)
      ensures !ok ==> LockKept(old(lock.State()), lock.State(), env)
    {
      ok := lock.Acquire(env.lockOk);
    }

    /** The lock is given back at the end of an operation; whether that succeeds is not looked at. */
    method Exit(ghost before: LockState, env: Env)
      requires Inside(before, lock.State(), env)
      modifies lock
      ensures LockKept(before, lock.State(), env)
    {
      var _ := lock.Release(env.unlockOk);
    }

    /** g_file_test of the gshadow file. */
    method GshadowExists() returns (r: bool)
      requires Valid()
      ensures r <==> View().gshadow.Some?
    {
      r := gshadow.Records().Some?;
    }

    // ----- lookups

    method PwNam(name: string) returns (r: Option<Passwd>)
      requires Valid()
      ensures r == GetPwNam(View().passwd, name)
    {
      r := FindEntry(passwd.Records().value, (e: Passwd) => e.name == name);
    }

    method PwUid(uid: Id) returns (r: Option<Passwd>)
      requires Valid()
      ensures r == GetPwUid(View().passwd, uid)
    {
      r := FindEntry(passwd.Records().value, (e: Passwd) => e.uid == uid);
    }

    method UserByGid(gid: Id) returns (r: Option<Passwd>)
      requires Valid()
      ensures r == FindUserByGid(View().passwd, gid)
    {
      if gid == INVALID_ID {
        return None;
      }
      r := FindEntry(passwd.Records().value, (e: Passwd) => e.gid == gid);
    }

    method SpNam(name: string) returns (r: Option<Shadow>)
      requires Valid()
      ensures r == GetSpNam(View().shadow, name)
    {
      r := FindEntry(shadow.Records().value, (e: Shadow) => e.name == name);
    }

    method GrNam(name: string) returns (r: Option<Group>)
      requires Valid()
      ensures r == GetGrNam(View().group, name)
    {
      r := FindEntry(group.Records().value, (e: Group) => e.name == name);
    }

    method GrGid(gid: Id) returns (r: Option<Group>)
      requires Valid()
      ensures r == GetGrGid(View().group, gid)
    {
      r := FindEntry(group.Records().value, (e: Group) => e.gid == gid);
    }

    method SgNam(name: string) returns (r: Option<Gshadow>)
      requires Valid()
      ensures r == GetSgNam(View().gshadow, name)
    {
      if gshadow.Records().None? {
        return None;
      }
      r := FindEntry(gshadow.Records().value, (e: Gshadow) => e.name == name);
    }
  }
}
