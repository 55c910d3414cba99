/**
 * What becomes of the agreement between passwd and shadow when any of the file replacements may fail:
 * the operations write one file after the other and do not roll back. Nothing is asked of the group files.
 */
module PartialWrites {
  import opened Types
  import opened Sequences
  import opened Validate
  import opened GroupSpec
  import opened UserSpec
  import opened UserConsistency
  import opened ShadowLock
  import opened UserTheorems
  import opened UserAddTheorems
  import opened UserUpdateTheorems
  import Gecos
  import GroupTheorems
  import Naming
  import StringUtils

  // ----- the two replacements

  /** Only one of two lists has a name. */
  lemma NamesDiffer(passwd: seq<Passwd>, shadow: seq<Shadow>, name: string)
    requires name in Keys(passwd, PwName) <==> name !in Keys(shadow, SpName)
    ensures !UsersAgree(passwd, shadow)
  {
  }

  /** The two replacements, given the lists that they are to write. */
  lemma UserFiles(db: Db, io: Oracle, op: OpType, u: UserReq, oldName: Option<string>, p: seq<Passwd>, s: seq<Shadow>)
    requires NextPasswd(op, db.passwd, u.pw, oldName) == Some(p) && NextShadow(op, db.shadow, u.sp, oldName) == Some(s)
    ensures var w := WriteUser(db, io, op, u, oldName);
      var first := io(db.tick).Succeeds(|p|);
      && (w.ok <==> first && io(db.tick + 1).Succeeds(|s|)) && SameGroups(db, w.db)
      && w.db.passwd == (if first then p else db.passwd) && w.db.shadow == (if w.ok then s else db.shadow)
      && w.db.tick == db.tick + if first then 2 else 1
  {
  }

  /** Adding a user keeps the agreement exactly when both replacements are made or the first one is not. */
  lemma AddUserAgrees(db: Db, io: Oracle, u: UserReq)
    requires UsersAgree(db.passwd, db.shadow)
    requires u.pw.name.Some? && ValidName(u.pw.name) && u.sp.name == u.pw.name
    requires u.pw.name.value !in Keys(db.passwd, PwName) && u.pw.uid !in Keys(db.passwd, PwUid)
    ensures var w := WriteUser(db, io, Add, u, None);
      && (w.ok <==> io(db.tick).Succeeds(|db.passwd| + 1) && io(db.tick + 1).Succeeds(|db.shadow| + 1))
      && (UsersAgree(w.db.passwd, w.db.shadow) <==> w.ok || !io(db.tick).Succeeds(|db.passwd| + 1))
  {
    hide UsersAgree, WriteUser;
    var i := First(db.passwd, HitPasswd(Add, u.pw, None));
    var j := First(db.shadow, HitShadow(Add, u.sp, None));
    var r, t := InsertAt(db.passwd, i, PasswdLine(u.pw)), db.shadow + [ShadowLine(u.sp)];
    NotInShadow(db.passwd, db.shadow, u.pw.name.value);
    if j < |db.shadow| {
      KeyIn(db.shadow, SpName, j);
    }
    UserFiles(db, io, Add, u, None, r, t);
    AgreeAddUser(db.passwd, db.shadow, i, PasswdLine(u.pw), ShadowLine(u.sp));
    assert r[i] == PasswdLine(u.pw);
    KeyIn(r, PwName, i);
    NamesDiffer(r, db.shadow, u.pw.name.value);
  }

  lemma NotInShadow(passwd: seq<Passwd>, shadow: seq<Shadow>, name: string)
    requires UsersAgree(passwd, shadow)
    ensures name in Keys(passwd, PwName) <==> name in Keys(shadow, SpName)
  {
  }

  /** So does deleting one. */
  lemma DeleteUserAgrees(db: Db, io: Oracle, u: UserReq, i: nat)
    requires UsersAgree(db.passwd, db.shadow) && At(db, u, i)
    ensures var w, first := WriteUser(db, io, Delete, u, None), io(db.tick).Succeeds(|db.passwd| - 1);
      && |db.shadow| > 0 && (w.ok <==> first && io(db.tick + 1).Succeeds(|db.shadow| - 1))
      && (UsersAgree(w.db.passwd, w.db.shadow) <==> w.ok || !first)
      && w.db.passwd == (if first then RemoveAt(db.passwd, i) else db.passwd)
      && (!w.ok ==> w.db.shadow == db.shadow) && SameGroups(db, w.db)
      && w.db.tick == db.tick + if first then 2 else 1
  {
    hide UsersAgree, WriteUser;
    var j := UserPositions(db.passwd, db.shadow, i);
    assert First(db.passwd, HitPasswd(Delete, u.pw, None)) == i;
    assert First(db.shadow, HitShadow(Delete, u.sp, None)) == j;
    UserFiles(db, io, Delete, u, None, RemoveAt(db.passwd, i), RemoveAt(db.shadow, j));
    AgreeDeleteUser(db.passwd, db.shadow, i, j);
    NameStays(db.passwd, db.shadow, i);
  }

  /** A line removed from passwd alone leaves a name in shadow that passwd lacks. */
  lemma NameStays(passwd: seq<Passwd>, shadow: seq<Shadow>, i: nat)
    requires UsersAgree(passwd, shadow) && i < |passwd|
    ensures !UsersAgree(RemoveAt(passwd, i), shadow)
    ensures passwd[i].name !in Keys(RemoveAt(passwd, i), PwName) && passwd[i].name in Keys(shadow, SpName)
  {
    RemoveKeys(passwd, PwName, i);
    KeyIn(passwd, PwName, i);
  }

  /** Modifying one keeps it whatever fails, unless the shadow entry is written under another name. */
  lemma ModifyUserAgrees(db: Db, io: Oracle, u: UserReq, i: nat)
    requires UsersAgree(db.passwd, db.shadow)
    requires i < |db.passwd| && u.pw.name == Some(db.passwd[i].name)
    requires u.pw.uid == db.passwd[i].uid && u.pw.gid == db.passwd[i].gid
    ensures var w := WriteUser(db, io, Modify, u, u.pw.name);
      && (w.ok <==> io(db.tick).Succeeds(|db.passwd|) && io(db.tick + 1).Succeeds(|db.shadow|))
      && (UsersAgree(w.db.passwd, w.db.shadow) <==> !(w.ok && u.sp.name != u.pw.name))
  {
    hide UsersAgree, WriteUser;
    var j := UserPositions(db.passwd, db.shadow, i);
    assert First(db.passwd, HitPasswd(Modify, u.pw, u.pw.name)) == i;
    assert First(db.shadow, HitShadow(Modify, u.sp, u.pw.name)) == j;
    var pw, sp := PasswdLine(u.pw), ShadowLine(u.sp);
    UserFiles(db, io, Modify, u, u.pw.name, db.passwd[i := pw], db.shadow[j := sp]);
    AgreeModifyUser(db.passwd, db.shadow, i, j, pw, db.shadow[j]);
    assert db.shadow[j := db.shadow[j]] == db.shadow;
    UserNameValid(db.passwd, db.shadow, i);
    if u.sp.name == u.pw.name {
      AgreeModifyUser(db.passwd, db.shadow, i, j, pw, sp);
    } else {
      UserLost(db.passwd, db.shadow, i, j, pw, sp);
    }
  }

  // ----- the user operations

  /** The primary group is there, or it is written into the group files. */
  ghost predicate GroupWritten(db: Db, name: string, cfg: Config, io: Oracle) {
    GroupThere(db, cfg)
    || (&& io(db.tick).Succeeds(|db.group| + 1)
        && (db.gshadow.Some? ==>
              && GroupNameOf(name, cfg) !in Keys(db.gshadow.value, SgName)
              && io(db.tick + 1).Succeeds(|db.gshadow.value| + 1)))
  }

  /** The count of replacements when an add comes to passwd. */
  ghost function TickAtPasswd(db: Db, cfg: Config): nat {
    if GroupThere(db, cfg) then db.tick else db.tick + if db.gshadow.Some? then 2 else 1
  }

  /** An add gets as far as writing passwd, whatever the group files are like. */
  ghost predicate AddReaches(db: Db, u: UserReq, cfg: Config, env: Env) {
    && Placed(db, u, cfg, env) && SecretReady(u, env)
    && GroupWritten(db, NameOf(u, env.digest).value, cfg, env.io)
  }

  lemma GroupFileWrites(db: Db, io: Oracle, h: GroupReq)
    requires h.sg.name == h.gr.name && h.gr.name.Some?
    ensures var w := WriteBoth(db, io, Add, h, None, db.gshadow.Some?);
      && (w.ok <==>
            && io(db.tick).Succeeds(|db.group| + 1)
            && (db.gshadow.Some? ==>
                  && h.gr.name.value !in Keys(db.gshadow.value, SgName)
                  && io(db.tick + 1).Succeeds(|db.gshadow.value| + 1)))
      && (w.ok ==> w.db.tick == db.tick + if db.gshadow.Some? then 2 else 1)
  {
    var i := First(db.group, HitGroup(Add, h.gr, None));
    if db.gshadow.Some? {
      var j := First(db.gshadow.value, HitGshadow(Add, h.sg, None));
      if j < |db.gshadow.value| {
        KeyIn(db.gshadow.value, SgName, j);
      }
    }
  }

  lemma PrimaryGroupWritten(db: Db, u: UserReq, cfg: Config, env: Env)
    requires u.pw.name.Some? && ValidName(u.pw.name)
    ensures var s := SetGroup(db, u, cfg, env);
      && (s.ok <==> && (GroupThere(db, cfg) || GroupFits(db, u.Type(), u.pw.name.value, u.pw.uid, cfg))
                    && GroupWritten(db, u.pw.name.value, cfg, env.io))
      && (s.ok ==> s.db.tick == TickAtPasswd(db, cfg))
  {
    hide WriteBoth, ValidName, FindFreeGid, GetGrNam;
    if cfg.primaryGroup.Some? {
      GroupTheorems.NameLookup(db.group, cfg.primaryGroup.value);
    }
    var g, name := PrimaryGroupReq(u, cfg), GroupNameOf(u.pw.name.value, cfg);
    GroupTheorems.NameLookup(db.group, name);
    NoNameIsValid();
    assert g.gr == FRESH_GROUP.gr.(name := if ValidName(Some(name)) then Some(name) else None);
    if ValidName(Some(name)) && SetGid(db, g, u.pw.uid, cfg).Some? {
      GroupFileWrites(db, env.io, SetGshadowData(SetGid(db, g, u.pw.uid, cfg).value, env.encrypted).0);
    }
  }

  lemma NoNameIsValid()
    ensures !ValidName(None)
  {
  }

  lemma PrepareReaches(db: Db, u: UserReq, cfg: Config, env: Env)
    requires UserReqOk(u) && u.Type() != Gecos.TYPE_NONE
    ensures var p := PrepareUser(db, DefaultShell(u, cfg), cfg, env);
      && (p.ok <==> AddReaches(db, u, cfg, env))
      && (p.ok ==> p.db.tick == TickAtPasswd(db, cfg))
  {
    hide SetUid, SetGroup, GroupFits, GroupThere, HomeOf, FindFreeUid, NameOf, GroupWritten;
    var v := DefaultShell(u, cfg);
    DefaultShellOk(u, cfg);
    ShellSettled(u, cfg);
    SameNames(db, u, v, cfg, env);
    UidSettled(db, v, cfg, env);
    var (w, ok) := SetUid(db, v, cfg, env.digest);
    if ok {
      PrimaryGroupWritten(db, w, cfg, env);
      SetGroupUsers(db, w, cfg, env);
    }
  }

  /** An add writes passwd and not shadow. */
  ghost predicate AddSplits(db: Db, u: UserReq, cfg: Config, env: Env, locked: bool) {
    var tick := TickAtPasswd(db, cfg);
    && locked && AddReaches(db, u, cfg, env)
    && env.io(tick).Succeeds(|db.passwd| + 1) && !env.io(tick + 1).Succeeds(|db.shadow| + 1)
  }

  /**
   * Whatever fails and whatever the group files are like, an add keeps the users in agreement exactly
   * when it does not split them.
   */
  lemma UserAddAgrees(db: Db, u: UserReq, cfg: Config, env: Env, locked: bool)
    requires UsersAgree(db.passwd, db.shadow) && UserReqOk(u)
    ensures var a := UserAdd(db, u, cfg, env, locked);
      UserReqOk(a.u) && (UsersAgree(a.db.passwd, a.db.shadow) <==> !AddSplits(db, u, cfg, env, locked))
  {
    hide PrepareUser, WriteUser, DefaultShell, AddToGroups, UsersAgree, AddReaches, TickAtPasswd;
    var v := DefaultShell(u, cfg);
    DefaultShellOk(u, cfg);
    PrepareUserOk(db, v, cfg, env);
    if u.Type() == Gecos.TYPE_NONE {
      NothingReached(db, u, cfg, env);
    } else {
      PrepareReaches(db, u, cfg, env);
      var p := PrepareUser(db, v, cfg, env);
      if p.ok {
        AddUserAgrees(p.db, env.io, p.u);
        var w := WriteUser(p.db, env.io, Add, p.u, None);
        var names := StringUtils.Split(if p.u.Type() == Gecos.TYPE_ADMIN then cfg.defAdminGroups else cfg.defGroups);
        Naming.AddToGroupsNames(w.db, p.u.pw.uid, names, env);
      }
    }
  }

  lemma NothingReached(db: Db, u: UserReq, cfg: Config, env: Env)
    requires u.Type() == Gecos.TYPE_NONE
    ensures !AddReaches(db, u, cfg, env)
  {
  }

  /** Locking and unlocking change secrets only, if they can be written. */
  lemma WriteLockKeepsNames(db: Db, io: Oracle, u: UserReq, lock: bool)
    ensures var w := WriteLock(db, io, u, lock).db;
      && w.passwd == db.passwd && SameGroups(db, w) && |w.shadow| == |db.shadow| && w.tick == db.tick + 1
      && (UsersAgree(w.passwd, w.shadow) <==> UsersAgree(db.passwd, db.shadow))
  {
    var j := First(db.shadow, HitLock(u.pw.name));
    if j < |db.shadow| {
      var r := db.shadow[j := EditLock(lock)(db.shadow[j])];
      SameKeys(db.shadow, r, SpName);
      SameKeys(r, db.shadow, SpName);
    }
  }

  /** A delete writes passwd and not shadow. */
  ghost predicate DeleteSplits(db: Db, u: UserReq, env: Env, locked: bool) {
    && locked && DeleteBegins(db, u, env) && env.terminated && env.io(db.tick).Succeeds(|db.shadow|)
    && |db.shadow| > 0
    && env.io(db.tick + 1).Succeeds(|db.passwd| - 1) && !env.io(db.tick + 2).Succeeds(|db.shadow| - 1)
  }

  /** So does a delete. */
  lemma UserDeleteAgrees(db: Db, u: UserReq, removeHome: bool, env: Env, locked: bool)
    requires UsersAgree(db.passwd, db.shadow) && UserReqOk(u)
    ensures var d := UserDelete(db, u, removeHome, env, locked);
      UserReqOk(d.u) && (UsersAgree(d.db.passwd, d.db.shadow) <==> !DeleteSplits(db, u, env, locked))
  {
    hide WriteUser, WriteLock, LeaveGroups, CopyPasswd, CopyShadow, GetPasswd, UsersAgree, UserReqOk, ValidName;
    if u.pw.uid != INVALID_ID && GetPasswd(db.passwd, u.pw).Some? {
      var i := FindUser(db, u.pw);
      var pent, spent := db.passwd[i], GetSpNam(db.shadow, db.passwd[i].name).value;
      UserNameValid(db.passwd, db.shadow, i);
      LoadedUserOk(u, pent, spent);
      var v := LoadUser(db, u).value;
      WriteLockKeepsNames(db, env.io, v, true);
      LockWritten(db, env.io, v);
      var l := WriteLock(db, env.io, v, true);
      WriteLockKeepsNames(l.db, env.io, v, false);
      DeleteUserAgrees(l.db, env.io, v, i);
      var w := WriteUser(l.db, env.io, Delete, v, None);
      WriteLockKeepsNames(w.db, env.io, v, false);
      Naming.LeaveGroupsNames(w.db, v, env);
    }
  }

  lemma LockWritten(db: Db, io: Oracle, v: UserReq)
    requires v.pw.name.Some? && GetSpNam(db.shadow, v.pw.name.value).Some?
    ensures WriteLock(db, io, v, true).ok <==> io(db.tick).Succeeds(|db.shadow|)
  {
    FirstShadow(db.shadow, v.pw.name.value);
  }

  /** An update writes the shadow entry of the user under another name. */
  ghost predicate UpdateSplits(db: Db, u: UserReq, env: Env, locked: bool) {
    && UserUpdates(db, u, env, locked) && MisnamedUser(db, u)
    && env.io(db.tick).Succeeds(|db.passwd|) && env.io(db.tick + 1).Succeeds(|db.shadow|)
  }

  /** And an update. */
  lemma UserUpdateAgrees(db: Db, u: UserReq, env: Env, locked: bool)
    requires UsersAgree(db.passwd, db.shadow) && UserReqOk(u)
    ensures var d := UserUpdate(db, u, env, locked);
      UserReqOk(d.u) && (UsersAgree(d.db.passwd, d.db.shadow) <==> !UpdateSplits(db, u, env, locked))
  {
    hide WriteUser, DecideUpdate, GetPasswd, UsersAgree, UpdateWanted, UserReqOk, ValidName;
    if GetPasswd(db.passwd, u.pw).Some? {
      var i := FindUser(db, u.pw);
      var pent, spent := db.passwd[i], GetSpNam(db.shadow, db.passwd[i].name).value;
      UserNameValid(db.passwd, db.shadow, i);
      DecidedUserOk(u, pent, spent, env);
      DecidedWrite(u, pent, spent, env);
      ModifyUserAgrees(db, env.io, DecideUpdate(u, pent, spent, env).0, i);
    }
  }

  // ----- a user delete whose shadow write fails

  /** The files after a delete that could not rewrite shadow, and the last attempt to unlock the user. */
  ghost predicate HalfDeleted(db: Db, d: Db, name: string, unlocked: bool) {
    && SameGroups(db, d)
    && (exists i :: 0 <= i < |db.passwd| && db.passwd[i].name == name && d.passwd == RemoveAt(db.passwd, i))
    && name !in Keys(d.passwd, PwName) && name in Keys(d.shadow, SpName)
    && LockLeft(db, d, name, unlocked)
  }

  /**
   * What is left of locking a user and trying to unlock again: nothing if the unlocking is written, unless the
   * user was locked before; else the user is locked, with the secret behind the mark, or lost if there was one.
   */
  ghost predicate LockLeft(db: Db, d: Db, name: string, unlocked: bool) {
    if unlocked && !LockedUser(db, name) then d.shadow == db.shadow else Relocked(db.shadow, d.shadow, name, true)
  }

  lemma LockAndUnlockLeave(s: seq<Shadow>, l: seq<Shadow>, r: seq<Shadow>, name: string)
    requires NextLocked(s, Some(name), true) == Some(l) && NextLocked(l, Some(name), false) == Some(r)
    ensures var e := GetSpNam(s, name);
      e.Some? && if Locked(e.value.secret) then Relocked(s, r, name, true) else r == s
  {
    hide NextLocked;
    NextLockedExact(s, name, true);
    NextLockedExact(l, name, false);
    var i: nat :| RelockedAt(s, l, name, true, i);
    var j: nat :| RelockedAt(l, r, name, false, j);
    assert i == j by {
      assert l[i].name == name && s[j].name == name;
      assert forall k :: 0 <= k < i ==> l[k].name == s[k].name;
    }
    FirstShadow(s, name);
    assert First(s, HitLock(Some(name))) == i;
    if Locked(s[i].secret) {
      assert RelockedAt(s, r, name, true, i);
    } else {
      LockedKeepsSecret(s, l, name, i);
    }
  }

  /**
   * A delete that gets as far as locking the user and no further, whichever call stops it: if the lock cannot
   * be written, nothing is changed; if the sessions go on or passwd cannot be written, the user is unlocked
   * again if that can be, else stays locked. Passwd and the groups are as they were.
   */
  lemma DeleteGivesUp(db: Db, u: UserReq, removeHome: bool, env: Env)
    requires UsersAgree(db.passwd, db.shadow) && UserReqOk(u) && DeleteBegins(db, u, env)
    requires |db.passwd| > 0 && (env.terminated && env.io(db.tick).Succeeds(|db.shadow|) ==>
                                   !env.io(db.tick + 1).Succeeds(|db.passwd| - 1))
    ensures var d := UserDelete(db, u, removeHome, env, true);
      var tick := db.tick + if env.terminated then 2 else 1;
      && !d.ok && d.db.passwd == db.passwd && SameGroups(db, d.db)
      && if env.io(db.tick).Succeeds(|db.shadow|)
         then LockLeft(db, d.db, GetPasswd(db.passwd, u.pw).value.name, env.io(tick).Succeeds(|db.shadow|))
         else d.db.shadow == db.shadow
  {
    hide WriteUser, WriteLock, CopyPasswd, CopyShadow, GetPasswd, UsersAgree, LockLeft, LeaveGroups, ValidName;
    var i := FindUser(db, u.pw);
    var pent, spent := db.passwd[i], GetSpNam(db.shadow, db.passwd[i].name).value;
    UserNameValid(db.passwd, db.shadow, i);
    LoadedUserOk(u, pent, spent);
    var v := LoadUser(db, u).value;
    WriteLockKeepsNames(db, env.io, v, true);
    LockWritten(db, env.io, v);
    LockAttempt(db, env.io, v);
    var l := WriteLock(db, env.io, v, true);
    if l.ok {
      if env.terminated {
        DeleteUserAgrees(l.db, env.io, v, i);
        UnlockAttempt(db, env.io, v, WriteUser(l.db, env.io, Delete, v, None).db);
      } else {
        UnlockAttempt(db, env.io, v, l.db);
      }
    }
  }

  lemma LockAttempt(db: Db, io: Oracle, v: UserReq)
    ensures var l := WriteLock(db, io, v, true);
      if l.ok then NextLocked(db.shadow, v.pw.name, true) == Some(l.db.shadow) else l.db.shadow == db.shadow
  {
  }

  /** The attempt to unlock, after the lock has been written and nothing else. */
  lemma UnlockAttempt(db: Db, io: Oracle, v: UserReq, w: Db)
    requires v.pw.name.Some? && NextLocked(db.shadow, v.pw.name, true) == Some(w.shadow)
    requires w.passwd == db.passwd && SameGroups(db, w)
    ensures var d := WriteLock(w, io, v, false).db;
      && d.passwd == db.passwd && SameGroups(db, d)
      && LockLeft(db, d, v.pw.name.value, io(w.tick).Succeeds(|db.shadow|))
  {
    hide NextLocked;
    var name := v.pw.name.value;
    NextLockedExact(db.shadow, name, true);
    NextLockedExact(w.shadow, name, false);
    var i: nat :| RelockedAt(db.shadow, w.shadow, name, true, i);
    KeyIn(w.shadow, SpName, i);
    var r := NextLocked(w.shadow, v.pw.name, false);
    LockAndUnlockLeave(db.shadow, w.shadow, r.value, name);
    var j: nat :| RelockedAt(w.shadow, r.value, name, false, j);
  }

  /**
   * A delete that has taken the line out of passwd and cannot rewrite shadow fails, with the groups as
   * they were and with an entry in shadow for which there is no user: unlocked again if that write is
   * made, else locked.
   */
  lemma DeleteStopsAtShadow(db: Db, u: UserReq, removeHome: bool, env: Env)
    requires UsersAgree(db.passwd, db.shadow) && UserReqOk(u) && DeleteBegins(db, u, env) && env.terminated
    requires env.io(db.tick).Succeeds(|db.shadow|) && env.io(db.tick + 1).Succeeds(|db.passwd| - 1)
    requires |db.shadow| > 0 ==> !env.io(db.tick + 2).Succeeds(|db.shadow| - 1)
    ensures var d := UserDelete(db, u, removeHome, env, true);
      !d.ok && HalfDeleted(db, d.db, GetPasswd(db.passwd, u.pw).value.name, env.io(db.tick + 3).Succeeds(|db.shadow|))
  {
    hide WriteUser, WriteLock, CopyPasswd, CopyShadow, GetPasswd, NextLocked, UsersAgree, HalfDeleted, LeaveGroups;
    var i := FindUser(db, u.pw);
    var pent, spent := db.passwd[i], GetSpNam(db.shadow, db.passwd[i].name).value;
    UserNameValid(db.passwd, db.shadow, i);
    LoadedUserOk(u, pent, spent);
    LinesHalfGone(db, env.io, LoadUser(db, u).value, i);
  }

  lemma LinesHalfGone(db: Db, io: Oracle, v: UserReq, i: nat)
    requires UsersAgree(db.passwd, db.shadow) && At(db, v, i) && GetSpNam(db.shadow, db.passwd[i].name).Some?
    requires io(db.tick).Succeeds(|db.shadow|) && io(db.tick + 1).Succeeds(|db.passwd| - 1)
    requires |db.shadow| > 0 ==> !io(db.tick + 2).Succeeds(|db.shadow| - 1)
    ensures var l := WriteLock(db, io, v, true);
      var w := WriteUser(l.db, io, Delete, v, None);
      && l.ok && !w.ok
      && HalfDeleted(db, WriteLock(w.db, io, v, false).db, db.passwd[i].name, io(db.tick + 3).Succeeds(|db.shadow|))
  {
    hide WriteUser, NextLocked, UsersAgree, Keys, GetSpNam, LockedUser, Relocked;
    var name := db.passwd[i].name;
    LockKeepsUsers(db, name);
    var l := WriteLock(db, io, v, true);
    DeleteUserAgrees(l.db, io, v, i);
    var w := WriteUser(l.db, io, Delete, v, None);
    NameStays(db.passwd, l.db.shadow, i);
    UnlockAttempt(db, io, v, w.db.(passwd := db.passwd));
    UnlockKeepsNames(l.db.shadow, name);
  }

  lemma LockKeepsUsers(db: Db, name: string)
    requires UsersAgree(db.passwd, db.shadow) && GetSpNam(db.shadow, name).Some?
    ensures var l := NextLocked(db.shadow, Some(name), true);
      l.Some? && |l.value| == |db.shadow| && UsersAgree(db.passwd, l.value)
  {
    FirstShadow(db.shadow, name);
    var j := First(db.shadow, HitLock(Some(name)));
    SameKeys(db.shadow, db.shadow[j := EditLock(true)(db.shadow[j])], SpName);
  }

  lemma UnlockKeepsNames(s: seq<Shadow>, name: string)
    ensures var l := NextLocked(s, Some(name), false);
      l.Some? ==> |l.value| == |s| && Keys(l.value, SpName) == Keys(s, SpName)
  {
    var j := First(s, HitLock(Some(name)));
    if j < |s| {
      ReplaceKeys(s, SpName, j, EditLock(false)(s[j]));
    }
  }
}
