/**
 * The passwd and shadow files hold the same users, each once, under names and uids that are not
 * shared. This is kept by every operation whose writes succeed, whatever it returns.
 */
module UserConsistency {
  import opened Types
  import opened Sequences
  import opened Validate
  import opened GroupSpec
  import opened UserSpec
  import opened GroupAgreement
  import Gecos
  import StringUtils

  ghost predicate UsersAgree(passwd: seq<Passwd>, shadow: seq<Shadow>) {
    && Distinct(passwd, PwName) && Distinct(passwd, PwUid) && Distinct(shadow, SpName)
    && Keys(passwd, PwName) == Keys(shadow, SpName)
    && forall i :: 0 <= i < |passwd| ==> ValidName(Some(passwd[i].name))
  }

  /** All files agree: the four of them, or the three where there is no gshadow. */
  ghost predicate Consistent(db: Db) {
    UsersAgree(db.passwd, db.shadow) && GroupsOk(db.group, db.gshadow)
  }

  /** The gshadow file is there before and after, or neither before nor after. */
  ghost predicate SameShadowing(a: Db, b: Db) {
    b.gshadow.Some? <==> a.gshadow.Some?
  }

  /** A request object holds a GECOS string that the setters have built, and strings they accept. */
  ghost predicate UserReqOk(u: UserReq) {
    && (u.pw.name.Some? ==> ValidName(u.pw.name))
    && Gecos.CanonicalOrNull(u.pw.gecos)
    && (u.pw.passwd.Some? ==> ValidDbSecret(u.pw.passwd))
    && (u.pw.dir.Some? ==> ValidDbString(u.pw.dir))
    && (u.pw.shell.Some? ==> ValidDbString(u.pw.shell))
  }

  // ----- the edits, on the lists

  lemma AgreeAddUser(passwd: seq<Passwd>, shadow: seq<Shadow>, i: nat, pw: Passwd, sp: Shadow)
    requires UsersAgree(passwd, shadow) && i <= |passwd| && pw.name == sp.name && ValidName(Some(pw.name))
    requires pw.name !in Keys(passwd, PwName) && pw.uid !in Keys(passwd, PwUid)
    ensures UsersAgree(InsertAt(passwd, i, pw), shadow + [sp])
  {
    InsertKeys(passwd, PwName, i, pw);
    InsertKeys(passwd, PwUid, i, pw);
    InsertKeys(shadow, SpName, |shadow|, sp);
    assert InsertAt(shadow, |shadow|, sp) == shadow + [sp];
  }

  lemma AgreeDeleteUser(passwd: seq<Passwd>, shadow: seq<Shadow>, i: nat, j: nat)
    requires UsersAgree(passwd, shadow) && i < |passwd| && j < |shadow| && passwd[i].name == shadow[j].name
    ensures UsersAgree(RemoveAt(passwd, i), RemoveAt(shadow, j))
  {
    RemoveKeys(passwd, PwName, i);
    RemoveKeys(passwd, PwUid, i);
    RemoveKeys(shadow, SpName, j);
  }

  lemma AgreeModifyUser(passwd: seq<Passwd>, shadow: seq<Shadow>, i: nat, j: nat, pw: Passwd, sp: Shadow)
    requires UsersAgree(passwd, shadow) && i < |passwd| && j < |shadow|
    requires pw.name == passwd[i].name && pw.uid == passwd[i].uid && sp.name == shadow[j].name
    ensures UsersAgree(passwd[i := pw], shadow[j := sp])
  {
    ReplaceKeys(passwd, PwName, i, pw);
    ReplaceKeys(passwd, PwUid, i, pw);
    ReplaceKeys(shadow, SpName, j, sp);
  }

  /** The one position of a user in each file. */
  lemma UserPositions(passwd: seq<Passwd>, shadow: seq<Shadow>, i: nat) returns (j: nat)
    requires UsersAgree(passwd, shadow) && i < |passwd|
    ensures j < |shadow| && shadow[j].name == passwd[i].name
    ensures forall b :: 0 <= b < |shadow| && shadow[b].name == passwd[i].name ==> b == j
    ensures forall a :: 0 <= a < |passwd| && passwd[a].name == passwd[i].name ==> a == i
  {
    KeyIn(passwd, PwName, i);
    j :| 0 <= j < |shadow| && SpName(shadow[j]) == passwd[i].name;
    assert forall b :: 0 <= b < |shadow| && b != j ==> SpName(shadow[b]) != SpName(shadow[j]);
    assert forall a :: 0 <= a < |passwd| && a != i ==> PwName(passwd[a]) != PwName(passwd[i]);
  }

  // ----- the two writes

  /** Only the two user files differ. */
  ghost predicate SameGroups(a: Db, b: Db) {
    b.group == a.group && b.gshadow == a.gshadow
  }

  lemma WriteUserAdds(db: Db, io: Oracle, u: UserReq)
    requires UsersAgree(db.passwd, db.shadow)
    requires u.pw.name.Some? && ValidName(u.pw.name) && u.sp.name == u.pw.name
    requires u.pw.name.value !in Keys(db.passwd, PwName) && u.pw.uid !in Keys(db.passwd, PwUid)
    ensures var w := WriteUser(db, io, Add, u, None);
      && (WritesSucceed(io) ==> w.ok) && SameGroups(db, w.db)
      && (w.ok ==>
            && UsersAgree(w.db.passwd, w.db.shadow) && w.db.shadow == db.shadow + [ShadowLine(u.sp)]
            && exists i :: 0 <= i <= |db.passwd| && w.db.passwd == InsertAt(db.passwd, i, PasswdLine(u.pw)))
  {
    var i := First(db.passwd, HitPasswd(Add, u.pw, None));
    var j := First(db.shadow, HitShadow(Add, u.sp, None));
    if j < |db.shadow| {
      KeyIn(db.shadow, SpName, j);
    }
    AgreeAddUser(db.passwd, db.shadow, i, PasswdLine(u.pw), ShadowLine(u.sp));
  }

  /** The position of an entry that a request has been loaded from. */
  ghost predicate At(db: Db, u: UserReq, i: nat) {
    && i < |db.passwd| && u.pw.name == u.sp.name == Some(db.passwd[i].name)
    && u.pw.uid == db.passwd[i].uid && u.pw.gid == db.passwd[i].gid
  }

  lemma WriteUserDeletes(db: Db, io: Oracle, u: UserReq, i: nat)
    requires WritesSucceed(io) && UsersAgree(db.passwd, db.shadow) && At(db, u, i)
    ensures var w := WriteUser(db, io, Delete, u, None);
      && w.ok && SameGroups(db, w.db) && UsersAgree(w.db.passwd, w.db.shadow)
      && w.db.passwd == RemoveAt(db.passwd, i)
      && exists j :: 0 <= j < |db.shadow| && db.shadow[j].name == db.passwd[i].name
           && w.db.shadow == RemoveAt(db.shadow, j)
  {
    var j := UserPositions(db.passwd, db.shadow, i);
    assert First(db.passwd, HitPasswd(Delete, u.pw, None)) == i;
    assert First(db.shadow, HitShadow(Delete, u.sp, None)) == j;
    AgreeDeleteUser(db.passwd, db.shadow, i, j);
  }

  /**
   * The user's lines are replaced. The files agree afterwards exactly when the shadow entry carries the
   * user's name.
   */
  lemma WriteUserModifies(db: Db, io: Oracle, u: UserReq, i: nat)
    requires WritesSucceed(io) && UsersAgree(db.passwd, db.shadow)
    requires i < |db.passwd| && u.pw.name == Some(db.passwd[i].name)
    requires u.pw.uid == db.passwd[i].uid && u.pw.gid == db.passwd[i].gid
    ensures var w := WriteUser(db, io, Modify, u, u.pw.name);
      && w.ok && SameGroups(db, w.db) && (UsersAgree(w.db.passwd, w.db.shadow) <==> u.sp.name == u.pw.name)
      && w.db.passwd == db.passwd[i := PasswdLine(u.pw)]
      && exists j :: 0 <= j < |db.shadow| && db.shadow[j].name == db.passwd[i].name
           && w.db.shadow == db.shadow[j := ShadowLine(u.sp)]
  {
    var j := UserPositions(db.passwd, db.shadow, i);
    assert First(db.passwd, HitPasswd(Modify, u.pw, u.pw.name)) == i;
    assert First(db.shadow, HitShadow(Modify, u.sp, u.pw.name)) == j;
    if u.sp.name == u.pw.name {
      AgreeModifyUser(db.passwd, db.shadow, i, j, PasswdLine(u.pw), ShadowLine(u.sp));
    } else {
      UserLost(db.passwd, db.shadow, i, j, PasswdLine(u.pw), ShadowLine(u.sp));
    }
  }

  /** An entry of shadow that is replaced by one of another name leaves its user without one. */
  lemma UserLost(passwd: seq<Passwd>, shadow: seq<Shadow>, i: nat, j: nat, pw: Passwd, sp: Shadow)
    requires UsersAgree(passwd, shadow) && i < |passwd| && j < |shadow|
    requires passwd[i].name == shadow[j].name == pw.name != sp.name
    ensures !UsersAgree(passwd[i := pw], shadow[j := sp])
  {
    var r, t := passwd[i := pw], shadow[j := sp];
    KeyIn(r, PwName, i);
    forall b | 0 <= b < |t| ensures SpName(t[b]) != pw.name {
      assert b != j ==> SpName(shadow[b]) != SpName(shadow[j]);
    }
  }

  /** Locking and unlocking change secrets only. */
  lemma WriteLockAgrees(db: Db, io: Oracle, u: UserReq, lock: bool)
    requires WritesSucceed(io) && UsersAgree(db.passwd, db.shadow)
    ensures var w := WriteLock(db, io, u, lock);
      && w.db.passwd == db.passwd && SameGroups(db, w.db) && UsersAgree(w.db.passwd, w.db.shadow)
      && (w.ok <==> exists j :: 0 <= j < |db.shadow| && u.pw.name == Some(db.shadow[j].name))
  {
    var j := First(db.shadow, HitLock(u.pw.name));
    if j < |db.shadow| {
      SameKeys(db.shadow, db.shadow[j := EditLock(lock)(db.shadow[j])], SpName);
    }
  }

  // ----- the parts of the operations

  /** The entry that a request names, with its shadow entry. */
  lemma FindUser(db: Db, pw: PwReq) returns (i: nat)
    requires UsersAgree(db.passwd, db.shadow) && GetPasswd(db.passwd, pw).Some?
    ensures i < |db.passwd| && GetPasswd(db.passwd, pw) == Some(db.passwd[i])
    ensures pw.name.Some? ==> pw.name.value == db.passwd[i].name
    ensures pw.uid != INVALID_ID ==> pw.uid == db.passwd[i].uid
    ensures var s := GetSpNam(db.shadow, db.passwd[i].name);
      s.Some? && s.value.name == db.passwd[i].name
  {
    var pent := GetPasswd(db.passwd, pw).value;
    i :| 0 <= i < |db.passwd| && db.passwd[i] == pent;
    var j := UserPositions(db.passwd, db.shadow, i);
    assert GetSpNam(db.shadow, pent.name).Some? by {
      assert db.shadow[j].name == pent.name;
    }
  }

  lemma LoadedUserOk(u: UserReq, pent: Passwd, spent: Shadow)
    requires UserReqOk(u) && ValidName(Some(pent.name)) && spent.name == pent.name
    ensures var v := u.(pw := CopyPasswd(pent, u.pw), sp := CopyShadow(spent, u.sp, false));
      && UserReqOk(v) && v.pw.name == v.sp.name == Some(pent.name) && v.pw.uid == pent.uid && v.pw.gid == pent.gid
  {
    Gecos.LoadRec(u.pw.gecos, Some(pent.gecos));
  }

  /** The object names a user while its shadow entry carries another name. */
  ghost predicate MisnamedUser(db: Db, u: UserReq) {
    var pent := GetPasswd(db.passwd, u.pw);
    pent.Some? && u.sp.name !in {None, Some(pent.value.name)}
  }

  lemma FilledUserOk(u: UserReq, pent: Passwd, spent: Shadow)
    requires UserReqOk(u) && ValidName(Some(pent.name)) && spent.name == pent.name
    requires u.pw.name.Some? ==> u.pw.name.value == pent.name
    ensures var v := FillUser(u, pent, spent);
      && UserReqOk(v) && v.pw.name == Some(pent.name) && v.sp.name == Some(u.sp.name.GetOr(pent.name))
      && v.pw.uid == pent.uid && v.pw.gid == pent.gid
  {
    Gecos.UpdateRec(u.pw.gecos, Some(pent.gecos));
  }

  lemma DecidedUserOk(u: UserReq, pent: Passwd, spent: Shadow, env: Env)
    requires UserReqOk(u) && ValidName(Some(pent.name)) && spent.name == pent.name
    requires u.pw.name.Some? ==> u.pw.name.value == pent.name
    ensures var (w, _) := DecideUpdate(u, pent, spent, env);
      && UserReqOk(w) && w.pw.name == Some(pent.name) && w.sp.name == Some(u.sp.name.GetOr(pent.name))
      && w.pw.uid == pent.uid && w.pw.gid == pent.gid
  {
    hide FillUser;
    FilledUserOk(u, pent, spent);
  }

  lemma NamedUserOk(u: UserReq, digest: string)
    requires UserReqOk(u)
    ensures var n := SetDaemonUserName(u, digest);
      n.Some? ==> UserReqOk(n.value) && n.value.pw.name.Some?
  {
    var name := if u.pw.name.Some? then u.pw.name else GenerateUsername(u.nick, digest);
    Gecos.SetTextRec(u.pw.gecos, 0, name);
  }

  /** A request that is about to be added has a name and a uid that no entry has. */
  lemma SetUidOk(db: Db, u: UserReq, cfg: Config, digest: string)
    requires UserReqOk(u)
    ensures var (v, ok) := SetUid(db, u, cfg, digest);
      && UserReqOk(v)
      && (ok ==> v.pw.name.Some? && v.pw.name.value !in Keys(db.passwd, PwName) && v.pw.uid !in Keys(db.passwd, PwUid))
  {
    hide SetDaemonUserName;
    NamedUserOk(u, digest);
  }

  /** Making the primary group leaves the users alone, whatever fails. */
  lemma SetGroupUsers(db: Db, u: UserReq, cfg: Config, env: Env)
    ensures var s := SetGroup(db, u, cfg, env);
      && s.db.passwd == db.passwd && s.db.shadow == db.shadow
      && s.u == u.(pw := u.pw.(gid := s.u.pw.gid))
  {
    hide FindFreeGid, NextGroup, NextGshadow;
  }

  lemma SetGroupAgrees(db: Db, u: UserReq, cfg: Config, env: Env)
    requires WritesSucceed(env.io) && GroupsOk(db.group, db.gshadow)
    ensures var s := SetGroup(db, u, cfg, env).db;
      GroupsOk(s.group, s.gshadow) && SameShadowing(db, s)
  {
    hide GroupAdd, GroupsOk;
    GroupAddAgrees(db, PrimaryGroupReq(u, cfg), u.pw.uid, cfg, env, true);
  }

  lemma {:induction false} AddToGroupsAgrees(db: Db, uid: Id, names: seq<string>, env: Env)
    requires WritesSucceed(env.io) && Consistent(db)
    ensures var r := AddToGroups(db, uid, names, env);
      Consistent(r) && r.passwd == db.passwd && r.shadow == db.shadow && SameShadowing(db, r)
    decreases |names|
  {
    hide GroupAddMember, GroupsOk, UsersAgree;
    if names != [] {
      var g := FRESH_GROUP.(gr := SetGroupName(FRESH_GROUP.gr, Some(names[0])));
      GroupAddMemberAgrees(db, g, uid, false, env, true);
      AddToGroupsAgrees(GroupAddMember(db, g, uid, false, env, true).db, uid, names[1..], env);
    }
  }

  // ----- the operations

  /** What is about to be written is fit to be added, whatever the group files are and whatever fails. */
  lemma PrepareUserOk(db: Db, u: UserReq, cfg: Config, env: Env)
    requires UserReqOk(u)
    ensures var p := PrepareUser(db, u, cfg, env);
      && p.db.passwd == db.passwd && p.db.shadow == db.shadow && UserReqOk(p.u)
      && (p.ok ==> p.u.pw.name.Some? && p.u.sp.name == p.u.pw.name && p.u.pw.name.value !in Keys(db.passwd, PwName)
                   && p.u.pw.uid !in Keys(db.passwd, PwUid))
  {
    hide SetUid, SetGroup;
    SetUidOk(db, u, cfg, env.digest);
    var (v, ok) := SetUid(db, u, cfg, env.digest);
    SetGroupUsers(db, v, cfg, env);
  }

  lemma PrepareUserAgrees(db: Db, u: UserReq, cfg: Config, env: Env)
    requires WritesSucceed(env.io) && Consistent(db) && UserReqOk(u)
    ensures var p := PrepareUser(db, u, cfg, env);
      Consistent(p.db) && SameShadowing(db, p.db)
  {
    hide SetUid, SetGroup, GroupsOk;
    PrepareUserOk(db, u, cfg, env);
    SetGroupAgrees(db, SetUid(db, u, cfg, env.digest).0, cfg, env);
  }

  lemma DefaultShellOk(u: UserReq, cfg: Config)
    requires UserReqOk(u)
    ensures UserReqOk(DefaultShell(u, cfg))
  {
  }

  lemma UserAddConsistent(db: Db, u: UserReq, cfg: Config, env: Env, locked: bool)
    requires WritesSucceed(env.io) && Consistent(db) && UserReqOk(u)
    ensures var a := UserAdd(db, u, cfg, env, locked);
      Consistent(a.db) && UserReqOk(a.u) && SameShadowing(db, a.db)
  {
    hide PrepareUser, WriteUser, DefaultShell, AddToGroups, GroupsOk;
    DefaultShellOk(u, cfg);
    var v := DefaultShell(u, cfg);
    PrepareUserOk(db, v, cfg, env);
    PrepareUserAgrees(db, v, cfg, env);
    var p := PrepareUser(db, v, cfg, env);
    if p.ok {
      WriteUserAdds(p.db, env.io, p.u);
      var w := WriteUser(p.db, env.io, Add, p.u, None);
      var names := StringUtils.Split(if p.u.Type() == Gecos.TYPE_ADMIN then cfg.defAdminGroups else cfg.defGroups);
      AddToGroupsAgrees(w.db, p.u.pw.uid, names, env);
    }
  }

  lemma LeaveGroupsConsistent(db: Db, u: UserReq, env: Env)
    requires WritesSucceed(env.io) && Consistent(db)
    ensures var m := LeaveGroups(db, u, env);
      Consistent(m.db) && m.db.passwd == db.passwd && m.db.shadow == db.shadow && SameShadowing(db, m.db)
  {
    hide GroupDelete, DeleteMembership, GroupsOk;
    var g := FRESH_GROUP.(gr := FRESH_GROUP.gr.(gid := u.pw.gid));
    GroupDeleteAgrees(db, g, env, true);
    DeleteMembershipAgrees(GroupDelete(db, g, env, true).db, u.pw.name, env, true);
  }

  lemma UserDeleteConsistent(db: Db, u: UserReq, removeHome: bool, env: Env, locked: bool)
    requires WritesSucceed(env.io) && Consistent(db) && UserReqOk(u)
    ensures var d := UserDelete(db, u, removeHome, env, locked);
      Consistent(d.db) && UserReqOk(d.u) && SameShadowing(db, d.db)
  {
    hide WriteUser, WriteLock, LeaveGroups, CopyPasswd, CopyShadow, GetPasswd, GroupsOk;
    if LoadUser(db, u).Some? {
      var i := FindUser(db, u.pw);
      LoadedUserOk(u, db.passwd[i], GetSpNam(db.shadow, db.passwd[i].name).value);
      var v := LoadUser(db, u).value;
      WriteLockAgrees(db, env.io, v, true);
      var l := WriteLock(db, env.io, v, true);
      WriteLockAgrees(l.db, env.io, v, false);
      WriteUserDeletes(l.db, env.io, v, i);
      LeaveGroupsConsistent(WriteUser(l.db, env.io, Delete, v, None).db, v, env);
    }
  }
}
