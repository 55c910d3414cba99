/**
 * Uids stay unique in the passwd file and gids in the group file, and files in strictly ascending order
 * stay in that order, whatever request objects are used and whichever file replacements fail.
 */
module Ordering {
  import opened Types
  import opened Sequences
  import opened Entries
  import opened GroupSpec
  import opened UserSpec
  import Gecos
  import StringUtils

  ghost predicate Ordered(db: Db) {
    Ascending(db.passwd, PwUid) && Ascending(db.group, GrGid)
  }

  /** No uid and no gid is used twice, in whatever order. */
  ghost predicate UniqueIds(db: Db) {
    Distinct(db.passwd, PwUid) && Distinct(db.group, GrGid)
  }

  // ----- the edits, on a list in ascending order

  lemma InsertAscending<R>(s: seq<R>, key: R -> Id, i: nat, x: R)
    requires Ascending(s, key) && i <= |s|
    requires forall j :: 0 <= j < i ==> key(s[j]) < key(x)
    requires i < |s| ==> key(x) < key(s[i])
    ensures Ascending(InsertAt(s, i, x), key)
  {
    var r := InsertAt(s, i, x);
    forall a, b | 0 <= a < b < |r| ensures key(r[a]) < key(r[b]) {
      assert r[a] == if a < i then s[a] else if a == i then x else s[a - 1];
      assert r[b] == if b < i then s[b] else if b == i then x else s[b - 1];
    }
  }

  lemma RemoveAscending<R>(s: seq<R>, key: R -> Id, i: nat)
    requires Ascending(s, key) && i < |s|
    ensures Ascending(RemoveAt(s, i), key)
  {
  }

  /** Insertion before the first larger uid, when the uid is not taken; deletion and modification always. */
  lemma NextPasswdAscends(op: OpType, s: seq<Passwd>, pw: PwReq, oldName: Option<string>)
    requires Ascending(s, PwUid) && (op == Add ==> pw.uid !in Keys(s, PwUid))
    ensures var r := NextPasswd(op, s, pw, oldName);
      r.Some? ==> Ascending(r.value, PwUid)
  {
    var i := First(s, HitPasswd(op, pw, oldName));
    if op == Add {
      forall j | 0 <= j < i ensures PwUid(s[j]) < pw.uid {
        KeyIn(s, PwUid, j);
      }
      InsertAscending(s, PwUid, i, PasswdLine(pw));
    } else if op == Delete && i < |s| {
      RemoveAscending(s, PwUid, i);
    }
  }

  lemma NextGroupAscends(op: OpType, s: seq<Group>, gr: GrReq, oldName: Option<string>)
    requires Ascending(s, GrGid) && (op == Add ==> gr.gid !in Keys(s, GrGid))
    ensures var r := NextGroup(op, s, gr, oldName);
      r.Some? ==> Ascending(r.value, GrGid)
  {
    var i := First(s, HitGroup(op, gr, oldName));
    if op == Add {
      forall j | 0 <= j < i ensures GrGid(s[j]) < gr.gid {
        KeyIn(s, GrGid, j);
      }
      InsertAscending(s, GrGid, i, GroupLine(gr));
    } else if op == Delete && i < |s| {
      RemoveAscending(s, GrGid, i);
    }
  }

  /** An untaken id is added, an entry is removed, or replaced by one with its id: ids stay unique. */
  lemma NextPasswdUnique(op: OpType, s: seq<Passwd>, pw: PwReq, oldName: Option<string>)
    requires Distinct(s, PwUid) && (op == Add ==> pw.uid !in Keys(s, PwUid))
    ensures var r := NextPasswd(op, s, pw, oldName);
      r.Some? ==> Distinct(r.value, PwUid)
  {
    var i := First(s, HitPasswd(op, pw, oldName));
    if op == Add {
      InsertKeys(s, PwUid, i, PasswdLine(pw));
    } else if i < |s| {
      RemoveKeys(s, PwUid, i);
      if op == Modify { ReplaceKeys(s, PwUid, i, PasswdLine(pw)); }
    }
  }

  lemma NextGroupUnique(op: OpType, s: seq<Group>, gr: GrReq, oldName: Option<string>)
    requires Distinct(s, GrGid) && (op == Add ==> gr.gid !in Keys(s, GrGid))
    ensures var r := NextGroup(op, s, gr, oldName);
      r.Some? ==> Distinct(r.value, GrGid)
  {
    var i := First(s, HitGroup(op, gr, oldName));
    if op == Add {
      InsertKeys(s, GrGid, i, GroupLine(gr));
    } else if i < |s| {
      RemoveKeys(s, GrGid, i);
      if op == Modify { ReplaceKeys(s, GrGid, i, GroupLine(gr)); }
    }
  }

  // ----- the group operations

  /** The users are as before; gids that were in order stay so, and gids that were unique. */
  ghost predicate KeepsOrder(a: Db, b: Db) {
    && b.passwd == a.passwd
    && (Ascending(a.group, GrGid) ==> Ascending(b.group, GrGid))
    && (Distinct(a.group, GrGid) ==> Distinct(b.group, GrGid))
  }

  lemma WriteBothOrder(db: Db, io: Oracle, op: OpType, g: GroupReq, oldName: Option<string>, wanted: bool)
    requires op == Add ==> g.gr.gid !in Keys(db.group, GrGid)
    ensures KeepsOrder(db, WriteBoth(db, io, op, g, oldName, wanted).db)
  {
    hide NextGroup;
    if Ascending(db.group, GrGid) {
      NextGroupAscends(op, db.group, g.gr, oldName);
    }
    if Distinct(db.group, GrGid) {
      NextGroupUnique(op, db.group, g.gr, oldName);
    }
  }

  lemma GroupAddOrder(db: Db, g: GroupReq, preferred: Id, cfg: Config, env: Env, locked: bool)
    ensures KeepsOrder(db, GroupAdd(db, g, preferred, cfg, env, locked).db)
  {
    hide WriteBoth;
    if g.kind != NoType && locked && SetGid(db, g, preferred, cfg).Some? {
      var (h, ok) := SetGshadowData(SetGid(db, g, preferred, cfg).value, env.encrypted);
      WriteBothOrder(db, env.io, Add, h, None, db.gshadow.Some?);
    }
  }

  lemma GroupDeleteOrder(db: Db, g: GroupReq, env: Env, locked: bool)
    ensures KeepsOrder(db, GroupDelete(db, g, env, locked).db)
  {
    hide WriteBoth;
    if LoadGroup(db, g).Some? {
      WriteBothOrder(db, env.io, Delete, LoadGroup(db, g).value, None, db.gshadow.Some?);
    }
  }

  lemma GroupUpdateOrder(db: Db, g: GroupReq, env: Env, locked: bool)
    ensures KeepsOrder(db, GroupUpdate(db, g, env, locked).db)
  {
    hide WriteBoth;
    var grp := GetGroup(db.group, g.gr);
    if grp.Some? {
      var sgrp := GetSgNam(db.gshadow, grp.value.name);
      var (h, ok) := SetSecret(FillGroup(g, grp.value, sgrp), env.encrypted);
      WriteBothOrder(db, env.io, Modify, h, Some(grp.value.name), db.gshadow.Some?);
    }
  }

  lemma GroupAddMemberOrder(db: Db, g: GroupReq, uid: Id, admin: bool, env: Env, locked: bool)
    ensures KeepsOrder(db, GroupAddMember(db, g, uid, admin, env, locked).db)
  {
    hide WriteBoth;
    var pent, grp := GetPwUid(db.passwd, uid), GetGroup(db.group, g.gr);
    if pent.Some? && grp.Some? {
      var sgrp := GetSgNam(db.gshadow, grp.value.name);
      var h := WithMember(g, grp.value, sgrp, pent.value.name, admin);
      WriteBothOrder(db, env.io, Modify, h, None, sgrp.Some?);
    }
  }

  lemma GroupDeleteMemberOrder(db: Db, g: GroupReq, uid: Id, env: Env, locked: bool)
    ensures KeepsOrder(db, GroupDeleteMember(db, g, uid, env, locked).db)
  {
    hide WriteBoth;
    var pent, grp := GetPwUid(db.passwd, uid), GetGroup(db.group, g.gr);
    if pent.Some? && grp.Some? {
      var h := WithoutMember(g, grp.value, GetSgNam(db.gshadow, grp.value.name), pent.value.name);
      WriteBothOrder(db, env.io, Modify, h, None, db.gshadow.Some?);
    }
  }

  lemma DeleteMembershipOrder(db: Db, user: Option<string>, env: Env, locked: bool)
    ensures KeepsOrder(db, DeleteMembership(db, user, env, locked).db)
  {
    if user.Some? {
      var r := MapEntries(db.group, PurgeGroup(user.value));
      assert forall i :: 0 <= i < |r| ==> GrGid(r[i]) == GrGid(db.group[i]);
    }
  }

  // ----- the user operations

  /** Ids that were in order stay so, and ids that were unique. */
  ghost predicate KeepsIds(a: Db, b: Db) {
    (Ordered(a) ==> Ordered(b)) && (UniqueIds(a) ==> UniqueIds(b))
  }

  lemma SetGroupOrder(db: Db, u: UserReq, cfg: Config, env: Env)
    ensures var s := SetGroup(db, u, cfg, env);
      KeepsOrder(db, s.db) && s.u.pw.uid == u.pw.uid
  {
    hide GroupAdd;
    GroupAddOrder(db, PrimaryGroupReq(u, cfg), u.pw.uid, cfg, env, true);
  }

  lemma PrepareUserOrder(db: Db, u: UserReq, cfg: Config, env: Env)
    ensures var p := PrepareUser(db, u, cfg, env);
      KeepsOrder(db, p.db) && (p.ok ==> p.u.pw.uid !in Keys(db.passwd, PwUid))
  {
    hide SetGroup;
    var (v, ok) := SetUid(db, u, cfg, env.digest);
    SetGroupOrder(db, v, cfg, env);
  }

  lemma WriteUserOrder(db: Db, io: Oracle, op: OpType, u: UserReq, oldName: Option<string>)
    requires op == Add ==> u.pw.uid !in Keys(db.passwd, PwUid)
    ensures KeepsIds(db, WriteUser(db, io, op, u, oldName).db)
  {
    hide NextPasswd;
    if Ascending(db.passwd, PwUid) {
      NextPasswdAscends(op, db.passwd, u.pw, oldName);
    }
    if Distinct(db.passwd, PwUid) {
      NextPasswdUnique(op, db.passwd, u.pw, oldName);
    }
  }

  lemma {:induction false} AddToGroupsOrder(db: Db, uid: Id, names: seq<string>, env: Env)
    ensures KeepsOrder(db, AddToGroups(db, uid, names, env))
    decreases |names|
  {
    hide GroupAddMember;
    if names != [] {
      var g := FRESH_GROUP.(gr := SetGroupName(FRESH_GROUP.gr, Some(names[0])));
      GroupAddMemberOrder(db, g, uid, false, env, true);
      AddToGroupsOrder(GroupAddMember(db, g, uid, false, env, true).db, uid, names[1..], env);
    }
  }

  lemma UserAddOrder(db: Db, u: UserReq, cfg: Config, env: Env, locked: bool)
    ensures KeepsIds(db, UserAdd(db, u, cfg, env, locked).db)
  {
    hide PrepareUser, WriteUser, AddToGroups;
    var v := DefaultShell(u, cfg);
    PrepareUserOrder(db, v, cfg, env);
    var p := PrepareUser(db, v, cfg, env);
    if p.ok {
      WriteUserOrder(p.db, env.io, Add, p.u, None);
      var w := WriteUser(p.db, env.io, Add, p.u, None);
      var names := StringUtils.Split(if p.u.Type() == Gecos.TYPE_ADMIN then cfg.defAdminGroups else cfg.defGroups);
      AddToGroupsOrder(w.db, p.u.pw.uid, names, env);
    }
  }

  lemma LeaveGroupsOrder(db: Db, u: UserReq, env: Env)
    ensures KeepsIds(db, LeaveGroups(db, u, env).db)
  {
    hide GroupDelete, DeleteMembership;
    var g := FRESH_GROUP.(gr := FRESH_GROUP.gr.(gid := u.pw.gid));
    GroupDeleteOrder(db, g, env, true);
    DeleteMembershipOrder(GroupDelete(db, g, env, true).db, u.pw.name, env, true);
  }

  lemma UserDeleteOrder(db: Db, u: UserReq, removeHome: bool, env: Env, locked: bool)
    ensures KeepsIds(db, UserDelete(db, u, removeHome, env, locked).db)
  {
    hide WriteUser, LeaveGroups, LoadUser;
    if LoadUser(db, u).Some? {
      var v := LoadUser(db, u).value;
      var l := WriteLock(db, env.io, v, true);
      WriteUserOrder(l.db, env.io, Delete, v, None);
      LeaveGroupsOrder(WriteUser(l.db, env.io, Delete, v, None).db, v, env);
    }
  }

  lemma UserUpdateOrder(db: Db, u: UserReq, env: Env, locked: bool)
    ensures KeepsIds(db, UserUpdate(db, u, env, locked).db)
  {
    hide WriteUser;
    var pent := GetPasswd(db.passwd, u.pw);
    if pent.Some? {
      WriteUserOrder(db, env.io, Modify, UserUpdate(db, u, env, locked).u, Some(pent.value.name));
    }
  }
}
