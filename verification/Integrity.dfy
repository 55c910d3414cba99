/**
 * Referential integrity: every user's primary group exists. Nothing is asked of the rest of the
 * database, of the request objects or of the file replacements, any of which may fail.
 */
module Integrity {
  import opened Types
  import opened Sequences
  import opened Entries
  import opened GroupSpec
  import opened UserSpec
  import Gecos
  import StringUtils

  ghost predicate RefIntegrity(db: Db) {
    forall i :: 0 <= i < |db.passwd| ==> db.passwd[i].gid in Keys(db.group, GrGid)
  }

  /** The users are as before and no gid has gone from the group file. */
  ghost predicate KeepsGids(a: Db, b: Db) {
    b.passwd == a.passwd && b.shadow == a.shadow && Keys(a.group, GrGid) <= Keys(b.group, GrGid)
  }

  // ----- the group file

  lemma NextGroupGids(op: OpType, s: seq<Group>, gr: GrReq, oldName: Option<string>)
    requires NextGroup(op, s, gr, oldName).Some?
    ensures var r := Keys(NextGroup(op, s, gr, oldName).value, GrGid);
      match op
      case Add => r == Keys(s, GrGid) + {gr.gid}
      case Delete => Keys(s, GrGid) - {gr.gid} <= r
      case Modify => r == Keys(s, GrGid)
  {
    var i := First(s, HitGroup(op, gr, oldName));
    match op
    case Add => InsertKeys(s, GrGid, i, GroupLine(gr));
    case Delete => RemoveKeys(s, GrGid, i);
    case Modify => ReplaceKeys(s, GrGid, i, GroupLine(gr));
  }

  lemma WriteBothGids(db: Db, io: Oracle, op: OpType, g: GroupReq, oldName: Option<string>, wanted: bool)
    ensures var w := WriteBoth(db, io, op, g, oldName, wanted);
      && w.db.passwd == db.passwd && w.db.shadow == db.shadow
      && (if op == Delete then Keys(db.group, GrGid) - {g.gr.gid} else Keys(db.group, GrGid)) <= Keys(w.db.group, GrGid)
      && (op == Add && w.ok ==> g.gr.gid in Keys(w.db.group, GrGid))
  {
    if NextGroup(op, db.group, g.gr, oldName).Some? {
      NextGroupGids(op, db.group, g.gr, oldName);
    }
  }

  lemma MapKeys<R, K>(s: seq<R>, edit: R -> R, key: R -> K)
    requires forall e :: key(edit(e)) == key(e)
    ensures Keys(MapEntries(s, edit), key) == Keys(s, key)
    ensures Distinct(s, key) ==> Distinct(MapEntries(s, edit), key)
  {
    SameKeys(s, MapEntries(s, edit), key);
    SameKeys(MapEntries(s, edit), s, key);
  }

  // ----- the group operations

  lemma GroupAddGids(db: Db, g: GroupReq, preferred: Id, cfg: Config, env: Env, locked: bool)
    ensures var a := GroupAdd(db, g, preferred, cfg, env, locked);
      KeepsGids(db, a.db) && (a.ok ==> a.g.gr.gid in Keys(a.db.group, GrGid))
  {
    if g.kind != NoType && locked && SetGid(db, g, preferred, cfg).Some? {
      var (h, ok) := SetGshadowData(SetGid(db, g, preferred, cfg).value, env.encrypted);
      WriteBothGids(db, env.io, Add, h, None, db.gshadow.Some?);
    }
  }

  lemma NoUserOfGid(s: seq<Passwd>, gid: Id)
    requires gid != INVALID_ID && FindUserByGid(s, gid).None?
    ensures forall i :: 0 <= i < |s| ==> s[i].gid != gid
  {
  }

  lemma LoadGroupKeepsGid(db: Db, g: GroupReq)
    requires g.gr.gid != INVALID_ID && LoadGroup(db, g).Some?
    ensures LoadGroup(db, g).value.gr.gid == g.gr.gid
  {
  }

  /** Only a group that is no user's primary group is deleted. */
  lemma GroupDeleteGids(db: Db, g: GroupReq, env: Env, locked: bool)
    requires RefIntegrity(db)
    ensures var d := GroupDelete(db, g, env, locked).db;
      RefIntegrity(d) && d.passwd == db.passwd && d.shadow == db.shadow
  {
    hide WriteBoth, LoadGroup, FindUserByGid;
    if locked && g.gr.gid != INVALID_ID && LoadGroup(db, g).Some? {
      var h := LoadGroup(db, g).value;
      LoadGroupKeepsGid(db, g);
      if FindUserByGid(db.passwd, h.gr.gid).None? {
        NoUserOfGid(db.passwd, h.gr.gid);
        WriteBothGids(db, env.io, Delete, h, None, db.gshadow.Some?);
        assert forall i :: 0 <= i < |db.passwd| ==> db.passwd[i].gid in Keys(db.group, GrGid) - {h.gr.gid};
      }
    }
  }

  lemma GroupUpdateGids(db: Db, g: GroupReq, env: Env, locked: bool)
    ensures KeepsGids(db, GroupUpdate(db, g, env, locked).db)
  {
    var grp := GetGroup(db.group, g.gr);
    if grp.Some? {
      var sgrp := GetSgNam(db.gshadow, grp.value.name);
      var (h, ok) := SetSecret(FillGroup(g, grp.value, sgrp), env.encrypted);
      WriteBothGids(db, env.io, Modify, h, Some(grp.value.name), db.gshadow.Some?);
    }
  }

  lemma GroupAddMemberGids(db: Db, g: GroupReq, uid: Id, admin: bool, env: Env, locked: bool)
    ensures KeepsGids(db, GroupAddMember(db, g, uid, admin, env, locked).db)
  {
    var pent, grp := GetPwUid(db.passwd, uid), GetGroup(db.group, g.gr);
    if pent.Some? && grp.Some? {
      var sgrp := GetSgNam(db.gshadow, grp.value.name);
      var h := WithMember(g, grp.value, sgrp, pent.value.name, admin);
      WriteBothGids(db, env.io, Modify, h, None, sgrp.Some?);
    }
  }

  lemma GroupDeleteMemberGids(db: Db, g: GroupReq, uid: Id, env: Env, locked: bool)
    ensures KeepsGids(db, GroupDeleteMember(db, g, uid, env, locked).db)
  {
    var pent, grp := GetPwUid(db.passwd, uid), GetGroup(db.group, g.gr);
    if pent.Some? && grp.Some? {
      var h := WithoutMember(g, grp.value, GetSgNam(db.gshadow, grp.value.name), pent.value.name);
      WriteBothGids(db, env.io, Modify, h, None, db.gshadow.Some?);
    }
  }

  lemma DeleteMembershipGids(db: Db, user: Option<string>, env: Env, locked: bool)
    ensures KeepsGids(db, DeleteMembership(db, user, env, locked).db)
  {
    if user.Some? {
      MapKeys(db.group, PurgeGroup(user.value), GrGid);
    }
  }

  // ----- the user operations

  /** A user that is about to be written has a primary group that is already in the group file. */
  lemma SetGroupGids(db: Db, u: UserReq, cfg: Config, env: Env)
    ensures var s := SetGroup(db, u, cfg, env);
      KeepsGids(db, s.db) && (s.ok ==> s.u.pw.gid in Keys(s.db.group, GrGid))
  {
    var grp := if cfg.primaryGroup.Some? then GetGrNam(db.group, cfg.primaryGroup.value) else None;
    if grp.Some? {
      var i :| 0 <= i < |db.group| && db.group[i] == grp.value;
      KeyIn(db.group, GrGid, i);
    } else {
      GroupAddGids(db, PrimaryGroupReq(u, cfg), u.pw.uid, cfg, env, true);
    }
  }

  lemma PrepareUserGids(db: Db, u: UserReq, cfg: Config, env: Env)
    ensures var p := PrepareUser(db, u, cfg, env);
      KeepsGids(db, p.db) && (p.ok ==> p.u.pw.gid in Keys(p.db.group, GrGid))
  {
    var (v, ok) := SetUid(db, u, cfg, env.digest);
    SetGroupGids(db, v, cfg, env);
  }

  /** What a write of the two user files does to the gids in use: only an added line brings one in. */
  lemma WriteUserGids(db: Db, io: Oracle, op: OpType, u: UserReq, oldName: Option<string>)
    requires RefIntegrity(db) && (op == Add ==> u.pw.gid in Keys(db.group, GrGid))
    ensures var w := WriteUser(db, io, op, u, oldName).db;
      RefIntegrity(w) && w.group == db.group && w.gshadow == db.gshadow
  {
    var i := First(db.passwd, HitPasswd(op, u.pw, oldName));
    var next := NextPasswd(op, db.passwd, u.pw, oldName);
    if next.Some? {
      forall k | 0 <= k < |next.value| ensures next.value[k].gid in Keys(db.group, GrGid) {
        if op == Modify && k == i {
          assert next.value[k].gid == db.passwd[i].gid;
        }
      }
    }
  }

  lemma {:induction false} AddToGroupsGids(db: Db, uid: Id, names: seq<string>, env: Env)
    ensures KeepsGids(db, AddToGroups(db, uid, names, env))
    decreases |names|
  {
    if names != [] {
      var g := FRESH_GROUP.(gr := SetGroupName(FRESH_GROUP.gr, Some(names[0])));
      GroupAddMemberGids(db, g, uid, false, env, true);
      AddToGroupsGids(GroupAddMember(db, g, uid, false, env, true).db, uid, names[1..], env);
    }
  }

  lemma UserAddIntegrity(db: Db, u: UserReq, cfg: Config, env: Env, locked: bool)
    requires RefIntegrity(db)
    ensures RefIntegrity(UserAdd(db, u, cfg, env, locked).db)
  {
    var v := DefaultShell(u, cfg);
    PrepareUserGids(db, v, cfg, env);
    var p := PrepareUser(db, v, cfg, env);
    if p.ok {
      WriteUserGids(p.db, env.io, Add, p.u, None);
      var w := WriteUser(p.db, env.io, Add, p.u, None);
      var names := StringUtils.Split(if p.u.Type() == Gecos.TYPE_ADMIN then cfg.defAdminGroups else cfg.defGroups);
      AddToGroupsGids(w.db, p.u.pw.uid, names, env);
    }
  }

  lemma LeaveGroupsIntegrity(db: Db, u: UserReq, env: Env)
    requires RefIntegrity(db)
    ensures RefIntegrity(LeaveGroups(db, u, env).db)
  {
    var g := FRESH_GROUP.(gr := FRESH_GROUP.gr.(gid := u.pw.gid));
    GroupDeleteGids(db, g, env, true);
    DeleteMembershipGids(GroupDelete(db, g, env, true).db, u.pw.name, env, true);
  }

  lemma UserDeleteIntegrity(db: Db, u: UserReq, removeHome: bool, env: Env, locked: bool)
    requires RefIntegrity(db)
    ensures RefIntegrity(UserDelete(db, u, removeHome, env, locked).db)
  {
    if LoadUser(db, u).Some? {
      var v := LoadUser(db, u).value;
      var l := WriteLock(db, env.io, v, true);
      WriteUserGids(l.db, env.io, Delete, v, None);
      LeaveGroupsIntegrity(WriteUser(l.db, env.io, Delete, v, None).db, v, env);
    }
  }

  lemma UserUpdateIntegrity(db: Db, u: UserReq, env: Env, locked: bool)
    requires RefIntegrity(db)
    ensures RefIntegrity(UserUpdate(db, u, env, locked).db)
  {
    var out := UserUpdate(db, u, env, locked);
    var pent := GetPasswd(db.passwd, u.pw);
    if pent.Some? {
      WriteUserGids(db, env.io, Modify, out.u, Some(pent.value.name));
    }
  }
}
