/**
 * Names stay unique within each of the four files, whichever file replacements fail and whatever the
 * request objects hold, as long as no update misnames an entry. Nothing is asked of one file in
 * relation to another.
 */
module Naming {
  import opened Types
  import opened Sequences
  import opened Validate
  import opened Entries
  import opened GroupSpec
  import opened UserSpec
  import opened GroupAgreement
  import opened UserConsistency
  import Gecos
  import Integrity
  import StringUtils

  ghost predicate PasswdNames(s: seq<Passwd>) {
    Distinct(s, PwName) && forall i :: 0 <= i < |s| ==> ValidName(Some(s[i].name))
  }

  ghost predicate GroupNames(db: Db) {
    && Distinct(db.group, GrName) && (forall i :: 0 <= i < |db.group| ==> ValidName(Some(db.group[i].name)))
    && (db.gshadow.Some? ==> Distinct(db.gshadow.value, SgName))
  }

  ghost predicate UniqueNames(db: Db) {
    PasswdNames(db.passwd) && Distinct(db.shadow, SpName) && GroupNames(db)
  }

  // ----- the edits

  /**
   * An entry is added under a new name, removed, or replaced; the last doubles a name exactly when the new
   * entry takes the name of another one.
   */
  lemma NextNames<R>(op: OpType, ordered: bool, s: seq<R>, hit: R -> bool, rec: R, key: R -> string, old_: string)
    requires Distinct(s, key) && (op == Add ==> key(rec) !in Keys(s, key))
    requires op == Modify ==> forall e :: hit(e) ==> key(e) == old_
    ensures var r := NextEntries(op, ordered, s, hit, Always(rec), rec);
      r.Some? ==> (Distinct(r.value, key) <==> !(op == Modify && key(rec) != old_ && key(rec) in Keys(s, key)))
  {
    var i := First(s, hit);
    match op
    case Add =>
      InsertKeys(s, key, i, rec);
      assert i == |s| ==> InsertAt(s, i, rec) == s + [rec];
    case Delete =>
      if i < |s| {
        RemoveKeys(s, key, i);
      }
    case Modify =>
      if i < |s| {
        ReplaceDistinct(s, key, i, rec);
      }
  }

  lemma NextPasswdNames(op: OpType, s: seq<Passwd>, pw: PwReq)
    requires PasswdNames(s) && pw.name.Some? && ValidName(pw.name)
    requires op == Add ==> pw.name.value !in Keys(s, PwName)
    ensures var r := NextPasswd(op, s, pw, pw.name);
      r.Some? ==> PasswdNames(r.value)
  {
    NextNames(op, true, s, HitPasswd(op, pw, pw.name), PasswdLine(pw), PwName, pw.name.value);
  }

  /** An entry of shadow is replaced by one that takes the name of another. */
  ghost predicate DoublesShadow(op: OpType, s: seq<Shadow>, sp: SpReq, oldName: Option<string>) {
    op == Modify && oldName.Some? && ShadowLine(sp).name != oldName.value && ShadowLine(sp).name in Keys(s, SpName)
  }

  /** The shadow file refuses to add a name twice. */
  lemma NextShadowNames(op: OpType, s: seq<Shadow>, sp: SpReq, oldName: Option<string>)
    requires Distinct(s, SpName) && (op == Add ==> sp.name.Some?)
    ensures var r := NextShadow(op, s, sp, oldName);
      r.Some? ==> (Distinct(r.value, SpName) <==> !DoublesShadow(op, s, sp, oldName))
  {
    var i := First(s, HitShadow(op, sp, oldName));
    if op != Add || i == |s| {
      assert op == Add ==> forall k :: 0 <= k < |s| ==> SpName(s[k]) != sp.name.value;
      var old_ := if oldName.Some? then oldName.value else ShadowLine(sp).name;
      NextNames(op, false, s, HitShadow(op, sp, oldName), ShadowLine(sp), SpName, old_);
    }
  }

  lemma NextLockedNames(s: seq<Shadow>, name: Option<string>, lock: bool)
    requires Distinct(s, SpName)
    ensures var r := NextLocked(s, name, lock);
      r.Some? ==> Distinct(r.value, SpName)
  {
    var i := First(s, HitLock(name));
    if i < |s| {
      ReplaceKeys(s, SpName, i, EditLock(lock)(s[i]));
    }
  }

  lemma NextGroupNames(op: OpType, db: Db, gr: GrReq)
    requires GroupNames(db) && gr.name.Some? && ValidName(gr.name)
    requires op == Add ==> gr.name.value !in Keys(db.group, GrName)
    ensures var r := NextGroup(op, db.group, gr, gr.name);
      r.Some? ==> GroupNames(db.(group := r.value))
  {
    NextNames(op, true, db.group, HitGroup(op, gr, gr.name), GroupLine(gr), GrName, gr.name.value);
  }

  ghost predicate DoublesGshadow(op: OpType, s: seq<Gshadow>, sg: SgReq, oldName: Option<string>) {
    op == Modify && oldName.Some? && GshadowLine(sg).name != oldName.value && GshadowLine(sg).name in Keys(s, SgName)
  }

  /** So does gshadow. An object without a gshadow name matches no entry. */
  lemma NextGshadowNames(op: OpType, s: seq<Gshadow>, sg: SgReq, oldName: Option<string>)
    requires Distinct(s, SgName) && (op == Add ==> sg.name.Some?)
    ensures var r := NextGshadow(op, s, sg, oldName);
      r.Some? ==> (Distinct(r.value, SgName) <==> !DoublesGshadow(op, s, sg, oldName))
  {
    var i := First(s, HitGshadow(op, sg, oldName));
    if op != Add || i == |s| {
      assert op == Add ==> forall k :: 0 <= k < |s| ==> SgName(s[k]) != sg.name.value;
      var old_ := if oldName.Some? then oldName.value else GshadowLine(sg).name;
      NextNames(op, false, s, HitGshadow(op, sg, oldName), GshadowLine(sg), SgName, old_);
    }
  }

  // ----- the group operations

  ghost predicate KeepsNames(a: Db, b: Db) {
    b.passwd == a.passwd && b.shadow == a.shadow && (GroupNames(a) ==> GroupNames(b))
  }

  lemma OldNameNone(op: OpType, s: seq<Group>, gr: GrReq)
    ensures NextGroup(op, s, gr, None) == NextGroup(op, s, gr, gr.name)
  {
  }

  /** The two replacements keep the names exactly when the second one does not succeed in doubling one. */
  lemma WriteBothNames(db: Db, io: Oracle, op: OpType, g: GroupReq, oldName: Option<string>, wanted: bool)
    requires g.gr.name.Some? && ValidName(g.gr.name) && oldName in {None, g.gr.name} && GroupNames(db)
    requires op == Add ==> g.gr.name.value !in Keys(db.group, GrName) && g.sg.name == g.gr.name
    ensures var w := WriteBoth(db, io, op, g, oldName, wanted);
      && w.db.passwd == db.passwd && w.db.shadow == db.shadow
      && (GroupNames(w.db) <==>
            !(w.ok && wanted && db.gshadow.Some? && DoublesGshadow(op, db.gshadow.value, g.sg, oldName)))
  {
    hide NextGroup, NextGshadow, GroupNames, DoublesGshadow;
    OldNameNone(op, db.group, g.gr);
    NextGroupNames(op, db, g.gr);
    var w := WriteGroup(db, io, NextGroup(op, db.group, g.gr, oldName));
    SameButTick(w.db, db, NextGroup(op, db.group, g.gr, oldName));
    if wanted && w.ok {
      GshadowWriteNames(w.db, io, op, g.sg, oldName);
    }
  }

  lemma SameButTick(w: Db, db: Db, next: Option<seq<Group>>)
    requires GroupNames(db) && (next.Some? ==> GroupNames(db.(group := next.value)))
    requires w.gshadow == db.gshadow && (w.group == db.group || next == Some(w.group))
    ensures GroupNames(w)
  {
  }

  lemma GshadowWriteNames(db: Db, io: Oracle, op: OpType, sg: SgReq, oldName: Option<string>)
    requires GroupNames(db) && (op == Add ==> sg.name.Some?)
    ensures var w := WriteGshadow(db, io, NextGshadow(op, db.gshadow.GetOr([]), sg, oldName));
      && w.db.passwd == db.passwd && w.db.shadow == db.shadow
      && (GroupNames(w.db) <==>
            !(w.ok && db.gshadow.Some? && DoublesGshadow(op, db.gshadow.value, sg, oldName)))
  {
    hide NextGshadow, DoublesGshadow;
    if db.gshadow.Some? {
      NextGshadowNames(op, db.gshadow.value, sg, oldName);
    }
  }

  lemma GroupAddNames(db: Db, g: GroupReq, preferred: Id, cfg: Config, env: Env, locked: bool)
    ensures KeepsNames(db, GroupAdd(db, g, preferred, cfg, env, locked).db)
  {
    hide WriteBoth, ScanName, FindFreeGid, GroupNames, DoublesGshadow;
    if g.kind != NoType && locked && SetGid(db, g, preferred, cfg).Some? {
      var (h, ok) := SetGshadowData(SetGid(db, g, preferred, cfg).value, env.encrypted);
      OnlyGroups(db, env.io, Add, h, None, db.gshadow.Some?);
      if ok && GroupNames(db) {
        WriteBothNames(db, env.io, Add, h, None, db.gshadow.Some?);
        NothingDoubled(Add, db, h.sg);
      }
    }
  }

  /** Only a modification that is given the name of the entry it replaces can double a name. */
  lemma NothingDoubled(op: OpType, db: Db, sg: SgReq)
    ensures db.gshadow.Some? ==> !DoublesGshadow(op, db.gshadow.value, sg, None)
  {
  }

  /** The group that is found has a valid name, which the object takes over. */
  lemma FoundGroupName(db: Db, gr: GrReq)
    ensures var grp := GetGroup(db.group, gr);
      GroupNames(db) && grp.Some? ==>
        && ValidName(Some(grp.value.name)) && SetGroupName(gr, Some(grp.value.name)).name == Some(grp.value.name)
        && gr.name in {None, Some(grp.value.name)}
  {
    var grp := GetGroup(db.group, gr);
    if GroupNames(db) && grp.Some? {
      var i :| 0 <= i < |db.group| && db.group[i] == grp.value;
    }
  }

  lemma GroupDeleteNames(db: Db, g: GroupReq, env: Env, locked: bool)
    ensures KeepsNames(db, GroupDelete(db, g, env, locked).db)
  {
    hide WriteBoth, GetGroup, ValidName, GetSgNam;
    if LoadGroup(db, g).Some? && GroupNames(db) {
      FoundGroupName(db, g.gr);
      WriteBothNames(db, env.io, Delete, LoadGroup(db, g).value, None, db.gshadow.Some?);
      NothingDoubled(Delete, db, LoadGroup(db, g).value.sg);
    }
    OnlyGroups(db, env.io, Delete, LoadGroup(db, g).GetOr(g), None, db.gshadow.Some?);
  }

  lemma OnlyGroups(db: Db, io: Oracle, op: OpType, g: GroupReq, oldName: Option<string>, wanted: bool)
    ensures var w := WriteBoth(db, io, op, g, oldName, wanted);
      w.db.passwd == db.passwd && w.db.shadow == db.shadow
  {
  }

  /** What an update of a group depends on, the fate of the replacements included. */
  ghost predicate GroupCommits(db: Db, g: GroupReq, env: Env, locked: bool) {
    var grp := GetGroup(db.group, g.gr);
    && locked && g.gr.gid != INVALID_ID && grp.Some? && g.gr.passwd !in {None, Some("x")} && env.encrypted.Some?
    && var sgrp := GetSgNam(db.gshadow, grp.value.name);
       && (sgrp.Some? ==> !env.sameSecret) && (db.gshadow.Some? ==> sgrp.Some?)
       && env.io(db.tick).Succeeds(|db.group|)
       && (db.gshadow.Some? ==> env.io(db.tick + 1).Succeeds(|db.gshadow.value|))
  }

  lemma GroupUpdateCommits(db: Db, g: GroupReq, env: Env, locked: bool)
    requires GroupNames(db)
    ensures GroupUpdate(db, g, env, locked).ok <==> GroupCommits(db, g, env, locked)
  {
    hide GetGroup, ValidName, GroupNames;
    var grp := GetGroup(db.group, g.gr);
    if grp.Some? {
      var sgrp := GetSgNam(db.gshadow, grp.value.name);
      var (h, ok) := SetSecret(FillGroup(g, grp.value, sgrp), env.encrypted);
      FoundGroupName(db, g.gr);
      GroupIsThere(db, g.gr);
      if ok && g.gr.gid != INVALID_ID {
        GroupHit(db, h.gr, grp.value);
        if sgrp.Some? {
          GshadowHit(db, h.sg, sgrp.value);
        } else {
          NoEntryToUpdate(db, env.io, h, grp.value.name);
        }
      }
    }
  }

  lemma GroupIsThere(db: Db, gr: GrReq)
    ensures var grp := GetGroup(db.group, gr);
      grp.Some? ==> grp.value in db.group && (gr.gid != INVALID_ID ==> grp.value.gid == gr.gid)
  {
  }

  lemma GroupHit(db: Db, gr: GrReq, e: Group)
    requires e in db.group && gr.gid == e.gid
    ensures var r := NextGroup(Modify, db.group, gr, Some(e.name));
      r.Some? && |r.value| == |db.group|
  {
    var i :| 0 <= i < |db.group| && db.group[i] == e;
    assert HitGroup(Modify, gr, Some(e.name))(db.group[i]);
  }

  lemma GshadowHit(db: Db, sg: SgReq, e: Gshadow)
    requires db.gshadow.Some? && e in db.gshadow.value
    ensures var r := NextGshadow(Modify, db.gshadow.value, sg, Some(e.name));
      r.Some? && |r.value| == |db.gshadow.value|
  {
    var i :| 0 <= i < |db.gshadow.value| && db.gshadow.value[i] == e;
    assert HitGshadow(Modify, sg, Some(e.name))(db.gshadow.value[i]);
  }

  /** The update puts a name twice into gshadow. */
  ghost predicate DoublesGroup(db: Db, g: GroupReq, env: Env, locked: bool) {
    && GroupCommits(db, g, env, locked) && MisnamedGroup(db, g)
    && db.gshadow.Some? && g.sg.name.value in Keys(db.gshadow.value, SgName)
  }

  /** An update keeps the names of the groups unique exactly when it does not double one. */
  lemma GroupUpdateNames(db: Db, g: GroupReq, env: Env, locked: bool)
    ensures var u := GroupUpdate(db, g, env, locked);
      && u.db.passwd == db.passwd && u.db.shadow == db.shadow
      && (GroupNames(db) ==> (GroupNames(u.db) <==> !DoublesGroup(db, g, env, locked)))
  {
    hide WriteBoth, GetGroup, ValidName, GetSgNam, GroupNames, Keys, GroupCommits;
    var grp := GetGroup(db.group, g.gr);
    if GroupNames(db) {
      GroupUpdateCommits(db, g, env, locked);
    }
    if grp.Some? {
      var sgrp := GetSgNam(db.gshadow, grp.value.name);
      var (h, ok) := SetSecret(FillGroup(g, grp.value, sgrp), env.encrypted);
      OnlyGroups(db, env.io, Modify, h, Some(grp.value.name), db.gshadow.Some?);
      if ok && GroupNames(db) {
        FoundGroupName(db, g.gr);
        FilledName(db, g, grp.value);
        WriteBothNames(db, env.io, Modify, h, Some(grp.value.name), db.gshadow.Some?);
        if sgrp.None? {
          NoEntryToUpdate(db, env.io, h, grp.value.name);
        }
      }
    }
  }

  lemma FilledName(db: Db, g: GroupReq, grp: Group)
    requires ValidName(Some(grp.name)) && g.gr.name in {None, Some(grp.name)}
    ensures var s := GetSgNam(db.gshadow, grp.name); var h := FillGroup(g, grp, s);
      && h.gr.name == Some(grp.name)
      && h.sg.name == if s.Some? then Some(g.sg.name.GetOr(grp.name)) else g.sg.name
  {
  }

  /** If gshadow lacks the group, an update of it fails there. */
  lemma NoEntryToUpdate(db: Db, io: Oracle, h: GroupReq, name: string)
    requires GetSgNam(db.gshadow, name).None?
    ensures WriteBoth(db, io, Modify, h, Some(name), db.gshadow.Some?).ok ==> db.gshadow.None?
  {
    if db.gshadow.Some? {
      assert NextGshadow(Modify, db.gshadow.value, h.sg, Some(name)).None?;
    }
  }

  lemma GroupAddMemberNames(db: Db, g: GroupReq, uid: Id, admin: bool, env: Env, locked: bool)
    ensures KeepsNames(db, GroupAddMember(db, g, uid, admin, env, locked).db)
  {
    hide WriteBoth, GetGroup, ValidName, GetSgNam, GetPwUid;
    var pent, grp := GetPwUid(db.passwd, uid), GetGroup(db.group, g.gr);
    if pent.Some? && grp.Some? {
      var sgrp := GetSgNam(db.gshadow, grp.value.name);
      var h := WithMember(g, grp.value, sgrp, pent.value.name, admin);
      OnlyGroups(db, env.io, Modify, h, None, sgrp.Some?);
      FoundGroupName(db, g.gr);
      if GroupNames(db) {
        WriteBothNames(db, env.io, Modify, h, None, sgrp.Some?);
        NothingDoubled(Modify, db, h.sg);
      }
    }
  }

  lemma GroupDeleteMemberNames(db: Db, g: GroupReq, uid: Id, env: Env, locked: bool)
    ensures KeepsNames(db, GroupDeleteMember(db, g, uid, env, locked).db)
  {
    hide WriteBoth, GetGroup, ValidName, GetSgNam, GetPwUid;
    var pent, grp := GetPwUid(db.passwd, uid), GetGroup(db.group, g.gr);
    if pent.Some? && grp.Some? {
      var h := WithoutMember(g, grp.value, GetSgNam(db.gshadow, grp.value.name), pent.value.name);
      OnlyGroups(db, env.io, Modify, h, None, db.gshadow.Some?);
      FoundGroupName(db, g.gr);
      if GroupNames(db) {
        WriteBothNames(db, env.io, Modify, h, None, db.gshadow.Some?);
        NothingDoubled(Modify, db, h.sg);
      }
    }
  }

  lemma DeleteMembershipNames(db: Db, user: Option<string>, env: Env, locked: bool)
    ensures KeepsNames(db, DeleteMembership(db, user, env, locked).db)
  {
    if user.Some? {
      Integrity.MapKeys(db.group, PurgeGroup(user.value), GrName);
      if db.gshadow.Some? {
        Integrity.MapKeys(db.gshadow.value, PurgeGshadow(user.value), SgName);
      }
    }
  }

  // ----- the user operations

  lemma SetGroupNames(db: Db, u: UserReq, cfg: Config, env: Env)
    ensures var s := SetGroup(db, u, cfg, env);
      KeepsNames(db, s.db) && s.u.pw.name == u.pw.name
  {
    hide GroupAdd;
    GroupAddNames(db, PrimaryGroupReq(u, cfg), u.pw.uid, cfg, env, true);
  }

  lemma PrepareUserNames(db: Db, u: UserReq, cfg: Config, env: Env)
    ensures var p := PrepareUser(db, u, cfg, env);
      && KeepsNames(db, p.db)
      && (p.ok ==> p.u.pw.name.Some? && ValidName(p.u.pw.name) && p.u.sp.name == p.u.pw.name
                   && p.u.pw.name.value !in Keys(db.passwd, PwName))
  {
    hide SetGroup, FindFreeUid, ScanName, GroupNames;
    var (v, ok) := SetUid(db, u, cfg, env.digest);
    SetGroupNames(db, v, cfg, env);
  }

  lemma PasswdOldName(op: OpType, s: seq<Passwd>, pw: PwReq)
    ensures NextPasswd(op, s, pw, None) == NextPasswd(op, s, pw, pw.name)
  {
  }

  /** The two replacements keep the names exactly when the second one does not succeed in doubling one. */
  lemma WriteUserNames(db: Db, io: Oracle, op: OpType, u: UserReq, oldName: Option<string>)
    requires UniqueNames(db) && u.pw.name.Some? && ValidName(u.pw.name) && oldName in {None, u.pw.name}
    requires op == Add ==> u.pw.name.value !in Keys(db.passwd, PwName) && u.sp.name.Some?
    ensures var w := WriteUser(db, io, op, u, oldName);
      UniqueNames(w.db) <==> !(w.ok && DoublesShadow(op, db.shadow, u.sp, oldName))
  {
    hide NextPasswd, NextShadow, PasswdNames, DoublesShadow;
    PasswdOldName(op, db.passwd, u.pw);
    NextPasswdNames(op, db.passwd, u.pw);
    NextShadowNames(op, db.shadow, u.sp, oldName);
  }

  lemma {:induction false} AddToGroupsNames(db: Db, uid: Id, names: seq<string>, env: Env)
    ensures KeepsNames(db, AddToGroups(db, uid, names, env))
    decreases |names|
  {
    hide GroupAddMember, GroupNames;
    if names != [] {
      var g := FRESH_GROUP.(gr := SetGroupName(FRESH_GROUP.gr, Some(names[0])));
      GroupAddMemberNames(db, g, uid, false, env, true);
      AddToGroupsNames(GroupAddMember(db, g, uid, false, env, true).db, uid, names[1..], env);
    }
  }

  lemma UserAddNames(db: Db, u: UserReq, cfg: Config, env: Env, locked: bool)
    requires UniqueNames(db)
    ensures UniqueNames(UserAdd(db, u, cfg, env, locked).db)
  {
    hide PrepareUser, WriteUser, AddToGroups, GroupNames, PasswdNames, ValidName;
    var v := DefaultShell(u, cfg);
    PrepareUserNames(db, v, cfg, env);
    var p := PrepareUser(db, v, cfg, env);
    if p.ok {
      WriteUserNames(p.db, env.io, Add, p.u, None);
      var w := WriteUser(p.db, env.io, Add, p.u, None);
      var names := StringUtils.Split(if p.u.Type() == Gecos.TYPE_ADMIN then cfg.defAdminGroups else cfg.defGroups);
      AddToGroupsNames(w.db, p.u.pw.uid, names, env);
    }
  }

  lemma LeaveGroupsNames(db: Db, u: UserReq, env: Env)
    ensures KeepsNames(db, LeaveGroups(db, u, env).db)
  {
    hide GroupDelete, DeleteMembership, GroupNames;
    var g := FRESH_GROUP.(gr := FRESH_GROUP.gr.(gid := u.pw.gid));
    GroupDeleteNames(db, g, env, true);
    DeleteMembershipNames(GroupDelete(db, g, env, true).db, u.pw.name, env, true);
  }

  lemma WriteLockNames(db: Db, io: Oracle, u: UserReq, lock: bool)
    requires UniqueNames(db)
    ensures var w := WriteLock(db, io, u, lock);
      UniqueNames(w.db) && w.db.passwd == db.passwd
  {
    hide NextLocked;
    NextLockedNames(db.shadow, u.pw.name, lock);
  }

  /** The user that is found has a valid name, which the object takes over. */
  lemma FoundUserName(s: seq<Passwd>, pw: PwReq)
    requires PasswdNames(s)
    ensures var pent := GetPasswd(s, pw);
      pent.Some? ==>
        && ValidName(Some(pent.value.name)) && SetUserName(pw, Some(pent.value.name)).name == Some(pent.value.name)
        && CopyPasswd(pent.value, pw).name == Some(pent.value.name)
  {
    var pent := GetPasswd(s, pw);
    if pent.Some? {
      var i :| 0 <= i < |s| && s[i] == pent.value;
    }
  }

  lemma UserDeleteNames(db: Db, u: UserReq, removeHome: bool, env: Env, locked: bool)
    requires UniqueNames(db)
    ensures UniqueNames(UserDelete(db, u, removeHome, env, locked).db)
  {
    hide WriteUser, WriteLock, LeaveGroups, GetPasswd, CopyPasswd, ValidName, PasswdNames, GroupNames;
    FoundUserName(db.passwd, u.pw);
    if LoadUser(db, u).Some? {
      var v := LoadUser(db, u).value;
      WriteLockNames(db, env.io, v, true);
      var l := WriteLock(db, env.io, v, true);
      WriteLockNames(l.db, env.io, v, false);
      WriteUserNames(l.db, env.io, Delete, v, None);
      var w := WriteUser(l.db, env.io, Delete, v, None);
      WriteLockNames(w.db, env.io, v, false);
      LeaveGroupsNames(w.db, v, env);
    }
  }

  /** What an update of a user depends on, the fate of the replacements included. */
  ghost predicate UserCommits(db: Db, u: UserReq, env: Env, locked: bool) {
    var pent := GetPasswd(db.passwd, u.pw);
    && locked && u.pw.uid != INVALID_ID && pent.Some?
    && var spent := GetSpNam(db.shadow, pent.value.name);
       && spent.Some? && DecideUpdate(u, pent.value, spent.value, env).1
       && env.io(db.tick).Succeeds(|db.passwd|) && env.io(db.tick + 1).Succeeds(|db.shadow|)
  }

  lemma UserUpdateCommits(db: Db, u: UserReq, env: Env, locked: bool)
    requires PasswdNames(db.passwd)
    ensures UserUpdate(db, u, env, locked).ok <==> UserCommits(db, u, env, locked)
  {
    hide GetPasswd, ValidName, PasswdNames, DecideUpdate;
    FoundUserName(db.passwd, u.pw);
    UserIsThere(db.passwd, u.pw);
    var pent := GetPasswd(db.passwd, u.pw);
    if pent.Some? && GetSpNam(db.shadow, pent.value.name).Some? {
      var spent := GetSpNam(db.shadow, pent.value.name).value;
      DecidedNames(u, pent.value, spent, env);
      UserHit(db, DecideUpdate(u, pent.value, spent, env).0, pent.value, spent);
    }
  }

  lemma UserIsThere(s: seq<Passwd>, pw: PwReq)
    ensures GetPasswd(s, pw).Some? ==> GetPasswd(s, pw).value in s
  {
  }

  lemma UserHit(db: Db, u: UserReq, pent: Passwd, spent: Shadow)
    requires pent in db.passwd && spent in db.shadow && spent.name == pent.name
    requires u.pw.uid == pent.uid && u.pw.gid == pent.gid
    ensures var r := NextPasswd(Modify, db.passwd, u.pw, Some(pent.name));
      var t := NextShadow(Modify, db.shadow, u.sp, Some(pent.name));
      r.Some? && |r.value| == |db.passwd| && t.Some? && |t.value| == |db.shadow|
  {
    var i :| 0 <= i < |db.passwd| && db.passwd[i] == pent;
    assert HitPasswd(Modify, u.pw, Some(pent.name))(db.passwd[i]);
    var j :| 0 <= j < |db.shadow| && db.shadow[j] == spent;
    assert HitShadow(Modify, u.sp, Some(pent.name))(db.shadow[j]);
  }

  /** The update puts a name twice into shadow. */
  ghost predicate DoublesUser(db: Db, u: UserReq, env: Env, locked: bool) {
    UserCommits(db, u, env, locked) && MisnamedUser(db, u) && u.sp.name.value in Keys(db.shadow, SpName)
  }

  lemma DoubledName(s: seq<Shadow>, asked: Option<string>, sp: SpReq, name: string)
    requires sp.name == Some(asked.GetOr(name))
    ensures DoublesShadow(Modify, s, sp, Some(name)) <==> asked !in {None, Some(name)} && asked.value in Keys(s, SpName)
  {
  }

  /** An update keeps the names unique exactly when it does not double one. */
  lemma UserUpdateNames(db: Db, u: UserReq, env: Env, locked: bool)
    requires UniqueNames(db)
    ensures UniqueNames(UserUpdate(db, u, env, locked).db) <==> !DoublesUser(db, u, env, locked)
  {
    hide WriteUser, GetPasswd, ValidName, PasswdNames, GroupNames, DecideUpdate, DoublesShadow, UserCommits, GetSpNam;
    UserUpdateCommits(db, u, env, locked);
    FoundUserName(db.passwd, u.pw);
    var pent := GetPasswd(db.passwd, u.pw);
    if pent.Some? && GetSpNam(db.shadow, pent.value.name).Some? {
      var spent := GetSpNam(db.shadow, pent.value.name).value;
      ShadowIsThere(db.shadow, pent.value.name);
      DecidedNames(u, pent.value, spent, env);
      var w := DecideUpdate(u, pent.value, spent, env).0;
      WriteUserNames(db, env.io, Modify, w, Some(pent.value.name));
      DoubledName(db.shadow, u.sp.name, w.sp, pent.value.name);
    }
  }

  lemma ShadowIsThere(s: seq<Shadow>, name: string)
    ensures GetSpNam(s, name).Some? ==> GetSpNam(s, name).value.name == name
  {
  }

  lemma DecidedNames(u: UserReq, pent: Passwd, spent: Shadow, env: Env)
    requires SetUserName(u.pw, Some(pent.name)).name == Some(pent.name) && spent.name == pent.name
    ensures var w := DecideUpdate(u, pent, spent, env).0;
      && w.pw.name == Some(pent.name) && w.sp.name == Some(u.sp.name.GetOr(pent.name))
      && w.pw.uid == pent.uid && w.pw.gid == pent.gid
  {
    hide ValidName;
  }
}
