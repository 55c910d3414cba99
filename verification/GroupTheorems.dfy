/** What one group operation achieves when its writes succeed and the group files are as they should be. */
module GroupTheorems {
  import opened Types
  import opened Sequences
  import opened StringUtils
  import opened Validate
  import opened IdAllocation
  import opened GroupSpec
  import opened GroupAgreement

  /** The entry of one group is replaced, and the one in gshadow if there is one, and nothing else changes. */
  ghost predicate Edited(a: Db, b: Db, i: nat, j: nat, gr: Group, sg: Gshadow) {
    && b.passwd == a.passwd && b.shadow == a.shadow && i < |a.group| && NamedAt(a.gshadow, j, a.group[i].name)
    && b.group == a.group[i := gr] && b.gshadow == PutAt(a.gshadow, j, sg)
  }

  /** The password field that comes of copying an entry into the object: the setter refuses what it does not accept. */
  function CopiedPasswd(g: GroupReq, e: Group): string {
    if ValidDbSecret(Some(e.passwd)) then e.passwd else g.gr.passwd.GetOr("")
  }

  /** The gshadow entry that the lookup finds is the one at the position of the group's name. */
  lemma FoundAt(db: Db, i: nat, j: nat)
    requires GroupsOk(db.group, db.gshadow) && i < |db.group| && NamedAt(db.gshadow, j, db.group[i].name)
    ensures GetSgNam(db.gshadow, db.group[i].name) == ShadowAt(db.gshadow, j)
  {
    var k := GroupPositions(db.group, db.gshadow, i);
  }

  /**
   * When a group is added, and what is added: one line before the first larger gid, and one at the end
   * of gshadow if there is one, with the members that the object holds, under a gid that was free.
   */
  lemma GroupAddExact(db: Db, g: GroupReq, preferred: Id, cfg: Config, env: Env)
    requires WritesSucceed(env.io) && GroupsOk(db.group, db.gshadow) && GroupReqOk(g, db.gshadow.Some?)
    ensures var a := GroupAdd(db, g, preferred, cfg, env, true);
      var gid := FindFreeGid(db, g.kind, preferred, cfg);
      && (a.ok <==> g.kind != NoType && g.gr.name.Some? && g.gr.name.value !in Keys(db.group, GrName) && gid.Some?
                    && (g.gr.passwd.Some? ==> env.encrypted.Some?))
      && (!a.ok ==> a.db == db)
      && (a.ok ==> a.g.gr.gid == gid.value && exists k :: GroupAdded(db, a.db, g, gid.value, k, env.encrypted))
  {
    hide WriteBoth, SetGshadowData, FindFreeGid, ValidName, GroupsOk, Pair;
    var s := SetGid(db, g, preferred, cfg);
    NameLookup(db.group, g.gr.name.GetOr(""));
    if g.kind != NoType && s.Some? {
      SetGidOk(db, g, preferred, cfg, db.gshadow.Some?);
      ShadowDataOk(s.value, env.encrypted, db.gshadow.Some?);
      ShadowDataLists(s.value, env.encrypted);
      var (h, ok) := SetGshadowData(s.value, env.encrypted);
      if ok {
        WriteBothAdds(db, env.io, h);
        var k := AddPosition(db, env.io, h);
        assert GroupAdded(db, GroupAdd(db, g, preferred, cfg, env, true).db, g, h.gr.gid, k, env.encrypted);
      }
    }
  }

  ghost predicate GroupAdded(db: Db, a: Db, g: GroupReq, gid: Id, k: nat, encrypted: Option<string>) {
    && k <= |db.group| && gid !in Keys(db.group, GrGid)
    && (forall i :: 0 <= i < k ==> db.group[i].gid <= gid) && (k < |db.group| ==> gid < db.group[k].gid)
    && a.passwd == db.passwd && a.shadow == db.shadow
    && a.group == InsertAt(db.group, k, Group(g.gr.name.GetOr(""), "x", gid, g.gr.mem.GetOr([])))
    && a.gshadow == Appended(db.gshadow, NewGshadow(g, encrypted))
  }

  /** The gshadow entry of a new group. */
  function NewGshadow(g: GroupReq, encrypted: Option<string>): Gshadow {
    var unset := if g.kind == SystemType then "*" else "!";
    Gshadow(g.gr.name.GetOr(""), if g.gr.passwd.Some? then encrypted.GetOr("") else unset,
            g.sg.adm.GetOr([]), g.gr.mem.GetOr([]))
  }

  /**
   * The gid of a new group: the preferred one if it is free, else what the search in the range for the
   * group's type chooses.
   */
  lemma GidChoice(db: Db, kind: GroupType, preferred: Id, cfg: Config)
    requires GidSearchEnds(db, cfg)
    ensures var gid, taken := FindFreeGid(db, kind, preferred, cfg), Keys(db.group, GrGid);
      var (min, max) := if kind == SystemType then (cfg.sysGidMin, cfg.sysGidMax) else (cfg.gidMin, cfg.gidMax);
      if preferred != INVALID_ID && Free(taken, preferred) then gid == Some(preferred) else Chosen(taken, min, max, gid)
  {
    hide FreeId, Chosen;
    FreeIdChosen(Keys(db.group, GrGid), cfg.gidMin, cfg.gidMax);
    FreeIdChosen(Keys(db.group, GrGid), cfg.sysGidMin, cfg.sysGidMax);
  }

  lemma NameLookup(s: seq<Group>, name: string)
    ensures GetGrNam(s, name).Some? <==> name in Keys(s, GrName)
  {
    if name in Keys(s, GrName) {
      var i :| 0 <= i < |s| && GrName(s[i]) == name;
      assert s[i].name == name;
    }
  }

  lemma ShadowDataLists(g: GroupReq, encrypted: Option<string>)
    ensures var (h, ok) := SetGshadowData(g, encrypted);
      && (ok <==> g.gr.passwd.Some? ==> encrypted.Some?)
      && (ok ==> h.gr.mem == h.sg.mem == g.gr.mem && h.sg.adm == g.sg.adm
                 && h.sg.secret == if g.gr.passwd.Some? then encrypted
                                   else Some(if g.kind == SystemType then "*" else "!"))
  {
  }

  lemma AddPosition(db: Db, io: Oracle, h: GroupReq) returns (k: nat)
    requires WritesSucceed(io) && h.gr.gid !in Keys(db.group, GrGid)
    ensures k <= |db.group|
    ensures WriteBoth(db, io, Add, h, None, db.gshadow.Some?).db.group == InsertAt(db.group, k, GroupLine(h.gr))
    ensures (forall i :: 0 <= i < k ==> db.group[i].gid <= h.gr.gid) && (k < |db.group| ==> h.gr.gid < db.group[k].gid)
  {
    k := First(db.group, HitGroup(Add, h.gr, None));
    assert NextGroup(Add, db.group, h.gr, None) == Some(InsertAt(db.group, k, GroupLine(h.gr)));
  }

  /** A group that has been added is what loading by its gid finds, unless the gid stands for "no gid". */
  lemma GroupAddThenLoad(db: Db, g: GroupReq, preferred: Id, cfg: Config, env: Env)
    requires WritesSucceed(env.io) && GroupsOk(db.group, db.gshadow) && GroupReqOk(g, db.gshadow.Some?)
    ensures var a := GroupAdd(db, g, preferred, cfg, env, true);
      a.ok ==>
        var l := LoadGroup(a.db, FRESH_GROUP.(gr := FRESH_GROUP.gr.(gid := a.g.gr.gid)));
        && (l.Some? <==> a.g.gr.gid != INVALID_ID)
        && (l.Some? ==>
              && GroupLine(l.value.gr) == GroupLine(a.g.gr)
              && (db.gshadow.Some? ==> GshadowLine(l.value.sg) == GshadowLine(a.g.sg)))
  {
    hide WriteBoth, SetGid, SetGshadowData, LoadGroup, GroupsOk, Pair;
    var a := GroupAdd(db, g, preferred, cfg, env, true);
    if a.ok {
      SetGidOk(db, g, preferred, cfg, db.gshadow.Some?);
      ShadowDataOk(SetGid(db, g, preferred, cfg).value, env.encrypted, db.gshadow.Some?);
      ShadowDataLists(SetGid(db, g, preferred, cfg).value, env.encrypted);
      WriteBothAdds(db, env.io, a.g);
      var k := AddPosition(db, env.io, a.g);
      var j := if db.gshadow.Some? then |db.gshadow.value| else 0;
      assert a.db.group[k] == GroupLine(a.g.gr);
      assert db.gshadow.Some? ==> a.db.gshadow.value[j] == GshadowLine(a.g.sg);
      LoadsLines(a.db, k, j);
    }
  }

  /** The object holds what is in the group's line, and in its entry in gshadow if there is one. */
  ghost predicate Holds(g: GroupReq, db: Db, i: nat, j: nat) {
    && i < |db.group| && db.group[i] == GroupLine(g.gr)
    && (db.gshadow.Some? ==> j < |db.gshadow.value| && db.gshadow.value[j] == GshadowLine(g.sg))
  }

  /** After an operation on a group that succeeds, but for a delete, the object holds what the files hold. */
  lemma ObjectHoldsLines(db: Db, g: GroupReq, preferred: Id, uid: Id, admin: bool, cfg: Config, env: Env)
    requires WritesSucceed(env.io) && GroupsOk(db.group, db.gshadow) && GroupReqOk(g, db.gshadow.Some?)
    ensures var a := GroupAdd(db, g, preferred, cfg, env, true); a.ok ==> exists i, j :: Holds(a.g, a.db, i, j)
    ensures var u := GroupUpdate(db, g, env, true); u.ok ==> exists i, j :: Holds(u.g, u.db, i, j)
    ensures var a := GroupAddMember(db, g, uid, admin, env, true); a.ok ==> exists i, j :: Holds(a.g, a.db, i, j)
    ensures var d := GroupDeleteMember(db, g, uid, env, true); d.ok ==> exists i, j :: Holds(d.g, d.db, i, j)
  {
    hide GroupAdd, GroupUpdate, GroupAddMember, GroupDeleteMember, Holds, GroupsOk, GroupReqOk;
    AddedHeld(db, g, preferred, cfg, env);
    UpdatedHeld(db, g, env);
    MemberAddedHeld(db, g, uid, admin, env);
    MemberDeletedHeld(db, g, uid, env);
  }

  lemma AddedHeld(db: Db, g: GroupReq, preferred: Id, cfg: Config, env: Env)
    requires WritesSucceed(env.io) && GroupsOk(db.group, db.gshadow) && GroupReqOk(g, db.gshadow.Some?)
    ensures var a := GroupAdd(db, g, preferred, cfg, env, true); a.ok ==> exists i, j :: Holds(a.g, a.db, i, j)
  {
    hide WriteBoth, SetGid, SetGshadowData, GroupsOk, Pair, GroupReqOk;
    var a := GroupAdd(db, g, preferred, cfg, env, true);
    if a.ok {
      SetGidOk(db, g, preferred, cfg, db.gshadow.Some?);
      ShadowDataOk(SetGid(db, g, preferred, cfg).value, env.encrypted, db.gshadow.Some?);
      NamesAreValid(g, db.gshadow.Some?);
      WriteBothAdds(db, env.io, a.g);
      var k := AddPosition(db, env.io, a.g);
      assert Holds(a.g, a.db, k, if db.gshadow.Some? then |db.gshadow.value| else 0);
    }
  }

  lemma NamesAreValid(g: GroupReq, shadowed: bool)
    requires GroupReqOk(g, shadowed)
    ensures g.gr.name.Some? ==> ValidName(g.gr.name)
  {
  }

  lemma UpdatedHeld(db: Db, g: GroupReq, env: Env)
    requires WritesSucceed(env.io) && GroupsOk(db.group, db.gshadow) && GroupReqOk(g, db.gshadow.Some?)
    ensures var u := GroupUpdate(db, g, env, true); u.ok ==> exists i, j :: Holds(u.g, u.db, i, j)
  {
    hide WriteBoth, FillGroup, GetGroup, GetSgNam, ValidName, Pair, GroupsOk, ListsOk;
    var u := GroupUpdate(db, g, env, true);
    if u.ok {
      var i := FindEntries(db, g.gr);
      var grp, s := db.group[i], GetSgNam(db.gshadow, db.group[i].name);
      FilledGroupOk(g, grp, s, db.gshadow.Some?);
      assert GroupReqOk(u.g, db.gshadow.Some?);
      var j := WriteBothModifies(db, env.io, u.g, Some(grp.name), i);
      assert Holds(u.g, u.db, i, j);
    }
  }

  lemma MemberAddedHeld(db: Db, g: GroupReq, uid: Id, admin: bool, env: Env)
    requires WritesSucceed(env.io) && GroupsOk(db.group, db.gshadow) && GroupReqOk(g, db.gshadow.Some?)
    ensures var a := GroupAddMember(db, g, uid, admin, env, true); a.ok ==> exists i, j :: Holds(a.g, a.db, i, j)
  {
    hide WriteBoth, GetGroup, GetPwUid, GetSgNam, WithMember, GroupsOk;
    var a := GroupAddMember(db, g, uid, admin, env, true);
    if a.ok {
      var i := FindEntries(db, g.gr);
      var grp, s := db.group[i], GetSgNam(db.gshadow, db.group[i].name);
      WithMemberOk(g, grp, s, GetPwUid(db.passwd, uid).value.name, admin, db.gshadow.Some?);
      var j := WriteBothModifies(db, env.io, a.g, None, i);
      assert Holds(a.g, a.db, i, j);
    }
  }

  lemma MemberDeletedHeld(db: Db, g: GroupReq, uid: Id, env: Env)
    requires WritesSucceed(env.io) && GroupsOk(db.group, db.gshadow) && GroupReqOk(g, db.gshadow.Some?)
    ensures var d := GroupDeleteMember(db, g, uid, env, true); d.ok ==> exists i, j :: Holds(d.g, d.db, i, j)
  {
    hide WriteBoth, GetGroup, GetPwUid, GetSgNam, WithoutMember, GroupsOk;
    var d := GroupDeleteMember(db, g, uid, env, true);
    if d.ok {
      var i := FindEntries(db, g.gr);
      var grp, s := db.group[i], GetSgNam(db.gshadow, db.group[i].name);
      WithoutMemberOk(g, grp, s, GetPwUid(db.passwd, uid).value.name, db.gshadow.Some?);
      var j := WriteBothModifies(db, env.io, d.g, None, i);
      assert Holds(d.g, d.db, i, j);
    }
  }

  /** A refused operation leaves the object as it was, unless it got as far as loading or filling it. */
  lemma RefusedObject(db: Db, g: GroupReq, preferred: Id, uid: Id, admin: bool, cfg: Config, env: Env, locked: bool)
    ensures GroupDelete(db, g, env, locked).g ==
      if locked && g.gr.gid != INVALID_ID then LoadGroup(db, g).GetOr(g) else g
    ensures !locked ==>
      && GroupAdd(db, g, preferred, cfg, env, locked).g == g && GroupUpdate(db, g, env, locked).g == g
      && GroupAddMember(db, g, uid, admin, env, locked).g == g && GroupDeleteMember(db, g, uid, env, locked).g == g
    ensures !Addable(db, g, uid) ==> GroupAddMember(db, g, uid, admin, env, locked).g == g
    ensures g.gr.passwd in {None, Some("x")} ==> GroupUpdate(db, g, env, locked).g == g
  {
    hide LoadGroup, WriteBoth, FillGroup, WithMember, WithoutMember, GetGroup, GetSgNam, SetGid, FindUserByGid;
  }

  /** Loading by gid gives the lines of the group back. */
  lemma LoadsLines(db: Db, i: nat, j: nat)
    requires GroupsOk(db.group, db.gshadow) && i < |db.group| && NamedAt(db.gshadow, j, db.group[i].name)
    requires ValidDbSecret(Some(db.group[i].passwd))
    ensures var gid := db.group[i].gid;
      var l := LoadGroup(db, FRESH_GROUP.(gr := FRESH_GROUP.gr.(gid := gid)));
      && (l.Some? <==> gid != INVALID_ID)
      && (l.Some? ==> GroupLine(l.value.gr) == db.group[i]
                      && (db.gshadow.Some? ==> GshadowLine(l.value.sg) == EntryAt(db.gshadow, j)))
  {
    hide GetSgNam;
    FoundAt(db, i, j);
    forall k | 0 <= k < |db.group| && db.group[k].gid == db.group[i].gid ensures k == i {
      assert GrGid(db.group[k]) == GrGid(db.group[i]);
    }
  }

  /** The member list is written back with the user at its end, the list of administrators too if asked. */
  lemma AddMemberExact(db: Db, g: GroupReq, uid: Id, admin: bool, env: Env, locked: bool)
    requires WritesSucceed(env.io) && GroupsOk(db.group, db.gshadow) && GroupReqOk(g, db.gshadow.Some?)
    ensures var a := GroupAddMember(db, g, uid, admin, env, locked);
      && (a.ok ==> exists i, j :: MemberAdded(db, g, a, i, j, GetPwUid(db.passwd, uid), admin))
      && (a.ok <==> locked && GetPwUid(db.passwd, uid).Some? && GetGroup(db.group, g.gr).Some?
                    && GetPwUid(db.passwd, uid).value.name !in GetGroup(db.group, g.gr).value.mem)
  {
    hide WriteBoth, CopyGroupData, GetGroup, GetPwUid, GetSgNam;
    var pent := GetPwUid(db.passwd, uid);
    if locked && pent.Some? && GetGroup(db.group, g.gr).Some? {
      var user := pent.value.name;
      var i := FindEntries(db, g.gr);
      var grp, s := db.group[i], GetSgNam(db.gshadow, db.group[i].name);
      if user !in grp.mem {
        WithMemberOk(g, grp, s, user, admin, db.gshadow.Some?);
        CopiedGroupOk(g, grp, s, db.gshadow.Some?);
        CopiedSecrets(g, grp, s);
        var h := WithMember(g, grp, s, user, admin);
        var j := WriteBothModifies(db, env.io, h, None, i);
        var w := WriteBoth(db, env.io, Modify, h, None, db.gshadow.Some?);
        assert MemberAdded(db, g, GroupOut(w.db, h, w.ok), i, j, pent, admin);
      }
    }
  }

  /** An addition that fails changes nothing. */
  lemma FailedAddMember(db: Db, g: GroupReq, uid: Id, admin: bool, env: Env)
    requires WritesSucceed(env.io) && GroupsOk(db.group, db.gshadow) && GroupReqOk(g, db.gshadow.Some?)
    ensures var a := GroupAddMember(db, g, uid, admin, env, true);
      !a.ok ==> a.db == db
  {
    hide WriteBoth, GetPwUid, GetGroup, GetSgNam;
    var pent := GetPwUid(db.passwd, uid);
    if pent.Some? && GetGroup(db.group, g.gr).Some? {
      var i := FindEntries(db, g.gr);
      var grp, s := db.group[i], GetSgNam(db.gshadow, db.group[i].name);
      if pent.value.name !in grp.mem {
        WithMemberOk(g, grp, s, pent.value.name, admin, db.gshadow.Some?);
        var j := WriteBothModifies(db, env.io, WithMember(g, grp, s, pent.value.name, admin), None, i);
      }
    }
  }

  ghost predicate MemberAdded(db: Db, g: GroupReq, a: GroupOut, i: nat, j: nat, pent: Option<Passwd>, admin: bool) {
    && pent.Some? && i < |db.group|
    && var (e, s, user) := (db.group[i], EntryAt(db.gshadow, j), pent.value.name);
       && GetGroup(db.group, g.gr) == Some(e) && user !in e.mem && user !in s.mem && user !in s.adm
       && a.g.gr.name == Some(e.name) && a.g.gr.gid == e.gid && a.g.gr.passwd.GetOr("") == CopiedPasswd(g, e)
       && Edited(db, a.db, i, j, e.(mem := e.mem + [user], passwd := CopiedPasswd(g, e)),
                 s.(mem := s.mem + [user], adm := if admin then s.adm + [user] else s.adm))
  }

  lemma CopiedSecrets(g: GroupReq, grp: Group, s: Option<Gshadow>)
    ensures var h := CopyGroupData(g, grp, s);
      h.gr.passwd.GetOr("") == CopiedPasswd(g, grp) && (s.Some? ==> h.sg.secret == Some(s.value.secret))
  {
  }

  /** The user is taken out of the member list and out of the list of administrators. */
  lemma DeleteMemberExact(db: Db, g: GroupReq, uid: Id, env: Env, locked: bool)
    requires WritesSucceed(env.io) && GroupsOk(db.group, db.gshadow) && GroupReqOk(g, db.gshadow.Some?)
    ensures var d := GroupDeleteMember(db, g, uid, env, locked);
      && (d.ok ==> exists i, j :: MemberDeleted(db, g, d, i, j, GetPwUid(db.passwd, uid)))
      && (d.ok <==> locked && GetPwUid(db.passwd, uid).Some? && GetGroup(db.group, g.gr).Some?
                    && GetPwUid(db.passwd, uid).value.name in GetGroup(db.group, g.gr).value.mem)
  {
    hide WriteBoth, CopyGroupData, GetGroup, GetPwUid, GetSgNam;
    var pent := GetPwUid(db.passwd, uid);
    if locked && pent.Some? && GetGroup(db.group, g.gr).Some? {
      var user := pent.value.name;
      var i := FindEntries(db, g.gr);
      var grp, s := db.group[i], GetSgNam(db.gshadow, db.group[i].name);
      if user in grp.mem {
        WithoutMemberOk(g, grp, s, user, db.gshadow.Some?);
        CopiedGroupOk(g, grp, s, db.gshadow.Some?);
        CopiedSecrets(g, grp, s);
        if s.Some? {
          WithoutLists(s.value.mem, s.value.adm, user);
        }
        var h := WithoutMember(g, grp, s, user);
        var j := WriteBothModifies(db, env.io, h, None, i);
        var w := WriteBoth(db, env.io, Modify, h, None, db.gshadow.Some?);
        assert MemberDeleted(db, g, GroupOut(w.db, h, w.ok), i, j, pent);
      }
    }
  }

  ghost predicate MemberDeleted(db: Db, g: GroupReq, d: GroupOut, i: nat, j: nat, pent: Option<Passwd>) {
    && pent.Some? && i < |db.group|
    && var (e, s, user) := (db.group[i], EntryAt(db.gshadow, j), pent.value.name);
       && GetGroup(db.group, g.gr) == Some(e) && user in e.mem && d.g.gr.name == Some(e.name)
       && Edited(db, d.db, i, j, e.(mem := Without(e.mem, user), passwd := CopiedPasswd(g, e)),
                 s.(mem := Without(s.mem, user), adm := Without(s.adm, user)))
  }

  /**
   * A member who was just added can be deleted through the same object. That restores all files, but for
   * the password field of the group, which is restored exactly when copying kept it in the first place.
   */
  lemma AddThenDeleteMember(db: Db, g: GroupReq, uid: Id, admin: bool, env: Env, env': Env)
    requires WritesSucceed(env.io) && WritesSucceed(env'.io) && GroupsOk(db.group, db.gshadow)
    requires GroupReqOk(g, db.gshadow.Some?)
    ensures var a := GroupAddMember(db, g, uid, admin, env, true);
      var d := GroupDeleteMember(a.db, a.g, uid, env', true);
      var e := GetGroup(db.group, g.gr);
      a.ok ==>
        && d.ok && d.db.passwd == db.passwd && d.db.shadow == db.shadow && d.db.gshadow == db.gshadow && e.Some?
        && (d.db.group == db.group <==> ValidDbSecret(Some(e.value.passwd)) || g.gr.passwd.GetOr("") == e.value.passwd)
  {
    hide GroupAddMember, GroupDeleteMember, GetGroup, GetPwUid, ValidDbSecret;
    var a := GroupAddMember(db, g, uid, admin, env, true);
    if a.ok {
      AddMemberExact(db, g, uid, admin, env, true);
      GroupAddMemberAgrees(db, g, uid, admin, env, true);
      var i: nat, j: nat :| MemberAdded(db, g, a, i, j, GetPwUid(db.passwd, uid), admin);
      NamedEntry(a.db, a.g.gr, i);
      DeleteMemberExact(a.db, a.g, uid, env', true);
      var d := GroupDeleteMember(a.db, a.g, uid, env', true);
      var i': nat, j': nat :| MemberDeleted(a.db, a.g, d, i', j', GetPwUid(a.db.passwd, uid));
      SamePosition(a.db, i, i', j, j');
      EditUndone(db, a.db, d.db, i, j, GetPwUid(db.passwd, uid).value.name, admin, CopiedPasswd(g, db.group[i]));
    }
  }

  /** Taking the user out of the lists undoes putting it at their ends. */
  lemma EditUndone(db: Db, m: Db, d: Db, i: nat, j: nat, user: string, admin: bool, p: string)
    requires i < |db.group|
    requires var e, s := db.group[i], EntryAt(db.gshadow, j);
      && user !in e.mem && user !in s.mem && user !in s.adm
      && Edited(db, m, i, j, e.(mem := e.mem + [user], passwd := p),
                s.(mem := s.mem + [user], adm := if admin then s.adm + [user] else s.adm))
    requires var e, s := m.group[i], EntryAt(m.gshadow, j);
      Edited(m, d, i, j, e.(mem := Without(e.mem, user), passwd := p),
             s.(mem := Without(s.mem, user), adm := Without(s.adm, user)))
    ensures d.passwd == db.passwd && d.shadow == db.shadow && d.gshadow == db.gshadow
    ensures d.group == db.group <==> db.group[i].passwd == p
  {
    var e, s := db.group[i], EntryAt(db.gshadow, j);
    UndoAppend(e.mem, user);
    UndoAppend(s.mem, user);
    UndoAppend(s.adm, user);
    assert d.group[i] == e.(passwd := p);
    assert d.group == db.group[i := e.(passwd := p)];
    if db.gshadow.Some? {
      assert d.gshadow.value[j] == s;
      assert d.gshadow.value == db.gshadow.value;
    }
  }

  lemma UndoAppend(v: seq<string>, user: string)
    ensures user !in v ==> Without(v + [user], user) == v && Without(v, user) == v
  {
    DeleteUndoesAppend(v, user);
    if user !in v {
      WithoutAbsent(v, user);
    }
  }

  /** A request that carries the name and gid of an entry finds it. */
  lemma NamedEntry(db: Db, gr: GrReq, i: nat)
    requires GroupFileOk(db.group) && i < |db.group|
    requires gr.name == Some(db.group[i].name) && gr.gid == db.group[i].gid
    ensures GetGroup(db.group, gr) == Some(db.group[i])
  {
    forall k | 0 <= k < |db.group| && db.group[k].gid == gr.gid ensures k == i {
      assert GrGid(db.group[k]) == GrGid(db.group[i]);
    }
    forall k | 0 <= k < |db.group| && db.group[k].name == db.group[i].name ensures k == i {
      assert GrName(db.group[k]) == GrName(db.group[i]);
    }
  }

  lemma SamePosition(db: Db, i: nat, i': nat, j: nat, j': nat)
    requires GroupsOk(db.group, db.gshadow) && i < |db.group| && i' < |db.group|
    requires db.group[i].name == db.group[i'].name
    requires NamedAt(db.gshadow, j, db.group[i].name) && NamedAt(db.gshadow, j', db.group[i].name)
    ensures i == i' && (db.gshadow.Some? ==> j == j')
  {
    var k := GroupPositions(db.group, db.gshadow, i);
  }

  /**
   * An update writes the new secret and with it the lists that the object holds: the lists of the file
   * if it holds none, else those that it was loaded with.
   */
  lemma UpdateExact(db: Db, g: GroupReq, env: Env, locked: bool)
    requires WritesSucceed(env.io) && GroupsOk(db.group, db.gshadow) && GroupReqOk(g, db.gshadow.Some?)
    ensures var u := GroupUpdate(db, g, env, locked);
      && (u.ok <==> GroupUpdates(db, g, env, locked))
      && (!u.ok ==> u.db == db)
      && (u.ok ==> exists i, j :: SecretUpdated(db, u, i, j, g, env.encrypted))
  {
    hide WriteBoth, FillGroup, GetGroup, GetSgNam, ValidName, Pair, GroupsOk, ListsOk;
    if locked && g.gr.gid != INVALID_ID && GetGroup(db.group, g.gr).Some? {
      var i := FindEntries(db, g.gr);
      var grp, s := db.group[i], GetSgNam(db.gshadow, db.group[i].name);
      FilledGroupOk(g, grp, s, db.gshadow.Some?);
      FilledLists(g, grp, s);
      var (h, ok) := SetSecret(FillGroup(g, grp, s), env.encrypted);
      if ok {
        var j := WriteBothModifies(db, env.io, h, Some(grp.name), i);
        if GroupUpdate(db, g, env, locked).ok {
          var w := WriteBoth(db, env.io, Modify, h, Some(grp.name), db.gshadow.Some?);
          assert SecretUpdated(db, GroupOut(w.db, h, w.ok), i, j, g, env.encrypted);
        }
      }
    }
  }

  lemma FilledLists(g: GroupReq, grp: Group, s: Option<Gshadow>)
    requires GroupReqOk(g, s.Some?) && (s.Some? ==> s.value.mem == grp.mem)
    ensures var h := FillGroup(g, grp, s);
      && h.gr.mem == Some(g.gr.mem.GetOr(grp.mem)) && h.gr.passwd == g.gr.passwd
      && (s.Some? ==> h.sg.mem == h.gr.mem && h.sg.adm == Some(g.sg.adm.GetOr(s.value.adm)))
  {
  }

  ghost predicate SecretUpdated(db: Db, u: GroupOut, i: nat, j: nat, g: GroupReq, encrypted: Option<string>) {
    && encrypted.Some? && i < |db.group| && db.group[i].gid == g.gr.gid
    && var (e, s) := (db.group[i], EntryAt(db.gshadow, j));
       Edited(db, u.db, i, j, e.(passwd := "x", mem := g.gr.mem.GetOr(e.mem)),
              s.(name := g.sg.name.GetOr(s.name), secret := encrypted.value,
                 mem := g.gr.mem.GetOr(s.mem), adm := g.sg.adm.GetOr(s.adm)))
  }

  ghost predicate SameMembers(a: seq<Group>, b: seq<Group>) {
    |b| == |a| && forall k :: 0 <= k < |a| ==> b[k].mem == a[k].mem
  }

  /** The group with the gid has exactly these members. */
  ghost predicate HasMembers(group: seq<Group>, gid: Id, mem: seq<string>) {
    exists k :: 0 <= k < |group| && group[k].gid == gid && group[k].mem == mem
  }

  /**
   * A successful update leaves the members of every group alone exactly when the object holds no member
   * list or the one that is in the file.
   */
  lemma UpdateKeepsMembers(db: Db, g: GroupReq, env: Env, locked: bool)
    requires WritesSucceed(env.io) && GroupsOk(db.group, db.gshadow) && GroupReqOk(g, db.gshadow.Some?)
    ensures var u := GroupUpdate(db, g, env, locked);
      u.ok ==> (SameMembers(db.group, u.db.group) <==> g.gr.mem.None? || HasMembers(db.group, g.gr.gid, g.gr.mem.value))
  {
    hide GroupUpdate;
    UpdateExact(db, g, env, locked);
    var u := GroupUpdate(db, g, env, locked);
    if u.ok {
      var i: nat, j: nat :| SecretUpdated(db, u, i, j, g, env.encrypted);
      assert u.db.group[i].mem == g.gr.mem.GetOr(db.group[i].mem);
      forall k | 0 <= k < |db.group| && db.group[k].gid == g.gr.gid ensures k == i {
        assert GrGid(db.group[k]) == GrGid(db.group[i]);
      }
    }
  }

  /** A concrete case: an object loaded before "ann" joined takes her out when its secret is updated. */
  lemma StaleUpdateDropsMember(db: Db, env: Env)
    requires WritesSucceed(env.io) && env.encrypted == Some("$6$new") && !env.sameSecret
    requires db.group == [Group("g", "x", 1000, ["ann"])] && db.gshadow == Some([Gshadow("g", "!", [], ["ann"])])
    ensures var g := GroupReq(GrReq(Some("g"), Some("new"), 1000, Some([])),
                              SgReq(Some("g"), Some("!"), Some([]), Some([])), UserType);
      var u := GroupUpdate(db, g, env, true);
      u.ok && u.db.group == [Group("g", "x", 1000, [])] && u.db.gshadow == Some([Gshadow("g", "$6$new", [], [])])
  {
    assert GetGrGid(db.group, 1000) == Some(db.group[0]);
    var g := GroupReq(GrReq(Some("g"), Some("x"), 1000, Some([])),
                      SgReq(Some("g"), Some("$6$new"), Some([]), Some([])), UserType);
    assert HitGroup(Modify, g.gr, Some("g"))(db.group[0]) && HitGshadow(Modify, g.sg, Some("g"))(db.gshadow.value[0]);
    assert First(db.group, HitGroup(Modify, g.gr, Some("g"))) == 0
        == First(db.gshadow.value, HitGshadow(Modify, g.sg, Some("g")));
    assert db.group[0 := GroupLine(g.gr)] == [GroupLine(g.gr)];
    assert db.gshadow.value[0 := GshadowLine(g.sg)] == [GshadowLine(g.sg)];
    assert NextGroup(Modify, db.group, g.gr, Some("g")) == Some([GroupLine(g.gr)]);
    assert NextGshadow(Modify, db.gshadow.value, g.sg, Some("g")) == Some([GshadowLine(g.sg)]);
  }
}
