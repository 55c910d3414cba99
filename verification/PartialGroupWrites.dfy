/**
 * What becomes of the agreement between group and gshadow when any of the file replacements may fail.
 * Nothing is asked of passwd and shadow.
 */
module PartialGroupWrites {
  import opened Types
  import opened Sequences
  import opened Validate
  import opened Entries
  import opened GroupSpec
  import opened UserSpec
  import opened GroupAgreement
  import UserConsistency
  import UserTheorems
  import Gecos
  import StringUtils

  // ----- the two replacements

  /** There are two files to write; the first replacement is made and the second one is not. */
  predicate Halved(db: Db, io: Oracle, n: nat, m: nat) {
    db.gshadow.Some? && io(db.tick).Succeeds(n) && !io(db.tick + 1).Succeeds(m)
  }

  /** The number of entries in gshadow. */
  function ShadowSize(db: Db): nat {
    |db.gshadow.GetOr([])|
  }

  ghost predicate Agrees(db: Db) {
    GroupsOk(db.group, db.gshadow)
  }

  /** The users are as before and gshadow is there if it was. */
  ghost predicate OnlyGroups(a: Db, b: Db) {
    b.passwd == a.passwd && b.shadow == a.shadow && UserConsistency.SameShadowing(a, b)
  }

  lemma GroupFiles(db: Db, io: Oracle, op: OpType, g: GroupReq, oldName: Option<string>, p: seq<Group>, s: seq<Gshadow>)
    requires NextGroup(op, db.group, g.gr, oldName) == Some(p)
    requires db.gshadow.Some? ==> NextGshadow(op, db.gshadow.value, g.sg, oldName) == Some(s)
    ensures var w := WriteBoth(db, io, op, g, oldName, db.gshadow.Some?);
      var first, second := io(db.tick).Succeeds(|p|), io(db.tick + 1).Succeeds(|s|);
      && (w.ok <==> first && (db.gshadow.Some? ==> second)) && OnlyGroups(db, w.db)
      && w.db.group == (if first then p else db.group)
      && w.db.gshadow == (if db.gshadow.Some? && first && second then Some(s) else db.gshadow)
  {
  }

  /** Adding a group keeps the agreement exactly when both replacements are made or the first one is not. */
  lemma AddGroupAgrees(db: Db, io: Oracle, g: GroupReq)
    requires Agrees(db) && g.gr.name.Some? && ValidName(g.gr.name) && g.sg.name == g.gr.name
    requires db.gshadow.Some? ==> Pair(GroupLine(g.gr), GshadowLine(g.sg))
    requires g.gr.name.value !in Keys(db.group, GrName) && g.gr.gid !in Keys(db.group, GrGid)
    ensures var w := WriteBoth(db, io, Add, g, None, db.gshadow.Some?);
      && OnlyGroups(db, w.db) && (w.ok ==> Agrees(w.db))
      && (Agrees(w.db) <==> !Halved(db, io, |db.group| + 1, ShadowSize(db) + 1))
  {
    hide MembersAgree, ListsOk, WriteBoth;
    var i := First(db.group, HitGroup(Add, g.gr, None));
    var r, t := InsertAt(db.group, i, GroupLine(g.gr)), db.gshadow.GetOr([]) + [GshadowLine(g.sg)];
    if db.gshadow.Some? {
      var j := First(db.gshadow.value, HitGshadow(Add, g.sg, None));
      if j < |db.gshadow.value| {
        KeyIn(db.gshadow.value, SgName, j);
      }
      AgreeAdd(db.group, db.gshadow.value, i, GroupLine(g.gr), GshadowLine(g.sg));
    }
    GroupFiles(db, io, Add, g, None, r, t);
    FileAdds(db.group, i, GroupLine(g.gr));
    assert r[i] == GroupLine(g.gr);
    KeyIn(r, GrName, i);
  }

  /** So does deleting one. */
  lemma DeleteGroupAgrees(db: Db, io: Oracle, g: GroupReq, i: nat)
    requires Agrees(db) && i < |db.group| && g.gr.name == Some(db.group[i].name) && g.gr.gid == db.group[i].gid
    requires db.gshadow.Some? ==> g.sg.name == g.gr.name
    ensures var w := WriteBoth(db, io, Delete, g, None, db.gshadow.Some?);
      && OnlyGroups(db, w.db) && (w.ok ==> Agrees(w.db)) && (db.gshadow.Some? ==> |db.gshadow.value| > 0)
      && (Agrees(w.db) <==> !(db.gshadow.Some? && Halved(db, io, |db.group| - 1, |db.gshadow.value| - 1)))
  {
    hide GroupFileOk, MembersAgree, WriteBoth, NextGroup, NextGshadow;
    var j := LinesHit(db, g, i);
    FileDeletes(db.group, i);
    if db.gshadow.Some? {
      AgreeDelete(db.group, db.gshadow.value, i, j);
      GroupStays(db.group, db.gshadow.value, i);
    }
    GroupFiles(db, io, Delete, g, None, RemoveAt(db.group, i), RemovedAt(db.gshadow, j).GetOr([]));
  }

  /** The lists that deleting the group makes. */
  lemma LinesHit(db: Db, g: GroupReq, i: nat) returns (j: nat)
    requires Agrees(db) && i < |db.group| && g.gr.name == Some(db.group[i].name) && g.gr.gid == db.group[i].gid
    requires db.gshadow.Some? ==> g.sg.name == g.gr.name
    ensures NamedAt(db.gshadow, j, db.group[i].name)
    ensures NextGroup(Delete, db.group, g.gr, None) == Some(RemoveAt(db.group, i))
    ensures db.gshadow.Some? ==>
      NextGshadow(Delete, db.gshadow.value, g.sg, None) == Some(RemoveAt(db.gshadow.value, j))
  {
    hide GroupFileOk, MembersAgree;
    j := GroupPositions(db.group, db.gshadow, i);
    assert First(db.group, HitGroup(Delete, g.gr, None)) == i;
    if db.gshadow.Some? {
      assert First(db.gshadow.value, HitGshadow(Delete, g.sg, None)) == j;
    }
  }

  /** An entry removed from group alone leaves a name in gshadow that group lacks. */
  lemma GroupStays(group: seq<Group>, gshadow: seq<Gshadow>, i: nat)
    requires NamesAgree(group, gshadow) && i < |group|
    ensures !NamesAgree(RemoveAt(group, i), gshadow)
  {
    RemoveKeys(group, GrName, i);
    KeyIn(group, GrName, i);
  }

  /**
   * Modifying one keeps it exactly when both replacements are made under one name, or the first one is
   * not, or only the first one is and it leaves the members alone.
   */
  lemma ModifyGroupAgrees(db: Db, io: Oracle, g: GroupReq, oldName: Option<string>, i: nat)
    requires Agrees(db) && i < |db.group| && g.gr.name == Some(db.group[i].name) && g.gr.gid == db.group[i].gid
    requires oldName in {None, g.gr.name} && (db.gshadow.Some? ==> ShadowFits(g, oldName))
    ensures var w := WriteBoth(db, io, Modify, g, oldName, db.gshadow.Some?);
      var first, second := io(db.tick).Succeeds(|db.group|), io(db.tick + 1).Succeeds(ShadowSize(db));
      && OnlyGroups(db, w.db)
      && (Agrees(w.db) <==>
            db.gshadow.Some? && first ==>
              if second then g.sg.name == g.gr.name else g.gr.mem.GetOr([]) == db.group[i].mem)
  {
    hide GroupFileOk, MembersAgree, ListsOk, WriteBoth;
    var j := GroupPositions(db.group, db.gshadow, i);
    assert First(db.group, HitGroup(Modify, g.gr, oldName)) == i;
    FileModifies(db.group, i, GroupLine(g.gr));
    if db.gshadow.Some? {
      assert First(db.gshadow.value, HitGshadow(Modify, g.sg, oldName)) == j;
      ReplacedAgree(db.group, db.gshadow.value, i, j, GroupLine(g.gr), GshadowLine(g.sg));
      GroupAlone(db.group, db.gshadow.value, i, j, GroupLine(g.gr));
    }
    GroupFiles(db, io, Modify, g, oldName, db.group[i := GroupLine(g.gr)],
               PutAt(db.gshadow, j, GshadowLine(g.sg)).GetOr([]));
  }

  /** The group entry replaced alone goes with its gshadow entry exactly if it has the same members. */
  lemma GroupAlone(group: seq<Group>, gshadow: seq<Gshadow>, i: nat, j: nat, gr: Group)
    requires GroupsAgree(group, gshadow) && i < |group| && j < |gshadow|
    requires group[i].name == gshadow[j].name == gr.name && gr.gid == group[i].gid
    ensures GroupsAgree(group[i := gr], gshadow) <==> gr.mem == group[i].mem
  {
    if gr.mem == group[i].mem {
      AgreeModify(group, gshadow, i, j, gr, gshadow[j]);
      assert gshadow[j := gshadow[j]] == gshadow;
    } else {
      assert group[i := gr][i].name == gshadow[j].name;
    }
  }

  // ----- the group operations

  /** An add writes group and not gshadow. */
  ghost predicate AddSplits(db: Db, g: GroupReq, preferred: Id, cfg: Config, env: Env, locked: bool) {
    && locked && g.kind != NoType && SetGid(db, g, preferred, cfg).Some? && (g.gr.passwd.Some? ==> env.encrypted.Some?)
    && Halved(db, env.io, |db.group| + 1, ShadowSize(db) + 1)
  }

  lemma AddingAgrees(db: Db, g: GroupReq, preferred: Id, cfg: Config, env: Env, locked: bool)
    requires Agrees(db) && GroupReqOk(g, db.gshadow.Some?)
    ensures var a := GroupAdd(db, g, preferred, cfg, env, locked);
      && OnlyGroups(db, a.db) && GroupReqOk(a.g, db.gshadow.Some?) && (a.ok ==> Agrees(a.db))
      && (Agrees(a.db) <==> !AddSplits(db, g, preferred, cfg, env, locked))
  {
    hide WriteBoth, SetGid, SetGshadowData, Agrees, ShadowSize, Halved, Pair;
    SetGidOk(db, g, preferred, cfg, db.gshadow.Some?);
    if g.kind != NoType && locked && SetGid(db, g, preferred, cfg).Some? {
      var s := SetGid(db, g, preferred, cfg).value;
      ShadowDataOk(s, env.encrypted, db.gshadow.Some?);
      SecretNeeded(s, env.encrypted);
      var (h, ok) := SetGshadowData(s, env.encrypted);
      if ok {
        AddGroupAgrees(db, env.io, h);
      }
    }
  }

  lemma SecretNeeded(g: GroupReq, encrypted: Option<string>)
    ensures SetGshadowData(g, encrypted).1 <==> (g.gr.passwd.Some? ==> encrypted.Some?)
  {
  }

  /** A delete writes group and not gshadow. */
  ghost predicate DeleteSplits(db: Db, g: GroupReq, env: Env, locked: bool) {
    && locked && UserTheorems.GroupGoes(db, g, env) && !UserTheorems.InUse(db, g.gr.gid)
    && db.gshadow.Some? && |db.group| > 0 && |db.gshadow.value| > 0
    && Halved(db, env.io, |db.group| - 1, |db.gshadow.value| - 1)
  }

  lemma DeletingAgrees(db: Db, g: GroupReq, env: Env, locked: bool)
    requires Agrees(db) && GroupReqOk(g, db.gshadow.Some?)
    ensures var d := GroupDelete(db, g, env, locked);
      && OnlyGroups(db, d.db) && GroupReqOk(d.g, db.gshadow.Some?) && (d.ok ==> Agrees(d.db))
      && (Agrees(d.db) <==> !DeleteSplits(db, g, env, locked))
  {
    hide WriteBoth, GetSgNam, Agrees, Mates, GetGroup, FindUserByGid, Keys, Halved, CopyGroupData;
    if g.gr.gid != INVALID_ID && GetGroup(db.group, g.gr).Some? {
      UserTheorems.GidLookup(db.passwd, g.gr.gid);
      var i := Entry(db, g.gr);
      var grp, s := db.group[i], GetSgNam(db.gshadow, db.group[i].name);
      CopiedGroupOk(g, grp, s, db.gshadow.Some?);
      DeleteGroupAgrees(db, env.io, CopyGroupData(g, grp, s), i);
    }
  }

  lemma Entry(db: Db, gr: GrReq) returns (i: nat)
    requires Agrees(db) && GetGroup(db.group, gr).Some?
    ensures i < |db.group| && GetGroup(db.group, gr) == Some(db.group[i])
    ensures gr.name.Some? ==> gr.name.value == db.group[i].name
    ensures gr.gid != INVALID_ID ==> gr.gid == db.group[i].gid
    ensures var s := GetSgNam(db.gshadow, db.group[i].name);
      Mates(db.group[i], s, db.gshadow.Some?) && (s.Some? <==> db.gshadow.Some?)
  {
    i := FindEntries(db, gr);
  }

  /** An update writes a misnamed entry into gshadow, or the object's own members into group alone. */
  ghost predicate UpdateSplits(db: Db, g: GroupReq, env: Env, locked: bool) {
    && GroupUpdates(db, g, env, locked) && db.gshadow.Some? && env.io(db.tick).Succeeds(|db.group|)
    && if env.io(db.tick + 1).Succeeds(ShadowSize(db)) then MisnamedGroup(db, g)
       else g.gr.mem !in {None, Some(GetGroup(db.group, g.gr).value.mem)}
  }

  lemma UpdatingAgrees(db: Db, g: GroupReq, env: Env, locked: bool)
    requires Agrees(db) && GroupReqOk(g, db.gshadow.Some?)
    ensures var u := GroupUpdate(db, g, env, locked);
      && OnlyGroups(db, u.db) && GroupReqOk(u.g, db.gshadow.Some?)
      && (Agrees(u.db) <==> !UpdateSplits(db, g, env, locked))
  {
    hide WriteBoth, FillGroup, GetGroup, GetSgNam, Agrees, ValidName, ListsOk, ShadowSize, Mates;
    if locked && g.gr.gid != INVALID_ID && GetGroup(db.group, g.gr).Some? {
      var i := Entry(db, g.gr);
      var grp, s := db.group[i], GetSgNam(db.gshadow, db.group[i].name);
      FilledGroupOk(g, grp, s, db.gshadow.Some?);
      FilledMembers(g, grp, s);
      var (h, ok) := SetSecret(FillGroup(g, grp, s), env.encrypted);
      assert GroupReqOk(h, db.gshadow.Some?);
      if ok {
        ModifyGroupAgrees(db, env.io, h, Some(grp.name), i);
      }
    }
  }

  lemma FilledMembers(g: GroupReq, grp: Group, s: Option<Gshadow>)
    ensures FillGroup(g, grp, s).gr.mem == Some(g.gr.mem.GetOr(grp.mem))
  {
  }

  /** An addition writes the new member list into group alone. */
  ghost predicate AddMemberSplits(db: Db, g: GroupReq, uid: Id, env: Env, locked: bool) {
    locked && Addable(db, g, uid) && Halved(db, env.io, |db.group|, ShadowSize(db))
  }

  lemma AddMemberAgrees(db: Db, g: GroupReq, uid: Id, admin: bool, env: Env, locked: bool)
    requires Agrees(db) && GroupReqOk(g, db.gshadow.Some?)
    ensures var a := GroupAddMember(db, g, uid, admin, env, locked);
      && OnlyGroups(db, a.db) && GroupReqOk(a.g, db.gshadow.Some?)
      && (Agrees(a.db) <==> !AddMemberSplits(db, g, uid, env, locked))
  {
    hide WriteBoth, GetSgNam, GetPwUid, GetGroup, Agrees, WithMember, ShadowFits, Mates, GroupReqOk, ShadowSize;
    var pent := GetPwUid(db.passwd, uid);
    if pent.Some? && GetGroup(db.group, g.gr).Some? {
      var i := Entry(db, g.gr);
      var grp, s := db.group[i], GetSgNam(db.gshadow, db.group[i].name);
      var user := pent.value.name;
      if user !in grp.mem {
        WithMemberOk(g, grp, s, user, admin, db.gshadow.Some?);
        MemberList(g, grp, s, user, admin);
        ModifyGroupAgrees(db, env.io, WithMember(g, grp, s, user, admin), None, i);
      }
    }
  }

  lemma MemberList(g: GroupReq, grp: Group, s: Option<Gshadow>, user: string, admin: bool)
    ensures WithMember(g, grp, s, user, admin).gr.mem == Some(grp.mem + [user])
    ensures WithoutMember(g, grp, s, user).gr.mem == Some(Without(grp.mem, user))
  {
  }

  /** A deletion does so. */
  ghost predicate DeleteMemberSplits(db: Db, g: GroupReq, uid: Id, env: Env, locked: bool) {
    var pent, grp := GetPwUid(db.passwd, uid), GetGroup(db.group, g.gr);
    && locked && pent.Some? && grp.Some? && pent.value.name in grp.value.mem
    && Halved(db, env.io, |db.group|, ShadowSize(db))
  }

  lemma DeleteMemberAgrees(db: Db, g: GroupReq, uid: Id, env: Env, locked: bool)
    requires Agrees(db) && GroupReqOk(g, db.gshadow.Some?)
    ensures var d := GroupDeleteMember(db, g, uid, env, locked);
      && OnlyGroups(db, d.db) && GroupReqOk(d.g, db.gshadow.Some?)
      && (Agrees(d.db) <==> !DeleteMemberSplits(db, g, uid, env, locked))
  {
    hide WriteBoth, GetSgNam, GetPwUid, GetGroup, Agrees, WithoutMember, ShadowFits, Mates, GroupReqOk, ShadowSize;
    var pent := GetPwUid(db.passwd, uid);
    if pent.Some? && GetGroup(db.group, g.gr).Some? {
      var i := Entry(db, g.gr);
      var grp, s := db.group[i], GetSgNam(db.gshadow, db.group[i].name);
      var user := pent.value.name;
      if user in grp.mem {
        WithoutMemberOk(g, grp, s, user, db.gshadow.Some?);
        MemberList(g, grp, s, user, false);
        ModifyGroupAgrees(db, env.io, WithoutMember(g, grp, s, user), None, i);
      }
    }
  }

  // ----- removing memberships

  /** One of the two files is purged of a name that is listed, and the other is not. */
  ghost predicate PurgeSplits(db: Db, user: Option<string>, env: Env, locked: bool) {
    var f := env.io(db.tick);
    && locked && ValidName(user) && db.gshadow.Some? && UserTheorems.IsMember(db.group, user.value)
    && f.openSource && f.openDup && f.attributes
    && f.Succeeds(|db.group|) != env.io(db.tick + 1).Succeeds(|db.gshadow.value|)
  }

  lemma PurgeAgrees(db: Db, user: Option<string>, env: Env, locked: bool)
    requires Agrees(db)
    ensures var m := DeleteMembership(db, user, env, locked);
      OnlyGroups(db, m.db) && (Agrees(m.db) <==> !PurgeSplits(db, user, env, locked))
  {
    hide GroupFileOk, GroupsAgree, UserTheorems.IsMember, ValidName;
    if locked && ValidName(user) {
      SomeName(user);
      FilePurge(db.group, user.value);
      if db.gshadow.Some? {
        AgreePurge(db.group, db.gshadow.value, user.value);
        PurgedAlone(db.group, db.gshadow.value, user.value);
      }
    }
  }

  lemma SomeName(user: Option<string>)
    requires ValidName(user)
    ensures user.Some?
  {
  }

  /** One of the files purged without the other: they agree only if the name was not listed. */
  lemma PurgedAlone(group: seq<Group>, gshadow: seq<Gshadow>, user: string)
    requires GroupsAgree(group, gshadow)
    ensures GroupsAgree(MapEntries(group, PurgeGroup(user)), gshadow) <==> !UserTheorems.IsMember(group, user)
    ensures GroupsAgree(group, MapEntries(gshadow, PurgeGshadow(user))) <==> !UserTheorems.IsMember(group, user)
  {
    var r, t := MapEntries(group, PurgeGroup(user)), MapEntries(gshadow, PurgeGshadow(user));
    if UserTheorems.IsMember(group, user) {
      var i :| 0 <= i < |group| && user in group[i].mem;
      var j := Positions(group, gshadow, i);
      assert user !in r[i].mem && user in gshadow[j].mem && r[i].name == gshadow[j].name;
      assert user in group[i].mem && user !in t[j].mem && group[i].name == t[j].name;
    } else {
      assert r == group;
      forall j | 0 <= j < |gshadow| ensures t[j] == gshadow[j] {
        KeyIn(gshadow, SgName, j);
        var i :| 0 <= i < |group| && GrName(group[i]) == gshadow[j].name;
        assert group[i].mem == gshadow[j].mem;
      }
      assert t == gshadow;
    }
  }

  // ----- joining groups one after the other

  /** A group has the user and its gshadow entry has not. */
  ghost predicate Parted(db: Db, user: string) {
    && db.gshadow.Some? && Distinct(db.group, GrName)
    && exists i, j :: PartedAt(db.group, db.gshadow.value, user, i, j)
  }

  ghost predicate PartedAt(group: seq<Group>, gshadow: seq<Gshadow>, user: string, i: nat, j: nat) {
    && i < |group| && j < |gshadow| && group[i].name == gshadow[j].name
    && user in group[i].mem && user !in gshadow[j].mem
  }

  lemma PartedDisagrees(db: Db, user: string)
    requires Parted(db, user)
    ensures !Agrees(db)
  {
  }

  /** The object that a user joins a group with. */
  function ToJoin(name: string): GroupReq {
    FRESH_GROUP.(gr := SetGroupName(FRESH_GROUP.gr, Some(name)))
  }

  ghost predicate IsUser(db: Db, uid: Id, user: string) {
    GetPwUid(db.passwd, uid).Some? && GetPwUid(db.passwd, uid).value.name == user
  }

  /** An addition that splits the files parts them on the user that it adds. */
  lemma SplitParts(db: Db, name: string, uid: Id, env: Env, user: string)
    requires Agrees(db) && IsUser(db, uid, user) && AddMemberSplits(db, ToJoin(name), uid, env, true)
    ensures Parted(GroupAddMember(db, ToJoin(name), uid, false, env, true).db, user)
  {
    hide WriteBoth, GetSgNam, GetPwUid, GetGroup, Mates, ShadowFits, GroupFileOk, MembersAgree, WithMember;
    var g := ToJoin(name);
    var i := Entry(db, g.gr);
    var grp, s := db.group[i], GetSgNam(db.gshadow, db.group[i].name);
    WithMemberOk(g, grp, s, user, false, db.gshadow.Some?);
    MemberList(g, grp, s, user, false);
    var h := WithMember(g, grp, s, user, false);
    var j := MembersHit(db, h, i);
    var r := db.group[i := GroupLine(h.gr)];
    GroupFiles(db, env.io, Modify, h, None, r, PutAt(db.gshadow, j, GshadowLine(h.sg)).GetOr([]));
    FileModifies(db.group, i, GroupLine(h.gr));
    assert PartedAt(r, db.gshadow.value, user, i, j);
    DistinctNames(r);
  }

  lemma DistinctNames(group: seq<Group>)
    requires GroupFileOk(group)
    ensures Distinct(group, GrName)
  {
  }

  lemma MembersHit(db: Db, h: GroupReq, i: nat) returns (j: nat)
    requires Agrees(db) && db.gshadow.Some? && i < |db.group|
    requires h.gr.name == h.sg.name == Some(db.group[i].name) && h.gr.gid == db.group[i].gid
    ensures j < |db.gshadow.value| && db.gshadow.value[j].name == db.group[i].name
    ensures db.gshadow.value[j].mem == db.group[i].mem
    ensures NextGroup(Modify, db.group, h.gr, None) == Some(db.group[i := GroupLine(h.gr)])
    ensures NextGshadow(Modify, db.gshadow.value, h.sg, None) == Some(db.gshadow.value[j := GshadowLine(h.sg)])
  {
    j := GroupPositions(db.group, db.gshadow, i);
    assert First(db.group, HitGroup(Modify, h.gr, None)) == i;
    assert First(db.gshadow.value, HitGshadow(Modify, h.sg, None)) == j;
  }

  /** Files that are parted on a user stay so while that user joins other groups. */
  lemma JoiningKeepsParted(db: Db, name: string, uid: Id, env: Env, user: string)
    requires Parted(db, user) && IsUser(db, uid, user)
    ensures var a := GroupAddMember(db, ToJoin(name), uid, false, env, true);
      Parted(a.db, user) && a.db.passwd == db.passwd
  {
    hide WriteBoth, GetSgNam, GetPwUid, GetGroup, WithMember;
    var g := ToJoin(name);
    var grp := GetGroup(db.group, g.gr);
    if grp.Some? && user !in grp.value.mem {
      var s := GetSgNam(db.gshadow, grp.value.name);
      var h := WithMember(g, grp.value, s, user, false);
      JoinNames(db, g, grp.value, s, user);
      var i: nat, j: nat :| PartedAt(db.group, db.gshadow.value, user, i, j);
      WriteKeepsParted(db, env.io, h, s.Some?, user, i, j);
    }
  }

  lemma JoinNames(db: Db, g: GroupReq, grp: Group, s: Option<Gshadow>, user: string)
    requires g.gr.gid == INVALID_ID && g.sg == FRESH_GROUP.sg && GetGroup(db.group, g.gr) == Some(grp)
    requires s == GetSgNam(db.gshadow, grp.name)
    ensures var h := WithMember(g, grp, s, user, false);
      && h.gr.name == Some(grp.name) && h.gr.gid == grp.gid && h.sg.name == (if s.Some? then Some(grp.name) else None)
      && grp in db.group && h.gr.mem == h.sg.mem == Some(grp.mem + [user])
  {
  }

  /** Writing the new members of a group that the user was not in leaves the other groups alone. */
  lemma WriteKeepsParted(db: Db, io: Oracle, h: GroupReq, wanted: bool, user: string, i: nat, j: nat)
    requires db.gshadow.Some? && Distinct(db.group, GrName) && PartedAt(db.group, db.gshadow.value, user, i, j)
    requires h.gr.name.Some? && (wanted ==> h.sg.name == h.gr.name)
    requires exists k :: 0 <= k < |db.group| && db.group[k].name == h.gr.name.value && user !in db.group[k].mem
    ensures var w := WriteBoth(db, io, Modify, h, None, wanted).db;
      Parted(w, user) && w.passwd == db.passwd
  {
    var k :| 0 <= k < |db.group| && db.group[k].name == h.gr.name.value && user !in db.group[k].mem;
    assert GrName(db.group[i]) != GrName(db.group[k]);
    var a, b := First(db.group, HitGroup(Modify, h.gr, None)), First(db.gshadow.value, HitGshadow(Modify, h.sg, None));
    var w := WriteBoth(db, io, Modify, h, None, wanted).db;
    if a < |db.group| {
      ReplaceKeys(db.group, GrName, a, GroupLine(h.gr));
      assert a != i && (wanted ==> b != j);
    }
    assert PartedAt(w.group, w.gshadow.value, user, i, j);
  }

  /** Some addition of the fold splits the files. */
  ghost predicate JoinsSplit(db: Db, uid: Id, names: seq<string>, env: Env)
    decreases |names|
  {
    && names != []
    && (AddMemberSplits(db, ToJoin(names[0]), uid, env, true)
        || JoinsSplit(GroupAddMember(db, ToJoin(names[0]), uid, false, env, true).db, uid, names[1..], env))
  }

  lemma {:induction false} FoldKeepsParted(db: Db, uid: Id, names: seq<string>, env: Env, user: string)
    requires Parted(db, user) && IsUser(db, uid, user)
    ensures Parted(AddToGroups(db, uid, names, env), user)
    decreases |names|
  {
    hide GroupAddMember, Parted, GetPwUid;
    if names != [] {
      JoiningKeepsParted(db, names[0], uid, env, user);
      FoldKeepsParted(GroupAddMember(db, ToJoin(names[0]), uid, false, env, true).db, uid, names[1..], env, user);
    }
  }

  /** Joining groups keeps the agreement exactly when no addition splits the files: a later one does not mend them. */
  lemma {:induction false} AddToGroupsAgrees(db: Db, uid: Id, names: seq<string>, env: Env)
    requires Agrees(db)
    ensures var r := AddToGroups(db, uid, names, env);
      OnlyGroups(db, r) && (Agrees(r) <==> !JoinsSplit(db, uid, names, env))
    decreases |names|
  {
    hide GroupAddMember, GetPwUid, Agrees, Parted, AddMemberSplits, GroupReqOk, GetGroup;
    if names != [] {
      var g := ToJoin(names[0]);
      ToJoinOk(names[0], db.gshadow.Some?);
      AddMemberAgrees(db, g, uid, false, env, true);
      var b := GroupAddMember(db, g, uid, false, env, true).db;
      if AddMemberSplits(db, g, uid, env, true) {
        NeedsUser(db, g, uid, env);
        var user := GetPwUid(db.passwd, uid).value.name;
        SplitParts(db, names[0], uid, env, user);
        FoldKeepsParted(b, uid, names[1..], env, user);
        PartedDisagrees(AddToGroups(db, uid, names, env), user);
        FoldOnlyGroups(b, uid, names[1..], env);
      } else {
        AddToGroupsAgrees(b, uid, names[1..], env);
      }
    }
  }

  lemma NeedsUser(db: Db, g: GroupReq, uid: Id, env: Env)
    requires AddMemberSplits(db, g, uid, env, true)
    ensures GetPwUid(db.passwd, uid).Some?
  {
  }

  lemma ToJoinOk(name: string, shadowed: bool)
    ensures GroupReqOk(ToJoin(name), shadowed)
  {
  }

  lemma {:induction false} FoldOnlyGroups(db: Db, uid: Id, names: seq<string>, env: Env)
    ensures OnlyGroups(db, AddToGroups(db, uid, names, env))
    decreases |names|
  {
    hide GroupAddMember;
    if names != [] {
      MemberOnlyGroups(db, ToJoin(names[0]), uid, env);
      FoldOnlyGroups(GroupAddMember(db, ToJoin(names[0]), uid, false, env, true).db, uid, names[1..], env);
    }
  }

  lemma MemberOnlyGroups(db: Db, g: GroupReq, uid: Id, env: Env)
    ensures OnlyGroups(db, GroupAddMember(db, g, uid, false, env, true).db)
  {
    hide WithMember, GetGroup, GetPwUid, GetSgNam, NextGroup, NextGshadow;
  }

  // ----- the user operations

  /** Making the primary group splits the group files. */
  ghost predicate PrimarySplits(db: Db, u: UserReq, cfg: Config, env: Env) {
    var there := cfg.primaryGroup.Some? && GetGrNam(db.group, cfg.primaryGroup.value).Some?;
    !there && AddSplits(db, PrimaryGroupReq(u, cfg), u.pw.uid, cfg, env, true)
  }

  /** An add splits the group files: in making the primary group, or in joining the default groups. */
  ghost predicate UserAddSplits(db: Db, u: UserReq, cfg: Config, env: Env, locked: bool) {
    && locked && u.Type() != Gecos.TYPE_NONE
    && var v := DefaultShell(u, cfg);
       var s, p := SetUid(db, v, cfg, env.digest), PrepareUser(db, v, cfg, env);
       || (s.1 && PrimarySplits(db, s.0, cfg, env))
       || (p.ok && JoinsSplitAfter(p, cfg, env))
  }

  /** The two user files are written and one of the default groups is not joined in both files. */
  ghost predicate JoinsSplitAfter(p: UserOut, cfg: Config, env: Env) {
    var w := WriteUser(p.db, env.io, Add, p.u, None);
    && w.ok && p.u.Type() != Gecos.TYPE_SYSTEM
    && JoinsSplit(w.db, p.u.pw.uid, DefaultNamesOf(p.u, cfg), env)
  }

  function DefaultNamesOf(u: UserReq, cfg: Config): seq<string> {
    StringUtils.Split(if u.Type() == Gecos.TYPE_ADMIN then cfg.defAdminGroups else cfg.defGroups)
  }

  lemma PrimaryAgrees(db: Db, u: UserReq, cfg: Config, env: Env)
    requires Agrees(db)
    ensures var s := SetGroup(db, u, cfg, env);
      && OnlyGroups(db, s.db) && (s.ok ==> Agrees(s.db)) && (Agrees(s.db) <==> !PrimarySplits(db, u, cfg, env))
  {
    hide GroupAdd, Agrees, AddSplits, GetGrNam;
    AddingAgrees(db, PrimaryGroupReq(u, cfg), u.pw.uid, cfg, env, true);
  }

  lemma PrepareAgrees(db: Db, u: UserReq, cfg: Config, env: Env)
    requires Agrees(db)
    ensures var s, p := SetUid(db, u, cfg, env.digest), PrepareUser(db, u, cfg, env);
      && OnlyGroups(db, p.db) && (p.ok ==> Agrees(p.db))
      && (Agrees(p.db) <==> !(s.1 && PrimarySplits(db, s.0, cfg, env)))
  {
    hide SetUid, SetGroup, Agrees, PrimarySplits;
    PrimaryAgrees(db, SetUid(db, u, cfg, env.digest).0, cfg, env);
  }

  /** An add keeps group and gshadow in agreement exactly when it does not split them. */
  lemma UserAddAgrees(db: Db, u: UserReq, cfg: Config, env: Env, locked: bool)
    requires Agrees(db)
    ensures var a := UserAdd(db, u, cfg, env, locked).db;
      UserConsistency.SameShadowing(db, a) && (Agrees(a) <==> !UserAddSplits(db, u, cfg, env, locked))
  {
    hide PrepareUser, WriteUser, DefaultShell, AddToGroups, Agrees, SetUid, PrimarySplits, JoinsSplit;
    var v := DefaultShell(u, cfg);
    SameType(u, cfg);
    PrepareAgrees(db, v, cfg, env);
    var p := PrepareUser(db, v, cfg, env);
    if p.ok {
      UserWriteGroups(p.db, env.io, Add, p.u);
      var w := WriteUser(p.db, env.io, Add, p.u, None);
      AddToGroupsAgrees(w.db, p.u.pw.uid, DefaultNamesOf(p.u, cfg), env);
    }
  }

  lemma SameType(u: UserReq, cfg: Config)
    ensures DefaultShell(u, cfg).Type() == u.Type()
  {
  }

  /** Writing the user files leaves the group files alone. */
  lemma UserWriteGroups(db: Db, io: Oracle, op: OpType, u: UserReq)
    ensures var w := WriteUser(db, io, op, u, None).db;
      UserConsistency.SameGroups(db, w) && (Agrees(w) <==> Agrees(db))
  {
    hide NextPasswd, NextShadow, GroupsOk;
  }

  /** Leaving the groups splits the group files: in deleting the primary group, or in removing the memberships. */
  ghost predicate LeaveSplits(db: Db, u: UserReq, env: Env) {
    var g := FRESH_GROUP.(gr := FRESH_GROUP.gr.(gid := u.pw.gid));
    var d := GroupDelete(db, g, env, true);
    DeleteSplits(db, g, env, true) || (d.ok && PurgeSplits(d.db, u.pw.name, env, true))
  }

  lemma LeaveAgrees(db: Db, u: UserReq, env: Env)
    requires Agrees(db)
    ensures var m := LeaveGroups(db, u, env).db;
      UserConsistency.SameShadowing(db, m) && (Agrees(m) <==> !LeaveSplits(db, u, env))
  {
    hide GroupDelete, DeleteMembership, Agrees, DeleteSplits, PurgeSplits;
    var g := FRESH_GROUP.(gr := FRESH_GROUP.gr.(gid := u.pw.gid));
    assert GroupReqOk(g, db.gshadow.Some?);
    DeletingAgrees(db, g, env, true);
    var d := GroupDelete(db, g, env, true);
    if d.ok {
      PurgeAgrees(d.db, u.pw.name, env, true);
    }
  }

  /** A delete takes the user's lines out of both user files and then splits the group files. */
  ghost predicate UserDeleteSplits(db: Db, u: UserReq, env: Env, locked: bool) {
    var s := LoadUser(db, u);
    && locked && u.pw.uid != INVALID_ID && s.Some? && s.value.pw.uid != env.euid && env.terminated
    && var l := WriteLock(db, env.io, s.value, true);
       var w := WriteUser(l.db, env.io, Delete, s.value, None);
       l.ok && w.ok && LeaveSplits(w.db, s.value, env)
  }

  lemma LockWriteGroups(db: Db, io: Oracle, u: UserReq, lock: bool)
    ensures var w := WriteLock(db, io, u, lock).db;
      UserConsistency.SameGroups(db, w) && (Agrees(w) <==> Agrees(db))
  {
    hide NextLocked, GroupsOk;
  }

  /** So does a delete. */
  lemma UserDeleteAgrees(db: Db, u: UserReq, removeHome: bool, env: Env, locked: bool)
    requires Agrees(db)
    ensures var d := UserDelete(db, u, removeHome, env, locked).db;
      UserConsistency.SameShadowing(db, d) && (Agrees(d) <==> !UserDeleteSplits(db, u, env, locked))
  {
    hide WriteUser, WriteLock, LeaveGroups, LoadUser, Agrees, LeaveSplits;
    if LoadUser(db, u).Some? {
      var v := LoadUser(db, u).value;
      LockWriteGroups(db, env.io, v, true);
      var l := WriteLock(db, env.io, v, true);
      LockWriteGroups(l.db, env.io, v, false);
      UserWriteGroups(l.db, env.io, Delete, v);
      var w := WriteUser(l.db, env.io, Delete, v, None);
      LockWriteGroups(w.db, env.io, v, false);
      LeaveAgrees(w.db, v, env);
    }
  }

  /** An update of a user has no part in the group files. */
  lemma UserUpdateAgrees(db: Db, u: UserReq, env: Env, locked: bool)
    ensures UserConsistency.SameGroups(db, UserUpdate(db, u, env, locked).db)
  {
    hide GetPasswd, GetSpNam, DecideUpdate, NextPasswd, NextShadow;
  }
}
