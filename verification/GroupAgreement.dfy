/**
 * The group and gshadow files agree: the same names, each once; the same members, each once; and
 * administrators who are members. Where there is no gshadow, names and gids are unique in the group file.
 * This is kept by every group operation whose writes succeed.
 */
module GroupAgreement {
  import opened Types
  import opened Sequences
  import opened Validate
  import opened Entries
  import opened GroupSpec

  ghost predicate Subset(a: seq<string>, b: seq<string>) {
    forall x :: x in a ==> x in b
  }

  /** Lists that may stand in the two entries of one group. */
  ghost predicate ListsOk(mem: seq<string>, adm: seq<string>) {
    NoDup(mem) && NoDup(adm) && Subset(adm, mem)
  }

  /** The group file by itself: no name and no gid twice, and names that are valid. */
  ghost predicate GroupFileOk(group: seq<Group>) {
    && Distinct(group, GrName) && Distinct(group, GrGid)
    && forall i :: 0 <= i < |group| ==> ValidName(Some(group[i].name))
  }

  ghost predicate NamesAgree(group: seq<Group>, gshadow: seq<Gshadow>) {
    GroupFileOk(group) && Distinct(gshadow, SgName) && Keys(group, GrName) == Keys(gshadow, SgName)
  }

  ghost predicate MembersAgree(group: seq<Group>, gshadow: seq<Gshadow>) {
    && (forall j :: 0 <= j < |gshadow| ==> ListsOk(gshadow[j].mem, gshadow[j].adm))
    && forall i, j :: 0 <= i < |group| && 0 <= j < |gshadow| && group[i].name == gshadow[j].name
         ==> group[i].mem == gshadow[j].mem
  }

  ghost predicate GroupsAgree(group: seq<Group>, gshadow: seq<Gshadow>) {
    NamesAgree(group, gshadow) && MembersAgree(group, gshadow)
  }

  /** The group files as they should be, with or without gshadow. */
  ghost predicate GroupsOk(group: seq<Group>, gshadow: Option<seq<Gshadow>>) {
    GroupFileOk(group) && (gshadow.Some? ==> GroupsAgree(group, gshadow.value))
  }

  /** Two entries that may be added or put in place of two others. */
  ghost predicate Pair(gr: Group, sg: Gshadow) {
    gr.name == sg.name && gr.mem == sg.mem && ValidName(Some(gr.name)) && ListsOk(sg.mem, sg.adm)
  }

  // ----- the three edits, on the lists

  lemma AgreeAdd(group: seq<Group>, gshadow: seq<Gshadow>, i: nat, gr: Group, sg: Gshadow)
    requires GroupsAgree(group, gshadow) && Pair(gr, sg) && i <= |group|
    requires gr.name !in Keys(group, GrName) && gr.gid !in Keys(group, GrGid)
    ensures GroupsAgree(InsertAt(group, i, gr), gshadow + [sg])
  {
    var r, t := InsertAt(group, i, gr), gshadow + [sg];
    InsertKeys(group, GrName, i, gr);
    InsertKeys(group, GrGid, i, gr);
    InsertKeys(gshadow, SgName, |gshadow|, sg);
    assert InsertAt(gshadow, |gshadow|, sg) == t;
    forall a, b | 0 <= a < |r| && 0 <= b < |t| && r[a].name == t[b].name ensures r[a].mem == t[b].mem {
      if a != i { KeyIn(group, GrName, if a < i then a else a - 1); }
      if b < |gshadow| { KeyIn(gshadow, SgName, b); }
    }
  }

  lemma AgreeDelete(group: seq<Group>, gshadow: seq<Gshadow>, i: nat, j: nat)
    requires GroupsAgree(group, gshadow) && i < |group| && j < |gshadow| && group[i].name == gshadow[j].name
    ensures GroupsAgree(RemoveAt(group, i), RemoveAt(gshadow, j))
  {
    var r, t := RemoveAt(group, i), RemoveAt(gshadow, j);
    RemoveKeys(group, GrName, i);
    RemoveKeys(group, GrGid, i);
    RemoveKeys(gshadow, SgName, j);
    forall a | 0 <= a < |r| ensures r[a] == group[if a < i then a else a + 1] {}
    forall b | 0 <= b < |t| ensures t[b] == gshadow[if b < j then b else b + 1] {}
  }

  lemma AgreeModify(group: seq<Group>, gshadow: seq<Gshadow>, i: nat, j: nat, gr: Group, sg: Gshadow)
    requires GroupsAgree(group, gshadow) && Pair(gr, sg) && i < |group| && j < |gshadow|
    requires group[i].name == gshadow[j].name == gr.name && gr.gid == group[i].gid
    ensures GroupsAgree(group[i := gr], gshadow[j := sg])
  {
    ReplaceKeys(group, GrName, i, gr);
    ReplaceKeys(group, GrGid, i, gr);
    ReplaceKeys(gshadow, SgName, j, sg);
    var r, t := group[i := gr], gshadow[j := sg];
    forall a, b | 0 <= a < |r| && 0 <= b < |t| && r[a].name == t[b].name ensures r[a].mem == t[b].mem {
      assert a == i <==> b == j by {
        assert a != i ==> GrName(group[a]) != GrName(group[i]);
        assert b != j ==> SgName(gshadow[b]) != SgName(gshadow[j]);
      }
    }
  }

  /** In files that agree, every group has its gshadow entry, at one position in each file. */
  lemma Positions(group: seq<Group>, gshadow: seq<Gshadow>, i: nat) returns (j: nat)
    requires NamesAgree(group, gshadow) && i < |group|
    ensures j < |gshadow| && gshadow[j].name == group[i].name
    ensures forall b :: 0 <= b < |gshadow| && gshadow[b].name == group[i].name ==> b == j
    ensures forall a :: 0 <= a < |group| && group[a].name == group[i].name ==> a == i
  {
    KeyIn(group, GrName, i);
    j :| 0 <= j < |gshadow| && SgName(gshadow[j]) == group[i].name;
    assert forall b :: 0 <= b < |gshadow| && b != j ==> SgName(gshadow[b]) != SgName(gshadow[j]);
    assert forall a :: 0 <= a < |group| && a != i ==> GrName(group[a]) != GrName(group[i]);
  }

  // ----- gshadow, where there is one

  const NO_GSHADOW := Gshadow("", "", [], [])

  /** The entry at a position. */
  function EntryAt(s: Option<seq<Gshadow>>, j: nat): Gshadow {
    if s.Some? && j < |s.value| then s.value[j] else NO_GSHADOW
  }

  /** The position of an entry with the name. */
  ghost predicate NamedAt(s: Option<seq<Gshadow>>, j: nat, name: string) {
    s.Some? ==> j < |s.value| && s.value[j].name == name
  }

  function Appended(s: Option<seq<Gshadow>>, sg: Gshadow): Option<seq<Gshadow>> {
    if s.None? then None else Some(s.value + [sg])
  }

  function RemovedAt(s: Option<seq<Gshadow>>, j: nat): Option<seq<Gshadow>> {
    if s.Some? && j < |s.value| then Some(RemoveAt(s.value, j)) else s
  }

  function PutAt(s: Option<seq<Gshadow>>, j: nat, sg: Gshadow): Option<seq<Gshadow>> {
    if s.Some? && j < |s.value| then Some(s.value[j := sg]) else s
  }

  function MapShadow(s: Option<seq<Gshadow>>, edit: Gshadow -> Gshadow): Option<seq<Gshadow>> {
    if s.None? then None else Some(MapEntries(s.value, edit))
  }

  lemma FileAdds(group: seq<Group>, i: nat, gr: Group)
    requires GroupFileOk(group) && i <= |group| && ValidName(Some(gr.name))
    requires gr.name !in Keys(group, GrName) && gr.gid !in Keys(group, GrGid)
    ensures GroupFileOk(InsertAt(group, i, gr))
  {
    InsertKeys(group, GrName, i, gr);
    InsertKeys(group, GrGid, i, gr);
  }

  lemma FileDeletes(group: seq<Group>, i: nat)
    requires GroupFileOk(group) && i < |group|
    ensures GroupFileOk(RemoveAt(group, i))
  {
    RemoveKeys(group, GrName, i);
    RemoveKeys(group, GrGid, i);
  }

  lemma FileModifies(group: seq<Group>, i: nat, gr: Group)
    requires GroupFileOk(group) && i < |group| && gr.name == group[i].name && gr.gid == group[i].gid
    ensures GroupFileOk(group[i := gr])
  {
    ReplaceKeys(group, GrName, i, gr);
    ReplaceKeys(group, GrGid, i, gr);
  }

  /** A group is at one position in its file, and its entry is at one in gshadow. */
  lemma GroupPositions(group: seq<Group>, gshadow: Option<seq<Gshadow>>, i: nat) returns (j: nat)
    requires GroupsOk(group, gshadow) && i < |group|
    ensures NamedAt(gshadow, j, group[i].name)
    ensures gshadow.Some? ==> forall b :: 0 <= b < |gshadow.value| && gshadow.value[b].name == group[i].name ==> b == j
    ensures forall a :: 0 <= a < |group| && group[a].name == group[i].name ==> a == i
  {
    hide MembersAgree;
    j := 0;
    if gshadow.Some? {
      j := Positions(group, gshadow.value, i);
    }
    assert forall a :: 0 <= a < |group| && a != i ==> GrName(group[a]) != GrName(group[i]);
  }

  // ----- the two writes

  lemma WriteBothAdds(db: Db, io: Oracle, g: GroupReq)
    requires WritesSucceed(io) && GroupsOk(db.group, db.gshadow)
    requires g.gr.name.Some? && ValidName(g.gr.name) && g.sg.name == g.gr.name
    requires db.gshadow.Some? ==> Pair(GroupLine(g.gr), GshadowLine(g.sg))
    requires g.gr.name.value !in Keys(db.group, GrName) && g.gr.gid !in Keys(db.group, GrGid)
    ensures var w := WriteBoth(db, io, Add, g, None, db.gshadow.Some?);
      && w.ok && w.db.passwd == db.passwd && w.db.shadow == db.shadow && GroupsOk(w.db.group, w.db.gshadow)
      && (exists i :: 0 <= i <= |db.group| && w.db.group == InsertAt(db.group, i, GroupLine(g.gr)))
      && w.db.gshadow == Appended(db.gshadow, GshadowLine(g.sg))
  {
    hide GroupFileOk, MembersAgree, ListsOk;
    var i := First(db.group, HitGroup(Add, g.gr, None));
    FileAdds(db.group, i, GroupLine(g.gr));
    if db.gshadow.Some? {
      var j := First(db.gshadow.value, HitGshadow(Add, g.sg, None));
      if j < |db.gshadow.value| {
        KeyIn(db.gshadow.value, SgName, j);
      }
      AgreeAdd(db.group, db.gshadow.value, i, GroupLine(g.gr), GshadowLine(g.sg));
    }
  }

  lemma WriteBothDeletes(db: Db, io: Oracle, g: GroupReq, i: nat)
    requires WritesSucceed(io) && GroupsOk(db.group, db.gshadow)
    requires i < |db.group| && g.gr.name == Some(db.group[i].name) && g.gr.gid == db.group[i].gid
    requires db.gshadow.Some? ==> g.sg.name == g.gr.name
    ensures var w := WriteBoth(db, io, Delete, g, None, db.gshadow.Some?);
      && w.ok && w.db.passwd == db.passwd && w.db.shadow == db.shadow && GroupsOk(w.db.group, w.db.gshadow)
      && w.db.group == RemoveAt(db.group, i)
      && (w.db.gshadow.Some? <==> db.gshadow.Some?)
  {
    hide GroupFileOk, MembersAgree;
    var j := GroupPositions(db.group, db.gshadow, i);
    assert First(db.group, HitGroup(Delete, g.gr, None)) == i;
    FileDeletes(db.group, i);
    if db.gshadow.Some? {
      assert First(db.gshadow.value, HitGshadow(Delete, g.sg, None)) == j;
      AgreeDelete(db.group, db.gshadow.value, i, j);
    }
  }

  /** An entry of gshadow that is replaced by one of another name leaves its group without one. */
  lemma NameLost(group: seq<Group>, gshadow: seq<Gshadow>, i: nat, j: nat, gr: Group, sg: Gshadow)
    requires NamesAgree(group, gshadow) && i < |group| && j < |gshadow|
    requires group[i].name == gshadow[j].name == gr.name != sg.name
    ensures !NamesAgree(group[i := gr], gshadow[j := sg])
  {
    var r, t := group[i := gr], gshadow[j := sg];
    KeyIn(r, GrName, i);
    forall b | 0 <= b < |t| ensures SgName(t[b]) != gr.name {
      assert b != j ==> SgName(gshadow[b]) != SgName(gshadow[j]);
    }
  }

  /** Two entries replaced by two others with the same members: they go together exactly under one name. */
  lemma ReplacedAgree(group: seq<Group>, gshadow: seq<Gshadow>, i: nat, j: nat, gr: Group, sg: Gshadow)
    requires GroupsAgree(group, gshadow) && i < |group| && j < |gshadow|
    requires group[i].name == gshadow[j].name == gr.name && gr.gid == group[i].gid
    requires gr.mem == sg.mem && ListsOk(sg.mem, sg.adm)
    ensures GroupsAgree(group[i := gr], gshadow[j := sg]) <==> sg.name == gr.name
  {
    hide NamesAgree, MembersAgree, ListsOk;
    if sg.name == gr.name {
      assert ValidName(Some(gr.name)) by {
        NamesValid(group, gshadow, i);
      }
      AgreeModify(group, gshadow, i, j, gr, sg);
    } else {
      NameLost(group, gshadow, i, j, gr, sg);
    }
  }

  lemma NamesValid(group: seq<Group>, gshadow: seq<Gshadow>, i: nat)
    requires NamesAgree(group, gshadow) && i < |group|
    ensures ValidName(Some(group[i].name))
  {
  }

  /**
   * The two entries of a group are replaced. The files agree afterwards exactly when the gshadow entry
   * carries the group's name.
   */
  lemma WriteBothModifies(db: Db, io: Oracle, g: GroupReq, oldName: Option<string>, i: nat) returns (j: nat)
    requires WritesSucceed(io) && GroupsOk(db.group, db.gshadow)
    requires i < |db.group| && g.gr.name == Some(db.group[i].name) && g.gr.gid == db.group[i].gid
    requires oldName in {None, g.gr.name}
    requires db.gshadow.Some? ==> ShadowFits(g, oldName)
    ensures var w := WriteBoth(db, io, Modify, g, oldName, db.gshadow.Some?);
      && w.ok && w.db.passwd == db.passwd && w.db.shadow == db.shadow
      && (GroupsOk(w.db.group, w.db.gshadow) <==> db.gshadow.None? || g.sg.name == g.gr.name)
      && w.db.group == db.group[i := GroupLine(g.gr)]
      && NamedAt(db.gshadow, j, db.group[i].name) && GetSgNam(db.gshadow, db.group[i].name) == ShadowAt(db.gshadow, j)
      && w.db.gshadow == PutAt(db.gshadow, j, GshadowLine(g.sg))
  {
    hide GroupFileOk, MembersAgree, ListsOk;
    j := GroupPositions(db.group, db.gshadow, i);
    assert First(db.group, HitGroup(Modify, g.gr, oldName)) == i;
    FileModifies(db.group, i, GroupLine(g.gr));
    if db.gshadow.Some? {
      assert First(db.gshadow.value, HitGshadow(Modify, g.sg, oldName)) == j;
      ReplacedAgree(db.group, db.gshadow.value, i, j, GroupLine(g.gr), GshadowLine(g.sg));
    }
  }

  function ShadowAt(s: Option<seq<Gshadow>>, j: nat): Option<Gshadow> {
    if s.Some? && j < |s.value| then Some(s.value[j]) else None
  }

  /** The gshadow entry of an object that is to be written goes with its group entry. */
  ghost predicate ShadowFits(g: GroupReq, oldName: Option<string>) {
    && g.sg.name.Some? && (oldName.Some? || g.sg.name == g.gr.name)
    && g.gr.mem.GetOr([]) == g.sg.mem.GetOr([]) && ListsOk(g.sg.mem.GetOr([]), g.sg.adm.GetOr([]))
  }

  // ----- request objects

  /**
   * A request object has a valid name if any. Where there is a gshadow it also has either no lists at
   * all, or equal member lists and administrators taken from them.
   */
  ghost predicate GroupReqOk(g: GroupReq, shadowed: bool) {
    && (g.gr.name.Some? ==> ValidName(g.gr.name))
    && (shadowed ==>
          && g.gr.mem == g.sg.mem && (g.sg.adm.Some? <==> g.sg.mem.Some?)
          && ListsOk(g.sg.mem.GetOr([]), g.sg.adm.GetOr([])))
  }

  /** The object names a group while its gshadow entry carries another name. */
  ghost predicate MisnamedGroup(db: Db, g: GroupReq) {
    var grp := GetGroup(db.group, g.gr);
    db.gshadow.Some? && grp.Some? && g.sg.name !in {None, Some(grp.value.name)}
  }

  /** A group and its entry in gshadow, if there is a gshadow. */
  ghost predicate Mates(grp: Group, s: Option<Gshadow>, shadowed: bool) {
    && ValidName(Some(grp.name)) && (s.Some? <==> shadowed)
    && (s.Some? ==> s.value.name == grp.name && s.value.mem == grp.mem && ListsOk(s.value.mem, s.value.adm))
  }

  /** The entry that a request names, with its gshadow entry. */
  lemma FindEntries(db: Db, gr: GrReq) returns (i: nat)
    requires GroupsOk(db.group, db.gshadow) && GetGroup(db.group, gr).Some?
    ensures i < |db.group| && GetGroup(db.group, gr) == Some(db.group[i])
    ensures gr.name.Some? ==> gr.name.value == db.group[i].name
    ensures gr.gid != INVALID_ID ==> gr.gid == db.group[i].gid
    ensures Mates(db.group[i], GetSgNam(db.gshadow, db.group[i].name), db.gshadow.Some?)
  {
    var grp := GetGroup(db.group, gr).value;
    i :| 0 <= i < |db.group| && db.group[i] == grp;
    var j := GroupPositions(db.group, db.gshadow, i);
    if db.gshadow.Some? {
      var s := GetSgNam(db.gshadow, grp.name);
      assert s.Some? by {
        assert db.gshadow.value[j].name == grp.name;
      }
      var k :| 0 <= k < |db.gshadow.value| && db.gshadow.value[k] == s.value;
    }
  }

  lemma CopiedGroupOk(g: GroupReq, grp: Group, s: Option<Gshadow>, shadowed: bool)
    requires Mates(grp, s, shadowed)
    ensures var h := CopyGroupData(g, grp, s);
      && GroupReqOk(h, shadowed) && h.gr.name == Some(grp.name) && h.gr.gid == grp.gid && h.gr.mem == Some(grp.mem)
      && (shadowed ==> h.sg.name == Some(grp.name) && h.sg.adm == Some(s.value.adm))
  {
  }

  lemma AppendLists(mem: seq<string>, adm: seq<string>, user: string)
    requires ListsOk(mem, adm) && user !in mem
    ensures ListsOk(mem + [user], adm)
    ensures ListsOk(mem + [user], adm + [user])
  {
  }

  lemma WithoutLists(mem: seq<string>, adm: seq<string>, user: string)
    requires ListsOk(mem, adm)
    ensures ListsOk(Without(mem, user), Without(adm, user))
    ensures user !in adm ==> Without(adm, user) == adm
  {
    WithoutNoDup(mem, user);
    WithoutNoDup(adm, user);
    if user !in adm {
      WithoutAbsent(adm, user);
    }
  }

  // ----- the operations

  /** What every group operation keeps. */
  ghost predicate Kept(a: Db, out: GroupOut) {
    && out.db.passwd == a.passwd && out.db.shadow == a.shadow && (out.db.gshadow.Some? <==> a.gshadow.Some?)
    && GroupsOk(out.db.group, out.db.gshadow) && GroupReqOk(out.g, a.gshadow.Some?)
  }

  /** A request that is about to be added has a name and a gid that no entry has. */
  lemma SetGidOk(db: Db, g: GroupReq, preferred: Id, cfg: Config, shadowed: bool)
    requires GroupReqOk(g, shadowed)
    ensures var s := SetGid(db, g, preferred, cfg);
      s.Some? ==>
        && g.gr.name.Some? && s.value == g.(gr := g.gr.(gid := s.value.gr.gid)) && GroupReqOk(s.value, shadowed)
        && g.gr.name.value !in Keys(db.group, GrName) && s.value.gr.gid !in Keys(db.group, GrGid)
  {
  }

  /** The two lines that are then written are a pair. */
  lemma ShadowDataOk(g: GroupReq, encrypted: Option<string>, shadowed: bool)
    requires GroupReqOk(g, shadowed) && g.gr.name.Some?
    ensures var (h, ok) := SetGshadowData(g, encrypted);
      && GroupReqOk(h, shadowed)
      && (ok ==> h.gr.name == h.sg.name == g.gr.name && h.gr.gid == g.gr.gid && h.gr.passwd == Some("x")
                 && (shadowed ==> Pair(GroupLine(h.gr), GshadowLine(h.sg))))
  {
  }

  lemma GroupAddAgrees(db: Db, g: GroupReq, preferred: Id, cfg: Config, env: Env, locked: bool)
    requires WritesSucceed(env.io) && GroupsOk(db.group, db.gshadow) && GroupReqOk(g, db.gshadow.Some?)
    ensures Kept(db, GroupAdd(db, g, preferred, cfg, env, locked))
  {
    hide WriteBoth, SetGid, SetGshadowData, GroupsOk;
    SetGidOk(db, g, preferred, cfg, db.gshadow.Some?);
    if g.kind != NoType && locked && SetGid(db, g, preferred, cfg).Some? {
      var s := SetGid(db, g, preferred, cfg).value;
      ShadowDataOk(s, env.encrypted, db.gshadow.Some?);
      var (h, ok) := SetGshadowData(s, env.encrypted);
      if ok {
        WriteBothAdds(db, env.io, h);
      }
    }
  }

  lemma GroupDeleteAgrees(db: Db, g: GroupReq, env: Env, locked: bool)
    requires WritesSucceed(env.io) && GroupsOk(db.group, db.gshadow) && GroupReqOk(g, db.gshadow.Some?)
    ensures Kept(db, GroupDelete(db, g, env, locked))
  {
    hide WriteBoth, GetSgNam, GroupsOk, Mates;
    if GetGroup(db.group, g.gr).Some? {
      var i := FindEntries(db, g.gr);
      var grp, s := db.group[i], GetSgNam(db.gshadow, db.group[i].name);
      CopiedGroupOk(g, grp, s, db.gshadow.Some?);
      WriteBothDeletes(db, env.io, CopyGroupData(g, grp, s), i);
    }
  }

  lemma FilledGroupOk(g: GroupReq, grp: Group, s: Option<Gshadow>, shadowed: bool)
    requires GroupReqOk(g, shadowed) && (g.gr.name.Some? ==> g.gr.name.value == grp.name) && Mates(grp, s, shadowed)
    ensures var h := FillGroup(g, grp, s);
      && GroupReqOk(h, shadowed) && h.gr.name == Some(grp.name) && h.gr.gid == g.gr.gid && h.gr.mem.Some?
      && (shadowed ==> h.sg.name == Some(g.sg.name.GetOr(grp.name)))
      && h.gr.passwd == g.gr.passwd
  {
  }

  /** The group is there and the request asks for another secret, which can be encrypted. */
  ghost predicate GroupUpdates(db: Db, g: GroupReq, env: Env, locked: bool) {
    && locked && g.gr.gid != INVALID_ID && GetGroup(db.group, g.gr).Some? && env.encrypted.Some?
    && g.gr.passwd !in {None, Some("x")} && (db.gshadow.Some? ==> !env.sameSecret)
  }

  /** An update that finds something to do keeps the agreement exactly when the object is not misnamed. */
  lemma GroupUpdateAgrees(db: Db, g: GroupReq, env: Env, locked: bool)
    requires WritesSucceed(env.io) && GroupsOk(db.group, db.gshadow) && GroupReqOk(g, db.gshadow.Some?)
    ensures var u := GroupUpdate(db, g, env, locked);
      && u.db.passwd == db.passwd && u.db.shadow == db.shadow && GroupReqOk(u.g, db.gshadow.Some?)
      && (u.db.gshadow.Some? <==> db.gshadow.Some?) && (u.ok <==> GroupUpdates(db, g, env, locked))
      && (GroupsOk(u.db.group, u.db.gshadow) <==> !(GroupUpdates(db, g, env, locked) && MisnamedGroup(db, g)))
  {
    hide WriteBoth, FillGroup, GetGroup, GetSgNam, GroupsOk, ValidName, ListsOk;
    if locked && g.gr.gid != INVALID_ID && GetGroup(db.group, g.gr).Some? {
      var i := FindEntries(db, g.gr);
      var grp, s := db.group[i], GetSgNam(db.gshadow, db.group[i].name);
      FilledGroupOk(g, grp, s, db.gshadow.Some?);
      var (h, ok) := SetSecret(FillGroup(g, grp, s), env.encrypted);
      assert GroupReqOk(h, db.gshadow.Some?);
      if ok {
        var j := WriteBothModifies(db, env.io, h, Some(grp.name), i);
      }
    }
  }

  /** The user and the group are there and the user is not in it. */
  ghost predicate Addable(db: Db, g: GroupReq, uid: Id) {
    var pent, grp := GetPwUid(db.passwd, uid), GetGroup(db.group, g.gr);
    pent.Some? && grp.Some? && pent.value.name !in grp.value.mem
  }

  lemma WithMemberOk(g: GroupReq, grp: Group, s: Option<Gshadow>, user: string, admin: bool, shadowed: bool)
    requires Mates(grp, s, shadowed) && user !in grp.mem
    ensures var h := WithMember(g, grp, s, user, admin);
      && GroupReqOk(h, shadowed) && h.gr.name == Some(grp.name) && h.gr.gid == grp.gid
      && (shadowed ==> h.sg.name == h.gr.name && ShadowFits(h, None))
  {
    CopiedGroupOk(g, grp, s, shadowed);
    if shadowed {
      AppendLists(s.value.mem, s.value.adm, user);
    }
  }

  lemma GroupAddMemberAgrees(db: Db, g: GroupReq, uid: Id, admin: bool, env: Env, locked: bool)
    requires WritesSucceed(env.io) && GroupsOk(db.group, db.gshadow) && GroupReqOk(g, db.gshadow.Some?)
    ensures Kept(db, GroupAddMember(db, g, uid, admin, env, locked))
  {
    hide WriteBoth, GetSgNam, GetPwUid, GetGroup, GroupsOk, WithMember, ShadowFits, Mates, GroupReqOk;
    var pent := GetPwUid(db.passwd, uid);
    if pent.Some? && GetGroup(db.group, g.gr).Some? {
      var i := FindEntries(db, g.gr);
      var grp, s := db.group[i], GetSgNam(db.gshadow, db.group[i].name);
      if pent.value.name !in grp.mem {
        WithMemberOk(g, grp, s, pent.value.name, admin, db.gshadow.Some?);
        var j := WriteBothModifies(db, env.io, WithMember(g, grp, s, pent.value.name, admin), None, i);
      }
    }
  }

  lemma WithoutMemberOk(g: GroupReq, grp: Group, s: Option<Gshadow>, user: string, shadowed: bool)
    requires Mates(grp, s, shadowed)
    ensures var h := WithoutMember(g, grp, s, user);
      && GroupReqOk(h, shadowed) && h.gr.name == Some(grp.name) && h.gr.gid == grp.gid
      && (shadowed ==> h.sg.name == h.gr.name && ShadowFits(h, None))
  {
    CopiedGroupOk(g, grp, s, shadowed);
    if shadowed {
      WithoutLists(s.value.mem, s.value.adm, user);
    }
  }

  lemma GroupDeleteMemberAgrees(db: Db, g: GroupReq, uid: Id, env: Env, locked: bool)
    requires WritesSucceed(env.io) && GroupsOk(db.group, db.gshadow) && GroupReqOk(g, db.gshadow.Some?)
    ensures Kept(db, GroupDeleteMember(db, g, uid, env, locked))
  {
    hide WriteBoth, GetSgNam, GetPwUid, GetGroup, GroupsOk, WithoutMember, ShadowFits, Mates, GroupReqOk;
    var pent := GetPwUid(db.passwd, uid);
    if pent.Some? && GetGroup(db.group, g.gr).Some? {
      var i := FindEntries(db, g.gr);
      var grp, s := db.group[i], GetSgNam(db.gshadow, db.group[i].name);
      WithoutMemberOk(g, grp, s, pent.value.name, db.gshadow.Some?);
      var j := WriteBothModifies(db, env.io, WithoutMember(g, grp, s, pent.value.name), None, i);
    }
  }

  /** The purge loops rewrite both files entry by entry and keep the agreement. */
  lemma DeleteMembershipAgrees(db: Db, user: Option<string>, env: Env, locked: bool)
    requires WritesSucceed(env.io) && GroupsOk(db.group, db.gshadow)
    ensures var w := DeleteMembership(db, user, env, locked);
      && w.db.passwd == db.passwd && w.db.shadow == db.shadow && (w.db.gshadow.Some? <==> db.gshadow.Some?)
      && GroupsOk(w.db.group, w.db.gshadow)
  {
    hide GroupFileOk, GroupsAgree;
    if user.Some? {
      FilePurge(db.group, user.value);
      if db.gshadow.Some? {
        AgreePurge(db.group, db.gshadow.value, user.value);
      }
    }
  }

  lemma FilePurge(group: seq<Group>, user: string)
    requires GroupFileOk(group)
    ensures GroupFileOk(MapEntries(group, PurgeGroup(user)))
  {
    var r := MapEntries(group, PurgeGroup(user));
    SameKeys(group, r, GrName);
    SameKeys(group, r, GrGid);
  }

  lemma AgreePurge(group: seq<Group>, gshadow: seq<Gshadow>, user: string)
    requires GroupsAgree(group, gshadow)
    ensures GroupsAgree(MapEntries(group, PurgeGroup(user)), MapEntries(gshadow, PurgeGshadow(user)))
  {
    var r, t := MapEntries(group, PurgeGroup(user)), MapEntries(gshadow, PurgeGshadow(user));
    FilePurge(group, user);
    SameKeys(group, r, GrName);
    SameKeys(gshadow, t, SgName);
    forall j | 0 <= j < |t| ensures ListsOk(t[j].mem, t[j].adm) {
      var s := gshadow[j];
      WithoutLists(s.mem, s.adm, user);
      if user !in s.mem { WithoutAbsent(s.mem, user); }
    }
  }
}
