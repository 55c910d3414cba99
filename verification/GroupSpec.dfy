/**
 * What the group operations do to the database, as functions of its contents, of the request object
 * and of the fate of every call they make (src/daemon/core/gumd-daemon-group.c).
 */
module GroupSpec {
  import opened Types
  import opened Sequences
  import opened Validate
  import opened IdAllocation
  import opened Entries

  // ----- the database and what surrounds it

  /** The four files; gshadow may be missing. `tick` counts the file replacements started so far. */
  datatype Db = Db(passwd: seq<Passwd>, shadow: seq<Shadow>, group: seq<Group>, gshadow: Option<seq<Gshadow>>,
                   tick: nat)

  datatype DbOk = DbOk(db: Db, ok: bool)

  /** The settings that the operations read. */
  datatype Config = Config(uidMin: Id, uidMax: Id, sysUidMin: Id, sysUidMax: Id, secUidMin: Id, secUidMax: Id,
                           gidMin: Id, gidMax: Id, sysGidMin: Id, sysGidMax: Id,
                           primaryGroup: Option<string>, defGroups: string, defAdminGroups: string,
                           shell: Option<string>, secShell: Option<string>, homePrefix: string)

  /** How the calls that leave the model end during one operation. */
  datatype Env = Env(io: Oracle, lockOk: bool, unlockOk: bool, encrypted: Option<string>, sameSecret: bool,
                     euid: Id, egid: Id, digest: string, ageing: Ageing, terminated: bool, homeOk: bool,
                     iconChanged: bool)

  // ----- request objects

  datatype GroupType = NoType | SystemType | UserType

  /** struct group, with NULL strings and vectors. */
  datatype GrReq = GrReq(name: Option<string>, passwd: Option<string>, gid: Id, mem: Option<seq<string>>)

  /** struct sgrp */
  datatype SgReq = SgReq(name: Option<string>, secret: Option<string>,
                         adm: Option<seq<string>>, mem: Option<seq<string>>)

  datatype GroupReq = GroupReq(gr: GrReq, sg: SgReq, kind: GroupType)

  datatype GroupOut = GroupOut(db: Db, g: GroupReq, ok: bool)

  /** gumd_daemon_group_new */
  const FRESH_GROUP := GroupReq(GrReq(None, None, INVALID_ID, None), SgReq(None, None, None, None), NoType)

  /** The lines that putgrent and putsgent write; a NULL is an empty field. */
  function GroupLine(gr: GrReq): Group {
    Group(gr.name.GetOr(""), gr.passwd.GetOr(""), gr.gid, gr.mem.GetOr([]))
  }

  function GshadowLine(sg: SgReq): Gshadow {
    Gshadow(sg.name.GetOr(""), sg.secret.GetOr(""), sg.adm.GetOr([]), sg.mem.GetOr([]))
  }

  /** _set_groupname_property and _set_secret_property */
  function SetGroupName(gr: GrReq, value: Option<string>): GrReq {
    if value != gr.name && ValidName(value) then gr.(name := value) else gr
  }

  function SetGroupPasswd(gr: GrReq, value: Option<string>): GrReq {
    if value != gr.passwd && ValidDbSecret(value) then gr.(passwd := value) else gr
  }

  // ----- first-match lookups (src/common/gum-file.c)

  function Find<R>(s: seq<R>, p: R -> bool): (r: Option<R>)
    ensures r.Some? ==> p(r.value) && r.value in s
    ensures r.None? <==> forall i :: 0 <= i < |s| ==> !p(s[i])
  {
    var i := First(s, p);
    if i < |s| then Some(s[i]) else None
  }

  function GetPwNam(s: seq<Passwd>, name: string): Option<Passwd> { Find(s, (e: Passwd) => e.name == name) }
  function GetPwUid(s: seq<Passwd>, uid: Id): Option<Passwd> { Find(s, (e: Passwd) => e.uid == uid) }
  function GetSpNam(s: seq<Shadow>, name: string): Option<Shadow> { Find(s, (e: Shadow) => e.name == name) }
  function GetGrNam(s: seq<Group>, name: string): Option<Group> { Find(s, (e: Group) => e.name == name) }
  function GetGrGid(s: seq<Group>, gid: Id): Option<Group> { Find(s, (e: Group) => e.gid == gid) }
  function GetSgNam(s: Option<seq<Gshadow>>, name: string): Option<Gshadow> {
    if s.None? then None else Find(s.value, (e: Gshadow) => e.name == name)
  }

  /** gum_file_find_user_by_gid */
  function FindUserByGid(s: seq<Passwd>, gid: Id): Option<Passwd> {
    if gid == INVALID_ID then None else Find(s, (e: Passwd) => e.gid == gid)
  }

  // ----- the callbacks of the two group files

  function Always<R>(x: R): R -> R { (_: R) => x }

  /** _update_daemon_group_entry */
  function HitGroup(op: OpType, gr: GrReq, oldName: Option<string>): Group -> bool {
    match op
    case Add => (e: Group) => gr.gid < e.gid
    case Delete => (e: Group) => gr.gid == e.gid && gr.name == Some(e.name)
    case Modify =>
      var name := if oldName.Some? then oldName else gr.name;
      (e: Group) => gr.gid == e.gid && name == Some(e.name)
  }

  function NextGroup(op: OpType, s: seq<Group>, gr: GrReq, oldName: Option<string>): Option<seq<Group>> {
    NextEntries(op, true, s, HitGroup(op, gr, oldName), Always(GroupLine(gr)), GroupLine(gr))
  }

  /** _update_gshadow_entry */
  function HitGshadow(op: OpType, sg: SgReq, oldName: Option<string>): Gshadow -> bool {
    var name := if op == Modify && oldName.Some? then oldName else sg.name;
    (e: Gshadow) => name == Some(e.name)
  }

  function NextGshadow(op: OpType, s: seq<Gshadow>, sg: SgReq, oldName: Option<string>): Option<seq<Gshadow>> {
    NextEntries(op, false, s, HitGshadow(op, sg, oldName), Always(GshadowLine(sg)), GshadowLine(sg))
  }

  /** One replacement of the group file. */
  function WriteGroup(db: Db, io: Oracle, next: Option<seq<Group>>): DbOk {
    var ok := Committed(next, io(db.tick));
    DbOk(db.(group := if ok then next.value else db.group, tick := db.tick + 1), ok)
  }

  /** One replacement of the gshadow file. */
  function WriteGshadow(db: Db, io: Oracle, next: Option<seq<Gshadow>>): DbOk {
    var ok := db.gshadow.Some? && Committed(next, io(db.tick));
    DbOk(db.(gshadow := if ok then next else db.gshadow, tick := db.tick + 1), ok)
  }

  /** Group first, then gshadow if it is wanted and the first went well; nothing is rolled back. */
  function WriteBoth(db: Db, io: Oracle, op: OpType, g: GroupReq, oldName: Option<string>, wanted: bool): DbOk {
    var w := WriteGroup(db, io, NextGroup(op, db.group, g.gr, oldName));
    if w.ok && wanted
    then WriteGshadow(w.db, io, NextGshadow(op, db.gshadow.GetOr([]), g.sg, oldName))
    else w
  }

  // ----- helpers of the operations

  /** _find_free_gid */
  function FindFreeGid(db: Db, kind: GroupType, preferred: Id, cfg: Config): Option<Id> {
    var taken := Keys(db.group, GrGid);
    if preferred != INVALID_ID && preferred !in taken then Some(preferred)
    else if kind == SystemType then FreeId(taken, cfg.sysGidMin, cfg.sysGidMax)
    else FreeId(taken, cfg.gidMin, cfg.gidMax)
  }

  /** The search for a gid ends, whichever of the two ranges it is made in. */
  ghost predicate GidSearchEnds(db: Db, cfg: Config) {
    var taken := Keys(db.group, GrGid);
    SearchEnds(taken, cfg.gidMin, cfg.gidMax) && SearchEnds(taken, cfg.sysGidMin, cfg.sysGidMax)
  }

  /** _set_gid: None if the name is bad or taken or no gid is free. */
  function SetGid(db: Db, g: GroupReq, preferred: Id, cfg: Config): Option<GroupReq> {
    if !ValidName(g.gr.name) || GetGrNam(db.group, g.gr.name.value).Some? then None
    else
      var gid := FindFreeGid(db, g.kind, preferred, cfg);
      if gid.None? then None else Some(g.(gr := g.gr.(gid := gid.value)))
  }

  /** _set_secret: the object, and whether there is a secret to write. */
  function SetSecret(g: GroupReq, encrypted: Option<string>): (GroupReq, bool) {
    if g.gr.passwd.None? then
      (g.(gr := g.gr.(passwd := Some("x")),
          sg := g.sg.(secret := Some(if g.kind == SystemType then "*" else "!"))), true)
    else if encrypted.None? then (g.(sg := g.sg.(secret := None)), false)
    else (g.(gr := g.gr.(passwd := Some("x")), sg := g.sg.(secret := encrypted)), true)
  }

  /** _set_gshadow_data */
  function SetGshadowData(g: GroupReq, encrypted: Option<string>): (GroupReq, bool) {
    var (h, ok) := SetSecret(g.(sg := g.sg.(name := g.gr.name)), encrypted);
    (if ok then h.(sg := h.sg.(mem := h.gr.mem)) else h, ok)
  }

  /** _get_group: the entry that has the gid and the name of the request, where these are set. */
  function GetGroup(s: seq<Group>, gr: GrReq): Option<Group> {
    var byGid := if gr.gid != INVALID_ID then GetGrGid(s, gr.gid) else None;
    var grp := if byGid.None? && gr.name.Some? then GetGrNam(s, gr.name.value) else byGid;
    if grp.None? || (gr.gid != INVALID_ID && gr.gid != grp.value.gid)
       || (gr.name.Some? && gr.name.value != grp.value.name)
    then None else grp
  }

  /** _copy_gshadow_struct; with `fill` only what is NULL is copied. */
  function CopyGshadow(src: Option<Gshadow>, dest: SgReq, fill: bool): SgReq {
    if src.None? then dest
    else
      SgReq(if fill && dest.name.Some? then dest.name else Some(src.value.name),
            if fill && dest.secret.Some? then dest.secret else Some(src.value.secret),
            if fill && dest.adm.Some? then dest.adm else Some(src.value.adm),
            if fill && dest.mem.Some? then dest.mem else Some(src.value.mem))
  }

  /** _copy_group_data, given the two entries. */
  function CopyGroupData(g: GroupReq, grp: Group, sgrp: Option<Gshadow>): GroupReq {
    var gr := SetGroupPasswd(SetGroupName(g.gr, Some(grp.name)).(gid := grp.gid), Some(grp.passwd));
    g.(gr := gr.(mem := Some(grp.mem)),
       sg := CopyGshadow(sgrp, g.sg, false))
  }

  /** _copy_group_data with no entries given: they are looked up. */
  function LoadGroup(db: Db, g: GroupReq): Option<GroupReq> {
    var grp := GetGroup(db.group, g.gr);
    if grp.None? then None else Some(CopyGroupData(g, grp.value, GetSgNam(db.gshadow, grp.value.name)))
  }

  // ----- the operations; `locked` says that the database lock was obtained

  /** gumd_daemon_group_add */
  function GroupAdd(db: Db, g: GroupReq, preferred: Id, cfg: Config, env: Env, locked: bool): GroupOut {
    if g.kind == NoType || !locked then GroupOut(db, g, false)
    else
      var s := SetGid(db, g, preferred, cfg);
      if s.None? then GroupOut(db, g, false)
      else
        var (h, ok) := SetGshadowData(s.value, env.encrypted);
        if !ok then GroupOut(db, h, false)
        else
          var w := WriteBoth(db, env.io, Add, h, None, db.gshadow.Some?);
          GroupOut(w.db, h, w.ok)
  }

  /** gumd_daemon_group_delete */
  function GroupDelete(db: Db, g: GroupReq, env: Env, locked: bool): GroupOut {
    if !locked || g.gr.gid == INVALID_ID then GroupOut(db, g, false)
    else
      var s := LoadGroup(db, g);
      if s.None? then GroupOut(db, g, false)
      else
        var h := s.value;
        if h.gr.gid == env.egid then GroupOut(db, h, false)
        else if FindUserByGid(db.passwd, h.gr.gid).Some? then GroupOut(db, h, true)
        else
          var w := WriteBoth(db, env.io, Delete, h, None, db.gshadow.Some?);
          GroupOut(w.db, h, w.ok)
  }

  /** The request is filled from the two entries before a group is updated. */
  function FillGroup(g: GroupReq, grp: Group, sgrp: Option<Gshadow>): GroupReq {
    var gr := if g.gr.name.None? then SetGroupName(g.gr, Some(grp.name)) else g.gr;
    g.(gr := if gr.mem.None? then gr.(mem := Some(grp.mem)) else gr, sg := CopyGshadow(sgrp, g.sg, true))
  }

  /** gumd_daemon_group_update; sameSecret is the outcome of comparing the secrets. */
  function GroupUpdate(db: Db, g: GroupReq, env: Env, locked: bool): GroupOut {
    if !locked || g.gr.gid == INVALID_ID then GroupOut(db, g, false)
    else
      var grp := GetGroup(db.group, g.gr);
      if grp.None? then GroupOut(db, g, false)
      else
        var sgrp := GetSgNam(db.gshadow, grp.value.name);
        if g.gr.passwd.None? || g.gr.passwd == Some("x") || (sgrp.Some? && env.sameSecret) then GroupOut(db, g, false)
        else
          var (h, ok) := SetSecret(FillGroup(g, grp.value, sgrp), env.encrypted);
          if !ok then GroupOut(db, h, false)
          else
            var w := WriteBoth(db, env.io, Modify, h, Some(grp.value.name), db.gshadow.Some?);
            GroupOut(w.db, h, w.ok)
  }

  /** The request after the user has been added to its member list, and to the administrators if asked. */
  function WithMember(g: GroupReq, grp: Group, sgrp: Option<Gshadow>, user: string, admin: bool): GroupReq {
    var h := CopyGroupData(g, grp, sgrp);
    var mem := Some(grp.mem + [user]);
    var adm := if admin && sgrp.Some? && user !in sgrp.value.adm then Some(sgrp.value.adm + [user]) else h.sg.adm;
    h.(gr := h.gr.(mem := mem), sg := h.sg.(mem := mem, adm := adm))
  }

  /** gumd_daemon_group_add_member */
  function GroupAddMember(db: Db, g: GroupReq, uid: Id, admin: bool, env: Env, locked: bool): GroupOut {
    var pent := GetPwUid(db.passwd, uid);
    if !locked || pent.None? then GroupOut(db, g, false)
    else
      var grp := GetGroup(db.group, g.gr);
      if grp.None? || pent.value.name in grp.value.mem then GroupOut(db, g, false)
      else
        var sgrp := GetSgNam(db.gshadow, grp.value.name);
        var h := WithMember(g, grp.value, sgrp, pent.value.name, admin);
        var w := WriteBoth(db, env.io, Modify, h, None, sgrp.Some?);
        GroupOut(w.db, h, w.ok)
  }

  /** The request after the user has been removed from both of its lists. */
  function WithoutMember(g: GroupReq, grp: Group, sgrp: Option<Gshadow>, user: string): GroupReq {
    var h := CopyGroupData(g, grp, sgrp);
    var mem := Some(Without(grp.mem, user));
    var adm := if sgrp.Some? && user in sgrp.value.adm then Some(Without(sgrp.value.adm, user)) else h.sg.adm;
    h.(gr := h.gr.(mem := mem), sg := h.sg.(mem := mem, adm := adm))
  }

  /** gumd_daemon_group_delete_member */
  function GroupDeleteMember(db: Db, g: GroupReq, uid: Id, env: Env, locked: bool): GroupOut {
    var pent := GetPwUid(db.passwd, uid);
    if !locked || pent.None? then GroupOut(db, g, false)
    else
      var grp := GetGroup(db.group, g.gr);
      if grp.None? || pent.value.name !in grp.value.mem then GroupOut(db, g, false)
      else
        var h := WithoutMember(g, grp.value, GetSgNam(db.gshadow, grp.value.name), pent.value.name);
        var w := WriteBoth(db, env.io, Modify, h, None, db.gshadow.Some?);
        GroupOut(w.db, h, w.ok)
  }

  /** The name taken out of the lists of one entry. */
  function PurgeGroup(user: string): Group -> Group {
    (e: Group) => if user in e.mem then e.(mem := Without(e.mem, user)) else e
  }

  function PurgeGshadow(user: string): Gshadow -> Gshadow {
    (e: Gshadow) => e.(mem := if user in e.mem then Without(e.mem, user) else e.mem,
                       adm := if user in e.adm then Without(e.adm, user) else e.adm)
  }

  /**
   * gumd_daemon_group_delete_user_membership. If the group file cannot be opened nothing more is done;
   * any other failure there is forgotten when gshadow is rewritten.
   */
  function DeleteMembership(db: Db, user: Option<string>, env: Env, locked: bool): DbOk {
    if !ValidName(user) || !locked then DbOk(db, false)
    else
      var f := env.io(db.tick);
      var w := WriteGroup(db, env.io, Some(MapEntries(db.group, PurgeGroup(user.value))));
      if db.gshadow.None? || !(f.openSource && f.openDup && f.attributes) then w
      else WriteGshadow(w.db, env.io, Some(MapEntries(db.gshadow.value, PurgeGshadow(user.value))))
  }
}
