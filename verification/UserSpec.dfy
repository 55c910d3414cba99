/**
 * What the user operations do to the database, as functions of its contents, of the request object
 * and of the fate of every call they make (src/daemon/core/gumd-daemon-user.c).
 */
module UserSpec {
  import opened Types
  import opened Sequences
  import opened StringUtils
  import opened Validate
  import opened IdAllocation
  import opened Entries
  import opened GroupSpec
  import G = Gecos

  // ----- request objects

  /** struct passwd, with NULL strings. */
  datatype PwReq = PwReq(name: Option<string>, passwd: Option<string>, uid: Id, gid: Id,
                         gecos: Option<string>, dir: Option<string>, shell: Option<string>)

  /** struct spwd */
  datatype SpReq = SpReq(name: Option<string>, secret: Option<string>, ageing: Ageing)

  datatype UserReq = UserReq(pw: PwReq, sp: SpReq, nick: Option<string>)
  {
    function Type(): nat { G.UserType(pw.gecos) }
  }

  datatype UserOut = UserOut(db: Db, u: UserReq, ok: bool)

  const ZERO_AGEING := Ageing(0, 0, 0, 0, 0, 0, 0)

  /** gumd_daemon_user_new */
  const FRESH_USER := UserReq(PwReq(None, None, INVALID_ID, INVALID_ID, None, None, None),
                              SpReq(None, None, ZERO_AGEING), None)

  function PasswdLine(pw: PwReq): Passwd {
    Passwd(pw.name.GetOr(""), pw.passwd.GetOr(""), pw.uid, pw.gid,
           pw.gecos.GetOr(""), pw.dir.GetOr(""), pw.shell.GetOr(""))
  }

  function ShadowLine(sp: SpReq): Shadow {
    Shadow(sp.name.GetOr(""), sp.secret.GetOr(""), sp.ageing)
  }

  /** The property setters. */
  function SetUserName(pw: PwReq, value: Option<string>): PwReq {
    if value != pw.name && ValidName(value) then pw.(name := value) else pw
  }

  function SetPasswd(pw: PwReq, value: Option<string>): PwReq {
    if value != pw.passwd && ValidDbSecret(value) then pw.(passwd := value) else pw
  }

  function SetDir(pw: PwReq, value: Option<string>): PwReq {
    if value != pw.dir && ValidDbString(value) then pw.(dir := value) else pw
  }

  function SetShell(pw: PwReq, value: Option<string>): PwReq {
    if value != pw.shell && ValidDbString(value) then pw.(shell := value) else pw
  }

  // ----- the callbacks of the two user files

  /** _update_passwd_entry */
  function HitPasswd(op: OpType, pw: PwReq, oldName: Option<string>): Passwd -> bool {
    match op
    case Add => (e: Passwd) => pw.uid < e.uid
    case Delete => (e: Passwd) => pw.uid == e.uid && pw.gid == e.gid && pw.name == Some(e.name)
    case Modify =>
      var name := if oldName.Some? then oldName else pw.name;
      (e: Passwd) => pw.uid == e.uid && pw.gid == e.gid && name == Some(e.name)
  }

  function NextPasswd(op: OpType, s: seq<Passwd>, pw: PwReq, oldName: Option<string>): Option<seq<Passwd>> {
    NextEntries(op, true, s, HitPasswd(op, pw, oldName), Always(PasswdLine(pw)), PasswdLine(pw))
  }

  /** _update_shadow_entry */
  function HitShadow(op: OpType, sp: SpReq, oldName: Option<string>): Shadow -> bool {
    var name := if op == Modify && oldName.Some? then oldName else sp.name;
    (e: Shadow) => name == Some(e.name)
  }

  function NextShadow(op: OpType, s: seq<Shadow>, sp: SpReq, oldName: Option<string>): Option<seq<Shadow>> {
    NextEntries(op, false, s, HitShadow(op, sp, oldName), Always(ShadowLine(sp)), ShadowLine(sp))
  }

  /**
   * _lock_shadow_entry: a secret that already is in the wanted state is not copied, so the field is
   * written empty.
   */
  function EditLock(lock: bool): Shadow -> Shadow {
    (e: Shadow) =>
      var locked := e.secret != "" && e.secret[0] == '!';
      e.(secret := if lock && !locked then "!" + e.secret else if !lock && locked then e.secret[1..] else "")
  }

  function HitLock(name: Option<string>): Shadow -> bool {
    (e: Shadow) => name == Some(e.name)
  }

  const NO_SHADOW := Shadow("", "", ZERO_AGEING)

  function NextLocked(s: seq<Shadow>, name: Option<string>, lock: bool): Option<seq<Shadow>> {
    NextEntries(Modify, false, s, HitLock(name), EditLock(lock), NO_SHADOW)
  }

  function WritePasswd(db: Db, io: Oracle, next: Option<seq<Passwd>>): DbOk {
    var ok := Committed(next, io(db.tick));
    DbOk(db.(passwd := if ok then next.value else db.passwd, tick := db.tick + 1), ok)
  }

  function WriteShadow(db: Db, io: Oracle, next: Option<seq<Shadow>>): DbOk {
    var ok := Committed(next, io(db.tick));
    DbOk(db.(shadow := if ok then next.value else db.shadow, tick := db.tick + 1), ok)
  }

  /** Passwd first, then shadow if the first went well; nothing is rolled back. */
  function WriteUser(db: Db, io: Oracle, op: OpType, u: UserReq, oldName: Option<string>): DbOk {
    var w := WritePasswd(db, io, NextPasswd(op, db.passwd, u.pw, oldName));
    if w.ok then WriteShadow(w.db, io, NextShadow(op, db.shadow, u.sp, oldName)) else w
  }

  // ----- helpers of the operations

  /** The end of _set_daemon_user_name: the real name defaults to the user name. */
  function DefaultRealName(pw: PwReq): PwReq {
    if GetString(pw.gecos, 0).None? then pw.(gecos := G.SetText(pw.gecos, 0, pw.name)) else pw
  }

  /** _set_daemon_user_name */
  function SetDaemonUserName(u: UserReq, digest: string): Option<UserReq> {
    if u.pw.name.Some? then
      if ValidName(u.pw.name) then Some(u.(pw := DefaultRealName(u.pw))) else None
    else if u.nick.None? || u.Type() == G.TYPE_SYSTEM then None
    else
      var name := GenerateUsername(u.nick, digest);
      if name.None? then None else Some(u.(pw := DefaultRealName(SetUserName(u.pw, name))))
  }

  /** _find_free_uid */
  function FindFreeUid(db: Db, kind: nat, cfg: Config): Option<Id> {
    var taken := Keys(db.passwd, PwUid);
    if kind == G.TYPE_SYSTEM then FreeId(taken, cfg.sysUidMin, cfg.sysUidMax)
    else if kind == G.TYPE_SECURITY then FreeId(taken, cfg.secUidMin, cfg.secUidMax)
    else FreeId(taken, cfg.uidMin, cfg.uidMax)
  }

  /** The search for a uid ends, whichever of the three ranges it is made in. */
  ghost predicate UidSearchEnds(db: Db, cfg: Config) {
    var taken := Keys(db.passwd, PwUid);
    && SearchEnds(taken, cfg.uidMin, cfg.uidMax)
    && SearchEnds(taken, cfg.sysUidMin, cfg.sysUidMax)
    && SearchEnds(taken, cfg.secUidMin, cfg.secUidMax)
  }

  /** _set_uid: the object, and whether it now has a name and a uid that are not in use. */
  function SetUid(db: Db, u: UserReq, cfg: Config, digest: string): (UserReq, bool) {
    var n := SetDaemonUserName(u, digest);
    if n.None? then (u, false)
    else
      var v := n.value;
      if v.pw.name.None? || GetPwNam(db.passwd, v.pw.name.value).Some? then (v, false)
      else
        var uid := FindFreeUid(db, v.Type(), cfg);
        if uid.None? then (v, false)
        else
          var pw := v.pw.(uid := uid.value);
          var dir := Some(cfg.homePrefix + "/" + pw.name.value);
          (v.(pw := if v.Type() != G.TYPE_SYSTEM then SetDir(pw, dir) else pw), true)
  }

  /** The group object that _set_group asks to be added. */
  function PrimaryGroupReq(u: UserReq, cfg: Config): GroupReq {
    FRESH_GROUP.(gr := SetGroupName(FRESH_GROUP.gr, if cfg.primaryGroup.Some? then cfg.primaryGroup else u.pw.name),
                 kind := if u.Type() == G.TYPE_SYSTEM then SystemType else UserType)
  }

  /** _set_group: the configured primary group if there is one, else a group that is added for the user. */
  function SetGroup(db: Db, u: UserReq, cfg: Config, env: Env): UserOut {
    var grp := if cfg.primaryGroup.Some? then GetGrNam(db.group, cfg.primaryGroup.value) else None;
    if grp.Some? then UserOut(db, u.(pw := u.pw.(gid := grp.value.gid)), true)
    else
      var a := GroupAdd(db, PrimaryGroupReq(u, cfg), u.pw.uid, cfg, env, true);
      UserOut(a.db, if a.ok then u.(pw := u.pw.(gid := a.g.gr.gid)) else u, a.ok)
  }

  /** _set_secret */
  function SetUserSecret(u: UserReq, encrypted: Option<string>): (UserReq, bool) {
    if u.pw.passwd.None? then
      var secret := if u.Type() == G.TYPE_SYSTEM then "*" else if u.Type() == G.TYPE_GUEST then "" else "!";
      (u.(sp := u.sp.(secret := Some(secret)), pw := u.pw.(passwd := Some("x"))), true)
    else if encrypted.None? then (u.(sp := u.sp.(secret := None)), false)
    else (u.(sp := u.sp.(secret := encrypted), pw := u.pw.(passwd := Some("x"))), true)
  }

  /** _set_shadow_data */
  function SetShadowData(u: UserReq, env: Env): (UserReq, bool) {
    var (v, ok) := SetUserSecret(u.(sp := u.sp.(name := u.pw.name)), env.encrypted);
    (if ok then v.(sp := v.sp.(ageing := env.ageing)) else v, ok)
  }

  /** _set_default_groups: whether a user could be added to a group makes no difference to the next one. */
  function AddToGroups(db: Db, uid: Id, names: seq<string>, env: Env): Db
    decreases |names|
  {
    if names == [] then db
    else
      var g := FRESH_GROUP.(gr := SetGroupName(FRESH_GROUP.gr, Some(names[0])));
      AddToGroups(GroupAddMember(db, g, uid, false, env, true).db, uid, names[1..], env)
  }

  function SetDefaultGroups(db: Db, u: UserReq, cfg: Config, env: Env): Db {
    if u.Type() == G.TYPE_SYSTEM then db
    else AddToGroups(db, u.pw.uid, Split(if u.Type() == G.TYPE_ADMIN then cfg.defAdminGroups else cfg.defGroups), env)
  }

  /** _get_passwd */
  function GetPasswd(s: seq<Passwd>, pw: PwReq): Option<Passwd> {
    var byUid := if pw.uid != INVALID_ID then GetPwUid(s, pw.uid) else None;
    var pent := if byUid.None? && pw.name.Some? then GetPwNam(s, pw.name.value) else byUid;
    if pent.None? || (pw.uid != INVALID_ID && pw.uid != pent.value.uid)
       || (pw.name.Some? && pw.name.value != pent.value.name)
    then None else pent
  }

  /** _copy_passwd_struct */
  function CopyPasswd(src: Passwd, pw: PwReq): PwReq {
    var a := SetPasswd(SetUserName(pw, Some(src.name)), Some(src.passwd)).(uid := src.uid, gid := src.gid);
    SetShell(SetDir(a.(gecos := G.Load(a.gecos, Some(src.gecos))), Some(src.dir)), Some(src.shell))
  }

  /** _copy_shadow_struct; with `fill` the strings are copied only where they are NULL. */
  function CopyShadow(src: Shadow, dest: SpReq, fill: bool): SpReq {
    SpReq(if fill && dest.name.Some? then dest.name else Some(src.name),
          if fill && dest.secret.Some? then dest.secret else Some(src.secret),
          src.ageing)
  }

  /** _copy_passwd_data */
  function LoadUser(db: Db, u: UserReq): Option<UserReq> {
    var pent := GetPasswd(db.passwd, u.pw);
    if pent.None? then None
    else
      var spent := GetSpNam(db.shadow, pent.value.name);
      if spent.None? then None
      else Some(u.(pw := CopyPasswd(pent.value, u.pw), sp := CopyShadow(spent.value, u.sp, false)))
  }

  // ----- the operations

  /** The shell that a user gets when the request has none. */
  function DefaultShell(u: UserReq, cfg: Config): UserReq {
    if u.pw.shell.Some? then u
    else u.(pw := SetShell(u.pw, if u.Type() == G.TYPE_SECURITY then cfg.secShell else cfg.shell))
  }

  /** The part of gumd_daemon_user_add up to the first write of the passwd file. */
  function PrepareUser(db: Db, u: UserReq, cfg: Config, env: Env): UserOut {
    var (v, ok) := SetUid(db, u, cfg, env.digest);
    if !ok then UserOut(db, v, false)
    else
      var s := SetGroup(db, v, cfg, env);
      if !s.ok then s
      else
        var (w, done) := SetShadowData(s.u, env);
        UserOut(s.db, w, done)
  }

  /** gumd_daemon_user_add */
  function UserAdd(db: Db, u: UserReq, cfg: Config, env: Env, locked: bool): UserOut {
    if u.Type() == G.TYPE_NONE then UserOut(db, u, false)
    else
      var v := DefaultShell(u, cfg);
      if !locked then UserOut(db, v, false)
      else
        var p := PrepareUser(db, v, cfg, env);
        if !p.ok then p
        else
          var w := WriteUser(p.db, env.io, Add, p.u, None);
          if !w.ok then UserOut(w.db, p.u, false)
          else UserOut(SetDefaultGroups(w.db, p.u, cfg, env), p.u, p.u.Type() == G.TYPE_SYSTEM || env.homeOk)
  }

  /** The part of gumd_daemon_user_delete after the two user files: the primary group and the memberships. */
  function LeaveGroups(db: Db, u: UserReq, env: Env): DbOk {
    var d := GroupDelete(db, FRESH_GROUP.(gr := FRESH_GROUP.gr.(gid := u.pw.gid)), env, true);
    if !d.ok then DbOk(d.db, false) else DeleteMembership(d.db, u.pw.name, env, true)
  }

  /** One replacement of the shadow file that locks or unlocks the user. */
  function WriteLock(db: Db, io: Oracle, u: UserReq, lock: bool): DbOk {
    WriteShadow(db, io, NextLocked(db.shadow, u.pw.name, lock))
  }

  /** The part of gumd_daemon_user_delete once the user is loaded and is not the daemon's own. */
  function RemoveUser(db: Db, v: UserReq, removeHome: bool, env: Env): UserOut {
    var l := WriteLock(db, env.io, v, true);
    if !l.ok then UserOut(l.db, v, false)
    else if !env.terminated then UserOut(WriteLock(l.db, env.io, v, false).db, v, false)
    else
      var w := WriteUser(l.db, env.io, Delete, v, None);
      if !w.ok then UserOut(WriteLock(w.db, env.io, v, false).db, v, false)
      else
        var m := LeaveGroups(w.db, v, env);
        UserOut(m.db, v, m.ok && (removeHome ==> v.Type() == G.TYPE_SYSTEM || env.homeOk))
  }

  /** gumd_daemon_user_delete */
  function UserDelete(db: Db, u: UserReq, removeHome: bool, env: Env, locked: bool): UserOut {
    if !locked || u.pw.uid == INVALID_ID then UserOut(db, u, false)
    else
      var s := LoadUser(db, u);
      if s.None? then UserOut(db, u, false)
      else
        var v := s.value;
        if v.pw.uid == env.euid then UserOut(db, v, false) else RemoveUser(db, v, removeHome, env)
  }

  /** The request is filled from the two entries before a user is updated. */
  function FillUser(u: UserReq, pent: Passwd, spent: Shadow): UserReq {
    var a := SetDir(SetUserName(u.pw, Some(pent.name)).(uid := pent.uid, gid := pent.gid), Some(pent.dir));
    u.(pw := a.(gecos := G.Update(a.gecos, Some(pent.gecos))), sp := CopyShadow(spent, u.sp, true))
  }

  /** The request asks for a new secret. */
  predicate NewSecret(u: UserReq, env: Env) {
    u.pw.passwd.Some? && u.pw.passwd != Some("x") && !env.sameSecret
  }

  predicate GecosDiffers(pw: PwReq, pent: Passwd) {
    pw.gecos.Some? && pw.gecos.value != pent.gecos
  }

  predicate ShellDiffers(pw: PwReq, pent: Passwd) {
    pw.shell.Some? && pw.shell.value != pent.shell
  }

  /** The request as it is when the files are to be written, and whether they are. */
  function DecideUpdate(u: UserReq, pent: Passwd, spent: Shadow, env: Env): (UserReq, bool) {
    var v := FillUser(u, pent, spent);
    var (w, ok) := if NewSecret(v, env) then SetUserSecret(v, env.encrypted)
                   else (v.(pw := SetPasswd(v.pw, Some(pent.passwd))), true);
    var typeDiffers := GetString(w.pw.gecos, G.USERTYPE) != GetString(Some(pent.gecos), G.USERTYPE);
    var changed := env.iconChanged || NewSecret(v, env) || GecosDiffers(w.pw, pent) || ShellDiffers(w.pw, pent);
    (w, ok && !(GecosDiffers(w.pw, pent) && typeDiffers) && changed)
  }

  /** gumd_daemon_user_update */
  function UserUpdate(db: Db, u: UserReq, env: Env, locked: bool): UserOut {
    if !locked || u.pw.uid == INVALID_ID then UserOut(db, u, false)
    else
      var pent := GetPasswd(db.passwd, u.pw);
      if pent.None? then UserOut(db, u, false)
      else
        var spent := GetSpNam(db.shadow, pent.value.name);
        if spent.None? then UserOut(db, u, false)
        else
          var (w, write) := DecideUpdate(u, pent.value, spent.value, env);
          if !write then UserOut(db, w, false)
          else
            var out := WriteUser(db, env.io, Modify, w, Some(pent.value.name));
            UserOut(out.db, w, out.ok)
  }
}
