/** When a user is added, and what the four files hold afterwards. */
module UserAddTheorems {
  import opened Types
  import opened Sequences
  import opened Validate
  import opened IdAllocation
  import opened Entries
  import opened GroupSpec
  import opened UserSpec
  import opened GroupAgreement
  import opened UserConsistency
  import opened UserTheorems
  import opened GroupTheorems
  import Gecos
  import StringUtils

  // ----- joining the default groups

  /** The password field as a fresh object takes it over. */
  function Accepted(passwd: string): string {
    if ValidDbSecret(Some(passwd)) then passwd else ""
  }

  /** What joining the named groups does to a group that the user is not in yet. */
  function Joins(names: seq<string>, user: string): Group -> Group {
    (e: Group) =>
      if e.name in names && user !in e.mem then e.(mem := e.mem + [user], passwd := Accepted(e.passwd)) else e
  }

  function JoinsShadow(names: seq<string>, user: string): Gshadow -> Gshadow {
    (e: Gshadow) => if e.name in names && user !in e.mem then e.(mem := e.mem + [user]) else e
  }

  /** The user has joined the named groups, and nothing else is different. */
  ghost predicate Joined(a: Db, b: Db, names: seq<string>, user: string) {
    && b.passwd == a.passwd && b.shadow == a.shadow
    && b.group == MapEntries(a.group, Joins(names, user)) && b.gshadow == MapShadow(a.gshadow, JoinsShadow(names, user))
  }

  lemma JoinedAt(db: Db, b: Db, i: nat, j: nat, user: string)
    requires GroupsOk(db.group, db.gshadow) && i < |db.group| && NamedAt(db.gshadow, j, db.group[i].name)
    requires user !in db.group[i].mem
    requires var e, s := db.group[i], EntryAt(db.gshadow, j);
      Edited(db, b, i, j, e.(mem := e.mem + [user], passwd := Accepted(e.passwd)), s.(mem := s.mem + [user]))
    ensures Joined(db, b, [db.group[i].name], user)
  {
    forall k | 0 <= k < |db.group| && k != i ensures db.group[k].name != db.group[i].name {
      assert GrName(db.group[k]) != GrName(db.group[i]);
    }
    if db.gshadow.Some? {
      forall k | 0 <= k < |db.gshadow.value| && k != j ensures db.gshadow.value[k].name != db.group[i].name {
        assert SgName(db.gshadow.value[k]) != SgName(db.gshadow.value[j]);
      }
      assert b.gshadow.value == MapEntries(db.gshadow.value, JoinsShadow([db.group[i].name], user));
    }
  }

  /** There is no group of that name for the user to join, or the user is in it. */
  lemma NothingToJoin(db: Db, name: string, user: string)
    requires GroupsOk(db.group, db.gshadow)
    requires var grp := GetGroup(db.group, SetGroupName(FRESH_GROUP.gr, Some(name)));
      grp.Some? ==> user in grp.value.mem
    ensures Joined(db, db, [name], user)
  {
    forall i | 0 <= i < |db.group| && db.group[i].name == name ensures user in db.group[i].mem {
      GroupNamed(db, i);
    }
    if db.gshadow.Some? {
      var s := db.gshadow.value;
      forall j | 0 <= j < |s| && s[j].name == name ensures user in s[j].mem {
        KeyIn(s, SgName, j);
        var i :| 0 <= i < |db.group| && GrName(db.group[i]) == name;
        assert db.group[i].mem == s[j].mem;
      }
      assert s == MapEntries(s, JoinsShadow([name], user));
    }
  }

  /** A group object that has been given a name only finds the group of that name. */
  lemma GroupNamed(db: Db, i: nat)
    requires GroupFileOk(db.group) && i < |db.group|
    ensures GetGroup(db.group, SetGroupName(FRESH_GROUP.gr, Some(db.group[i].name))) == Some(db.group[i])
  {
    forall k | 0 <= k < |db.group| && db.group[k].name == db.group[i].name ensures k == i {
      assert GrName(db.group[k]) == GrName(db.group[i]);
    }
  }

  lemma FoundByName(s: seq<Group>, gr: GrReq)
    ensures gr == FRESH_GROUP.gr ==> GetGroup(s, gr).None?
    ensures GetGroup(s, gr).Some? && gr.name.Some? ==> GetGroup(s, gr).value.name == gr.name.value
  {
  }

  lemma JoinOne(db: Db, name: string, uid: Id, env: Env, user: string)
    requires WritesSucceed(env.io) && GroupsOk(db.group, db.gshadow)
    requires GetPwUid(db.passwd, uid).Some? && GetPwUid(db.passwd, uid).value.name == user
    ensures var g := FRESH_GROUP.(gr := SetGroupName(FRESH_GROUP.gr, Some(name)));
      var a := GroupAddMember(db, g, uid, false, env, true);
      Joined(db, a.db, [name], user)
  {
    hide GroupAddMember, GetPwUid, GetGroup, GroupsOk, ValidName, Joined;
    var g := FRESH_GROUP.(gr := SetGroupName(FRESH_GROUP.gr, Some(name)));
    var a := GroupAddMember(db, g, uid, false, env, true);
    AddMemberExact(db, g, uid, false, env, true);
    FoundByName(db.group, g.gr);
    if a.ok {
      var i: nat, j: nat :| MemberAdded(db, g, a, i, j, GetPwUid(db.passwd, uid), false);
      JoinedAt(db, a.db, i, j, user);
    } else {
      FailedAddMember(db, g, uid, false, env);
      NothingToJoin(db, name, user);
    }
  }

  lemma JoinedThen(a: Db, b: Db, c: Db, names: seq<string>, user: string)
    requires names != [] && Joined(a, b, [names[0]], user) && Joined(b, c, names[1..], user)
    ensures Joined(a, c, names, user)
  {
    assert c.group == MapEntries(a.group, Joins(names, user));
    if a.gshadow.Some? {
      assert c.gshadow.value == MapEntries(a.gshadow.value, JoinsShadow(names, user));
    }
  }

  /** Adding a user to groups one after the other: each named group that exists and lacks the user gets it. */
  lemma {:induction false} AddToGroupsJoins(db: Db, uid: Id, names: seq<string>, env: Env, user: string)
    requires WritesSucceed(env.io) && GroupsOk(db.group, db.gshadow)
    requires GetPwUid(db.passwd, uid).Some? && GetPwUid(db.passwd, uid).value.name == user
    ensures Joined(db, AddToGroups(db, uid, names, env), names, user)
    decreases |names|
  {
    hide GroupAddMember, GetPwUid, GroupsOk;
    if names == [] {
      assert MapEntries(db.group, Joins([], user)) == db.group;
      assert db.gshadow.Some? ==> MapEntries(db.gshadow.value, JoinsShadow([], user)) == db.gshadow.value;
    } else {
      var g := FRESH_GROUP.(gr := SetGroupName(FRESH_GROUP.gr, Some(names[0])));
      var b := GroupAddMember(db, g, uid, false, env, true).db;
      JoinOne(db, names[0], uid, env, user);
      GroupAddMemberAgrees(db, g, uid, false, env, true);
      AddToGroupsJoins(b, uid, names[1..], env, user);
      JoinedThen(db, b, AddToGroups(db, uid, names, env), names, user);
    }
  }

  // ----- what an add depends on

  /** The name that the user gets: the one asked for, or one made from the nick name. */
  function NameOf(u: UserReq, digest: string): Option<string> {
    if u.pw.name.Some? then u.pw.name
    else if u.Type() == Gecos.TYPE_SYSTEM then None
    else GenerateUsername(u.nick, digest)
  }

  /** The name of the user's primary group. */
  function GroupNameOf(name: string, cfg: Config): string {
    cfg.primaryGroup.GetOr(name)
  }

  /** The primary group is the configured one, which is there already. */
  ghost predicate GroupThere(db: Db, cfg: Config) {
    cfg.primaryGroup.Some? && cfg.primaryGroup.value in Keys(db.group, GrName)
  }

  function KindOf(userType: nat): GroupType {
    if userType == Gecos.TYPE_SYSTEM then SystemType else UserType
  }

  /** A primary group can be made: no group has its name yet, and there is a gid for it. */
  ghost predicate GroupFits(db: Db, userType: nat, name: string, uid: Id, cfg: Config) {
    var group := GroupNameOf(name, cfg);
    ValidName(Some(group)) && group !in Keys(db.group, GrName) && FindFreeGid(db, KindOf(userType), uid, cfg).Some?
  }

  function GidOf(db: Db, userType: nat, uid: Id, cfg: Config): Id {
    var grp := if cfg.primaryGroup.Some? then GetGrNam(db.group, cfg.primaryGroup.value) else None;
    if grp.Some? then grp.value.gid else FindFreeGid(db, KindOf(userType), uid, cfg).GetOr(INVALID_ID)
  }

  /** The name is new, and there are a uid and a primary group for it. */
  ghost predicate Placed(db: Db, u: UserReq, cfg: Config, env: Env) {
    var name, uid := NameOf(u, env.digest), FindFreeUid(db, u.Type(), cfg);
    && u.Type() != Gecos.TYPE_NONE && name.Some? && name.value !in Keys(db.passwd, PwName) && uid.Some?
    && (GroupThere(db, cfg) || GroupFits(db, u.Type(), name.value, uid.value, cfg))
  }

  ghost predicate SecretReady(u: UserReq, env: Env) {
    u.pw.passwd.Some? ==> env.encrypted.Some?
  }

  function HomeOf(u: UserReq, name: string, cfg: Config): string {
    var dir := cfg.homePrefix + "/" + name;
    if u.Type() != Gecos.TYPE_SYSTEM && ValidDbString(Some(dir)) then dir else u.pw.dir.GetOr("")
  }

  function ShellOf(u: UserReq, cfg: Config): string {
    var shell := if u.Type() == Gecos.TYPE_SECURITY then cfg.secShell else cfg.shell;
    if u.pw.shell.Some? then u.pw.shell.value else if ValidDbString(shell) then shell.value else ""
  }

  /** The two lines that an add writes. */
  function NewPasswd(db: Db, u: UserReq, name: string, uid: Id, cfg: Config): Passwd {
    Passwd(name, "x", uid, GidOf(db, u.Type(), uid, cfg), u.pw.gecos.GetOr(""), HomeOf(u, name, cfg), ShellOf(u, cfg))
  }

  function NewShadow(u: UserReq, name: string, env: Env): Shadow {
    var unset := if u.Type() == Gecos.TYPE_SYSTEM then "*" else if u.Type() == Gecos.TYPE_GUEST then "" else "!";
    Shadow(name, if u.pw.passwd.Some? then env.encrypted.GetOr("") else unset, env.ageing)
  }

  function DefaultNames(userType: nat, cfg: Config): seq<string> {
    if userType == Gecos.TYPE_SYSTEM then []
    else StringUtils.Split(if userType == Gecos.TYPE_ADMIN then cfg.defAdminGroups else cfg.defGroups)
  }

  /** The uid of a new user is what the search in the range for the user's type chooses. */
  lemma UidChoice(db: Db, userType: nat, cfg: Config)
    requires UidSearchEnds(db, cfg)
    ensures var (min, max) := if userType == Gecos.TYPE_SYSTEM then (cfg.sysUidMin, cfg.sysUidMax)
                              else if userType == Gecos.TYPE_SECURITY then (cfg.secUidMin, cfg.secUidMax)
                              else (cfg.uidMin, cfg.uidMax);
      Chosen(Keys(db.passwd, PwUid), min, max, FindFreeUid(db, userType, cfg))
  {
    hide FreeId, Chosen;
    FreeIdChosen(Keys(db.passwd, PwUid), cfg.uidMin, cfg.uidMax);
    FreeIdChosen(Keys(db.passwd, PwUid), cfg.sysUidMin, cfg.sysUidMax);
    FreeIdChosen(Keys(db.passwd, PwUid), cfg.secUidMin, cfg.secUidMax);
  }

  // ----- the parts of an add

  /**
   * A request that has a type has a GECOS string with a real name field, if only an empty one; so the
   * default for the real name, which is the user name, is never set.
   */
  lemma RealNameStays(u: UserReq, digest: string)
    requires UserReqOk(u) && u.Type() != Gecos.TYPE_NONE
    ensures SetDaemonUserName(u, digest) == var name := NameOf(u, digest);
      if name.Some? then Some(u.(pw := u.pw.(name := name))) else None
  {
  }

  /** A request without a GECOS string, so without a type, gets the user name for its real name. */
  lemma RealNameDefault(u: UserReq, digest: string)
    requires UserReqOk(u) && u.pw.gecos == None
    ensures var n := SetDaemonUserName(u, digest);
      n.Some? ==> n.value.pw.name.Some? && Gecos.Rec(n.value.pw.gecos) == [n.value.pw.name.value, "", "", "", ""]
  {
    var n := SetDaemonUserName(u, digest);
    if n.Some? {
      var name := n.value.pw.name;
      ValidNameIsDbString(name.value);
      Gecos.SetTextRec(None, 0, name);
      assert Gecos.Rec(None) == ["", "", "", "", ""];
    }
  }

  lemma UidSettled(db: Db, u: UserReq, cfg: Config, env: Env)
    requires UserReqOk(u) && u.Type() != Gecos.TYPE_NONE
    ensures var (v, ok) := SetUid(db, u, cfg, env.digest);
      var name, uid := NameOf(u, env.digest), FindFreeUid(db, u.Type(), cfg);
      && (ok <==> name.Some? && name.value !in Keys(db.passwd, PwName) && uid.Some?)
      && (ok ==> v.pw == u.pw.(name := name, uid := uid.value, dir := v.pw.dir) && v.sp == u.sp && v.nick == u.nick
                 && v.pw.dir.GetOr("") == HomeOf(u, name.value, cfg) && ValidName(name))
  {
    hide FindFreeUid, SetDaemonUserName;
    RealNameStays(u, env.digest);
    var name := NameOf(u, env.digest);
    if name.Some? {
      UserNamed(db.passwd, name.value);
    }
  }

  lemma UserNamed(s: seq<Passwd>, name: string)
    ensures GetPwNam(s, name).Some? <==> name in Keys(s, PwName)
  {
    if name in Keys(s, PwName) {
      var i :| 0 <= i < |s| && PwName(s[i]) == name;
      assert s[i].name == name;
    }
  }

  /** The primary group is there, or has been made with no members. */
  ghost predicate GroupSettled(db: Db, m: Db, userType: nat, name: string, gid: Id, cfg: Config,
                               encrypted: Option<string>) {
    if GroupThere(db, cfg) then m == db
    else exists k :: GroupAdded(db, m, NewGroup(userType, name, cfg), gid, k, encrypted)
  }

  function NewGroup(userType: nat, name: string, cfg: Config): GroupReq {
    FRESH_GROUP.(gr := FRESH_GROUP.gr.(name := Some(GroupNameOf(name, cfg))), kind := KindOf(userType))
  }

  lemma PrimaryGroupSettled(db: Db, u: UserReq, cfg: Config, env: Env)
    requires WritesSucceed(env.io) && GroupsOk(db.group, db.gshadow) && u.pw.name.Some? && ValidName(u.pw.name)
    ensures var s := SetGroup(db, u, cfg, env);
      var name, gid := u.pw.name.value, GidOf(db, u.Type(), u.pw.uid, cfg);
      && (s.ok <==> GroupThere(db, cfg) || GroupFits(db, u.Type(), name, u.pw.uid, cfg))
      && (s.ok ==> s.u == u.(pw := u.pw.(gid := gid))
                   && GroupSettled(db, s.db, u.Type(), name, gid, cfg, env.encrypted))
      && (!s.ok ==> s.db == db)
  {
    hide GroupAdd, GroupAdded, FindFreeGid, GetGrNam, GroupsOk;
    if cfg.primaryGroup.Some? {
      NameLookup(db.group, cfg.primaryGroup.value);
    }
    var g := PrimaryGroupReq(u, cfg);
    var group := GroupNameOf(u.pw.name.value, cfg);
    if !GroupThere(db, cfg) {
      GroupAddExact(db, g, u.pw.uid, cfg, env);
      if ValidName(Some(group)) {
        assert g == NewGroup(u.Type(), u.pw.name.value, cfg);
      }
    }
  }

  /** The passwd entry and the shadow entry are made up, after the primary group. */
  lemma UserPrepared(db: Db, u: UserReq, cfg: Config, env: Env)
    requires WritesSucceed(env.io) && GroupsOk(db.group, db.gshadow)
    requires UserReqOk(u) && u.Type() != Gecos.TYPE_NONE
    ensures var p := PrepareUser(db, DefaultShell(u, cfg), cfg, env);
      && (p.ok <==> Placed(db, u, cfg, env) && SecretReady(u, env))
      && (p.ok ==> PreparedAs(db, p, u, cfg, env))
      && (!p.ok ==> p.db.passwd == db.passwd && p.db.shadow == db.shadow
                    && (p.db == db <==> !Placed(db, u, cfg, env) || GroupThere(db, cfg)))
  {
    hide SetUid, SetGroup, GroupSettled, GroupFits, GroupThere, GroupsOk, HomeOf, FindFreeUid, NameOf, GidOf;
    var v := DefaultShell(u, cfg);
    DefaultShellOk(u, cfg);
    ShellSettled(u, cfg);
    SameNames(db, u, v, cfg, env);
    UidSettled(db, v, cfg, env);
    var (w, ok) := SetUid(db, v, cfg, env.digest);
    if ok {
      PrimaryGroupSettled(db, w, cfg, env);
      GroupMakesADifference(db, SetGroup(db, w, cfg, env).db, u.Type(), w.pw.name.value,
                            GidOf(db, u.Type(), w.pw.uid, cfg), cfg, env);
    }
  }

  /** The request after that, in its own terms. */
  ghost predicate PreparedAs(db: Db, p: UserOut, u: UserReq, cfg: Config, env: Env) {
    var name, uid := NameOf(u, env.digest), FindFreeUid(db, u.Type(), cfg);
    && name.Some? && ValidName(name) && uid.Some? && p.u.Type() == u.Type()
    && p.u.pw.name == p.u.sp.name == name && p.u.pw.uid == uid.value
    && p.u.pw.gid == GidOf(db, u.Type(), uid.value, cfg)
    && PasswdLine(p.u.pw) == NewPasswd(db, u, name.value, uid.value, cfg)
    && ShadowLine(p.u.sp) == NewShadow(u, name.value, env)
    && GroupSettled(db, p.db, u.Type(), name.value, GidOf(db, u.Type(), uid.value, cfg), cfg, env.encrypted)
  }

  lemma ShellSettled(u: UserReq, cfg: Config)
    ensures var v := DefaultShell(u, cfg);
      v.pw.shell.GetOr("") == ShellOf(u, cfg) && v == u.(pw := u.pw.(shell := v.pw.shell))
  {
  }

  /** The shell has no part in the choice of name, uid, home directory and secret. */
  lemma SameNames(db: Db, u: UserReq, v: UserReq, cfg: Config, env: Env)
    requires v == u.(pw := u.pw.(shell := v.pw.shell))
    ensures NameOf(v, env.digest) == NameOf(u, env.digest) && v.Type() == u.Type()
    ensures forall name :: HomeOf(v, name, cfg) == HomeOf(u, name, cfg)
  {
  }

  lemma GroupMakesADifference(db: Db, m: Db, userType: nat, name: string, gid: Id, cfg: Config, env: Env)
    ensures GroupSettled(db, m, userType, name, gid, cfg, env.encrypted) ==>
      m.passwd == db.passwd && m.shadow == db.shadow && (m == db <==> GroupThere(db, cfg))
  {
    if GroupSettled(db, m, userType, name, gid, cfg, env.encrypted) && !GroupThere(db, cfg) {
      var k: nat :| GroupAdded(db, m, NewGroup(userType, name, cfg), gid, k, env.encrypted);
      assert |m.group| == |db.group| + 1;
    }
  }

  // ----- the whole add

  /**
   * The new line stands in passwd before the first larger uid and at the end of shadow; the primary
   * group m was there or has been made; and the user has joined the default groups.
   */
  ghost predicate UserAdded(db: Db, a: Db, u: UserReq, cfg: Config, env: Env, i: nat, m: Db) {
    var name, uid := NameOf(u, env.digest), FindFreeUid(db, u.Type(), cfg);
    && name.Some? && uid.Some? && i <= |db.passwd|
    && (forall k :: 0 <= k < i ==> db.passwd[k].uid <= uid.value) && (i < |db.passwd| ==> uid.value < db.passwd[i].uid)
    && a.passwd == InsertAt(db.passwd, i, NewPasswd(db, u, name.value, uid.value, cfg))
    && a.shadow == db.shadow + [NewShadow(u, name.value, env)]
    && GroupSettled(db, m, u.Type(), name.value, GidOf(db, u.Type(), uid.value, cfg), cfg, env.encrypted)
    && Joined(m.(passwd := a.passwd, shadow := a.shadow), a, DefaultNames(u.Type(), cfg), name.value)
  }

  lemma NotPlaced(db: Db, u: UserReq, cfg: Config, env: Env)
    requires u.Type() == Gecos.TYPE_NONE
    ensures !Placed(db, u, cfg, env)
  {
  }

  lemma LinePosition(db: Db, io: Oracle, u: UserReq) returns (i: nat)
    requires WritesSucceed(io)
    ensures i <= |db.passwd| && WriteUser(db, io, Add, u, None).db.passwd == InsertAt(db.passwd, i, PasswdLine(u.pw))
    ensures forall k :: 0 <= k < i ==> db.passwd[k].uid <= u.pw.uid
    ensures (i < |db.passwd| ==> u.pw.uid < db.passwd[i].uid)
  {
    i := First(db.passwd, HitPasswd(Add, u.pw, None));
    assert NextPasswd(Add, db.passwd, u.pw, None) == Some(InsertAt(db.passwd, i, PasswdLine(u.pw)));
  }

  lemma DefaultGroupsJoined(db: Db, u: UserReq, cfg: Config, env: Env)
    requires WritesSucceed(env.io) && GroupsOk(db.group, db.gshadow) && u.pw.name.Some?
    requires GetPwUid(db.passwd, u.pw.uid).Some? && GetPwUid(db.passwd, u.pw.uid).value.name == u.pw.name.value
    ensures Joined(db, SetDefaultGroups(db, u, cfg, env), DefaultNames(u.Type(), cfg), u.pw.name.value)
  {
    hide GroupsOk, GetPwUid;
    AddToGroupsJoins(db, u.pw.uid, DefaultNames(u.Type(), cfg), env, u.pw.name.value);
  }

  lemma FilesAfterAdd(db: Db, p: UserOut, u: UserReq, cfg: Config, env: Env)
    requires WritesSucceed(env.io) && Consistent(p.db) && PreparedAs(db, p, u, cfg, env)
    requires p.db.passwd == db.passwd && p.db.shadow == db.shadow
    requires p.u.pw.name.value !in Keys(db.passwd, PwName) && p.u.pw.uid !in Keys(db.passwd, PwUid)
    ensures var w := WriteUser(p.db, env.io, Add, p.u, None);
      exists i, m :: UserAdded(db, SetDefaultGroups(w.db, p.u, cfg, env), u, cfg, env, i, m)
  {
    hide WriteUser, SetDefaultGroups, GroupSettled, NewPasswd, NewShadow, Joined;
    hide GroupsOk, NameOf, FindFreeUid, GidOf, DefaultNames;
    var w := WriteUser(p.db, env.io, Add, p.u, None);
    WriteUserAdds(p.db, env.io, p.u);
    var i := LinePosition(p.db, env.io, p.u);
    LookedUp(w.db, i, |p.db.shadow|, PasswdLine(p.u.pw), ShadowLine(p.u.sp));
    DefaultGroupsJoined(w.db, p.u, cfg, env);
    JoinedFromEither(w.db, p.db.(passwd := w.db.passwd, shadow := w.db.shadow), SetDefaultGroups(w.db, p.u, cfg, env),
                     DefaultNames(u.Type(), cfg), p.u.pw.name.value);
    assert UserAdded(db, SetDefaultGroups(w.db, p.u, cfg, env), u, cfg, env, i, p.db);
  }

  lemma JoinedFromEither(a: Db, a': Db, b: Db, names: seq<string>, user: string)
    requires SameFiles(a, a') && Joined(a, b, names, user)
    ensures b.passwd == a.passwd && b.shadow == a.shadow && Joined(a', b, names, user)
  {
  }

  /**
   * When a user is added, and what the files hold then. If the home directory cannot be made the add
   * fails and the user stays; if the secret cannot be encrypted a group made for the user stays.
   */
  lemma UserAddExact(db: Db, u: UserReq, cfg: Config, env: Env)
    requires WritesSucceed(env.io) && Consistent(db) && UserReqOk(u)
    ensures var a := UserAdd(db, u, cfg, env, true);
      && (a.ok <==> Placed(db, u, cfg, env) && SecretReady(u, env) && (u.Type() == Gecos.TYPE_SYSTEM || env.homeOk))
      && (a.ok ==> a.u.pw.name == NameOf(u, env.digest) && a.u.pw.gid == GidOf(db, u.Type(), a.u.pw.uid, cfg)
                   && FindFreeUid(db, u.Type(), cfg) == Some(a.u.pw.uid))
      && (if Placed(db, u, cfg, env) && SecretReady(u, env) then exists i, m :: UserAdded(db, a.db, u, cfg, env, i, m)
          else && a.db.passwd == db.passwd && a.db.shadow == db.shadow
               && (a.db == db <==> !Placed(db, u, cfg, env) || GroupThere(db, cfg)))
  {
    hide PrepareUser, WriteUser, DefaultShell, SetDefaultGroups, Placed, SecretReady, GroupThere;
    hide NewPasswd, NewShadow, GroupSettled, UserAdded, GroupsOk;
    if u.Type() == Gecos.TYPE_NONE {
      NotPlaced(db, u, cfg, env);
    } else {
      var v := DefaultShell(u, cfg);
      DefaultShellOk(u, cfg);
      ShellSettled(u, cfg);
      UserPrepared(db, u, cfg, env);
      PrepareUserOk(db, v, cfg, env);
      PrepareUserAgrees(db, v, cfg, env);
      var p := PrepareUser(db, v, cfg, env);
      if p.ok {
        WriteUserAdds(p.db, env.io, p.u);
        FilesAfterAdd(db, p, u, cfg, env);
      }
    }
  }

  // ----- the object afterwards

  /** The name is new and there is a uid. */
  ghost predicate UidFound(db: Db, u: UserReq, cfg: Config, env: Env) {
    var name := NameOf(u, env.digest);
    name.Some? && name.value !in Keys(db.passwd, PwName) && FindFreeUid(db, u.Type(), cfg).Some?
  }

  lemma UidObject(db: Db, u: UserReq, cfg: Config, env: Env)
    requires UserReqOk(u) && u.Type() != Gecos.TYPE_NONE
    ensures var (v, ok) := SetUid(db, u, cfg, env.digest); var name := NameOf(u, env.digest);
      && (ok <==> UidFound(db, u, cfg, env)) && v.sp == u.sp && v.nick == u.nick
      && v.pw == u.pw.(name := if name.Some? then name else u.pw.name, uid := v.pw.uid, dir := v.pw.dir)
      && (if ok
          then v.pw.uid == FindFreeUid(db, u.Type(), cfg).value && v.pw.dir.GetOr("") == HomeOf(u, name.value, cfg)
          else v.pw.uid == u.pw.uid && v.pw.dir == u.pw.dir)
  {
    hide FindFreeUid, SetDaemonUserName, HomeOf;
    UidSettled(db, u, cfg, env);
    RealNameStays(u, env.digest);
  }

  /**
   * What the object holds after an add, whatever it returns and whatever fails: the shell, once it is of a type;
   * the name, once the lock is had; and uid and home directory, once they have been found.
   */
  lemma AddedObject(db: Db, u: UserReq, cfg: Config, env: Env, locked: bool)
    requires UserReqOk(u)
    ensures var v := UserAdd(db, u, cfg, env, locked).u; var name := NameOf(u, env.digest);
      if u.Type() == Gecos.TYPE_NONE then v == u
      else
        && v.pw.shell.GetOr("") == ShellOf(u, cfg) && v.pw.gecos == u.pw.gecos && v.nick == u.nick
        && v.pw.name == (if locked && name.Some? then name else u.pw.name)
        && (if locked && UidFound(db, u, cfg, env)
            then v.pw.uid == FindFreeUid(db, u.Type(), cfg).value && v.pw.dir.GetOr("") == HomeOf(u, name.value, cfg)
            else v.pw.uid == u.pw.uid && v.pw.dir == u.pw.dir && v.pw.gid == u.pw.gid && v.sp == u.sp
                 && v.pw.passwd == u.pw.passwd)
  {
    hide SetUid, SetGroup, WriteUser, SetDefaultGroups, Keys, NameOf, HomeOf, FindFreeUid, ShellOf;
    if u.Type() != Gecos.TYPE_NONE {
      var v := DefaultShell(u, cfg);
      DefaultShellOk(u, cfg);
      ShellSettled(u, cfg);
      SameNames(db, u, v, cfg, env);
      UidObject(db, v, cfg, env);
      SameUidFound(db, u, v, cfg, env);
      var name := NameOf(u, env.digest);
      assert name.Some? ==> HomeOf(v, name.value, cfg) == HomeOf(u, name.value, cfg);
      var w := SetUid(db, v, cfg, env.digest).0;
      SetGroupUsers(db, w, cfg, env);
    }
  }

  lemma SameUidFound(db: Db, u: UserReq, v: UserReq, cfg: Config, env: Env)
    requires v == u.(pw := u.pw.(shell := v.pw.shell))
    ensures UidFound(db, v, cfg, env) <==> UidFound(db, u, cfg, env)
  {
  }
}
