/** The user object and its operations on the files (src/daemon/core/gumd-daemon-user.c). */
module DaemonUser {
  import opened Types
  import opened Sequences
  import opened StringUtils
  import opened Validate
  import opened IdAllocation
  import opened Entries
  import opened Locking
  import opened GroupSpec
  import opened UserSpec
  import opened Store
  import opened DaemonGroup
  import G = Gecos
  import Loading
  import ShadowLock

  class UserObject {
    const store: AccountStore
    const cfg: Config
    var pw: PwReq
    var shadow: SpReq
    var nick: Option<string>

    constructor (store: AccountStore, cfg: Config)
      ensures this.store == store && this.cfg == cfg && View() == FRESH_USER
    {
      this.store, this.cfg := store, cfg;
      pw, shadow, nick := FRESH_USER.pw, FRESH_USER.sp, None;
    }

    ghost function View(): UserReq
      reads this
    {
      UserReq(pw, shadow, nick)
    }

    function Type(): nat
      reads this
    {
      G.UserType(pw.gecos)
    }

    // ----- property setters

    method SetNameProperty(value: Option<string>)
      modifies this`pw
      ensures pw == SetUserName(old(pw), value)
    {
      if value != pw.name && ValidName(value) {
        pw := pw.(name := value);
      }
    }

    method SetSecretProperty(value: Option<string>)
      modifies this`pw
      ensures pw == SetPasswd(old(pw), value)
    {
      if value != pw.passwd && ValidDbSecret(value) {
        pw := pw.(passwd := value);
      }
    }

    method SetDirProperty(value: Option<string>)
      modifies this`pw
      ensures pw == SetDir(old(pw), value)
    {
      if value != pw.dir && ValidDbString(value) {
        pw := pw.(dir := value);
      }
    }

    method SetShellProperty(value: Option<string>)
      modifies this`pw
      ensures pw == SetShell(old(pw), value)
    {
      if value != pw.shell && ValidDbString(value) {
        pw := pw.(shell := value);
      }
    }

    /** _set_realname_property, _set_office_property, _set_officephone_property and _set_homephone_property */
    method SetTextProperty(field: nat, value: Option<string>)
      modifies this`pw
      ensures pw == old(pw).(gecos := G.SetText(old(pw).gecos, field, value))
    {
      var str := GetString(pw.gecos, field);
      if value != str && ValidDbString(value) {
        var gecos := InsertString(pw.gecos, value, field, G.FIELD_COUNT);
        pw := pw.(gecos := gecos);
      }
    }

    /** _set_usertype_property */
    method SetTypeProperty(value: nat)
      modifies this`pw
      ensures pw == old(pw).(gecos := G.SetType(old(pw).gecos, value))
    {
      if G.TYPE_NONE < value < G.TYPE_MAX_VALUE {
        if Type() != value {
          var gecos := InsertString(pw.gecos, G.TypeToString(value), G.USERTYPE, G.FIELD_COUNT);
          pw := pw.(gecos := gecos);
        }
      }
    }

    // ----- helpers of add

    method SetDefaultShell()
      modifies this`pw
      ensures View() == DefaultShell(old(View()), cfg)
    {
      if pw.shell.None? {
        SetShellProperty(if Type() == G.TYPE_SECURITY then cfg.secShell else cfg.shell);
      }
    }

    /** _set_daemon_user_name */
    method SetName(digest: string) returns (ok: bool)
      modifies this`pw
      ensures var n := SetDaemonUserName(old(View()), digest);
        ok == n.Some? && View() == n.GetOr(old(View()))
    {
      if pw.name.None? && nick.None? {
        return false;
      }
      if pw.name.Some? {
        if !ValidName(pw.name) {
          return false;
        }
      } else {
        if Type() == G.TYPE_SYSTEM {
          return false;
        }
        var name := GenerateUsername(nick, digest);
        if name.None? {
          return false;
        }
        SetNameProperty(name);
      }
      if GetString(pw.gecos, 0).None? {
        SetTextProperty(0, pw.name);
      }
      return true;
    }

    /** _find_free_uid */
    method FindFreeId() returns (uid: Option<Id>)
      requires store.Valid() && UidSearchEnds(store.View(), cfg)
      ensures uid == FindFreeUid(store.View(), Type(), cfg)
    {
      var taken := Keys(store.passwd.Records().value, PwUid);
      if Type() == G.TYPE_SYSTEM {
        uid := IdAllocation.FindFreeId(taken, cfg.sysUidMin, cfg.sysUidMax);
      } else if Type() == G.TYPE_SECURITY {
        uid := IdAllocation.FindFreeId(taken, cfg.secUidMin, cfg.secUidMax);
      } else {
        uid := IdAllocation.FindFreeId(taken, cfg.uidMin, cfg.uidMax);
      }
    }

    /** _set_uid */
    method SetId(digest: string) returns (ok: bool)
      requires store.Valid() && UidSearchEnds(store.View(), cfg)
      modifies this`pw
      ensures (View(), ok) == SetUid(store.View(), old(View()), cfg, digest)
    {
      hide AccountStore.Valid, AccountStore.View, Inside, LockKept, SetDaemonUserName, FindFreeUid, GetPwNam, SetDir;
      ok := SetName(digest);
      if !ok {
        return;
      }
      if pw.name.None? {
        return false;
      }
      var pent := store.PwNam(pw.name.value);
      if pent.Some? {
        return false;
      }
      var uid := FindFreeId();
      if uid.None? {
        return false;
      }
      pw := pw.(uid := uid.value);
      if Type() != G.TYPE_SYSTEM {
        SetDirProperty(Some(cfg.homePrefix + "/" + pw.name.value));
      }
      return true;
    }

    /** _set_group */
    method SetPrimaryGroup(env: Env) returns (ok: bool)
      requires store.Valid() && store.lock.count > 0 && GidSearchEnds(store.View(), cfg)
      modifies this`pw, store`tick, store.group, store.gshadow, store.lock
      ensures store.Valid() && LockKept(old(store.lock.State()), store.lock.State(), env)
      ensures UserOut(store.View(), View(), ok) == SetGroup(old(store.View()), old(View()), cfg, env)
    {
      hide AccountStore.Valid, AccountStore.View, Inside, GroupAdd, GetGrNam, GidSearchEnds;
      var group := new GroupObject(store, cfg);
      var grp := None;
      if cfg.primaryGroup.Some? {
        grp := store.GrNam(cfg.primaryGroup.value);
      }
      if grp.Some? {
        pw := pw.(gid := grp.value.gid);
        return true;
      }
      group.SetNameProperty(if cfg.primaryGroup.Some? then cfg.primaryGroup else pw.name);
      group.kind := if Type() == G.TYPE_SYSTEM then SystemType else UserType;
      ok := group.AddGroup(pw.uid, env);
      if ok {
        pw := pw.(gid := group.group.gid);
      }
    }

    /** _set_secret */
    method EncryptSecret(encrypted: Option<string>) returns (ok: bool)
      modifies this`pw, this`shadow
      ensures (View(), ok) == SetUserSecret(old(View()), encrypted)
    {
      shadow := shadow.(secret := None);
      if pw.passwd.None? {
        shadow := shadow.(secret :=
          Some(if Type() == G.TYPE_SYSTEM then "*" else if Type() == G.TYPE_GUEST then "" else "!"));
        SetSecretProperty(Some("x"));
        return true;
      }
      shadow := shadow.(secret := encrypted);
      if encrypted.None? {
        return false;
      }
      pw := pw.(passwd := Some(""));
      SetSecretProperty(Some("x"));
      return true;
    }

    /** _set_shadow_data */
    method SetShadow(env: Env) returns (ok: bool)
      modifies this`pw, this`shadow
      ensures (View(), ok) == SetShadowData(old(View()), env)
    {
      shadow := shadow.(name := pw.name);
      ok := EncryptSecret(env.encrypted);
      if ok {
        shadow := shadow.(ageing := env.ageing);
      }
    }

    /** _set_uid, _set_group and _set_shadow_data */
    method Prepare(env: Env) returns (ok: bool)
      requires store.Valid() && store.lock.count > 0
      requires UidSearchEnds(store.View(), cfg) && GidSearchEnds(store.View(), cfg)
      modifies this`pw, this`shadow, store`tick, store.group, store.gshadow, store.lock
      ensures store.Valid() && LockKept(old(store.lock.State()), store.lock.State(), env)
      ensures UserOut(store.View(), View(), ok) == PrepareUser(old(store.View()), old(View()), cfg, env)
    {
      hide AccountStore.Valid, AccountStore.View, Inside, SetUid, SetGroup, SetShadowData, UidSearchEnds, GidSearchEnds;
      ok := SetId(env.digest);
      if ok {
        ok := SetPrimaryGroup(env);
        if ok {
          ok := SetShadow(env);
        }
      }
    }

    /** The user becomes a member of one group, if there is one of that name; a failure is only logged. */
    method JoinGroup(name: string, env: Env)
      requires store.Valid()
      modifies store`tick, store.group, store.gshadow, store.lock
      ensures store.Valid() && LockKept(old(store.lock.State()), store.lock.State(), env)
      ensures var g := FRESH_GROUP.(gr := SetGroupName(FRESH_GROUP.gr, Some(name)));
        var locked := old(store.lock.count) > 0 || env.lockOk;
        store.View() == GroupAddMember(old(store.View()), g, pw.uid, false, env, locked).db
    {
      hide AccountStore.Valid, AccountStore.View, Inside, LockKept, GroupAddMember, SetGroupName;
      var group := new GroupObject(store, cfg);
      group.SetNameProperty(Some(name));
      var added := group.AddMember(pw.uid, false, env);
    }

    /** _set_default_groups */
    method JoinDefaultGroups(env: Env)
      requires store.Valid() && store.lock.count > 0
      modifies store`tick, store.group, store.gshadow, store.lock
      ensures store.Valid() && LockKept(old(store.lock.State()), store.lock.State(), env)
      ensures store.View() == SetDefaultGroups(old(store.View()), View(), cfg, env)
    {
      hide AccountStore.Valid, AccountStore.View, Inside, LockKept, GroupAddMember, SetGroupName, G.UserType;
      Untouched(store.lock.State(), env);
      if Type() == G.TYPE_SYSTEM {
        return;
      }
      var names := Split(if Type() == G.TYPE_ADMIN then cfg.defAdminGroups else cfg.defGroups);
      var ind := 0;
      while ind < |names|
        invariant 0 <= ind <= |names|
        invariant store.Valid() && store.lock.count > 0
        invariant LockKept(old(store.lock.State()), store.lock.State(), env)
        invariant AddToGroups(store.View(), pw.uid, names[ind..], env)
               == AddToGroups(old(store.View()), pw.uid, names, env)
      {
        assert names[ind..][1..] == names[ind + 1..];
        ghost var before := store.lock.State();
        JoinGroup(names[ind], env);
        KeptAgain(old(store.lock.State()), before, store.lock.State(), env);
        ind := ind + 1;
      }
    }

    /** The passwd file is rewritten, then shadow if the first went well. */
    method WriteFiles(op: OpType, oldName: Option<string>, io: Oracle) returns (ok: bool)
      requires store.Valid() && store.lock.count > 0
      modifies store`tick, store.passwd, store.shadow
      ensures store.Valid() && DbOk(store.View(), ok) == WriteUser(old(store.View()), io, op, View(), oldName)
    {
      hide AccountStore.Valid, AccountStore.View, Inside, LockKept, NextPasswd, NextShadow, Committed, Outcome;
      ok := store.UpdatePasswd(op, pw, oldName, io);
      if ok {
        ok := store.UpdateShadow(op, shadow, oldName, io);
      }
    }

    // ----- helpers of delete and update

    /** _get_passwd */
    method FindSelf() returns (pent: Option<Passwd>)
      requires store.Valid()
      ensures pent == GetPasswd(store.View().passwd, pw)
    {
      hide AccountStore.Valid, AccountStore.View, Inside, LockKept, GetPwUid, GetPwNam;
      pent := None;
      if pw.uid != INVALID_ID {
        pent := store.PwUid(pw.uid);
      }
      if pw.name.Some? && pent.None? {
        pent := store.PwNam(pw.name.value);
      }
      if pent.None? || (pw.uid != INVALID_ID && pw.uid != pent.value.uid)
         || (pw.name.Some? && pw.name.value != pent.value.name) {
        return None;
      }
    }

    /** _copy_passwd_struct into this object. */
    method CopyPw(src: Passwd)
      modifies this`pw
      ensures pw == CopyPasswd(src, old(pw))
    {
      hide G.SetText, G.SetType;
      SetNameProperty(Some(src.name));
      SetSecretProperty(Some(src.passwd));
      pw := pw.(uid := src.uid);
      pw := pw.(gid := src.gid);
      SetTextProperty(0, GetString(Some(src.gecos), 0));
      SetTextProperty(1, GetString(Some(src.gecos), 1));
      SetTextProperty(2, GetString(Some(src.gecos), 2));
      SetTextProperty(3, GetString(Some(src.gecos), 3));
      SetTypeProperty(G.UserType(Some(src.gecos)));
      SetDirProperty(Some(src.dir));
      SetShellProperty(Some(src.shell));
    }

    /** _copy_shadow_struct into this object. */
    method CopySp(src: Shadow, fill: bool)
      modifies this`shadow
      ensures shadow == CopyShadow(src, old(shadow), fill)
    {
      if !fill || shadow.name.None? { shadow := shadow.(name := Some(src.name)); }
      if !fill || shadow.secret.None? { shadow := shadow.(secret := Some(src.secret)); }
      shadow := shadow.(ageing := src.ageing);
    }

    /** _copy_passwd_data */
    method Load() returns (ok: bool)
      requires store.Valid()
      modifies this`pw, this`shadow
      ensures var s := LoadUser(store.View(), old(View()));
        ok == s.Some? && View() == s.GetOr(old(View()))
    {
      hide AccountStore.Valid, AccountStore.View, Inside, LockKept, GetPasswd, GetSpNam, CopyPasswd, CopyShadow;
      var pent := FindSelf();
      if pent.None? {
        return false;
      }
      var spent := store.SpNam(pent.value.name);
      if spent.None? {
        return false;
      }
      CopyPw(pent.value);
      CopySp(spent.value, false);
      return true;
    }

    /** _delete_group, then gumd_daemon_group_delete_user_membership */
    method Leave(env: Env) returns (ok: bool)
      requires store.Valid() && store.lock.count > 0
      modifies store`tick, store.group, store.gshadow, store.lock
      ensures store.Valid() && LockKept(old(store.lock.State()), store.lock.State(), env)
      ensures DbOk(store.View(), ok) == LeaveGroups(old(store.View()), View(), env)
    {
      hide AccountStore.Valid, AccountStore.View, Inside, GroupDelete, DeleteMembership;
      var group := new GroupObject(store, cfg);
      group.group := group.group.(gid := pw.gid);
      ok := group.DeleteGroup(env);
      if ok {
        ok := DeleteUserMembership(store, pw.name, env);
      }
    }

    /** _update_gecos_field */
    method UpdateField(src: string, field: nat)
      modifies this`pw
      ensures pw == old(pw).(gecos := G.UpdateField(old(pw).gecos, Some(src), field))
    {
      var str := GetString(pw.gecos, field);
      if str.Some? && |str.value| > 0 {
        return;
      }
      if field == G.USERTYPE {
        SetTypeProperty(G.TypeFromString(GetString(Some(src), field)));
      } else {
        SetTextProperty(field, GetString(Some(src), field));
      }
    }

    /** The fields that an update does not ask for are taken from the files. */
    method Fill(pent: Passwd, spent: Shadow)
      modifies this`pw, this`shadow
      ensures View() == FillUser(old(View()), pent, spent)
    {
      hide G.UpdateField, CopyShadow;
      CopySp(spent, true);
      SetNameProperty(Some(pent.name));
      pw := pw.(uid := pent.uid);
      pw := pw.(gid := pent.gid);
      SetDirProperty(Some(pent.dir));
      UpdateField(pent.gecos, 0);
      UpdateField(pent.gecos, 1);
      UpdateField(pent.gecos, 2);
      UpdateField(pent.gecos, 3);
      UpdateField(pent.gecos, G.USERTYPE);
    }

    /** The part of gumd_daemon_user_update that counts the changes. */
    method Decide(pent: Passwd, spent: Shadow, env: Env) returns (write: bool)
      modifies this`pw, this`shadow
      ensures (View(), write) == DecideUpdate(old(View()), pent, spent, env)
    {
      hide FillUser, SetUserSecret;
      var change := if env.iconChanged then 1 else 0;
      Fill(pent, spent);
      if pw.passwd.Some? && pw.passwd != Some("x") && !env.sameSecret {
        change := change + 1;
        var ok := EncryptSecret(env.encrypted);
        if !ok {
          return false;
        }
      } else {
        SetSecretProperty(Some(pent.passwd));
      }
      if pw.gecos.Some? && pw.gecos.value != pent.gecos {
        if GetString(pw.gecos, G.USERTYPE) != GetString(Some(pent.gecos), G.USERTYPE) {
          return false;
        }
        change := change + 1;
      }
      if pw.shell.Some? && pw.shell.value != pent.shell {
        change := change + 1;
      }
      return change != 0;
    }

    // ----- the operations: each leaves the depth of the lock as it found it, whichever way it returns

    /** gumd_daemon_user_add */
    method AddUser(env: Env) returns (ok: bool)
      requires store.Valid() && UidSearchEnds(store.View(), cfg) && GidSearchEnds(store.View(), cfg)
      modifies this`pw, this`shadow, store`tick, store.passwd, store.shadow, store.group, store.gshadow, store.lock
      ensures store.Valid() && LockKept(old(store.lock.State()), store.lock.State(), env)
      ensures UserOut(store.View(), View(), ok)
           == UserAdd(old(store.View()), old(View()), cfg, env, old(store.lock.count) > 0 || env.lockOk)
    {
      hide AccountStore.Valid, AccountStore.View, Inside, LockKept, PrepareUser, WriteUser, SetDefaultGroups;
      hide UidSearchEnds, GidSearchEnds, DefaultShell, G.UserType;
      if Type() == G.TYPE_NONE {
        Untouched(store.lock.State(), env);
        return false;
      }
      SetDefaultShell();
      ghost var before := store.lock.State();
      var locked := store.Enter(env);
      if !locked {
        return false;
      }
      ghost var inside := store.lock.State();
      ok := Prepare(env);
      StillInside(before, inside, store.lock.State(), env);
      if !ok {
        store.Exit(before, env);
        return;
      }
      ok := WriteFiles(Add, None, env.io);
      if !ok {
        store.Exit(before, env);
        return;
      }
      inside := store.lock.State();
      JoinDefaultGroups(env);
      StillInside(before, inside, store.lock.State(), env);
      ok := Type() == G.TYPE_SYSTEM || env.homeOk;
      store.Exit(before, env);
    }

    /** The part of gumd_daemon_user_delete once the user is loaded and is not the daemon's own. */
    method Remove(removeHome: bool, env: Env) returns (ok: bool)
      requires store.Valid() && store.lock.count > 0
      modifies this`pw, this`shadow, store`tick, store.passwd, store.shadow, store.group, store.gshadow, store.lock
      ensures store.Valid() && LockKept(old(store.lock.State()), store.lock.State(), env)
      ensures UserOut(store.View(), View(), ok) == RemoveUser(old(store.View()), old(View()), removeHome, env)
    {
      hide AccountStore.Valid, AccountStore.View, PwdfLock.State, Inside, LockKept, ShadowLock.Relocked;
      hide WriteShadow, NextLocked, Outcome, WriteUser, LeaveGroups;
      Untouched(store.lock.State(), env);
      ok := store.LockShadow(pw.name, true, env.io);
      if !ok {
        return;
      }
      if !env.terminated {
        var _ := store.LockShadow(pw.name, false, env.io);
        return false;
      }
      ok := WriteFiles(Delete, None, env.io);
      if !ok {
        var _ := store.LockShadow(pw.name, false, env.io);
        return;
      }
      ok := Leave(env);
      if ok && removeHome && Type() != G.TYPE_SYSTEM {
        ok := env.homeOk;
      }
    }

    /** gumd_daemon_user_delete */
    method DeleteUser(removeHome: bool, env: Env) returns (ok: bool)
      requires store.Valid()
      modifies this`pw, this`shadow, store`tick, store.passwd, store.shadow, store.group, store.gshadow, store.lock
      ensures store.Valid() && LockKept(old(store.lock.State()), store.lock.State(), env)
      ensures UserOut(store.View(), View(), ok)
           == UserDelete(old(store.View()), old(View()), removeHome, env, old(store.lock.count) > 0 || env.lockOk)
    {
      hide AccountStore.Valid, AccountStore.View, PwdfLock.State, Inside, LockKept, LoadUser, RemoveUser;
      ghost var before := store.lock.State();
      var locked := store.Enter(env);
      if !locked {
        return false;
      }
      if pw.uid == INVALID_ID {
        store.Exit(before, env);
        return false;
      }
      ok := Load();
      if !ok || pw.uid == env.euid {
        store.Exit(before, env);
        return false;
      }
      ghost var inside := store.lock.State();
      ok := Remove(removeHome, env);
      StillInside(before, inside, store.lock.State(), env);
      store.Exit(before, env);
    }

    /** gumd_daemon_user_update */
    method UpdateUser(env: Env) returns (ok: bool)
      requires store.Valid()
      modifies this`pw, this`shadow, store`tick, store.passwd, store.shadow, store.lock
      ensures store.Valid() && LockKept(old(store.lock.State()), store.lock.State(), env)
      ensures UserOut(store.View(), View(), ok)
           == UserUpdate(old(store.View()), old(View()), env, old(store.lock.count) > 0 || env.lockOk)
    {
      hide AccountStore.Valid, AccountStore.View, Inside, LockKept, GetPasswd, GetSpNam, DecideUpdate, WriteUser;
      ghost var before := store.lock.State();
      var locked := store.Enter(env);
      if !locked {
        return false;
      }
      if pw.uid == INVALID_ID {
        store.Exit(before, env);
        return false;
      }
      var pent := FindSelf();
      if pent.None? {
        store.Exit(before, env);
        return false;
      }
      var spent := store.SpNam(pent.value.name);
      if spent.None? {
        store.Exit(before, env);
        return false;
      }
      var write := Decide(pent.value, spent.value, env);
      if !write {
        store.Exit(before, env);
        return false;
      }
      ok := WriteFiles(Modify, Some(pent.value.name), env.io);
      store.Exit(before, env);
    }
  }

  /** gumd_daemon_user_new_by_uid: the object is dropped if it cannot be loaded. */
  method NewUserByUid(store: AccountStore, cfg: Config, uid: Id, env: Env) returns (user: UserObject?)
    requires store.Valid()
    modifies store.lock
    ensures store.Valid() && store.View() == old(store.View())
    ensures LockKept(old(store.lock.State()), store.lock.State(), env)
    ensures var s := LoadUser(store.View(), FRESH_USER.(pw := FRESH_USER.pw.(uid := uid)));
      && (user != null <==> (old(store.lock.count) > 0 || env.lockOk) && s.Some?)
      && (user != null ==> fresh(user) && user.store == store && user.cfg == cfg && user.View() == s.value)
    ensures user != null ==> Loading.LoadedByUid(store.View(), uid, user.View())
  {
    hide AccountStore.Valid, AccountStore.View, Inside, LockKept, LoadUser, Loading.LoadedByUid;
    Loading.FreshByUid(store.View(), uid);
    ghost var before := store.lock.State();
    var locked := store.Enter(env);
    if !locked {
      return null;
    }
    user := new UserObject(store, cfg);
    user.pw := user.pw.(uid := uid);
    var ok := user.Load();
    store.Exit(before, env);
    if !ok {
      user := null;
    }
  }

  /** gumd_daemon_user_new_by_name */
  method NewUserByName(store: AccountStore, cfg: Config, name: string, env: Env) returns (user: UserObject?)
    requires store.Valid()
    modifies store.lock
    ensures store.Valid() && store.View() == old(store.View())
    ensures LockKept(old(store.lock.State()), store.lock.State(), env)
    ensures var s := LoadUser(store.View(), FRESH_USER.(pw := SetUserName(FRESH_USER.pw, Some(name))));
      && (user != null <==> (old(store.lock.count) > 0 || env.lockOk) && s.Some?)
      && (user != null ==> fresh(user) && user.store == store && user.cfg == cfg && user.View() == s.value)
    ensures user != null ==> Loading.LoadedByName(store.View(), name, user.View())
  {
    hide AccountStore.Valid, AccountStore.View, Inside, LockKept, LoadUser, Loading.LoadedByName;
    Loading.FreshByName(store.View(), name);
    ghost var before := store.lock.State();
    var locked := store.Enter(env);
    if !locked {
      return null;
    }
    user := new UserObject(store, cfg);
    user.SetNameProperty(Some(name));
    var ok := user.Load();
    store.Exit(before, env);
    if !ok {
      user := null;
    }
  }
}
