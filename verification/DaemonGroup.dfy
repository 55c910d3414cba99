/** The group object and its operations on the files (src/daemon/core/gumd-daemon-group.c). */
module DaemonGroup {
  import opened Types
  import opened Sequences
  import opened StringUtils
  import opened Validate
  import opened IdAllocation
  import opened Entries
  import opened Locking
  import opened GroupSpec
  import opened Store

  /** An entry can be found only if there is a gshadow file. */
  lemma NeedsGshadow(gshadow: Option<seq<Gshadow>>, name: string)
    ensures GetSgNam(gshadow, name).Some? ==> gshadow.Some?
  {
  }

  class GroupObject {
    const store: AccountStore
    const cfg: Config
    var group: GrReq
    var gshadow: SgReq
    var kind: GroupType

    constructor (store: AccountStore, cfg: Config)
      ensures this.store == store && this.cfg == cfg && View() == FRESH_GROUP
    {
      this.store, this.cfg := store, cfg;
      group, gshadow, kind := FRESH_GROUP.gr, FRESH_GROUP.sg, NoType;
    }

    ghost function View(): GroupReq
      reads this
    {
      GroupReq(group, gshadow, kind)
    }

    // ----- property setters

    method SetNameProperty(value: Option<string>)
      modifies this`group
      ensures group == SetGroupName(old(group), value)
    {
      if value != group.name && ValidName(value) {
        group := group.(name := value);
      }
    }

    method SetSecretProperty(value: Option<string>)
      modifies this`group
      ensures group == SetGroupPasswd(old(group), value)
    {
      if value != group.passwd && ValidDbSecret(value) {
        group := group.(passwd := value);
      }
    }

    // ----- helpers

    /** _find_free_gid */
    method FindFreeId(preferred: Id) returns (gid: Option<Id>)
      requires store.Valid() && GidSearchEnds(store.View(), cfg)
      ensures gid == FindFreeGid(store.View(), kind, preferred, cfg)
    {
      var taken := Keys(store.group.Records().value, GrGid);
      if preferred != INVALID_ID && preferred !in taken {
        return Some(preferred);
      }
      if kind == SystemType {
        gid := IdAllocation.FindFreeId(taken, cfg.sysGidMin, cfg.sysGidMax);
      } else {
        gid := IdAllocation.FindFreeId(taken, cfg.gidMin, cfg.gidMax);
      }
    }

    /** _set_gid */
    method SetId(preferred: Id) returns (ok: bool)
      requires store.Valid() && GidSearchEnds(store.View(), cfg)
      modifies this`group
      ensures var s := SetGid(store.View(), old(View()), preferred, cfg);
        ok == s.Some? && View() == s.GetOr(old(View()))
    {
      if !ValidName(group.name) {
        return false;
      }
      var grp := store.GrNam(group.name.value);
      if grp.Some? {
        return false;
      }
      var gid := FindFreeId(preferred);
      if gid.None? {
        return false;
      }
      group := group.(gid := gid.value);
      return true;
    }

    /** _set_secret */
    method EncryptSecret(encrypted: Option<string>) returns (ok: bool)
      modifies this`group, this`gshadow
      ensures (View(), ok) == SetSecret(old(View()), encrypted)
    {
      gshadow := gshadow.(secret := None);
      if group.passwd.None? {
        gshadow := gshadow.(secret := Some(if kind == SystemType then "*" else "!"));
        group := group.(passwd := Some("x"));
        return true;
      }
      gshadow := gshadow.(secret := encrypted);
      if encrypted.None? {
        return false;
      }
      group := group.(passwd := Some(""));
      SetSecretProperty(Some("x"));
      return true;
    }

    /** _set_gshadow_data */
    method SetShadow(encrypted: Option<string>) returns (ok: bool)
      modifies this`group, this`gshadow
      ensures (View(), ok) == SetGshadowData(old(View()), encrypted)
    {
      gshadow := gshadow.(name := group.name);
      ok := EncryptSecret(encrypted);
      if ok {
        gshadow := gshadow.(mem := group.mem);
      }
    }

    /** _get_group */
    method FindSelf() returns (grp: Option<Group>)
      requires store.Valid()
      ensures grp == GetGroup(store.View().group, group)
    {
      grp := None;
      if group.gid != INVALID_ID {
        grp := store.GrGid(group.gid);
      }
      if group.name.Some? && grp.None? {
        grp := store.GrNam(group.name.value);
      }
      if grp.None? || (group.gid != INVALID_ID && group.gid != grp.value.gid)
         || (group.name.Some? && group.name.value != grp.value.name) {
        return None;
      }
    }

    /** _copy_gshadow_struct into this object. */
    method CopyShadow(src: Option<Gshadow>, fill: bool)
      modifies this`gshadow
      ensures gshadow == CopyGshadow(src, old(gshadow), fill)
    {
      if src.None? {
        return;
      }
      if !fill || gshadow.name.None? { gshadow := gshadow.(name := Some(src.value.name)); }
      if !fill || gshadow.secret.None? { gshadow := gshadow.(secret := Some(src.value.secret)); }
      if !fill || gshadow.adm.None? { gshadow := gshadow.(adm := Some(src.value.adm)); }
      if !fill || gshadow.mem.None? { gshadow := gshadow.(mem := Some(src.value.mem)); }
    }

    /** _copy_group_data with the group entry given. */
    method CopyData(grp: Group, sgrp: Option<Gshadow>)
      requires store.Valid() && (sgrp.None? ==> GetSgNam(store.View().gshadow, grp.name).None?)
      modifies this`group, this`gshadow
      ensures View() == CopyGroupData(old(View()), grp, sgrp)
    {
      var s := sgrp;
      if s.None? {
        s := store.SgNam(grp.name);
      }
      SetNameProperty(Some(grp.name));
      group := group.(gid := grp.gid);
      SetSecretProperty(Some(grp.passwd));
      group := group.(mem := Some(grp.mem));
      CopyShadow(s, false);
    }

    /** _copy_group_data with nothing given. */
    method Load() returns (ok: bool)
      requires store.Valid()
      modifies this`group, this`gshadow
      ensures var s := LoadGroup(store.View(), old(View()));
        ok == s.Some? && View() == s.GetOr(old(View()))
    {
      var grp := FindSelf();
      if grp.None? {
        return false;
      }
      var sgrp := store.SgNam(grp.value.name);
      CopyData(grp.value, sgrp);
      return true;
    }

    /** The fields that an update does not ask for are taken from the files. */
    method Fill(grp: Group, sgrp: Option<Gshadow>)
      modifies this`group, this`gshadow
      ensures View() == FillGroup(old(View()), grp, sgrp)
    {
      CopyShadow(sgrp, true);
      if group.name.None? {
        SetNameProperty(Some(grp.name));
      }
      if group.mem.None? {
        group := group.(mem := Some(grp.mem));
      }
    }

    /** The entries are copied with the user appended to their lists. */
    method InsertMember(grp: Group, sgrp: Option<Gshadow>, user: string, admin: bool)
      requires store.Valid() && sgrp == GetSgNam(store.View().gshadow, grp.name)
      modifies this`group, this`gshadow
      ensures View() == WithMember(old(View()), grp, sgrp, user, admin)
    {
      hide AccountStore.Valid, AccountStore.View, Inside, LockKept, GetSgNam, CopyGroupData, Strv;
      CopyData(grp, sgrp);
      var mem := AppendString(Some(grp.mem), user);
      group := group.(mem := Some(Strv(mem[..])));
      gshadow := gshadow.(mem := group.mem);
      if admin && sgrp.Some? {
        var isAdmin := SearchStringv(Some(sgrp.value.adm), Some(user));
        if !isAdmin {
          var adm := AppendString(Some(sgrp.value.adm), user);
          gshadow := gshadow.(adm := Some(Strv(adm[..])));
        }
      }
    }

    /** The entries are copied with the user deleted from their lists. */
    method RemoveMember(grp: Group, sgrp: Option<Gshadow>, user: string)
      requires store.Valid() && sgrp == GetSgNam(store.View().gshadow, grp.name) && user in grp.mem
      modifies this`group, this`gshadow
      ensures View() == WithoutMember(old(View()), grp, sgrp, user)
    {
      hide AccountStore.Valid, AccountStore.View, Inside, LockKept, GetSgNam, CopyGroupData, Strv;
      CopyData(grp, sgrp);
      var mem := DeleteString(Some(grp.mem), user);
      group := group.(mem := Some(Strv(mem[..])));
      gshadow := gshadow.(mem := group.mem);
      if sgrp.Some? {
        var adm := DeleteString(Some(sgrp.value.adm), user);
        if adm != null {
          gshadow := gshadow.(adm := Some(Strv(adm[..])));
        }
      }
    }

    /** The group file is rewritten, then gshadow if it is wanted and the first went well. */
    method WriteFiles(op: OpType, oldName: Option<string>, wanted: bool, io: Oracle) returns (ok: bool)
      requires store.Valid() && store.lock.count > 0 && (wanted ==> store.View().gshadow.Some?)
      modifies store`tick, store.group, store.gshadow
      ensures store.Valid() && DbOk(store.View(), ok) == WriteBoth(old(store.View()), io, op, View(), oldName, wanted)
    {
      hide AccountStore.Valid, AccountStore.View, NextGroup, NextGshadow, Committed, Outcome;
      ok := store.UpdateGroup(op, group, oldName, io);
      if ok && wanted {
        ok := store.UpdateGshadow(op, gshadow, oldName, io);
      }
    }

    // ----- the operations: each leaves the depth of the lock as it found it, whichever way it returns

    /** gumd_daemon_group_add */
    method AddGroup(preferred: Id, env: Env) returns (ok: bool)
      requires store.Valid() && GidSearchEnds(store.View(), cfg)
      modifies this`group, this`gshadow, store`tick, store.group, store.gshadow, store.lock
      ensures store.Valid() && LockKept(old(store.lock.State()), store.lock.State(), env)
      ensures GroupOut(store.View(), View(), ok)
           == GroupAdd(old(store.View()), old(View()), preferred, cfg, env, old(store.lock.count) > 0 || env.lockOk)
    {
      hide AccountStore.Valid, AccountStore.View, PwdfLock.State, Inside, LockKept, WriteBoth, SetGid, SetGshadowData;
      if kind == NoType {
        Untouched(store.lock.State(), env);
        return false;
      }
      ghost var before := store.lock.State();
      var locked := store.Enter(env);
      if !locked {
        return false;
      }
      ok := SetId(preferred);
      if ok {
        ok := SetShadow(env.encrypted);
      }
      if !ok {
        store.Exit(before, env);
        return;
      }
      var shadowed := store.GshadowExists();
      ok := WriteFiles(Add, None, shadowed, env.io);
      store.Exit(before, env);
    }

    /** gumd_daemon_group_delete */
    method DeleteGroup(env: Env) returns (ok: bool)
      requires store.Valid()
      modifies this`group, this`gshadow, store`tick, store.group, store.gshadow, store.lock
      ensures store.Valid() && LockKept(old(store.lock.State()), store.lock.State(), env)
      ensures GroupOut(store.View(), View(), ok)
           == GroupDelete(old(store.View()), old(View()), env, old(store.lock.count) > 0 || env.lockOk)
    {
      hide AccountStore.Valid, AccountStore.View, PwdfLock.State, Inside, LockKept, WriteBoth, LoadGroup, FindUserByGid;
      ghost var before := store.lock.State();
      var locked := store.Enter(env);
      if !locked {
        return false;
      }
      if group.gid == INVALID_ID {
        store.Exit(before, env);
        return false;
      }
      ok := Load();
      if !ok || group.gid == env.egid {
        store.Exit(before, env);
        return false;
      }
      var user := store.UserByGid(group.gid);
      if user.Some? {
        store.Exit(before, env);
        return true;
      }
      var shadowed := store.GshadowExists();
      ok := WriteFiles(Delete, None, shadowed, env.io);
      store.Exit(before, env);
    }

    /** The part of gumd_daemon_group_update that fills the object and writes the files. */
    method WriteSecret(grp: Group, sgrp: Option<Gshadow>, env: Env) returns (ok: bool)
      requires store.Valid() && store.lock.count > 0
      modifies this`group, this`gshadow, store`tick, store.group, store.gshadow
      ensures store.Valid()
      ensures var (h, encrypted) := SetSecret(FillGroup(old(View()), grp, sgrp), env.encrypted);
        var db := old(store.View());
        && View() == h
        && DbOk(store.View(), ok) == if !encrypted then DbOk(db, false)
                                     else WriteBoth(db, env.io, Modify, h, Some(grp.name), db.gshadow.Some?)
    {
      hide AccountStore.Valid, AccountStore.View, WriteBoth, FillGroup, SetSecret;
      Fill(grp, sgrp);
      ok := EncryptSecret(env.encrypted);
      if ok {
        var shadowed := store.GshadowExists();
        ok := WriteFiles(Modify, Some(grp.name), shadowed, env.io);
      }
    }

    /** gumd_daemon_group_update */
    method UpdateSecret(env: Env) returns (ok: bool)
      requires store.Valid()
      modifies this`group, this`gshadow, store`tick, store.group, store.gshadow, store.lock
      ensures store.Valid() && LockKept(old(store.lock.State()), store.lock.State(), env)
      ensures GroupOut(store.View(), View(), ok)
           == GroupUpdate(old(store.View()), old(View()), env, old(store.lock.count) > 0 || env.lockOk)
    {
      hide AccountStore.Valid, AccountStore.View, PwdfLock.State, Inside, LockKept, WriteBoth;
      hide GetGroup, GetSgNam, FillGroup, SetSecret;
      ghost var before := store.lock.State();
      var locked := store.Enter(env);
      if !locked {
        return false;
      }
      if group.gid == INVALID_ID {
        store.Exit(before, env);
        return false;
      }
      var grp := FindSelf();
      if grp.None? {
        store.Exit(before, env);
        return false;
      }
      var sgrp := store.SgNam(grp.value.name);
      if group.passwd.None? || group.passwd == Some("x") || (sgrp.Some? && env.sameSecret) {
        store.Exit(before, env);
        return false;
      }
      ok := WriteSecret(grp.value, sgrp, env);
      store.Exit(before, env);
    }

    /** gumd_daemon_group_add_member */
    method AddMember(uid: Id, admin: bool, env: Env) returns (ok: bool)
      requires store.Valid()
      modifies this`group, this`gshadow, store`tick, store.group, store.gshadow, store.lock
      ensures store.Valid() && LockKept(old(store.lock.State()), store.lock.State(), env)
      ensures GroupOut(store.View(), View(), ok)
           == GroupAddMember(old(store.View()), old(View()), uid, admin, env, old(store.lock.count) > 0 || env.lockOk)
    {
      hide AccountStore.Valid, AccountStore.View, PwdfLock.State, Inside, LockKept, WriteBoth;
      hide GetGroup, GetPwUid, GetSgNam, WithMember;
      ghost var before := store.lock.State();
      var locked := store.Enter(env);
      if !locked {
        return false;
      }
      var pent := store.PwUid(uid);
      if pent.None? {
        store.Exit(before, env);
        return false;
      }
      var user := pent.value.name;
      var grp := FindSelf();
      if grp.None? {
        store.Exit(before, env);
        return false;
      }
      var isMember := SearchStringv(Some(grp.value.mem), Some(user));
      if isMember {
        store.Exit(before, env);
        return false;
      }
      var sgrp := store.SgNam(grp.value.name);
      NeedsGshadow(store.View().gshadow, grp.value.name);
      InsertMember(grp.value, sgrp, user, admin);
      ok := WriteFiles(Modify, None, sgrp.Some?, env.io);
      store.Exit(before, env);
    }

    /** gumd_daemon_group_delete_member */
    method DeleteMember(uid: Id, env: Env) returns (ok: bool)
      requires store.Valid()
      modifies this`group, this`gshadow, store`tick, store.group, store.gshadow, store.lock
      ensures store.Valid() && LockKept(old(store.lock.State()), store.lock.State(), env)
      ensures GroupOut(store.View(), View(), ok)
           == GroupDeleteMember(old(store.View()), old(View()), uid, env, old(store.lock.count) > 0 || env.lockOk)
    {
      hide AccountStore.Valid, AccountStore.View, PwdfLock.State, Inside, LockKept, WriteBoth;
      hide GetGroup, GetPwUid, GetSgNam, WithoutMember;
      ghost var before := store.lock.State();
      var locked := store.Enter(env);
      if !locked {
        return false;
      }
      var pent := store.PwUid(uid);
      if pent.None? {
        store.Exit(before, env);
        return false;
      }
      var user := pent.value.name;
      var grp := FindSelf();
      if grp.None? {
        store.Exit(before, env);
        return false;
      }
      var isMember := SearchStringv(Some(grp.value.mem), Some(user));
      if !isMember {
        store.Exit(before, env);
        return false;
      }
      var sgrp := store.SgNam(grp.value.name);
      RemoveMember(grp.value, sgrp, user);
      var shadowed := store.GshadowExists();
      ok := WriteFiles(Modify, None, shadowed, env.io);
      store.Exit(before, env);
    }
  }

  /** gumd_daemon_group_delete_user_membership */
  method DeleteUserMembership(store: AccountStore, user: Option<string>, env: Env) returns (ok: bool)
    requires store.Valid()
    modifies store`tick, store.group, store.gshadow, store.lock
    ensures store.Valid() && LockKept(old(store.lock.State()), store.lock.State(), env)
    ensures DbOk(store.View(), ok)
         == DeleteMembership(old(store.View()), user, env, old(store.lock.count) > 0 || env.lockOk)
  {
    hide AccountStore.Valid, AccountStore.View, Inside, LockKept, WriteGshadow, Committed, Outcome;
    hide PurgeGroup, PurgeGshadow;
    if user.None? || !ValidName(user) {
      Untouched(store.lock.State(), env);
      return false;
    }
    ghost var before := store.lock.State();
    var locked := store.Enter(env);
    if !locked {
      return false;
    }
    var started;
    ok, started := store.PurgeGroupFile(user.value, env.io);
    var shadowed := store.GshadowExists();
    if started && shadowed {
      ok := store.PurgeGshadowFile(user.value, env.io);
    }
    store.Exit(before, env);
  }
}
