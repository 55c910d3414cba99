/** Adding a user and deleting it again: what comes back, and exactly when everything does. */
module RoundTrips {
  import opened Types
  import opened Sequences
  import opened StringUtils
  import opened Validate
  import opened Entries
  import opened GroupSpec
  import opened UserSpec
  import opened GroupAgreement
  import opened UserConsistency
  import opened UserTheorems
  import opened GroupTheorems
  import opened UserAddTheorems

  // ----- joining groups and leaving them

  /** What joining the named groups and then leaving all groups makes of an entry. */
  function Through(names: seq<string>, user: string): Group -> Group {
    (e: Group) => PurgeGroup(user)(Joins(names, user)(e))
  }

  function ThroughShadow(names: seq<string>, user: string): Gshadow -> Gshadow {
    (e: Gshadow) => PurgeGshadow(user)(JoinsShadow(names, user)(e))
  }

  /** An entry comes out as it was exactly when it did not list the user and its password field is copied faithfully. */
  lemma GroupComesBack(names: seq<string>, user: string, e: Group)
    ensures Through(names, user)(e) == e <==>
      user !in e.mem && (e.name in names ==> ValidDbSecret(Some(e.passwd)))
  {
    var j := Joins(names, user)(e);
    var r := PurgeGroup(user)(j);
    assert Through(names, user)(e) == r;
    if user in e.mem {
      assert user !in r.mem;
    } else {
      DeleteUndoesAppend(e.mem, user);
      assert r.mem == e.mem;
    }
  }

  lemma GshadowComesBack(names: seq<string>, user: string, e: Gshadow)
    ensures ThroughShadow(names, user)(e) == e <==> user !in e.mem && user !in e.adm
  {
    var j := JoinsShadow(names, user)(e);
    var r := PurgeGshadow(user)(j);
    assert ThroughShadow(names, user)(e) == r;
    if user in e.mem || user in e.adm {
      assert user !in r.mem && user !in r.adm;
    } else {
      DeleteUndoesAppend(e.mem, user);
      assert r.mem == e.mem;
    }
  }

  /** The groups that the user joins have password fields that a fresh object takes over. */
  ghost predicate Copied(group: seq<Group>, names: seq<string>) {
    forall i :: 0 <= i < |group| && group[i].name in names ==> ValidDbSecret(Some(group[i].passwd))
  }

  lemma FilesComeBack(db: Db, names: seq<string>, user: string)
    ensures MapEntries(db.group, Through(names, user)) == db.group
         && MapShadow(db.gshadow, ThroughShadow(names, user)) == db.gshadow
         <==> NowhereListed(db, user) && Copied(db.group, names)
  {
    hide ValidDbSecret;
    var r := MapEntries(db.group, Through(names, user));
    forall i | 0 <= i < |db.group|
      ensures r[i] == db.group[i] <==>
        user !in db.group[i].mem && (db.group[i].name in names ==> ValidDbSecret(Some(db.group[i].passwd)))
    {
      GroupComesBack(names, user, db.group[i]);
    }
    assert r == db.group <==> forall i :: 0 <= i < |db.group| ==> r[i] == db.group[i];
    if db.gshadow.Some? {
      var s, t := db.gshadow.value, MapEntries(db.gshadow.value, ThroughShadow(names, user));
      forall j | 0 <= j < |s| ensures t[j] == s[j] <==> user !in s[j].mem && user !in s[j].adm {
        GshadowComesBack(names, user, s[j]);
      }
      assert t == s <==> forall j :: 0 <= j < |s| ==> t[j] == s[j];
    }
  }

  // ----- the group files after an add and a delete

  lemma RemoveInserted<R>(s: seq<R>, i: nat, x: R)
    requires i <= |s|
    ensures RemoveAt(InsertAt(s, i, x), i) == s
    ensures RemoveAt(s + [x], |s|) == s
  {
    assert InsertAt(s, i, x)[..i] == s[..i] && InsertAt(s, i, x)[i + 1..] == s[i..];
  }

  lemma MapRemoved<R>(s: seq<R>, edit: R -> R, i: nat)
    requires i < |s|
    ensures RemoveAt(MapEntries(s, edit), i) == MapEntries(RemoveAt(s, i), edit)
  {
  }

  /** The position of a unique key. */
  lemma OnePosition<R, K>(s: seq<R>, key: R -> K, i: nat, j: nat)
    requires Distinct(s, key) && i < |s| && j < |s| && key(s[i]) == key(s[j])
    ensures i == j
  {
  }

  /** A group that was made for the user, and that goes with the user, leaves the groups that were there before. */
  lemma NewGroupGone(db: Db, m: Db, a: Db, l: Db, g: GroupReq, gid: Id, k: nat, encrypted: Option<string>,
                     names: seq<string>, user: string, i: nat, j: nat)
    requires GroupAdded(db, m, g, gid, k, encrypted)
    requires Joined(m.(passwd := a.passwd, shadow := a.shadow), a, names, user)
    requires GroupsOk(a.group, a.gshadow) && GoneFrom(a, l, gid, i, j)
    ensures l.group == MapEntries(db.group, Joins(names, user))
    ensures l.gshadow == MapShadow(db.gshadow, JoinsShadow(names, user))
  {
    hide Joins, JoinsShadow, MembersAgree;
    var x, y := m.group[k], NewGshadow(g, encrypted);
    JoinsKeepsNames(names, user, x, y);
    OnePosition(a.group, GrGid, i, k);
    MapRemoved(m.group, Joins(names, user), k);
    RemoveInserted(db.group, k, x);
    if db.gshadow.Some? {
      var n := |db.gshadow.value|;
      assert m.gshadow.value[n] == y;
      OnePosition(a.gshadow.value, SgName, j, n);
      MapRemoved(m.gshadow.value, JoinsShadow(names, user), n);
      RemoveInserted(db.gshadow.value, 0, y);
    }
  }

  lemma JoinsKeepsNames(names: seq<string>, user: string, e: Group, s: Gshadow)
    ensures Joins(names, user)(e).name == e.name && Joins(names, user)(e).gid == e.gid
    ensures JoinsShadow(names, user)(s).name == s.name
  {
  }

  /** What the name, the gid and the groups that are joined have to be for all groups to come back. */
  ghost predicate ComesBack(db: Db, name: string, gid: Id, names: seq<string>) {
    && NowhereListed(db, name) && Copied(db.group, names)
    && (gid in Keys(db.group, GrGid) <==> gid in Keys(db.passwd, PwGid))
  }

  /** The groups that are left, when the primary group was there before the add. */
  lemma OldGroupComesBack(db: Db, a: Db, d: Db, name: string, gid: Id, names: seq<string>)
    requires Joined(db.(passwd := a.passwd, shadow := a.shadow), a, names, name)
    requires a.passwd == db.passwd && gid in Keys(db.group, GrGid) && Left(a, d, name, gid)
    ensures SameGroups(db, d) <==> ComesBack(db, name, gid, names)
  {
    hide NowhereListed, Copied, Joins, JoinsShadow, PurgeGroup, PurgeGshadow, Keys;
    var l: Db :| DeletedGroup(a, l, gid) && Purged(l, d, name);
    if gid in Keys(a.passwd, PwGid) {
      PurgedThrough(db, l, d, names, name);
      FilesComeBack(db, names, name);
    } else {
      var i: nat, j: nat :| GoneFrom(a, l, gid, i, j);
      assert |d.group| == |db.group| - 1;
    }
  }

  /** The groups that are left, when the primary group was made for the user. */
  lemma NewGroupComesBack(db: Db, m: Db, a: Db, d: Db, g: GroupReq, name: string, gid: Id, k: nat,
                          encrypted: Option<string>, names: seq<string>)
    requires GroupAdded(db, m, g, gid, k, encrypted)
    requires Joined(m.(passwd := a.passwd, shadow := a.shadow), a, names, name)
    requires GroupsOk(a.group, a.gshadow) && a.passwd == db.passwd && Left(a, d, name, gid)
    ensures SameGroups(db, d) <==> ComesBack(db, name, gid, names)
  {
    hide GroupsOk, NowhereListed, Copied, Joins, JoinsShadow, PurgeGroup, PurgeGshadow, Keys;
    var l: Db :| DeletedGroup(a, l, gid) && Purged(l, d, name);
    if gid in Keys(a.passwd, PwGid) {
      assert |d.group| == |db.group| + 1;
    } else {
      var i: nat, j: nat :| GoneFrom(a, l, gid, i, j);
      NewGroupGone(db, m, a, l, g, gid, k, encrypted, names, name, i, j);
      PurgedThrough(db, l, d, names, name);
      FilesComeBack(db, names, name);
    }
  }

  lemma GroupsComeBack(db: Db, m: Db, a: Db, d: Db, userType: nat, name: string, uid: Id, cfg: Config,
                       encrypted: Option<string>, names: seq<string>)
    requires GroupsOk(a.group, a.gshadow) && a.passwd == db.passwd
    requires var gid := GidOf(db, userType, uid, cfg);
      GroupSettled(db, m, userType, name, gid, cfg, encrypted) && Left(a, d, name, gid)
    requires Joined(m.(passwd := a.passwd, shadow := a.shadow), a, names, name)
    ensures SameGroups(db, d) <==> ComesBack(db, name, GidOf(db, userType, uid, cfg), names)
  {
    hide GroupsOk, ComesBack, Joined, GidOf, Left, GroupAdded;
    var gid := GidOf(db, userType, uid, cfg);
    if GroupThere(db, cfg) {
      ThereIsGid(db, userType, uid, cfg);
      OldGroupComesBack(db, a, d, name, gid, names);
    } else {
      var g := NewGroup(userType, name, cfg);
      var k: nat :| GroupAdded(db, m, g, gid, k, encrypted);
      NewGroupComesBack(db, m, a, d, g, name, gid, k, encrypted, names);
    }
  }

  lemma ThereIsGid(db: Db, userType: nat, uid: Id, cfg: Config)
    requires GroupThere(db, cfg)
    ensures GidOf(db, userType, uid, cfg) in Keys(db.group, GrGid)
  {
    NameLookup(db.group, cfg.primaryGroup.value);
    var e := GetGrNam(db.group, cfg.primaryGroup.value).value;
    var i :| 0 <= i < |db.group| && db.group[i] == e;
    KeyIn(db.group, GrGid, i);
  }

  lemma PurgedThrough(db: Db, l: Db, d: Db, names: seq<string>, user: string)
    requires Purged(l, d, user)
    requires l.group == MapEntries(db.group, Joins(names, user))
    requires l.gshadow == MapShadow(db.gshadow, JoinsShadow(names, user))
    ensures d.group == MapEntries(db.group, Through(names, user))
    ensures d.gshadow == MapShadow(db.gshadow, ThroughShadow(names, user))
  {
    hide Joins, JoinsShadow, PurgeGroup, PurgeGshadow;
    assert d.group == MapEntries(db.group, Through(names, user));
    if db.gshadow.Some? {
      assert d.gshadow.value == MapEntries(db.gshadow.value, ThroughShadow(names, user));
    }
  }

  // ----- the whole round trip

  /** Deleting from passwd and shadow what was added restores both. */
  lemma LinesComeBack(db: Db, a: Db, d: Db, u: UserReq, i: nat, pw: Passwd, sp: Shadow, i': nat, j': nat)
    requires UsersAgree(a.passwd, a.shadow) && i <= |db.passwd| && sp.name == pw.name
    requires a.passwd == InsertAt(db.passwd, i, pw) && a.shadow == db.shadow + [sp]
    requires UserGone(a, d, u, i', j') && u.pw.uid == pw.uid
    ensures d.passwd == db.passwd && d.shadow == db.shadow && u.pw.name == Some(pw.name) && u.pw.gid == pw.gid
  {
    assert a.passwd[i] == pw;
    OnePosition(a.passwd, PwUid, i, i');
    OnePosition(a.shadow, SpName, |db.shadow|, j');
    RemoveInserted(db.passwd, i, pw);
    RemoveInserted(db.shadow, 0, sp);
  }

  /**
   * Deleting a user who was just added restores passwd and shadow. It restores group and gshadow as
   * well exactly when the name was in no list before the add, the default groups have password fields
   * that are copied faithfully, and the user's primary group existed before if and only if it is the
   * primary group of some other user.
   */
  lemma AddThenDelete(db: Db, u: UserReq, cfg: Config, removeHome: bool, env: Env, env': Env)
    requires WritesSucceed(env.io) && WritesSucceed(env'.io) && Consistent(db) && UserReqOk(u)
    ensures var a := UserAdd(db, u, cfg, env, true);
      var d := UserDelete(a.db, a.u, removeHome, env', true);
      a.ok && d.ok ==>
        && d.db.passwd == db.passwd && d.db.shadow == db.shadow && a.u.pw.name.Some?
        && (SameFiles(db, d.db) <==>
              && NowhereListed(db, a.u.pw.name.value)
              && Copied(db.group, DefaultNames(u.Type(), cfg))
              && (a.u.pw.gid in Keys(db.group, GrGid) <==> a.u.pw.gid in Keys(db.passwd, PwGid)))
  {
    hide UserAdd, UserDelete, Left, NowhereListed, Placed, SecretReady, GroupSettled, Joined;
    var a := UserAdd(db, u, cfg, env, true);
    var d := UserDelete(a.db, a.u, removeHome, env', true);
    if a.ok && d.ok {
      UserAddConsistent(db, u, cfg, env, true);
      UserAddExact(db, u, cfg, env);
      UserDeleteExact(a.db, a.u, removeHome, env', true);
      var i: nat, m: Db :| UserAdded(db, a.db, u, cfg, env, i, m);
      var i': nat, j': nat :| UserGone(a.db, d.db, d.u, i', j');
      var name, uid := a.u.pw.name.value, a.u.pw.uid;
      LinesComeBack(db, a.db, d.db, d.u, i, NewPasswd(db, u, name, uid, cfg), NewShadow(u, name, env), i', j');
      var rest := a.db.(passwd := d.db.passwd, shadow := d.db.shadow);
      JoinedUsers(m, a.db, rest, DefaultNames(u.Type(), cfg), name);
      GroupsComeBack(db, m, rest, d.db, u.Type(), name, uid, cfg, env.encrypted, DefaultNames(u.Type(), cfg));
    }
  }

  /** Which groups have been joined does not depend on the users. */
  lemma JoinedUsers(m: Db, a: Db, rest: Db, names: seq<string>, user: string)
    requires Joined(m.(passwd := a.passwd, shadow := a.shadow), a, names, user) && SameGroups(a, rest)
    ensures Joined(m.(passwd := rest.passwd, shadow := rest.shadow), rest, names, user)
  {
  }
}
