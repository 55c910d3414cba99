/**
 * What one user operation achieves when its writes succeed and passwd and shadow agree. Nothing is asked of
 * the group files.
 */
module UserTheorems {
  import opened Types
  import opened Sequences
  import opened Validate
  import opened Entries
  import opened GroupSpec
  import opened UserSpec
  import opened GroupAgreement
  import opened UserConsistency
  import opened ShadowLock
  import Gecos
  import Integrity
  import Naming
  import StringUtils

  ghost predicate SameFiles(a: Db, b: Db) {
    b.passwd == a.passwd && b.shadow == a.shadow && SameGroups(a, b)
  }

  // ----- locking and unlocking

  lemma EditLockTwice(e: Shadow)
    ensures EditLock(false)(EditLock(true)(e)) == e <==> !Locked(e.secret)
  {
    if !Locked(e.secret) {
      assert EditLock(true)(e).secret[1..] == e.secret;
    }
  }

  lemma NextLockedAt(s: seq<Shadow>, name: Option<string>, lock: bool, i: nat)
    requires i == First(s, HitLock(name)) < |s|
    ensures NextLocked(s, name, lock) == Some(s[i := EditLock(lock)(s[i])])
    ensures First(s[i := EditLock(lock)(s[i])], HitLock(name)) == i
  {
    var l := s[i := EditLock(lock)(s[i])];
    assert HitLock(name)(l[i]);
    assert forall k :: 0 <= k < i ==> l[k] == s[k];
  }

  /**
   * Locking the entry of a user and unlocking it again restores the shadow file exactly when the entry
   * was not locked to begin with: the secret of a locked one is lost.
   */
  lemma LockThenUnlock(s: seq<Shadow>, name: Option<string>)
    requires First(s, HitLock(name)) < |s|
    ensures var l := NextLocked(s, name, true);
      && l.Some? && NextLocked(l.value, name, false).Some?
      && (NextLocked(l.value, name, false) == Some(s) <==> !Locked(s[First(s, HitLock(name))].secret))
  {
    hide NextLocked, EditLock, HitLock;
    var i := First(s, HitLock(name));
    var e := s[i];
    NextLockedAt(s, name, true, i);
    var l := s[i := EditLock(true)(e)];
    NextLockedAt(l, name, false, i);
    var r := l[i := EditLock(false)(l[i])];
    EditLockTwice(e);
    assert r == s <==> r[i] == e;
  }

  /** A concrete loss: an account without a password, locked and unlocked, is open to anyone. */
  lemma LockedSecretIsLost(name: string, ageing: Ageing)
    ensures var s := [Shadow(name, "!", ageing)];
      var l := NextLocked(s, Some(name), true);
      l.Some? && NextLocked(l.value, Some(name), false) == Some([Shadow(name, "", ageing)])
  {
    var s, l := [Shadow(name, "!", ageing)], [Shadow(name, "", ageing)];
    assert HitLock(Some(name))(s[0]) && HitLock(Some(name))(l[0]);
    NextLockedAt(s, Some(name), true, 0);
    assert s[0 := EditLock(true)(s[0])] == l;
    NextLockedAt(l, Some(name), false, 0);
    assert l[0 := EditLock(false)(l[0])] == l;
  }

  /**
   * A delete that is given up because the sessions go on leaves all files as they were exactly when the
   * user was not locked; else the secret is lost and nothing else.
   */
  lemma AbandonedDelete(db: Db, u: UserReq, removeHome: bool, env: Env)
    requires WritesSucceed(env.io) && UsersAgree(db.passwd, db.shadow) && UserReqOk(u)
    requires u.pw.uid != INVALID_ID && u.pw.uid != env.euid && !env.terminated
    requires GetPasswd(db.passwd, u.pw).Some?
    ensures var d := UserDelete(db, u, removeHome, env, true);
      var spent := GetSpNam(db.shadow, GetPasswd(db.passwd, u.pw).value.name);
      && !d.ok && spent.Some? && d.db.passwd == db.passwd && SameGroups(db, d.db)
      && (d.db.shadow == db.shadow <==> !Locked(spent.value.secret))
  {
    hide CopyPasswd, GetPasswd, NextLocked;
    var i := FindUser(db, u.pw);
    var spent := GetSpNam(db.shadow, db.passwd[i].name).value;
    LoadedUserOk(u, db.passwd[i], spent);
    var v := LoadUser(db, u).value;
    FirstShadow(db.shadow, db.passwd[i].name);
    LockThenUnlock(db.shadow, v.pw.name);
  }

  lemma FirstShadow(s: seq<Shadow>, name: string)
    ensures var i := First(s, HitLock(Some(name)));
      GetSpNam(s, name) == if i < |s| then Some(s[i]) else None
  {
  }

  // ----- a concrete database

  /** One user, and one group with that user in it. */
  ghost predicate OneUser(db: Db, gecos: string, secret: string, ageing: Ageing) {
    && db.passwd == [Passwd("ann", "x", 1000, 100, gecos, "/home/ann", "/bin/sh")]
    && db.shadow == [Shadow("ann", secret, ageing)]
    && db.group == [Group("g", "x", 100, ["ann"])] && db.gshadow == Some([Gshadow("g", "!", [], ["ann"])])
  }

  lemma OneUserAgrees(db: Db, gecos: string, secret: string, ageing: Ageing)
    requires OneUser(db, gecos, secret, ageing)
    ensures Consistent(db)
  {
    assert "ann"[0] == 'a' && "ann"[1] == 'n' && "ann"[2] == 'n' && "g"[0] == 'g';
    assert Keys(db.passwd, PwName) == {"ann"} == Keys(db.shadow, SpName) by {
      KeyIn(db.passwd, PwName, 0);
      KeyIn(db.shadow, SpName, 0);
    }
    assert Keys(db.group, GrName) == {"g"} == Keys(db.gshadow.value, SgName) by {
      KeyIn(db.group, GrName, 0);
      KeyIn(db.gshadow.value, SgName, 0);
    }
  }

  // ----- deleting a user

  /** There is such a group, and it is not the daemon's own. */
  ghost predicate GroupGoes(db: Db, g: GroupReq, env: Env) {
    g.gr.gid !in {INVALID_ID, env.egid} && GetGroup(db.group, g.gr).Some?
  }

  /** The gid is that of some user's primary group. */
  ghost predicate InUse(db: Db, gid: Id) {
    gid in Keys(db.passwd, PwGid)
  }

  /** The object has the group's name once it is loaded: a name that is not valid is not copied. */
  ghost predicate LineNamed(db: Db, g: GroupReq) {
    var grp := GetGroup(db.group, g.gr);
    grp.Some? && (g.gr.name.Some? || ValidName(Some(grp.value.name)))
  }

  /** The name in the object's gshadow part once it is loaded: its own, if gshadow lacks the group. */
  function ShadowNameOf(db: Db, g: GroupReq): Option<string> {
    var grp := GetGroup(db.group, g.gr);
    if grp.Some? && GetSgNam(db.gshadow, grp.value.name).Some? then Some(grp.value.name) else g.sg.name
  }

  /** There is no gshadow, or it has an entry of that name. */
  ghost predicate ShadowNamed(db: Db, name: Option<string>) {
    db.gshadow.Some? ==> name.Some? && name.value in Keys(db.gshadow.value, SgName)
  }

  /** The first position of the name. */
  ghost predicate NamedFirst(s: Option<seq<Gshadow>>, j: nat, name: string) {
    NamedAt(s, j, name) && (s.Some? ==> forall k :: 0 <= k < j ==> s.value[k].name != name)
  }

  /** The first group with the gid is gone from group and, if it is found there, its entry from gshadow. */
  ghost predicate GroupGone(a: Db, b: Db, gid: Id, name: Option<string>, i: nat, j: nat) {
    && i < |a.group| && a.group[i].gid == gid && (forall k :: 0 <= k < i ==> a.group[k].gid != gid)
    && b.group == RemoveAt(a.group, i)
    && (if ShadowNamed(a, name) then NamedFirst(a.gshadow, j, name.GetOr("")) && b.gshadow == RemovedAt(a.gshadow, j)
        else b.gshadow == a.gshadow)
  }

  /**
   * Deleting a group, whatever the files are like: it stays while it is a user's primary group, which is
   * no failure. Else its line goes, unless its name is not valid, and its entry in gshadow; if there is no
   * such entry the delete fails with the line gone.
   */
  lemma GroupDeleteExact(db: Db, g: GroupReq, env: Env)
    requires WritesSucceed(env.io)
    ensures var d, name := GroupDelete(db, g, env, true), ShadowNameOf(db, g);
      && d.db.passwd == db.passwd && d.db.shadow == db.shadow
      && (d.ok <==> GroupGoes(db, g, env) && (InUse(db, g.gr.gid) || (LineNamed(db, g) && ShadowNamed(db, name))))
      && (if GroupGoes(db, g, env) && !InUse(db, g.gr.gid) && LineNamed(db, g)
          then exists i, j :: GroupGone(db, d.db, g.gr.gid, name, i, j) else SameGroups(db, d.db))
  {
    hide WriteBoth, GetGroup, LoadGroup, ValidName, GetSgNam, Keys, FindUserByGid;
    LoadNeedsGroup(db, g);
    if g.gr.gid != INVALID_ID && GetGroup(db.group, g.gr).Some? {
      LoadedNames(db, g);
      GidLookup(db.passwd, g.gr.gid);
      if FindUserByGid(db.passwd, g.gr.gid).None? {
        var i, j := GroupLinesGone(db, env.io, LoadGroup(db, g).value);
      }
    }
  }

  lemma LoadNeedsGroup(db: Db, g: GroupReq)
    ensures LoadGroup(db, g).Some? <==> GetGroup(db.group, g.gr).Some?
  {
  }

  lemma LoadedNames(db: Db, g: GroupReq)
    requires g.gr.gid != INVALID_ID && GetGroup(db.group, g.gr).Some?
    ensures var h, e := LoadGroup(db, g).value, GetGroup(db.group, g.gr).value;
      && h.gr.gid == g.gr.gid && h.sg.name == ShadowNameOf(db, g)
      && e in db.group && e.gid == g.gr.gid && GetGrGid(db.group, g.gr.gid) == Some(e)
      && (LineNamed(db, g) ==> h.gr.name == Some(e.name)) && (!LineNamed(db, g) ==> h.gr.name == None)
  {
  }

  lemma GidLookup(s: seq<Passwd>, gid: Id)
    requires gid != INVALID_ID
    ensures FindUserByGid(s, gid).Some? <==> gid in Keys(s, PwGid)
  {
    if gid in Keys(s, PwGid) {
      var i :| 0 <= i < |s| && PwGid(s[i]) == gid;
      assert s[i].gid == gid;
    }
  }

  lemma GroupHit(s: seq<Group>, gr: GrReq) returns (i: nat)
    requires GetGrGid(s, gr.gid).Some? && gr.name in {None, Some(GetGrGid(s, gr.gid).value.name)}
    ensures i < |s| && s[i].gid == gr.gid && forall k :: 0 <= k < i ==> s[k].gid != gr.gid
    ensures NextGroup(Delete, s, gr, None) == if gr.name.Some? then Some(RemoveAt(s, i)) else None
  {
    i := First(s, (e: Group) => e.gid == gr.gid);
    if gr.name.Some? {
      assert First(s, HitGroup(Delete, gr, None)) == i;
    } else {
      assert First(s, HitGroup(Delete, gr, None)) == |s|;
    }
  }

  lemma GshadowHit(s: seq<Gshadow>, sg: SgReq) returns (j: nat)
    ensures var next := NextGshadow(Delete, s, sg, None);
      if sg.name.Some? && sg.name.value in Keys(s, SgName)
      then NamedFirst(Some(s), j, sg.name.value) && next == Some(RemoveAt(s, j)) else next == None
  {
    j := First(s, HitGshadow(Delete, sg, None));
    if j < |s| {
      KeyIn(s, SgName, j);
    }
  }

  /** What the two writes of a group delete do. */
  lemma GroupLinesGone(db: Db, io: Oracle, h: GroupReq) returns (i: nat, j: nat)
    requires WritesSucceed(io) && GetGrGid(db.group, h.gr.gid).Some?
    requires h.gr.name in {None, Some(GetGrGid(db.group, h.gr.gid).value.name)}
    ensures var w := WriteBoth(db, io, Delete, h, None, db.gshadow.Some?);
      && w.db.passwd == db.passwd && w.db.shadow == db.shadow
      && (w.ok <==> h.gr.name.Some? && ShadowNamed(db, h.sg.name))
      && (if h.gr.name.Some? then GroupGone(db, w.db, h.gr.gid, h.sg.name, i, j) else SameGroups(db, w.db))
  {
    hide NextGroup, NextGshadow, Keys, GetGrGid;
    i := GroupHit(db.group, h.gr);
    j := 0;
    if db.gshadow.Some? {
      j := GshadowHit(db.gshadow.value, h.sg);
    }
  }

  ghost predicate GoneFrom(a: Db, b: Db, gid: Id, i: nat, j: nat) {
    && i < |a.group| && a.group[i].gid == gid && (forall k :: 0 <= k < i ==> a.group[k].gid != gid)
    && NamedFirst(a.gshadow, j, a.group[i].name)
    && b.group == RemoveAt(a.group, i) && b.gshadow == RemovedAt(a.gshadow, j)
  }

  /** The group with the gid was there; it has gone exactly when no user has the gid. */
  ghost predicate DeletedGroup(a: Db, b: Db, gid: Id) {
    && gid in Keys(a.group, GrGid)
    && (Distinct(a.group, GrGid) ==> (gid in Keys(b.group, GrGid) <==> InUse(a, gid)))
    && (if InUse(a, gid) then SameGroups(a, b) else exists i, j :: GoneFrom(a, b, gid, i, j))
  }

  /** The name taken out of every list, everything else kept. */
  ghost predicate Purged(a: Db, b: Db, name: string) {
    b.group == MapEntries(a.group, PurgeGroup(name)) && b.gshadow == MapShadow(a.gshadow, PurgeGshadow(name))
  }

  /** No member list and no list of administrators holds the name. */
  ghost predicate NowhereListed(db: Db, name: string) {
    && (forall i :: 0 <= i < |db.group| ==> name !in db.group[i].mem)
    && (db.gshadow.Some? ==> forall j :: 0 <= j < |db.gshadow.value| ==>
          name !in db.gshadow.value[j].mem && name !in db.gshadow.value[j].adm)
  }

  lemma PurgedIsNowhere(a: Db, b: Db, name: string)
    requires Purged(a, b, name)
    ensures NowhereListed(b, name)
  {
  }

  /** An entry with lists that do not name the user is kept as it is. */
  lemma PurgeKeepsOthers(name: string, gr: Group, sg: Gshadow)
    ensures PurgeGroup(name)(gr) == gr.(mem := Without(gr.mem, name))
    ensures PurgeGshadow(name)(sg) == sg.(mem := Without(sg.mem, name), adm := Without(sg.adm, name))
  {
    if name !in gr.mem { WithoutAbsent(gr.mem, name); }
    if name !in sg.mem { WithoutAbsent(sg.mem, name); }
    if name !in sg.adm { WithoutAbsent(sg.adm, name); }
  }

  /** The groups after the last part of a user delete. */
  ghost predicate Left(a: Db, b: Db, name: string, gid: Id) {
    exists m: Db :: DeletedGroup(a, m, gid) && Purged(m, b, name)
  }

  /** The position of a user's line in each of the two files, and the files without them. */
  ghost predicate UserGone(a: Db, b: Db, u: UserReq, i: nat, j: nat) {
    && At(a, u, i) && j < |a.shadow| && a.shadow[j].name == a.passwd[i].name
    && b.passwd == RemoveAt(a.passwd, i) && b.shadow == RemoveAt(a.shadow, j)
  }

  /** The groups that a delete leaves do not depend on the count of writes. */
  lemma LeftFromEither(a: Db, a': Db, b: Db, name: string, gid: Id)
    requires SameFiles(a, a') && Left(a, b, name, gid)
    ensures Left(a', b, name, gid)
  {
    var m: Db :| DeletedGroup(a, m, gid) && Purged(m, b, name);
    if !InUse(a, gid) {
      var i, j :| GoneFrom(a, m, gid, i, j);
      assert GoneFrom(a', m, gid, i, j);
    }
    assert DeletedGroup(a', m, gid);
  }

  /** Locking changes one entry, which stays the user's. */
  ghost predicate DiffersAt(s: seq<Shadow>, r: seq<Shadow>, name: string) {
    && |r| == |s|
    && forall k :: 0 <= k < |s| ==> r[k].name == s[k].name && (s[k].name != name ==> r[k] == s[k])
  }

  lemma WriteLockEdits(db: Db, io: Oracle, u: UserReq, name: string)
    requires WritesSucceed(io) && UsersAgree(db.passwd, db.shadow)
    requires u.pw.name == Some(name) && GetSpNam(db.shadow, name).Some?
    ensures var w := WriteLock(db, io, u, true);
      && w.ok && w.db.passwd == db.passwd && SameGroups(db, w.db) && UsersAgree(w.db.passwd, w.db.shadow)
      && DiffersAt(db.shadow, w.db.shadow, name)
  {
    WriteLockAgrees(db, io, u, true);
    var j :| 0 <= j < |db.shadow| && db.shadow[j] == GetSpNam(db.shadow, name).value;
    assert u.pw.name == Some(db.shadow[j].name);
  }

  lemma SameEntryRemoved(s: seq<Shadow>, r: seq<Shadow>, j: nat, name: string)
    requires DiffersAt(s, r, name) && Distinct(s, SpName) && j < |r| && r[j].name == name
    ensures s[j].name == name && RemoveAt(r, j) == RemoveAt(s, j)
  {
    forall k | 0 <= k < |s| && k != j ensures r[k] == s[k] {
      assert SpName(s[k]) != SpName(s[j]);
    }
  }

  /** The group with the gid can be deleted, as far as its gid goes: it is one, and not the daemon's own. */
  ghost predicate GidGoes(db: Db, gid: Id, env: Env) {
    gid !in {INVALID_ID, env.egid} && gid in Keys(db.group, GrGid)
  }

  /** The first group with the gid has a valid name. */
  ghost predicate NameGoes(db: Db, gid: Id) {
    var grp := GetGrGid(db.group, gid);
    grp.Some? && ValidName(Some(grp.value.name))
  }

  /** So has it, and it is in gshadow if there is one. */
  ghost predicate Removable(db: Db, gid: Id) {
    NameGoes(db, gid) && ShadowNamed(db, Some(GetGrGid(db.group, gid).value.name))
  }

  /** The primary group can be left: it stays for another user, or it can be removed. */
  ghost predicate GroupLeaves(db: Db, gid: Id, env: Env) {
    GidGoes(db, gid, env) && (InUse(db, gid) || Removable(db, gid))
  }

  /** The line of the first group with the gid is gone, and nothing else. */
  ghost predicate LineGone(a: Db, b: Db, gid: Id) {
    b.gshadow == a.gshadow
    && exists i :: 0 <= i < |a.group| && a.group[i].gid == gid && b.group == RemoveAt(a.group, i)
  }

  lemma GroupByGid(db: Db, gid: Id)
    requires gid != INVALID_ID
    ensures var g := FRESH_GROUP.(gr := FRESH_GROUP.gr.(gid := gid));
      && (GetGroup(db.group, g.gr).Some? <==> gid in Keys(db.group, GrGid))
      && (LineNamed(db, g) <==> NameGoes(db, gid))
      && (NameGoes(db, gid) ==> (ShadowNamed(db, ShadowNameOf(db, g)) <==> Removable(db, gid)))
      && (Removable(db, gid) && db.gshadow.Some? ==>
            ShadowNameOf(db, g) == Some(GetGrGid(db.group, gid).value.name))
  {
    hide ValidName;
    if gid in Keys(db.group, GrGid) {
      var i :| 0 <= i < |db.group| && GrGid(db.group[i]) == gid;
      assert db.group[i].gid == gid;
      var name := GetGrGid(db.group, gid).value.name;
      if db.gshadow.Some? && name in Keys(db.gshadow.value, SgName) {
        var j :| 0 <= j < |db.gshadow.value| && SgName(db.gshadow.value[j]) == name;
        assert db.gshadow.value[j].name == name;
      }
    }
  }

  /** A group that goes, in the terms of its gid. */
  lemma GoneByGid(a: Db, b: Db, gid: Id, name: Option<string>, i: nat, j: nat)
    requires GroupGone(a, b, gid, name, i, j)
    ensures !ShadowNamed(a, name) ==> LineGone(a, b, gid)
    ensures ShadowNamed(a, name) && (a.gshadow.Some? ==> name == Some(a.group[i].name)) ==> GoneFrom(a, b, gid, i, j)
    ensures GetGrGid(a.group, gid) == Some(a.group[i])
    ensures Distinct(a.group, GrGid) ==> gid !in Keys(b.group, GrGid)
  {
    RemoveKeys(a.group, GrGid, i);
  }

  /** The part of a delete that removes the primary group. */
  lemma PrimaryGroupGone(db: Db, gid: Id, env: Env)
    requires WritesSucceed(env.io)
    ensures var d := GroupDelete(db, FRESH_GROUP.(gr := FRESH_GROUP.gr.(gid := gid)), env, true);
      && d.db.passwd == db.passwd && d.db.shadow == db.shadow && (d.ok <==> GroupLeaves(db, gid, env))
      && (if d.ok then DeletedGroup(db, d.db, gid)
          else if GidGoes(db, gid, env) && NameGoes(db, gid) then LineGone(db, d.db, gid) else SameGroups(db, d.db))
  {
    hide GroupDelete, GetGroup, ShadowNamed, Keys, NameGoes, LineNamed, ShadowNameOf, GroupGone, GoneFrom, LineGone;
    hide GetGrGid, Distinct;
    var g := FRESH_GROUP.(gr := FRESH_GROUP.gr.(gid := gid));
    GroupDeleteExact(db, g, env);
    if gid != INVALID_ID {
      GroupByGid(db, gid);
      var d := GroupDelete(db, g, env, true);
      if GroupGoes(db, g, env) && !InUse(db, gid) && LineNamed(db, g) {
        var i: nat, j: nat :| GroupGone(db, d.db, gid, ShadowNameOf(db, g), i, j);
        GoneByGid(db, d.db, gid, ShadowNameOf(db, g), i, j);
      } else if d.ok {
        UnchangedGids(db, d.db);
      }
    }
  }

  lemma UnchangedGids(a: Db, b: Db)
    requires SameGroups(a, b)
    ensures Keys(b.group, GrGid) == Keys(a.group, GrGid)
  {
  }

  /**
   * The last part of a user delete, whatever the group files are like: all of it if the primary group can
   * be left; else nothing, or only the line of a group that gshadow lacks.
   */
  lemma LeaveGroupsExact(db: Db, u: UserReq, env: Env)
    requires WritesSucceed(env.io) && u.pw.name.Some? && ValidName(u.pw.name)
    ensures var m := LeaveGroups(db, u, env);
      && m.db.passwd == db.passwd && m.db.shadow == db.shadow && (m.ok <==> GroupLeaves(db, u.pw.gid, env))
      && (if m.ok then Left(db, m.db, u.pw.name.value, u.pw.gid) && NowhereListed(m.db, u.pw.name.value)
          else if GidGoes(db, u.pw.gid, env) && NameGoes(db, u.pw.gid) then LineGone(db, m.db, u.pw.gid)
          else SameGroups(db, m.db))
  {
    hide GroupDelete, GroupLeaves, GidGoes, NameGoes, LineGone, ValidName, DeletedGroup, NowhereListed;
    PrimaryGroupGone(db, u.pw.gid, env);
    var d := GroupDelete(db, FRESH_GROUP.(gr := FRESH_GROUP.gr.(gid := u.pw.gid)), env, true);
    if d.ok {
      var m := LeaveGroups(db, u, env);
      MembershipPurged(d.db, u.pw.name.value, env);
      PurgedIsNowhere(d.db, m.db, u.pw.name.value);
      assert DeletedGroup(db, d.db, u.pw.gid) && Purged(d.db, m.db, u.pw.name.value);
    }
  }

  lemma MembershipPurged(db: Db, name: string, env: Env)
    requires WritesSucceed(env.io) && ValidName(Some(name))
    ensures var m := DeleteMembership(db, Some(name), env, true);
      m.ok && m.db.passwd == db.passwd && m.db.shadow == db.shadow && Purged(db, m.db, name)
  {
    assert env.io(db.tick).Succeeds(|db.group|);
  }

  /** The delete gets as far as locking the user. */
  ghost predicate DeleteBegins(db: Db, u: UserReq, env: Env) {
    u.pw.uid !in {INVALID_ID, env.euid} && GetPasswd(db.passwd, u.pw).Some?
  }

  /** The type that the user has once the line is loaded: the line's, or the object's where that is none. */
  function TypeOnLine(u: UserReq, pent: Passwd): nat {
    var kept := Gecos.Kept(Some(pent.gecos), Gecos.USERTYPE);
    Gecos.TypeFromString(Some(kept.GetOr(Gecos.Rec(u.pw.gecos)[Gecos.USERTYPE])))
  }

  lemma LoadedType(u: UserReq, pent: Passwd, spent: Shadow)
    requires UserReqOk(u)
    ensures u.(pw := CopyPasswd(pent, u.pw), sp := CopyShadow(spent, u.sp, false)).Type() == TypeOnLine(u, pent)
  {
    hide Gecos.Load, Gecos.Kept, Gecos.CanonicalOrNull, ValidName, ValidDbString, ValidDbSecret;
    Gecos.LoadRec(u.pw.gecos, Some(pent.gecos));
    assert CopyPasswd(pent, u.pw).gecos == Gecos.Load(u.pw.gecos, Some(pent.gecos));
  }

  /** The home directory can be removed, if it has to be. */
  ghost predicate HomeGoes(u: UserReq, pent: Passwd, removeHome: bool, env: Env) {
    removeHome ==> env.homeOk || TypeOnLine(u, pent) == Gecos.TYPE_SYSTEM
  }

  /** The files after a delete that has taken the user's lines out of passwd and shadow. */
  ghost predicate LinesGone(db: Db, d: UserOut, u: UserReq, removeHome: bool, env: Env)
    requires GetPasswd(db.passwd, u.pw).Some?
  {
    var pent, rest := GetPasswd(db.passwd, u.pw).value, db.(passwd := d.db.passwd, shadow := d.db.shadow);
    && d.u.pw.name == Some(pent.name) && d.u.pw.uid == pent.uid && d.u.pw.gid == pent.gid
    && (exists i, j :: UserGone(db, d.db, d.u, i, j))
    && pent.name !in Keys(d.db.passwd, PwName) && pent.name !in Keys(d.db.shadow, SpName)
    && (d.ok <==> GroupLeaves(rest, pent.gid, env) && HomeGoes(u, pent, removeHome, env))
    && (if GroupLeaves(rest, pent.gid, env) then Left(rest, d.db, pent.name, pent.gid) && NowhereListed(d.db, pent.name)
        else if GidGoes(db, pent.gid, env) && NameGoes(db, pent.gid) then LineGone(db, d.db, pent.gid)
        else SameGroups(db, d.db))
  }

  /**
   * What a delete leaves, whatever it returns. One that does not begin changes nothing. One that is
   * given up because the sessions go on changes the secret of a locked user and nothing else. Any other
   * takes the user's lines out of passwd and shadow; then, if the primary group cannot be deleted, it
   * fails with all memberships as they were, and if only the home directory cannot, with them gone.
   */
  lemma UserDeleteLeaves(db: Db, u: UserReq, removeHome: bool, env: Env)
    requires WritesSucceed(env.io) && UsersAgree(db.passwd, db.shadow) && UserReqOk(u)
    ensures var d := UserDelete(db, u, removeHome, env, true);
      if !DeleteBegins(db, u, env) then !d.ok && d.db == db
      else
        var pent := GetPasswd(db.passwd, u.pw).value;
        if !env.terminated then
          var spent := GetSpNam(db.shadow, pent.name);
          && !d.ok && spent.Some? && d.db.passwd == db.passwd && SameGroups(db, d.db)
          && (d.db.shadow == db.shadow <==> !Locked(spent.value.secret))
        else LinesGone(db, d, u, removeHome, env)
  {
    hide UserDelete, GetPasswd, GetSpNam, LinesGone;
    if !DeleteBegins(db, u, env) {
      DeleteDoesNotBegin(db, u, removeHome, env);
    } else if !env.terminated {
      AbandonedDelete(db, u, removeHome, env);
    } else {
      DeleteGoesOn(db, u, removeHome, env);
    }
  }

  lemma DeleteDoesNotBegin(db: Db, u: UserReq, removeHome: bool, env: Env)
    requires UsersAgree(db.passwd, db.shadow) && UserReqOk(u) && !DeleteBegins(db, u, env)
    ensures var d := UserDelete(db, u, removeHome, env, true);
      !d.ok && d.db == db
  {
    hide CopyPasswd, CopyShadow, GetPasswd, WriteLock;
    if GetPasswd(db.passwd, u.pw).Some? {
      var i := FindUser(db, u.pw);
      LoadedUserOk(u, db.passwd[i], GetSpNam(db.shadow, db.passwd[i].name).value);
    }
  }

  lemma DeleteGoesOn(db: Db, u: UserReq, removeHome: bool, env: Env)
    requires WritesSucceed(env.io) && UsersAgree(db.passwd, db.shadow) && UserReqOk(u)
    requires DeleteBegins(db, u, env) && env.terminated
    ensures LinesGone(db, UserDelete(db, u, removeHome, env, true), u, removeHome, env)
  {
    hide WriteUser, WriteLock, LeaveGroups, CopyPasswd, CopyShadow, GetPasswd, NowhereListed, Left, TypeOnLine;
    hide GroupLeaves, GidGoes, NameGoes, LineGone, ValidName, UsersAgree;
    var i := FindUser(db, u.pw);
    var pent, spent := db.passwd[i], GetSpNam(db.shadow, db.passwd[i].name).value;
    UserNameValid(db.passwd, db.shadow, i);
    LoadedUserOk(u, pent, spent);
    LoadedType(u, pent, spent);
    var v := LoadUser(db, u).value;
    WriteLockEdits(db, env.io, v, pent.name);
    var l := WriteLock(db, env.io, v, true);
    WriteUserDeletes(l.db, env.io, v, i);
    var w := WriteUser(l.db, env.io, Delete, v, None);
    var j := LinesRemoved(db, l.db, w.db, v, i);
    LeaveGroupsExact(w.db, v, env);
    var d := UserDelete(db, u, removeHome, env, true);
    assert UserGone(db, d.db, v, i, j);
    var rest := db.(passwd := d.db.passwd, shadow := d.db.shadow);
    LeavesFromEither(w.db, rest, db, pent.gid, env);
    if GroupLeaves(rest, pent.gid, env) {
      LeftFromEither(w.db, rest, d.db, pent.name, pent.gid);
    } else {
      LineGoneFromEither(w.db, db, d.db, pent.gid);
    }
  }

  /** Whether the primary group goes depends on the groups and on the gids of the users that are left. */
  lemma LeavesFromEither(a: Db, a': Db, db: Db, gid: Id, env: Env)
    requires SameFiles(a, a') && SameGroups(a, db)
    ensures GroupLeaves(a, gid, env) <==> GroupLeaves(a', gid, env)
    ensures GidGoes(a, gid, env) == GidGoes(db, gid, env) && NameGoes(a, gid) == NameGoes(db, gid)
  {
  }

  lemma LineGoneFromEither(a: Db, a': Db, b: Db, gid: Id)
    requires SameGroups(a, a')
    ensures LineGone(a, b, gid) <==> LineGone(a', b, gid)
    ensures SameGroups(a, b) <==> SameGroups(a', b)
  {
  }

  lemma UserNameValid(passwd: seq<Passwd>, shadow: seq<Shadow>, i: nat)
    requires UsersAgree(passwd, shadow) && i < |passwd|
    ensures ValidName(Some(passwd[i].name))
  {
  }

  /** The positions of the lines that are removed, and the names that are left. */
  lemma LinesRemoved(db: Db, l: Db, w: Db, v: UserReq, i: nat) returns (j: nat)
    requires UsersAgree(db.passwd, db.shadow) && At(db, v, i) && l.passwd == db.passwd
    requires DiffersAt(db.shadow, l.shadow, db.passwd[i].name) && w.passwd == RemoveAt(l.passwd, i)
    requires exists b :: 0 <= b < |l.shadow| && l.shadow[b].name == db.passwd[i].name
               && w.shadow == RemoveAt(l.shadow, b)
    ensures UserGone(db, w, v, i, j)
    ensures db.passwd[i].name !in Keys(w.passwd, PwName) && db.passwd[i].name !in Keys(w.shadow, SpName)
  {
    j :| 0 <= j < |l.shadow| && l.shadow[j].name == db.passwd[i].name && w.shadow == RemoveAt(l.shadow, j);
    SameEntryRemoved(db.shadow, l.shadow, j, db.passwd[i].name);
    RemoveKeys(db.passwd, PwName, i);
    RemoveKeys(db.shadow, SpName, j);
  }

  /** Exactly when a delete leaves passwd alone, and exactly when it leaves shadow alone. */
  lemma DeleteTouches(db: Db, u: UserReq, removeHome: bool, env: Env)
    requires WritesSucceed(env.io) && UsersAgree(db.passwd, db.shadow) && UserReqOk(u)
    ensures var d := UserDelete(db, u, removeHome, env, true).db;
      && (d.passwd == db.passwd <==> !DeleteBegins(db, u, env) || !env.terminated)
      && (d.shadow == db.shadow <==>
            !DeleteBegins(db, u, env)
            || (!env.terminated && !LockedUser(db, GetPasswd(db.passwd, u.pw).value.name)))
  {
    hide UserDelete, GetPasswd, GetSpNam, NowhereListed, Left;
    UserDeleteLeaves(db, u, removeHome, env);
    var d := UserDelete(db, u, removeHome, env, true);
    if DeleteBegins(db, u, env) && env.terminated {
      var i: nat, j: nat :| UserGone(db, d.db, d.u, i, j);
      assert |d.db.passwd| == |db.passwd| - 1 && |d.db.shadow| == |db.shadow| - 1;
    }
  }

  /** The user's shadow entry is locked. */
  predicate LockedUser(db: Db, name: string) {
    var spent := GetSpNam(db.shadow, name);
    spent.Some? && Locked(spent.value.secret)
  }

  /**
   * After a successful delete the user's line is gone from passwd and shadow and every other line is
   * as it was; the primary group is gone exactly when no remaining user has its gid, if gids are unique;
   * and every other group is as it was but for the user's name, which no list in any file holds any more.
   */
  lemma UserDeleteExact(db: Db, u: UserReq, removeHome: bool, env: Env, locked: bool)
    requires WritesSucceed(env.io) && UsersAgree(db.passwd, db.shadow) && UserReqOk(u)
    ensures var d := UserDelete(db, u, removeHome, env, locked);
      d.ok ==>
        && d.u.pw.uid == u.pw.uid && (exists i, j :: UserGone(db, d.db, d.u, i, j))
        && d.u.pw.name.value !in Keys(d.db.passwd, PwName) && d.u.pw.name.value !in Keys(d.db.shadow, SpName)
        && NowhereListed(d.db, d.u.pw.name.value)
        && Left(db.(passwd := d.db.passwd, shadow := d.db.shadow), d.db, d.u.pw.name.value, d.u.pw.gid)
        && (Distinct(db.group, GrGid) ==> (d.u.pw.gid in Keys(d.db.group, GrGid) <==> InUse(d.db, d.u.pw.gid)))
  {
    hide UserDelete, GetPasswd, GetSpNam, NowhereListed, Left, Distinct, HomeGoes, GroupLeaves;
    DeleteNeedsLock(db, u, removeHome, env, locked);
    UserDeleteLeaves(db, u, removeHome, env);
    var d := UserDelete(db, u, removeHome, env, locked);
    if d.ok {
      var i := FindUser(db, u.pw);
    }
    if d.ok && Distinct(db.group, GrGid) {
      LeftGids(db.(passwd := d.db.passwd, shadow := d.db.shadow), d.db, d.u.pw.name.value, d.u.pw.gid);
    }
  }

  lemma LeftGids(a: Db, b: Db, name: string, gid: Id)
    requires Left(a, b, name, gid) && Distinct(a.group, GrGid)
    ensures gid in Keys(b.group, GrGid) <==> InUse(a, gid)
  {
    var m: Db :| DeletedGroup(a, m, gid) && Purged(m, b, name);
    Integrity.MapKeys(m.group, PurgeGroup(name), GrGid);
  }

  /** The object afterwards: as it was, or as it is loaded, whatever fails. */
  lemma DeletedObject(db: Db, u: UserReq, removeHome: bool, env: Env, locked: bool)
    ensures UserDelete(db, u, removeHome, env, locked).u ==
      if locked && u.pw.uid != INVALID_ID then LoadUser(db, u).GetOr(u) else u
  {
    hide LoadUser, WriteLock, WriteUser, LeaveGroups;
  }

  lemma DeleteNeedsLock(db: Db, u: UserReq, removeHome: bool, env: Env, locked: bool)
    ensures !locked ==> !UserDelete(db, u, removeHome, env, locked).ok
  {
  }

  /** Some other user has the same primary group. */
  ghost predicate SharesGid(db: Db, pent: Passwd) {
    exists k :: 0 <= k < |db.passwd| && db.passwd[k].gid == pent.gid && db.passwd[k].uid != pent.uid
  }

  /** The user's primary group is one that can go or stay for another user; and not the daemon's own. */
  ghost predicate PrimaryLeaves(db: Db, pent: Passwd, env: Env) {
    GidGoes(db, pent.gid, env) && (SharesGid(db, pent) || Removable(db, pent.gid))
  }

  lemma StillInUse(db: Db, d: Db, u: UserReq, i: nat, j: nat)
    requires Distinct(db.passwd, PwUid) && UserGone(db, d, u, i, j)
    ensures InUse(d, db.passwd[i].gid) <==> SharesGid(db, db.passwd[i])
  {
    var gid := db.passwd[i].gid;
    if InUse(d, gid) {
      var k :| 0 <= k < |d.passwd| && PwGid(d.passwd[k]) == gid;
      var k' := if k < i then k else k + 1;
      assert db.passwd[k'] == d.passwd[k] && PwUid(db.passwd[k']) != PwUid(db.passwd[i]);
    }
    if SharesGid(db, db.passwd[i]) {
      var k :| 0 <= k < |db.passwd| && db.passwd[k].gid == gid && db.passwd[k].uid != db.passwd[i].uid;
      var k' := if k < i then k else k - 1;
      assert d.passwd[k'] == db.passwd[k];
      KeyIn(d.passwd, PwGid, k');
    }
  }

  /**
   * When a user is deleted. The last two conditions are looked at only after the user's lines have gone
   * from passwd and shadow.
   */
  lemma UserDeleteSucceeds(db: Db, u: UserReq, removeHome: bool, env: Env)
    requires WritesSucceed(env.io) && UsersAgree(db.passwd, db.shadow) && UserReqOk(u)
    ensures var pent := GetPasswd(db.passwd, u.pw);
      UserDelete(db, u, removeHome, env, true).ok <==>
        && DeleteBegins(db, u, env) && env.terminated && PrimaryLeaves(db, pent.value, env)
        && HomeGoes(u, pent.value, removeHome, env)
  {
    hide UserDelete, GetPasswd, GetSpNam, NowhereListed, Left, HomeGoes, GidGoes, Removable, UsersAgree;
    UserDeleteLeaves(db, u, removeHome, env);
    if DeleteBegins(db, u, env) && env.terminated {
      var d := UserDelete(db, u, removeHome, env, true);
      var pent := GetPasswd(db.passwd, u.pw).value;
      var i: nat, j: nat :| UserGone(db, d.db, d.u, i, j);
      var k := FindUser(db, u.pw);
      SamePosition(db, i, k);
      StillInUse(db, d.db, d.u, i, j);
      var rest := db.(passwd := d.db.passwd, shadow := d.db.shadow);
      SameRemovable(rest, db, pent.gid, env);
    }
  }

  lemma SamePosition(db: Db, i: nat, k: nat)
    requires UsersAgree(db.passwd, db.shadow) && i < |db.passwd| && k < |db.passwd|
    requires db.passwd[i].uid == db.passwd[k].uid
    ensures i == k && Distinct(db.passwd, PwUid)
  {
    assert PwUid(db.passwd[i]) == PwUid(db.passwd[k]);
  }

  lemma SameRemovable(a: Db, b: Db, gid: Id, env: Env)
    requires SameGroups(a, b)
    ensures GidGoes(a, gid, env) == GidGoes(b, gid, env) && Removable(a, gid) == Removable(b, gid)
  {
  }

  /**
   * In files that agree, and with every primary group there, only the daemon's own group and "no gid"
   * stand in the way.
   */
  lemma PrimaryLeavesWhenConsistent(db: Db, i: nat, env: Env)
    requires Consistent(db) && Integrity.RefIntegrity(db) && i < |db.passwd|
    ensures PrimaryLeaves(db, db.passwd[i], env) <==> db.passwd[i].gid !in {INVALID_ID, env.egid}
  {
    hide ValidName, MembersAgree, UsersAgree;
    var gid := db.passwd[i].gid;
    var k :| 0 <= k < |db.group| && GrGid(db.group[k]) == gid;
    assert db.group[k].gid == gid;
    var grp := GetGrGid(db.group, gid).value;
    var k' :| 0 <= k' < |db.group| && db.group[k'] == grp;
    KeyIn(db.group, GrName, k');
  }

  /**
   * A concrete refusal: the primary group is the daemon's own, so the delete fails; the user is gone but
   * still a member.
   */
  lemma RefusedDeleteRemovesLines(db: Db, env: Env, ageing: Ageing)
    requires WritesSucceed(env.io) && env.terminated && env.euid == 0 && env.egid == 100
    requires OneUser(db, "", "$6$hash", ageing)
    ensures var d := UserDelete(db, FRESH_USER.(pw := FRESH_USER.pw.(uid := 1000)), true, env, true);
      !d.ok && d.db.passwd == [] && d.db.shadow == [] && d.db.group == db.group && d.db.gshadow == db.gshadow
  {
    hide UserDelete, NowhereListed, Left;
    var u := FRESH_USER.(pw := FRESH_USER.pw.(uid := 1000));
    OneUserAgrees(db, "", "$6$hash", ageing);
    assert db.passwd[0].uid == 1000;
    UserDeleteLeaves(db, u, true, env);
    var d := UserDelete(db, u, true, env, true);
    var i: nat, j: nat :| UserGone(db, d.db, d.u, i, j);
  }

  /** The name is in the member list of some group. */
  ghost predicate IsMember(group: seq<Group>, name: string) {
    exists i :: 0 <= i < |group| && name in group[i].mem
  }

  /**
   * Removing a user's memberships reports success although the name is still listed in the group file
   * exactly when rewriting that file failed after it had been opened, and rewriting gshadow did not.
   */
  lemma MembershipSuccessIsPartial(db: Db, name: string, env: Env)
    requires ValidName(Some(name)) && db.gshadow.Some?
    ensures var w := DeleteMembership(db, Some(name), env, true);
      var f := env.io(db.tick);
      w.ok && IsMember(w.db.group, name) <==>
        && IsMember(db.group, name)
        && f.openSource && f.openDup && f.attributes && !f.Succeeds(|db.group|)
        && env.io(db.tick + 1).Succeeds(|db.gshadow.value|)
  {
    var r := MapEntries(db.group, PurgeGroup(name));
    assert !IsMember(r, name);
  }

  /** A concrete case: the duplicate of the group file cannot be flushed, and the call returns TRUE all the same. */
  lemma MemberAfterSuccess(db: Db, env: Env)
    requires db.group == [Group("g", "x", 1000, ["ann"])] && db.gshadow == Some([Gshadow("g", "!", [], ["ann"])])
    requires env.io(db.tick) == Faults(true, true, true, None, false, true, true, true, true, true)
    requires env.io(db.tick + 1) == Faults(true, true, true, None, true, true, true, true, true, true)
    ensures var w := DeleteMembership(db, Some("ann"), env, true);
      w.ok && w.db.group[0].mem == ["ann"] && w.db.gshadow.value[0].mem == []
  {
    assert "ann"[0] == 'a' && "ann"[1] == 'n' && "ann"[2] == 'n';
    assert ValidName(Some("ann"));
    assert Without(["ann"], "ann") == [];
  }

  // ----- adding a user and loading it again

  /** A line written from a request with a canonical GECOS string reads back into a fresh object. */
  lemma CopiedLine(pw: PwReq, sp: SpReq)
    requires pw.name.Some? && ValidName(pw.name) && pw.gecos.Some? && Gecos.Canonical(pw.gecos.value)
    requires pw.passwd.Some? && ValidDbSecret(pw.passwd)
    requires (pw.dir.Some? ==> ValidDbString(pw.dir)) && (pw.shell.Some? ==> ValidDbString(pw.shell))
    ensures PasswdLine(CopyPasswd(PasswdLine(pw), FRESH_USER.pw.(uid := pw.uid))) == PasswdLine(pw)
  {
    Gecos.LoadIsIdentityOnCanonical(pw.gecos.value);
  }

  /**
   * The entries that a successful add has written are the ones that loading by uid finds, whatever the
   * group files are like; it finds them unless the uid is the one that stands for "no uid".
   */
  lemma AddThenLoad(db: Db, u: UserReq, cfg: Config, env: Env, locked: bool)
    requires UsersAgree(db.passwd, db.shadow) && UserReqOk(u)
    ensures var a := UserAdd(db, u, cfg, env, locked);
      a.ok ==>
        var l := LoadUser(a.db, FRESH_USER.(pw := FRESH_USER.pw.(uid := a.u.pw.uid)));
        && (l.Some? <==> a.u.pw.uid != INVALID_ID)
        && (l.Some? ==> PasswdLine(l.value.pw) == PasswdLine(a.u.pw) && ShadowLine(l.value.sp) == ShadowLine(a.u.sp))
  {
    hide PrepareUser, WriteUser, DefaultShell, AddToGroups, CopyPasswd, UsersAgree;
    var a := UserAdd(db, u, cfg, env, locked);
    if a.ok {
      var v := DefaultShell(u, cfg);
      DefaultShellOk(u, cfg);
      PrepareUserOk(db, v, cfg, env);
      PrepareUserWritable(db, u, v, cfg, env);
      var p := PrepareUser(db, v, cfg, env);
      WriteUserAdds(p.db, env.io, p.u);
      var w := WriteUser(p.db, env.io, Add, p.u, None);
      var names := StringUtils.Split(if p.u.Type() == Gecos.TYPE_ADMIN then cfg.defAdminGroups else cfg.defGroups);
      Naming.AddToGroupsNames(w.db, p.u.pw.uid, names, env);
      var i :| 0 <= i <= |p.db.passwd| && w.db.passwd == InsertAt(p.db.passwd, i, PasswdLine(p.u.pw));
      LookedUp(a.db, i, |p.db.shadow|, PasswdLine(p.u.pw), ShadowLine(p.u.sp));
      LoadsBack(a.db, p.u);
    }
  }

  /** The lines of a request that are found by its uid and name are what a fresh object loads. */
  lemma LoadsBack(db: Db, u: UserReq)
    requires UserReqOk(u) && u.pw.name.Some? && u.sp.name == u.pw.name && u.pw.gecos.Some? && u.pw.passwd.Some?
    requires GetPwUid(db.passwd, u.pw.uid) == Some(PasswdLine(u.pw))
    requires GetSpNam(db.shadow, u.pw.name.value) == Some(ShadowLine(u.sp))
    ensures var l := LoadUser(db, FRESH_USER.(pw := FRESH_USER.pw.(uid := u.pw.uid)));
      && (l.Some? <==> u.pw.uid != INVALID_ID)
      && (l.Some? ==> PasswdLine(l.value.pw) == PasswdLine(u.pw) && ShadowLine(l.value.sp) == ShadowLine(u.sp))
  {
    hide CopyPasswd;
    CopiedLine(u.pw, u.sp);
  }

  lemma PrepareUserWritable(db: Db, u: UserReq, v: UserReq, cfg: Config, env: Env)
    requires UserReqOk(u) && u.Type() != Gecos.TYPE_NONE && v == DefaultShell(u, cfg)
    ensures var p := PrepareUser(db, v, cfg, env);
      p.ok ==> p.u.pw.passwd == Some("x") && p.u.pw.gecos.Some?
  {
    hide SetUid, SetGroup;
    assert v.pw.gecos.Some?;
    SetUidKeepsGecos(db, v, cfg, env.digest);
    var (w, ok) := SetUid(db, v, cfg, env.digest);
    SetGroupKeepsGecos(db, w, cfg, env);
  }

  lemma SetUidKeepsGecos(db: Db, u: UserReq, cfg: Config, digest: string)
    requires u.pw.gecos.Some?
    ensures SetUid(db, u, cfg, digest).0.pw.gecos.Some?
  {
    var n := SetDaemonUserName(u, digest);
    assert n.Some? ==> n.value.pw.gecos.Some?;
  }

  lemma SetGroupKeepsGecos(db: Db, u: UserReq, cfg: Config, env: Env)
    ensures SetGroup(db, u, cfg, env).u.pw.gecos == u.pw.gecos
  {
    hide GroupAdd;
  }

  /** Unique entries are the ones that the lookups by uid and by name find. */
  lemma LookedUp(db: Db, i: nat, j: nat, pw: Passwd, sp: Shadow)
    requires UsersAgree(db.passwd, db.shadow) && i < |db.passwd| && j < |db.shadow|
    requires db.passwd[i] == pw && db.shadow[j] == sp && sp.name == pw.name
    ensures GetPwUid(db.passwd, pw.uid) == Some(pw) && GetSpNam(db.shadow, pw.name) == Some(sp)
  {
    forall k | 0 <= k < |db.passwd| && db.passwd[k].uid == pw.uid ensures k == i {
      assert PwUid(db.passwd[k]) == PwUid(db.passwd[i]);
    }
    forall k | 0 <= k < |db.shadow| && db.shadow[k].name == sp.name ensures k == j {
      assert SpName(db.shadow[k]) == SpName(db.shadow[j]);
    }
  }
}
