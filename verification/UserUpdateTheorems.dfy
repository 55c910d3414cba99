/** When a user is updated, and what is written then. */
module UserUpdateTheorems {
  import opened Types
  import opened Sequences
  import opened StringUtils
  import opened Validate
  import opened GroupSpec
  import opened GroupAgreement
  import opened UserSpec
  import opened UserConsistency
  import opened UserTheorems
  import Gecos
  import Loading

  // ----- what an update is asked for

  /** A secret is asked for, and it is another one than that in the file. */
  ghost predicate AsksSecret(u: UserReq, env: Env) {
    u.pw.passwd !in {None, Some("x")} && !env.sameSecret
  }

  /** A shell is asked for, and it is another one than that of the line. */
  ghost predicate AsksShell(u: UserReq, pent: Passwd) {
    u.pw.shell !in {None, Some(pent.shell)}
  }

  // ----- what an update writes

  /**
   * The GECOS string that an update writes: five fields, filled from the old ones, with the type that the
   * line had; or none if there is nothing to make it of.
   */
  ghost predicate UpdatedGecos(asked: Option<string>, old_: string, new_: string) {
    if Gecos.NothingToFill(asked, Some(old_)) then new_ == ""
    else && Gecos.Canonical(new_) && Split(new_) == Gecos.Filled(asked, Some(old_))
         && GetString(Some(old_), Gecos.USERTYPE) == Some(Split(new_)[Gecos.USERTYPE])
  }

  /** The line that an update writes in the place of the old one. */
  ghost predicate UpdatedLine(u: UserReq, old_: Passwd, new_: Passwd, env: Env) {
    && new_.name == old_.name && new_.uid == old_.uid && new_.gid == old_.gid
    && new_.passwd == (if AsksSecret(u, env) then "x"
                       else if ValidDbSecret(Some(old_.passwd)) then old_.passwd else u.pw.passwd.GetOr(""))
    && new_.dir == (if ValidDbString(Some(old_.dir)) then old_.dir else u.pw.dir.GetOr(""))
    && new_.shell == u.pw.shell.GetOr("") && UpdatedGecos(u.pw.gecos, old_.gecos, new_.gecos)
  }

  /** The entry that an update writes in the place of the old one: name and secret may be the object's own. */
  ghost predicate UpdatedSecret(u: UserReq, old_: Shadow, new_: Shadow, env: Env) {
    && new_.name == u.sp.name.GetOr(old_.name) && new_.ageing == old_.ageing
    && Some(new_.secret) == if AsksSecret(u, env) then env.encrypted else Some(u.sp.secret.GetOr(old_.secret))
  }

  lemma DecidedLine(u: UserReq, pent: Passwd, spent: Shadow, env: Env)
    requires UserReqOk(u) && ValidName(Some(pent.name)) && spent.name == pent.name
    requires u.pw.name.Some? ==> u.pw.name.value == pent.name
    ensures var (w, write) := DecideUpdate(u, pent, spent, env);
      write ==> UpdatedLine(u, pent, PasswdLine(w.pw), env) && UpdatedSecret(u, spent, ShadowLine(w.sp), env)
  {
    hide Gecos.Update, UserReqOk, ValidName, UpdatedGecos;
    var (w, write) := DecideUpdate(u, pent, spent, env);
    if write {
      DecidedUserOk(u, pent, spent, env);
      DecidedGecos(u, pent, spent, env);
    }
  }

  /** The GECOS string of a request as it is when the files are to be written. */
  lemma DecidedGecos(u: UserReq, pent: Passwd, spent: Shadow, env: Env)
    requires UserReqOk(u)
    ensures var (w, write) := DecideUpdate(u, pent, spent, env);
      && w.pw.gecos == Gecos.Update(u.pw.gecos, Some(pent.gecos))
      && (write ==> UpdatedGecos(u.pw.gecos, pent.gecos, w.pw.gecos.GetOr("")))
  {
    hide Gecos.Update, Gecos.NothingToFill, Gecos.Filled;
    var (w, write) := DecideUpdate(u, pent, spent, env);
    Gecos.UpdateRec(u.pw.gecos, Some(pent.gecos));
    if write && w.pw.gecos.Some? {
      TypeField(w.pw.gecos.value);
    }
  }

  lemma TypeField(gecos: string)
    requires Gecos.Canonical(gecos)
    ensures GetString(Some(gecos), Gecos.USERTYPE) == Some(Split(gecos)[Gecos.USERTYPE])
  {
  }

  /** One line of passwd and one of shadow, of the same user, are replaced and nothing else changes. */
  ghost predicate UserUpdated(db: Db, d: Db, u: UserReq, env: Env, i: nat, j: nat) {
    && SameGroups(db, d) && i < |db.passwd| == |d.passwd| && j < |db.shadow| == |d.shadow|
    && GetPasswd(db.passwd, u.pw) == Some(db.passwd[i]) && db.passwd[i].uid == u.pw.uid
    && db.shadow[j].name == db.passwd[i].name
    && d.passwd == db.passwd[i := d.passwd[i]] && UpdatedLine(u, db.passwd[i], d.passwd[i], env)
    && d.shadow == db.shadow[j := d.shadow[j]] && UpdatedSecret(u, db.shadow[j], d.shadow[j], env)
  }

  /**
   * A successful update replaces one line of passwd by the one requested, filled from the file, and
   * one line of shadow; everything else is as it was. An update that fails writes nothing at all. What
   * the group files are like makes no difference.
   */
  lemma UserUpdateExact(db: Db, u: UserReq, env: Env, locked: bool)
    requires WritesSucceed(env.io) && UsersAgree(db.passwd, db.shadow) && UserReqOk(u)
    ensures var d := UserUpdate(db, u, env, locked);
      if d.ok then exists i, j :: UserUpdated(db, d.db, u, env, i, j) else d.db == db
  {
    hide WriteUser, DecideUpdate, GetPasswd, UpdatedLine, UpdatedSecret;
    if locked && u.pw.uid != INVALID_ID && GetPasswd(db.passwd, u.pw).Some? {
      var i := FindUser(db, u.pw);
      var pent, spent := db.passwd[i], GetSpNam(db.shadow, db.passwd[i].name).value;
      DecidedUserOk(u, pent, spent, env);
      DecidedLine(u, pent, spent, env);
      var (w, write) := DecideUpdate(u, pent, spent, env);
      WriteUserModifies(db, env.io, w, i);
      var d := UserUpdate(db, u, env, locked);
      if write {
        var j :| 0 <= j < |db.shadow| && db.shadow[j].name == pent.name
          && d.db.shadow == db.shadow[j := ShadowLine(w.sp)];
        ShadowAt(db, i, j);
        assert UserUpdated(db, d.db, u, env, i, j);
      }
    }
  }

  /** The shadow entry that the lookup finds is the one at the position of the user's name. */
  lemma ShadowAt(db: Db, i: nat, j: nat)
    requires UsersAgree(db.passwd, db.shadow) && i < |db.passwd| && j < |db.shadow|
    requires db.shadow[j].name == db.passwd[i].name
    ensures GetSpNam(db.shadow, db.passwd[i].name) == Some(db.shadow[j])
  {
    forall k | 0 <= k < |db.shadow| && db.shadow[k].name == db.shadow[j].name ensures k == j {
      assert SpName(db.shadow[k]) == SpName(db.shadow[j]);
    }
  }

  /** The shadow entry of the user with the uid holds the secret. */
  ghost predicate HasSecret(db: Db, uid: Id, secret: string) {
    exists i, j :: 0 <= i < |db.passwd| && 0 <= j < |db.shadow| && db.passwd[i].uid == uid
      && db.shadow[j].name == db.passwd[i].name && db.shadow[j].secret == secret
  }

  /**
   * A successful update that was not asked for a new secret leaves the shadow file alone exactly when the
   * object is not misnamed and holds no secret or the one that is in the file: else an old secret comes back.
   */
  lemma UpdateKeepsSecret(db: Db, u: UserReq, env: Env, locked: bool)
    requires WritesSucceed(env.io) && UsersAgree(db.passwd, db.shadow) && UserReqOk(u) && !AsksSecret(u, env)
    ensures var d := UserUpdate(db, u, env, locked);
      d.ok ==>
        (d.db.shadow == db.shadow <==>
           !MisnamedUser(db, u) && (u.sp.secret.None? || HasSecret(db, u.pw.uid, u.sp.secret.value)))
  {
    hide UserUpdate, UpdatedLine, GetPasswd;
    UserUpdateExact(db, u, env, locked);
    var d := UserUpdate(db, u, env, locked);
    if d.ok {
      var i: nat, j: nat :| UserUpdated(db, d.db, u, env, i, j);
      forall i', j' | 0 <= i' < |db.passwd| && 0 <= j' < |db.shadow|
        && db.passwd[i'].uid == u.pw.uid && db.shadow[j'].name == db.passwd[i'].name
        ensures i' == i && j' == j
      {
        assert PwUid(db.passwd[i']) == PwUid(db.passwd[i]);
        assert SpName(db.shadow[j']) == SpName(db.shadow[j]);
      }
      assert d.db.shadow == db.shadow <==> d.db.shadow[j] == db.shadow[j];
    }
  }

  // ----- when an update succeeds

  /**
   * The request asks for something that an update may change: a secret that can be encrypted, a shell, an
   * icon, or texts other than those of the line, whose type has to be one that filling the five fields
   * brings out again.
   */
  ghost predicate UpdateWanted(u: UserReq, pent: Passwd, env: Env) {
    var other := env.iconChanged || AsksSecret(u, env) || AsksShell(u, pent);
    && (AsksSecret(u, env) ==> env.encrypted.Some?)
    && if Gecos.NothingToFill(u.pw.gecos, Some(pent.gecos)) then other
       else var fields := Gecos.Filled(u.pw.gecos, Some(pent.gecos));
         && GetString(Some(pent.gecos), Gecos.USERTYPE) == Some(fields[Gecos.USERTYPE])
         && (other || Split(pent.gecos) != fields)
  }

  lemma DecidedWrite(u: UserReq, pent: Passwd, spent: Shadow, env: Env)
    requires UserReqOk(u)
    ensures DecideUpdate(u, pent, spent, env).1 <==> UpdateWanted(u, pent, env)
  {
    hide Gecos.Update, Gecos.NothingToFill, Gecos.Filled, Gecos.Canonical, Gecos.Rec;
    hide Split, Join, CopyShadow, ValidName, ValidDbString, ValidDbSecret;
    Gecos.UpdateRec(u.pw.gecos, Some(pent.gecos));
    var g := Gecos.Update(u.pw.gecos, Some(pent.gecos));
    if g.Some? {
      TypeField(g.value);
      JoinOfSplit(g.value);
      JoinOfSplit(pent.gecos);
      assert g.value == pent.gecos <==> Split(g.value) == Split(pent.gecos);
    }
  }

  /** The user is there and the request asks for something. */
  ghost predicate UserUpdates(db: Db, u: UserReq, env: Env, locked: bool) {
    var pent := GetPasswd(db.passwd, u.pw);
    locked && u.pw.uid != INVALID_ID && pent.Some? && UpdateWanted(u, pent.value, env)
  }

  /** When an update succeeds, whatever the line is like. */
  lemma UserUpdateSucceeds(db: Db, u: UserReq, env: Env, locked: bool)
    requires WritesSucceed(env.io) && UsersAgree(db.passwd, db.shadow) && UserReqOk(u)
    ensures UserUpdate(db, u, env, locked).ok <==> UserUpdates(db, u, env, locked)
  {
    hide WriteUser, DecideUpdate, GetPasswd, UpdateWanted;
    if GetPasswd(db.passwd, u.pw).Some? {
      var i := FindUser(db, u.pw);
      var pent, spent := db.passwd[i], GetSpNam(db.shadow, db.passwd[i].name).value;
      DecidedUserOk(u, pent, spent, env);
      DecidedWrite(u, pent, spent, env);
      WriteUserModifies(db, env.io, DecideUpdate(u, pent, spent, env).0, i);
    }
  }

  /** An update that finds something to do keeps the files in agreement exactly when the object is not misnamed. */
  lemma UserUpdateConsistent(db: Db, u: UserReq, env: Env, locked: bool)
    requires WritesSucceed(env.io) && Consistent(db) && UserReqOk(u)
    ensures var d := UserUpdate(db, u, env, locked);
      && UserReqOk(d.u) && SameShadowing(db, d.db)
      && (Consistent(d.db) <==> !(UserUpdates(db, u, env, locked) && MisnamedUser(db, u)))
  {
    hide WriteUser, DecideUpdate, GetPasswd, GroupsOk, UpdateWanted;
    UserUpdateSucceeds(db, u, env, locked);
    if GetPasswd(db.passwd, u.pw).Some? {
      var i := FindUser(db, u.pw);
      var pent, spent := db.passwd[i], GetSpNam(db.shadow, db.passwd[i].name).value;
      DecidedUserOk(u, pent, spent, env);
      var (w, write) := DecideUpdate(u, pent, spent, env);
      WriteUserModifies(db, env.io, w, i);
    }
  }

  /** Some text field is asked for that differs from the file. */
  ghost predicate NewText(gecos: Option<string>, old_: string) {
    exists f :: 0 <= f < Gecos.USERTYPE && Gecos.Rec(gecos)[f] !in {"", Gecos.Rec(Some(old_))[f]}
  }

  /** For a canonical line that comes to: the requested type is none or the one of the line, and something is new. */
  lemma CanonicalWanted(u: UserReq, pent: Passwd, env: Env)
    requires Gecos.Canonical(pent.gecos)
    ensures UpdateWanted(u, pent, env) <==>
      && Gecos.Rec(u.pw.gecos)[Gecos.USERTYPE] in {"", Gecos.Rec(Some(pent.gecos))[Gecos.USERTYPE]}
      && (AsksSecret(u, env) ==> env.encrypted.Some?)
      && (env.iconChanged || AsksSecret(u, env) || AsksShell(u, pent) || NewText(u.pw.gecos, pent.gecos))
  {
    hide Gecos.Canonical, Gecos.Rec, Gecos.Kept;
    var asked, line := u.pw.gecos, Some(pent.gecos);
    var a, b, c := Gecos.Rec(asked), Gecos.Rec(line), Gecos.Filled(asked, line);
    KeptOfCanonical(pent.gecos);
    assert Gecos.Kept(line, 0).Some?;
    assert forall f :: 0 <= f < Gecos.FIELD_COUNT ==> c[f] == if a[f] != "" then a[f] else b[f];
    if c[Gecos.USERTYPE] == b[Gecos.USERTYPE] && !NewText(asked, pent.gecos) {
      assert c == b;
    }
  }

  lemma KeptOfCanonical(gecos: string)
    requires Gecos.Canonical(gecos)
    ensures Gecos.Rec(Some(gecos)) == Split(gecos)
    ensures GetString(Some(gecos), Gecos.USERTYPE) == Some(Split(gecos)[Gecos.USERTYPE])
    ensures forall f :: 0 <= f < Gecos.FIELD_COUNT ==> Gecos.Kept(Some(gecos), f).GetOr("") == Split(gecos)[f]
    ensures Gecos.Kept(Some(gecos), 0).Some?
  {
    Gecos.CanonicalRec(Some(gecos));
  }

  /**
   * A line of fewer than five fields is refused every update, a new shell or a new secret included, unless
   * neither it nor the object has an acceptable field: the fields that are filled in look like a new type.
   */
  lemma ShortLineRefused(db: Db, u: UserReq, env: Env, locked: bool)
    requires WritesSucceed(env.io) && UsersAgree(db.passwd, db.shadow) && UserReqOk(u)
    requires GetPasswd(db.passwd, u.pw).Some?
    requires var gecos := GetPasswd(db.passwd, u.pw).value.gecos;
      |Split(gecos)| < Gecos.FIELD_COUNT && !Gecos.NothingToFill(u.pw.gecos, Some(gecos))
    ensures var d := UserUpdate(db, u, env, locked);
      !d.ok && d.db == db
  {
    hide UserUpdate, GetPasswd, Gecos.NothingToFill, Gecos.Filled;
    UserUpdateSucceeds(db, u, env, locked);
    UserUpdateExact(db, u, env, locked);
  }

  // ----- the object afterwards

  /** What the object holds once an update has found its user, whether anything is written or not. */
  ghost predicate FilledFrom(u: UserReq, v: UserReq, pent: Passwd, spent: Shadow, env: Env) {
    && v.pw.name == Some(pent.name) && v.pw.uid == pent.uid && v.pw.gid == pent.gid && v.pw.shell == u.pw.shell
    && v.pw.dir == (if ValidDbString(Some(pent.dir)) then Some(pent.dir) else u.pw.dir)
    && (if Gecos.NothingToFill(u.pw.gecos, Some(pent.gecos)) then v.pw.gecos == None
        else v.pw.gecos.Some? && Split(v.pw.gecos.value) == Gecos.Filled(u.pw.gecos, Some(pent.gecos)))
    && v.sp.name == Some(u.sp.name.GetOr(spent.name)) && v.sp.ageing == spent.ageing && v.nick == u.nick
    && (if AsksSecret(u, env)
        then v.sp.secret == env.encrypted && v.pw.passwd == if env.encrypted.Some? then Some("x") else u.pw.passwd
        else && v.sp.secret == Some(u.sp.secret.GetOr(spent.secret))
             && v.pw.passwd == if ValidDbSecret(Some(pent.passwd)) then Some(pent.passwd) else u.pw.passwd)
  }

  lemma UpdatedObject(db: Db, u: UserReq, env: Env, locked: bool)
    requires UsersAgree(db.passwd, db.shadow) && UserReqOk(u)
    ensures var v := UserUpdate(db, u, env, locked).u; var pent := GetPasswd(db.passwd, u.pw);
      if locked && u.pw.uid != INVALID_ID && pent.Some?
      then var spent := GetSpNam(db.shadow, pent.value.name);
        spent.Some? && FilledFrom(u, v, pent.value, spent.value, env)
      else v == u
  {
    hide WriteUser, DecideUpdate, GetPasswd, FilledFrom;
    if GetPasswd(db.passwd, u.pw).Some? {
      var i := FindUser(db, u.pw);
      var pent, spent := db.passwd[i], GetSpNam(db.shadow, db.passwd[i].name).value;
      UserNameValid(db.passwd, db.shadow, i);
      DecidedObject(u, pent, spent, env);
    }
  }

  lemma DecidedObject(u: UserReq, pent: Passwd, spent: Shadow, env: Env)
    requires UserReqOk(u) && ValidName(Some(pent.name)) && spent.name == pent.name
    requires u.pw.name.Some? ==> u.pw.name.value == pent.name
    ensures FilledFrom(u, DecideUpdate(u, pent, spent, env).0, pent, spent, env)
  {
    hide Gecos.Update, Gecos.NothingToFill, Gecos.Filled, Gecos.Canonical, Gecos.Rec;
    hide Split, ValidName, ValidDbString;
    DecidedUserOk(u, pent, spent, env);
    DecidedGecos(u, pent, spent, env);
    Gecos.UpdateRec(u.pw.gecos, Some(pent.gecos));
  }

  /**
   * After a successful update there is nothing left to update through the same object, unless the icon is
   * new or the line's password field is an old secret.
   */
  lemma UpdateTwice(db: Db, u: UserReq, env: Env, env': Env)
    requires WritesSucceed(env.io) && WritesSucceed(env'.io) && UsersAgree(db.passwd, db.shadow) && UserReqOk(u)
    requires !MisnamedUser(db, u) && UserUpdate(db, u, env, true).ok
    ensures var d := UserUpdate(db, u, env, true); var line := GetPasswd(d.db.passwd, d.u.pw);
      && line.Some?
      && (!OldSecret(line.value, env') && ValidDbSecret(Some(line.value.passwd)) ==>
            (UserUpdate(d.db, d.u, env', true).ok <==> env'.iconChanged))
  {
    hide UserUpdate, GetPasswd, UpdateWanted, Gecos.Filled, Gecos.NothingToFill, Gecos.Canonical, ValidDbSecret;
    hide ValidName, ValidDbString, OldSecret, UpdatedLine, FilledFrom;
    UpdatedObject(db, u, env, true);
    UserUpdateSucceeds(db, u, env, true);
    UserUpdateExact(db, u, env, true);
    var d := UserUpdate(db, u, env, true);
    StaysFit(db, u, env);
    var i: nat, j: nat :| UserUpdated(db, d.db, u, env, i, j);
    UserUpdateSucceeds(d.db, d.u, env', true);
    ShadowAt(db, i, j);
    FilledIds(u, d.u, db.passwd[i], d.db.passwd[i], db.shadow[j], env);
    Loading.UserFound(d.db.passwd, d.u.pw);
    assert Loading.Named(d.db.passwd[i], d.u.pw);
    if !OldSecret(d.db.passwd[i], env') && ValidDbSecret(Some(d.db.passwd[i].passwd)) {
      NothingLeft(u, d.u, db.passwd[i], d.db.passwd[i], db.shadow[j], env, env');
    }
  }

  lemma StaysFit(db: Db, u: UserReq, env: Env)
    requires WritesSucceed(env.io) && UsersAgree(db.passwd, db.shadow) && UserReqOk(u) && !MisnamedUser(db, u)
    ensures var d := UserUpdate(db, u, env, true);
      && UserReqOk(d.u) && UsersAgree(d.db.passwd, d.db.shadow)
      && Distinct(d.db.passwd, PwName) && Distinct(d.db.passwd, PwUid)
  {
    hide WriteUser, DecideUpdate, GetPasswd;
    if GetPasswd(db.passwd, u.pw).Some? {
      var i := FindUser(db, u.pw);
      var pent, spent := db.passwd[i], GetSpNam(db.shadow, db.passwd[i].name).value;
      DecidedUserOk(u, pent, spent, env);
      WriteUserModifies(db, env.io, DecideUpdate(u, pent, spent, env).0, i);
    }
  }

  lemma FilledIds(u: UserReq, v: UserReq, old_: Passwd, new_: Passwd, spent: Shadow, env: Env)
    requires FilledFrom(u, v, old_, spent, env) && UpdatedLine(u, old_, new_, env)
    ensures v.pw.name == Some(new_.name) && v.pw.uid == new_.uid == old_.uid
  {
  }

  lemma NothingLeft(u: UserReq, v: UserReq, old_: Passwd, new_: Passwd, spent: Shadow, env: Env, env': Env)
    requires FilledFrom(u, v, old_, spent, env) && UpdatedLine(u, old_, new_, env) && UserReqOk(v)
    requires AsksSecret(u, env) ==> env.encrypted.Some?
    requires !OldSecret(new_, env') && ValidDbSecret(Some(new_.passwd))
    ensures UpdateWanted(v, new_, env') <==> env'.iconChanged
  {
    hide Gecos.Canonical, Gecos.Rec, Gecos.Kept;
    if v.pw.gecos.Some? {
      Gecos.CanonicalRec(v.pw.gecos);
      KeptOfCanonical(new_.gecos);
    } else {
      EmptyGecos();
    }
  }

  // ----- objects that were loaded and not changed since

  /** The field of a line that an object takes over, empty if it does not. */
  ghost predicate TakenOver(line: string, fields: seq<string>) {
    |fields| == 5 && forall f :: 0 <= f < 5 ==> fields[f] == Gecos.Kept(Some(line), f).GetOr("")
  }

  /** The line's password field reads as a secret that is asked for: it is neither "x" nor refused. */
  ghost predicate OldSecret(pent: Passwd, env: Env) {
    pent.passwd != "x" && ValidDbSecret(Some(pent.passwd)) && !env.sameSecret
  }

  /**
   * An update through an object just loaded by uid, with nothing changed in it, exactly when it succeeds.
   * There is something to write if the line's password field is an old secret, if the icon is new, or if
   * the line's GECOS string is not what loading makes of it.
   */
  lemma UnchangedUpdate(db: Db, uid: Id, env: Env, fields: seq<string>)
    requires WritesSucceed(env.io) && UsersAgree(db.passwd, db.shadow)
    requires LoadUser(db, ByUid(uid)).Some? && TakenOver(GetPwUid(db.passwd, uid).GetOr(NOBODY).gecos, fields)
    ensures var pent := GetPwUid(db.passwd, uid).GetOr(NOBODY); var line := Some(pent.gecos);
      var other := env.iconChanged || OldSecret(pent, env);
      UserUpdate(db, LoadUser(db, ByUid(uid)).value, env, true).ok <==>
        && (OldSecret(pent, env) ==> env.encrypted.Some?)
        && if forall f :: 0 <= f < 5 ==> Gecos.Kept(line, f) == None then other
           else GetString(line, 4) == Some(fields[4]) && (other || Split(pent.gecos) != fields)
  {
    hide UserUpdate, LoadUser, Gecos.Kept, Gecos.Rec, ValidName, ValidDbString, ValidDbSecret, Gecos.CanonicalOrNull;
    var u := ByUid(uid);
    LoadedByUid(db, uid);
    var l := LoadUser(db, u).value;
    var pent := GetPwUid(db.passwd, uid).value;
    UserUpdateSucceeds(db, l, env, true);
    NullRecord();
    var line := Some(pent.gecos);
    assert Gecos.NothingToFill(l.pw.gecos, line) <==> forall f :: 0 <= f < 5 ==> Gecos.Kept(line, f) == None;
    assert Gecos.Filled(l.pw.gecos, line) == fields;
  }

  const NOBODY := Passwd("", "", 0, 0, "", "", "")

  function ByUid(uid: Id): UserReq {
    FRESH_USER.(pw := FRESH_USER.pw.(uid := uid))
  }

  lemma NullRecord()
    ensures forall f :: 0 <= f < 5 ==> Gecos.Rec(None)[f] == ""
  {
  }

  /** The loaded object finds its own line again, and is fit. */
  lemma LoadedByUid(db: Db, uid: Id)
    requires UsersAgree(db.passwd, db.shadow) && LoadUser(db, ByUid(uid)).Some?
    ensures var l := LoadUser(db, ByUid(uid)).value; var pent := GetPwUid(db.passwd, uid);
      && uid != INVALID_ID && pent.Some? && UserReqOk(l) && GetPasswd(db.passwd, l.pw) == pent
      && l.pw.uid == uid && l.sp.name == Some(pent.value.name) && GetSpNam(db.shadow, pent.value.name).Some?
      && Loading.LoadedFrom(ByUid(uid), l, pent.value, GetSpNam(db.shadow, pent.value.name).value)
  {
    hide CopyPasswd, CopyShadow, ValidDbString, ValidDbSecret, ValidName, Gecos.Rec, Gecos.Kept;
    var u := ByUid(uid);
    assert UserReqOk(u);
    Loading.UserLoaded(db, u);
    var i := FindUser(db, u.pw);
    UserNameValid(db.passwd, db.shadow, i);
    LoadedUserOk(u, db.passwd[i], GetSpNam(db.shadow, db.passwd[i].name).value);
    var l := LoadUser(db, u).value;
    Loading.UserFound(db.passwd, l.pw);
    assert Loading.Named(db.passwd[i], l.pw);
  }

  /**
   * For a line that is as an add writes it: there is nothing to update unless the icon is new. The update is
   * refused and nothing is written.
   */
  lemma NothingToUpdate(db: Db, uid: Id, env: Env)
    requires WritesSucceed(env.io) && UsersAgree(db.passwd, db.shadow) && LoadUser(db, ByUid(uid)).Some?
    requires var pent := GetPwUid(db.passwd, uid).GetOr(NOBODY); pent.passwd == "x" && Gecos.Canonical(pent.gecos)
    ensures var d := UserUpdate(db, LoadUser(db, ByUid(uid)).value, env, true);
      (d.ok <==> env.iconChanged) && (!d.ok ==> d.db == db)
  {
    hide UserUpdate, LoadUser, Gecos.Kept, Gecos.Canonical, Gecos.Rec;
    var pent := GetPwUid(db.passwd, uid).GetOr(NOBODY);
    LoadedByUid(db, uid);
    KeptOfCanonical(pent.gecos);
    CanonicalSize(pent.gecos);
    UnchangedUpdate(db, uid, env, Split(pent.gecos));
    UserUpdateExact(db, LoadUser(db, ByUid(uid)).value, env, true);
  }

  lemma CanonicalSize(gecos: string)
    requires Gecos.Canonical(gecos)
    ensures |Split(gecos)| == 5
  {
  }

  // ----- concrete updates

  /** "ann" is loaded by uid and given a secret. */
  function SecretRequest(db: Db): UserReq
    requires LoadUser(db, ByUid(1000)).Some?
  {
    var l := LoadUser(db, ByUid(1000)).value;
    l.(pw := SetPasswd(l.pw, Some("newpass")))
  }

  lemma SecretRequestOk(db: Db, ageing: Ageing)
    requires OneUser(db, "", "$6$old", ageing)
    ensures LoadUser(db, ByUid(1000)).Some?
    ensures var u := SecretRequest(db);
      && UserReqOk(u) && u.pw.uid == 1000 && u.pw.passwd == Some("newpass") && u.pw.gecos == None
      && u.pw.shell == Some("/bin/sh") && u.sp.name == Some("ann")
      && UsersAgree(db.passwd, db.shadow) && GetPasswd(db.passwd, u.pw) == Some(db.passwd[0])
  {
    hide CopyPasswd, ValidName, ValidDbString, ValidDbSecret, Gecos.Load;
    OneUserAgrees(db, "", "$6$old", ageing);
    assert db.passwd[0].uid == 1000 && db.shadow[0].name == "ann";
    assert GetPasswd(db.passwd, ByUid(1000).pw) == Some(db.passwd[0]);
    assert GetSpNam(db.shadow, "ann") == Some(db.shadow[0]);
    LoadedByUid(db, 1000);
    StringsByCharacters("newpass");
    StringsByCharacters("/bin/sh");
    EmptyGecos();
    Loading.UserFound(db.passwd, SecretRequest(db).pw);
    AnnIsValid();
  }

  lemma EmptyGecos()
    ensures forall f :: 0 <= f < 5 ==> Gecos.Kept(Some(""), f) == None
  {
  }

  /** The new secret is written, encrypted, if it is another one than before. */
  lemma SecretChanged(db: Db, env: Env, ageing: Ageing)
    requires WritesSucceed(env.io) && OneUser(db, "", "$6$old", ageing)
    requires !env.sameSecret && env.encrypted == Some("$6$new")
    ensures LoadUser(db, ByUid(1000)).Some?
    ensures var d := UserUpdate(db, SecretRequest(db), env, true);
      d.ok && d.db.shadow == [Shadow("ann", "$6$new", ageing)] && d.db.passwd == db.passwd
  {
    hide UserUpdate, GetPasswd, Gecos.Kept, LoadUser, UsersAgree, ValidName, ValidDbString, ValidDbSecret;
    SecretRequestOk(db, ageing);
    var u := SecretRequest(db);
    EmptyGecos();
    assert Gecos.NothingToFill(u.pw.gecos, Some(""));
    UserUpdateSucceeds(db, u, env, true);
    UserUpdateExact(db, u, env, true);
    var d := UserUpdate(db, u, env, true);
    var i: nat, j: nat :| UserUpdated(db, d.db, u, env, i, j);
    AnnIsValid();
    assert d.db.shadow[0] == Shadow("ann", "$6$new", ageing);
    assert d.db.passwd[0] == db.passwd[0];
  }

  /** A secret that is the one in the file is no change: the update is refused and nothing is written. */
  lemma SameSecretRefused(db: Db, env: Env, ageing: Ageing)
    requires WritesSucceed(env.io) && OneUser(db, "", "$6$old", ageing) && env.sameSecret && !env.iconChanged
    ensures LoadUser(db, ByUid(1000)).Some?
    ensures var d := UserUpdate(db, SecretRequest(db), env, true);
      !d.ok && d.db == db
  {
    hide UserUpdate, GetPasswd, Gecos.Kept, LoadUser, UsersAgree, ValidName, ValidDbString, ValidDbSecret;
    SecretRequestOk(db, ageing);
    var u := SecretRequest(db);
    EmptyGecos();
    assert Gecos.NothingToFill(u.pw.gecos, Some(""));
    UserUpdateSucceeds(db, u, env, true);
    UserUpdateExact(db, u, env, true);
  }

  /** A concrete refusal: the user "ann" is loaded by uid and asks for a new shell, but her GECOS field is "Ann". */
  lemma LoadedUserRefused(db: Db, env: Env, ageing: Ageing)
    requires WritesSucceed(env.io) && OneUser(db, "Ann", "$6$hash", ageing)
    ensures var l := LoadUser(db, FRESH_USER.(pw := FRESH_USER.pw.(uid := 1000)));
      && l.Some?
      && var u := l.value.(pw := SetShell(l.value.pw, Some("/bin/zsh")));
         u.pw.shell == Some("/bin/zsh") && !UserUpdate(db, u, env, true).ok
  {
    hide UserUpdate, CopyPasswd, Gecos.Load, ValidDbString;
    OneUserAgrees(db, "Ann", "$6$hash", ageing);
    var fresh_ := FRESH_USER.(pw := FRESH_USER.pw.(uid := 1000));
    assert db.passwd[0].uid == 1000 && db.shadow[0].name == "ann";
    var i := FindUser(db, fresh_.pw);
    LoadedUserOk(fresh_, db.passwd[0], db.shadow[0]);
    var v := LoadUser(db, fresh_).value;
    var u := v.(pw := SetShell(v.pw, Some("/bin/zsh")));
    ZshIsValid();
    FieldsOfPlain("Ann");
    AnnIsKept();
    ShortLineRefused(db, u, env, true);
  }

  lemma ZshIsValid()
    ensures ValidDbString(Some("/bin/zsh")) && ValidDbString(Some("Ann"))
  {
  }

  lemma AnnIsKept()
    ensures Gecos.Kept(Some("Ann"), 0) == Some("Ann")
  {
    FieldsOfPlain("Ann");
  }

  /** An object of the user "ann" that asks for a shell, or for none, with whatever its shadow entry holds. */
  function ShellRequest(sp: SpReq, shell: Option<string>): UserReq {
    UserReq(PwReq(Some("ann"), Some("x"), 1000, 100, None, Some("/home/ann"), shell), sp, None)
  }

  /** The first user of the files is "ann". */
  ghost predicate AnnFirst(db: Db) {
    && db.passwd != [] && db.passwd[0] == Passwd("ann", "x", 1000, 100, "", "/home/ann", "/bin/sh")
    && db.shadow != [] && db.shadow[0].name == "ann"
  }

  lemma ShellUpdate(db: Db, env: Env, sp: SpReq, shell: Option<string>)
    requires WritesSucceed(env.io) && UsersAgree(db.passwd, db.shadow) && AnnFirst(db)
    requires shell in {None, Some("/bin/zsh")} && (shell.Some? || env.iconChanged)
    ensures var u, s := ShellRequest(sp, shell), db.shadow[0]; var d := UserUpdate(db, u, env, true);
      && UserReqOk(u) && d.ok && GetPasswd(db.passwd, u.pw) == Some(db.passwd[0])
      && d.db.passwd == db.passwd[0 := db.passwd[0].(shell := shell.GetOr(""))]
      && d.db.shadow == db.shadow[0 := Shadow(sp.name.GetOr("ann"), sp.secret.GetOr(s.secret), s.ageing)]
  {
    hide UserUpdate, Gecos.Canonical, ValidName, ValidDbString, ValidDbSecret;
    var u := ShellRequest(sp, shell);
    AnnIsValid();
    ZshIsValid();
    assert GetPasswd(db.passwd, u.pw) == Some(db.passwd[0]);
    assert Gecos.NothingToFill(None, Some(""));
    UserUpdateSucceeds(db, u, env, true);
    UserUpdateExact(db, u, env, true);
    var d := UserUpdate(db, u, env, true);
    var i: nat, j: nat :| UserUpdated(db, d.db, u, env, i, j);
    assert i == 0 by {
      assert PwUid(db.passwd[i]) == PwUid(db.passwd[0]);
    }
    assert j == 0 by {
      assert SpName(db.shadow[j]) == SpName(db.shadow[0]);
    }
    assert d.db.passwd[0] == db.passwd[0].(shell := shell.GetOr(""));
  }

  lemma AnnIsValid()
    ensures ValidName(Some("ann")) && ValidDbSecret(Some("x")) && ValidDbString(Some("/home/ann"))
  {
    assert "ann"[0] == 'a' && "ann"[1] == 'n' && "ann"[2] == 'n';
  }

  /**
   * A concrete reversal: an object loaded before the secret was changed asks for a new shell, and the old
   * secret is back.
   */
  lemma StaleUpdateRevertsSecret(db: Db, env: Env, ageing: Ageing)
    requires WritesSucceed(env.io) && OneUser(db, "", "$6$new", ageing)
    ensures var u := ShellRequest(SpReq(Some("ann"), Some("$6$old"), ageing), Some("/bin/zsh"));
      var d := UserUpdate(db, u, env, true);
      d.ok && d.db.shadow == [Shadow("ann", "$6$old", ageing)]
  {
    hide UserUpdate;
    OneUserAgrees(db, "", "$6$new", ageing);
    ShellUpdate(db, env, SpReq(Some("ann"), Some("$6$old"), ageing), Some("/bin/zsh"));
  }

  /** A concrete loss: an object of "bob", renamed to "ann" who now has the uid, leaves "ann" without a shadow entry. */
  lemma RenamedUpdateLosesUser(db: Db, env: Env, ageing: Ageing)
    requires WritesSucceed(env.io) && OneUser(db, "", "$6$ann", ageing)
    ensures var u := ShellRequest(SpReq(Some("bob"), Some("$6$bob"), ageing), Some("/bin/zsh"));
      var d := UserUpdate(db, u, env, true);
      d.ok && d.db.shadow == [Shadow("bob", "$6$bob", ageing)] && !Consistent(d.db)
  {
    hide UserUpdate, Consistent, GetPasswd;
    OneUserAgrees(db, "", "$6$ann", ageing);
    var sp := SpReq(Some("bob"), Some("$6$bob"), ageing);
    ShellUpdate(db, env, sp, Some("/bin/zsh"));
    UserUpdateConsistent(db, ShellRequest(sp, Some("/bin/zsh")), env, true);
  }

  /** A concrete loss: an object that holds no shell changes the icon, and the user's shell is gone. */
  lemma UpdateEmptiesShell(db: Db, env: Env, ageing: Ageing)
    requires WritesSucceed(env.io) && env.iconChanged && OneUser(db, "", "$6$ann", ageing)
    ensures var d := UserUpdate(db, ShellRequest(SpReq(None, None, ageing), None), env, true);
      d.ok && d.db.passwd == [Passwd("ann", "x", 1000, 100, "", "/home/ann", "")]
  {
    hide UserUpdate;
    OneUserAgrees(db, "", "$6$ann", ageing);
    ShellUpdate(db, env, SpReq(None, None, ageing), None);
  }
}
