/**
 * Which entries the lookups find, and what an object holds once it is loaded from them, whatever the
 * entries are like.
 */
module Loading {
  import opened Types
  import opened Sequences
  import opened StringUtils
  import opened Validate
  import opened GroupSpec
  import opened UserSpec
  import Gecos

  // ----- lookups

  /** The entry is the one that a request names by uid or name: it has both, where they are set, and one is. */
  ghost predicate Named(e: Passwd, pw: PwReq) {
    && (pw.uid != INVALID_ID || pw.name.Some?)
    && (pw.uid != INVALID_ID ==> e.uid == pw.uid) && (pw.name.Some? ==> e.name == pw.name.value)
  }

  /** In a file without doubled names and uids a user is found exactly when the request names it. */
  lemma UserFound(s: seq<Passwd>, pw: PwReq)
    requires Distinct(s, PwName) && Distinct(s, PwUid)
    ensures forall i :: 0 <= i < |s| ==> (GetPasswd(s, pw) == Some(s[i]) <==> Named(s[i], pw))
    ensures GetPasswd(s, pw).Some? <==> exists i :: 0 <= i < |s| && Named(s[i], pw)
  {
    forall i, j | 0 <= i < j < |s| ensures s[i].name != s[j].name && s[i].uid != s[j].uid {
      assert PwName(s[i]) != PwName(s[j]) && PwUid(s[i]) != PwUid(s[j]);
    }
    var r := GetPasswd(s, pw);
    if r.Some? {
      var i :| 0 <= i < |s| && s[i] == r.value;
      assert Named(s[i], pw);
    }
  }

  ghost predicate NamedGroup(e: Group, gr: GrReq) {
    && (gr.gid != INVALID_ID || gr.name.Some?)
    && (gr.gid != INVALID_ID ==> e.gid == gr.gid) && (gr.name.Some? ==> e.name == gr.name.value)
  }

  lemma GroupFound(s: seq<Group>, gr: GrReq)
    requires Distinct(s, GrName) && Distinct(s, GrGid)
    ensures forall i :: 0 <= i < |s| ==> (GetGroup(s, gr) == Some(s[i]) <==> NamedGroup(s[i], gr))
    ensures GetGroup(s, gr).Some? <==> exists i :: 0 <= i < |s| && NamedGroup(s[i], gr)
  {
    forall i, j | 0 <= i < j < |s| ensures s[i].name != s[j].name && s[i].gid != s[j].gid {
      assert GrName(s[i]) != GrName(s[j]) && GrGid(s[i]) != GrGid(s[j]);
    }
    var r := GetGroup(s, gr);
    if r.Some? {
      var i :| 0 <= i < |s| && s[i] == r.value;
      assert NamedGroup(s[i], gr);
    }
  }

  /** The lookups by one key find the first entry that has it. */
  lemma LookupsExact(db: Db, name: string, id: Id)
    ensures FirstWith(db.passwd, PwName, name, GetPwNam(db.passwd, name))
    ensures FirstWith(db.passwd, PwUid, id, GetPwUid(db.passwd, id))
    ensures FirstWith(db.shadow, SpName, name, GetSpNam(db.shadow, name))
    ensures FirstWith(db.group, GrName, name, GetGrNam(db.group, name))
    ensures FirstWith(db.group, GrGid, id, GetGrGid(db.group, id))
    ensures FirstWith(db.gshadow.GetOr([]), SgName, name, GetSgNam(db.gshadow, name))
    ensures if id == INVALID_ID then FindUserByGid(db.passwd, id) == None
            else FirstWith(db.passwd, PwGid, id, FindUserByGid(db.passwd, id))
  {
    FoundFirst(db.passwd, (e: Passwd) => e.name == name, PwName, name);
    FoundFirst(db.passwd, (e: Passwd) => e.uid == id, PwUid, id);
    FoundFirst(db.passwd, (e: Passwd) => e.gid == id, PwGid, id);
    FoundFirst(db.shadow, (e: Shadow) => e.name == name, SpName, name);
    FoundFirst(db.group, (e: Group) => e.name == name, GrName, name);
    FoundFirst(db.group, (e: Group) => e.gid == id, GrGid, id);
    FoundFirst(db.gshadow.GetOr([]), (e: Gshadow) => e.name == name, SgName, name);
  }

  ghost predicate FirstWith<R, K>(s: seq<R>, key: R -> K, k: K, r: Option<R>) {
    if r.Some?
    then exists i :: 0 <= i < |s| && s[i] == r.value && key(s[i]) == k && forall j :: 0 <= j < i ==> key(s[j]) != k
    else forall i :: 0 <= i < |s| ==> key(s[i]) != k
  }

  lemma FoundFirst<R, K>(s: seq<R>, p: R -> bool, key: R -> K, k: K)
    requires forall e :: p(e) <==> key(e) == k
    ensures FirstWith(s, key, k, Find(s, p))
  {
    var i := First(s, p);
  }

  // ----- property setters

  /** A value is taken over exactly when its validator accepts it, and nothing else changes. */
  lemma SettersTake(pw: PwReq, gr: GrReq, v: Option<string>)
    ensures SetUserName(pw, v) == pw.(name := if ValidName(v) then v else pw.name)
    ensures SetPasswd(pw, v) == pw.(passwd := if ValidDbSecret(v) then v else pw.passwd)
    ensures SetDir(pw, v) == pw.(dir := if ValidDbString(v) then v else pw.dir)
    ensures SetShell(pw, v) == pw.(shell := if ValidDbString(v) then v else pw.shell)
    ensures SetGroupName(gr, v) == gr.(name := if ValidName(v) then v else gr.name)
    ensures SetGroupPasswd(gr, v) == gr.(passwd := if ValidDbSecret(v) then v else gr.passwd)
  {
  }

  // ----- loading a user

  /**
   * What an object holds once it is loaded from two entries: each string of passwd, and each field of the
   * GECOS string, if it is acceptable, and the object's own where it is not; the ids and all of shadow.
   */
  ghost predicate LoadedFrom(u: UserReq, v: UserReq, pent: Passwd, spent: Shadow) {
    && v.pw.name == (if ValidName(Some(pent.name)) then Some(pent.name) else u.pw.name)
    && v.pw.passwd == (if ValidDbSecret(Some(pent.passwd)) then Some(pent.passwd) else u.pw.passwd)
    && v.pw.uid == pent.uid && v.pw.gid == pent.gid
    && v.pw.dir == (if ValidDbString(Some(pent.dir)) then Some(pent.dir) else u.pw.dir)
    && v.pw.shell == (if ValidDbString(Some(pent.shell)) then Some(pent.shell) else u.pw.shell)
    && (forall f :: 0 <= f < 5 ==>
          Gecos.Rec(v.pw.gecos)[f] == Gecos.Kept(Some(pent.gecos), f).GetOr(Gecos.Rec(u.pw.gecos)[f]))
    && (v.pw.gecos == None <==>
          u.pw.gecos == None && forall f :: 0 <= f < 5 ==> Gecos.Kept(Some(pent.gecos), f) == None)
    && v.sp == SpReq(Some(spent.name), Some(spent.secret), spent.ageing) && v.nick == u.nick
  }

  /** Loading succeeds exactly when both entries are found, and takes over what they hold. */
  lemma UserLoaded(db: Db, u: UserReq)
    requires Gecos.CanonicalOrNull(u.pw.gecos)
    ensures var pent := GetPasswd(db.passwd, u.pw); var l := LoadUser(db, u);
      && (l.Some? <==> pent.Some? && GetSpNam(db.shadow, pent.value.name).Some?)
      && (l.Some? ==> LoadedFrom(u, l.value, pent.value, GetSpNam(db.shadow, pent.value.name).value))
  {
    hide Gecos.Load, Gecos.Rec, Gecos.Kept, Gecos.CanonicalOrNull, GetPasswd, GetSpNam;
    hide ValidName, ValidDbString, ValidDbSecret;
    var pent := GetPasswd(db.passwd, u.pw);
    if pent.Some? {
      Gecos.LoadRec(u.pw.gecos, Some(pent.value.gecos));
    }
  }

  /**
   * The entries that a fresh object was loaded from are the first ones of the uid, and of the name that
   * goes with it.
   */
  ghost predicate LoadedByUid(db: Db, uid: Id, v: UserReq) {
    exists pent, spent ::
      && FirstWith(db.passwd, PwUid, uid, Some(pent)) && FirstWith(db.shadow, SpName, pent.name, Some(spent))
      && LoadedFrom(FRESH_USER, v, pent, spent)
  }

  ghost predicate LoadedByName(db: Db, name: string, v: UserReq) {
    exists pent, spent ::
      && FirstWith(db.passwd, PwName, name, Some(pent)) && FirstWith(db.shadow, SpName, name, Some(spent))
      && LoadedFrom(FRESH_USER, v, pent, spent)
  }

  /** Loading by uid, into a fresh object. */
  lemma FreshByUid(db: Db, uid: Id)
    ensures var l := LoadUser(db, FRESH_USER.(pw := FRESH_USER.pw.(uid := uid)));
      l.Some? ==> LoadedByUid(db, uid, l.value)
  {
    hide LoadUser, ValidName, ValidDbString, ValidDbSecret, Gecos.Rec, Gecos.Kept, FirstWith;
    var u := FRESH_USER.(pw := FRESH_USER.pw.(uid := uid));
    UserLoaded(db, u);
    if LoadUser(db, u).Some? {
      var pent := GetPasswd(db.passwd, u.pw).value;
      LookupsExact(db, pent.name, uid);
      var spent := GetSpNam(db.shadow, pent.name).value;
      assert LoadedFrom(FRESH_USER, LoadUser(db, u).value, pent, spent);
    }
  }

  /** Loading by name, into a fresh object. */
  lemma FreshByName(db: Db, name: string)
    ensures var l := LoadUser(db, FRESH_USER.(pw := SetUserName(FRESH_USER.pw, Some(name))));
      && (l.Some? ==> LoadedByName(db, name, l.value))
      && (l.Some? <==> ValidName(Some(name)) && name in Keys(db.passwd, PwName) && name in Keys(db.shadow, SpName))
  {
    hide LoadUser, ValidName, ValidDbString, ValidDbSecret, Gecos.Rec, Gecos.Kept;
    var u := FRESH_USER.(pw := SetUserName(FRESH_USER.pw, Some(name)));
    UserLoaded(db, u);
    LookupsExact(db, name, 0);
    ByNameOnly(db, name);
    if LoadUser(db, u).Some? {
      var pent, spent := GetPwNam(db.passwd, name).value, GetSpNam(db.shadow, name).value;
      assert LoadedFrom(FRESH_USER, LoadUser(db, u).value, pent, spent);
    }
  }

  lemma ByNameOnly(db: Db, name: string)
    ensures var pw := SetUserName(FRESH_USER.pw, Some(name));
      GetPasswd(db.passwd, pw) == if ValidName(Some(name)) then GetPwNam(db.passwd, name) else None
    ensures GetPwNam(db.passwd, name).Some? ==> GetPwNam(db.passwd, name).value.name == name
    ensures GetPwNam(db.passwd, name).Some? <==> name in Keys(db.passwd, PwName)
    ensures GetSpNam(db.shadow, name).Some? <==> name in Keys(db.shadow, SpName)
  {
    hide ValidName;
    if name in Keys(db.passwd, PwName) {
      var i :| 0 <= i < |db.passwd| && PwName(db.passwd[i]) == name;
      assert db.passwd[i].name == name;
    }
    if name in Keys(db.shadow, SpName) {
      var i :| 0 <= i < |db.shadow| && SpName(db.shadow[i]) == name;
      assert db.shadow[i].name == name;
    }
  }

  // ----- loading a group

  ghost predicate GroupLoadedFrom(g: GroupReq, h: GroupReq, grp: Group, sgrp: Option<Gshadow>) {
    && h.gr.name == (if ValidName(Some(grp.name)) then Some(grp.name) else g.gr.name)
    && h.gr.passwd == (if ValidDbSecret(Some(grp.passwd)) then Some(grp.passwd) else g.gr.passwd)
    && h.gr.gid == grp.gid && h.gr.mem == Some(grp.mem) && h.kind == g.kind
    && h.sg == match sgrp
               case None => g.sg
               case Some(s) => SgReq(Some(s.name), Some(s.secret), Some(s.adm), Some(s.mem))
  }

  /** Loading a group succeeds exactly when its line is found; gshadow need not have it. */
  lemma GroupLoaded(db: Db, g: GroupReq)
    ensures var grp := GetGroup(db.group, g.gr); var l := LoadGroup(db, g);
      && (l.Some? <==> grp.Some?)
      && (l.Some? ==> GroupLoadedFrom(g, l.value, grp.value, GetSgNam(db.gshadow, grp.value.name)))
  {
    hide GetGroup, GetSgNam, ValidName, ValidDbSecret;
  }

  // ----- short lines

  /** A line with two fields: both are taken over, and the other three are empty. */
  lemma TwoFieldsLoaded(name: string, office: string)
    requires ValidDbString(Some(name)) && ValidDbString(Some(office))
    ensures Gecos.Load(None, Some(Join([name, office]))) == Some(Join([name, office, "", "", ""]))
  {
    hide Join, Split, GetString, Gecos.Load, Gecos.Canonical;
    var line, full := [name, office], [name, office, "", "", ""];
    var text := Some(Join(line));
    forall i: nat ensures GetString(text, i) == if i < 2 then Some(line[i]) else None {
      GetStringOfJoin(line, i);
    }
    Gecos.LoadRec(None, text);
    NothingInNull();
    assert Gecos.Kept(text, 0) == Some(name) && Gecos.Kept(text, 1) == Some(office);
    assert Gecos.Kept(text, 2) == None == Gecos.Kept(text, 3) && Gecos.Kept(text, 4) == None;
    var g := Gecos.Load(None, text);
    assert Gecos.Rec(g) == full;
    Gecos.CanonicalRec(g);
    JoinOfSplit(g.value);
  }

  lemma NothingInNull()
    ensures forall i: nat :: GetString(None, i) == None
  {
  }

  /** A concrete one. */
  lemma AnnLoaded()
    ensures Gecos.Load(None, Some("Ann Smith" + "," + "Room 1")) == Some("Ann Smith" + "," + "Room 1" + ",,,")
  {
    hide ValidDbString, Gecos.Load;
    var name, office := "Ann Smith", "Room 1";
    OrdinaryTexts();
    PrintableIsAccepted(office);
    TwoFieldsLoaded(name, office);
    JoinTwo(name, office);
  }

  lemma JoinTwo(a: string, b: string)
    ensures Join([a, b]) == a + "," + b
    ensures Join([a, b, "", "", ""]) == a + "," + b + ",,,"
  {
    var v := [a, b, "", "", ""];
    assert [a, b][1..] == [b];
    assert v[1..] == [b, "", "", ""] && [b, "", "", ""][1..] == ["", "", ""];
    assert ["", "", ""][1..] == ["", ""] && ["", ""][1..] == [""];
    assert Join(["", "", ""]) == ",,";
  }
}
