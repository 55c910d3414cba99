/** What a client's requests achieve, from the first to the last. */
module Clients {
  import opened Types
  import opened Sequences
  import opened Validate
  import opened GroupSpec
  import opened UserSpec
  import opened GroupAgreement
  import opened UserConsistency
  import opened Runs
  import opened UserTheorems
  import opened UserUpdateTheorems
  import Cases
  import Gecos
  import GroupTheorems
  import Loading

  /**
   * A client loads "ann" by uid, sets another shell and updates her: her line has the shell, and nothing
   * else changes.
   */
  lemma ClientChangesShell(w: World, h: nat, env: Env, cfg: Config, ageing: Ageing)
    requires WritesSucceed(env.io) && env.lockOk && OneUser(w.db, "", "$6$ann", ageing) && env.sameSecret
    ensures var actions := [Action(LoadUserBy(h, ById(1000)), env), Action(SetUser(h, Shell(Some("/bin/zsh"))), env),
                            Action(OnUser(h, UpdateUser), env)];
      var r := Run(w, actions, cfg).db;
      && r.passwd == [w.db.passwd[0].(shell := "/bin/zsh")]
      && r.shadow == w.db.shadow && r.group == w.db.group && r.gshadow == w.db.gshadow
  {
    hide UserUpdate, LoadUser, GetPasswd, Gecos.Kept, ValidName, ValidDbString, ValidDbSecret, UsersAgree, GroupsOk;
    var l := LoadUser(w.db, ByUid(1000));
    AnnLoads(w.db, "$6$ann", ageing);
    var u := l.value.(pw := SetShell(l.value.pw, Some("/bin/zsh")));
    RunThree(w, h, env, cfg);
    ZshIsValid();
    AnnIsValid();
    EmptyGecos();
    Loading.UserFound(w.db.passwd, u.pw);
    assert Loading.Named(w.db.passwd[0], u.pw);
    assert Gecos.NothingToFill(u.pw.gecos, Some(""));
    UserUpdateSucceeds(w.db, u, env, true);
    UserUpdateExact(w.db, u, env, true);
    var d := UserUpdate(w.db, u, env, true).db;
    var i: nat, j: nat :| UserUpdated(w.db, d, u, env, i, j);
    assert d.passwd[0] == w.db.passwd[0].(shell := "/bin/zsh");
    assert d.shadow[0] == w.db.shadow[0];
  }

  lemma AnnLoads(db: Db, secret: string, ageing: Ageing)
    requires OneUser(db, "", secret, ageing)
    ensures UsersAgree(db.passwd, db.shadow) && Distinct(db.passwd, PwName) && Distinct(db.passwd, PwUid)
    ensures var l := LoadUser(db, ByUid(1000));
      && l.Some? && UserReqOk(l.value) && l.value.pw.name == Some("ann") && l.value.pw.uid == 1000
      && l.value.pw.gecos == None && l.value.sp == SpReq(Some("ann"), Some(secret), ageing)
      && l.value.pw.passwd == Some("x")
  {
    hide CopyPasswd, ValidName, ValidDbString, ValidDbSecret, Gecos.Load;
    OneUserAgrees(db, "", secret, ageing);
    assert db.passwd[0].uid == 1000 && db.shadow[0].name == "ann";
    assert GetPasswd(db.passwd, ByUid(1000).pw) == Some(db.passwd[0]);
    assert GetSpNam(db.shadow, "ann") == Some(db.shadow[0]);
    LoadedByUid(db, 1000);
    EmptyGecos();
    AnnIsValid();
  }

  lemma RunThree(w: World, h: nat, env: Env, cfg: Config)
    requires env.lockOk && LoadUser(w.db, ByUid(1000)).Some?
    ensures var actions := [Action(LoadUserBy(h, ById(1000)), env), Action(SetUser(h, Shell(Some("/bin/zsh"))), env),
                            Action(OnUser(h, UpdateUser), env)];
      var l := LoadUser(w.db, ByUid(1000)).value;
      Run(w, actions, cfg).db == UserUpdate(w.db, l.(pw := SetShell(l.pw, Some("/bin/zsh"))), env, true).db
  {
    hide UserUpdate, LoadUser, SetShell;
    var a, b, c := Action(LoadUserBy(h, ById(1000)), env), Action(SetUser(h, Shell(Some("/bin/zsh"))), env),
                   Action(OnUser(h, UpdateUser), env);
    assert [a, b, c][1..] == [b, c] && [b, c][1..] == [c] && [c][1..] == [];
    var v := Step(w, a, cfg);
    var x := Step(v, b, cfg);
    assert Run(w, [a, b, c], cfg) == Run(v, [b, c], cfg) == Run(x, [c], cfg) == Step(x, c, cfg);
  }

  /** A client loads "ann" by name and deletes her: her lines are gone, and she is in no list any more. */
  lemma ClientDeletesUser(w: World, h: nat, env: Env, cfg: Config, ageing: Ageing)
    requires WritesSucceed(env.io) && env.lockOk && env.terminated && env.euid == 0 && env.egid == 0
    requires OneUser(w.db, "", "$6$ann", ageing)
    ensures var actions := [Action(LoadUserBy(h, ByName("ann")), env), Action(OnUser(h, DeleteUser(false)), env)];
      var r := Run(w, actions, cfg).db;
      r.passwd == [] && r.shadow == [] && NowhereListed(r, "ann")
  {
    hide UserDelete, LoadUser, GetPasswd, ValidName, ValidDbString, ValidDbSecret, UsersAgree;
    hide GroupsOk, NowhereListed, Left;
    hide TypeOnLine, GidGoes, Removable;
    AnnIsValid();
    OneUserAgrees(w.db, "", "$6$ann", ageing);
    AnnByName(w.db, ageing);
    var u := LoadUser(w.db, UserToLoad(ByName("ann"))).value;
    RunTwo(w, h, env, cfg);
    OnlyGroup(w.db, env);
    UserDeleteSucceeds(w.db, u, false, env);
    UserDeleteExact(w.db, u, false, env, true);
    var d := UserDelete(w.db, u, false, env, true);
    var i: nat, j: nat :| UserGone(w.db, d.db, d.u, i, j);
    assert d.u.pw.name == Some("ann");
  }

  lemma AnnByName(db: Db, ageing: Ageing)
    requires OneUser(db, "", "$6$ann", ageing)
    ensures var l := LoadUser(db, UserToLoad(ByName("ann")));
      && l.Some? && UserReqOk(l.value) && l.value.pw.uid == 1000
      && GetPasswd(db.passwd, l.value.pw) == Some(db.passwd[0])
  {
    hide CopyPasswd, ValidName, ValidDbString, ValidDbSecret, UsersAgree;
    AnnIsValid();
    OneUserAgrees(db, "", "$6$ann", ageing);
    assert db.passwd[0].name == "ann" && db.passwd[0].uid == 1000 && db.shadow[0].name == "ann";
    var u := UserToLoad(ByName("ann"));
    UserToLoadOk(ByName("ann"));
    assert GetPasswd(db.passwd, u.pw) == Some(db.passwd[0]);
    assert GetSpNam(db.shadow, "ann") == Some(db.shadow[0]);
    LoadedUserOk(u, db.passwd[0], db.shadow[0]);
  }

  lemma OnlyGroup(db: Db, env: Env)
    requires |db.group| == 1 && db.group[0].gid == 100 && db.group[0].name == "g" && env.egid == 0
    requires db.gshadow == Some([Gshadow("g", "!", [], ["ann"])])
    ensures GidGoes(db, 100, env) && Removable(db, 100)
  {
    assert "g"[0] == 'g';
    KeyIn(db.group, GrGid, 0);
    KeyIn(db.gshadow.value, SgName, 0);
  }

  lemma RunTwo(w: World, h: nat, env: Env, cfg: Config)
    requires env.lockOk && LoadUser(w.db, UserToLoad(ByName("ann"))).Some?
    ensures var actions := [Action(LoadUserBy(h, ByName("ann")), env), Action(OnUser(h, DeleteUser(false)), env)];
      Run(w, actions, cfg).db == UserDelete(w.db, LoadUser(w.db, UserToLoad(ByName("ann"))).value, false, env, true).db
  {
    hide UserDelete, LoadUser, UserToLoad;
    var a, b := Action(LoadUserBy(h, ByName("ann")), env), Action(OnUser(h, DeleteUser(false)), env);
    assert [a, b][1..] == [b] && [b][1..] == [];
    var v := Step(w, a, cfg);
    assert Run(w, [a, b], cfg) == Run(v, [b], cfg) == Step(v, b, cfg);
  }

  /** A client makes a group object, names it and adds the group. */
  lemma ClientAddsGroup(w: World, h: nat, env: Env, cfg: Config)
    requires WritesSucceed(env.io) && env.lockOk && w.db.group == [] && w.db.gshadow == None
    ensures Run(w, GroupRequests(h, env), cfg).db.group == [Group("g", "x", 100, [])]
  {
    hide GroupAdd, Run, GroupRequests;
    RunFour(w, h, env, cfg);
    assert "g"[0] == 'g';
    GroupTheorems.GroupAddExact(w.db, NAMED_GROUP, 100, cfg, env);
    assert GroupSpec.FindFreeGid(w.db, SystemType, 100, cfg) == Some(100);
    var a := GroupAdd(w.db, NAMED_GROUP, 100, cfg, env, true);
    var k: nat :| GroupTheorems.GroupAdded(w.db, a.db, NAMED_GROUP, 100, k, env.encrypted);
  }

  function GroupRequests(h: nat, env: Env): seq<Action> {
    [Action(NewGroup(h), env), Action(SetGroupProp(h, GroupName(Some("g"))), env),
     Action(SetGroupProp(h, GroupKind(SystemType)), env), Action(OnGroup(h, AddGroup(100)), env)]
  }

  const NAMED_GROUP := FRESH_GROUP.(gr := FRESH_GROUP.gr.(name := Some("g")), kind := SystemType)

  lemma RunFour(w: World, h: nat, env: Env, cfg: Config)
    requires env.lockOk
    ensures Run(w, GroupRequests(h, env), cfg).db == GroupAdd(w.db, NAMED_GROUP, 100, cfg, env, true).db
  {
    hide GroupAdd, UserOp, LoadUser, LoadGroup, DeleteMembership;
    var all := GroupRequests(h, env);
    assert all[1..][1..] == all[2..] && all[2..][1..] == all[3..] && all[3..][1..] == [];
    assert "g"[0] == 'g';
    var v := Step(w, all[0], cfg);
    var x := Step(v, all[1], cfg);
    var y := Step(x, all[2], cfg);
    assert Run(w, all, cfg) == Run(v, all[1..], cfg) == Run(x, all[2..], cfg);
    assert Run(x, all[2..], cfg) == Run(y, all[3..], cfg) == Step(y, all[3], cfg);
  }

  /** A client loads a group that is nobody's primary group, by gid, and deletes it. */
  lemma ClientDeletesGroup(w: World, h: nat, env: Env, cfg: Config)
    requires WritesSucceed(env.io) && env.lockOk && env.egid == 0 && w.db.passwd == [] && w.db.gshadow == None
    requires w.db.group == [Group("g", "x", 100, [])]
    ensures Run(w, [Action(LoadGroupBy(h, ById(100)), env), Action(OnGroup(h, DeleteGroup), env)], cfg).db.group == []
  {
    hide GroupDelete, LoadGroup, GetGroup;
    assert "g"[0] == 'g';
    assert w.db.group[0].gid == 100;
    var fresh_ := GroupToLoad(ById(100));
    Loading.GroupFound(w.db.group, fresh_.gr);
    assert Loading.NamedGroup(w.db.group[0], fresh_.gr);
    Loading.GroupLoaded(w.db, fresh_);
    var g := LoadGroup(w.db, fresh_).value;
    RunGroupTwo(w, h, env, cfg);
    Loading.GroupFound(w.db.group, g.gr);
    assert Loading.NamedGroup(w.db.group[0], g.gr);
    GroupDeleteExact(w.db, g, env);
    var d := GroupDelete(w.db, g, env, true).db;
    var i: nat, j: nat :| GroupGone(w.db, d, 100, ShadowNameOf(w.db, g), i, j);
  }

  lemma RunGroupTwo(w: World, h: nat, env: Env, cfg: Config)
    requires env.lockOk && LoadGroup(w.db, GroupToLoad(ById(100))).Some?
    ensures Run(w, [Action(LoadGroupBy(h, ById(100)), env), Action(OnGroup(h, DeleteGroup), env)], cfg).db
         == GroupDelete(w.db, LoadGroup(w.db, GroupToLoad(ById(100))).value, env, true).db
  {
    hide GroupDelete, LoadGroup, GroupToLoad;
    var a, b := Action(LoadGroupBy(h, ById(100)), env), Action(OnGroup(h, DeleteGroup), env);
    assert [a, b][1..] == [b] && [b][1..] == [];
    var v := Step(w, a, cfg);
    assert Run(w, [a, b], cfg) == Run(v, [b], cfg) == Step(v, b, cfg);
  }

  /** A client makes a user object, names it, gives it a type and adds the user: the first one gets the first uid. */
  lemma ClientAddsUser(w: World, h: nat, env: Env, cfg: Config)
    requires WritesSucceed(env.io) && env.lockOk
    requires w.db.passwd == [] && w.db.shadow == [] && w.db.group == [] && w.db.gshadow == Some([])
    requires cfg.primaryGroup == None && cfg.uidMin == 2000 && cfg.uidMax == 3000
    ensures var r := Run(w, UserRequests(h, env), cfg).db;
      && |r.passwd| == |r.shadow| == 1
      && r.passwd[0].name == r.shadow[0].name == "ann" && r.passwd[0].uid == r.passwd[0].gid == 2000
  {
    hide UserAdd, Run, UserRequests, Gecos.UserType, Gecos.SetType;
    RunUserFour(w, h, env, cfg);
    Cases.NewAnnAdded(w.db, cfg, env);
  }

  function UserRequests(h: nat, env: Env): seq<Action> {
    [Action(NewUser(h), env), Action(SetUser(h, UserName(Some("ann"))), env),
     Action(SetUser(h, UserSetter.UserType(Gecos.TYPE_NORMAL)), env), Action(OnUser(h, AddUser), env)]
  }

  lemma RunUserFour(w: World, h: nat, env: Env, cfg: Config)
    requires env.lockOk
    ensures Run(w, UserRequests(h, env), cfg).db == UserAdd(w.db, Cases.NewAnn(), cfg, env, true).db
  {
    hide UserAdd, GroupOp, LoadUser, LoadGroup, DeleteMembership, Gecos.SetType;
    var all := UserRequests(h, env);
    assert all[1..][1..] == all[2..] && all[2..][1..] == all[3..] && all[3..][1..] == [];
    AnnIsValid();
    var v := Step(w, all[0], cfg);
    var x := Step(v, all[1], cfg);
    var y := Step(x, all[2], cfg);
    assert Run(w, all, cfg) == Run(v, all[1..], cfg) == Run(x, all[2..], cfg);
    assert Run(x, all[2..], cfg) == Run(y, all[3..], cfg) == Step(y, all[3], cfg);
  }
}
