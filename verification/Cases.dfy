/** Concrete databases and requests on which the conditions of the theorems fail. */
module Cases {
  import opened Types
  import opened Sequences
  import opened Validate
  import opened IdAllocation
  import opened GroupSpec
  import opened UserSpec
  import opened GroupAgreement
  import opened UserConsistency
  import opened GroupTheorems
  import opened UserAddTheorems
  import opened UserTheorems
  import opened UserUpdateTheorems
  import Gecos
  import Integrity
  import Naming
  import Parts = PartialGroupWrites

  // ----- a doubled name

  /** Two users with one primary group. */
  ghost predicate TwoUsers(db: Db, ageing: Ageing) {
    && db.passwd == [Passwd("ann", "x", 1000, 100, "", "/home/ann", "/bin/sh"),
                     Passwd("bob", "x", 1001, 100, "", "/home/bob", "/bin/sh")]
    && db.shadow == [Shadow("ann", "$6$ann", ageing), Shadow("bob", "$6$bob", ageing)]
    && GroupG(db, "x")
  }

  lemma TwoUsersAgree(db: Db, ageing: Ageing)
    requires TwoUsers(db, ageing)
    ensures Consistent(db) && Naming.UniqueNames(db) && Integrity.RefIntegrity(db)
  {
    hide GroupsOk, ValidName;
    OneGroupOk(db, "x");
    OneGroupNames(db, "x");
    NamesAreValid();
    assert Keys(db.passwd, PwName) == {"ann", "bob"} == Keys(db.shadow, SpName) by {
      KeyIn(db.passwd, PwName, 0);
      KeyIn(db.passwd, PwName, 1);
      KeyIn(db.shadow, SpName, 0);
      KeyIn(db.shadow, SpName, 1);
    }
  }

  lemma NamesAreValid()
    ensures ValidName(Some("ann")) && ValidName(Some("bob")) && ValidName(Some("g"))
  {
    assert "ann"[0] == 'a' && "ann"[1] == 'n' && "ann"[2] == 'n';
    assert "bob"[0] == 'b' && "bob"[1] == 'o' && "bob"[2] == 'b';
    assert "g"[0] == 'g';
  }

  /** One group without members, in both files. */
  ghost predicate GroupG(db: Db, passwd: string) {
    db.group == [Group("g", passwd, 100, [])] && db.gshadow == Some([Gshadow("g", "!", [], [])])
  }

  lemma OneGroupOk(db: Db, passwd: string)
    requires GroupG(db, passwd)
    ensures GroupsOk(db.group, db.gshadow)
  {
    NamesAreValid();
    assert Keys(db.group, GrName) == {"g"} == Keys(db.gshadow.value, SgName) by {
      KeyIn(db.group, GrName, 0);
      KeyIn(db.gshadow.value, SgName, 0);
    }
  }

  lemma OneGroupNames(db: Db, passwd: string)
    requires GroupG(db, passwd)
    ensures Naming.GroupNames(db) && 100 in Keys(db.group, GrGid)
  {
    NamesAreValid();
    KeyIn(db.group, GrGid, 0);
  }

  /** An object of "bob" that is renamed to "ann" and asks for a new shell puts "bob" twice into shadow. */
  lemma RenamedUpdateDoublesName(db: Db, env: Env, ageing: Ageing)
    requires WritesSucceed(env.io) && TwoUsers(db, ageing)
    ensures var u := ShellRequest(SpReq(Some("bob"), Some("$6$bob"), ageing), Some("/bin/zsh"));
      var d := UserUpdate(db, u, env, true);
      && d.ok && d.db.shadow == [Shadow("bob", "$6$bob", ageing), Shadow("bob", "$6$bob", ageing)]
      && Naming.UniqueNames(db) && !Naming.UniqueNames(d.db)
  {
    hide UserUpdate, UsersAgree, GroupsOk, GetPasswd;
    TwoUsersAgree(db, ageing);
    ShellUpdate(db, env, SpReq(Some("bob"), Some("$6$bob"), ageing), Some("/bin/zsh"));
    var d := UserUpdate(db, ShellRequest(SpReq(Some("bob"), Some("$6$bob"), ageing), Some("/bin/zsh")), env, true);
    assert SpName(d.db.shadow[0]) == SpName(d.db.shadow[1]);
  }

  // ----- a group

  /** One user, and one group without members. */
  ghost predicate OneGroup(db: Db, passwd: string, ageing: Ageing) {
    && db.passwd == [Passwd("ann", "x", 1000, 100, "", "/home/ann", "/bin/sh")]
    && db.shadow == [Shadow("ann", "$6$ann", ageing)]
    && GroupG(db, passwd)
  }

  lemma OneGroupAgrees(db: Db, passwd: string, ageing: Ageing)
    requires OneGroup(db, passwd, ageing)
    ensures Consistent(db)
  {
    NamesAreValid();
    OneGroupOk(db, passwd);
    assert Keys(db.passwd, PwName) == {"ann"} == Keys(db.shadow, SpName) by {
      KeyIn(db.passwd, PwName, 0);
      KeyIn(db.shadow, SpName, 0);
    }
  }

  /** A group whose password field holds a tab loses it when a member is added. */
  lemma MembershipEmptiesPasswd(db: Db, env: Env, ageing: Ageing)
    requires WritesSucceed(env.io) && OneGroup(db, "\t", ageing)
    ensures var g := FRESH_GROUP.(gr := SetGroupName(FRESH_GROUP.gr, Some("g")));
      var a := GroupAddMember(db, g, 1000, false, env, true);
      a.ok && a.db.group == [Group("g", "", 100, ["ann"])]
  {
    hide GroupAddMember, Consistent;
    var g := FRESH_GROUP.(gr := SetGroupName(FRESH_GROUP.gr, Some("g")));
    OneGroupAgrees(db, "\t", ageing);
    assert "g"[0] == 'g';
    assert g.gr.name == Some("g");
    assert GetPwUid(db.passwd, 1000) == Some(db.passwd[0]);
    assert GetGroup(db.group, g.gr) == Some(db.group[0]);
    AddMemberExact(db, g, 1000, false, env, true);
    var a := GroupAddMember(db, g, 1000, false, env, true);
    var i: nat, j: nat :| MemberAdded(db, g, a, i, j, GetPwUid(db.passwd, 1000), false);
    assert "\t"[0] == '\t' && !ValidDbSecret(Some("\t"));
    assert CopiedPasswd(g, db.group[0]) == "" && [] + ["ann"] == ["ann"];
    assert a.db.group[0] == Group("g", "", 100, ["ann"]);
  }

  /** A group object of "h" that is renamed to "g", which has its gid by now, leaves "g" without a gshadow entry. */
  lemma RenamedGroupLosesShadow(db: Db, env: Env, ageing: Ageing)
    requires WritesSucceed(env.io) && env.encrypted == Some("$6$new") && !env.sameSecret && OneGroup(db, "x", ageing)
    ensures var g := GroupReq(GrReq(Some("g"), Some("new"), 100, Some([])),
                              SgReq(Some("h"), Some("!"), Some([]), Some([])), UserType);
      var u := GroupUpdate(db, g, env, true);
      u.ok && u.db.gshadow == Some([Gshadow("h", "$6$new", [], [])]) && !Consistent(u.db)
  {
    hide GroupUpdate;
    var g := GroupReq(GrReq(Some("g"), Some("new"), 100, Some([])),
                      SgReq(Some("h"), Some("!"), Some([]), Some([])), UserType);
    OneGroupAgrees(db, "x", ageing);
    assert "g"[0] == 'g';
    assert GetGroup(db.group, g.gr) == Some(db.group[0]);
    UpdateExact(db, g, env, true);
    GroupUpdateAgrees(db, g, env, true);
    var u := GroupUpdate(db, g, env, true);
    var i: nat, j: nat :| SecretUpdated(db, u, i, j, g, env.encrypted);
    assert u.db.gshadow.value == [Gshadow("h", "$6$new", [], [])];
  }

  /** The replacement of gshadow fails: the user is a member in group only. */
  lemma MemberInOneFile(db: Db, env: Env, ageing: Ageing)
    requires OneGroup(db, "x", ageing) && env.io(db.tick).Succeeds(1) && !env.io(db.tick + 1).Succeeds(1)
    ensures var a := GroupAddMember(db, Parts.ToJoin("g"), 1000, false, env, true);
      !a.ok && Parts.Agrees(db) && !Parts.Agrees(a.db) && a.db.gshadow == db.gshadow
  {
    hide GroupAddMember, GroupsOk, GetPwUid;
    var g := Parts.ToJoin("g");
    OneGroupAgrees(db, "x", ageing);
    NamesAreValid();
    assert db.passwd[0].uid == 1000;
    UserByUid(db.passwd, 1000);
    assert GetGroup(db.group, g.gr) == Some(db.group[0]);
    Parts.AddMemberAgrees(db, g, 1000, false, env, true);
    FailedWrite(db, g, env);
  }

  lemma UserByUid(s: seq<Passwd>, uid: Id)
    requires |s| == 1 && s[0].uid == uid
    ensures GetPwUid(s, uid) == Some(s[0])
  {
  }

  lemma FailedWrite(db: Db, g: GroupReq, env: Env)
    requires db.gshadow.Some? && |db.group| == |db.gshadow.value| == 1 && !env.io(db.tick + 1).Succeeds(1)
    requires GetGroup(db.group, g.gr).Some? ==> GetSgNam(db.gshadow, GetGroup(db.group, g.gr).value.name).Some?
    ensures var a := GroupAddMember(db, g, 1000, false, env, true);
      !a.ok && a.db.gshadow == db.gshadow
  {
    hide GetGroup, GetSgNam, GetPwUid, WithMember;
  }

  // ----- a failed delete

  /** A user whose primary group has no entry in gshadow, and who is a member of another group. */
  ghost predicate GroupWithoutShadow(db: Db, ageing: Ageing) {
    && db.passwd == [Passwd("ann", "x", 1000, 100, "", "/home/ann", "/bin/sh")]
    && db.shadow == [Shadow("ann", "$6$ann", ageing)]
    && db.group == [Group("g", "x", 100, []), Group("h", "x", 101, ["ann"])]
    && db.gshadow == Some([Gshadow("h", "!", [], ["ann"])])
  }

  /** The delete fails; the user and the primary group are gone, and the user is still a member of the other group. */
  lemma DeleteStopsAtGshadow(db: Db, env: Env, ageing: Ageing)
    requires WritesSucceed(env.io) && env.terminated && env.euid == 0 && env.egid == 0
    requires GroupWithoutShadow(db, ageing)
    ensures var d := UserDelete(db, FRESH_USER.(pw := FRESH_USER.pw.(uid := 1000)), false, env, true);
      && !d.ok && d.db.passwd == [] && d.db.shadow == []
      && d.db.group == [Group("h", "x", 101, ["ann"])] && d.db.gshadow == db.gshadow
  {
    hide UserDelete, NowhereListed, Left, GetSpNam, ValidName, HomeGoes;
    var u := FRESH_USER.(pw := FRESH_USER.pw.(uid := 1000));
    OneLineAgrees(db, ageing);
    assert db.passwd[0].uid == 1000 && GetPasswd(db.passwd, u.pw) == Some(db.passwd[0]);
    UserDeleteLeaves(db, u, false, env);
    var d := UserDelete(db, u, false, env, true);
    var i: nat, j: nat :| UserGone(db, d.db, d.u, i, j);
    assert d.db.passwd == [];
    assert GetGrGid(db.group, 100) == Some(db.group[0]);
    KeyIn(db.group, GrGid, 0);
    NamesAreValid();
    assert "g" !in Keys(db.gshadow.value, SgName);
    assert LineGone(db, d.db, 100);
  }

  lemma OneLineAgrees(db: Db, ageing: Ageing)
    requires GroupWithoutShadow(db, ageing)
    ensures UsersAgree(db.passwd, db.shadow)
  {
    AnnIsValid();
    assert Keys(db.passwd, PwName) == {"ann"} == Keys(db.shadow, SpName) by {
      KeyIn(db.passwd, PwName, 0);
      KeyIn(db.shadow, SpName, 0);
    }
  }

  // ----- a failed add

  /** A request for a normal user "ann". */
  function NewAnn(): UserReq {
    UserReq(PwReq(Some("ann"), None, INVALID_ID, INVALID_ID, Gecos.SetType(None, Gecos.TYPE_NORMAL), None, None),
            SpReq(None, None, ZERO_AGEING), None)
  }

  lemma NewAnnOk()
    ensures UserReqOk(NewAnn()) && NewAnn().Type() == Gecos.TYPE_NORMAL && NewAnn().pw.gecos.Some?
  {
    AnnIsValid();
    Gecos.SetTypeRec(None, Gecos.TYPE_NORMAL);
    Gecos.TypeGetterReturnsType(None, Gecos.TYPE_NORMAL);
  }

  /** The home directory cannot be made: the add fails, and the user is in passwd and shadow all the same. */
  lemma UserStaysWithoutHome(db: Db, cfg: Config, env: Env)
    requires db.passwd == [] && db.shadow == [] && db.group == [] && db.gshadow == Some([])
    requires WritesSucceed(env.io) && !env.homeOk
    requires cfg.primaryGroup == None && cfg.uidMin == 2000 && cfg.uidMax == 3000
    ensures var a := UserAdd(db, NewAnn(), cfg, env, true);
      && !a.ok && |a.db.passwd| == |a.db.shadow| == 1
      && a.db.passwd[0].name == a.db.shadow[0].name == "ann" && a.db.passwd[0].uid == 2000
  {
    hide UserAdd, Gecos.UserType, Gecos.SetType;
    NewAnnAdded(db, cfg, env);
  }

  /** The user is added to empty files, in any case, and the add succeeds exactly if the home directory is made. */
  lemma NewAnnAdded(db: Db, cfg: Config, env: Env)
    requires db.passwd == [] && db.shadow == [] && db.group == [] && db.gshadow == Some([])
    requires WritesSucceed(env.io) && cfg.primaryGroup == None && cfg.uidMin == 2000 && cfg.uidMax == 3000
    ensures var a := UserAdd(db, NewAnn(), cfg, env, true);
      && (a.ok <==> env.homeOk) && |a.db.passwd| == |a.db.shadow| == 1
      && a.db.passwd[0].name == a.db.shadow[0].name == "ann" && a.db.passwd[0].uid == a.db.passwd[0].gid == 2000
  {
    hide UserAdd, Gecos.UserType, Gecos.SetType;
    NewAnnOk();
    AnnIsValid();
    EmptyAgrees(db);
    var u := NewAnn();
    assert LeastFree({}, 2000, 3000) == Some(2000);
    assert Keys(db.passwd, PwUid) == {} && Keys(db.group, GrGid) == {};
    assert FindFreeUid(db, u.Type(), cfg) == Some(2000);
    assert FindFreeGid(db, KindOf(u.Type()), 2000, cfg) == Some(2000);
    assert Placed(db, u, cfg, env);
    UserAddExact(db, u, cfg, env);
    var a := UserAdd(db, u, cfg, env, true);
    var i: nat, m: Db :| UserAdded(db, a.db, u, cfg, env, i, m);
  }

  lemma EmptyAgrees(db: Db)
    requires db.passwd == [] && db.shadow == [] && db.group == [] && db.gshadow == Some([])
    ensures Consistent(db)
  {
  }
}
