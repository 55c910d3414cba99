/** Runs of the daemon: any sequence of requests on any number of user and group objects. */
module Runs {
  import opened Types
  import opened Validate
  import opened GroupSpec
  import opened UserSpec
  import opened GroupAgreement
  import opened UserConsistency
  import UserUpdateTheorems
  import Gecos
  import Integrity
  import Naming
  import Ordering
  import PartialWrites
  import Parts = PartialGroupWrites

  /** The database and the request objects that clients hold. */
  datatype World = World(db: Db, users: map<nat, UserReq>, groups: map<nat, GroupReq>)

  datatype UserSetter = UserName(v: Option<string>) | UserSecret(v: Option<string>) | Uid(id: Id) | Gid(id: Id)
    | Text(field: Gecos.TextField, v: Option<string>) | UserType(t: nat) | Nick(v: Option<string>)
    | Dir(v: Option<string>) | Shell(v: Option<string>)

  datatype GroupSetter =
    | GroupName(v: Option<string>) | GroupSecret(v: Option<string>) | GroupGid(id: Id) | GroupKind(k: GroupType)

  function SetUserProperty(u: UserReq, s: UserSetter): UserReq {
    match s
    case UserName(v) => u.(pw := SetUserName(u.pw, v))
    case UserSecret(v) => u.(pw := SetPasswd(u.pw, v))
    case Uid(id) => u.(pw := u.pw.(uid := id))
    case Gid(id) => u.(pw := u.pw.(gid := id))
    case Text(field, v) => u.(pw := u.pw.(gecos := Gecos.SetText(u.pw.gecos, field, v)))
    case UserType(t) => u.(pw := u.pw.(gecos := Gecos.SetType(u.pw.gecos, t)))
    case Nick(v) => if v != u.nick && ValidDbString(v) then u.(nick := v) else u
    case Dir(v) => u.(pw := SetDir(u.pw, v))
    case Shell(v) => u.(pw := UserSpec.SetShell(u.pw, v))
  }

  function SetGroupProperty(g: GroupReq, s: GroupSetter): GroupReq {
    match s
    case GroupName(v) => g.(gr := SetGroupName(g.gr, v))
    case GroupSecret(v) => g.(gr := SetGroupPasswd(g.gr, v))
    case GroupGid(id) => g.(gr := g.gr.(gid := id))
    case GroupKind(k) => g.(kind := k)
  }

  datatype UserEvent = AddUser | DeleteUser(removeHome: bool) | UpdateUser

  datatype GroupEvent = AddGroup(preferred: Id) | DeleteGroup | UpdateGroup
    | AddMember(uid: Id, admin: bool) | DeleteMember(uid: Id)

  datatype Key = ById(id: Id) | ByName(name: string)

  /** One request; h names the object that it creates or uses. */
  datatype Event =
    | NewUser(h: nat) | LoadUserBy(h: nat, key: Key) | SetUser(h: nat, us: UserSetter) | OnUser(h: nat, ue: UserEvent)
    | NewGroup(h: nat) | LoadGroupBy(h: nat, key: Key) | SetGroupProp(h: nat, gs: GroupSetter)
    | OnGroup(h: nat, ge: GroupEvent)
    | DropMemberships(user: Option<string>)

  /** A request together with the fate of the calls that it makes. */
  datatype Action = Action(event: Event, env: Env)

  function UserOp(db: Db, u: UserReq, e: UserEvent, cfg: Config, env: Env): UserOut {
    match e
    case AddUser => UserAdd(db, u, cfg, env, env.lockOk)
    case DeleteUser(removeHome) => UserDelete(db, u, removeHome, env, env.lockOk)
    case UpdateUser => UserUpdate(db, u, env, env.lockOk)
  }

  function GroupOp(db: Db, g: GroupReq, e: GroupEvent, cfg: Config, env: Env): GroupOut {
    match e
    case AddGroup(preferred) => GroupAdd(db, g, preferred, cfg, env, env.lockOk)
    case DeleteGroup => GroupDelete(db, g, env, env.lockOk)
    case UpdateGroup => GroupUpdate(db, g, env, env.lockOk)
    case AddMember(uid, admin) => GroupAddMember(db, g, uid, admin, env, env.lockOk)
    case DeleteMember(uid) => GroupDeleteMember(db, g, uid, env, env.lockOk)
  }

  /** The object that a load starts from. */
  function UserToLoad(key: Key): UserReq {
    match key
    case ById(uid) => FRESH_USER.(pw := FRESH_USER.pw.(uid := uid))
    case ByName(name) => FRESH_USER.(pw := SetUserName(FRESH_USER.pw, Some(name)))
  }

  function GroupToLoad(key: Key): GroupReq {
    match key
    case ById(gid) => FRESH_GROUP.(gr := FRESH_GROUP.gr.(gid := gid))
    case ByName(name) => FRESH_GROUP.(gr := SetGroupName(FRESH_GROUP.gr, Some(name)))
  }

  /** A load that fails leaves no object behind. */
  function Loaded<T>(m: map<nat, T>, h: nat, v: Option<T>): map<nat, T> {
    if v.Some? then m[h := v.value] else m
  }

  function Step(w: World, a: Action, cfg: Config): World {
    var env := a.env;
    match a.event
    case NewUser(h) => w.(users := w.users[h := FRESH_USER])
    case LoadUserBy(h, key) =>
      if env.lockOk then w.(users := Loaded(w.users, h, LoadUser(w.db, UserToLoad(key)))) else w
    case SetUser(h, s) => if h in w.users then w.(users := w.users[h := SetUserProperty(w.users[h], s)]) else w
    case OnUser(h, e) =>
      if h !in w.users then w
      else
        var out := UserOp(w.db, w.users[h], e, cfg, env);
        World(out.db, w.users[h := out.u], w.groups)
    case NewGroup(h) => w.(groups := w.groups[h := FRESH_GROUP])
    case LoadGroupBy(h, key) =>
      if env.lockOk then w.(groups := Loaded(w.groups, h, LoadGroup(w.db, GroupToLoad(key)))) else w
    case SetGroupProp(h, s) =>
      if h in w.groups then w.(groups := w.groups[h := SetGroupProperty(w.groups[h], s)]) else w
    case OnGroup(h, e) =>
      if h !in w.groups then w
      else
        var out := GroupOp(w.db, w.groups[h], e, cfg, env);
        World(out.db, w.users, w.groups[h := out.g])
    case DropMemberships(user) => w.(db := DeleteMembership(w.db, user, env, env.lockOk).db)
  }

  function Run(w: World, actions: seq<Action>, cfg: Config): World
    decreases |actions|
  {
    if actions == [] then w else Run(Step(w, actions[0], cfg), actions[1..], cfg)
  }

  // ----- what requests do

  /** Each setter changes its own property, if the value is acceptable, and no other. */
  lemma UserSettersRoute(u: UserReq, v: Option<string>, id: Id)
    ensures SetUserProperty(u, UserName(v)) == u.(pw := u.pw.(name := if ValidName(v) then v else u.pw.name))
    ensures SetUserProperty(u, UserSecret(v)) == u.(pw := u.pw.(passwd := if ValidDbSecret(v) then v else u.pw.passwd))
    ensures SetUserProperty(u, Dir(v)) == u.(pw := u.pw.(dir := if ValidDbString(v) then v else u.pw.dir))
    ensures SetUserProperty(u, Shell(v)) == u.(pw := u.pw.(shell := if ValidDbString(v) then v else u.pw.shell))
    ensures SetUserProperty(u, Nick(v)) == u.(nick := if ValidDbString(v) then v else u.nick)
    ensures SetUserProperty(u, Uid(id)) == u.(pw := u.pw.(uid := id))
    ensures SetUserProperty(u, Gid(id)) == u.(pw := u.pw.(gid := id))
  {
  }

  lemma TextSettersRoute(u: UserReq, field: Gecos.TextField, v: Option<string>, t: nat)
    ensures var r := SetUserProperty(u, Text(field, v));
      && r == u.(pw := u.pw.(gecos := r.pw.gecos))
      && Gecos.Rec(r.pw.gecos) ==
         if ValidDbString(v) then Gecos.Rec(u.pw.gecos)[field := v.value] else Gecos.Rec(u.pw.gecos)
    ensures var r := SetUserProperty(u, UserSetter.UserType(t));
      && r == u.(pw := u.pw.(gecos := r.pw.gecos))
      && (0 < t < 32 && Gecos.TypeToString(t).Some? ==>
            Gecos.Rec(r.pw.gecos) == Gecos.Rec(u.pw.gecos)[4 := Gecos.TypeToString(t).value])
      && (t == 0 || t >= 32 ==> r == u)
  {
    Gecos.SetTextRec(u.pw.gecos, field, v);
    Gecos.SetTypeRec(u.pw.gecos, t);
  }

  lemma GroupSettersRoute(g: GroupReq, v: Option<string>, id: Id, k: GroupType)
    ensures SetGroupProperty(g, GroupName(v)) == g.(gr := g.gr.(name := if ValidName(v) then v else g.gr.name))
    ensures SetGroupProperty(g, GroupSecret(v)) ==
            g.(gr := g.gr.(passwd := if ValidDbSecret(v) then v else g.gr.passwd))
    ensures SetGroupProperty(g, GroupGid(id)) == g.(gr := g.gr.(gid := id))
    ensures SetGroupProperty(g, GroupKind(k)) == g.(kind := k)
  {
  }

  // ----- what holds however the file replacements end

  lemma UserOpIntegrity(db: Db, u: UserReq, e: UserEvent, cfg: Config, env: Env)
    requires Integrity.RefIntegrity(db)
    ensures Integrity.RefIntegrity(UserOp(db, u, e, cfg, env).db)
  {
    hide UserAdd, UserDelete, UserUpdate;
    match e
    case AddUser => Integrity.UserAddIntegrity(db, u, cfg, env, env.lockOk);
    case DeleteUser(removeHome) => Integrity.UserDeleteIntegrity(db, u, removeHome, env, env.lockOk);
    case UpdateUser => Integrity.UserUpdateIntegrity(db, u, env, env.lockOk);
  }

  lemma GroupOpIntegrity(db: Db, g: GroupReq, e: GroupEvent, cfg: Config, env: Env)
    requires Integrity.RefIntegrity(db)
    ensures Integrity.RefIntegrity(GroupOp(db, g, e, cfg, env).db)
  {
    hide GroupAdd, GroupDelete, GroupUpdate, GroupAddMember, GroupDeleteMember;
    match e
    case AddGroup(preferred) => Integrity.GroupAddGids(db, g, preferred, cfg, env, env.lockOk);
    case DeleteGroup => Integrity.GroupDeleteGids(db, g, env, env.lockOk);
    case UpdateGroup => Integrity.GroupUpdateGids(db, g, env, env.lockOk);
    case AddMember(uid, admin) => Integrity.GroupAddMemberGids(db, g, uid, admin, env, env.lockOk);
    case DeleteMember(uid) => Integrity.GroupDeleteMemberGids(db, g, uid, env, env.lockOk);
  }

  lemma StepIntegrity(w: World, a: Action, cfg: Config)
    requires Integrity.RefIntegrity(w.db)
    ensures Integrity.RefIntegrity(Step(w, a, cfg).db)
  {
    hide UserOp, GroupOp, DeleteMembership, LoadUser, LoadGroup, SetUserProperty, SetGroupProperty;
    match a.event
    case OnUser(h, e) => if h in w.users { UserOpIntegrity(w.db, w.users[h], e, cfg, a.env); }
    case OnGroup(h, e) => if h in w.groups { GroupOpIntegrity(w.db, w.groups[h], e, cfg, a.env); }
    case DropMemberships(user) => Integrity.DeleteMembershipGids(w.db, user, a.env, a.env.lockOk);
    case _ =>
  }

  /** Over every run, whichever calls fail and whatever the objects hold, every user's primary group exists. */
  lemma {:induction false} RunIntegrity(w: World, actions: seq<Action>, cfg: Config)
    requires Integrity.RefIntegrity(w.db)
    ensures Integrity.RefIntegrity(Run(w, actions, cfg).db)
    decreases |actions|
  {
    hide Step;
    if actions != [] {
      StepIntegrity(w, actions[0], cfg);
      RunIntegrity(Step(w, actions[0], cfg), actions[1..], cfg);
    }
  }

  lemma UserOpIds(db: Db, u: UserReq, e: UserEvent, cfg: Config, env: Env)
    ensures Ordering.KeepsIds(db, UserOp(db, u, e, cfg, env).db)
  {
    hide UserAdd, UserDelete, UserUpdate;
    match e
    case AddUser => Ordering.UserAddOrder(db, u, cfg, env, env.lockOk);
    case DeleteUser(removeHome) => Ordering.UserDeleteOrder(db, u, removeHome, env, env.lockOk);
    case UpdateUser => Ordering.UserUpdateOrder(db, u, env, env.lockOk);
  }

  lemma GroupOpIds(db: Db, g: GroupReq, e: GroupEvent, cfg: Config, env: Env)
    ensures Ordering.KeepsIds(db, GroupOp(db, g, e, cfg, env).db)
  {
    hide GroupAdd, GroupDelete, GroupUpdate, GroupAddMember, GroupDeleteMember;
    match e
    case AddGroup(preferred) => Ordering.GroupAddOrder(db, g, preferred, cfg, env, env.lockOk);
    case DeleteGroup => Ordering.GroupDeleteOrder(db, g, env, env.lockOk);
    case UpdateGroup => Ordering.GroupUpdateOrder(db, g, env, env.lockOk);
    case AddMember(uid, admin) => Ordering.GroupAddMemberOrder(db, g, uid, admin, env, env.lockOk);
    case DeleteMember(uid) => Ordering.GroupDeleteMemberOrder(db, g, uid, env, env.lockOk);
  }

  lemma StepIds(w: World, a: Action, cfg: Config)
    ensures Ordering.KeepsIds(w.db, Step(w, a, cfg).db)
  {
    hide UserOp, GroupOp, DeleteMembership, LoadUser, LoadGroup, SetUserProperty, SetGroupProperty;
    match a.event
    case OnUser(h, e) => if h in w.users { UserOpIds(w.db, w.users[h], e, cfg, a.env); }
    case OnGroup(h, e) => if h in w.groups { GroupOpIds(w.db, w.groups[h], e, cfg, a.env); }
    case DropMemberships(user) => Ordering.DeleteMembershipOrder(w.db, user, a.env, a.env.lockOk);
    case _ =>
  }

  /**
   * Over every run, whichever calls fail, ids that are unique stay unique, and passwd and group stay in
   * strictly ascending order if they are in it.
   */
  lemma {:induction false} RunIds(w: World, actions: seq<Action>, cfg: Config)
    ensures Ordering.UniqueIds(w.db) ==> Ordering.UniqueIds(Run(w, actions, cfg).db)
    ensures Ordering.Ordered(w.db) ==> Ordering.Ordered(Run(w, actions, cfg).db)
    decreases |actions|
  {
    hide Step;
    if actions != [] {
      StepIds(w, actions[0], cfg);
      RunIds(Step(w, actions[0], cfg), actions[1..], cfg);
    }
  }

  // ----- what holds when the file replacements succeed

  /** The files agree and the objects that clients hold are fit. */
  ghost predicate WorldOk(w: World) {
    && Consistent(w.db)
    && (forall h :: h in w.users ==> UserReqOk(w.users[h]))
    && forall h :: h in w.groups ==> GroupReqOk(w.groups[h], w.db.gshadow.Some?)
  }

  /** Every setter, whatever its value, keeps an object fit. */
  lemma SetUserOk(u: UserReq, s: UserSetter)
    requires UserReqOk(u)
    ensures UserReqOk(SetUserProperty(u, s))
  {
    match s
    case Text(field, v) => Gecos.SetTextRec(u.pw.gecos, field, v);
    case UserType(t) => Gecos.SetTypeRec(u.pw.gecos, t);
    case _ =>
  }

  lemma SetGroupOk(g: GroupReq, s: GroupSetter, shadowed: bool)
    requires GroupReqOk(g, shadowed)
    ensures GroupReqOk(SetGroupProperty(g, s), shadowed)
  {
  }

  lemma FreshOk(shadowed: bool)
    ensures UserReqOk(FRESH_USER) && GroupReqOk(FRESH_GROUP, shadowed)
  {
  }

  lemma UserToLoadOk(key: Key)
    ensures UserReqOk(UserToLoad(key))
  {
  }

  /** Loading a line, acceptable or not, gives a fit object, whatever the group files are like. */
  lemma LoadUserOk(db: Db, u: UserReq)
    requires UsersAgree(db.passwd, db.shadow) && UserReqOk(u)
    ensures LoadUser(db, u).Some? ==> UserReqOk(LoadUser(db, u).value)
  {
    hide CopyPasswd, CopyShadow, GetPasswd;
    if LoadUser(db, u).Some? {
      var i := FindUser(db, u.pw);
      LoadedUserOk(u, db.passwd[i], GetSpNam(db.shadow, db.passwd[i].name).value);
    }
  }

  lemma LoadGroupOk(db: Db, g: GroupReq)
    requires GroupsOk(db.group, db.gshadow)
    ensures LoadGroup(db, g).Some? ==> GroupReqOk(LoadGroup(db, g).value, db.gshadow.Some?)
  {
    hide CopyGroupData, GetGroup;
    if LoadGroup(db, g).Some? {
      var i := FindEntries(db, g.gr);
      CopiedGroupOk(g, db.group[i], GetSgNam(db.gshadow, db.group[i].name), db.gshadow.Some?);
    }
  }

  /** An update, of one that there is something to update of, through a misnamed object. */
  ghost predicate MisnamesUser(db: Db, u: UserReq, env: Env) {
    UserUpdateTheorems.UserUpdates(db, u, env, env.lockOk) && MisnamedUser(db, u)
  }

  ghost predicate MisnamesGroup(db: Db, g: GroupReq, env: Env) {
    GroupUpdates(db, g, env, env.lockOk) && MisnamedGroup(db, g)
  }

  lemma UserOpOk(db: Db, u: UserReq, e: UserEvent, cfg: Config, env: Env)
    requires Consistent(db) && UserReqOk(u) && WritesSucceed(env.io)
    ensures var out := UserOp(db, u, e, cfg, env);
      && UserReqOk(out.u) && SameShadowing(db, out.db)
      && (Consistent(out.db) <==> !(e.UpdateUser? && MisnamesUser(db, u, env)))
  {
    hide UserAdd, UserDelete, UserUpdate, Consistent, UserReqOk, MisnamedUser, UserUpdateTheorems.UserUpdates;
    match e
    case AddUser => UserAddConsistent(db, u, cfg, env, env.lockOk);
    case DeleteUser(removeHome) => UserDeleteConsistent(db, u, removeHome, env, env.lockOk);
    case UpdateUser => UserUpdateTheorems.UserUpdateConsistent(db, u, env, env.lockOk);
  }

  lemma GroupOpOk(db: Db, g: GroupReq, e: GroupEvent, cfg: Config, env: Env)
    requires Consistent(db) && GroupReqOk(g, db.gshadow.Some?) && WritesSucceed(env.io)
    ensures var out := GroupOp(db, g, e, cfg, env);
      && GroupReqOk(out.g, db.gshadow.Some?) && SameShadowing(db, out.db)
      && (Consistent(out.db) <==> !(e.UpdateGroup? && MisnamesGroup(db, g, env)))
  {
    hide GroupAdd, GroupDelete, GroupUpdate, GroupAddMember, GroupDeleteMember, GroupReqOk, MisnamedGroup, GroupsOk;
    hide GroupUpdates;
    match e
    case AddGroup(preferred) => GroupAddAgrees(db, g, preferred, cfg, env, env.lockOk);
    case DeleteGroup => GroupDeleteAgrees(db, g, env, env.lockOk);
    case UpdateGroup => GroupUpdateAgrees(db, g, env, env.lockOk);
    case AddMember(uid, admin) => GroupAddMemberAgrees(db, g, uid, admin, env, env.lockOk);
    case DeleteMember(uid) => GroupDeleteMemberAgrees(db, g, uid, env, env.lockOk);
  }

  /**
   * An update through an object that names one user or group while its shadow entry still carries another
   * name. An object becomes like that when it is renamed after it was loaded or added.
   */
  ghost predicate Misnames(w: World, a: Action) {
    match a.event
    case OnUser(h, UpdateUser) => h in w.users && MisnamesUser(w.db, w.users[h], a.env)
    case OnGroup(h, UpdateGroup) => h in w.groups && MisnamesGroup(w.db, w.groups[h], a.env)
    case _ => false
  }

  lemma OperationOk(w: World, a: Action, cfg: Config)
    requires WorldOk(w) && WritesSucceed(a.env.io) && (a.event.OnUser? || a.event.OnGroup?)
    ensures WorldOk(Step(w, a, cfg)) <==> !Misnames(w, a)
  {
    hide UserOp, GroupOp, Consistent, UserReqOk, GroupReqOk, MisnamesUser, MisnamesGroup;
    match a.event
    case OnUser(h, e) => if h in w.users { UserOpOk(w.db, w.users[h], e, cfg, a.env); }
    case OnGroup(h, e) => if h in w.groups { GroupOpOk(w.db, w.groups[h], e, cfg, a.env); }
  }

  lemma OtherStepOk(w: World, a: Action, cfg: Config)
    requires WorldOk(w) && WritesSucceed(a.env.io) && !a.event.OnUser? && !a.event.OnGroup?
    ensures WorldOk(Step(w, a, cfg))
  {
    hide DeleteMembership, LoadUser, LoadGroup, SetUserProperty, SetGroupProperty, UsersAgree, GroupsOk;
    hide UserReqOk, GroupReqOk, UserToLoad;
    FreshOk(w.db.gshadow.Some?);
    match a.event
    case DropMemberships(user) => DeleteMembershipAgrees(w.db, user, a.env, a.env.lockOk);
    case SetUser(h, s) => if h in w.users { SetUserOk(w.users[h], s); }
    case SetGroupProp(h, s) => if h in w.groups { SetGroupOk(w.groups[h], s, w.db.gshadow.Some?); }
    case LoadUserBy(_, key) =>
      UserToLoadOk(key);
      LoadUserOk(w.db, UserToLoad(key));
    case LoadGroupBy(_, key) => LoadGroupOk(w.db, GroupToLoad(key));
    case _ =>
  }

  /** One request keeps the files in agreement, and the objects fit, exactly when it does not misname an entry. */
  lemma StepOk(w: World, a: Action, cfg: Config)
    requires WorldOk(w) && WritesSucceed(a.env.io)
    ensures WorldOk(Step(w, a, cfg)) <==> !Misnames(w, a)
  {
    hide Step, WorldOk;
    if a.event.OnUser? || a.event.OnGroup? {
      OperationOk(w, a, cfg);
    } else {
      OtherStepOk(w, a, cfg);
    }
  }

  /** The files agree before and after each request. */
  ghost predicate AlwaysOk(w: World, actions: seq<Action>, cfg: Config)
    decreases |actions|
  {
    WorldOk(w) && (actions == [] || AlwaysOk(Step(w, actions[0], cfg), actions[1..], cfg))
  }

  ghost predicate NeverMisnames(w: World, actions: seq<Action>, cfg: Config)
    decreases |actions|
  {
    actions == [] || (!Misnames(w, actions[0]) && NeverMisnames(Step(w, actions[0], cfg), actions[1..], cfg))
  }

  /**
   * Over every run in which the writes succeed, whatever the requests return: passwd and shadow hold the
   * same users, group and gshadow (if there is one) the same groups with the same members, and names and
   * ids are unique, at every point of the run, exactly when no request misnames an entry.
   */
  lemma {:induction false} RunConsistent(w: World, actions: seq<Action>, cfg: Config)
    requires WorldOk(w) && forall i :: 0 <= i < |actions| ==> WritesSucceed(actions[i].env.io)
    ensures AlwaysOk(w, actions, cfg) <==> NeverMisnames(w, actions, cfg)
    decreases |actions|
  {
    hide Step, WorldOk, Misnames, WritesSucceed;
    if actions != [] {
      StepOk(w, actions[0], cfg);
      if !Misnames(w, actions[0]) {
        RunConsistent(Step(w, actions[0], cfg), actions[1..], cfg);
      }
    }
  }

  // ----- passwd and shadow, however the file replacements end

  /** Passwd and shadow agree and the user objects are fit; nothing is said of groups. */
  ghost predicate UsersFit(w: World) {
    UsersAgree(w.db.passwd, w.db.shadow) && forall h :: h in w.users ==> UserReqOk(w.users[h])
  }

  /**
   * A request that parts the two files: an add or a delete that makes its replacement of passwd and not
   * the one of shadow, or an update that writes a user's shadow entry under another name.
   */
  ghost predicate Splits(w: World, a: Action, cfg: Config) {
    match a.event
    case OnUser(h, e) =>
      && h in w.users
      && (match e
          case AddUser => PartialWrites.AddSplits(w.db, w.users[h], cfg, a.env, a.env.lockOk)
          case DeleteUser(_) => PartialWrites.DeleteSplits(w.db, w.users[h], a.env, a.env.lockOk)
          case UpdateUser => PartialWrites.UpdateSplits(w.db, w.users[h], a.env, a.env.lockOk))
    case _ => false
  }

  lemma GroupOpUsers(db: Db, g: GroupReq, e: GroupEvent, cfg: Config, env: Env)
    ensures var out := GroupOp(db, g, e, cfg, env).db;
      out.passwd == db.passwd && out.shadow == db.shadow
  {
    hide GroupAdd, GroupDelete, GroupUpdate, GroupAddMember, GroupDeleteMember, Naming.GroupNames;
    match e
    case AddGroup(preferred) => Naming.GroupAddNames(db, g, preferred, cfg, env, env.lockOk);
    case DeleteGroup => Naming.GroupDeleteNames(db, g, env, env.lockOk);
    case UpdateGroup => Naming.GroupUpdateNames(db, g, env, env.lockOk);
    case AddMember(uid, admin) => Naming.GroupAddMemberNames(db, g, uid, admin, env, env.lockOk);
    case DeleteMember(uid) => Naming.GroupDeleteMemberNames(db, g, uid, env, env.lockOk);
  }

  lemma UserOpSplits(w: World, h: nat, e: UserEvent, cfg: Config, env: Env)
    requires UsersFit(w) && h in w.users
    ensures var out := UserOp(w.db, w.users[h], e, cfg, env);
      && UserReqOk(out.u)
      && (UsersAgree(out.db.passwd, out.db.shadow) <==> !Splits(w, Action(OnUser(h, e), env), cfg))
  {
    hide UserAdd, UserDelete, UserUpdate, UsersAgree, UserReqOk;
    hide PartialWrites.AddSplits, PartialWrites.DeleteSplits, PartialWrites.UpdateSplits;
    match e
    case AddUser => PartialWrites.UserAddAgrees(w.db, w.users[h], cfg, env, env.lockOk);
    case DeleteUser(removeHome) => PartialWrites.UserDeleteAgrees(w.db, w.users[h], removeHome, env, env.lockOk);
    case UpdateUser => PartialWrites.UserUpdateAgrees(w.db, w.users[h], env, env.lockOk);
  }

  lemma StepUsers(w: World, a: Action, cfg: Config)
    requires UsersFit(w)
    ensures UsersFit(Step(w, a, cfg)) <==> !Splits(w, a, cfg)
  {
    hide UserOp, GroupOp, DeleteMembership, LoadUser, LoadGroup, SetUserProperty, SetGroupProperty, UsersAgree;
    hide UserReqOk, UserToLoad, Naming.GroupNames;
    hide PartialWrites.AddSplits, PartialWrites.DeleteSplits, PartialWrites.UpdateSplits;
    FreshOk(false);
    match a.event
    case OnUser(h, e) => if h in w.users { UserOpSplits(w, h, e, cfg, a.env); }
    case OnGroup(h, e) => if h in w.groups { GroupOpUsers(w.db, w.groups[h], e, cfg, a.env); }
    case DropMemberships(user) => Naming.DeleteMembershipNames(w.db, user, a.env, a.env.lockOk);
    case SetUser(h, s) => if h in w.users { SetUserOk(w.users[h], s); }
    case LoadUserBy(_, key) =>
      UserToLoadOk(key);
      LoadUserOk(w.db, UserToLoad(key));
    case _ =>
  }

  ghost predicate AlwaysFit(w: World, actions: seq<Action>, cfg: Config)
    decreases |actions|
  {
    UsersFit(w) && (actions == [] || AlwaysFit(Step(w, actions[0], cfg), actions[1..], cfg))
  }

  ghost predicate NeverSplits(w: World, actions: seq<Action>, cfg: Config)
    decreases |actions|
  {
    actions == [] || (!Splits(w, actions[0], cfg) && NeverSplits(Step(w, actions[0], cfg), actions[1..], cfg))
  }

  /**
   * Over every run, whichever calls fail, whatever the group files and the group objects are like: passwd
   * and shadow hold the same users at every point of the run exactly when no request splits them.
   */
  lemma {:induction false} RunUsers(w: World, actions: seq<Action>, cfg: Config)
    requires UsersFit(w)
    ensures AlwaysFit(w, actions, cfg) <==> NeverSplits(w, actions, cfg)
    decreases |actions|
  {
    hide Step, UsersFit, Splits;
    if actions != [] {
      StepUsers(w, actions[0], cfg);
      if !Splits(w, actions[0], cfg) {
        RunUsers(Step(w, actions[0], cfg), actions[1..], cfg);
      }
    }
  }

  // ----- group and gshadow, however the file replacements end

  /** Group and gshadow agree and the group objects are fit; nothing is said of users. */
  ghost predicate GroupsFit(w: World) {
    Parts.Agrees(w.db) && forall h :: h in w.groups ==> GroupReqOk(w.groups[h], w.db.gshadow.Some?)
  }

  ghost predicate UserOpParts(db: Db, u: UserReq, e: UserEvent, cfg: Config, env: Env) {
    match e
    case AddUser => Parts.UserAddSplits(db, u, cfg, env, env.lockOk)
    case DeleteUser(_) => Parts.UserDeleteSplits(db, u, env, env.lockOk)
    case UpdateUser => false
  }

  ghost predicate GroupOpParts(db: Db, g: GroupReq, e: GroupEvent, cfg: Config, env: Env) {
    match e
    case AddGroup(preferred) => Parts.AddSplits(db, g, preferred, cfg, env, env.lockOk)
    case DeleteGroup => Parts.DeleteSplits(db, g, env, env.lockOk)
    case UpdateGroup => Parts.UpdateSplits(db, g, env, env.lockOk)
    case AddMember(uid, _) => Parts.AddMemberSplits(db, g, uid, env, env.lockOk)
    case DeleteMember(uid) => Parts.DeleteMemberSplits(db, g, uid, env, env.lockOk)
  }

  /**
   * A request that parts group and gshadow: it replaces one of the files by one that the other does not go
   * with, in one of the steps that it consists of.
   */
  ghost predicate PartsGroups(w: World, a: Action, cfg: Config) {
    match a.event
    case OnUser(h, e) => h in w.users && UserOpParts(w.db, w.users[h], e, cfg, a.env)
    case OnGroup(h, e) => h in w.groups && GroupOpParts(w.db, w.groups[h], e, cfg, a.env)
    case DropMemberships(user) => Parts.PurgeSplits(w.db, user, a.env, a.env.lockOk)
    case _ => false
  }

  lemma UserOpGroups(db: Db, u: UserReq, e: UserEvent, cfg: Config, env: Env)
    requires Parts.Agrees(db)
    ensures var out := UserOp(db, u, e, cfg, env);
      SameShadowing(db, out.db) && (Parts.Agrees(out.db) <==> !UserOpParts(db, u, e, cfg, env))
  {
    hide UserAdd, UserDelete, UserUpdate, GroupsOk, Parts.UserAddSplits, Parts.UserDeleteSplits;
    match e
    case AddUser => Parts.UserAddAgrees(db, u, cfg, env, env.lockOk);
    case DeleteUser(removeHome) => Parts.UserDeleteAgrees(db, u, removeHome, env, env.lockOk);
    case UpdateUser => Parts.UserUpdateAgrees(db, u, env, env.lockOk);
  }

  lemma GroupOpGroups(db: Db, g: GroupReq, e: GroupEvent, cfg: Config, env: Env)
    requires Parts.Agrees(db) && GroupReqOk(g, db.gshadow.Some?)
    ensures var out := GroupOp(db, g, e, cfg, env);
      && SameShadowing(db, out.db) && GroupReqOk(out.g, db.gshadow.Some?)
      && (Parts.Agrees(out.db) <==> !GroupOpParts(db, g, e, cfg, env))
  {
    hide GroupAdd, GroupDelete, GroupUpdate, GroupAddMember, GroupDeleteMember, GroupReqOk, Parts.Agrees;
    hide Parts.AddSplits, Parts.DeleteSplits, Parts.UpdateSplits, Parts.AddMemberSplits, Parts.DeleteMemberSplits;
    match e
    case AddGroup(preferred) => Parts.AddingAgrees(db, g, preferred, cfg, env, env.lockOk);
    case DeleteGroup => Parts.DeletingAgrees(db, g, env, env.lockOk);
    case UpdateGroup => Parts.UpdatingAgrees(db, g, env, env.lockOk);
    case AddMember(uid, admin) => Parts.AddMemberAgrees(db, g, uid, admin, env, env.lockOk);
    case DeleteMember(uid) => Parts.DeleteMemberAgrees(db, g, uid, env, env.lockOk);
  }

  lemma StepGroups(w: World, a: Action, cfg: Config)
    requires GroupsFit(w)
    ensures GroupsFit(Step(w, a, cfg)) <==> !PartsGroups(w, a, cfg)
  {
    hide UserOp, GroupOp, DeleteMembership, LoadUser, LoadGroup, SetUserProperty, SetGroupProperty, Parts.Agrees;
    hide GroupReqOk, UserOpParts, GroupOpParts, Parts.PurgeSplits;
    FreshOk(w.db.gshadow.Some?);
    match a.event
    case OnUser(h, e) => if h in w.users { UserOpGroups(w.db, w.users[h], e, cfg, a.env); }
    case OnGroup(h, e) => if h in w.groups { GroupOpGroups(w.db, w.groups[h], e, cfg, a.env); }
    case DropMemberships(user) => Parts.PurgeAgrees(w.db, user, a.env, a.env.lockOk);
    case SetGroupProp(h, s) => if h in w.groups { SetGroupOk(w.groups[h], s, w.db.gshadow.Some?); }
    case LoadGroupBy(_, key) => LoadedGroupFit(w.db, GroupToLoad(key));
    case _ =>
  }

  lemma LoadedGroupFit(db: Db, g: GroupReq)
    requires Parts.Agrees(db)
    ensures LoadGroup(db, g).Some? ==> GroupReqOk(LoadGroup(db, g).value, db.gshadow.Some?)
  {
    LoadGroupOk(db, g);
  }

  ghost predicate AlwaysGrouped(w: World, actions: seq<Action>, cfg: Config)
    decreases |actions|
  {
    GroupsFit(w) && (actions == [] || AlwaysGrouped(Step(w, actions[0], cfg), actions[1..], cfg))
  }

  ghost predicate NeverParts(w: World, actions: seq<Action>, cfg: Config)
    decreases |actions|
  {
    actions == [] || (!PartsGroups(w, actions[0], cfg) && NeverParts(Step(w, actions[0], cfg), actions[1..], cfg))
  }

  /**
   * Over every run, whichever calls fail, whatever the user files and the user objects are like: group and
   * gshadow (if there is one) hold the same groups with the same members at every point of the run exactly
   * when no request parts them.
   */
  lemma {:induction false} RunGroups(w: World, actions: seq<Action>, cfg: Config)
    requires GroupsFit(w)
    ensures AlwaysGrouped(w, actions, cfg) <==> NeverParts(w, actions, cfg)
    decreases |actions|
  {
    hide Step, GroupsFit, PartsGroups;
    if actions != [] {
      StepGroups(w, actions[0], cfg);
      if !PartsGroups(w, actions[0], cfg) {
        RunGroups(Step(w, actions[0], cfg), actions[1..], cfg);
      }
    }
  }

  // ----- names, however the file replacements end

  /** An update that puts a name twice into shadow or gshadow. */
  ghost predicate Doubles(w: World, a: Action) {
    match a.event
    case OnUser(h, UpdateUser) => h in w.users && Naming.DoublesUser(w.db, w.users[h], a.env, a.env.lockOk)
    case OnGroup(h, UpdateGroup) => h in w.groups && Naming.DoublesGroup(w.db, w.groups[h], a.env, a.env.lockOk)
    case _ => false
  }

  lemma UserOpNames(db: Db, u: UserReq, e: UserEvent, cfg: Config, env: Env)
    requires Naming.UniqueNames(db)
    ensures var out := UserOp(db, u, e, cfg, env);
      Naming.UniqueNames(out.db) <==> !(e.UpdateUser? && Naming.DoublesUser(db, u, env, env.lockOk))
  {
    hide UserAdd, UserDelete, UserUpdate, Naming.DoublesUser;
    match e
    case AddUser => Naming.UserAddNames(db, u, cfg, env, env.lockOk);
    case DeleteUser(removeHome) => Naming.UserDeleteNames(db, u, removeHome, env, env.lockOk);
    case UpdateUser => Naming.UserUpdateNames(db, u, env, env.lockOk);
  }

  lemma GroupOpNames(db: Db, g: GroupReq, e: GroupEvent, cfg: Config, env: Env)
    requires Naming.UniqueNames(db)
    ensures var out := GroupOp(db, g, e, cfg, env);
      Naming.UniqueNames(out.db) <==> !(e.UpdateGroup? && Naming.DoublesGroup(db, g, env, env.lockOk))
  {
    hide GroupAdd, GroupDelete, GroupUpdate, GroupAddMember, GroupDeleteMember, Naming.DoublesGroup;
    match e
    case AddGroup(preferred) => Naming.GroupAddNames(db, g, preferred, cfg, env, env.lockOk);
    case DeleteGroup => Naming.GroupDeleteNames(db, g, env, env.lockOk);
    case UpdateGroup => Naming.GroupUpdateNames(db, g, env, env.lockOk);
    case AddMember(uid, admin) => Naming.GroupAddMemberNames(db, g, uid, admin, env, env.lockOk);
    case DeleteMember(uid) => Naming.GroupDeleteMemberNames(db, g, uid, env, env.lockOk);
  }

  lemma StepNames(w: World, a: Action, cfg: Config)
    requires Naming.UniqueNames(w.db)
    ensures Naming.UniqueNames(Step(w, a, cfg).db) <==> !Doubles(w, a)
  {
    hide UserOp, GroupOp, DeleteMembership, LoadUser, LoadGroup, SetUserProperty, SetGroupProperty;
    hide Naming.DoublesUser, Naming.DoublesGroup;
    match a.event
    case OnUser(h, e) => if h in w.users { UserOpNames(w.db, w.users[h], e, cfg, a.env); }
    case OnGroup(h, e) => if h in w.groups { GroupOpNames(w.db, w.groups[h], e, cfg, a.env); }
    case DropMemberships(user) => Naming.DeleteMembershipNames(w.db, user, a.env, a.env.lockOk);
    case _ =>
  }

  ghost predicate AlwaysUnique(w: World, actions: seq<Action>, cfg: Config)
    decreases |actions|
  {
    Naming.UniqueNames(w.db) && (actions == [] || AlwaysUnique(Step(w, actions[0], cfg), actions[1..], cfg))
  }

  ghost predicate NeverDoubles(w: World, actions: seq<Action>, cfg: Config)
    decreases |actions|
  {
    actions == [] || (!Doubles(w, actions[0]) && NeverDoubles(Step(w, actions[0], cfg), actions[1..], cfg))
  }

  /**
   * Over every run, whichever calls fail and whatever the objects hold, no file holds a name twice at any
   * point exactly when no update doubles one.
   */
  lemma {:induction false} RunNames(w: World, actions: seq<Action>, cfg: Config)
    requires Naming.UniqueNames(w.db)
    ensures AlwaysUnique(w, actions, cfg) <==> NeverDoubles(w, actions, cfg)
    decreases |actions|
  {
    hide Step, Doubles;
    if actions != [] {
      StepNames(w, actions[0], cfg);
      if !Doubles(w, actions[0]) {
        RunNames(Step(w, actions[0], cfg), actions[1..], cfg);
      }
    }
  }
}
