/**
 * The user service on the bus, which stays alive while peers hold user objects
 * (src/daemon/dbus/gumd-dbus-user-service-adapter.c).
 */
module UserService {
  import opened Types
  import opened Disposable

  /** A user adapter that a peer has been given. */
  datatype Peer = Peer(name: string, adapter: nat)

  /** What is known of an adapter from outside: its user and whether it is to be deleted. */
  datatype Adapter = Adapter(uid: Id, dying: bool)

  datatype ServiceState = ServiceState(disp: DispState, peers: seq<Peer>, watchers: set<string>, msgBus: bool)

  /** The peers that do not satisfy p, in order. */
  function Dropped(peers: seq<Peer>, p: Peer -> bool): (r: seq<Peer>)
    ensures forall x :: x in r <==> x in peers && !p(x)
    ensures peers == [] ==> r == []
  {
    if peers == [] then []
    else if p(peers[0]) then Dropped(peers[1..], p)
    else [peers[0]] + Dropped(peers[1..], p)
  }

  lemma {:induction false} DroppedSnoc(peers: seq<Peer>, e: Peer, p: Peer -> bool)
    ensures Dropped(peers + [e], p) == Dropped(peers, p) + if p(e) then [] else [e]
  {
    if peers != [] {
      assert (peers + [e])[1..] == peers[1..] + [e];
      DroppedSnoc(peers[1..], e, p);
    } else {
      assert [e][1..] == [];
    }
  }

  function OfName(name: string): Peer -> bool { (e: Peer) => e.name == name }
  function OfAdapter(a: nat): Peer -> bool { (e: Peer) => e.adapter == a }

  // ----- the event handlers

  function SetKeep(s: ServiceState, dispose: bool): ServiceState {
    s.(disp := SetAutoDispose(s.disp, dispose))
  }

  /** The end of both callbacks below: the hold of the peers is released when none is left. */
  function ReleaseIfEmpty(s: ServiceState): ServiceState {
    if s.peers == [] then SetKeep(s, true) else s
  }

  /** _on_bus_name_lost */
  function NameLost(s: ServiceState, name: string): ServiceState {
    ReleaseIfEmpty(s.(peers := Dropped(s.peers, OfName(name)), watchers := s.watchers - {name}))
  }

  /** _on_dbus_user_adapter_disposed */
  function AdapterDisposed(s: ServiceState, a: nat): ServiceState {
    ReleaseIfEmpty(s.(peers := Dropped(s.peers, OfAdapter(a))))
  }

  /** _create_and_cache_user_adapter */
  function CreateAndCache(s: ServiceState, name: string, a: nat): ServiceState {
    var k := if s.peers == [] then SetKeep(s, false) else s;
    k.(peers := k.peers + [Peer(name, a)], watchers := if s.msgBus then k.watchers + {name} else k.watchers)
  }

  /** _get_user_adapter_from_cache */
  function FromCache(peers: seq<Peer>, name: string, uid: Id, info: nat -> Adapter): (r: Option<nat>)
    ensures r.Some? ==> Peer(name, r.value) in peers && info(r.value) == Adapter(uid, false)
    ensures r.None? <==> uid == INVALID_ID || forall a :: Peer(name, a) in peers ==> info(a) != Adapter(uid, false)
  {
    if uid == INVALID_ID || peers == [] then None
    else if peers[0].name == name && info(peers[0].adapter) == Adapter(uid, false) then Some(peers[0].adapter)
    else FromCache(peers[1..], name, uid, info)
  }

  /**
   * A request: a new user, a user by uid, or a list of users. `found` says that the daemon has the user;
   * a is the adapter that is made for it if need be.
   */
  datatype Request = CreateUser(a: nat) | GetUser(uid: Id, found: bool, a: nat, info: nat -> Adapter) | ListUsers

  /** What a request does between its two calls on the keep count. */
  function Body(s: ServiceState, name: string, r: Request): ServiceState {
    match r
    case CreateUser(a) => CreateAndCache(s, name, a)
    case GetUser(uid, found, a, info) =>
      if FromCache(s.peers, name, uid, info).Some? || !found then s else CreateAndCache(s, name, a)
    case ListUsers => s
  }

  /** _handle_create_new_user, _handle_get_user, _handle_get_user_by_name, _handle_get_user_list */
  function Handle(s: ServiceState, name: string, r: Request): ServiceState {
    SetKeep(Body(SetKeep(s, false), name, r), true)
  }

  // ----- the count

  /** One hold for every request in flight, and one for the list of peers if it is not empty. */
  ghost predicate Balanced(s: ServiceState, inFlight: nat) {
    s.disp.keep == inFlight + if s.peers == [] then 0 else 1
  }

  /** On the message bus every listed peer is watched. */
  ghost predicate Watched(s: ServiceState) {
    s.msgBus ==> forall e :: e in s.peers ==> e.name in s.watchers
  }

  lemma BodyBalanced(s: ServiceState, name: string, r: Request, k: nat)
    requires Balanced(s, k) && Watched(s)
    ensures Balanced(Body(s, name, r), k) && Watched(Body(s, name, r))
  {
  }

  /** The disposal of a listed adapter keeps the count in step whatever is in flight. */
  lemma DisposedBalanced(s: ServiceState, a: nat, k: nat)
    requires Balanced(s, k) && Watched(s) && exists name :: Peer(name, a) in s.peers
    ensures Balanced(AdapterDisposed(s, a), k) && Watched(AdapterDisposed(s, a))
    ensures forall name :: Peer(name, a) !in AdapterDisposed(s, a).peers
  {
  }

  /**
   * The loss of a bus name keeps the count in step exactly when some peer is listed or nothing is in
   * flight: with an empty list the handler releases a hold that is not its own.
   */
  lemma NameLostBalanced(s: ServiceState, name: string, k: nat)
    requires Balanced(s, k) && Watched(s)
    ensures Balanced(NameLost(s, name), k) <==> s.peers != [] || k == 0
    ensures Watched(NameLost(s, name)) && name !in NameLost(s, name).watchers
    ensures forall a :: Peer(name, a) !in NameLost(s, name).peers
  {
  }

  /** A concrete imbalance: with one request in flight and no peer, the loss of a name takes the request's hold. */
  lemma HoldLostInFlight(name: string)
    ensures var s := SetKeep(ServiceState(FRESH, [], {}, true), false);
      Balanced(s, 1) && !Balanced(NameLost(s, name), 1)
  {
  }

  // ----- the list: what stays in it, and what comes into it

  /** What an event that removes peers does to a list is done to its parts, one entry at a time. */
  lemma DroppedParts(a: seq<Peer>, e: Peer, b: seq<Peer>, p: Peer -> bool)
    ensures Dropped(a + [e] + b, p) == Dropped(a, p) + (if p(e) then [] else [e]) + Dropped(b, p)
  {
    hide Dropped;
    DroppedConcat(a + [e], b, p);
    DroppedSnoc(a, e, p);
  }

  lemma {:induction false} DroppedConcat(a: seq<Peer>, b: seq<Peer>, p: Peer -> bool)
    ensures Dropped(a + b, p) == Dropped(a, p) + Dropped(b, p)
  {
    if a == [] {
      assert a + b == b;
    } else {
      assert (a + b)[1..] == a[1..] + b;
      DroppedConcat(a[1..], b, p);
    }
  }

  /**
   * A lost name takes its own entries out of the list and no others, wherever they stand; the others keep
   * their order, and the names that are still watched are the others.
   */
  lemma NameLostKeepsOthers(s: ServiceState, name: string, a: seq<Peer>, e: Peer, b: seq<Peer>)
    requires s.peers == a + [e] + b
    ensures var r := NameLost(s, name);
      && r.peers == NameLost(s.(peers := a), name).peers + (if e.name == name then [] else [e])
                    + NameLost(s.(peers := b), name).peers
      && r.msgBus == s.msgBus && (forall n :: n in r.watchers <==> n in s.watchers && n != name)
      && NameLost(s.(peers := []), name).peers == []
  {
    DroppedParts(a, e, b, OfName(name));
  }

  /** The disposal of an adapter does the same to the adapter's entries. */
  lemma DisposedKeepsOthers(s: ServiceState, x: nat, a: seq<Peer>, e: Peer, b: seq<Peer>)
    requires s.peers == a + [e] + b
    ensures var r := AdapterDisposed(s, x);
      && r.peers == AdapterDisposed(s.(peers := a), x).peers + (if e.adapter == x then [] else [e])
                    + AdapterDisposed(s.(peers := b), x).peers
      && r.msgBus == s.msgBus && r.watchers == s.watchers && AdapterDisposed(s.(peers := []), x).peers == []
  {
    DroppedParts(a, e, b, OfAdapter(x));
  }

  /** An entry is listed afterwards exactly when it was and is not one that goes; the hold stays while one is. */
  lemma RemovalsExact(s: ServiceState, name: string, x: nat)
    ensures var r := NameLost(s, name);
      && (forall n, y :: Peer(n, y) in r.peers <==> Peer(n, y) in s.peers && n != name)
      && ((exists e :: e in s.peers && e.name != name) ==> r.disp == s.disp)
      && ((forall e :: e in s.peers ==> e.name == name) ==> Released(s.disp, r.disp))
    ensures var r := AdapterDisposed(s, x);
      && (forall n, y :: Peer(n, y) in r.peers <==> Peer(n, y) in s.peers && y != x)
      && ((exists e :: e in s.peers && e.adapter != x) ==> r.disp == s.disp)
      && ((forall e :: e in s.peers ==> e.adapter == x) ==> Released(s.disp, r.disp))
  {
    EmptyIfAll(s.peers, OfName(name));
    EmptyIfAll(s.peers, OfAdapter(x));
  }

  lemma EmptyIfAll(peers: seq<Peer>, p: Peer -> bool)
    ensures Dropped(peers, p) == [] <==> forall e :: e in peers ==> p(e)
  {
    if Dropped(peers, p) != [] {
      assert Dropped(peers, p)[0] in peers;
    }
  }

  /** One hold less, if there was one. */
  ghost predicate Released(a: DispState, b: DispState) {
    b.timeout == a.timeout && b.deleteLater == a.deleteLater && b.keep == if a.keep == 0 then 0 else a.keep - 1
  }

  /** The cache has the user for the peer, in an adapter that is not to be deleted. */
  ghost predicate Cached(peers: seq<Peer>, name: string, uid: Id, info: nat -> Adapter) {
    uid != INVALID_ID && exists x :: Peer(name, x) in peers && info(x).uid == uid && !info(x).dying
  }

  /** The peer's own adapter that stands first in the list is the one that is found. */
  lemma {:induction false} FirstIsFound(a: seq<Peer>, name: string, x: nat, b: seq<Peer>, uid: Id, info: nat -> Adapter)
    requires uid != INVALID_ID && info(x).uid == uid && !info(x).dying && !Cached(a, name, uid, info)
    ensures FromCache(a + [Peer(name, x)] + b, name, uid, info) == Some(x)
  {
    var peers := a + [Peer(name, x)] + b;
    if a != [] {
      assert peers[1..] == a[1..] + [Peer(name, x)] + b && peers[0] == a[0];
      assert a[0].name == name ==> Peer(name, a[0].adapter) in a;
      FirstIsFound(a[1..], name, x, b, uid, info);
    }
  }

  /**
   * A request lists nothing but its own new adapter, at the end: always when a user is created, and when a
   * user is asked for, exactly if the daemon has it and the peer's cache has not. A peer that is listed on
   * the message bus is watched from then on; other watches stay as they were.
   */
  lemma RequestLists(s: ServiceState, name: string, r: Request)
    ensures var t := Handle(s, name, r);
      && t.msgBus == s.msgBus
      && (match r
          case CreateUser(a) => t.peers == s.peers + [Peer(name, a)] && WatchedToo(s, t, name)
          case GetUser(uid, found, a, info) =>
            if found && !Cached(s.peers, name, uid, info)
            then t.peers == s.peers + [Peer(name, a)] && WatchedToo(s, t, name)
            else t.peers == s.peers && t.watchers == s.watchers
          case ListUsers => t.peers == s.peers && t.watchers == s.watchers)
  {
    if r.GetUser? {
      var f := FromCache(s.peers, name, r.uid, r.info);
      assert f.Some? <==> Cached(s.peers, name, r.uid, r.info);
    }
  }

  ghost predicate WatchedToo(s: ServiceState, t: ServiceState, name: string) {
    forall n :: n in t.watchers <==> n in s.watchers || (s.msgBus && n == name)
  }

  /** The list takes a hold with its first entry and none with another. */
  lemma CachedTakesHold(s: ServiceState, name: string, a: nat)
    ensures var r := CreateAndCache(s, name, a);
      && r.peers == s.peers + [Peer(name, a)]
      && (s.peers != [] ==> r.disp == s.disp) && (s.peers == [] ==> r.disp.keep == s.disp.keep + 1)
  {
  }

  // ----- runs: handlers run to their end, so nothing is in flight between events

  datatype Event = Call(name: string, r: Request) | Disposed(a: nat) | Lost(name: string)

  function Step(s: ServiceState, e: Event): ServiceState {
    match e
    case Call(name, r) => Handle(s, name, r)
    case Disposed(a) => AdapterDisposed(s, a)
    case Lost(name) => NameLost(s, name)
  }

  /** A disposal is only heard of for adapters that are listed. */
  ghost predicate Enabled(s: ServiceState, e: Event) {
    e.Disposed? ==> exists name :: Peer(name, e.a) in s.peers
  }

  function Run(s: ServiceState, events: seq<Event>): ServiceState
    decreases |events|
  {
    if events == [] then s else Run(Step(s, events[0]), events[1..])
  }

  ghost predicate EnabledAll(s: ServiceState, events: seq<Event>)
    decreases |events|
  {
    events == [] || (Enabled(s, events[0]) && EnabledAll(Step(s, events[0]), events[1..]))
  }

  /** At every event boundary. */
  ghost predicate Steady(s: ServiceState) {
    Balanced(s, 0) && Watched(s) && Sound(s.disp) && !s.disp.disposed && !s.disp.deleteLater
  }

  lemma SetKeepSteady(s: ServiceState, dispose: bool)
    requires Sound(s.disp) && !s.disp.disposed && !s.disp.deleteLater
    ensures var r := SetKeep(s, dispose).disp;
      && Sound(r) && !r.disposed && !r.deleteLater && r.timeout == s.disp.timeout
      && r.keep == if dispose then (if s.disp.keep > 0 then s.disp.keep - 1 else 0) else s.disp.keep + 1
  {
    KeepAndReleaseSound(s.disp, dispose);
  }

  lemma StepSteady(s: ServiceState, e: Event)
    requires Steady(s) && Enabled(s, e)
    ensures Steady(Step(s, e)) && Step(s, e).disp.timeout == s.disp.timeout && Step(s, e).msgBus == s.msgBus
  {
    hide SetAutoDispose, Sound, Dropped, FromCache;
    match e
    case Call(name, r) =>
      var t := SetKeep(s, false);
      SetKeepSteady(s, false);
      SetKeepSteady(t, false);
      BodyBalanced(t, name, r, 1);
      SetKeepSteady(Body(t, name, r), true);
    case Disposed(a) =>
      DisposedBalanced(s, a, 0);
      SetKeepSteady(s, true);
    case Lost(name) =>
      NameLostBalanced(s, name, 0);
      SetKeepSteady(s, true);
  }

  /**
   * Over every run, between events: the keep count is one if some peer is listed and zero if none is,
   * every listed peer is watched, and the service's timer runs exactly while it has no peers.
   */
  lemma {:induction false} RunSteady(s: ServiceState, events: seq<Event>)
    requires Steady(s) && EnabledAll(s, events)
    ensures var r := Run(s, events);
      && Steady(r) && r.disp.timeout == s.disp.timeout
      && (s.disp.timeout != 0 ==> (r.disp.timerId != 0 <==> r.peers == []))
    decreases |events|
  {
    hide Step;
    if events != [] {
      StepSteady(s, events[0]);
      RunSteady(Step(s, events[0]), events[1..]);
    }
  }

  /** The event takes the peer's entry out of the list. */
  ghost predicate Removes(e: Event, p: Peer) {
    e == Lost(p.name) || e == Disposed(p.adapter)
  }

  /**
   * Over every run: a peer that is listed stays listed, once listed, until its name is lost or its adapter
   * is disposed of, whatever other peers do; and while it is, no timer runs.
   */
  lemma {:induction false} RunKeepsPeer(s: ServiceState, events: seq<Event>, p: Peer)
    requires Steady(s) && EnabledAll(s, events) && p in s.peers
    requires forall i :: 0 <= i < |events| ==> !Removes(events[i], p)
    ensures p in Run(s, events).peers && Run(s, events).disp.timerId == 0
    decreases |events|
  {
    hide Step, Steady;
    if events == [] {
      NoTimer(s);
    } else {
      StepSteady(s, events[0]);
      StepKeepsPeer(s, events[0], p);
      RunKeepsPeer(Step(s, events[0]), events[1..], p);
    }
  }

  lemma NoTimer(s: ServiceState)
    requires Steady(s) && s.peers != []
    ensures s.disp.timerId == 0
  {
  }

  lemma StepKeepsPeer(s: ServiceState, e: Event, p: Peer)
    requires p in s.peers && !Removes(e, p)
    ensures p in Step(s, e).peers
  {
    hide SetAutoDispose, FromCache;
    if e.Call? {
      RequestLists(s, e.name, e.r);
    }
  }

  class UserServiceAdapter {
    const disp: DisposableObject
    const msgBus: bool
    var peers: seq<Peer>
    var watchers: set<string>

    constructor (msgBus: bool)
      ensures fresh(disp) && State() == ServiceState(FRESH, [], {}, msgBus)
    {
      disp := new DisposableObject();
      this.msgBus, peers, watchers := msgBus, [], {};
    }

    function State(): ServiceState
      reads this, disp
    {
      ServiceState(disp.State(), peers, watchers, msgBus)
    }

    /** g_list_foreach with a callback that removes the entries satisfying p; n counts the entries visited. */
    method Drop(p: Peer -> bool)
      modifies this`peers
      ensures peers == Dropped(old(peers), p)
    {
      hide Dropped;
      ghost var n := 0;
      var i := 0;
      while i < |peers|
        invariant 0 <= n <= |old(peers)| && 0 <= i <= |peers|
        invariant peers[..i] == Dropped(old(peers)[..n], p) && peers[i..] == old(peers)[n..]
        decreases |peers| - i
      {
        assert old(peers)[..n + 1] == old(peers)[..n] + [peers[i]];
        DroppedSnoc(old(peers)[..n], peers[i], p);
        if p(peers[i]) {
          peers := peers[..i] + peers[i + 1..];
        } else {
          i := i + 1;
        }
        n := n + 1;
      }
      assert old(peers)[..n] == old(peers);
    }

    /** _on_bus_name_lost */
    method OnBusNameLost(name: string)
      modifies this, disp
      ensures State() == NameLost(old(State()), name)
    {
      Drop(OfName(name));
      watchers := watchers - {name};
      if |peers| == 0 {
        disp.AutoDispose(true);
      }
    }

    /** _on_dbus_user_adapter_disposed */
    method OnAdapterDisposed(a: nat)
      modifies this, disp
      ensures State() == AdapterDisposed(old(State()), a)
    {
      Drop(OfAdapter(a));
      if |peers| == 0 {
        disp.AutoDispose(true);
      }
    }

    /** _add_bus_name_watcher */
    method Watch(name: string)
      modifies this`watchers
      ensures watchers == if msgBus then old(watchers) + {name} else old(watchers)
    {
      if msgBus {
        if name !in watchers {
          watchers := watchers + {name};
        }
      }
    }

    /** _create_and_cache_user_adapter */
    method Cache(name: string, a: nat)
      modifies this, disp
      ensures State() == CreateAndCache(old(State()), name, a)
    {
      if |peers| == 0 {
        disp.AutoDispose(false);
      }
      peers := peers + [Peer(name, a)];
      Watch(name);
    }

    /** _get_user_adapter_from_cache */
    method LookUp(name: string, uid: Id, info: nat -> Adapter) returns (r: Option<nat>)
      ensures r == FromCache(peers, name, uid, info)
    {
      if uid == INVALID_ID {
        return None;
      }
      var i := 0;
      while i < |peers|
        invariant 0 <= i <= |peers|
        invariant FromCache(peers[i..], name, uid, info) == FromCache(peers, name, uid, info)
      {
        if name == peers[i].name && info(peers[i].adapter).uid == uid {
          if !info(peers[i].adapter).dying {
            return Some(peers[i].adapter);
          }
        }
        assert peers[i..][1..] == peers[i + 1..];
        i := i + 1;
      }
      return None;
    }

    /** The request handlers. */
    method OnRequest(name: string, r: Request)
      modifies this, disp
      ensures State() == Handle(old(State()), name, r)
    {
      disp.AutoDispose(false);
      match r {
        case CreateUser(a) => Cache(name, a);
        case GetUser(uid, found, a, info) =>
          var cached := LookUp(name, uid, info);
          if cached.None? && found {
            Cache(name, a);
          }
        case ListUsers =>
      }
      disp.AutoDispose(true);
    }
  }
}
