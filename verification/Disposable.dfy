/** An object that disposes of itself after a time without use (src/common/gum-disposable.c). */
module Disposable {
  /** A source of the main loop: a timeout in seconds, or an idle callback. */
  datatype SourceKind = Timeout(seconds: nat) | Idle

  /** The private fields, with the object's sources in the main loop and the next source id. */
  datatype DispState = DispState(timeout: nat, keep: int, timerId: nat, deleteLater: bool,
                                 sources: map<nat, SourceKind>, nextId: nat, disposed: bool)
  {
    /** g_timeout_add_seconds or g_idle_add, with the id stored. */
    function AddSource(kind: SourceKind): DispState {
      this.(timerId := nextId, sources := sources[nextId := kind], nextId := nextId + 1)
    }

    /** g_source_remove of the stored id, if there is one. */
    function RemoveSource(): DispState {
      if timerId != 0 then this.(sources := sources - {timerId}, timerId := 0) else this
    }
  }

  const FRESH := DispState(0, 0, 0, false, map[], 1, false)

  /** _update_timer */
  function UpdateTimer(s: DispState): DispState {
    if s.deleteLater then s
    else if s.keep == 0 then (if s.timeout != 0 then s.AddSource(Timeout(s.timeout)) else s)
    else s.RemoveSource()
  }

  /** gum_disposable_set_auto_dispose */
  function SetAutoDispose(s: DispState, dispose: bool): DispState {
    if s.keep == 0 && dispose then s
    else UpdateTimer(s.(keep := s.keep + if dispose then -1 else 1))
  }

  /** gum_disposable_set_timeout */
  function SetTimeout(s: DispState, t: nat): DispState {
    if s.timeout == t then s else UpdateTimer(s.(timeout := t))
  }

  /** gum_disposable_delete_later */
  function DeleteLater(s: DispState): DispState {
    s.RemoveSource().AddSource(Idle).(deleteLater := true)
  }

  /**
   * A source is dispatched and a reference goes; if it is the last one, _dispose removes what is left of
   * the timer.
   */
  function Fire(s: DispState, id: nat, last: bool): DispState {
    if id !in s.sources then s
    else
      var t := if s.sources[id].Timeout? then s.(timerId := 0) else s;
      var d := t.(sources := t.sources - {id});
      if last then d.RemoveSource().(disposed := true) else d
  }

  // ----- the invariant

  /**
   * The stored id names the only live source, if there is one. Before delete-later a timeout is pending
   * exactly when nothing keeps the object and a timeout is set; after it, the idle source is pending.
   */
  ghost predicate Sound(s: DispState) {
    && s.keep >= 0
    && (forall id :: id in s.sources ==> 0 < id < s.nextId) && s.nextId > 0
    && s.sources.Keys == (if s.timerId == 0 then {} else {s.timerId})
    && (!s.disposed ==>
         if s.deleteLater then s.timerId != 0 && s.sources[s.timerId] == Idle
         else (s.timerId != 0 <==> s.keep == 0 && s.timeout != 0)
              && (s.timerId != 0 ==> s.sources[s.timerId] == Timeout(s.timeout)))
  }

  lemma KeepAndReleaseSound(s: DispState, dispose: bool)
    requires Sound(s) && !s.disposed
    ensures Sound(SetAutoDispose(s, dispose))
    ensures SetAutoDispose(s, dispose).keep == if dispose then (if s.keep > 0 then s.keep - 1 else 0) else s.keep + 1
    ensures var r := SetAutoDispose(s, dispose);
      r.timeout == s.timeout && r.deleteLater == s.deleteLater && !r.disposed
  {
  }

  lemma DeleteLaterSound(s: DispState)
    requires Sound(s)
    ensures Sound(DeleteLater(s))
    ensures var r := DeleteLater(s); r.deleteLater && r.keep == s.keep && r.timeout == s.timeout
  {
  }

  /** Dispatching a source leaves none, and keeps the invariant exactly when the last reference goes with it. */
  lemma FireSound(s: DispState, id: nat, last: bool)
    requires Sound(s) && !s.disposed && id in s.sources
    ensures Fire(s, id, last).sources == map[]
    ensures Sound(Fire(s, id, last)) <==> last
    ensures var r := Fire(s, id, last);
      r.disposed == last && r.keep == s.keep && r.timeout == s.timeout && r.deleteLater == s.deleteLater
  {
  }

  /**
   * Changing the timeout keeps the invariant exactly when it is no change, or the object is to be
   * deleted, or is kept, or had no timeout yet: else the running timeout is left beside a new one, or
   * goes on although the new timeout is zero.
   */
  lemma SetTimeoutSound(s: DispState, t: nat)
    requires Sound(s) && !s.disposed
    ensures Sound(SetTimeout(s, t)) <==> t == s.timeout || s.deleteLater || s.keep > 0 || s.timeout == 0
    ensures var r := SetTimeout(s, t); r.timeout == t && r.keep == s.keep && r.deleteLater == s.deleteLater
  {
    var r := SetTimeout(s, t);
    if !(t == s.timeout || s.deleteLater || s.keep > 0 || s.timeout == 0) && t != 0 {
      assert s.timerId in r.sources && r.timerId == s.nextId;
    }
  }

  /** A concrete leak: a second timeout set while nothing keeps the object leaves two sources. */
  lemma TwoTimeouts()
    ensures SetTimeout(SetTimeout(FRESH, 5), 9).sources == map[1 := Timeout(5), 2 := Timeout(9)]
  {
  }

  // ----- runs

  datatype Event = Keep | Release | NewTimeout(t: nat) | Delete | Dispatch(id: nat, last: bool)

  function Step(s: DispState, e: Event): DispState {
    if s.disposed then s
    else
      match e
      case Keep => SetAutoDispose(s, false)
      case Release => SetAutoDispose(s, true)
      case NewTimeout(t) => SetTimeout(s, t)
      case Delete => DeleteLater(s)
      case Dispatch(id, last) => Fire(s, id, last)
  }

  function Run(s: DispState, events: seq<Event>): DispState
    decreases |events|
  {
    if events == [] then s else Run(Step(s, events[0]), events[1..])
  }

  ghost predicate NeverSet(events: seq<Event>) {
    forall i :: 0 <= i < |events| ==> !events[i].NewTimeout?
  }

  ghost predicate SetAtMostOnce(events: seq<Event>) {
    forall i, j :: 0 <= i < j < |events| ==> !(events[i].NewTimeout? && events[j].NewTimeout?)
  }

  /** Every source that is dispatched holds the last reference. */
  ghost predicate LastOnly(events: seq<Event>) {
    forall i :: 0 <= i < |events| ==> events[i].Dispatch? ==> events[i].last
  }

  /**
   * Over every run that sets the timeout at most once, and in which nothing outlives its timer, the
   * invariant holds.
   */
  lemma {:induction false} RunOnceSound(s: DispState, events: seq<Event>)
    requires Sound(s) && SetAtMostOnce(events) && (s.timeout == 0 || NeverSet(events)) && LastOnly(events)
    ensures Sound(Run(s, events))
    decreases |events|
  {
    if events != [] {
      var e := events[0];
      StepSound(s, e);
      assert e.NewTimeout? ==> NeverSet(events[1..]);
      RunOnceSound(Step(s, e), events[1..]);
    }
  }

  lemma StepSound(s: DispState, e: Event)
    requires Sound(s) && (e.NewTimeout? ==> s.timeout == 0) && (e.Dispatch? ==> e.last)
    ensures Sound(Step(s, e))
    ensures !e.NewTimeout? ==> Step(s, e).timeout == s.timeout
  {
    hide SetAutoDispose, SetTimeout, DeleteLater, Fire, Sound;
    if !s.disposed {
      match e
      case Keep => KeepAndReleaseSound(s, false); TimeoutKept(s, e);
      case Release => KeepAndReleaseSound(s, true); TimeoutKept(s, e);
      case NewTimeout(t) => SetTimeoutSound(s, t);
      case Delete => DeleteLaterSound(s); TimeoutKept(s, e);
      case Dispatch(id, last) =>
        TimeoutKept(s, e);
        if id in s.sources { FireSound(s, id, last); } else { NothingToFire(s, id, last); }
    }
  }

  lemma NothingToFire(s: DispState, id: nat, last: bool)
    requires id !in s.sources
    ensures Fire(s, id, last) == s
  {
  }

  lemma TimeoutKept(s: DispState, e: Event)
    requires !e.NewTimeout?
    ensures Step(s, e).timeout == s.timeout
  {
  }

  /**
   * What is left of the invariant when an object may outlive its timer: at most one source, whose id is
   * stored, and none while the object is kept or has no timeout, unless deletion was asked for.
   */
  ghost predicate Bounded(s: DispState) {
    && s.keep >= 0
    && (forall id :: id in s.sources ==> 0 < id < s.nextId && id == s.timerId) && s.nextId > 0
    && (!s.deleteLater && (s.keep > 0 || s.timeout == 0) ==> s.sources == map[])
  }

  lemma StepBounded(s: DispState, e: Event)
    requires Bounded(s) && (e.NewTimeout? ==> s.timeout == 0)
    ensures Bounded(Step(s, e))
    ensures !e.NewTimeout? ==> Step(s, e).timeout == s.timeout
  {
  }

  /** Over every run that sets the timeout at most once, whatever outlives its timer. */
  lemma {:induction false} RunOnceBounded(s: DispState, events: seq<Event>)
    requires Bounded(s) && SetAtMostOnce(events) && (s.timeout == 0 || NeverSet(events))
    ensures Bounded(Run(s, events))
    decreases |events|
  {
    if events != [] {
      var e := events[0];
      StepBounded(s, e);
      assert e.NewTimeout? ==> NeverSet(events[1..]);
      RunOnceBounded(Step(s, e), events[1..]);
    }
  }

  /** A concrete case: an object that outlives its timer stays with nothing pending, though nothing keeps it. */
  lemma OutlivesItsTimer()
    ensures var s := Fire(SetTimeout(FRESH, 5), 1, false);
      !s.disposed && s.keep == 0 && s.timeout == 5 && s.timerId == 0 && s.sources == map[]
  {
  }

  /** Once deletion is asked for, nothing but the dispatch of its source takes that source away. */
  lemma {:induction false} DeletionStands(s: DispState, events: seq<Event>)
    requires s.deleteLater && forall i :: 0 <= i < |events| ==> !events[i].Delete? && !events[i].Dispatch?
    ensures var r := Run(s, events);
      r.deleteLater && r.sources == s.sources && r.timerId == s.timerId
    decreases |events|
  {
    if events != [] {
      DeletionStands(Step(s, events[0]), events[1..]);
    }
  }

  class DisposableObject {
    var timeout: nat
    var keepCounter: int
    var timerId: nat
    var deleteLater: bool
    var sources: map<nat, SourceKind>
    var nextId: nat
    var disposed: bool

    function State(): DispState
      reads this
    {
      DispState(timeout, keepCounter, timerId, deleteLater, sources, nextId, disposed)
    }

    constructor ()
      ensures State() == FRESH
    {
      timeout, keepCounter, timerId, deleteLater := 0, 0, 0, false;
      sources, nextId, disposed := map[], 1, false;
    }

    method AddSource(kind: SourceKind)
      modifies this`timerId, this`sources, this`nextId
      ensures State() == old(State()).AddSource(kind)
    {
      timerId := nextId;
      sources := sources[nextId := kind];
      nextId := nextId + 1;
    }

    /** _update_timer */
    method RefreshTimer()
      modifies this`timerId, this`sources, this`nextId
      ensures State() == UpdateTimer(old(State()))
    {
      if deleteLater {
        return;
      }
      if keepCounter == 0 {
        if timeout != 0 {
          AddSource(Timeout(timeout));
        }
      } else if timerId != 0 {
        sources := sources - {timerId};
        timerId := 0;
      }
    }

    /** gum_disposable_set_auto_dispose */
    method AutoDispose(dispose: bool)
      modifies this
      ensures State() == SetAutoDispose(old(State()), dispose)
    {
      if keepCounter == 0 && dispose {
        return;
      }
      keepCounter := keepCounter + if dispose then -1 else 1;
      RefreshTimer();
    }

    /** gum_disposable_set_timeout */
    method ChangeTimeout(t: nat)
      modifies this
      ensures State() == SetTimeout(old(State()), t)
    {
      if timeout == t {
        return;
      }
      timeout := t;
      RefreshTimer();
    }

    /** gum_disposable_delete_later */
    method Doom()
      modifies this
      ensures State() == DeleteLater(old(State()))
    {
      if timerId != 0 {
        sources := sources - {timerId};
      }
      AddSource(Idle);
      deleteLater := true;
    }

    /** _timer_dispose and _auto_dispose, and _dispose if it was the last reference. */
    method Dispatched(id: nat, last: bool)
      requires id in sources
      modifies this
      ensures State() == Fire(old(State()), id, last)
    {
      if sources[id].Timeout? {
        timerId := 0;
      }
      sources := sources - {id};
      if !last {
        return;
      }
      if timerId != 0 {
        sources := sources - {timerId};
        timerId := 0;
      }
      disposed := true;
    }
  }
}
