/** The nested lock on the account database (src/common/gum-lock.c). */
module Locking {

  /** The depth, and what the process holds: the lock of lckpwdf and the privileges gained for it. */
  datatype LockState = LockState(count: nat, osHeld: bool, privileged: bool)
  {
    ghost predicate HeldIffDeep() { osHeld <==> count > 0 }

    ghost predicate PrivilegedIffDeep() { privileged <==> count > 0 }
  }

  /** gum_lock_pwdf_lock, given the outcome of lckpwdf. */
  function Lock(s: LockState, osOk: bool): (LockState, bool) {
    if s.count > 0 then (s.(count := s.count + 1), true)
    else if !osOk then (s.(privileged := true), false)
    else (LockState(1, true, true), true)
  }

  /** gum_lock_pwdf_unlock, given the outcome of ulckpwdf. */
  function Unlock(s: LockState, osOk: bool): (LockState, bool) {
    if s.count == 0 then (s, false)
    else if s.count > 1 then (s.(count := s.count - 1), true)
    else if !osOk then (s.(count := 0), false)
    else (LockState(0, false, false), true)
  }

  datatype Call = LockCall(osOk: bool) | UnlockCall(osOk: bool)

  function Apply(s: LockState, c: Call): LockState {
    if c.LockCall? then Lock(s, c.osOk).0 else Unlock(s, c.osOk).0
  }

  function Run(s: LockState, calls: seq<Call>): LockState
    decreases |calls|
  {
    if calls == [] then s else Run(Apply(s, calls[0]), calls[1..])
  }

  /** A call keeps the lock held exactly at positive depth unless it is an outermost unlock that fails. */
  lemma CallKeepsHeld(s: LockState, c: Call)
    requires s.HeldIffDeep()
    ensures Apply(s, c).HeldIffDeep() <==> !(c == UnlockCall(false) && s.count == 1)
  {
  }

  /** A call keeps the privileges exactly at positive depth unless an outermost lock or unlock fails. */
  lemma CallKeepsPrivileged(s: LockState, c: Call)
    requires s.PrivilegedIffDeep()
    ensures Apply(s, c).PrivilegedIffDeep() <==>
      c.osOk || (c.LockCall? && s.count > 0) || (c.UnlockCall? && s.count != 1)
  {
  }

  /**
   * Over every run in which ulckpwdf succeeds the lock is held exactly at positive depth; so are the
   * privileges if lckpwdf succeeds too.
   */
  lemma {:induction false} RunKeepsHeld(s: LockState, calls: seq<Call>)
    requires s.HeldIffDeep() && forall i :: 0 <= i < |calls| ==> calls[i] != UnlockCall(false)
    ensures Run(s, calls).HeldIffDeep()
    ensures s.PrivilegedIffDeep() && (forall i :: 0 <= i < |calls| ==> calls[i].osOk) ==>
      Run(s, calls).PrivilegedIffDeep()
    decreases |calls|
  {
    if calls != [] {
      CallKeepsHeld(s, calls[0]);
      RunKeepsHeld(Apply(s, calls[0]), calls[1..]);
    }
  }

  /**
   * A call succeeds, and moves the depth by one, unless there is nothing to unlock or the system refuses an
   * outermost call; an outermost unlock that the system refuses still ends at depth zero.
   */
  lemma CallMovesDepth(s: LockState, osOk: bool)
    ensures var (l, ok) := Lock(s, osOk);
      (ok <==> s.count > 0 || osOk) && l.count == s.count + (if ok then 1 else 0) && (!ok ==> l.osHeld == s.osHeld)
    ensures var (u, ok) := Unlock(s, osOk);
      && (ok <==> s.count > 1 || (s.count == 1 && osOk)) && u.count == (if s.count > 0 then s.count - 1 else 0)
      && (!ok ==> u.osHeld == s.osHeld && u.privileged == s.privileged)
  {
  }

  /**
   * Locking and unlocking again restores the depth; it restores everything if the calls that reach the
   * system succeed.
   */
  lemma LockThenUnlock(s: LockState, lockOk: bool, unlockOk: bool)
    requires Lock(s, lockOk).1
    ensures Unlock(Lock(s, lockOk).0, unlockOk).0.count == s.count
    ensures s.HeldIffDeep() && s.PrivilegedIffDeep() && (s.count > 0 || unlockOk) ==>
      Unlock(Lock(s, lockOk).0, unlockOk).0 == s
  {
  }

  class PwdfLock {
    var count: nat
    var osHeld: bool
    var privileged: bool

    function State(): LockState
      reads this
    {
      LockState(count, osHeld, privileged)
    }

    constructor ()
      ensures State() == LockState(0, false, false)
    {
      count, osHeld, privileged := 0, false, false;
    }

    method Acquire(osOk: bool) returns (ok: bool)
      modifies this
      ensures (State(), ok) == Lock(old(State()), osOk)
    {
      if count == 0 {
        privileged := true;
        if !osOk {
          return false;
        }
        osHeld := true;
      }
      count := count + 1;
      return true;
    }

    method Release(osOk: bool) returns (ok: bool)
      modifies this
      ensures (State(), ok) == Unlock(old(State()), osOk)
    {
      if count > 0 {
        count := count - 1;
        if count == 0 {
          if !osOk {
            return false;
          }
          osHeld := false;
          privileged := false;
        }
      } else {
        return false;
      }
      return true;
    }
  }
}
