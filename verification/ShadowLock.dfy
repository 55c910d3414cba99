/** What locking and unlocking a user's shadow entry writes. */
module ShadowLock {
  import opened Types
  import opened Sequences
  import opened Entries
  import opened UserSpec

  predicate Locked(secret: string) {
    secret != "" && secret[0] == '!'
  }

  /** The secret after the entry is locked or unlocked: one that is so already is not copied. */
  ghost predicate SecretRelocked(old_: string, new_: string, lock: bool) {
    if Locked(old_) == lock then new_ == ""
    else if lock then new_ == "!" + old_
    else old_ == "!" + new_
  }

  /** The first entry of the name is locked or unlocked; its name and ageing, and all other entries, are kept. */
  ghost predicate RelockedAt(s: seq<Shadow>, t: seq<Shadow>, name: string, lock: bool, i: nat) {
    && |t| == |s| && i < |s| && s[i].name == name && (forall j :: 0 <= j < i ==> s[j].name != name)
    && (forall k :: 0 <= k < |s| && k != i ==> t[k] == s[k])
    && t[i].name == s[i].name && t[i].ageing == s[i].ageing && SecretRelocked(s[i].secret, t[i].secret, lock)
  }

  ghost predicate Relocked(s: seq<Shadow>, t: seq<Shadow>, name: string, lock: bool) {
    exists i :: RelockedAt(s, t, name, lock, i)
  }

  lemma SecretEdited(e: Shadow, lock: bool)
    ensures var r := EditLock(lock)(e);
      r.name == e.name && r.ageing == e.ageing && SecretRelocked(e.secret, r.secret, lock)
  {
  }

  /** Locking and unlocking find the name exactly when it is there, and then write that. */
  lemma NextLockedExact(s: seq<Shadow>, name: string, lock: bool)
    ensures var t := NextLocked(s, Some(name), lock);
      && (t.Some? <==> name in Keys(s, SpName))
      && (t.Some? ==> Relocked(s, t.value, name, lock))
  {
    hide EditLock;
    var i := First(s, HitLock(Some(name)));
    if i < |s| {
      KeyIn(s, SpName, i);
      SecretEdited(s[i], lock);
      assert RelockedAt(s, s[i := EditLock(lock)(s[i])], name, lock, i);
    }
  }

  lemma NoNameToLock(s: seq<Shadow>, lock: bool)
    ensures NextLocked(s, None, lock) == None
  {
  }

  /** A user who could log in cannot while locked, and the secret is still there; unlocking brings it back. */
  lemma LockedKeepsSecret(s: seq<Shadow>, t: seq<Shadow>, name: string, i: nat)
    requires RelockedAt(s, t, name, true, i) && !Locked(s[i].secret)
    ensures Locked(t[i].secret) && t[i].secret[1..] == s[i].secret
    ensures forall r: seq<Shadow> :: RelockedAt(t, r, name, false, i) ==> r == s
  {
    forall r: seq<Shadow> | RelockedAt(t, r, name, false, i) ensures r == s {
      assert r[i].secret == t[i].secret[1..];
    }
  }

  /** A concrete lock. */
  lemma HashLocked(ageing: Ageing)
    ensures NextLocked([Shadow("ann", "$6$hash", ageing)], Some("ann"), true)
         == Some([Shadow("ann", "!$6$hash", ageing)])
    ensures NextLocked([Shadow("ann", "!$6$hash", ageing)], Some("ann"), false)
         == Some([Shadow("ann", "$6$hash", ageing)])
  {
    var open, shut := [Shadow("ann", "$6$hash", ageing)], [Shadow("ann", "!$6$hash", ageing)];
    assert "$6$hash"[0] == '$' && "!" + "$6$hash" == "!$6$hash" && "!$6$hash"[1..] == "$6$hash";
    assert HitLock(Some("ann"))(open[0]) && HitLock(Some("ann"))(shut[0]);
    assert open[0 := EditLock(true)(open[0])] == shut && shut[0 := EditLock(false)(shut[0])] == open;
  }
}
