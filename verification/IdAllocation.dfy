/** The search for a free uid or gid (src/daemon/core/gumd-daemon-user.c, src/daemon/core/gumd-daemon-group.c). */
module IdAllocation {
  import opened Types

  ghost predicate Free(taken: set<Id>, id: int) {
    0 <= id <= MAX_ID && id !in taken
  }

  /** The least free id of a range. */
  function LeastFree(taken: set<Id>, min: int, max: int): (r: Option<Id>)
    requires 0 <= min && max <= MAX_ID
    ensures r.Some? ==> min <= r.value <= max && Free(taken, r.value)
    ensures forall id :: min <= id <= max && Free(taken, id) ==> r.Some? && r.value <= id
    decreases max - min
  {
    if max < min then None
    else if min !in taken then Some(min)
    else LeastFree(taken, min + 1, max)
  }

  /**
   * What the search returns: the least free id of the range. The counter is as wide as an id, so when
   * the range ends at the largest id the search goes on from zero.
   */
  function FreeId(taken: set<Id>, min: Id, max: Id): (id: Option<Id>)
    ensures id.Some? ==> id.value !in taken
  {
    if max <= min then None
    else
      var r := LeastFree(taken, min, max);
      if r.None? && max == MAX_ID then LeastFree(taken, 0, min - 1) else r
  }

  /** The search comes to an end: the range is empty, or ends below the largest id, or some id is free. */
  ghost predicate SearchEnds(taken: set<Id>, min: Id, max: Id) {
    max <= min || max < MAX_ID || exists id :: Free(taken, id)
  }

  /** The search loop. */
  method FindFreeId(taken: set<Id>, min: Id, max: Id) returns (r: Option<Id>)
    requires SearchEnds(taken, min, max)
    ensures r == FreeId(taken, min, max)
  {
    if max <= min {
      return None;
    }
    var tmp := min;
    ghost var goal, wrapped := FreeId(taken, min, max), false;
    while tmp <= max
      invariant 0 <= tmp <= MAX_ID
      invariant if wrapped then && max == MAX_ID && goal.Some? && tmp <= goal.value < min
                                && LeastFree(taken, min, max).None?
                else min <= tmp <= max + 1 && forall id :: min <= id < tmp ==> !Free(taken, id)
      decreases if wrapped then 0 else 1, MAX_ID - tmp
    {
      assert Free(taken, tmp) <==> tmp !in taken;
      if tmp !in taken {
        return Some(tmp);
      }
      wrapped := wrapped || tmp == MAX_ID;
      tmp := (tmp + 1) % 0x1_0000_0000;
    }
    return None;
  }

  // ----- searches that do not end

  /** The counter of the search after k turns of the loop. */
  ghost function Counter(min: Id, k: nat): Id {
    if k == 0 then min else (Counter(min, k - 1) + 1) % 0x1_0000_0000
  }

  /** The loop goes on after k turns. */
  ghost predicate GoesOn(taken: set<Id>, min: Id, max: Id, k: nat) {
    Counter(min, k) <= max && Counter(min, k) in taken
  }

  lemma {:induction false} CounterAt(min: Id, k: nat)
    ensures Counter(min, k) == (min + k) % 0x1_0000_0000
  {
    if k > 0 {
      CounterAt(min, k - 1);
    }
  }

  /** Every id is a value of the counter. */
  lemma CounterReaches(min: Id, id: Id) returns (k: nat)
    ensures Counter(min, k) == id
  {
    k := if min <= id then id - min else id + 0x1_0000_0000 - min;
    CounterAt(min, k);
  }

  /** Once begun, the loop goes on for ever exactly when the range ends at the largest id and every id is taken. */
  lemma SearchGoesOn(taken: set<Id>, min: Id, max: Id)
    requires min < max
    ensures (forall k :: GoesOn(taken, min, max, k)) <==> !SearchEnds(taken, min, max)
  {
    hide Counter;
    if !SearchEnds(taken, min, max) {
      forall k ensures GoesOn(taken, min, max, k) {
        assert !Free(taken, Counter(min, k));
      }
    } else {
      var id: Id := if max < MAX_ID then MAX_ID else var f :| Free(taken, f); f;
      var k := CounterReaches(min, id);
      assert !GoesOn(taken, min, max, k);
    }
  }

  ghost function AllIds(): set<Id> {
    set i | 0 <= i <= MAX_ID && Free({}, i) :: i
  }

  /** A concrete search without end: uids from 2000 on with no maximum set, and every uid taken. */
  lemma NoUidLeft(k: nat)
    ensures GoesOn(AllIds(), 2000, MAX_ID, k)
  {
    assert Free({}, Counter(2000, k));
  }

  // ----- the result of a search

  /** The least free id of the range. */
  ghost predicate LeastIn(taken: set<Id>, min: int, max: int, id: Id) {
    min <= id <= max && Free(taken, id) && forall j :: min <= j < id ==> !Free(taken, j)
  }

  ghost predicate SomeFree(taken: set<Id>, min: int, max: int) {
    exists id :: min <= id <= max && Free(taken, id)
  }

  /**
   * A search that ends returns the least free id of its range, if there is one. If there is none it
   * fails, unless the range ends at the largest id: then it returns the least free id of all.
   */
  ghost predicate Chosen(taken: set<Id>, min: Id, max: Id, r: Option<Id>) {
    if max <= min then r.None?
    else if SomeFree(taken, min, max) then r.Some? && LeastIn(taken, min, max, r.value)
    else if max < MAX_ID then r.None?
    else r.Some? && LeastIn(taken, 0, MAX_ID, r.value) && r.value < min
  }

  lemma FreeIdChosen(taken: set<Id>, min: Id, max: Id)
    requires SearchEnds(taken, min, max)
    ensures Chosen(taken, min, max, FreeId(taken, min, max))
  {
    if min < max && max == MAX_ID && !SomeFree(taken, min, max) {
      var id :| Free(taken, id);
      assert id < min;
      forall j | min <= j ensures !Free(taken, j) {
        assert Free(taken, j) ==> min <= j <= max;
      }
    }
  }

  /** A concrete result outside its range: the two ids of the range are taken, and 0 is returned. */
  lemma IdBelowRange()
    ensures FreeId({MAX_ID - 1, MAX_ID}, MAX_ID - 1, MAX_ID) == Some(0)
  {
    var taken: set<Id> := {MAX_ID - 1, MAX_ID};
    assert LeastFree(taken, MAX_ID, MAX_ID).None? by {
      assert LeastFree(taken, MAX_ID + 1, MAX_ID).None?;
    }
    assert LeastFree(taken, MAX_ID - 1, MAX_ID).None?;
  }

  lemma {:induction false} TakenSize(taken: set<Id>, min: int, max: int)
    requires 0 <= min <= max + 1 && max <= MAX_ID
    requires forall id :: min <= id <= max ==> !Free(taken, id)
    ensures max - min + 1 <= |taken|
    decreases max - min
  {
    if min <= max {
      assert !Free(taken, max);
      forall id | min <= id <= max - 1 ensures !Free(taken - {max}, id) {
        assert !Free(taken, id);
      }
      TakenSize(taken - {max}, min, max - 1);
    }
  }

  /** Pigeonhole: with at most max - min ids taken there is a free one in the range. */
  lemma FewerIdsThanRange(taken: set<Id>, min: Id, max: Id)
    requires min < max && |taken| <= max - min
    ensures FreeId(taken, min, max).Some?
    ensures min <= FreeId(taken, min, max).value <= max
  {
    if LeastFree(taken, min, max).None? {
      TakenSize(taken, min, max);
      assert false;
    }
  }
}
