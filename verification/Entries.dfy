/**
 * The callbacks that stream a database file into its duplicate while they add, delete or modify one
 * entry, and the list operations that they amount to (src/daemon/core/gumd-daemon-user.c,
 * src/daemon/core/gumd-daemon-group.c).
 */
module Entries {
  import opened Types
  import opened Sequences
  import opened AtomicFile

  /**
   * The list that one operation leaves, None if it fails. `hit` says which entry the operation acts on.
   * In the ordered files an entry is added before the first hit, else at the end; in the others an
   * entry is added at the end unless there is a hit. Deleting and modifying need a hit.
   */
  function NextEntries<R>(op: OpType, ordered: bool, s: seq<R>, hit: R -> bool, edit: R -> R, rec: R): Option<seq<R>> {
    var i := First(s, hit);
    match op
    case Add => if ordered then Some(InsertAt(s, i, rec)) else if i < |s| then None else Some(s + [rec])
    case Delete => if i < |s| then Some(RemoveAt(s, i)) else None
    case Modify => if i < |s| then Some(s[i := edit(s[i])]) else None
  }

  /** What the duplicate holds when n entries of s have been read and the first hit is at i. */
  ghost function Streamed<R>(op: OpType, s: seq<R>, i: nat, edit: R -> R, rec: R, n: nat): (out: seq<R>)
    requires i <= |s| && n <= |s|
    ensures |out| <= n + 1
  {
    if n <= i then s[..n]
    else
      match op
      case Add => InsertAt(s[..n], i, rec)
      case Delete => RemoveAt(s[..n], i)
      case Modify => s[..n][i := edit(s[i])]
  }

  /** What reading one entry adds to the duplicate. */
  function Piece<R>(op: OpType, acts: bool, edit: R -> R, rec: R, entry: R): seq<R> {
    if !acts then [entry]
    else
      match op
      case Add => [rec, entry]
      case Delete => []
      case Modify => [edit(entry)]
  }

  lemma StreamedGrows<R>(op: OpType, s: seq<R>, i: nat, edit: R -> R, rec: R, n: nat)
    requires i <= |s| && n < |s|
    ensures Streamed(op, s, i, edit, rec, n + 1)
         == Streamed(op, s, i, edit, rec, n) + Piece(op, n == i, edit, rec, s[n])
  {
    assert s[..n + 1] == s[..n] + [s[n]];
  }

  lemma StreamedBound<R>(op: OpType, s: seq<R>, i: nat, edit: R -> R, rec: R, n: nat)
    requires i <= |s| && n <= |s|
    ensures |Streamed(op, s, i, edit, rec, n)| <= |Streamed(op, s, i, edit, rec, |s|)|
  {
  }

  /** Reading everything leaves the list of the operation. */
  lemma StreamedIsNext<R>(op: OpType, ordered: bool, s: seq<R>, hit: R -> bool, edit: R -> R, rec: R)
    ensures var i, next := First(s, hit), NextEntries(op, ordered, s, hit, edit, rec);
      && (next.Some? <==> if op == Add then ordered || i == |s| else i < |s|)
      && (next.Some? ==>
            next.value == Streamed(op, s, i, edit, rec, |s|) + if op == Add && i == |s| then [rec] else [])
  {
    assert s[..|s|] == s;
  }

  /** The duplicate after each entry, from nothing to the list of the operation. */
  lemma Stages<R>(op: OpType, ordered: bool, s: seq<R>, hit: R -> bool, edit: R -> R, rec: R)
    returns (stages: seq<seq<R>>, i: nat)
    ensures i <= |s| && |stages| == |s| + 1 && stages[0] == []
    ensures forall n :: 0 <= n < |s| ==>
      && (n < i ==> !hit(s[n])) && (n == i ==> hit(s[n]))
      && stages[n + 1] == stages[n] + Piece(op, n == i, edit, rec, s[n])
    ensures var next := NextEntries(op, ordered, s, hit, edit, rec);
      && (next.Some? ==> forall n :: 0 <= n <= |s| ==> |stages[n]| <= |next.value|)
      && (next.Some? <==> if op == Add then ordered || i == |s| else i < |s|)
      && (next.Some? ==> next.value == stages[|s|] + if op == Add && i == |s| then [rec] else [])
  {
    i := First(s, hit);
    stages := seq(|s| + 1, n requires 0 <= n <= |s| => Streamed(op, s, i, edit, rec, n));
    forall n | 0 <= n < |s| {
      StreamedGrows(op, s, i, edit, rec, n);
    }
    forall n | 0 <= n <= |s| {
      StreamedBound(op, s, i, edit, rec, n);
    }
    StreamedIsNext(op, ordered, s, hit, edit, rec);
  }

  /** One turn of the loop: write the entry or what replaces it. */
  method StreamEntry<R>(file: DbFile<R>, op: OpType, acts: bool, edit: R -> R, rec: R, entry: R, f: Faults,
                        ghost before: seq<R>, n: nat)
    returns (ok: bool, ghost written: seq<R>, puts: nat)
    requires file.Writing(before, f) && n == |before| && f.PutsOk(n)
    modifies file
    ensures file.Writing(written, f) && file.steps[0] == old(file.steps)[0] && file.Records() == old(file.Records())
    ensures ok <==> f.PutsOk(n + |Piece(op, acts, edit, rec, entry)|)
    ensures ok ==> written == before + Piece(op, acts, edit, rec, entry) && puts == |written|
  {
    hide DbFile.Writing, DbFile.Valid, DbFile.Records;
    written, puts := before, n;
    if acts {
      if op == Delete {
        return true, written, puts;
      }
      var out := if op == Add then rec else edit(entry);
      ok := file.Put(out, written, puts, f);
      if !ok {
        return;
      }
      written, puts := written + [out], puts + 1;
      if op == Modify {
        return;
      }
    }
    ok := file.Put(entry, written, puts, f);
    if ok {
      written, puts := written + [entry], puts + 1;
    }
  }

  /**
   * The loop shared by the callbacks: read every entry of the source, write it or its replacement to
   * the duplicate, and succeed if the operation was done.
   */
  method StreamEntries<R>(file: DbFile<R>, op: OpType, ordered: bool, hit: R -> bool, edit: R -> R, rec: R, f: Faults)
    returns (ok: bool, ghost written: seq<R>)
    requires file.Writing([], f)
    modifies file
    ensures file.Writing(written, f) && file.steps[0] == old(file.steps)[0]
    ensures var next := NextEntries(op, ordered, old(file.Records()).value, hit, edit, rec);
      && (ok <==> next.Some? && f.PutsOk(|next.value|))
      && (ok ==> written == next.value)
  {
    hide NextEntries, First, Piece;
    var source := file.Records().value;
    ghost var stages, i := Stages(op, ordered, source, hit, edit, rec);
    var done, n, puts := false, 0, 0;
    written := [];
    while n < |source|
      invariant 0 <= n <= |source|
      invariant file.Writing(written, f) && file.steps[0] == old(file.steps)[0] && file.Records() == Some(source)
      invariant (done <==> i < n) && (done && op == Add ==> ordered)
      invariant written == stages[n] && puts == |written| && f.PutsOk(puts)
    {
      var entry := source[n];
      var acts := !done && hit(entry);
      if acts && op == Add && !ordered {
        return false, written;
      }
      assert stages[n + 1] == stages[n] + Piece(op, acts, edit, rec, entry);
      ok, written, puts := StreamEntry(file, op, acts, edit, rec, entry, f, written, puts);
      if !ok {
        return;
      }
      done, n := done || acts, n + 1;
    }
    if !done && op == Add {
      ok := file.Put(rec, written, puts, f);
      written := if ok then written + [rec] else written;
    } else {
      ok := done;
    }
  }

  /** A replacement comes about: the callback has a list to write and every call succeeds. */
  predicate Committed<R>(next: Option<seq<R>>, f: Faults) {
    next.Some? && f.Succeeds(|next.value|)
  }

  /** A replacement by the list `next` ends: all of it on TRUE, nothing of it on FALSE, at every step. */
  ghost predicate Outcome<R>(before: Dir<R>, steps: seq<Dir<R>>, next: Option<seq<R>>, f: Faults, ok: bool) {
    && steps != [] && steps[0] == before
    && (ok <==> Source in before.names && Committed(next, f))
    && (if ok then Replaced(steps, next.value, f)
        else Failed(steps, f, Source in before.names && next.Some? && f.Reaches(|next.value|)))
  }

  /** The file afterwards, read through its name. */
  lemma OutcomeReads<R>(before: Dir<R>, steps: seq<Dir<R>>, next: Option<seq<R>>, f: Faults, ok: bool)
    requires Outcome(before, steps, next, f, ok)
    ensures steps[|steps| - 1].Read(Source) == if ok then next else before.Read(Source)
  {
    if ok {
      var k :| 0 < k < |steps| && Reads(steps[..k], steps[0].Read(Source)) && Reads(steps[k..], next);
      assert steps[k..][|steps| - 1 - k] == steps[|steps| - 1];
    }
  }

  /** gum_file_update with one of the callbacks above. */
  method FileUpdate<R>(file: DbFile<R>, op: OpType, ordered: bool, hit: R -> bool, edit: R -> R, rec: R, f: Faults)
    returns (ok: bool)
    requires file.Valid() && file.Records().Some?
    modifies file
    ensures file.Valid()
    ensures var next := NextEntries(op, ordered, old(file.Records()).value, hit, edit, rec);
      && Outcome(old(file.dir), file.steps, next, f, ok)
      && (ok <==> Committed(next, f)) && file.Records() == if ok then next else old(file.Records())
  {
    ghost var before, next := file.dir, NextEntries(op, ordered, file.Records().value, hit, edit, rec);
    ok := file.OpenDbFiles(f);
    if ok {
      ghost var written;
      ok, written := StreamEntries(file, op, ordered, hit, edit, rec, f);
      if ok {
        ok := file.CloseDbFiles(written, f);
      } else {
        file.Abandon(written, f);
      }
    }
    OutcomeReads(before, file.steps, next, f, ok);
  }

  /** Every entry edited in its place. */
  function MapEntries<R>(s: seq<R>, edit: R -> R): (r: seq<R>)
    ensures |r| == |s| && forall i :: 0 <= i < |s| ==> r[i] == edit(s[i])
  {
    seq(|s|, i requires 0 <= i < |s| => edit(s[i]))
  }

  /** A loop that rewrites every entry, inlined twice in gumd_daemon_group_delete_user_membership. */
  method RewriteLoop<R>(file: DbFile<R>, edit: R -> R, f: Faults) returns (ok: bool, ghost written: seq<R>)
    requires file.Writing([], f)
    modifies file
    ensures file.Writing(written, f) && file.steps[0] == old(file.steps)[0] && file.Records() == old(file.Records())
    ensures ok <==> f.PutsOk(|old(file.Records()).value|)
    ensures ok ==> written == MapEntries(old(file.Records()).value, edit)
  {
    hide Reads, Opened, Dir.Valid;
    var source := file.Records().value;
    ghost var next := MapEntries(source, edit);
    var n := 0;
    ok, written := true, [];
    while n < |source| && ok
      invariant 0 <= n <= |source|
      invariant file.Writing(written, f) && file.steps[0] == old(file.steps)[0] && file.Records() == Some(source)
      invariant if ok then written == next[..n] && f.PutsOk(n) else !f.PutsOk(|source|)
      decreases |source| - n, ok
    {
      ok := file.Put(edit(source[n]), written, n, f);
      if ok {
        written := written + [edit(source[n])];
        n := n + 1;
      }
    }
    assert next[..|source|] == next;
  }

  /** The replacement of a file around that loop. */
  method RewriteEntries<R>(file: DbFile<R>, edit: R -> R, f: Faults) returns (ok: bool, started: bool)
    requires file.Valid() && file.Records().Some?
    modifies file
    ensures file.Valid() && (started <==> Opened(old(file.dir), f) && f.attributes)
    ensures var next := Some(MapEntries(old(file.Records()).value, edit));
      && Outcome(old(file.dir), file.steps, next, f, ok)
      && (ok <==> Committed(next, f)) && file.Records() == if ok then next else old(file.Records())
  {
    ghost var before, next := file.dir, MapEntries(file.Records().value, edit);
    started := file.OpenDbFiles(f);
    ok := started;
    if ok {
      ghost var written;
      ok, written := RewriteLoop(file, edit, f);
      if ok {
        ok := file.CloseDbFiles(written, f);
      } else {
        file.Abandon(written, f);
      }
    }
    OutcomeReads(before, file.steps, Some(next), f, ok);
  }
}
