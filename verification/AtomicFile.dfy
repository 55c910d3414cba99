/**
 * Replacing one database file: the duplicate is written beside the source and renamed over it
 * (src/common/gum-file.c). A directory holds the three names that one replacement touches; link and
 * rename act on names as POSIX.1-2008 says, and never on the contents of an inode.
 */
module AtomicFile {
  import opened Types

  /** The database file, its backup ".old" and the duplicate "-tmp.PID". */
  datatype Name = Source | Old | Tmp

  datatype Dir<R> = Dir(names: map<Name, nat>, data: map<nat, seq<R>>, next: nat)
  {
    /** Inode numbers below `next` are in use; the duplicate shares its inode with no other name. */
    ghost predicate Valid() {
      && (forall n :: n in names ==> names[n] in data && names[n] < next)
      && (Tmp in names ==> forall n :: n in names && n != Tmp ==> names[n] != names[Tmp])
    }

    /** The contents that a name leads to. */
    function Read(n: Name): Option<seq<R>> {
      if n in names && names[n] in data then Some(data[names[n]]) else None
    }

    /** fopen (tmp, "w+"): a new empty inode, or the one of that name emptied. */
    function Create(): Dir<R> {
      if Tmp in names then this.(data := data[names[Tmp] := []])
      else Dir(names[Tmp := next], data[next := []], next + 1)
    }

    function Append(r: R): Dir<R>
      requires Read(Tmp).Some?
    {
      this.(data := data[names[Tmp] := data[names[Tmp]] + [r]])
    }

    function Unlink(n: Name): Dir<R> {
      this.(names := names - {n})
    }

    /** link (source, old) */
    function Link(): Dir<R>
      requires Source in names
    {
      this.(names := names[Old := names[Source]])
    }

    /** rename (tmp, source) */
    function Rename(): Dir<R>
      requires Tmp in names
    {
      this.(names := names[Source := names[Tmp]] - {Tmp})
    }
  }

  /** A new duplicate is empty and disturbs no other name. */
  lemma CreateReads<R>(d: Dir<R>)
    requires d.Valid()
    ensures d.Create().Valid() && d.Create().Read(Tmp) == Some([])
    ensures d.Create().names.Keys == d.names.Keys + {Tmp}
    ensures d.Create().Read(Source) == d.Read(Source) && d.Create().Read(Old) == d.Read(Old)
  {
  }

  /** Renaming gives the source the duplicate's contents, and the backup keeps its own. */
  lemma RenameReads<R>(d: Dir<R>)
    requires d.Valid() && Tmp in d.names
    ensures d.Rename().Valid() && d.Rename().Read(Source) == d.Read(Tmp)
    ensures d.Rename().Read(Old) == d.Read(Old) && Tmp !in d.Rename().names
  {
  }

  ghost predicate Reads<R>(steps: seq<Dir<R>>, contents: Option<seq<R>>) {
    forall i :: 0 <= i < |steps| ==> steps[i].Read(Source) == contents
  }

  /** The backup link is made: nothing is in its way and the call succeeds. */
  predicate Linked<R>(before: Dir<R>, f: Faults) {
    f.link && (f.unlinkOld || Old !in before.names)
  }

  /** The duplicate is opened, so the replacement owns its name from then on. */
  predicate Opened<R>(before: Dir<R>, f: Faults) {
    f.openSource && Source in before.names && f.openDup
  }

  /** What the backup name leads to when the rename is due. */
  function AfterBackup<R>(before: Dir<R>, f: Faults): Option<seq<R>> {
    if Linked(before, f) then before.Read(Source)
    else if f.unlinkOld then None
    else before.Read(Old)
  }

  /**
   * A replacement that returns FALSE: at every step the source name leads to the old contents. The
   * duplicate is left behind only if it was there before and was never opened, or cannot be unlinked.
   * The backup is as it was unless the rename was reached: then it is gone, or it is the new one if it
   * cannot be unlinked.
   */
  ghost predicate Failed<R>(steps: seq<Dir<R>>, f: Faults, renameDue: bool) {
    && steps != []
    && Reads(steps, steps[0].Read(Source))
    && var before, after := steps[0], steps[|steps| - 1];
       && (Tmp in after.names <==> if Opened(before, f) then !f.unlinkTmp else Tmp in before.names)
       && after.Read(Old) == (if !renameDue then before.Read(Old)
                              else if f.dropBackup then None
                              else AfterBackup(before, f))
  }

  /**
   * A replacement that returns TRUE: there is one step before which the source name leads to the old
   * contents and from which on it leads to the new ones; the backup is the old contents if it was
   * linked; the duplicate's name is gone.
   */
  ghost predicate Replaced<R>(steps: seq<Dir<R>>, contents: seq<R>, f: Faults) {
    && steps != []
    && (exists k :: 0 < k < |steps| && Reads(steps[..k], steps[0].Read(Source)) && Reads(steps[k..], Some(contents)))
    && var before, after := steps[0], steps[|steps| - 1];
       && Tmp !in after.names
       && after.Read(Old) == AfterBackup(before, f)
  }

  /** Wherever the process stops, the source name leads to all of the old or all of the new contents. */
  lemma AtEveryStop<R>(steps: seq<Dir<R>>, contents: seq<R>, f: Faults, renameDue: bool, i: nat)
    requires Failed(steps, f, renameDue) || Replaced(steps, contents, f)
    requires i < |steps|
    ensures steps[i].Read(Source) in {steps[0].Read(Source), Some(contents)}
    ensures Failed(steps, f, renameDue) ==> steps[i].Read(Source) == steps[0].Read(Source)
  {
    if !Failed(steps, f, renameDue) {
      var k :| 0 < k < |steps| && Reads(steps[..k], steps[0].Read(Source)) && Reads(steps[k..], Some(contents));
      assert if i < k then steps[i] == steps[..k][i] else steps[i] == steps[k..][i - k];
    }
  }

  /** One database file in its directory, with the steps of the current replacement. */
  class DbFile<R> {
    var dir: Dir<R>
    ghost var steps: seq<Dir<R>>

    ghost predicate Valid()
      reads this
    {
      dir.Valid() && steps != [] && dir == steps[|steps| - 1]
    }

    /** The records of the file, or None if there is no such file. */
    function Records(): Option<seq<R>>
      reads this
    {
      dir.Read(Source)
    }

    /** Between open and close: the duplicate holds `written`, and source and backup are untouched. */
    ghost predicate Writing(written: seq<R>, f: Faults)
      reads this
    {
      && Valid()
      && dir.Read(Tmp) == Some(written)
      && Reads(steps, steps[0].Read(Source))
      && steps[0].Valid() && Opened(steps[0], f)
      && dir.Read(Source).Some?
      && dir.Read(Old) == steps[0].Read(Old) && (Old in dir.names <==> Old in steps[0].names)
    }

    constructor (dir: Dir<R>)
      requires dir.Valid()
      ensures Valid() && this.dir == dir
    {
      this.dir := dir;
      this.steps := [dir];
    }

    method Step(d: Dir<R>)
      requires d.Valid()
      modifies this
      ensures Valid() && dir == d && steps == old(steps) + [d]
    {
      dir := d;
      steps := steps + [d];
    }

    /** gum_file_open_db_files */
    method OpenDbFiles(f: Faults) returns (ok: bool)
      requires Valid()
      modifies this
      ensures Valid() && steps[0] == old(dir)
      ensures ok <==> Opened(old(dir), f) && f.attributes
      ensures ok ==> Writing([], f)
      ensures !ok ==> Failed(steps, f, false)
    {
      hide Dir.Create;
      steps := [dir];
      if !f.openSource || Source !in dir.names || !f.openDup {
        return false;
      }
      CreateReads(dir);
      Step(dir.Create());
      if !f.attributes {
        Abandon([], f);
        return false;
      }
      return true;
    }

    /** g_unlink of the duplicate. */
    method Discard(f: Faults)
      requires Valid()
      modifies this
      ensures Valid() && steps == old(steps) + [dir]
      ensures dir == if f.unlinkTmp then old(dir).Unlink(Tmp) else old(dir)
    {
      Step(if f.unlinkTmp then dir.Unlink(Tmp) else dir);
    }

    /** putpwent and its likes: the n-th record goes to the duplicate. */
    method Put(r: R, ghost written: seq<R>, n: nat, f: Faults) returns (ok: bool)
      requires Writing(written, f) && n == |written|
      modifies this
      ensures Valid() && steps[0] == old(steps)[0] && Records() == old(Records())
      ensures ok <==> f.badPut != Some(n)
      ensures Writing(if ok then written + [r] else written, f)
    {
      if f.badPut == Some(n) {
        return false;
      }
      Step(dir.Append(r));
      return true;
    }

    /** The callback failed: the duplicate is closed and unlinked. */
    method Abandon(ghost written: seq<R>, f: Faults)
      requires Writing(written, f)
      modifies this
      ensures Valid() && steps[0] == old(steps)[0] && Failed(steps, f, false)
    {
      Discard(f);
    }

    /** The part of gum_file_close_db_files that makes the backup; neither call's failure is fatal. */
    method Backup(ghost written: seq<R>, f: Faults)
      requires Writing(written, f)
      modifies this
      ensures Valid() && steps[0] == old(steps)[0] && Reads(steps, steps[0].Read(Source))
      ensures dir.Read(Tmp) == Some(written) && Source in dir.names
      ensures dir.Read(Old) == AfterBackup(steps[0], f)
    {
      if f.unlinkOld {
        Step(dir.Unlink(Old));
      }
      if f.link && Old !in dir.names {
        Step(dir.Link());
      }
    }

    /** gum_file_close_db_files */
    method CloseDbFiles(ghost written: seq<R>, f: Faults) returns (ok: bool)
      requires Writing(written, f)
      modifies this
      ensures Valid() && steps[0] == old(steps)[0]
      ensures ok <==> f.flush && f.rename
      ensures ok ==> Replaced(steps, written, f)
      ensures !ok ==> Failed(steps, f, f.flush)
    {
      if !f.flush {
        Discard(f);
        return false;
      }
      Backup(written, f);
      if !f.rename {
        Withdraw(f);
        return false;
      }
      Commit(written, f);
      return true;
    }

    /** The part of gum_file_close_db_files after a rename that failed. */
    method Withdraw(f: Faults)
      requires Valid() && Reads(steps, steps[0].Read(Source))
      modifies this
      ensures Valid() && steps[0] == old(steps)[0] && Reads(steps, steps[0].Read(Source))
      ensures Tmp in dir.names <==> Tmp in old(dir).names && !f.unlinkTmp
      ensures dir.Read(Old) == if f.dropBackup then None else old(dir).Read(Old)
    {
      Step(if f.dropBackup then dir.Unlink(Old) else dir);
      Discard(f);
    }

    /** The part of gum_file_close_db_files that moves the duplicate over the source. */
    method Commit(ghost written: seq<R>, f: Faults)
      requires Valid() && dir.Read(Tmp) == Some(written) && Reads(steps, steps[0].Read(Source))
      modifies this
      ensures Valid() && |steps| == |old(steps)| + 2 && steps[..|old(steps)|] == old(steps)
      ensures Reads(steps[|old(steps)|..], Some(written))
      ensures Tmp !in dir.names && dir.Read(Old) == old(dir).Read(Old)
    {
      RenameReads(dir);
      Step(dir.Rename());
      Discard(f);
    }
  }
}
