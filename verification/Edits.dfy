/**
 * Which entries the callbacks of the four files act on, and what they make of the lists, in terms of the
 * records themselves and whatever the lists are like.
 */
module Edits {
  import opened Types
  import opened Sequences
  import opened GroupSpec
  import opened UserSpec

  /** The entry that is wanted is at position i, and none before it is. */
  ghost predicate FirstAt<R(!new)>(s: seq<R>, i: nat, wanted: R -> bool) {
    i < |s| && wanted(s[i]) && forall j :: 0 <= j < i ==> !wanted(s[j])
  }

  ghost predicate NoneOf<R(!new)>(s: seq<R>, wanted: R -> bool) {
    forall j :: 0 <= j < |s| ==> !wanted(s[j])
  }

  /** The position before the first entry with a larger id, or the end. */
  ghost predicate Before<R>(s: seq<R>, key: R -> Id, id: Id, i: nat) {
    i <= |s| && (forall j :: 0 <= j < i ==> key(s[j]) <= id) && (i < |s| ==> id < key(s[i]))
  }

  // ----- passwd

  /** A user is added before the first larger uid, or at the end. */
  lemma PasswdAdds(s: seq<Passwd>, pw: PwReq, oldName: Option<string>)
    ensures exists i ::
      Before(s, PwUid, pw.uid, i) && NextPasswd(Add, s, pw, oldName) == Some(InsertAt(s, i, PasswdLine(pw)))
  {
    var i := First(s, HitPasswd(Add, pw, oldName));
    assert Before(s, PwUid, pw.uid, i);
  }

  /**
   * A user is removed at the first entry with the uid, the gid and the name; it is replaced there or at
   * an old name.
   */
  lemma PasswdRemovesAndReplaces(s: seq<Passwd>, pw: PwReq, oldName: Option<string>, i: nat)
    ensures var own := (e: Passwd) => e.uid == pw.uid && e.gid == pw.gid && Some(e.name) == pw.name;
      && (FirstAt(s, i, own) ==> NextPasswd(Delete, s, pw, oldName) == Some(RemoveAt(s, i)))
      && (NoneOf(s, own) ==> NextPasswd(Delete, s, pw, oldName) == None)
    ensures var old_ := (e: Passwd) =>
        e.uid == pw.uid && e.gid == pw.gid && Some(e.name) == if oldName == None then pw.name else oldName;
      && (FirstAt(s, i, old_) ==> NextPasswd(Modify, s, pw, oldName) == Some(s[i := PasswdLine(pw)]))
      && (NoneOf(s, old_) ==> NextPasswd(Modify, s, pw, oldName) == None)
  {
    var own := (e: Passwd) => e.uid == pw.uid && e.gid == pw.gid && Some(e.name) == pw.name;
    var old_ := (e: Passwd) =>
      e.uid == pw.uid && e.gid == pw.gid && Some(e.name) == if oldName == None then pw.name else oldName;
    SameFirst(s, HitPasswd(Delete, pw, oldName), own, i);
    SameFirst(s, HitPasswd(Modify, pw, oldName), old_, i);
  }

  lemma SameFirst<R(!new)>(s: seq<R>, hit: R -> bool, wanted: R -> bool, i: nat)
    requires forall e :: hit(e) <==> wanted(e)
    ensures FirstAt(s, i, wanted) ==> First(s, hit) == i
    ensures NoneOf(s, wanted) ==> First(s, hit) == |s|
  {
    var k := First(s, hit);
    if FirstAt(s, i, wanted) {
      assert !(k < i) && !(i < k);
    }
  }

  // ----- shadow

  /** A shadow entry is added at the end, unless the name is there; removed, or replaced, at the first of the name. */
  lemma ShadowEdits(s: seq<Shadow>, sp: SpReq, oldName: Option<string>, i: nat)
    ensures var own := (e: Shadow) => Some(e.name) == sp.name;
      && (NoneOf(s, own) ==>
            NextShadow(Add, s, sp, oldName) == Some(s + [ShadowLine(sp)]) && NextShadow(Delete, s, sp, oldName) == None)
      && (FirstAt(s, i, own) ==>
            NextShadow(Add, s, sp, oldName) == None && NextShadow(Delete, s, sp, oldName) == Some(RemoveAt(s, i)))
    ensures var old_ := (e: Shadow) => Some(e.name) == if oldName == None then sp.name else oldName;
      && (FirstAt(s, i, old_) ==> NextShadow(Modify, s, sp, oldName) == Some(s[i := ShadowLine(sp)]))
      && (NoneOf(s, old_) ==> NextShadow(Modify, s, sp, oldName) == None)
  {
    var own, old_ := (e: Shadow) => Some(e.name) == sp.name,
                     (e: Shadow) => Some(e.name) == if oldName == None then sp.name else oldName;
    SameFirst(s, HitShadow(Add, sp, oldName), own, i);
    SameFirst(s, HitShadow(Delete, sp, oldName), own, i);
    SameFirst(s, HitShadow(Modify, sp, oldName), old_, i);
  }

  // ----- group

  lemma GroupAdds(s: seq<Group>, gr: GrReq, oldName: Option<string>)
    ensures exists i ::
      Before(s, GrGid, gr.gid, i) && NextGroup(Add, s, gr, oldName) == Some(InsertAt(s, i, GroupLine(gr)))
  {
    var i := First(s, HitGroup(Add, gr, oldName));
    assert Before(s, GrGid, gr.gid, i);
  }

  lemma GroupRemovesAndReplaces(s: seq<Group>, gr: GrReq, oldName: Option<string>, i: nat)
    ensures var own := (e: Group) => e.gid == gr.gid && Some(e.name) == gr.name;
      && (FirstAt(s, i, own) ==> NextGroup(Delete, s, gr, oldName) == Some(RemoveAt(s, i)))
      && (NoneOf(s, own) ==> NextGroup(Delete, s, gr, oldName) == None)
    ensures var old_ := (e: Group) => e.gid == gr.gid && Some(e.name) == if oldName == None then gr.name else oldName;
      && (FirstAt(s, i, old_) ==> NextGroup(Modify, s, gr, oldName) == Some(s[i := GroupLine(gr)]))
      && (NoneOf(s, old_) ==> NextGroup(Modify, s, gr, oldName) == None)
  {
    var own := (e: Group) => e.gid == gr.gid && Some(e.name) == gr.name;
    var old_ := (e: Group) => e.gid == gr.gid && Some(e.name) == if oldName == None then gr.name else oldName;
    SameFirst(s, HitGroup(Delete, gr, oldName), own, i);
    SameFirst(s, HitGroup(Modify, gr, oldName), old_, i);
  }

  // ----- gshadow

  lemma GshadowEdits(s: seq<Gshadow>, sg: SgReq, oldName: Option<string>, i: nat)
    ensures var own := (e: Gshadow) => Some(e.name) == sg.name;
      && (NoneOf(s, own) ==>
            && NextGshadow(Add, s, sg, oldName) == Some(s + [GshadowLine(sg)])
            && NextGshadow(Delete, s, sg, oldName) == None)
      && (FirstAt(s, i, own) ==>
            NextGshadow(Add, s, sg, oldName) == None && NextGshadow(Delete, s, sg, oldName) == Some(RemoveAt(s, i)))
    ensures var old_ := (e: Gshadow) => Some(e.name) == if oldName == None then sg.name else oldName;
      && (FirstAt(s, i, old_) ==> NextGshadow(Modify, s, sg, oldName) == Some(s[i := GshadowLine(sg)]))
      && (NoneOf(s, old_) ==> NextGshadow(Modify, s, sg, oldName) == None)
  {
    var own, old_ := (e: Gshadow) => Some(e.name) == sg.name,
                     (e: Gshadow) => Some(e.name) == if oldName == None then sg.name else oldName;
    SameFirst(s, HitGshadow(Add, sg, oldName), own, i);
    SameFirst(s, HitGshadow(Delete, sg, oldName), own, i);
    SameFirst(s, HitGshadow(Modify, sg, oldName), old_, i);
  }

  // ----- the lines that are written

  /** A NULL is written as an empty field. */
  lemma LinesWritten(pw: PwReq, sp: SpReq, gr: GrReq, sg: SgReq)
    ensures var l := PasswdLine(pw);
      && l.uid == pw.uid && l.gid == pw.gid && Text(l.name, pw.name) && Text(l.passwd, pw.passwd)
      && Text(l.gecos, pw.gecos) && Text(l.dir, pw.dir) && Text(l.shell, pw.shell)
    ensures var l := ShadowLine(sp); l.ageing == sp.ageing && Text(l.name, sp.name) && Text(l.secret, sp.secret)
    ensures var l := GroupLine(gr);
      l.gid == gr.gid && Text(l.name, gr.name) && Text(l.passwd, gr.passwd) && List(l.mem, gr.mem)
    ensures var l := GshadowLine(sg);
      Text(l.name, sg.name) && Text(l.secret, sg.secret) && List(l.adm, sg.adm) && List(l.mem, sg.mem)
  {
  }

  predicate Text(written: string, asked: Option<string>) {
    match asked
    case Some(s) => written == s
    case None => written == ""
  }

  predicate List(written: seq<string>, asked: Option<seq<string>>) {
    match asked
    case Some(v) => written == v
    case None => written == []
  }
}
