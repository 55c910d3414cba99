/**
 * The GECOS field of a passwd line: real name, office, office phone, home phone and user type,
 * packed in one string (src/daemon/core/gumd-daemon-user.c).
 */
module Gecos {
  import opened Types
  import opened StringUtils
  import opened Validate

  const USERTYPE := 4
  const FIELD_COUNT := 5

  // ----- src/common/gum-user-types.c

  const TYPE_NONE := 0
  const TYPE_SYSTEM := 1
  const TYPE_ADMIN := 2
  const TYPE_GUEST := 4
  const TYPE_NORMAL := 8
  const TYPE_SECURITY := 16
  const TYPE_MAX_VALUE := 32

  const TYPE_NAMES := ["none", "system", "admin", "guest", "normal", "security"]

  /** The row of a user type: the number of its highest bit, counted from one. */
  function TypeIndex(t: nat): nat {
    if t == 0 then 0 else 1 + TypeIndex(t / 2)
  }

  /** gum_user_type_to_string */
  function TypeToString(t: nat): Option<string> {
    if 0 < t < TYPE_MAX_VALUE && TypeIndex(t) < |TYPE_NAMES| then Some(TYPE_NAMES[TypeIndex(t)]) else None
  }

  /** gum_user_type_from_string */
  function TypeFromString(s: Option<string>): (t: nat)
    ensures t < TYPE_MAX_VALUE
  {
    if s == Some("system") then TYPE_SYSTEM
    else if s == Some("admin") then TYPE_ADMIN
    else if s == Some("guest") then TYPE_GUEST
    else if s == Some("normal") then TYPE_NORMAL
    else if s == Some("security") then TYPE_SECURITY
    else TYPE_NONE
  }

  predicate SingleBit(t: nat) {
    t in {TYPE_SYSTEM, TYPE_ADMIN, TYPE_GUEST, TYPE_NORMAL, TYPE_SECURITY}
  }

  /** The text of a user type reads back as the type exactly for the types with a single bit. */
  lemma TypeReadsBack(t: nat)
    requires 0 < t < TYPE_MAX_VALUE
    ensures TypeToString(t).Some? && COMMA !in TypeToString(t).value && TypeToString(t).value != ""
    ensures TypeFromString(TypeToString(t)) == t <==> SingleBit(t)
    ensures var r := TypeFromString(TypeToString(t)); SingleBit(r) && r <= t < 2 * r
  {
    assert TypeIndex(0) == 0;
    assert TypeIndex(1) == 1;
    assert forall k: nat :: 2 <= k < 4 ==> TypeIndex(k) == 2;
    assert forall k: nat :: 4 <= k < 8 ==> TypeIndex(k) == 3;
    assert forall k: nat :: 8 <= k < 16 ==> TypeIndex(k) == 4;
    assert forall k: nat :: 16 <= k < 32 ==> TypeIndex(k) == 5;
  }

  /** The text that reads as a type other than none is the text of that type. */
  lemma TypeTextUnique(s: Option<string>)
    requires TypeFromString(s) != TYPE_NONE
    ensures s == TypeToString(TypeFromString(s))
  {
    TypeReadsBack(TypeFromString(s));
    assert TypeIndex(1) == 1 && TypeIndex(2) == 2 && TypeIndex(4) == 3;
    assert TypeIndex(8) == 4 && TypeIndex(16) == 5;
  }

  /** The types and their texts, one by one; no other number and no other text stands for a type. */
  lemma TypeTexts()
    ensures TypeToString(1) == Some("system") && TypeToString(2) == Some("admin") && TypeToString(4) == Some("guest")
    ensures TypeToString(8) == Some("normal") && TypeToString(16) == Some("security")
    ensures TypeToString(0) == None && forall t :: t >= 32 ==> TypeToString(t) == None
    ensures TypeFromString(Some("system")) == 1 && TypeFromString(Some("admin")) == 2
    ensures TypeFromString(Some("guest")) == 4 && TypeFromString(Some("normal")) == 8
    ensures TypeFromString(Some("security")) == 16 && TypeFromString(Some("none")) == 0 == TypeFromString(None)
    ensures forall s: string ::
      s !in {"system", "admin", "guest", "normal", "security"} ==> TypeFromString(Some(s)) == 0
    ensures TYPE_SYSTEM == 1 && TYPE_ADMIN == 2 && TYPE_GUEST == 4 && TYPE_NORMAL == 8 && TYPE_SECURITY == 16
    ensures FIELD_COUNT == 5 && USERTYPE == 4
  {
    assert TypeIndex(1) == 1 && TypeIndex(2) == 2 && TypeIndex(4) == 3;
    assert TypeIndex(8) == 4 && TypeIndex(16) == 5;
  }

  // ----- getters and setters

  /** The fields other than the type, which has a setter of its own. */
  type TextField = f: nat | f < USERTYPE

  /** _get_usertype_from_gecos */
  function UserType(gecos: Option<string>): nat {
    TypeFromString(GetString(gecos, USERTYPE))
  }

  /** The setters of the four text fields: nothing changes unless the value is new and valid. */
  function SetText(gecos: Option<string>, field: nat, value: Option<string>): Option<string> {
    if value != GetString(gecos, field) && ValidDbString(value)
    then Inserted(gecos, value, field, FIELD_COUNT)
    else gecos
  }

  /** _set_usertype_property */
  function SetType(gecos: Option<string>, value: nat): Option<string> {
    if TYPE_NONE < value < TYPE_MAX_VALUE && UserType(gecos) != value
    then Inserted(gecos, TypeToString(value), USERTYPE, FIELD_COUNT)
    else gecos
  }

  /** The record of five fields that a packed string stands for; a missing field is empty. */
  function Rec(gecos: Option<string>): (r: seq<string>)
    ensures |r| == FIELD_COUNT
  {
    seq(FIELD_COUNT, i requires 0 <= i < FIELD_COUNT => GetString(gecos, i).GetOr(""))
  }

  ghost predicate TypeText(s: string) {
    s == "" || TypeFromString(Some(s)) != TYPE_NONE
  }

  /** Five fields, the first four valid, the last empty or the name of a type. */
  ghost predicate Canonical(gecos: string) {
    && |Split(gecos)| == FIELD_COUNT
    && (forall i :: 0 <= i < USERTYPE ==> ValidDbString(Some(Split(gecos)[i])))
    && TypeText(Split(gecos)[USERTYPE])
  }

  ghost predicate CanonicalOrNull(gecos: Option<string>) {
    gecos.Some? ==> Canonical(gecos.value)
  }

  /** What one insertion does to the record: the packed string has five fields and one of them is new. */
  lemma InsertRec(gecos: Option<string>, field: nat, v: string)
    requires field < FIELD_COUNT && COMMA !in v
    ensures var r := Inserted(gecos, Some(v), field, FIELD_COUNT);
      r.Some? && Split(r.value) == Rec(r) == Rec(gecos)[field := v]
  {
    var fields := InsertedFields(gecos, v, field, FIELD_COUNT);
    if gecos.Some? {
      FieldsCommaFree(gecos.value);
    }
    SplitOfJoin(fields);
    assert fields == Rec(gecos)[field := v];
    var r := Inserted(gecos, Some(v), field, FIELD_COUNT);
    assert Split(r.value) == fields;
    assert Rec(r) == fields;
  }

  /** An accepted text replaces its field of the record and no other; a refused one changes nothing. */
  lemma SetTextRec(gecos: Option<string>, field: nat, value: Option<string>)
    requires field < FIELD_COUNT
    ensures ValidDbString(value) ==> Rec(SetText(gecos, field, value)) == Rec(gecos)[field := value.value]
    ensures !ValidDbString(value) ==> SetText(gecos, field, value) == gecos
    ensures field < USERTYPE && CanonicalOrNull(gecos) ==> CanonicalOrNull(SetText(gecos, field, value))
  {
    if ValidDbString(value) {
      InsertRec(gecos, field, value.value);
      assert Rec(gecos)[field := Rec(gecos)[field]] == Rec(gecos);
      if CanonicalOrNull(gecos) && field < USERTYPE && SetText(gecos, field, value) != gecos {
        CanonicalRec(gecos);
      }
    }
  }

  /** A type in range becomes the text of its highest bit. */
  lemma SetTypeRec(gecos: Option<string>, value: nat)
    ensures TYPE_NONE < value < TYPE_MAX_VALUE ==>
      TypeToString(value).Some? && Rec(SetType(gecos, value)) == Rec(gecos)[USERTYPE := TypeToString(value).value]
    ensures !(TYPE_NONE < value < TYPE_MAX_VALUE) ==> SetType(gecos, value) == gecos
    ensures CanonicalOrNull(gecos) ==> CanonicalOrNull(SetType(gecos, value))
  {
    if TYPE_NONE < value < TYPE_MAX_VALUE {
      TypeReadsBack(value);
      InsertRec(gecos, USERTYPE, TypeToString(value).value);
      if UserType(gecos) == value {
        TypeTextUnique(GetString(gecos, USERTYPE));
        assert Rec(gecos)[USERTYPE := Rec(gecos)[USERTYPE]] == Rec(gecos);
      } else if CanonicalOrNull(gecos) {
        CanonicalRec(gecos);
        TypeTextIsType(value);
      }
    }
  }

  lemma TypeTextIsType(value: nat)
    requires TYPE_NONE < value < TYPE_MAX_VALUE
    ensures TypeToString(value).Some? && TypeText(TypeToString(value).value)
  {
    TypeReadsBack(value);
    assert TypeToString(value).value in TYPE_NAMES[1..] by {
      assert TypeIndex(value) == 1 || TYPE_NAMES[TypeIndex(value)] == TYPE_NAMES[1..][TypeIndex(value) - 1];
      assert TYPE_NAMES[1..][0] == TYPE_NAMES[1];
    }
  }

  lemma CanonicalRec(gecos: Option<string>)
    requires CanonicalOrNull(gecos)
    ensures gecos.Some? ==> Rec(gecos) == Split(gecos.value)
    ensures forall i :: 0 <= i < USERTYPE ==> ValidDbString(Some(Rec(gecos)[i]))
    ensures TypeText(Rec(gecos)[USERTYPE])
  {
  }

  /** A canonical string is fixed by its record. */
  lemma CanonicalByRec(a: string, b: string)
    requires Canonical(a) && Canonical(b) && Rec(Some(a)) == Rec(Some(b))
    ensures a == b
  {
    CanonicalRec(Some(a));
    CanonicalRec(Some(b));
    JoinOfSplit(a);
    JoinOfSplit(b);
  }

  // ----- runs of setter calls

  datatype Call = Text(field: TextField, value: Option<string>) | Type(t: nat)
  {
    /** The call passes the validator. */
    predicate Accepted() {
      match this
      case Text(_, value) => ValidDbString(value)
      case Type(t) => TYPE_NONE < t < TYPE_MAX_VALUE
    }

    function Field(): nat { if Text? then field else USERTYPE }

    /** The text that an accepted call leaves in its field. */
    function Value(): string {
      match this
      case Text(_, value) => value.GetOr("")
      case Type(t) => TypeToString(t).GetOr("")
    }
  }

  function Apply(gecos: Option<string>, call: Call): Option<string> {
    match call
    case Text(field, value) => SetText(gecos, field, value)
    case Type(t) => SetType(gecos, t)
  }

  function ApplyAll(gecos: Option<string>, calls: seq<Call>): Option<string>
    decreases |calls|
  {
    if calls == [] then gecos else ApplyAll(Apply(gecos, calls[0]), calls[1..])
  }

  /** The value of the last accepted call for a field, or the value it started with. */
  function LastAccepted(calls: seq<Call>, field: nat, start: string): string {
    if calls == [] then start
    else
      var last := calls[|calls| - 1];
      if last.Field() == field && last.Accepted() then last.Value()
      else LastAccepted(calls[..|calls| - 1], field, start)
  }

  lemma ApplyRec(gecos: Option<string>, call: Call)
    ensures Rec(Apply(gecos, call)) == if call.Accepted() then Rec(gecos)[call.Field() := call.Value()] else Rec(gecos)
    ensures CanonicalOrNull(gecos) ==> CanonicalOrNull(Apply(gecos, call))
  {
    match call
    case Text(field, value) => SetTextRec(gecos, field, value);
    case Type(t) => SetTypeRec(gecos, t);
  }

  lemma {:induction false} ApplyAllSnoc(gecos: Option<string>, calls: seq<Call>, call: Call)
    ensures ApplyAll(gecos, calls + [call]) == Apply(ApplyAll(gecos, calls), call)
    decreases |calls|
  {
    if calls == [] {
      assert [call][1..] == [];
    } else {
      assert (calls + [call])[1..] == calls[1..] + [call];
      ApplyAllSnoc(Apply(gecos, calls[0]), calls[1..], call);
    }
  }

  /**
   * Any run of setter calls, from any string or from NULL, leaves in every field the last value
   * accepted for it, and leaves alone the fields for which none was accepted.
   */
  lemma {:induction false} SettersActOnARecord(gecos: Option<string>, calls: seq<Call>, field: nat)
    requires field < FIELD_COUNT
    ensures Rec(ApplyAll(gecos, calls))[field] == LastAccepted(calls, field, Rec(gecos)[field])
    decreases |calls|
  {
    if calls != [] {
      var init, last := calls[..|calls| - 1], calls[|calls| - 1];
      assert calls == init + [last];
      SettersActOnARecord(gecos, init, field);
      ApplyAllSnoc(gecos, init, last);
      ApplyRec(ApplyAll(gecos, init), last);
    }
  }

  /** The type getter returns the highest bit of a type just set: the type itself exactly when it has a single bit. */
  lemma TypeGetterReturnsType(gecos: Option<string>, t: nat)
    requires TYPE_NONE < t < TYPE_MAX_VALUE
    ensures UserType(SetType(gecos, t)) == t <==> SingleBit(t)
    ensures var r := UserType(SetType(gecos, t)); SingleBit(r) && r <= t < 2 * r
  {
    TypeReadsBack(t);
    SetTypeRec(gecos, t);
    var r := SetType(gecos, t);
    assert Rec(r)[USERTYPE] == TypeToString(t).value;
    assert GetString(r, USERTYPE) == TypeToString(t);
  }

  // ----- loading a record into a request object

  /** The part of _copy_passwd_struct that copies the GECOS fields one by one. */
  function Load(dest: Option<string>, src: Option<string>): Option<string> {
    var g0 := SetText(dest, 0, GetString(src, 0));
    var g1 := SetText(g0, 1, GetString(src, 1));
    var g2 := SetText(g1, 2, GetString(src, 2));
    var g3 := SetText(g2, 3, GetString(src, 3));
    SetType(g3, UserType(src))
  }

  /** The field of a source string that loading takes over. */
  function Kept(src: Option<string>, field: nat): Option<string> {
    var str := GetString(src, field);
    if field == USERTYPE then (if TypeFromString(str) != TYPE_NONE then str else None)
    else if ValidDbString(str) then str else None
  }

  lemma LoadText(dest: Option<string>, src: Option<string>, field: nat)
    requires field < USERTYPE && CanonicalOrNull(dest)
    ensures var r := SetText(dest, field, GetString(src, field));
      && CanonicalOrNull(r)
      && (r == None <==> dest == None && Kept(src, field) == None)
      && Rec(r) == Rec(dest)[field := Kept(src, field).GetOr(Rec(dest)[field])]
  {
    SetTextRec(dest, field, GetString(src, field));
    assert Rec(dest)[field := Rec(dest)[field]] == Rec(dest);
  }

  lemma LoadType(dest: Option<string>, src: Option<string>)
    requires CanonicalOrNull(dest)
    ensures var r := SetType(dest, UserType(src));
      && CanonicalOrNull(r)
      && (r == None <==> dest == None && Kept(src, USERTYPE) == None)
      && Rec(r) == Rec(dest)[USERTYPE := Kept(src, USERTYPE).GetOr(Rec(dest)[USERTYPE])]
  {
    SetTypeRec(dest, UserType(src));
    assert Rec(dest)[USERTYPE := Rec(dest)[USERTYPE]] == Rec(dest);
    if UserType(src) != TYPE_NONE {
      TypeReadsBack(UserType(src));
      TypeTextUnique(GetString(src, USERTYPE));
    }
  }

  /** Loading keeps the fields it accepts; what is refused stays as the object had it. */
  lemma LoadRec(dest: Option<string>, src: Option<string>)
    requires CanonicalOrNull(dest)
    ensures CanonicalOrNull(Load(dest, src))
    ensures forall i :: 0 <= i < FIELD_COUNT ==> Rec(Load(dest, src))[i] == Kept(src, i).GetOr(Rec(dest)[i])
    ensures Load(dest, src) == None <==> dest == None && forall i :: 0 <= i < FIELD_COUNT ==> Kept(src, i) == None
  {
    hide SetText, SetType, Rec, Kept, GetString, UserType, Canonical;
    var g0 := SetText(dest, 0, GetString(src, 0));
    var g1 := SetText(g0, 1, GetString(src, 1));
    var g2 := SetText(g1, 2, GetString(src, 2));
    var g3 := SetText(g2, 3, GetString(src, 3));
    LoadText(dest, src, 0);
    LoadText(g0, src, 1);
    LoadText(g1, src, 2);
    LoadText(g2, src, 3);
    LoadType(g3, src);
  }

  /** Loading a string into a fresh object changes nothing exactly when the string is canonical. */
  lemma LoadIsIdentityOnCanonical(src: string)
    ensures Load(None, Some(src)) == Some(src) <==> Canonical(src)
  {
    LoadRec(None, Some(src));
    if Canonical(src) {
      CanonicalRec(Some(src));
      var r := Load(None, Some(src));
      assert Kept(Some(src), 0) == Some(Split(src)[0]);
      assert Rec(None)[USERTYPE] == "";
      assert forall i :: 0 <= i < FIELD_COUNT ==> Rec(r)[i] == Rec(Some(src))[i];
      assert Rec(r) == Rec(Some(src));
      CanonicalByRec(r.value, src);
    }
  }

  /**
   * Loading normalises: the result is canonical, or NULL when no field of the source is acceptable;
   * written back and loaded again, it stays the same.
   */
  lemma LoadIsIdempotent(src: string)
    ensures CanonicalOrNull(Load(None, Some(src)))
    ensures Load(None, Some(Load(None, Some(src)).GetOr(""))) == Load(None, Some(src))
  {
    LoadRec(None, Some(src));
    LoadRec(None, Some(""));
    var r := Load(None, Some(src));
    if r.Some? {
      LoadIsIdentityOnCanonical(r.value);
    }
  }

  // ----- filling an update request from the file

  /** _update_gecos_field */
  function UpdateField(dest: Option<string>, src: Option<string>, field: nat): Option<string> {
    var str := GetString(dest, field);
    if str.Some? && str.value != "" then dest
    else if field == USERTYPE then SetType(dest, UserType(src))
    else SetText(dest, field, GetString(src, field))
  }

  function Update(dest: Option<string>, src: Option<string>): Option<string> {
    var g0 := UpdateField(dest, src, 0);
    var g1 := UpdateField(g0, src, 1);
    var g2 := UpdateField(g1, src, 2);
    var g3 := UpdateField(g2, src, 3);
    UpdateField(g3, src, USERTYPE)
  }

  /**
   * The record that an update asks for: each field that the request leaves empty is taken from the file
   * if it is acceptable.
   */
  function Filled(dest: Option<string>, src: Option<string>): (r: seq<string>)
    ensures |r| == FIELD_COUNT
  {
    seq(FIELD_COUNT, i requires 0 <= i < FIELD_COUNT =>
      if Rec(dest)[i] != "" then Rec(dest)[i] else Kept(src, i).GetOr(""))
  }

  /** The request has no GECOS string, and the one of the file has no acceptable field. */
  ghost predicate NothingToFill(dest: Option<string>, src: Option<string>) {
    dest.None? && forall i :: 0 <= i < FIELD_COUNT ==> Kept(src, i) == None
  }

  lemma UpdateFieldRec(dest: Option<string>, src: Option<string>, field: nat)
    requires field < FIELD_COUNT && CanonicalOrNull(dest)
    ensures var r := UpdateField(dest, src, field);
      && CanonicalOrNull(r)
      && (r == None <==> dest == None && Kept(src, field) == None)
      && Rec(r) == Rec(dest)[field := if Rec(dest)[field] != "" then Rec(dest)[field] else Kept(src, field).GetOr("")]
  {
    assert Rec(dest)[field := Rec(dest)[field]] == Rec(dest);
    if field == USERTYPE {
      LoadType(dest, src);
    } else {
      LoadText(dest, src, field);
    }
  }

  /** An update makes that record of any string of the file, and NULL only if there is nothing to make it of. */
  lemma UpdateRec(dest: Option<string>, src: Option<string>)
    requires CanonicalOrNull(dest)
    ensures var r := Update(dest, src);
      && (r == None <==> NothingToFill(dest, src))
      && (r.Some? ==> Canonical(r.value) && Split(r.value) == Rec(r) == Filled(dest, src))
  {
    hide UpdateField, Rec, Canonical, Kept;
    var g0 := UpdateField(dest, src, 0);
    var g1 := UpdateField(g0, src, 1);
    var g2 := UpdateField(g1, src, 2);
    var g3 := UpdateField(g2, src, 3);
    var r := UpdateField(g3, src, USERTYPE);
    UpdateFieldRec(dest, src, 0);
    UpdateFieldRec(g0, src, 1);
    UpdateFieldRec(g1, src, 2);
    UpdateFieldRec(g2, src, 3);
    UpdateFieldRec(g3, src, USERTYPE);
    assert Rec(r) == Filled(dest, src);
    CanonicalRec(r);
  }
}
