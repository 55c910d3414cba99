/** Packed strings and string vectors (src/common/gum-string-utils.c). */
module StringUtils {
  import opened Types
  import opened Sequences

  const COMMA := ','

  // ----- g_strsplit and g_strjoinv with the separator ","

  /** The fields of a string that is not empty. */
  function Fields(s: string): (f: seq<string>)
    ensures f != []
  {
    if s == "" then [""]
    else
      var rest := Fields(s[1..]);
      if s[0] == COMMA then [""] + rest else [[s[0]] + rest[0]] + rest[1..]
  }

  /** g_strsplit: the empty string has no fields at all. */
  function Split(s: string): seq<string> {
    if s == "" then [] else Fields(s)
  }

  /** g_strjoinv */
  function Join(v: seq<string>): string {
    if v == [] then "" else if |v| == 1 then v[0] else v[0] + [COMMA] + Join(v[1..])
  }

  ghost predicate CommaFree(v: seq<string>) {
    forall i :: 0 <= i < |v| ==> COMMA !in v[i]
  }

  lemma {:induction false} FieldsCommaFree(s: string)
    ensures CommaFree(Fields(s))
  {
    if s != "" {
      FieldsCommaFree(s[1..]);
    }
  }

  lemma {:induction false} FieldsOfPlain(s: string)
    requires COMMA !in s
    ensures Fields(s) == [s]
  {
    if s != "" {
      FieldsOfPlain(s[1..]);
      assert s == [s[0]] + s[1..];
    }
  }

  lemma {:induction false} FieldsOfConcat(s: string, t: string)
    requires COMMA !in s
    ensures Fields(s + [COMMA] + t) == [s] + Fields(t)
  {
    var u := s + [COMMA] + t;
    if s == "" {
      assert u[1..] == t;
    } else {
      assert u[1..] == s[1..] + [COMMA] + t;
      FieldsOfConcat(s[1..], t);
      assert s == [s[0]] + s[1..] && u[0] == s[0] != COMMA;
    }
  }

  lemma {:induction false} FieldsOfJoin(v: seq<string>)
    requires v != [] && CommaFree(v)
    ensures Fields(Join(v)) == v
  {
    if |v| == 1 {
      FieldsOfPlain(v[0]);
    } else {
      FieldsOfJoin(v[1..]);
      FieldsOfConcat(v[0], Join(v[1..]));
    }
  }

  /** Splitting undoes joining exactly when the fields are comma-free and are not the single empty field. */
  lemma SplitOfJoin(v: seq<string>)
    ensures Split(Join(v)) == v <==> CommaFree(v) && v != [""]
  {
    if CommaFree(v) && v != [""] {
      if v != [] {
        FieldsOfJoin(v);
        if |v| > 1 {
          assert COMMA in Join(v);
        }
      }
    } else if v != [""] && Split(Join(v)) == v {
      FieldsCommaFree(Join(v));
    }
  }

  lemma {:induction false} JoinOfFields(s: string)
    ensures Join(Fields(s)) == s
  {
    if s != "" {
      var rest := Fields(s[1..]);
      JoinOfFields(s[1..]);
      assert s == [s[0]] + s[1..];
      assert Fields(s)[1..] == if s[0] == COMMA then rest else rest[1..];
    }
  }

  /** Joining undoes splitting for every string. */
  lemma JoinOfSplit(s: string)
    ensures Join(Split(s)) == s
  {
    JoinOfFields(s);
  }

  // ----- the string vector and packed string operations

  /** gum_string_utils_get_string */
  function GetString(strings: Option<string>, ind: nat): Option<string> {
    if strings.None? then None
    else
      var strv := Split(strings.value);
      if ind < |strv| then Some(strv[ind]) else None
  }

  /** A field of a packed string is the one that was packed, and there is none beyond the last. */
  lemma GetStringOfJoin(v: seq<string>, ind: nat)
    requires CommaFree(v) && v != [""]
    ensures GetString(Some(Join(v)), ind) == if ind < |v| then Some(v[ind]) else None
    ensures GetString(None, ind) == None
  {
    SplitOfJoin(v);
  }

  /** The fields of the string that an insertion of str at position ind builds. */
  function InsertedFields(strings: Option<string>, str: string, ind: nat, total: nat): (v: seq<string>)
    ensures |v| == total
  {
    seq(total, i requires 0 <= i < total =>
      if i == ind then str else GetString(strings, i).GetOr(""))
  }

  /** What gum_string_utils_insert_string returns. */
  function Inserted(strings: Option<string>, str: Option<string>, ind: nat, total: nat): Option<string> {
    if str.None? || ind >= total then None else Some(Join(InsertedFields(strings, str.value, ind, total)))
  }

  /** A NULL-terminated vector in a buffer: the strings before the first NULL. */
  function Strv(buffer: seq<Option<string>>): (v: seq<string>)
    ensures |v| <= |buffer| && forall i :: 0 <= i < |v| ==> buffer[i] == Some(v[i])
    ensures |v| < |buffer| ==> buffer[|v|] == None
  {
    if buffer == [] || buffer[0].None? then [] else [buffer[0].value] + Strv(buffer[1..])
  }

  /** The vector in a buffer is fixed by the slots up to the first NULL. */
  lemma {:induction false} StrvIs(buffer: seq<Option<string>>, v: seq<string>)
    requires |v| < |buffer| && buffer[|v|] == None
    requires forall i :: 0 <= i < |v| ==> buffer[i] == Some(v[i])
    ensures Strv(buffer) == v
  {
    if v != [] {
      StrvIs(buffer[1..], v[1..]);
    }
  }

  /** gum_string_utils_search_stringv */
  method SearchStringv(stringv: Option<seq<string>>, search: Option<string>) returns (found: bool)
    ensures found <==> stringv.Some? && search.Some? && search.value in stringv.value
  {
    if stringv.None? || search.None? {
      return false;
    }
    var ind := 0;
    while ind < |stringv.value|
      invariant 0 <= ind <= |stringv.value|
      invariant search.value !in stringv.value[..ind]
    {
      if search.value == stringv.value[ind] {
        return true;
      }
      ind := ind + 1;
    }
    return false;
  }

  /** gum_string_utils_insert_string */
  method InsertString(strings: Option<string>, str: Option<string>, ind: nat, total: nat) returns (r: Option<string>)
    ensures r == Inserted(strings, str, ind, total)
  {
    if str.None? || ind >= total {
      return None;
    }
    var src := if strings.Some? then Split(strings.value) else [];
    var dest := new Option<string>[total + 1](_ => None);
    var i := 0;
    while i < total
      invariant 0 <= i <= total
      invariant forall k :: 0 <= k < i ==> dest[k] == Some(InsertedFields(strings, str.value, ind, total)[k])
      invariant forall k :: i <= k <= total ==> dest[k] == None
    {
      if i == ind {
        dest[i] := str;
      } else if i < |src| {
        dest[i] := Some(src[i]);
      } else {
        dest[i] := Some("");
      }
      i := i + 1;
    }
    StrvIs(dest[..], InsertedFields(strings, str.value, ind, total));
    r := Some(Join(Strv(dest[..])));
  }

  /**
   * gum_string_utils_delete_string: the destination has one slot per source string, terminator included.
   * A string that occurs leaves room for the NULL; one that does not is refused before anything is allocated.
   */
  method DeleteString(src: Option<seq<string>>, str: string) returns (dest: array?<Option<string>>)
    ensures dest == null <==> src.None? || str !in src.value
    ensures dest != null ==> fresh(dest) && dest.Length == |src.value| && Strv(dest[..]) == Without(src.value, str)
  {
    var found := SearchStringv(src, Some(str));
    if !found {
      return null;
    }
    var strv := src.value;
    dest := new Option<string>[|strv|](_ => None);
    var ind, dind := 0, 0;
    while ind < |strv|
      invariant 0 <= ind <= |strv|
      invariant dind == |Without(strv[..ind], str)| <= ind
      invariant str in strv[..ind] ==> dind < ind
      invariant forall k :: 0 <= k < dind ==> dest[k] == Some(Without(strv[..ind], str)[k])
    {
      assert strv[..ind + 1] == strv[..ind] + [strv[ind]];
      WithoutConcat(strv[..ind], [strv[ind]], str);
      if strv[ind] != str {
        dest[dind] := Some(strv[ind]);
        dind := dind + 1;
      }
      ind := ind + 1;
    }
    assert strv[..ind] == strv;
    dest[dind] := None;
    StrvIs(dest[..], Without(strv, str));
  }

  /** gum_string_utils_append_string */
  method AppendString(src: Option<seq<string>>, str: string) returns (dest: array<Option<string>>)
    ensures fresh(dest) && dest.Length == |src.GetOr([])| + 2 && Strv(dest[..]) == src.GetOr([]) + [str]
  {
    var strv := src.GetOr([]);
    dest := new Option<string>[|strv| + 2](_ => None);
    var ind := 0;
    while ind < |strv|
      invariant 0 <= ind <= |strv|
      invariant forall k :: 0 <= k < ind ==> dest[k] == Some(strv[k])
      invariant forall k :: ind <= k < dest.Length ==> dest[k] == None
    {
      dest[ind] := Some(strv[ind]);
      ind := ind + 1;
    }
    dest[ind] := Some(str);
    ind := ind + 1;
    dest[ind] := None;
    StrvIs(dest[..], strv + [str]);
  }

  /** Deleting a string undoes appending it exactly when it was absent. */
  lemma DeleteUndoesAppend(v: seq<string>, str: string)
    ensures Without(v + [str], str) == v <==> str !in v
  {
    WithoutConcat(v, [str], str);
    if str !in v {
      WithoutAbsent(v, str);
    }
  }
}
