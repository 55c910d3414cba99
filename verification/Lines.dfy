/** A line of a database file as text: its fields joined by colons. */
module Lines {
  import opened Types
  import opened StringUtils
  import opened Validate
  import Gecos

  const COLON := ':'

  function ColonFields(s: string): (f: seq<string>)
    ensures f != []
  {
    if s == "" then [""]
    else
      var rest := ColonFields(s[1..]);
      if s[0] == COLON then [""] + rest else [[s[0]] + rest[0]] + rest[1..]
  }

  function Line(v: seq<string>): string
    requires v != []
  {
    if |v| == 1 then v[0] else v[0] + [COLON] + Line(v[1..])
  }

  lemma {:induction false} PlainField(s: string)
    requires COLON !in s
    ensures ColonFields(s) == [s]
  {
    if s != "" {
      PlainField(s[1..]);
      assert s == [s[0]] + s[1..];
    }
  }

  lemma {:induction false} FieldThenLine(s: string, t: string)
    requires COLON !in s
    ensures ColonFields(s + [COLON] + t) == [s] + ColonFields(t)
  {
    var u := s + [COLON] + t;
    if s == "" {
      assert u[1..] == t;
    } else {
      assert u[1..] == s[1..] + [COLON] + t;
      FieldThenLine(s[1..], t);
      assert s == [s[0]] + s[1..] && u[0] == s[0] != COLON;
    }
  }

  /**
   * Accepted texts, however many, written as one line come apart again into the same fields, and the line
   * has no end of line in it.
   */
  lemma {:induction false} LineSplitsBack(v: seq<string>)
    requires v != [] && forall i :: 0 <= i < |v| ==> ValidDbSecret(Some(v[i]))
    ensures ColonFields(Line(v)) == v && '\n' !in Line(v)
  {
    NoSeparators(v[0]);
    if |v| == 1 {
      PlainField(v[0]);
    } else {
      LineSplitsBack(v[1..]);
      FieldThenLine(v[0], Line(v[1..]));
    }
  }

  lemma NoSeparators(s: string)
    requires ValidDbSecret(Some(s))
    ensures COLON !in s && '\n' !in s
  {
  }

  /** Names, strings and packed GECOS strings are such texts, beside the secrets themselves. */
  lemma TextsFitALine(s: string)
    ensures ValidName(Some(s)) || ValidDbString(Some(s)) || Gecos.Canonical(s) ==> ValidDbSecret(Some(s))
  {
    if ValidName(Some(s)) {
      ValidNameIsDbString(s);
    }
    if Gecos.Canonical(s) {
      CanonicalIsSecret(s);
    }
  }

  lemma CanonicalIsSecret(s: string)
    requires Gecos.Canonical(s)
    ensures ValidDbSecret(Some(s))
  {
    var v := Split(s);
    forall i | 0 <= i < |v| ensures ValidDbSecret(Some(v[i])) {
      if i == Gecos.USERTYPE {
        TypeTextFits(v[i]);
      }
    }
    JoinOfTexts(v);
    JoinOfSplit(s);
  }

  lemma TypeTextFits(s: string)
    requires Gecos.TypeText(s)
    ensures ValidDbSecret(Some(s))
  {
    if s != "" {
      Gecos.TypeTexts();
      assert s in {"system", "admin", "guest", "normal", "security"};
    }
  }

  lemma {:induction false} JoinOfTexts(v: seq<string>)
    requires forall i :: 0 <= i < |v| ==> ValidDbSecret(Some(v[i]))
    ensures ValidDbSecret(Some(Join(v)))
  {
    if v != [] {
      JoinOfTexts(v[1..]);
    }
  }
}
