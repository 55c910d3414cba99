/** Which strings may enter the database (src/common/gum-validate.c). */
module Validate {
  import opened Types
  import opened StringUtils

  /** The longest name of a utmp record. */
  const UT_NAMESIZE := 32

  predicate IsAlpha(c: char) { 'A' <= c <= 'Z' || 'a' <= c <= 'z' }
  predicate IsDigit(c: char) { '0' <= c <= '9' }

  /** The three bracket expressions of GUM_NAME_PATTERN. */
  predicate NameFirst(c: char) { IsAlpha(c) || c == '_' }
  predicate NameMiddle(c: char) { IsAlpha(c) || IsDigit(c) || c == '_' || c == '.' || c == '-' }
  predicate NameLast(c: char) { NameMiddle(c) || c == '$' }

  // ----- the language of the pattern

  /** The part of the POSIX basic regular expressions, with GNU's \?, that the pattern uses. */
  datatype Re = Bracket(accepts: char -> bool) | Star(r: Re) | Optional(r: Re) | Then(first: Re, second: Re)

  /** The string as a whole is in the language of re (the pattern is anchored at both ends). */
  ghost predicate Matches(re: Re, s: string)
    decreases re, |s|
  {
    match re
    case Bracket(accepts) => |s| == 1 && accepts(s[0])
    case Optional(r) => s == "" || Matches(r, s)
    case Then(a, b) => exists k :: 0 <= k <= |s| && Matches(a, s[..k]) && Matches(b, s[k..])
    case Star(r) => s == "" || exists k :: 0 < k <= |s| && Matches(r, s[..k]) && Matches(re, s[k..])
  }

  /** ^[A-Za-z_][A-Za-z0-9_.-]*[A-Za-z0-9_.$-]\?$ */
  const NAME_PATTERN := Then(Bracket(NameFirst), Then(Star(Bracket(NameMiddle)), Optional(Bracket(NameLast))))

  /** A scan from left to right: one first character, middle characters, and a last one that may be '$'. */
  predicate ScanName(s: string) {
    && s != ""
    && NameFirst(s[0])
    && (forall i :: 0 < i < |s| - 1 ==> NameMiddle(s[i]))
    && (|s| > 1 ==> NameLast(s[|s| - 1]))
  }

  lemma {:induction false} StarIsAll(accepts: char -> bool, s: string)
    ensures Matches(Star(Bracket(accepts)), s) <==> forall i :: 0 <= i < |s| ==> accepts(s[i])
    decreases |s|
  {
    var re := Star(Bracket(accepts));
    if s != "" {
      if Matches(re, s) {
        var k :| 0 < k <= |s| && Matches(Bracket(accepts), s[..k]) && Matches(re, s[k..]);
        StarIsAll(accepts, s[k..]);
        assert s == s[..k] + s[k..];
      }
      if forall i :: 0 <= i < |s| ==> accepts(s[i]) {
        StarIsAll(accepts, s[1..]);
        assert Matches(Bracket(accepts), s[..1]) && Matches(re, s[1..]);
      }
    }
  }

  /** Middle characters followed by an optional last one. */
  lemma TailLanguage(s: string)
    ensures Matches(NAME_PATTERN.second, s) <==>
            (forall i :: 0 <= i < |s| - 1 ==> NameMiddle(s[i])) && (s != "" ==> NameLast(s[|s| - 1]))
  {
    var stars, last := Star(Bracket(NameMiddle)), Optional(Bracket(NameLast));
    if Matches(NAME_PATTERN.second, s) {
      var k :| 0 <= k <= |s| && Matches(stars, s[..k]) && Matches(last, s[k..]);
      StarIsAll(NameMiddle, s[..k]);
      assert forall i :: 0 <= i < k ==> NameMiddle(s[i]) by {
        assert forall i :: 0 <= i < k ==> s[i] == s[..k][i];
      }
      assert s[k..] == "" || (Matches(Bracket(NameLast), s[k..]) && s[k..][0] == s[|s| - 1]);
    }
    if (forall i :: 0 <= i < |s| - 1 ==> NameMiddle(s[i])) && (s != "" ==> NameLast(s[|s| - 1])) {
      var k := if s == "" then 0 else |s| - 1;
      StarIsAll(NameMiddle, s[..k]);
      assert Matches(stars, s[..k]) && Matches(last, s[k..]);
    }
  }

  /** The language of the pattern is what the scan accepts. */
  lemma NamePatternIsScan(s: string)
    ensures Matches(NAME_PATTERN, s) <==> ScanName(s)
  {
    if Matches(NAME_PATTERN, s) {
      var k :| 0 <= k <= |s| && Matches(Bracket(NameFirst), s[..k]) && Matches(NAME_PATTERN.second, s[k..]);
      TailLanguage(s[1..]);
    }
    if ScanName(s) {
      TailLanguage(s[1..]);
      assert Matches(Bracket(NameFirst), s[..1]) && Matches(NAME_PATTERN.second, s[1..]);
    }
  }

  /** gum_validate_name */
  predicate ValidName(name: Option<string>) {
    name.Some? && 0 < |name.value| <= UT_NAMESIZE && ScanName(name.value)
  }

  /** A character of a name after the first: letters, digits, and three more. */
  ghost predicate Plain(c: char) {
    'A' <= c <= 'Z' || 'a' <= c <= 'z' || '0' <= c <= '9' || c == '_' || c == '.' || c == '-'
  }

  /**
   * Accepted names, character by character: one to 32 characters, the first a letter or an underscore, the
   * others letters, digits, underscores, dots and hyphens, or at the very end a dollar sign.
   */
  lemma NameByCharacters(name: string)
    ensures ValidName(Some(name)) <==>
      && 1 <= |name| <= 32
      && ('A' <= name[0] <= 'Z' || 'a' <= name[0] <= 'z' || name[0] == '_')
      && forall i :: 0 < i < |name| ==> Plain(name[i]) || (i == |name| - 1 && name[i] == '$')
  {
    if ValidName(Some(name)) {
      forall i | 0 < i < |name| ensures Plain(name[i]) || (i == |name| - 1 && name[i] == '$') {
        assert i == |name| - 1 || NameMiddle(name[i]);
      }
    }
  }

  /** Names at the edges of what is accepted. */
  lemma NamesAtTheEdge()
    ensures ValidName(Some("_")) && ValidName(Some("a-1.B_$")) && ValidName(Some("aZ09"))
    ensures !ValidName(None) && !ValidName(Some("")) && !ValidName(Some("1a")) && !ValidName(Some("-a"))
    ensures !ValidName(Some("$")) && !ValidName(Some("a$b")) && !ValidName(Some("a b")) && !ValidName(Some("a,b"))
  {
    var edge := "a-1.B_$";
    assert edge[0] == 'a' && edge[1] == '-' && edge[2] == '1' && edge[3] == '.' && edge[4] == 'B' && edge[5] == '_';
    assert "aZ09"[1] == 'Z' && "aZ09"[2] == '0' && "aZ09"[3] == '9';
    assert "a$b"[1] == '$' && "a b"[1] == ' ' && "a,b"[1] == ',' && "1a"[0] == '1' && "-a"[0] == '-' && "$"[0] == '$';
  }

  /** A name that the pattern accepts may be as long as a utmp record allows, and no longer. */
  lemma LongestName(name: string)
    requires ScanName(name)
    ensures ValidName(Some(name)) <==> |name| <= 32
    ensures ValidName(Some(seq(32, _ => 'a'))) && !ValidName(Some(seq(33, _ => 'a')))
  {
  }

  /** A name holds no separator of the files or of the member lists. */
  lemma ValidNamePlain(name: string)
    requires ValidName(Some(name))
    ensures COMMA !in name && ':' !in name && name != ""
  {
    forall i | 0 <= i < |name| ensures name[i] != COMMA && name[i] != ':' {
      assert i == 0 || i == |name| - 1 || NameMiddle(name[i]);
    }
  }

  /** The member list that a group reports splits back into its members, whatever their number. */
  lemma UserListSplitsBack(mem: seq<string>)
    requires forall i :: 0 <= i < |mem| ==> ValidName(Some(mem[i]))
    ensures Split(Join(mem)) == mem
  {
    forall i | 0 <= i < |mem| ensures COMMA !in mem[i] && mem[i] != "" {
      ValidNamePlain(mem[i]);
    }
    SplitOfJoin(mem);
  }

  // ----- strings and secrets

  predicate IsControl(c: char) { c <= '\U{1f}' || c == '\U{7f}' }

  /** gum_validate_db_string_entry */
  predicate ValidDbString(str: Option<string>) {
    str.Some? && forall i :: 0 <= i < |str.value| ==> !IsControl(str.value[i]) && str.value[i] !in {',', ':'}
  }

  /** gum_validate_db_secret_entry */
  predicate ValidDbSecret(str: Option<string>) {
    str.Some? && forall i :: 0 <= i < |str.value| ==> !IsControl(str.value[i]) && str.value[i] != ':'
  }

  /** A valid name is a valid database string and a valid secret. */
  lemma ValidNameIsDbString(name: string)
    requires ValidName(Some(name))
    ensures ValidDbString(Some(name)) && ValidDbSecret(Some(name))
  {
    forall i | 0 <= i < |name| ensures !IsControl(name[i]) && name[i] !in {',', ':'} {
      assert i == 0 || i == |name| - 1 || NameMiddle(name[i]);
    }
  }

  /**
   * Strings and secrets, character by character: everything but the control characters 0x00 to 0x1f and
   * 0x7f, the colon, and, in a string, the comma.
   */
  lemma StringsByCharacters(str: string)
    ensures ValidDbString(Some(str)) <==>
      forall i :: 0 <= i < |str| ==>
        str[i] as int >= 0x20 && str[i] as int != 0x7f && str[i] != ':' && str[i] != ','
    ensures ValidDbSecret(Some(str)) <==>
      forall i :: 0 <= i < |str| ==> str[i] as int >= 0x20 && str[i] as int != 0x7f && str[i] != ':'
    ensures !ValidDbString(None) && !ValidDbSecret(None)
  {
  }

  /** All of the printable ASCII characters are accepted, but for the separators. */
  lemma PrintableIsAccepted(str: string)
    requires forall i :: 0 <= i < |str| ==> ' ' <= str[i] <= '~' && str[i] != ':'
    ensures ValidDbSecret(Some(str)) && (ValidDbString(Some(str)) <==> COMMA !in str)
  {
  }

  /** One character that is not allowed refuses the whole, wherever it stands. */
  lemma OneCharacterRefuses(a: string, c: char, b: string)
    ensures c <= '\U{1f}' || c == '\U{7f}' || c == ':' ==>
      !ValidDbString(Some(a + [c] + b)) && !ValidDbSecret(Some(a + [c] + b))
    ensures !ValidDbString(Some(a + [','] + b))
    ensures c >= ' ' && c !in {'\U{7f}', ':', ','} ==>
      (ValidDbString(Some(a + [c] + b)) <==> ValidDbString(Some(a)) && ValidDbString(Some(b)))
  {
    var s, t := a + [c] + b, a + [','] + b;
    assert s[|a|] == c && t[|a|] == ',';
    assert forall i :: 0 <= i < |a| ==> s[i] == a[i];
    assert forall i :: 0 <= i < |b| ==> s[|a| + 1 + i] == b[i];
  }

  /** Texts as people write them. */
  lemma OrdinaryTexts()
    ensures ValidDbString(Some("Ann Smith")) && ValidDbString(Some("")) && ValidDbString(Some("/bin/sh"))
    ensures ValidDbSecret(Some("$6$a b,c")) && !ValidDbString(Some("a,b")) && !ValidDbSecret(Some("a:b"))
    ensures !ValidDbSecret(Some("a\n")) && !ValidDbString(Some("\t"))
  {
    assert "a,b"[1] == ',' && "a:b"[1] == ':' && "a\n"[1] == '\n' && "\t"[0] == '\t';
  }

  // ----- generated names

  /** The hexadecimal MD5 digest of a string: 32 lower-case digits. */
  ghost predicate IsHexDigest(digest: string) {
    |digest| == 32 && forall i :: 0 <= i < |digest| ==> IsDigit(digest[i]) || 'a' <= digest[i] <= 'f'
  }

  /** gum_validate_generate_username, given the digest of the string. */
  function GenerateUsername(str: Option<string>, digest: string): Option<string> {
    if str.None? || str.value == "" then None
    else
      var name := if digest != "" && !IsAlpha(digest[0]) then digest[0 := 'U'] else digest;
      if ValidName(Some(name)) then Some(name) else None
  }

  /** A name is generated for every string that is not empty: 32 hexadecimal digits always pass the pattern. */
  lemma GeneratedNameAccepted(str: string, digest: string)
    requires IsHexDigest(digest)
    ensures GenerateUsername(Some(str), digest).Some? <==> str != ""
    ensures str != "" ==>
      var name := GenerateUsername(Some(str), digest).value;
      && |name| == 32 && name[1..] == digest[1..]
      && name[0] == if 'a' <= digest[0] <= 'f' then digest[0] else 'U'
  {
  }
}
