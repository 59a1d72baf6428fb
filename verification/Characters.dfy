/** Characters of the C locale, and C strings. */
module Characters {
  const NUL: char := 0 as char
  const RUBOUT: char := 127 as char

  /** The character at i of a C string that may end there. */
  function At(s: string, i: nat): char {
    if i < |s| then s[i] else NUL
  }

  /** A C string has no NUL inside. */
  predicate NoNul(s: string) {
    forall i | 0 <= i < |s| :: s[i] != NUL
  }

  /** CTRL_CHAR */
  predicate IsControl(c: char) { c as int < 32 }

  /** whitespace */
  predicate IsBlank(c: char) { c == ' ' || c == '\t' }

  /** _rl_to_upper */
  function ToUpper(c: char): char { if 'a' <= c <= 'z' then (c as int - 32) as char else c }

  /** _rl_to_lower */
  function ToLower(c: char): char { if 'A' <= c <= 'Z' then (c as int + 32) as char else c }

  // ----- letters -----

  const LOWERCASE := "abcdefghijklmnopqrstuvwxyz"
  const UPPERCASE := "ABCDEFGHIJKLMNOPQRSTUVWXYZ"

  lemma Letters(i: nat)
    requires i < 26
    ensures LOWERCASE[i] as int == 'a' as int + i && UPPERCASE[i] as int == 'A' as int + i
  {
  }

  /** The lower-case and the upper-case form of one letter. */
  predicate Partners(low: char, up: char) {
    exists i | 0 <= i < 26 :: low == LOWERCASE[i] && up == UPPERCASE[i]
  }

  lemma PartnersAre(low: char, up: char)
    ensures Partners(low, up) <==> 'a' <= low <= 'z' && up as int + 32 == low as int
  {
    if 'a' <= low <= 'z' && up as int + 32 == low as int {
      Letters(low as int - 'a' as int);
    }
    if Partners(low, up) {
      var i :| 0 <= i < 26 && low == LOWERCASE[i] && up == UPPERCASE[i];
      Letters(i);
    }
  }

  /** Changing the case exchanges partners and leaves all other characters alone. */
  lemma CaseIsPartner(c: char)
    ensures 'a' <= c <= 'z' ==> Partners(c, ToUpper(c))
    ensures 'A' <= c <= 'Z' ==> Partners(ToLower(c), c)
    ensures !('a' <= c <= 'z') ==> ToUpper(c) == c
    ensures !('A' <= c <= 'Z') ==> ToLower(c) == c
  {
    PartnersAre(c, ToUpper(c));
    PartnersAre(ToLower(c), c);
  }
}
