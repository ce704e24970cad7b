/** The Python string operations the modelled code uses, on ASCII text. */
module Strings {

  predicate IsSpace(c: char) {
    c == ' ' || '\t' <= c <= '\r' || '\U{1C}' <= c <= '\U{1F}'
  }

  function StripLeft(s: string): string {
    if s != "" && IsSpace(s[0]) then StripLeft(s[1..]) else s
  }

  function StripRight(s: string): string {
    if s != "" && IsSpace(s[|s| - 1]) then StripRight(s[..|s| - 1]) else s
  }

  function Strip(s: string): string {
    StripRight(StripLeft(s))
  }

  predicate IsDigit(c: char) {
    '0' <= c <= '9'
  }

  predicate IsUpper(c: char) {
    'A' <= c <= 'Z'
  }

  predicate IsAlphanumeric(c: char) {
    IsDigit(c) || IsUpper(c) || 'a' <= c <= 'z'
  }

  predicate IsLowerHex(c: char) {
    IsDigit(c) || 'a' <= c <= 'f'
  }

  function LowerChar(c: char): char {
    if IsUpper(c) then ((c as int) + 32) as char else c
  }

  function Lower(s: string): (r: string)
    ensures |r| == |s|
  {
    seq(|s|, i requires 0 <= i < |s| => LowerChar(s[i]))
  }

  // ---------------------------------------------------------------------------------------------
  // What these operations do, by listed characters
  // ---------------------------------------------------------------------------------------------

  const DIGITS := "0123456789"
  const UPPERS := "ABCDEFGHIJKLMNOPQRSTUVWXYZ"
  const LOWERS := "abcdefghijklmnopqrstuvwxyz"
  const ALPHANUMERICS := DIGITS + UPPERS + LOWERS

  /** `c` stands among the `n` consecutive characters that start with `first`. */
  lemma Listed(letters: string, first: char, c: char)
    requires |letters| <= 26 && first < 'z' && forall i :: 0 <= i < |letters| ==> letters[i] as int == first as int + i
    ensures c in letters <==> first as int <= c as int < first as int + |letters|
  {
    if first as int <= c as int < first as int + |letters| {
      assert letters[c as int - first as int] == c;
    }
  }

  lemma CharacterClasses(c: char)
    ensures IsDigit(c) <==> c in DIGITS
    ensures IsUpper(c) <==> c in UPPERS
    ensures IsAlphanumeric(c) <==> c in ALPHANUMERICS
    ensures IsLowerHex(c) <==> c in DIGITS + "abcdef"
  {
    Listed(DIGITS, '0', c);
    Listed(UPPERS, 'A', c);
    Listed(LOWERS, 'a', c);
    Listed("abcdef", 'a', c);
  }

  /** Lower-casing replaces each upper-case letter by its partner and nothing else. */
  lemma LowerMeaning(s: string, i: nat)
    requires i < |s|
    ensures s[i] !in UPPERS ==> Lower(s)[i] == s[i]
    ensures forall k :: 0 <= k < 26 && s[i] == UPPERS[k] ==> Lower(s)[i] == LOWERS[k]
  {
    CharacterClasses(s[i]);
    LetterPair(s[i]);
    hide UPPERS, LOWERS, IsUpper, LowerChar;
  }

  lemma LetterPair(c: char)
    ensures !IsUpper(c) ==> LowerChar(c) == c
    ensures forall k :: 0 <= k < 26 && c == UPPERS[k] ==> LowerChar(c) == LOWERS[k]
  {
    UppersInOrder();
    LowersInOrder();
    hide UPPERS, LOWERS;
  }

  lemma UppersInOrder()
    ensures |UPPERS| == 26 && forall k :: 0 <= k < 26 ==> UPPERS[k] as int == 'A' as int + k
  {
  }

  lemma LowersInOrder()
    ensures |LOWERS| == 26 && forall k :: 0 <= k < 26 ==> LOWERS[k] as int == 'a' as int + k
  {
  }

  predicate IsBlank(s: string) {
    forall c :: c in s ==> IsSpace(c)
  }

  lemma {:induction false} StripLeftMeaning(s: string) returns (blank: string)
    ensures s == blank + StripLeft(s) && IsBlank(blank)
    ensures StripLeft(s) == "" || !IsSpace(StripLeft(s)[0])
  {
    if s != "" && IsSpace(s[0]) {
      blank := StripLeftMeaning(s[1..]);
      blank := [s[0]] + blank;
      assert s == [s[0]] + s[1..];
    } else {
      blank := "";
    }
  }

  lemma {:induction false} StripRightMeaning(s: string) returns (blank: string)
    ensures s == StripRight(s) + blank && IsBlank(blank)
    ensures StripRight(s) == "" || !IsSpace(StripRight(s)[|StripRight(s)| - 1])
  {
    if s != "" && IsSpace(s[|s| - 1]) {
      var before := s[..|s| - 1];
      blank := StripRightMeaning(before);
      assert s == before + [s[|s| - 1]];
      blank := blank + [s[|s| - 1]];
    } else {
      blank := "";
    }
  }

  /** Stripping takes blanks from both ends and leaves a core whose ends are not blank. */
  lemma StripMeaning(s: string) returns (before: string, after: string)
    ensures s == before + Strip(s) + after && IsBlank(before) && IsBlank(after)
    ensures Strip(s) == "" || (!IsSpace(Strip(s)[0]) && !IsSpace(Strip(s)[|Strip(s)| - 1]))
  {
    before := StripLeftMeaning(s);
    after := StripRightMeaning(StripLeft(s));
    assert Strip(s) != "" ==> Strip(s)[0] == StripLeft(s)[0];
  }

  /** The blanks of `str.strip` on ASCII text. */
  lemma SpaceCharacters(c: char)
    ensures IsSpace(c) <==> c in " \t\n\U{0B}\U{0C}\r\U{1C}\U{1D}\U{1E}\U{1F}"
  {
    var spaces := " \t\n\U{0B}\U{0C}\r\U{1C}\U{1D}\U{1E}\U{1F}";
    assert spaces[1..6] == "\t\n\U{0B}\U{0C}\r" && spaces[6..] == "\U{1C}\U{1D}\U{1E}\U{1F}";
    Listed("\t\n\U{0B}\U{0C}\r", '\t', c);
    Listed("\U{1C}\U{1D}\U{1E}\U{1F}", '\U{1C}', c);
    assert spaces == [' '] + spaces[1..6] + spaces[6..];
  }
}
