/** The constant tables of the flag generator: the leetspeak substitution
    table, the character class a flag body may be drawn from, and the full
    flag format that a finished flag is checked against. */
module FlagTables {

  /** The substitution table: nine letters, in both cases, each mapped to
      one digit. */
  const LeetDict: map<char, char> := map[
    'a' := '4', 'A' := '4',
    'b' := '8', 'B' := '8',
    'e' := '3', 'E' := '3',
    'i' := '1', 'I' := '1',
    'l' := '1', 'L' := '1',
    'o' := '0', 'O' := '0',
    's' := '5', 'S' := '5',
    't' := '7', 'T' := '7',
    'g' := '9', 'G' := '9'
  ]

  predicate IsAsciiLetter(c: char) {
    'a' <= c <= 'z' || 'A' <= c <= 'Z'
  }

  predicate IsAsciiDigit(c: char) {
    '0' <= c <= '9'
  }

  /** The word class `\w`, restricted to ASCII: letters, digits and `_`. */
  predicate IsWordChar(c: char) {
    IsAsciiLetter(c) || IsAsciiDigit(c) || c == '_'
  }

  /** One character of the allowed class: `\w`, the listed punctuation, and
      the range from `:` to `>` (which is `: ; < = >`; a literal `-` is not
      in the class, it only forms the range). */
  predicate IsAllowed(c: char)
    ensures IsAllowed(c) ==> c as int < 128
    ensures IsAllowed(c) ==> c != ' ' && c != '-' && c != '{' && c != '}'
  {
    IsWordChar(c)
    || c == '_' || c == '!' || c == '@' || c == '#' || c == '?' || c == '$'
    || c == '%' || c == '.' || c == '\'' || c == '"' || c == '+'
    || (':' <= c <= '>')
  }

  /** The literal prefix the full flag format demands. */
  const FlagPrefix: string := "ducactf{"

  /** A full match of the flag format: the prefix, then 5 to 50 characters
      of the allowed class, then `}` and nothing after it. */
  predicate MatchesFlagRe(s: string)
    ensures MatchesFlagRe(s) ==> 14 <= |s| <= 59 && s[0] == 'd' && s[|s| - 1] == '}'
  {
    |s| >= |FlagPrefix| + 1
    && s[..|FlagPrefix|] == FlagPrefix
    && s[|s| - 1] == '}'
    && 5 <= |s| - |FlagPrefix| - 1 <= 50
    && forall i :: |FlagPrefix| <= i < |s| - 1 ==> IsAllowed(s[i])
  }

  /** The table's keys are exactly the eighteen listed letters, each is an
      ASCII letter, and each maps to an ASCII digit. */
  lemma LeetDictShape()
    ensures forall c :: c in LeetDict <==> c in "aAbBeEiIlLoOsStTgG"
    ensures forall c :: c in LeetDict ==> IsAsciiLetter(c) && IsAsciiDigit(LeetDict[c])
  {
  }

  /** The range `\:->` admits `: ; < = >`; the class holds no `-`, no
      space and neither brace. */
  lemma AllowedClassMembers()
    ensures forall c :: ':' <= c <= '>' ==> IsAllowed(c)
    ensures IsAllowed(';') && IsAllowed('<') && IsAllowed('=')
    ensures !IsAllowed('-') && !IsAllowed(' ')
    ensures !IsAllowed('{') && !IsAllowed('}')
  {
  }

  /** Every value of the table, and `_`, is in the allowed class. */
  lemma SubstitutesAreAllowed()
    ensures forall c :: c in LeetDict ==> IsAllowed(LeetDict[c]) && IsAllowed(c)
    ensures IsAllowed('_')
  {
    LeetDictShape();
  }
}
