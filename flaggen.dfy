/** `leetify_random`: a substitution pass over the input text that draws
    one coin flip per table key, a filter to the allowed character class, a
    length check, the wrap of the body, and the final format check.

    The random source is a coin-flip oracle `coin`: the k-th flip drawn
    during a call is `coin(k)`. Seeding the generator fixes that oracle, so
    "the same seed gives the same flag" becomes the statement that the
    outcome is a function of the text and the oracle. */
module Flaggen {
  import opened FlagTables

  /** How a call ends: a length error carrying the cleaned length, the
      internal format error, or a returned flag. */
  datatype Outcome = LengthError(length: nat) | FormatError | Flag(flag: string)

  function Last(s: string): char
    requires s != []
  {
    s[|s| - 1]
  }

  function Init(s: string): string
    requires s != []
  {
    s[..|s| - 1]
  }

  /** The number of characters of `s` that are keys of the table: the
      number of coin flips the substitution pass draws on `s`. */
  function KeyCount(s: string): nat
  {
    if s == [] then 0
    else KeyCount(Init(s)) + (if Last(s) in LeetDict then 1 else 0)
  }

  /** The character one iteration of the pass appends for `c`, given the
      flip it would draw if `c` is a key. */
  function SubstChar(c: char, flip: bool): (r: char)
    ensures r != c <==> c == ' ' || (c in LeetDict && flip)
    ensures r != c ==> (c == ' ' && r == '_') || IsAsciiDigit(r)
  {
    LeetDictShape();
    if c == ' ' then '_'
    else if c in LeetDict && flip then LeetDict[c]
    else c
  }

  /** The substituted sequence: the pass over `text`, where the character at
      position i draws flip number KeyCount(text[..i]). */
  function Substituted(text: string, coin: nat -> bool): (r: string)
    ensures |r| == |text|
  {
    if text == [] then []
    else Substituted(Init(text), coin) + [SubstChar(Last(text), coin(KeyCount(Init(text))))]
  }

  /** The filter: the characters of `s` in the allowed class, in order. */
  function Cleaned(s: string): (r: string)
    ensures |r| <= |s|
    ensures forall i :: 0 <= i < |r| ==> IsAllowed(r[i])
  {
    if s == [] then []
    else Cleaned(Init(s)) + (if IsAllowed(Last(s)) then [Last(s)] else [])
  }

  /** The number of allowed characters of `s`. */
  function AllowedCount(s: string): nat
  {
    if s == [] then 0
    else AllowedCount(Init(s)) + (if IsAllowed(Last(s)) then 1 else 0)
  }

  /** The number of characters of `text` that are a space or allowed: the
      length the cleaned body has whatever the flips. */
  function SpaceOrAllowedCount(text: string): nat
  {
    if text == [] then 0
    else SpaceOrAllowedCount(Init(text)) + (if Last(text) == ' ' || IsAllowed(Last(text)) then 1 else 0)
  }

  /** The wrap as the source builds it. */
  function Wrap(body: string): (r: string)
    ensures |r| == |body| + 5
    ensures r[..4] == "ctf{" && r[4..|r| - 1] == body && r[|r| - 1] == '}'
  {
    "ctf{" + body + "}"
  }

  /** The checks after the filter, as written: the length check, the wrap,
      and the full format check, which the wrapped body can never pass. */
  function ValidateBody(cleaned: string): (r: Outcome)
    ensures r.LengthError? <==> !(5 <= |cleaned| <= 50)
    ensures r.LengthError? ==> r.length == |cleaned|
    ensures !r.Flag?
  {
    if !(5 <= |cleaned| <= 50) then LengthError(|cleaned|)
    else
      var flag := Wrap(cleaned);
      WrapNeverMatchesFlagRe(cleaned);
      if MatchesFlagRe(flag) then Flag(flag) else FormatError
  }

  /** `leetify_random` with its substitution pass as a loop. It returns the
      outcome, the cleaned body it checked and the number of coin flips it
      drew. */
  method LeetifyRandom(text: string, coin: nat -> bool) returns (outcome: Outcome, body: string, flipsUsed: nat)
    ensures flipsUsed == KeyCount(text)
    ensures body == Cleaned(Substituted(text, coin))
    ensures |body| == SpaceOrAllowedCount(text)
    ensures outcome == ValidateBody(body)
    ensures 5 <= |body| <= 50 ==> LeetifyIntended(text, coin) == Flag(WrapIntended(body))
    ensures outcome.LengthError? <==> !(5 <= SpaceOrAllowedCount(text) <= 50)
    ensures outcome.LengthError? ==> outcome.length == SpaceOrAllowedCount(text)
    ensures !outcome.LengthError? ==> outcome == FormatError
  {
    var result: string := [];
    flipsUsed := 0;
    for i := 0 to |text|
      invariant result == Substituted(text[..i], coin)
      invariant flipsUsed == KeyCount(text[..i])
    {
      var ch := text[i];
      assert text[..i + 1] == text[..i] + [ch];
      if ch == ' ' {
        result := result + ['_'];
        continue;
      }
      var replace := false;
      if ch in LeetDict {
        replace := coin(flipsUsed);
        flipsUsed := flipsUsed + 1;
      }
      if replace {
        result := result + [LeetDict[ch]];
      } else {
        result := result + [ch];
      }
    }
    assert text[..|text|] == text;
    body := Cleaned(result);
    CleanedLengthIndependentOfCoin(text, coin);
    outcome := ValidateBody(body);
  }

  /** The wrapped body never fully matches the flag format: it starts with
      `c`, the format with `d`. */
  lemma WrapNeverMatchesFlagRe(body: string)
    ensures !MatchesFlagRe(Wrap(body))
  {
    var s := Wrap(body);
    if |s| >= |FlagPrefix| {
      assert s[..|FlagPrefix|][0] == 'c' != FlagPrefix[0];
    }
  }

  /** Position by position: one output character per input character, a
      space always becomes `_`, a key becomes its digit exactly when its
      flip (number KeyCount(text[..i])) is true, and anything else is kept. */
  lemma {:induction false} SubstitutedAt(text: string, coin: nat -> bool, i: nat)
    requires i < |text|
    ensures |Substituted(text, coin)| == |text|
    ensures text[i] == ' ' ==> Substituted(text, coin)[i] == '_'
    ensures text[i] in LeetDict ==>
              Substituted(text, coin)[i]
              == (if coin(KeyCount(text[..i])) then LeetDict[text[i]] else text[i])
    ensures text[i] != ' ' && text[i] !in LeetDict ==> Substituted(text, coin)[i] == text[i]
  {
    if i < |text| - 1 {
      SubstitutedAt(Init(text), coin, i);
      assert Init(text)[..i] == text[..i];
    } else {
      assert Init(text) == text[..i];
    }
  }

  /** The pass draws flips 0 .. KeyCount(text)-1 and no others: two oracles
      that agree on those give the same substituted sequence. */
  lemma {:induction false} SubstitutedUsesKeyFlipsOnly(text: string, coin1: nat -> bool, coin2: nat -> bool)
    requires forall k: nat :: k < KeyCount(text) ==> coin1(k) == coin2(k)
    ensures Substituted(text, coin1) == Substituted(text, coin2)
  {
    if text != [] {
      SubstitutedUsesKeyFlipsOnly(Init(text), coin1, coin2);
    }
  }

  /** A substituted character is allowed exactly when the input character is
      a space or is itself allowed, whatever the flip. */
  lemma SubstCharAllowed(c: char, flip: bool)
    ensures IsAllowed(SubstChar(c, flip)) <==> c == ' ' || IsAllowed(c)
  {
    SubstitutesAreAllowed();
  }

  /** A character is in the cleaned sequence exactly when it is in the
      input and allowed. */
  lemma {:induction false} CleanedMembers(s: string)
    ensures forall c :: c in Cleaned(s) <==> c in s && IsAllowed(c)
  {
    if s != [] {
      CleanedMembers(Init(s));
      assert s == Init(s) + [Last(s)];
    }
  }

  /** The filter keeps every allowed character, one for one. */
  lemma {:induction false} CleanedLength(s: string)
    ensures |Cleaned(s)| == AllowedCount(s)
  {
    if s != [] {
      CleanedLength(Init(s));
    }
  }

  /** The filter distributes over concatenation: what it keeps of `a + b`
      is what it keeps of `a` followed by what it keeps of `b`. */
  lemma {:induction false} CleanedConcat(a: string, b: string)
    ensures Cleaned(a + b) == Cleaned(a) + Cleaned(b)
  {
    if b != [] {
      assert Init(a + b) == a + Init(b);
      assert Last(a + b) == Last(b);
      CleanedConcat(a, Init(b));
    } else {
      assert a + b == a;
    }
  }

  /** A string made only of allowed characters passes the filter whole. */
  lemma {:induction false} CleanedOfAllowed(s: string)
    requires forall c :: c in s ==> IsAllowed(c)
    ensures Cleaned(s) == s
  {
    if s != [] {
      var t, c := Init(s), Last(s);
      assert s == t + [c];
      CleanedOfAllowed(t);
      CleanedSnoc(t, c);
    }
  }

  /** The length of the cleaned body does not depend on the flips: it is the
      number of input characters that are a space or allowed. */
  lemma {:induction false} CleanedLengthIndependentOfCoin(text: string, coin: nat -> bool)
    ensures |Cleaned(Substituted(text, coin))| == SpaceOrAllowedCount(text)
  {
    if text != [] {
      var sub := Substituted(text, coin);
      var c := SubstChar(Last(text), coin(KeyCount(Init(text))));
      assert Init(sub) == Substituted(Init(text), coin);
      assert Last(sub) == c;
      SubstCharAllowed(Last(text), coin(KeyCount(Init(text))));
      CleanedLengthIndependentOfCoin(Init(text), coin);
    }
  }

  /** Whether the length check passes is the same for every oracle, and so
      for every seed. */
  lemma LengthCheckIndependentOfCoin(text: string, coin1: nat -> bool, coin2: nat -> bool)
    ensures ValidateBody(Cleaned(Substituted(text, coin1)))
            == ValidateBody(Cleaned(Substituted(text, coin2)))
  {
    CleanedLengthIndependentOfCoin(text, coin1);
    CleanedLengthIndependentOfCoin(text, coin2);
  }

  /** Appending one character to the input appends it to the cleaned
      sequence exactly when it is allowed. */
  lemma CleanedSnoc(s: string, c: char)
    ensures Cleaned(s + [c]) == Cleaned(s) + if IsAllowed(c) then [c] else []
  {
    assert Init(s + [c]) == s;
  }

  /** The filter keeps `;`, `<` and `=`, and drops `-` and a raw space. */
  lemma FilterExample()
    ensures Cleaned(";<=- x") == ";<=x"
  {
    var kept: string := ";<=";
    assert Cleaned([';']) == [';'] by { CleanedSnoc([], ';'); }
    assert Cleaned([';', '<']) == [';', '<'] by { CleanedSnoc([';'], '<'); }
    assert Cleaned(kept) == kept by { CleanedSnoc([';', '<'], '='); }
    assert Cleaned(kept + ['-']) == kept by { CleanedSnoc(kept, '-'); }
    assert Cleaned(kept + ['-', ' ']) == kept by {
      CleanedSnoc(kept + ['-'], ' ');
      assert kept + ['-'] + [' '] == kept + ['-', ' '];
    }
    assert Cleaned(kept + ['-', ' ', 'x']) == kept + ['x'] by {
      CleanedSnoc(kept + ['-', ' '], 'x');
      assert kept + ['-', ' '] + ['x'] == kept + ['-', ' ', 'x'];
    }
    assert ";<=- x" == kept + ['-', ' ', 'x'];
    assert ";<=x" == kept + ['x'];
  }

  /** The text "ab" keeps at most two characters, so it fails the length
      check with length 2 whatever the flips. */
  lemma ShortTextFails(coin: nat -> bool)
    ensures ValidateBody(Cleaned(Substituted("ab", coin))) == LengthError(2)
  {
    CleanedLengthIndependentOfCoin("ab", coin);
    assert Init("ab") == "a";
    assert Init("a") == [];
  }

  /** A text made only of spaces and allowed characters keeps all of them. */
  lemma {:induction false} SpaceOrAllowedCountFull(text: string)
    requires forall i :: 0 <= i < |text| ==> text[i] == ' ' || IsAllowed(text[i])
    ensures SpaceOrAllowedCount(text) == |text|
  {
    if text != [] {
      assert forall i :: 0 <= i < |Init(text)| ==> Init(text)[i] == text[i];
      SpaceOrAllowedCountFull(Init(text));
      assert Last(text) == text[|text| - 1];
    }
  }

  /** The text `hello world` passes the length check (11 characters) and
      then, for every seed, ends in the format error. */
  lemma HelloWorldFailsFormat(coin: nat -> bool)
    ensures ValidateBody(Cleaned(Substituted("hello world", coin))) == FormatError
  {
    var text := "hello world";
    forall i | 0 <= i < |text|
      ensures text[i] == ' ' || IsAllowed(text[i])
    {
    }
    SpaceOrAllowedCountFull(text);
    CleanedLengthIndependentOfCoin(text, coin);
  }

  // ---------------------------------------------------------------------
  // The wrap and the format check as evidently intended: both with the
  // prefix `ducactf{`.
  // ---------------------------------------------------------------------

  function WrapIntended(body: string): string
  {
    FlagPrefix + body + "}"
  }

  /** With the wrap and the format agreeing, a body of in-range length
      yields a flag that matches the format exactly when every character of
      the body is allowed. */
  lemma IntendedFlagMatches(body: string)
    requires 5 <= |body| <= 50
    ensures MatchesFlagRe(WrapIntended(body))
            <==> forall i :: 0 <= i < |body| ==> IsAllowed(body[i])
  {
    var s := WrapIntended(body);
    assert s[..|FlagPrefix|] == FlagPrefix;
    forall i | 0 <= i < |body|
      ensures s[i + |FlagPrefix|] == body[i]
    {
    }
  }

  /** The checks after the filter with the corrected wrap. */
  function ValidateBodyIntended(cleaned: string): (r: Outcome)
    ensures r.LengthError? <==> !(5 <= |cleaned| <= 50)
    ensures r.LengthError? ==> r.length == |cleaned|
    ensures (forall i :: 0 <= i < |cleaned| ==> IsAllowed(cleaned[i])) ==> !r.FormatError?
    ensures r.Flag? ==> r.flag == WrapIntended(cleaned) && MatchesFlagRe(r.flag)
  {
    if !(5 <= |cleaned| <= 50) then LengthError(|cleaned|)
    else
      var flag := WrapIntended(cleaned);
      IntendedFlagMatches(cleaned);
      if MatchesFlagRe(flag) then Flag(flag) else FormatError
  }

  /** `leetify_random` with the wrap corrected: it returns a flag exactly
      when the text has 5 to 50 characters that are a space or allowed, and
      every flag it returns matches the format. */
  function LeetifyIntended(text: string, coin: nat -> bool): (r: Outcome)
    ensures r.Flag? <==> 5 <= SpaceOrAllowedCount(text) <= 50
    ensures r.LengthError? ==> r.length == SpaceOrAllowedCount(text)
    ensures r.Flag? ==> MatchesFlagRe(r.flag)
    ensures r.Flag? ==> r.flag == WrapIntended(Cleaned(Substituted(text, coin)))
  {
    var cleaned := Cleaned(Substituted(text, coin));
    CleanedLengthIndependentOfCoin(text, coin);
    ValidateBodyIntended(cleaned)
  }
}
