# Flag generator model

A Dafny model of `leetify_random` from the CTF flag generator
`flaggen.py`, and of its command-line argument split.

`leetify_random(text, seed)` goes over the text one character at a time:
- A space always becomes `_`.
- A key of the leetspeak table (`a b e i l o s t g` in either case) draws
  one coin flip. On true it becomes its digit; on false it is kept.
- Any other character is kept.

Next it keeps only the characters of the allowed class. The body must then
have 5 to 50 characters, or the call raises a value error that carries the
length. The body is wrapped as `ctf{…}`, and the result is checked against
the full flag format.

The random source is a coin-flip oracle `coin: nat -> bool`, where the k-th
flip drawn during a call is `coin(k)`. Seeding the generator fixes that
oracle, so the promise "same seed, same flag" becomes the fact that every
outcome is a function of `(text, coin)`. The model also proves that only the
first `KeyCount(text)` flips matter.

Modules:
- `FlagTables`: the substitution table, the allowed character class and the
  full flag format.
- `Flaggen`: the substitution pass as a loop (`LeetifyRandom`), with its
  specification function `Substituted`, the filter `Cleaned` and the checks
  `ValidateBody`. It also holds the corrected variant of those checks
  described under Findings.
- `FlaggenCli`: the usage exit and the text/seed split of the argument list.

The allowed class is `[\w_!@#?$%\.'\"+\:->]`. Inside it, `\:->` is the
range from `:` to `>`, so `: ; < = >` are allowed and a literal `-` is
not. Read quickly, the class seems to list `-` as a literal; as a range it
does not, and the model follows the class as Python reads it.

Two constraints of the model:
- `\w` is restricted to ASCII letters, digits and `_`.
- `str.isdigit` is restricted to ASCII digits.

## Model

| member | source | states |
|---|---|---|
| FlagTables.LeetDict | flaggen.py:12-22 | the substitution table, entry for entry: nine letters in both cases, each mapped to one digit |
| FlagTables.IsAllowed | flaggen.py:25 | one character of the allowed class: ASCII `\w`, the listed punctuation and the range `:`..`>`; every allowed character is ASCII and none is a space, `-` or a brace |
| FlagTables.MatchesFlagRe | flaggen.py:28 | a full match of `FLAG_RE`: the prefix `ducactf{`, 5 to 50 allowed characters, a closing `}`; a matching string has 14 to 59 characters, starts with `d` and ends with `}` |
| FlagTables.LeetDictShape | flaggen.py:12-22 | the table's keys are exactly the 18 listed letters; every key is an ASCII letter and every value an ASCII digit |
| FlagTables.AllowedClassMembers | flaggen.py:25 | the class contains the whole range `:`..`>` (so `;`, `<`, `=`), and does not contain `-`, space, `{` or `}` |
| FlagTables.SubstitutesAreAllowed | flaggen.py:12-25 | every table key, every table digit, and `_` are in the allowed class |
| Flaggen.SubstChar | flaggen.py:44-52 | one iteration of the pass: the character changes exactly when it is a space or a key whose flip is true, and a changed character is `_` (from a space) or a digit |
| Flaggen.Substituted | flaggen.py:40-52 | the substitution pass yields exactly one character per input character |
| Flaggen.SubstitutedAt | flaggen.py:42-52 | at position i: a space becomes `_` whatever the flips; a key becomes `LEET_DICT[c]` exactly when flip number KeyCount(text[..i]) is true and is otherwise kept; any other character is kept |
| Flaggen.SubstitutedUsesKeyFlipsOnly | flaggen.py:44-49 | flips are drawn only for table keys (short-circuit `and`): two oracles that agree on the first KeyCount(text) flips give the same substituted sequence |
| Flaggen.LeetifyRandom | flaggen.py:31-67 | the loop draws exactly KeyCount(text) flips; the body it checks is the filtered substituted sequence, Cleaned(Substituted(text, coin)), of length SpaceOrAllowedCount(text); with an in-range body the corrected variant returns that body wrapped in `ducactf{`…`}`; the call ends in a length error carrying SpaceOrAllowedCount(text) exactly when that count is outside [5, 50], and otherwise in the format error; it never returns a flag |
| Flaggen.SubstCharAllowed | flaggen.py:44-55 | a substituted character passes the filter exactly when the input character is a space or is itself allowed, whatever the flip |
| Flaggen.Cleaned | flaggen.py:55 | the filter never lengthens its input and keeps only allowed characters |
| Flaggen.CleanedMembers | flaggen.py:55 | a character is in the cleaned sequence exactly when it is in the input and allowed |
| Flaggen.CleanedConcat | flaggen.py:55 | the filter treats each character on its own and keeps order: filtering a + b gives the filtered a followed by the filtered b |
| Flaggen.CleanedSnoc | flaggen.py:55 | one more input character adds itself to the filtered sequence exactly when it is allowed |
| Flaggen.CleanedOfAllowed | flaggen.py:55 | a sequence of allowed characters passes the filter unchanged |
| Flaggen.CleanedLength | flaggen.py:55 | the cleaned length is the number of allowed input characters |
| Flaggen.FilterExample | flaggen.py:25 | the filter keeps `;`, `<` and `=` and drops `-` and a raw space: `;<=- x` becomes `;<=x` |
| Flaggen.CleanedLengthIndependentOfCoin | flaggen.py:44-57 | for any flips, the cleaned length is the number of input characters that are a space or allowed |
| Flaggen.LengthCheckIndependentOfCoin | flaggen.py:37-60 | the outcome of the checks is the same for every oracle, and so for every seed |
| Flaggen.ShortTextFails | flaggen.py:57-60 | the text `ab` fails the length check with length 2 for any flips |
| Flaggen.ValidateBody | flaggen.py:57-67 | the result is a length error carrying the length exactly when the length is outside [5, 50]; no flag is ever returned, because the wrapped body cannot match the format |
| Flaggen.Wrap | flaggen.py:62 | the wrap is `ctf{`, the body, `}`: five characters longer than the body, which can be read back from between the braces |
| Flaggen.WrapNeverMatchesFlagRe | flaggen.py:62-65 | `ctf{` + body + `}` never fully matches `FLAG_RE`, whose literal prefix is `ducactf{` (line 28) |
| Flaggen.SpaceOrAllowedCountFull | flaggen.py:44-57 | the count of spaces and allowed characters of a text made only of those is its length |
| Flaggen.HelloWorldFailsFormat | flaggen.py:57-65 | the text `hello world` passes the length check with 11 characters and, for any flips, ends in the format error |
| Flaggen.IntendedFlagMatches | flaggen.py:28 | with the prefix `ducactf{`, a body of 5 to 50 characters matches `FLAG_RE` exactly when all its characters are allowed |
| Flaggen.ValidateBodyIntended | flaggen.py:57-67 | with the corrected wrap: the length error comes exactly when the length is out of range and carries the length; an allowed body never hits the format error; a flag is the body wrapped in `ducactf{`…`}` and matches the format |
| Flaggen.LeetifyIntended | flaggen.py:31-67 | with the corrected wrap: a flag is returned exactly when SpaceOrAllowedCount(text) is in [5, 50]; it always matches the flag format and wraps the cleaned substituted text; a length error carries the count |
| FlaggenCli.JoinSpaces | flaggen.py:74 | `" ".join`: the result holds every character of every part plus one space between each two neighbours; a single part is returned as it is |
| FlaggenCli.IsDigitString | flaggen.py:75 | `str.isdigit` on ASCII: a non-empty string of decimal digits |
| FlaggenCli.DecimalValue | flaggen.py:75 | `int` on a digit string: its decimal value, leading zeros allowed, below 10 to the power of its length |
| FlaggenCli.DecimalString | flaggen.py:75 | the decimal spelling of n is a digit string whose value is n; this is the inverse of the seed conversion |
| FlaggenCli.ParseArgs | flaggen.py:70-75 | fewer than two argv entries is the usage exit; one argument is the text with no seed; with more, the text is the arguments but the last joined by spaces (the last is dropped even if not numeric), and the seed is the last argument's value exactly when it is all digits |
| FlaggenCli.SeedRoundTrip | flaggen.py:74-75 | appending the decimal spelling of n to an argument list with a text gives seed n and the other arguments joined as the text |
| FlaggenCli.JoinSplitRoundTrip | flaggen.py:74 | joining space-free arguments with single spaces is undone by splitting at spaces, so the join loses nothing |
| FlaggenCli.LastWordDropped | flaggen.py:74-75 | as written, `hello world` generates from `hello` alone with no seed: the non-numeric last argument is lost |
| FlaggenCli.ParseArgsIntended | flaggen.py:70-75 | the corrected split: usage below two entries; the last argument is taken off the text only when it is an all-digit seed, and otherwise every argument is joined into the text |
| FlaggenCli.IntendedKeepsEveryWord | flaggen.py:74 | with the corrected split and no seed, splitting the text at spaces gives back every space-free argument, the last one included |
| FlaggenCli.IntendedAgreesOnSeed | flaggen.py:74-75 | when the last of several arguments is all digits, the corrected split and the source's split agree |

## Findings

| source | as written | input that shows it | evidently intended | confidence | as-written member | corrected member |
|---|---|---|---|---|---|---|
| flaggen.py:62 | the body is wrapped as `ctf{…}`, but `FLAG_RE` (line 28) and the module docstring (line 4) require the prefix `ducactf{`, so the check at line 64 always fails and every in-range call raises the runtime error | text `hello world`, any seed: the cleaned length is 11, and the call raises "Generated flag failed regex validation" | the wrap uses the same `ducactf{` prefix as the format, so each in-range body yields a flag that matches | high; not executed | Flaggen.HelloWorldFailsFormat | Flaggen.LeetifyIntended |
| flaggen.py:74 | with two or more arguments the last one is always left out of the text, even when it is not a number, while the usage text (line 71) names only an optional seed in that place | arguments `hello world`: the flag is generated from `hello` alone, with no seed | the last argument is taken off the text only when it is the all-digit seed | medium; not executed | FlaggenCli.LastWordDropped | FlaggenCli.ParseArgsIntended |

`Flaggen.LeetifyRandom` and `Flaggen.ValidateBody` model the code as
written: they never return a flag, as `Flaggen.WrapNeverMatchesFlagRe`
shows for every body. `Flaggen.LeetifyIntended` uses the
corrected checks `Flaggen.ValidateBodyIntended`. `FlaggenCli.ParseArgs`
models the argument split as written and `FlaggenCli.ParseArgsIntended` the
corrected one.

## Left out

- Python's `random` module is not modelled: no Mersenne Twister state and no `random.seed`. The flips come from the oracle `coin`, and seeding is what fixes that oracle.
- The general regular-expression engine is not modelled. The one character class and the fixed-prefix format are written out as predicates.
- `\w` is modelled on ASCII letters, digits and `_` only. Python's Unicode `\w` would also keep non-ASCII letters and digits.
- `str.isdigit` is modelled on ASCII digits only. Python accepts other Unicode digits too, and `int` then rejects some of them (such as superscripts), raising an error outside the `try`.
- FlaggenCli.ParseArgs: does not model the limit on `int` conversion of Python 3.11 and later (and the 3.10.7 and 3.9.14 backports). There a final argument of more than 4300 digits makes `int` raise `ValueError` at line 75, outside the `try`, and the script crashes; the model returns that argument's value as the seed.
- The output side of the entry point is not modelled: printing the usage text, the flag and the error message, writing to standard error, and the exit codes 1 and 2 (flaggen.py:71-82). The length error keeps its length; the message texts are not modelled.
- LeetifyRandom returns the cleaned body as an out-parameter; in the source it is the local `cleaned`.
- LeetifyRandom reports the number of flips it drew as an out-parameter; in the source that number shows only as how far the shared random generator advanced.
