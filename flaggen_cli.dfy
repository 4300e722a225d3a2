/** The command-line entry point's decision of what to generate: the
    usage exit when no text is given, and otherwise the split of the
    argument list into the text and the optional integer seed. */
module FlaggenCli {
  import opened FlagTables

  datatype Option<T> = None | Some(value: T)

  /** What the entry point does with its argument list (whose first entry
      is the program name). */
  datatype Invocation = Usage | Generate(text: string, seed: Option<nat>)

  /** The total length of the parts. */
  function TotalLength(parts: seq<string>): nat
  {
    if parts == [] then 0 else TotalLength(parts[..|parts| - 1]) + |parts[|parts| - 1]|
  }

  /** The parts joined with single spaces between them: every character of
      every part, plus one separator between each two neighbours. */
  function JoinSpaces(parts: seq<string>): (r: string)
    ensures |r| == TotalLength(parts) + if parts == [] then 0 else |parts| - 1
    ensures |parts| == 1 ==> r == parts[0]
  {
    if |parts| == 0 then ""
    else if |parts| == 1 then parts[0]
    else JoinSpaces(parts[..|parts| - 1]) + " " + parts[|parts| - 1]
  }

  /** `isdigit`, restricted to ASCII: non-empty and all decimal digits. */
  predicate IsDigitString(s: string)
  {
    |s| > 0 && forall i :: 0 <= i < |s| ==> IsAsciiDigit(s[i])
  }

  function Pow10(n: nat): (r: nat)
    ensures r >= 1
  {
    if n == 0 then 1 else 10 * Pow10(n - 1)
  }

  /** The value of a string of decimal digits, leading zeros allowed: a
      number below 10 to the power of the string's length. */
  function DecimalValue(s: string): (v: nat)
    requires forall i :: 0 <= i < |s| ==> IsAsciiDigit(s[i])
    ensures v < Pow10(|s|)
  {
    if s == [] then 0
    else DecimalValue(s[..|s| - 1]) * 10 + DigitValue(s[|s| - 1])
  }

  function DigitValue(c: char): (d: nat)
    requires IsAsciiDigit(c)
    ensures d <= 9
  {
    c as int - '0' as int
  }

  /** The decimal spelling of `n`, without leading zeros: a digit string
      whose value is `n`. */
  function DecimalString(n: nat): (s: string)
    ensures IsDigitString(s)
    ensures DecimalValue(s) == n
  {
    var d := [('0' as int + n % 10) as char];
    assert DigitValue(d[0]) == n % 10;
    if n < 10 then d
    else
      var s := DecimalString(n / 10) + d;
      assert s[..|s| - 1] == DecimalString(n / 10);
      s
  }

  /** The entry point's argument handling. Fewer than two entries is the
      usage exit. With exactly one argument it is the text and there is no
      seed. With two or more, the text is every argument but the last joined
      by spaces (the last is dropped from the text even when it is not a
      number), and the seed is the value of the last argument when it is all
      digits. */
  function ParseArgs(argv: seq<string>): (inv: Invocation)
    ensures inv.Usage? <==> |argv| < 2
    ensures |argv| == 2 ==> inv == Generate(argv[1], None)
    ensures |argv| > 2 ==> inv.Generate? && inv.text == JoinSpaces(argv[1..|argv| - 1])
    ensures |argv| > 2 ==> (inv.seed.Some? <==> IsDigitString(argv[|argv| - 1]))
    ensures inv.Generate? && inv.seed.Some? ==>
              |argv| > 2 && inv.seed.value == DecimalValue(argv[|argv| - 1])
  {
    if |argv| < 2 then Usage
    else
      var text := if |argv| > 2 then JoinSpaces(argv[1..|argv| - 1]) else argv[1];
      var seed := if |argv| > 2 && IsDigitString(argv[|argv| - 1])
                  then Some(DecimalValue(argv[|argv| - 1])) else None;
      Generate(text, seed)
  }

  /** Appending a seed's decimal spelling to an invocation with at least one
      text argument gives back that seed and leaves the text as the other
      arguments joined by spaces. */
  lemma SeedRoundTrip(argv: seq<string>, n: nat)
    requires |argv| >= 2
    ensures ParseArgs(argv + [DecimalString(n)]) == Generate(JoinSpaces(argv[1..]), Some(n))
  {
    var full := argv + [DecimalString(n)];
    assert full[1..|full| - 1] == argv[1..];
  }

  /** Splitting at every space, as `str.split(" ")` does. */
  function SplitSpaces(s: string): (parts: seq<string>)
    ensures |parts| >= 1
  {
    if s == [] then [""]
    else
      var init := SplitSpaces(s[..|s| - 1]);
      if s[|s| - 1] == ' ' then init + [""]
      else init[..|init| - 1] + [init[|init| - 1] + [s[|s| - 1]]]
  }

  predicate NoSpace(w: string)
  {
    forall i :: 0 <= i < |w| ==> w[i] != ' '
  }

  /** Appending a space-free word extends the last part of the split. */
  lemma {:induction false} SplitAppendWord(s: string, w: string)
    requires NoSpace(w)
    ensures var p := SplitSpaces(s);
            SplitSpaces(s + w) == p[..|p| - 1] + [p[|p| - 1] + w]
  {
    var p := SplitSpaces(s);
    if w == [] {
      assert s + w == s;
      assert p[|p| - 1] + w == p[|p| - 1];
      assert p[..|p| - 1] + [p[|p| - 1]] == p;
    } else {
      var w' := w[..|w| - 1];
      assert (s + w)[..|s + w| - 1] == s + w';
      assert NoSpace(w');
      SplitAppendWord(s, w');
      var q := SplitSpaces(s + w');
      assert q == p[..|p| - 1] + [p[|p| - 1] + w'];
      assert p[|p| - 1] + w' + [w[|w| - 1]] == p[|p| - 1] + w;
    }
  }

  /** Joining space-free parts with spaces and splitting at the spaces gives
      the parts back: the join loses nothing. */
  lemma {:induction false} JoinSplitRoundTrip(parts: seq<string>)
    requires |parts| >= 1
    requires forall k :: 0 <= k < |parts| ==> NoSpace(parts[k])
    ensures SplitSpaces(JoinSpaces(parts)) == parts
  {
    if |parts| == 1 {
      SplitAppendWord([], parts[0]);
      assert [] + parts[0] == parts[0];
    } else {
      var init := parts[..|parts| - 1];
      JoinSplitRoundTrip(init);
      var j := JoinSpaces(init) + " ";
      assert j[..|j| - 1] == JoinSpaces(init);
      assert SplitSpaces(j) == init + [""];
      var w := parts[|parts| - 1];
      SplitAppendWord(j, w);
      var p := init + [""];
      assert p[..|p| - 1] == init;
      assert p[|p| - 1] + w == w;
      assert JoinSpaces(parts) == j + w;
      assert init + [w] == parts;
    }
  }

  /** As written, with two or more arguments the last one never reaches
      the text: `hello world` generates from `hello` alone, with no seed. */
  lemma LastWordDropped()
    ensures ParseArgs(["flaggen.py", "hello", "world"]) == Generate("hello", None)
  {
    var argv := ["flaggen.py", "hello", "world"];
    assert argv[1..|argv| - 1] == ["hello"];
    assert !IsAsciiDigit(argv[2][0]);
  }

  /** The argument handling as evidently intended: the last argument is
      taken off the text only when it is the all-digit seed. */
  function ParseArgsIntended(argv: seq<string>): (inv: Invocation)
    ensures inv.Usage? <==> |argv| < 2
    ensures |argv| > 2 && IsDigitString(argv[|argv| - 1]) ==>
              inv == Generate(JoinSpaces(argv[1..|argv| - 1]), Some(DecimalValue(argv[|argv| - 1])))
    ensures |argv| >= 2 && !(|argv| > 2 && IsDigitString(argv[|argv| - 1])) ==>
              inv == Generate(JoinSpaces(argv[1..]), None)
  {
    if |argv| < 2 then Usage
    else if |argv| > 2 && IsDigitString(argv[|argv| - 1]) then
      Generate(JoinSpaces(argv[1..|argv| - 1]), Some(DecimalValue(argv[|argv| - 1])))
    else
      Generate(JoinSpaces(argv[1..]), None)
  }

  /** With the intended handling no word is lost: when the last argument is
      not a seed, splitting the text at its spaces gives back every
      (space-free) argument, the last one included. */
  lemma IntendedKeepsEveryWord(argv: seq<string>)
    requires |argv| >= 2
    requires !(|argv| > 2 && IsDigitString(argv[|argv| - 1]))
    requires forall k :: 1 <= k < |argv| ==> NoSpace(argv[k])
    ensures ParseArgsIntended(argv).seed == None
    ensures SplitSpaces(ParseArgsIntended(argv).text) == argv[1..]
  {
    var words := argv[1..];
    assert forall k :: 0 <= k < |words| ==> words[k] == argv[k + 1];
    JoinSplitRoundTrip(words);
  }

  /** The intended handling agrees with the source whenever the last of
      several arguments is the seed. */
  lemma IntendedAgreesOnSeed(argv: seq<string>)
    requires |argv| > 2 && IsDigitString(argv[|argv| - 1])
    ensures ParseArgsIntended(argv) == ParseArgs(argv)
  {
  }
}
