/** Day 2: password policies. Each input line names two numbers, a letter
    and a password; part 1 reads the numbers as an occurrence range, part 2
    as two 1-based positions of which exactly one must hold the letter. */
module Day2 {
  import opened Common

  datatype Password = Password(minOccurrence: nat, maxOccurrence: nat, letter: char, password: string)

  predicate AllWordChars(s: string) { forall i :: 0 <= i < |s| ==> IsWordChar(s[i]) }

  /** Number of leading decimal digits. */
  function DigitPrefixLength(s: string): (n: nat)
    ensures n <= |s| && AllDigits(s[..n])
    ensures n < |s| ==> !IsDigit(s[n])
  {
    if s != [] && IsDigit(s[0]) then
      var n := 1 + DigitPrefixLength(s[1..]);
      assert s[..n] == [s[0]] + s[1..][..n - 1];
      n
    else 0
  }

  /** A line matched against `^(\d+)-(\d+)\s([a-z]):\s(\w+)$` and its captures
      read into a record; `None` where the line does not match. */
  function ParseLine(line: string): Option<Password> {
    var n1 := DigitPrefixLength(line);
    if n1 == 0 || n1 == |line| || line[n1] != '-' then None
    else ParseAfterMin(DigitsValue(line[..n1]), line[n1 + 1..])
  }

  /** The pattern's part after `(\d+)-`. */
  function ParseAfterMin(min: nat, rest: string): Option<Password> {
    var n2 := DigitPrefixLength(rest);
    if n2 == 0 then None else ParsePolicyTail(min, DigitsValue(rest[..n2]), rest[n2..])
  }

  /** The pattern's part `\s([a-z]):\s(\w+)$`. */
  function ParsePolicyTail(min: nat, max: nat, tail: string): Option<Password> {
    if |tail| >= 5 && IsWhitespace(tail[0]) && IsLower(tail[1]) && tail[2] == ':' && IsWhitespace(tail[3])
       && AllWordChars(tail[4..])
    then Some(Password(min, max, tail[1], tail[4..]))
    else None
  }

  /** The puzzle's line format, `<min>-<max> <letter>: <password>`. */
  function Format(p: Password): string {
    NatToString(p.minOccurrence) + "-" + NatToString(p.maxOccurrence) + " " + [p.letter] + ": " + p.password
  }

  /** A run of digits followed by a non-digit is read to its end. */
  lemma {:induction false} DigitPrefixOf(a: string, b: string)
    requires AllDigits(a)
    requires b != [] && !IsDigit(b[0])
    ensures DigitPrefixLength(a + b) == |a|
  {
    if a != [] {
      assert (a + b)[1..] == a[1..] + b;
      DigitPrefixOf(a[1..], b);
    } else {
      assert a + b == b;
    }
  }

  lemma PolicyTailFormat(p: Password)
    requires IsLower(p.letter) && p.password != [] && AllWordChars(p.password)
    ensures ParsePolicyTail(p.minOccurrence, p.maxOccurrence, " " + [p.letter] + ": " + p.password) == Some(p)
  {
    var tail := " " + [p.letter] + ": " + p.password;
    assert tail[0] == ' ' && tail[1] == p.letter && tail[2] == ':' && tail[3] == ' ';
    assert tail[4..] == p.password;
  }

  lemma AfterMinFormat(p: Password)
    requires IsLower(p.letter) && p.password != [] && AllWordChars(p.password)
    ensures ParseAfterMin(p.minOccurrence, NatToString(p.maxOccurrence) + " " + [p.letter] + ": " + p.password) == Some(p)
  {
    var b := NatToString(p.maxOccurrence);
    var tail := " " + [p.letter] + ": " + p.password;
    var rest := b + " " + [p.letter] + ": " + p.password;
    assert rest == b + tail;
    DigitPrefixOf(b, tail);
    assert rest[..|b|] == b && rest[|b|..] == tail;
    DigitsValueOfNatToString(p.maxOccurrence);
    PolicyTailFormat(p);
  }

  /** A run of digits and a dash hand the rest of the line on. */
  lemma LineAfterMin(a: string, rest: string)
    requires a != [] && AllDigits(a)
    ensures ParseLine(a + "-" + rest) == ParseAfterMin(DigitsValue(a), rest)
  {
    var line := a + "-" + rest;
    assert line == a + ("-" + rest);
    DigitPrefixOf(a, "-" + rest);
    assert line[..|a|] == a && line[|a|] == '-';
    assert line[|a| + 1..] == rest;
  }

  /** Every well-formed record is read back from its formatted line. */
  lemma ParseFormat(p: Password)
    requires IsLower(p.letter) && p.password != [] && AllWordChars(p.password)
    ensures ParseLine(Format(p)) == Some(p)
  {
    var a := NatToString(p.minOccurrence);
    var rest := NatToString(p.maxOccurrence) + " " + [p.letter] + ": " + p.password;
    assert Format(p) == a + "-" + rest;
    LineAfterMin(a, rest);
    DigitsValueOfNatToString(p.minOccurrence);
    AfterMinFormat(p);
  }

  /** A parsed record has a lower-case letter and a non-empty password of word
      characters, as the pattern demands. */
  lemma ParseLineShape(line: string)
    requires ParseLine(line).Some?
    ensures IsLower(ParseLine(line).value.letter)
    ensures ParseLine(line).value.password != [] && AllWordChars(ParseLine(line).value.password)
    ensures Format(ParseLine(line).value) != []
  {
  }

  /** The generator: every line must match, or the source panics. */
  function InputGenerator(input: string): (r: Option<seq<Password>>)
    ensures r.Some? ==> (|r.value| == |Lines(input)|
      && forall k :: 0 <= k < |r.value| ==> ParseLine(Lines(input)[k]) == Some(r.value[k]))
    ensures r.None? ==> exists k :: 0 <= k < |Lines(input)| && ParseLine(Lines(input)[k]).None?
  {
    ParseAll(Lines(input))
  }

  function ParseAll(lines: seq<string>): (r: Option<seq<Password>>)
    ensures r.Some? ==> (|r.value| == |lines|
      && forall k :: 0 <= k < |r.value| ==> ParseLine(lines[k]) == Some(r.value[k]))
    ensures r.None? ==> exists k :: 0 <= k < |lines| && ParseLine(lines[k]).None?
  {
    if lines == [] then Some([])
    else
      match ParseLine(lines[0])
      case None => None
      case Some(p) =>
        match ParseAll(lines[1..])
        case None => None
        case Some(ps) => Some([p] + ps)
  }

  /** Occurrences of c in s (`matches(c).count()`). */
  function Occurrences(s: string, c: char): (n: nat)
    ensures n == |set i | 0 <= i < |s| && s[i] == c|
  {
    CountWhereCard(s, x => x == c, set i | 0 <= i < |s| && s[i] == c);
    CountWhere(s, x => x == c)
  }

  /** Part-1 policy: the letter occurs between min and max times. */
  predicate ValidPart1(p: Password) {
    p.minOccurrence <= Occurrences(p.password, p.letter) <= p.maxOccurrence
  }

  /** Part 1: the number of passwords valid under the occurrence policy. */
  function Part1(input: seq<Password>): (r: nat)
    ensures r == |set i | 0 <= i < |input| && ValidPart1(input[i])|
  {
    CountWhereCard(input, ValidPart1, set i | 0 <= i < |input| && ValidPart1(input[i]));
    CountWhere(input, ValidPart1)
  }

  /** Part-2 policy for one record: `None` where a position is 0 (the source
      subtracts 1 from an unsigned zero) or lies past the password's end (the
      lookup is unwrapped); otherwise whether the letter is at exactly one of
      the two positions, counted with multiplicity. */
  function ValidPart2(p: Password): (r: Option<bool>)
    ensures r.Some? <==> 1 <= p.minOccurrence <= |p.password| && 1 <= p.maxOccurrence <= |p.password|
    ensures r == Some(true) ==> p.minOccurrence != p.maxOccurrence
    ensures r.Some? ==> (r.value <==>
      (p.password[p.minOccurrence - 1] == p.letter) != (p.password[p.maxOccurrence - 1] == p.letter))
  {
    if p.minOccurrence == 0 || p.minOccurrence > |p.password| then None
    else if p.maxOccurrence == 0 || p.maxOccurrence > |p.password| then None
    else
      var first := if p.password[p.minOccurrence - 1] == p.letter then 1 else 0;
      var second := if p.password[p.maxOccurrence - 1] == p.letter then 1 else 0;
      Some(first + second == 1)
  }

  predicate AcceptedPart2(p: Password) { ValidPart2(p) == Some(true) }

  /** Part 2: the number of passwords valid under the position policy, or
      `None` when some record makes the source panic. */
  function Part2(input: seq<Password>): (r: Option<nat>)
    ensures r.None? <==> exists i :: 0 <= i < |input| && ValidPart2(input[i]).None?
    ensures r.Some? ==> r.value == |set i | 0 <= i < |input| && AcceptedPart2(input[i])|
  {
    if exists i :: 0 <= i < |input| && ValidPart2(input[i]).None? then None
    else
      CountWhereCard(input, AcceptedPart2, set i | 0 <= i < |input| && AcceptedPart2(input[i]));
      Some(CountWhere(input, AcceptedPart2))
  }

  /** The puzzle's three sample records. */
  function Sample(): seq<Password> {
    [Password(1, 3, 'a', "abcde"), Password(1, 3, 'b', "cdefg"), Password(2, 9, 'c', "ccccccccc")]
  }

  /** A password made only of the letter holds it at every position. */
  lemma OccurrencesUniform(s: string, c: char)
    requires forall i :: 0 <= i < |s| ==> s[i] == c
    ensures Occurrences(s, c) == |s|
  {
    assert (set i | 0 <= i < |s| && s[i] == c) == Interval(|s|);
  }

  lemma SampleRecordsPart1()
    ensures ValidPart1(Sample()[0]) && !ValidPart1(Sample()[1]) && ValidPart1(Sample()[2])
  {
    var s := Sample();
    assert s[0].password == ['a', 'b', 'c', 'd', 'e'];
    assert (set i | 0 <= i < 5 && s[0].password[i] == 'a') == {0};
    assert s[1].password == ['c', 'd', 'e', 'f', 'g'];
    assert (set i | 0 <= i < 5 && s[1].password[i] == 'b') == {};
    assert s[2].password == ['c', 'c', 'c', 'c', 'c', 'c', 'c', 'c', 'c'];
    OccurrencesUniform(s[2].password, 'c');
  }

  /** On the sample, two passwords satisfy the occurrence policy. */
  lemma SamplePart1()
    ensures Part1(Sample()) == 2
  {
    var s := Sample();
    SampleRecordsPart1();
    assert (set i | 0 <= i < |s| && ValidPart1(s[i])) == {0, 2};
  }

  /** On the sample, one password satisfies the position policy. */
  lemma SamplePart2()
    ensures Part2(Sample()) == Some(1)
  {
    var s := Sample();
    assert ValidPart2(s[0]) == Some(true);
    assert ValidPart2(s[1]) == Some(false);
    assert ValidPart2(s[2]) == Some(false);
    assert (set i | 0 <= i < |s| && AcceptedPart2(s[i])) == {0};
  }
}
