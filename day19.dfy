/** Day 19: monster messages. The rules of a grammar ("0: 4 1 5",
    "4: \"a\"", "1: 2 3 | 3 2") are compiled into the text of a regular
    expression, rule by rule, remembering each compiled rule. The matching
    of messages against the compiled pattern is left to a regex engine. */
module Day19 {
  import opened Common

  // ---------------------------------------------------------------------
  // input_generator

  /** `input_generator`: the rule lines and the message lines, each
      trimmed; `None` where the input has no blank line (the source
      indexes a missing piece). */
  function InputGenerator(input: string): (r: Option<(seq<string>, seq<string>)>)
    ensures r.Some? <==> |SplitBlank(input)| >= 2
  {
    var parts := SplitBlank(input);
    if |parts| < 2 then None
    else Some((TrimAll(Lines(parts[0])), TrimAll(Lines(parts[1]))))
  }

  /** A rules section without blank lines ends at the first blank line,
      and a messages section without blank lines is read whole. */
  lemma InputGeneratorSections(rules: string, messages: string)
    requires NoBlankLine(rules)
    requires forall i :: 0 <= i < |messages| - 1 ==> !(messages[i] == '\n' && messages[i + 1] == '\n')
    ensures InputGenerator(rules + "\n\n" + messages) ==
      Some((TrimAll(Lines(rules)), TrimAll(Lines(messages))))
  {
    SplitBlankFromPrefix(rules, [], messages);
    SplitBlankFromNone(messages, []);
    assert [] + rules == rules;
    assert [] + messages == messages;
  }

  // ---------------------------------------------------------------------
  // parse_raw_rules

  /** `str::parse::<u64>`: a numeral of at most 64 bits. */
  function ParseU64(s: string): (r: Option<nat>)
    ensures r.Some? ==> r.value < 0x1_0000_0000_0000_0000 && ParseNat(s) == r
  {
    match ParseNat(s)
    case Some(v) => if v < 0x1_0000_0000_0000_0000 then Some(v) else None
    case None => None
  }

  /** One line "N: body" as (N, trimmed body); the text after a second ':'
      is dropped. `None` where the source panics: no ':' or no number
      before it. */
  function ParseRawLine(line: string): (r: Option<(nat, string)>)
  {
    var parts := Split(line, ':');
    if |parts| < 2 then None
    else match ParseU64(parts[0])
      case None => None
      case Some(n) => Some((n, Trim(parts[1])))
  }

  lemma ParseRawLineOf(n: nat, body: string)
    requires n < 0x1_0000_0000_0000_0000
    requires forall i :: 0 <= i < |body| ==> body[i] != ':'
    ensures ParseRawLine(NatToString(n) + ":" + body) == Some((n, Trim(body)))
  {
    var d := NatToString(n);
    assert forall i :: 0 <= i < |d| ==> IsDigit(d[i]);
    SplitOfJoin([d, body], ':');
    assert Join([d, body], ':') == d + ":" + body;
    assert Split(d + ":" + body, ':') == [d, body];
    ParseNatToString(n);
    assert ParseU64(d) == Some(n);
  }

  /** The entries f reads from the lines, collected into a map where a
      later key replaces an earlier one; `None` as soon as a line fails. */
  function Collect(lines: seq<string>, f: string -> Option<(nat, string)>): (r: Option<map<nat, string>>)
    ensures r.Some? <==> forall k :: 0 <= k < |lines| ==> f(lines[k]).Some?
    ensures r.Some? ==> forall k :: 0 <= k < |lines| ==> f(lines[k]).value.0 in r.value
    ensures r.Some? ==> forall n :: n in r.value ==> exists k :: 0 <= k < |lines| && f(lines[k]).value.0 == n
  {
    if lines == [] then Some(map[])
    else
      var rest := lines[..|lines| - 1];
      assert forall k :: 0 <= k < |rest| ==> rest[k] == lines[k];
      match (Collect(rest, f), f(lines[|lines| - 1]))
      case (Some(m), Some((n, body))) => Some(m[n := body])
      case _ => None
  }

  /** `parse_raw_rules`: the map from rule number to body; a number given
      twice keeps its last body, as collecting into a HashMap does. */
  function ParseRawRules(lines: seq<string>): (r: Option<map<nat, string>>)
    ensures r.Some? <==> forall k :: 0 <= k < |lines| ==> ParseRawLine(lines[k]).Some?
    ensures r.Some? ==> forall k :: 0 <= k < |lines| ==> ParseRawLine(lines[k]).value.0 in r.value
  {
    Collect(lines, ParseRawLine)
  }

  /** The body of the last line that defines n. */
  lemma ParseRawRulesLast(lines: seq<string>, n: nat, body: string)
    requires lines != [] && ParseRawRules(lines).Some?
    requires ParseRawLine(lines[|lines| - 1]) == Some((n, body))
    ensures ParseRawRules(lines).value[n] == body
  {
  }

  // ---------------------------------------------------------------------
  // the rules a body refers to, and a grammar without cycles

  /** The alternatives of a body: its pieces between '|'. */
  function Alternatives(body: string): (alts: seq<string>)
    ensures |alts| > 0
  {
    Split(body, '|')
  }

  /** The parts of alternative i: its whitespace-separated words. */
  function Parts(body: string, i: nat): seq<string>
    requires i < |Alternatives(body)|
  {
    SplitWhitespace(Alternatives(body)[i])
  }

  /** The rule that part j of alternative i names, if it is a number. */
  function RefersAt(body: string, i: nat, j: nat): Option<nat> {
    if i < |Alternatives(body)| && j < |Parts(body, i)| then ParseU64(Parts(body, i)[j]) else None
  }

  function RankOf(rank: map<nat, nat>, n: nat): nat {
    if n in rank then rank[n] else 0
  }

  /** Every rule ranks above each rule its body names: the grammar has no
      cycle, so the compilation ends. */
  ghost predicate Ranked(raw: map<nat, string>, rank: map<nat, nat>) {
    forall n, i, j :: n in raw && RefersAt(raw[n], i, j).Some? ==>
      RankOf(rank, RefersAt(raw[n], i, j).value) < RankOf(rank, n)
  }

  // ---------------------------------------------------------------------
  // get_rule, as a function: the compiled text of a rule

  /** The pieces of a vector joined with "" (`join("")`). */
  function Concat(ss: seq<string>): string {
    if ss == [] then [] else Concat(ss[..|ss| - 1]) + ss[|ss| - 1]
  }

  /** How the parts of one alternative end: a literal such as `"a"` stops
      the whole rule at once; otherwise the parts are concatenated. */
  datatype Outcome = Literal(text: string) | Sequence(text: string)

  /** The compiled text of rule n, where `base` holds the rules known from
      the start. A rule that is neither known nor in `raw` fails, as does a
      literal part shorter than two characters. */
  function Compile(raw: map<nat, string>, base: map<nat, string>, ghost rank: map<nat, nat>, n: nat): (r: Option<string>)
    requires Ranked(raw, rank)
    ensures n in base ==> r == Some(base[n])
    ensures r.Some? ==> n in base || n in raw
    decreases RankOf(rank, n), 2, 0
  {
    if n in base then Some(base[n])
    else if n !in raw then None
    else CompileAlternatives(raw, base, rank, n, 0, [])
  }

  /** Alternatives i and on of rule n; `done` holds the earlier ones. */
  function CompileAlternatives(raw: map<nat, string>, base: map<nat, string>, ghost rank: map<nat, nat>,
                               n: nat, i: nat, done: seq<string>): Option<string>
    requires Ranked(raw, rank) && n in raw && i <= |Alternatives(raw[n])| && |done| == i
    decreases RankOf(rank, n), 1, |Alternatives(raw[n])| - i
  {
    if i == |Alternatives(raw[n])| then Some("(?:" + Join(done, '|') + ")")
    else match CompileParts(raw, base, rank, n, i, 0, [])
      case None => None
      case Some(Literal(c)) => Some(c)
      case Some(Sequence(s)) => CompileAlternatives(raw, base, rank, n, i + 1, done + [s])
  }

  /** Parts j and on of alternative i of rule n; `toConcat` holds the
      compiled earlier parts. */
  function CompileParts(raw: map<nat, string>, base: map<nat, string>, ghost rank: map<nat, nat>,
                        n: nat, i: nat, j: nat, toConcat: seq<string>): Option<Outcome>
    requires Ranked(raw, rank) && n in raw && i < |Alternatives(raw[n])| && j <= |Parts(raw[n], i)|
    decreases RankOf(rank, n), 0, |Parts(raw[n], i)| - j
  {
    var parts := Parts(raw[n], i);
    if j == |parts| then Some(Sequence(Concat(toConcat)))
    else match ParseU64(parts[j])
      case Some(m) =>
        assert RefersAt(raw[n], i, j) == Some(m);
        (match Compile(raw, base, rank, m)
         case None => None
         case Some(s) => CompileParts(raw, base, rank, n, i, j + 1, toConcat + [s]))
      case None => if |parts[j]| >= 2 then Some(Literal(parts[j][1..2])) else None
  }

  // ---------------------------------------------------------------------
  // properties of the compiled text

  /** A known rule is returned as it is known. */
  lemma CompileKnown(raw: map<nat, string>, base: map<nat, string>, rank: map<nat, nat>, n: nat)
    requires Ranked(raw, rank) && n in base
    ensures Compile(raw, base, rank, n) == Some(base[n])
  {
  }

  /** A rule found nowhere fails, as `expect` does. */
  lemma CompileMissing(raw: map<nat, string>, base: map<nat, string>, rank: map<nat, nat>, n: nat)
    requires Ranked(raw, rank) && n !in base && n !in raw
    ensures Compile(raw, base, rank, n) == None
  {
  }

  /** A compiled rule from `raw` is a single character or a non-capturing
      group "(?:...)". */
  predicate Shaped(s: string) {
    |s| == 1 || (|s| >= 4 && s[..3] == "(?:" && s[|s| - 1] == ')')
  }

  lemma {:induction false} CompilePartsShape(raw: map<nat, string>, base: map<nat, string>, rank: map<nat, nat>,
                                             n: nat, i: nat, j: nat, toConcat: seq<string>)
    requires Ranked(raw, rank) && n in raw && i < |Alternatives(raw[n])| && j <= |Parts(raw[n], i)|
    ensures CompileParts(raw, base, rank, n, i, j, toConcat).Some? &&
            CompileParts(raw, base, rank, n, i, j, toConcat).value.Literal? ==>
            |CompileParts(raw, base, rank, n, i, j, toConcat).value.text| == 1
    decreases |Parts(raw[n], i)| - j
  {
    var parts := Parts(raw[n], i);
    if j < |parts| {
      match ParseU64(parts[j])
      case Some(m) =>
        if Compile(raw, base, rank, m).Some? {
          CompilePartsShape(raw, base, rank, n, i, j + 1, toConcat + [Compile(raw, base, rank, m).value]);
        }
      case None =>
    }
  }

  lemma {:induction false} CompileAlternativesShape(raw: map<nat, string>, base: map<nat, string>, rank: map<nat, nat>,
                                                    n: nat, i: nat, done: seq<string>)
    requires Ranked(raw, rank) && n in raw && i <= |Alternatives(raw[n])| && |done| == i
    ensures CompileAlternatives(raw, base, rank, n, i, done).Some? ==>
            Shaped(CompileAlternatives(raw, base, rank, n, i, done).value)
    decreases |Alternatives(raw[n])| - i
  {
    if i < |Alternatives(raw[n])| {
      CompilePartsShape(raw, base, rank, n, i, 0, []);
      match CompileParts(raw, base, rank, n, i, 0, [])
      case None =>
      case Some(Literal(c)) =>
      case Some(Sequence(s)) =>
        CompileAlternativesShape(raw, base, rank, n, i + 1, done + [s]);
    }
  }

  /** Every rule compiled from `raw` has one of the two shapes. */
  lemma CompileShape(raw: map<nat, string>, base: map<nat, string>, rank: map<nat, nat>, n: nat)
    requires Ranked(raw, rank) && n !in base && Compile(raw, base, rank, n).Some?
    ensures Shaped(Compile(raw, base, rank, n).value)
  {
    CompileAlternativesShape(raw, base, rank, n, 0, []);
  }

  // ---------------------------------------------------------------------
  // get_rule, as the source runs it: memoised in a map it updates

  /** `KnownRules`: the rules compiled so far, by number. */
  class KnownRules {
    var rules: map<nat, string>

    constructor(initial: map<nat, string>)
      ensures rules == initial
    {
      rules := initial;
    }

    /** Every remembered rule is what `Compile` gives for it, and the rules
        known from the start are still there. */
    ghost predicate Agrees(raw: map<nat, string>, base: map<nat, string>, rank: map<nat, nat>)
      requires Ranked(raw, rank)
      reads this
    {
      Agreeing(rules, raw, base, rank)
    }
  }

  /** Every rule in `rules` is what `Compile` gives for it, and the rules
      known from the start are among them. */
  ghost predicate Agreeing(rules: map<nat, string>, raw: map<nat, string>, base: map<nat, string>, rank: map<nat, nat>)
    requires Ranked(raw, rank)
  {
    base.Keys <= rules.Keys &&
    forall k :: k in rules ==> Compile(raw, base, rank, k) == Some(rules[k])
  }

  /** `after` keeps every entry of `before` and adds only rules ranked
      below `bound`. */
  ghost predicate AddsBelow(before: map<nat, string>, after: map<nat, string>, rank: map<nat, nat>, bound: nat) {
    (forall k :: k in before ==> k in after && after[k] == before[k]) &&
    (forall k :: k in after && k !in before ==> RankOf(rank, k) < bound)
  }

  /** While rule n is being compiled: the memo agrees with `Compile`, does
      not hold n yet, and has grown from `before` only by rules ranked
      below n. */
  ghost predicate Pending(before: map<nat, string>, rules: map<nat, string>, raw: map<nat, string>,
                          base: map<nat, string>, rank: map<nat, nat>, n: nat)
  {
    Ranked(raw, rank) && Agreeing(rules, raw, base, rank) && n !in rules &&
    AddsBelow(before, rules, rank, RankOf(rank, n))
  }

  /** Recording the compiled text of a pending rule keeps the memo in
      agreement and adds only that rule. */
  lemma Record(before: map<nat, string>, rules: map<nat, string>, raw: map<nat, string>,
               base: map<nat, string>, rank: map<nat, nat>, n: nat, v: string)
    requires Pending(before, rules, raw, base, rank, n) && Compile(raw, base, rank, n) == Some(v)
    ensures Agreeing(rules[n := v], raw, base, rank)
    ensures AddsBelow(before, rules[n := v], rank, RankOf(rank, n) + 1)
  {
  }

  /** `get_rule`: a remembered rule is returned at once; otherwise the rule
      is compiled alternative by alternative, and remembered. The result is
      what `Compile` gives; remembered rules are never changed, and only
      rules of rank at most the rule's own are added. */
  method GetRule(ruleNumber: nat, known: KnownRules, raw: map<nat, string>,
                 ghost base: map<nat, string>, ghost rank: map<nat, nat>) returns (r: Option<string>)
    requires Ranked(raw, rank) && known.Agrees(raw, base, rank)
    modifies known
    ensures r == Compile(raw, base, rank, ruleNumber)
    ensures known.Agrees(raw, base, rank)
    ensures AddsBelow(old(known.rules), known.rules, rank, RankOf(rank, ruleNumber) + 1)
    ensures r.Some? ==> ruleNumber in known.rules && known.rules[ruleNumber] == r.value
    decreases RankOf(rank, ruleNumber), 1
  {
    if ruleNumber in known.rules {
      return Some(known.rules[ruleNumber]);
    }
    if ruleNumber !in raw {
      return None;
    }
    ghost var before := known.rules;
    var alternatives := Alternatives(raw[ruleNumber]);
    var parsedParts: seq<string> := [];
    var i := 0;
    while i < |alternatives|
      invariant 0 <= i <= |alternatives| && |parsedParts| == i
      invariant Pending(before, known.rules, raw, base, rank, ruleNumber)
      invariant CompileAlternatives(raw, base, rank, ruleNumber, i, parsedParts) == Compile(raw, base, rank, ruleNumber)
    {
      var outcome := ConcatParts(ruleNumber, i, known, raw, base, rank);
      match outcome {
        case None =>
          return None;
        case Some(Literal(c)) =>
          Record(before, known.rules, raw, base, rank, ruleNumber, c);
          known.rules := known.rules[ruleNumber := c];
          return Some(c);
        case Some(Sequence(s)) =>
          parsedParts := parsedParts + [s];
      }
      i := i + 1;
    }
    var finishedRule := "(?:" + Join(parsedParts, '|') + ")";
    Record(before, known.rules, raw, base, rank, ruleNumber, finishedRule);
    known.rules := known.rules[ruleNumber := finishedRule];
    return Some(finishedRule);
  }

  /** The inner loop of `get_rule` over the parts of alternative i: a
      number is compiled by the recursive call and pushed onto
      `to_concat`; a literal ends the rule. */
  method ConcatParts(ruleNumber: nat, i: nat, known: KnownRules, raw: map<nat, string>,
                     ghost base: map<nat, string>, ghost rank: map<nat, nat>) returns (outcome: Option<Outcome>)
    requires Ranked(raw, rank) && ruleNumber in raw && i < |Alternatives(raw[ruleNumber])|
    requires known.Agrees(raw, base, rank) && ruleNumber !in known.rules
    modifies known
    ensures outcome == CompileParts(raw, base, rank, ruleNumber, i, 0, [])
    ensures known.Agrees(raw, base, rank) && ruleNumber !in known.rules
    ensures AddsBelow(old(known.rules), known.rules, rank, RankOf(rank, ruleNumber))
    decreases RankOf(rank, ruleNumber), 0
  {
    var parts := Parts(raw[ruleNumber], i);
    var toConcat: seq<string> := [];
    var j := 0;
    while j < |parts|
      invariant 0 <= j <= |parts|
      invariant known.Agrees(raw, base, rank) && ruleNumber !in known.rules
      invariant AddsBelow(old(known.rules), known.rules, rank, RankOf(rank, ruleNumber))
      invariant CompileParts(raw, base, rank, ruleNumber, i, j, toConcat) ==
                CompileParts(raw, base, rank, ruleNumber, i, 0, [])
    {
      var part := parts[j];
      match ParseU64(part) {
        case Some(num) =>
          assert RefersAt(raw[ruleNumber], i, j) == Some(num);
          var knownRulePart := GetRule(num, known, raw, base, rank);
          if knownRulePart.None? {
            return None;
          }
          toConcat := toConcat + [knownRulePart.value];
        case None =>
          if |part| < 2 {
            return None;
          }
          return Some(Literal(part[1..2]));
      }
      j := j + 1;
    }
    return Some(Sequence(Concat(toConcat)));
  }

  // ---------------------------------------------------------------------
  // what a rule of numbered parts and a literal rule compile to

  /** A numbered part adds the text of the rule it names. */
  lemma CompilePartsStep(raw: map<nat, string>, base: map<nat, string>, rank: map<nat, nat>,
                         n: nat, i: nat, j: nat, acc: seq<string>, m: nat, v: string)
    requires Ranked(raw, rank) && n in raw && i < |Alternatives(raw[n])| && j < |Parts(raw[n], i)|
    requires RefersAt(raw[n], i, j) == Some(m) && Compile(raw, base, rank, m) == Some(v)
    ensures CompileParts(raw, base, rank, n, i, j, acc) == CompileParts(raw, base, rank, n, i, j + 1, acc + [v])
  {
  }

  lemma AppendSlice<T>(acc: seq<T>, vals: seq<T>, j: nat)
    requires j < |vals|
    ensures acc + [vals[j]] + vals[j + 1..] == acc + vals[j..]
  {
  }

  /** Parts j and on of alternative i of rule n are all numbers, naming
      rules that compile to `vals`. */
  ghost predicate NumberedFrom(raw: map<nat, string>, base: map<nat, string>, rank: map<nat, nat>,
                               n: nat, i: nat, j: nat, vals: seq<string>)
  {
    Ranked(raw, rank) && n in raw && i < |Alternatives(raw[n])| && j <= |Parts(raw[n], i)| == |vals| &&
    forall k :: j <= k < |vals| ==> (RefersAt(raw[n], i, k).Some? &&
      Compile(raw, base, rank, RefersAt(raw[n], i, k).value) == Some(vals[k]))
  }

  lemma {:induction false} CompilePartsNumbered(raw: map<nat, string>, base: map<nat, string>, rank: map<nat, nat>,
                                                n: nat, i: nat, j: nat, acc: seq<string>, vals: seq<string>)
    requires NumberedFrom(raw, base, rank, n, i, j, vals)
    ensures CompileParts(raw, base, rank, n, i, j, acc) == Some(Sequence(Concat(acc + vals[j..])))
    decreases |vals| - j
  {
    if j == |vals| {
      assert acc + vals[j..] == acc;
    } else {
      CompilePartsStep(raw, base, rank, n, i, j, acc, RefersAt(raw[n], i, j).value, vals[j]);
      CompilePartsNumbered(raw, base, rank, n, i, j + 1, acc + [vals[j]], vals);
      AppendSlice(acc, vals, j);
    }
  }

  lemma {:induction false} CompileAlternativesSequences(raw: map<nat, string>, base: map<nat, string>, rank: map<nat, nat>,
                                                        n: nat, i: nat, texts: seq<string>)
    requires Ranked(raw, rank) && n in raw && i <= |Alternatives(raw[n])| == |texts|
    requires forall k :: i <= k < |texts| ==> CompileParts(raw, base, rank, n, k, 0, []) == Some(Sequence(texts[k]))
    ensures CompileAlternatives(raw, base, rank, n, i, texts[..i]) == Some("(?:" + Join(texts, '|') + ")")
    decreases |texts| - i
  {
    if i == |texts| {
      assert texts[..i] == texts;
    } else {
      CompileAlternativesSequences(raw, base, rank, n, i + 1, texts);
      assert texts[..i] + [texts[i]] == texts[..i + 1];
    }
  }

  function Concats(vals: seq<seq<string>>): (r: seq<string>)
    ensures |r| == |vals| && forall i :: 0 <= i < |vals| ==> r[i] == Concat(vals[i])
  {
    if vals == [] then [] else [Concat(vals[0])] + Concats(vals[1..])
  }

  /** A rule whose parts are all rule numbers compiles to "(?:" + its
      alternatives joined by '|' + ")", each alternative the
      concatenation of the texts of the rules it names. */
  lemma CompileNumbered(raw: map<nat, string>, base: map<nat, string>, rank: map<nat, nat>,
                        n: nat, vals: seq<seq<string>>)
    requires Ranked(raw, rank) && n !in base && n in raw && |vals| == |Alternatives(raw[n])|
    requires forall i :: 0 <= i < |vals| ==> |vals[i]| == |Parts(raw[n], i)|
    requires forall i, k :: 0 <= i < |vals| && 0 <= k < |vals[i]| ==> (RefersAt(raw[n], i, k).Some? &&
      Compile(raw, base, rank, RefersAt(raw[n], i, k).value) == Some(vals[i][k]))
    ensures Compile(raw, base, rank, n) == Some("(?:" + Join(Concats(vals), '|') + ")")
  {
    var texts := Concats(vals);
    forall i | 0 <= i < |texts|
      ensures CompileParts(raw, base, rank, n, i, 0, []) == Some(Sequence(texts[i]))
    {
      CompilePartsNumbered(raw, base, rank, n, i, 0, [], vals[i]);
      assert [] + vals[i][0..] == vals[i];
    }
    CompileAlternativesSequences(raw, base, rank, n, 0, texts);
    assert texts[..0] == [];
  }

  /** A rule `"c"` compiles to the one character c. */
  lemma CompileLiteral(raw: map<nat, string>, base: map<nat, string>, rank: map<nat, nat>, n: nat, c: char)
    requires Ranked(raw, rank) && n !in base && n in raw && raw[n] == "\"" + [c] + "\""
    requires c != '|' && !IsWhitespace(c)
    ensures Compile(raw, base, rank, n) == Some([c])
  {
    var w := raw[n];
    SplitOfJoin([w], '|');
    assert Alternatives(w) == [w];
    assert Join([w], ' ') == w && Indent(0) + w + Indent(0) == w;
    SplitWhitespaceSpaced(0, [w], 0);
    assert Parts(w, 0) == [w];
    assert ParseNat(w) == None;
    assert ParseU64(w) == None && w[1..2] == [c];
    assert CompileParts(raw, base, rank, n, 0, 0, []) == Some(Literal([c]));
    assert CompileAlternatives(raw, base, rank, n, 0, []) == Some([c]);
  }

  // ---------------------------------------------------------------------
  // the rules of the unit tests

  predicate Words(ws: seq<string>) {
    ws != [] &&
    (forall j :: 0 <= j < |ws| ==> ws[j] != []) &&
    (forall j, i :: 0 <= j < |ws| && 0 <= i < |ws[j]| ==> !IsWhitespace(ws[j][i]) && ws[j][i] != '|')
  }

  lemma JoinWordsNoBar(ws: seq<string>)
    requires Words(ws)
    ensures forall i :: 0 <= i < |Join(ws, ' ')| ==> Join(ws, ' ')[i] != '|'
  {
    if |ws| > 1 {
      JoinWordsNoBar(ws[1..]);
      assert Join(ws, ' ') == ws[0] + [' '] + Join(ws[1..], ' ');
      assert forall i :: 0 <= i < |ws[0]| ==> ws[0][i] != '|';
    }
  }

  lemma AlternativesOfTwo(a: string, b: string)
    requires forall i :: 0 <= i < |a| ==> a[i] != '|'
    requires forall i :: 0 <= i < |b| ==> b[i] != '|'
    ensures Alternatives(a + "|" + b) == [a, b]
  {
    SplitOfJoin([a, b], '|');
    assert Join([a, b], '|') == a + "|" + b;
  }

  /** A body "w1 w2 | v1 v2" has the two alternatives w and v. */
  lemma TwoAlternatives(body: string, w: seq<string>, v: seq<string>)
    requires Words(w) && Words(v) && body == Join(w, ' ') + " | " + Join(v, ' ')
    ensures |Alternatives(body)| == 2 && Parts(body, 0) == w && Parts(body, 1) == v
  {
    var a := Join(w, ' ') + " ";
    var b := " " + Join(v, ' ');
    JoinWordsNoBar(w);
    JoinWordsNoBar(v);
    AlternativesOfTwo(a, b);
    assert a + "|" + b == body;
    assert Indent(0) + Join(w, ' ') + Indent(1) == a;
    assert Indent(1) + Join(v, ' ') + Indent(0) == b;
    SplitWhitespaceSpaced(0, w, 1);
    SplitWhitespaceSpaced(1, v, 0);
  }

  /** A literal body `"c"` names no rule. */
  lemma LiteralRefersNone(body: string, c: char, i: nat, j: nat)
    requires body == "\"" + [c] + "\"" && c != '|' && !IsWhitespace(c)
    ensures RefersAt(body, i, j) == None
  {
    SplitOfJoin([body], '|');
    assert Alternatives(body) == [body];
    assert Join([body], ' ') == body && Indent(0) + body + Indent(0) == body;
    SplitWhitespaceSpaced(0, [body], 0);
    assert ParseNat(body) == None;
  }

  lemma ConcatPair(a: string, b: string)
    ensures Concat([a]) == a && Concat([a, b]) == a + b
  {
    assert [a][..0] == [] && [a, b][..1] == [a];
  }

  lemma JoinOne(a: string)
    ensures Join([a], ' ') == a
  {
  }

  lemma JoinPair(a: string, b: string)
    requires |a| == 1 && |b| == 1
    ensures Join([a, b], ' ') == [a[0], ' ', b[0]]
  {
    assert [a, b][1..] == [b];
  }

  const NestedRaw: map<nat, string> := map[1 := "2 4 | 3 2", 2 := "\"a\"", 3 := "\"b\"", 4 := "2 | 3"]
  const NestedRank: map<nat, nat> := map[1 := 2, 4 := 1]

  /** The body splits into exactly the two alternatives w and v. */
  predicate TwoParts(body: string, w: seq<string>, v: seq<string>)
  {
    |Alternatives(body)| == 2 && Parts(body, 0) == w && Parts(body, 1) == v
  }

  /** "2 | 3": one rule number in each of two alternatives. */
  lemma BodyTwoThree(body: string)
    requires body == "2 | 3"
    ensures TwoParts(body, ["2"], ["3"])
  {
    JoinOne("2");
    JoinOne("3");
    TwoAlternatives(body, ["2"], ["3"]);
  }

  /** "2 4 | 3 2": two rule numbers in each of two alternatives. */
  lemma BodyPairs(body: string)
    requires body == "2 4 | 3 2"
    ensures TwoParts(body, ["2", "4"], ["3", "2"])
  {
    JoinPair("2", "4");
    JoinPair("3", "2");
    TwoAlternatives(body, ["2", "4"], ["3", "2"]);
  }

  lemma NestedBodies(raw: map<nat, string>)
    requires raw == NestedRaw
    ensures 1 in raw && TwoParts(raw[1], ["2", "4"], ["3", "2"])
    ensures 4 in raw && TwoParts(raw[4], ["2"], ["3"])
    ensures 2 in raw && raw[2] == "\"a\"" && 3 in raw && raw[3] == "\"b\"" && raw.Keys == {1, 2, 3, 4}
  {
    BodyPairs(raw[1]);
    BodyTwoThree(raw[4]);
  }

  lemma Numerals()
    ensures ParseU64("2") == Some(2) && ParseU64("3") == Some(3) && ParseU64("4") == Some(4)
  {
  }

  /** Every rule the body names ranks below bound. */
  ghost predicate BodyRanked(body: string, rank: map<nat, nat>, bound: nat) {
    forall i, j :: RefersAt(body, i, j).Some? ==> RankOf(rank, RefersAt(body, i, j).value) < bound
  }

  /** A grammar is ranked when each rule's body is, rule by rule. */
  lemma RankedOfBodies(raw: map<nat, string>, rank: map<nat, nat>)
    requires forall n :: n in raw ==> BodyRanked(raw[n], rank, RankOf(rank, n))
    ensures Ranked(raw, rank)
  {
    forall n, i, j | n in raw && RefersAt(raw[n], i, j).Some?
      ensures RankOf(rank, RefersAt(raw[n], i, j).value) < RankOf(rank, n)
    {
      assert BodyRanked(raw[n], rank, RankOf(rank, n));
    }
  }

  lemma TwoPartsRanked(body: string, w: seq<string>, v: seq<string>, rank: map<nat, nat>, bound: nat)
    requires TwoParts(body, w, v)
    requires forall k :: 0 <= k < |w| && ParseU64(w[k]).Some? ==> RankOf(rank, ParseU64(w[k]).value) < bound
    requires forall k :: 0 <= k < |v| && ParseU64(v[k]).Some? ==> RankOf(rank, ParseU64(v[k]).value) < bound
    ensures BodyRanked(body, rank, bound)
  {
    forall i, j | RefersAt(body, i, j).Some?
      ensures RankOf(rank, RefersAt(body, i, j).value) < bound
    {
      assert i == 0 || i == 1;
    }
  }

  /** A literal body names no rule, so it is ranked below any bound. */
  lemma LiteralRanked(body: string, c: char, rank: map<nat, nat>, bound: nat)
    requires body == "\"" + [c] + "\"" && c != '|' && !IsWhitespace(c)
    ensures BodyRanked(body, rank, bound)
  {
    forall i, j ensures RefersAt(body, i, j) == None {
      LiteralRefersNone(body, c, i, j);
    }
  }

  lemma PairsRanked(body: string, rank: map<nat, nat>)
    requires body == "2 4 | 3 2" && rank == NestedRank
    ensures BodyRanked(body, rank, 2)
  {
    BodyPairs(body);
    Numerals();
    TwoPartsRanked(body, ["2", "4"], ["3", "2"], rank, 2);
  }

  lemma TwoThreeRanked(body: string, rank: map<nat, nat>, bound: nat)
    requires body == "2 | 3" && RankOf(rank, 2) < bound && RankOf(rank, 3) < bound
    ensures BodyRanked(body, rank, bound)
  {
    BodyTwoThree(body);
    Numerals();
    TwoPartsRanked(body, ["2"], ["3"], rank, bound);
  }

  lemma NestedRanked(raw: map<nat, string>, rank: map<nat, nat>)
    requires raw == NestedRaw && rank == NestedRank
    ensures Ranked(raw, rank)
  {
    PairsRanked(raw[1], rank);
    TwoThreeRanked(raw[4], rank, 1);
    LiteralRanked(raw[2], 'a', rank, 0);
    LiteralRanked(raw[3], 'b', rank, 0);
    RankedOfBodies(raw, rank);
  }

  lemma ConcatsPair(x: seq<string>, y: seq<string>)
    ensures Concats([x, y]) == [Concat(x), Concat(y)]
  {
    assert [x, y][1..] == [y];
  }

  lemma JoinBar(a: string, b: string)
    ensures Join([a, b], '|') == a + "|" + b
  {
    assert [a, b][1..] == [b];
  }

  /** A body "x | y" of two rule numbers compiles to "(?:" + p + "|" + q + ")"
      where p and q are the texts of the two rules it names. */
  lemma CompileTwoSingles(raw: map<nat, string>, base: map<nat, string>, rank: map<nat, nat>,
                          n: nat, x: string, y: string, p: string, q: string)
    requires Ranked(raw, rank) && n !in base && n in raw && TwoParts(raw[n], [x], [y])
    requires ParseU64(x).Some? && Compile(raw, base, rank, ParseU64(x).value) == Some(p)
    requires ParseU64(y).Some? && Compile(raw, base, rank, ParseU64(y).value) == Some(q)
    ensures Compile(raw, base, rank, n) == Some("(?:" + p + "|" + q + ")")
  {
    ConcatPair(p, q);
    ConcatPair(q, p);
    CompileNumbered(raw, base, rank, n, [[p], [q]]);
    ConcatsPair([p], [q]);
    JoinBar(p, q);
    assert Join(Concats([[p], [q]]), '|') == p + "|" + q;
    assert "(?:" + (p + "|" + q) + ")" == "(?:" + p + "|" + q + ")";
  }

  /** The four parts of a body of two alternatives of two words each. */
  lemma TwoPartsRefers(body: string, x1: string, x2: string, y1: string, y2: string)
    requires TwoParts(body, [x1, x2], [y1, y2])
    ensures |Parts(body, 0)| == 2 && |Parts(body, 1)| == 2
    ensures RefersAt(body, 0, 0) == ParseU64(x1) && RefersAt(body, 0, 1) == ParseU64(x2)
    ensures RefersAt(body, 1, 0) == ParseU64(y1) && RefersAt(body, 1, 1) == ParseU64(y2)
  {
  }

  /** A body "x1 x2 | y1 y2" of four rule numbers compiles to
      "(?:" + p1 + p2 + "|" + q1 + q2 + ")". */
  lemma CompileTwoPairs(raw: map<nat, string>, base: map<nat, string>, rank: map<nat, nat>, n: nat,
                        x1: string, x2: string, y1: string, y2: string,
                        p1: string, p2: string, q1: string, q2: string)
    requires Ranked(raw, rank) && n !in base && n in raw && TwoParts(raw[n], [x1, x2], [y1, y2])
    requires ParseU64(x1).Some? && Compile(raw, base, rank, ParseU64(x1).value) == Some(p1)
    requires ParseU64(x2).Some? && Compile(raw, base, rank, ParseU64(x2).value) == Some(p2)
    requires ParseU64(y1).Some? && Compile(raw, base, rank, ParseU64(y1).value) == Some(q1)
    requires ParseU64(y2).Some? && Compile(raw, base, rank, ParseU64(y2).value) == Some(q2)
    ensures Compile(raw, base, rank, n) == Some("(?:" + p1 + p2 + "|" + q1 + q2 + ")")
  {
    var vals := [[p1, p2], [q1, q2]];
    TwoPartsRefers(raw[n], x1, x2, y1, y2);
    forall i, k | 0 <= i < |vals| && 0 <= k < |vals[i]|
      ensures RefersAt(raw[n], i, k).Some? && Compile(raw, base, rank, RefersAt(raw[n], i, k).value) == Some(vals[i][k])
    {
      if i == 0 && k == 0 {
        assert vals[i][k] == p1;
      } else if i == 0 {
        assert vals[i][k] == p2;
      } else if k == 0 {
        assert vals[i][k] == q1;
      } else {
        assert vals[i][k] == q2;
      }
    }
    CompileNumbered(raw, base, rank, n, vals);
    TwoPairsText(p1, p2, q1, q2);
  }

  lemma TwoPairsText(p1: string, p2: string, q1: string, q2: string)
    ensures "(?:" + Join(Concats([[p1, p2], [q1, q2]]), '|') + ")" == "(?:" + p1 + p2 + "|" + q1 + q2 + ")"
  {
    ConcatPair(p1, p2);
    ConcatPair(q1, q2);
    ConcatsPair([p1, p2], [q1, q2]);
    JoinBar(p1 + p2, q1 + q2);
    assert Join(Concats([[p1, p2], [q1, q2]]), '|') == p1 + p2 + "|" + (q1 + q2);
    assert "(?:" + (p1 + p2 + "|" + (q1 + q2)) + ")" == "(?:" + p1 + p2 + "|" + q1 + q2 + ")";
  }

  lemma SpellQuoted()
    ensures "\"" + ['a'] + "\"" == "\"a\"" && "\"" + ['b'] + "\"" == "\"b\""
  {
  }

  lemma SpellFour()
    ensures "(?:" + "a" + "|" + "b" + ")" == "(?:a|b)"
  {
  }

  lemma SpellNested()
    ensures "(?:" + "a" + "(?:a|b)" + "|" + "b" + "a" + ")" == "(?:a(?:a|b)|ba)"
  {
  }

  lemma SpellMore()
    ensures "(?:" + "a" + "a" + "|" + "b" + "a" + ")" == "(?:aa|ba)"
  {
  }

  /** Rule 4 of the nested test, "2 | 3", compiles to "(?:a|b)". */
  lemma NestedRuleFour(raw: map<nat, string>, rank: map<nat, nat>)
    requires raw == NestedRaw && rank == NestedRank
    ensures Ranked(raw, rank) && Compile(raw, map[], rank, 4) == Some("(?:a|b)")
  {
    NestedRanked(raw, rank);
    NestedBodies(raw);
    Numerals();
    SpellQuoted();
    CompileLiteral(raw, map[], rank, 2, 'a');
    CompileLiteral(raw, map[], rank, 3, 'b');
    CompileTwoSingles(raw, map[], rank, 4, "2", "3", "a", "b");
    SpellFour();
  }

  /** The nested unit test: rule 1, "2 4 | 3 2" with 4 being "2 | 3",
      compiles to "(?:a(?:a|b)|ba)". */
  lemma ExampleNested(raw: map<nat, string>, rank: map<nat, nat>)
    requires raw == NestedRaw && rank == NestedRank
    ensures Ranked(raw, rank) && Compile(raw, map[], rank, 1) == Some("(?:a(?:a|b)|ba)")
  {
    NestedRanked(raw, rank);
    NestedBodies(raw);
    Numerals();
    SpellQuoted();
    CompileLiteral(raw, map[], rank, 2, 'a');
    CompileLiteral(raw, map[], rank, 3, 'b');
    NestedRuleFour(raw, rank);
    CompileTwoPairs(raw, map[], rank, 1, "2", "4", "3", "2", "a", "(?:a|b)", "b", "a");
    SpellNested();
  }

  /** The first unit test: "2 | 3" with 2 and 3 known as "a" and "b"
      compiles to "(?:a|b)" without looking at any other rule. */
  lemma ExampleFromKnown(raw: map<nat, string>, base: map<nat, string>, rank: map<nat, nat>)
    requires raw == map[1 := "2 | 3"] && base == map[2 := "a", 3 := "b"] && rank == map[1 := 1]
    ensures Ranked(raw, rank) && Compile(raw, base, rank, 1) == Some("(?:a|b)")
  {
    BodyTwoThree(raw[1]);
    Numerals();
    TwoThreeRanked(raw[1], rank, 1);
    RankedOfBodies(raw, rank);
    CompileTwoSingles(raw, base, rank, 1, "2", "3", "a", "b");
    SpellFour();
  }

  const FromRawRaw: map<nat, string> := map[1 := "2 | 3", 2 := "\"a\"", 3 := "\"b\""]
  const MoreRaw: map<nat, string> := map[1 := "2 2 | 3 2", 2 := "\"a\"", 3 := "\"b\""]
  const FlatRank: map<nat, nat> := map[1 := 1]

  /** The second unit test: "2 | 3" with 2 and 3 the literals "a" and "b"
      compiles to "(?:a|b)". */
  lemma ExampleFromRaw(raw: map<nat, string>, rank: map<nat, nat>)
    requires raw == FromRawRaw && rank == FlatRank
    ensures Ranked(raw, rank) && Compile(raw, map[], rank, 1) == Some("(?:a|b)")
  {
    FromRawLetters(raw, rank);
    BodyTwoThree(raw[1]);
    Numerals();
    CompileTwoSingles(raw, map[], rank, 1, "2", "3", "a", "b");
    SpellFour();
  }

  /** Rules 2 and 3 of the second unit test compile to their letters. */
  lemma FromRawLetters(raw: map<nat, string>, rank: map<nat, nat>)
    requires raw == FromRawRaw && rank == FlatRank
    ensures Ranked(raw, rank)
    ensures Compile(raw, map[], rank, 2) == Some("a") && Compile(raw, map[], rank, 3) == Some("b")
  {
    TwoThreeRanked(raw[1], rank, 1);
    SpellQuoted();
    LiteralRanked(raw[2], 'a', rank, 0);
    LiteralRanked(raw[3], 'b', rank, 0);
    RankedOfBodies(raw, rank);
    CompileLiteral(raw, map[], rank, 2, 'a');
    CompileLiteral(raw, map[], rank, 3, 'b');
  }

  /** "2 2 | 3 2": two rule numbers in each of two alternatives. */
  lemma BodyDoubles(body: string)
    requires body == "2 2 | 3 2"
    ensures TwoParts(body, ["2", "2"], ["3", "2"])
  {
    JoinPair("2", "2");
    JoinPair("3", "2");
    TwoAlternatives(body, ["2", "2"], ["3", "2"]);
  }

  lemma DoublesRanked(body: string, rank: map<nat, nat>, bound: nat)
    requires body == "2 2 | 3 2" && RankOf(rank, 2) < bound && RankOf(rank, 3) < bound
    ensures BodyRanked(body, rank, bound)
  {
    BodyDoubles(body);
    Numerals();
    TwoPartsRanked(body, ["2", "2"], ["3", "2"], rank, bound);
  }

  lemma MoreRanked(raw: map<nat, string>, rank: map<nat, nat>)
    requires raw == MoreRaw && rank == FlatRank
    ensures Ranked(raw, rank)
  {
    DoublesRanked(raw[1], rank, 1);
    SpellQuoted();
    LiteralRanked(raw[2], 'a', rank, 0);
    LiteralRanked(raw[3], 'b', rank, 0);
    RankedOfBodies(raw, rank);
  }

  /** Rules 2 and 3 of the third unit test compile to their letters. */
  lemma MoreLetters(raw: map<nat, string>, rank: map<nat, nat>)
    requires raw == MoreRaw && rank == FlatRank
    ensures Ranked(raw, rank)
    ensures Compile(raw, map[], rank, 2) == Some("a") && Compile(raw, map[], rank, 3) == Some("b")
  {
    MoreRanked(raw, rank);
    SpellQuoted();
    CompileLiteral(raw, map[], rank, 2, 'a');
    CompileLiteral(raw, map[], rank, 3, 'b');
  }

  /** The third unit test: "2 2 | 3 2" compiles to "(?:aa|ba)". */
  lemma ExampleMore(raw: map<nat, string>, rank: map<nat, nat>)
    requires raw == MoreRaw && rank == FlatRank
    ensures Ranked(raw, rank) && Compile(raw, map[], rank, 1) == Some("(?:aa|ba)")
  {
    MoreLetters(raw, rank);
    BodyDoubles(raw[1]);
    Numerals();
    CompileTwoPairs(raw, map[], rank, 1, "2", "2", "3", "2", "a", "a", "b", "a");
    SpellMore();
  }
}
