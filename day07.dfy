/** Day 7: rules say which bags hold which others. Part 1 collects every bag
    that eventually holds a shiny gold bag; part 2 counts the bags a shiny
    gold bag holds. */
module Day7 {
  import opened Common

  // ---------------------------------------------------------------------
  // the bag-name pattern `[a-z]+ [a-z]+`, scanned as `find_iter` does

  /** End of the run of characters of class `p` that starts at i. */
  function RunEnd(s: string, i: nat, p: char -> bool): (j: nat)
    requires i <= |s|
    ensures i <= j <= |s|
    ensures forall k :: i <= k < j ==> p(s[k])
    ensures j == |s| || !p(s[j])
    decreases |s| - i
  {
    if i < |s| && p(s[i]) then RunEnd(s, i + 1, p) else i
  }

  /** Two lower-case words joined by one space: what `[a-z]+ [a-z]+` matches. */
  predicate IsBagName(w: string) {
    var j := RunEnd(w, 0, IsLower);
    0 < j < |w| - 1 && w[j] == ' ' && RunEnd(w, j + 1, IsLower) == |w|
  }

  /** End of the match that starts at i, if one does. Both runs are greedy,
      and giving back letters never helps: a shorter first run is followed by
      a letter, not by the space the pattern needs. */
  function PairEnd(s: string, i: nat): (r: Option<nat>)
    requires i <= |s|
    ensures r.Some? ==> i < r.value <= |s|
  {
    var j := RunEnd(s, i, IsLower);
    if j == i || j == |s| || s[j] != ' ' then None
    else
      var k := RunEnd(s, j + 1, IsLower);
      if k == j + 1 then None else Some(k)
  }

  /** A run read inside a slice ends where the run in the whole text ends,
      or at the slice's end. */
  lemma {:induction false} RunEndSlice(s: string, a: nat, b: nat, m: nat, p: char -> bool)
    requires a + m <= b <= |s|
    ensures RunEnd(s[a..b], m, p) == (if RunEnd(s, a + m, p) < b then RunEnd(s, a + m, p) else b) - a
    decreases b - a - m
  {
    if a + m < b && p(s[a + m]) {
      RunEndSlice(s, a, b, m + 1, p);
    }
  }

  /** What a match covers is a bag name. */
  lemma PairEndName(s: string, i: nat)
    requires i <= |s| && PairEnd(s, i).Some?
    ensures IsBagName(s[i..PairEnd(s, i).value])
  {
    var k := PairEnd(s, i).value;
    var j := RunEnd(s, i, IsLower);
    RunEndSlice(s, i, k, 0, IsLower);
    RunEndSlice(s, i, k, j - i + 1, IsLower);
  }

  /** `find_iter`: the matches from position i on, left to right, each search
      resuming where the previous match ended. */
  function WordPairsFrom(s: string, i: nat): (ws: seq<string>)
    requires i <= |s|
    ensures forall k :: 0 <= k < |ws| ==> IsBagName(ws[k])
    decreases |s| - i
  {
    if i == |s| then []
    else
      match PairEnd(s, i)
      case Some(k) => PairEndName(s, i); [s[i..k]] + WordPairsFrom(s, k)
      case None => WordPairsFrom(s, i + 1)
  }

  function WordPairs(s: string): seq<string> {
    WordPairsFrom(s, 0)
  }

  // ---------------------------------------------------------------------
  // part 1: which bags each bag can be put in

  /** For every bag, the bags that hold it directly. */
  type Holders = map<string, set<string>>

  function Lookup(rules: Holders, bag: string): set<string> {
    if bag in rules then rules[bag] else {}
  }

  /** The names after the container, with "bags contain" filtered out and
      cut at "no other". */
  function Contained(names: seq<string>): (r: seq<string>)
    ensures forall k :: 0 <= k < |r| ==> r[k] != "bags contain" && r[k] != "no other"
  {
    if names == [] then []
    else if names[0] == "bags contain" then Contained(names[1..])
    else if names[0] == "no other" then []
    else [names[0]] + Contained(names[1..])
  }

  /** Record `container` as a holder of each bag of `bags`, in order. */
  function AddContainer(rules: Holders, container: string, bags: seq<string>): Holders
    decreases |bags|
  {
    if bags == [] then rules
    else AddContainer(rules[bags[0] := Lookup(rules, bags[0]) + {container}], container, bags[1..])
  }

  /** What recording a line does: exactly the named bags gain the container
      as a holder; every other entry stays as it was. */
  lemma {:induction false} AddContainerSpec(rules: Holders, container: string, bags: seq<string>)
    ensures forall b :: b in AddContainer(rules, container, bags) <==> b in rules || b in bags
    ensures forall b :: b in AddContainer(rules, container, bags) ==>
      AddContainer(rules, container, bags)[b] == Lookup(rules, b) + (if b in bags then {container} else {})
    decreases |bags|
  {
    if bags != [] {
      var next := rules[bags[0] := Lookup(rules, bags[0]) + {container}];
      AddContainerSpec(next, container, bags[1..]);
      forall b
        ensures b in bags <==> b == bags[0] || b in bags[1..]
      {
        assert bags == [bags[0]] + bags[1..];
      }
    }
  }

  /** `parse_rule` on a line: `None` where it panics, a line without any
      bag name. */
  function RuleOfLine(line: string, rules: Holders): Option<Holders> {
    var names := WordPairs(line);
    if names == [] then None else Some(AddContainer(rules, names[0], Contained(names[1..])))
  }

  /** `parse_rule`: the first name is the container; each later name, up to
      "no other" and skipping "bags contain", gains it as a holder. */
  method ParseRule(line: string, rules: Holders) returns (r: Option<Holders>)
    ensures r == RuleOfLine(line, rules)
  {
    var names := WordPairs(line);
    if |names| == 0 {
      return None;
    }
    var container := names[0];
    var updated := rules;
    var i := 1;
    while i < |names|
      invariant 1 <= i <= |names|
      invariant AddContainer(updated, container, Contained(names[i..]))
             == AddContainer(rules, container, Contained(names[1..]))
    {
      assert names[i..][1..] == names[i + 1..];
      if names[i] == "no other" {
        break;
      }
      if names[i] != "bags contain" {
        updated := updated[names[i] := Lookup(updated, names[i]) + {container}];
      }
      i := i + 1;
    }
    return Some(updated);
  }

  /** The rules `day7_part1` collects from its lines, in order. */
  function Holdings(lines: seq<string>): Option<Holders> {
    if lines == [] then Some(map[])
    else
      match Holdings(lines[..|lines| - 1])
      case None => None
      case Some(rules) => RuleOfLine(lines[|lines| - 1], rules)
  }

  /** Every holder of a bag ranks below it, so the search up the holders
      ends; the source recurses without a visited set and never returns on
      a cycle. */
  predicate Ranked(rules: Holders, rank: map<string, nat>) {
    forall b :: b in rules ==> b in rank && forall c :: c in rules[b] ==> c in rank && rank[c] < rank[b]
  }

  function Height(b: string, rank: map<string, nat>): nat {
    if b in rank then rank[b] else 0
  }

  /** The bags `count_containers` returns: the direct holders of `bag` and,
      for each of them, everything that holds it in turn. */
  function Containers(bag: string, rules: Holders, ghost rank: map<string, nat>): set<string>
    requires Ranked(rules, rank)
    decreases Height(bag, rank)
  {
    if bag in rules then
      rules[bag] + (set c, x | c in rules[bag] && x in Containers(c, rules, rank) :: x)
    else {}
  }

  /** The holders reached from the bags of `cs`. */
  function Reached(cs: set<string>, rules: Holders, ghost rank: map<string, nat>): set<string>
    requires Ranked(rules, rank)
  {
    set c, x | c in cs && x in Containers(c, rules, rank) :: x
  }

  /** One more bag searched: its containers join those already found. */
  lemma ReachedStep(containedIn: set<string>, todo: set<string>, c: string, rules: Holders, rank: map<string, nat>)
    requires Ranked(rules, rank) && c in todo && todo <= containedIn
    ensures containedIn + Reached(containedIn - (todo - {c}), rules, rank)
         == containedIn + Reached(containedIn - todo, rules, rank) + Containers(c, rules, rank)
  {
    assert containedIn - (todo - {c}) == (containedIn - todo) + {c};
  }

  /** A bag's containers are its holders and what they reach. */
  lemma ContainersReached(bag: string, rules: Holders, rank: map<string, nat>)
    requires Ranked(rules, rank) && bag in rules
    ensures Containers(bag, rules, rank) == rules[bag] + Reached(rules[bag], rules, rank)
  {
  }

  /** `count_containers`: the direct holders, then a recursive search from
      each of them, in whatever order the set yields them. */
  method CountContainers(contained: string, rules: Holders, ghost rank: map<string, nat>) returns (known: set<string>)
    requires Ranked(rules, rank)
    ensures known == Containers(contained, rules, rank)
    decreases Height(contained, rank)
  {
    if contained !in rules {
      return {};
    }
    var containedIn := rules[contained];
    known := containedIn;
    var todo := containedIn;
    assert containedIn - todo == {};
    while todo != {}
      invariant todo <= containedIn
      invariant known == containedIn + Reached(containedIn - todo, rules, rank)
      decreases |todo|
    {
      var c :| c in todo;
      var more := CountContainers(c, rules, rank);
      ReachedStep(containedIn, todo, c, rules, rank);
      known := known + more;
      todo := todo - {c};
    }
    assert containedIn - todo == containedIn;
    ContainersReached(contained, rules, rank);
  }

  /** A chain of bags, each held directly by the next. */
  predicate IsChain(rules: Holders, path: seq<string>) {
    |path| >= 2 && forall i :: 0 <= i < |path| - 1 ==> path[i] in rules && path[i + 1] in rules[path[i]]
  }

  /** The end of every chain is among the containers of its start ... */
  lemma {:induction false} ChainIsContainer(rules: Holders, rank: map<string, nat>, path: seq<string>)
    requires Ranked(rules, rank) && IsChain(rules, path)
    ensures path[|path| - 1] in Containers(path[0], rules, rank)
    decreases |path|
  {
    if |path| > 2 {
      var rest := path[1..];
      assert IsChain(rules, rest) by {
        forall i | 0 <= i < |rest| - 1
          ensures rest[i] in rules && rest[i + 1] in rules[rest[i]]
        {
          assert rest[i] == path[i + 1] && rest[i + 1] == path[i + 2];
        }
      }
      ChainIsContainer(rules, rank, rest);
      assert path[1] in rules[path[0]];
    }
  }

  /** ... and every container ends a chain from the bag. */
  lemma {:induction false} ContainerChain(rules: Holders, rank: map<string, nat>, bag: string, x: string)
    returns (path: seq<string>)
    requires Ranked(rules, rank) && x in Containers(bag, rules, rank)
    ensures IsChain(rules, path) && path[0] == bag && path[|path| - 1] == x
    decreases Height(bag, rank)
  {
    if x in rules[bag] {
      path := [bag, x];
    } else {
      var c :| c in rules[bag] && x in Containers(c, rules, rank);
      var rest := ContainerChain(rules, rank, c, x);
      path := [bag] + rest;
      forall i | 0 <= i < |path| - 1
        ensures path[i] in rules && path[i + 1] in rules[path[i]]
      {
        if i > 0 {
          assert path[i] == rest[i - 1] && path[i + 1] == rest[i];
        }
      }
    }
  }

  /** A line that panics makes every longer input panic too. */
  lemma {:induction false} HoldingsPrefix(lines: seq<string>, j: nat)
    requires j <= |lines| && Holdings(lines[..j]).None?
    ensures Holdings(lines).None?
    decreases |lines| - j
  {
    if j < |lines| {
      assert lines[..j + 1][..j] == lines[..j];
      HoldingsPrefix(lines, j + 1);
    } else {
      assert lines[..j] == lines;
    }
  }

  /** `day7_part1`: parse every line into one map, then count the bags that
      can hold a shiny gold bag. */
  method Part1(input: seq<string>, ghost rank: map<string, nat>) returns (r: Option<nat>)
    requires Holdings(input).Some? ==> Ranked(Holdings(input).value, rank)
    ensures r == if Holdings(input).None? then None
                 else Some(|Containers("shiny gold", Holdings(input).value, rank)|)
  {
    var rules: Holders := map[];
    var i := 0;
    while i < |input|
      invariant 0 <= i <= |input|
      invariant Holdings(input[..i]) == Some(rules)
    {
      var next := ParseRule(input[i], rules);
      assert input[..i + 1][..i] == input[..i];
      if next.None? {
        HoldingsPrefix(input, i + 1);
        return None;
      }
      rules := next.value;
      i := i + 1;
    }
    assert input[..i] == input;
    var containers := CountContainers("shiny gold", rules, rank);
    return Some(|containers|);
  }

  // ---------------------------------------------------------------------
  // part 2: how many bags of each kind a bag holds

  datatype Rule = Rule(name: string, count: nat)

  /** A match of `(\d+) (\w+ \w+)` that starts at i, if one does: the
      digits are the count, the two words the name. The runs are greedy, and
      a shorter run would be followed by a character of its own class rather
      than the space the pattern needs. */
  function RuleAt(p: string, i: nat): (r: Option<Rule>)
    requires i <= |p|
    ensures r.Some? ==> r.value.name != []
  {
    var j := RunEnd(p, i, IsDigit);
    if j == i || j == |p| || p[j] != ' ' then None
    else
      var k := RunEnd(p, j + 1, IsWordChar);
      if k == j + 1 || k == |p| || p[k] != ' ' then None
      else
        var l := RunEnd(p, k + 1, IsWordChar);
        if l == k + 1 then None else Some(Rule(p[j + 1..l], DigitsValue(p[i..j])))
  }

  /** The match starting at k, as a total function of k. */
  function MatchAt(p: string): nat -> Option<Rule> {
    (k: nat) => if k <= |p| then RuleAt(p, k) else None
  }

  /** The first of `at(i)`, `at(i + 1)`, ..., `at(n - 1)` that is present. */
  function FirstFrom(at: nat -> Option<Rule>, i: nat, n: nat): Option<Rule>
    decreases n - i
  {
    if n <= i then None
    else if at(i).Some? then at(i)
    else FirstFrom(at, i + 1, n)
  }

  /** The result is present exactly when some position in range has a
      match, and then it is the match at the leftmost such position. */
  lemma {:induction false} FirstFromSpec(at: nat -> Option<Rule>, i: nat, n: nat)
    ensures FirstFrom(at, i, n).None? <==> forall k :: i <= k < n ==> at(k).None?
    ensures FirstFrom(at, i, n).Some? ==>
      exists k :: i <= k < n && at(k) == FirstFrom(at, i, n) && forall m :: i <= m < k ==> at(m).None?
    decreases n - i
  {
    if i < n && at(i).None? {
      FirstFromSpec(at, i + 1, n);
      if FirstFrom(at, i, n).Some? {
        var k :| i + 1 <= k < n && at(k) == FirstFrom(at, i, n) && forall m :: i + 1 <= m < k ==> at(m).None?;
        assert forall m :: i <= m < k ==> at(m).None?;
      }
    }
  }

  /** `captures`: the leftmost match in the piece. */
  function Capture(p: string): Option<Rule> {
    FirstFrom(MatchAt(p), 0, |p|)
  }

  /** `sep` occurs in s at k. */
  predicate OccursAt(s: string, sep: string, k: nat) {
    k + |sep| <= |s| && s[k..k + |sep|] == sep
  }

  /** The first occurrence of `sep` at or after i. */
  function FindFrom(s: string, sep: string, i: nat): (r: Option<nat>)
    requires i <= |s|
    ensures r.Some? ==> i <= r.value && OccursAt(s, sep, r.value)
    ensures forall k :: i <= k && (r.None? || k < r.value) ==> !OccursAt(s, sep, k)
    decreases |s| - i
  {
    if i + |sep| > |s| then None
    else if s[i..i + |sep|] == sep then Some(i)
    else FindFrom(s, sep, i + 1)
  }

  const Separator: string := "bags contain"

  /** `HashSet::insert` over the captures of the pieces, in order: a rule
      already present is not added again. */
  function RulesOf(caps: seq<Option<Rule>>): (rs: seq<Rule>)
  {
    if caps == [] then []
    else
      var rs := RulesOf(caps[..|caps| - 1]);
      match caps[|caps| - 1]
      case None => rs
      case Some(r) => if r in rs then rs else rs + [r]
  }

  /** A rule is in the set exactly when some piece captures it. */
  lemma {:induction false} RulesOfMembers(caps: seq<Option<Rule>>, r: Rule)
    ensures r in RulesOf(caps) <==> Some(r) in caps
  {
    if caps != [] {
      var init := caps[..|caps| - 1];
      RulesOfMembers(init, r);
      assert caps == init + [caps[|caps| - 1]];
    }
  }

  /** No rule is in the set twice. */
  lemma {:induction false} RulesOfDistinct(caps: seq<Option<Rule>>)
    ensures forall i, j :: 0 <= i < j < |RulesOf(caps)| ==> RulesOf(caps)[i] != RulesOf(caps)[j]
  {
    if caps != [] {
      RulesOfDistinct(caps[..|caps| - 1]);
    }
  }

  /** The capture of each piece. */
  function Captures(parts: seq<string>): (caps: seq<Option<Rule>>)
    ensures |caps| == |parts| && forall k :: 0 <= k < |parts| ==> caps[k] == Capture(parts[k])
  {
    seq(|parts|, k requires 0 <= k < |parts| => Capture(parts[k]))
  }

  /** `parse_rule_part_2`: the text before "bags contain", trimmed, is the
      container; the text after it (up to any second "bags contain") is cut
      at commas, and each piece with a match gives a rule. `None` where the
      source panics: the line has no "bags contain". */
  function ParseRule2(line: string): (r: Option<(string, seq<Rule>)>)
    ensures r.None? <==> forall k :: 0 <= k ==> !OccursAt(line, Separator, k)
  {
    match FindFrom(line, Separator, 0)
    case None => None
    case Some(p) =>
      var start := p + |Separator|;
      var end := match FindFrom(line, Separator, start) case Some(q) => q case None => |line|;
      Some((Trim(line[..p]), RulesOf(Captures(Split(line[start..end], ',')))))
  }

  /** For every bag, the rules of what it holds. */
  type BagRules = map<string, seq<Rule>>

  /** The map `day7_part2` collects: a later line for the same container
      replaces an earlier one. */
  function Contents(lines: seq<string>): Option<BagRules> {
    if lines == [] then Some(map[])
    else
      match (Contents(lines[..|lines| - 1]), ParseRule2(lines[|lines| - 1]))
      case (Some(rules), Some((container, rs))) => Some(rules[container := rs])
      case _ => None
  }

  /** Every bag named in a rule ranks below the bag that holds it, so the
      count ends; the source recurses without a check and never returns on a
      cycle. */
  predicate RankedRules(rules: BagRules, rank: map<string, nat>) {
    forall b :: b in rules ==> b in rank && forall r :: r in rules[b] ==> r.name in rank && rank[r.name] < rank[b]
  }

  /** `count_contained`: for each rule, its count of bags plus that many
      times what each of them holds. `None` where the source panics: a bag
      without an entry of its own. */
  function CountContained(bag: string, rules: BagRules, ghost rank: map<string, nat>): (r: Option<nat>)
    requires RankedRules(rules, rank)
    ensures r.Some? ==> bag in rules && forall x :: x in rules[bag] ==> x.count <= r.value
    decreases Height(bag, rank), 1, 0
  {
    if bag !in rules then None else SumRules(bag, rules[bag], rules, rank)
  }

  /** The sum over the rules `rs` of `bag`. */
  function SumRules(bag: string, rs: seq<Rule>, rules: BagRules, ghost rank: map<string, nat>): (s: Option<nat>)
    requires RankedRules(rules, rank) && bag in rules
    requires forall r :: r in rs ==> r in rules[bag]
    ensures s.Some? ==> forall x :: x in rs ==> x.count <= s.value
    decreases Height(bag, rank), 0, |rs|
  {
    if rs == [] then Some(0)
    else
      var r := rs[|rs| - 1];
      var sum := SumRules(bag, rs[..|rs| - 1], rules, rank);
      var inner := CountContained(r.name, rules, rank);
      if sum.None? || inner.None? then None else Some(sum.value + r.count + r.count * inner.value)
  }

  /** `day7_part2`. */
  function Part2(input: seq<string>, ghost rank: map<string, nat>): (r: Option<nat>)
    requires Contents(input).Some? ==> RankedRules(Contents(input).value, rank)
    ensures r.Some? ==> Contents(input).Some? && "shiny gold" in Contents(input).value
    ensures r.Some? ==> forall x :: x in Contents(input).value["shiny gold"] ==> x.count <= r.value
  {
    match Contents(input)
    case None => None
    case Some(rules) => CountContained("shiny gold", rules, rank)
  }

  /** Bag a has a rule naming bag b. */
  predicate HoldsBag(rules: BagRules, a: string, b: string) {
    a in rules && exists r :: r in rules[a] && r.name == b
  }

  /** A walk from bag to bag along the rules. */
  predicate IsWalk(rules: BagRules, path: seq<string>) {
    |path| >= 1 && forall i :: 0 <= i < |path| - 1 ==> HoldsBag(rules, path[i], path[i + 1])
  }

  /** One missing count among the rules makes the whole sum missing ... */
  lemma {:induction false} SumRulesMissing(bag: string, rs: seq<Rule>, rules: BagRules, rank: map<string, nat>, r: Rule)
    requires RankedRules(rules, rank) && bag in rules
    requires forall x :: x in rs ==> x in rules[bag]
    requires r in rs && CountContained(r.name, rules, rank).None?
    ensures SumRules(bag, rs, rules, rank).None?
  {
    if rs[|rs| - 1] != r {
      SumRulesMissing(bag, rs[..|rs| - 1], rules, rank, r);
    }
  }

  /** ... and a missing sum has a rule whose count is missing. */
  lemma {:induction false} SumRulesWitness(bag: string, rs: seq<Rule>, rules: BagRules, rank: map<string, nat>)
    returns (r: Rule)
    requires RankedRules(rules, rank) && bag in rules
    requires forall x :: x in rs ==> x in rules[bag]
    requires SumRules(bag, rs, rules, rank).None?
    ensures r in rs && CountContained(r.name, rules, rank).None?
  {
    var last := rs[|rs| - 1];
    if CountContained(last.name, rules, rank).None? {
      r := last;
    } else {
      r := SumRulesWitness(bag, rs[..|rs| - 1], rules, rank);
    }
  }

  /** `count_contained` panics exactly when a walk from the bag reaches a
      bag with no rules of its own: a walk to such a bag makes the count
      missing ... */
  lemma {:induction false} WalkToMissing(rules: BagRules, rank: map<string, nat>, path: seq<string>)
    requires RankedRules(rules, rank) && IsWalk(rules, path) && path[|path| - 1] !in rules
    ensures CountContained(path[0], rules, rank).None?
    decreases |path|
  {
    if |path| > 1 {
      var rest := path[1..];
      assert IsWalk(rules, rest) by {
        forall i | 0 <= i < |rest| - 1
          ensures HoldsBag(rules, rest[i], rest[i + 1])
        {
          assert rest[i] == path[i + 1] && rest[i + 1] == path[i + 2];
        }
      }
      WalkToMissing(rules, rank, rest);
      assert HoldsBag(rules, path[0], path[1]);
      var r :| r in rules[path[0]] && r.name == path[1];
      SumRulesMissing(path[0], rules[path[0]], rules, rank, r);
    }
  }

  /** ... and a missing count has such a walk. */
  lemma {:induction false} MissingWalk(bag: string, rules: BagRules, rank: map<string, nat>) returns (path: seq<string>)
    requires RankedRules(rules, rank) && CountContained(bag, rules, rank).None?
    ensures IsWalk(rules, path) && path[0] == bag && path[|path| - 1] !in rules
    decreases Height(bag, rank)
  {
    if bag !in rules {
      path := [bag];
    } else {
      var r := SumRulesWitness(bag, rules[bag], rules, rank);
      var rest := MissingWalk(r.name, rules, rank);
      path := [bag] + rest;
      assert HoldsBag(rules, bag, r.name);
      forall i | 0 <= i < |path| - 1
        ensures HoldsBag(rules, path[i], path[i + 1])
      {
        if i > 0 {
          assert path[i] == rest[i - 1] && path[i + 1] == rest[i];
        }
      }
    }
  }

  /** The count of a bag is the sum over its rules of what each brings:
      the bags themselves and everything inside them, one rule at a time. */
  lemma SumRulesAppend(bag: string, rs: seq<Rule>, r: Rule, rules: BagRules, rank: map<string, nat>, a: nat, n: nat)
    requires RankedRules(rules, rank) && bag in rules
    requires forall x :: x in rs + [r] ==> x in rules[bag]
    requires SumRules(bag, rs, rules, rank) == Some(a) && CountContained(r.name, rules, rank) == Some(n)
    ensures SumRules(bag, rs + [r], rules, rank) == Some(a + r.count + r.count * n)
  {
    var t := rs + [r];
    assert t[..|t| - 1] == rs && t[|t| - 1] == r;
    assert SumRules(bag, t, rules, rank) == Some(a + r.count + r.count * n);
  }

  /** A bag whose one rule is r, and r's bag holds n in all. */
  lemma CountOne(rules: BagRules, rank: map<string, nat>, bag: string, r: Rule, n: nat)
    requires RankedRules(rules, rank) && bag in rules && rules[bag] == [r]
    requires CountContained(r.name, rules, rank) == Some(n)
    ensures CountContained(bag, rules, rank) == Some(r.count + r.count * n)
  {
    SumRulesAppend(bag, [], r, rules, rank, 0, n);
    assert [] + [r] == [r];
  }

  /** A bag whose rules are r and s, whose bags hold n and m in all. */
  lemma CountTwo(rules: BagRules, rank: map<string, nat>, bag: string, r: Rule, s: Rule, n: nat, m: nat)
    requires RankedRules(rules, rank) && bag in rules && rules[bag] == [r, s]
    requires CountContained(r.name, rules, rank) == Some(n) && CountContained(s.name, rules, rank) == Some(m)
    ensures CountContained(bag, rules, rank) == Some(r.count + r.count * n + s.count + s.count * m)
  {
    SumRulesAppend(bag, [], r, rules, rank, 0, n);
    assert [] + [r] == [r];
    SumRulesAppend(bag, [r], s, rules, rank, r.count + r.count * n, m);
    assert [r] + [s] == [r, s];
  }

  /** `test_given_part_2`: shiny gold holds 1 dark olive and 2 vibrant plum,
      which hold faded blue and dotted black bags that hold nothing; 32 bags
      in all, whatever the other bags hold. */
  lemma ExampleCount32(rules: BagRules, rank: map<string, nat>, gold: string, olive: string, plum: string, blue: string, black: string)
    requires RankedRules(rules, rank)
    requires gold in rules && rules[gold] == [Rule(olive, 1), Rule(plum, 2)]
    requires olive in rules && rules[olive] == [Rule(blue, 3), Rule(black, 4)]
    requires plum in rules && rules[plum] == [Rule(blue, 5), Rule(black, 6)]
    requires blue in rules && rules[blue] == [] && black in rules && rules[black] == []
    ensures CountContained(gold, rules, rank) == Some(32)
  {
    assert CountContained(blue, rules, rank) == Some(0);
    assert CountContained(black, rules, rank) == Some(0);
    CountTwo(rules, rank, olive, Rule(blue, 3), Rule(black, 4), 0, 0);
    CountTwo(rules, rank, plum, Rule(blue, 5), Rule(black, 6), 0, 0);
    CountTwo(rules, rank, gold, Rule(olive, 1), Rule(plum, 2), 7, 11);
  }

  /** `test_given_part_2_example_2`: a chain of seven bags, each holding two
      of the next, the last holding nothing: 126 bags. */
  lemma ExampleCount126(rules: BagRules, rank: map<string, nat>, c: seq<string>)
    requires RankedRules(rules, rank) && |c| == 7
    requires forall i :: 0 <= i < 6 ==> c[i] in rules && rules[c[i]] == [Rule(c[i + 1], 2)]
    requires c[6] in rules && rules[c[6]] == []
    ensures CountContained(c[0], rules, rank) == Some(126)
  {
    assert CountContained(c[6], rules, rank) == Some(0);
    CountOne(rules, rank, c[5], Rule(c[6], 2), 0);
    CountOne(rules, rank, c[4], Rule(c[5], 2), 2);
    CountOne(rules, rank, c[3], Rule(c[4], 2), 6);
    CountOne(rules, rank, c[2], Rule(c[3], 2), 14);
    CountOne(rules, rank, c[1], Rule(c[2], 2), 30);
    CountOne(rules, rank, c[0], Rule(c[1], 2), 62);
  }

  /** `test_part_2_small`, at the level of the rule map: 2 dark red bags
      holding 2 dark blue bags each make 6. */
  lemma ExampleCount6(rules: BagRules, rank: map<string, nat>, gold: string, red: string, blue: string)
    requires RankedRules(rules, rank)
    requires gold in rules && rules[gold] == [Rule(red, 2)]
    requires red in rules && rules[red] == [Rule(blue, 2)]
    requires blue in rules && rules[blue] == []
    ensures CountContained(gold, rules, rank) == Some(6)
  {
    assert CountContained(blue, rules, rank) == Some(0);
    CountOne(rules, rank, red, Rule(blue, 2), 0);
    CountOne(rules, rank, gold, Rule(red, 2), 2);
  }

  /** `test_given`: shiny gold sits directly in bright white and muted
      yellow bags, and those sit in light red and dark orange bags, which
      nothing holds: four bags in all. */
  lemma ExampleContainers4(rules: Holders, rank: map<string, nat>, gold: string, white: string, yellow: string, red: string, orange: string)
    requires Ranked(rules, rank)
    requires gold in rules && rules[gold] == {white, yellow}
    requires white in rules && rules[white] == {red, orange}
    requires yellow in rules && rules[yellow] == {red, orange}
    requires red !in rules && orange !in rules
    requires |{white, yellow, red, orange}| == 4
    ensures |Containers(gold, rules, rank)| == 4
  {
    assert Containers(red, rules, rank) == {} && Containers(orange, rules, rank) == {};
    ContainersPair(rules, rank, white, red, orange, {}, {});
    ContainersPair(rules, rank, yellow, red, orange, {}, {});
    ContainersPair(rules, rank, gold, white, yellow, {red, orange}, {red, orange});
    assert {white, yellow} + {red, orange} + {red, orange} == {white, yellow, red, orange};
  }

  /** A bag held directly by a and b only: its containers are a, b and
      theirs. */
  lemma ContainersPair(rules: Holders, rank: map<string, nat>, bag: string, a: string, b: string,
                       ca: set<string>, cb: set<string>)
    requires Ranked(rules, rank) && bag in rules && rules[bag] == {a, b}
    requires Containers(a, rules, rank) == ca && Containers(b, rules, rank) == cb
    ensures Containers(bag, rules, rank) == {a, b} + ca + cb
  {
    var reached := set c, x | c in rules[bag] && x in Containers(c, rules, rank) :: x;
    assert reached == ca + cb;
  }
}
