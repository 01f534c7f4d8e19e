/** Day 6: customs declaration forms. The input holds groups separated by
    blank lines; each line of a group is one person's "yes" answers. Part 1
    counts, per group, the questions anyone answered; part 2 the questions
    everyone answered. */
module Day6 {
  import opened Common

  // ---------------------------------------------------------------------
  // splitting into groups on `\n\n+`

  /** No two newlines in a row, so no separator inside. */
  predicate NoBlank(s: string) {
    forall i :: 0 <= i < |s| - 1 ==> !(s[i] == '\n' && s[i + 1] == '\n')
  }

  /** The text after a leading run of newlines. */
  function SkipNewlines(s: string): (r: string)
    ensures |r| <= |s| && r == s[|s| - |r|..]
    ensures r == [] || r[0] != '\n'
    ensures forall i :: 0 <= i < |s| - |r| ==> s[i] == '\n'
  {
    if s != [] && s[0] == '\n' then SkipNewlines(s[1..]) else s
  }

  /** The current group `acc` may end in one newline only if the text does
      not go on with another (that would have been a separator). */
  predicate Pending(acc: string, s: string) {
    NoBlank(acc) && (acc != [] && acc[|acc| - 1] == '\n' ==> s == [] || s[0] != '\n')
  }

  /** The regex split on `\n\n+`, with `acc` the group read so far: each
      maximal run of two or more newlines is one cut; the text before the first
      cut and after the last one are groups too, empty or not. */
  function GroupsFrom(s: string, acc: string): (gs: seq<string>)
    requires Pending(acc, s)
    ensures |gs| > 0
    ensures forall k :: 0 <= k < |gs| ==> NoBlank(gs[k])
    decreases |s|
  {
    if s == [] then [acc]
    else if |s| >= 2 && s[0] == '\n' && s[1] == '\n' then [acc] + GroupsFrom(SkipNewlines(s), [])
    else GroupsFrom(s[1..], acc + [s[0]])
  }

  /** The generator (`input_generator`). */
  function Groups(input: string): (gs: seq<string>)
    ensures |gs| > 0
    ensures forall k :: 0 <= k < |gs| ==> NoBlank(gs[k])
  {
    GroupsFrom(input, [])
  }

  /** The groups put back together with one blank line between them. */
  function JoinGroups(gs: seq<string>): (s: string)
    requires |gs| > 0
    ensures |gs[0]| <= |s| && s[..|gs[0]|] == gs[0]
  {
    if |gs| == 1 then gs[0] else gs[0] + "\n\n" + JoinGroups(gs[1..])
  }

  /** A group as the puzzle writes one: non-empty, no blank line inside, and
      no newline at either end. */
  predicate Plain(g: string) {
    g != [] && NoBlank(g) && g[0] != '\n' && g[|g| - 1] != '\n'
  }

  /** Text without a separator extends the current group to its end. */
  lemma {:induction false} GroupsFromRest(a: string, acc: string)
    requires Pending(acc, a) && NoBlank(a)
    ensures GroupsFrom(a, acc) == [acc + a]
    decreases |a|
  {
    if a == [] {
      assert acc + a == acc;
    } else {
      if |a| >= 2 {
        assert 0 < |a| - 1;
        assert !(a[0] == '\n' && a[1] == '\n');
      }
      assert NoBlank(a[1..]);
      GroupsFromRest(a[1..], acc + [a[0]]);
      assert acc + [a[0]] + a[1..] == acc + a;
    }
  }

  lemma SkipSeparator(b: string)
    requires b == [] || b[0] != '\n'
    ensures SkipNewlines("\n\n" + b) == b
  {
    assert ("\n\n" + b)[1..] == "\n" + b;
    assert ("\n" + b)[1..] == b;
  }

  /** A blank line after text without a separator closes the current group. */
  /** The first character of a non-empty group before a separator. */
  lemma CutShift(a: string, b: string)
    requires a != []
    ensures var s := a + "\n\n" + b;
      && s[0] == a[0]
      && s[1] == (if |a| >= 2 then a[1] else '\n')
      && s[1..] == a[1..] + "\n\n" + b
  {
  }

  lemma {:induction false} GroupsFromCut(a: string, acc: string, b: string)
    requires Pending(acc, a + "\n\n" + b) && NoBlank(a)
    requires a == [] || a[|a| - 1] != '\n'
    requires b == [] || b[0] != '\n'
    ensures GroupsFrom(a + "\n\n" + b, acc) == [acc + a] + GroupsFrom(b, [])
    decreases |a|
  {
    var s := a + "\n\n" + b;
    if a == [] {
      assert s == "\n\n" + b;
      SkipSeparator(b);
      assert acc + a == acc;
    } else {
      CutShift(a, b);
      assert NoBlank(a[1..]);
      GroupsFromCut(a[1..], acc + [a[0]], b);
      assert acc + [a[0]] + a[1..] == acc + a;
    }
  }

  /** Splitting undoes joining: plain groups come back one for one. */
  lemma {:induction false} GroupsOfJoin(gs: seq<string>)
    requires |gs| > 0 && forall k :: 0 <= k < |gs| ==> Plain(gs[k])
    ensures Groups(JoinGroups(gs)) == gs
  {
    if |gs| == 1 {
      GroupsFromRest(gs[0], []);
      assert [] + gs[0] == gs[0];
    } else {
      var rest := JoinGroups(gs[1..]);
      assert Plain(gs[1]) && rest[..|gs[1]|] == gs[1];
      assert rest[0] == gs[1][0];
      GroupsFromCut(gs[0], [], rest);
      assert [] + gs[0] == gs[0];
      GroupsOfJoin(gs[1..]);
      assert gs == [gs[0]] + gs[1..];
    }
  }

  function ExampleGroups(): seq<string> {
    ["abc", "a\nb\nc", "ab\nac", "a\na\na\na", "b"]
  }

  /** Five groups joined: each followed by a blank line but the last. */
  lemma JoinFive(g0: string, g1: string, g2: string, g3: string, g4: string)
    ensures JoinGroups([g0, g1, g2, g3, g4]) == g0 + "\n\n" + g1 + "\n\n" + g2 + "\n\n" + g3 + "\n\n" + g4
  {
    assert [g3, g4][1..] == [g4];
    assert JoinGroups([g3, g4]) == g3 + "\n\n" + g4;
    assert [g2, g3, g4][1..] == [g3, g4];
    assert JoinGroups([g2, g3, g4]) == g2 + "\n\n" + (g3 + "\n\n" + g4);
    assert [g1, g2, g3, g4][1..] == [g2, g3, g4];
    assert JoinGroups([g1, g2, g3, g4]) == g1 + "\n\n" + (g2 + "\n\n" + (g3 + "\n\n" + g4));
    assert [g0, g1, g2, g3, g4][1..] == [g1, g2, g3, g4];
  }

  lemma ExampleJoin()
    ensures JoinGroups(ExampleGroups()) == "abc\n\na\nb\nc\n\nab\nac\n\na\na\na\na\n\nb"
  {
    JoinFive("abc", "a\nb\nc", "ab\nac", "a\na\na\na", "b");
  }

  lemma ExampleGenerator()
    ensures Groups("abc\n\na\nb\nc\n\nab\nac\n\na\na\na\na\n\nb") == ExampleGroups()
  {
    var gs := ExampleGroups();
    assert Plain(gs[0]) && Plain(gs[1]) && Plain(gs[2]) && Plain(gs[3]) && Plain(gs[4]);
    GroupsOfJoin(gs);
    ExampleJoin();
  }

  // ---------------------------------------------------------------------
  // part 1: questions anyone answered

  /** The distinct answers of a group, newlines removed. */
  function Answers(g: string): set<char> {
    set c | c in g && c != '\n'
  }

  /** Part 1: the sum over groups of the number of distinct answers; the sum
      is at least every single group's count. */
  function Part1(groups: seq<string>): (r: nat)
    ensures forall k :: 0 <= k < |groups| ==> |Answers(groups[k])| <= r
  {
    if groups == [] then 0 else Part1(groups[..|groups| - 1]) + |Answers(groups[|groups| - 1])|
  }

  // ---------------------------------------------------------------------
  // part 2: questions everyone answered

  /** The answers on one line. */
  function Chars(l: string): set<char> {
    set c | c in l
  }

  /** The fold of intersections over the lines' answer sets, starting from
      the first line: exactly the answers found on every line. */
  function Shared(ls: seq<string>): (r: set<char>)
    requires |ls| > 0
    ensures forall c :: c in r <==> forall i :: 0 <= i < |ls| ==> c in ls[i]
  {
    if |ls| == 1 then Chars(ls[0])
    else Shared(ls[..|ls| - 1]) * Chars(ls[|ls| - 1])
  }

  /** The first map of part 2: each group to its lines. */
  function GroupLines(groups: seq<string>): (r: seq<seq<string>>)
    ensures |r| == |groups|
    ensures forall k :: 0 <= k < |r| ==> r[k] == Lines(groups[k])
  {
    if groups == [] then [] else GroupLines(groups[..|groups| - 1]) + [Lines(groups[|groups| - 1])]
  }

  /** One group's count from its lines; `None` where there is no line (the
      source unwraps the first one). */
  function Everyone(ls: seq<string>): (r: Option<nat>)
    ensures r.None? <==> ls == []
  {
    if ls == [] then None else Some(|Shared(ls)|)
  }

  /** The second map of part 2: each group's lines to its count. */
  function Counts(lss: seq<seq<string>>): (r: seq<Option<nat>>)
    ensures |r| == |lss|
    ensures forall k :: 0 <= k < |r| ==> r[k] == Everyone(lss[k])
  {
    if lss == [] then [] else Counts(lss[..|lss| - 1]) + [Everyone(lss[|lss| - 1])]
  }

  /** The sum of the counts, `None` as soon as one is missing. */
  function Total(counts: seq<Option<nat>>): (r: Option<nat>)
    ensures r.None? <==> exists k :: 0 <= k < |counts| && counts[k].None?
  {
    if counts == [] then Some(0)
    else
      var init := counts[..|counts| - 1];
      assert forall k :: 0 <= k < |init| ==> init[k] == counts[k];
      var before, mine := Total(init), counts[|counts| - 1];
      if before.None? || mine.None? then None else Some(before.value + mine.value)
  }

  lemma GroupLinesEmpty(groups: seq<string>)
    ensures forall k :: 0 <= k < |groups| ==> (Counts(GroupLines(groups))[k].None? <==> groups[k] == [])
  {
    forall k | 0 <= k < |groups|
      ensures Counts(GroupLines(groups))[k].None? <==> groups[k] == []
    {
      LinesEmpty(groups[k]);
    }
  }

  /** Part 2: the sum over groups of the answers everyone gave, or `None`
      when some group is empty. */
  function Part2(groups: seq<string>): (r: Option<nat>)
    ensures r.None? <==> exists k :: 0 <= k < |groups| && groups[k] == []
  {
    GroupLinesEmpty(groups);
    Total(Counts(GroupLines(groups)))
  }

  /** What everyone answered, someone answered: per group, the part-2 count is
      at most the part-1 count. */
  lemma EveryoneWithinAnyone(g: string)
    requires g != []
    ensures Everyone(Lines(g)).Some? && Everyone(Lines(g)).value <= |Answers(g)|
  {
    LinesEmpty(g);
    LinesChars(g);
    var ls := Lines(g);
    forall c | c in Shared(ls)
      ensures c in Answers(g)
    {
      assert c in ls[0];
      var i :| 0 <= i < |ls[0]| && ls[0][i] == c;
      assert ls[0][i] in g;
    }
    SubsetSize(Shared(ls), Answers(g));
  }

  /** Part 2 never exceeds part 1. */
  lemma {:induction false} Part2AtMostPart1(groups: seq<string>)
    requires Part2(groups).Some?
    ensures Part2(groups).value <= Part1(groups)
  {
    if groups != [] {
      var init := groups[..|groups| - 1];
      var last := groups[|groups| - 1];
      var counts := Counts(GroupLines(groups));
      assert counts[..|groups| - 1] == Counts(GroupLines(init));
      assert Part2(init).Some?;
      Part2AtMostPart1(init);
      EveryoneWithinAnyone(last);
    }
  }

  // ---------------------------------------------------------------------
  // the repository's examples

  lemma AnswersExamples()
    ensures |Answers("abc")| == 3 && |Answers("ab\nac")| == 3
    ensures |Answers("a\na\na\na\na")| == 1 && |Answers("b")| == 1
  {
    assert Answers("abc") == {'a', 'b', 'c'};
    assert Answers("ab\nac") == {'a', 'b', 'c'};
    assert Answers("a\na\na\na\na") == {'a'};
    assert Answers("b") == {'b'};
  }

  /** The repository's part-1 example totals 11. */
  lemma ExamplePart1()
    ensures Part1(["abc", "ab\nac", "ab\nac", "a\na\na\na\na", "b"]) == 11
  {
    var gs: seq<string> := ["abc", "ab\nac", "ab\nac", "a\na\na\na\na", "b"];
    AnswersExamples();
    assert gs[..1][..0] == [] && gs[..2][..1] == gs[..1] && gs[..3][..2] == gs[..2];
    assert gs[..4][..3] == gs[..3] && gs[..4] == gs[..|gs| - 1];
    assert Part1(gs[..1]) == 3;
    assert Part1(gs[..2]) == 6;
    assert Part1(gs[..3]) == 9;
    assert Part1(gs[..4]) == 10;
  }

  lemma RepeatedJoin()
    ensures Join(["a", "a", "a", "a", "a"], '\n') == "a\na\na\na\na"
  {
    var ls: seq<string> := ["a", "a", "a", "a", "a"];
    assert Join(ls[3..], '\n') == "a\na";
    assert Join(ls[2..], '\n') == "a\na\na";
    assert Join(ls[1..], '\n') == "a\na\na\na";
  }

  lemma ColumnJoin()
    ensures Join(["a", "b", "c"], '\n') == "a\nb\nc"
  {
    var ls: seq<string> := ["a", "b", "c"];
    assert Join(ls[2..], '\n') == "c";
    assert Join(ls[1..], '\n') == "b\nc";
  }

  lemma LinesSingles()
    ensures Lines("abc") == ["abc"] && Lines("b") == ["b"]
  {
    LinesOfJoin(["abc"]);
    LinesOfJoin(["b"]);
  }

  lemma LinesColumn()
    ensures Lines("a\nb\nc") == ["a", "b", "c"]
  {
    LinesOfJoin(["a", "b", "c"]);
    ColumnJoin();
  }

  lemma LinesPair()
    ensures Lines("ab\nac") == ["ab", "ac"]
  {
    LinesOfJoin(["ab", "ac"]);
    assert Join(["ab", "ac"], '\n') == "ab\nac";
  }

  lemma LinesRepeated()
    ensures Lines("a\na\na\na\na") == ["a", "a", "a", "a", "a"]
  {
    LinesOfJoin(["a", "a", "a", "a", "a"]);
    RepeatedJoin();
  }

  lemma CharsExamples()
    ensures Chars("a") == {'a'} && Chars("b") == {'b'} && Chars("c") == {'c'}
    ensures Chars("abc") == {'a', 'b', 'c'} && Chars("ab") == {'a', 'b'} && Chars("ac") == {'a', 'c'}
  {
    assert "abc"[0] == 'a' && "abc"[1] == 'b' && "abc"[2] == 'c';
    assert "ab"[0] == 'a' && "ab"[1] == 'b';
    assert "ac"[0] == 'a' && "ac"[1] == 'c';
  }

  lemma SharedRepeated(n: nat)
    requires n > 0
    ensures Shared(seq(n, _ => "a")) == {'a'}
  {
    CharsExamples();
    if n > 1 {
      assert seq(n, _ => "a")[..n - 1] == seq(n - 1, _ => "a");
      SharedRepeated(n - 1);
    }
  }

  lemma EveryoneSingles()
    ensures Everyone(["abc"]) == Some(3) && Everyone(["b"]) == Some(1)
  {
    CharsExamples();
    assert |{'a', 'b', 'c'}| == 3;
  }

  lemma EveryoneColumn()
    ensures Everyone(["a", "b", "c"]) == Some(0)
  {
    CharsExamples();
    var abc: seq<string> := ["a", "b", "c"];
    var ab: seq<string> := ["a", "b"];
    assert abc[..2] == ab && ab[..1] == ["a"];
    assert Shared(ab) == {'a'} * {'b'} == {};
    assert Shared(abc) == {};
  }

  lemma EveryonePair()
    ensures Everyone(["ab", "ac"]) == Some(1)
  {
    CharsExamples();
    var pair: seq<string> := ["ab", "ac"];
    assert pair[..1] == ["ab"];
    assert Shared(pair) == {'a', 'b'} * {'a', 'c'} == {'a'};
  }

  lemma EveryoneRepeated()
    ensures Everyone(["a", "a", "a", "a", "a"]) == Some(1)
  {
    var five: seq<string> := ["a", "a", "a", "a", "a"];
    assert five == seq(5, _ => "a");
    SharedRepeated(5);
  }

  lemma TotalStep(counts: seq<Option<nat>>, a: nat, b: nat)
    requires |counts| > 0 && Total(counts[..|counts| - 1]) == Some(a) && counts[|counts| - 1] == Some(b)
    ensures Total(counts) == Some(a + b)
  {
  }

  /** Part 2 of five groups from the counts of their lines. */
  lemma Part2OfFive(g0: string, g1: string, g2: string, g3: string, g4: string,
                    v0: nat, v1: nat, v2: nat, v3: nat, v4: nat)
    requires Everyone(Lines(g0)) == Some(v0) && Everyone(Lines(g1)) == Some(v1)
    requires Everyone(Lines(g2)) == Some(v2) && Everyone(Lines(g3)) == Some(v3)
    requires Everyone(Lines(g4)) == Some(v4)
    ensures Part2([g0, g1, g2, g3, g4]) == Some(v0 + v1 + v2 + v3 + v4)
  {
    var c := Counts(GroupLines([g0, g1, g2, g3, g4]));
    assert c == [Some(v0), Some(v1), Some(v2), Some(v3), Some(v4)];
    assert c[..1][..0] == [] && c[..2][..1] == c[..1] && c[..3][..2] == c[..2];
    assert c[..4][..3] == c[..3] && c[..4] == c[..|c| - 1];
    TotalStep(c[..1], 0, v0);
    TotalStep(c[..2], v0, v1);
    TotalStep(c[..3], v0 + v1, v2);
    TotalStep(c[..4], v0 + v1 + v2, v3);
    TotalStep(c, v0 + v1 + v2 + v3, v4);
  }

  lemma EveryoneOfGroups()
    ensures Everyone(Lines("abc")) == Some(3) && Everyone(Lines("a\nb\nc")) == Some(0)
    ensures Everyone(Lines("ab\nac")) == Some(1) && Everyone(Lines("a\na\na\na\na")) == Some(1)
    ensures Everyone(Lines("b")) == Some(1)
  {
    LinesSingles();
    LinesColumn();
    LinesPair();
    LinesRepeated();
    EveryoneSingles();
    EveryoneColumn();
    EveryonePair();
    EveryoneRepeated();
  }

  /** The repository's part-2 example totals 6. */
  lemma ExamplePart2()
    ensures Part2(["abc", "a\nb\nc", "ab\nac", "a\na\na\na\na", "b"]) == Some(6)
  {
    EveryoneOfGroups();
    Part2OfFive("abc", "a\nb\nc", "ab\nac", "a\na\na\na\na", "b", 3, 0, 1, 1, 1);
  }
}
