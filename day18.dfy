/** Day 18: operation order. Each line is an expression of numbers, '+',
    '*' and parentheses. Part 1 evaluates with both operators at the same
    precedence, left to right; part 2 lets '+' bind tighter than '*'. */
module Day18 {
  import opened Common

  // ---------------------------------------------------------------------
  // input_generator

  /** `input_generator`: one expression per line, as written. */
  function InputGenerator(input: string): (lines: seq<string>)
    ensures forall k, i :: 0 <= k < |lines| && 0 <= i < |lines[k]| ==> lines[k][i] != '\n'
  {
    Lines(input)
  }

  // ---------------------------------------------------------------------
  // find_matching_parenthesis_index_rev

  /** How the depth changes when the scan from the right meets c. */
  function Delta(c: char): int {
    if c == ')' then 1 else if c == '(' then -1 else 0
  }

  /** The number of ')' in s less the number of '('. */
  function Net(s: string): int {
    if s == [] then 0 else Delta(s[0]) + Net(s[1..])
  }

  lemma {:induction false} NetAppend(a: string, b: string)
    ensures Net(a + b) == Net(a) + Net(b)
  {
    if a != [] {
      calc {
        Net(a + b);
        Delta((a + b)[0]) + Net((a + b)[1..]);
        { assert (a + b)[1..] == a[1..] + b; }
        Delta(a[0]) + Net(a[1..] + b);
        { NetAppend(a[1..], b); }
        Delta(a[0]) + Net(a[1..]) + Net(b);
      }
    } else {
      assert a + b == b;
    }
  }

  /** The net count of the slice e[q..j]. */
  function NetIn(e: string, q: int, j: int): int
    requires 0 <= q <= j <= |e|
  {
    Net(e[q..j])
  }

  /** Scanning leftwards from index i at the given depth, the index where
      the depth first reaches zero. */
  function MatchFrom(e: string, i: int, depth: int): (r: Option<nat>)
    requires i < |e|
    ensures r.Some? ==> r.value <= i
    decreases i + 1
  {
    if i < 0 then None
    else
      var d := depth + Delta(e[i]);
      if d == 0 then Some(i) else MatchFrom(e, i - 1, d)
  }

  /** The index of the '(' matching the final ')'; `None` where the text
      does not end with ')' or no '(' matches it (both panic). */
  function MatchingOpen(e: string): (r: Option<nat>)
    ensures r.Some? ==> |e| > 0 && e[|e| - 1] == ')' && r.value < |e| - 1
  {
    if |e| > 0 && e[|e| - 1] == ')' then MatchFrom(e, |e| - 2, 1) else None
  }

  /** Every slice e[q..j] with lo < q < j keeps the depth, starting from
      the given one, positive. */
  predicate PositiveFrom(e: string, lo: int, j: int, depth: int)
    requires -1 <= lo && 0 <= j <= |e|
  {
    forall q :: lo < q < j ==> depth + NetIn(e, q, j) > 0
  }

  /** p closes the scan that ends just before index j at the given depth:
      the depth is zero after e[p] and positive at every index after it. */
  predicate ClosesAt(e: string, j: int, depth: int, p: int)
    requires 0 <= j <= |e|
  {
    0 <= p < j && depth + NetIn(e, p, j) == 0 && PositiveFrom(e, p, j, depth)
  }

  lemma NetLast(e: string, q: int, i: int)
    requires 0 <= q <= i < |e|
    ensures NetIn(e, q, i + 1) == NetIn(e, q, i) + Delta(e[i])
  {
    assert e[q..i + 1] == e[q..i] + [e[i]];
    NetAppend(e[q..i], [e[i]]);
    assert Net([e[i]]) == Delta(e[i]) + Net([]);
  }

  lemma {:induction false} MatchFromCloses(e: string, i: int, depth: int, p: int)
    requires -1 <= i < |e| && depth >= 1
    ensures MatchFrom(e, i, depth) == Some(p) <==> ClosesAt(e, i + 1, depth, p)
    decreases i + 1
  {
    if i >= 0 {
      var d := depth + Delta(e[i]);
      NetLast(e, i, i);
      if d == 0 {
        if p < i {
          assert !(depth + NetIn(e, i, i + 1) > 0);
        }
      } else {
        MatchFromCloses(e, i - 1, d, p);
        forall q | 0 <= q <= i - 1 {
          NetLast(e, q, i);
        }
        if p == i {
          assert !ClosesAt(e, i + 1, depth, p);
        } else if ClosesAt(e, i, d, p) {
          var j := i + 1;
          forall q | p < q < j
            ensures depth + NetIn(e, q, j) > 0
          {
            if q < i {
              assert d + NetIn(e, q, i) > 0;
            }
          }
          assert ClosesAt(e, i + 1, depth, p);
        }
      }
    }
  }

  lemma {:induction false} MatchFromNone(e: string, i: int, depth: int)
    requires -1 <= i < |e| && depth >= 1
    ensures MatchFrom(e, i, depth) == None <==> PositiveFrom(e, -1, i + 1, depth)
    decreases i + 1
  {
    if i >= 0 {
      var d := depth + Delta(e[i]);
      NetLast(e, i, i);
      if d != 0 {
        MatchFromNone(e, i - 1, d);
        forall q | 0 <= q <= i - 1 {
          NetLast(e, q, i);
        }
        if PositiveFrom(e, -1, i, d) {
          var j := i + 1;
          forall q | -1 < q < j
            ensures depth + NetIn(e, q, j) > 0
          {
            if q < i {
              assert d + NetIn(e, q, i) > 0;
            }
          }
        }
      } else {
        assert !(depth + NetIn(e, i, i + 1) > 0);
      }
    }
  }

  /** The matching '(' of the final ')': the slice from it up to the final
      ')' has one more '(' than ')', and every shorter such slice has at
      least as many ')' as '('. */
  lemma MatchingOpenSpec(e: string, p: nat)
    ensures MatchingOpen(e) == Some(p) <==>
      |e| > 0 && e[|e| - 1] == ')' && p < |e| - 1 && NetIn(e, p, |e| - 1) == -1 &&
      PositiveFrom(e, p, |e| - 1, 1)
  {
    if |e| > 0 && e[|e| - 1] == ')' {
      MatchFromCloses(e, |e| - 2, 1, p);
    }
  }

  /** No '(' matches the final ')' exactly when every slice ending before
      it has at least as many ')' as '('. */
  lemma MatchingOpenNone(e: string)
    requires |e| > 0 && e[|e| - 1] == ')'
    ensures MatchingOpen(e) == None <==> PositiveFrom(e, -1, |e| - 1, 1)
  {
    MatchFromNone(e, |e| - 2, 1);
  }

  /** `find_matching_parenthesis_index_rev`, with the panics as `None`. */
  method FindMatchingParenthesisIndexRev(expression: string) returns (r: Option<nat>)
    ensures r == MatchingOpen(expression)
  {
    if !(|expression| > 0 && expression[|expression| - 1] == ')') {
      return None;
    }
    var depth := 1;
    var i := 0;
    while i < |expression| - 1
      invariant 0 <= i <= |expression| - 1
      invariant MatchFrom(expression, |expression| - 2 - i, depth) == MatchingOpen(expression)
    {
      var c := expression[|expression| - 2 - i];
      depth := depth + Delta(c);
      if depth == 0 {
        return Some(|expression| - 2 - i);
      }
      i := i + 1;
    }
    return None;
  }

  // ---------------------------------------------------------------------
  // solve_expression

  /** Where the final run of digits starts; |e| when e does not end with a
      digit. */
  function DigitsStart(e: string): (j: nat)
    ensures j <= |e| && AllDigits(e[j..]) && (j > 0 ==> !IsDigit(e[j - 1]))
  {
    if e != [] && IsDigit(e[|e| - 1]) then
      var j := DigitsStart(e[..|e| - 1]);
      assert e[j..] == e[..|e| - 1][j..] + [e[|e| - 1]];
      j
    else |e|
  }

  /** Where the run of whitespace ending at index j starts. */
  function SpaceStart(e: string, j: nat): (k: nat)
    requires j <= |e|
    ensures k <= j && (forall i :: k <= i < j ==> IsWhitespace(e[i])) && (k > 0 ==> !IsWhitespace(e[k - 1]))
  {
    if j > 0 && IsWhitespace(e[j - 1]) then SpaceStart(e, j - 1) else j
  }

  /** Where the line holding index k - 1 starts (`.` does not match a
      newline). */
  function LineStart(e: string, k: nat): (s: nat)
    requires k <= |e|
    ensures s <= k && (forall i :: s <= i < k ==> e[i] != '\n') && (s > 0 ==> e[s - 1] == '\n')
  {
    if k > 0 && e[k - 1] != '\n' then LineStart(e, k - 1) else k
  }

  /** The first line break in e[i..hi], or hi when there is none. */
  function LineEnd(e: string, i: nat, hi: nat): (m: nat)
    requires i <= hi <= |e|
    ensures i <= m <= hi && (forall t :: i <= t < m ==> e[t] != '\n') && (m < hi ==> e[m] == '\n')
    decreases hi - i
  {
    if i < hi && e[i] != '\n' then LineEnd(e, i + 1, hi) else i
  }

  /** The named captures of a match of
      `((?P<rest>.*)\s*(?P<op>[+*])\s*)?(?P<value>\d+)$`. */
  datatype Captures = Captures(group: Option<(string, char)>, value: string)

  /** The leftmost match of the pattern. The value is the final run of
      digits. When whitespace and an operator come before it, the operator
      sits just before that whitespace, and the `\s*` in front of the
      operator may run over line breaks while `.*` may not: the match
      starts at the start of the line holding the last non-whitespace
      character before the operator, and the greedy rest runs from there
      to the first line break of the whitespace, or to the operator when
      there is none. `None` where the text does not end with a digit (the
      `unwrap` panics). */
  function RevCaptures(e: string): (r: Option<Captures>)
    ensures r.Some? ==> r.value.value != [] && AllDigits(r.value.value)
    ensures r.Some? ==> |r.value.value| <= |e| && r.value.value == e[|e| - |r.value.value|..]
    ensures r.Some? && r.value.group.Some? ==> |r.value.group.value.0| < |e|
  {
    var j := DigitsStart(e);
    if j == |e| then None
    else
      var k := SpaceStart(e, j);
      if k > 0 && (e[k - 1] == '+' || e[k - 1] == '*') then
        var w := SpaceStart(e, k - 1);
        Some(Captures(Some((e[LineStart(e, w)..LineEnd(e, w, k - 1)], e[k - 1])), e[j..]))
      else Some(Captures(None, e[j..]))
  }

  /** What a match with an operator covers: from the start s of a line,
      the rest (no line break), whitespace, the operator at k, whitespace
      and the digits of the value run to the end of the text. */
  lemma RevCapturesShape(e: string) returns (s: nat, k: nat, j: nat)
    requires RevCaptures(e).Some? && RevCaptures(e).value.group.Some?
    ensures var c := RevCaptures(e).value;
      var op := c.group.value.1;
      (op == '+' || op == '*') && j == |e| - |c.value| && k < j && e[k] == op && e[j..] == c.value
    ensures var rest := RevCaptures(e).value.group.value.0;
      s + |rest| <= k && e[s..s + |rest|] == rest && (forall i :: 0 <= i < |rest| ==> rest[i] != '\n')
    ensures var rest := RevCaptures(e).value.group.value.0;
      (forall i :: s + |rest| <= i < k ==> IsWhitespace(e[i])) && (forall i :: k < i < j ==> IsWhitespace(e[i]))
    ensures s > 0 ==> e[s - 1] == '\n'
  {
    j := DigitsStart(e);
    var k1 := SpaceStart(e, j);
    k := k1 - 1;
    var w := SpaceStart(e, k);
    s := LineStart(e, w);
    var m := LineEnd(e, w, k);
    var rest := e[s..m];
    var c := RevCaptures(e).value;
    assert c == Captures(Some((rest, e[k])), e[j..]);
    forall i | 0 <= i < |rest|
      ensures rest[i] != '\n'
    {
      assert rest[i] == e[s + i];
    }
  }

  /** Without an operator, a match is the final run of digits alone. */
  lemma RevCapturesValue(e: string)
    requires RevCaptures(e).Some? && RevCaptures(e).value.group.None?
    ensures var v := RevCaptures(e).value.value;
      |v| <= |e| && e == e[..|e| - |v|] + v &&
      (|v| < |e| ==> !IsDigit(e[|e| - |v| - 1]))
  {
    var j := DigitsStart(e);
    assert e == e[..j] + e[j..];
  }

  /** A match of the pattern's operator form starting at s: the rest
      e[s..m] (no line break), whitespace up to the operator at k,
      whitespace up to v, and digits from v to the end. */
  predicate OpMatch(e: string, s: nat, m: nat, k: nat, v: nat) {
    s <= m <= k < v < |e| && (forall i :: s <= i < m ==> e[i] != '\n')
    && (forall i :: m <= i < k ==> IsWhitespace(e[i])) && (e[k] == '+' || e[k] == '*')
    && (forall i :: k < i < v ==> IsWhitespace(e[i])) && AllDigits(e[v..])
  }

  /** A match of the pattern without its optional group starting at s. */
  predicate PlainMatch(e: string, s: nat) {
    s < |e| && AllDigits(e[s..])
  }

  /** Neither a digit nor an operator is whitespace. */
  lemma NotSpace(c: char)
    requires IsDigit(c) || c == '+' || c == '*'
    ensures !IsWhitespace(c)
  {
  }

  /** Every operator match ends with the final run of digits, with the
      operator just before its whitespace. */
  lemma OpMatchTail(e: string, s: nat, m: nat, k: nat, v: nat)
    requires OpMatch(e, s, m, k, v)
    ensures v == DigitsStart(e) && k + 1 == SpaceStart(e, v)
  {
    var j := DigitsStart(e);
    if v > j {
      assert e[v - 1] == e[j..][v - 1 - j];
      NotSpace(e[v - 1]);
    }
    NotSpace(e[k]);
  }

  /** No match of the digits alone starts before the final run of digits. */
  lemma PlainBefore(e: string, s: nat)
    requires s < DigitsStart(e)
    ensures !PlainMatch(e, s)
  {
    var j := DigitsStart(e);
    assert e[s..][j - 1 - s] == e[j - 1];
  }

  /** A rest free of line breaks, followed by whitespace up to the
      operator at k, starts no earlier than the line that holds the last
      non-whitespace character before k. */
  lemma LineBeforeRest(e: string, s: nat, m: nat, k: nat)
    requires s <= m <= k < |e| && (forall i :: s <= i < m ==> e[i] != '\n')
    requires forall i :: m <= i < k ==> IsWhitespace(e[i])
    ensures LineStart(e, SpaceStart(e, k)) <= s
  {
  }

  /** From that line's start, a rest free of line breaks ends no later than
      the first line break before k. */
  lemma RestBeforeBreak(e: string, m: nat, k: nat)
    requires k < |e| && LineStart(e, SpaceStart(e, k)) <= m <= k
    requires forall i :: LineStart(e, SpaceStart(e, k)) <= i < m ==> e[i] != '\n'
    ensures m <= LineEnd(e, SpaceStart(e, k), k)
  {
  }

  /** With the operator at k just before the whitespace that precedes the
      final run of digits, the match from the start of the line holding the
      last non-whitespace character before k, with the rest running to the
      first line break before k, is the leftmost match and, at that start,
      has the longest rest. */
  lemma OpMatchLeftmost(e: string, k: nat)
    requires DigitsStart(e) < |e| && k + 1 == SpaceStart(e, DigitsStart(e))
    requires e[k] == '+' || e[k] == '*'
    ensures var s := LineStart(e, SpaceStart(e, k));
      OpMatch(e, s, LineEnd(e, SpaceStart(e, k), k), k, DigitsStart(e))
    ensures var s := LineStart(e, SpaceStart(e, k));
      forall s': nat, m': nat, k': nat, v': nat :: OpMatch(e, s', m', k', v') ==> s <= s' && k' == k && v' == DigitsStart(e)
    ensures var s := LineStart(e, SpaceStart(e, k));
      forall m': nat, k': nat, v': nat :: OpMatch(e, s, m', k', v') ==> m' <= LineEnd(e, SpaceStart(e, k), k)
    ensures forall s': nat :: s' < LineStart(e, SpaceStart(e, k)) ==> !PlainMatch(e, s')
  {
    var j := DigitsStart(e);
    var w := SpaceStart(e, k);
    var s := LineStart(e, w);
    forall s': nat, m': nat, k': nat, v': nat | OpMatch(e, s', m', k', v')
      ensures s <= s' && k' == k && v' == j
    {
      OpMatchTail(e, s', m', k', v');
      LineBeforeRest(e, s', m', k');
    }
    forall m': nat, k': nat, v': nat | OpMatch(e, s, m', k', v')
      ensures m' <= LineEnd(e, w, k)
    {
      OpMatchTail(e, s, m', k', v');
      RestBeforeBreak(e, m', k);
    }
    forall s': nat | s' < s
      ensures !PlainMatch(e, s')
    {
      PlainBefore(e, s');
    }
  }

  /** Where RevCaptures finds an operator, it reports the leftmost match
      and, at that start, the longest rest: no match of either form
      starts earlier, and every operator match starting there has a rest
      no longer than the reported one. */
  lemma RevCapturesLeftmost(e: string) returns (s: nat, m: nat, k: nat)
    requires RevCaptures(e).Some? && RevCaptures(e).value.group.Some?
    ensures OpMatch(e, s, m, k, DigitsStart(e)) && RevCaptures(e).value.group.value == (e[s..m], e[k])
    ensures forall s': nat, m': nat, k': nat, v': nat :: OpMatch(e, s', m', k', v') ==> s <= s' && k' == k && v' == DigitsStart(e)
    ensures forall m': nat, k': nat, v': nat :: OpMatch(e, s, m', k', v') ==> m' <= m
    ensures forall s': nat :: s' < s ==> !PlainMatch(e, s')
  {
    k := SpaceStart(e, DigitsStart(e)) - 1;
    s := LineStart(e, SpaceStart(e, k));
    m := LineEnd(e, SpaceStart(e, k), k);
    OpMatchLeftmost(e, k);
  }

  /** Where RevCaptures finds no operator, no operator match exists and
      the value is the leftmost match without the group. */
  lemma RevCapturesPlainLeftmost(e: string)
    requires RevCaptures(e).Some? && RevCaptures(e).value.group.None?
    ensures PlainMatch(e, DigitsStart(e)) && RevCaptures(e).value.value == e[DigitsStart(e)..]
    ensures forall s': nat, m': nat, k': nat, v': nat :: !OpMatch(e, s', m', k', v')
    ensures forall s': nat :: s' < DigitsStart(e) ==> !PlainMatch(e, s')
  {
    forall s': nat, m': nat, k': nat, v': nat | OpMatch(e, s', m', k', v')
      ensures false
    {
      OpMatchTail(e, s', m', k', v');
    }
    forall s': nat | s' < DigitsStart(e)
      ensures !PlainMatch(e, s')
    {
      PlainBefore(e, s');
    }
  }

  /** Where RevCaptures finds nothing, the pattern does not match. */
  lemma RevCapturesNoMatch(e: string)
    requires RevCaptures(e).None?
    ensures forall s': nat :: !PlainMatch(e, s')
    ensures forall s': nat, m': nat, k': nat, v': nat :: !OpMatch(e, s', m', k', v')
  {
    forall s': nat, m': nat, k': nat, v': nat | OpMatch(e, s', m', k', v')
      ensures false
    {
      OpMatchTail(e, s', m', k', v');
    }
  }

  /** The operator's whitespace may cross a line break: the rest is the
      line before it. */
  lemma RevCapturesLineBreak(e: string)
    requires e == "1\n+ 2"
    ensures RevCaptures(e) == Some(Captures(Some(("1", '+')), "2"))
  {
    assert DigitsStart(e) == 4;
    assert SpaceStart(e, 4) == 3;
    assert SpaceStart(e, 2) == 1;
    assert LineStart(e, 1) == 0;
    assert LineEnd(e, 1, 2) == 1;
    assert e[0..1] == "1" && e[4..] == "2";
  }

  /** A numeral alone evaluates to its number. */
  lemma Solve1Numeral(n: nat)
    ensures Trim(NatToString(n)) == NatToString(n) && Solve1(NatToString(n)) == Some(n)
  {
    NotSpace(NatToString(n)[0]);
    NotSpace(NatToString(n)[|NatToString(n)| - 1]);
    TrimNoop(NatToString(n));
    ParseNatToString(n);
  }

  /** An expression split over two lines before its operator evaluates. */
  lemma Solve1LineBreak(e: string)
    requires e == "1\n+ 2"
    ensures Solve1(e) == Some(3)
  {
    RevCapturesLineBreak(e);
    TrimNoop(e);
    ParseNatRejects(e, 1);
    Solve1Numeral(1);
    Solve1Numeral(2);
    assert NatToString(1) == "1" && NatToString(2) == "2";
    assert NumAfter(e, "1", "1", '+', "2");
    Solve1NumAfter(e, "1", "1", '+', "2");
  }

  /** Text holding no digit, so no number: the source panics on it. */
  predicate Digitless(s: string) {
    forall i :: 0 <= i < |s| ==> !IsDigit(s[i])
  }

  /** Trimming digitless text leaves no numeral. */
  lemma DigitlessTrim(s: string)
    ensures Digitless(s) ==> ParseNat(Trim(s)).None?
  {
  }

  /** The value of a op b, for the operator characters '+' and '*'. */
  function Combine(op: char, a: nat, b: nat): nat {
    if op == '+' then a + b else a * b
  }

  /** The value of x o v from the values of x and v. */
  function CombineOption(o: char, x: Option<nat>, v: Option<nat>): Option<nat> {
    match (x, v)
    case (Some(a), Some(b)) => Some(Combine(o, a, b))
    case _ => None
  }

  /** `solve_expression`, with every panic as `None`: a numeral is its
      value; a text ending with ')' applies the text before the matching
      '(' to the value of the group; any other text applies the text
      before its final operator to its final number. Both operators have
      the same precedence. */
  function Solve1(e: string): (r: Option<nat>)
    ensures Digitless(e) ==> r.None?
    decreases |e|, 2
  {
    DigitlessTrim(e);
    match ParseNat(Trim(e))
    case Some(t) => Some(t)
    case None =>
      if |e| > 0 && e[|e| - 1] == ')' then GroupLast(e) else NumberLast(e)
  }

  /** A text ending with a parenthesised group. */
  function GroupLast(e: string): (r: Option<nat>)
    requires |e| > 0 && e[|e| - 1] == ')'
    ensures Digitless(e) ==> r.None?
    decreases |e|, 1
  {
    match MatchingOpen(e)
    case None => None
    case Some(p) => ApplyAfter(Trim(e[..p]), Solve1(e[p + 1..|e| - 1]))
  }

  /** A text ending with a number, found by the pattern. */
  function NumberLast(e: string): (r: Option<nat>)
    ensures Digitless(e) ==> r.None?
    decreases |e|, 1
  {
    match RevCaptures(e)
    case None => None
    case Some(Captures(None, value)) => ParseNat(value)
    case Some(Captures(Some((rest, op)), value)) =>
      CombineOption(op, Solve1(Trim(rest)), ParseNat(value))
  }

  /** The value of the text `rest` followed by an operand whose value is
      `last`: `last` alone when nothing comes before it, otherwise what
      comes before the final operator of `rest` combined with `last`; a
      final character that is no operator panics. */
  function ApplyAfter(rest: string, last: Option<nat>): (r: Option<nat>)
    ensures last.None? ==> r.None?
    decreases |rest|, 0
  {
    if rest == [] then last
    else if rest[|rest| - 1] == '+' || rest[|rest| - 1] == '*' then
      CombineOption(rest[|rest| - 1], Solve1(Trim(rest[..|rest| - 1])), last)
    else None
  }

  /** The sum of f over the lines, `None` as soon as one of them fails. */
  function SumAll(lines: seq<string>, f: string -> Option<nat>): (r: Option<nat>)
    ensures r.Some? <==> forall i :: 0 <= i < |lines| ==> f(lines[i]).Some?
  {
    if lines == [] then Some(0)
    else
      var rest := lines[..|lines| - 1];
      assert forall i :: 0 <= i < |rest| ==> rest[i] == lines[i];
      CombineOption('+', SumAll(rest, f), f(lines[|lines| - 1]))
  }

  /** `day18_part1`: the sum of the values of all lines; `None` where a
      line panics. */
  function Part1(expressions: seq<string>): (r: Option<nat>)
    ensures r.Some? <==> forall i :: 0 <= i < |expressions| ==> Solve1(expressions[i]).Some?
  {
    SumAll(expressions, Solve1)
  }

  // ---------------------------------------------------------------------
  // The expressions of part 1 as a grammar: operands are numbers or
  // parenthesised chains, and a chain applies operators left to right.

  datatype Op = Add | Mul

  function OpChar(op: Op): char {
    if op == Add then '+' else '*'
  }

  datatype Operand = Num(n: nat) | Group(inner: Chain)
  datatype Chain = Single(first: Operand) | Apply(left: Chain, op: Op, right: Operand)

  /** The text of an operand, in the puzzle's layout. */
  function ShowOperand(a: Operand): string {
    match a
    case Num(n) => NatToString(n)
    case Group(c) => "(" + Show(c) + ")"
  }

  /** The text of a chain: operators with one space on each side. */
  function Show(c: Chain): string {
    match c
    case Single(a) => ShowOperand(a)
    case Apply(l, op, r) => Show(l) + " " + [OpChar(op)] + " " + ShowOperand(r)
  }

  function EvalOperand(a: Operand): nat {
    match a
    case Num(n) => n
    case Group(c) => Eval1(c)
  }

  /** The value of a chain with '+' and '*' at one precedence, applied
      from the left. */
  function Eval1(c: Chain): nat {
    match c
    case Single(a) => EvalOperand(a)
    case Apply(l, op, r) => Combine(OpChar(op), Eval1(l), EvalOperand(r))
  }

  /** Text whose '(' and ')' pair up: as many of each, and no tail with
      more '(' than ')'. */
  predicate Balanced(s: string) {
    Net(s) == 0 && forall m :: 0 <= m <= |s| ==> NetIn(s, m, |s|) >= 0
  }

  lemma {:induction false} NetPlain(s: string)
    requires forall i :: 0 <= i < |s| ==> s[i] != '(' && s[i] != ')'
    ensures Net(s) == 0
  {
    if s != [] {
      NetPlain(s[1..]);
    }
  }

  lemma BalancedPlain(s: string)
    requires forall i :: 0 <= i < |s| ==> s[i] != '(' && s[i] != ')'
    ensures Balanced(s)
  {
    forall m | 0 <= m <= |s|
      ensures NetIn(s, m, |s|) == 0
    {
      NetPlain(s[m..|s|]);
    }
    NetPlain(s);
  }

  lemma BalancedConcat(x: string, y: string)
    requires Balanced(x) && Balanced(y)
    ensures Balanced(x + y)
  {
    NetAppend(x, y);
    var z := x + y;
    forall m | 0 <= m <= |z|
      ensures NetIn(z, m, |z|) >= 0
    {
      if m <= |x| {
        assert z[m..|z|] == x[m..|x|] + y;
        assert NetIn(x, m, |x|) >= 0;
        NetAppend(x[m..|x|], y);
      } else {
        assert z[m..|z|] == y[m - |x|..|y|];
        assert NetIn(y, m - |x|, |y|) >= 0;
      }
    }
  }

  lemma BalancedWrap(x: string)
    requires Balanced(x)
    ensures Balanced("(" + x + ")")
  {
    var w := "(" + x + ")";
    assert Net(")") == 1 + Net([]);
    assert w[1..] == x + ")";
    NetAppend(x, ")");
    assert w[0..|w|] == w;
    forall m | 0 <= m <= |w|
      ensures NetIn(w, m, |w|) >= 0
    {
      if 0 < m < |w| {
        assert w[m..|w|] == x[m - 1..|x|] + ")";
        assert NetIn(x, m - 1, |x|) >= 0;
        NetAppend(x[m - 1..|x|], ")");
      } else if m == |w| {
        assert w[m..|w|] == [];
      }
    }
  }

  /** A '(' followed by balanced text and a final ')' matches that ')'. */
  lemma GroupMatch(a: string, b: string)
    requires Balanced(b)
    ensures MatchingOpen(a + "(" + b + ")") == Some(|a|)
  {
    var e := a + "(" + b + ")";
    var j := |e| - 1;
    MatchingOpenSpec(e, |a|);
    assert e[|a|..j] == "(" + b;
    assert Net("(" + b) == -1 + Net(b);
    forall q | |a| < q < j
      ensures 1 + NetIn(e, q, j) > 0
    {
      assert e[q..j] == b[q - |a| - 1..|b|];
      assert NetIn(b, q - |a| - 1, |b|) >= 0;
    }
  }

  /** Characters of the text of a chain. */
  predicate ShownChar(ch: char) {
    IsDigit(ch) || ch == ' ' || ch == '+' || ch == '*' || ch == '(' || ch == ')'
  }

  /** What the text of an operand or a chain is like: nonempty, balanced,
      made of digits, spaces, operators and parentheses, and starting and
      ending with a digit or a parenthesis. */
  predicate ChainText(s: string) {
    s != [] && Balanced(s) && (forall i :: 0 <= i < |s| ==> ShownChar(s[i])) &&
    (IsDigit(s[0]) || s[0] == '(') && (IsDigit(s[|s| - 1]) || s[|s| - 1] == ')')
  }

  lemma NumText(n: nat)
    ensures ChainText(NatToString(n))
  {
    BalancedPlain(NatToString(n));
  }

  lemma WrapText(x: string)
    requires ChainText(x)
    ensures ChainText("(" + x + ")")
  {
    BalancedWrap(x);
  }

  lemma JoinText(x: string, o: char, y: string)
    requires ChainText(x) && ChainText(y) && (o == '+' || o == '*')
    ensures ChainText(x + " " + [o] + " " + y)
  {
    var mid := " " + [o] + " ";
    BalancedPlain(mid);
    BalancedConcat(x, mid);
    BalancedConcat(x + mid, y);
    assert x + " " + [o] + " " + y == x + mid + y;
  }

  lemma {:induction false} ShowOperandText(a: Operand)
    ensures ChainText(ShowOperand(a))
    decreases a, 1
  {
    match a
    case Num(n) =>
      NumText(n);
    case Group(c) =>
      ShowText(c);
      WrapText(Show(c));
  }

  lemma {:induction false} ShowText(c: Chain)
    ensures ChainText(Show(c))
    decreases c, 0
  {
    match c
    case Single(a) =>
      ShowOperandText(a);
    case Apply(l, op, r) =>
      ShowText(l);
      ShowOperandText(r);
      JoinText(Show(l), OpChar(op), ShowOperand(r));
  }

  lemma DigitsStartAppend(a: string, ds: string)
    requires AllDigits(ds) && (a != [] ==> !IsDigit(a[|a| - 1]))
    ensures DigitsStart(a + ds) == |a|
    decreases |ds|
  {
    if ds != [] {
      assert (a + ds)[..|a + ds| - 1] == a + ds[..|ds| - 1];
      DigitsStartAppend(a, ds[..|ds| - 1]);
    } else {
      assert a + ds == a;
    }
  }

  lemma LineStartNoNewline(e: string, k: nat)
    requires k <= |e| && forall i :: 0 <= i < k ==> e[i] != '\n'
    ensures LineStart(e, k) == 0
  {
  }

  // One unfolding of `solve_expression` at a time.

  lemma Solve1Group1(e: string)
    requires ParseNat(Trim(e)) == None && |e| > 0 && e[|e| - 1] == ')'
    ensures Solve1(e) == GroupLast(e)
  {
  }

  lemma Solve1Number1(e: string)
    requires ParseNat(Trim(e)) == None && !(|e| > 0 && e[|e| - 1] == ')')
    ensures Solve1(e) == NumberLast(e)
  {
  }

  lemma GroupLast1(e: string, p: nat, r: string, inner: string)
    requires MatchingOpen(e) == Some(p) && e[p + 1..|e| - 1] == inner && Trim(e[..p]) == r
    ensures GroupLast(e) == ApplyAfter(r, Solve1(inner))
  {
  }

  lemma NumberLast1(e: string, r: string, x: string, o: char, v: string)
    requires RevCaptures(e) == Some(Captures(Some((r, o)), v)) && Trim(r) == x
    ensures NumberLast(e) == CombineOption(o, Solve1(x), ParseNat(v))
  {
  }

  lemma ApplyAfterOp(r: string, x: string, o: char, v: Option<nat>)
    requires r != [] && r[|r| - 1] == o && (o == '+' || o == '*') && Trim(r[..|r| - 1]) == x
    ensures ApplyAfter(r, v) == CombineOption(o, Solve1(x), v)
  {
  }

  /** The three ways `solve_expression` proceeds on text that is not a
      numeral: a final group alone, a final group after an operator, and a
      final number after an operator. */
  lemma Solve1GroupAlone(e: string, p: nat, inner: string)
    requires ParseNat(Trim(e)) == None && MatchingOpen(e) == Some(p) && e[p + 1..|e| - 1] == inner
    requires Trim(e[..p]) == []
    ensures Solve1(e) == Solve1(inner)
  {
    Solve1Group1(e);
    GroupLast1(e, p, [], inner);
  }

  predicate GroupAfter(e: string, p: nat, r: string, x: string, o: char, inner: string) {
    ParseNat(Trim(e)) == None && MatchingOpen(e) == Some(p) && e[p + 1..|e| - 1] == inner &&
    p <= |e| && Trim(e[..p]) == r && r != [] && r[|r| - 1] == o && (o == '+' || o == '*') &&
    Trim(r[..|r| - 1]) == x
  }

  lemma Solve1GroupAfter(e: string, p: nat, r: string, x: string, o: char, inner: string)
    requires GroupAfter(e, p, r, x, o, inner)
    ensures Solve1(e) == CombineOption(o, Solve1(x), Solve1(inner))
  {
    Solve1Group1(e);
    GroupLast1(e, p, r, inner);
    ApplyAfterOp(r, x, o, Solve1(inner));
  }

  predicate NumAfter(e: string, r: string, x: string, o: char, v: string) {
    ParseNat(Trim(e)) == None && e != [] && e[|e| - 1] != ')' &&
    RevCaptures(e) == Some(Captures(Some((r, o)), v)) && Trim(r) == x
  }

  lemma Solve1NumAfter(e: string, r: string, x: string, o: char, v: string)
    requires NumAfter(e, r, x, o, v)
    ensures Solve1(e) == CombineOption(o, Solve1(x), ParseNat(v))
  {
    Solve1Number1(e);
    NumberLast1(e, r, x, o, v);
  }

  /** Text that starts and ends with no whitespace and holds no newline,
      as the text of a chain does. */
  predicate Solid(x: string) {
    x != [] && !IsWhitespace(x[0]) && !IsWhitespace(x[|x| - 1]) &&
    forall i :: 0 <= i < |x| ==> x[i] != '\n'
  }

  lemma ChainSolid(x: string)
    requires ChainText(x)
    ensures Solid(x)
  {
  }

  /** Text with an inner space is no numeral. */
  lemma SpacedNotNumeral(x: string, t: string)
    requires Solid(x) && t != [] && t[0] == ' ' && !IsWhitespace(t[|t| - 1])
    ensures ParseNat(Trim(x + t)) == None
  {
    TrimNoop(x + t);
    ParseNatRejects(x + t, |x|);
  }

  /** The captures read off the three scans of the text. */
  lemma RevCapturesFrom(s: string, a: nat, j: nat)
    requires j < |s| && DigitsStart(s) == j && 0 < a <= j && SpaceStart(s, j) == a
    requires (s[a - 1] == '+' || s[a - 1] == '*')
    requires LineStart(s, SpaceStart(s, a - 1)) == 0 && LineEnd(s, SpaceStart(s, a - 1), a - 1) == a - 1
    ensures RevCaptures(s) == Some(Captures(Some((s[..a - 1], s[a - 1])), s[j..]))
  {
    assert s[0..a - 1] == s[..a - 1];
  }

  /** The three scans over a solid text, an operator and a number. */
  lemma TailDigits(x: string, o: char, ds: string)
    requires Solid(x) && (o == '+' || o == '*') && AllDigits(ds)
    ensures DigitsStart(x + " " + [o] + " " + ds) == |x| + 3
  {
    DigitsStartAppend(x + " " + [o] + " ", ds);
  }

  lemma TailSpace(x: string, o: char, ds: string)
    requires Solid(x) && (o == '+' || o == '*')
    ensures SpaceStart(x + " " + [o] + " " + ds, |x| + 3) == |x| + 2
  {
    var s := x + " " + [o] + " " + ds;
    assert s[|x| + 2] == ' ' && s[|x| + 1] == o;
  }

  lemma TailLine(x: string, o: char, ds: string)
    requires Solid(x) && (o == '+' || o == '*')
    ensures var s := x + " " + [o] + " " + ds;
      SpaceStart(s, |x| + 1) == |x| && LineStart(s, |x|) == 0 && LineEnd(s, |x|, |x| + 1) == |x| + 1
  {
    var s := x + " " + [o] + " " + ds;
    forall i | 0 <= i < |x|
      ensures s[i] != '\n'
    {
      assert s[i] == x[i];
    }
    assert s[|x|] == ' ' && s[|x| - 1] == x[|x| - 1];
    LineStartNoNewline(s, |x|);
  }

  /** The captures of a solid text, an operator and a number. */
  lemma RevCapturesTail(x: string, o: char, ds: string)
    requires Solid(x) && (o == '+' || o == '*') && ds != [] && AllDigits(ds)
    ensures RevCaptures(x + " " + [o] + " " + ds) == Some(Captures(Some((x + Indent(1), o)), ds))
  {
    var s := x + " " + [o] + " " + ds;
    TailDigits(x, o, ds);
    TailSpace(x, o, ds);
    TailLine(x, o, ds);
    assert s[|x| + 1] == o;
    RevCapturesFrom(s, |x| + 2, |x| + 3);
    assert s[..|x| + 1] == x + Indent(1) by {
      assert Indent(1) == " ";
    }
    assert s[|x| + 3..] == ds;
  }

  /** A chain text followed by an operator and a number: the number is
      applied last. */
  lemma Solve1NumTail(x: string, o: char, n: nat)
    requires Solid(x) && (o == '+' || o == '*')
    ensures Solve1(x + " " + [o] + " " + NatToString(n)) == CombineOption(o, Solve1(x), Some(n))
  {
    var ds := NatToString(n);
    NumTailShape(x, o, ds);
    Solve1NumAfter(x + " " + [o] + " " + ds, x + Indent(1), x, o, ds);
    ParseNatToString(n);
  }

  /** How `solve_expression` reads a solid text, an operator and digits. */
  lemma NumTailShape(x: string, o: char, ds: string)
    requires Solid(x) && (o == '+' || o == '*') && ds != [] && AllDigits(ds)
    ensures NumAfter(x + " " + [o] + " " + ds, x + Indent(1), x, o, ds)
  {
    var s := x + " " + [o] + " " + ds;
    TailNotNumeral(x, o, ds);
    assert s[|s| - 1] == ds[|ds| - 1];
    RevCapturesTail(x, o, ds);
    TrimPadded(x, 1);
  }

  lemma TailNotNumeral(x: string, o: char, ds: string)
    requires Solid(x) && (o == '+' || o == '*') && ds != [] && AllDigits(ds)
    ensures ParseNat(Trim(x + " " + [o] + " " + ds)) == None
  {
    var t := " " + [o] + " " + ds;
    assert x + " " + [o] + " " + ds == x + t;
    assert !IsWhitespace(t[|t| - 1]) by {
      assert t[|t| - 1] == ds[|ds| - 1];
    }
    SpacedNotNumeral(x, t);
  }

  /** A text, an operator and a parenthesised text, spaced as in the
      puzzle. */
  function GroupTailText(x: string, o: char, y: string): string {
    x + " " + [o] + " " + ("(" + y + ")")
  }

  // How `solve_expression` splits a solid text, an operator and a
  // parenthesised balanced text, one fact at a time.

  lemma GroupTailNotNumeral(x: string, o: char, y: string)
    requires Solid(x)
    ensures ParseNat(Trim(GroupTailText(x, o, y))) == None
  {
    assert GroupTailText(x, o, y) == x + (" " + [o] + " " + ("(" + y + ")"));
    SpacedNotNumeral(x, " " + [o] + " " + ("(" + y + ")"));
  }

  lemma GroupTailMatch(x: string, o: char, y: string)
    requires Balanced(y)
    ensures MatchingOpen(GroupTailText(x, o, y)) == Some(|x| + 3)
  {
    GroupMatch(x + " " + [o] + " ", y);
    assert x + " " + [o] + " " + "(" + y + ")" == GroupTailText(x, o, y);
  }

  lemma GroupTailInner(x: string, o: char, y: string)
    ensures var s := GroupTailText(x, o, y); s[|x| + 3 + 1..|s| - 1] == y
  {
    assert GroupTailText(x, o, y) == (x + " " + [o] + " (") + y + ")";
  }

  lemma GroupTailRest(x: string, o: char, y: string)
    requires Solid(x) && (o == '+' || o == '*')
    ensures Trim(GroupTailText(x, o, y)[..|x| + 3]) == x + " " + [o]
  {
    assert GroupTailText(x, o, y)[..|x| + 3] == (x + " " + [o]) + Indent(1);
    TrimPadded(x + " " + [o], 1);
  }

  lemma OpTrim(x: string, o: char)
    requires Solid(x)
    ensures var r := x + " " + [o]; Trim(r[..|r| - 1]) == x
  {
    assert (x + " " + [o])[..|x| + 1] == x + Indent(1);
    TrimPadded(x, 1);
  }

  lemma GroupTailFacts(x: string, o: char, y: string)
    requires Solid(x) && Balanced(y) && (o == '+' || o == '*')
    ensures GroupAfter(GroupTailText(x, o, y), |x| + 3, x + " " + [o], x, o, y)
  {
    GroupTailNotNumeral(x, o, y);
    GroupTailMatch(x, o, y);
    GroupTailInner(x, o, y);
    GroupTailRest(x, o, y);
    OpTrim(x, o);
  }

  /** A chain text followed by an operator and a parenthesised balanced
      text: the group is applied last. */
  lemma Solve1GroupTail(x: string, o: char, y: string)
    requires Solid(x) && Balanced(y) && (o == '+' || o == '*')
    ensures Solve1(GroupTailText(x, o, y)) == CombineOption(o, Solve1(x), Solve1(y))
  {
    GroupTailFacts(x, o, y);
    Solve1GroupAfter(GroupTailText(x, o, y), |x| + 3, x + " " + [o], x, o, y);
  }

  /** A parenthesised chain text has the value of its inside. */
  lemma Solve1Group(y: string)
    requires ChainText(y)
    ensures Solve1("(" + y + ")") == Solve1(y)
  {
    var s := "(" + y + ")";
    WrapText(y);
    TrimNoop(s);
    GroupMatch([], y);
    assert [] + "(" + y + ")" == s;
    assert s[1..|s| - 1] == y;
    assert s[..0] == [];
    Solve1GroupAlone(s, 0, y);
  }

  /** `solve_expression` gives the value a chain has when its operators
      apply left to right at one precedence. */
  lemma {:induction false} Solve1Show(c: Chain)
    ensures Solve1(Show(c)) == Some(Eval1(c))
    decreases c, 0
  {
    match c
    case Single(a) =>
      Solve1ShowOperand(a);
    case Apply(l, op, r) =>
      ShowText(l);
      Solve1Show(l);
      match r
      case Num(n) =>
        ChainSolid(Show(l));
        Solve1NumTail(Show(l), OpChar(op), n);
      case Group(g) =>
        ShowText(g);
        Solve1Show(g);
        ChainSolid(Show(l));
        Solve1GroupTail(Show(l), OpChar(op), Show(g));
        assert Show(c) == GroupTailText(Show(l), OpChar(op), Show(g));
  }

  lemma {:induction false} Solve1ShowOperand(a: Operand)
    ensures Solve1(ShowOperand(a)) == Some(EvalOperand(a))
    decreases a, 1
  {
    match a
    case Num(n) =>
      TrimNoop(NatToString(n));
      ParseNatToString(n);
    case Group(g) =>
      ShowText(g);
      Solve1Show(g);
      Solve1Group(Show(g));
  }

  // ---------------------------------------------------------------------
  // find_atomic_parenthesis

  /** The characters of the class `[\d*+\s]`. */
  predicate AtomicChar(c: char) {
    IsDigit(c) || c == '*' || c == '+' || IsWhitespace(c)
  }

  /** A match of `\([\d*+\s]+\)` covering e[s..t]: a group with no
      parenthesis inside. */
  predicate IsAtomic(e: string, s: int, t: int) {
    0 <= s && s + 2 < t <= |e| && e[s] == '(' && e[t - 1] == ')' &&
    forall k :: s < k < t - 1 ==> AtomicChar(e[k])
  }

  /** The end of the run of class characters starting at j. */
  function RunEnd(e: string, j: nat): (k: nat)
    requires j <= |e|
    ensures j <= k <= |e| && (k < |e| ==> !AtomicChar(e[k]))
    ensures forall i :: j <= i < k ==> AtomicChar(e[i])
    decreases |e| - j
  {
    if j < |e| && AtomicChar(e[j]) then RunEnd(e, j + 1) else j
  }

  /** The end of the match that starts at s, if one does. */
  function AtomicAt(e: string, s: nat): (r: Option<nat>)
    requires s < |e|
    ensures r.Some? ==> IsAtomic(e, s, r.value)
    ensures forall t :: IsAtomic(e, s, t) ==> r == Some(t)
  {
    if e[s] != '(' then None
    else
      var k := RunEnd(e, s + 1);
      if s + 1 < k < |e| && e[k] == ')' then Some(k + 1) else None
  }

  /** The leftmost match starting at s or later. */
  function FindAtomicFrom(e: string, s: nat): (r: Option<(nat, nat)>)
    requires s <= |e|
    ensures r.Some? ==> s <= r.value.0 && IsAtomic(e, r.value.0, r.value.1)
    ensures r.Some? ==> forall q, t :: s <= q < r.value.0 ==> !IsAtomic(e, q, t)
    ensures r.None? ==> forall q, t :: s <= q ==> !IsAtomic(e, q, t)
    decreases |e| - s
  {
    if s == |e| then None
    else match AtomicAt(e, s)
      case Some(t) => Some((s, t))
      case None => FindAtomicFrom(e, s + 1)
  }

  /** `find_atomic_parenthesis`: the span of the leftmost parenthesised
      group with no parenthesis inside it. */
  function FindAtomic(e: string): (r: Option<(nat, nat)>)
    ensures r.Some? ==> IsAtomic(e, r.value.0, r.value.1)
    ensures r.Some? ==> forall q, t :: 0 <= q < r.value.0 ==> !IsAtomic(e, q, t)
    ensures r.None? ==> forall q, t :: !IsAtomic(e, q, t)
  {
    FindAtomicFrom(e, 0)
  }

  // ---------------------------------------------------------------------
  // solve_expression_2: the flat evaluation after the groups are gone

  /** One '+' term: `trim().parse().unwrap()`. */
  function TermValue(t: string): Option<nat> {
    ParseNat(Trim(t))
  }

  /** The sum of some parsed values; `None` where one failed. */
  function SumOptions(vs: seq<Option<nat>>): (r: Option<nat>)
  {
    if vs == [] then Some(0)
    else if vs[0].Some? && SumOptions(vs[1..]).Some? then Some(vs[0].value + SumOptions(vs[1..]).value)
    else None
  }

  function TermValues(ts: seq<string>): (r: seq<Option<nat>>)
    ensures |r| == |ts|
  {
    seq(|ts|, k requires 0 <= k < |ts| => TermValue(ts[k]))
  }

  /** The sum of the '+' terms; `None` where a term does not parse. */
  function SumTerms(ts: seq<string>): Option<nat> {
    SumOptions(TermValues(ts))
  }

  /** One '*' factor: a numeral by itself, else the sum of its '+' terms. */
  function FactorValue(a: string): Option<nat> {
    match ParseNat(Trim(a))
    case Some(t) => Some(t)
    case None => SumTerms(Split(a, '+'))
  }

  /** The product of the '*' factors; `None` where one fails. */
  function ProductFactors(fs: seq<string>): (r: Option<nat>)
  {
    if fs == [] then Some(1)
    else
      var a, b := FactorValue(fs[0]), ProductFactors(fs[1..]);
      if a.Some? && b.Some? then Some(Times(a.value, b.value)) else None
  }

  function Times(a: nat, b: nat): nat {
    a * b
  }

  /** The value of text without parentheses: split on '*', then on '+'. */
  function EvalFlat(e: string): (r: Option<nat>)
    ensures Digitless(e) ==> r.None?
  {
    DigitlessSplit(e, '*');
    DigitlessFactor(Split(e, '*')[0]);
    ProductFactors(Split(e, '*'))
  }

  /** The first piece of digitless text is digitless. */
  lemma DigitlessSplit(s: string, c: char)
    ensures Digitless(s) ==> Digitless(Split(s, c)[0])
  {
    SplitFromChars(s, c, []);
    assert [] + s == s;
  }

  /** A digitless factor has no value. */
  lemma DigitlessFactor(a: string)
    ensures Digitless(a) ==> FactorValue(a).None?
  {
    DigitlessTrim(a);
    DigitlessSplit(a, '+');
    DigitlessTrim(Split(a, '+')[0]);
  }

  // ---------------------------------------------------------------------
  // solve_expression_2: replacing groups by their values

  /** The number of '(' in s; each replacement removes one. */
  function Opens(s: string): nat {
    if s == [] then 0 else Opens(s[..|s| - 1]) + (if s[|s| - 1] == '(' then 1 else 0)
  }

  lemma {:induction false} OpensConcat(a: string, b: string)
    ensures Opens(a + b) == Opens(a) + Opens(b)
    decreases |b|
  {
    if b == [] {
      assert a + b == a;
    } else {
      assert (a + b)[..|a + b| - 1] == a + b[..|b| - 1];
      OpensConcat(a, b[..|b| - 1]);
    }
  }

  lemma {:induction false} OpensNone(s: string)
    requires forall i :: 0 <= i < |s| ==> s[i] != '('
    ensures Opens(s) == 0
  {
    if s != [] {
      OpensNone(s[..|s| - 1]);
    }
  }

  /** The text of a match has no '(' inside it, and the text around it
      holds one '(' fewer than the whole. */
  lemma AtomicOpens(e: string, s: nat, t: nat)
    requires IsAtomic(e, s, t)
    ensures Opens(e[s + 1..t - 1]) == 0
    ensures Opens(e[..s]) + Opens(e[t..]) < Opens(e)
  {
    var inner := e[s + 1..t - 1];
    assert forall i :: 0 <= i < |inner| ==> inner[i] == e[s + 1 + i];
    OpensNone(inner);
    var a, m, b := e[..s], e[s..t], e[t..];
    assert e == a + (m + b);
    OpensConcat(a, m + b);
    OpensConcat(m, b);
    assert m == [e[s]] + m[1..];
    OpensConcat([e[s]], m[1..]);
    assert Opens([e[s]]) == 1;
  }

  /** Putting a numeral in the place of a match leaves one '(' fewer. */
  lemma ReplaceOpens(e: string, s: nat, t: nat, v: nat)
    requires IsAtomic(e, s, t)
    ensures Opens(e[..s] + NatToString(v) + e[t..]) < Opens(e)
  {
    AtomicOpens(e, s, t);
    var d := NatToString(v);
    OpensNone(d);
    OpensConcat(e[..s] + d, e[t..]);
    OpensConcat(e[..s], d);
  }

  /** `solve_expression_2` as a function: while a group without inner
      parentheses is left, the leftmost one is evaluated and its text is
      replaced by the value's decimal text; the flat rest is evaluated
      last. `None` where the source panics. */
  function Solve2(e: string): (r: Option<nat>)
    ensures Digitless(e) ==> r.None?
    decreases Opens(e), 1
  {
    match FindAtomic(e)
    case None => EvalFlat(e)
    case Some(span) => ReplaceGroup(e, span.0, span.1)
  }

  /** The step for the match e[s..t]: its inside is solved on its own and
      its text replaced by the value. */
  function ReplaceGroup(e: string, s: nat, t: nat): (r: Option<nat>)
    requires IsAtomic(e, s, t)
    ensures Digitless(e) ==> r.None?
    decreases Opens(e), 0
  {
    AtomicOpens(e, s, t);
    match Solve2(e[s + 1..t - 1])
    case None => None
    case Some(v) =>
      ReplaceOpens(e, s, t, v);
      Solve2(e[..s] + NatToString(v) + e[t..])
  }

  /** A group whose inside fails makes the whole expression fail. */
  lemma Solve2Fails(e: string, s: nat, t: nat)
    requires FindAtomic(e) == Some((s, t)) && s + 1 <= t - 1 <= |e|
    requires Solve2(e[s + 1..t - 1]) == None
    ensures Solve2(e) == None
  {
  }

  /** Otherwise the expression has the value of the text with the group
      replaced by the decimal text of its value. */
  lemma Solve2Replaces(e: string, s: nat, t: nat, v: nat)
    requires FindAtomic(e) == Some((s, t)) && s + 1 <= t - 1 <= |e|
    requires Solve2(e[s + 1..t - 1]) == Some(v)
    ensures Solve2(e) == Solve2(e[..s] + NatToString(v) + e[t..])
  {
  }

  /** `solve_expression_2`: rewrites its own copy of the text one group at
      a time, recursing into the group's inside. */
  method SolveExpression2(expression: string) returns (r: Option<nat>)
    ensures r == Solve2(expression)
    decreases Opens(expression)
  {
    var e := expression;
    var pos := FindAtomic(e);
    while pos.Some?
      invariant pos == FindAtomic(e)
      invariant Opens(e) <= Opens(expression)
      invariant Solve2(e) == Solve2(expression)
      decreases Opens(e)
    {
      var (s, t) := pos.value;
      AtomicOpens(e, s, t);
      var inner := SolveExpression2(e[s + 1..t - 1]);
      if inner.None? {
        Solve2Fails(e, s, t);
        return None;
      }
      Solve2Replaces(e, s, t, inner.value);
      ReplaceOpens(e, s, t, inner.value);
      e := e[..s] + NatToString(inner.value) + e[t..];
      pos := FindAtomic(e);
    }
    r := EvalFlat(e);
  }

  /** `day18_part2`: the sum of the part-2 values of all lines. */
  function Part2(expressions: seq<string>): (r: Option<nat>)
    ensures r.Some? <==> forall i :: 0 <= i < |expressions| ==> Solve2(expressions[i]).Some?
  {
    SumAll(expressions, Solve2)
  }

  // ---------------------------------------------------------------------
  // Part 2 on text without parentheses: '+' binds tighter than '*'.

  /** A numeral with `before` spaces in front and `after` spaces behind. */
  datatype Term = Term(before: nat, n: nat, after: nat)

  function TermText(t: Term): string {
    Indent(t.before) + NatToString(t.n) + Indent(t.after)
  }

  function TermTexts(f: seq<Term>): (r: seq<string>)
    ensures |r| == |f| && forall k :: 0 <= k < |f| ==> r[k] == TermText(f[k])
  {
    if f == [] then [] else [TermText(f[0])] + TermTexts(f[1..])
  }

  /** A sum: terms joined by '+'. */
  function FactorText(f: seq<Term>): string
    requires f != []
  {
    Join(TermTexts(f), '+')
  }

  predicate AllFactors(p: seq<seq<Term>>) {
    forall k :: 0 <= k < |p| ==> p[k] != []
  }

  function FactorTexts(p: seq<seq<Term>>): (r: seq<string>)
    requires AllFactors(p)
    ensures |r| == |p| && forall k :: 0 <= k < |p| ==> r[k] == FactorText(p[k])
  {
    if p == [] then [] else [FactorText(p[0])] + FactorTexts(p[1..])
  }

  /** A product of sums: factors joined by '*'. */
  function FlatText(p: seq<seq<Term>>): string
    requires p != [] && AllFactors(p)
  {
    Join(FactorTexts(p), '*')
  }

  function SumOf(f: seq<Term>): nat {
    if f == [] then 0 else f[0].n + SumOf(f[1..])
  }

  /** The value with '+' binding tighter: the product of the sums. */
  function ProductOf(p: seq<seq<Term>>): nat {
    if p == [] then 1 else Times(SumOf(p[0]), ProductOf(p[1..]))
  }

  /** Characters that a sum's text is made of. */
  predicate SumChar(c: char) {
    IsDigit(c) || c == ' ' || c == '+'
  }

  lemma TermTextChars(t: Term)
    ensures forall i :: 0 <= i < |TermText(t)| ==> IsDigit(TermText(t)[i]) || TermText(t)[i] == ' '
  {
    var d := NatToString(t.n);
    assert forall i :: 0 <= i < |d| ==> IsDigit(d[i]);
  }

  lemma {:induction false} JoinSumChars(ts: seq<string>)
    requires ts != []
    requires forall k, i :: 0 <= k < |ts| && 0 <= i < |ts[k]| ==> SumChar(ts[k][i])
    ensures forall i :: 0 <= i < |Join(ts, '+')| ==> SumChar(Join(ts, '+')[i])
  {
    if |ts| > 1 {
      JoinSumChars(ts[1..]);
      var rest := Join(ts[1..], '+');
      assert Join(ts, '+') == ts[0] + ['+'] + rest;
      assert forall i :: 0 <= i < |ts[0]| ==> SumChar(ts[0][i]);
    }
  }

  lemma FactorTextChars(f: seq<Term>)
    requires f != []
    ensures forall i :: 0 <= i < |FactorText(f)| ==> SumChar(FactorText(f)[i])
  {
    var ts := TermTexts(f);
    forall k, i | 0 <= k < |ts| && 0 <= i < |ts[k]|
      ensures SumChar(ts[k][i])
    {
      TermTextChars(f[k]);
    }
    JoinSumChars(ts);
  }

  /** A term's text parses to its numeral's value. */
  lemma TermValueOf(t: Term)
    ensures TermValue(TermText(t)) == Some(t.n)
  {
    var d := NatToString(t.n);
    assert IsDigit(d[0]) && IsDigit(d[|d| - 1]);
    TrimSurrounded(t.before, d, t.after);
    ParseNatToString(t.n);
  }

  lemma {:induction false} SumOptionsOf(f: seq<Term>, vs: seq<Option<nat>>)
    requires |vs| == |f| && forall k :: 0 <= k < |f| ==> vs[k] == Some(f[k].n)
    ensures SumOptions(vs) == Some(SumOf(f))
  {
    if f != [] {
      SumOptionsOf(f[1..], vs[1..]);
    }
  }

  lemma SumTermsOf(f: seq<Term>)
    ensures SumTerms(TermTexts(f)) == Some(SumOf(f))
  {
    var ts := TermTexts(f);
    var vs := TermValues(ts);
    forall k | 0 <= k < |f|
      ensures vs[k] == Some(f[k].n)
    {
      TermValueOf(f[k]);
    }
    SumOptionsOf(f, vs);
  }

  /** A sum of two or more terms is not a numeral by itself. */
  lemma FactorNotNumeral(f: seq<Term>)
    requires |f| > 1
    ensures ParseNat(Trim(FactorText(f))) == None
  {
    var t := f[0];
    var d := NatToString(t.n);
    var rest := Join(TermTexts(f)[1..], '+');
    var y := d + Indent(t.after) + ['+'] + rest;
    assert FactorText(f) == Indent(t.before) + y;
    assert IsDigit(d[0]);
    TrimStartIndented(t.before, y);
    var r := TrimEnd(y);
    assert |r| > |d| + t.after by {
      assert y[|d| + t.after] == '+';
    }
    assert !IsDigit(r[|d|]) by {
      assert r[|d|] == y[|d|];
      if t.after > 0 {
        assert y[|d|] == Indent(t.after)[0];
      } else {
        assert y[|d|] == '+';
      }
    }
    ParseNatRejects(r, |d|);
  }

  /** A sum's text has the value of the sum. */
  lemma FactorValueOf(f: seq<Term>)
    requires f != []
    ensures FactorValue(FactorText(f)) == Some(SumOf(f))
  {
    var ts := TermTexts(f);
    if |f| == 1 {
      TermValueOf(f[0]);
      assert FactorText(f) == TermText(f[0]);
      assert SumOf(f) == f[0].n;
    } else {
      FactorNotNumeral(f);
      forall k, i | 0 <= k < |ts| && 0 <= i < |ts[k]|
        ensures ts[k][i] != '+'
      {
        TermTextChars(f[k]);
      }
      SplitOfJoin(ts, '+');
      SumTermsOf(f);
    }
  }

  lemma {:induction false} ProductFactorsOf(p: seq<seq<Term>>)
    requires AllFactors(p)
    ensures ProductFactors(FactorTexts(p)) == Some(ProductOf(p))
  {
    if p != [] {
      var fs := FactorTexts(p);
      assert fs[1..] == FactorTexts(p[1..]);
      assert FactorValue(fs[0]) == Some(SumOf(p[0])) by {
        FactorValueOf(p[0]);
      }
      ProductFactorsOf(p[1..]);
    }
  }

  /** Text without parentheses evaluates to the product of its sums:
      addition binds tighter than multiplication. */
  lemma EvalFlatOf(p: seq<seq<Term>>)
    requires p != [] && AllFactors(p)
    ensures EvalFlat(FlatText(p)) == Some(ProductOf(p))
  {
    var fs := FactorTexts(p);
    forall k, i | 0 <= k < |fs| && 0 <= i < |fs[k]|
      ensures fs[k][i] != '*'
    {
      FactorTextChars(p[k]);
    }
    SplitOfJoin(fs, '*');
    ProductFactorsOf(p);
  }

  /** Flat text solves to the product of its sums. */
  lemma {:induction false} JoinNoOpen(ts: seq<string>, c: char)
    requires ts != [] && c != '('
    requires forall k, i :: 0 <= k < |ts| && 0 <= i < |ts[k]| ==> ts[k][i] != '('
    ensures forall i :: 0 <= i < |Join(ts, c)| ==> Join(ts, c)[i] != '('
  {
    if |ts| > 1 {
      JoinNoOpen(ts[1..], c);
      assert Join(ts, c) == ts[0] + [c] + Join(ts[1..], c);
      assert forall i :: 0 <= i < |ts[0]| ==> ts[0][i] != '(';
    }
  }

  lemma FlatSolve2(p: seq<seq<Term>>)
    requires p != [] && AllFactors(p)
    ensures Solve2(FlatText(p)) == Some(ProductOf(p))
  {
    var fs := FactorTexts(p);
    forall k, i | 0 <= k < |fs| && 0 <= i < |fs[k]|
      ensures fs[k][i] != '('
    {
      FactorTextChars(p[k]);
    }
    JoinNoOpen(fs, '*');
    EvalFlatOf(p);
  }

  // ---------------------------------------------------------------------
  // Part 2 with groups: the leftmost group is replaced by its value.

  lemma {:induction false} JoinAtomic(ts: seq<string>)
    requires ts != []
    requires forall k, i :: 0 <= k < |ts| && 0 <= i < |ts[k]| ==> SumChar(ts[k][i])
    ensures forall i :: 0 <= i < |Join(ts, '*')| ==> AtomicChar(Join(ts, '*')[i])
  {
    assert forall i :: 0 <= i < |ts[0]| ==> SumChar(ts[0][i]);
    if |ts| > 1 {
      JoinAtomic(ts[1..]);
      assert Join(ts, '*') == ts[0] + ['*'] + Join(ts[1..], '*');
    }
  }

  /** Flat text is a non-empty run of the class `[\d*+\s]`. */
  lemma FlatAtomic(p: seq<seq<Term>>)
    requires p != [] && AllFactors(p)
    ensures |FlatText(p)| > 0 && forall i :: 0 <= i < |FlatText(p)| ==> AtomicChar(FlatText(p)[i])
  {
    var fs := FactorTexts(p);
    forall k, i | 0 <= k < |fs| && 0 <= i < |fs[k]|
      ensures SumChar(fs[k][i])
    {
      FactorTextChars(p[k]);
    }
    JoinAtomic(fs);
    var tt := TermTexts(p[0]);
    assert |tt[0]| > 0;
    assert |Join(tt, '+')| >= |tt[0]|;
    assert |Join(fs, '*')| >= |fs[0]|;
  }

  /** No group without inner parentheses starts inside a, when a has no
      ')' after an '(' and an '(' follows it. */
  lemma SplitLeftmost(e: string, a: string, f: string, b: string)
    requires e == a + "(" + f + ")" + b
    requires forall q, j :: 0 <= q < j < |a| && a[q] == '(' ==> a[j] != ')'
    ensures forall q, u :: 0 <= q < |a| ==> !IsAtomic(e, q, u)
  {
    var s := |a|;
    assert forall j :: 0 <= j < s ==> e[j] == a[j];
    assert e[s] == '(' && !AtomicChar(e[s]);
  }

  lemma SplitAtomic(e: string, a: string, f: string, b: string)
    requires e == a + "(" + f + ")" + b
    requires |f| > 0 && forall i :: 0 <= i < |f| ==> AtomicChar(f[i])
    ensures IsAtomic(e, |a|, |a| + |f| + 2)
    ensures e[|a| + 1..|a| + |f| + 1] == f && e[..|a|] == a && e[|a| + |f| + 2..] == b
  {
    var s := |a|;
    var t := s + |f| + 2;
    assert e[s] == '(' && e[t - 1] == ')';
    assert forall k :: s < k < t - 1 ==> e[k] == f[k - s - 1];
  }

  /** `solve_expression_2` on a + "(" + flat + ")" + b, where a opens no
      group of its own: the group is replaced by the decimal text w of its
      product of sums, and solving goes on with a + w + b. */
  lemma SplitStep(e: string, a: string, b: string, p: seq<seq<Term>>, w: string, v: nat)
    requires p != [] && AllFactors(p) && NatToString(ProductOf(p)) == w
    requires e == a + "(" + FlatText(p) + ")" + b
    requires forall q, j :: 0 <= q < j < |a| && a[q] == '(' ==> a[j] != ')'
    requires Solve2(a + w + b) == Some(v)
    ensures Solve2(e) == Some(v)
  {
    var f := FlatText(p);
    var s := |a|;
    var t := s + |f| + 2;
    FlatAtomic(p);
    SplitAtomic(e, a, f, b);
    SplitLeftmost(e, a, f, b);
    ReplaceFlat(e, s, t, p);
  }

  lemma LeftmostAtomic(e: string, s: nat, t: nat)
    requires IsAtomic(e, s, t) && forall q, u :: 0 <= q < s ==> !IsAtomic(e, q, u)
    ensures FindAtomic(e) == Some((s, t))
  {
    var r := FindAtomic(e);
    assert r.Some?;
    assert r.value.0 == s;
    assert AtomicAt(e, s) == Some(t);
  }

  lemma ReplaceFlat(e: string, s: nat, t: nat, p: seq<seq<Term>>)
    requires IsAtomic(e, s, t) && forall q, u :: 0 <= q < s ==> !IsAtomic(e, q, u)
    requires p != [] && AllFactors(p) && FlatText(p) == e[s + 1..t - 1]
    ensures Solve2(e) == Solve2(e[..s] + NatToString(ProductOf(p)) + e[t..])
  {
    LeftmostAtomic(e, s, t);
    FlatSolve2(p);
    Solve2Replaces(e, s, t, ProductOf(p));
  }

  // ---------------------------------------------------------------------
  // Texts of products of sums, built piece by piece

  lemma FlatCons(f: seq<Term>, p: seq<seq<Term>>)
    requires f != [] && p != [] && AllFactors(p)
    ensures AllFactors([f] + p)
    ensures FlatText([f] + p) == FactorText(f) + "*" + FlatText(p)
  {
    var ts := FactorTexts([f] + p);
    assert ts[1..] == FactorTexts(p);
    assert Join(ts, '*') == ts[0] + ['*'] + Join(ts[1..], '*');
  }

  lemma FactorCons(t: Term, f: seq<Term>)
    requires f != []
    ensures FactorText([t] + f) == TermText(t) + "+" + FactorText(f)
  {
    var ts := TermTexts([t] + f);
    assert ts[1..] == TermTexts(f);
    assert Join(ts, '+') == ts[0] + ['+'] + Join(ts[1..], '+');
  }

  lemma Factor1(t: Term, s: string)
    requires TermText(t) == s
    ensures FactorText([t]) == s
  {
  }

  lemma Factor2(t1: Term, t2: Term, s1: string, s2: string)
    requires TermText(t1) == s1 && TermText(t2) == s2
    ensures FactorText([t1, t2]) == s1 + "+" + s2
  {
    FactorCons(t1, [t2]);
    assert [t1] + [t2] == [t1, t2];
  }

  lemma Join3(a: string, b: string, c: string, ch: char)
    ensures Join([a, b, c], ch) == a + [ch] + b + [ch] + c
  {
    assert [a, b, c][1..] == [b, c];
    assert [b, c][1..] == [c];
    assert Join([b, c], ch) == b + [ch] + c;
    assert Join([a, b, c], ch) == a + [ch] + (b + [ch] + c);
  }

  lemma Join4(a: string, b: string, c: string, d: string, ch: char)
    ensures Join([a, b, c, d], ch) == a + [ch] + b + [ch] + c + [ch] + d
  {
    assert [a, b, c, d][1..] == [b, c, d];
    Join3(b, c, d, ch);
    assert Join([a, b, c, d], ch) == a + [ch] + (b + [ch] + c + [ch] + d);
  }

  lemma Flat2(f1: seq<Term>, f2: seq<Term>, s1: string, s2: string)
    requires f1 != [] && f2 != [] && FactorText(f1) == s1 && FactorText(f2) == s2
    ensures FlatText([f1, f2]) == s1 + "*" + s2
  {
    var ts := FactorTexts([f1, f2]);
    assert ts == [s1, s2];
    assert ts[1..] == [s2];
    assert Join(ts, '*') == s1 + ['*'] + Join([s2], '*');
  }

  lemma Flat3(f1: seq<Term>, f2: seq<Term>, f3: seq<Term>, s1: string, s2: string, s3: string)
    requires f1 != [] && f2 != [] && f3 != []
    requires FactorText(f1) == s1 && FactorText(f2) == s2 && FactorText(f3) == s3
    ensures FlatText([f1, f2, f3]) == s1 + "*" + s2 + "*" + s3
  {
    var ts := FactorTexts([f1, f2, f3]);
    assert ts == [s1, s2, s3];
    Join3(s1, s2, s3, '*');
  }

  lemma Flat4(f1: seq<Term>, f2: seq<Term>, f3: seq<Term>, f4: seq<Term>,
              s1: string, s2: string, s3: string, s4: string)
    requires f1 != [] && f2 != [] && f3 != [] && f4 != []
    requires FactorText(f1) == s1 && FactorText(f2) == s2 && FactorText(f3) == s3 && FactorText(f4) == s4
    ensures FlatText([f1, f2, f3, f4]) == s1 + "*" + s2 + "*" + s3 + "*" + s4
  {
    var ts := FactorTexts([f1, f2, f3, f4]);
    assert ts == [s1, s2, s3, s4];
    Join4(s1, s2, s3, s4, '*');
  }


  /** The text "x * y" of a product of two numerals. */
  lemma ProductText(x: string, t1: Term, t2: Term, s1: string, s2: string)
    requires TermText(t1) == s1 && TermText(t2) == s2 && x == s1 + "*" + s2
    ensures FlatText([[t1], [t2]]) == x && ProductOf([[t1], [t2]]) == t1.n * t2.n
  {
    Flat2([t1], [t2], s1, s2);
    assert SumOf([t2]) == t2.n;
    assert ProductOf([[t2]]) == t2.n;
    assert SumOf([t1]) == t1.n;
  }

  /** The text "x + y" of a sum of two numerals. */
  lemma SumText(x: string, t1: Term, t2: Term, s1: string, s2: string)
    requires TermText(t1) == s1 && TermText(t2) == s2 && x == s1 + "+" + s2
    ensures FlatText([[t1, t2]]) == x && ProductOf([[t1, t2]]) == t1.n + t2.n
  {
    Factor2(t1, t2, s1, s2);
    assert SumOf([t2]) == t2.n;
    assert SumOf([t1, t2]) == t1.n + t2.n;
  }

  // ---------------------------------------------------------------------
  // The examples of the puzzle's tests

  lemma {:induction false} MatchFromSkip(e: string, i: int, j: int, depth: int)
    requires -1 <= j <= i < |e| && depth != 0
    requires forall k :: j < k <= i ==> Delta(e[k]) == 0
    ensures MatchFrom(e, i, depth) == MatchFrom(e, j, depth)
    decreases i - j
  {
    if j < i {
      MatchFromSkip(e, i - 1, j, depth);
    }
  }

  lemma MatchingOpenExample1(e: string)
    requires e == "3 + (2 * 3)"
    ensures MatchingOpen(e) == Some(4)
  {
    MatchFromSkip(e, 9, 4, 1);
  }

  lemma MatchingOpenExample2(e: string)
    requires e == "(3 + 5) * (2 * 4 + 10)"
    ensures MatchingOpen(e) == Some(10)
  {
    assert |e| == 22 && e[21] == ')' && e[10] == '(';
    assert MatchingOpen(e) == MatchFrom(e, 20, 1);
    MatchFromSkip(e, 20, 10, 1);
  }

  lemma MatchingOpenExample3(e: string)
    requires e == "2 + ((3 * 5) + 2)"
    ensures MatchingOpen(e) == Some(4)
  {
    assert |e| == 17 && e[16] == ')' && e[11] == ')' && e[5] == '(' && e[4] == '(';
    assert MatchingOpen(e) == MatchFrom(e, 15, 1);
    MatchFromSkip(e, 15, 11, 1);
    assert MatchFrom(e, 11, 1) == MatchFrom(e, 10, 2);
    MatchFromSkip(e, 10, 5, 2);
    assert MatchFrom(e, 5, 2) == MatchFrom(e, 4, 1);
  }

  lemma MatchingOpenExample4(e: string)
    requires e == "(2 + 3)"
    ensures MatchingOpen(e) == Some(0)
  {
    MatchFromSkip(e, 5, 0, 1);
  }

  /** A chain's text solves, under part 1, to the chain's value. */
  lemma ShownValue(c: Chain, e: string, v: nat)
    requires Show(c) == e && Eval1(c) == v
    ensures Solve1(e) == Some(v)
  {
    Solve1Show(c);
  }

  lemma AppendNum(p: string, l: Chain, op: Op, n: nat)
    ensures p + Show(Apply(l, op, Num(n))) == (p + Show(l)) + ([' ', OpChar(op), ' '] + NatToString(n))
  {
  }

  lemma AppendGroup(p: string, l: Chain, op: Op, g: Chain)
    ensures p + Show(Apply(l, op, Group(g))) == ((p + Show(l)) + [' ', OpChar(op), ' ', '(']) + Show(g) + ")"
  {
  }

  lemma Solve1Example5(e: string)
    requires e == "5"
    ensures Solve1(e) == Some(5)
  {
    ShownValue(Single(Num(5)), e, 5);
  }

  lemma Solve1Example6(e: string)
    requires e == "2 * 3"
    ensures Solve1(e) == Some(6)
  {
    ShownValue(Apply(Single(Num(2)), Mul, Num(3)), e, 6);
  }

  lemma Solve1Example20(e: string)
    requires e == "4 * 5"
    ensures Solve1(e) == Some(20)
  {
    ShownValue(Apply(Single(Num(4)), Mul, Num(5)), e, 20);
  }

  lemma Solve1Example10(e: string)
    requires e == "4 + (2 * 3)"
    ensures Solve1(e) == Some(10)
  {
    ShownValue(Apply(Single(Num(4)), Add, Group(Apply(Single(Num(2)), Mul, Num(3)))), e, 10);
  }

  lemma Solve1ExampleSum6(e: string)
    requires e == "2 + 2 + 2"
    ensures Solve1(e) == Some(6)
  {
    ShownValue(Apply(Apply(Single(Num(2)), Add, Num(2)), Add, Num(2)), e, 6);
  }

  lemma Show26(c: Chain)
    requires c == Apply(Apply(Single(Num(2)), Mul, Num(3)), Add, Group(Apply(Single(Num(4)), Mul, Num(5))))
    ensures Show(c) == "2 * 3 + (4 * 5)" && Eval1(c) == 26
  {
    AppendGroup("", Apply(Single(Num(2)), Mul, Num(3)), Add, Apply(Single(Num(4)), Mul, Num(5)));
    assert ("" + Show(Apply(Single(Num(2)), Mul, Num(3)))) + [' ', OpChar(Add), ' ', '('] == "2 * 3 + (";
  }

  lemma Solve1Example26(e: string)
    requires e == "2 * 3 + (4 * 5)"
    ensures Solve1(e) == Some(26)
  {
    var c := Apply(Apply(Single(Num(2)), Mul, Num(3)), Add, Group(Apply(Single(Num(4)), Mul, Num(5))));
    Show26(c);
    ShownValue(c, e, 26);
  }

  lemma Show144(l: Chain)
    requires l == Apply(Apply(Apply(Apply(Single(Num(8)), Mul, Num(3)), Add, Num(9)), Add, Num(3)), Mul, Num(4))
    ensures "(" + Show(l) == "(8 * 3 + 9 + 3 * 4" && Eval1(l) == 144
  {
  }

  lemma Show432(g: Chain)
    requires g == Apply(Apply(Apply(Apply(Apply(Single(Num(8)), Mul, Num(3)), Add, Num(9)), Add, Num(3)), Mul, Num(4)), Mul, Num(3))
    ensures ShowOperand(Group(g)) == "(8 * 3 + 9 + 3 * 4 * 3)" && Eval1(g) == 432
  {
    var l := Apply(Apply(Apply(Apply(Single(Num(8)), Mul, Num(3)), Add, Num(9)), Add, Num(3)), Mul, Num(4));
    Show144(l);
    AppendNum("(", l, Mul, 3);
    assert ("(" + Show(g)) + ")" == "(8 * 3 + 9 + 3 * 4 * 3)";
  }

  lemma Show437(c: Chain, g: Chain)
    requires ShowOperand(Group(g)) == "(8 * 3 + 9 + 3 * 4 * 3)" && Eval1(g) == 432
    requires c == Apply(Single(Num(5)), Add, Group(g))
    ensures Show(c) == "5 + (8 * 3 + 9 + 3 * 4 * 3)" && Eval1(c) == 437
  {
    assert Show(Single(Num(5))) + " " + [OpChar(Add)] + " " == "5 + ";
    assert "5 + (8 * 3 + 9 + 3 * 4 * 3)" == "5 + " + "(8 * 3 + 9 + 3 * 4 * 3)";
  }

  lemma Solve1Example437(e: string)
    requires e == "5 + (8 * 3 + 9 + 3 * 4 * 3)"
    ensures Solve1(e) == Some(437)
  {
    var g := Apply(Apply(Apply(Apply(Apply(Single(Num(8)), Mul, Num(3)), Add, Num(9)), Add, Num(3)), Mul, Num(4)), Mul, Num(3));
    var c := Apply(Single(Num(5)), Add, Group(g));
    Show432(g);
    Show437(c, g);
    ShownValue(c, e, 437);
  }

  lemma Show56(k: Chain)
    requires k == Apply(Apply(Single(Num(8)), Add, Num(6)), Mul, Num(4))
    ensures Show(k) == "8 + 6 * 4" && Eval1(k) == 56
  {
  }

  lemma Show216(l: Chain)
    requires l == Apply(Apply(Apply(Apply(Single(Num(7)), Mul, Num(3)), Mul, Num(3)), Add, Num(9)), Mul, Num(3))
    ensures "5 * 9 * (" + Show(l) == "5 * 9 * (7 * 3 * 3 + 9 * 3" && Eval1(l) == 216
  {
  }

  lemma Show272(h: Chain, l: Chain, k: Chain)
    requires "5 * 9 * (" + Show(l) == "5 * 9 * (7 * 3 * 3 + 9 * 3" && Eval1(l) == 216
    requires Show(k) == "8 + 6 * 4" && Eval1(k) == 56
    requires h == Apply(l, Add, Group(k))
    ensures "5 * 9 * (" + Show(h) == "5 * 9 * (7 * 3 * 3 + 9 * 3 + (8 + 6 * 4)" && Eval1(h) == 272
  {
    AppendGroup("5 * 9 * (", l, Add, k);
  }

  lemma Show12240(c: Chain, h: Chain)
    requires "5 * 9 * (" + Show(h) == "5 * 9 * (7 * 3 * 3 + 9 * 3 + (8 + 6 * 4)" && Eval1(h) == 272
    requires c == Apply(Apply(Single(Num(5)), Mul, Num(9)), Mul, Group(h))
    ensures Show(c) == "5 * 9 * (7 * 3 * 3 + 9 * 3 + (8 + 6 * 4))" && Eval1(c) == 12240
  {
    AppendGroup("", Apply(Single(Num(5)), Mul, Num(9)), Mul, h);
    assert ("" + Show(Apply(Single(Num(5)), Mul, Num(9)))) + [' ', OpChar(Mul), ' ', '('] == "5 * 9 * (";
    assert Show(c) == ("5 * 9 * (" + Show(h)) + ")";
    assert "5 * 9 * (7 * 3 * 3 + 9 * 3 + (8 + 6 * 4)" + ")" == "5 * 9 * (7 * 3 * 3 + 9 * 3 + (8 + 6 * 4))";
  }

  lemma Solve1Example12240(e: string)
    requires e == "5 * 9 * (7 * 3 * 3 + 9 * 3 + (8 + 6 * 4))"
    ensures Solve1(e) == Some(12240)
  {
    var k := Apply(Apply(Single(Num(8)), Add, Num(6)), Mul, Num(4));
    var l := Apply(Apply(Apply(Apply(Single(Num(7)), Mul, Num(3)), Mul, Num(3)), Add, Num(9)), Mul, Num(3));
    var h := Apply(l, Add, Group(k));
    var c := Apply(Apply(Single(Num(5)), Mul, Num(9)), Mul, Group(h));
    Show56(k);
    Show216(l);
    Show272(h, l, k);
    Show12240(c, h);
    ShownValue(c, e, 12240);
  }

  lemma Show54(a: Chain)
    requires a == Apply(Apply(Single(Num(2)), Add, Num(4)), Mul, Num(9))
    ensures "(" + Show(Single(Group(a))) == "((2 + 4 * 9)" && Eval1(a) == 54
  {
  }

  lemma Show126(b: Chain)
    requires b == Apply(Apply(Apply(Single(Num(6)), Add, Num(9)), Mul, Num(8)), Add, Num(6))
    ensures Show(b) == "6 + 9 * 8 + 6" && Eval1(b) == 126
  {
  }

  lemma Show6810(g: Chain, a: Chain, b: Chain)
    requires "(" + Show(Single(Group(a))) == "((2 + 4 * 9)" && Eval1(a) == 54
    requires Show(b) == "6 + 9 * 8 + 6" && Eval1(b) == 126
    requires g == Apply(Apply(Single(Group(a)), Mul, Group(b)), Add, Num(6))
    ensures "(" + Show(g) == "((2 + 4 * 9) * (6 + 9 * 8 + 6) + 6" && Eval1(g) == 6810
  {
    var g1 := Apply(Single(Group(a)), Mul, Group(b));
    AppendGroup("(", Single(Group(a)), Mul, b);
    assert "(" + Show(g1) == "((2 + 4 * 9) * (6 + 9 * 8 + 6)";
    AppendNum("(", g1, Add, 6);
    assert Eval1(Single(Group(a))) == 54;
    assert Eval1(g1) == 6804;
  }

  lemma Show13632(c: Chain, g: Chain)
    requires "(" + Show(g) == "((2 + 4 * 9) * (6 + 9 * 8 + 6) + 6" && Eval1(g) == 6810
    requires c == Apply(Apply(Apply(Single(Group(g)), Add, Num(2)), Add, Num(4)), Mul, Num(2))
    ensures Show(c) == "((2 + 4 * 9) * (6 + 9 * 8 + 6) + 6) + 2 + 4 * 2" && Eval1(c) == 13632
  {
    var c1 := Single(Group(g));
    assert Show(c1) == "((2 + 4 * 9) * (6 + 9 * 8 + 6) + 6)";
    var c2 := Apply(c1, Add, Num(2));
    AppendNum("", c1, Add, 2);
    assert Show(c2) == "((2 + 4 * 9) * (6 + 9 * 8 + 6) + 6) + 2";
    var c3 := Apply(c2, Add, Num(4));
    AppendNum("", c2, Add, 4);
    assert Show(c3) == "((2 + 4 * 9) * (6 + 9 * 8 + 6) + 6) + 2 + 4";
    AppendNum("", c3, Mul, 2);
    assert Eval1(c1) == 6810;
    assert Eval1(c2) == 6812;
    assert Eval1(c3) == 6816;
  }

  lemma Solve1Example13632(e: string)
    requires e == "((2 + 4 * 9) * (6 + 9 * 8 + 6) + 6) + 2 + 4 * 2"
    ensures Solve1(e) == Some(13632)
  {
    var a := Apply(Apply(Single(Num(2)), Add, Num(4)), Mul, Num(9));
    var b := Apply(Apply(Apply(Single(Num(6)), Add, Num(9)), Mul, Num(8)), Add, Num(6));
    var g := Apply(Apply(Single(Group(a)), Mul, Group(b)), Add, Num(6));
    var c := Apply(Apply(Apply(Single(Group(g)), Add, Num(2)), Add, Num(4)), Mul, Num(2));
    Show54(a);
    Show126(b);
    Show6810(g, a, b);
    Show13632(c, g);
    ShownValue(c, e, 13632);
  }

  lemma Solve2Example6Parts(e: string, p: seq<seq<Term>>)
    requires e == "2 + (2 * 2)" && p == [[Term(0, 2, 1)], [Term(1, 2, 0)]]
    ensures p != [] && AllFactors(p) && e == "2 + " + "(" + FlatText(p) + ")" + ""
    ensures NatToString(ProductOf(p)) == "4"
  {
    ProductText("2 " + "*" + " 2", Term(0, 2, 1), Term(1, 2, 0), "2 ", " 2");
    assert NatToString(4) == "4";
  }

  lemma Solve2Example6Rest(x: string)
    requires x == "2 + " + "4" + ""
    ensures Solve2(x) == Some(6)
  {
    SumText(x, Term(0, 2, 1), Term(1, 4, 0), "2 ", " 4");
    FlatSolve2([[Term(0, 2, 1), Term(1, 4, 0)]]);
  }

  lemma Solve2Example6(e: string)
    requires e == "2 + (2 * 2)"
    ensures Solve2(e) == Some(6)
  {
    var p := [[Term(0, 2, 1)], [Term(1, 2, 0)]];
    Solve2Example6Parts(e, p);
    Solve2Example6Rest("2 + " + "4" + "");
    SplitStep(e, "2 + ", "", p, "4", 6);
  }

  lemma Solve2Example8Parts(e: string, p: seq<seq<Term>>)
    requires e == "2 + (2 * 3)" && p == [[Term(0, 2, 1)], [Term(1, 3, 0)]]
    ensures p != [] && AllFactors(p) && e == "2 + " + "(" + FlatText(p) + ")" + ""
    ensures NatToString(ProductOf(p)) == "6"
  {
    ProductText("2 " + "*" + " 3", Term(0, 2, 1), Term(1, 3, 0), "2 ", " 3");
    assert NatToString(6) == "6";
  }

  lemma Solve2Example8Rest(x: string)
    requires x == "2 + " + "6" + ""
    ensures Solve2(x) == Some(8)
  {
    SumText(x, Term(0, 2, 1), Term(1, 6, 0), "2 ", " 6");
    FlatSolve2([[Term(0, 2, 1), Term(1, 6, 0)]]);
  }

  lemma Solve2Example8(e: string)
    requires e == "2 + (2 * 3)"
    ensures Solve2(e) == Some(8)
  {
    var p := [[Term(0, 2, 1)], [Term(1, 3, 0)]];
    Solve2Example8Parts(e, p);
    Solve2Example8Rest("2 + " + "6" + "");
    SplitStep(e, "2 + ", "", p, "6", 8);
  }

  lemma Solve2Example26Parts(e: string, p: seq<seq<Term>>)
    requires e == "2 + ((2 * 4) * 3)" && p == [[Term(0, 2, 1)], [Term(1, 4, 0)]]
    ensures p != [] && AllFactors(p) && e == "2 + (" + "(" + FlatText(p) + ")" + " * 3)"
    ensures NatToString(ProductOf(p)) == "8"
  {
    ProductText("2 " + "*" + " 4", Term(0, 2, 1), Term(1, 4, 0), "2 ", " 4");
    assert NatToString(8) == "8";
  }

  lemma Solve2Example26InnerParts(x: string, p: seq<seq<Term>>)
    requires x == "2 + (" + "8" + " * 3)" && p == [[Term(0, 8, 1)], [Term(1, 3, 0)]]
    ensures p != [] && AllFactors(p) && x == "2 + " + "(" + FlatText(p) + ")" + ""
    ensures NatToString(ProductOf(p)) == "24"
  {
    ProductText("8 " + "*" + " 3", Term(0, 8, 1), Term(1, 3, 0), "8 ", " 3");
    assert NatToString(24) == "24";
  }

  lemma Solve2Example26Rest(x: string)
    requires x == "2 + " + "24" + ""
    ensures Solve2(x) == Some(26)
  {
    SumText(x, Term(0, 2, 1), Term(1, 24, 0), "2 ", " 24");
    FlatSolve2([[Term(0, 2, 1), Term(1, 24, 0)]]);
  }

  lemma Solve2Example26Inner(x: string)
    requires x == "2 + (" + "8" + " * 3)"
    ensures Solve2(x) == Some(26)
  {
    var p := [[Term(0, 8, 1)], [Term(1, 3, 0)]];
    Solve2Example26InnerParts(x, p);
    Solve2Example26Rest("2 + " + "24" + "");
    SplitStep(x, "2 + ", "", p, "24", 26);
  }

  lemma Solve2Example26(e: string)
    requires e == "2 + ((2 * 4) * 3)"
    ensures Solve2(e) == Some(26)
  {
    var p := [[Term(0, 2, 1)], [Term(1, 4, 0)]];
    Solve2Example26Parts(e, p);
    Solve2Example26Inner("2 + (" + "8" + " * 3)");
    assert "2 + ("[0] != '(';
    SplitStep(e, "2 + (", " * 3)", p, "8", 26);
  }

  lemma Factors1890()
    ensures FactorText([Term(0, 5, 1)]) == "5 " && FactorText([Term(1, 7, 1)]) == " 7 "
    ensures FactorText([Term(1, 6, 1)]) == " 6 " && FactorText([Term(1, 7, 1), Term(1, 2, 0)]) == " 7 " + "+" + " 2"
  {
    Factor1(Term(0, 5, 1), "5 ");
    Factor1(Term(1, 7, 1), " 7 ");
    Factor1(Term(1, 6, 1), " 6 ");
    Factor2(Term(1, 7, 1), Term(1, 2, 0), " 7 ", " 2");
  }

  lemma Literal1890()
    ensures "5 " + "*" + " 7 " + "*" + " 6 " + "*" + (" 7 " + "+" + " 2") == "5 * 7 * 6 * 7 + 2"
  {
  }

  lemma Flat1890()
    ensures FlatText([[Term(0, 5, 1)], [Term(1, 7, 1)], [Term(1, 6, 1)], [Term(1, 7, 1), Term(1, 2, 0)]])
      == "5 * 7 * 6 * 7 + 2"
    ensures ProductOf([[Term(0, 5, 1)], [Term(1, 7, 1)], [Term(1, 6, 1)], [Term(1, 7, 1), Term(1, 2, 0)]]) == 1890
  {
    Factors1890();
    Flat4([Term(0, 5, 1)], [Term(1, 7, 1)], [Term(1, 6, 1)], [Term(1, 7, 1), Term(1, 2, 0)],
      "5 ", " 7 ", " 6 ", " 7 " + "+" + " 2");
    Literal1890();
  }

  lemma Solve2Example1890(e: string)
    requires e == "5 * 7 * 6 * 7 + 2"
    ensures Solve2(e) == Some(1890)
  {
    Flat1890();
    FlatSolve2([[Term(0, 5, 1)], [Term(1, 7, 1)], [Term(1, 6, 1)], [Term(1, 7, 1), Term(1, 2, 0)]]);
  }

  lemma Number1890()
    ensures NatToString(1890) == "1890"
  {
    assert NatToString(18) == "18";
    assert NatToString(189) == "189";
  }

  lemma Number113400()
    ensures NatToString(113400) == "113400"
  {
    assert NatToString(11) == "11";
    assert NatToString(113) == "113";
    assert NatToString(1134) == "1134";
    assert NatToString(11340) == "11340";
  }

  lemma Factors113400(n: nat)
    requires NatToString(n) == "1890"
    ensures FactorText([Term(0, 5, 1)]) == "5 " && FactorText([Term(1, n, 1)]) == " 1890 "
    ensures FactorText([Term(1, 5, 1), Term(1, 7, 0)]) == " 5 " + "+" + " 7"
  {
    Factor1(Term(0, 5, 1), "5 ");
    assert TermText(Term(1, n, 1)) == " " + "1890" + " ";
    Factor1(Term(1, n, 1), " 1890 ");
    Factor2(Term(1, 5, 1), Term(1, 7, 0), " 5 ", " 7");
  }

  lemma Literal113400()
    ensures "5 " + "*" + " 1890 " + "*" + (" 5 " + "+" + " 7") == "5 * 1890 * 5 + 7"
  {
  }

  lemma Text113400(n: nat)
    requires NatToString(n) == "1890"
    ensures FlatText([[Term(0, 5, 1)], [Term(1, n, 1)], [Term(1, 5, 1), Term(1, 7, 0)]]) == "5 * 1890 * 5 + 7"
  {
    Factors113400(n);
    Flat3([Term(0, 5, 1)], [Term(1, n, 1)], [Term(1, 5, 1), Term(1, 7, 0)], "5 ", " 1890 ", " 5 " + "+" + " 7");
    Literal113400();
  }

  lemma Product113400()
    ensures ProductOf([[Term(0, 5, 1)], [Term(1, 1890, 1)], [Term(1, 5, 1), Term(1, 7, 0)]]) == 113400
  {
    assert ProductOf([[Term(1, 5, 1), Term(1, 7, 0)]]) == 12;
    assert ProductOf([[Term(1, 1890, 1)], [Term(1, 5, 1), Term(1, 7, 0)]]) == 1890 * 12;
  }

  lemma Factors3628896(n: nat)
    requires NatToString(n) == "113400"
    ensures FactorText([Term(0, n, 1), Term(1, 3, 1)]) == "113400 " + "+" + " 3 "
    ensures FactorText([Term(1, 2, 1)]) == " 2 " && FactorText([Term(1, 8, 1), Term(1, 8, 0)]) == " 8 " + "+" + " 8"
  {
    assert TermText(Term(0, n, 1)) == "" + "113400" + " ";
    Factor2(Term(0, n, 1), Term(1, 3, 1), "113400 ", " 3 ");
    Factor1(Term(1, 2, 1), " 2 ");
    Factor2(Term(1, 8, 1), Term(1, 8, 0), " 8 ", " 8");
  }

  lemma Literal3628896()
    ensures "113400 " + "+" + " 3 " + "*" + " 2 " + "*" + (" 8 " + "+" + " 8") == "113400 + 3 * 2 * 8 + 8"
  {
  }

  lemma Text3628896(n: nat)
    requires NatToString(n) == "113400"
    ensures FlatText([[Term(0, n, 1), Term(1, 3, 1)], [Term(1, 2, 1)], [Term(1, 8, 1), Term(1, 8, 0)]])
      == "113400 + 3 * 2 * 8 + 8"
  {
    Factors3628896(n);
    Flat3([Term(0, n, 1), Term(1, 3, 1)], [Term(1, 2, 1)], [Term(1, 8, 1), Term(1, 8, 0)],
      "113400 " + "+" + " 3 ", " 2 ", " 8 " + "+" + " 8");
    Literal3628896();
  }

  lemma Product3628896()
    ensures ProductOf([[Term(0, 113400, 1), Term(1, 3, 1)], [Term(1, 2, 1)], [Term(1, 8, 1), Term(1, 8, 0)]]) == 3628896
  {
    assert ProductOf([[Term(1, 8, 1), Term(1, 8, 0)]]) == 16;
    assert ProductOf([[Term(1, 2, 1)], [Term(1, 8, 1), Term(1, 8, 0)]]) == 32;
  }

  lemma Solve2Example3628896Last(x: string)
    requires x == "" + "113400" + " + 3 * 2 * 8 + 8"
    ensures Solve2(x) == Some(3628896)
  {
    assert x == "113400 + 3 * 2 * 8 + 8";
    Number113400();
    Text3628896(113400);
    Product3628896();
    FlatSolve2([[Term(0, 113400, 1), Term(1, 3, 1)], [Term(1, 2, 1)], [Term(1, 8, 1), Term(1, 8, 0)]]);
  }

  lemma Split113400(x: string)
    requires x == "(5 * " + "1890" + " * 5 + 7) + 3 * 2 * 8 + 8"
    ensures x == "" + "(" + "5 * 1890 * 5 + 7" + ")" + " + 3 * 2 * 8 + 8"
  {
    assert "(5 * " + "1890" == "(5 * 1890";
    assert x == "(5 * 1890" + " * 5 + 7) + 3 * 2 * 8 + 8";
    assert "(5 * 1890" + " * 5 + 7) + 3 * 2 * 8 + 8" == "(5 * 1890 * 5 + 7)" + " + 3 * 2 * 8 + 8";
    assert "(5 * 1890 * 5 + 7)" == "(5 * 1890 * 5 + 7" + ")";
    assert "(5 * 1890 * 5 + 7" == "(" + "5 * 1890 * 5 + 7";
  }

  lemma Solve2Example3628896Middle(x: string)
    requires x == "(5 * " + "1890" + " * 5 + 7) + 3 * 2 * 8 + 8"
    ensures Solve2(x) == Some(3628896)
  {
    var p := [[Term(0, 5, 1)], [Term(1, 1890, 1)], [Term(1, 5, 1), Term(1, 7, 0)]];
    Split113400(x);
    Number1890();
    Text113400(1890);
    Product113400();
    Number113400();
    Solve2Example3628896Last("" + "113400" + " + 3 * 2 * 8 + 8");
    SplitStep(x, "", " + 3 * 2 * 8 + 8", p, "113400", 3628896);
  }

  lemma Split1890Outer()
    ensures "(5 * (5 * 7 * 6 * 7 + 2) * 5 + 7) + 3 * 2 * 8 + 8" == "(5 * (5 * 7 * 6 * 7 + 2)" + " * 5 + 7) + 3 * 2 * 8 + 8"
  {
  }

  lemma Split1890Inner()
    ensures "(5 * (5 * 7 * 6 * 7 + 2)" == "(5 * " + "(" + "5 * 7 * 6 * 7 + 2" + ")"
  {
    assert "(5 * (5 * 7 * 6 * 7 + 2)" == "(5 * (5 * 7 * 6 * 7 + 2" + ")";
    assert "(5 * (5 * 7 * 6 * 7 + 2" == "(5 * (" + "5 * 7 * 6 * 7 + 2";
    assert "(5 * (" == "(5 * " + "(";
  }

  lemma Solve2Example3628896Parts(e: string, p: seq<seq<Term>>)
    requires e == "(5 * (5 * 7 * 6 * 7 + 2) * 5 + 7) + 3 * 2 * 8 + 8"
    requires p == [[Term(0, 5, 1)], [Term(1, 7, 1)], [Term(1, 6, 1)], [Term(1, 7, 1), Term(1, 2, 0)]]
    ensures p != [] && AllFactors(p) && e == "(5 * " + "(" + FlatText(p) + ")" + " * 5 + 7) + 3 * 2 * 8 + 8"
    ensures NatToString(ProductOf(p)) == "1890"
    ensures forall q, j :: 0 <= q < j < |"(5 * "| && "(5 * "[q] == '(' ==> "(5 * "[j] != ')'
  {
    Split1890Outer();
    Split1890Inner();
    Flat1890();
    Number1890();
  }

  lemma Solve2Example3628896(e: string)
    requires e == "(5 * (5 * 7 * 6 * 7 + 2) * 5 + 7) + 3 * 2 * 8 + 8"
    ensures Solve2(e) == Some(3628896)
  {
    var p := [[Term(0, 5, 1)], [Term(1, 7, 1)], [Term(1, 6, 1)], [Term(1, 7, 1), Term(1, 2, 0)]];
    Solve2Example3628896Parts(e, p);
    Solve2Example3628896Middle("(5 * " + "1890" + " * 5 + 7) + 3 * 2 * 8 + 8");
    SplitStep(e, "(5 * ", " * 5 + 7) + 3 * 2 * 8 + 8", p, "1890", 3628896);
  }
}
