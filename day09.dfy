/** Day 9: a list of numbers in which each one after a preamble of length p
    should be the sum of two of the p numbers just before it. Part 1 finds
    the first that is not; part 2 finds a contiguous run summing to it and
    adds the run's smallest and largest numbers. */
module Day9 {
  import opened Common

  /** The sums of two entries of w at different positions, collected as
      the source does: w[0] with each later entry, then w[1], and so on
      (`PairSumsMembers` gives the direct description). */
  function PairSums(w: seq<nat>): set<nat> {
    PairSumsBelow(w, |w|)
  }

  /** `input.iter().skip(c).take(n)`: the n numbers from position c, fewer
      near the end. */
  function Window(input: seq<nat>, c: nat, n: nat): (w: seq<nat>)
    ensures |w| <= n
  {
    input[AtMost(c, |input|)..AtMost(c + n, |input|)]
  }

  /** The smaller of x and bound. */
  function AtMost(x: nat, bound: nat): nat {
    if x <= bound then x else bound
  }

  // ---------------------------------------------------------------------
  // calc_valid_numbers

  /** The sums of w[i] with a later entry, for each i < a. */
  function PairSumsBelow(w: seq<nat>, a: nat): set<nat>
    requires a <= |w|
  {
    if a == 0 then {} else PairSumsBelow(w, a - 1) + RowSums(w, a - 1, |w|)
  }

  /** The sums of w[a] with each of w[a + 1], ..., w[b - 1]. */
  function RowSums(w: seq<nat>, a: nat, b: nat): set<nat>
    requires a < |w| && b <= |w|
  {
    if b <= a + 1 then {} else RowSums(w, a, b - 1) + {w[a] + w[b - 1]}
  }

  lemma {:induction false} RowSumsMembers(w: seq<nat>, a: nat, b: nat, x: nat)
    requires a < |w| && b <= |w|
    ensures x in RowSums(w, a, b) <==> exists j :: a < j < b && x == w[a] + w[j]
  {
    if b > a + 1 {
      RowSumsMembers(w, a, b - 1, x);
    }
  }

  lemma {:induction false} PairSumsBelowMembers(w: seq<nat>, a: nat, x: nat)
    requires a <= |w|
    ensures x in PairSumsBelow(w, a) <==> exists i, j :: 0 <= i < a && i < j < |w| && x == w[i] + w[j]
  {
    if a > 0 {
      PairSumsBelowMembers(w, a - 1, x);
      RowSumsMembers(w, a - 1, |w|, x);
      if x in RowSums(w, a - 1, |w|) {
        var j :| a - 1 < j < |w| && x == w[a - 1] + w[j];
        assert 0 <= a - 1 < a && a - 1 < j < |w|;
      }
    }
  }

  /** A pair sum is the sum of the entries at two different positions, and
      every such sum is one. */
  lemma PairSumsMembers(w: seq<nat>, x: nat)
    ensures x in PairSums(w) <==> exists i, j :: 0 <= i < j < |w| && x == w[i] + w[j]
  {
    PairSumsBelowMembers(w, |w|, x);
  }

  /** The `while let` / `for` pair inside `calc_valid_numbers`: every sum of
      an entry of w with a later entry is added to `valid`. */
  method AddPairSums(w: seq<nat>, valid0: set<nat>) returns (valid: set<nat>)
    ensures valid == valid0 + PairSums(w)
  {
    valid := valid0;
    var a := 0;
    while a < |w|
      invariant 0 <= a <= |w|
      invariant valid == valid0 + PairSumsBelow(w, a)
    {
      var b := a + 1;
      while b < |w|
        invariant a + 1 <= b <= |w|
        invariant valid == valid0 + PairSumsBelow(w, a) + RowSums(w, a, b)
      {
        valid := valid + {w[a] + w[b]};
        b := b + 1;
      }
      a := a + 1;
    }
  }

  /** The union of f(start), ..., f(start + n - 1). */
  function Unions(f: nat -> set<nat>, start: nat, n: nat): set<nat> {
    if n == 0 then {} else Unions(f, start, n - 1) + f(start + n - 1)
  }

  lemma UnionsStep(f: nat -> set<nat>, start: nat, n: nat)
    ensures Unions(f, start, n + 1) == Unions(f, start, n) + f(start + n)
  {
  }

  /** A number is in the union exactly when it is in one of the sets. */
  lemma {:induction false} UnionsMembers(f: nat -> set<nat>, start: nat, n: nat, x: nat)
    ensures x in Unions(f, start, n) <==> exists c: nat :: start <= c < start + n && x in f(c)
  {
    if n > 0 {
      UnionsMembers(f, start, n - 1, x);
    }
  }

  /** The sums `calc_valid_numbers` collects for the number at position
      start + p: the pair sums of each of the p windows of length p that
      begin at start, start + 1, ..., start + p - 1 (the first n of them). */
  function WindowSums(input: seq<nat>, start: nat, n: nat, p: nat): set<nat> {
    Unions(WindowPairSums(input, p), start, n)
  }

  /** The pair sums of the window of length p at each position. */
  function WindowPairSums(input: seq<nat>, p: nat): nat -> set<nat> {
    c => PairSums(Window(input, c, p))
  }

  /** `calc_valid_numbers` as written: it loops over p windows, not one. */
  method CalcValidNumbers(input: seq<nat>, start: nat, p: nat) returns (valid: set<nat>)
    ensures valid == WindowSums(input, start, p, p)
  {
    valid := {};
    var current := start;
    ghost var f := WindowPairSums(input, p);
    ghost var n := 0;
    while current < p + start
      invariant current == start + n && n <= p
      invariant valid == Unions(f, start, n)
    {
      UnionsStep(f, start, n);
      valid := AddPairSums(Window(input, current, p), valid);
      current, n := current + 1, n + 1;
    }
  }

  /** What the puzzle asks for, and what the name of the preamble says: the
      pair sums of the p numbers just before position start + p. */
  method PreambleSums(input: seq<nat>, start: nat, p: nat) returns (valid: set<nat>)
    ensures valid == PairSums(Window(input, start, p))
  {
    valid := AddPairSums(Window(input, start, p), {});
  }

  /** The window set always holds the preamble's sums: the source accepts
      every number the puzzle accepts, and possibly more. */
  lemma PreambleWithinWindows(input: seq<nat>, start: nat, p: nat)
    requires p > 0
    ensures PairSums(Window(input, start, p)) <= WindowSums(input, start, p, p)
  {
    forall x | x in PairSums(Window(input, start, p))
      ensures x in WindowSums(input, start, p, p)
    {
      assert x in WindowPairSums(input, p)(start);
      UnionsMembers(WindowPairSums(input, p), start, p, x);
    }
  }

  // ---------------------------------------------------------------------
  // find_invalid_number

  /** The first position at or after k whose number is not in its accepted
      set, and that number. */
  function FirstOutside(input: seq<nat>, k: nat, accepted: nat -> set<nat>): Option<nat>
    decreases |input| - k
  {
    if k >= |input| then None
    else if input[k] !in accepted(k) then Some(input[k])
    else FirstOutside(input, k + 1, accepted)
  }

  /** The search finds the first number outside its set, and finds none
      exactly when there is none. */
  lemma {:induction false} FirstOutsideSpec(input: seq<nat>, k: nat, accepted: nat -> set<nat>)
    ensures FirstOutside(input, k, accepted).None? <==> forall j :: k <= j < |input| ==> input[j] in accepted(j)
    ensures FirstOutside(input, k, accepted).Some? ==>
      exists j :: k <= j < |input| && input[j] !in accepted(j) && FirstOutside(input, k, accepted).value == input[j]
        && forall i :: k <= i < j ==> input[i] in accepted(i)
    decreases |input| - k
  {
    if k < |input| && input[k] in accepted(k) {
      FirstOutsideSpec(input, k + 1, accepted);
      if FirstOutside(input, k, accepted).Some? {
        var j :| k + 1 <= j < |input| && input[j] !in accepted(j) && FirstOutside(input, k, accepted).value == input[j]
          && forall i :: k + 1 <= i < j ==> input[i] in accepted(i);
        assert forall i :: k <= i < j ==> input[i] in accepted(i);
      }
    }
  }

  /** For each position j >= p, the sums the source accepts there. */
  function AcceptedAsWritten(input: seq<nat>, p: nat): nat -> set<nat> {
    j => if j >= p then WindowSums(input, j - p, p, p) else {}
  }

  /** For each position j >= p, the sums of two of the p numbers before it. */
  function Accepted(input: seq<nat>, p: nat): nat -> set<nat> {
    j => if j >= p then PairSums(Window(input, j - p, p)) else {}
  }

  /** `find_invalid_number` as written, over `calc_valid_numbers`'s windows;
      `None` where the source's `unwrap` panics. */
  method FindInvalidNumberAsWritten(input: seq<nat>, p: nat) returns (r: Option<nat>)
    ensures r == FirstOutside(input, p, AcceptedAsWritten(input, p))
  {
    var i := 0;
    ghost var accepted := AcceptedAsWritten(input, p);
    while p + i < |input|
      invariant FirstOutside(input, p + i, accepted) == FirstOutside(input, p, accepted)
    {
      var valid := CalcValidNumbers(input, i, p);
      assert valid == accepted(p + i);
      if input[p + i] !in valid {
        return Some(input[p + i]);
      }
      i := i + 1;
    }
    return None;
  }

  /** `find_invalid_number` with the preamble the puzzle means. */
  method FindInvalidNumber(input: seq<nat>, p: nat) returns (r: Option<nat>)
    ensures r == FirstOutside(input, p, Accepted(input, p))
  {
    var i := 0;
    ghost var accepted := Accepted(input, p);
    while p + i < |input|
      invariant FirstOutside(input, p + i, accepted) == FirstOutside(input, p, accepted)
    {
      var valid := PreambleSums(input, i, p);
      assert valid == accepted(p + i);
      if input[p + i] !in valid {
        return Some(input[p + i]);
      }
      i := i + 1;
    }
    return None;
  }

  lemma PairSumsOfTwo(a: nat, b: nat)
    ensures PairSums([a, b]) == {a + b}
  {
    var w := [a, b];
    assert RowSums(w, 0, 2) == {a + b} && RowSums(w, 1, 2) == {};
    assert PairSumsBelow(w, 1) == {a + b};
  }

  /** The windows reach past the number being checked: with preamble 2,
      7 counts as the sum of 0 and itself, so the source finds no invalid
      number in [5, 0, 7] and panics, where the preamble [5, 0] makes 7
      invalid. */
  lemma WindowsReachPast()
    ensures FirstOutside([5, 0, 7], 2, AcceptedAsWritten([5, 0, 7], 2)) == None
    ensures FirstOutside([5, 0, 7], 2, Accepted([5, 0, 7], 2)) == Some(7)
  {
    var input: seq<nat> := [5, 0, 7];
    assert Window(input, 1, 2) == [0, 7];
    PairSumsOfTwo(0, 7);
    UnionsMembers(WindowPairSums(input, 2), 0, 2, 7);
    assert Window(input, 0, 2) == [5, 0];
    PairSumsOfTwo(5, 0);
  }

  // ---------------------------------------------------------------------
  // find_encryption_weakness

  /** Sums of numbers are never negative. */
  lemma {:induction false} SumNonNegative(s: seq<nat>)
    ensures Sum(s) >= 0
  {
    if s != [] {
      SumNonNegative(s[..|s| - 1]);
    }
  }

  /** A stretch of numbers sums to no more than any stretch around it. */
  lemma SumWithin(s: seq<nat>, i: nat, j: nat, i0: nat, j0: nat)
    requires i0 <= i <= j <= j0 <= |s|
    ensures Sum(s[i..j]) <= Sum(s[i0..j0])
  {
    assert s[i0..j0] == s[i0..i] + s[i..j] + s[j..j0];
    SumConcat(s[i0..i] + s[i..j], s[j..j0]);
    SumConcat(s[i0..i], s[i..j]);
    SumNonNegative(s[i0..i]);
    SumNonNegative(s[j..j0]);
  }

  /** n >= 1 numbers from position s that sum to t. */
  predicate IsRun(input: seq<nat>, t: nat, s: nat, n: nat) {
    1 <= n && s + n <= |input| && Sum(input[s..s + n]) == t
  }

  /** The run the search settles on: the one with the leftmost start, and
      the shortest of those. */
  ghost predicate FirstRun(input: seq<nat>, t: nat, s: nat, n: nat) {
    IsRun(input, t, s, n)
    && (forall s': nat, n': nat :: s' < s ==> !IsRun(input, t, s', n'))
    && (forall n': nat :: n' < n ==> !IsRun(input, t, s, n'))
  }

  /** There is at most one first run. */
  lemma FirstRunUnique(input: seq<nat>, t: nat, s: nat, n: nat, s2: nat, n2: nat)
    requires FirstRun(input, t, s, n) && FirstRun(input, t, s2, n2)
    ensures s == s2 && n == n2
  {
    assert !(s < s2) && !(s2 < s);
    assert !(n < n2) && !(n2 < n);
  }

  /** A result that meets the contract of `FindEncryptionWeakness` is fixed
      by the first run. */
  lemma WeaknessOfFirstRun(input: seq<nat>, target: Option<nat>, r: Option<nat>, s: nat, n: nat)
    requires target.Some? && FirstRun(input, target.value, s, n)
    requires r.None? <==> forall s': nat, n': nat :: !IsRun(input, target.value, s', n')
    requires r.Some? ==> exists s': nat, n': nat :: (FirstRun(input, target.value, s', n')
      && r.value == Weakness(input, s', n'))
    ensures r == Some(Weakness(input, s, n))
  {
    assert IsRun(input, target.value, s, n);
    var s': nat, n': nat :| FirstRun(input, target.value, s', n')
      && r.value == Weakness(input, s', n');
    FirstRunUnique(input, target.value, s, n, s', n');
  }

  /** The smallest number of a non-empty list (`min().unwrap()`). */
  function MinOf(w: seq<nat>): (m: nat)
    requires w != []
    ensures m in w && forall i :: 0 <= i < |w| ==> m <= w[i]
  {
    if |w| == 1 then w[0] else var m := MinOf(w[1..]); if w[0] <= m then w[0] else m
  }

  /** The largest number of a non-empty list (`max().unwrap()`). */
  function MaxOf(w: seq<nat>): (m: nat)
    requires w != []
    ensures m in w && forall i :: 0 <= i < |w| ==> w[i] <= m
  {
    if |w| == 1 then w[0] else var m := MaxOf(w[1..]); if w[0] >= m then w[0] else m
  }

  /** The smallest plus the largest number of the n numbers from s. */
  function Weakness(input: seq<nat>, s: nat, n: nat): nat
    requires 1 <= n && s + n <= |input|
  {
    MinOf(input[s..s + n]) + MaxOf(input[s..s + n])
  }

  /** Once a stretch from s overshoots t, every longer one from s does too. */
  lemma PastRun(input: seq<nat>, t: nat, s: nat, n: nat)
    requires s + n <= |input| && Sum(input[s..s + n]) > t
    ensures forall n': nat :: n <= n' ==> !IsRun(input, t, s, n')
  {
    forall n': nat | n <= n'
      ensures !IsRun(input, t, s, n')
    {
      if s + n' <= |input| {
        SumWithin(input, s, s + n, s, s + n');
      }
    }
  }

  /** If everything from s on falls short of t, no run starts at s or later. */
  lemma NoLaterRun(input: seq<nat>, t: nat, s: nat)
    requires s <= |input| && Sum(input[s..]) < t
    ensures forall s': nat, n': nat :: s <= s' ==> !IsRun(input, t, s', n')
  {
    forall s': nat, n': nat | s <= s'
      ensures !IsRun(input, t, s', n')
    {
      if s' + n' <= |input| {
        SumWithin(input, s', s' + n', s, |input|);
        assert input[s..|input|] == input[s..];
      }
    }
  }

  /** The loop of `find_encryption_weakness` for a target t: a window from
      `start` grows while it sums below t and restarts one further on when
      it sums above. The answer is the smallest plus the largest number of
      the first run found. `None` where the source panics (`unwrap` on an
      empty window) or would loop forever (the window has reached the end
      of the list and still sums below t). */
  method WeaknessSearch(input: seq<nat>, t: nat) returns (r: Option<nat>)
    ensures r.None? <==> forall s: nat, n: nat :: !IsRun(input, t, s, n)
    ensures r.Some? ==> exists s: nat, n: nat :: FirstRun(input, t, s, n) && r.value == Weakness(input, s, n)
  {
    var start, range, sum := SlideWindow(input, t);
    if sum != t {
      SearchFails(input, t, start, range);
      return None;
    }
    var w := Window(input, start, range);
    if w == [] {
      SearchEmpty(input, t, start, range);
      return None;
    }
    SearchFound(input, t, start, range);
    WindowWeakness(input, start, range);
    r := Some(MinOf(w) + MaxOf(w));
  }

  /** The sliding loop itself: it stops at a window summing to t, or at one
      that has reached the end of the list and still sums below t. */
  method SlideWindow(input: seq<nat>, t: nat) returns (start: nat, range: nat, sum: int)
    ensures Searching(input, t, start, range) && sum == Sum(Window(input, start, range))
    ensures sum == t || (sum < t && start + range >= |input|)
  {
    start, range := 0, 1;
    sum := Sum(Window(input, start, range));
    while sum != t && !(sum < t && start + range >= |input|)
      invariant Searching(input, t, start, range)
      invariant sum == Sum(Window(input, start, range))
      decreases |input| - start, |input| + 1 - range
    {
      if sum < t {
        SearchGrows(input, t, start, range);
        range := range + 1;
      } else {
        SearchRestarts(input, t, start, range);
        start := start + 1;
        range := 1;
      }
      sum := Sum(Window(input, start, range));
    }
  }

  /** The invariant of the search: no run starts before `start`, and none
      from `start` is shorter than `range`. */
  ghost predicate Searching(input: seq<nat>, t: nat, start: nat, range: nat) {
    start <= |input| && 1 <= range
    && (start < |input| ==> start + range <= |input|)
    && (start == |input| ==> range == 1)
    && (forall s': nat, n': nat :: s' < start ==> !IsRun(input, t, s', n'))
    && (forall n': nat :: n' < range ==> !IsRun(input, t, start, n'))
  }

  /** A window that sums below t grows by one. */
  lemma SearchGrows(input: seq<nat>, t: nat, start: nat, range: nat)
    requires Searching(input, t, start, range) && Sum(Window(input, start, range)) < t
    requires start + range < |input|
    ensures Searching(input, t, start, range + 1)
  {
    assert Window(input, start, range) == input[start..start + range];
  }

  /** A window that sums above t restarts one further on. */
  lemma SearchRestarts(input: seq<nat>, t: nat, start: nat, range: nat)
    requires Searching(input, t, start, range) && Sum(Window(input, start, range)) > t
    ensures Searching(input, t, start + 1, 1)
  {
    assert start < |input|;
    assert Window(input, start, range) == input[start..start + range];
    PastRun(input, t, start, range);
  }

  /** A window that reaches the end and still sums below t: no run at all. */
  lemma SearchFails(input: seq<nat>, t: nat, start: nat, range: nat)
    requires Searching(input, t, start, range) && Sum(Window(input, start, range)) < t
    requires start + range >= |input|
    ensures forall s: nat, n: nat :: !IsRun(input, t, s, n)
  {
    if start < |input| {
      assert Window(input, start, range) == input[start..];
    }
    NoLaterRun(input, t, start);
  }

  /** The window has run past the end (t is 0 and no number is): no run. */
  lemma SearchEmpty(input: seq<nat>, t: nat, start: nat, range: nat)
    requires Searching(input, t, start, range) && Window(input, start, range) == []
    ensures forall s: nat, n: nat :: !IsRun(input, t, s, n)
  {
    assert start == |input|;
  }

  /** A non-empty window summing to t is the first run. */
  lemma SearchFound(input: seq<nat>, t: nat, start: nat, range: nat)
    requires Searching(input, t, start, range) && Sum(Window(input, start, range)) == t
    requires Window(input, start, range) != []
    ensures IsRun(input, t, start, range) && FirstRun(input, t, start, range)
  {
    assert start < |input|;
    WindowInside(input, start, range);
  }

  /** A window that fits in the list is the slice it names. */
  lemma WindowInside(input: seq<nat>, start: nat, range: nat)
    requires start + range <= |input|
    ensures Window(input, start, range) == input[start..start + range]
  {
  }

  /** The weakness of a window that fits in the list. */
  lemma WindowWeakness(input: seq<nat>, start: nat, range: nat)
    requires 1 <= range && start + range <= |input|
    ensures MinOf(Window(input, start, range)) + MaxOf(Window(input, start, range)) == Weakness(input, start, range)
  {
    WindowInside(input, start, range);
  }

  /** `find_encryption_weakness` as written: the target is what
      `find_invalid_number` finds over `calc_valid_numbers`'s windows;
      `None` where that panics. */
  method FindEncryptionWeaknessAsWritten(input: seq<nat>, p: nat) returns (r: Option<nat>)
    ensures FirstOutside(input, p, AcceptedAsWritten(input, p)).None? ==> r.None?
    ensures FirstOutside(input, p, AcceptedAsWritten(input, p)).Some? ==>
      (r.None? <==> forall s: nat, n: nat :: !IsRun(input, FirstOutside(input, p, AcceptedAsWritten(input, p)).value, s, n))
    ensures r.Some? ==> exists s: nat, n: nat :: (FirstRun(input, FirstOutside(input, p, AcceptedAsWritten(input, p)).value, s, n)
      && r.value == Weakness(input, s, n))
  {
    var target := FindInvalidNumberAsWritten(input, p);
    if target.None? {
      return None;
    }
    r := WeaknessSearch(input, target.value);
  }

  /** `find_encryption_weakness` with the target the puzzle means: the first
      number that is no sum of two of the p numbers before it. */
  method FindEncryptionWeakness(input: seq<nat>, p: nat) returns (r: Option<nat>)
    ensures FirstOutside(input, p, Accepted(input, p)).None? ==> r.None?
    ensures FirstOutside(input, p, Accepted(input, p)).Some? ==>
      (r.None? <==> forall s: nat, n: nat :: !IsRun(input, FirstOutside(input, p, Accepted(input, p)).value, s, n))
    ensures r.Some? ==> exists s: nat, n: nat :: (FirstRun(input, FirstOutside(input, p, Accepted(input, p)).value, s, n)
      && r.value == Weakness(input, s, n))
  {
    var target := FindInvalidNumber(input, p);
    if target.None? {
      return None;
    }
    r := WeaknessSearch(input, target.value);
  }

  // ---------------------------------------------------------------------
  // input_generator

  /** `input_generator`: the numbers of the lines that parse. */
  function InputGenerator(input: string): seq<nat> {
    Numbers(Lines(input))
  }

  /** The generator reads back a list written one number per line. */
  lemma GeneratorRoundTrip(ns: seq<nat>)
    requires ns != []
    ensures InputGenerator(Join(NumberLines(ns), '\n')) == ns
  {
    NumbersOfText(ns);
  }

  // ---------------------------------------------------------------------
  // examples

  /** The windows from position 0 of [1, 2, 3, 4, 5] with preamble 5 give
      the sums 3 to 9 and nothing outside them. */
  lemma CalcExample(input: seq<nat>)
    requires input == [1, 2, 3, 4, 5]
    ensures 3 in WindowSums(input, 0, 5, 5) && 9 in WindowSums(input, 0, 5, 5)
    ensures 1 !in WindowSums(input, 0, 5, 5) && 2 !in WindowSums(input, 0, 5, 5)
    ensures 10 !in WindowSums(input, 0, 5, 5)
  {
    CalcExampleHits(input);
    CalcExampleMisses(input);
  }

  /** 1 + 2 and 4 + 5 are pair sums of the first window. */
  lemma CalcExampleHits(input: seq<nat>)
    requires input == [1, 2, 3, 4, 5]
    ensures 3 in WindowSums(input, 0, 5, 5) && 9 in WindowSums(input, 0, 5, 5)
  {
    var f := WindowPairSums(input, 5);
    assert Window(input, 0, 5) == input;
    PairSumsMembers(input, 3);
    assert input[0] + input[1] == 3;
    PairSumsMembers(input, 9);
    assert input[3] + input[4] == 9;
    UnionsMembers(f, 0, 5, 3);
    UnionsMembers(f, 0, 5, 9);
  }

  /** No window of [1, 2, 3, 4, 5] has two numbers summing to 1, 2 or 10. */
  lemma CalcExampleMisses(input: seq<nat>)
    requires input == [1, 2, 3, 4, 5]
    ensures 1 !in WindowSums(input, 0, 5, 5) && 2 !in WindowSums(input, 0, 5, 5)
    ensures 10 !in WindowSums(input, 0, 5, 5)
  {
    var f := WindowPairSums(input, 5);
    forall x: nat, c: nat | (x == 1 || x == 2 || x == 10) && c < 5
      ensures x !in f(c)
    {
      var w := Window(input, c, 5);
      assert w == input[c..];
      assert forall k :: 0 <= k < |w| ==> w[k] == c + k + 1;
      PairSumsMembers(w, x);
    }
    UnionsMembers(f, 0, 5, 1);
    UnionsMembers(f, 0, 5, 2);
    UnionsMembers(f, 0, 5, 10);
  }

  const Example: seq<nat> := [35, 20, 15, 25, 47, 40, 62, 55, 65, 95, 102, 117, 150, 182, 127, 219, 299, 277, 309, 576]

  /** Numbers inside their accepted sets are passed over. */
  lemma {:induction false} FirstOutsideSkip(input: seq<nat>, k: nat, m: nat, accepted: nat -> set<nat>)
    requires k <= m <= |input|
    requires forall j :: k <= j < m ==> input[j] in accepted(j)
    ensures FirstOutside(input, k, accepted) == FirstOutside(input, m, accepted)
    decreases m - k
  {
    if k < m {
      FirstOutsideSkip(input, k + 1, m, accepted);
    }
  }

  /** The number at position k is the sum of the entries at positions i and
      j of its preamble. */
  lemma ExampleAccepted(input: seq<nat>, k: nat, i: nat, j: nat)
    requires 5 <= k < |input| && i < j < 5 && input[k] == input[k - 5 + i] + input[k - 5 + j]
    ensures input[k] in Accepted(input, 5)(k)
  {
    var w := Window(input, k - 5, 5);
    assert w == input[k - 5..k];
    assert w[i] + w[j] == input[k];
    PairSumsMembers(w, input[k]);
  }

  /** In the given example the numbers at positions 5 to 13 are all
      sums of two of the five before them. */
  lemma ExamplePreambleSums(input: seq<nat>)
    requires input == Example
    ensures forall k :: 5 <= k < 14 ==> input[k] in Accepted(input, 5)(k)
  {
    var first := [2, 1, 0, 0, 1, 0, 0, 0, 0];
    var second := [3, 3, 3, 2, 3, 1, 1, 2, 3];
    forall k | 5 <= k < 14
      ensures input[k] in Accepted(input, 5)(k)
    {
      ExampleAccepted(input, k, first[k - 5], second[k - 5]);
    }
  }

  lemma ExamplePassesOver(input: seq<nat>)
    requires input == Example
    ensures FirstOutside(input, 5, Accepted(input, 5)) == FirstOutside(input, 14, Accepted(input, 5))
  {
    ExamplePreambleSums(input);
    FirstOutsideSkip(input, 5, 14, Accepted(input, 5));
  }

  /** The as-written windows accept positions 5 to 13 of the example too,
      since they contain the preamble sums. */
  lemma ExamplePassesOverAsWritten(input: seq<nat>)
    requires input == Example
    ensures FirstOutside(input, 5, AcceptedAsWritten(input, 5)) == FirstOutside(input, 14, AcceptedAsWritten(input, 5))
  {
    ExamplePreambleSums(input);
    forall k | 5 <= k < 14
      ensures input[k] in AcceptedAsWritten(input, 5)(k)
    {
      PreambleWithinWindows(input, k - 5, 5);
    }
    FirstOutsideSkip(input, 5, 14, AcceptedAsWritten(input, 5));
  }

  /** At position 14 the as-written windows cover positions 9 to 17, whose
      numbers are all at least 95, so no pair of them sums to 127. */
  lemma ExampleStopsAsWritten(input: seq<nat>)
    requires input == Example
    ensures FirstOutside(input, 14, AcceptedAsWritten(input, 5)) == Some(127)
  {
    var f := WindowPairSums(input, 5);
    var tail := input[9..18];
    assert tail == [95, 102, 117, 150, 182, 127, 219, 299, 277];
    assert forall i :: 0 <= i < |tail| ==> tail[i] >= 95;
    forall c: nat | 9 <= c < 14
      ensures 127 !in f(c)
    {
      var w := Window(input, c, 5);
      assert w == input[c..c + 5];
      forall k | 0 <= k < |w|
        ensures w[k] >= 95
      {
        assert w[k] == tail[c - 9 + k];
      }
      PairSumsAbove(w, 95, 127);
    }
    UnionsMembers(f, 9, 5, 127);
  }

  /** Numbers all at least lo have no pair sum below 2 * lo. */
  lemma PairSumsAbove(w: seq<nat>, lo: nat, x: nat)
    requires forall k :: 0 <= k < |w| ==> w[k] >= lo
    requires x < 2 * lo
    ensures x !in PairSums(w)
  {
    PairSumsMembers(w, x);
  }

  /** The given example under the source's own windows: 127 is still the
      first number found. */
  lemma ExamplePart1AsWritten(input: seq<nat>)
    requires input == Example
    ensures FirstOutside(input, 5, AcceptedAsWritten(input, 5)) == Some(127)
  {
    ExamplePassesOverAsWritten(input);
    ExampleStopsAsWritten(input);
  }

  /** 127 is not a sum of two of 95, 102, 117, 150 and 182. */
  lemma ExampleStops(input: seq<nat>)
    requires input == Example
    ensures FirstOutside(input, 14, Accepted(input, 5)) == Some(127)
  {
    var w := Window(input, 9, 5);
    assert w == [95, 102, 117, 150, 182];
    PairSumsMembers(w, 127);
  }

  /** The given example: 127 is the first number that is not a sum of two of
      the five before it. */
  lemma ExamplePart1(input: seq<nat>)
    requires input == Example
    ensures FirstOutside(input, 5, Accepted(input, 5)) == Some(127)
  {
    ExamplePassesOver(input);
    ExampleStops(input);
  }

  /** Adding the next number to a stretch adds it to the sum. */
  lemma SumExtend(xs: seq<nat>, i: nat, j: nat)
    requires i <= j < |xs|
    ensures Sum(xs[i..j + 1]) == Sum(xs[i..j]) + xs[j]
  {
    assert xs[i..j + 1][..j - i] == xs[i..j];
  }

  /** In the given example no run summing to 127 starts at 0: the sums
      from there are 35, 55, 70, 95, 142. */
  lemma ExampleNoRunAt0(input: seq<nat>)
    requires input == Example
    ensures forall n: nat :: !IsRun(input, 127, 0, n)
  {
    assert input[0..0] == [];
    SumExtend(input, 0, 0);
    SumExtend(input, 0, 1);
    SumExtend(input, 0, 2);
    SumExtend(input, 0, 3);
    SumExtend(input, 0, 4);
    PastRun(input, 127, 0, 5);
  }

  /** In the given example no run summing to 127 starts at 1: the sums
      from there are 20, 35, 60, 107, 147. */
  lemma ExampleNoRunAt1(input: seq<nat>)
    requires input == Example
    ensures forall n: nat :: !IsRun(input, 127, 1, n)
  {
    assert input[1..1] == [];
    SumExtend(input, 1, 1);
    SumExtend(input, 1, 2);
    SumExtend(input, 1, 3);
    SumExtend(input, 1, 4);
    SumExtend(input, 1, 5);
    PastRun(input, 127, 1, 5);
  }

  /** In the given example the first run summing to 127 is 15, 25, 47, 40. */
  lemma ExampleFirstRun(input: seq<nat>)
    requires input == Example
    ensures FirstRun(input, 127, 2, 4)
    ensures Weakness(input, 2, 4) == 62
  {
    ExampleNoRunAt0(input);
    ExampleNoRunAt1(input);
    ExampleRunAt2(input);
    ExampleWeakness(input);
  }

  /** From 2 the sums are 15, 40, 87, 127. */
  lemma ExampleRunAt2(input: seq<nat>)
    requires input == Example
    ensures IsRun(input, 127, 2, 4)
    ensures forall n: nat :: n < 4 ==> !IsRun(input, 127, 2, n)
  {
    assert input[2..2] == [];
    SumExtend(input, 2, 2);
    SumExtend(input, 2, 3);
    SumExtend(input, 2, 4);
    SumExtend(input, 2, 5);
  }

  /** 15 + 47 is the weakness of the example's run. */
  lemma ExampleWeakness(input: seq<nat>)
    requires input == Example
    ensures Weakness(input, 2, 4) == 62
  {
    var w := input[2..6];
    assert w == [15, 25, 47, 40];
    MinMaxOfWindow(w);
  }

  lemma MinMaxOfWindow(w: seq<nat>)
    requires w == [15, 25, 47, 40]
    ensures MinOf(w) == 15 && MaxOf(w) == 47
  {
    assert MinOf(w) <= w[0] && MaxOf(w) >= w[2];
  }

  /** The given example: whatever `FindEncryptionWeakness` returns on it
      is 62. */
  lemma ExamplePart2(input: seq<nat>, r: Option<nat>)
    requires input == Example
    requires FirstOutside(input, 5, Accepted(input, 5)).None? ==> r.None?
    requires FirstOutside(input, 5, Accepted(input, 5)).Some? ==>
      (r.None? <==> forall s: nat, n: nat :: !IsRun(input, FirstOutside(input, 5, Accepted(input, 5)).value, s, n))
    requires r.Some? ==> exists s: nat, n: nat :: (FirstRun(input, FirstOutside(input, 5, Accepted(input, 5)).value, s, n)
      && r.value == Weakness(input, s, n))
    ensures r == Some(62)
  {
    ExamplePart1(input);
    ExampleFirstRun(input);
    WeaknessOfFirstRun(input, FirstOutside(input, 5, Accepted(input, 5)), r, 2, 4);
  }

  /** The given example under the source's own windows: whatever
      `FindEncryptionWeaknessAsWritten` returns on it is 62. */
  lemma ExamplePart2AsWritten(input: seq<nat>, r: Option<nat>)
    requires input == Example
    requires FirstOutside(input, 5, AcceptedAsWritten(input, 5)).None? ==> r.None?
    requires FirstOutside(input, 5, AcceptedAsWritten(input, 5)).Some? ==>
      (r.None? <==> forall s: nat, n: nat :: !IsRun(input, FirstOutside(input, 5, AcceptedAsWritten(input, 5)).value, s, n))
    requires r.Some? ==> exists s: nat, n: nat :: (FirstRun(input, FirstOutside(input, 5, AcceptedAsWritten(input, 5)).value, s, n)
      && r.value == Weakness(input, s, n))
    ensures r == Some(62)
  {
    ExamplePart1AsWritten(input);
    ExampleFirstRun(input);
    WeaknessOfFirstRun(input, FirstOutside(input, 5, AcceptedAsWritten(input, 5)), r, 2, 4);
  }
}
