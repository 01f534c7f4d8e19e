/** Day 10: a chain of joltage adapters. The generator sorts the ratings
    and puts the outlet's 0 in front; part 1 counts the differences of 1
    and of 3 between neighbours (the device adds one more 3). */
module Day10 {
  import opened Common

  predicate Sorted(s: seq<nat>) {
    forall i, j :: 0 <= i < j < |s| ==> s[i] <= s[j]
  }

  // ---------------------------------------------------------------------
  // input_generator

  /** x put into a sorted list in front of the first entry not below it. */
  function Insert(x: nat, s: seq<nat>): (r: seq<nat>)
    requires Sorted(s)
    ensures |r| == |s| + 1
    ensures Sorted(r) && multiset(r) == multiset(s) + multiset{x}
  {
    if s == [] || x <= s[0] then
      SortedCons(x, s);
      [x] + s
    else
      SortedTail(s);
      var rest := Insert(x, s[1..]);
      assert s == [s[0]] + s[1..];
      forall k | 0 <= k < |rest|
        ensures s[0] <= rest[k]
      {
        assert rest[k] in multiset(s[1..]) + multiset{x};
      }
      SortedCons(s[0], rest);
      [s[0]] + rest
  }

  /** A number no larger than any entry of a sorted list can go in front. */
  lemma SortedCons(y: nat, t: seq<nat>)
    requires Sorted(t) && (t != [] ==> y <= t[0])
    ensures Sorted([y] + t)
  {
    var r := [y] + t;
    forall i, j | 0 <= i < j < |r|
      ensures r[i] <= r[j]
    {
      if i > 0 {
        assert r[i] == t[i - 1] && r[j] == t[j - 1];
      } else {
        assert r[j] == t[j - 1] && t[0] <= t[j - 1];
      }
    }
  }

  /** A sorted arrangement of s; it stands for Rust's `sort_unstable`,
      whose result is fixed by its contract (`SortedUnique`). */
  function Sort(s: seq<nat>): (r: seq<nat>)
    ensures |r| == |s|
    ensures Sorted(r) && multiset(r) == multiset(s)
  {
    if s == [] then []
    else
      assert s == [s[0]] + s[1..];
      Insert(s[0], Sort(s[1..]))
  }

  /** Two sorted arrangements of the same numbers are equal. */
  lemma {:induction false} SortedUnique(a: seq<nat>, b: seq<nat>)
    requires Sorted(a) && Sorted(b) && multiset(a) == multiset(b)
    ensures a == b
  {
    if a != [] {
      assert |b| == |multiset(b)| == |a|;
      assert a[0] in multiset(b) && b[0] in multiset(a);
      assert a[0] in b && b[0] in a;
      assert a[0] == b[0];
      assert a == [a[0]] + a[1..] && b == [b[0]] + b[1..];
      assert multiset(a) == multiset{a[0]} + multiset(a[1..]);
      assert multiset(b) == multiset{b[0]} + multiset(b[1..]);
      assert multiset(a[1..]) == multiset(a) - multiset{a[0]};
      SortedTail(a);
      SortedTail(b);
      SortedUnique(a[1..], b[1..]);
    }
  }

  lemma SortedTail(s: seq<nat>)
    requires Sorted(s) && s != []
    ensures Sorted(s[1..])
  {
    forall i, j | 0 <= i < j < |s| - 1
      ensures s[1..][i] <= s[1..][j]
    {
      assert s[1..][i] == s[i + 1] && s[1..][j] == s[j + 1];
    }
  }

  /** 0 in front of a sorted list of naturals keeps it sorted. */
  lemma PrependZero(s: seq<nat>)
    requires Sorted(s)
    ensures Sorted([0] + s)
  {
    var t := [0] + s;
    forall i, j | 0 <= i < j < |t|
      ensures t[i] <= t[j]
    {
      if i > 0 {
        assert t[i] == s[i - 1] && t[j] == s[j - 1];
      }
    }
  }

  /** `input_generator`: the numbers of the lines that parse, sorted, with
      0 put in front. */
  method InputGenerator(input: string) returns (numbers: seq<nat>)
    ensures |numbers| == |Numbers(Lines(input))| + 1
    ensures numbers[0] == 0 && Sorted(numbers)
    ensures multiset(numbers) == multiset{0} + multiset(Numbers(Lines(input)))
  {
    numbers := Numbers(Lines(input));
    numbers := Sort(numbers);
    PrependZero(numbers);
    numbers := [0] + numbers;
  }

  // ---------------------------------------------------------------------
  // day10_part1

  /** The difference between s[j] and the number before it. */
  function Diff(s: seq<nat>, j: nat): int
    requires 1 <= j < |s|
  {
    s[j] as int - s[j - 1] as int
  }

  /** The number of windows (s[j - 1], s[j]) with 0 < j < k whose
      difference is d. */
  function WindowGaps(s: seq<nat>, d: int, k: nat): nat {
    if k == 0 then 0 else WindowGaps(s, d, k - 1) + (if k - 1 >= 1 && k - 1 < |s| && Diff(s, k - 1) == d then 1 else 0)
  }

  /** The number of neighbours in s that differ by d. */
  function Gaps(s: seq<nat>, d: int): nat {
    WindowGaps(s, d, |s|)
  }

  /** Every neighbour is 1 to 3 above the one before it, so each difference
      has a slot in the three-entry histogram. */
  predicate SmallSteps(s: seq<nat>) {
    forall j :: 1 <= j < |s| ==> 1 <= Diff(s, j) <= 3
  }

  /** `day10_part1`: the histogram starts at [0, 0, 1] and each difference d
      adds 1 to entry d - 1; the answer is entry 0 times entry 2. A
      difference outside 1..3 indexes outside the histogram and panics
      (`None`). */
  method Part1(input: seq<nat>) returns (r: Option<nat>)
    ensures r.None? <==> !SmallSteps(input)
    ensures r.Some? ==> r.value == Gaps(input, 1) * (Gaps(input, 3) + 1)
  {
    var frequency := new nat[3];
    frequency[0], frequency[1], frequency[2] := 0, 0, 1;
    var i := 1;
    while i < |input|
      invariant 1 <= i && (i <= |input| || i == 1)
      invariant forall j :: 1 <= j < i && j < |input| ==> 1 <= Diff(input, j) <= 3
      invariant frequency[0] == WindowGaps(input, 1, i)
      invariant frequency[1] == WindowGaps(input, 2, i)
      invariant frequency[2] == WindowGaps(input, 3, i) + 1
    {
      var d := input[i] as int - input[i - 1] as int;
      if d < 1 || d > 3 {
        assert Diff(input, i) == d;
        return None;
      }
      frequency[d - 1] := frequency[d - 1] + 1;
      i := i + 1;
    }
    assert WindowGaps(input, 1, i) == Gaps(input, 1) && WindowGaps(input, 3, i) == Gaps(input, 3);
    r := Some(frequency[0] * frequency[2]);
  }

  /** With small steps, the windows of differences 1, 2 and 3 are all the
      windows there are. */
  lemma {:induction false} WindowGapsCount(s: seq<nat>, k: nat)
    requires SmallSteps(s) && 1 <= k <= |s|
    ensures WindowGaps(s, 1, k) + WindowGaps(s, 2, k) + WindowGaps(s, 3, k) == k - 1
  {
    if k > 1 {
      WindowGapsCount(s, k - 1);
    }
  }

  /** With small steps, the differences add up to the rise from the first
      to the k-th number. */
  lemma {:induction false} WindowGapsRise(s: seq<nat>, k: nat)
    requires SmallSteps(s) && 1 <= k <= |s|
    ensures WindowGaps(s, 1, k) + 2 * WindowGaps(s, 2, k) + 3 * WindowGaps(s, 3, k) == s[k - 1] as int - s[0] as int
  {
    if k > 1 {
      WindowGapsRise(s, k - 1);
    }
  }

  /** A chain of small steps has |s| - 1 windows of difference 1, 2 or 3. */
  lemma GapsCount(s: seq<nat>)
    requires SmallSteps(s) && s != []
    ensures Gaps(s, 1) + Gaps(s, 2) + Gaps(s, 3) == |s| - 1
  {
    WindowGapsCount(s, |s|);
  }

  /** The differences of a chain of small steps add up to the rise from the
      outlet to the last adapter. */
  lemma GapsRise(s: seq<nat>)
    requires SmallSteps(s) && s != []
    ensures Gaps(s, 1) + 2 * Gaps(s, 2) + 3 * Gaps(s, 3) == s[|s| - 1] as int - s[0] as int
  {
    WindowGapsRise(s, |s|);
  }

  // ---------------------------------------------------------------------
  // examples

  const ExampleChain: seq<nat> := [0, 1, 2, 3, 4, 7, 8, 9, 10, 11, 14, 17, 18, 19, 20, 23, 24, 25, 28, 31, 32, 33, 34, 35, 38, 39, 42, 45, 46, 47, 48, 49]

  /** Checks the differences from position k onwards, one at a time. */
  predicate StepsFrom(s: seq<nat>, k: nat)
    decreases |s| - k
  {
    k >= |s| || (1 <= k && 1 <= Diff(s, k) <= 3 && StepsFrom(s, k + 1))
  }

  lemma {:induction false} StepsFromSmall(s: seq<nat>, k: nat, j: nat)
    requires 1 <= k <= j < |s| && StepsFrom(s, k)
    ensures 1 <= Diff(s, j) <= 3
    decreases j - k
  {
    if k < j {
      StepsFromSmall(s, k + 1, j);
    }
  }

  /** Counts the differences d from position k onwards, one at a time. */
  function GapsFrom(s: seq<nat>, d: int, k: nat): nat
    decreases |s| - k
  {
    if k >= |s| then 0
    else (if 1 <= k && Diff(s, k) == d then 1 else 0) + GapsFrom(s, d, k + 1)
  }

  lemma {:induction false} GapsFromWindows(s: seq<nat>, d: int, k: nat)
    requires 1 <= k <= |s|
    ensures WindowGaps(s, d, k) + GapsFrom(s, d, k) == GapsFrom(s, d, 1)
  {
    if k > 1 {
      GapsFromWindows(s, d, k - 1);
    }
  }

  lemma ExampleSmallSteps()
    ensures SmallSteps(ExampleChain)
  {
    var s := ExampleChain;
    assert StepsFrom(s, 29);
    assert StepsFrom(s, 25);
    assert StepsFrom(s, 21);
    assert StepsFrom(s, 17);
    assert StepsFrom(s, 13);
    assert StepsFrom(s, 9);
    assert StepsFrom(s, 5);
    assert StepsFrom(s, 1);
    forall j | 1 <= j < |ExampleChain|
      ensures 1 <= Diff(ExampleChain, j) <= 3
    {
      StepsFromSmall(ExampleChain, 1, j);
    }
  }

  lemma ExampleOnes()
    ensures Gaps(ExampleChain, 1) == 22
  {
    var s := ExampleChain;
    assert GapsFrom(s, 1, 31) == 1;
    assert GapsFrom(s, 1, 29) == 3;
    assert GapsFrom(s, 1, 27) == 4;
    assert GapsFrom(s, 1, 25) == 5;
    assert GapsFrom(s, 1, 23) == 6;
    assert GapsFrom(s, 1, 21) == 8;
    assert GapsFrom(s, 1, 19) == 9;
    assert GapsFrom(s, 1, 17) == 10;
    assert GapsFrom(s, 1, 15) == 11;
    assert GapsFrom(s, 1, 13) == 13;
    assert GapsFrom(s, 1, 11) == 14;
    assert GapsFrom(s, 1, 9) == 15;
    assert GapsFrom(s, 1, 7) == 17;
    assert GapsFrom(s, 1, 5) == 18;
    assert GapsFrom(s, 1, 3) == 20;
    assert GapsFrom(s, 1, 1) == 22;
    GapsFromWindows(s, 1, |s|);
  }

  lemma ExampleThrees()
    ensures Gaps(ExampleChain, 3) == 9
  {
    var s := ExampleChain;
    assert GapsFrom(s, 3, 31) == 0;
    assert GapsFrom(s, 3, 29) == 0;
    assert GapsFrom(s, 3, 27) == 1;
    assert GapsFrom(s, 3, 25) == 2;
    assert GapsFrom(s, 3, 23) == 3;
    assert GapsFrom(s, 3, 21) == 3;
    assert GapsFrom(s, 3, 19) == 4;
    assert GapsFrom(s, 3, 17) == 5;
    assert GapsFrom(s, 3, 15) == 6;
    assert GapsFrom(s, 3, 13) == 6;
    assert GapsFrom(s, 3, 11) == 7;
    assert GapsFrom(s, 3, 9) == 8;
    assert GapsFrom(s, 3, 7) == 8;
    assert GapsFrom(s, 3, 5) == 9;
    assert GapsFrom(s, 3, 3) == 9;
    assert GapsFrom(s, 3, 1) == 9;
    GapsFromWindows(s, 3, |s|);
  }

  /** The example chain has 22 differences of 1 and 9 of 3: 22 * 10 = 220. */
  lemma ExamplePart1(r: Option<nat>)
    requires r.None? <==> !SmallSteps(ExampleChain)
    requires r.Some? ==> r.value == Gaps(ExampleChain, 1) * (Gaps(ExampleChain, 3) + 1)
    ensures r == Some(220)
  {
    ExampleSmallSteps();
    ExampleOnes();
    ExampleThrees();
  }
}
