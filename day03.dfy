/** Day 3: a toboggan slides down a map of open squares '.' and trees '#'
    whose rows repeat to the right, and counts the trees it meets. */
module Day3 {
  import opened Common

  // ---------------------------------------------------------------------
  // where the k-th visit lands

  /** Row of the k-th visit when every `skip`-th row is visited. */
  function RowOf(skip: nat, k: nat): nat { k * skip }

  /** Column of the k-th visit: k steps of `slide`, wrapped at the width. */
  function ColumnOf(slide: nat, width: nat, k: nat): nat
    requires width > 0
  {
    (k * slide) % width
  }

  /** Number of rows among 0, skip, 2 skip, ... below n. */
  function Visits(n: nat, skip: nat): nat
    requires skip > 0
  {
    (n + skip - 1) / skip
  }

  /** Visit k happens exactly when its row lies inside the map. */
  lemma VisitsCount(n: nat, skip: nat, k: nat)
    requires skip > 0
    ensures k < Visits(n, skip) <==> RowOf(skip, k) < n
  {
    var q := Visits(n, skip);
    var rem := (n + skip - 1) % skip;
    assert n + skip - 1 == q * skip + rem;
    if k < q {
      MulMono(k, q - 1, skip);
      assert (q - 1) * skip == q * skip - skip;
    } else {
      MulMono(q, k, skip);
    }
  }

  /** The square of visit k exists: the row is inside the map and long
      enough to hold the column. */
  predicate OnMap(input: seq<seq<char>>, slide: nat, skip: nat, width: nat, k: nat)
    requires width > 0
  {
    RowOf(skip, k) < |input| && ColumnOf(slide, width, k) < |input[RowOf(skip, k)]|
  }

  /** Visit k meets a tree. */
  predicate TreeOnVisit(input: seq<seq<char>>, slide: nat, skip: nat, width: nat, k: nat)
    requires width > 0
  {
    OnMap(input, slide, skip, width, k) && input[RowOf(skip, k)][ColumnOf(slide, width, k)] == '#'
  }

  /** Trees met during the first k visits. */
  function TreesBefore(input: seq<seq<char>>, slide: nat, skip: nat, width: nat, k: nat): (n: nat)
    requires width > 0
    ensures n <= k
  {
    if k == 0 then 0
    else TreesBefore(input, slide, skip, width, k - 1) + (if TreeOnVisit(input, slide, skip, width, k - 1) then 1 else 0)
  }

  /** What sliding down a slope yields: the width is the first row's length;
      `None` where the source panics, that is for an empty map, a line skip of
      0, or a visited row too short for its column. */
  function SlopeTrees(input: seq<seq<char>>, slide: nat, skip: nat): Option<nat> {
    if |input| == 0 || skip == 0 || |input[0]| == 0 then None
    else
      var width := |input[0]|;
      if exists k :: 0 <= k < Visits(|input|, skip) && !OnMap(input, slide, skip, width, k) then None
      else Some(TreesBefore(input, slide, skip, width, Visits(|input|, skip)))
  }

  /** Stepping the column by `slide` and wrapping it keeps it at k * slide
      modulo the width. */
  lemma ColumnStep(slide: nat, width: nat, k: nat)
    requires width > 0
    ensures (ColumnOf(slide, width, k) + slide) % width == ColumnOf(slide, width, k + 1)
  {
    var a := k * slide;
    assert (k + 1) * slide == a + slide;
    assert a == (a / width) * width + a % width;
    ModAddMultiple(a % width + slide, a / width, width);
  }

  lemma ModAddMultiple(x: nat, q: nat, width: nat)
    requires width > 0
    ensures (q * width + x) % width == x % width
  {
    var y := q * width + x;
    assert x == (x / width) * width + x % width;
    assert y == (q + x / width) * width + x % width;
    ModUnique(y, width, q + x / width, x % width);
  }

  /** A visit inside the map: it is on the map, it adds the tree it meets,
      and the next visit lies `skip` rows down and `slide` columns right. */
  lemma VisitStep(input: seq<seq<char>>, slide: nat, skip: nat, width: nat, k: nat)
    requires width > 0 && skip > 0
    requires RowOf(skip, k) < |input| && ColumnOf(slide, width, k) < |input[RowOf(skip, k)]|
    ensures OnMap(input, slide, skip, width, k)
    ensures k < Visits(|input|, skip)
    ensures TreesBefore(input, slide, skip, width, k + 1)
         == TreesBefore(input, slide, skip, width, k)
            + (if input[RowOf(skip, k)][ColumnOf(slide, width, k)] == '#' then 1 else 0)
    ensures (ColumnOf(slide, width, k) + slide) % width == ColumnOf(slide, width, k + 1)
    ensures RowOf(skip, k) + skip == RowOf(skip, k + 1)
  {
    VisitsCount(|input|, skip, k);
    ColumnStep(slide, width, k);
  }

  /** `get_trees_on_slope`: visit rows 0, skip, 2 skip, ..., moving `slide`
      columns right on each visit and wrapping at the first row's width. */
  method GetTreesOnSlope(input: seq<seq<char>>, slide: nat, lineSkip: nat) returns (r: Option<nat>)
    ensures r == SlopeTrees(input, slide, lineSkip)
  {
    if |input| == 0 || lineSkip == 0 {
      return None;
    }
    var width := |input[0]|;
    var trees := 0;
    var current := 0;
    var row := 0;
    ghost var k := 0;
    while row < |input|
      invariant row == RowOf(lineSkip, k)
      invariant width == 0 ==> k == 0 && current == 0
      invariant width > 0 ==> k <= Visits(|input|, lineSkip)
      invariant width > 0 ==> current == ColumnOf(slide, width, k)
      invariant width > 0 ==> forall j :: 0 <= j < k ==> OnMap(input, slide, lineSkip, width, j)
      invariant width > 0 ==> trees == TreesBefore(input, slide, lineSkip, width, k)
      decreases |input| - row
    {
      if current >= |input[row]| {
        if width > 0 {
          VisitsCount(|input|, lineSkip, k);
          assert !OnMap(input, slide, lineSkip, width, k);
        }
        return None;
      }
      VisitStep(input, slide, lineSkip, width, k);
      if input[row][current] == '#' {
        trees := trees + 1;
      }
      current := current + slide;
      current := current % width;
      row := row + lineSkip;
      k := k + 1;
    }
    VisitsCount(|input|, lineSkip, k);
    return Some(trees);
  }


  /** At most one tree per visited row. */
  lemma SlopeTreesBound(input: seq<seq<char>>, slide: nat, skip: nat)
    requires SlopeTrees(input, slide, skip).Some?
    ensures skip > 0 && SlopeTrees(input, slide, skip).value <= Visits(|input|, skip)
    ensures SlopeTrees(input, slide, skip).value <= |input|
  {
    var n := |input|;
    assert Visits(n, skip) <= n by {
      if Visits(n, skip) > n {
        VisitsCount(n, skip, n);
        MulMono(1, skip, n);
      }
    }
  }

  // ---------------------------------------------------------------------
  // the `cycle` variant of part 1

  /** Trees met on the first k rows when row j is read at column 3 j through
      an endless repetition of the row itself. */
  function CycleTreesBefore(input: seq<seq<char>>, k: nat): (n: nat)
    requires k <= |input|
    requires forall j :: 0 <= j < k ==> |input[j]| > 0
    ensures n <= k
  {
    if k == 0 then 0
    else CycleTreesBefore(input, k - 1) + (if input[k - 1][(3 * (k - 1)) % |input[k - 1]|] == '#' then 1 else 0)
  }

  /** What `day3_part_1_its` yields: `None` when some row is empty (the
      repetition of an empty row has no element to unwrap). */
  function CycleTrees(input: seq<seq<char>>): Option<nat> {
    if exists j :: 0 <= j < |input| && |input[j]| == 0 then None
    else Some(CycleTreesBefore(input, |input|))
  }

  /** `day3_part_1_its`: every row, column advancing by 3, each row repeated
      as far as needed. */
  method PartOneIts(input: seq<seq<char>>) returns (r: Option<nat>)
    ensures r == CycleTrees(input)
  {
    var trees := 0;
    var currentIndex := 0;
    var i := 0;
    while i < |input|
      invariant 0 <= i <= |input|
      invariant currentIndex == 3 * i
      invariant forall j :: 0 <= j < i ==> |input[j]| > 0
      invariant trees == CycleTreesBefore(input, i)
    {
      var line := input[i];
      if |line| == 0 {
        return None;
      }
      if line[currentIndex % |line|] == '#' {
        trees := trees + 1;
      }
      currentIndex := currentIndex + 3;
      i := i + 1;
    }
    return Some(trees);
  }

  /** On a map whose rows all have the same non-zero width, the `cycle`
      variant agrees with `get_trees_on_slope(input, 3, 1)`. */
  lemma CycleAgreesWithSlope(input: seq<seq<char>>)
    requires |input| > 0 && |input[0]| > 0
    requires forall j :: 0 <= j < |input| ==> |input[j]| == |input[0]|
    ensures CycleTrees(input) == SlopeTrees(input, 3, 1)
  {
    var width := |input[0]|;
    var n := |input|;
    assert Visits(n, 1) == n;
    forall k | 0 <= k < n
      ensures OnMap(input, 3, 1, width, k)
    {
      assert RowOf(1, k) == k;
    }
    CycleAgreesBefore(input, n);
  }

  lemma {:induction false} CycleAgreesBefore(input: seq<seq<char>>, k: nat)
    requires k <= |input| && |input| > 0 && |input[0]| > 0
    requires forall j :: 0 <= j < |input| ==> |input[j]| == |input[0]|
    ensures CycleTreesBefore(input, k) == TreesBefore(input, 3, 1, |input[0]|, k)
  {
    if k > 0 {
      CycleAgreesBefore(input, k - 1);
      assert RowOf(1, k - 1) == k - 1;
      assert ColumnOf(3, |input[0]|, k - 1) == (3 * (k - 1)) % |input[k - 1]|;
    }
  }

  // ---------------------------------------------------------------------
  // part 2

  /** The slopes part 2 multiplies over, as (slide, line skip). */
  function Slopes(): seq<(nat, nat)> {
    [(1, 1), (3, 1), (5, 1), (7, 1), (1, 2)]
  }

  /** Product of the tree counts along the given slopes; `None` as soon as
      one slope makes the source panic. */
  function SlopeProduct(input: seq<seq<char>>, slopes: seq<(nat, nat)>): Option<nat> {
    if slopes == [] then Some(1)
    else
      var last := slopes[|slopes| - 1];
      match (SlopeProduct(input, slopes[..|slopes| - 1]), SlopeTrees(input, last.0, last.1))
      case (Some(p), Some(t)) => Some(p * t)
      case _ => None
  }

  /** The product is defined exactly when every slope's count is, and then
      it is zero exactly when some slope meets no tree. */
  lemma {:induction false} SlopeProductCases(input: seq<seq<char>>, slopes: seq<(nat, nat)>)
    ensures SlopeProduct(input, slopes).Some? <==>
      forall i :: 0 <= i < |slopes| ==> SlopeTrees(input, slopes[i].0, slopes[i].1).Some?
    ensures SlopeProduct(input, slopes).Some? ==>
      (SlopeProduct(input, slopes).value == 0 <==>
        exists i :: 0 <= i < |slopes| && SlopeTrees(input, slopes[i].0, slopes[i].1) == Some(0))
  {
    if slopes != [] {
      var init := slopes[..|slopes| - 1];
      SlopeProductCases(input, init);
      assert forall i :: 0 <= i < |init| ==> init[i] == slopes[i];
    }
  }

  /** `day3_part2`. */
  lemma SlopeProductStep(input: seq<seq<char>>, slopes: seq<(nat, nat)>, i: nat)
    requires i < |slopes|
    ensures SlopeProduct(input, slopes[..i + 1])
         == match (SlopeProduct(input, slopes[..i]), SlopeTrees(input, slopes[i].0, slopes[i].1))
            case (Some(p), Some(t)) => Some(p * t)
            case _ => None
  {
    assert slopes[..i + 1][..i] == slopes[..i];
  }

  method Part2(input: seq<seq<char>>) returns (r: Option<nat>)
    ensures r == SlopeProduct(input, Slopes())
  {
    var slopes := Slopes();
    r := Some(1);
    var i := 0;
    while i < |slopes|
      invariant 0 <= i <= |slopes|
      invariant r == SlopeProduct(input, slopes[..i])
    {
      var t := GetTreesOnSlope(input, slopes[i].0, slopes[i].1);
      SlopeProductStep(input, slopes, i);
      r := match (r, t)
        case (Some(p), Some(c)) => Some(p * c)
        case _ => None;
      i := i + 1;
    }
    assert slopes[..i] == slopes;
  }

  // ---------------------------------------------------------------------
  // the repository's tests

  lemma TestBasic()
    ensures SlopeTrees([['.', '#', '.', '.'], ['.', '.', '.', '#']], 3, 1) == Some(1)
  {
    var m := [['.', '#', '.', '.'], ['.', '.', '.', '#']];
    assert Visits(2, 1) == 2;
    assert RowOf(1, 1) == 1 && ColumnOf(3, 4, 1) == 3;
    assert RowOf(1, 0) == 0 && ColumnOf(3, 4, 0) == 0;
    assert forall k :: 0 <= k < 2 ==> OnMap(m, 3, 1, 4, k);
  }

  lemma TestWrapping()
    ensures SlopeTrees([['.', '.', '.', '.'], ['.', '.', '.', '#'], ['.', '.', '#', '.']], 3, 1) == Some(2)
  {
    var m := [['.', '.', '.', '.'], ['.', '.', '.', '#'], ['.', '.', '#', '.']];
    assert Visits(3, 1) == 3;
    assert RowOf(1, 0) == 0 && ColumnOf(3, 4, 0) == 0;
    assert RowOf(1, 1) == 1 && ColumnOf(3, 4, 1) == 3;
    assert RowOf(1, 2) == 2 && ColumnOf(3, 4, 2) == 2;
    assert forall k :: 0 <= k < 3 ==> OnMap(m, 3, 1, 4, k);
  }

  lemma TestLineSkip()
    ensures SlopeTrees([['.', '.', '.', '.'], ['.', '.', '.', '.'], ['.', '.', '#', '.'],
                        ['.', '.', '.', '.'], ['#', '.', '.', '.']], 2, 2) == Some(2)
  {
    var m := [['.', '.', '.', '.'], ['.', '.', '.', '.'], ['.', '.', '#', '.'],
              ['.', '.', '.', '.'], ['#', '.', '.', '.']];
    assert Visits(5, 2) == 3;
    assert RowOf(2, 0) == 0 && ColumnOf(2, 4, 0) == 0;
    assert RowOf(2, 1) == 2 && ColumnOf(2, 4, 1) == 2;
    assert RowOf(2, 2) == 4 && ColumnOf(2, 4, 2) == 0;
    assert forall k :: 0 <= k < 3 ==> OnMap(m, 2, 2, 4, k);
  }

  /** The example map of the repository's test, given by the columns of the
      trees in each of its eleven rows. */
  predicate ExampleTree(r: int, c: int) {
    || (r == 0 && (c == 2 || c == 3))
    || (r == 1 && (c == 0 || c == 4 || c == 8))
    || (r == 2 && (c == 1 || c == 6 || c == 9))
    || (r == 3 && (c == 2 || c == 4 || c == 8 || c == 10))
    || (r == 4 && (c == 1 || c == 5 || c == 6 || c == 9))
    || (r == 5 && (c == 2 || c == 4 || c == 5))
    || (r == 6 && (c == 1 || c == 3 || c == 5 || c == 10))
    || (r == 7 && (c == 1 || c == 10))
    || (r == 8 && (c == 0 || c == 2 || c == 3 || c == 7))
    || (r == 9 && (c == 0 || c == 4 || c == 5 || c == 10))
    || (r == 10 && (c == 1 || c == 4 || c == 8 || c == 10))
  }

  /** `m` is the example map: 11 rows of 11 squares, a tree exactly where
      `ExampleTree` puts one and open ground elsewhere. */
  predicate IsExample(m: seq<seq<char>>) {
    && |m| == 11
    && (forall r :: 0 <= r < 11 ==> |m[r]| == 11)
    && forall r, c :: 0 <= r < 11 && 0 <= c < 11 ==> m[r][c] == if ExampleTree(r, c) then '#' else '.'
  }

  /** The example map exists. */
  lemma ExampleExists()
    ensures IsExample(seq(11, r => seq(11, c => if ExampleTree(r, c) then '#' else '.')))
  {
  }

  /** 1 when visit k meets a tree, 0 otherwise. */
  function Hit(input: seq<seq<char>>, slide: nat, skip: nat, width: nat, k: nat): nat
    requires width > 0
  {
    if TreeOnVisit(input, slide, skip, width, k) then 1 else 0
  }

  /** One visit more adds the tree that visit meets, if any. */
  lemma TreesStep(input: seq<seq<char>>, slide: nat, skip: nat, width: nat, k: nat)
    requires width > 0
    ensures TreesBefore(input, slide, skip, width, k + 1)
         == TreesBefore(input, slide, skip, width, k) + Hit(input, slide, skip, width, k)
  {
  }

  /** Every visit of a slope of one row at a time lands on an 11 by 11 map. */
  lemma ElevenOnMap(input: seq<seq<char>>, slide: nat)
    requires |input| == 11 && forall k :: 0 <= k < 11 ==> |input[k]| == 11
    ensures Visits(11, 1) == 11
    ensures forall k :: 0 <= k < 11 ==> OnMap(input, slide, 1, 11, k)
  {
    assert forall k :: 0 <= k < 11 ==> RowOf(1, k) == k && ColumnOf(slide, 11, k) < 11;
  }

  /** The trees of eleven visits, visit by visit. */
  lemma ElevenTrees(input: seq<seq<char>>, slide: nat, skip: nat)
    ensures TreesBefore(input, slide, skip, 11, 11)
         == Hit(input, slide, skip, 11, 0) + Hit(input, slide, skip, 11, 1) + Hit(input, slide, skip, 11, 2)
            + Hit(input, slide, skip, 11, 3) + Hit(input, slide, skip, 11, 4) + Hit(input, slide, skip, 11, 5)
            + Hit(input, slide, skip, 11, 6) + Hit(input, slide, skip, 11, 7) + Hit(input, slide, skip, 11, 8)
            + Hit(input, slide, skip, 11, 9) + Hit(input, slide, skip, 11, 10)
  {
    assert TreesBefore(input, slide, skip, 11, 0) == 0;
    TreesStep(input, slide, skip, 11, 0);
    TreesStep(input, slide, skip, 11, 1);
    TreesStep(input, slide, skip, 11, 2);
    TreesStep(input, slide, skip, 11, 3);
    TreesStep(input, slide, skip, 11, 4);
    TreesStep(input, slide, skip, 11, 5);
    TreesStep(input, slide, skip, 11, 6);
    TreesStep(input, slide, skip, 11, 7);
    TreesStep(input, slide, skip, 11, 8);
    TreesStep(input, slide, skip, 11, 9);
    TreesStep(input, slide, skip, 11, 10);
  }

  /** On an 11 by 11 map, a slope of one row at a time meets the trees its
      eleven visits meet. */
  lemma ElevenVisits(input: seq<seq<char>>, slide: nat)
    requires |input| == 11 && forall k :: 0 <= k < 11 ==> |input[k]| == 11
    ensures SlopeTrees(input, slide, 1) == Some(TreesBefore(input, slide, 1, 11, 11))
  {
    ElevenOnMap(input, slide);
  }

  /** 1 when the square the k-th visit of a slope of one row at a time lands
      on in the example holds a tree. */
  function Square(slide: nat, k: nat): nat {
    if ExampleTree(k, (k * slide) % 11) then 1 else 0
  }

  lemma ExampleHit(m: seq<seq<char>>, slide: nat, k: nat)
    requires IsExample(m) && k < 11
    ensures Hit(m, slide, 1, 11, k) == Square(slide, k)
  {
    assert m[k][(k * slide) % 11] == (if ExampleTree(k, (k * slide) % 11) then '#' else '.');
  }

  /** The trees a slope of one row at a time meets in the example. */
  function SquareTotal(slide: nat): nat {
    Square(slide, 0) + Square(slide, 1) + Square(slide, 2) + Square(slide, 3)
    + Square(slide, 4) + Square(slide, 5) + Square(slide, 6) + Square(slide, 7)
    + Square(slide, 8) + Square(slide, 9) + Square(slide, 10)
  }

  /** The example's trees on a slope of one row at a time, visit by visit. */
  lemma ExampleTrees(m: seq<seq<char>>, slide: nat)
    requires IsExample(m)
    ensures SlopeTrees(m, slide, 1) == Some(SquareTotal(slide))
  {
    ElevenVisits(m, slide);
    ElevenTrees(m, slide, 1);
    ExampleHit(m, slide, 0);
    ExampleHit(m, slide, 1);
    ExampleHit(m, slide, 2);
    ExampleHit(m, slide, 3);
    ExampleHit(m, slide, 4);
    ExampleHit(m, slide, 5);
    ExampleHit(m, slide, 6);
    ExampleHit(m, slide, 7);
    ExampleHit(m, slide, 8);
    ExampleHit(m, slide, 9);
    ExampleHit(m, slide, 10);
  }

  lemma ExampleSlope1(m: seq<seq<char>>)
    requires IsExample(m)
    ensures SlopeTrees(m, 1, 1) == Some(2)
  {
    ExampleTrees(m, 1);
    assert SquareTotal(1) == 2;
  }

  lemma ExampleSlope3(m: seq<seq<char>>)
    requires IsExample(m)
    ensures SlopeTrees(m, 3, 1) == Some(7)
  {
    ExampleTrees(m, 3);
    assert SquareTotal(3) == 7;
  }

  lemma ExampleSlope5(m: seq<seq<char>>)
    requires IsExample(m)
    ensures SlopeTrees(m, 5, 1) == Some(3)
  {
    ExampleTrees(m, 5);
    assert SquareTotal(5) == 3;
  }

  lemma ExampleSlope7(m: seq<seq<char>>)
    requires IsExample(m)
    ensures SlopeTrees(m, 7, 1) == Some(4)
  {
    ExampleTrees(m, 7);
    assert SquareTotal(7) == 4;
  }

  /** Every other row: visit k lands on row 2 k, column k. */
  lemma ExampleSlopeSkip(m: seq<seq<char>>)
    requires IsExample(m)
    ensures SlopeTrees(m, 1, 2) == Some(2)
  {
    assert Visits(11, 2) == 6;
    forall k | 0 <= k < 6
      ensures OnMap(m, 1, 2, 11, k)
      ensures Hit(m, 1, 2, 11, k) == if ExampleTree(2 * k, k) then 1 else 0
    {
      assert RowOf(2, k) == 2 * k && ColumnOf(1, 11, k) == k;
      assert m[2 * k][k] == (if ExampleTree(2 * k, k) then '#' else '.');
    }
    assert TreesBefore(m, 1, 2, 11, 0) == 0;
    TreesStep(m, 1, 2, 11, 0);
    TreesStep(m, 1, 2, 11, 1);
    TreesStep(m, 1, 2, 11, 2);
    TreesStep(m, 1, 2, 11, 3);
    TreesStep(m, 1, 2, 11, 4);
    TreesStep(m, 1, 2, 11, 5);
  }

  /** The example's product over the five slopes, as the repository's test
      expects. */
  lemma ExamplePart2(m: seq<seq<char>>)
    requires IsExample(m)
    ensures SlopeProduct(m, Slopes()) == Some(336)
  {
    ExampleSlope1(m);
    ExampleSlope3(m);
    ExampleSlope5(m);
    ExampleSlope7(m);
    ExampleSlopeSkip(m);
    var s := Slopes();
    var none: seq<(nat, nat)> := [];
    assert s[..1] == [(1, 1)] && [(1, 1)][..0] == none;
    assert SlopeProduct(m, s[..1]) == Some(2);
    assert s[..2][..1] == s[..1] && s[..2][1] == (3, 1);
    assert SlopeProduct(m, s[..2]) == Some(14);
    assert s[..3][..2] == s[..2] && s[..3][2] == (5, 1);
    assert SlopeProduct(m, s[..3]) == Some(42);
    assert s[..4][..3] == s[..3] && s[..4][3] == (7, 1);
    assert SlopeProduct(m, s[..4]) == Some(168);
    assert s[..4] == s[..|s| - 1];
  }
}
