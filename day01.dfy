/** Day 1: find entries of the expense report that sum to 2020 and return
    their product. Both parts are nested loops that return at the first hit. */
module Day1 {
  import opened Common

  /** Position pair (i, j) that the part-1 loops reach, with j starting at i,
      whose entries sum to 2020. */
  predicate PairHit(input: seq<nat>, i: int, j: int) {
    0 <= i <= j < |input| && input[i] + input[j] == 2020
  }

  /** Part 1: the product of the first hit in loop order (i, then j);
      `None` where the source panics because there is no hit. */
  method Part1(input: seq<nat>) returns (r: Option<nat>)
    ensures r.None? <==> forall i, j :: !PairHit(input, i, j)
    ensures r.Some? ==>
      exists i, j :: PairHit(input, i, j) && r.value == input[i] * input[j]
        && forall i', j' :: (i' < i || (i' == i && j' < j)) ==> !PairHit(input, i', j')
  {
    var i := 0;
    while i < |input|
      invariant 0 <= i <= |input|
      invariant forall i', j' :: i' < i ==> !PairHit(input, i', j')
    {
      var j := i;
      while j < |input|
        invariant i <= j <= |input|
        invariant forall j' :: j' < j ==> !PairHit(input, i, j')
      {
        if input[i] + input[j] == 2020 {
          assert PairHit(input, i, j);
          return Some(input[i] * input[j]);
        }
        j := j + 1;
      }
      i := i + 1;
    }
    return None;
  }

  /** Position triple the part-2 loops reach: y's position j runs from i, and
      z's position k starts at j - i, the index of y within the iterator that
      skipped i elements, not at j itself. */
  predicate TripleHit(input: seq<nat>, i: int, j: int, k: int) {
    0 <= i <= j < |input| && j - i <= k < |input| && input[i] + input[j] + input[k] == 2020
  }

  /** (i', j', k') comes before (i, j, k) in the loops' order. */
  predicate Before(i': int, j': int, k': int, i: int, j: int, k: int) {
    i' < i || (i' == i && j' < j) || (i' == i && j' == j && k' < k)
  }

  /** Part 2: the product of the first hit in loop order; `None` where the
      source panics. */
  method Part2(input: seq<nat>) returns (r: Option<nat>)
    ensures r.None? <==> forall i, j, k :: !TripleHit(input, i, j, k)
    ensures r.Some? ==>
      exists i, j, k :: TripleHit(input, i, j, k) && r.value == input[i] * input[j] * input[k]
        && forall i', j', k' :: Before(i', j', k', i, j, k) ==> !TripleHit(input, i', j', k')
  {
    var i := 0;
    while i < |input|
      invariant 0 <= i <= |input|
      invariant forall i', j', k' :: i' < i ==> !TripleHit(input, i', j', k')
    {
      var j := i;
      while j < |input|
        invariant i <= j <= |input|
        invariant forall i', j', k' :: Before(i', j', k', i, j, 0) ==> !TripleHit(input, i', j', k')
      {
        var k := j - i;
        while k < |input|
          invariant j - i <= k <= |input|
          invariant forall i', j', k' :: Before(i', j', k', i, j, k) ==> !TripleHit(input, i', j', k')
        {
          if input[i] + input[j] + input[k] == 2020 {
            assert TripleHit(input, i, j, k);
            return Some(input[i] * input[j] * input[k]);
          }
          k := k + 1;
        }
        j := j + 1;
      }
      i := i + 1;
    }
    return None;
  }

  /** The loops of part 2 reach every triple of positions a <= b <= c, so part
      2 fails only when no such triple sums to 2020. */
  lemma SortedTriplesReached(input: seq<nat>, a: int, b: int, c: int)
    requires 0 <= a <= b <= c < |input| && input[a] + input[b] + input[c] == 2020
    ensures TripleHit(input, a, b, c)
  {
  }

  /** Because z starts at j - i rather than at j, the loops also reach triples
      whose third position lies before the first. */
  lemma EarlierThirdPositionReached()
    ensures TripleHit([0, 500, 1000, 520], 2, 3, 1)
  {
  }
}
