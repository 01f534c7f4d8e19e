/** Day 17: Conway cubes. A slice of active and inactive cells is placed in
    the middle of a cube of side (n + 6) * 2; each of six cycles computes a
    fresh cube from the old one, and the active cells are counted at the end.
    Part 1 plays in three dimensions and part 2 in four; the model is written
    once for any number of dimensions d >= 2. */
module Day17 {
  import opened Common

  /** A coordinate, one position per dimension (`Coordinate::parts`). */
  type Coord = seq<int>

  /** The active cells of a cube; every other cell is inactive. */
  type Cube = set<Coord>

  // ---------------------------------------------------------------------
  // input_generator

  function CellOf(c: char): Option<bool> {
    match c
    case '.' => Some(false)
    case '#' => Some(true)
    case _ => None
  }

  /** The character a cell is written with. */
  function CellChar(b: bool): char {
    if b then '#' else '.'
  }

  /** The cells of one line; `None` where an unknown character panics. */
  function ParseRow(line: string): (r: Option<seq<bool>>)
    ensures r.Some? ==> |r.value| == |line|
    ensures r.Some? ==> forall i :: 0 <= i < |line| ==> CellOf(line[i]) == Some(r.value[i])
  {
    if line == [] then Some([])
    else match (CellOf(line[0]), ParseRow(line[1..]))
      case (Some(b), Some(rest)) => Some([b] + rest)
      case _ => None
  }

  /** A line is rejected exactly when one of its characters is neither '.'
      nor '#'. */
  lemma {:induction false} ParseRowRejects(line: string)
    ensures ParseRow(line).None? <==> exists i :: 0 <= i < |line| && CellOf(line[i]).None?
  {
    if line != [] {
      ParseRowRejects(line[1..]);
      if CellOf(line[0]).Some? && ParseRow(line[1..]).None? {
        var i :| 0 <= i < |line| - 1 && CellOf(line[1..][i]).None?;
        assert CellOf(line[i + 1]).None?;
      }
      if ParseRow(line).Some? {
        forall i | 0 <= i < |line|
          ensures CellOf(line[i]).Some?
        {
        }
      }
    }
  }

  function ParseRows(lines: seq<string>): (r: Option<seq<seq<bool>>>)
    ensures r.Some? ==> |r.value| == |lines|
    ensures r.Some? ==> forall k :: 0 <= k < |lines| ==> ParseRow(Trim(lines[k])) == Some(r.value[k])
    ensures r.None? ==> exists k :: 0 <= k < |lines| && ParseRow(Trim(lines[k])).None?
  {
    if lines == [] then Some([])
    else match (ParseRow(Trim(lines[0])), ParseRows(lines[1..]))
      case (Some(row), Some(rest)) => Some([row] + rest)
      case _ => None
  }

  /** `input_generator`: each trimmed line is a row of cells, '#' active and
      '.' inactive; `None` where another character panics. */
  function InputGenerator(input: string): (r: Option<seq<seq<bool>>>)
    ensures r.Some? ==> (|r.value| == |Lines(input)|
      && forall k :: 0 <= k < |r.value| ==> ParseRow(Trim(Lines(input)[k])) == Some(r.value[k]))
    ensures r.None? ==> exists k :: 0 <= k < |Lines(input)| && ParseRow(Trim(Lines(input)[k])).None?
  {
    ParseRows(Lines(input))
  }

  function RowText(row: seq<bool>): (line: string)
    ensures |line| == |row|
    ensures forall i :: 0 <= i < |row| ==> line[i] == CellChar(row[i])
  {
    if row == [] then [] else [CellChar(row[0])] + RowText(row[1..])
  }

  function GridLines(g: seq<seq<bool>>): (lines: seq<string>)
    ensures |lines| == |g|
    ensures forall k :: 0 <= k < |g| ==> lines[k] == RowText(g[k])
  {
    if g == [] then [] else [RowText(g[0])] + GridLines(g[1..])
  }

  lemma {:induction false} ParseRowText(row: seq<bool>)
    ensures ParseRow(RowText(row)) == Some(row)
  {
    if row != [] {
      var line := RowText(row);
      assert line[1..] == RowText(row[1..]);
      assert CellOf(line[0]) == Some(row[0]);
      ParseRowText(row[1..]);
      assert [row[0]] + row[1..] == row;
    }
  }

  lemma RowTextTrimmed(row: seq<bool>)
    ensures Trim(RowText(row)) == RowText(row)
  {
    TrimNoop(RowText(row));
  }

  lemma ParseRowsCons(lines: seq<string>, row: seq<bool>, rest: seq<seq<bool>>)
    requires lines != [] && ParseRow(Trim(lines[0])) == Some(row) && ParseRows(lines[1..]) == Some(rest)
    ensures ParseRows(lines) == Some([row] + rest)
  {
  }

  lemma {:induction false} ParseRowsOfLines(g: seq<seq<bool>>)
    ensures ParseRows(GridLines(g)) == Some(g)
  {
    if g != [] {
      assert g == [g[0]] + g[1..];
      var lines := GridLines(g);
      assert lines[0] == RowText(g[0]) && lines[1..] == GridLines(g[1..]);
      RowTextTrimmed(g[0]);
      ParseRowText(g[0]);
      ParseRowsOfLines(g[1..]);
      ParseRowsCons(lines, g[0], g[1..]);
    }
  }

  /** The lines of a written-out slice hold only '#' and '.'. */
  lemma GridLinesPlain(g: seq<seq<bool>>)
    ensures forall k, i :: 0 <= k < |GridLines(g)| && 0 <= i < |GridLines(g)[k]| ==> GridLines(g)[k][i] != '\n'
    ensures forall k :: 0 <= k < |GridLines(g)| && GridLines(g)[k] != [] ==> GridLines(g)[k][|GridLines(g)[k]| - 1] != '\r'
  {
    var lines := GridLines(g);
    forall k, i | 0 <= k < |lines| && 0 <= i < |lines[k]|
      ensures lines[k][i] == '#' || lines[k][i] == '.'
    {
      assert lines[k] == RowText(g[k]);
    }
  }

  /** A slice written out one row per line is read back (the last row must
      not be empty, or `lines` would drop it). */
  lemma GeneratorRoundTrip(g: seq<seq<bool>>)
    requires g != [] && g[|g| - 1] != []
    ensures InputGenerator(Join(GridLines(g), '\n')) == Some(g)
  {
    var lines := GridLines(g);
    assert lines[|lines| - 1] != [];
    GridLinesPlain(g);
    LinesOfJoin(lines);
    ParseRowsOfLines(g);
  }

  // ---------------------------------------------------------------------
  // multi_cartesian_product

  function Pow(b: nat, e: nat): nat {
    if e == 0 then 1 else b * Pow(b, e - 1)
  }

  predicate Distinct<T(==)>(s: seq<T>) {
    forall i, j :: 0 <= i < j < |s| ==> s[i] != s[j]
  }

  lemma DistinctConcat<T>(a: seq<T>, b: seq<T>)
    requires Distinct(a) && Distinct(b)
    requires forall x :: x in a ==> x !in b
    ensures Distinct(a + b)
  {
    forall i, j | 0 <= i < j < |a + b|
      ensures (a + b)[i] != (a + b)[j]
    {
      if j >= |a| && i < |a| {
        assert (a + b)[i] in a && (a + b)[j] in b;
      }
    }
  }

  /** [v] + t for every t in tails, in order. */
  function Block(v: int, tails: seq<Coord>): (r: seq<Coord>)
    ensures |r| == |tails|
    ensures forall k :: 0 <= k < |tails| ==> r[k] == [v] + tails[k]
  {
    seq(|tails|, k requires 0 <= k < |tails| => [v] + tails[k])
  }

  /** Every value followed by every tail, the value varying slowest. */
  function Prepend(values: seq<int>, tails: seq<Coord>): (r: seq<Coord>)
    ensures |r| == |values| * |tails|
  {
    if values == [] then [] else Block(values[0], tails) + Prepend(values[1..], tails)
  }

  lemma {:induction false} PrependMembers(values: seq<int>, tails: seq<Coord>, c: Coord)
    ensures c in Prepend(values, tails) <==> |c| > 0 && c[0] in values && c[1..] in tails
  {
    if values != [] {
      assert values == [values[0]] + values[1..];
      PrependMembers(values[1..], tails, c);
      var b := Block(values[0], tails);
      if c in b {
        var k :| 0 <= k < |tails| && b[k] == c;
        assert c[1..] == tails[k];
      }
      if |c| > 0 && c[0] == values[0] && c[1..] in tails {
        var k :| 0 <= k < |tails| && tails[k] == c[1..];
        assert b[k] == c;
      }
    }
  }

  lemma {:induction false} PrependDistinct(values: seq<int>, tails: seq<Coord>)
    requires Distinct(values) && Distinct(tails)
    ensures Distinct(Prepend(values, tails))
  {
    if values != [] {
      var b := Block(values[0], tails);
      forall i, j | 0 <= i < j < |b|
        ensures b[i] != b[j]
      {
        assert b[i][1..] == tails[i] && b[j][1..] == tails[j];
      }
      var rest := Prepend(values[1..], tails);
      PrependDistinct(values[1..], tails);
      forall i | 0 <= i < |values| - 1
        ensures values[1..][i] != values[0]
      {
        assert values[1..][i] == values[i + 1];
      }
      forall x | x in b
        ensures x !in rest
      {
        PrependMembers(values[1..], tails, x);
        var k :| 0 <= k < |b| && b[k] == x;
        assert x[0] == values[0];
      }
      DistinctConcat(b, rest);
    }
  }

  /** `multi_cartesian_product` of d copies of `values`: every sequence of
      length d drawn from `values`, the first position varying slowest. */
  function Product(d: nat, values: seq<int>): (r: seq<Coord>)
    ensures |r| == Pow(|values|, d)
  {
    if d == 0 then [[]] else Prepend(values, Product(d - 1, values))
  }

  /** The product holds exactly the sequences of length d drawn from
      `values`. */
  lemma {:induction false} ProductMembers(d: nat, values: seq<int>, c: Coord)
    ensures c in Product(d, values) <==> |c| == d && forall i :: 0 <= i < d ==> c[i] in values
  {
    if d > 0 {
      PrependMembers(values, Product(d - 1, values), c);
      if |c| > 0 {
        ProductMembers(d - 1, values, c[1..]);
        if |c| == d && c[0] in values && c[1..] in Product(d - 1, values) {
          forall i | 0 <= i < d
            ensures c[i] in values
          {
            if i > 0 {
              assert c[i] == c[1..][i - 1];
            }
          }
        }
        if |c| == d && forall i :: 0 <= i < d ==> c[i] in values {
          forall i | 0 <= i < d - 1
            ensures c[1..][i] in values
          {
            assert c[1..][i] == c[i + 1];
          }
        }
      }
    }
  }

  /** Every sequence of the product has length d. */
  lemma ProductLengths(d: nat, values: seq<int>)
    ensures forall k :: 0 <= k < |Product(d, values)| ==> |Product(d, values)[k]| == d
  {
    forall k | 0 <= k < |Product(d, values)|
      ensures |Product(d, values)[k]| == d
    {
      ProductMembers(d, values, Product(d, values)[k]);
    }
  }

  lemma {:induction false} ProductDistinct(d: nat, values: seq<int>)
    requires Distinct(values)
    ensures Distinct(Product(d, values))
  {
    if d > 0 {
      ProductDistinct(d - 1, values);
      PrependDistinct(values, Product(d - 1, values));
    }
  }

  /** `(0..d).map(|_| -1..=1).multi_cartesian_product()`. */
  function Offsets(d: nat): seq<Coord> {
    Product(d, [-1, 0, 1])
  }

  /** `0..n`. */
  function Range(n: nat): (r: seq<int>)
    ensures |r| == n && forall i :: 0 <= i < n ==> r[i] == i
  {
    seq(n, i => i)
  }

  /** `(0..d).map(|_| 0..max).multi_cartesian_product()`: every cell of the
      cube. */
  function Cells(d: nat, max: nat): seq<Coord> {
    Product(d, Range(max))
  }

  predicate InBox(c: Coord, e: int) {
    forall i :: 0 <= i < |c| ==> 0 <= c[i] < e
  }

  /** The cells are exactly the coordinates of length d in [0, max). */
  lemma CellsMembers(d: nat, max: nat, c: Coord)
    ensures c in Cells(d, max) <==> |c| == d && InBox(c, max)
  {
    ProductMembers(d, Range(max), c);
    if |c| == d && InBox(c, max) {
      forall i | 0 <= i < d
        ensures c[i] in Range(max)
      {
        assert Range(max)[c[i]] == c[i];
      }
    }
  }

  lemma OffsetsDistinct(d: nat)
    ensures Distinct(Offsets(d))
  {
    ProductDistinct(d, [-1, 0, 1]);
  }

  lemma CellsDistinct(d: nat, max: nat)
    ensures Distinct(Cells(d, max))
  {
    ProductDistinct(d, Range(max));
  }

  // ---------------------------------------------------------------------
  // calculate_neighbors

  /** Every offset has as many positions as the coordinate. */
  predicate SameLength(coord: Coord, offsets: seq<Coord>) {
    forall k :: 0 <= k < |offsets| ==> |offsets[k]| == |coord|
  }

  predicate IsZero(o: Coord) {
    forall i :: 0 <= i < |o| ==> o[i] == 0
  }

  /** Some position of coord + o falls outside [0, e). */
  predicate OutOfRange(coord: Coord, o: Coord, e: int)
    requires |o| == |coord|
  {
    exists i :: 0 <= i < |coord| && (coord[i] + o[i] < 0 || coord[i] + o[i] >= e)
  }

  function Add(coord: Coord, o: Coord): (r: Coord)
    requires |o| == |coord|
    ensures |r| == |coord|
    ensures forall i :: 0 <= i < |r| ==> r[i] == coord[i] + o[i]
  {
    seq(|o|, i requires 0 <= i < |o| => coord[i] + o[i])
  }

  /** Whether `calculate_neighbors` keeps the offset o. */
  predicate Kept(coord: Coord, o: Coord, e: int)
    requires |o| == |coord|
  {
    !IsZero(o) && !OutOfRange(coord, o, e)
  }

  /** What `calculate_neighbors` returns: coord + o for every offset o, in
      order, skipping the all-zero offset and those that leave [0, e). */
  function Neighbors(coord: Coord, e: int, offsets: seq<Coord>): (r: seq<Coord>)
    requires SameLength(coord, offsets)
  {
    if offsets == [] then []
    else
      var o := offsets[|offsets| - 1];
      Neighbors(coord, e, offsets[..|offsets| - 1]) + (if Kept(coord, o, e) then [Add(coord, o)] else [])
  }

  method CalculateNeighbors(coord: Coord, edge: nat, neighbors: seq<Coord>) returns (toCheck: seq<Coord>)
    requires SameLength(coord, neighbors)
    ensures toCheck == Neighbors(coord, edge, neighbors)
  {
    toCheck := [];
    for k := 0 to |neighbors|
      invariant toCheck == Neighbors(coord, edge, neighbors[..k])
    {
      assert neighbors[..k + 1][..k] == neighbors[..k];
      var parts := neighbors[k];
      if IsZero(parts) {
        continue;
      }
      if OutOfRange(coord, parts, edge) {
        continue;
      }
      toCheck := toCheck + [Add(coord, parts)];
    }
    assert neighbors[..|neighbors|] == neighbors;
  }

  /** A coordinate is returned exactly when some kept offset leads to it. */
  /** The offset o is kept and leads from coord to c. */
  predicate LeadsTo(coord: Coord, o: Coord, e: int, c: Coord) {
    |o| == |coord| && Kept(coord, o, e) && c == Add(coord, o)
  }

  lemma {:induction false} NeighborsMembers(coord: Coord, e: int, offsets: seq<Coord>, c: Coord)
    requires SameLength(coord, offsets)
    ensures c in Neighbors(coord, e, offsets) <==>
      exists k :: 0 <= k < |offsets| && LeadsTo(coord, offsets[k], e, c)
  {
    if offsets != [] {
      var n := |offsets| - 1;
      var init := offsets[..n];
      NeighborsMembers(coord, e, init, c);
      assert forall k :: 0 <= k < n ==> init[k] == offsets[k];
      if c in Neighbors(coord, e, init) {
        var k :| 0 <= k < |init| && LeadsTo(coord, init[k], e, c);
        assert LeadsTo(coord, offsets[k], e, c);
      }
      if exists k :: 0 <= k < |offsets| && LeadsTo(coord, offsets[k], e, c) {
        var k :| 0 <= k < |offsets| && LeadsTo(coord, offsets[k], e, c);
        if k < n {
          assert LeadsTo(coord, init[k], e, c);
        }
      }
    }
  }

  /** Never the cell itself, and always inside the cube. */
  lemma NeighborsAreOthers(coord: Coord, e: int, offsets: seq<Coord>, c: Coord)
    requires SameLength(coord, offsets) && c in Neighbors(coord, e, offsets)
    ensures |c| == |coord| && c != coord && InBox(c, e)
  {
    NeighborsMembers(coord, e, offsets, c);
    var k :| 0 <= k < |offsets| && LeadsTo(coord, offsets[k], e, c);
    var i :| 0 <= i < |offsets[k]| && offsets[k][i] != 0;
    assert c[i] != coord[i];
  }

  /** Never more results than offsets, and fewer when an offset is all zero. */
  lemma {:induction false} NeighborsLength(coord: Coord, e: int, offsets: seq<Coord>)
    requires SameLength(coord, offsets)
    ensures |Neighbors(coord, e, offsets)| <= |offsets|
    ensures (exists k :: 0 <= k < |offsets| && IsZero(offsets[k])) ==> |Neighbors(coord, e, offsets)| < |offsets|
  {
    if offsets != [] {
      var n := |offsets| - 1;
      var init := offsets[..n];
      NeighborsLength(coord, e, init);
      if exists k :: 0 <= k < |offsets| && IsZero(offsets[k]) {
        var k :| 0 <= k < |offsets| && IsZero(offsets[k]);
        if k < n {
          assert IsZero(init[k]);
        }
      }
    }
  }

  /** Each offset is at most one step in every dimension. */
  predicate Adjacent(a: Coord, b: Coord)
    requires |a| == |b|
  {
    forall i :: 0 <= i < |a| ==> -1 <= b[i] - a[i] <= 1
  }

  lemma OffsetsLength(d: nat)
    ensures forall k :: 0 <= k < |Offsets(d)| ==> |Offsets(d)[k]| == d
  {
    ProductLengths(d, [-1, 0, 1]);
  }

  lemma NeighborsAroundOnly(coord: Coord, e: int, c: Coord)
    requires SameLength(coord, Offsets(|coord|)) && c in Neighbors(coord, e, Offsets(|coord|))
    ensures |c| == |coord| && InBox(c, e) && c != coord && Adjacent(coord, c)
  {
    var offsets := Offsets(|coord|);
    NeighborsAreOthers(coord, e, offsets, c);
    NeighborsMembers(coord, e, offsets, c);
    var k :| 0 <= k < |offsets| && LeadsTo(coord, offsets[k], e, c);
    ProductMembers(|coord|, [-1, 0, 1], offsets[k]);
  }

  /** The offset leading from coord to an adjacent cell c. */
  lemma OffsetTo(coord: Coord, c: Coord) returns (o: Coord)
    requires |c| == |coord| && c != coord && Adjacent(coord, c)
    ensures |o| == |coord| && o in Offsets(|coord|) && !IsZero(o) && Add(coord, o) == c
  {
    var d := |coord|;
    o := seq(d, i requires 0 <= i < d => c[i] - coord[i]);
    forall i | 0 <= i < d
      ensures o[i] in [-1, 0, 1]
    {
    }
    ProductMembers(d, [-1, 0, 1], o);
    assert Add(coord, o) == c;
    assert (forall i :: 0 <= i < d ==> c[i] == coord[i]) ==> c == coord;
    var i :| 0 <= i < d && c[i] != coord[i];
    assert o[i] != 0;
  }

  lemma NeighborsAroundAll(coord: Coord, e: int, c: Coord)
    requires SameLength(coord, Offsets(|coord|))
    requires |c| == |coord| && InBox(c, e) && c != coord && Adjacent(coord, c)
    ensures c in Neighbors(coord, e, Offsets(|coord|))
  {
    var offsets := Offsets(|coord|);
    var o := OffsetTo(coord, c);
    var k :| 0 <= k < |offsets| && offsets[k] == o;
    assert !OutOfRange(coord, o, e);
    NeighborsMembers(coord, e, offsets, c);
  }

  /** With every offset of {-1, 0, 1}^d, the neighbours of a cell are the
      other cells of the cube at most one step away in each dimension. */
  lemma NeighborsAround(coord: Coord, e: int, c: Coord)
    ensures SameLength(coord, Offsets(|coord|))
    ensures c in Neighbors(coord, e, Offsets(|coord|)) <==>
      |c| == |coord| && InBox(c, e) && c != coord && Adjacent(coord, c)
  {
    OffsetsLength(|coord|);
    if c in Neighbors(coord, e, Offsets(|coord|)) {
      NeighborsAroundOnly(coord, e, c);
    }
    if |c| == |coord| && InBox(c, e) && c != coord && Adjacent(coord, c) {
      NeighborsAroundAll(coord, e, c);
    }
  }

  /** At most 3^d - 1 neighbours: the all-zero offset is always skipped. */
  lemma NeighborsBound(coord: Coord, e: int)
    ensures SameLength(coord, Offsets(|coord|))
    ensures |Neighbors(coord, e, Offsets(|coord|))| <= Pow(3, |coord|) - 1
  {
    var d := |coord|;
    OffsetsLength(d);
    var zero := seq(d, i => 0);
    ProductMembers(d, [-1, 0, 1], zero);
    var k :| 0 <= k < |Offsets(d)| && Offsets(d)[k] == zero;
    assert IsZero(Offsets(d)[k]);
    NeighborsLength(coord, e, Offsets(d));
  }

  lemma AddInjective(coord: Coord, o1: Coord, o2: Coord)
    requires |o1| == |coord| && |o2| == |coord|
    ensures Add(coord, o1) == Add(coord, o2) ==> o1 == o2
  {
    if Add(coord, o1) == Add(coord, o2) {
      assert forall i :: 0 <= i < |o1| ==> o1[i] == Add(coord, o1)[i] - coord[i] == o2[i];
    }
  }

  /** Distinct offsets lead to distinct neighbours. */
  lemma {:induction false} NeighborsDistinct(coord: Coord, e: int, offsets: seq<Coord>)
    requires SameLength(coord, offsets) && Distinct(offsets)
    ensures Distinct(Neighbors(coord, e, offsets))
  {
    if offsets != [] {
      var n := |offsets| - 1;
      var init := offsets[..n];
      var o := offsets[n];
      NeighborsDistinct(coord, e, init);
      if Kept(coord, o, e) {
        var c := Add(coord, o);
        forall k | 0 <= k < |init|
          ensures Add(coord, init[k]) != c
        {
          assert init[k] == offsets[k] != o;
          AddInjective(coord, init[k], o);
        }
        NeighborsMembers(coord, e, init, c);
        DistinctConcat(Neighbors(coord, e, init), [c]);
      }
    }
  }

  // ---------------------------------------------------------------------
  // counting

  /** The active cells of the cube next to coord (other than coord). */
  function ActiveAround(cube: Cube, coord: Coord, e: int): set<Coord> {
    set c | c in cube && |c| == |coord| && InBox(c, e) && c != coord && Adjacent(coord, c)
  }

  /** Dropping the last element keeps a sequence without repeats, and the
      dropped element is not among the rest. */
  lemma DistinctDropLast<T>(s: seq<T>)
    requires Distinct(s) && s != []
    ensures Distinct(s[..|s| - 1]) && s[|s| - 1] !in s[..|s| - 1]
  {
    var n := |s| - 1;
    forall i | 0 <= i < n
      ensures s[..n][i] != s[n]
    {
      assert s[..n][i] == s[i];
    }
  }

  /** The chosen elements other than the last are the chosen elements of the
      rest. */
  lemma ChosenBefore<T>(s: seq<T>, p: T -> bool, chosen: set<T>)
    requires s != [] && s[|s| - 1] !in s[..|s| - 1]
    requires forall x :: x in chosen <==> x in s && p(x)
    ensures forall x :: x in chosen - {s[|s| - 1]} <==> x in s[..|s| - 1] && p(x)
  {
    var n := |s| - 1;
    assert s == s[..n] + [s[n]];
    forall x
      ensures x in chosen - {s[n]} <==> x in s[..n] && p(x)
    {
      assert x in s <==> x in s[..n] || x == s[n];
    }
  }

  /** On a sequence without repeats, counting the elements that satisfy p
      is the size of the set of those elements. */
  lemma {:induction false} CountDistinct<T>(s: seq<T>, p: T -> bool, chosen: set<T>)
    requires Distinct(s)
    requires forall x :: x in chosen <==> x in s && p(x)
    ensures CountWhere(s, p) == |chosen|
  {
    if s != [] {
      var n := |s| - 1;
      var last := s[n];
      var before := chosen - {last};
      DistinctDropLast(s);
      ChosenBefore(s, p, chosen);
      CountDistinct(s[..n], p, before);
      if p(last) {
        assert last in chosen && last !in before;
        assert chosen == before + {last};
      } else {
        assert last !in chosen;
        assert before == chosen;
      }
    }
  }

  /** Whether a cell is active in the cube. */
  function InCube(cube: Cube): Coord -> bool {
    c => c in cube
  }

  /** The number of active cells among the neighbours. */
  function ActiveNeighbors(cube: Cube, coord: Coord, e: int, offsets: seq<Coord>): nat
    requires SameLength(coord, offsets)
  {
    CountWhere(Neighbors(coord, e, offsets), InCube(cube))
  }

  /** The count taken in a cycle is the number of active cells next to the
      cell. */
  lemma ActiveCount(cube: Cube, coord: Coord, e: int)
    ensures SameLength(coord, Offsets(|coord|))
    ensures ActiveNeighbors(cube, coord, e, Offsets(|coord|)) == |ActiveAround(cube, coord, e)|
  {
    var offsets := Offsets(|coord|);
    OffsetsLength(|coord|);
    OffsetsDistinct(|coord|);
    var ns := Neighbors(coord, e, offsets);
    NeighborsDistinct(coord, e, offsets);
    forall c
      ensures c in ActiveAround(cube, coord, e) <==> c in ns && InCube(cube)(c)
    {
      NeighborsAround(coord, e, c);
    }
    CountDistinct(ns, InCube(cube), ActiveAround(cube, coord, e));
    assert ActiveNeighbors(cube, coord, e, offsets) == CountWhere(ns, InCube(cube));
  }

  // ---------------------------------------------------------------------
  // one cycle

  /** The state of a cell after a cycle: an active cell stays active with 2
      or 3 active neighbours, an inactive one becomes active with exactly 3. */
  function NextState(active: bool, around: nat): bool {
    if active then around == 2 || around == 3 else around == 3
  }

  predicate Shaped(cells: seq<Coord>, offsets: seq<Coord>) {
    forall k :: 0 <= k < |cells| ==> SameLength(cells[k], offsets)
  }

  /** The cube after one cycle over `cells`, computed from the old cube
      alone. */
  function NextCube(cube: Cube, max: nat, cells: seq<Coord>, offsets: seq<Coord>): Cube
    requires Shaped(cells, offsets)
  {
    set k | 0 <= k < |cells| && NextState(cells[k] in cube, ActiveNeighbors(cube, cells[k], max, offsets)) :: cells[k]
  }

  lemma NextCubeSnoc(cube: Cube, max: nat, cells: seq<Coord>, offsets: seq<Coord>, k: nat)
    requires Shaped(cells, offsets) && k < |cells|
    ensures NextCube(cube, max, cells[..k + 1], offsets) ==
      NextCube(cube, max, cells[..k], offsets) +
      (if NextState(cells[k] in cube, ActiveNeighbors(cube, cells[k], max, offsets)) then {cells[k]} else {})
  {
    var a := cells[..k + 1];
    var b := cells[..k];
    assert forall j :: 0 <= j < k ==> a[j] == b[j] == cells[j];
    assert a[k] == cells[k];
  }

  /** One cycle: every cell of `cells` is written in a fresh cube from the
      old cube's state. */
  method Cycle(cube: Cube, max: nat, cells: seq<Coord>, offsets: seq<Coord>) returns (next: Cube)
    requires Shaped(cells, offsets)
    ensures next == NextCube(cube, max, cells, offsets)
  {
    next := {};
    for k := 0 to |cells|
      invariant next == NextCube(cube, max, cells[..k], offsets)
    {
      var coord := cells[k];
      var current := CalculateNeighbors(coord, max, offsets);
      var active := CountWhere(current, InCube(cube));
      NextCubeSnoc(cube, max, cells, offsets, k);
      if coord in cube {
        if active == 2 || active == 3 {
          next := next + {coord};
        }
      } else if active == 3 {
        next := next + {coord};
      }
    }
    assert cells[..|cells|] == cells;
  }

  lemma CellsShaped(d: nat, max: nat)
    ensures Shaped(Cells(d, max), Offsets(d))
  {
    ProductLengths(d, Range(max));
    OffsetsLength(d);
  }

  /** After a cycle over the whole cube, a cell is active exactly when it
      lies in the cube and the rule makes it active given its own old state
      and the number of its active neighbours in the old cube. */
  lemma CycleCell(cube: Cube, d: nat, max: nat, c: Coord)
    ensures Shaped(Cells(d, max), Offsets(d))
    ensures c in NextCube(cube, max, Cells(d, max), Offsets(d)) <==>
      |c| == d && InBox(c, max) && NextState(c in cube, |ActiveAround(cube, c, max)|)
  {
    var cells := Cells(d, max);
    CellsShaped(d, max);
    CellsMembers(d, max, c);
    if c in NextCube(cube, max, cells, Offsets(d)) {
      var k :| 0 <= k < |cells| && cells[k] == c && NextState(c in cube, ActiveNeighbors(cube, c, max, Offsets(d)));
      ActiveCount(cube, c, max);
    }
    if |c| == d && InBox(c, max) && NextState(c in cube, |ActiveAround(cube, c, max)|) {
      var k :| 0 <= k < |cells| && cells[k] == c;
      ActiveCount(cube, c, max);
    }
  }

  // ---------------------------------------------------------------------
  // day17_part1 and day17_part2

  /** Where input cell (x, y) is placed: (x + max/2, y + max/2, max/2, ...). */
  function Placed(x: int, y: int, d: nat, max: nat): (c: Coord)
    requires d >= 2
    ensures |c| == d
  {
    [x + max / 2, y + max / 2] + seq(d - 2, _ => max / 2)
  }

  /** No row is so long that its cells would leave the cube, where the
      source indexes out of bounds and panics. */
  predicate RowsFit(state: seq<seq<bool>>) {
    forall x :: 0 <= x < |state| ==> |state[x]| <= |state| + 6
  }

  /** The side of the cube, (n + 6) * 2. */
  function Side(state: seq<seq<bool>>): nat {
    (|state| + 6) * 2
  }

  /** The cells placed from rows before x, and from row x before column y. */
  function PlacedUpTo(state: seq<seq<bool>>, x: int, y: int, d: nat, max: nat): Cube
    requires d >= 2
  {
    set i, j | 0 <= i < |state| && 0 <= j < |state[i]| && (i < x || (i == x && j < y)) && state[i][j] :: Placed(i, j, d, max)
  }

  /** The starting cube: every active input cell at its place. */
  function Initial(state: seq<seq<bool>>, d: nat): Cube
    requires d >= 2
  {
    PlacedUpTo(state, |state|, 0, d, Side(state))
  }

  /** The cube after `cycles` cycles. */
  function Iterate(cube: Cube, d: nat, max: nat, cycles: nat): Cube {
    if cycles == 0 then cube
    else
      CellsShaped(d, max);
      NextCube(Iterate(cube, d, max, cycles - 1), max, Cells(d, max), Offsets(d))
  }

  /** The number of active cells after six cycles; `None` where a row does
      not fit. */
  function Conway(state: seq<seq<bool>>, d: nat): Option<nat>
    requires d >= 2
  {
    if RowsFit(state) then
      var max := Side(state);
      Some(CountWhere(Cells(d, max), InCube(Iterate(Initial(state, d), d, max, 6))))
    else None
  }

  lemma PlacedStep(state: seq<seq<bool>>, x: nat, y: nat, d: nat, max: nat)
    requires d >= 2 && x < |state| && y < |state[x]|
    ensures PlacedUpTo(state, x, y + 1, d, max) ==
      PlacedUpTo(state, x, y, d, max) + (if state[x][y] then {Placed(x, y, d, max)} else {})
  {
    if state[x][y] {
      assert Placed(x, y, d, max) in PlacedUpTo(state, x, y + 1, d, max);
    }
  }

  lemma PlacedRow(state: seq<seq<bool>>, x: nat, d: nat, max: nat)
    requires d >= 2 && x < |state|
    ensures PlacedUpTo(state, x, |state[x]|, d, max) == PlacedUpTo(state, x + 1, 0, d, max)
  {
  }

  /** Places the input, runs six cycles and counts the active cells, in d
      dimensions. */
  method Simulate(state: seq<seq<bool>>, d: nat) returns (r: Option<nat>)
    requires d >= 2
    ensures r == Conway(state, d)
  {
    var max := (|state| + 6) * 2;
    var cube: Cube := {};
    for x := 0 to |state|
      invariant cube == PlacedUpTo(state, x, 0, d, max)
      invariant forall i :: 0 <= i < x ==> |state[i]| <= |state| + 6
    {
      for y := 0 to |state[x]|
        invariant cube == PlacedUpTo(state, x, y, d, max)
        invariant y <= |state| + 6
      {
        if y + max / 2 >= max {
          return None;
        }
        PlacedStep(state, x, y, d, max);
        if state[x][y] {
          cube := cube + {Placed(x, y, d, max)};
        }
      }
      PlacedRow(state, x, d, max);
    }
    var neighborChecks := Offsets(d);
    var cells := Cells(d, max);
    CellsShaped(d, max);
    for i := 0 to 6
      invariant cube == Iterate(Initial(state, d), d, max, i)
    {
      cube := Cycle(cube, max, cells, neighborChecks);
    }
    r := Some(CountWhere(cells, InCube(cube)));
  }

  /** `day17_part1`: three dimensions. */
  method Part1(state: seq<seq<bool>>) returns (r: Option<nat>)
    ensures r == Conway(state, 3)
  {
    r := Simulate(state, 3);
  }

  /** `day17_part2`: four dimensions. */
  method Part2(state: seq<seq<bool>>) returns (r: Option<nat>)
    ensures r == Conway(state, 4)
  {
    r := Simulate(state, 4);
  }

  // ---------------------------------------------------------------------
  // properties of the whole run

  lemma PlacedInjective(x: int, y: int, i: int, j: int, d: nat, max: nat)
    requires d >= 2 && Placed(x, y, d, max) == Placed(i, j, d, max)
    ensures x == i && y == j
  {
    assert Placed(x, y, d, max)[0] == Placed(i, j, d, max)[0];
    assert Placed(x, y, d, max)[1] == Placed(i, j, d, max)[1];
  }

  /** Input cell (x, y) is active in the starting cube exactly when it is
      active in the input, and when the rows fit it lies inside the cube. */
  lemma InitialPlacement(state: seq<seq<bool>>, d: nat, x: nat, y: nat)
    requires d >= 2 && x < |state| && y < |state[x]|
    ensures Placed(x, y, d, Side(state)) in Initial(state, d) <==> state[x][y]
    ensures RowsFit(state) ==> InBox(Placed(x, y, d, Side(state)), Side(state))
  {
    var max := Side(state);
    if Placed(x, y, d, max) in Initial(state, d) {
      var i, j :| 0 <= i < |state| && 0 <= j < |state[i]| && state[i][j] && Placed(i, j, d, max) == Placed(x, y, d, max);
      PlacedInjective(x, y, i, j, d, max);
    }
  }

  /** Every active cell of the starting cube comes from an active input
      cell. */
  lemma InitialFromInput(state: seq<seq<bool>>, d: nat, c: Coord)
    requires d >= 2 && c in Initial(state, d)
    ensures exists x, y :: 0 <= x < |state| && 0 <= y < |state[x]| && state[x][y] && c == Placed(x, y, d, Side(state))
  {
  }

  /** After at least one cycle every active cell lies inside the cube. */
  lemma IterateInBox(cube: Cube, d: nat, max: nat, cycles: nat, c: Coord)
    requires cycles > 0 && c in Iterate(cube, d, max, cycles)
    ensures c in Cells(d, max)
  {
    CellsShaped(d, max);
  }

  /** Counting the cells of the cube that are active gives the number of
      active cells, for any cube whose active cells lie inside it. */
  lemma CountCells(cube: Cube, d: nat, max: nat)
    requires forall c :: c in cube ==> c in Cells(d, max)
    ensures CountWhere(Cells(d, max), InCube(cube)) == |cube|
  {
    var cells := Cells(d, max);
    CellsDistinct(d, max);
    CountDistinct(cells, InCube(cube), cube);
  }

  /** The final count is the number of active cells. */
  lemma ConwayCounts(state: seq<seq<bool>>, d: nat)
    requires d >= 2 && RowsFit(state)
    ensures Conway(state, d) == Some(|Iterate(Initial(state, d), d, Side(state), 6)|)
  {
    var max := Side(state);
    var cube := Iterate(Initial(state, d), d, max, 6);
    forall c | c in cube
      ensures c in Cells(d, max)
    {
      IterateInBox(Initial(state, d), d, max, 6, c);
    }
    CountCells(cube, d, max);
    assert Conway(state, d) == Some(CountWhere(Cells(d, max), InCube(cube)));
  }

  // ---------------------------------------------------------------------
  // the example

  /** The lines of the example slice. */
  function ExampleLines(): seq<string> {
    [".#.", Indent(8) + "..#", Indent(8) + "###"]
  }

  lemma ExampleSplit(input: string)
    requires input == ".#.\n        ..#\n        ###"
    ensures Lines(input) == ExampleLines()
  {
    var parts := ExampleLines();
    assert parts[1..][1..] == [parts[2]];
    assert Join(parts[1..], '\n') == parts[1] + "\n" + parts[2];
    assert Join(parts, '\n') == parts[0] + "\n" + parts[1] + "\n" + parts[2];
    assert Indent(8) == "        ";
    assert input == Join(parts, '\n');
    LinesOfJoin(parts);
  }

  predicate RowTrimsTo(line: string, row: seq<bool>) {
    Trim(line) == RowText(row)
  }

  /** Each line trims to the text of its row. */
  predicate TrimsTo(lines: seq<string>, g: seq<seq<bool>>) {
    |lines| == |g| && forall k :: 0 <= k < |lines| ==> RowTrimsTo(lines[k], g[k])
  }

  /** Lines that trim to the rows' texts are read back as those rows. */
  lemma ParseRowsTrimmed(lines: seq<string>, g: seq<seq<bool>>)
    requires TrimsTo(lines, g)
    ensures ParseRows(lines) == Some(g)
  {
    forall k | 0 <= k < |lines|
      ensures ParseRow(Trim(lines[k])) == Some(g[k])
    {
      assert RowTrimsTo(lines[k], g[k]);
      ParseRowText(g[k]);
    }
    var r := ParseRows(lines);
    assert r.Some?;
    assert forall k :: 0 <= k < |g| ==> r.value[k] == g[k];
    assert |r.value| == |g|;
    assert r.value == g;
  }

  lemma ExampleRowTexts()
    ensures RowText([false, true, false]) == ".#."
    ensures RowText([false, false, true]) == "..#"
    ensures RowText([true, true, true]) == "###"
  {
  }

  /** The example slice, its second and third lines indented. */
  lemma ExampleInput(input: string)
    requires input == ".#.\n        ..#\n        ###"
    ensures InputGenerator(input) == Some([[false, true, false], [false, false, true], [true, true, true]])
  {
    ExampleSplit(input);
    var lines := ExampleLines();
    var g := [[false, true, false], [false, false, true], [true, true, true]];
    ExampleRowTexts();
    assert TrimsTo(lines, g) by {
      forall k | 0 <= k < 3
        ensures RowTrimsTo(lines[k], g[k])
      {
        if k == 0 {
          TrimNoop(".#.");
        } else if k == 1 {
          TrimIndented(8, "..#");
        } else {
          TrimIndented(8, "###");
        }
      }
    }
    ParseRowsTrimmed(lines, g);
  }
}
