/** Day 11: seats in a waiting area. Each round every seat looks at its
    eight neighbours at once; part 1 repeats rounds until nothing changes
    and counts the occupied seats. */
module Day11 {
  import opened Common

  datatype Tile = Empty | Floor | Occupied

  /** Row by row; rows need not have the same length. */
  type Grid = seq<seq<Tile>>

  // ---------------------------------------------------------------------
  // input_generator

  function TileOf(c: char): Option<Tile> {
    match c
    case '#' => Some(Occupied)
    case '.' => Some(Floor)
    case 'L' => Some(Empty)
    case _ => None
  }

  /** The character a tile is written with. */
  function TileChar(t: Tile): char {
    match t
    case Occupied => '#'
    case Floor => '.'
    case Empty => 'L'
  }

  /** The tiles of one line; `None` where an unknown character panics. */
  function ParseRow(line: string): (r: Option<seq<Tile>>)
    ensures r.Some? ==> |r.value| == |line|
    ensures r.Some? ==> forall i :: 0 <= i < |line| ==> TileOf(line[i]) == Some(r.value[i])
  {
    if line == [] then Some([])
    else match (TileOf(line[0]), ParseRow(line[1..]))
      case (Some(t), Some(rest)) => Some([t] + rest)
      case _ => None
  }

  /** A line is rejected exactly when one of its characters is not a tile. */
  lemma {:induction false} ParseRowRejects(line: string)
    ensures ParseRow(line).None? <==> exists i :: 0 <= i < |line| && TileOf(line[i]).None?
  {
    if line != [] {
      ParseRowRejects(line[1..]);
      if TileOf(line[0]).Some? && ParseRow(line[1..]).None? {
        var i :| 0 <= i < |line| - 1 && TileOf(line[1..][i]).None?;
        assert TileOf(line[i + 1]).None?;
      }
      if ParseRow(line).Some? {
        forall i | 0 <= i < |line|
          ensures TileOf(line[i]).Some?
        {
        }
      }
    }
  }

  function ParseRows(lines: seq<string>): (r: Option<Grid>)
    ensures r.Some? ==> |r.value| == |lines|
    ensures r.Some? ==> forall k :: 0 <= k < |lines| ==> ParseRow(Trim(lines[k])) == Some(r.value[k])
    ensures r.None? ==> exists k :: 0 <= k < |lines| && ParseRow(Trim(lines[k])).None?
  {
    if lines == [] then Some([])
    else match (ParseRow(Trim(lines[0])), ParseRows(lines[1..]))
      case (Some(row), Some(rest)) => Some([row] + rest)
      case _ => None
  }

  /** `input_generator`: each trimmed line is a row of tiles; `None` where a
      character is not '#', '.' or 'L'. */
  function InputGenerator(input: string): (r: Option<Grid>)
    ensures r.Some? ==> (|r.value| == |Lines(input)|
      && forall k :: 0 <= k < |r.value| ==> ParseRow(Trim(Lines(input)[k])) == Some(r.value[k]))
    ensures r.None? ==> exists k :: 0 <= k < |Lines(input)| && ParseRow(Trim(Lines(input)[k])).None?
  {
    ParseRows(Lines(input))
  }

  lemma TileCharPlain(t: Tile)
    ensures TileChar(t) != '\n' && TileChar(t) != '\r' && !IsWhitespace(TileChar(t))
  {
  }

  function RowText(row: seq<Tile>): (line: string)
    ensures |line| == |row|
    ensures forall i :: 0 <= i < |row| ==> line[i] == TileChar(row[i])
  {
    if row == [] then [] else [TileChar(row[0])] + RowText(row[1..])
  }

  function GridLines(g: Grid): (lines: seq<string>)
    ensures |lines| == |g|
    ensures forall k :: 0 <= k < |g| ==> lines[k] == RowText(g[k])
  {
    if g == [] then [] else [RowText(g[0])] + GridLines(g[1..])
  }

  lemma {:induction false} ParseRowText(row: seq<Tile>)
    ensures ParseRow(RowText(row)) == Some(row)
  {
    if row != [] {
      assert RowText(row)[1..] == RowText(row[1..]);
      ParseRowText(row[1..]);
      assert [row[0]] + row[1..] == row;
    }
  }

  lemma RowTextTrimmed(row: seq<Tile>)
    ensures Trim(RowText(row)) == RowText(row)
  {
    var line := RowText(row);
    if line != [] {
      TileCharPlain(row[0]);
      TileCharPlain(row[|row| - 1]);
    }
    TrimNoop(line);
  }

  lemma ParseRowsCons(lines: seq<string>, row: seq<Tile>, rest: Grid)
    requires lines != [] && ParseRow(Trim(lines[0])) == Some(row) && ParseRows(lines[1..]) == Some(rest)
    ensures ParseRows(lines) == Some([row] + rest)
  {
  }

  lemma {:induction false} ParseRowsOfLines(g: Grid)
    ensures ParseRows(GridLines(g)) == Some(g)
  {
    if g != [] {
      assert g == [g[0]] + g[1..];
      var lines := GridLines(g);
      assert lines[0] == RowText(g[0]) && lines[1..] == GridLines(g[1..]);
      RowTextTrimmed(g[0]);
      ParseRowText(g[0]);
      ParseRowsOfLines(g[1..]);
      ParseRowsCons(lines, g[0], g[1..]);
    }
  }

  /** A grid written out one row per line is read back (the last row must
      not be empty, or `lines` would drop it). */
  lemma GeneratorRoundTrip(g: Grid)
    requires g != [] && g[|g| - 1] != []
    ensures InputGenerator(Join(GridLines(g), '\n')) == Some(g)
  {
    var lines := GridLines(g);
    assert lines[|lines| - 1] != [];
    forall k, i | 0 <= k < |lines| && 0 <= i < |lines[k]|
      ensures lines[k][i] != '\n' && lines[k][i] != '\r'
    {
      var row := g[k];
      assert lines[k] == RowText(row);
      TileCharPlain(row[i]);
    }
    LinesOfJoin(lines);
    ParseRowsOfLines(g);
  }

  // ---------------------------------------------------------------------
  // count_occupied_adjacent

  /** The tile at row i, column j; `None` off the grid (`Vec::get`). */
  function At(g: Grid, i: int, j: int): (r: Option<Tile>)
    ensures r.Some? <==> 0 <= i < |g| && 0 <= j < |g[i]|
  {
    if 0 <= i < |g| && 0 <= j < |g[i]| then Some(g[i][j]) else None
  }

  predicate IsOccupied(g: Grid, i: int, j: int) {
    At(g, i, j) == Some(Occupied)
  }

  /** The offsets in the source's order: rows -1..=1, then columns -1..=1,
      without (0, 0). */
  const Offsets: seq<(int, int)> := [(-1, -1), (-1, 0), (-1, 1), (0, -1), (0, 1), (1, -1), (1, 0), (1, 1)]

  /** The number of occupied cells at (y, x) shifted by each offset. */
  function OccupiedAmong(g: Grid, y: int, x: int, offsets: seq<(int, int)>): (n: nat)
    ensures n <= |offsets|
  {
    if offsets == [] then 0
    else (if IsOccupied(g, y + offsets[0].0, x + offsets[0].1) then 1 else 0) + OccupiedAmong(g, y, x, offsets[1..])
  }

  /** `count_occupied_adjacent(input, x, y)`. */
  function CountOccupiedAdjacent(g: Grid, y: int, x: int): (n: nat)
    ensures n <= 8
  {
    OccupiedAmong(g, y, x, Offsets)
  }

  /** (i, j) is one of the eight cells around (y, x). */
  predicate Adjacent(y: int, x: int, i: int, j: int) {
    y - 1 <= i <= y + 1 && x - 1 <= j <= x + 1 && (i != y || j != x)
  }

  /** The occupied cells around (y, x), as a set of positions. */
  function OccupiedAround(g: Grid, y: int, x: int): set<(int, int)> {
    set i, j | y - 1 <= i <= y + 1 && x - 1 <= j <= x + 1 && (i != y || j != x) && IsOccupied(g, i, j) :: (i, j)
  }

  /** The cells reached through a list of offsets that are occupied. */
  function Reached(g: Grid, y: int, x: int, offsets: seq<(int, int)>): set<(int, int)> {
    if offsets == [] then {}
    else
      (if IsOccupied(g, y + offsets[0].0, x + offsets[0].1) then {(y + offsets[0].0, x + offsets[0].1)} else {})
      + Reached(g, y, x, offsets[1..])
  }

  lemma {:induction false} ReachedMembers(g: Grid, y: int, x: int, offsets: seq<(int, int)>, p: (int, int))
    ensures p in Reached(g, y, x, offsets) <==>
      IsOccupied(g, p.0, p.1) && exists k :: 0 <= k < |offsets| && p == (y + offsets[k].0, x + offsets[k].1)
  {
    if offsets != [] {
      ReachedMembers(g, y, x, offsets[1..], p);
      if exists k :: 0 <= k < |offsets| - 1 && p == (y + offsets[1..][k].0, x + offsets[1..][k].1) {
        var k :| 0 <= k < |offsets| - 1 && p == (y + offsets[1..][k].0, x + offsets[1..][k].1);
        assert p == (y + offsets[k + 1].0, x + offsets[k + 1].1);
      }
      if exists k :: 0 <= k < |offsets| && p == (y + offsets[k].0, x + offsets[k].1) {
        var k :| 0 <= k < |offsets| && p == (y + offsets[k].0, x + offsets[k].1);
        if k > 0 {
          assert p == (y + offsets[1..][k - 1].0, x + offsets[1..][k - 1].1);
        }
      }
    }
  }

  /** Distinct offsets reach distinct cells, so the count is the size of
      the set reached. */
  lemma {:induction false} OccupiedAmongCard(g: Grid, y: int, x: int, offsets: seq<(int, int)>)
    requires forall a, b :: 0 <= a < b < |offsets| ==> offsets[a] != offsets[b]
    ensures OccupiedAmong(g, y, x, offsets) == |Reached(g, y, x, offsets)|
  {
    if offsets != [] {
      OccupiedAmongCard(g, y, x, offsets[1..]);
      var p := (y + offsets[0].0, x + offsets[0].1);
      ReachedMembers(g, y, x, offsets[1..], p);
    }
  }

  /** Every offset moves by at most one row and column, and none is (0, 0). */
  lemma OffsetsAround(k: nat)
    requires k < |Offsets|
    ensures -1 <= Offsets[k].0 <= 1 && -1 <= Offsets[k].1 <= 1 && Offsets[k] != (0, 0)
  {
  }

  /** Every move by at most one row and column other than (0, 0) is an offset. */
  lemma OffsetIndex(di: int, dj: int) returns (k: nat)
    requires -1 <= di <= 1 && -1 <= dj <= 1 && (di, dj) != (0, 0)
    ensures k < |Offsets| && Offsets[k] == (di, dj)
  {
    k := 3 * (di + 1) + (dj + 1);
    if k > 4 {
      k := k - 1;
    }
  }

  lemma OffsetsDistinct()
    ensures forall a, b :: 0 <= a < b < |Offsets| ==> Offsets[a] != Offsets[b]
  {
  }

  lemma ReachedAround(g: Grid, y: int, x: int)
    ensures Reached(g, y, x, Offsets) <= OccupiedAround(g, y, x)
  {
    forall p | p in Reached(g, y, x, Offsets)
      ensures p in OccupiedAround(g, y, x)
    {
      ReachedMembers(g, y, x, Offsets, p);
      var k :| 0 <= k < |Offsets| && p == (y + Offsets[k].0, x + Offsets[k].1);
      OffsetsAround(k);
    }
  }

  lemma AroundReached(g: Grid, y: int, x: int)
    ensures OccupiedAround(g, y, x) <= Reached(g, y, x, Offsets)
  {
    forall p | p in OccupiedAround(g, y, x)
      ensures p in Reached(g, y, x, Offsets)
    {
      var k := OffsetIndex(p.0 - y, p.1 - x);
      ReachedMembers(g, y, x, Offsets, p);
    }
  }

  /** The count is the number of occupied cells among the eight around
      (y, x): the centre is skipped and cells off the grid count as empty. */
  lemma CountIsOccupiedAround(g: Grid, y: int, x: int)
    ensures CountOccupiedAdjacent(g, y, x) == |OccupiedAround(g, y, x)|
  {
    OffsetsDistinct();
    OccupiedAmongCard(g, y, x, Offsets);
    ReachedAround(g, y, x);
    AroundReached(g, y, x);
    assert Reached(g, y, x, Offsets) == OccupiedAround(g, y, x);
  }

  /** No occupied neighbour exactly when the count is 0. */
  lemma CountZero(g: Grid, y: int, x: int)
    ensures CountOccupiedAdjacent(g, y, x) == 0 <==>
      forall i, j :: Adjacent(y, x, i, j) ==> !IsOccupied(g, i, j)
  {
    CountIsOccupiedAround(g, y, x);
    if CountOccupiedAdjacent(g, y, x) != 0 {
      var p :| p in OccupiedAround(g, y, x);
      assert Adjacent(y, x, p.0, p.1) && IsOccupied(g, p.0, p.1);
    }
    if exists i, j :: Adjacent(y, x, i, j) && IsOccupied(g, i, j) {
      var i, j :| Adjacent(y, x, i, j) && IsOccupied(g, i, j);
      assert (i, j) in OccupiedAround(g, y, x);
    }
  }

  // ---------------------------------------------------------------------
  // simulate_move

  /** The new tile at (y, x): floor stays, an empty seat with no occupied
      neighbour fills, an occupied seat with 4 or more empties. */
  function NextTile(g: Grid, y: nat, x: nat): Tile
    requires y < |g| && x < |g[y]|
  {
    match g[y][x]
    case Floor => Floor
    case Empty => if CountOccupiedAdjacent(g, y, x) == 0 then Occupied else Empty
    case Occupied => if CountOccupiedAdjacent(g, y, x) >= 4 then Empty else Occupied
  }

  function NextRow(g: Grid, y: nat): (row: seq<Tile>)
    requires y < |g|
    ensures |row| == |g[y]|
  {
    seq(|g[y]|, x requires 0 <= x < |g[y]| => NextTile(g, y, x))
  }

  /** One round, every seat decided from the old grid. */
  function Step(g: Grid): (h: Grid)
    ensures |h| == |g| && forall y :: 0 <= y < |g| ==> |h[y]| == |g[y]|
  {
    seq(|g|, y requires 0 <= y < |g| => NextRow(g, y))
  }

  /** The round's rules cell by cell, stated on the neighbour count. */
  lemma StepCell(g: Grid, y: nat, x: nat)
    requires y < |g| && x < |g[y]|
    ensures Step(g)[y][x] == Floor <==> g[y][x] == Floor
    ensures Step(g)[y][x] == Occupied <==>
      (g[y][x] == Empty && forall i, j :: Adjacent(y, x, i, j) ==> !IsOccupied(g, i, j)) ||
      (g[y][x] == Occupied && |OccupiedAround(g, y, x)| < 4)
    ensures g[y][x] != Floor ==> Step(g)[y][x] != Floor
  {
    assert Step(g)[y][x] == NextTile(g, y, x);
    CountZero(g, y, x);
    CountIsOccupiedAround(g, y, x);
  }

  /** A grid no round changes: every empty seat sees an occupied one and
      every occupied seat sees fewer than four. */
  lemma StableIff(g: Grid)
    ensures Step(g) == g <==>
      forall y: nat, x: nat :: y < |g| && x < |g[y]| ==>
        (g[y][x] == Empty ==> CountOccupiedAdjacent(g, y, x) > 0) &&
        (g[y][x] == Occupied ==> CountOccupiedAdjacent(g, y, x) < 4)
  {
    if Step(g) == g {
      forall y: nat, x: nat | y < |g| && x < |g[y]|
        ensures g[y][x] == Empty ==> CountOccupiedAdjacent(g, y, x) > 0
        ensures g[y][x] == Occupied ==> CountOccupiedAdjacent(g, y, x) < 4
      {
        assert Step(g)[y][x] == NextTile(g, y, x);
      }
    } else {
      var h := Step(g);
      var y :| 0 <= y < |g| && h[y] != g[y];
      var x :| 0 <= x < |g[y]| && h[y][x] != g[y][x];
      assert h[y][x] == NextTile(g, y, x);
    }
  }

  /** Two grids of the same shape differ exactly when some cell does. */
  lemma GridsDiffer(g: Grid, h: Grid)
    requires |h| == |g| && forall y :: 0 <= y < |g| ==> |h[y]| == |g[y]|
    ensures h != g <==> exists y, x :: 0 <= y < |g| && 0 <= x < |g[y]| && h[y][x] != g[y][x]
  {
    if h != g {
      var y :| 0 <= y < |g| && h[y] != g[y];
      var x :| 0 <= x < |g[y]| && h[y][x] != g[y][x];
    }
  }

  /** The rows built so far, then the current row's prefix, differ from the
      old grid's exactly when the first rows or the current prefix do. */
  lemma AppendDiffers(a: seq<seq<Tile>>, b: seq<seq<Tile>>, r: seq<Tile>, s: seq<Tile>)
    requires |a| == |b| && |r| == |s|
    ensures a + [r] != b + [s] <==> a != b || r != s
  {
    if a + [r] == b + [s] {
      assert a == (a + [r])[..|a|] && b == (b + [s])[..|b|];
      assert r == (a + [r])[|a|] && s == (b + [s])[|b|];
    }
  }

  lemma PushDiffers(r: seq<Tile>, s: seq<Tile>, t: Tile, u: Tile)
    requires |r| == |s|
    ensures r + [t] != s + [u] <==> r != s || t != u
  {
    if r + [t] == s + [u] {
      assert r == (r + [t])[..|r|] && s == (s + [u])[..|s|];
      assert t == (r + [t])[|r|] && u == (s + [u])[|s|];
    }
  }

  /** `simulate_move`: the next grid, built row by row, and whether any
      seat changed. */
  method SimulateMove(g: Grid) returns (result: Grid, changes: bool)
    ensures result == Step(g)
    ensures changes <==> result != g
  {
    result := [];
    changes := false;
    var y := 0;
    while y < |g|
      invariant 0 <= y <= |g|
      invariant result == Step(g)[..y]
      invariant changes <==> result != g[..y]
    {
      var newRow: seq<Tile> := [];
      var rowChanges := false;
      var x := 0;
      while x < |g[y]|
        invariant 0 <= x <= |g[y]|
        invariant newRow == NextRow(g, y)[..x]
        invariant rowChanges <==> newRow != g[y][..x]
      {
        var t := g[y][x];
        var next: Tile;
        if t == Floor {
          next := Floor;
        } else if t == Empty {
          if CountOccupiedAdjacent(g, y, x) == 0 {
            next := Occupied;
          } else {
            next := Empty;
          }
        } else {
          if CountOccupiedAdjacent(g, y, x) >= 4 {
            next := Empty;
          } else {
            next := Occupied;
          }
        }
        PushDiffers(newRow, g[y][..x], next, t);
        assert g[y][..x] + [t] == g[y][..x + 1];
        assert NextRow(g, y)[..x] + [next] == NextRow(g, y)[..x + 1];
        rowChanges := rowChanges || next != t;
        newRow := newRow + [next];
        x := x + 1;
      }
      assert newRow == NextRow(g, y) && g[y][..x] == g[y];
      AppendDiffers(result, g[..y], newRow, g[y]);
      assert g[..y] + [g[y]] == g[..y + 1];
      assert Step(g)[..y] + [newRow] == Step(g)[..y + 1];
      changes := changes || rowChanges;
      result := result + [newRow];
      y := y + 1;
    }
    assert g[..y] == g && Step(g)[..y] == Step(g);
  }

  // ---------------------------------------------------------------------
  // day11_part1

  /** The first grid in the rounds from g that a round leaves unchanged,
      looked for within `fuel` rounds. */
  function Settle(g: Grid, fuel: nat): (r: Option<Grid>)
    ensures r.Some? ==> Step(r.value) == r.value
    decreases fuel
  {
    if Step(g) == g then Some(g)
    else if fuel == 0 then None
    else Settle(Step(g), fuel - 1)
  }

  /** Once found, the settled grid does not depend on the bound. */
  lemma {:induction false} SettleFuel(g: Grid, fuel: nat, more: nat)
    requires Settle(g, fuel).Some? && fuel <= more
    ensures Settle(g, more) == Settle(g, fuel)
    decreases fuel
  {
    if Step(g) != g {
      SettleFuel(Step(g), fuel - 1, more - 1);
    }
  }

  /** Rounds keep the floor where it is and every seat a seat. */
  predicate SameLayout(g: Grid, h: Grid) {
    |h| == |g| &&
    forall y :: 0 <= y < |g| ==>
      (|h[y]| == |g[y]| && forall x :: 0 <= x < |g[y]| ==> (h[y][x] == Floor <==> g[y][x] == Floor))
  }

  lemma StepLayout(g: Grid)
    ensures SameLayout(g, Step(g))
  {
    forall y, x | 0 <= y < |g| && 0 <= x < |g[y]|
      ensures Step(g)[y][x] == Floor <==> g[y][x] == Floor
    {
      StepCell(g, y, x);
    }
  }

  lemma {:induction false} SettleLayout(g: Grid, fuel: nat)
    requires Settle(g, fuel).Some?
    ensures SameLayout(g, Settle(g, fuel).value)
    decreases fuel
  {
    if Step(g) != g {
      SettleLayout(Step(g), fuel - 1);
      StepLayout(g);
    }
  }

  function RowOccupied(row: seq<Tile>): (n: nat)
    ensures n <= |row|
  {
    if row == [] then 0 else (if row[0] == Occupied then 1 else 0) + RowOccupied(row[1..])
  }

  /** The number of occupied seats (`flatten().filter(..).count()`). */
  function OccupiedSeats(g: Grid): nat {
    if g == [] then 0 else RowOccupied(g[0]) + OccupiedSeats(g[1..])
  }

  /** `day11_part1`: runs rounds until one reports no change and counts the
      occupied seats. The source loops for ever on a grid that never
      settles; here `bound` is a number of rounds within which it does. */
  method Part1(input: Grid, ghost bound: nat) returns (r: nat)
    requires Settle(input, bound).Some?
    ensures r == OccupiedSeats(Settle(input, bound).value)
  {
    var grid := input;
    ghost var fuel := bound;
    while true
      invariant Settle(grid, fuel) == Settle(input, bound)
      decreases fuel
    {
      var next, changed := SimulateMove(grid);
      if !changed {
        break;
      }
      grid := next;
      fuel := fuel - 1;
    }
    r := OccupiedSeats(grid);
  }

  // ---------------------------------------------------------------------
  // examples

  /** The 3 x 3 grid of the source's neighbour test. */
  const Small: Grid := [[Floor, Occupied, Floor], [Occupied, Occupied, Occupied], [Floor, Empty, Occupied]]

  /** Four occupied seats around the centre, two around the middle of the
      left column. */
  lemma ExampleCounts()
    ensures CountOccupiedAdjacent(Small, 1, 1) == 4
    ensures CountOccupiedAdjacent(Small, 1, 0) == 2
  {
  }
}
