/** Day 5: boarding passes. A pass is a binary space partition: seven
    characters F/B halve the 128 rows, three characters L/R halve the eight
    columns, and the seat id is row * 8 + column. */
module Day5 {
  import opened Common

  // ---------------------------------------------------------------------
  // the partition search

  /** The remainder of `search` from a state (min, sub): each character
      halves sub; the bottom character leaves min alone (only the unused
      upper bound moves), the upper character adds the halved sub to min; any
      other character panics. The bottom character is tested first. */
  function SearchFrom(p: seq<char>, min: nat, sub: nat, bottom: char, upper: char): (r: Option<nat>)
    ensures r.None? <==> exists i :: 0 <= i < |p| && p[i] != bottom && p[i] != upper
  {
    if p == [] then Some(min)
    else
      assert forall i :: 1 <= i < |p| ==> p[1..][i - 1] == p[i];
      if p[0] == bottom then SearchFrom(p[1..], min, sub / 2, bottom, upper)
      else if p[0] == upper then SearchFrom(p[1..], min + sub / 2, sub / 2, bottom, upper)
      else None
  }

  /** `search`: the loop over the characters, starting from min = lowest and
      sub = highest + 1. */
  method Search(partitioning: seq<char>, lowest: nat, highest: nat, bottom: char, upper: char)
    returns (r: Option<nat>)
    ensures r == SearchFrom(partitioning, lowest, highest + 1, bottom, upper)
  {
    var min: nat := lowest;
    var max: int := highest;
    var sub: nat := highest + 1;
    var i := 0;
    while i < |partitioning|
      invariant 0 <= i <= |partitioning|
      invariant SearchFrom(partitioning[i..], min, sub, bottom, upper)
        == SearchFrom(partitioning, lowest, highest + 1, bottom, upper)
    {
      var c := partitioning[i];
      assert partitioning[i..][1..] == partitioning[i + 1..];
      sub := sub / 2;
      if c == bottom {
        max := max - sub;
      } else if c == upper {
        min := min + sub;
      } else {
        return None;
      }
      i := i + 1;
    }
    return Some(min);
  }

  /** The binary number a pass spells when the upper character is read as 1
      and any other as 0, most significant first. */
  function BinaryValue(p: seq<char>, upper: char): (v: nat)
    ensures v < Pow2(|p|)
  {
    if p == [] then 0
    else (if p[0] == upper then Pow2(|p| - 1) else 0) + BinaryValue(p[1..], upper)
  }

  /** When sub starts at 2^|p|, the search adds the pass read as a binary
      number to min. */
  lemma {:induction false} SearchIsBinary(p: seq<char>, min: nat, bottom: char, upper: char)
    requires bottom != upper
    requires forall i :: 0 <= i < |p| ==> p[i] == bottom || p[i] == upper
    ensures SearchFrom(p, min, Pow2(|p|), bottom, upper) == Some(min + BinaryValue(p, upper))
  {
    if p != [] {
      assert Pow2(|p|) / 2 == Pow2(|p| - 1);
      assert forall i :: 0 <= i < |p[1..]| ==> p[1..][i] == p[i + 1];
      if p[0] == bottom {
        SearchIsBinary(p[1..], min, bottom, upper);
      } else {
        SearchIsBinary(p[1..], min + Pow2(|p| - 1), bottom, upper);
      }
    }
  }

  /** Whatever the characters, the result stays within [min, min + sub - 1]:
      `search` never leaves [lowest, highest]. */
  lemma {:induction false} SearchRange(p: seq<char>, min: nat, sub: nat, bottom: char, upper: char)
    requires sub >= 1 && SearchFrom(p, min, sub, bottom, upper).Some?
    ensures min <= SearchFrom(p, min, sub, bottom, upper).value <= min + sub - 1
  {
    if p != [] {
      var half := sub / 2;
      if half == 0 {
        SearchZero(p[1..], if p[0] == bottom then min else min + half, bottom, upper);
      } else if p[0] == bottom {
        SearchRange(p[1..], min, half, bottom, upper);
      } else {
        SearchRange(p[1..], min + half, half, bottom, upper);
      }
    }
  }

  /** Once sub has reached 0 the result no longer moves. */
  lemma {:induction false} SearchZero(p: seq<char>, min: nat, bottom: char, upper: char)
    requires SearchFrom(p, min, 0, bottom, upper).Some?
    ensures SearchFrom(p, min, 0, bottom, upper) == Some(min)
  {
    if p != [] {
      SearchZero(p[1..], min, bottom, upper);
    }
  }

  // ---------------------------------------------------------------------
  // seat ids

  /** `calculate_seat_id` as a function: `None` where the pass has fewer than
      seven characters (`split_at` panics) or a wrong character. */
  function SeatId(p: seq<char>): Option<nat> {
    if |p| < 7 then None
    else
      match (SearchFrom(p[..7], 0, 128, 'F', 'B'), SearchFrom(p[7..], 0, 8, 'L', 'R'))
      case (Some(row), Some(column)) => Some(row * 8 + column)
      case _ => None
  }

  /** `calculate_seat_id`. */
  method CalculateSeatId(p: seq<char>) returns (r: Option<nat>)
    ensures r == SeatId(p)
  {
    if |p| < 7 {
      return None;
    }
    var row := Search(p[..7], 0, 127, 'F', 'B');
    var column := Search(p[7..], 0, 7, 'L', 'R');
    r := match (row, column)
      case (Some(row), Some(column)) => Some(row * 8 + column)
      case _ => None;
  }

  predicate WellFormedPass(p: seq<char>) {
    |p| == 10 && (forall i :: 0 <= i < 7 ==> p[i] == 'F' || p[i] == 'B')
    && (forall i :: 7 <= i < 10 ==> p[i] == 'L' || p[i] == 'R')
  }

  /** A well-formed pass's id is its row read in binary (B = 1) times 8 plus
      its column read in binary (R = 1); ids stay below 1024. */
  lemma SeatIdBinary(p: seq<char>)
    requires WellFormedPass(p)
    ensures SeatId(p) == Some(BinaryValue(p[..7], 'B') * 8 + BinaryValue(p[7..], 'R'))
    ensures SeatId(p).value < 1024
  {
    assert Pow2(7) == 128 && Pow2(3) == 8;
    SearchIsBinary(p[..7], 0, 'F', 'B');
    SearchIsBinary(p[7..], 0, 'L', 'R');
  }

  // ---------------------------------------------------------------------
  // parts 1 and 2

  predicate AllSeatIds(input: seq<seq<char>>) {
    forall i :: 0 <= i < |input| ==> SeatId(input[i]).Some?
  }

  function SeatIds(input: seq<seq<char>>): set<nat>
    requires AllSeatIds(input)
  {
    set i | 0 <= i < |input| :: SeatId(input[i]).value
  }

  function MaxSeat(input: seq<seq<char>>): (m: nat)
    requires AllSeatIds(input) && |input| > 0
    ensures m in SeatIds(input) && forall id :: id in SeatIds(input) ==> id <= m
  {
    var last := SeatId(input[|input| - 1]).value;
    if |input| == 1 then last
    else
      var init := input[..|input| - 1];
      assert forall i :: 0 <= i < |init| ==> init[i] == input[i];
      assert SeatIds(input) == SeatIds(init) + {last};
      var m := MaxSeat(init);
      if last > m then last else m
  }

  function MinSeat(input: seq<seq<char>>): (m: nat)
    requires AllSeatIds(input) && |input| > 0
    ensures m in SeatIds(input) && forall id :: id in SeatIds(input) ==> m <= id
  {
    var last := SeatId(input[|input| - 1]).value;
    if |input| == 1 then last
    else
      var init := input[..|input| - 1];
      assert forall i :: 0 <= i < |init| ==> init[i] == input[i];
      assert SeatIds(input) == SeatIds(init) + {last};
      var m := MinSeat(init);
      if last < m then last else m
  }

  /** Part 1: the highest seat id; `None` for no passes or a bad one. */
  method Part1(input: seq<seq<char>>) returns (r: Option<nat>)
    ensures r == if |input| == 0 || !AllSeatIds(input) then None else Some(MaxSeat(input))
  {
    var best := 0;
    var i := 0;
    while i < |input|
      invariant 0 <= i <= |input|
      invariant forall j :: 0 <= j < i ==> SeatId(input[j]).Some? && SeatId(input[j]).value <= best
      invariant i > 0 ==> exists j :: 0 <= j < i && SeatId(input[j]) == Some(best)
    {
      var id := CalculateSeatId(input[i]);
      if id.None? {
        return None;
      }
      if i == 0 || id.value > best {
        best := id.value;
      }
      i := i + 1;
    }
    if i == 0 {
      return None;
    }
    var m := MaxSeat(input);
    assert best in SeatIds(input);
    assert m <= best by {
      var j :| 0 <= j < |input| && SeatId(input[j]).value == m;
    }
    return Some(best);
  }

  /** Part 2: the lowest id between the lowest and the highest known ids
      (the highest excluded) that no pass holds; `None` where the source
      panics: no passes, a bad pass, or no such gap. */
  method Part2(input: seq<seq<char>>) returns (r: Option<nat>)
    ensures r.None? <==> (|input| == 0 || !AllSeatIds(input)
      || forall id :: MinSeat(input) <= id < MaxSeat(input) ==> id in SeatIds(input))
    ensures r.Some? ==> (|input| > 0 && AllSeatIds(input)
      && MinSeat(input) <= r.value < MaxSeat(input) && r.value !in SeatIds(input)
      && forall id :: MinSeat(input) <= id < r.value ==> id in SeatIds(input))
  {
    var known: set<nat> := {};
    var i := 0;
    while i < |input|
      invariant 0 <= i <= |input|
      invariant forall j :: 0 <= j < i ==> SeatId(input[j]).Some?
      invariant known == set j | 0 <= j < i :: SeatId(input[j]).value
    {
      var id := CalculateSeatId(input[i]);
      if id.None? {
        return None;
      }
      known := known + {id.value};
      i := i + 1;
    }
    if |input| == 0 {
      return None;
    }
    assert known == SeatIds(input);
    var highest := MaxSeat(input);
    var min := MinSeat(input);
    var id := min;
    while id < highest
      invariant min <= id
      invariant forall x :: min <= x < id ==> x in known
    {
      if id !in known {
        return Some(id);
      }
      id := id + 1;
    }
    return None;
  }

  // ---------------------------------------------------------------------
  // the repository's tests

  lemma Pow2Small()
    ensures Pow2(1) == 2 && Pow2(2) == 4 && Pow2(3) == 8 && Pow2(4) == 16
    ensures Pow2(5) == 32 && Pow2(6) == 64 && Pow2(7) == 128
  {
  }

  lemma TestGivenRow()
    ensures SearchFrom(['F', 'B', 'F', 'B', 'B', 'F', 'F'], 0, 127 + 1, 'F', 'B') == Some(44)
  {
    var p := ['F', 'B', 'F', 'B', 'B', 'F', 'F'];
    Pow2Small();
    SearchIsBinary(p, 0, 'F', 'B');
    assert p[6..] == ['F'] && p[5..] == ['F', 'F'] && p[4..] == ['B', 'F', 'F'];
    assert p[3..] == ['B', 'B', 'F', 'F'] && p[2..] == ['F', 'B', 'B', 'F', 'F'];
    assert p[1..] == ['B', 'F', 'B', 'B', 'F', 'F'];
    assert BinaryValue(p[6..], 'B') == 0 && BinaryValue(p[5..], 'B') == 0;
    assert BinaryValue(p[4..], 'B') == 4;
    assert BinaryValue(p[3..], 'B') == 12;
    assert BinaryValue(p[2..], 'B') == 12;
    assert BinaryValue(p[1..], 'B') == 44;
  }

  lemma TestGivenColumn()
    ensures SearchFrom(['R', 'L', 'R'], 0, 7 + 1, 'L', 'R') == Some(5)
  {
    Pow2Small();
    SearchIsBinary(['R', 'L', 'R'], 0, 'L', 'R');
    assert ['R', 'L', 'R'][1..] == ['L', 'R'] && ['L', 'R'][1..] == ['R'];
  }

  /** The row and column of a well-formed pass, read in binary. */
  lemma PassValue(p: seq<char>, row: nat, column: nat)
    requires WellFormedPass(p)
    requires BinaryValue(p[..7], 'B') == row && BinaryValue(p[7..], 'R') == column
    ensures SeatId(p) == Some(row * 8 + column)
  {
    SeatIdBinary(p);
  }

  lemma TestCalculateSeatId()
    ensures SeatId(['F', 'B', 'F', 'B', 'B', 'F', 'F', 'R', 'L', 'R']) == Some(357)
  {
    var p := ['F', 'B', 'F', 'B', 'B', 'F', 'F', 'R', 'L', 'R'];
    assert p[..7] == ['F', 'B', 'F', 'B', 'B', 'F', 'F'] && p[7..] == ['R', 'L', 'R'];
    TestGivenRow();
    TestGivenColumn();
  }

  function BitValue(c: char, upper: char, weight: nat): nat {
    if c == upper then weight else 0
  }

  /** A seven-character row read in binary, digit by digit. */
  lemma RowValue(p: seq<char>)
    requires |p| == 7
    ensures BinaryValue(p, 'B') == BitValue(p[0], 'B', 64) + BitValue(p[1], 'B', 32) + BitValue(p[2], 'B', 16)
      + BitValue(p[3], 'B', 8) + BitValue(p[4], 'B', 4) + BitValue(p[5], 'B', 2) + BitValue(p[6], 'B', 1)
  {
    Pow2Small();
    assert p[6..][1..] == [];
    assert BinaryValue(p[6..], 'B') == BitValue(p[6], 'B', 1);
    assert p[5..][1..] == p[6..];
    assert BinaryValue(p[5..], 'B') == BitValue(p[5], 'B', 2) + BinaryValue(p[6..], 'B');
    assert p[4..][1..] == p[5..];
    assert BinaryValue(p[4..], 'B') == BitValue(p[4], 'B', 4) + BinaryValue(p[5..], 'B');
    assert p[3..][1..] == p[4..];
    assert BinaryValue(p[3..], 'B') == BitValue(p[3], 'B', 8) + BinaryValue(p[4..], 'B');
    assert p[2..][1..] == p[3..];
    assert BinaryValue(p[2..], 'B') == BitValue(p[2], 'B', 16) + BinaryValue(p[3..], 'B');
    assert p[1..][1..] == p[2..];
    assert BinaryValue(p[1..], 'B') == BitValue(p[1], 'B', 32) + BinaryValue(p[2..], 'B');
  }

  /** A three-character column read in binary, digit by digit. */
  lemma ColumnValue(p: seq<char>)
    requires |p| == 3
    ensures BinaryValue(p, 'R') == BitValue(p[0], 'R', 4) + BitValue(p[1], 'R', 2) + BitValue(p[2], 'R', 1)
  {
    Pow2Small();
    assert p[2..][1..] == [];
    assert BinaryValue(p[2..], 'R') == BitValue(p[2], 'R', 1);
    assert p[1..][1..] == p[2..];
    assert BinaryValue(p[1..], 'R') == BitValue(p[1], 'R', 2) + BinaryValue(p[2..], 'R');
  }

  /** A well-formed pass's id, digit by digit. */
  lemma PassDigits(p: seq<char>)
    requires WellFormedPass(p)
    ensures SeatId(p) == Some(8 * (BitValue(p[0], 'B', 64) + BitValue(p[1], 'B', 32) + BitValue(p[2], 'B', 16)
      + BitValue(p[3], 'B', 8) + BitValue(p[4], 'B', 4) + BitValue(p[5], 'B', 2) + BitValue(p[6], 'B', 1))
      + BitValue(p[7], 'R', 4) + BitValue(p[8], 'R', 2) + BitValue(p[9], 'R', 1))
  {
    RowValue(p[..7]);
    ColumnValue(p[7..]);
    SeatIdBinary(p);
  }

  lemma PassId567()
    ensures SeatId(['B', 'F', 'F', 'F', 'B', 'B', 'F', 'R', 'R', 'R']) == Some(567)
  {
    PassDigits(['B', 'F', 'F', 'F', 'B', 'B', 'F', 'R', 'R', 'R']);
  }

  lemma PassId119()
    ensures SeatId(['F', 'F', 'F', 'B', 'B', 'B', 'F', 'R', 'R', 'R']) == Some(119)
  {
    PassDigits(['F', 'F', 'F', 'B', 'B', 'B', 'F', 'R', 'R', 'R']);
  }

  lemma PassId820()
    ensures SeatId(['B', 'B', 'F', 'F', 'B', 'B', 'F', 'R', 'L', 'L']) == Some(820)
  {
    PassDigits(['B', 'B', 'F', 'F', 'B', 'B', 'F', 'R', 'L', 'L']);
  }

  /** The repository's part-1 test: the highest of three ids is 820. */
  lemma TestPart1()
    ensures var input := [['B', 'F', 'F', 'F', 'B', 'B', 'F', 'R', 'R', 'R'],
                          ['F', 'F', 'F', 'B', 'B', 'B', 'F', 'R', 'R', 'R'],
                          ['B', 'B', 'F', 'F', 'B', 'B', 'F', 'R', 'L', 'L']];
      AllSeatIds(input) && MaxSeat(input) == 820
  {
    var input := [['B', 'F', 'F', 'F', 'B', 'B', 'F', 'R', 'R', 'R'],
                  ['F', 'F', 'F', 'B', 'B', 'B', 'F', 'R', 'R', 'R'],
                  ['B', 'B', 'F', 'F', 'B', 'B', 'F', 'R', 'L', 'L']];
    PassId567();
    PassId119();
    PassId820();
    assert SeatId(input[2]).value in SeatIds(input);
    var m := MaxSeat(input);
    var j :| 0 <= j < 3 && SeatId(input[j]).value == m;
  }
}
