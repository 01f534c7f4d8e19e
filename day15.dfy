/** Day 15: the elves' memory game. After the starting numbers, each turn
    speaks 0 if the previous number was new, and otherwise how many turns
    ago it was spoken before. The source plays the game twice over, once
    with a `HashMap` from number to the turn it was last spoken on and once
    with a `Vec` indexed by number, where 0 stands for "never spoken". */
module Day15 {
  import opened Common

  // ---------------------------------------------------------------------
  // input_generator

  function ParseNumbers(parts: seq<string>): (r: Option<seq<nat>>)
    ensures r.Some? ==> |r.value| == |parts|
    ensures r.Some? ==> forall k :: 0 <= k < |parts| ==> ParseNat(parts[k]) == Some(r.value[k])
    ensures r.None? ==> exists k :: 0 <= k < |parts| && ParseNat(parts[k]).None?
  {
    if parts == [] then Some([])
    else match (ParseNat(parts[0]), ParseNumbers(parts[1..]))
      case (Some(x), Some(rest)) => Some([x] + rest)
      case _ => None
  }

  /** `input_generator`: comma-separated numbers, not trimmed; None where a
      piece does not parse. */
  function InputGenerator(input: string): (r: Option<seq<nat>>)
    ensures r.Some? ==> (|r.value| == |Split(input, ',')|
      && forall k :: 0 <= k < |r.value| ==> ParseNat(Split(input, ',')[k]) == Some(r.value[k]))
    ensures r.None? ==> exists k :: 0 <= k < |Split(input, ',')| && ParseNat(Split(input, ',')[k]).None?
  {
    ParseNumbers(Split(input, ','))
  }

  function NumberTexts(ns: seq<nat>): (parts: seq<string>)
    ensures |parts| == |ns|
    ensures forall k :: 0 <= k < |ns| ==> parts[k] == NatToString(ns[k])
  {
    if ns == [] then [] else [NatToString(ns[0])] + NumberTexts(ns[1..])
  }

  lemma {:induction false} ParseNumberTexts(ns: seq<nat>)
    ensures ParseNumbers(NumberTexts(ns)) == Some(ns)
  {
    if ns != [] {
      var parts := NumberTexts(ns);
      assert parts[1..] == NumberTexts(ns[1..]);
      ParseNatToString(ns[0]);
      assert ParseNat(parts[0]) == Some(ns[0]);
      ParseNumberTexts(ns[1..]);
      assert ParseNumbers(parts) == Some([ns[0]] + ns[1..]);
      assert ns == [ns[0]] + ns[1..];
    }
  }

  /** Numbers joined with commas are read back. */
  lemma GeneratorRoundTrip(ns: seq<nat>)
    requires ns != []
    ensures InputGenerator(Join(NumberTexts(ns), ',')) == Some(ns)
  {
    var parts := NumberTexts(ns);
    forall k, i | 0 <= k < |parts| && 0 <= i < |parts[k]|
      ensures parts[k][i] != ','
    {
      assert IsDigit(NatToString(ns[k])[i]);
    }
    SplitOfJoin(parts, ',');
    ParseNumberTexts(ns);
  }

  // ---------------------------------------------------------------------
  // The game as the source plays it

  /** The loop state: the turn each number was last recorded on, and the
      number `spoken`. */
  datatype Game = Game(last: map<nat, nat>, spoken: nat)

  /** Every recorded turn is a real turn (at least 1) before `turn`. */
  predicate Before(last: map<nat, nat>, turn: nat) {
    forall v :: v in last ==> 1 <= last[v] < turn
  }

  /** The state after the first k iterations of the loop over the starting
      numbers: number `input[index]` is recorded on turn `index + 1`, and
      `spoken` becomes `index` minus the turn it was recorded on before. */
  function Opening(input: seq<nat>, k: nat): (g: Game)
    requires k <= |input|
    ensures Before(g.last, k + 1)
    ensures k == 0 ==> g.spoken == 0
    ensures k > 0 ==> g.spoken < k
  {
    if k == 0 then Game(map[], 0)
    else
      var g := Opening(input, k - 1);
      var v := input[k - 1];
      Game(g.last[v := k], if v in g.last then (k - 1) - g.last[v] else 0)
  }

  /** The opening records exactly the first k starting numbers. */
  lemma {:induction false} OpeningKeys(input: seq<nat>, k: nat)
    requires k <= |input|
    ensures forall v :: v in Opening(input, k).last <==> v in input[..k]
  {
    if k > 0 {
      OpeningKeys(input, k - 1);
      assert forall u :: u in input[..k] <==> u in input[..k - 1] || u == input[k - 1];
    }
  }

  /** One turn of the second loop, at turn `index`: the turn `spoken` was
      recorded on before gives the next number, then `spoken` is recorded
      on `index`. */
  function Step(g: Game, index: nat): (next: Game)
    requires 1 <= index && Before(g.last, index)
    ensures Before(next.last, index + 1)
    ensures next.spoken < index
  {
    Game(g.last[g.spoken := index], if g.spoken in g.last then index - g.last[g.spoken] else 0)
  }

  /** The second loop, for `index` from the given one up to n - 1. */
  function Turns(g: Game, index: nat, n: nat): (h: Game)
    requires 1 <= index && Before(g.last, index)
    ensures index < n ==> h.spoken < n - 1
    decreases n - index
  {
    if index >= n then g else Turns(Step(g, index), index + 1, n)
  }

  /** What `find_nth_number` and `find_nth_array` return. */
  function Play(input: seq<nat>, n: nat): (r: nat)
    ensures n > |input| + 1 ==> r < n - 1
  {
    Turns(Opening(input, |input|), |input| + 1, n).spoken
  }

  // ---------------------------------------------------------------------
  // The game as the puzzle states it

  /** The number spoken on turn t (from 1): the starting numbers first;
      afterwards 0 if the previous number had not been spoken before it,
      and otherwise the distance between its last two turns. */
  function Spoken(start: seq<nat>, t: nat): nat
    requires 1 <= t && start != []
    decreases t, 1
  {
    if t <= |start| then start[t - 1]
    else
      var before := LastBefore(start, Spoken(start, t - 1), t - 1);
      if before == 0 then 0 else (t - 1) - before
  }

  /** The last turn before t on which v was spoken, or 0 if there was none. */
  function LastBefore(start: seq<nat>, v: nat, t: nat): (s: nat)
    requires 1 <= t && start != []
    ensures s < t
    decreases t, 0
  {
    if t == 1 then 0
    else if Spoken(start, t - 1) == v then t - 1
    else LastBefore(start, v, t - 1)
  }

  /** The opening records, for each number, its last turn among the first k. */
  lemma {:induction false} OpeningRecords(start: seq<nat>, k: nat, v: nat)
    requires start != [] && k <= |start|
    ensures (v in Opening(start, k).last) == (LastBefore(start, v, k + 1) != 0)
    ensures v in Opening(start, k).last ==> Opening(start, k).last[v] == LastBefore(start, v, k + 1)
  {
    if k > 0 {
      OpeningRecords(start, k - 1, v);
    }
  }

  /** The loop state at turn t agrees with the game: `spoken` is the number of
      turn t, and every number is recorded with its last turn before t. */
  ghost predicate Agrees(start: seq<nat>, g: Game, t: nat)
    requires 1 <= t && start != []
  {
    g.spoken == Spoken(start, t) &&
    forall v :: (v in g.last <==> LastBefore(start, v, t) != 0) &&
                (v in g.last ==> g.last[v] == LastBefore(start, v, t))
  }

  /** A step keeps the loop state in agreement with the game. */
  lemma StepAgrees(start: seq<nat>, g: Game, t: nat)
    requires start != [] && |start| < t && Before(g.last, t) && Agrees(start, g, t)
    ensures Agrees(start, Step(g, t), t + 1)
  {
    var next := Step(g, t);
    assert next.spoken == Spoken(start, t + 1);
    forall v
      ensures (v in next.last <==> LastBefore(start, v, t + 1) != 0)
      ensures v in next.last ==> next.last[v] == LastBefore(start, v, t + 1)
    {
    }
  }

  lemma {:induction false} TurnsAgree(start: seq<nat>, g: Game, t: nat, n: nat)
    requires start != [] && |start| < t <= n && Before(g.last, t) && Agrees(start, g, t)
    ensures Turns(g, t, n).spoken == Spoken(start, n)
    decreases n - t
  {
    if t < n {
      StepAgrees(start, g, t);
      TurnsAgree(start, Step(g, t), t + 1, n);
    }
  }

  /** The last starting number is not among the earlier ones. */
  predicate LastIsNew(start: seq<nat>)
    requires start != []
  {
    start[|start| - 1] !in start[..|start| - 1]
  }

  /** The opening hands the second loop the number of turn |start| + 1, provided
      the last starting number is new. */
  lemma OpeningAgrees(start: seq<nat>)
    requires start != [] && LastIsNew(start)
    ensures Agrees(start, Opening(start, |start|), |start| + 1)
  {
    var l := |start|;
    var g := Opening(start, l);
    forall v
      ensures (v in g.last <==> LastBefore(start, v, l + 1) != 0)
      ensures v in g.last ==> g.last[v] == LastBefore(start, v, l + 1)
    {
      OpeningRecords(start, l, v);
    }
    var x := start[l - 1];
    OpeningRecords(start, l - 1, x);
    OpeningKeys(start, l - 1);
    assert x !in Opening(start, l - 1).last;
    assert Spoken(start, l) == x;
    assert LastBefore(start, x, l) == 0;
  }

  /** With a new last starting number, the source returns the number of turn n
      for every n past the starting numbers. */
  lemma PlayIsGame(start: seq<nat>, n: nat)
    requires start != [] && LastIsNew(start) && |start| < n
    ensures Play(start, n) == Spoken(start, n)
  {
    OpeningAgrees(start);
    TurnsAgree(start, Opening(start, |start|), |start| + 1, n);
  }

  // ---------------------------------------------------------------------
  // The opening with the age counted from the current turn

  /** As Opening, but `spoken` is the current turn `index + 1` minus the
      turn the number was recorded on, as the second loop counts it. */
  function OpeningFixed(input: seq<nat>, k: nat): (g: Game)
    requires k <= |input|
    ensures Before(g.last, k + 1)
    ensures g.last == Opening(input, k).last
  {
    if k == 0 then Game(map[], 0)
    else
      var g := OpeningFixed(input, k - 1);
      var v := input[k - 1];
      Game(g.last[v := k], if v in g.last then k - g.last[v] else 0)
  }

  function PlayFixed(input: seq<nat>, n: nat): nat {
    Turns(OpeningFixed(input, |input|), |input| + 1, n).spoken
  }

  /** The corrected opening agrees with the game for every start. */
  lemma OpeningFixedAgrees(start: seq<nat>)
    requires start != []
    ensures Agrees(start, OpeningFixed(start, |start|), |start| + 1)
  {
    var l := |start|;
    var g := OpeningFixed(start, l);
    forall v
      ensures (v in g.last <==> LastBefore(start, v, l + 1) != 0)
      ensures v in g.last ==> g.last[v] == LastBefore(start, v, l + 1)
    {
      OpeningRecords(start, l, v);
    }
    var x := start[l - 1];
    var before := OpeningFixed(start, l - 1);
    OpeningRecords(start, l - 1, x);
    assert before.last == Opening(start, l - 1).last;
    assert g.spoken == if x in before.last then l - before.last[x] else 0;
    assert Spoken(start, l) == x;
    assert Spoken(start, l + 1) == if LastBefore(start, x, l) == 0 then 0 else l - LastBefore(start, x, l);
  }


  /** The corrected game returns the number of turn n for every start and every
      n past the starting numbers. */
  lemma PlayFixedIsGame(start: seq<nat>, n: nat)
    requires start != [] && |start| < n
    ensures PlayFixed(start, n) == Spoken(start, n)
  {
    OpeningFixedAgrees(start);
    TurnsAgree(start, OpeningFixed(start, |start|), |start| + 1, n);
  }

  /** A repeated last starting number: [0, 0] says 1 on turn 3, the source 0. */
  lemma RepeatedLastStart()
    ensures Spoken([0, 0], 3) == 1
    ensures Play([0, 0], 3) == 0
    ensures PlayFixed([0, 0], 3) == 1
  {
    assert Spoken([0, 0], 2) == 0;
    assert Spoken([0, 0], 1) == 0;
    assert LastBefore([0, 0], 0, 2) == 1;
    assert Opening([0, 0], 1) == Game(map[0 := 1], 0);
    assert OpeningFixed([0, 0], 1) == Game(map[0 := 1], 0);
  }

  // ---------------------------------------------------------------------
  // find_nth_number: the map version

  method FindNthNumber(input: seq<nat>, n: nat) returns (r: nat)
    ensures r == Play(input, n)
  {
    var numbers: map<nat, nat> := map[];
    var spoken: nat := 0;
    for index := 0 to |input|
      invariant Game(numbers, spoken) == Opening(input, index)
    {
      var value := input[index];
      if value in numbers {
        spoken := index - numbers[value];
      } else {
        spoken := 0;
      }
      numbers := numbers[value := index + 1];
    }
    var index := |input| + 1;
    ghost var start := Opening(input, |input|);
    while index < n
      invariant |input| + 1 <= index && Before(numbers, index)
      invariant Turns(Game(numbers, spoken), index, n) == Turns(start, |input| + 1, n)
      decreases n - index
    {
      ghost var g := Game(numbers, spoken);
      var t := spoken;
      if spoken in numbers {
        spoken := index - numbers[spoken];
      } else {
        spoken := 0;
      }
      numbers := numbers[t := index];
      assert Step(g, index) == Game(numbers, spoken);
      index := index + 1;
    }
    r := spoken;
  }

  // ---------------------------------------------------------------------
  // find_nth_array: the vector version

  /** The vector holds the map: the recorded turn at each number, 0 elsewhere. */
  predicate Holds(cells: seq<nat>, last: map<nat, nat>) {
    (forall v :: v in last ==> v < |cells|) &&
    forall v :: 0 <= v < |cells| ==> cells[v] == if v in last then last[v] else 0
  }

  /** One opening iteration on the vector: a non-zero cell is the turn the
      number was recorded on, and writing the new turn keeps the vector in step. */
  lemma OpeningCell(input: seq<nat>, index: nat, cells: seq<nat>)
    requires index < |input| && input[index] < |cells| && Holds(cells, Opening(input, index).last)
    ensures var v := input[index];
      Opening(input, index + 1) ==
        Game(Opening(input, index).last[v := index + 1], if cells[v] != 0 then index - cells[v] else 0)
    ensures Holds(cells[input[index] := index + 1], Opening(input, index + 1).last)
  {
  }

  /** One turn of the second loop on the vector. */
  lemma StepCell(g: Game, index: nat, cells: seq<nat>)
    requires 1 <= index && Before(g.last, index) && g.spoken < |cells| && Holds(cells, g.last)
    ensures Step(g, index) ==
      Game(g.last[g.spoken := index], if cells[g.spoken] != 0 then index - cells[g.spoken] else 0)
    ensures Holds(cells[g.spoken := index], Step(g, index).last)
  {
  }

  /** The vector loop after the first `index` starting numbers. */
  ghost predicate Opened(input: seq<nat>, index: nat, cells: seq<nat>, spoken: nat) {
    index <= |input| && (forall k :: 0 <= k < index ==> input[k] < |cells|) &&
    spoken == Opening(input, index).spoken && Holds(cells, Opening(input, index).last)
  }

  lemma OpenedStep(input: seq<nat>, index: nat, cells: seq<nat>, spoken: nat, cells': seq<nat>, spoken': nat)
    requires Opened(input, index, cells, spoken) && index < |input| && input[index] < |cells|
    requires cells' == cells[input[index] := index + 1]
    requires spoken' == if cells[input[index]] != 0 then index - cells[input[index]] else 0
    ensures Opened(input, index + 1, cells', spoken')
  {
    OpeningCell(input, index, cells);
  }

  /** The vector loop over the later turns, from turn `index` on. */
  ghost predicate Playing(input: seq<nat>, n: nat, cells: seq<nat>, g: Game, index: nat) {
    |input| + 1 <= index && Before(g.last, index) && g.spoken < index && Holds(cells, g.last) &&
    Turns(g, index, n) == Turns(Opening(input, |input|), |input| + 1, n)
  }

  lemma PlayingStep(input: seq<nat>, n: nat, cells: seq<nat>, g: Game, index: nat, cells': seq<nat>, spoken': nat)
    requires Playing(input, n, cells, g, index) && index < n && index <= |cells|
    requires g.spoken < |cells| && cells' == cells[g.spoken := index]
    requires spoken' == if cells[g.spoken] != 0 then index - cells[g.spoken] else 0
    ensures spoken' == Step(g, index).spoken && Playing(input, n, cells', Step(g, index), index + 1)
  {
    StepCell(g, index, cells);
  }

  /** None where the source indexes past the vector: a starting number not
      below n. */
  method FindNthArray(input: seq<nat>, n: nat) returns (r: Option<nat>)
    ensures r == if forall k :: 0 <= k < |input| ==> input[k] < n then Some(Play(input, n)) else None
  {
    var numbers := new nat[n](_ => 0);
    var spoken: nat := 0;
    for index := 0 to |input|
      invariant Opened(input, index, numbers[..], spoken)
    {
      var value := input[index];
      if value >= n {
        return None;
      }
      ghost var cells, before := numbers[..], spoken;
      var lastOccurrence := numbers[value];
      if lastOccurrence != 0 {
        spoken := index - lastOccurrence;
      } else {
        spoken := 0;
      }
      numbers[value] := index + 1;
      OpenedStep(input, index, cells, before, numbers[..], spoken);
    }
    var index := |input| + 1;
    ghost var g := Opening(input, |input|);
    while index < n
      invariant spoken == g.spoken && Playing(input, n, numbers[..], g, index)
      decreases n - index
    {
      ghost var cells := numbers[..];
      var lastOccurrence := numbers[spoken];
      var t := spoken;
      if lastOccurrence != 0 {
        spoken := index - lastOccurrence;
      } else {
        spoken := 0;
      }
      numbers[t] := index;
      PlayingStep(input, n, cells, g, index, numbers[..], spoken);
      g := Step(g, index);
      index := index + 1;
    }
    r := Some(spoken);
  }

  // ---------------------------------------------------------------------
  // Examples

  /** After 0, 3, 6 the source speaks 0 and has recorded turns 1, 2 and 3. */
  lemma ExampleOpening(input: seq<nat>)
    requires input == [0, 3, 6]
    ensures Opening(input, 3).spoken == 0 && Opening(input, 3).last.Keys == {0, 3, 6}
    ensures Opening(input, 3).last[0] == 1 && Opening(input, 3).last[3] == 2
  {
    OpeningKeys(input, 2);
    OpeningKeys(input, 3);
    assert input[..3] == input;
    assert 6 !in input[..2];
    assert Opening(input, 1).last[0] == 1;
    assert Opening(input, 2).last[3] == 2;
  }

  /** src/day15.rs test_given_day_15: 0, 3, 6 speaks 0 on turn 10. */
  lemma ExampleTenth(input: seq<nat>)
    requires input == [0, 3, 6]
    ensures Play(input, 10) == 0
  {
    ExampleOpening(input);
    var g3 := Opening(input, 3);
    var g4 := Step(g3, 4);
    assert g4.spoken == 3 && g4.last.Keys == {0, 3, 6};
    var g5 := Step(g4, 5);
    assert g5.spoken == 3 && g5.last.Keys == {0, 3, 6};
    var g6 := Step(g5, 6);
    assert g6.spoken == 1 && g6.last.Keys == {0, 3, 6};
    var g7 := Step(g6, 7);
    assert g7.spoken == 0 && g7.last.Keys == {0, 1, 3, 6} && g7.last[0] == 4;
    var g8 := Step(g7, 8);
    assert g8.spoken == 4 && g8.last.Keys == {0, 1, 3, 6};
    var g9 := Step(g8, 9);
    assert g9.spoken == 0;
    assert Turns(g3, 4, 10) == g9;
  }
}
