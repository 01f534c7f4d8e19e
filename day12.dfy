/** Day 12: a ship follows navigation instructions. It starts facing east
    (90 degrees) at the origin; N, S, E and W move it, L and R turn it, and
    F moves it the way it faces. Part 1 is the Manhattan distance from the
    origin at the end. */
module Day12 {
  import opened Common

  /** Every instruction carries its amount `d` (a distance or degrees). */
  datatype Instruction =
    | North(d: int)
    | West(d: int)
    | East(d: int)
    | South(d: int)
    | Left(d: int)
    | Right(d: int)
    | Forward(d: int)

  predicate IsDirection(i: Instruction) {
    i.North? || i.South? || i.East? || i.West?
  }

  predicate IsRotation(i: Instruction) {
    i.Left? || i.Right?
  }

  /** The ship as a value: facing in degrees clockwise from north (a u16),
      then x (east) and y (north). */
  datatype Pose = Pose(facing: nat, x: int, y: int)

  const Start := Pose(90, 0, 0)

  // ---------------------------------------------------------------------
  // the specification of one instruction

  /** `travel_by_direction`. */
  function Move(p: Pose, i: Instruction): (q: Pose)
    requires IsDirection(i)
    ensures q.facing == p.facing
  {
    match i
    case North(d) => p.(y := p.y + d)
    case South(d) => p.(y := p.y - d)
    case West(d) => p.(x := p.x - d)
    case East(d) => p.(x := p.x + d)
  }

  /** The degrees a turn adds clockwise: R d adds d, L d adds 360 - d. */
  function Angle(i: Instruction): int
    requires IsRotation(i)
  {
    if i.Right? then i.d else 360 - i.d
  }

  /** The angle after `as u16`: the cast keeps the low 16 bits. */
  function U16Angle(i: Instruction): (a: nat)
    requires IsRotation(i)
    ensures a < 0x1_0000
    ensures 0 <= Angle(i) < 0x1_0000 ==> a == Angle(i)
  {
    Angle(i) % 0x1_0000
  }

  /** The u16 sum of the facing and the cast angle does not overflow (where
      it does, `+=` panics). */
  predicate TurnFits(facing: nat, i: Instruction)
    requires IsRotation(i)
  {
    facing + U16Angle(i) < 0x1_0000
  }

  /** `rotate`, where the sum does not overflow. */
  function Turn(p: Pose, i: Instruction): (q: Pose)
    requires IsRotation(i) && TurnFits(p.facing, i)
    ensures q.x == p.x && q.y == p.y
    ensures 0 <= q.facing < 360
    ensures 0 <= Angle(i) < 0x1_0000 ==> q.facing == (p.facing + Angle(i)) % 360
  {
    p.(facing := (p.facing + U16Angle(i)) % 360)
  }

  /** The direction instruction that F d stands for at a facing; `None` at
      a facing that is not a multiple of 90 below 360 (a panic). */
  function Heading(facing: int, d: int): (r: Option<Instruction>)
    ensures r.Some? ==> IsDirection(r.value) && r.value.d == d
  {
    if facing == 0 then Some(North(d))
    else if facing == 90 then Some(East(d))
    else if facing == 180 then Some(South(d))
    else if facing == 270 then Some(West(d))
    else None
  }

  /** `travel`: the pose after one instruction; `None` where it panics. */
  function Apply(p: Pose, i: Instruction): Option<Pose> {
    match i
    case Left(_) => if TurnFits(p.facing, i) then Some(Turn(p, i)) else None
    case Right(_) => if TurnFits(p.facing, i) then Some(Turn(p, i)) else None
    case Forward(d) =>
      (match Heading(p.facing, d)
       case Some(dir) => Some(Move(p, dir))
       case None => None)
    case _ => Some(Move(p, i))
  }

  /** The instructions in order; `None` from the first that panics. */
  function Run(p: Pose, instrs: seq<Instruction>): Option<Pose>
    decreases |instrs|
  {
    if instrs == [] then Some(p)
    else match Apply(p, instrs[0])
      case Some(q) => Run(q, instrs[1..])
      case None => None
  }

  // ---------------------------------------------------------------------
  // the ship

  class Ship {
    var facing: nat
    var x: int
    var y: int

    function State(): Pose
      reads this
    {
      Pose(facing, x, y)
    }

    /** `Ship::new`: facing east at the origin. */
    constructor()
      ensures State() == Start
    {
      facing := 90;
      x := 0;
      y := 0;
    }

    method TravelByDirection(i: Instruction)
      requires IsDirection(i)
      modifies this
      ensures State() == Move(old(State()), i)
    {
      match i
      case North(d) => y := y + d;
      case South(d) => y := y - d;
      case West(d) => x := x - d;
      case East(d) => x := x + d;
    }

    /** `rotate`: false, with nothing changed, where the u16 sum
        overflows. */
    method Rotate(i: Instruction) returns (ok: bool)
      requires IsRotation(i)
      modifies this
      ensures ok <==> TurnFits(old(facing), i)
      ensures ok ==> State() == Turn(old(State()), i)
      ensures !ok ==> State() == old(State())
    {
      var angle := (if i.Right? then i.d else 360 - i.d) % 0x1_0000;
      if facing + angle >= 0x1_0000 {
        return false;
      }
      facing := facing + angle;
      facing := facing % 360;
      ok := true;
    }

    /** Moves `distance` the way the ship faces; false, with nothing
        changed, where the facing is not one of the four headings. */
    method TravelByFacing(distance: int) returns (ok: bool)
      modifies this
      ensures ok <==> Heading(old(facing), distance).Some?
      ensures ok ==> State() == Move(old(State()), Heading(old(facing), distance).value)
      ensures !ok ==> State() == old(State())
    {
      var instruction: Instruction;
      if facing == 0 {
        instruction := North(distance);
      } else if facing == 90 {
        instruction := East(distance);
      } else if facing == 180 {
        instruction := South(distance);
      } else if facing == 270 {
        instruction := West(distance);
      } else {
        return false;
      }
      TravelByDirection(instruction);
      ok := true;
    }

    /** `travel`: false where the source panics. */
    method Travel(i: Instruction) returns (ok: bool)
      modifies this
      ensures ok <==> Apply(old(State()), i).Some?
      ensures ok ==> State() == Apply(old(State()), i).value
    {
      match i
      case North(_) => TravelByDirection(i); ok := true;
      case East(_) => TravelByDirection(i); ok := true;
      case West(_) => TravelByDirection(i); ok := true;
      case South(_) => TravelByDirection(i); ok := true;
      case Left(_) => ok := Rotate(i);
      case Right(_) => ok := Rotate(i);
      case Forward(d) => ok := TravelByFacing(d);
    }
  }

  function Distance(p: Pose): nat {
    (if p.x < 0 then -p.x else p.x) + (if p.y < 0 then -p.y else p.y)
  }

  /** `day12_part1`: a new ship follows every instruction; the answer is
      |x| + |y|, or `None` where an instruction panics. */
  method Part1(input: seq<Instruction>) returns (r: Option<nat>)
    ensures Run(Start, input).None? ==> r.None?
    ensures Run(Start, input).Some? ==> r == Some(Distance(Run(Start, input).value))
  {
    var ship := new Ship();
    var k := 0;
    while k < |input|
      invariant 0 <= k <= |input|
      invariant Run(Start, input) == Run(ship.State(), input[k..])
    {
      assert input[k..][1..] == input[k + 1..];
      var ok := ship.Travel(input[k]);
      if !ok {
        return None;
      }
      k := k + 1;
    }
    r := Some(Distance(ship.State()));
  }

  // ---------------------------------------------------------------------
  // properties

  /** Going north then south (or east then west) by the same distance
      comes back. */
  lemma MoveBack(p: Pose, d: int)
    ensures Move(Move(p, North(d)), South(d)) == p
    ensures Move(Move(p, East(d)), West(d)) == p
  {
  }

  /** A right turn is undone by a left turn of the same amount. */
  lemma TurnBack(p: Pose, d: int)
    requires 0 <= p.facing < 360 && 0 <= d <= 360
    ensures Turn(Turn(p, Right(d)), Left(d)) == p
  {
    var q := Turn(p, Right(d));
    var f := (p.facing + d) % 360;
    assert q.facing == f;
    ModAdd360(p.facing + d, 360 - d);
    assert (p.facing + d + 360 - d) % 360 == p.facing;
  }

  lemma ModAdd360(a: int, b: int)
    ensures (a % 360 + b) % 360 == (a + b) % 360
  {
  }

  /** Forward moves along the facing: north at 0, east at 90, south at 180
      and west at 270; at any other facing it panics. */
  lemma ForwardMoves(p: Pose, d: int)
    ensures p.facing == 0 ==> Apply(p, Forward(d)) == Some(p.(y := p.y + d))
    ensures p.facing == 90 ==> Apply(p, Forward(d)) == Some(p.(x := p.x + d))
    ensures p.facing == 180 ==> Apply(p, Forward(d)) == Some(p.(y := p.y - d))
    ensures p.facing == 270 ==> Apply(p, Forward(d)) == Some(p.(x := p.x - d))
    ensures Apply(p, Forward(d)).None? <==> p.facing !in {0, 90, 180, 270}
  {
  }

  /** A facing that is one of the four headings. */
  predicate Square(facing: int) {
    facing == 0 || facing == 90 || facing == 180 || facing == 270
  }

  /** Turns by whole quarters. */
  predicate QuarterTurns(i: Instruction) {
    IsRotation(i) ==> i.d == 0 || i.d == 90 || i.d == 180 || i.d == 270 || i.d == 360
  }

  /** A quarter turn from one of the four headings lands on one of them. */
  lemma QuarterTurnSquare(p: Pose, i: Instruction)
    requires Square(p.facing) && IsRotation(i) && QuarterTurns(i)
    ensures Square(Turn(p, i).facing)
  {
  }

  /** With quarter turns only, no instruction panics. */
  lemma {:induction false} QuarterTurnsRun(p: Pose, instrs: seq<Instruction>)
    requires Square(p.facing)
    requires forall k :: 0 <= k < |instrs| ==> QuarterTurns(instrs[k])
    ensures Run(p, instrs).Some?
    ensures Square(Run(p, instrs).value.facing)
    decreases |instrs|
  {
    if instrs != [] {
      var i := instrs[0];
      if IsRotation(i) {
        QuarterTurnSquare(p, i);
      }
      var q := Apply(p, i).value;
      assert Square(q.facing);
      QuarterTurnsRun(q, instrs[1..]);
    }
  }

  /** Following a then b is following a + b. */
  lemma {:induction false} RunConcat(p: Pose, a: seq<Instruction>, b: seq<Instruction>)
    ensures Run(p, a + b) == (match Run(p, a) case Some(q) => Run(q, b) case None => None)
    decreases |a|
  {
    if a != [] {
      assert (a + b)[1..] == a[1..] + b;
      match Apply(p, a[0])
      case Some(q) => RunConcat(q, a[1..], b);
      case None =>
    } else {
      assert a + b == b;
    }
  }

  // ---------------------------------------------------------------------
  // input_generator

  /** One trimmed line: a letter and a signed number; `None` where the
      source panics (an empty line, a number that does not parse, an
      unknown letter). */
  function ParseInstruction(l: string): Option<Instruction> {
    if |l| == 0 then None
    else match ParseInt(l[1..])
      case None => None
      case Some(f) =>
        if l[0] == 'N' then Some(North(f))
        else if l[0] == 'W' then Some(West(f))
        else if l[0] == 'E' then Some(East(f))
        else if l[0] == 'S' then Some(South(f))
        else if l[0] == 'F' then Some(Forward(f))
        else if l[0] == 'R' then Some(Right(f))
        else if l[0] == 'L' then Some(Left(f))
        else None
  }

  /** The trimmed lines parsed in order; `None` where one does not parse
      (the `expect` or the `panic!`). */
  function ParseEach(ls: seq<string>): (r: Option<seq<Instruction>>)
    ensures r.Some? ==> |r.value| == |ls|
    ensures r.Some? ==> forall k :: 0 <= k < |ls| ==> ParseInstruction(ls[k]) == Some(r.value[k])
    ensures r.None? ==> exists k :: 0 <= k < |ls| && ParseInstruction(ls[k]).None?
  {
    if ls == [] then Some([])
    else
      var i, rest := ParseInstruction(ls[0]), ParseEach(ls[1..]);
      if i.Some? && rest.Some? then Some([i.value] + rest.value) else None
  }

  function ParseAll(lines: seq<string>): Option<seq<Instruction>> {
    ParseEach(TrimAll(lines))
  }

  /** `input_generator`: one instruction per line. */
  function InputGenerator(input: string): (r: Option<seq<Instruction>>)
    ensures r.Some? ==> (|r.value| == |Lines(input)|
      && forall k :: 0 <= k < |r.value| ==> ParseInstruction(Trim(Lines(input)[k])) == Some(r.value[k]))
    ensures r.None? ==> exists k :: 0 <= k < |Lines(input)| && ParseInstruction(Trim(Lines(input)[k])).None?
  {
    ParseAll(Lines(input))
  }

  function Letter(i: Instruction): char {
    match i
    case North(_) => 'N'
    case West(_) => 'W'
    case East(_) => 'E'
    case South(_) => 'S'
    case Left(_) => 'L'
    case Right(_) => 'R'
    case Forward(_) => 'F'
  }

  function IntToString(n: int): (s: string)
    ensures |s| > 0 && IsDigit(s[|s| - 1])
  {
    if n < 0 then "-" + NatToString(-n) else NatToString(n)
  }

  lemma ParseIntToString(n: int)
    ensures ParseInt(IntToString(n)) == Some(n)
  {
    if n < 0 {
      var s := IntToString(n);
      assert s[1..] == NatToString(-n);
      DigitsValueOfNatToString(-n);
    } else {
      ParseNatToString(n);
    }
  }

  /** An instruction written as its letter and amount. */
  function InstructionText(i: Instruction): (l: string)
    ensures |l| > 1 && l[0] == Letter(i) && l[1..] == IntToString(i.d)
  {
    [Letter(i)] + IntToString(i.d)
  }

  lemma ParseInstructionText(i: Instruction)
    ensures ParseInstruction(InstructionText(i)) == Some(i)
  {
    ParseIntToString(i.d);
  }

  function InstructionLines(instrs: seq<Instruction>): (lines: seq<string>)
    ensures |lines| == |instrs|
    ensures forall k :: 0 <= k < |instrs| ==> lines[k] == InstructionText(instrs[k])
  {
    if instrs == [] then [] else [InstructionText(instrs[0])] + InstructionLines(instrs[1..])
  }

  lemma TextTrimmed(i: Instruction)
    ensures Trim(InstructionText(i)) == InstructionText(i)
  {
    var l := InstructionText(i);
    assert !IsWhitespace(l[0]) && !IsWhitespace(l[|l| - 1]);
    TrimNoop(l);
  }

  lemma {:induction false} ParseEachLines(instrs: seq<Instruction>)
    ensures ParseEach(InstructionLines(instrs)) == Some(instrs)
  {
    if instrs != [] {
      var lines := InstructionLines(instrs);
      assert lines[1..] == InstructionLines(instrs[1..]);
      ParseInstructionText(instrs[0]);
      ParseEachLines(instrs[1..]);
      assert [instrs[0]] + instrs[1..] == instrs;
    }
  }

  lemma ParseAllLines(instrs: seq<Instruction>)
    ensures ParseAll(InstructionLines(instrs)) == Some(instrs)
  {
    var lines := InstructionLines(instrs);
    forall k | 0 <= k < |lines|
      ensures TrimAll(lines)[k] == lines[k]
    {
      TextTrimmed(instrs[k]);
    }
    assert TrimAll(lines) == lines;
    ParseEachLines(instrs);
  }

  /** Instructions written one per line are read back. */
  lemma GeneratorRoundTrip(instrs: seq<Instruction>)
    requires instrs != []
    ensures InputGenerator(Join(InstructionLines(instrs), '\n')) == Some(instrs)
  {
    var lines := InstructionLines(instrs);
    forall k, c | 0 <= k < |lines| && 0 <= c < |lines[k]|
      ensures lines[k][c] != '\n' && lines[k][c] != '\r'
    {
      TextChars(instrs[k], c);
    }
    LinesOfJoin(lines);
    ParseAllLines(instrs);
  }

  /** The line of an instruction holds no line break. */
  lemma TextChars(i: Instruction, c: nat)
    requires c < |InstructionText(i)|
    ensures InstructionText(i)[c] != '\n' && InstructionText(i)[c] != '\r'
  {
    if c > 0 {
      IntToStringChars(i.d, c - 1);
    }
  }

  lemma IntToStringChars(n: int, c: nat)
    requires c < |IntToString(n)|
    ensures IntToString(n)[c] == '-' || IsDigit(IntToString(n)[c])
  {
    if n < 0 {
      var s := IntToString(n);
      if c > 0 {
        assert s[c] == NatToString(-n)[c - 1];
      }
    }
  }

  // ---------------------------------------------------------------------
  // examples

  /** From a new ship, R90 faces south and L180 faces west. */
  lemma ExampleRotations()
    ensures Turn(Start, Right(90)).facing == 180
    ensures Turn(Start, Left(180)).facing == 270
  {
  }

  /** Turns outside 0..=360: R450 and L-90 from a new ship both face south;
      R-90 casts to 65446, which overflows the u16 sum from 90 and, from
      north, lands on 286 rather than 270 (2^16 is not a multiple of 360). */
  lemma WideTurns()
    ensures Apply(Start, Right(450)) == Some(Pose(180, 0, 0))
    ensures Apply(Start, Left(-90)) == Some(Pose(180, 0, 0))
    ensures Apply(Start, Right(-90)) == None
    ensures Apply(Pose(0, 0, 0), Right(-90)) == Some(Pose(286, 0, 0))
  {
  }

  /** F10 N3 F7 R90 F11 ends 17 east and 8 south: distance 25. */
  lemma ExamplePart1()
    ensures Run(Start, [Forward(10), North(3), Forward(7), Right(90), Forward(11)]) == Some(Pose(180, 17, -8))
    ensures Distance(Pose(180, 17, -8)) == 25
  {
  }

  lemma ExampleLines()
    ensures ParseInstruction("F10") == Some(Forward(10))
    ensures ParseInstruction("X5") == None
  {
    assert InstructionText(Forward(10)) == "F10";
    ParseInstructionText(Forward(10));
    assert "X5"[1..] == "5";
  }
}
