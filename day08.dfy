/** Day 8: a small machine with an accumulator and three instructions. Part 1
    reports the accumulator when an instruction is about to run a second
    time; part 2 repairs the program by turning one `nop` into a `jmp` or one
    `jmp` into a `nop` so that it runs off its end. */
module Day8 {
  import opened Common

  datatype OpCode = Nop(arg: int) | Acc(arg: int) | Jmp(arg: int)

  /** `line_to_op_code`: the mnemonic, a space, a signed number. `None`
      where the source panics: no second piece, a number that does not
      parse, or an unknown mnemonic. */
  function LineToOpCode(line: string): Option<OpCode> {
    var parts := Split(line, ' ');
    if |parts| < 2 then None
    else
      match ParseInt(parts[1])
      case None => None
      case Some(v) =>
        if parts[0] == "nop" then Some(Nop(v))
        else if parts[0] == "acc" then Some(Acc(v))
        else if parts[0] == "jmp" then Some(Jmp(v))
        else None
  }

  function Mnemonic(op: OpCode): string {
    match op
    case Nop(_) => "nop"
    case Acc(_) => "acc"
    case Jmp(_) => "jmp"
  }

  /** The number as the puzzle writes it, always with a sign. */
  function SignedText(v: int): string {
    if v < 0 then "-" + NatToString(-v) else "+" + NatToString(v)
  }

  /** The instruction written out as a line of the program. */
  function OpCodeLine(op: OpCode): string {
    Mnemonic(op) + " " + SignedText(op.arg)
  }

  /** The signed text of a number parses back to it. */
  lemma ParseSignedText(v: int)
    ensures ParseInt(SignedText(v)) == Some(v)
  {
    var n := if v < 0 then -v else v;
    var num := SignedText(v);
    assert num[1..] == NatToString(n);
    DigitsValueOfNatToString(n);
  }

  /** Every instruction reads back from the line that writes it. */
  lemma LineToOpCodeRoundTrip(op: OpCode)
    ensures LineToOpCode(OpCodeLine(op)) == Some(op)
  {
    var name, num := Mnemonic(op), SignedText(op.arg);
    assert forall i :: 0 <= i < |num| ==> num[i] != ' ';
    SplitFirst(name, ' ', num);
    SplitFromNoSeparator(num, ' ', []);
    assert [] + num == num;
    assert OpCodeLine(op) == name + [' '] + num;
    assert Split(OpCodeLine(op), ' ') == [name, num];
    ParseSignedText(op.arg);
  }

  /** A line whose mnemonic is none of the three is refused. */
  lemma UnknownMnemonic(name: string, num: string)
    requires forall i :: 0 <= i < |name| ==> name[i] != ' '
    requires name != "nop" && name != "acc" && name != "jmp"
    ensures LineToOpCode(name + " " + num) == None
  {
    SplitFirst(name, ' ', num);
  }

  // ---------------------------------------------------------------------
  // the machine, one instruction at a time

  datatype State = State(pc: int, acc: int)

  const Start: State := State(0, 0)

  predicate Inside(ops: seq<OpCode>, pc: int) {
    0 <= pc < |ops|
  }

  /** One instruction: `acc` adds its argument and moves on, `nop` moves
      on, `jmp` moves by its argument. Outside the program nothing runs. */
  function Step(ops: seq<OpCode>, s: State): State {
    if !Inside(ops, s.pc) then s
    else
      var op := ops[s.pc];
      State(if op.Jmp? then s.pc + op.arg else s.pc + 1, if op.Acc? then s.acc + op.arg else s.acc)
  }

  /** The state after n instructions. */
  function Run(ops: seq<OpCode>, s: State, n: nat): State {
    if n == 0 then s else Step(ops, Run(ops, s, n - 1))
  }

  /** The instructions run in the first n steps. */
  function Visited(ops: seq<OpCode>, s: State, n: nat): set<int> {
    if n == 0 then {} else Visited(ops, s, n - 1) + {Run(ops, s, n - 1).pc}
  }

  /** The first n steps each run an instruction of the program that is
      neither in `seen` nor run before. */
  predicate Fresh(ops: seq<OpCode>, s: State, n: nat, seen: set<int>) {
    n == 0 ||
    (Fresh(ops, s, n - 1, seen) && Inside(ops, Run(ops, s, n - 1).pc)
     && Run(ops, s, n - 1).pc !in seen + Visited(ops, s, n - 1))
  }

  /** After n fresh steps from the start the next instruction is one that
      already ran. */
  predicate Loops(ops: seq<OpCode>, n: nat) {
    Fresh(ops, Start, n, {}) && Run(ops, Start, n).pc in Visited(ops, Start, n)
  }

  /** After n fresh steps the program counter has left the program. */
  predicate Exits(ops: seq<OpCode>, s: State, n: nat, seen: set<int>) {
    Fresh(ops, s, n, seen) && !Inside(ops, Run(ops, s, n).pc)
  }

  /** The visited set holds exactly the counters of the first n steps. */
  lemma {:induction false} VisitedMembers(ops: seq<OpCode>, s: State, n: nat, x: int)
    ensures x in Visited(ops, s, n) <==> exists i :: 0 <= i < n && Run(ops, s, i).pc == x
  {
    if n > 0 {
      VisitedMembers(ops, s, n - 1, x);
      if exists i :: 0 <= i < n && Run(ops, s, i).pc == x {
        var i :| 0 <= i < n && Run(ops, s, i).pc == x;
        if i < n - 1 {
          assert exists i :: 0 <= i < n - 1 && Run(ops, s, i).pc == x;
        }
      }
      if x in Visited(ops, s, n - 1) {
        var i :| 0 <= i < n - 1 && Run(ops, s, i).pc == x;
        assert 0 <= i < n && Run(ops, s, i).pc == x;
      } else if x == Run(ops, s, n - 1).pc {
        assert 0 <= n - 1 < n && Run(ops, s, n - 1).pc == x;
      }
    }
  }

  /** Every step of a fresh run is inside the program and outside `seen`,
      and every prefix of it is fresh. */
  lemma {:induction false} FreshAt(ops: seq<OpCode>, s: State, n: nat, seen: set<int>, i: nat)
    requires Fresh(ops, s, n, seen) && i < n
    ensures Inside(ops, Run(ops, s, i).pc) && Run(ops, s, i).pc !in seen && Fresh(ops, s, i + 1, seen)
  {
    if i < n - 1 {
      FreshAt(ops, s, n - 1, seen, i);
    }
  }

  /** A run that comes back to a counter it had is not fresh. */
  lemma {:induction false} RepeatNotFresh(ops: seq<OpCode>, s: State, n: nat, seen: set<int>, i: nat, j: nat)
    requires i < j < n && Run(ops, s, i).pc == Run(ops, s, j).pc
    ensures !Fresh(ops, s, n, seen)
  {
    if j == n - 1 {
      VisitedMembers(ops, s, n - 1, Run(ops, s, j).pc);
    } else {
      RepeatNotFresh(ops, s, n - 1, seen, i, j);
    }
  }

  /** How many instructions of a program of length n are not in `visited`. */
  function Unvisited(n: nat, visited: set<int>): nat {
    if n == 0 then 0 else Unvisited(n - 1, visited) + (if n - 1 in visited then 0 else 1)
  }

  /** Marking an instruction visited leaves one fewer, if it was new. */
  lemma {:induction false} Mark(n: nat, visited: set<int>, pc: int)
    ensures Unvisited(n, visited + {pc}) == Unvisited(n, visited) - (if 0 <= pc < n && pc !in visited then 1 else 0)
  {
    if n > 0 {
      Mark(n - 1, visited, pc);
    }
  }

  /** Visiting a program index not yet visited leaves fewer to visit. */
  lemma Fewer(ops: seq<OpCode>, visited: set<int>, pc: int)
    requires Inside(ops, pc) && pc !in visited
    ensures Unvisited(|ops|, visited + {pc}) < Unvisited(|ops|, visited)
  {
    Mark(|ops|, visited, pc);
  }

  /** One turn of the part-1 loop, from a fresh run of k steps. */
  lemma Part1Step(ops: seq<OpCode>, k: nat, visited: set<int>)
    requires Fresh(ops, Start, k, {}) && visited == Visited(ops, Start, k)
    requires Inside(ops, Run(ops, Start, k).pc) && Run(ops, Start, k).pc !in visited
    ensures Fresh(ops, Start, k + 1, {})
    ensures visited + {Run(ops, Start, k).pc} == Visited(ops, Start, k + 1)
    ensures Unvisited(|ops|, visited + {Run(ops, Start, k).pc}) < Unvisited(|ops|, visited)
    ensures Run(ops, Start, k + 1) == Step(ops, Run(ops, Start, k))
  {
    assert {} + Visited(ops, Start, k) == visited;
    Fewer(ops, visited, Run(ops, Start, k).pc);
  }

  /** `day8_part1`: the accumulator when an instruction is about to run a
      second time; `None` where the source panics because the program
      counter left the program first. */
  method Part1(ops: seq<OpCode>) returns (r: Option<int>)
    ensures r.Some? ==> exists n: nat :: Loops(ops, n) && r.value == Run(ops, Start, n).acc
    ensures r.None? ==> exists n: nat :: Exits(ops, Start, n, {})
  {
    var pc, acc := 0, 0;
    var visited: set<int> := {};
    ghost var k := 0;
    assert Visited(ops, Start, 0) == {};
    while pc !in visited
      invariant pc == Run(ops, Start, k).pc && acc == Run(ops, Start, k).acc
      invariant visited == Visited(ops, Start, k)
      invariant Fresh(ops, Start, k, {})
      decreases Unvisited(|ops|, visited)
    {
      if !Inside(ops, pc) {
        assert Exits(ops, Start, k, {});
        return None;
      }
      Part1Step(ops, k, visited);
      visited := visited + {pc};
      match ops[pc] {
        case Nop(_) =>
          pc := pc + 1;
        case Acc(v) =>
          pc := pc + 1;
          acc := acc + v;
        case Jmp(v) =>
          pc := pc + v;
      }
      k := k + 1;
    }
    assert Loops(ops, k);
    return Some(acc);
  }

  /** A run reaches at most one first repeat ... */
  lemma LoopsUnique(ops: seq<OpCode>, n: nat, m: nat)
    requires Loops(ops, n) && n < m
    ensures !Loops(ops, m)
  {
    VisitedMembers(ops, Start, n, Run(ops, Start, n).pc);
    var j :| 0 <= j < n && Run(ops, Start, j).pc == Run(ops, Start, n).pc;
    RepeatNotFresh(ops, Start, m, {}, j, n);
  }

  /** ... and a run that repeats never leaves the program. */
  lemma LoopsNotExits(ops: seq<OpCode>, n: nat, m: nat)
    requires Loops(ops, n)
    ensures !Exits(ops, Start, m, {})
  {
    VisitedMembers(ops, Start, n, Run(ops, Start, n).pc);
    var j :| 0 <= j < n && Run(ops, Start, j).pc == Run(ops, Start, n).pc;
    if m < n {
      FreshAt(ops, Start, n, {}, m);
    } else if m == n {
      FreshAt(ops, Start, n, {}, j);
    } else {
      RepeatNotFresh(ops, Start, m, {}, j, n);
    }
  }

  // ---------------------------------------------------------------------
  // part 2: one instruction swapped

  /** `nop` becomes `jmp` and `jmp` becomes `nop`, with the same argument. */
  function Flip(op: OpCode): OpCode {
    match op
    case Nop(v) => Jmp(v)
    case Jmp(v) => Nop(v)
    case Acc(v) => Acc(v)
  }

  function Patch(ops: seq<OpCode>, p: int): seq<OpCode>
    requires Inside(ops, p)
  {
    ops[p := Flip(ops[p])]
  }

  /** Starting from s the program runs off its end with accumulator a. */
  ghost predicate Halts(ops: seq<OpCode>, s: State, a: int) {
    exists n :: !Inside(ops, Run(ops, s, n).pc) && Run(ops, s, n).acc == a
  }

  /** The program as given, or with one `nop` or `jmp` swapped, halts with
      accumulator a. */
  ghost predicate HaltsRepaired(ops: seq<OpCode>, s: State, a: int) {
    Halts(ops, s, a) || exists p :: Inside(ops, p) && !ops[p].Acc? && Halts(Patch(ops, p), s, a)
  }

  /** What `run_until_loop_or_exit` computes, continuing from program
      counter pc with accumulator acc: at each `nop` or `jmp`, before its
      own step, it first runs the rest of the program with that instruction
      swapped (unless it already swapped one), treating every instruction
      seen so far as a loop, and adds that run's result when it halts. */
  function Search(ops: seq<OpCode>, visited: set<int>, branched: bool, pc: int, acc: int): Option<int>
    decreases if branched then 0 else 1, Unvisited(|ops|, visited)
  {
    if pc in visited then None
    else if !Inside(ops, pc) then Some(acc)
    else
      var seen := visited + {pc};
      Fewer(ops, visited, pc);
      match ops[pc]
      case Nop(f) =>
        var swapped := if branched then None else Search(ops, seen, true, pc + f, 0);
        if swapped.Some? then Some(acc + swapped.value) else Search(ops, seen, branched, pc + 1, acc)
      case Acc(v) => Search(ops, seen, branched, pc + 1, acc + v)
      case Jmp(v) =>
        var swapped := if branched then None else Search(ops, seen, true, pc + 1, 0);
        if swapped.Some? then Some(acc + swapped.value) else Search(ops, seen, branched, pc + v, acc)
  }

  /** `run_until_loop_or_exit`, as the source writes it: a loop over the
      instructions that calls itself once per swap it tries. */
  method RunUntilLoopOrExit(ops: seq<OpCode>, prevVisits: set<int>, haveBranched: bool, pCounter: int)
    returns (r: Option<int>)
    ensures r == Search(ops, prevVisits, haveBranched, pCounter, 0)
    decreases if haveBranched then 0 else 1, Unvisited(|ops|, prevVisits)
  {
    var visited, pc, acc := prevVisits, pCounter, 0;
    while pc !in visited
      invariant Unvisited(|ops|, visited) <= Unvisited(|ops|, prevVisits)
      invariant Search(ops, visited, haveBranched, pc, acc) == Search(ops, prevVisits, haveBranched, pCounter, 0)
      decreases Unvisited(|ops|, visited)
    {
      if !Inside(ops, pc) {
        return Some(acc);
      }
      Fewer(ops, visited, pc);
      visited := visited + {pc};
      match ops[pc]
      case Nop(f) =>
        if !haveBranched {
          var v := RunUntilLoopOrExit(ops, visited, true, pc + f);
          if v.Some? {
            return Some(acc + v.value);
          }
        }
        pc := pc + 1;
      case Acc(v) =>
        pc := pc + 1;
        acc := acc + v;
      case Jmp(v) =>
        if !haveBranched {
          var b := RunUntilLoopOrExit(ops, visited, true, pc + 1);
          if b.Some? {
            return Some(acc + b.value);
          }
        }
        pc := pc + v;
    }
    return None;
  }

  /** `day8_part2`: the search from the first instruction; `None` where
      the source's `unwrap` panics. */
  method Part2(ops: seq<OpCode>) returns (r: Option<int>)
    ensures r == Search(ops, {}, false, 0, 0)
    ensures r.Some? ==> HaltsRepaired(ops, Start, r.value)
    ensures r.None? ==> forall a :: !HaltsRepaired(ops, Start, a)
  {
    r := RunUntilLoopOrExit(ops, {}, false, 0);
    if r.Some? {
      assert Run(ops, Start, 0) == Start && {} + Visited(ops, Start, 0) == {};
      SearchSound(ops, {}, false, Start, 0);
    } else {
      SearchComplete(ops);
    }
  }

  // ---------------------------------------------------------------------
  // the search finds only real repairs

  /** Steps may be split anywhere. */
  lemma {:induction false} RunAdd(ops: seq<OpCode>, s: State, m: nat, n: nat)
    ensures Run(ops, s, m + n) == Run(ops, Run(ops, s, m), n)
    decreases n
  {
    if n > 0 {
      RunAdd(ops, s, m, n - 1);
    }
  }

  /** The accumulator only ever adds: starting higher ends higher by as
      much, at the same place. */
  lemma {:induction false} RunShift(ops: seq<OpCode>, pc: int, a: int, n: nat)
    ensures Run(ops, State(pc, a), n) == State(Run(ops, State(pc, 0), n).pc, a + Run(ops, State(pc, 0), n).acc)
    decreases n
  {
    if n > 0 {
      RunShift(ops, pc, a, n - 1);
    }
  }

  /** A run that never reaches p is the same in the program with p swapped. */
  lemma {:induction false} PatchAgrees(ops: seq<OpCode>, p: int, s: State, n: nat)
    requires Inside(ops, p)
    requires forall i :: 0 <= i < n ==> Run(ops, s, i).pc != p
    ensures Run(Patch(ops, p), s, n) == Run(ops, s, n)
    decreases n
  {
    if n > 0 {
      PatchAgrees(ops, p, s, n - 1);
    }
  }

  /** One instruction of the search: try the swap, if allowed, and keep
      its result if it halts; otherwise run the instruction as it is. */
  lemma SearchStep(ops: seq<OpCode>, visited: set<int>, branched: bool, st: State)
    requires Inside(ops, st.pc) && st.pc !in visited
    ensures var swapped := if branched || ops[st.pc].Acc? then None
                           else Search(ops, visited + {st.pc}, true, Step(Patch(ops, st.pc), st).pc, 0);
      Search(ops, visited, branched, st.pc, st.acc)
        == if swapped.Some? then Some(st.acc + swapped.value)
           else Search(ops, visited + {st.pc}, branched, Step(ops, st).pc, Step(ops, st).acc)
  {
  }

  /** Whatever the search returns is the accumulator of a halting run: from
      s unchanged, or (when it may still swap) with one instruction swapped.
      It never swaps back into an instruction it has seen. Stated for the
      search at step k of a fresh run from s. */
  lemma {:induction false} SearchSound(ops: seq<OpCode>, seen: set<int>, branched: bool, s: State, k: nat)
    requires s.acc == 0 && Fresh(ops, s, k, seen)
    requires Search(ops, seen + Visited(ops, s, k), branched, Run(ops, s, k).pc, Run(ops, s, k).acc).Some?
    ensures branched ==>
      exists n :: Exits(ops, s, n, seen)
        && Run(ops, s, n).acc == Search(ops, seen + Visited(ops, s, k), branched, Run(ops, s, k).pc, Run(ops, s, k).acc).value
    ensures !branched ==>
      HaltsRepaired(ops, s, Search(ops, seen + Visited(ops, s, k), branched, Run(ops, s, k).pc, Run(ops, s, k).acc).value)
    decreases if branched then 0 else 1, Unvisited(|ops|, seen + Visited(ops, s, k))
  {
    var visited := seen + Visited(ops, s, k);
    var st := Run(ops, s, k);
    if !Inside(ops, st.pc) {
      assert Exits(ops, s, k, seen);
      assert Halts(ops, s, st.acc);
    } else {
      SearchStep(ops, visited, branched, st);
      Fewer(ops, visited, st.pc);
      var next := seen + Visited(ops, s, k + 1);
      assert next == visited + {st.pc};
      var b := State(Step(Patch(ops, st.pc), st).pc, 0);
      if !branched && !ops[st.pc].Acc? && Search(ops, next, true, b.pc, 0).Some? {
        assert Run(ops, b, 0) == b && next + Visited(ops, b, 0) == next;
        SearchSound(ops, next, true, b, 0);
        var n :| Exits(ops, b, n, next) && Run(ops, b, n).acc == Search(ops, next, true, b.pc, 0).value;
        SwapHaltsFresh(ops, s, k, seen, b, n);
      } else {
        SearchSound(ops, seen, branched, s, k + 1);
      }
    }
  }

  /** The swap step of `SearchSound`: a fresh halting run of the swapped
      branch avoids the swapped instruction. */
  lemma SwapHaltsFresh(ops: seq<OpCode>, s: State, k: nat, seen: set<int>, b: State, n: nat)
    requires Fresh(ops, s, k, seen) && Inside(ops, Run(ops, s, k).pc) && !ops[Run(ops, s, k).pc].Acc?
    requires Run(ops, s, k).pc !in seen + Visited(ops, s, k)
    requires b == State(Step(Patch(ops, Run(ops, s, k).pc), Run(ops, s, k)).pc, 0)
    requires Exits(ops, b, n, seen + Visited(ops, s, k + 1))
    ensures HaltsRepaired(ops, s, Run(ops, s, k).acc + Run(ops, b, n).acc)
  {
    var p := Run(ops, s, k).pc;
    var fixed := Patch(ops, p);
    forall i | 0 <= i < k
      ensures Run(ops, s, i).pc != p
    {
      VisitedMembers(ops, s, k, Run(ops, s, i).pc);
    }
    PatchAgrees(ops, p, s, k);
    assert Run(fixed, s, k + 1) == State(b.pc, Run(ops, s, k).acc);
    forall i | 0 <= i < n
      ensures Run(ops, b, i).pc != p
    {
      FreshAt(ops, b, n, seen + Visited(ops, s, k + 1), i);
    }
    PatchAgrees(ops, p, b, n);
    RunShift(fixed, b.pc, Run(ops, s, k).acc, n);
    RunAdd(fixed, s, k + 1, n);
    assert !Inside(fixed, Run(fixed, s, k + 1 + n).pc);
    assert Halts(fixed, s, Run(ops, s, k).acc + Run(ops, b, n).acc);
  }

  // ---------------------------------------------------------------------
  // the search misses no repair

  /** The first j steps stay inside the program and the j-th step comes
      back to a counter one of them had. */
  ghost predicate Cycles(ops: seq<OpCode>, s: State, j: nat) {
    (forall m: nat :: m < j ==> Inside(ops, Run(ops, s, m).pc))
    && exists i: nat :: i < j && Run(ops, s, i).pc == Run(ops, s, j).pc
  }

  /** Where the next counter goes depends on the counter only. */
  lemma {:induction false} CyclesStay(ops: seq<OpCode>, s: State, j: nat, n: nat)
    requires Cycles(ops, s, j)
    ensures exists m: nat :: m < j && Run(ops, s, m).pc == Run(ops, s, n).pc
    decreases n
  {
    if n >= j {
      CyclesStay(ops, s, j, n - 1);
      var m: nat :| m < j && Run(ops, s, m).pc == Run(ops, s, n - 1).pc;
      if m + 1 < j {
        assert Run(ops, s, m + 1).pc == Run(ops, s, n).pc;
      } else {
        var i: nat :| i < j && Run(ops, s, i).pc == Run(ops, s, j).pc;
        assert Run(ops, s, i).pc == Run(ops, s, n).pc;
      }
    }
  }

  /** A run that cycles stays inside the program for ever. */
  lemma CyclesNeverHalt(ops: seq<OpCode>, s: State, j: nat)
    requires Cycles(ops, s, j)
    ensures forall a :: !Halts(ops, s, a)
  {
    forall n: nat
      ensures Inside(ops, Run(ops, s, n).pc)
    {
      CyclesStay(ops, s, j, n);
    }
  }

  /** The counters of a run are exactly its visited set. */
  lemma NotVisited(ops: seq<OpCode>, s: State, k: nat, p: int)
    requires p !in Visited(ops, s, k)
    ensures forall i :: 0 <= i < k ==> Run(ops, s, i).pc != p
  {
    VisitedMembers(ops, s, k, p);
  }

  /** A run that never reaches p is, step by step, the same in the program
      with p swapped. */
  lemma PatchPrefix(ops: seq<OpCode>, p: int, s: State, k: nat)
    requires Inside(ops, p) && p !in Visited(ops, s, k)
    ensures forall m: nat :: m <= k ==> Run(Patch(ops, p), s, m) == Run(ops, s, m)
  {
    NotVisited(ops, s, k, p);
    forall m: nat | m <= k
      ensures Run(Patch(ops, p), s, m) == Run(ops, s, m)
    {
      PatchAgrees(ops, p, s, m);
    }
  }

  /** A fresh run from the start that reaches a counter it had cycles, and
      so does the program with any instruction it never ran swapped. */
  lemma LoopNeverHalts(ops: seq<OpCode>, k: nat, p: int)
    requires Fresh(ops, Start, k, {}) && Run(ops, Start, k).pc in Visited(ops, Start, k)
    requires Inside(ops, p) && p !in Visited(ops, Start, k)
    ensures forall a :: !Halts(ops, Start, a)
    ensures forall a :: !Halts(Patch(ops, p), Start, a)
  {
    VisitedMembers(ops, Start, k, Run(ops, Start, k).pc);
    forall m: nat | m < k
      ensures Inside(ops, Run(ops, Start, m).pc)
    {
      FreshAt(ops, Start, k, {}, m);
    }
    assert Cycles(ops, Start, k);
    CyclesNeverHalt(ops, Start, k);
    PatchPrefix(ops, p, Start, k);
    assert Cycles(Patch(ops, p), Start, k);
    CyclesNeverHalt(Patch(ops, p), Start, k);
  }

  /** The loop-detecting run from the start never halts. */
  lemma LoopHalts(ops: seq<OpCode>, k: nat)
    requires Fresh(ops, Start, k, {}) && Run(ops, Start, k).pc in Visited(ops, Start, k)
    ensures forall a :: !Halts(ops, Start, a)
  {
    VisitedMembers(ops, Start, k, Run(ops, Start, k).pc);
    forall m: nat | m < k
      ensures Inside(ops, Run(ops, Start, m).pc)
    {
      FreshAt(ops, Start, k, {}, m);
    }
    assert Cycles(ops, Start, k);
    CyclesNeverHalt(ops, Start, k);
  }

  /** A search that may no longer swap and finds nothing: the run from s
      comes back to an instruction in `seen` or one it ran itself. */
  lemma {:induction false} SearchNoneBranch(ops: seq<OpCode>, seen: set<int>, s: State, k: nat)
    requires Fresh(ops, s, k, seen)
    requires Search(ops, seen + Visited(ops, s, k), true, Run(ops, s, k).pc, Run(ops, s, k).acc).None?
    ensures exists n: nat :: Fresh(ops, s, n, seen) && Run(ops, s, n).pc in seen + Visited(ops, s, n)
    decreases Unvisited(|ops|, seen + Visited(ops, s, k))
  {
    var visited := seen + Visited(ops, s, k);
    var st := Run(ops, s, k);
    if st.pc !in visited {
      SearchStep(ops, visited, true, st);
      Fewer(ops, visited, st.pc);
      assert seen + Visited(ops, s, k + 1) == visited + {st.pc};
      SearchNoneBranch(ops, seen, s, k + 1);
    }
  }

  /** A run fresh with respect to `seen` visits nothing in it. */
  lemma FreshAvoids(ops: seq<OpCode>, s: State, n: nat, seen: set<int>, p: int)
    requires Fresh(ops, s, n, seen) && p in seen
    ensures p !in Visited(ops, s, n)
  {
    forall i | 0 <= i < n
      ensures Run(ops, s, i).pc != p
    {
      FreshAt(ops, s, n, seen, i);
    }
    VisitedMembers(ops, s, n, p);
  }

  /** The program with the k-th instruction of the run swapped: its first
      k + 1 steps are those of the run, and after them it follows the run
      from b, the swapped target. */
  lemma SwapSteps(ops: seq<OpCode>, k: nat, b: State, n: nat)
    requires Fresh(ops, Start, k, {}) && Inside(ops, Run(ops, Start, k).pc) && !ops[Run(ops, Start, k).pc].Acc?
    requires Run(ops, Start, k).pc !in Visited(ops, Start, k)
    requires b == State(Step(Patch(ops, Run(ops, Start, k).pc), Run(ops, Start, k)).pc, 0)
    requires Fresh(ops, b, n, Visited(ops, Start, k + 1))
    ensures forall m: nat :: m <= k ==> Run(Patch(ops, Run(ops, Start, k).pc), Start, m).pc == Run(ops, Start, m).pc
    ensures forall i: nat :: i <= n ==> Run(Patch(ops, Run(ops, Start, k).pc), Start, k + 1 + i).pc == Run(ops, b, i).pc
  {
    var p := Run(ops, Start, k).pc;
    var fixed := Patch(ops, p);
    var a := Run(ops, Start, k).acc;
    PatchPrefix(ops, p, Start, k);
    assert Run(fixed, Start, k + 1) == State(b.pc, a);
    FreshAvoids(ops, b, n, Visited(ops, Start, k + 1), p);
    PatchPrefix(ops, p, b, n);
    forall i: nat | i <= n
      ensures Run(fixed, Start, k + 1 + i).pc == Run(ops, b, i).pc
    {
      RunAdd(fixed, Start, k + 1, i);
      RunShift(fixed, b.pc, a, i);
    }
  }

  /** The swap step of `SearchNoneAll`: when the swapped branch comes back
      to an instruction run before, the swapped program cycles. */
  lemma SwapLoops(ops: seq<OpCode>, k: nat, b: State, n: nat)
    requires Fresh(ops, Start, k, {}) && Inside(ops, Run(ops, Start, k).pc) && !ops[Run(ops, Start, k).pc].Acc?
    requires Run(ops, Start, k).pc !in Visited(ops, Start, k)
    requires b == State(Step(Patch(ops, Run(ops, Start, k).pc), Run(ops, Start, k)).pc, 0)
    requires Fresh(ops, b, n, Visited(ops, Start, k + 1))
    requires Run(ops, b, n).pc in Visited(ops, Start, k + 1) + Visited(ops, b, n)
    ensures forall a :: !Halts(Patch(ops, Run(ops, Start, k).pc), Start, a)
  {
    var fixed := Patch(ops, Run(ops, Start, k).pc);
    SwapSteps(ops, k, b, n);
    SwapInside(ops, k, b, n);
    SwapReturns(ops, k, b, n);
    CyclesNeverHalt(fixed, Start, k + 1 + n);
  }

  /** Every step of the swapped program before the last one is inside it. */
  lemma SwapInside(ops: seq<OpCode>, k: nat, b: State, n: nat)
    requires Fresh(ops, Start, k, {}) && Inside(ops, Run(ops, Start, k).pc)
    requires Fresh(ops, b, n, Visited(ops, Start, k + 1))
    requires forall m: nat :: m <= k ==> Run(Patch(ops, Run(ops, Start, k).pc), Start, m).pc == Run(ops, Start, m).pc
    requires forall i: nat :: i <= n ==> Run(Patch(ops, Run(ops, Start, k).pc), Start, k + 1 + i).pc == Run(ops, b, i).pc
    ensures forall m: nat :: m < k + 1 + n ==>
      Inside(Patch(ops, Run(ops, Start, k).pc), Run(Patch(ops, Run(ops, Start, k).pc), Start, m).pc)
  {
    var fixed := Patch(ops, Run(ops, Start, k).pc);
    forall m: nat | m < k + 1 + n
      ensures Inside(fixed, Run(fixed, Start, m).pc)
    {
      if m < k {
        FreshAt(ops, Start, k, {}, m);
      } else if m > k {
        FreshAt(ops, b, n, Visited(ops, Start, k + 1), m - k - 1);
        assert Run(fixed, Start, k + 1 + (m - k - 1)).pc == Run(ops, b, m - k - 1).pc;
      }
    }
  }

  /** The last step of the swapped branch has a counter of an earlier step
      of the swapped program. */
  lemma SwapReturns(ops: seq<OpCode>, k: nat, b: State, n: nat)
    requires Inside(ops, Run(ops, Start, k).pc)
    requires forall m: nat :: m <= k ==> Run(Patch(ops, Run(ops, Start, k).pc), Start, m).pc == Run(ops, Start, m).pc
    requires forall i: nat :: i <= n ==> Run(Patch(ops, Run(ops, Start, k).pc), Start, k + 1 + i).pc == Run(ops, b, i).pc
    requires Run(ops, b, n).pc in Visited(ops, Start, k + 1) + Visited(ops, b, n)
    ensures exists i: nat :: (i < k + 1 + n
      && Run(Patch(ops, Run(ops, Start, k).pc), Start, i).pc == Run(Patch(ops, Run(ops, Start, k).pc), Start, k + 1 + n).pc)
  {
    var fixed := Patch(ops, Run(ops, Start, k).pc);
    var x := Run(ops, b, n).pc;
    assert Run(fixed, Start, k + 1 + n).pc == x;
    if x in Visited(ops, Start, k + 1) {
      VisitedMembers(ops, Start, k + 1, x);
      var i :| 0 <= i < k + 1 && Run(ops, Start, i).pc == x;
      assert Run(fixed, Start, i).pc == x;
    } else {
      VisitedMembers(ops, b, n, x);
      var i :| 0 <= i < n && Run(ops, b, i).pc == x;
      assert Run(fixed, Start, k + 1 + i).pc == x;
    }
  }

  /** A search from step k of the run from the start that may still swap
      and finds nothing: the program does not halt, and neither does it
      with any `nop` or `jmp` swapped that the first k steps did not run. */
  lemma {:induction false} SearchNoneAll(ops: seq<OpCode>, k: nat)
    requires Fresh(ops, Start, k, {})
    requires Search(ops, Visited(ops, Start, k), false, Run(ops, Start, k).pc, Run(ops, Start, k).acc).None?
    ensures forall a :: !Halts(ops, Start, a)
    ensures forall p :: Inside(ops, p) && !ops[p].Acc? && p !in Visited(ops, Start, k) ==>
      forall a :: !Halts(Patch(ops, p), Start, a)
    decreases Unvisited(|ops|, Visited(ops, Start, k))
  {
    var visited := Visited(ops, Start, k);
    var st := Run(ops, Start, k);
    if st.pc in visited {
      LoopHalts(ops, k);
      forall p | Inside(ops, p) && !ops[p].Acc? && p !in Visited(ops, Start, k)
        ensures forall a :: !Halts(Patch(ops, p), Start, a)
      {
        LoopNeverHalts(ops, k, p);
      }
    } else {
      SearchStep(ops, visited, false, st);
      Fewer(ops, visited, st.pc);
      assert Visited(ops, Start, k + 1) == visited + {st.pc};
      SearchNoneAll(ops, k + 1);
      if !ops[st.pc].Acc? {
        SwapNone(ops, k);
      }
    }
  }

  /** The swap at step k of `SearchNoneAll`: the swapped branch finds
      nothing, so the program with that instruction swapped cycles. */
  lemma SwapNone(ops: seq<OpCode>, k: nat)
    requires Fresh(ops, Start, k, {}) && Inside(ops, Run(ops, Start, k).pc) && !ops[Run(ops, Start, k).pc].Acc?
    requires Run(ops, Start, k).pc !in Visited(ops, Start, k)
    requires Search(ops, Visited(ops, Start, k + 1), true,
      Step(Patch(ops, Run(ops, Start, k).pc), Run(ops, Start, k)).pc, 0).None?
    ensures forall a :: !Halts(Patch(ops, Run(ops, Start, k).pc), Start, a)
  {
    var st := Run(ops, Start, k);
    var b := State(Step(Patch(ops, st.pc), st).pc, 0);
    assert Run(ops, b, 0) == b && Visited(ops, Start, k + 1) + Visited(ops, b, 0) == Visited(ops, Start, k + 1);
    SearchNoneBranch(ops, Visited(ops, Start, k + 1), b, 0);
    var n: nat :| Fresh(ops, b, n, Visited(ops, Start, k + 1))
      && Run(ops, b, n).pc in Visited(ops, Start, k + 1) + Visited(ops, b, n);
    SwapLoops(ops, k, b, n);
  }

  /** When the search finds nothing, no program with at most one `nop` or
      `jmp` swapped halts. */
  lemma SearchComplete(ops: seq<OpCode>)
    requires Search(ops, {}, false, 0, 0).None?
    ensures forall a :: !HaltsRepaired(ops, Start, a)
  {
    assert Run(ops, Start, 0) == Start && Visited(ops, Start, 0) == {};
    SearchNoneAll(ops, 0);
  }

  // ---------------------------------------------------------------------
  // the example program of the tests

  const Example: seq<OpCode> :=
    [Nop(0), Acc(1), Jmp(4), Acc(3), Jmp(-3), Acc(-99), Acc(1), Jmp(-4), Acc(6)]

  const ExampleText: seq<string> :=
    ["nop +0", "acc +1", "jmp +4", "acc +3", "jmp -3", "acc -99", "acc +1", "jmp -4", "acc +6"]

  /** The instructions of the example written out. */
  lemma ExampleLines()
    ensures OpCodeLine(Nop(0)) == "nop +0" && OpCodeLine(Acc(1)) == "acc +1"
    ensures OpCodeLine(Jmp(4)) == "jmp +4" && OpCodeLine(Acc(3)) == "acc +3"
    ensures OpCodeLine(Jmp(-3)) == "jmp -3" && OpCodeLine(Acc(-99)) == "acc -99"
    ensures OpCodeLine(Jmp(-4)) == "jmp -4" && OpCodeLine(Acc(6)) == "acc +6"
  {
    assert NatToString(99) == "99" by {
      assert NatToString(9) == "9";
    }
  }

  /** The test's lines read as the example program. */
  lemma ExampleParses()
    ensures |ExampleText| == |Example|
    ensures forall i :: 0 <= i < |Example| ==> LineToOpCode(ExampleText[i]) == Some(Example[i])
  {
    var lines := seq(|Example|, i requires 0 <= i < |Example| => OpCodeLine(Example[i]));
    ExampleLines();
    assert lines == ExampleText;
    forall i | 0 <= i < |Example|
      ensures LineToOpCode(lines[i]) == Some(Example[i])
    {
      LineToOpCodeRoundTrip(Example[i]);
    }
  }

  /** `test_given`: instructions 0, 1, 2, 6, 7, 3, 4 run, then 1 would run
      again; the accumulator is 5. */
  lemma ExampleLoops()
    ensures Loops(Example, 7) && Run(Example, Start, 7).acc == 5
  {
    assert Run(Example, Start, 1) == State(1, 0);
    assert Run(Example, Start, 2) == State(2, 1);
    assert Run(Example, Start, 3) == State(6, 1);
    assert Run(Example, Start, 4) == State(7, 2);
    assert Run(Example, Start, 5) == State(3, 2);
    assert Run(Example, Start, 6) == State(4, 5);
    assert Run(Example, Start, 7) == State(1, 5);
    assert Visited(Example, Start, 3) == {0, 1, 2};
    assert Visited(Example, Start, 5) == {0, 1, 2, 6, 7};
    assert Visited(Example, Start, 7) == {0, 1, 2, 6, 7, 3, 4};
    assert Fresh(Example, Start, 3, {});
    assert Fresh(Example, Start, 5, {});
  }

  /** So whatever `Part1` returns on the example is 5. */
  lemma ExamplePart1(r: Option<int>)
    requires r.Some? ==> exists n: nat :: Loops(Example, n) && r.value == Run(Example, Start, n).acc
    requires r.None? ==> exists n: nat :: Exits(Example, Start, n, {})
    ensures r == Some(5)
  {
    ExampleLoops();
    if r.None? {
      var n: nat :| Exits(Example, Start, n, {});
      LoopsNotExits(Example, 7, n);
    } else {
      var n: nat :| Loops(Example, n) && r.value == Run(Example, Start, n).acc;
      if n < 7 {
        LoopsUnique(Example, n, 7);
      } else if n > 7 {
        LoopsUnique(Example, 7, n);
      }
    }
  }

  /** `test_given_part_2`: swapping the `jmp -4` at index 7 lets the
      program run off its end with accumulator 8, and the search finds it. */
  lemma ExamplePart2()
    ensures Search(Example, {}, false, 0, 0) == Some(8)
  {
    var v0, v1, v2, v6 := {0}, {0, 1}, {0, 1, 2}, {0, 1, 2, 6};
    var v7 := {0, 1, 2, 6, 7};
    assert v0 == {} + {0} && v1 == v0 + {1} && v2 == v1 + {2} && v6 == v2 + {6} && v7 == v6 + {7};
    SearchStep(Example, v7, true, State(8, 0));
    assert Search(Example, v7, true, 8, 0) == Some(6);
    SearchStep(Example, v2, true, State(3, 0));
    SearchStep(Example, v2 + {3}, true, State(4, 3));
    assert Search(Example, v2, true, 3, 0) == None;
    assert Search(Example, v0, true, 0, 0) == None;
    SearchStep(Example, v6, false, State(7, 2));
    SearchStep(Example, v2, false, State(6, 1));
    SearchStep(Example, v1, false, State(2, 1));
    SearchStep(Example, v0, false, State(1, 0));
    SearchStep(Example, {}, false, State(0, 0));
  }
}
