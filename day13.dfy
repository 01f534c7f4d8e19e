/** Day 13: bus schedules. Part 1 finds the bus that leaves first after
    the given time; part 2 steps through multiples of the first bus's id
    until every other bus leaves its list position later. */
module Day13 {
  import opened Common

  /** An entry of the schedule: "x" or a bus id. */
  datatype Entry = Unknown | Bus(id: nat)

  datatype Notes = Notes(timestamp: nat, busses: seq<Entry>)

  // ---------------------------------------------------------------------
  // input_generator

  function ParseEntry(b: string): Option<Entry> {
    if b == "x" then Some(Unknown)
    else match ParseNat(b)
      case Some(n) => Some(Bus(n))
      case None => None
  }

  function ParseEntries(parts: seq<string>): (r: Option<seq<Entry>>)
    ensures r.Some? ==> |r.value| == |parts|
    ensures r.Some? ==> forall k :: 0 <= k < |parts| ==> ParseEntry(parts[k]) == Some(r.value[k])
    ensures r.None? ==> exists k :: 0 <= k < |parts| && ParseEntry(parts[k]).None?
  {
    if parts == [] then Some([])
    else match (ParseEntry(parts[0]), ParseEntries(parts[1..]))
      case (Some(e), Some(rest)) => Some([e] + rest)
      case _ => None
  }

  /** `input_generator`: the time on the first line, the comma-separated
      entries on the second; `None` where a line is missing or a number
      does not parse (each an `unwrap` that panics). */
  function InputGenerator(input: string): (r: Option<Notes>)
    ensures r.Some? ==> (|Lines(input)| >= 2
      && ParseNat(Trim(Lines(input)[0])) == Some(r.value.timestamp)
      && |r.value.busses| == |Split(Trim(Lines(input)[1]), ',')|
      && forall k :: 0 <= k < |r.value.busses| ==>
           ParseEntry(Split(Trim(Lines(input)[1]), ',')[k]) == Some(r.value.busses[k]))
    ensures r.None? ==> (|Lines(input)| < 2 || ParseNat(Trim(Lines(input)[0])).None?
      || exists k :: 0 <= k < |Split(Trim(Lines(input)[1]), ',')| && ParseEntry(Split(Trim(Lines(input)[1]), ',')[k]).None?)
  {
    var lines := Lines(input);
    if |lines| < 2 then None
    else match (ParseEntries(Split(Trim(lines[1]), ',')), ParseNat(Trim(lines[0])))
      case (Some(busses), Some(t)) => Some(Notes(t, busses))
      case _ => None
  }

  function EntryText(e: Entry): (s: string)
    ensures (s != [] && AllDigits(s)) || s == "x"
  {
    match e
    case Unknown => "x"
    case Bus(n) => NatToString(n)
  }

  function EntryTexts(busses: seq<Entry>): (parts: seq<string>)
    ensures |parts| == |busses|
    ensures forall k :: 0 <= k < |busses| ==> parts[k] == EntryText(busses[k])
  {
    if busses == [] then [] else [EntryText(busses[0])] + EntryTexts(busses[1..])
  }

  /** The notes written back out: the time, a line break, the entries
      separated by commas. */
  function NotesText(n: Notes): string
    requires n.busses != []
  {
    Join([NatToString(n.timestamp), Join(EntryTexts(n.busses), ',')], '\n')
  }

  lemma ParseEntryText(e: Entry)
    ensures ParseEntry(EntryText(e)) == Some(e)
  {
    if e.Bus? {
      ParseNatToString(e.id);
      var s := NatToString(e.id);
      assert IsDigit(s[0]);
    }
  }

  lemma ParseEntriesCons(parts: seq<string>, e: Entry, rest: seq<Entry>)
    requires parts != [] && ParseEntry(parts[0]) == Some(e) && ParseEntries(parts[1..]) == Some(rest)
    ensures ParseEntries(parts) == Some([e] + rest)
  {
  }

  lemma {:induction false} ParseEntryTexts(busses: seq<Entry>)
    ensures ParseEntries(EntryTexts(busses)) == Some(busses)
  {
    if busses != [] {
      assert busses == [busses[0]] + busses[1..];
      var parts := EntryTexts(busses);
      assert parts[0] == EntryText(busses[0]) && parts[1..] == EntryTexts(busses[1..]);
      ParseEntryText(busses[0]);
      ParseEntryTexts(busses[1..]);
      ParseEntriesCons(parts, busses[0], busses[1..]);
    }
  }

  /** Text that is a digit or an "x" has no other characters. */
  lemma EntryTextChars(e: Entry, i: nat)
    requires i < |EntryText(e)|
    ensures IsDigit(EntryText(e)[i]) || EntryText(e)[i] == 'x'
  {
  }

  /** The entries' line, with no whitespace at either end. */
  lemma EntriesLine(busses: seq<Entry>)
    requires busses != []
    ensures forall i :: 0 <= i < |Join(EntryTexts(busses), ',')| ==> Join(EntryTexts(busses), ',')[i] in "0123456789x,"
    ensures Join(EntryTexts(busses), ',') != []
    ensures Split(Join(EntryTexts(busses), ','), ',') == EntryTexts(busses)
  {
    var parts := EntryTexts(busses);
    forall k, i | 0 <= k < |parts| && 0 <= i < |parts[k]|
      ensures parts[k][i] in "0123456789x"
    {
      assert parts[k] == EntryText(busses[k]);
      EntryTextChars(busses[k], i);
    }
    JoinChars(parts);
    SplitOfJoin(parts, ',');
  }

  /** The characters of joined pieces are theirs or commas. */
  lemma {:induction false} JoinChars(parts: seq<string>)
    requires |parts| > 0
    requires forall k, i :: 0 <= k < |parts| && 0 <= i < |parts[k]| ==> parts[k][i] in "0123456789x"
    requires parts[0] != []
    ensures Join(parts, ',') != []
    ensures forall i :: 0 <= i < |Join(parts, ',')| ==> Join(parts, ',')[i] in "0123456789x,"
  {
    if |parts| > 1 {
      if parts[1] != [] {
        JoinChars(parts[1..]);
      } else {
        JoinCharsAny(parts[1..]);
      }
      var s := Join(parts, ',');
      var a := parts[0] + [','];
      assert s == a + Join(parts[1..], ',');
      forall i | 0 <= i < |s|
        ensures s[i] in "0123456789x,"
      {
        if i >= |a| {
          assert s[i] == Join(parts[1..], ',')[i - |a|];
        } else if i < |parts[0]| {
          assert s[i] == parts[0][i];
        }
      }
    }
  }

  lemma {:induction false} JoinCharsAny(parts: seq<string>)
    requires |parts| > 0
    requires forall k, i :: 0 <= k < |parts| && 0 <= i < |parts[k]| ==> parts[k][i] in "0123456789x"
    ensures forall i :: 0 <= i < |Join(parts, ',')| ==> Join(parts, ',')[i] in "0123456789x,"
  {
    if |parts| > 1 {
      JoinCharsAny(parts[1..]);
      var s := Join(parts, ',');
      var a := parts[0] + [','];
      assert s == a + Join(parts[1..], ',');
      forall i | 0 <= i < |s|
        ensures s[i] in "0123456789x,"
      {
        if i >= |a| {
          assert s[i] == Join(parts[1..], ',')[i - |a|];
        } else if i < |parts[0]| {
          assert s[i] == parts[0][i];
        }
      }
    }
  }

  /** Notes written out are read back. */
  lemma GeneratorRoundTrip(n: Notes)
    requires n.busses != []
    ensures InputGenerator(NotesText(n)) == Some(n)
  {
    var first := NatToString(n.timestamp);
    var second := Join(EntryTexts(n.busses), ',');
    EntriesLine(n.busses);
    assert EntryTexts(n.busses)[0] == EntryText(n.busses[0]);
    var lines := [first, second];
    forall k, i | 0 <= k < 2 && 0 <= i < |lines[k]|
      ensures lines[k][i] != '\n' && lines[k][i] != '\r' && !IsWhitespace(lines[k][i])
    {
      if k == 0 {
        assert IsDigit(first[i]);
      } else {
        assert second[i] in "0123456789x,";
      }
    }
    LinesOfJoin(lines);
    TrimNoop(first);
    TrimNoop(second);
    ParseNatToString(n.timestamp);
    ParseEntryTexts(n.busses);
  }

  // ---------------------------------------------------------------------
  // day13_part1

  /** The ids of the busses in service, in list order (`filter_map`). */
  function Ids(busses: seq<Entry>): (ids: seq<nat>)
    ensures |ids| <= |busses|
  {
    if busses == [] then []
    else match busses[0]
      case Bus(b) => [b] + Ids(busses[1..])
      case Unknown => Ids(busses[1..])
  }

  /** `b * (t / b) + b`. */
  function Candidate(b: nat, t: nat): nat
    requires b > 0
  {
    b * (t / b) + b
  }

  /** The candidate is the first departure of bus b strictly after t, even
      when b leaves exactly at t. */
  lemma CandidateIsNext(b: nat, t: nat)
    requires b > 0
    ensures Candidate(b, t) > t && Candidate(b, t) % b == 0
    ensures Candidate(b, t) - b <= t
    ensures t % b == 0 ==> Candidate(b, t) == t + b
  {
    var q := t / b;
    var c := Candidate(b, t);
    assert t == q * b + t % b;
    assert c == (q + 1) * b;
    ModUnique(c, b, q + 1, 0);
    if t % b == 0 {
      assert c == t + b;
    }
  }

  predicate AllPositive(ids: seq<nat>) {
    forall k :: 0 <= k < |ids| ==> ids[k] > 0
  }

  /** `min_by_key`: the position of the first smallest candidate. */
  function FirstMin(ids: seq<nat>, t: nat): (r: nat)
    requires ids != [] && AllPositive(ids)
    ensures r < |ids|
    ensures forall k :: 0 <= k < |ids| ==> Candidate(ids[r], t) <= Candidate(ids[k], t)
    ensures forall k :: 0 <= k < r ==> Candidate(ids[r], t) < Candidate(ids[k], t)
  {
    if |ids| == 1 then 0
    else
      var init := ids[..|ids| - 1];
      assert forall k :: 0 <= k < |init| ==> init[k] == ids[k];
      var best := FirstMin(init, t);
      if Candidate(ids[|ids| - 1], t) < Candidate(ids[best], t) then |ids| - 1 else best
  }

  /** `day13_part1`: the wait for the first bus to leave after the time,
      times its id; `None` with no bus (`unwrap`) or a bus of id 0 (a
      division by zero). */
  function Part1(notes: Notes): (r: Option<nat>)
    ensures r.Some? <==> Ids(notes.busses) != [] && AllPositive(Ids(notes.busses))
    ensures r.Some? ==> exists k :: 0 <= k < |Ids(notes.busses)| && WaitTimesId(Ids(notes.busses)[k], r.value)
  {
    var ids := Ids(notes.busses);
    if ids == [] || !AllPositive(ids) then None
    else
      var k := FirstMin(ids, notes.timestamp);
      var b := ids[k];
      CandidateIsNext(b, notes.timestamp);
      var w := Candidate(b, notes.timestamp) - notes.timestamp;
      MulBounds(w, b);
      assert WaitTimesId(ids[k], w * b);
      Some(w * b)
  }

  /** x is a wait of 1 to b minutes times the id b: a multiple of b between
      b and b * b. */
  predicate WaitTimesId(b: nat, x: nat) {
    b > 0 && x % b == 0 && b <= x <= b * b
  }

  /** A wait between 1 and b times b is a multiple of b between b and b * b. */
  lemma MulBounds(w: nat, b: nat)
    requires 1 <= w <= b
    ensures w * b % b == 0 && b <= w * b <= b * b
  {
    ModUnique(w * b, b, w, 0);
    MulMono(1, w, b);
    MulMono(w, b, b);
  }

  /** The answer is the wait for a bus no other bus beats, times its id;
      the wait lies in 1..=id. */
  lemma Part1Answer(notes: Notes)
    requires Part1(notes).Some?
    ensures exists k :: 0 <= k < |Ids(notes.busses)| && IsAnswer(notes, k, Part1(notes).value)
  {
    var ids := Ids(notes.busses);
    var k := FirstMin(ids, notes.timestamp);
    CandidateIsNext(ids[k], notes.timestamp);
    assert IsAnswer(notes, k, Part1(notes).value);
  }

  /** Bus k of the notes leaves first after the time (no other bus leaves
      sooner, none before it in the list as soon) and the answer is its
      wait, between 1 and its id, times its id. */
  ghost predicate IsAnswer(notes: Notes, k: nat, answer: nat)
    requires k < |Ids(notes.busses)|
  {
    var ids := Ids(notes.busses);
    var t := notes.timestamp;
    AllPositive(ids) &&
    (forall j :: 0 <= j < |ids| ==> Candidate(ids[k], t) <= Candidate(ids[j], t)) &&
    (forall j :: 0 <= j < k ==> Candidate(ids[k], t) < Candidate(ids[j], t)) &&
    1 <= Candidate(ids[k], t) - t <= ids[k] &&
    answer == (Candidate(ids[k], t) - t) * ids[k]
  }

  // ---------------------------------------------------------------------
  // day13_part2

  /** The busses with their list positions (x entries counted). */
  function Offsets(busses: seq<Entry>, from: nat): (r: seq<(nat, nat)>)
    ensures |r| <= |busses|
    ensures forall k :: 0 <= k < |r| ==> r[k].0 >= from
  {
    if busses == [] then []
    else match busses[0]
      case Bus(b) => [(from, b)] + Offsets(busses[1..], from + 1)
      case Unknown => Offsets(busses[1..], from + 1)
  }

  /** Each (position, id) of the result is a bus of the list at that
      position, counted from `from`. */
  lemma {:induction false} OffsetsArePositions(busses: seq<Entry>, from: nat)
    ensures forall k :: 0 <= k < |Offsets(busses, from)| ==>
      Offsets(busses, from)[k].0 - from < |busses| &&
      busses[Offsets(busses, from)[k].0 - from] == Bus(Offsets(busses, from)[k].1)
  {
    if busses != [] {
      OffsetsArePositions(busses[1..], from + 1);
    }
  }

  /** `all(|q| (min + q.0) % q.1 == 0)`: `None` where it reaches an id of 0
      (a remainder by zero), otherwise whether every bus divides. */
  function Check(min: nat, rest: seq<(nat, nat)>): Option<bool> {
    if rest == [] then Some(true)
    else if rest[0].1 == 0 then None
    else if (min + rest[0].0) % rest[0].1 != 0 then Some(false)
    else Check(min, rest[1..])
  }

  /** Every bus (offset o, id b) leaves o minutes after `min`. */
  predicate Aligned(min: nat, rest: seq<(nat, nat)>) {
    forall k :: 0 <= k < |rest| ==> rest[k].1 > 0 && (min + rest[k].0) % rest[k].1 == 0
  }

  /** The check passes exactly when every bus is aligned. */
  lemma {:induction false} CheckAligned(min: nat, rest: seq<(nat, nat)>)
    ensures Check(min, rest) == Some(true) <==> Aligned(min, rest)
  {
    if rest != [] {
      CheckAligned(min, rest[1..]);
      if Aligned(min, rest) {
        assert Aligned(min, rest[1..]) by {
          forall k | 0 <= k < |rest| - 1
            ensures rest[1..][k].1 > 0 && (min + rest[1..][k].0) % rest[1..][k].1 == 0
          {
            assert rest[1..][k] == rest[k + 1];
          }
        }
      }
      if Check(min, rest) == Some(true) {
        forall k | 0 <= k < |rest|
          ensures rest[k].1 > 0 && (min + rest[k].0) % rest[k].1 == 0
        {
          if k > 0 {
            assert rest[k] == rest[1..][k - 1];
          }
        }
      }
    }
  }

  /** The loop stops within `bound` steps: there is no bus, the first id
      is 0, or the check at the bound-th multiple does not fail. */
  predicate Stops(busses: seq<Entry>, bound: nat) {
    var b := Offsets(busses, 0);
    b == [] || b[0].1 == 0 || (bound >= 1 && Check(b[0].1 * bound, b[1..]) != Some(false))
  }

  /** `day13_part2`: the first multiple of the first bus's id at which the
      check passes; `None` with no bus, a first id of 0 (`step_by(0)`) or
      a check that divides by zero. The source searches for ever when no
      multiple passes; `bound` is a multiple at which it stops. */
  method Part2(notes: Notes, ghost bound: nat) returns (r: Option<nat>)
    requires Stops(notes.busses, bound)
    ensures r.Some? ==> var b := Offsets(notes.busses, 0);
      b != [] && b[0].1 > 0 && r.value > 0 && r.value % b[0].1 == 0 &&
      Aligned(r.value, b[1..]) &&
      forall m: nat :: 0 < m < r.value && m % b[0].1 == 0 ==> Check(m, b[1..]) == Some(false)
    ensures r.None? ==> var b := Offsets(notes.busses, 0);
      b == [] || b[0].1 == 0 ||
      exists j: nat :: 1 <= j && Check(b[0].1 * j, b[1..]).None?
  {
    var busses := Offsets(notes.busses, 0);
    if busses == [] {
      return None;
    }
    var first := busses[0];
    if first.1 == 0 {
      return None;
    }
    var rest := busses[1..];
    var min := first.1;
    ghost var j: nat := 1;
    while true
      invariant min == first.1 * j && 1 <= j <= bound
      invariant forall m: nat :: 0 < m < min && m % first.1 == 0 ==> Check(m, rest) == Some(false)
      decreases bound - j
    {
      var all := CheckAll(min, rest);
      if all.None? {
        return None;
      }
      if all.value {
        CheckAligned(min, rest);
        MultipleMod(first.1, j);
        return Some(min);
      }
      NextMultiple(min, first.1, j, rest);
      assert min + first.1 == first.1 * (j + 1);
      min := min + first.1;
      j := j + 1;
    }
  }

  /** The `all` closure run bus by bus: stops at the first bus that does
      not divide, and panics (`None`) on an id of 0 it reaches. */
  method CheckAll(min: nat, rest: seq<(nat, nat)>) returns (all: Option<bool>)
    ensures all == Check(min, rest)
  {
    var k := 0;
    while k < |rest|
      invariant 0 <= k <= |rest|
      invariant Check(min, rest) == Check(min, rest[k..])
    {
      var q := rest[k];
      assert rest[k..][1..] == rest[k + 1..];
      if q.1 == 0 {
        return None;
      }
      if (min + q.0) % q.1 != 0 {
        return Some(false);
      }
      k := k + 1;
    }
    assert rest[k..] == [];
    all := Some(true);
  }

  /** No multiple of b lies strictly between b * j and b * (j + 1). */
  lemma NextMultiple(min: nat, b: nat, j: nat, rest: seq<(nat, nat)>)
    requires b > 0 && min == b * j
    requires forall m: nat :: 0 < m < min && m % b == 0 ==> Check(m, rest) == Some(false)
    requires Check(min, rest) == Some(false)
    ensures forall m: nat :: 0 < m < min + b && m % b == 0 ==> Check(m, rest) == Some(false)
  {
    forall m: nat | 0 < m < min + b && m % b == 0
      ensures Check(m, rest) == Some(false)
    {
      if m > min {
        var q := m / b;
        assert m == b * q;
        assert b * j < b * q < b * (j + 1);
        MulStrict(b, j, q);
        MulStrict(b, q, j + 1);
        assert false;
      }
    }
  }

  lemma MultipleMod(b: nat, j: nat)
    requires b > 0
    ensures (b * j) % b == 0
  {
    ModUnique(b * j, b, j, 0);
  }

  lemma MulStrict(b: nat, x: nat, y: nat)
    requires b > 0 && b * x < b * y
    ensures x < y
  {
  }

  // ---------------------------------------------------------------------
  // examples

  const Example := Notes(939, [Bus(7), Bus(13), Unknown, Unknown, Bus(59), Unknown, Bus(31), Bus(19)])

  /** Bus 59 leaves at 944, five minutes after 939: 5 * 59 = 295. */
  lemma ExamplePart1()
    ensures Part1(Example) == Some(295)
  {
    ExampleIds();
    ExampleFirstMin(Ids(Example.busses));
    assert Candidate(59, 939) == 944;
  }

  lemma ExampleIds()
    ensures Ids(Example.busses) == [7, 13, 59, 31, 19]
  {
    var tail := [Bus(59), Unknown, Bus(31), Bus(19)];
    assert Example.busses[4..] == tail;
    assert Ids(tail) == [59, 31, 19];
  }

  lemma ExampleFirstMin(ids: seq<nat>)
    requires ids == [7, 13, 59, 31, 19]
    ensures AllPositive(ids) && FirstMin(ids, 939) == 2
  {
    assert Candidate(7, 939) == 945 && Candidate(13, 939) == 949 && Candidate(59, 939) == 944;
    assert Candidate(31, 939) == 961 && Candidate(19, 939) == 950;
    assert ids[..1] == [7] && ids[..2] == [7, 13] && ids[..3] == [7, 13, 59] && ids[..4] == [7, 13, 59, 31];
    assert FirstMin(ids[..1], 939) == 0;
    assert FirstMin(ids[..2], 939) == 0;
    assert FirstMin(ids[..3], 939) == 2;
    assert FirstMin(ids[..4], 939) == 2;
  }

  /** Each part-2 answer of the source's tests is a multiple of the first
      id at which every other bus leaves its list position later. */
  lemma ExampleAligned1()
    ensures Aligned(1068781, Offsets(Example.busses, 0)[1..])
  {
    ExampleOffsets();
    ExampleCheck();
    CheckAligned(1068781, [(1, 13), (4, 59), (6, 31), (7, 19)]);
  }

  lemma ExampleOffsets()
    ensures Offsets(Example.busses, 0)[1..] == [(1, 13), (4, 59), (6, 31), (7, 19)]
  {
    var tail := [Bus(59), Unknown, Bus(31), Bus(19)];
    assert Example.busses[4..] == tail;
    assert Offsets(tail, 4) == [(4, 59), (6, 31), (7, 19)];
    assert Offsets(Example.busses, 0) == [(0, 7), (1, 13), (4, 59), (6, 31), (7, 19)];
  }

  lemma ExampleCheck()
    ensures Check(1068781, [(1, 13), (4, 59), (6, 31), (7, 19)]) == Some(true)
  {
    assert (1068781 + 1) % 13 == 0 && (1068781 + 4) % 59 == 0;
    assert (1068781 + 6) % 31 == 0 && (1068781 + 7) % 19 == 0;
  }

  lemma ExampleAligned2()
    ensures Aligned(3417, Offsets([Bus(17), Unknown, Bus(13), Bus(19)], 0)[1..])
  {
    var rest := Offsets([Bus(17), Unknown, Bus(13), Bus(19)], 0)[1..];
    assert rest == [(2, 13), (3, 19)];
    assert Check(3417, [(2, 13), (3, 19)]) == Some(true);
    CheckAligned(3417, rest);
  }

  lemma ExampleAligned3()
    ensures Aligned(754018, Offsets([Bus(67), Bus(7), Bus(59), Bus(61)], 0)[1..])
  {
    var rest := Offsets([Bus(67), Bus(7), Bus(59), Bus(61)], 0)[1..];
    assert rest == [(1, 7), (2, 59), (3, 61)];
    assert Check(754018, [(1, 7), (2, 59), (3, 61)]) == Some(true);
    CheckAligned(754018, rest);
  }

  lemma ExampleAligned4()
    ensures Aligned(779210, Offsets([Bus(67), Unknown, Bus(7), Bus(59), Bus(61)], 0)[1..])
  {
    var rest := Offsets([Bus(67), Unknown, Bus(7), Bus(59), Bus(61)], 0)[1..];
    assert rest == [(2, 7), (3, 59), (4, 61)];
    assert Check(779210, [(2, 7), (3, 59), (4, 61)]) == Some(true);
    CheckAligned(779210, rest);
  }

  lemma ExampleAligned5()
    ensures Aligned(1261476, Offsets([Bus(67), Bus(7), Unknown, Bus(59), Bus(61)], 0)[1..])
  {
    var rest := Offsets([Bus(67), Bus(7), Unknown, Bus(59), Bus(61)], 0)[1..];
    assert rest == [(1, 7), (3, 59), (4, 61)];
    assert Check(1261476, [(1, 7), (3, 59), (4, 61)]) == Some(true);
    CheckAligned(1261476, rest);
  }

  lemma ExampleAligned6()
    ensures Aligned(1202161486, Offsets([Bus(1789), Bus(37), Bus(47), Bus(1889)], 0)[1..])
  {
    var rest := Offsets([Bus(1789), Bus(37), Bus(47), Bus(1889)], 0)[1..];
    assert rest == [(1, 37), (2, 47), (3, 1889)];
    assert Check(1202161486, [(1, 37), (2, 47), (3, 1889)]) == Some(true);
    CheckAligned(1202161486, rest);
  }
}
