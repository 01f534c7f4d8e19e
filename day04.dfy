/** Day 4: passports. The input is cut into passports at blank lines, each
    passport into whitespace-separated `key:value` fields; part 1 asks for
    the seven required keys, part 2 also validates every field's value. */
module Day4 {
  import opened Common

  type Passport = map<string, string>

  // ---------------------------------------------------------------------
  // grouping the input into passports

  /** State of a left-to-right scan of the input: the word being read, the
      words of the current passport, the newlines seen since the last
      non-whitespace character, and the passports already closed. */
  datatype Scan = Scan(word: string, group: seq<string>, newlines: nat, done: seq<seq<string>>)

  predicate NoWhitespace(s: string) { forall i :: 0 <= i < |s| ==> !IsWhitespace(s[i]) }

  predicate WordsValid(words: seq<string>) {
    forall k :: 0 <= k < |words| ==> words[k] != [] && NoWhitespace(words[k])
  }

  /** Newlines are only counted once the word has been closed. */
  predicate ScanValid(st: Scan) {
    NoWhitespace(st.word) && WordsValid(st.group) && (st.newlines > 0 ==> st.word == [])
    && (forall g :: 0 <= g < |st.done| ==> WordsValid(st.done[g]))
  }

  /** The current word as a list of zero or one words. */
  function Closed(word: string): seq<string> {
    if word == [] then [] else [word]
  }

  /** One character of the scan. The source cuts the input at every match of
      the pattern `\n\s*\n`: a whitespace stretch holding two or more
      newlines separates passports (the greedy `\s*` takes the whole stretch
      up to its last newline, so one stretch is one cut). A cut is made when
      the first character after such a stretch is read. */
  function Step(st: Scan, c: char): (r: Scan)
    requires ScanValid(st)
    ensures ScanValid(r)
  {
    if IsWhitespace(c) then
      Scan([], st.group + Closed(st.word), st.newlines + (if c == '\n' then 1 else 0), st.done)
    else if st.newlines >= 2 then
      Scan([c], [], 0, st.done + [st.group + Closed(st.word)])
    else
      Scan(st.word + [c], st.group, 0, st.done)
  }

  function Run(st: Scan, s: string): (r: Scan)
    requires ScanValid(st)
    ensures ScanValid(r)
    decreases |s|
  {
    if s == [] then st else Run(Step(st, s[0]), s[1..])
  }

  /** The end of the input closes the last passport; a trailing stretch with
      two or more newlines is a cut too and leaves an empty last passport. */
  function Finish(st: Scan): seq<seq<string>> {
    var last := st.done + [st.group + Closed(st.word)];
    if st.newlines >= 2 then last + [[]] else last
  }

  function Start(): Scan { Scan([], [], 0, []) }

  /** The passports of the input, each as its list of `key:value` words. */
  function Groups(input: string): (groups: seq<seq<string>>)
    ensures |groups| > 0
    ensures forall g :: 0 <= g < |groups| ==> WordsValid(groups[g])
  {
    var st := Run(Start(), input);
    Finish(st)
  }

  function Flatten(groups: seq<seq<string>>): seq<string> {
    if groups == [] then [] else Flatten(groups[..|groups| - 1]) + groups[|groups| - 1]
  }

  lemma {:induction false} FlattenAppend(a: seq<seq<string>>, b: seq<string>)
    ensures Flatten(a + [b]) == Flatten(a) + b
  {
    assert (a + [b])[..|a + [b]| - 1] == a;
  }

  lemma {:induction false} RunConcat(st: Scan, x: string, y: string)
    requires ScanValid(st)
    ensures Run(st, x + y) == Run(Run(st, x), y)
    decreases |x|
  {
    if x == [] {
      assert x + y == y;
    } else {
      assert (x + y)[0] == x[0] && (x + y)[1..] == x[1..] + y;
      RunConcat(Step(st, x[0]), x[1..], y);
    }
  }

  /** Scanning in words does not lose or invent any: the words of all
      passports, in order, are the input's whitespace-separated words. */
  lemma {:induction false} RunWords(st: Scan, s: string)
    requires ScanValid(st)
    ensures var r := Run(st, s);
      Flatten(r.done) + r.group + Closed(r.word) == Flatten(st.done) + st.group + WordsFrom(s, st.word)
    decreases |s|
  {
    if s == [] {
    } else {
      var next := Step(st, s[0]);
      RunWords(next, s[1..]);
      if IsWhitespace(s[0]) {
        assert WordsFrom(s, st.word) == Closed(st.word) + WordsFrom(s[1..], []);
      } else if st.newlines >= 2 {
        FlattenAppend(st.done, st.group + Closed(st.word));
        assert st.word + [s[0]] == [s[0]];
      } else {
        assert WordsFrom(s, st.word) == WordsFrom(s[1..], st.word + [s[0]]);
      }
    }
  }

  /** The passports hold exactly the input's whitespace-separated words. */
  lemma GroupsWords(input: string)
    ensures Flatten(Groups(input)) == SplitWhitespace(input)
  {
    var st := Run(Start(), input);
    RunWords(Start(), input);
    var last := st.done + [st.group + Closed(st.word)];
    FlattenAppend(st.done, st.group + Closed(st.word));
    assert Flatten(last) == Flatten(st.done) + st.group + Closed(st.word);
    assert Flatten(last) == SplitWhitespace(input);
    if st.newlines >= 2 {
      FlattenAppend(last, []);
      assert Flatten(last) + [] == Flatten(last);
    }
  }

  /** Passports already closed before a scan are carried through it untouched. */
  lemma {:induction false} RunShift(st: Scan, before: seq<seq<string>>, s: string)
    requires ScanValid(st) && forall g :: 0 <= g < |before| ==> WordsValid(before[g])
    ensures Run(st.(done := before + st.done), s) == Run(st, s).(done := before + Run(st, s).done)
    decreases |s|
  {
    if s != [] {
      var next := Step(st, s[0]);
      assert Step(st.(done := before + st.done), s[0]) == next.(done := before + next.done);
      RunShift(next, before, s[1..]);
    }
  }

  /** After text ending in a non-whitespace character no newline is pending. */
  lemma RunEndsInWord(a: string)
    requires a != [] && !IsWhitespace(a[|a| - 1])
    ensures Run(Start(), a).newlines == 0
  {
    var n := |a| - 1;
    assert a == a[..n] + [a[n]];
    RunConcat(Start(), a[..n], [a[n]]);
  }

  /** A blank line between two passports' texts cuts them apart: the
      passports of the whole are those of the first text followed by those
      of the second. */
  lemma BlankLineSeparates(a: string, b: string)
    requires a != [] && !IsWhitespace(a[|a| - 1])
    requires b != [] && !IsWhitespace(b[0])
    ensures Groups(a + "\n\n" + b) == Groups(a) + Groups(b)
  {
    var w := "\n\n";
    assert NewlineCount(w[1..]) == 1;
    BlankStretchSeparates(a, w, b);
  }

  /** After a blank line, the rest of the input scans as if from the start,
      behind the passports already done and the one the blank line closes. */
  lemma RunAfterBlank(sep: Scan, b: string)
    requires ScanValid(sep) && sep.word == [] && sep.newlines >= 2
    requires b != [] && !IsWhitespace(b[0])
    ensures Run(sep, b) == Run(Start(), b).(done := (sep.done + [sep.group]) + Run(Start(), b).done)
  {
    var first := Scan([b[0]], [], 0, []);
    assert sep.group + Closed(sep.word) == sep.group;
    assert (sep.done + [sep.group]) + first.done == sep.done + [sep.group];
    assert Step(sep, b[0]) == first.(done := (sep.done + [sep.group]) + first.done);
    RunShift(first, sep.done + [sep.group], b[1..]);
    assert Start().word + [b[0]] == [b[0]];
    assert Step(Start(), b[0]) == first;
  }

  /** The number of newlines in a text. */
  function NewlineCount(w: string): nat
    decreases |w|
  {
    if w == [] then 0 else (if w[0] == '\n' then 1 else 0) + NewlineCount(w[1..])
  }

  predicate AllWhitespace(w: string) { forall i :: 0 <= i < |w| ==> IsWhitespace(w[i]) }

  /** A stretch of whitespace closes the pending word and only counts its
      newlines. */
  lemma {:induction false} RunWhitespace(st: Scan, w: string)
    requires ScanValid(st) && w != [] && AllWhitespace(w)
    ensures Run(st, w) == Scan([], st.group + Closed(st.word), st.newlines + NewlineCount(w), st.done)
    decreases |w|
  {
    var next := Step(st, w[0]);
    if w[1..] != [] {
      RunWhitespace(next, w[1..]);
      assert next.group + Closed(next.word) == next.group;
    }
  }

  /** Any whitespace stretch holding two or more newlines between two
      passports' texts cuts them apart, as the pattern `\n\s*\n` does. */
  lemma BlankStretchSeparates(a: string, w: string, b: string)
    requires a != [] && !IsWhitespace(a[|a| - 1])
    requires w != [] && AllWhitespace(w) && NewlineCount(w) >= 2
    requires b != [] && !IsWhitespace(b[0])
    ensures Groups(a + w + b) == Groups(a) + Groups(b)
  {
    var sa := Run(Start(), a);
    RunEndsInWord(a);
    var closed := sa.group + Closed(sa.word);
    RunConcat(Start(), a, w + b);
    assert a + w + b == a + (w + b);
    RunWhitespace(sa, w);
    var sep := Run(sa, w);
    RunConcat(sa, w, b);
    RunAfterBlank(sep, b);
    assert Groups(a) == sa.done + [closed];
  }

  /** No stretch of whitespace in the text holds two newlines: between any
      two newlines stands a non-whitespace character. */
  predicate NoPassportBreak(s: string) {
    forall i, j :: 0 <= i < j < |s| && s[i] == '\n' && s[j] == '\n' ==>
      exists k :: i < k < j && !IsWhitespace(s[k])
  }

  /** Every newline of the text comes after some non-whitespace character. */
  predicate NoNewlineBeforeWord(s: string) {
    forall j :: 0 <= j < |s| && s[j] == '\n' ==> exists k :: 0 <= k < j && !IsWhitespace(s[k])
  }

  /** Without a blank stretch the scan never closes a passport and never
      holds two pending newlines. */
  lemma {:induction false} RunOneGroup(st: Scan, s: string)
    requires ScanValid(st) && st.newlines < 2 && NoPassportBreak(s)
    requires st.newlines == 1 ==> NoNewlineBeforeWord(s)
    ensures Run(st, s).done == st.done && Run(st, s).newlines < 2
    decreases |s|
  {
    if s != [] {
      var t := s[1..];
      forall i, j | 0 <= i < j < |t| && t[i] == '\n' && t[j] == '\n'
        ensures exists k :: i < k < j && !IsWhitespace(t[k])
      {
        assert s[i + 1] == '\n' && s[j + 1] == '\n';
        var k :| i + 1 < k < j + 1 && !IsWhitespace(s[k]);
        assert t[k - 1] == s[k];
      }
      var next := Step(st, s[0]);
      if next.newlines == 1 {
        forall j | 0 <= j < |t| && t[j] == '\n'
          ensures exists k :: 0 <= k < j && !IsWhitespace(t[k])
        {
          assert s[j + 1] == '\n';
          var k :| (if s[0] == '\n' then 0 < k else 0 <= k) && k < j + 1 && !IsWhitespace(s[k]);
          assert t[k - 1] == s[k];
        }
      }
      RunOneGroup(next, t);
    }
  }

  /** Text without a blank stretch is one passport holding all its words. */
  lemma OneGroup(s: string)
    requires NoPassportBreak(s)
    ensures Groups(s) == [SplitWhitespace(s)]
  {
    RunOneGroup(Start(), s);
    RunWords(Start(), s);
    var st := Run(Start(), s);
    assert Flatten(st.done) == [] && Flatten(Start().done) + Start().group == [];
    assert Flatten(st.done) + st.group + Closed(st.word) == st.group + Closed(st.word);
    assert st.group + Closed(st.word) == SplitWhitespace(s);
  }

  /** A whitespace stretch that separates passports. */
  predicate BlankStretch(w: string) { w != [] && AllWhitespace(w) && NewlineCount(w) >= 2 }

  /** One passport's text: no blank stretch inside, no whitespace at its ends. */
  predicate PassportText(p: string) {
    p != [] && !IsWhitespace(p[0]) && !IsWhitespace(p[|p| - 1]) && NoPassportBreak(p)
  }

  /** Passport texts with the separators between them, in order. */
  function Interleave(ps: seq<string>, ws: seq<string>): (r: string)
    requires |ps| >= 1 && |ws| == |ps| - 1
    ensures |ps[|ps| - 1]| <= |r| && r[|r| - |ps[|ps| - 1]|..] == ps[|ps| - 1]
    decreases |ps|
  {
    if |ps| == 1 then ps[0]
    else Interleave(ps[..|ps| - 1], ws[..|ws| - 1]) + ws[|ws| - 1] + ps[|ps| - 1]
  }

  /** The words of each passport text, one list per text. */
  function PassportWords(ps: seq<string>): (r: seq<seq<string>>)
    ensures |r| == |ps| && forall k :: 0 <= k < |ps| ==> r[k] == SplitWhitespace(ps[k])
  {
    if ps == [] then [] else PassportWords(ps[..|ps| - 1]) + [SplitWhitespace(ps[|ps| - 1])]
  }

  /** Passport texts joined by blank stretches come back one passport per
      text, each holding that text's words. */
  lemma {:induction false} GroupsOfPassports(ps: seq<string>, ws: seq<string>)
    requires |ps| >= 1 && |ws| == |ps| - 1
    requires forall k :: 0 <= k < |ps| ==> PassportText(ps[k])
    requires forall k :: 0 <= k < |ws| ==> BlankStretch(ws[k])
    ensures Groups(Interleave(ps, ws)) == PassportWords(ps)
    decreases |ps|
  {
    var n := |ps| - 1;
    if n == 0 {
      OneGroup(ps[0]);
    } else {
      var front, seps := ps[..n], ws[..n - 1];
      assert forall k :: 0 <= k < |front| ==> front[k] == ps[k];
      assert forall k :: 0 <= k < |seps| ==> seps[k] == ws[k];
      var init := Interleave(front, seps);
      GroupsOfPassports(front, seps);
      var last := ps[n - 1];
      assert PassportText(last) && PassportText(ps[n]) && BlankStretch(ws[n - 1]);
      assert init[|init| - 1] == init[|init| - |last|..][|last| - 1] == last[|last| - 1];
      assert Interleave(ps, ws) == init + ws[n - 1] + ps[n];
      BlankStretchSeparates(init, ws[n - 1], ps[n]);
      OneGroup(ps[n]);
    }
  }

  // ---------------------------------------------------------------------
  // fields and passports

  /** Position of the last ':' in a word. */
  function LastColon(w: string): (r: Option<nat>)
    ensures r.Some? ==> (r.value < |w| && w[r.value] == ':'
      && forall j :: r.value < j < |w| ==> w[j] != ':')
    ensures r.None? ==> forall j :: 0 <= j < |w| ==> w[j] != ':'
  {
    if w == [] then None
    else if w[|w| - 1] == ':' then Some(|w| - 1)
    else LastColon(w[..|w| - 1])
  }

  /** A field word matched against `(.*):(.*)`: the greedy key runs to the
      last ':'; `None` where there is no ':' and the source unwraps a failed
      match. */
  function SplitField(w: string): (r: Option<(string, string)>)
    ensures r.Some? <==> exists j :: 0 <= j < |w| && w[j] == ':'
    ensures r.Some? ==> (w == r.value.0 + [':'] + r.value.1
      && forall j :: 0 <= j < |r.value.1| ==> r.value.1[j] != ':')
  {
    match LastColon(w)
    case None => None
    case Some(i) =>
      assert w == w[..i] + [':'] + w[i + 1..];
      Some((w[..i], w[i + 1..]))
  }

  /** Any key joined by ':' to a value without ':' splits back into both. */
  lemma SplitFieldJoin(key: string, value: string)
    requires forall j :: 0 <= j < |value| ==> value[j] != ':'
    ensures SplitField(key + [':'] + value) == Some((key, value))
  {
    var w := key + [':'] + value;
    assert w[|key|] == ':';
    var r := SplitField(w).value;
    assert r.0 == w[..|r.0|] && key == w[..|key|];
    assert r.1 == w[|r.0| + 1..] && value == w[|key| + 1..];
  }

  /** Field words become a passport; a later field with a key already seen
      replaces the earlier value (`collect` into a `HashMap`). */
  function ToPassport(words: seq<string>): (r: Option<Passport>)
    ensures r.Some? <==> forall i :: 0 <= i < |words| ==> SplitField(words[i]).Some?
  {
    if words == [] then Some(map[])
    else
      var n := |words| - 1;
      var init := words[..n];
      assert forall i :: 0 <= i < n ==> init[i] == words[i];
      match (ToPassport(init), SplitField(words[n]))
      case (Some(m), Some(kv)) => Some(m[kv.0 := kv.1])
      case _ => None
  }

  /** The passport's keys are the keys of its field words. */
  lemma {:induction false} ToPassportKeys(words: seq<string>)
    requires ToPassport(words).Some?
    ensures forall key :: key in ToPassport(words).value <==>
      exists i :: 0 <= i < |words| && SplitField(words[i]).value.0 == key
  {
    if words != [] {
      var n := |words| - 1;
      var init := words[..n];
      assert forall i :: 0 <= i < n ==> init[i] == words[i];
      ToPassportKeys(init);
    }
  }

  /** Each key holds the value of its last field word. */
  lemma {:induction false} ToPassportLastWins(words: seq<string>, i: nat)
    requires ToPassport(words).Some? && i < |words|
    requires forall j :: i < j < |words| ==> SplitField(words[j]).value.0 != SplitField(words[i]).value.0
    ensures SplitField(words[i]).value.0 in ToPassport(words).value
    ensures ToPassport(words).value[SplitField(words[i]).value.0] == SplitField(words[i]).value.1
  {
    var n := |words| - 1;
    var init := words[..n];
    assert forall j :: 0 <= j < n ==> init[j] == words[j];
    if i < n {
      ToPassportLastWins(init, i);
    }
  }

  /** `input_generator`: `None` where some field word has no ':'. */
  function InputGenerator(input: string): (r: Option<seq<Passport>>)
    ensures r.Some? ==> (|r.value| == |Groups(input)|
      && forall g :: 0 <= g < |r.value| ==> ToPassport(Groups(input)[g]) == Some(r.value[g]))
    ensures r.None? <==> exists g :: 0 <= g < |Groups(input)| && ToPassport(Groups(input)[g]).None?
  {
    ToPassports(Groups(input))
  }

  function ToPassports(groups: seq<seq<string>>): (r: Option<seq<Passport>>)
    ensures r.Some? ==> (|r.value| == |groups|
      && forall g :: 0 <= g < |r.value| ==> ToPassport(groups[g]) == Some(r.value[g]))
    ensures r.None? <==> exists g :: 0 <= g < |groups| && ToPassport(groups[g]).None?
  {
    if groups == [] then Some([])
    else
      match (ToPassport(groups[0]), ToPassports(groups[1..]))
      case (Some(p), Some(ps)) => Some([p] + ps)
      case _ =>
        assert forall g :: 0 < g < |groups| ==> groups[1..][g - 1] == groups[g];
        None
  }

  // ---------------------------------------------------------------------
  // part 1

  function Required(): seq<string> {
    ["byr", "iyr", "eyr", "hgt", "hcl", "ecl", "pid"]
  }

  predicate HasRequired(p: Passport) {
    forall i :: 0 <= i < |Required()| ==> Required()[i] in p
  }

  /** Part 1: the passports holding all seven required keys; "cid" may be
      missing. */
  function Part1(passports: seq<Passport>): (r: nat)
    ensures r == |set i | 0 <= i < |passports| && HasRequired(passports[i])|
  {
    CountWhereCard(passports, HasRequired, set i | 0 <= i < |passports| && HasRequired(passports[i]));
    CountWhere(passports, HasRequired)
  }

  /** Only the seven keys matter for part 1: "cid" and unknown keys neither
      help nor hurt. */
  lemma Part1IgnoresOtherKeys(p: Passport, key: string, value: string)
    requires key !in Required()
    ensures HasRequired(p[key := value]) <==> HasRequired(p - {key})
  {
  }

  // ---------------------------------------------------------------------
  // part 2: field validators

  /** `int_check`: the value parsed as an unsigned number lies in
      [min, max]; `None` where the parse fails and is unwrapped. */
  function IntCheck(f: string, min: nat, max: nat): (r: Option<bool>)
    ensures r.None? <==> ParseNat(f).None?
    ensures r.Some? ==> (r.value <==> min <= ParseNat(f).value <= max)
  {
    match ParseNat(f)
    case None => None
    case Some(n) => Some(min <= n <= max)
  }

  /** The height pattern `^(\d+)(cm|in)$` and its range check: 150 to 193
      centimetres or 59 to 76 inches. */
  predicate HeightCheck(f: string) {
    |f| >= 3 && AllDigits(f[..|f| - 2])
    && ((f[|f| - 2..] == "cm" && 150 <= DigitsValue(f[..|f| - 2]) <= 193)
      || (f[|f| - 2..] == "in" && 59 <= DigitsValue(f[..|f| - 2]) <= 76))
  }

  /** A height written as a number and a unit passes exactly when the number
      is in that unit's range. */
  lemma HeightCheckFormat(n: nat, unit: string)
    requires unit == "cm" || unit == "in"
    ensures HeightCheck(NatToString(n) + unit) <==>
      (if unit == "cm" then 150 <= n <= 193 else 59 <= n <= 76)
  {
    var f := NatToString(n) + unit;
    assert f[..|f| - 2] == NatToString(n) && f[|f| - 2..] == unit;
    DigitsValueOfNatToString(n);
  }

  /** The hair colour pattern `^#\w{6}$`. */
  predicate HairColorCheck(f: string) {
    |f| == 7 && f[0] == '#' && forall i :: 1 <= i < 7 ==> IsWordChar(f[i])
  }

  function EyeColors(): seq<string> {
    ["amb", "blu", "brn", "gry", "grn", "hzl", "oth"]
  }

  predicate EyeColorCheck(f: string) { f in EyeColors() }

  /** The passport id pattern `^\d{9}$`. */
  predicate PassportIdCheck(f: string) { |f| == 9 && AllDigits(f) }

  /** The check applied to one entry; `None` for a key outside the known
      eight (the source panics) or a year that does not parse. */
  function CheckField(key: string, value: string): (r: Option<bool>)
    ensures r.None? ==> key !in Required() + ["cid"] || ParseNat(value).None?
    ensures key == "cid" ==> r == Some(true)
  {
    if key == "byr" then IntCheck(value, 1920, 2002)
    else if key == "iyr" then IntCheck(value, 2010, 2020)
    else if key == "eyr" then IntCheck(value, 2020, 2030)
    else if key == "hgt" then Some(HeightCheck(value))
    else if key == "hcl" then Some(HairColorCheck(value))
    else if key == "ecl" then Some(EyeColorCheck(value))
    else if key == "pid" then Some(PassportIdCheck(value))
    else if key == "cid" then Some(true)
    else None
  }

  /** `order` lists the passport's keys, each once: the order in which the
      `HashMap` happens to yield its entries, which the source does not fix. */
  predicate EntryOrder(p: Passport, order: seq<string>) {
    (forall i :: 0 <= i < |order| ==> order[i] in p)
    && (forall key :: key in p ==> key in order)
    && (forall i, j :: 0 <= i < j < |order| ==> order[i] != order[j])
  }

  /** `iter().all(...)` over the entries in the given order: it stops at the
      first entry that fails (`Some(false)`) or panics (`None`). */
  function CheckInOrder(p: Passport, order: seq<string>): Option<bool>
    requires forall i :: 0 <= i < |order| ==> order[i] in p
  {
    if order == [] then Some(true)
    else
      match CheckField(order[0], p[order[0]])
      case Some(true) => CheckInOrder(p, order[1..])
      case other => other
  }

  /** When no entry panics, the order does not matter: the passport passes
      exactly when every entry passes. */
  lemma OrderIrrelevantWithoutPanic(p: Passport, order: seq<string>)
    requires EntryOrder(p, order)
    requires forall key :: key in p ==> CheckField(key, p[key]).Some?
    ensures CheckInOrder(p, order) == Some(forall key :: key in p ==> CheckField(key, p[key]) == Some(true))
  {
    CheckInOrderAll(p, order);
  }

  lemma {:induction false} CheckInOrderAll(p: Passport, order: seq<string>)
    requires forall i :: 0 <= i < |order| ==> order[i] in p
    requires forall i :: 0 <= i < |order| ==> CheckField(order[i], p[order[i]]).Some?
    ensures CheckInOrder(p, order) == Some(forall i :: 0 <= i < |order| ==> CheckField(order[i], p[order[i]]) == Some(true))
  {
    if order != [] {
      assert forall i :: 1 <= i < |order| ==> order[1..][i - 1] == order[i];
      CheckInOrderAll(p, order[1..]);
    }
  }

  /** When some entry panics and none fails, the source panics whatever the
      order. */
  lemma PanicWithoutFailure(p: Passport, order: seq<string>, bad: string)
    requires EntryOrder(p, order)
    requires bad in p && CheckField(bad, p[bad]).None?
    requires forall key :: key in p ==> CheckField(key, p[key]) != Some(false)
    ensures CheckInOrder(p, order) == None
  {
    var i :| 0 <= i < |order| && order[i] == bad;
    CheckInOrderPanics(p, order, i);
  }

  lemma {:induction false} CheckInOrderPanics(p: Passport, order: seq<string>, i: nat)
    requires forall j :: 0 <= j < |order| ==> order[j] in p
    requires i < |order| && CheckField(order[i], p[order[i]]).None?
    requires forall j :: 0 <= j < |order| ==> CheckField(order[j], p[order[j]]) != Some(false)
    ensures CheckInOrder(p, order) == None
  {
    if i > 0 {
      assert forall j :: 1 <= j < |order| ==> order[1..][j - 1] == order[j];
      CheckInOrderPanics(p, order[1..], i - 1);
    }
  }

  /** Accepted in part 2: all seven keys, and every entry checked in the
      given order passes. */
  predicate AcceptedPart2(entry: (Passport, seq<string>))
    requires forall i :: 0 <= i < |entry.1| ==> entry.1[i] in entry.0
  {
    HasRequired(entry.0) && CheckInOrder(entry.0, entry.1) == Some(true)
  }

  /** The source reaches the checks of a passport only when all seven keys
      are present; then a panicking entry ends the run. */
  predicate PanicsPart2(entry: (Passport, seq<string>))
    requires forall i :: 0 <= i < |entry.1| ==> entry.1[i] in entry.0
  {
    HasRequired(entry.0) && CheckInOrder(entry.0, entry.1).None?
  }

  predicate OrdersValid(input: seq<(Passport, seq<string>)>) {
    forall i :: 0 <= i < |input| ==> EntryOrder(input[i].0, input[i].1)
  }

  /** Part 2, given each passport with its entry order: the count of
      passports accepted, or `None` when one of them panics. */
  function Part2(input: seq<(Passport, seq<string>)>): (r: Option<nat>)
    requires OrdersValid(input)
    ensures r.None? <==> exists i :: 0 <= i < |input| && PanicsPart2(input[i])
    ensures r.Some? ==> r.value == |set i | 0 <= i < |input| && AcceptedPart2(input[i])|
  {
    if exists i :: 0 <= i < |input| && PanicsPart2(input[i]) then None
    else
      var accepted := (e: (Passport, seq<string>)) =>
        EntryOrder(e.0, e.1) && AcceptedPart2(e);
      CountWhereCard(input, accepted, set i | 0 <= i < |input| && AcceptedPart2(input[i]));
      Some(CountWhere(input, accepted))
  }

  /** Sample values for the birth-year check, at and just past its upper
      bound. */
  lemma YearExamples()
    ensures CheckField("byr", "2002") == Some(true) && CheckField("byr", "2003") == Some(false)
  {
    DigitsValueAppend(['2'], '0');
    assert ['2'] + ['0'] == ['2', '0'];
    DigitsValueAppend(['2', '0'], '0');
    assert ['2', '0'] + ['0'] == ['2', '0', '0'];
    DigitsValueAppend(['2', '0', '0'], '2');
    assert ['2', '0', '0'] + ['2'] == "2002";
    DigitsValueAppend(['2', '0', '0'], '3');
    assert ['2', '0', '0'] + ['3'] == "2003";
  }

  /** A year that is not a number and a key the source does not know make it
      panic. */
  lemma PanicExamples()
    ensures CheckField("byr", "19x0").None? && CheckField("eye", "1").None?
  {
    assert "19x0" == ['1', '9', 'x', '0'];
  }

  lemma HeightExamples()
    ensures CheckField("hgt", "60in") == Some(true) && CheckField("hgt", "190cm") == Some(true)
  {
    DigitsValueAppend(['6'], '0');
    assert "60in"[..2] == ['6'] + ['0'] && "60in"[2..] == "in";
    DigitsValueAppend(['1'], '9');
    DigitsValueAppend(['1', '9'], '0');
    assert ['1'] + ['9'] == ['1', '9'];
    assert "190cm"[..3] == ['1', '9'] + ['0'] && "190cm"[3..] == "cm";
  }

  lemma HeightCounterExamples()
    ensures CheckField("hgt", "190in") == Some(false) && CheckField("hgt", "190") == Some(false)
  {
    DigitsValueAppend(['1'], '9');
    DigitsValueAppend(['1', '9'], '0');
    assert ['1'] + ['9'] == ['1', '9'];
    assert "190in"[..3] == ['1', '9'] + ['0'] && "190in"[3..] == "in";
    assert "190"[1..] == ['9', '0'];
  }


  /** Sample values for the colour and id checks; the hair colour pattern
      takes any word character, not only hexadecimal digits. */
  lemma ColorAndIdExamples()
    ensures CheckField("hcl", "#123abc") == Some(true) && CheckField("hcl", "#123abz") == Some(true)
    ensures CheckField("hcl", "123abc") == Some(false)
    ensures CheckField("ecl", "brn") == Some(true) && CheckField("ecl", "wat") == Some(false)
    ensures CheckField("pid", "000000001") == Some(true) && CheckField("pid", "0123456789") == Some(false)
  {
    assert "#123abc" == ['#', '1', '2', '3', 'a', 'b', 'c'];
    assert "#123abz" == ['#', '1', '2', '3', 'a', 'b', 'z'];
    assert "000000001" == ['0', '0', '0', '0', '0', '0', '0', '0', '1'];
  }
}
