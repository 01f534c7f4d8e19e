// Day 14: Docking Data. Part 1 masks each stored value with a 36-bit mask;
// part 2 masks the address instead and writes to every address the
// mask's floating bits ('X') can stand for.
module Day14 {
  import opened Common

  // ---------------------------------------------------------------------
  // Bits of natural numbers

  lemma {:induction false} BitZero(i: nat)
    ensures !Bit(0, i)
  {
    if i > 0 {
      BitZero(i - 1);
    }
  }

  /** Bitwise or (`|`) on naturals. */
  function Or(a: nat, b: nat): nat
    decreases a + b
  {
    if a == 0 && b == 0 then 0
    else 2 * Or(a / 2, b / 2) + (if a % 2 == 1 || b % 2 == 1 then 1 else 0)
  }

  /** Bitwise and (`&`) on naturals. */
  function And(a: nat, b: nat): nat
    decreases a + b
  {
    if a == 0 || b == 0 then 0
    else 2 * And(a / 2, b / 2) + (if a % 2 == 1 && b % 2 == 1 then 1 else 0)
  }

  /** Halving 2x + d, for a digit d, gives x back and leaves d. */
  lemma Halves(x: nat, d: nat)
    requires d < 2
    ensures (2 * x + d) / 2 == x && (2 * x + d) % 2 == d
  {
  }

  lemma {:induction false} OrBits(a: nat, b: nat, i: nat)
    ensures Bit(Or(a, b), i) == (Bit(a, i) || Bit(b, i))
    decreases i
  {
    if a == 0 && b == 0 {
      BitZero(i);
    } else {
      var d := if a % 2 == 1 || b % 2 == 1 then 1 else 0;
      assert Or(a, b) == 2 * Or(a / 2, b / 2) + d;
      Halves(Or(a / 2, b / 2), d);
      if i > 0 {
        OrBits(a / 2, b / 2, i - 1);
      }
    }
  }


  lemma {:induction false} AndBits(a: nat, b: nat, i: nat)
    ensures Bit(And(a, b), i) == (Bit(a, i) && Bit(b, i))
    decreases i
  {
    if a == 0 || b == 0 {
      BitZero(i);
    } else {
      var d := if a % 2 == 1 && b % 2 == 1 then 1 else 0;
      assert And(a, b) == 2 * And(a / 2, b / 2) + d;
      Halves(And(a / 2, b / 2), d);
      if i > 0 {
        AndBits(a / 2, b / 2, i - 1);
      }
    }
  }


  /** A natural number is determined by its bits. */
  lemma {:induction false} BitsDetermine(a: nat, b: nat)
    requires forall i: nat :: Bit(a, i) == Bit(b, i)
    ensures a == b
    decreases a + b
  {
    if a != 0 || b != 0 {
      forall i: nat
        ensures Bit(a / 2, i) == Bit(b / 2, i)
      {
        assert Bit(a, i + 1) == Bit(b, i + 1);
      }
      BitsDetermine(a / 2, b / 2);
      assert Bit(a, 0) == Bit(b, 0);
    }
  }

  /** 2^k - 1 has exactly the bits below k. */
  lemma {:induction false} OnesBits(k: nat, i: nat)
    ensures Bit(Pow2(k) - 1, i) <==> i < k
  {
    if k == 0 {
      BitZero(i);
    } else if i > 0 {
      assert (Pow2(k) - 1) / 2 == Pow2(k - 1) - 1;
      OnesBits(k - 1, i - 1);
    }
  }

  /** A number below 2^k has no bit at k or above. */
  lemma {:induction false} BitsBelow(a: nat, k: nat, i: nat)
    requires a < Pow2(k) && k <= i
    ensures !Bit(a, i)
  {
    if k == 0 {
      BitZero(i);
    } else {
      BitsBelow(a / 2, k - 1, i - 1);
    }
  }

  /** A number without bits at k or above is below 2^k. */
  lemma {:induction false} BitsBound(a: nat, k: nat)
    requires forall i: nat :: k <= i ==> !Bit(a, i)
    ensures a < Pow2(k)
  {
    if k == 0 {
      forall i: nat
        ensures Bit(a, i) == Bit(0, i)
      {
        BitZero(i);
      }
      BitsDetermine(a, 0);
    } else {
      forall i: nat | k - 1 <= i
        ensures !Bit(a / 2, i)
      {
        assert !Bit(a, i + 1);
      }
      BitsBound(a / 2, k - 1);
    }
  }

  // ---------------------------------------------------------------------
  // Strings of binary digits, most significant digit first

  predicate IsBinaryDigit(c: char) { c == '0' || c == '1' }

  predicate AllBinary(s: string) {
    forall i :: 0 <= i < |s| ==> IsBinaryDigit(s[i])
  }

  function BinValue(s: string): (v: nat)
    requires AllBinary(s)
    ensures v < Pow2(|s|)
  {
    if s == [] then 0
    else 2 * BinValue(s[..|s| - 1]) + (if s[|s| - 1] == '1' then 1 else 0)
  }

  /** `from_str_radix(s, 2)`: an optional '+' and at least one binary digit. */
  function FromBinary(s: string): Option<nat> {
    var digits := if |s| > 0 && s[0] == '+' then s[1..] else s;
    if |digits| > 0 && AllBinary(digits) then Some(BinValue(digits)) else None
  }

  /** Bit i of a binary string's value is its i-th digit from the right. */
  lemma {:induction false} BinValueBits(s: string, i: nat)
    requires AllBinary(s)
    ensures Bit(BinValue(s), i) <==> i < |s| && s[|s| - 1 - i] == '1'
    decreases |s|
  {
    if s == [] {
      BitZero(i);
    } else {
      var p := s[..|s| - 1];
      assert BinValue(s) == 2 * BinValue(p) + (if s[|s| - 1] == '1' then 1 else 0);
      if i > 0 {
        assert BinValue(s) / 2 == BinValue(p);
        BinValueBits(p, i - 1);
        assert i - 1 < |p| ==> p[|p| - 1 - (i - 1)] == s[|s| - 1 - i];
      }
    }
  }

  /** `str::replace` of one character by another. */
  function Replace(s: string, from: char, to: char): (r: string)
    ensures |r| == |s|
    ensures forall i :: 0 <= i < |s| ==> r[i] == (if s[i] == from then to else s[i])
  {
    seq(|s|, i requires 0 <= i < |s| => if s[i] == from then to else s[i])
  }

  // ---------------------------------------------------------------------
  // Operations and the part-1 mask

  datatype Operation = SetMask(mask: string) | SetMem(address: nat, value: nat)

  datatype Mask = Mask(setBits: nat, unsetBits: nat)

  /** The 36-bit `keep` constant: 36 one bits. */
  const Keep: nat := 0xF_FFFF_FFFF

  lemma {:induction false} Pow2Add(a: nat, b: nat)
    ensures Pow2(a + b) == Pow2(a) * Pow2(b)
  {
    if a > 0 {
      Pow2Add(a - 1, b);
    }
  }

  lemma KeepIsOnes()
    ensures Keep == Pow2(36) - 1
  {
    assert Pow2(12) == 4096;
    Pow2Add(12, 12);
    Pow2Add(24, 12);
  }

  /** `to_mask`: X read as 0 gives `set`, X read as 1 (cut to 36 bits) gives `unset`;
      a string that is not binary after the replacement panics. */
  function ToMask(mask: string): (r: Option<Mask>)
    ensures r.Some? ==> r.value.unsetBits < Pow2(36)
  {
    match FromBinary(Replace(mask, 'X', '0'))
    case None => None
    case Some(setBits) =>
      match FromBinary(Replace(mask, 'X', '1'))
      case None => None
      case Some(unsetBits) =>
        KeptBelow(unsetBits);
        Some(Mask(setBits, And(unsetBits, Keep)))
  }

  /** Anding with `keep` leaves at most 36 bits. */
  lemma KeptBelow(x: nat)
    ensures And(x, Keep) < Pow2(36)
  {
    KeepIsOnes();
    forall i: nat | 36 <= i
      ensures !Bit(And(x, Keep), i)
    {
      AndBits(x, Keep, i);
      OnesBits(36, i);
    }
    BitsBound(And(x, Keep), 36);
  }

  /** The value a part-1 write stores: `(value | set) & unset`. */
  function Masked(value: nat, m: Mask): nat {
    And(Or(value, m.setBits), m.unsetBits)
  }

  predicate IsMaskChar(c: char) { c == '0' || c == '1' || c == 'X' }

  /** A mask as the puzzle writes it: only '0', '1' and 'X'. */
  predicate IsMaskText(s: string) {
    forall i :: 0 <= i < |s| ==> IsMaskChar(s[i])
  }

  /** `to_mask` succeeds exactly on a non-empty string of '0', '1' and 'X',
      after an optional leading '+'. */
  lemma ToMaskAccepts(mask: string)
    ensures ToMask(mask).Some? <==>
      var body := if |mask| > 0 && mask[0] == '+' then mask[1..] else mask;
      |body| > 0 && IsMaskText(body)
  {
    var body := if |mask| > 0 && mask[0] == '+' then mask[1..] else mask;
    var zeros := Replace(mask, 'X', '0');
    var digits := if |zeros| > 0 && zeros[0] == '+' then zeros[1..] else zeros;
    assert |digits| == |body|;
    assert forall i :: 0 <= i < |body| ==> digits[i] == (if body[i] == 'X' then '0' else body[i]);
    if |body| > 0 && IsMaskText(body) {
      var ones := Replace(mask, 'X', '1');
      var digits1 := if |ones| > 0 && ones[0] == '+' then ones[1..] else ones;
      assert forall i :: 0 <= i < |body| ==> digits1[i] == (if body[i] == 'X' then '1' else body[i]);
      assert AllBinary(digits1);
    } else if |body| > 0 {
      var i :| 0 <= i < |body| && !IsMaskChar(body[i]);
      assert !IsBinaryDigit(digits[i]);
    }
  }

  /** Bit i of a part-1 write: mask '1' forces 1, '0' forces 0, X keeps the
      value's bit, and nothing survives at or above bit 36. */
  /** A mask text's set and unset numbers are the mask read with X as 0, and with X as 1 cut to 36 bits. */
  lemma ToMaskParts(mask: string)
    requires |mask| > 0 && IsMaskText(mask)
    ensures AllBinary(Replace(mask, 'X', '0')) && AllBinary(Replace(mask, 'X', '1'))
    ensures ToMask(mask) ==
      Some(Mask(BinValue(Replace(mask, 'X', '0')), And(BinValue(Replace(mask, 'X', '1')), Keep)))
  {
    ZerosBits(mask, 0);
    OnesBitsOf(mask, 0);
    assert Replace(mask, 'X', '0')[0] != '+' && Replace(mask, 'X', '1')[0] != '+';
  }

  lemma MaskedBits(mask: string, value: nat, i: nat)
    requires |mask| > 0 && IsMaskText(mask)
    ensures ToMask(mask).Some?
    ensures Bit(Masked(value, ToMask(mask).value), i) <==>
      i < 36 && i < |mask| &&
      (mask[|mask| - 1 - i] == '1' || (mask[|mask| - 1 - i] == 'X' && Bit(value, i)))
  {
    var zeros := Replace(mask, 'X', '0');
    var ones := Replace(mask, 'X', '1');
    ToMaskParts(mask);
    ZerosBits(mask, i);
    OnesBitsOf(mask, i);
    MaskBit(value, BinValue(zeros), BinValue(ones), i);
    if i < |mask| {
      assert IsMaskChar(mask[|mask| - 1 - i]);
    }
  }

  /** Bit i of a masked value, in terms of the set number and the uncut unset number. */
  lemma MaskBit(value: nat, setBits: nat, ones: nat, i: nat)
    ensures Bit(Masked(value, Mask(setBits, And(ones, Keep))), i) <==>
      i < 36 && Bit(ones, i) && (Bit(value, i) || Bit(setBits, i))
  {
    KeepIsOnes();
    OnesBits(36, i);
    AndBits(ones, Keep, i);
    OrBits(value, setBits, i);
    AndBits(Or(value, setBits), And(ones, Keep), i);
  }


  // ---------------------------------------------------------------------
  // input_generator: each trimmed line is searched for the pattern
  // `(\[(?P<adress>\d+)\])? = (?P<value>.*)`

  /** The end of the run of decimal digits that starts at i. */
  function DigitsEnd(l: string, i: nat): (j: nat)
    requires i <= |l|
    ensures i <= j <= |l| && AllDigits(l[i..j]) && (j < |l| ==> !IsDigit(l[j]))
    decreases |l| - i
  {
    if i < |l| && IsDigit(l[i]) then
      var j := DigitsEnd(l, i + 1);
      assert l[i..j] == [l[i]] + l[i + 1..j];
      j
    else i
  }

  /** The named groups of a match: the address, when the optional group took part, and the value. */
  datatype Capture = Capture(address: Option<string>, value: string)

  /** " = " starts at position p. */
  predicate EqualsAt(l: string, p: nat) {
    p + 3 <= |l| && l[p..p + 3] == " = "
  }

  /** The pattern tried at position p. The optional group is tried first; `\d+`
      can only end at the end of the digit run, where ']' has to follow. */
  function MatchAt(l: string, p: nat): Option<Capture>
    requires p <= |l|
  {
    var j := if p < |l| && l[p] == '[' then DigitsEnd(l, p + 1) else p;
    if p < |l| && l[p] == '[' && p + 1 < j < |l| && l[j] == ']' && EqualsAt(l, j + 1) then
      Some(Capture(Some(l[p + 1..j]), l[j + 4..]))
    else if EqualsAt(l, p) then Some(Capture(None, l[p + 3..]))
    else None
  }

  /** `Regex::captures`: the match that starts leftmost, from position p on. */
  function Search(l: string, p: nat): Option<Capture>
    requires p <= |l|
    decreases |l| - p
  {
    match MatchAt(l, p)
    case Some(c) => Some(c)
    case None => if p == |l| then None else Search(l, p + 1)
  }

  /** Search returns the match at the first position where the pattern matches. */
  lemma {:induction false} SearchLeftmost(l: string, p: nat, q: nat)
    requires p <= q <= |l| && MatchAt(l, q).Some?
    requires forall k :: p <= k < q ==> MatchAt(l, k).None?
    ensures Search(l, p) == MatchAt(l, q)
    decreases q - p
  {
    if p < q {
      SearchLeftmost(l, p + 1, q);
    }
  }

  /** Search fails exactly when the pattern matches at no position from p on. */
  lemma {:induction false} SearchFails(l: string, p: nat)
    requires p <= |l|
    ensures Search(l, p).None? <==> forall k :: p <= k <= |l| ==> MatchAt(l, k).None?
    decreases |l| - p
  {
    if p < |l| {
      SearchFails(l, p + 1);
    }
  }

  /** One trimmed line; None where the source panics (no match, or an address
      or value that does not parse). */
  function ParseOperation(l: string): Option<Operation> {
    match Search(l, 0)
    case None => None
    case Some(Capture(None, value)) => Some(SetMask(value))
    case Some(Capture(Some(address), value)) =>
      (match (ParseNat(address), ParseNat(value))
       case (Some(a), Some(v)) => Some(SetMem(a, v))
       case _ => None)
  }

  function ParseAll(lines: seq<string>): (r: Option<seq<Operation>>)
    ensures r.Some? ==> |r.value| == |lines|
    ensures r.Some? ==> forall k :: 0 <= k < |lines| ==> ParseOperation(Trim(lines[k])) == Some(r.value[k])
    ensures r.None? ==> exists k :: 0 <= k < |lines| && ParseOperation(Trim(lines[k])).None?
  {
    if lines == [] then Some([])
    else match (ParseOperation(Trim(lines[0])), ParseAll(lines[1..]))
      case (Some(op), Some(rest)) => Some([op] + rest)
      case _ => None
  }

  /** `input_generator`: one operation per line. */
  function InputGenerator(input: string): (r: Option<seq<Operation>>)
    ensures r.Some? ==> (|r.value| == |Lines(input)|
      && forall k :: 0 <= k < |r.value| ==> ParseOperation(Trim(Lines(input)[k])) == Some(r.value[k]))
    ensures r.None? ==> exists k :: 0 <= k < |Lines(input)| && ParseOperation(Trim(Lines(input)[k])).None?
  {
    ParseAll(Lines(input))
  }

  /** A mask line is read back when the mask is non-empty mask text. */
  predicate Printable(op: Operation) {
    match op
    case SetMask(m) => |m| > 0 && IsMaskText(m)
    case SetMem(_, _) => true
  }

  /** An operation written as in the puzzle input. */
  function OperationText(op: Operation): string {
    match op
    case SetMask(m) => "mask = " + m
    case SetMem(a, v) => "mem[" + NatToString(a) + "] = " + NatToString(v)
  }

  lemma ParseMaskText(m: string)
    requires |m| > 0 && IsMaskText(m)
    ensures ParseOperation(OperationText(SetMask(m))) == Some(SetMask(m))
  {
    var l := OperationText(SetMask(m));
    assert l[..7] == "mask = " && l[7..] == m;
    assert l[4..7] == " = ";
    assert MatchAt(l, 4) == Some(Capture(None, m));
    forall k | 0 <= k < 4
      ensures MatchAt(l, k).None?
    {
      assert l[k] != '[' && l[k] != ' ';
    }
    SearchLeftmost(l, 0, 4);
  }

  lemma ParseMemText(a: nat, v: nat)
    ensures ParseOperation(OperationText(SetMem(a, v))) == Some(SetMem(a, v))
  {
    var l := OperationText(SetMem(a, v));
    MemMatch(l, NatToString(a), NatToString(v));
    SearchLeftmost(l, 0, 3);
    ParseNatToString(a);
    ParseNatToString(v);
  }

  /** In `mem[<digits>] = <tail>` the pattern first matches at the '['. */
  lemma MemMatch(l: string, digits: string, tail: string)
    requires l == "mem[" + digits + "] = " + tail && |digits| > 0 && AllDigits(digits)
    ensures MatchAt(l, 3) == Some(Capture(Some(digits), tail))
    ensures forall k :: 0 <= k < 3 ==> MatchAt(l, k).None?
  {
    var j := 4 + |digits|;
    assert l[4..j] == digits;
    assert l[j] == ']' && l[j + 4..] == tail;
    DigitsRun(l, 4, j);
    assert l[j + 1..j + 4] == " = ";
    forall k | 0 <= k < 3
      ensures MatchAt(l, k).None?
    {
      assert l[k] != '[';
      assert l[k] != ' ';
      assert !EqualsAt(l, k);
    }
  }


  /** A run of digits from i to j, followed by a non-digit, is where DigitsEnd stops. */
  lemma {:induction false} DigitsRun(l: string, i: nat, j: nat)
    requires i <= j < |l| && AllDigits(l[i..j]) && !IsDigit(l[j])
    ensures DigitsEnd(l, i) == j
    decreases j - i
  {
    if i < j {
      assert l[i..j][0] == l[i];
      assert l[i + 1..j] == l[i..j][1..];
      DigitsRun(l, i + 1, j);
    }
  }

  /** Printed operations are parsed back. */
  lemma ParseOperationText(op: Operation)
    requires Printable(op)
    ensures ParseOperation(OperationText(op)) == Some(op)
  {
    match op
    case SetMask(m) => ParseMaskText(m);
    case SetMem(a, v) => ParseMemText(a, v);
  }

  function OperationLines(ops: seq<Operation>): (lines: seq<string>)
    ensures |lines| == |ops|
    ensures forall k :: 0 <= k < |ops| ==> lines[k] == OperationText(ops[k])
  {
    if ops == [] then [] else [OperationText(ops[0])] + OperationLines(ops[1..])
  }

  /** A printed operation line has no surrounding whitespace ... */
  lemma TextTrimmed(op: Operation)
    requires Printable(op)
    ensures Trim(OperationText(op)) == OperationText(op)
  {
    var l := OperationText(op);
    match op
    case SetMask(m) =>
      assert l[|l| - 1] == m[|m| - 1];
    case SetMem(a, v) =>
      var tail := NatToString(v);
      assert l == "mem[" + NatToString(a) + "] = " + tail;
      assert l[|l| - 1] == tail[|tail| - 1];
    TrimNoop(l);
  }

  /** ... and no line break or '\r'. */
  lemma TextChar(op: Operation, c: nat)
    requires Printable(op) && c < |OperationText(op)|
    ensures OperationText(op)[c] != '\n' && OperationText(op)[c] != '\r'
  {
    var l := OperationText(op);
    match op
    case SetMask(m) =>
      if c >= 7 {
        assert l[c] == m[c - 7];
      }
    case SetMem(a, v) =>
      var digits := NatToString(a);
      var tail := NatToString(v);
      assert l == "mem[" + digits + "] = " + tail;
      if 4 <= c < 4 + |digits| {
        assert l[c] == digits[c - 4];
      } else if c >= 8 + |digits| {
        assert l[c] == tail[c - 8 - |digits|];
      }
  }

  lemma ParseAllCons(lines: seq<string>, op: Operation, rest: seq<Operation>)
    requires lines != [] && ParseOperation(Trim(lines[0])) == Some(op) && ParseAll(lines[1..]) == Some(rest)
    ensures ParseAll(lines) == Some([op] + rest)
  {
  }

  lemma {:induction false} ParseAllLines(ops: seq<Operation>)
    requires forall k :: 0 <= k < |ops| ==> Printable(ops[k])
    ensures ParseAll(OperationLines(ops)) == Some(ops)
  {
    if ops != [] {
      assert ops == [ops[0]] + ops[1..];
      var lines := OperationLines(ops);
      assert lines[0] == OperationText(ops[0]) && lines[1..] == OperationLines(ops[1..]);
      TextTrimmed(ops[0]);
      ParseOperationText(ops[0]);
      ParseAllLines(ops[1..]);
      ParseAllCons(lines, ops[0], ops[1..]);
    }
  }

  /** A program printed one operation per line is read back. */
  lemma GeneratorRoundTrip(ops: seq<Operation>)
    requires ops != [] && forall k :: 0 <= k < |ops| ==> Printable(ops[k])
    ensures InputGenerator(Join(OperationLines(ops), '\n')) == Some(ops)
  {
    var lines := OperationLines(ops);
    forall k, c | 0 <= k < |lines| && 0 <= c < |lines[k]|
      ensures lines[k][c] != '\n' && lines[k][c] != '\r'
    {
      TextChar(ops[k], c);
    }
    assert lines[|lines| - 1] != [] by {
      assert OperationText(ops[|ops| - 1])[0] == 'm';
    }
    LinesOfJoin(lines);
    ParseAllLines(ops);
  }

  // ---------------------------------------------------------------------
  // Memory and its sum

  /** The sum of all stored values (`stack.values().sum()`). */
  ghost function Total(mem: map<nat, nat>): nat
    decreases mem.Keys
  {
    if mem == map[] then 0
    else
      var k :| k in mem;
      mem[k] + Total(mem - {k})
  }

  /** Total can take out any one address first. */
  lemma {:induction false} TotalRemove(mem: map<nat, nat>, k: nat)
    requires k in mem
    ensures Total(mem) == mem[k] + Total(mem - {k})
    decreases mem.Keys
  {
    var j :| j in mem && Total(mem) == mem[j] + Total(mem - {j});
    if j != k {
      TotalRemove(mem - {j}, k);
      TotalRemove(mem - {k}, j);
      assert mem - {j} - {k} == mem - {k} - {j};
    }
  }

  /** Overwriting an address changes the total by the new value minus the old one. */
  lemma TotalUpdate(mem: map<nat, nat>, a: nat, x: nat)
    ensures Total(mem[a := x]) + (if a in mem then mem[a] else 0) == Total(mem) + x
  {
    TotalRemove(mem[a := x], a);
    assert mem[a := x] - {a} == mem - {a};
    if a in mem {
      TotalRemove(mem, a);
    } else {
      assert mem - {a} == mem;
    }
  }

  /** Sums the stored values, taking the addresses in any order. */
  method SumValues(mem: map<nat, nat>) returns (s: nat)
    ensures s == Total(mem)
  {
    s := 0;
    var rest := mem;
    while rest != map[]
      invariant s + Total(rest) == Total(mem)
      decreases rest.Keys
    {
      var k :| k in rest;
      TotalRemove(rest, k);
      s := s + rest[k];
      rest := rest - {k};
    }
  }

  // ---------------------------------------------------------------------
  // Part 1

  datatype Machine1 = Machine1(mask: Mask, mem: map<nat, nat>)

  /** `day14_part1` starts with set = 0, unset = 0 and an empty memory. */
  const Start1 := Machine1(Mask(0, 0), map[])

  function Exec1(st: Machine1, op: Operation): Option<Machine1> {
    match op
    case SetMask(s) =>
      (match ToMask(s)
       case None => None
       case Some(m) => Some(st.(mask := m)))
    case SetMem(a, v) => Some(st.(mem := st.mem[a := Masked(v, st.mask)]))
  }

  function Run1(st: Machine1, ops: seq<Operation>): Option<Machine1>
    decreases |ops|
  {
    if ops == [] then Some(st)
    else
      match Exec1(st, ops[0])
      case None => None
      case Some(next) => Run1(next, ops[1..])
  }

  /** Running two programs one after the other is running their concatenation. */
  lemma {:induction false} Run1Concat(st: Machine1, a: seq<Operation>, b: seq<Operation>)
    ensures Run1(st, a + b) ==
      match Run1(st, a)
      case None => None
      case Some(mid) => Run1(mid, b)
    decreases |a|
  {
    if a == [] {
      assert a + b == b;
    } else {
      assert (a + b)[0] == a[0];
      assert (a + b)[1..] == a[1..] + b;
      match Exec1(st, a[0])
      case None =>
      case Some(next) => Run1Concat(next, a[1..], b);
    }
  }

  /** A write before any mask stores 0; a later write to the same address replaces it. */
  lemma Run1Writes(a: nat, v: nat, w: nat)
    ensures Run1(Start1, [SetMem(a, v)]) == Some(Machine1(Mask(0, 0), map[a := 0]))
    ensures Run1(Start1, [SetMem(a, v), SetMem(a, w)]) == Some(Machine1(Mask(0, 0), map[a := 0]))
  {
    var once := Machine1(Mask(0, 0), map[a := 0]);
    assert Exec1(Start1, SetMem(a, v)) == Some(once);
    assert Masked(w, Mask(0, 0)) == 0;
    assert once.mem[a := 0] == once.mem;
    assert Exec1(once, SetMem(a, w)) == Some(once);
    assert [SetMem(a, w)][1..] == [];
    assert Run1(once, [SetMem(a, w)]) == Some(once);
    assert [SetMem(a, v), SetMem(a, w)][1..] == [SetMem(a, w)];
  }

  method Part1(input: seq<Operation>) returns (r: Option<nat>)
    ensures r == match Run1(Start1, input)
                 case None => None
                 case Some(st) => Some(Total(st.mem))
  {
    var mask := Mask(0, 0);
    var stack: map<nat, nat> := map[];
    var i := 0;
    while i < |input|
      invariant 0 <= i <= |input|
      invariant Run1(Start1, input) == Run1(Machine1(mask, stack), input[i..])
    {
      assert input[i..][0] == input[i];
      assert input[i..][1..] == input[i + 1..];
      match input[i] {
        case SetMask(s) =>
          var m := ToMask(s);
          if m.None? {
            return None;
          }
          mask := m.value;
        case SetMem(a, v) =>
          stack := stack[a := Masked(v, mask)];
      }
      i := i + 1;
    }
    var total := SumValues(stack);
    r := Some(total);
  }
  // ---------------------------------------------------------------------
  // Binary formatting

  /** The binary digits of n without leading zeros ("0" for zero), as `{:b}` prints them. */
  function ToBinary(n: nat): string {
    if n < 2 then [if n == 1 then '1' else '0']
    else ToBinary(n / 2) + [if n % 2 == 1 then '1' else '0']
  }

  /** Reading the printed digits back gives n. */
  lemma {:induction false} ToBinaryValue(n: nat)
    ensures |ToBinary(n)| > 0 && AllBinary(ToBinary(n))
    ensures BinValue(ToBinary(n)) == n
  {
    if n >= 2 {
      ToBinaryValue(n / 2);
      var t := ToBinary(n);
      assert t[..|t| - 1] == ToBinary(n / 2);
    }
  }

  lemma {:induction false} ToBinaryLength(n: nat, k: nat)
    requires 0 < k && n < Pow2(k)
    ensures |ToBinary(n)| <= k
  {
    if n >= 2 {
      ToBinaryLength(n / 2, k - 1);
    }
  }

  function Repeat(c: char, n: nat): (s: string)
    ensures |s| == n && forall i :: 0 <= i < n ==> s[i] == c
  {
    seq(n, i => c)
  }

  lemma DoubleMul(x: nat, p: nat)
    ensures x * (2 * p) == 2 * (x * p)
  {
  }

  lemma {:induction false} BinValueAppend(a: string, b: string)
    requires AllBinary(a) && AllBinary(b)
    ensures AllBinary(a + b)
    ensures BinValue(a + b) == BinValue(a) * Pow2(|b|) + BinValue(b)
    decreases |b|
  {
    if b == [] {
      assert a + b == a;
    } else {
      var b' := b[..|b| - 1];
      var d := if b[|b| - 1] == '1' then 1 else 0;
      assert (a + b)[..|a + b| - 1] == a + b';
      assert (a + b)[|a + b| - 1] == b[|b| - 1];
      BinValueAppend(a, b');
      var x := BinValue(a);
      var p := Pow2(|b'|);
      assert BinValue(a + b) == 2 * BinValue(a + b') + d;
      assert BinValue(b) == 2 * BinValue(b') + d;
      assert Pow2(|b|) == 2 * p;
      DoubleMul(x, p);
    }
  }

  lemma {:induction false} BinValueZeros(n: nat)
    ensures AllBinary(Repeat('0', n)) && BinValue(Repeat('0', n)) == 0
  {
    if n > 0 {
      assert Repeat('0', n)[..n - 1] == Repeat('0', n - 1);
      BinValueZeros(n - 1);
    }
  }

  /** `format!("{:036b}", n)`: the binary digits, padded with zeros to at least 36. */
  function Format36(n: nat): string {
    var digits := ToBinary(n);
    if |digits| < 36 then Repeat('0', 36 - |digits|) + digits else digits
  }

  /** Format36 prints n in binary: reading it back gives n, and below 2^36 it is exactly 36 digits long. */
  lemma Format36Value(n: nat)
    ensures AllBinary(Format36(n)) && BinValue(Format36(n)) == n
    ensures |Format36(n)| >= 36
    ensures n < Pow2(36) ==> |Format36(n)| == 36
  {
    Format36Digits(n);
    Format36Length(n);
  }

  lemma Format36Digits(n: nat)
    ensures AllBinary(Format36(n)) && BinValue(Format36(n)) == n
  {
    var digits := ToBinary(n);
    ToBinaryValue(n);
    if |digits| < 36 {
      PaddedValue(36 - |digits|, digits);
      assert Format36(n) == Repeat('0', 36 - |digits|) + digits;
    } else {
      assert Format36(n) == digits;
    }
  }

  lemma Format36Length(n: nat)
    ensures |Format36(n)| >= 36
    ensures n < Pow2(36) ==> |Format36(n)| == 36
  {
    if n < Pow2(36) {
      ToBinaryLength(n, 36);
    }
  }


  /** Leading zeros do not change a binary value. */
  lemma PaddedValue(k: nat, digits: string)
    requires AllBinary(digits)
    ensures AllBinary(Repeat('0', k) + digits) && BinValue(Repeat('0', k) + digits) == BinValue(digits)
  {
    BinValueZeros(k);
    BinValueAppend(Repeat('0', k), digits);
    var p := Pow2(|digits|);
    assert 0 * p == 0;
  }

  // ---------------------------------------------------------------------
  // replace_x

  /** Positions of 'X' in the mask, in increasing order (`match_indices('X')`). */
  function XIndices(mask: string): (r: seq<nat>)
    ensures forall k :: 0 <= k < |r| ==> r[k] < |mask| && mask[r[k]] == 'X'
    ensures forall j :: 0 <= j < |mask| && mask[j] == 'X' ==> j in r
    ensures forall k, l :: 0 <= k < l < |r| ==> r[k] < r[l]
  {
    XIndicesFromFacts(mask, 0);
    XIndicesFrom(mask, 0)
  }

  /** Positions of 'X' at or after k. */
  function XIndicesFrom(mask: string, k: nat): seq<nat>
    requires k <= |mask|
    decreases |mask| - k
  {
    if k == |mask| then []
    else (if mask[k] == 'X' then [k] else []) + XIndicesFrom(mask, k + 1)
  }

  lemma XIndicesFromFacts(mask: string, k: nat)
    requires k <= |mask|
    ensures forall m :: 0 <= m < |XIndicesFrom(mask, k)| ==>
      k <= XIndicesFrom(mask, k)[m] < |mask| && mask[XIndicesFrom(mask, k)[m]] == 'X'
    ensures forall j :: k <= j < |mask| && mask[j] == 'X' ==> j in XIndicesFrom(mask, k)
    ensures forall m, l :: 0 <= m < l < |XIndicesFrom(mask, k)| ==>
      XIndicesFrom(mask, k)[m] < XIndicesFrom(mask, k)[l]
  {
    XIndicesFromMembers(mask, k);
    XIndicesFromComplete(mask, k);
    XIndicesFromSorted(mask, k);
  }

  /** Every collected index is an X position from k on ... */
  lemma {:induction false} XIndicesFromMembers(mask: string, k: nat)
    requires k <= |mask|
    ensures forall m :: 0 <= m < |XIndicesFrom(mask, k)| ==>
      k <= XIndicesFrom(mask, k)[m] < |mask| && mask[XIndicesFrom(mask, k)[m]] == 'X'
    decreases |mask| - k
  {
    if k < |mask| {
      XIndicesFromMembers(mask, k + 1);
      var head: seq<nat> := if mask[k] == 'X' then [k] else [];
      var rest := XIndicesFrom(mask, k + 1);
      var r := head + rest;
      assert XIndicesFrom(mask, k) == r;
      forall m | 0 <= m < |r|
        ensures k <= r[m] < |mask| && mask[r[m]] == 'X'
      {
        if m >= |head| {
          assert r[m] == rest[m - |head|];
        }
      }
    }
  }

  /** ... every X position from k on is collected ... */
  lemma {:induction false} XIndicesFromComplete(mask: string, k: nat)
    requires k <= |mask|
    ensures forall j :: k <= j < |mask| && mask[j] == 'X' ==> j in XIndicesFrom(mask, k)
    decreases |mask| - k
  {
    if k < |mask| {
      XIndicesFromComplete(mask, k + 1);
      XIndicesFromStep(mask, k);
    }
  }

  /** ... and they come in increasing order. */
  lemma {:induction false} XIndicesFromSorted(mask: string, k: nat)
    requires k <= |mask|
    ensures forall m, l :: 0 <= m < l < |XIndicesFrom(mask, k)| ==>
      XIndicesFrom(mask, k)[m] < XIndicesFrom(mask, k)[l]
    decreases |mask| - k
  {
    if k < |mask| {
      XIndicesFromSorted(mask, k + 1);
      XIndicesFromMembers(mask, k + 1);
      var head: seq<nat> := if mask[k] == 'X' then [k] else [];
      var rest := XIndicesFrom(mask, k + 1);
      assert XIndicesFrom(mask, k) == head + rest;
      forall m, l | 0 <= m < l < |head + rest|
        ensures (head + rest)[m] < (head + rest)[l]
      {
        if m >= |head| {
          assert (head + rest)[m] == rest[m - |head|];
        }
        assert (head + rest)[l] == rest[l - |head|];
      }
    }
  }


  predicate InBounds(indices: seq<nat>, s: string) {
    forall k :: 0 <= k < |indices| ==> indices[k] < |s|
  }

  /** `replace_x`: every way of writing '1' or '0' at the given positions,
      the branch with '1' at the first position first. */
  function ReplaceX(indices: seq<nat>, s: string): (r: seq<string>)
    requires InBounds(indices, s)
    ensures |r| == Pow2(|indices|)
    ensures forall k :: 0 <= k < |r| ==> |r[k]| == |s|
    decreases |indices|
  {
    if indices == [] then [s]
    else
      var rest := indices[1..];
      ReplaceX(rest, s[indices[0] := '1']) + ReplaceX(rest, s[indices[0] := '0'])
  }

  /** t agrees with s away from the indices and has a binary digit at each of them. */
  predicate Fills(indices: seq<nat>, s: string, t: string) {
    |t| == |s| &&
    forall j :: 0 <= j < |s| ==> if j in indices then IsBinaryDigit(t[j]) else t[j] == s[j]
  }

  lemma {:induction false} ReplaceXMembers(indices: seq<nat>, s: string, t: string)
    requires InBounds(indices, s)
    ensures t in ReplaceX(indices, s) <==> Fills(indices, s, t)
    decreases |indices|
  {
    if indices == [] {
      if Fills(indices, s, t) {
        assert t == s;
      }
    } else {
      var i := indices[0];
      var rest := indices[1..];
      var s1 := s[i := '1'];
      var s0 := s[i := '0'];
      ReplaceXMembers(rest, s1, t);
      ReplaceXMembers(rest, s0, t);
      assert forall j :: j in indices <==> j == i || j in rest;
      if Fills(indices, s, t) {
        if t[i] == '1' {
          assert Fills(rest, s1, t);
        } else {
          assert Fills(rest, s0, t);
        }
      }
    }
  }

  /** The first half of `replace_x`'s output has '1' at the first position, the second half '0'. */
  lemma ReplaceXOrder(indices: seq<nat>, s: string)
    requires InBounds(indices, s) && |indices| > 0 && indices[0] !in indices[1..]
    ensures forall k :: 0 <= k < |ReplaceX(indices, s)| ==>
      ReplaceX(indices, s)[k][indices[0]] == if k < Pow2(|indices| - 1) then '1' else '0'
  {
    var i := indices[0];
    var rest := indices[1..];
    var one := ReplaceX(rest, s[i := '1']);
    var zero := ReplaceX(rest, s[i := '0']);
    assert ReplaceX(indices, s) == one + zero;
    forall k | 0 <= k < |one| + |zero|
      ensures (one + zero)[k][i] == if k < |one| then '1' else '0'
    {
      if k < |one| {
        ReplaceXMembers(rest, s[i := '1'], one[k]);
      } else {
        ReplaceXMembers(rest, s[i := '0'], zero[k - |one|]);
      }
    }
  }

  /** Every string `replace_x` makes from a binary string is binary and as long. */
  lemma ReplaceXBinary(indices: seq<nat>, s: string)
    requires InBounds(indices, s) && AllBinary(s)
    ensures forall t :: t in ReplaceX(indices, s) ==> |t| == |s| && AllBinary(t)
  {
    forall t | t in ReplaceX(indices, s)
      ensures |t| == |s| && AllBinary(t)
    {
      ReplaceXMembers(indices, s, t);
    }
  }

  // ---------------------------------------------------------------------
  // set_at_adress

  /** The values of binary strings (`from_str_radix(a, 2)`, which cannot fail on them). */
  function Values(strs: seq<string>): (r: seq<nat>)
    requires forall t :: t in strs ==> AllBinary(t)
    ensures |r| == |strs| && forall k :: 0 <= k < |strs| ==> r[k] == BinValue(strs[k])
  {
    seq(|strs|, k requires 0 <= k < |strs| => BinValue(strs[k]))
  }

  /** The address or-ed with the mask (X read as 0) and printed with `{:036b}`;
      None where the mask with X read as 0 is not a binary number. */
  function MaskedAddress(mask: string, address: nat): (r: Option<string>)
    ensures r.Some? ==> AllBinary(r.value) && |r.value| >= 36
  {
    match FromBinary(Replace(mask, 'X', '0'))
    case None => None
    case Some(setBits) =>
      Format36Value(Or(address, setBits));
      Some(Format36(Or(address, setBits)))
  }

  /** The addresses `set_at_adress` writes, in order; None where it panics
      (a mask that is not binary with X read as 0, or an X beyond the formatted address). */
  function Floating(mask: string, address: nat): (r: Option<seq<nat>>)
    ensures r.Some? ==> |r.value| == Pow2(|XIndices(mask)|)
  {
    match MaskedAddress(mask, address)
    case None => None
    case Some(s) =>
      var indices := XIndices(mask);
      if InBounds(indices, s) then
        ReplaceXBinary(indices, s);
        Some(Values(ReplaceX(indices, s)))
      else None
  }

  /** An address a part-2 write reaches: below 2^36, bit i forced to 1 where the
      mask has '1', equal to the written address's bit where it has '0', and free
      where it has 'X' (mask position 35 - i holds bit i). */
  predicate Reaches(mask: string, address: nat, b: nat)
    requires |mask| == 36
  {
    b < Pow2(36) &&
    forall i: nat :: i < 36 ==>
      (mask[35 - i] == '1' ==> Bit(b, i)) &&
      (mask[35 - i] == '0' ==> (Bit(b, i) <==> Bit(address, i)))
  }

  /** The mask read with X as 0 has bit i exactly where the mask has '1'. */
  lemma ZerosBits(mask: string, i: nat)
    requires IsMaskText(mask)
    ensures AllBinary(Replace(mask, 'X', '0'))
    ensures Bit(BinValue(Replace(mask, 'X', '0')), i) <==> i < |mask| && mask[|mask| - 1 - i] == '1'
  {
    BinValueBits(Replace(mask, 'X', '0'), i);
  }

  /** The mask read with X as 1 has bit i exactly where the mask has '1' or 'X'. */
  lemma OnesBitsOf(mask: string, i: nat)
    requires IsMaskText(mask)
    ensures AllBinary(Replace(mask, 'X', '1'))
    ensures Bit(BinValue(Replace(mask, 'X', '1')), i) <==> i < |mask| && mask[|mask| - 1 - i] != '0'
  {
    BinValueBits(Replace(mask, 'X', '1'), i);
  }

  /** The mask read with X as 0. */
  function ZerosOf(mask: string): nat
    requires IsMaskText(mask)
  {
    ZerosBits(mask, 0);
    BinValue(Replace(mask, 'X', '0'))
  }

  /** A non-empty mask text reads as binary, so the printed address is the
      address or-ed with the mask read with X as 0. */
  lemma MaskedAddressOf(mask: string, address: nat)
    requires |mask| > 0 && IsMaskText(mask)
    ensures MaskedAddress(mask, address) == Some(Format36(Or(address, ZerosOf(mask))))
  {
    var zeros := Replace(mask, 'X', '0');
    ZerosBits(mask, 0);
    assert zeros[0] != '+';
    assert FromBinary(zeros) == Some(BinValue(zeros));
  }

  /** Or-ing a 36-character mask into an address below 2^36 stays below 2^36. */
  lemma MaskedBelow(mask: string, address: nat)
    requires |mask| == 36 && IsMaskText(mask) && address < Pow2(36)
    ensures Or(address, ZerosOf(mask)) < Pow2(36)
  {
    var a := Or(address, ZerosOf(mask));
    forall i: nat | 36 <= i
      ensures !Bit(a, i)
    {
      OrBits(address, ZerosOf(mask), i);
      BitsBelow(address, 36, i);
      ZerosBits(mask, i);
    }
    BitsBound(a, 36);
  }

  /** For a 36-character mask and an address below 2^36 the printed address is
      36 digits, with a '1' where the address or the mask has one. */
  lemma MaskedAddressBits(mask: string, address: nat)
    requires |mask| == 36 && IsMaskText(mask) && address < Pow2(36)
    ensures MaskedAddress(mask, address).Some?
    ensures |MaskedAddress(mask, address).value| == 36
    ensures forall i: nat :: i < 36 ==>
      (MaskedAddress(mask, address).value[35 - i] == '1' <==> Bit(address, i) || mask[35 - i] == '1')
  {
    var a := Or(address, ZerosOf(mask));
    MaskedAddressOf(mask, address);
    MaskedBelow(mask, address);
    Format36Value(a);
    forall i: nat | i < 36
      ensures Format36(a)[35 - i] == '1' <==> Bit(address, i) || mask[35 - i] == '1'
    {
      MaskedDigit(mask, address, i);
    }
  }

  /** Digit i from the right of the printed address, for a 36-character mask. */
  lemma MaskedDigit(mask: string, address: nat, i: nat)
    requires |mask| == 36 && IsMaskText(mask) && i < 36
    requires |Format36(Or(address, ZerosOf(mask)))| == 36
    ensures Format36(Or(address, ZerosOf(mask)))[35 - i] == '1' <==> Bit(address, i) || mask[35 - i] == '1'
  {
    var s := Format36(Or(address, ZerosOf(mask)));
    Format36Value(Or(address, ZerosOf(mask)));
    BinValueBits(s, i);
    OrBits(address, ZerosOf(mask), i);
    ZerosBits(mask, i);
  }

  /** Every string `replace_x` makes from the printed address is the text of a reached address. */
  lemma FilledReaches(mask: string, address: nat, s: string, t: string)
    requires |mask| == 36 && IsMaskText(mask) && |s| == 36 && AllBinary(s)
    requires forall i: nat :: i < 36 ==> (s[35 - i] == '1' <==> Bit(address, i) || mask[35 - i] == '1')
    requires Fills(XIndices(mask), s, t) && AllBinary(t)
    ensures Reaches(mask, address, BinValue(t))
  {
    var indices := XIndices(mask);
    assert |t| == 36;
    forall i: nat | i < 36
      ensures mask[35 - i] == '1' ==> Bit(BinValue(t), i)
      ensures mask[35 - i] == '0' ==> (Bit(BinValue(t), i) <==> Bit(address, i))
    {
      var j := 35 - i;
      BinValueBits(t, i);
      assert Bit(BinValue(t), i) <==> t[j] == '1';
      assert s[j] == '1' <==> Bit(address, i) || mask[j] == '1';
      if mask[j] != 'X' {
        assert j !in indices;
        assert t[j] == s[j];
      }
    }
  }

  /** The text of every reached address is one of the strings `replace_x` makes. */
  lemma ReachedFills(mask: string, address: nat, s: string, b: nat)
    requires |mask| == 36 && IsMaskText(mask) && |s| == 36 && AllBinary(s)
    requires forall i: nat :: i < 36 ==> (s[35 - i] == '1' <==> Bit(address, i) || mask[35 - i] == '1')
    requires Reaches(mask, address, b)
    ensures Fills(XIndices(mask), s, Format36(b))
  {
    Format36Value(b);
    var t := Format36(b);
    var indices := XIndices(mask);
    forall j | 0 <= j < 36 && j !in indices
      ensures t[j] == s[j]
    {
      assert mask[j] != 'X';
      BinValueBits(t, 35 - j);
    }
  }

  /** For a 36-character mask `set_at_adress` does not panic, and writes the values of `replace_x`'s strings. */
  lemma FloatingStrings(mask: string, address: nat)
    requires |mask| == 36 && IsMaskText(mask) && address < Pow2(36)
    ensures MaskedAddress(mask, address).Some?
    ensures InBounds(XIndices(mask), MaskedAddress(mask, address).value)
    ensures forall t :: t in ReplaceX(XIndices(mask), MaskedAddress(mask, address).value) ==> AllBinary(t)
    ensures Floating(mask, address) == Some(Values(ReplaceX(XIndices(mask), MaskedAddress(mask, address).value)))
  {
    MaskedAddressBits(mask, address);
    var s := MaskedAddress(mask, address).value;
    var indices := XIndices(mask);
    assert InBounds(indices, s);
    ReplaceXBinary(indices, s);
  }

  lemma WrittenReached(mask: string, address: nat, b: nat)
    requires |mask| == 36 && IsMaskText(mask) && address < Pow2(36)
    requires Floating(mask, address).Some? && b in Floating(mask, address).value
    ensures Reaches(mask, address, b)
  {
    MaskedAddressBits(mask, address);
    FloatingStrings(mask, address);
    var s := MaskedAddress(mask, address).value;
    var strs := ReplaceX(XIndices(mask), s);
    var values := Floating(mask, address).value;
    var k :| 0 <= k < |strs| && values[k] == b;
    ReplaceXMembers(XIndices(mask), s, strs[k]);
    FilledReaches(mask, address, s, strs[k]);
  }

  lemma ReachedWritten(mask: string, address: nat, b: nat)
    requires |mask| == 36 && IsMaskText(mask) && address < Pow2(36)
    requires Reaches(mask, address, b)
    ensures Floating(mask, address).Some? && b in Floating(mask, address).value
  {
    MaskedAddressBits(mask, address);
    FloatingStrings(mask, address);
    var s := MaskedAddress(mask, address).value;
    var strs := ReplaceX(XIndices(mask), s);
    var t := Format36(b);
    Format36Value(b);
    ReachedFills(mask, address, s, b);
    ReplaceXMembers(XIndices(mask), s, t);
    var k :| 0 <= k < |strs| && strs[k] == t;
    assert Floating(mask, address).value[k] == b;
  }

  /** `set_at_adress` writes to exactly the reached addresses. */
  lemma FloatingReaches(mask: string, address: nat, b: nat)
    requires |mask| == 36 && IsMaskText(mask) && address < Pow2(36)
    ensures Floating(mask, address).Some?
    ensures b in Floating(mask, address).value <==> Reaches(mask, address, b)
  {
    FloatingStrings(mask, address);
    if b in Floating(mask, address).value {
      WrittenReached(mask, address, b);
    }
    if Reaches(mask, address, b) {
      ReachedWritten(mask, address, b);
    }
  }

  /** The memory after writing value at every one of the addresses. */
  function WriteAll(mem: map<nat, nat>, addresses: seq<nat>, value: nat): map<nat, nat> {
    mem + map a | a in addresses :: value
  }

  lemma WriteAllStep(mem: map<nat, nat>, addresses: seq<nat>, k: nat, value: nat)
    requires k < |addresses|
    ensures WriteAll(mem, addresses[..k + 1], value) == WriteAll(mem, addresses[..k], value)[addresses[k] := value]
  {
    assert addresses[..k + 1] == addresses[..k] + [addresses[k]];
    var left := WriteAll(mem, addresses[..k + 1], value);
    var right := WriteAll(mem, addresses[..k], value)[addresses[k] := value];
    assert left.Keys == right.Keys;
    forall a | a in left.Keys
      ensures left[a] == right[a]
    {
    }
  }

  /** The insertion loop of `set_at_adress`: writes value at each address in turn. */
  method WriteEach(mem: map<nat, nat>, addresses: seq<nat>, value: nat) returns (stack: map<nat, nat>)
    ensures stack == WriteAll(mem, addresses, value)
  {
    stack := mem;
    for k := 0 to |addresses|
      invariant stack == WriteAll(mem, addresses[..k], value)
    {
      WriteAllStep(mem, addresses, k, value);
      stack := stack[addresses[k] := value];
    }
    assert addresses[..|addresses|] == addresses;
  }

  method SetAtAddress(mem: map<nat, nat>, mask: string, address: nat, value: nat)
    returns (r: Option<map<nat, nat>>)
    ensures r == match Floating(mask, address)
                 case None => None
                 case Some(addresses) => Some(WriteAll(mem, addresses, value))
  {
    var floating := Floating(mask, address);
    if floating.None? {
      return None;
    }
    var stack := WriteEach(mem, floating.value, value);
    r := Some(stack);
  }

  // ---------------------------------------------------------------------
  // Part 2

  datatype Machine2 = Machine2(mask: string, mem: map<nat, nat>)

  /** `day14_part2` starts with the empty mask and an empty memory. */
  const Start2 := Machine2("", map[])

  function Exec2(st: Machine2, op: Operation): Option<Machine2> {
    match op
    case SetMask(s) => Some(st.(mask := s))
    case SetMem(a, v) =>
      (match Floating(st.mask, a)
       case None => None
       case Some(addresses) => Some(st.(mem := WriteAll(st.mem, addresses, v))))
  }

  function Run2(st: Machine2, ops: seq<Operation>): Option<Machine2>
    decreases |ops|
  {
    if ops == [] then Some(st)
    else
      match Exec2(st, ops[0])
      case None => None
      case Some(next) => Run2(next, ops[1..])
  }

  /** A part-2 write before any mask panics: the empty mask is not a binary number. */
  lemma Run2NeedsMask(a: nat, v: nat, rest: seq<Operation>)
    ensures Run2(Start2, [SetMem(a, v)] + rest) == None
  {
    assert Floating("", a) == None;
  }

  method Part2(input: seq<Operation>) returns (r: Option<nat>)
    ensures r == match Run2(Start2, input)
                 case None => None
                 case Some(st) => Some(Total(st.mem))
  {
    var currentMask := "";
    var stack: map<nat, nat> := map[];
    var i := 0;
    while i < |input|
      invariant 0 <= i <= |input|
      invariant Run2(Start2, input) == Run2(Machine2(currentMask, stack), input[i..])
    {
      assert input[i..][0] == input[i];
      assert input[i..][1..] == input[i + 1..];
      match input[i] {
        case SetMask(s) =>
          currentMask := s;
        case SetMem(a, v) =>
          var written := SetAtAddress(stack, currentMask, a, v);
          if written.None? {
            return None;
          }
          stack := written.value;
      }
      i := i + 1;
    }
    var total := SumValues(stack);
    r := Some(total);
  }
  // ---------------------------------------------------------------------
  // Examples

  const ExampleMask: string := "XXXXXXXXXXXXXXXXXXXXXXXXXXXXX1XXXX0X"

  lemma ReplaceAppend(a: string, b: string, from: char, to: char)
    ensures Replace(a + b, from, to) == Replace(a, from, to) + Replace(b, from, to)
  {
    assert |Replace(a + b, from, to)| == |Replace(a, from, to) + Replace(b, from, to)|;
  }

  lemma ReplaceRepeat(c: char, n: nat, from: char, to: char)
    ensures Replace(Repeat(c, n), from, to) == Repeat(if c == from then to else c, n)
  {
  }

  lemma {:induction false} BinValueOnes(n: nat)
    ensures AllBinary(Repeat('1', n)) && BinValue(Repeat('1', n)) == Pow2(n) - 1
  {
    if n > 0 {
      assert Repeat('1', n)[..n - 1] == Repeat('1', n - 1);
      BinValueOnes(n - 1);
    }
  }

  /** Cutting a number below 2^36 to 36 bits leaves it unchanged. */
  lemma AndKeep(x: nat)
    requires x < Pow2(36)
    ensures And(x, Keep) == x
  {
    KeepIsOnes();
    forall i: nat
      ensures Bit(And(x, Keep), i) == Bit(x, i)
    {
      AndBits(x, Keep, i);
      OnesBits(36, i);
      if i >= 36 {
        BitsBelow(x, 36, i);
      }
    }
    BitsDetermine(And(x, Keep), x);
  }

  lemma ExampleMaskSplit()
    ensures ExampleMask == Repeat('X', 29) + "1XXXX0X"
  {
  }

  lemma ExampleSet(mask: string)
    requires mask == Repeat('X', 29) + "1XXXX0X"
    ensures AllBinary(Replace(mask, 'X', '0'))
    ensures BinValue(Replace(mask, 'X', '0')) == 64
  {
    var tail := "1XXXX0X";
    ReplaceAppend(Repeat('X', 29), tail, 'X', '0');
    ReplaceRepeat('X', 29, 'X', '0');
    assert Replace(tail, 'X', '0') == "1000000";
    assert "1000000"[..6] == "100000";
    assert "100000"[..5] == "10000";
    assert "10000"[..4] == "1000";
    assert "1000"[..3] == "100";
    assert "100"[..2] == "10";
    assert "10"[..1] == "1";
    PaddedValue(29, "1000000");
  }

  lemma ExampleOnesText(mask: string)
    requires mask == Repeat('X', 29) + "1XXXX0X"
    ensures Replace(mask, 'X', '1') == Repeat('1', 29) + "1111101"
  {
    var tail := "1XXXX0X";
    ReplaceAppend(Repeat('X', 29), tail, 'X', '1');
    ReplaceRepeat('X', 29, 'X', '1');
    assert Replace(tail, 'X', '1') == "1111101";
  }

  lemma ExampleOnesTail()
    ensures AllBinary("1111101") && BinValue("1111101") == 125
  {
    assert "1111101"[..6] == "111110";
    assert "111110"[..5] == "11111";
    assert "11111"[..4] == "1111";
    assert "1111"[..3] == "111";
    assert "111"[..2] == "11";
    assert "11"[..1] == "1";
  }

  lemma Pow2Of29()
    ensures Pow2(29) == 536870912
  {
    assert Pow2(12) == 4096;
    Pow2Add(12, 12);
    assert Pow2(5) == 32;
    Pow2Add(24, 5);
  }

  lemma Pow2Of36()
    ensures Pow2(36) == 68719476736
  {
    assert Pow2(12) == 4096;
    Pow2Add(12, 12);
    Pow2Add(24, 12);
  }

  lemma ExampleUnset(mask: string)
    requires mask == Repeat('X', 29) + "1XXXX0X"
    ensures AllBinary(Replace(mask, 'X', '1'))
    ensures BinValue(Replace(mask, 'X', '1')) == 68719476733
  {
    ExampleOnesText(mask);
    ExampleOnesTail();
    BinValueOnes(29);
    BinValueAppend(Repeat('1', 29), "1111101");
    assert Pow2(7) == 128;
    Pow2Of29();
  }

  /** `to_mask` on the sample mask (src/day14.rs test_parse_mask). */
  lemma ExampleToMask()
    ensures ToMask(ExampleMask) == Some(Mask(64, 68719476733))
  {
    ExampleMaskSplit();
    ExampleSet(ExampleMask);
    ExampleUnset(ExampleMask);
    Pow2Of36();
    ToMaskOf(ExampleMask, 64, 68719476733);
  }

  /** `to_mask` on a text that reads as binary with X as 0 and, below 2^36, with X as 1. */
  lemma ToMaskOf(mask: string, setBits: nat, ones: nat)
    requires |mask| > 0 && mask[0] != '+'
    requires AllBinary(Replace(mask, 'X', '0')) && BinValue(Replace(mask, 'X', '0')) == setBits
    requires AllBinary(Replace(mask, 'X', '1')) && BinValue(Replace(mask, 'X', '1')) == ones
    requires ones < Pow2(36)
    ensures ToMask(mask) == Some(Mask(setBits, ones))
  {
    AndKeep(ones);
  }

  const ExampleMasked := Mask(64, 68719476733)

  lemma ExampleOr11()
    ensures Or(11, 64) == 75
  {
    assert Or(1, 8) == 9;
  }

  lemma ExampleAnd75()
    ensures And(75, 68719476733) == 73
  {
    assert And(9, 8589934591) == 9;
  }

  lemma ExampleOr101()
    ensures Or(101, 64) == 101
  {
    assert Or(12, 8) == 12;
  }

  lemma ExampleAnd101()
    ensures And(101, 68719476733) == 101
  {
    assert And(12, 8589934591) == 12;
  }

  lemma ExampleAnd64()
    ensures And(64, 68719476733) == 64
  {
    assert And(8, 8589934591) == 8;
  }

  /** The three masked writes of the part-1 sample: 11 -> 73, 101 -> 101, 0 -> 64. */
  lemma ExampleWrite11(m: Mask)
    requires m == ExampleMasked
    ensures Masked(11, m) == 73
  {
    ExampleOr11();
    ExampleAnd75();
  }

  lemma ExampleWrite101(m: Mask)
    requires m == ExampleMasked
    ensures Masked(101, m) == 101
  {
    ExampleOr101();
    ExampleAnd101();
  }

  lemma ExampleWrite0(m: Mask)
    requires m == ExampleMasked
    ensures Masked(0, m) == 64
  {
    assert Or(0, 64) == 64;
    ExampleAnd64();
  }

  /** A mask followed by three writes. */
  lemma {:induction false} Run1MaskThenWrites(s: string, m: Mask, a1: nat, v1: nat, a2: nat, v2: nat, a3: nat, v3: nat)
    requires ToMask(s) == Some(m)
    ensures Run1(Start1, [SetMask(s), SetMem(a1, v1), SetMem(a2, v2), SetMem(a3, v3)]) ==
      Some(Machine1(m, map[a1 := Masked(v1, m)][a2 := Masked(v2, m)][a3 := Masked(v3, m)]))
  {
    var ops := [SetMask(s), SetMem(a1, v1), SetMem(a2, v2), SetMem(a3, v3)];
    var st1 := Machine1(m, map[]);
    var st2 := Machine1(m, map[a1 := Masked(v1, m)]);
    var st3 := Machine1(m, map[a1 := Masked(v1, m)][a2 := Masked(v2, m)]);
    var st4 := Machine1(m, map[a1 := Masked(v1, m)][a2 := Masked(v2, m)][a3 := Masked(v3, m)]);
    assert Run1(st4, ops[4..]) == Some(st4);
    assert Run1(st3, ops[3..]) == Some(st4);
    assert Run1(st2, ops[2..]) == Some(st4);
    assert Run1(st1, ops[1..]) == Some(st4);
  }

  /** The part-1 sample program stores 101 at 7 and 64 at 8. */
  lemma ExampleRun1(mask: string, m: Mask)
    requires mask == ExampleMask && m == ExampleMasked
    ensures Run1(Start1, [SetMask(mask), SetMem(8, 11), SetMem(7, 101), SetMem(8, 0)]) ==
      Some(Machine1(m, map[7 := 101, 8 := 64]))
  {
    ExampleToMask();
    ExampleWrite11(m);
    ExampleWrite101(m);
    ExampleWrite0(m);
    Run1MaskThenWrites(mask, m, 8, 11, 7, 101, 8, 0);
    Overwrite(8, 73, 7, 101, 64);
  }

  lemma Overwrite(a: nat, x: nat, b: nat, y: nat, z: nat)
    requires a != b
    ensures map[a := x][b := y][a := z] == map[b := y, a := z]
  {
  }

  /** ... and those sum to 165 (src/day14.rs test_given_part_1). */
  lemma ExampleTotal1()
    ensures Total(map[7 := 101, 8 := 64]) == 165
  {
    var mem := map[7 := 101, 8 := 64];
    TotalRemove(mem, 8);
    assert mem - {8} == map[7 := 101];
    TotalRemove(map[7 := 101], 7);
    assert map[7 := 101] - {7} == map[];
  }
  lemma ExamplePart1(mask: string, m: Mask, r: Option<nat>)
    requires mask == ExampleMask && m == ExampleMasked
    requires r == match Run1(Start1, [SetMask(mask), SetMem(8, 11), SetMem(7, 101), SetMem(8, 0)])
                  case None => None
                  case Some(st) => Some(Total(st.mem))
    ensures r == Some(165)
  {
    ExampleRun1(mask, m);
    ExampleTotal1();
  }

  // Part 2 sample: helpers for masks and addresses that start with zeros

  /** The indices shifted right by d. */
  function Shift(indices: seq<nat>, d: nat): (r: seq<nat>)
    ensures |r| == |indices| && forall k :: 0 <= k < |r| ==> r[k] == indices[k] + d
  {
    seq(|indices|, k requires 0 <= k < |indices| => indices[k] + d)
  }

  /** Each string with z in front. */
  function Prefixed(z: string, strs: seq<string>): (r: seq<string>)
    ensures |r| == |strs| && forall k :: 0 <= k < |r| ==> r[k] == z + strs[k]
  {
    seq(|strs|, k requires 0 <= k < |strs| => z + strs[k])
  }

  lemma XIndicesFromStep(s: string, k: nat)
    requires k < |s|
    ensures XIndicesFrom(s, k) == (if s[k] == 'X' then [k] else []) + XIndicesFrom(s, k + 1)
  {
  }

  lemma ShiftAppend(a: seq<nat>, b: seq<nat>, d: nat)
    ensures Shift(a + b, d) == Shift(a, d) + Shift(b, d)
  {
  }

  lemma {:induction false} XIndicesFromShift(z: string, t: string, k: nat)
    requires k <= |t|
    ensures XIndicesFrom(z + t, |z| + k) == Shift(XIndicesFrom(t, k), |z|)
    decreases |t| - k
  {
    if k < |t| {
      XIndicesFromShift(z, t, k + 1);
      assert (z + t)[|z| + k] == t[k];
      var head: seq<nat> := if t[k] == 'X' then [k] else [];
      XIndicesFromStep(t, k);
      XIndicesFromStep(z + t, |z| + k);
      ShiftAppend(head, XIndicesFrom(t, k + 1), |z|);
      assert Shift(head, |z|) == if t[k] == 'X' then [|z| + k] else [];
    }
  }

  lemma {:induction false} XIndicesFromSkip(z: string, t: string, k: nat)
    requires k <= |z| && forall j :: 0 <= j < |z| ==> z[j] != 'X'
    ensures XIndicesFrom(z + t, k) == XIndicesFrom(z + t, |z|)
    decreases |z| - k
  {
    if k < |z| {
      assert (z + t)[k] == z[k];
      XIndicesFromStep(z + t, k);
      XIndicesFromSkip(z, t, k + 1);
    }
  }

  lemma XIndicesPadded(n: nat, tail: string)
    ensures XIndices(Repeat('0', n) + tail) == Shift(XIndicesFrom(tail, 0), n)
  {
    XIndicesFromSkip(Repeat('0', n), tail, 0);
    XIndicesFromShift(Repeat('0', n), tail, 0);
  }

  lemma {:induction false} ReplaceXShift(z: string, t: string, indices: seq<nat>)
    requires InBounds(indices, t)
    ensures InBounds(Shift(indices, |z|), z + t)
    ensures ReplaceX(Shift(indices, |z|), z + t) == Prefixed(z, ReplaceX(indices, t))
    decreases |indices|
  {
    if indices != [] {
      var i := indices[0];
      var rest := indices[1..];
      assert Shift(indices, |z|)[1..] == Shift(rest, |z|);
      assert (z + t)[|z| + i := '1'] == z + t[i := '1'];
      assert (z + t)[|z| + i := '0'] == z + t[i := '0'];
      ReplaceXShift(z, t[i := '1'], rest);
      ReplaceXShift(z, t[i := '0'], rest);
      var one := ReplaceX(rest, t[i := '1']);
      var zero := ReplaceX(rest, t[i := '0']);
      assert Prefixed(z, one + zero) == Prefixed(z, one) + Prefixed(z, zero);
    }
  }

  lemma PrefixedValues(n: nat, strs: seq<string>)
    requires forall t :: t in strs ==> AllBinary(t)
    ensures forall t :: t in Prefixed(Repeat('0', n), strs) ==> AllBinary(t)
    ensures Values(Prefixed(Repeat('0', n), strs)) == Values(strs)
  {
    forall k | 0 <= k < |strs|
      ensures AllBinary(Repeat('0', n) + strs[k]) && BinValue(Repeat('0', n) + strs[k]) == BinValue(strs[k])
    {
      PaddedValue(n, strs[k]);
    }
  }

  /** `set_at_adress` with a mask of n zeros and then `tail`, where the printed
      address is n zeros and then `digits`: the X positions of `tail` float over `digits`. */
  lemma FloatingPadded(n: nat, tail: string, address: nat, setBits: nat, digits: string)
    requires 0 < n && AllBinary(Replace(tail, 'X', '0')) && BinValue(Replace(tail, 'X', '0')) == setBits
    requires Format36(Or(address, setBits)) == Repeat('0', n) + digits
    requires |digits| == |tail| && AllBinary(digits)
    ensures InBounds(XIndicesFrom(tail, 0), digits)
    ensures forall t :: t in ReplaceX(XIndicesFrom(tail, 0), digits) ==> AllBinary(t)
    ensures Floating(Repeat('0', n) + tail, address) == Some(Values(ReplaceX(XIndicesFrom(tail, 0), digits)))
  {
    var mask := Repeat('0', n) + tail;
    ReplaceAppend(Repeat('0', n), tail, 'X', '0');
    ReplaceRepeat('0', n, 'X', '0');
    PaddedValue(n, Replace(tail, 'X', '0'));
    assert Replace(mask, 'X', '0')[0] == '0';
    assert FromBinary(Replace(mask, 'X', '0')) == Some(setBits);
    assert MaskedAddress(mask, address) == Some(Repeat('0', n) + digits);
    var local := XIndicesFrom(tail, 0);
    XIndicesPadded(n, tail);
    ReplaceXShift(Repeat('0', n), digits, local);
    ReplaceXBinary(local, digits);
    PrefixedValues(n, ReplaceX(local, digits));
  }

  /** Total of a memory after writing v at distinct addresses: the untouched
      entries plus v for each address. */
  function Without(mem: map<nat, nat>, addresses: seq<nat>): map<nat, nat> {
    map a | a in mem && a !in addresses :: mem[a]
  }

  predicate Distinct(s: seq<nat>) {
    forall k, l :: 0 <= k < l < |s| ==> s[k] != s[l]
  }

  lemma MulSucc(n: nat, v: nat)
    ensures (n + 1) * v == n * v + v
  {
  }

  lemma WriteAllCons(mem: map<nat, nat>, addresses: seq<nat>, v: nat)
    requires |addresses| > 0 && addresses[0] !in addresses[1..]
    ensures WriteAll(mem, addresses, v) == WriteAll(mem, addresses[1..], v)[addresses[0] := v]
    ensures (addresses[0] in WriteAll(mem, addresses[1..], v)) == (addresses[0] in mem)
    ensures addresses[0] in mem ==> WriteAll(mem, addresses[1..], v)[addresses[0]] == mem[addresses[0]]
  {
    var left := WriteAll(mem, addresses, v);
    var right := WriteAll(mem, addresses[1..], v)[addresses[0] := v];
    assert forall a :: a in addresses <==> a == addresses[0] || a in addresses[1..];
    assert left.Keys == right.Keys;
  }

  lemma WithoutCons(mem: map<nat, nat>, addresses: seq<nat>)
    requires |addresses| > 0
    ensures Without(mem, addresses) == Without(mem, addresses[1..]) - {addresses[0]}
  {
    assert forall a :: a in addresses <==> a == addresses[0] || a in addresses[1..];
  }

  lemma {:induction false} TotalWriteAll(mem: map<nat, nat>, addresses: seq<nat>, v: nat)
    requires Distinct(addresses)
    ensures Total(WriteAll(mem, addresses, v)) == Total(Without(mem, addresses)) + |addresses| * v
    decreases |addresses|
  {
    if addresses == [] {
      assert WriteAll(mem, addresses, v) == mem;
      assert Without(mem, addresses) == mem;
    } else {
      var a := addresses[0];
      var rest := addresses[1..];
      assert a !in rest;
      TotalWriteAll(mem, rest, v);
      WriteAllCons(mem, addresses, v);
      TotalUpdate(WriteAll(mem, rest, v), a, v);
      WithoutCons(mem, addresses);
      var w := Without(mem, rest);
      if a in mem {
        TotalRemove(w, a);
      } else {
        assert w - {a} == w;
      }
      MulSucc(|rest|, v);
    }
  }

  // Part 2 sample program

  const ExampleMaskA: string := "000000000000000000000000000000X1001X"
  const ExampleMaskB: string := "00000000000000000000000000000000X0XX"

  lemma ExampleMaskAPadded()
    ensures ExampleMaskA == Repeat('0', 30) + "X1001X"
  {
  }

  lemma ExampleMaskBPadded()
    ensures ExampleMaskB == Repeat('0', 31) + "0X0XX"
  {
  }

  lemma ExampleSetA()
    ensures AllBinary(Replace("X1001X", 'X', '0')) && BinValue(Replace("X1001X", 'X', '0')) == 18
  {
    assert Replace("X1001X", 'X', '0') == "010010";
    BinaryLiteral6();
  }

  lemma BinaryLiteral6()
    ensures AllBinary("010010") && BinValue("010010") == 18
  {
    assert "010010"[..5] == "01001";
    assert "01001"[..4] == "0100";
    assert "0100"[..3] == "010";
    assert "010"[..2] == "01";
    assert "01"[..1] == "0";
    assert "0"[..0] == "";
    assert BinValue("0") == 0;
    assert BinValue("01") == 1;
    assert BinValue("010") == 2;
    assert BinValue("0100") == 4;
    assert BinValue("01001") == 9;
  }

  lemma ExampleSetB()
    ensures AllBinary(Replace("0X0XX", 'X', '0')) && BinValue(Replace("0X0XX", 'X', '0')) == 0
  {
    var s := Replace("0X0XX", 'X', '0');
    assert s == Repeat('0', 5);
    BinValueZeros(5);
  }

  lemma ExampleOr42()
    ensures Or(42, 18) == 58
  {
  }

  lemma ExampleAddressA()
    ensures Format36(Or(42, 18)) == Repeat('0', 30) + "111010"
  {
    ExampleOr42();
    assert ToBinary(58) == "111010";
  }

  lemma ExampleAddressB()
    ensures Format36(Or(26, 0)) == Repeat('0', 31) + "11010"
  {
    assert Or(26, 0) == 26;
    assert ToBinary(26) == "11010";
  }

  function Digit(c: char): nat { if c == '1' then 1 else 0 }

  /** One more digit of a prefix doubles the value and adds the digit. */
  lemma BinValuePrefix(s: string, k: nat)
    requires AllBinary(s) && 0 < k <= |s|
    ensures AllBinary(s[..k]) && AllBinary(s[..k - 1])
    ensures BinValue(s[..k]) == 2 * BinValue(s[..k - 1]) + Digit(s[k - 1])
  {
    assert s[..k][..k - 1] == s[..k - 1];
  }

  lemma BinValue5(s: string)
    requires |s| == 5 && AllBinary(s)
    ensures BinValue(s) == 16 * Digit(s[0]) + 8 * Digit(s[1]) + 4 * Digit(s[2]) + 2 * Digit(s[3]) + Digit(s[4])
  {
    assert s[..0] == [] && s[..5] == s;
    BinValuePrefix(s, 1);
    BinValuePrefix(s, 2);
    BinValuePrefix(s, 3);
    BinValuePrefix(s, 4);
    BinValuePrefix(s, 5);
  }


  lemma BinValue6(s: string)
    requires |s| == 6 && AllBinary(s)
    ensures BinValue(s) == 32 * Digit(s[0]) + 16 * Digit(s[1]) + 8 * Digit(s[2]) + 4 * Digit(s[3]) + 2 * Digit(s[4]) + Digit(s[5])
  {
    BinValue5(s[..5]);
  }

  lemma ExampleXA()
    ensures XIndicesFrom("X1001X", 0) == [0, 5]
  {
    assert XIndicesFrom("X1001X", 5) == [5];
    assert XIndicesFrom("X1001X", 1) == [5];
  }

  lemma ExampleXB()
    ensures XIndicesFrom("0X0XX", 0) == [1, 3, 4]
  {
  }

  lemma ReplaceLast(s: string, i: nat, a: string, b: string)
    requires i < |s| && a == s[i := '1'] && b == s[i := '0']
    ensures ReplaceX([i], s) == [a, b]
  {
    assert [i][1..] == [];
    assert ReplaceX([], a) == [a];
    assert ReplaceX([], b) == [b];
  }

  lemma ExampleReplaceA()
    ensures ReplaceX([0, 5], "111010") == ["111011", "111010", "011011", "011010"]
  {
    assert [0, 5][1..] == [5];
    assert "111010"[0 := '1'] == "111010";
    assert "111010"[0 := '0'] == "011010";
    ReplaceLast("111010", 5, "111011", "111010");
    ReplaceLast("011010", 5, "011011", "011010");
  }

  lemma ReplacePair(s: string, i: nat, j: nat, a: string, b: string, c: string, d: string)
    requires i < |s| && j < |s| && i != j
    requires a == s[i := '1'][j := '1'] && b == s[i := '1'][j := '0']
    requires c == s[i := '0'][j := '1'] && d == s[i := '0'][j := '0']
    ensures ReplaceX([i, j], s) == [a, b, c, d]
  {
    assert [i, j][1..] == [j];
    ReplaceLast(s[i := '1'], j, a, b);
    ReplaceLast(s[i := '0'], j, c, d);
  }

  lemma ExampleReplaceB()
    ensures ReplaceX([1, 3, 4], "11010") ==
      ["11011", "11010", "11001", "11000", "10011", "10010", "10001", "10000"]
  {
    assert [1, 3, 4][1..] == [3, 4];
    ReplacePair("11010", 3, 4, "11011", "11010", "11001", "11000");
    ReplacePair("10010", 3, 4, "10011", "10010", "10001", "10000");
    assert "11010"[1 := '1'] == "11010";
    assert "11010"[1 := '0'] == "10010";
  }

  lemma ExampleValuesA()
    ensures ValuesMatch(["111011", "111010", "011011", "011010"], [59, 58, 27, 26])
  {
    BinValue6("111011");
    BinValue6("111010");
    BinValue6("011011");
    BinValue6("011010");
  }

  lemma ValuesMatchAppend(a: seq<string>, va: seq<nat>, b: seq<string>, vb: seq<nat>)
    requires ValuesMatch(a, va) && ValuesMatch(b, vb)
    ensures ValuesMatch(a + b, va + vb)
  {
    forall k | 0 <= k < |a + b|
      ensures AllBinary((a + b)[k]) && BinValue((a + b)[k]) == (va + vb)[k]
    {
      if k >= |a| {
        assert (a + b)[k] == b[k - |a|];
      }
    }
  }

  lemma ExampleValuesB1()
    ensures ValuesMatch(["11011", "11010", "11001", "11000"], [27, 26, 25, 24])
  {
    BinValue5("11011");
    BinValue5("11010");
    BinValue5("11001");
    BinValue5("11000");
  }

  lemma ExampleValuesB2()
    ensures ValuesMatch(["10011", "10010", "10001", "10000"], [19, 18, 17, 16])
  {
    BinValue5("10011");
    BinValue5("10010");
    BinValue5("10001");
    BinValue5("10000");
  }

  lemma ExampleValuesB()
    ensures ValuesMatch(["11011", "11010", "11001", "11000", "10011", "10010", "10001", "10000"],
                        [27, 26, 25, 24, 19, 18, 17, 16])
  {
    ExampleValuesB1();
    ExampleValuesB2();
    ValuesMatchAppend(["11011", "11010", "11001", "11000"], [27, 26, 25, 24],
                      ["10011", "10010", "10001", "10000"], [19, 18, 17, 16]);
    assert ["11011", "11010", "11001", "11000"] + ["10011", "10010", "10001", "10000"] ==
      ["11011", "11010", "11001", "11000", "10011", "10010", "10001", "10000"];
    assert [27, 26, 25, 24] + [19, 18, 17, 16] == [27, 26, 25, 24, 19, 18, 17, 16];
  }

  /** FloatingPadded with each step of the evaluation named. */
  lemma FloatingSteps(mask: string, n: nat, tail: string, address: nat, setBits: nat, digits: string,
                      indices: seq<nat>, strs: seq<string>, values: seq<nat>)
    requires mask == Repeat('0', n) + tail
    requires 0 < n && AllBinary(Replace(tail, 'X', '0')) && BinValue(Replace(tail, 'X', '0')) == setBits
    requires Format36(Or(address, setBits)) == Repeat('0', n) + digits
    requires |digits| == |tail|
    requires XIndicesFrom(tail, 0) == indices
    requires InBounds(indices, digits) && ReplaceX(indices, digits) == strs
    requires ValuesMatch(strs, values)
    ensures Floating(mask, address) == Some(values)
  {
    Format36Value(Or(address, setBits));
    SuffixBinary(Repeat('0', n), digits);
    FloatingPadded(n, tail, address, setBits, digits);
    MatchedValues(strs, values);
  }

  lemma SuffixBinary(z: string, digits: string)
    requires AllBinary(z + digits)
    ensures AllBinary(digits)
  {
    forall i | 0 <= i < |digits|
      ensures IsBinaryDigit(digits[i])
    {
      assert digits[i] == (z + digits)[|z| + i];
    }
  }

  lemma MatchedValues(strs: seq<string>, values: seq<nat>)
    requires ValuesMatch(strs, values)
    ensures forall t :: t in strs ==> AllBinary(t)
    ensures Values(strs) == values
  {
  }

  /** The strings are binary and read as the values. */
  predicate ValuesMatch(strs: seq<string>, values: seq<nat>) {
    |strs| == |values| &&
    forall k :: 0 <= k < |strs| ==> AllBinary(strs[k]) && BinValue(strs[k]) == values[k]
  }

  lemma ExampleFloatingA(mask: string)
    requires mask == ExampleMaskA
    ensures Floating(mask, 42) == Some([59, 58, 27, 26])
  {
    ExampleMaskAPadded();
    ExampleSetA();
    ExampleAddressA();
    ExampleXA();
    ExampleReplaceA();
    ExampleValuesA();
    FloatingSteps(mask, 30, "X1001X", 42, 18, "111010", [0, 5],
                  ["111011", "111010", "011011", "011010"], [59, 58, 27, 26]);
  }

  lemma ExampleFloatingB(mask: string)
    requires mask == ExampleMaskB
    ensures Floating(mask, 26) == Some([27, 26, 25, 24, 19, 18, 17, 16])
  {
    ExampleMaskBPadded();
    ExampleSetB();
    ExampleAddressB();
    ExampleXB();
    ExampleReplaceB();
    ExampleValuesB();
    FloatingSteps(mask, 31, "0X0XX", 26, 0, "11010", [1, 3, 4],
                  ["11011", "11010", "11001", "11000", "10011", "10010", "10001", "10000"],
                  [27, 26, 25, 24, 19, 18, 17, 16]);
  }

  lemma {:induction false} Run2MaskWriteTwice(m1: string, a1: nat, v1: nat, m2: string, a2: nat, v2: nat,
                                              w1: seq<nat>, w2: seq<nat>)
    requires Floating(m1, a1) == Some(w1) && Floating(m2, a2) == Some(w2)
    ensures Run2(Start2, [SetMask(m1), SetMem(a1, v1), SetMask(m2), SetMem(a2, v2)]) ==
      Some(Machine2(m2, WriteAll(WriteAll(map[], w1, v1), w2, v2)))
  {
    var ops := [SetMask(m1), SetMem(a1, v1), SetMask(m2), SetMem(a2, v2)];
    var st1 := Machine2(m1, map[]);
    var st2 := Machine2(m1, WriteAll(map[], w1, v1));
    var st3 := Machine2(m2, WriteAll(map[], w1, v1));
    var st4 := Machine2(m2, WriteAll(WriteAll(map[], w1, v1), w2, v2));
    assert Run2(st4, ops[4..]) == Some(st4);
    assert Run2(st3, ops[3..]) == Some(st4);
    assert Run2(st2, ops[2..]) == Some(st4);
    assert Run2(st1, ops[1..]) == Some(st4);
  }

  lemma ExampleWritten()
    ensures WriteAll(map[], [59, 58, 27, 26], 100).Keys == {59, 58, 27, 26}
  {
  }

  lemma ExampleKept()
    ensures Without(WriteAll(map[], [59, 58, 27, 26], 100), [27, 26, 25, 24, 19, 18, 17, 16]) ==
      map[59 := 100, 58 := 100]
  {
    ExampleWritten();
    KeptPair(WriteAll(map[], [59, 58, 27, 26], 100), [27, 26, 25, 24, 19, 18, 17, 16], 59, 58, 27, 26, 100);
  }

  /** Writing four addresses and taking out a list that holds the last two leaves the first two. */
  lemma KeptPair(w: map<nat, nat>, later: seq<nat>, a: nat, b: nat, c: nat, d: nat, v: nat)
    requires w.Keys == {a, b, c, d} && forall k :: k in w ==> w[k] == v
    requires a !in later && b !in later && c in later && d in later
    ensures Without(w, later) == map[a := v, b := v]
  {
    assert Without(w, later).Keys == {a, b};
  }

  lemma ExampleTotal2()
    ensures Total(WriteAll(WriteAll(map[], [59, 58, 27, 26], 100), [27, 26, 25, 24, 19, 18, 17, 16], 1)) == 208
  {
    ExampleDistinct();
    ExampleKept();
    ExampleTotalKept();
    TotalAfterWrites(WriteAll(map[], [59, 58, 27, 26], 100), [27, 26, 25, 24, 19, 18, 17, 16],
                     map[59 := 100, 58 := 100], 200);
  }

  lemma TotalAfterWrites(mem: map<nat, nat>, addresses: seq<nat>, kept: map<nat, nat>, t: nat)
    requires Distinct(addresses) && Without(mem, addresses) == kept && Total(kept) == t
    ensures Total(WriteAll(mem, addresses, 1)) == t + |addresses|
  {
    TotalWriteAll(mem, addresses, 1);
  }

  lemma ExampleDistinct()
    ensures Distinct([27, 26, 25, 24, 19, 18, 17, 16])
  {
  }

  lemma ExampleTotalKept()
    ensures Total(map[59 := 100, 58 := 100]) == 200
  {
    var kept := map[59 := 100, 58 := 100];
    TotalRemove(kept, 59);
    assert kept - {59} == map[58 := 100];
    TotalRemove(map[58 := 100], 58);
    assert map[58 := 100] - {58} == map[];
  }

  /** The part-2 sample program sums to 208 (src/day14.rs test_given_part2). */
  lemma ExamplePart2(maskA: string, maskB: string, r: Option<nat>)
    requires maskA == ExampleMaskA && maskB == ExampleMaskB
    requires r == match Run2(Start2, [SetMask(maskA), SetMem(42, 100), SetMask(maskB), SetMem(26, 1)])
                  case None => None
                  case Some(st) => Some(Total(st.mem))
    ensures r == Some(208)
  {
    ExampleFloatingA(maskA);
    ExampleFloatingB(maskB);
    Run2MaskWriteTwice(maskA, 42, 100, maskB, 26, 1, [59, 58, 27, 26], [27, 26, 25, 24, 19, 18, 17, 16]);
    ExampleTotal2();
  }
}
