/** Helpers shared by the daily modules: an Option for the source's panics and
    failed lookups, the standard-library string operations the solutions call
    (`trim`, `split`, `lines`, `split_whitespace`, integer `parse`), sums, and
    bit arithmetic on unbounded naturals. */
module Common {

  datatype Option<T> = None | Some(value: T)

  /** Rust's `char::is_whitespace` (the Unicode White_Space property). */
  predicate IsWhitespace(c: char) {
    c == ' ' || c == '\t' || c == '\n' || c == '\U{000B}' || c == '\U{000C}' || c == '\r'
    || c == '\U{0085}' || c == '\U{00A0}' || c == '\U{1680}'
    || ('\U{2000}' <= c <= '\U{200A}')
    || c == '\U{2028}' || c == '\U{2029}' || c == '\U{202F}' || c == '\U{205F}' || c == '\U{3000}'
  }

  predicate IsDigit(c: char) { '0' <= c <= '9' }

  /** The regex class `[a-z]`. */
  predicate IsLower(c: char) { 'a' <= c <= 'z' }

  /** A regex word character (`\w`), restricted to ASCII. */
  predicate IsWordChar(c: char) {
    'a' <= c <= 'z' || 'A' <= c <= 'Z' || '0' <= c <= '9' || c == '_'
  }

  predicate AllDigits(s: string) { forall i :: 0 <= i < |s| ==> IsDigit(s[i]) }

  function DigitChar(d: nat): char
    requires d < 10
  {
    ('0' as int + d) as char
  }

  /** Value of a run of decimal digits, most significant first. */
  function DigitsValue(s: string): nat
    requires AllDigits(s)
  {
    if s == [] then 0 else 10 * DigitsValue(s[..|s| - 1]) + (s[|s| - 1] as int - '0' as int)
  }

  /** Appending a digit multiplies the value by ten and adds the digit. */
  lemma DigitsValueAppend(s: string, c: char)
    requires AllDigits(s) && IsDigit(c)
    ensures AllDigits(s + [c]) && DigitsValue(s + [c]) == 10 * DigitsValue(s) + (c as int - '0' as int)
  {
    assert (s + [c])[..|s|] == s;
  }

  /** Rust's `str::parse` for an unsigned integer type: an optional '+'
      followed by at least one decimal digit, nothing else. */
  function ParseNat(s: string): Option<nat> {
    var digits := if |s| > 0 && s[0] == '+' then s[1..] else s;
    if |digits| > 0 && AllDigits(digits) then Some(DigitsValue(digits)) else None
  }

  /** Rust's `str::parse` for a signed integer type: an optional '+' or '-'
      followed by at least one decimal digit. */
  function ParseInt(s: string): Option<int> {
    if |s| > 0 && s[0] == '-' then
      (if |s| > 1 && AllDigits(s[1..]) then Some(-(DigitsValue(s[1..]) as int)) else None)
    else
      match ParseNat(s)
      case Some(n) => Some(n as int)
      case None => None
  }

  /** The decimal text of a natural number, as Rust's `to_string` writes it. */
  function NatToString(n: nat): (s: string)
    ensures |s| > 0 && AllDigits(s)
  {
    if n < 10 then [DigitChar(n)] else NatToString(n / 10) + [DigitChar(n % 10)]
  }

  lemma {:induction false} DigitsValueOfNatToString(n: nat)
    ensures DigitsValue(NatToString(n)) == n
  {
    if n >= 10 {
      var s := NatToString(n);
      assert s[..|s| - 1] == NatToString(n / 10);
      DigitsValueOfNatToString(n / 10);
    }
  }

  /** Printing a number and parsing it back gives the number. */
  lemma ParseNatToString(n: nat)
    ensures ParseNat(NatToString(n)) == Some(n)
  {
    DigitsValueOfNatToString(n);
  }

  /** A parse succeeds only on text made of an optional sign and digits. */
  lemma ParseNatRejects(s: string, i: nat)
    requires 0 < i < |s| && !IsDigit(s[i])
    ensures ParseNat(s) == None
  {
  }

  // ---------------------------------------------------------------------
  // trim

  function TrimStart(s: string): (r: string)
    ensures |r| <= |s| && r == s[|s| - |r|..]
    ensures r != [] ==> !IsWhitespace(r[0])
    ensures forall i :: 0 <= i < |s| - |r| ==> IsWhitespace(s[i])
  {
    if s != [] && IsWhitespace(s[0]) then TrimStart(s[1..]) else s
  }

  function TrimEnd(s: string): (r: string)
    ensures |r| <= |s| && r == s[..|r|]
    ensures r != [] ==> !IsWhitespace(r[|r| - 1])
    ensures forall i :: |r| <= i < |s| ==> IsWhitespace(s[i])
  {
    if s != [] && IsWhitespace(s[|s| - 1]) then TrimEnd(s[..|s| - 1]) else s
  }

  /** Rust's `str::trim`. */
  function Trim(s: string): string {
    TrimEnd(TrimStart(s))
  }

  /** Trimming text that neither starts nor ends with whitespace leaves it as it is. */
  lemma TrimNoop(s: string)
    requires s != [] ==> !IsWhitespace(s[0]) && !IsWhitespace(s[|s| - 1])
    ensures Trim(s) == s
  {
  }

  /** k spaces. */
  function Indent(k: nat): (s: string)
    ensures |s| == k && forall i :: 0 <= i < k ==> s[i] == ' '
  {
    seq(k, _ => ' ')
  }

  lemma {:induction false} TrimStartIndented(k: nat, t: string)
    requires t != [] && !IsWhitespace(t[0])
    ensures TrimStart(Indent(k) + t) == t
  {
    if k > 0 {
      assert (Indent(k) + t)[1..] == Indent(k - 1) + t;
      TrimStartIndented(k - 1, t);
    }
  }

  /** Leading spaces are trimmed away. */
  lemma TrimIndented(k: nat, t: string)
    requires t != [] && !IsWhitespace(t[0]) && !IsWhitespace(t[|t| - 1])
    ensures Trim(Indent(k) + t) == t
  {
    TrimStartIndented(k, t);
    TrimNoop(t);
  }

  lemma {:induction false} TrimEndPadded(t: string, k: nat)
    requires t != [] && !IsWhitespace(t[|t| - 1])
    ensures TrimEnd(t + Indent(k)) == t
  {
    if k > 0 {
      assert (t + Indent(k))[..|t| + k - 1] == t + Indent(k - 1);
      TrimEndPadded(t, k - 1);
    }
  }

  /** Trailing spaces are trimmed away. */
  lemma TrimPadded(t: string, k: nat)
    requires t != [] && !IsWhitespace(t[0]) && !IsWhitespace(t[|t| - 1])
    ensures Trim(t + Indent(k)) == t
  {
    assert TrimStart(t + Indent(k)) == t + Indent(k);
    TrimEndPadded(t, k);
  }

  /** Spaces on both sides are trimmed away. */
  lemma TrimSurrounded(a: nat, t: string, b: nat)
    requires t != [] && !IsWhitespace(t[0]) && !IsWhitespace(t[|t| - 1])
    ensures Trim(Indent(a) + t + Indent(b)) == t
  {
    assert Indent(a) + t + Indent(b) == Indent(a) + (t + Indent(b));
    TrimStartIndented(a, t + Indent(b));
    TrimEndPadded(t, b);
  }

  /** Every line trimmed (`.map(str::trim)`). */
  function TrimAll(lines: seq<string>): (r: seq<string>)
    ensures |r| == |lines| && forall k :: 0 <= k < |lines| ==> r[k] == Trim(lines[k])
  {
    seq(|lines|, k requires 0 <= k < |lines| => Trim(lines[k]))
  }

  // ---------------------------------------------------------------------
  // split on a character

  /** Rust's `str::split` with a `char` pattern: always at least one piece. */
  function Split(s: string, c: char): (parts: seq<string>)
    ensures |parts| > 0
    ensures forall k, i :: 0 <= k < |parts| && 0 <= i < |parts[k]| ==> parts[k][i] != c
  {
    SplitFrom(s, c, [])
  }

  /** `acc` is the part of the current piece already read. */
  function SplitFrom(s: string, c: char, acc: string): (parts: seq<string>)
    requires forall i :: 0 <= i < |acc| ==> acc[i] != c
    ensures |parts| > 0
    ensures forall k, i :: 0 <= k < |parts| && 0 <= i < |parts[k]| ==> parts[k][i] != c
    decreases |s|
  {
    if s == [] then [acc]
    else if s[0] == c then [acc] + SplitFrom(s[1..], c, [])
    else SplitFrom(s[1..], c, acc + [s[0]])
  }

  /** The pieces with the separator put back between them. */
  function Join(parts: seq<string>, c: char): string
    requires |parts| > 0
  {
    if |parts| == 1 then parts[0] else parts[0] + [c] + Join(parts[1..], c)
  }

  lemma {:induction false} SplitFromJoin(s: string, c: char, acc: string)
    requires forall i :: 0 <= i < |acc| ==> acc[i] != c
    ensures Join(SplitFrom(s, c, acc), c) == acc + s
    decreases |s|
  {
    if s == [] {
    } else if s[0] == c {
      SplitFromJoin(s[1..], c, []);
      assert acc + s == acc + [c] + s[1..];
    } else {
      SplitFromJoin(s[1..], c, acc + [s[0]]);
      assert acc + s == acc + [s[0]] + s[1..];
    }
  }

  /** Splitting and joining again gives the text back. */
  lemma SplitJoin(s: string, c: char)
    ensures Join(Split(s, c), c) == s
  {
    SplitFromJoin(s, c, []);
  }

  /** Text without the separator is a single piece. */
  lemma {:induction false} SplitFromNoSeparator(s: string, c: char, acc: string)
    requires forall i :: 0 <= i < |acc| ==> acc[i] != c
    requires forall i :: 0 <= i < |s| ==> s[i] != c
    ensures SplitFrom(s, c, acc) == [acc + s]
    decreases |s|
  {
    if s == [] {
      assert acc + s == acc;
    } else {
      SplitFromNoSeparator(s[1..], c, acc + [s[0]]);
      assert acc + [s[0]] + s[1..] == acc + s;
    }
  }

  /** Splitting `a + [c] + b` where `a` holds no separator gives `a` first. */
  lemma SplitFirst(a: string, c: char, b: string)
    requires forall i :: 0 <= i < |a| ==> a[i] != c
    ensures Split(a + [c] + b, c) == [a] + Split(b, c)
  {
    SplitFromPrefix(a, c, [], b);
    assert [] + a == a;
  }

  lemma {:induction false} SplitFromPrefix(a: string, c: char, acc: string, b: string)
    requires forall i :: 0 <= i < |acc| ==> acc[i] != c
    requires forall i :: 0 <= i < |a| ==> a[i] != c
    ensures SplitFrom(a + [c] + b, c, acc) == [acc + a] + SplitFrom(b, c, [])
    decreases |a|
  {
    if a == [] {
      assert (a + [c] + b)[0] == c && (a + [c] + b)[1..] == b;
      assert acc + a == acc;
    } else {
      assert (a + [c] + b)[1..] == a[1..] + [c] + b;
      SplitFromPrefix(a[1..], c, acc + [a[0]], b);
      assert acc + [a[0]] + a[1..] == acc + a;
    }
  }

  // ---------------------------------------------------------------------
  // lines and whitespace-separated words

  function StripCarriageReturn(line: string): (r: string)
    ensures |r| <= |line| && r == line[..|r|]
  {
    if |line| > 0 && line[|line| - 1] == '\r' then line[..|line| - 1] else line
  }

  /** Rust's `str::lines`: pieces between '\n', no empty last piece, and a
      trailing '\r' taken off each line. */
  function Lines(s: string): (ls: seq<string>)
    ensures forall k, i :: 0 <= k < |ls| && 0 <= i < |ls[k]| ==> ls[k][i] != '\n'
  {
    LinesFrom(s, [])
  }

  /** `acc` is the part of the current line already read. */
  function LinesFrom(s: string, acc: string): (ls: seq<string>)
    requires forall i :: 0 <= i < |acc| ==> acc[i] != '\n'
    ensures forall k, i :: 0 <= k < |ls| && 0 <= i < |ls[k]| ==> ls[k][i] != '\n'
    decreases |s|
  {
    if s == [] then (if acc == [] then [] else [StripCarriageReturn(acc)])
    else if s[0] == '\n' then [StripCarriageReturn(acc)] + LinesFrom(s[1..], [])
    else LinesFrom(s[1..], acc + [s[0]])
  }

  /** Every character of a piece occurs in the text. */
  lemma {:induction false} SplitFromChars(s: string, c: char, acc: string)
    requires forall i :: 0 <= i < |acc| ==> acc[i] != c
    ensures forall k, i :: 0 <= k < |SplitFrom(s, c, acc)| && 0 <= i < |SplitFrom(s, c, acc)[k]| ==>
      SplitFrom(s, c, acc)[k][i] in acc + s
    decreases |s|
  {
    if s == [] {
    } else if s[0] == c {
      SplitFromChars(s[1..], c, []);
      assert forall x :: x in s[1..] ==> x in acc + s;
    } else {
      SplitFromChars(s[1..], c, acc + [s[0]]);
      assert acc + [s[0]] + s[1..] == acc + s;
    }
  }

  /** Pieces free of the separator are split back out of their join. */
  lemma {:induction false} SplitOfJoin(parts: seq<string>, c: char)
    requires |parts| > 0
    requires forall k, i :: 0 <= k < |parts| && 0 <= i < |parts[k]| ==> parts[k][i] != c
    ensures Split(Join(parts, c), c) == parts
  {
    if |parts| == 1 {
      SplitFromNoSeparator(parts[0], c, []);
      assert [] + parts[0] == parts[0];
    } else {
      assert forall i :: 0 <= i < |parts[0]| ==> parts[0][i] != c;
      SplitFirst(parts[0], c, Join(parts[1..], c));
      SplitOfJoin(parts[1..], c);
      assert parts == [parts[0]] + parts[1..];
    }
  }

  /** Text without a newline ends the current line. */
  lemma {:induction false} LinesFromRest(a: string, acc: string)
    requires forall i :: 0 <= i < |acc| ==> acc[i] != '\n'
    requires forall i :: 0 <= i < |a| ==> a[i] != '\n'
    requires acc + a != []
    ensures LinesFrom(a, acc) == [StripCarriageReturn(acc + a)]
    decreases |a|
  {
    if a == [] {
      assert acc + a == acc;
    } else {
      LinesFromRest(a[1..], acc + [a[0]]);
      assert acc + [a[0]] + a[1..] == acc + a;
    }
  }

  /** A newline after text without one closes the current line. */
  lemma {:induction false} LinesFromPrefix(a: string, acc: string, b: string)
    requires forall i :: 0 <= i < |acc| ==> acc[i] != '\n'
    requires forall i :: 0 <= i < |a| ==> a[i] != '\n'
    ensures LinesFrom(a + "\n" + b, acc) == [StripCarriageReturn(acc + a)] + LinesFrom(b, [])
    decreases |a|
  {
    if a == [] {
      assert a + "\n" + b == "\n" + b && ("\n" + b)[1..] == b;
      assert acc + a == acc;
    } else {
      assert (a + "\n" + b)[1..] == a[1..] + "\n" + b;
      LinesFromPrefix(a[1..], acc + [a[0]], b);
      assert acc + [a[0]] + a[1..] == acc + a;
    }
  }

  /** Lines free of '\n' and of a trailing '\r', the last one non-empty, are
      read back from their join. */
  lemma {:induction false} LinesOfJoin(parts: seq<string>)
    requires |parts| > 0 && parts[|parts| - 1] != []
    requires forall k, i :: 0 <= k < |parts| && 0 <= i < |parts[k]| ==> parts[k][i] != '\n'
    requires forall k :: 0 <= k < |parts| && parts[k] != [] ==> parts[k][|parts[k]| - 1] != '\r'
    ensures Lines(Join(parts, '\n')) == parts
  {
    assert forall i :: 0 <= i < |parts[0]| ==> parts[0][i] != '\n';
    assert [] + parts[0] == parts[0];
    if |parts| == 1 {
      LinesFromRest(parts[0], []);
    } else {
      LinesFromPrefix(parts[0], [], Join(parts[1..], '\n'));
      assert parts[0] + "\n" + Join(parts[1..], '\n') == Join(parts, '\n');
      LinesOfJoin(parts[1..]);
      assert parts == [parts[0]] + parts[1..];
    }
  }

  /** Every character of a line occurs in the text. */
  lemma {:induction false} LinesFromChars(s: string, acc: string)
    requires forall i :: 0 <= i < |acc| ==> acc[i] != '\n'
    ensures forall k, i :: 0 <= k < |LinesFrom(s, acc)| && 0 <= i < |LinesFrom(s, acc)[k]| ==>
      LinesFrom(s, acc)[k][i] in acc + s
    decreases |s|
  {
    if s == [] {
    } else if s[0] == '\n' {
      LinesFromChars(s[1..], []);
      assert forall x :: x in s[1..] ==> x in acc + s;
      assert forall x :: x in acc ==> x in acc + s;
    } else {
      LinesFromChars(s[1..], acc + [s[0]]);
      assert acc + [s[0]] + s[1..] == acc + s;
    }
  }

  lemma LinesChars(s: string)
    ensures forall k, i :: 0 <= k < |Lines(s)| && 0 <= i < |Lines(s)[k]| ==> Lines(s)[k][i] in s
  {
    LinesFromChars(s, []);
    assert [] + s == s;
  }

  /** Only the empty text has no lines. */
  lemma LinesEmpty(s: string)
    ensures Lines(s) == [] <==> s == []
  {
    if s != [] {
      LinesFromNonEmpty(s, []);
    }
  }

  lemma {:induction false} LinesFromNonEmpty(s: string, acc: string)
    requires forall i :: 0 <= i < |acc| ==> acc[i] != '\n'
    requires s != [] || acc != []
    ensures LinesFrom(s, acc) != []
    decreases |s|
  {
    if s != [] && s[0] != '\n' {
      LinesFromNonEmpty(s[1..], acc + [s[0]]);
    }
  }

  /** Rust's `str::split_whitespace`: the maximal runs of non-whitespace. */
  function SplitWhitespace(s: string): (words: seq<string>)
    ensures forall k :: 0 <= k < |words| ==> words[k] != []
    ensures forall k, i :: 0 <= k < |words| && 0 <= i < |words[k]| ==> !IsWhitespace(words[k][i])
  {
    WordsFrom(s, [])
  }

  function WordsFrom(s: string, acc: string): (words: seq<string>)
    requires forall i :: 0 <= i < |acc| ==> !IsWhitespace(acc[i])
    ensures forall k :: 0 <= k < |words| ==> words[k] != []
    ensures forall k, i :: 0 <= k < |words| && 0 <= i < |words[k]| ==> !IsWhitespace(words[k][i])
    decreases |s|
  {
    if s == [] then (if acc == [] then [] else [acc])
    else if IsWhitespace(s[0]) then (if acc == [] then [] else [acc]) + WordsFrom(s[1..], [])
    else WordsFrom(s[1..], acc + [s[0]])
  }

  lemma {:induction false} WordsFromIndent(k: nat, t: string)
    ensures WordsFrom(Indent(k) + t, []) == WordsFrom(t, [])
  {
    if k > 0 {
      var s := Indent(k) + t;
      assert s[0] == ' ' && s[1..] == Indent(k - 1) + t;
      assert WordsFrom(s, []) == [] + WordsFrom(s[1..], []);
      WordsFromIndent(k - 1, t);
    } else {
      assert Indent(k) + t == t;
    }
  }

  lemma {:induction false} WordsFromWord(w: string, t: string, acc: string)
    requires forall i :: 0 <= i < |acc| ==> !IsWhitespace(acc[i])
    requires forall i :: 0 <= i < |w| ==> !IsWhitespace(w[i])
    ensures WordsFrom(w + t, acc) == WordsFrom(t, acc + w)
    decreases |w|
  {
    if w != [] {
      assert (w + t)[1..] == w[1..] + t;
      WordsFromWord(w[1..], t, acc + [w[0]]);
      assert acc + [w[0]] + w[1..] == acc + w;
    } else {
      assert acc + w == acc && w + t == t;
    }
  }

  /** Words separated by single spaces, with spaces around them, are split
      back out. */
  lemma {:induction false} WordsFromJoin(ws: seq<string>, k: nat, acc: string)
    requires ws != []
    requires forall j, i :: 0 <= j < |ws| && 0 <= i < |ws[j]| ==> !IsWhitespace(ws[j][i])
    requires forall j :: 0 <= j < |ws| ==> ws[j] != []
    requires forall i :: 0 <= i < |acc| ==> !IsWhitespace(acc[i])
    ensures WordsFrom(Join(ws, ' ') + Indent(k), acc) == [acc + ws[0]] + ws[1..]
  {
    var w := ws[0];
    assert forall i :: 0 <= i < |w| ==> !IsWhitespace(w[i]);
    if |ws| == 1 {
      WordsFromWord(w, Indent(k), acc);
      var a := acc + w;
      assert a != [];
      if k > 0 {
        assert Indent(k)[1..] == Indent(k - 1) + [];
        WordsFromIndent(k - 1, []);
      }
    } else {
      var rest := Join(ws[1..], ' ') + Indent(k);
      assert Join(ws, ' ') + Indent(k) == w + ([' '] + rest);
      WordsFromWord(w, [' '] + rest, acc);
      assert ([' '] + rest)[1..] == rest;
      WordsFromJoin(ws[1..], k, []);
      assert [] + ws[1..][0] == ws[1];
      assert ws[1..] == [ws[1]] + ws[2..];
    }
  }

  /** `split_whitespace` of space-separated words with spaces around them. */
  lemma SplitWhitespaceSpaced(a: nat, ws: seq<string>, b: nat)
    requires ws != []
    requires forall j, i :: 0 <= j < |ws| && 0 <= i < |ws[j]| ==> !IsWhitespace(ws[j][i])
    requires forall j :: 0 <= j < |ws| ==> ws[j] != []
    ensures SplitWhitespace(Indent(a) + Join(ws, ' ') + Indent(b)) == ws
  {
    assert Indent(a) + Join(ws, ' ') + Indent(b) == Indent(a) + (Join(ws, ' ') + Indent(b));
    WordsFromIndent(a, Join(ws, ' ') + Indent(b));
    WordsFromJoin(ws, b, []);
    assert [] + ws[0] == ws[0];
  }

  // ---------------------------------------------------------------------
  // split on blank lines

  /** `str::split("\n\n")`: the pieces between the blank lines. */
  function SplitBlank(s: string): (parts: seq<string>)
    ensures |parts| > 0
  {
    SplitBlankFrom(s, [])
  }

  function SplitBlankFrom(s: string, acc: string): (parts: seq<string>)
    ensures |parts| > 0
    decreases |s|
  {
    if s == [] then [acc]
    else if |s| >= 2 && s[0] == '\n' && s[1] == '\n' then [acc] + SplitBlankFrom(s[2..], [])
    else SplitBlankFrom(s[1..], acc + [s[0]])
  }

  /** The first piece is the text up to the first blank line: a prefix. */
  lemma {:induction false} SplitBlankFromFirst(s: string, acc: string)
    ensures |acc| <= |SplitBlankFrom(s, acc)[0]| <= |acc| + |s|
    ensures SplitBlankFrom(s, acc)[0] == acc + s[..|SplitBlankFrom(s, acc)[0]| - |acc|]
    decreases |s|
  {
    if s == [] {
      assert acc + s[..0] == acc;
    } else if |s| >= 2 && s[0] == '\n' && s[1] == '\n' {
      assert acc + s[..0] == acc;
    } else {
      SplitBlankFromFirst(s[1..], acc + [s[0]]);
      var n := |SplitBlankFrom(s, acc)[0]| - |acc|;
      assert acc + [s[0]] + s[1..][..n - 1] == acc + s[..n];
    }
  }

  /** The first piece of `split("\n\n")` is a prefix of the text. */
  lemma SplitBlankFirst(s: string)
    ensures |SplitBlank(s)[0]| <= |s| && SplitBlank(s)[0] == s[..|SplitBlank(s)[0]|]
  {
    SplitBlankFromFirst(s, []);
    assert [] + s[..|SplitBlank(s)[0]|] == s[..|SplitBlank(s)[0]|];
  }

  /** No blank line inside, and no newline at the end. */
  predicate NoBlankLine(a: string) {
    (forall i :: 0 <= i < |a| - 1 ==> !(a[i] == '\n' && a[i + 1] == '\n')) && (a == [] || a[|a| - 1] != '\n')
  }

  /** Text without a blank line is a single piece. */
  lemma {:induction false} SplitBlankFromNone(s: string, acc: string)
    requires forall i :: 0 <= i < |s| - 1 ==> !(s[i] == '\n' && s[i + 1] == '\n')
    ensures SplitBlankFrom(s, acc) == [acc + s]
    decreases |s|
  {
    if s == [] {
      assert acc + s == acc;
    } else {
      SplitBlankFromNone(s[1..], acc + [s[0]]);
      assert acc + [s[0]] + s[1..] == acc + s;
    }
  }

  /** Splitting `a + "\n\n" + b` where `a` holds no blank line and does not
      end in a newline gives `a` first, then the pieces of `b`. */
  lemma {:induction false} SplitBlankFromPrefix(a: string, acc: string, b: string)
    requires NoBlankLine(a)
    ensures SplitBlankFrom(a + "\n\n" + b, acc) == [acc + a] + SplitBlankFrom(b, [])
    decreases |a|
  {
    var s := a + "\n\n" + b;
    if a == [] {
      assert s[2..] == b;
      assert acc + a == acc;
    } else {
      assert s[1..] == a[1..] + "\n\n" + b;
      assert s[0] == a[0] && s[1] == (if |a| >= 2 then a[1] else '\n');
      SplitBlankFromPrefix(a[1..], acc + [a[0]], b);
      assert acc + [a[0]] + a[1..] == acc + a;
    }
  }

  /** A text without blank lines is one piece, and stays the first piece
      when a blank line and more text follow. */
  lemma SplitBlankOf(a: string, b: string)
    requires NoBlankLine(a)
    ensures SplitBlank(a) == [a] && SplitBlank(a + "\n\n" + b) == [a] + SplitBlank(b)
  {
    SplitBlankFromNone(a, []);
    SplitBlankFromPrefix(a, [], b);
    assert [] + a == a;
  }

  // ---------------------------------------------------------------------
  // sums and products

  function Sum(s: seq<int>): int {
    if s == [] then 0 else Sum(s[..|s| - 1]) + s[|s| - 1]
  }

  function Product(s: seq<int>): int {
    if s == [] then 1 else Product(s[..|s| - 1]) * s[|s| - 1]
  }

  lemma {:induction false} SumConcat(a: seq<int>, b: seq<int>)
    ensures Sum(a + b) == Sum(a) + Sum(b)
    decreases |b|
  {
    if b == [] {
      assert a + b == a;
    } else {
      assert (a + b)[..|a + b| - 1] == a + b[..|b| - 1];
      SumConcat(a, b[..|b| - 1]);
    }
  }

  // ---------------------------------------------------------------------
  // filter().count()

  /** The number of elements satisfying p (`iter().filter(p).count()`). */
  function CountWhere<T>(s: seq<T>, p: T -> bool): (n: nat)
    ensures n <= |s|
  {
    if s == [] then 0 else CountWhere(s[..|s| - 1], p) + (if p(s[|s| - 1]) then 1 else 0)
  }

  /** The count is the size of any set holding exactly the positions whose
      element satisfies p. */
  lemma {:induction false} CountWhereCard<T>(s: seq<T>, p: T -> bool, positions: set<int>)
    requires forall i :: i in positions <==> 0 <= i < |s| && p(s[i])
    ensures CountWhere(s, p) == |positions|
  {
    if s == [] {
      assert forall i :: i !in positions;
      assert positions == {};
    } else {
      var n := |s| - 1;
      var before := positions - {n};
      forall i
        ensures i in before <==> 0 <= i < |s[..n]| && p(s[..n][i])
      {
        if 0 <= i < n {
          assert s[..n][i] == s[i];
        }
      }
      CountWhereCard(s[..n], p, before);
      if p(s[n]) {
        assert positions == before + {n};
      } else {
        assert positions == before;
      }
    }
  }

  // ---------------------------------------------------------------------
  // arithmetic on naturals

  lemma MulMono(a: nat, b: nat, c: nat)
    requires a <= b
    ensures a * c <= b * c
  {
  }

  lemma MulStep(a: nat, b: nat, c: nat)
    requires a < b
    ensures a * c + c <= b * c
  {
    MulMono(a + 1, b, c);
  }

  /** Quotient and remainder are the only ones with a remainder below the
      divisor. */
  lemma ModUnique(y: nat, d: nat, q: nat, rem: nat)
    requires 0 <= rem < d && y == q * d + rem
    ensures y % d == rem
  {
    var q' := y / d;
    var r' := y % d;
    assert y == q' * d + r';
    if q' < q {
      MulStep(q', q, d);
      assert false;
    } else if q < q' {
      MulStep(q, q', d);
      assert false;
    }
  }

  /** The quotient is the only one that leaves a remainder below the divisor. */
  lemma DivUnique(y: nat, d: nat, q: nat, rem: nat)
    requires 0 <= rem < d && y == q * d + rem
    ensures y / d == q && y % d == rem
  {
    ModUnique(y, d, q, rem);
  }

  // ---------------------------------------------------------------------
  // counting and bits

  /** The indices 0, ..., n-1. */
  function Interval(n: nat): (r: set<int>)
    ensures forall i :: i in r <==> 0 <= i < n
    ensures |r| == n
  {
    if n == 0 then {} else Interval(n - 1) + {n - 1}
  }

  /** A set of indices below n has at most n elements. */
  lemma IndexSetBound(s: set<int>, n: nat)
    requires forall i :: i in s ==> 0 <= i < n
    ensures |s| <= n
  {
    SubsetSize(s, Interval(n));
  }

  lemma SubsetSize<T>(a: set<T>, b: set<T>)
    requires a <= b
    ensures |a| <= |b|
  {
    assert b == a + (b - a);
  }

  function Pow2(k: nat): (r: nat)
    ensures r >= 1
  {
    if k == 0 then 1 else 2 * Pow2(k - 1)
  }

  /** Bit i of n (bit 0 is the least significant). */
  function Bit(n: nat, i: nat): bool {
    if i == 0 then n % 2 == 1 else Bit(n / 2, i - 1)
  }

  // ---------------------------------------------------------------------
  // one number per line

  /** The numbers of the lines that parse, each line trimmed first;
      lines that do not parse are skipped (`flatten`). */
  function Numbers(lines: seq<string>): (ns: seq<nat>)
    ensures |ns| <= |lines|
  {
    if lines == [] then []
    else
      var rest := Numbers(lines[1..]);
      match ParseNat(Trim(lines[0]))
      case Some(n) => [n] + rest
      case None => rest
  }

  /** The lines of a list of numbers written one per line. */
  function NumberLines(ns: seq<nat>): (lines: seq<string>)
    ensures |lines| == |ns|
    ensures forall k :: 0 <= k < |ns| ==> lines[k] == NatToString(ns[k])
  {
    if ns == [] then [] else [NatToString(ns[0])] + NumberLines(ns[1..])
  }

  /** Numbers written one per line are read back. */
  lemma {:induction false} NumbersOfLines(ns: seq<nat>)
    ensures Numbers(NumberLines(ns)) == ns
  {
    if ns != [] {
      var s := NatToString(ns[0]);
      TrimNoop(s);
      ParseNatToString(ns[0]);
      assert NumberLines(ns)[1..] == NumberLines(ns[1..]);
      NumbersOfLines(ns[1..]);
    }
  }

  /** A non-empty list of numbers written one per line is read back. */
  lemma NumbersOfText(ns: seq<nat>)
    requires ns != []
    ensures Numbers(Lines(Join(NumberLines(ns), '\n'))) == ns
  {
    var lines := NumberLines(ns);
    forall k | 0 <= k < |lines|
      ensures AllDigits(lines[k]) && lines[k] != []
    {
    }
    LinesOfJoin(lines);
    NumbersOfLines(ns);
  }
}
