/** Day 20: camera tiles. A tile is ten rows of ten '.'/'#' pixels under a
    header "Tile N:"; each of its four edges is read as a 10-bit number. */
module Day20 {
  import opened Common

  /** `IMAGE_SIDE_LENGTH`. */
  const SideLength: nat := 10

  /** A `RawImage`: ten rows of ten characters, row y and column x at
      image[y][x]. */
  predicate IsRawImage(image: seq<seq<char>>) {
    |image| == SideLength && forall y :: 0 <= y < |image| ==> |image[y]| == SideLength
  }

  predicate IsPixel(c: char) { c == '.' || c == '#' }

  /** `convert`: '.' is 0 and '#' is 1; any other character panics (`None`). */
  function Convert(c: char): (r: Option<nat>)
    ensures r.Some? <==> IsPixel(c)
  {
    if c == '.' then Some(0) else if c == '#' then Some(1) else None
  }

  datatype Side = North | East | South | West

  /** Cell i of a side as `calculate_sides` reads it: the top row and the
      bottom row left to right, the right and the left column top to
      bottom. */
  function EdgeCell(image: seq<seq<char>>, side: Side, i: nat): char
    requires IsRawImage(image) && i < SideLength
  {
    match side
    case North => image[0][i]
    case East => image[i][SideLength - 1]
    case South => image[SideLength - 1][i]
    case West => image[i][0]
  }

  function Edge(image: seq<seq<char>>, side: Side): (cells: seq<char>)
    requires IsRawImage(image)
    ensures |cells| == SideLength && forall i :: 0 <= i < SideLength ==> cells[i] == EdgeCell(image, side, i)
  {
    match side
    case North => image[0]
    case East => Column(image, SideLength - 1)
    case South => image[SideLength - 1]
    case West => Column(image, 0)
  }

  /** Column x, top to bottom. */
  function Column(image: seq<seq<char>>, x: nat): (col: seq<char>)
    requires forall y :: 0 <= y < |image| ==> x < |image[y]|
    ensures |col| == |image| && forall y :: 0 <= y < |image| ==> col[y] == image[y][x]
  {
    if image == [] then [] else [image[0][x]] + Column(image[1..], x)
  }

  /** The cells read as a binary number, the first cell being the least
      significant bit; `None` when a cell is not a pixel. */
  function EdgeValue(cells: seq<char>): (r: Option<nat>)
    ensures r.Some? ==> r.value < Pow2(|cells|)
  {
    if cells == [] then Some(0)
    else
      var rest := EdgeValue(cells[1..]);
      match Convert(cells[0])
      case None => None
      case Some(b) => if rest.None? then None else Some(b + 2 * rest.value)
  }

  /** An edge has a value exactly when all of its cells are pixels. */
  lemma {:induction false} EdgeValueSome(cells: seq<char>)
    ensures EdgeValue(cells).Some? <==> forall i :: 0 <= i < |cells| ==> IsPixel(cells[i])
  {
    if cells != [] {
      EdgeValueSome(cells[1..]);
      assert forall i :: 1 <= i < |cells| ==> cells[i] == cells[1..][i - 1];
    }
  }

  /** Bit k of an edge value is set exactly when cell k is '#'. */
  lemma {:induction false} EdgeValueBits(cells: seq<char>, k: nat)
    requires EdgeValue(cells).Some? && k < |cells|
    ensures Bit(EdgeValue(cells).value, k) <==> cells[k] == '#'
  {
    var v := EdgeValue(cells).value;
    var w := EdgeValue(cells[1..]).value;
    assert v == Convert(cells[0]).value + 2 * w;
    if k > 0 {
      assert v / 2 == w;
      EdgeValueBits(cells[1..], k - 1);
    }
  }

  /** One more cell adds its bit at the next power of two: the step of the
      loop in `calculate_sides`. */
  lemma {:induction false} EdgeValueSnoc(cells: seq<char>, c: char)
    requires EdgeValue(cells).Some? && IsPixel(c)
    ensures EdgeValue(cells + [c]) == Some(EdgeValue(cells).value + Convert(c).value * Pow2(|cells|))
  {
    var b := Convert(c).value;
    if cells == [] {
      assert cells + [c] == [c];
      assert [c][1..] == [];
    } else {
      assert (cells + [c])[1..] == cells[1..] + [c];
      EdgeValueSnoc(cells[1..], c);
      var w := EdgeValue(cells[1..]).value;
      assert 2 * (w + b * Pow2(|cells| - 1)) == 2 * w + b * Pow2(|cells|);
    }
  }

  datatype Sides = Sides(north: nat, east: nat, south: nat, west: nat)

  /** The four edge values; `None` when a border cell is not a pixel. */
  function SidesOf(image: seq<seq<char>>): Option<Sides>
    requires IsRawImage(image)
  {
    var north := EdgeValue(Edge(image, North));
    var east := EdgeValue(Edge(image, East));
    var south := EdgeValue(Edge(image, South));
    var west := EdgeValue(Edge(image, West));
    if north.Some? && east.Some? && south.Some? && west.Some? then
      Some(Sides(north.value, east.value, south.value, west.value))
    else
      None
  }

  /** The edges exist exactly when every border cell is a pixel: any other
      character on the border panics in `convert`. */
  lemma SidesOfSome(image: seq<seq<char>>)
    requires IsRawImage(image)
    ensures SidesOf(image).Some? <==> forall side, i :: 0 <= i < SideLength ==> IsPixel(EdgeCell(image, side, i))
  {
    EdgeValueSome(Edge(image, North));
    EdgeValueSome(Edge(image, East));
    EdgeValueSome(Edge(image, South));
    EdgeValueSome(Edge(image, West));
    if SidesOf(image).Some? {
      forall side, i | 0 <= i < SideLength ensures IsPixel(EdgeCell(image, side, i)) {
        assert EdgeCell(image, side, i) == Edge(image, side)[i];
      }
    } else {
      var side := if EdgeValue(Edge(image, North)).None? then North
        else if EdgeValue(Edge(image, East)).None? then East
        else if EdgeValue(Edge(image, South)).None? then South else West;
      var i :| 0 <= i < SideLength && !IsPixel(Edge(image, side)[i]);
      assert !IsPixel(EdgeCell(image, side, i));
    }
  }

  /** The sum the loop has built for a side after i steps: bit j of the
      side times 2^j for every j below i; `None` once a cell is not a
      pixel. */
  function SideSum(image: seq<seq<char>>, side: Side, i: nat): Option<nat>
    requires IsRawImage(image) && i <= SideLength
  {
    if i == 0 then Some(0)
    else match (SideSum(image, side, i - 1), Convert(EdgeCell(image, side, i - 1)))
      case (Some(v), Some(b)) => Some(v + b * Pow2(i - 1))
      case _ => None
  }

  /** A cell that is not a pixel, or one before it, leaves an edge without
      a value. */
  lemma EdgeValueNoneSnoc(cells: seq<char>, c: char)
    requires EdgeValue(cells).None? || !IsPixel(c)
    ensures EdgeValue(cells + [c]).None?
  {
    EdgeValueSome(cells);
    EdgeValueSome(cells + [c]);
    if !IsPixel(c) {
      assert !IsPixel((cells + [c])[|cells|]);
    } else {
      var j :| 0 <= j < |cells| && !IsPixel(cells[j]);
      assert !IsPixel((cells + [c])[j]);
    }
  }

  lemma SideSumStep(image: seq<seq<char>>, side: Side, i: nat)
    requires IsRawImage(image) && 0 < i <= SideLength
    requires SideSum(image, side, i - 1) == EdgeValue(Edge(image, side)[..i - 1])
    ensures SideSum(image, side, i) == EdgeValue(Edge(image, side)[..i])
  {
    var cells := Edge(image, side);
    assert cells[..i] == cells[..i - 1] + [cells[i - 1]];
    if EdgeValue(cells[..i - 1]).Some? && IsPixel(cells[i - 1]) {
      EdgeValueSnoc(cells[..i - 1], cells[i - 1]);
    } else {
      EdgeValueNoneSnoc(cells[..i - 1], cells[i - 1]);
    }
  }

  /** One more step of the loop's sum. */
  lemma SideSumNext(image: seq<seq<char>>, side: Side, i: nat, v: int, b: int)
    requires IsRawImage(image) && i < SideLength
    requires SideSum(image, side, i) == Some(v) && Convert(EdgeCell(image, side, i)) == Some(b)
    ensures SideSum(image, side, i + 1) == Some(v + b * Pow2(i))
  {
  }

  /** The loop's sum is the side read as a binary number, prefix by prefix. */
  lemma {:induction false} SideSumEdge(image: seq<seq<char>>, side: Side, i: nat)
    requires IsRawImage(image) && i <= SideLength
    ensures SideSum(image, side, i) == EdgeValue(Edge(image, side)[..i])
  {
    if i == 0 {
      assert Edge(image, side)[..0] == [];
    } else {
      SideSumEdge(image, side, i - 1);
      SideSumStep(image, side, i);
    }
  }

  /** After all ten steps the sums are the edges. */
  lemma SideSumsAll(image: seq<seq<char>>, n: nat, e: nat, s: nat, w: nat)
    requires IsRawImage(image)
    requires SideSum(image, North, SideLength) == Some(n) && SideSum(image, East, SideLength) == Some(e)
    requires SideSum(image, South, SideLength) == Some(s) && SideSum(image, West, SideLength) == Some(w)
    ensures SidesOf(image) == Some(Sides(n, e, s, w))
  {
    SideSumEdge(image, North, SideLength);
    SideSumEdge(image, East, SideLength);
    SideSumEdge(image, South, SideLength);
    SideSumEdge(image, West, SideLength);
    assert Edge(image, North)[..SideLength] == Edge(image, North) && Edge(image, East)[..SideLength] == Edge(image, East);
    assert Edge(image, South)[..SideLength] == Edge(image, South) && Edge(image, West)[..SideLength] == Edge(image, West);
  }

  /** A border cell that is not a pixel makes the edges fail: the panic. */
  lemma SummedFails(image: seq<seq<char>>, i: nat)
    requires IsRawImage(image) && i < SideLength
    requires !(IsPixel(image[0][i]) && IsPixel(image[i][SideLength - 1]) &&
               IsPixel(image[SideLength - 1][i]) && IsPixel(image[i][0]))
    ensures SidesOf(image) == None
  {
    SidesOfSome(image);
    if !IsPixel(image[0][i]) {
      assert !IsPixel(EdgeCell(image, North, i));
    } else if !IsPixel(image[i][SideLength - 1]) {
      assert !IsPixel(EdgeCell(image, East, i));
    } else if !IsPixel(image[SideLength - 1][i]) {
      assert !IsPixel(EdgeCell(image, South, i));
    } else {
      assert !IsPixel(EdgeCell(image, West, i));
    }
  }

  /** `calculate_sides`: one pass over the ten positions, adding bit i of
      each edge times 2^i. */
  method CalculateSides(image: seq<seq<char>>) returns (r: Option<Sides>)
    requires IsRawImage(image)
    ensures r == SidesOf(image)
  {
    var north, east, south, west := 0, 0, 0, 0;
    var i := 0;
    while i < SideLength
      invariant 0 <= i <= SideLength
      invariant SideSum(image, North, i) == Some(north) && SideSum(image, East, i) == Some(east)
      invariant SideSum(image, South, i) == Some(south) && SideSum(image, West, i) == Some(west)
    {
      var northConverted := Convert(image[0][i]);
      var eastConverted := Convert(image[i][SideLength - 1]);
      var southConverted := Convert(image[SideLength - 1][i]);
      var westConverted := Convert(image[i][0]);
      if northConverted.None? || eastConverted.None? || southConverted.None? || westConverted.None? {
        SummedFails(image, i);
        return None;
      }
      SideSumNext(image, North, i, north, northConverted.value);
      SideSumNext(image, East, i, east, eastConverted.value);
      SideSumNext(image, South, i, south, southConverted.value);
      SideSumNext(image, West, i, west, westConverted.value);
      north := north + northConverted.value * Pow2(i);
      east := east + eastConverted.value * Pow2(i);
      south := south + southConverted.value * Pow2(i);
      west := west + westConverted.value * Pow2(i);
      i := i + 1;
    }
    SideSumsAll(image, north, east, south, west);
    return Some(Sides(north, east, south, west));
  }

  // ---------------------------------------------------------------------
  // what the edge values say about the tile

  /** Bit i of each edge is the pixel the loop reads for it: image[0][i]
      for north, image[i][9] for east, image[9][i] for south and image[i][0]
      for west. */
  lemma SidesBits(image: seq<seq<char>>, i: nat)
    requires IsRawImage(image) && SidesOf(image).Some? && i < SideLength
    ensures var s := SidesOf(image).value;
      (Bit(s.north, i) <==> image[0][i] == '#') && (Bit(s.east, i) <==> image[i][SideLength - 1] == '#') &&
      (Bit(s.south, i) <==> image[SideLength - 1][i] == '#') && (Bit(s.west, i) <==> image[i][0] == '#')
  {
    EdgeValueBits(Edge(image, North), i);
    EdgeValueBits(Edge(image, East), i);
    EdgeValueBits(Edge(image, South), i);
    EdgeValueBits(Edge(image, West), i);
  }

  /** Neighbouring edges share their corner pixels. */
  lemma SidesCorners(image: seq<seq<char>>)
    requires IsRawImage(image) && SidesOf(image).Some?
    ensures var s := SidesOf(image).value;
      Bit(s.north, 0) == Bit(s.west, 0) && Bit(s.north, SideLength - 1) == Bit(s.east, 0) &&
      Bit(s.east, SideLength - 1) == Bit(s.south, SideLength - 1) && Bit(s.south, 0) == Bit(s.west, SideLength - 1)
  {
    SidesBits(image, 0);
    SidesBits(image, SideLength - 1);
  }

  /** Each edge is a 10-bit number, so the `u32` sums never overflow. */
  lemma SidesBound(image: seq<seq<char>>)
    requires IsRawImage(image) && SidesOf(image).Some?
    ensures var s := SidesOf(image).value;
      s.north < 1024 && s.east < 1024 && s.south < 1024 && s.west < 1024
  {
    Pow2Ten();
    var s := SidesOf(image).value;
    assert s == Sides(EdgeValue(Edge(image, North)).value, EdgeValue(Edge(image, East)).value,
      EdgeValue(Edge(image, South)).value, EdgeValue(Edge(image, West)).value);
  }

  lemma Pow2Ten()
    ensures Pow2(SideLength) == 1024
  {
    assert Pow2(0) == 1 && Pow2(1) == 2 && Pow2(2) == 4 && Pow2(3) == 8 && Pow2(4) == 16;
    assert Pow2(5) == 32 && Pow2(6) == 64 && Pow2(7) == 128 && Pow2(8) == 256;
    assert Pow2(9) == 512 && Pow2(10) == 1024;
  }

  /** Only the border is read: tiles with the same border have the same
      edges, whatever their inside. */
  lemma SidesOfBorder(a: seq<seq<char>>, b: seq<seq<char>>)
    requires IsRawImage(a) && IsRawImage(b)
    requires forall side, i :: 0 <= i < SideLength ==> EdgeCell(a, side, i) == EdgeCell(b, side, i)
    ensures SidesOf(a) == SidesOf(b)
  {
    assert Edge(a, North) == Edge(b, North) && Edge(a, East) == Edge(b, East);
    assert Edge(a, South) == Edge(b, South) && Edge(a, West) == Edge(b, West);
  }

  // ---------------------------------------------------------------------
  // input_generator

  /** Rust's `str::parse::<u32>`. */
  function ParseU32(s: string): (r: Option<nat>)
    ensures r.Some? ==> r.value < 0x1_0000_0000 && ParseNat(s) == r
  {
    match ParseNat(s)
    case Some(v) => if v < 0x1_0000_0000 then Some(v) else None
    case None => None
  }

  /** The number of a header line: the second piece of the line split on
      ' ', without its last character (the ':'). `None` where the source
      panics: no second piece, an empty one, or no `u32` before the last
      character. */
  function TileNumber(header: string): (r: Option<nat>)
    ensures r.Some? ==> r.value < 0x1_0000_0000
    ensures r.Some? ==> |Split(header, ' ')| >= 2 && (var f := Split(header, ' ')[1];
      f != [] && ParseNat(f[..|f| - 1]) == r)
  {
    var pieces := Split(header, ' ');
    if |pieces| < 2 || pieces[1] == [] then None
    else ParseU32(pieces[1][..|pieces[1]| - 1])
  }

  /** "word N:" gives N; the last character is dropped unchecked, so any
      character in the place of the ':' does. */
  lemma TileNumberOf(word: string, n: nat, c: char)
    requires n < 0x1_0000_0000 && c != ' ' && forall i :: 0 <= i < |word| ==> word[i] != ' '
    ensures TileNumber(word + " " + NatToString(n) + [c]) == Some(n)
  {
    var d := NatToString(n);
    assert forall i :: 0 <= i < |d| ==> IsDigit(d[i]);
    SplitOfJoin([word, d + [c]], ' ');
    assert Join([word, d + [c]], ' ') == word + " " + d + [c];
    assert (d + [c])[..|d|] == d;
    ParseNatToString(n);
  }

  datatype Image = Image(number: nat, rawImage: seq<seq<char>>, north: nat, east: nat, south: nat, west: nat)

  /** One tile: the trimmed lines, the header's number, the following lines
      as the raw image and its four edges. `None` where the source panics:
      no header, a bad number, not ten lines of ten characters, or a border
      cell that is not a pixel. */
  function ParseTile(block: string): (r: Option<Image>)
    ensures r.Some? ==> (IsRawImage(r.value.rawImage) && r.value.number < 0x1_0000_0000 &&
      SidesOf(r.value.rawImage) == Some(Sides(r.value.north, r.value.east, r.value.south, r.value.west)))
  {
    var lines := TrimAll(Lines(block));
    if lines == [] then None
    else match TileNumber(lines[0])
      case None => None
      case Some(number) =>
        var raw := lines[1..];
        if !IsRawImage(raw) then None
        else match SidesOf(raw)
          case None => None
          case Some(s) => Some(Image(number, raw, s.north, s.east, s.south, s.west))
  }

  /** The body of the loop in `input_generator`: one block parsed step by
      step, its edges computed by `calculate_sides`. */
  method ParseImage(block: string) returns (r: Option<Image>)
    ensures r == ParseTile(block)
  {
    var imageLines := TrimAll(Lines(block));
    if imageLines == [] {
      return None;
    }
    var number := TileNumber(imageLines[0]);
    if number.None? {
      return None;
    }
    var rawImage := imageLines[1..];
    if !IsRawImage(rawImage) {
      return None;
    }
    var sides := CalculateSides(rawImage);
    if sides.None? {
      return None;
    }
    return Some(Image(number.value, rawImage, sides.value.north, sides.value.east, sides.value.south, sides.value.west));
  }

  /** `input_generator`: only the first block is taken; it is parsed and
      pushed onto the result, which thus holds exactly one image. */
  method InputGenerator(input: string) returns (r: Option<seq<Image>>)
    ensures r.Some? <==> ParseTile(SplitBlank(input)[0]).Some?
    ensures r.Some? ==> r.value == [ParseTile(SplitBlank(input)[0]).value]
  {
    var images := [SplitBlank(input)[0]];
    var parsedImages: seq<Image> := [];
    for k := 0 to |images|
      invariant |parsedImages| == k
      invariant forall j :: 0 <= j < k ==> ParseTile(images[j]) == Some(parsedImages[j])
    {
      var image := ParseImage(images[k]);
      if image.None? {
        return None;
      }
      parsedImages := parsedImages + [image.value];
    }
    assert ParseTile(images[0]) == Some(parsedImages[0]) && parsedImages == [parsedImages[0]];
    return Some(parsedImages);
  }

  // ---------------------------------------------------------------------
  // the tile of the unit test

  /** Ten rows of ten pixels. */
  predicate PixelRows(rows: seq<string>) {
    IsRawImage(rows) && forall y, x :: 0 <= y < |rows| && 0 <= x < |rows[y]| ==> IsPixel(rows[y][x])
  }

  /** A line that trimming leaves as it is, with no line break in it. */
  predicate HeaderLine(header: string) {
    header != [] && !IsWhitespace(header[0]) && !IsWhitespace(header[|header| - 1]) &&
    forall i :: 0 <= i < |header| ==> header[i] != '\n'
  }

  function Indented(rows: seq<string>, k: nat): (r: seq<string>)
    ensures |r| == |rows| && forall j :: 0 <= j < |rows| ==> r[j] == Indent(k) + rows[j]
  {
    seq(|rows|, j requires 0 <= j < |rows| => Indent(k) + rows[j])
  }

  /** A tile as the test writes it: the header, then each row on a line of
      its own after k spaces. */
  function TileText(header: string, rows: seq<string>, k: nat): string {
    Join([header] + Indented(rows, k), '\n')
  }

  /** The lines of a tile text are its non-empty pieces, none holding a
      line break. */
  predicate TileLine(line: string) {
    line != [] && line[|line| - 1] != '\r' && forall i :: 0 <= i < |line| ==> line[i] != '\n'
  }

  lemma IndentedLine(row: string, k: nat)
    requires |row| == SideLength && forall x :: 0 <= x < |row| ==> IsPixel(row[x])
    ensures TileLine(Indent(k) + row) && Trim(Indent(k) + row) == row
  {
    var line := Indent(k) + row;
    forall i | 0 <= i < |line| ensures line[i] != '\n' {
      if i >= k {
        assert line[i] == row[i - k];
      }
    }
    assert line[|line| - 1] == row[SideLength - 1];
    TrimIndented(k, row);
  }

  lemma TileLines(header: string, rows: seq<string>, k: nat)
    requires HeaderLine(header) && PixelRows(rows)
    ensures TrimAll(Lines(TileText(header, rows, k))) == [header] + rows
  {
    TileTextLines(header, rows, k);
    TileLinesTrimmed(header, rows, k);
  }

  /** The lines of a tile text are the header and the indented rows. */
  lemma TileTextLines(header: string, rows: seq<string>, k: nat)
    requires HeaderLine(header) && PixelRows(rows)
    ensures Lines(TileText(header, rows, k)) == [header] + Indented(rows, k)
  {
    var parts := [header] + Indented(rows, k);
    forall j | 0 < j < |parts|
      ensures TileLine(parts[j])
    {
      IndentedLine(rows[j - 1], k);
    }
    assert forall j :: 0 <= j < |parts| ==> TileLine(parts[j]);
    LinesOfJoin(parts);
  }

  /** Trimming takes the indentation off every row and leaves the header. */
  lemma TileLinesTrimmed(header: string, rows: seq<string>, k: nat)
    requires HeaderLine(header) && PixelRows(rows)
    ensures TrimAll([header] + Indented(rows, k)) == [header] + rows
  {
    var parts := [header] + Indented(rows, k);
    var trimmed := TrimAll(parts);
    TrimNoop(header);
    forall j | 0 <= j < |parts|
      ensures trimmed[j] == ([header] + rows)[j]
    {
      if j > 0 {
        IndentedLine(rows[j - 1], k);
      }
    }
  }

  /** Pieces with no line break and none empty join into text with no
      blank line. */
  lemma {:induction false} JoinNoBlank(parts: seq<string>)
    requires |parts| > 0 && forall j :: 0 <= j < |parts| ==> TileLine(parts[j])
    ensures NoBlankLine(Join(parts, '\n')) && |parts[0]| > 0 && |Join(parts, '\n')| > 0 && Join(parts, '\n')[0] == parts[0][0]
  {
    if |parts| == 1 {
      assert Join(parts, '\n') == parts[0];
    } else {
      var a := parts[0];
      var b := Join(parts[1..], '\n');
      JoinNoBlank(parts[1..]);
      var t := a + "\n" + b;
      assert t == Join(parts, '\n');
      forall i | 0 <= i < |t| - 1
        ensures !(t[i] == '\n' && t[i + 1] == '\n')
      {
        if i < |a| {
          assert t[i] == a[i];
        } else if i == |a| {
          assert t[i + 1] == b[0];
        } else {
          assert t[i] == b[i - |a| - 1] && t[i + 1] == b[i - |a|];
        }
      }
      assert t[|t| - 1] == b[|b| - 1];
      assert t[0] == a[0];
    }
  }

  lemma PixelRowsSides(rows: seq<string>)
    requires PixelRows(rows)
    ensures SidesOf(rows).Some?
  {
    SidesOfSome(rows);
    forall side, i | 0 <= i < SideLength
      ensures IsPixel(EdgeCell(rows, side, i))
    {
    }
  }

  /** A tile text has no blank line, so it is one block. */
  lemma TileTextBlock(header: string, rows: seq<string>, k: nat)
    requires HeaderLine(header) && PixelRows(rows)
    ensures SplitBlank(TileText(header, rows, k))[0] == TileText(header, rows, k)
  {
    var parts := [header] + Indented(rows, k);
    assert TileLine(parts[0]);
    forall j | 0 < j < |parts| ensures TileLine(parts[j]) {
      IndentedLine(rows[j - 1], k);
    }
    JoinNoBlank(parts);
    SplitBlankOf(TileText(header, rows, k), []);
  }

  /** A well-formed tile text is one block, and parses to the header's
      number, its rows and their edges. */
  lemma ParseTileText(word: string, n: nat, c: char, rows: seq<string>, k: nat)
    requires word != [] && !IsWhitespace(word[0]) && forall i :: 0 <= i < |word| ==> word[i] != ' ' && word[i] != '\n'
    requires n < 0x1_0000_0000 && !IsWhitespace(c) && c != '\n'
    requires PixelRows(rows)
    ensures SidesOf(rows).Some?
    ensures var text := TileText(word + " " + NatToString(n) + [c], rows, k);
      SplitBlank(text)[0] == text
    ensures var s := SidesOf(rows).value;
      ParseTile(TileText(word + " " + NatToString(n) + [c], rows, k)) == Some(Image(n, rows, s.north, s.east, s.south, s.west))
  {
    var header := word + " " + NatToString(n) + [c];
    var d := NatToString(n);
    assert forall i :: 0 <= i < |d| ==> IsDigit(d[i]);
    assert HeaderLine(header);
    TileLines(header, rows, k);
    TileTextBlock(header, rows, k);
    TileNumberOf(word, n, c);
    PixelRowsSides(rows);
    var lines := TrimAll(Lines(TileText(header, rows, k)));
    assert lines[0] == header && lines[1..] == rows;
  }

  /** The ten rows of the unit test's tile. */
  const ExampleRows: seq<string> := [
    "..##.#..#.", "##..#.....", "#...##..#.", "####.#...#", "##.##.###.",
    "##...#.###", ".#.#.#..##", "..#....#..", "###...#.#.", "..###..###"]

  lemma ExamplePixels(rows: seq<string>)
    requires rows == ExampleRows
    ensures PixelRows(rows)
  {
    forall y, x | 0 <= y < |rows| && 0 <= x < |rows[y]| ensures IsPixel(rows[y][x]) {
    }
  }

  lemma ExampleRowEdges(rows: seq<string>)
    requires rows == ExampleRows
    ensures IsRawImage(rows) && Edge(rows, North) == "..##.#..#." && Edge(rows, South) == "..###..###"
  {
  }

  lemma ExampleEastEdge(rows: seq<string>)
    requires rows == ExampleRows
    ensures IsRawImage(rows) && Edge(rows, East) == "...#.##..#"
  {
  }

  lemma ExampleWestEdge(rows: seq<string>)
    requires rows == ExampleRows
    ensures IsRawImage(rows) && Edge(rows, West) == ".#####..#."
  {
  }

  /** 1 for '#', 0 otherwise. */
  function PixelBit(c: char): nat {
    if c == '#' then 1 else 0
  }

  /** Reading from cell k on: cell k is the low bit, the rest count double. */
  lemma EdgeValueStep(cells: seq<char>, k: nat)
    requires k < |cells| && IsPixel(cells[k]) && EdgeValue(cells[k + 1..]).Some?
    ensures EdgeValue(cells[k..]) == Some(PixelBit(cells[k]) + 2 * EdgeValue(cells[k + 1..]).value)
  {
    assert cells[k..][0] == cells[k] && cells[k..][1..] == cells[k + 1..];
  }

  /** Five pixels from cell k on, then the rest at 2^5. */
  lemma EdgeValueFive(cells: seq<char>, k: nat)
    requires k + 5 <= |cells| && forall i :: k <= i < k + 5 ==> IsPixel(cells[i])
    requires EdgeValue(cells[k + 5..]).Some?
    ensures EdgeValue(cells[k..]) == Some(PixelBit(cells[k]) + 2 * PixelBit(cells[k + 1]) + 4 * PixelBit(cells[k + 2]) +
      8 * PixelBit(cells[k + 3]) + 16 * PixelBit(cells[k + 4]) + 32 * EdgeValue(cells[k + 5..]).value)
  {
    EdgeValueStep(cells, k + 4);
    EdgeValueStep(cells, k + 3);
    EdgeValueStep(cells, k + 2);
    EdgeValueStep(cells, k + 1);
    EdgeValueStep(cells, k);
  }

  /** The value of a ten-pixel edge, bit by bit. */
  lemma EdgeValueTen(cells: seq<char>)
    requires |cells| == 10 && forall i :: 0 <= i < |cells| ==> IsPixel(cells[i])
    ensures EdgeValue(cells) == Some(PixelBit(cells[0]) + 2 * PixelBit(cells[1]) + 4 * PixelBit(cells[2]) +
      8 * PixelBit(cells[3]) + 16 * PixelBit(cells[4]) + 32 * PixelBit(cells[5]) + 64 * PixelBit(cells[6]) +
      128 * PixelBit(cells[7]) + 256 * PixelBit(cells[8]) + 512 * PixelBit(cells[9]))
  {
    assert cells[10..] == [];
    EdgeValueFive(cells, 5);
    EdgeValueFive(cells, 0);
    assert cells[0..] == cells;
  }

  lemma EdgeValueNorth(cells: seq<char>)
    requires cells == "..##.#..#."
    ensures EdgeValue(cells) == Some(300)
  {
    EdgeValueTen(cells);
  }

  lemma EdgeValueEast(cells: seq<char>)
    requires cells == "...#.##..#"
    ensures EdgeValue(cells) == Some(616)
  {
    EdgeValueTen(cells);
  }

  lemma EdgeValueSouth(cells: seq<char>)
    requires cells == "..###..###"
    ensures EdgeValue(cells) == Some(924)
  {
    EdgeValueTen(cells);
  }

  lemma EdgeValueWest(cells: seq<char>)
    requires cells == ".#####..#."
    ensures EdgeValue(cells) == Some(318)
  {
    EdgeValueTen(cells);
  }

  lemma ExampleSides(rows: seq<string>)
    requires rows == ExampleRows
    ensures IsRawImage(rows) && SidesOf(rows) == Some(Sides(300, 616, 924, 318))
  {
    ExampleRowEdges(rows);
    ExampleEastEdge(rows);
    ExampleWestEdge(rows);
    EdgeValueNorth(Edge(rows, North));
    EdgeValueEast(Edge(rows, East));
    EdgeValueSouth(Edge(rows, South));
    EdgeValueWest(Edge(rows, West));
  }

  lemma SpellHeader(header: string)
    requires header == "Tile 2311:"
    ensures header == "Tile" + " " + NatToString(2311) + [':']
  {
    assert NatToString(2311) == "2311";
  }

  /** Any ten pixel rows with these edges under the header "Tile 2311:". */
  lemma TileWithSides(header: string, rows: seq<string>, k: nat)
    requires header == "Tile 2311:" && PixelRows(rows) && SidesOf(rows) == Some(Sides(300, 616, 924, 318))
    ensures SplitBlank(TileText(header, rows, k))[0] == TileText(header, rows, k)
    ensures ParseTile(TileText(header, rows, k)) == Some(Image(2311, rows, 300, 616, 924, 318))
  {
    SpellHeader(header);
    ParseTileText("Tile", 2311, ':', rows, k);
  }

  /** The unit test: tile 2311, with its rows indented by twelve spaces,
      is read whole and has the edges 300, 616, 924 and 318. */
  lemma ExampleTile(header: string, rows: seq<string>)
    requires header == "Tile 2311:" && rows == ExampleRows
    ensures SplitBlank(TileText(header, rows, 12))[0] == TileText(header, rows, 12)
    ensures ParseTile(TileText(header, rows, 12)) == Some(Image(2311, rows, 300, 616, 924, 318))
  {
    ExamplePixels(rows);
    ExampleSides(rows);
    TileWithSides(header, rows, 12);
  }
}
