/** Parsing of the colour and point arguments the rules engine accepts. */
module Tokens {
  import opened Wrappers
  import opened Text
  import Grid

  /** Why the rules engine refuses a move; the source raises one exception type for all. */
  datatype BoardError = InvalidColor | InvalidPoint | OccupiedPoint | RepeatedPosition

  /** A colour argument: the source accepts an integer or a string. */
  datatype ColorToken = ColorNumber(number: int) | ColorText(text: string)

  /** A point argument: the source accepts an integer index or a string such as `d4`. */
  datatype PointToken = PointNumber(index: int) | PointText(text: string)

  /** Colour 1 is black, colour 2 is white. */
  function ParseColor(t: ColorToken): (r: Result<int, BoardError>)
    ensures r.Ok? ==> r.value == 1 || r.value == 2
    ensures t.ColorNumber? ==> (r.Ok? <==> t.number == 1 || t.number == 2)
    ensures t.ColorNumber? && r.Ok? ==> r.value == t.number
    ensures t.ColorText? ==> (r == Ok(1) <==> Lower(t.text) == "b" || Lower(t.text) == "black")
    ensures t.ColorText? ==> (r == Ok(2) <==> Lower(t.text) == "w" || Lower(t.text) == "white")
    ensures r.Err? ==> r.error == InvalidColor
  {
    match t
    case ColorNumber(k) =>
      if k == 1 || k == 2 then Ok(k) else Err(InvalidColor)
    case ColorText(s) =>
      var l := Lower(s);
      if l == "b" || l == "black" then Ok(1)
      else if l == "w" || l == "white" then Ok(2)
      else Err(InvalidColor)
  }

  /** Colour names are read case-insensitively: a name and its lower-case form parse alike. */
  lemma ParseColorIgnoresCase(s: string)
    ensures ParseColor(ColorText(s)) == ParseColor(ColorText(Lower(s)))
  {
    LowerIdempotent(s);
  }

  /** The code point of the letter naming column `col`: letters from `a`, skipping `i`. */
  function ColumnCode(col: nat): (code: int)
  {
    if col < 8 then 'a' as int + col else 'b' as int + col
  }

  /** The letter naming column `col` of a board of up to 25 lines, lower or upper case:
      `a` to `h` for columns 0 to 7, then `j` to `z`, since `i` is skipped. */
  function ColumnLetter(col: nat, upper: bool): (ch: char)
    requires col < 25
    ensures 'a' <= ch <= 'z' || 'A' <= ch <= 'Z'
    ensures ch != 'i' && ch != 'I'
    ensures col < 8 <==> (if upper then ch < 'I' else ch < 'i')
  {
    (ColumnCode(col) - (if upper then 32 else 0)) as char
  }

  /** The point a move names on a board of side `size`, as column times size plus row.
      A text point is a column letter (any case, `i` excluded) followed by the 1-based row
      in decimal; surrounding whitespace is ignored. */
  function ParsePoint(t: PointToken, size: int): (r: Result<int, BoardError>)
    requires t.PointText? ==> |Strip(t.text)| > 0
    ensures r.Ok? ==> 0 <= r.value < size * size
    ensures t.PointNumber? ==> (r.Ok? <==> 0 <= t.index < size * size)
    ensures t.PointNumber? && r.Ok? ==> r.value == t.index
    ensures t.PointText? && r.Ok? ==> size > 0
    ensures t.PointText? && LowerChar(Strip(t.text)[0]) == 'i' ==> r.Err?
    ensures r.Err? ==> r.error == InvalidPoint
  {
    match t
    case PointNumber(k) =>
      if 0 <= k < size * size then Ok(k) else Err(InvalidPoint)
    case PointText(text) =>
      var s := Strip(text);
      var letter := LowerChar(s[0]);
      if letter == 'i' then Err(InvalidPoint)
      else
        var col := if letter < 'i' then letter as int - 'a' as int else letter as int - 'b' as int;
        if col < 0 || col >= size then Err(InvalidPoint)
        else if |s| == 1 || !AllDigits(s[1..]) then Err(InvalidPoint)
        else
          var row := DigitsValue(s[1..]) - 1;
          if row < 0 || row >= size then Err(InvalidPoint)
          else
            PointInRange(size, col, row);
            Ok(col * size + row)
  }

  lemma PointInRange(size: int, col: int, row: int)
    requires 0 <= col < size && 0 <= row < size
    ensures 0 <= col * size + row < size * size
  {
    assert col * size <= (size - 1) * size by {
      assert (size - 1) * size - col * size == (size - 1 - col) * size;
    }
  }

  /** What a successful text point consists of: a column letter naming column
      `value / size` and a decimal row naming row `value % size`, counted from 1. */
  lemma ParsePointShape(text: string, size: int)
    requires |Strip(text)| > 0
    requires ParsePoint(PointText(text), size).Ok?
    ensures var s, v := Strip(text), ParsePoint(PointText(text), size).value;
      && size > 0 && 0 <= v / size < size
      && LowerChar(s[0]) as int == ColumnCode(v / size)
      && |s| > 1 && AllDigits(s[1..]) && DigitsValue(s[1..]) == v % size + 1
  {
    var s := Strip(text);
    var letter := LowerChar(s[0]);
    var col := if letter < 'i' then letter as int - 'a' as int else letter as int - 'b' as int;
    var row := DigitsValue(s[1..]) - 1;
    var v := ParsePoint(PointText(text), size).value;
    assert v == col * size + row;
    Grid.DivModUnique(size, v, col, row);
  }

  /** A text point whose letter names column `col` and whose digits name row `row + 1`
      parses to `col * size + row`. */
  lemma ParseColumnRow(text: string, size: int, col: nat, row: nat)
    requires |Strip(text)| > 0 && col < size && row < size
    requires var s := Strip(text);
      && LowerChar(s[0]) as int == ColumnCode(col)
      && |s| > 1 && AllDigits(s[1..]) && DigitsValue(s[1..]) == row + 1
    ensures ParsePoint(PointText(text), size) == Ok(col * size + row)
  {
  }

  /** The column letters, in either case, are not whitespace and lower-case to the codes the
      parser maps to columns 0..24. */
  lemma LetterFacts(col: nat, upper: bool)
    requires col < 25
    ensures !IsPySpace(ColumnLetter(col, upper)) && LowerChar(ColumnLetter(col, upper)) as int == ColumnCode(col)
  {
  }

  /** Writing a point in vertex notation and parsing it back gives the point: column letter
      (either case) then the 1-based row in decimal. */
  lemma ParseVertex(size: int, col: nat, row: nat, upper: bool)
    requires col < size && row < size && col < 25
    ensures ParsePoint(PointText([ColumnLetter(col, upper)] + NatToString(row + 1)), size) == Ok(col * size + row)
  {
    var letter := ColumnLetter(col, upper);
    var digits := NatToString(row + 1);
    var text := [letter] + digits;
    LetterFacts(col, upper);
    assert !IsPySpace(text[|text| - 1]);
    StripKeepsTrimmed(text);
    assert text[1..] == digits;
    NatToStringRoundTrip(row + 1);
    ParseColumnRow(text, size, col, row);
  }

  /** A string that neither starts nor ends with whitespace is its own strip. */
  lemma StripKeepsTrimmed(s: string)
    requires |s| > 0 && !IsPySpace(s[0]) && !IsPySpace(s[|s| - 1])
    ensures Strip(s) == s
  {
    assert LeadingSpaces(s) == 0;
    assert TrimEnd(s, IsPySpace) == s;
  }
}
