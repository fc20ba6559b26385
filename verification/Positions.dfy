/** Positions in one encoding and their conversion to another. */
module Positions {
  import opened MachineInts
  import opened TextEncoding
  import opened TextLines

  /** A zero-based line and column. */
  datatype Position = Position(line: nat, col: nat)

  /** A position on the wire. */
  datatype LspPosition = LspPosition(line: u32, character: u32)

  function FromLsp(p: LspPosition): Position { Position(p.line, p.character) }

  function IntoLsp(p: Position): LspPosition { LspPosition(Saturate(p.line), Saturate(p.col)) }

  ghost predicate NotAfter(p: Position, q: Position) {
    p.line < q.line || (p.line == q.line && p.col <= q.col)
  }

  /** Clamps the column to the line (terminator included), floors it to a character, recounts. */
  function ConvertColumn(line: string, col: nat, source: Encoding, target: Encoding): nat
    requires source != target
  {
    match (source, target)
    case (UTF16, UTF8) =>
      var k := UnitToChar(line, UTF16, Min(col, LenUnits(line, UTF16)));
      CharToUnit(line, UTF8, k)
    case (UTF32, UTF8) => CharToUnit(line, UTF8, Min(col, |line|))
    case (UTF8, UTF16) =>
      var k := UnitToChar(line, UTF8, Min(col, LenUnits(line, UTF8)));
      CharToUnit(line, UTF16, k)
    case (UTF32, UTF16) => CharToUnit(line, UTF16, Min(col, |line|))
    case (UTF8, UTF32) => UnitToChar(line, UTF8, Min(col, LenUnits(line, UTF8)))
    case (UTF16, UTF32) => UnitToChar(line, UTF16, Min(col, LenUnits(line, UTF16)))
  }

  function ClampLine(text: string, line: nat): (l: nat)
    ensures l < LineCount(text)
  {
    Min(line, LineCount(text) - 1)
  }

  function PositionToEncoding(text: string, p: Position, source: Encoding, target: Encoding): Position {
    if source == target then p
    else
      var l := ClampLine(text, p.line);
      Position(l, ConvertColumn(Line(text, l), p.col, source, target))
  }

  /** The same conversion on wire positions, which saturate on the way out. */
  function LspToEncoding(text: string, p: LspPosition, source: Encoding, target: Encoding): LspPosition {
    if source == target then p else IntoLsp(PositionToEncoding(text, FromLsp(p), source, target))
  }

  /** Between equal encodings nothing is touched: no clamp, no floor, for positions past every line too. */
  lemma SameEncodingKeeps(text: string, p: Position, q: LspPosition, e: Encoding)
    ensures PositionToEncoding(text, p, e, e) == p && LspToEncoding(text, q, e, e) == q
  {
  }

  /** The character a column denotes: clamped, then floored. */
  function CharColumn(line: string, e: Encoding, col: nat): (k: nat)
    ensures k <= |line|
  {
    UnitToChar(line, e, Min(col, LenUnits(line, e)))
  }

  /** A position on an existing line, at the start of a character or at the line's end. */
  ghost predicate OnBoundary(text: string, e: Encoding, p: Position) {
    p.line < LineCount(text) && IsBoundary(Line(text, p.line), e, p.col)
  }

  /** All six conversions recount the units before the denoted character. */
  lemma ColumnCountsChars(line: string, col: nat, source: Encoding, target: Encoding)
    requires source != target
    ensures ConvertColumn(line, col, source, target) ==
            CharToUnit(line, target, CharColumn(line, source, col))
  {
    Utf32IsCharIndex(line, |line|);
    Utf32IsCharIndex(line, CharColumn(line, source, col));
    if source == UTF32 {
      var k := Min(col, |line|);
      Utf32IsCharIndex(line, k);
      UnitOfChar(line, UTF32, k);
    }
  }

  lemma CharColumnMonotone(line: string, e: Encoding, c: nat, d: nat)
    requires c <= d
    ensures CharColumn(line, e, c) <= CharColumn(line, e, d)
  {
    UnitToCharMonotone(line, e, Min(c, LenUnits(line, e)), Min(d, LenUnits(line, e)));
  }

  lemma CharColumnOfChar(line: string, e: Encoding, k: nat)
    requires k <= |line|
    ensures CharColumn(line, e, CharToUnit(line, e, k)) == k
  {
    UnitOfChar(line, e, k);
  }

  /** Going through a third encoding changes nothing, clamped and mid-character columns included. */
  lemma ConversionComposes(text: string, p: Position, a: Encoding, b: Encoding, c: Encoding)
    requires a != b && b != c && a != c
    ensures PositionToEncoding(text, PositionToEncoding(text, p, a, b), b, c) ==
            PositionToEncoding(text, p, a, c)
  {
    var line := Line(text, ClampLine(text, p.line));
    var k := CharColumn(line, a, p.col);
    ColumnCountsChars(line, p.col, a, b);
    ColumnCountsChars(line, p.col, a, c);
    ColumnCountsChars(line, CharToUnit(line, b, k), b, c);
    CharColumnOfChar(line, b, k);
  }

  /** Converting there and back is the identity on in-line character boundaries and nowhere else. */
  lemma RoundTripIffBoundary(text: string, p: Position, a: Encoding, b: Encoding)
    requires a != b
    ensures PositionToEncoding(text, PositionToEncoding(text, p, a, b), b, a) == p <==>
            OnBoundary(text, a, p)
  {
    var line := Line(text, ClampLine(text, p.line));
    var k := CharColumn(line, a, p.col);
    ColumnCountsChars(line, p.col, a, b);
    ColumnCountsChars(line, CharToUnit(line, b, k), b, a);
    CharColumnOfChar(line, b, k);
    if OnBoundary(text, a, p) {
      var j :| 0 <= j <= |line| && CharToUnit(line, a, j) == p.col;
      CharColumnOfChar(line, a, j);
    }
  }

  /** The line a position clamps to. */
  function LineOf(text: string, p: Position): string { Line(text, ClampLine(text, p.line)) }

  lemma ConvertedPosition(text: string, p: Position, a: Encoding, b: Encoding)
    requires a != b
    ensures PositionToEncoding(text, p, a, b) ==
            Position(ClampLine(text, p.line), CharToUnit(LineOf(text, p), b, CharColumn(LineOf(text, p), a, p.col)))
  {
    ColumnCountsChars(LineOf(text, p), p.col, a, b);
  }

  lemma CharToUnitOrder(s: string, e: Encoding, i: nat, j: nat)
    requires i <= |s| && j <= |s|
    ensures CharToUnit(s, e, i) <= CharToUnit(s, e, j) <==> i <= j
  {
    if i <= j {
      CharToUnitMonotone(s, e, i, j);
    } else {
      CharToUnitMonotone(s, e, j, i);
    }
  }

  /** Any two positions convert in order exactly when their clamped lines, then their characters, are in order. */
  lemma ConvertedOrderIff(text: string, p: Position, q: Position, a: Encoding, b: Encoding)
    requires a != b
    ensures NotAfter(PositionToEncoding(text, p, a, b), PositionToEncoding(text, q, a, b)) <==>
            || ClampLine(text, p.line) < ClampLine(text, q.line)
            || (ClampLine(text, p.line) == ClampLine(text, q.line) &&
                CharColumn(LineOf(text, p), a, p.col) <= CharColumn(LineOf(text, p), a, q.col))
  {
    ConvertedPosition(text, p, a, b);
    ConvertedPosition(text, q, a, b);
    if ClampLine(text, p.line) == ClampLine(text, q.line) {
      CharToUnitOrder(LineOf(text, p), b, CharColumn(LineOf(text, p), a, p.col), CharColumn(LineOf(text, p), a, q.col));
    }
  }

  /**
   Positions in order convert in order exactly when they share a line, the earlier one lies before
   the last line, or their characters on the last line, to which both then clamp, are in order.
   */
  lemma ConversionMonotoneIff(text: string, p: Position, q: Position, a: Encoding, b: Encoding)
    requires a != b && NotAfter(p, q)
    ensures var last := Line(text, LineCount(text) - 1);
            NotAfter(PositionToEncoding(text, p, a, b), PositionToEncoding(text, q, a, b)) <==>
            || p.line == q.line
            || p.line < Min(q.line, LineCount(text) - 1)
            || CharColumn(last, a, p.col) <= CharColumn(last, a, q.col)
  {
    ConvertedOrderIff(text, p, q, a, b);
    if p.line == q.line {
      CharColumnMonotone(LineOf(text, p), a, p.col, q.col);
    }
  }

  /** Order is kept unless the later position is on another line past the end of the text. */
  lemma ConversionMonotone(text: string, p: Position, q: Position, a: Encoding, b: Encoding)
    requires NotAfter(p, q)
    requires p.line == q.line || q.line < LineCount(text)
    ensures NotAfter(PositionToEncoding(text, p, a, b), PositionToEncoding(text, q, a, b))
  {
    if a != b {
      ConversionMonotoneIff(text, p, q, a, b);
    }
  }

  /** The documented example: past a smiley of four bytes and two UTF-16 units, column 5 is column 3. */
  lemma SmileyExample(text: string)
    requires text == "a\U{1F642}b"
    ensures PositionToEncoding(text, Position(0, 5), UTF8, UTF16) == Position(0, 3)
    ensures PositionToEncoding(text, Position(0, 5), UTF8, UTF32) == Position(0, 2)
  {
    SingleLine(text);
    assert CharToUnit(text, UTF8, 1) == CharToUnit(text, UTF16, 1) == 1;
    assert CharToUnit(text, UTF8, 2) == 5 && CharToUnit(text, UTF16, 2) == 3;
    CharColumnOfChar(text, UTF8, 2);
    ConvertedPosition(text, Position(0, 5), UTF8, UTF16);
    ConvertedPosition(text, Position(0, 5), UTF8, UTF32);
    Utf32IsCharIndex(text, 2);
  }

  /** Past the end, lines collapse and order is lost. */
  lemma ClampingLosesOrder()
    ensures var p, q := Position(0, 1), Position(1, 0);
            NotAfter(p, q) &&
            !NotAfter(PositionToEncoding("a", p, UTF8, UTF16), PositionToEncoding("a", q, UTF8, UTF16))
  {
    SingleLine("a");
    var line := Line("a", 0);
    ColumnCountsChars(line, 1, UTF8, UTF16);
    ColumnCountsChars(line, 0, UTF8, UTF16);
    assert CharToUnit(line, UTF8, 0) == CharToUnit(line, UTF16, 0) == 0;
    assert CharToUnit(line, UTF8, 1) == CharToUnit(line, UTF16, 1) == 1;
    CharColumnOfChar(line, UTF8, 0);
    CharColumnOfChar(line, UTF8, 1);
  }

  /**
   Wire positions compose exactly when the intermediate column fits the wire, or the character
   that the saturated column falls on saturates in the last encoding as well.
   */
  lemma LspConversionComposesIff(text: string, p: LspPosition, a: Encoding, b: Encoding, c: Encoding)
    requires a != b && b != c && a != c
    ensures var line := LineOf(text, FromLsp(p));
            LspToEncoding(text, LspToEncoding(text, p, a, b), b, c) == LspToEncoding(text, p, a, c) <==>
            || CharToUnit(line, b, CharColumn(line, a, p.character)) <= U32_MAX
            || CharToUnit(line, c, CharColumn(line, b, U32_MAX)) >= U32_MAX
  {
    var line := LineOf(text, FromLsp(p));
    var k := CharColumn(line, a, p.character);
    LspColumn(text, p, a, b);
    LspColumn(text, p, a, c);
    LspColumn(text, LspToEncoding(text, p, a, b), b, c);
    CharColumnOfChar(line, b, k);
    if CharToUnit(line, b, k) > U32_MAX {
      var j := CharColumn(line, b, U32_MAX);
      CharToUnitOrder(line, b, k, |line|);
      CharToUnitOrder(line, b, k, j);
      CharToUnitMonotone(line, c, j, k);
    }
  }

  /** A converted wire position, by the units before its character. */
  lemma LspColumn(text: string, p: LspPosition, a: Encoding, b: Encoding)
    requires a != b
    ensures var line := LineOf(text, FromLsp(p));
            LspToEncoding(text, p, a, b) ==
            LspPosition(ClampLine(text, p.line), Saturate(CharToUnit(line, b, CharColumn(line, a, p.character))))
  {
    ConvertedPosition(text, FromLsp(p), a, b);
  }

  /** Two characters of a line have ordered columns on the wire: they are in order, or the later column saturates. */
  predicate WireOrdered(line: string, a: Encoding, b: Encoding, c: nat, d: nat) {
    || CharColumn(line, a, c) <= CharColumn(line, a, d)
    || CharToUnit(line, b, CharColumn(line, a, d)) >= U32_MAX
  }

  /** The order of two converted wire positions, exactly, for any two positions. */
  lemma LspConvertedOrderIff(text: string, p: LspPosition, q: LspPosition, a: Encoding, b: Encoding)
    requires a != b
    ensures NotAfter(FromLsp(LspToEncoding(text, p, a, b)), FromLsp(LspToEncoding(text, q, a, b))) <==>
            || ClampLine(text, p.line) < ClampLine(text, q.line)
            || (ClampLine(text, p.line) == ClampLine(text, q.line) &&
                WireOrdered(LineOf(text, FromLsp(q)), a, b, p.character, q.character))
  {
    LspColumn(text, p, a, b);
    LspColumn(text, q, a, b);
    if ClampLine(text, p.line) == ClampLine(text, q.line) {
      var line := LineOf(text, FromLsp(q));
      CharToUnitOrder(line, b, CharColumn(line, a, p.character), CharColumn(line, a, q.character));
    }
  }

  /** Wire positions in order convert in order exactly as unbounded ones do, up to saturation. */
  lemma LspConversionMonotoneIff(text: string, p: LspPosition, q: LspPosition, a: Encoding, b: Encoding)
    requires a != b && NotAfter(FromLsp(p), FromLsp(q))
    ensures NotAfter(FromLsp(LspToEncoding(text, p, a, b)), FromLsp(LspToEncoding(text, q, a, b))) <==>
            || p.line == q.line
            || p.line < Min(q.line, LineCount(text) - 1)
            || WireOrdered(Line(text, LineCount(text) - 1), a, b, p.character, q.character)
  {
    LspConvertedOrderIff(text, p, q, a, b);
    if p.line == q.line {
      CharColumnMonotone(LineOf(text, FromLsp(p)), a, p.character, q.character);
    }
  }

  lemma LspConversionMonotone(text: string, p: LspPosition, q: LspPosition, a: Encoding, b: Encoding)
    requires NotAfter(FromLsp(p), FromLsp(q))
    requires p.line == q.line || q.line < LineCount(text)
    ensures NotAfter(FromLsp(LspToEncoding(text, p, a, b)), FromLsp(LspToEncoding(text, q, a, b)))
  {
    if a != b {
      LspConversionMonotoneIff(text, p, q, a, b);
    }
  }

  /** A UTF-8 position sent in another encoding and back. */
  function SentAndBack(text: string, p: LspPosition, b: Encoding): LspPosition {
    LspToEncoding(text, LspToEncoding(text, p, UTF8, b), b, UTF8)
  }

  /** What comes back is on the clamped line, at a character not behind the one sent. */
  lemma ComesBack(text: string, p: LspPosition, b: Encoding)
    requires b != UTF8
    ensures var line := LineOf(text, FromLsp(p));
            var k := CharColumn(line, UTF8, p.character);
            exists j :: 0 <= j <= k &&
              SentAndBack(text, p, b) == LspPosition(ClampLine(text, p.line), Saturate(CharToUnit(line, UTF8, j))) &&
              (CharToUnit(line, b, k) <= U32_MAX ==> j == k)
  {
    var line := LineOf(text, FromLsp(p));
    var k := CharColumn(line, UTF8, p.character);
    var c := Saturate(CharToUnit(line, b, k));
    LspColumn(text, p, UTF8, b);
    LspColumn(text, LspToEncoding(text, p, UTF8, b), b, UTF8);
    CharColumnOfChar(line, b, k);
    CharColumnMonotone(line, b, c, CharToUnit(line, b, k));
    var j := CharColumn(line, b, c);
    assert SentAndBack(text, p, b) == LspPosition(ClampLine(text, p.line), Saturate(CharToUnit(line, UTF8, j)));
  }

  /** A UTF-8 position comes back from another encoding unchanged exactly when it is a boundary of a line. */
  lemma LspRoundTripIff(text: string, p: LspPosition, b: Encoding)
    requires b != UTF8
    ensures SentAndBack(text, p, b) == p <==> OnBoundary(text, UTF8, FromLsp(p))
  {
    var line := LineOf(text, FromLsp(p));
    var k := CharColumn(line, UTF8, p.character);
    ComesBack(text, p, b);
    BoundaryIff(line, UTF8, p.character);
    Utf8IsLongest(line, b, k);
    var j :| 0 <= j <= k &&
             SentAndBack(text, p, b) == LspPosition(ClampLine(text, p.line), Saturate(CharToUnit(line, UTF8, j))) &&
             (CharToUnit(line, b, k) <= U32_MAX ==> j == k);
    CharToUnitMonotone(line, UTF8, j, k);
  }

  /** A column is a boundary exactly when its character starts there. */
  lemma BoundaryIff(line: string, e: Encoding, col: nat)
    ensures IsBoundary(line, e, col) <==> CharToUnit(line, e, CharColumn(line, e, col)) == col
    ensures CharToUnit(line, e, CharColumn(line, e, col)) <= col
  {
    if IsBoundary(line, e, col) {
      var j :| 0 <= j <= |line| && CharToUnit(line, e, j) == col;
      CharColumnOfChar(line, e, j);
    }
  }

  /** What comes back is never behind what was sent, in line or in column. */
  lemma NeverAhead(text: string, p: LspPosition, b: Encoding)
    requires b != UTF8
    ensures SentAndBack(text, p, b).line <= p.line && SentAndBack(text, p, b).character <= p.character
  {
    var line := LineOf(text, FromLsp(p));
    var k := CharColumn(line, UTF8, p.character);
    ComesBack(text, p, b);
    BoundaryIff(line, UTF8, p.character);
    var j :| 0 <= j <= k &&
             SentAndBack(text, p, b) == LspPosition(ClampLine(text, p.line), Saturate(CharToUnit(line, UTF8, j)));
    CharToUnitMonotone(line, UTF8, j, k);
  }

  /** Converting never raises the line. */
  lemma ConvertedLine(text: string, p: LspPosition, a: Encoding, b: Encoding)
    requires a != b
    ensures LspToEncoding(text, p, a, b).line == ClampLine(text, p.line)
  {
  }
}
