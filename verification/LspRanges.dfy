/** Ranges of lines and characters, as the protocol sends them. */
module LspRanges {
  import opened Wrappers
  import opened MachineInts
  import opened TextEncoding
  import opened TextLines
  import opened Positions
  import opened RangeBasics
  import T = TsRanges

  datatype LspRange = LspRange(start: Position, end: Position)

  predicate Within(r: LspRange, p: Position) {
    && (r.start.line < p.line || (r.start.line == p.line && r.start.col <= p.col))
    && (p.line < r.end.line || (p.line == r.end.line && p.col <= r.end.col))
  }

  function Absolute(r: LspRange, at: Position): Position {
    Position(r.start.line + at.line, if at.line == 0 then r.start.col + at.col else at.col)
  }

  function SplitAt(r: LspRange, at: Position): Result<(LspRange, LspRange), RangeError> {
    var absolute := Absolute(r, at);
    if !Within(r, absolute) then Err(PositionOutOfRange)
    else Ok((LspRange(r.start, absolute), LspRange(absolute, r.end)))
  }

  /** A split fails exactly when its absolute position lies before the range's start or after its end. */
  lemma SplitAtFailsIff(r: LspRange, at: Position)
    ensures var line, col := r.start.line + at.line, if at.line == 0 then r.start.col + at.col else at.col;
            SplitAt(r, at) ==
            if line > r.end.line || (line == r.end.line && col > r.end.col) then Err(PositionOutOfRange)
            else Ok((LspRange(r.start, Position(line, col)), LspRange(Position(line, col), r.end)))
  {
  }

  /** The line and character of a text's `k`-th character, relative to its start. */
  function CharPosition(text: string, k: nat): Position
    requires k <= |text|
  {
    Position(PointAt(text, k).row, CharsSinceLf(text, k))
  }

  function SubDelimitedSpec(r: LspRange, text: string, delim: char): Result<Pair<LspRange>, RangeError> {
    if !SingleByte(delim) then Err(DelimiterNotSingleByte(delim))
    else if text == "" then Ok((None, None))
    else
      match Find(text, delim)
      case None => Ok((Some(r), None))
      case Some(i) =>
        var left := SplitAt(r, CharPosition(text, i));
        var right := SplitAt(r, CharPosition(text, i + 1));
        if i != 0 && left.Err? then Err(left.error)
        else if i + 1 < |text| && right.Err? then Err(right.error)
        else Ok((if i == 0 then None else Some(left.value.0),
                 if i + 1 == |text| then None else Some(right.value.1)))
  }

  method SubDelimited(r: LspRange, text: string, delim: char) returns (res: Result<Pair<LspRange>, RangeError>)
    ensures res == SubDelimitedSpec(r, text, delim)
  {
    if !SingleByte(delim) {
      return Err(DelimiterNotSingleByte(delim));
    }
    if text == "" {
      return Ok((None, None));
    }
    var hit := Find(text, delim);
    if hit.None? {
      return Ok((Some(r), None));
    }
    var i := hit.value;
    var line, _, lineChar := LocateLine(text, i);
    var character := i - lineChar;
    var left, right := None, None;
    if i != 0 {
      var split := SplitAt(r, Position(line, character));
      if split.Err? {
        return Err(split.error);
      }
      left := Some(split.value.0);
    }
    if i + 1 < |text| {
      var after := if text[i] == '\n' then Position(line + 1, 0) else Position(line, character + 1);
      var split := SplitAt(r, after);
      if split.Err? {
        return Err(split.error);
      }
      right := Some(split.value.1);
    }
    return Ok((left, right));
  }

  function SubDelimitedTri(r: LspRange, text: string, delim0: char, delim1: char): Result<Triple<LspRange>, RangeError> {
    if !SingleByte(delim0) then Err(DelimiterNotSingleByte(delim0))
    else if !SingleByte(delim1) then Err(DelimiterNotSingleByte(delim1))
    else if text == "" then Ok((None, None, None))
    else
      match Find(text, delim0)
      case None => Ok((Some(r), None, None))
      case Some(i) =>
        match SubDelimitedSpec(r, text, delim0)
        case Err(error) => Err(error)
        case Ok((first, None)) => Ok((first, None, None))
        case Ok((first, Some(remainder))) =>
          Then(first, SubDelimitedSpec(remainder, text[i + 1..], delim1))
  }

  /** A delimiter split of any range fails exactly for a wide delimiter, or for a needed cut outside the range. */
  lemma DelimitedFailsIff(r: LspRange, text: string, delim: char)
    ensures match SubDelimitedSpec(r, text, delim)
            case Err(DelimiterNotSingleByte(d)) => d == delim && delim as int >= 0x80
            case Err(PositionOutOfRange) =>
              && (delim as int) < 0x80 && Find(text, delim).Some?
              && var i := Find(text, delim).value;
                 || (i > 0 && SplitAt(r, CharPosition(text, i)).Err?)
                 || (i + 1 < |text| && SplitAt(r, CharPosition(text, i + 1)).Err?)
            case Err(_) => false
            case Ok((left, right)) =>
              && (delim as int) < 0x80
              && (text == "" ==> left == right == None)
              && (text != "" && delim !in text ==> left == Some(r) && right == None)
  {
  }

  // ------------------------------------------------------------ agreement

  predicate Ascii(text: string) { forall i :: 0 <= i < |text| ==> SingleByte(text[i]) }

  function PositionOf(p: Point): Position { Position(p.row, p.column) }

  function RangeOf(r: T.TsRange): LspRange { LspRange(PositionOf(r.startPoint), PositionOf(r.endPoint)) }

  function RangeOfOption(r: Option<T.TsRange>): Option<LspRange> {
    match r case None => None case Some(x) => Some(RangeOf(x))
  }

  /** The characters on the line of character `k`, up to there, are ASCII. */
  predicate AsciiUpTo(text: string, k: nat)
    requires k <= |text|
  {
    forall j :: k - CharsSinceLf(text, k) <= j < k ==> SingleByte(text[j])
  }

  /** Columns in characters never exceed columns in bytes, and equal them exactly after ASCII alone. */
  lemma {:induction false} ColumnsAgreeIff(text: string, k: nat)
    requires k <= |text|
    ensures CharsSinceLf(text, k) <= PointAt(text, k).column
    ensures CharsSinceLf(text, k) == PointAt(text, k).column <==> AsciiUpTo(text, k)
  {
    if k > 0 && text[k - 1] != '\n' {
      ColumnsAgreeIff(text, k - 1);
    }
  }

  /** The absolute position of a text's `k`-th character in a range over it. */
  function PositionIn(r: T.TsRange, text: string, k: nat): Position
    requires k <= |text|
  {
    Absolute(RangeOf(r), CharPosition(text, k))
  }

  /** A coherent range splits at every character of its text, ASCII or not. */
  lemma SplitsInside(r: T.TsRange, text: string, k: nat)
    requires T.Coherent(r, text) && k <= |text|
    ensures var p := PositionIn(r, text, k);
            SplitAt(RangeOf(r), CharPosition(text, k)) ==
            Ok((LspRange(RangeOf(r).start, p), LspRange(p, RangeOf(r).end)))
  {
    ColumnsAgreeIff(text, k);
    AdvanceComposes(r.startPoint, text, k);
    if k < |text| {
      AdvanceIncreases(r.startPoint, text, k, |text|);
    }
  }

  /** There the position is the tree-sitter point exactly when the line before it is ASCII. */
  lemma PositionsAgreeIff(r: T.TsRange, text: string, k: nat)
    requires k <= |text|
    ensures PositionIn(r, text, k) == PositionOf(Advance(r.startPoint, text, k)) <==> AsciiUpTo(text, k)
  {
    ColumnsAgreeIff(text, k);
    AdvanceComposes(r.startPoint, text, k);
  }

  /** On ranges whose rows and byte columns the wire can name, no sum or count of a split leaves 32 bits. */
  lemma SplitArithmeticFits(r: T.TsRange, text: string, k: nat)
    requires T.Coherent(r, text) && k <= |text|
    requires r.endPoint.row <= U32_MAX && r.startPoint.column + ByteLen(text) <= U32_MAX
    ensures var at, absolute := CharPosition(text, k), PositionIn(r, text, k);
            && at.line <= absolute.line <= U32_MAX
            && at.col <= absolute.col <= U32_MAX
  {
    AdvanceComposes(r.startPoint, text, k);
    if k < |text| {
      AdvanceIncreases(r.startPoint, text, k, |text|);
    }
    Utf8IsLongest(text, UTF8, |text|);
  }

  /** The result of a delimiter split, on points. */
  function OnPoints(res: Result<Pair<T.TsRange>, RangeError>): Result<Pair<LspRange>, RangeError> {
    match res
    case Err(error) => Err(error)
    case Ok((left, right)) => Ok((RangeOfOption(left), RangeOfOption(right)))
  }

  /** Nothing but ASCII stands on the delimiter's line before it; no delimiter, no condition. */
  predicate AsciiBefore(text: string, delim: char) {
    Find(text, delim).Some? ==> AsciiUpTo(text, Find(text, delim).value)
  }

  /** Delimiter splits of a coherent range are the tree-sitter range's exactly when its line is ASCII up to there. */
  lemma AgreesWithTreeSitterIff(r: T.TsRange, text: string, delim: char)
    requires T.Coherent(r, text)
    ensures SubDelimitedSpec(RangeOf(r), text, delim) == OnPoints(T.SubDelimitedSpec(r, text, delim)) <==>
            !SingleByte(delim) || AsciiBefore(text, delim)
  {
    if SingleByte(delim) && Find(text, delim).Some? {
      AgreesAtDelimiterIff(r, text, delim, Find(text, delim).value);
    }
  }

  lemma AgreesAtDelimiterIff(r: T.TsRange, text: string, delim: char, i: nat)
    requires T.Coherent(r, text) && SingleByte(delim) && Find(text, delim) == Some(i)
    ensures SubDelimitedSpec(RangeOf(r), text, delim) == OnPoints(T.SubDelimitedSpec(r, text, delim)) <==>
            AsciiUpTo(text, i)
  {
    PiecesByPosition(r, text, delim, i);
    PositionsAgreeIff(r, text, i);
    PositionsAgreeIff(r, text, i + 1);
    AfterDelimiter(text, delim, i);
  }

  /** The pieces of a range that is cut at `before` and taken up again at `after`. */
  function PiecesAt(r: LspRange, text: string, i: nat, before: Position, after: Position): Pair<LspRange> {
    (if i == 0 then None else Some(LspRange(r.start, before)),
     if i + 1 == |text| then None else Some(LspRange(after, r.end)))
  }

  /** Both splits cut around the delimiter, each at its own positions. */
  lemma PiecesByPosition(r: T.TsRange, text: string, delim: char, i: nat)
    requires T.Coherent(r, text) && SingleByte(delim) && Find(text, delim) == Some(i)
    ensures SubDelimitedSpec(RangeOf(r), text, delim) ==
            Ok(PiecesAt(RangeOf(r), text, i, PositionIn(r, text, i), PositionIn(r, text, i + 1)))
    ensures OnPoints(T.SubDelimitedSpec(r, text, delim)) ==
            Ok(PiecesAt(RangeOf(r), text, i, PositionOf(Advance(r.startPoint, text, i)),
                        PositionOf(Advance(r.startPoint, text, i + 1))))
  {
    SplitsInside(r, text, i);
    SplitsInside(r, text, i + 1);
  }

  /** Past a single-byte delimiter the line is ASCII if it was before. */
  lemma AfterDelimiter(text: string, delim: char, i: nat)
    requires SingleByte(delim) && i < |text| && text[i] == delim
    ensures AsciiUpTo(text, i) ==> AsciiUpTo(text, i + 1)
  {
  }

  /** On the points of ASCII text they agree. */
  lemma AgreesWithTreeSitter(r: T.TsRange, text: string, delim: char)
    requires T.Coherent(r, text) && Ascii(text)
    ensures SubDelimitedSpec(RangeOf(r), text, delim) == OnPoints(T.SubDelimitedSpec(r, text, delim))
  {
    AgreesWithTreeSitterIff(r, text, delim);
  }

  function TriOnPoints(res: Result<Triple<T.TsRange>, RangeError>): Result<Triple<LspRange>, RangeError> {
    match res
    case Err(error) => Err(error)
    case Ok((first, second, third)) => Ok((RangeOfOption(first), RangeOfOption(second), RangeOfOption(third)))
  }

  /** The lines of both delimiters are ASCII up to them, the second's in the text after the first. */
  predicate AsciiBeforeBoth(text: string, delim0: char, delim1: char) {
    && AsciiBefore(text, delim0)
    && (Find(text, delim0).Some? ==> AsciiBefore(text[Find(text, delim0).value + 1..], delim1))
  }

  /** Double splits agree exactly when both delimiters' lines are ASCII up to them. */
  lemma TriAgreesWithTreeSitterIff(r: T.TsRange, text: string, delim0: char, delim1: char)
    requires T.Coherent(r, text)
    ensures SubDelimitedTri(RangeOf(r), text, delim0, delim1) == TriOnPoints(T.SubDelimitedTri(r, text, delim0, delim1)) <==>
            !SingleByte(delim0) || !SingleByte(delim1) || AsciiBeforeBoth(text, delim0, delim1)
  {
    if SingleByte(delim0) && SingleByte(delim1) && Find(text, delim0).Some? {
      TriAtDelimiterIff(r, text, delim0, delim1, Find(text, delim0).value);
    }
  }

  lemma TriAtDelimiterIff(r: T.TsRange, text: string, delim0: char, delim1: char, i: nat)
    requires T.Coherent(r, text) && SingleByte(delim0) && SingleByte(delim1) && Find(text, delim0) == Some(i)
    ensures SubDelimitedTri(RangeOf(r), text, delim0, delim1) == TriOnPoints(T.SubDelimitedTri(r, text, delim0, delim1)) <==>
            AsciiUpTo(text, i) && AsciiBefore(text[i + 1..], delim1)
  {
    if AsciiUpTo(text, i) {
      TriAfterAsciiIff(r, text, delim0, delim1, i);
    } else {
      FirstPieceDiffers(r, text, delim0, i);
      TriKeepsFirst(r, text, delim0, delim1);
    }
  }

  /** After an agreeing first split, double splits agree exactly when the second split does. */
  lemma TriAfterAsciiIff(r: T.TsRange, text: string, delim0: char, delim1: char, i: nat)
    requires T.Coherent(r, text) && SingleByte(delim0) && SingleByte(delim1) && Find(text, delim0) == Some(i)
    requires AsciiUpTo(text, i)
    ensures SubDelimitedTri(RangeOf(r), text, delim0, delim1) == TriOnPoints(T.SubDelimitedTri(r, text, delim0, delim1)) <==>
            AsciiBefore(text[i + 1..], delim1)
  {
    T.SubDelimitedPartitions(r, text, delim0);
    AgreesAtDelimiterIff(r, text, delim0, i);
    var (first, remainder) := T.SubDelimitedSpec(r, text, delim0).value;
    if remainder.Some? {
      T.TriSplitsRest(r, text, delim0, delim1, first, remainder.value);
      var ours := SubDelimitedSpec(RangeOf(remainder.value), text[i + 1..], delim1);
      assert SubDelimitedTri(RangeOf(r), text, delim0, delim1) == Then(RangeOfOption(first), ours);
      AgreesWithTreeSitterIff(remainder.value, text[i + 1..], delim1);
    }
  }

  /** The first piece of a double split is that of the single one. */
  lemma TriKeepsFirst(r: T.TsRange, text: string, delim0: char, delim1: char)
    requires T.Coherent(r, text) && SingleByte(delim0) && SingleByte(delim1) && Find(text, delim0).Some?
    requires SubDelimitedSpec(RangeOf(r), text, delim0).Ok?
    ensures var ours := SubDelimitedTri(RangeOf(r), text, delim0, delim1);
            ours.Ok? ==> ours.value.0 == SubDelimitedSpec(RangeOf(r), text, delim0).value.0
    ensures T.SubDelimitedTri(r, text, delim0, delim1).Ok? && T.SubDelimitedSpec(r, text, delim0).Ok?
    ensures T.SubDelimitedTri(r, text, delim0, delim1).value.0 == T.SubDelimitedSpec(r, text, delim0).value.0
  {
    T.SubDelimitedPartitions(r, text, delim0);
    var (first, remainder) := T.SubDelimitedSpec(r, text, delim0).value;
    if remainder.Some? {
      T.TriSplitsRest(r, text, delim0, delim1, first, remainder.value);
      T.SubDelimitedPartitions(remainder.value, text[Find(text, delim0).value + 1..], delim1);
    }
  }

  /** Where the line before the delimiter is not ASCII, the first pieces already differ. */
  lemma FirstPieceDiffers(r: T.TsRange, text: string, delim: char, i: nat)
    requires T.Coherent(r, text) && SingleByte(delim) && Find(text, delim) == Some(i) && !AsciiUpTo(text, i)
    ensures var ours, theirs := SubDelimitedSpec(RangeOf(r), text, delim), T.SubDelimitedSpec(r, text, delim);
            ours.Ok? && theirs.Ok? && ours.value.0 != RangeOfOption(theirs.value.0)
  {
    PiecesByPosition(r, text, delim, i);
    PositionsAgreeIff(r, text, i);
  }

  lemma TriAgreesWithTreeSitter(r: T.TsRange, text: string, delim0: char, delim1: char)
    requires T.Coherent(r, text) && Ascii(text)
    ensures SubDelimitedTri(RangeOf(r), text, delim0, delim1) == TriOnPoints(T.SubDelimitedTri(r, text, delim0, delim1))
  {
    TriAgreesWithTreeSitterIff(r, text, delim0, delim1);
  }

  /** After one two-byte character the splits differ: the first pieces end one column apart. */
  lemma NonAsciiSplitsDiffer(r: T.TsRange, text: string)
    requires text == "\U{E9}/a" && T.Coherent(r, text)
    ensures SubDelimitedSpec(RangeOf(r), text, '/') != OnPoints(T.SubDelimitedSpec(r, text, '/'))
    ensures PositionOf(Advance(r.startPoint, text, 1)) ==
            Position(PositionIn(r, text, 1).line, PositionIn(r, text, 1).col + 1)
  {
    assert Find(text, '/') == Some(1);
    FirstCharacter(r, text);
    AgreesWithTreeSitterIff(r, text, '/');
  }

  lemma FirstCharacter(r: T.TsRange, text: string)
    requires |text| > 0 && Units(text[0], UTF8) == 2
    ensures CharsSinceLf(text, 1) == 1 && !AsciiUpTo(text, 1)
    ensures PositionOf(Advance(r.startPoint, text, 1)) ==
            Position(PositionIn(r, text, 1).line, PositionIn(r, text, 1).col + 1)
  {
    assert CharsSinceLf(text, 0) == 0;
    assert Advance(r.startPoint, text, 0) == r.startPoint && PointAt(text, 0) == ORIGIN;
  }
}
