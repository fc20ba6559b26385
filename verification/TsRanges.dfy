/** Ranges of bytes and points, as tree-sitter keeps them. */
module TsRanges {
  import opened Wrappers
  import opened MachineInts
  import opened TextEncoding
  import opened TextLines
  import opened RangeBasics
  import B = ByteRanges

  datatype TsRange = TsRange(startByte: nat, endByte: nat, startPoint: Point, endPoint: Point) {
    predicate Valid() { startByte <= endByte }

    function Bytes(): B.ByteRange { B.ByteRange(startByte, endByte) }
  }

  /** The range's end is its start advanced over `text`, in bytes and in points. */
  predicate Coherent(r: TsRange, text: string) {
    r.endByte == r.startByte + ByteLen(text) && r.endPoint == AdvanceOver(r.startPoint, text)
  }

  /** The first character at or after `k` whose point, relative to the text's start, is `at`. */
  function FindPoint(text: string, at: Point, k: nat): (r: Option<nat>)
    requires k <= |text|
    ensures r.Some? ==> k <= r.value <= |text| && PointAt(text, r.value) == at
    decreases |text| - k
  {
    if PointAt(text, k) == at then Some(k)
    else if k == |text| then None
    else FindPoint(text, at, k + 1)
  }

  /** The search finds the one character at the point, if there is one. */
  lemma {:induction false} FoundPoint(text: string, at: Point, k: nat, i: nat)
    requires k <= i <= |text| && PointAt(text, i) == at
    ensures FindPoint(text, at, k) == Some(i)
    decreases |text| - k
  {
    if PointAt(text, k) == at {
      AdvanceInjective(ORIGIN, text, k, i);
    } else {
      FoundPoint(text, at, k + 1, i);
    }
  }

  // ------------------------------------------------------------ split_at and sub

  function SplitAtSpec(r: TsRange, text: string, at: Point): Result<(TsRange, TsRange), RangeError>
    requires r.Valid()
  {
    if ByteLen(text) != r.endByte - r.startByte then Err(TextRangeMismatch(ByteLen(text), r.endByte - r.startByte))
    else
      match FindPoint(text, at, 0)
      case None => Err(PositionOutOfRange)
      case Some(k) =>
        var byte, point := r.startByte + CharToUnit(text, UTF8, k), Compose(r.startPoint, at);
        Ok((r.(endByte := byte, endPoint := point), r.(startByte := byte, startPoint := point)))
  }

  method SplitAt(r: TsRange, text: string, at: Point) returns (res: Result<(TsRange, TsRange), RangeError>)
    requires r.Valid()
    ensures res == SplitAtSpec(r, text, at)
  {
    if ByteLen(text) != r.endByte - r.startByte {
      return Err(TextRangeMismatch(ByteLen(text), r.endByte - r.startByte));
    }
    var absolute := Point(r.startPoint.row + at.row,
                          if at.row == 0 then r.startPoint.column + at.column else at.column);
    var row: nat, col: nat, byte: nat, k: nat := 0, 0, 0, 0;
    var atByte, found := r.startByte, false;
    while k < |text| && !found
      invariant k <= |text|
      invariant Point(row, col) == PointAt(text, k) && byte == CharToUnit(text, UTF8, k)
      invariant FindPoint(text, at, k) == FindPoint(text, at, 0)
      invariant found ==> PointAt(text, k) == at && atByte == r.startByte + byte
      decreases |text| - k, !found
    {
      if row == at.row && col == at.column {
        atByte := r.startByte + byte;
        found := true;
      } else {
        if text[k] == '\n' {
          row, col := row + 1, 0;
        } else {
          col := col + Units(text[k], UTF8);
        }
        byte := byte + Units(text[k], UTF8);
        k := k + 1;
      }
    }
    if !found {
      if row == at.row && col == at.column {
        atByte := r.endByte;
      } else {
        return Err(PositionOutOfRange);
      }
    }
    return Ok((TsRange(r.startByte, atByte, r.startPoint, absolute),
               TsRange(atByte, r.endByte, absolute, r.endPoint)));
  }

  predicate PointAfter(p: Point, q: Point) { p.row > q.row || (p.row == q.row && p.column > q.column) }

  function SubSpec(r: TsRange, text: string, from: Point, to: Point): Result<TsRange, RangeError>
    requires r.Valid()
  {
    if PointAfter(from, to) then Err(StartAfterEnd)
    else if ByteLen(text) != r.endByte - r.startByte then
      Err(TextRangeMismatch(ByteLen(text), r.endByte - r.startByte))
    else
      match (FindPoint(text, from, 0), FindPoint(text, to, 0))
      case (Some(i), Some(j)) =>
        Ok(TsRange(r.startByte + CharToUnit(text, UTF8, i), r.startByte + CharToUnit(text, UTF8, j),
                   Compose(r.startPoint, from), Compose(r.startPoint, to)))
      case (_, _) => Err(PositionOutOfRange)
  }

  /** The byte of a found character. */
  function ByteOf(text: string, hit: Option<nat>): Option<nat>
    requires hit.Some? ==> hit.value <= |text|
  {
    if hit.None? then None else Some(CharToUnit(text, UTF8, hit.value))
  }

  /** A search over the first `k` characters: found with its byte, or still to be found. */
  predicate Sought(text: string, at: Point, k: nat, byte: Option<nat>)
    requires k <= |text|
  {
    if byte.Some? then byte == ByteOf(text, FindPoint(text, at, 0))
    else FindPoint(text, at, k) == FindPoint(text, at, 0)
  }

  lemma SoughtStep(text: string, at: Point, k: nat, byte: Option<nat>)
    requires k < |text| && Sought(text, at, k, byte)
    requires byte.None? ==> PointAt(text, k) != at
    ensures Sought(text, at, k + 1, byte)
  {
  }

  /** One walk over the text for the bytes of both points; a point may be the text's end. */
  method FindBytes(text: string, from: Point, to: Point) returns (fromByte: Option<nat>, toByte: Option<nat>)
    ensures fromByte == ByteOf(text, FindPoint(text, from, 0))
    ensures toByte == ByteOf(text, FindPoint(text, to, 0))
  {
    var current, byte: nat, k: nat := ORIGIN, 0, 0;
    fromByte, toByte := None, None;
    while true
      invariant k <= |text| && current == PointAt(text, k) && byte == CharToUnit(text, UTF8, k)
      invariant Sought(text, from, k, fromByte) && Sought(text, to, k, toByte)
      decreases |text| - k
    {
      if fromByte.None? && current == from {
        fromByte := Some(byte);
      }
      if toByte.None? && current == to {
        toByte := Some(byte);
      }
      if k == |text| || (fromByte.Some? && toByte.Some?) {
        return;
      }
      SoughtStep(text, from, k, fromByte);
      SoughtStep(text, to, k, toByte);
      current := StepPoint(current, text[k]);
      byte := byte + Units(text[k], UTF8);
      k := k + 1;
    }
  }

  method Sub(r: TsRange, text: string, from: Point, to: Point) returns (res: Result<TsRange, RangeError>)
    requires r.Valid()
    ensures res == SubSpec(r, text, from, to)
  {
    if PointAfter(from, to) {
      return Err(StartAfterEnd);
    }
    if ByteLen(text) != r.endByte - r.startByte {
      return Err(TextRangeMismatch(ByteLen(text), r.endByte - r.startByte));
    }
    var fromAbsolute := Point(r.startPoint.row + from.row,
                              if from.row == 0 then r.startPoint.column + from.column else from.column);
    var toAbsolute := Point(r.startPoint.row + to.row,
                            if to.row == 0 then r.startPoint.column + to.column else to.column);
    var fromByte, toByte := FindBytes(text, from, to);
    if fromByte.None? || toByte.None? {
      return Err(PositionOutOfRange);
    }
    return Ok(TsRange(r.startByte + fromByte.value, r.startByte + toByte.value, fromAbsolute, toAbsolute));
  }

  /** A coherent range splits exactly at the points of its text's characters, into coherent halves. */
  lemma SplitAtCoherent(r: TsRange, text: string, at: Point)
    requires Coherent(r, text)
    ensures SplitAtSpec(r, text, at).Ok? <==> exists k :: 0 <= k <= |text| && PointAt(text, k) == at
    ensures SplitAtSpec(r, text, at).Err? ==> SplitAtSpec(r, text, at).error == PositionOutOfRange
    ensures forall k :: 0 <= k <= |text| && PointAt(text, k) == at ==>
              var (left, right) := SplitAtSpec(r, text, at).value;
              && Coherent(left, text[..k]) && Coherent(right, text[k..])
              && left.startByte == r.startByte && left.startPoint == r.startPoint
              && left.endByte == right.startByte && left.endPoint == right.startPoint
              && right.endByte == r.endByte && right.endPoint == r.endPoint
  {
    forall k | 0 <= k <= |text| && PointAt(text, k) == at
      ensures FindPoint(text, at, 0) == Some(k)
      ensures AdvanceOver(r.startPoint, text[..k]) == Compose(r.startPoint, at)
      ensures AdvanceOver(Compose(r.startPoint, at), text[k..]) == r.endPoint
      ensures ByteLen(text[..k]) == CharToUnit(text, UTF8, k)
      ensures ByteLen(text[k..]) == ByteLen(text) - CharToUnit(text, UTF8, k)
    {
      FoundPoint(text, at, 0, k);
      AdvanceComposes(r.startPoint, text, k);
      AdvanceSplit(r.startPoint, text, k, |text|);
      BytesSplit(text, k);
    }
  }

  /** A coherent range has a subrange exactly between ordered character points, and it is coherent. */
  lemma SubCoherent(r: TsRange, text: string, from: Point, to: Point)
    requires Coherent(r, text)
    ensures SubSpec(r, text, from, to).Ok? <==>
            exists i, j :: 0 <= i <= j <= |text| && PointAt(text, i) == from && PointAt(text, j) == to
    ensures forall i, j :: 0 <= i <= j <= |text| && PointAt(text, i) == from && PointAt(text, j) == to ==>
              Coherent(SubSpec(r, text, from, to).value, text[i..j])
  {
    if SubSpec(r, text, from, to).Ok? {
      var i, j := FindPoint(text, from, 0).value, FindPoint(text, to, 0).value;
      if j < i {
        AdvanceIncreases(ORIGIN, text, j, i);
      }
      assert 0 <= i <= j <= |text| && PointAt(text, i) == from && PointAt(text, j) == to;
    }
    forall i, j | 0 <= i <= j <= |text| && PointAt(text, i) == from && PointAt(text, j) == to
      ensures SubSpec(r, text, from, to).Ok? && Coherent(SubSpec(r, text, from, to).value, text[i..j])
    {
      SubBetween(r, text, from, to, i, j);
    }
  }

  lemma SubBetween(r: TsRange, text: string, from: Point, to: Point, i: nat, j: nat)
    requires Coherent(r, text) && i <= j <= |text| && PointAt(text, i) == from && PointAt(text, j) == to
    ensures SubSpec(r, text, from, to).Ok? && Coherent(SubSpec(r, text, from, to).value, text[i..j])
  {
    FoundPoint(text, from, 0, i);
    FoundPoint(text, to, 0, j);
    if i < j {
      AdvanceIncreases(ORIGIN, text, i, j);
    }
    assert text[..j][..i] == text[..i] && text[..j][i..] == text[i..j];
    BytesSplit(text, j);
    BytesSplit(text[..j], i);
    CharToUnitPrefix(text[..j], text, UTF8, i);
    AdvanceSplit(r.startPoint, text[..j], i, j);
    AdvancePrefix(r.startPoint, text[..j], text, i);
    AdvancePrefix(r.startPoint, text[..j], text, j);
    AdvanceComposes(r.startPoint, text, i);
    AdvanceComposes(r.startPoint, text, j);
  }

  /** A split fails exactly for a text of another length, then for a point that is no character's. */
  lemma SplitAtFailsIff(r: TsRange, text: string, at: Point)
    requires r.Valid()
    ensures match SplitAtSpec(r, text, at)
            case Err(TextRangeMismatch(t, l)) => t == ByteLen(text) != l == r.endByte - r.startByte
            case Err(PositionOutOfRange) =>
              ByteLen(text) == r.endByte - r.startByte && forall k :: 0 <= k <= |text| ==> PointAt(text, k) != at
            case Err(_) => false
            case Ok(_) =>
              ByteLen(text) == r.endByte - r.startByte && exists k :: 0 <= k <= |text| && PointAt(text, k) == at
  {
    forall k | 0 <= k <= |text| && PointAt(text, k) == at ensures FindPoint(text, at, 0).Some? {
      FoundPoint(text, at, 0, k);
    }
  }

  /** A subrange fails exactly for points out of order, then a text of another length, then points of no character. */
  lemma SubFailsIff(r: TsRange, text: string, from: Point, to: Point)
    requires r.Valid()
    ensures match SubSpec(r, text, from, to)
            case Err(StartAfterEnd) => to.row < from.row || (to.row == from.row && to.column < from.column)
            case Err(TextRangeMismatch(t, l)) =>
              !PointLess(to, from) && t == ByteLen(text) != l == r.endByte - r.startByte
            case Err(PositionOutOfRange) =>
              && !PointLess(to, from) && ByteLen(text) == r.endByte - r.startByte
              && (|| (forall k :: 0 <= k <= |text| ==> PointAt(text, k) != from)
                  || (forall k :: 0 <= k <= |text| ==> PointAt(text, k) != to))
            case Err(_) => false
            case Ok(_) => !PointLess(to, from) && ByteLen(text) == r.endByte - r.startByte
  {
    forall k | 0 <= k <= |text| && PointAt(text, k) == from ensures FindPoint(text, from, 0).Some? {
      FoundPoint(text, from, 0, k);
    }
    forall k | 0 <= k <= |text| && PointAt(text, k) == to ensures FindPoint(text, to, 0).Some? {
      FoundPoint(text, to, 0, k);
    }
  }

  /** On bytes, splits and subranges are those of the byte range at the points' bytes. */
  lemma SplitsAreByteSplits(r: TsRange, text: string, from: Point, to: Point, i: nat, j: nat)
    requires Coherent(r, text) && i <= j <= |text| && PointAt(text, i) == from && PointAt(text, j) == to
    ensures SplitAtSpec(r, text, from).Ok? && SubSpec(r, text, from, to).Ok?
    ensures var (left, right) := SplitAtSpec(r, text, from).value;
            B.SplitAt(r.Bytes(), CharToUnit(text, UTF8, i)) == Ok((left.Bytes(), right.Bytes()))
    ensures B.Sub(r.Bytes(), CharToUnit(text, UTF8, i), CharToUnit(text, UTF8, j)) ==
            Ok(SubSpec(r, text, from, to).value.Bytes())
  {
    FoundPoint(text, from, 0, i);
    SubBetween(r, text, from, to, i, j);
    FoundPoint(text, to, 0, j);
    CharToUnitMonotone(text, UTF8, i, j);
    CharToUnitMonotone(text, UTF8, j, |text|);
  }

  // ------------------------------------------------------------ delimiters

  function SubDelimitedSpec(r: TsRange, text: string, delim: char): Result<Pair<TsRange>, RangeError>
    requires r.Valid()
  {
    if ByteLen(text) != r.endByte - r.startByte then Err(TextRangeMismatch(ByteLen(text), r.endByte - r.startByte))
    else if !SingleByte(delim) then Err(DelimiterNotSingleByte(delim))
    else
      match Find(text, delim)
      case None => Ok((if text == "" then None else Some(r), None))
      case Some(i) =>
        Ok((if i == 0 then None
            else Some(r.(endByte := r.startByte + CharToUnit(text, UTF8, i),
                         endPoint := Advance(r.startPoint, text, i))),
            if i + 1 == |text| then None
            else Some(r.(startByte := r.startByte + CharToUnit(text, UTF8, i + 1),
                         startPoint := Advance(r.startPoint, text, i + 1)))))
  }

  method SubDelimited(r: TsRange, text: string, delim: char) returns (res: Result<Pair<TsRange>, RangeError>)
    requires r.Valid()
    ensures res == SubDelimitedSpec(r, text, delim)
  {
    if ByteLen(text) != r.endByte - r.startByte {
      return Err(TextRangeMismatch(ByteLen(text), r.endByte - r.startByte));
    }
    if !SingleByte(delim) {
      return Err(DelimiterNotSingleByte(delim));
    }
    var hit := Find(text, delim);
    if hit.None? {
      return Ok((if text != "" then Some(r) else None, None));
    }
    var offset := CharToUnit(text, UTF8, hit.value);
    var rowOffset, lineStart, _ := LocateLine(text, hit.value);
    B.DelimiterBytes(text, delim, hit.value);
    AdvanceComposes(r.startPoint, text, hit.value);
    assert Advance(r.startPoint, text, hit.value + 1) == StepPoint(Advance(r.startPoint, text, hit.value), delim);
    var colOffset := offset - lineStart;
    var delimPoint := Point(r.startPoint.row + rowOffset,
                            if rowOffset == 0 then r.startPoint.column + colOffset else colOffset);
    var delimByte := r.startByte + offset;
    var left, right := None, None;
    if offset != 0 {
      left := Some(TsRange(r.startByte, delimByte, r.startPoint, delimPoint));
    }
    if offset + 1 < ByteLen(text) {
      var afterDelim := if text[hit.value] == '\n' then Point(delimPoint.row + 1, 0)
                        else Point(delimPoint.row, delimPoint.column + 1);
      right := Some(TsRange(delimByte + 1, r.endByte, afterDelim, r.endPoint));
    }
    return Ok((left, right));
  }

  function SubDelimitedTri(r: TsRange, text: string, delim0: char, delim1: char): Result<Triple<TsRange>, RangeError>
    requires r.Valid()
  {
    if !SingleByte(delim0) then Err(DelimiterNotSingleByte(delim0))
    else if !SingleByte(delim1) then Err(DelimiterNotSingleByte(delim1))
    else if text == "" then Ok((None, None, None))
    else if ByteLen(text) != r.endByte - r.startByte then
      Err(TextRangeMismatch(ByteLen(text), r.endByte - r.startByte))
    else
      match SubDelimitedSpec(r, text, delim0)
      case Err(error) => Err(error)
      case Ok((first, None)) => Ok((first, None, None))
      case Ok((first, Some(remainder))) =>
        RemainderText(r, text, delim0);
        var rest := text[UnitToChar(text, UTF8, remainder.startByte - r.startByte)..];
        Then(first, SubDelimitedSpec(remainder, rest, delim1))
  }

  /** The remainder's bytes are those of the text after the delimiter. */
  lemma RemainderText(r: TsRange, text: string, delim: char)
    requires r.Valid() && ByteLen(text) == r.endByte - r.startByte && SingleByte(delim)
    requires Find(text, delim).Some?
    ensures var i := Find(text, delim).value;
            var start := CharToUnit(text, UTF8, i + 1);
            && start <= ByteLen(text)
            && UnitToChar(text, UTF8, start) == i + 1
            && ByteLen(text[i + 1..]) == ByteLen(text) - start
  {
    var i := Find(text, delim).value;
    UnitOfChar(text, UTF8, i + 1);
    BytesSplit(text, i + 1);
  }

  function Whole(r: TsRange, text: string): Option<TsRange> { if text == "" then None else Some(r) }

  /**
   The two optional pieces lie coherently around the text's first delimiter: a piece is missing
   exactly when its text is empty. Without a delimiter the whole range is the first piece.
   */
  predicate PiecesAround(text: string, delim: char, left: Option<TsRange>, right: Option<TsRange>, r: TsRange) {
    match Find(text, delim)
    case None => left == Whole(r, text) && right == None
    case Some(i) =>
      && (left.None? <==> text[..i] == "")
      && (left.Some? ==> Coherent(left.value, text[..i]) &&
                         left.value.startByte == r.startByte && left.value.startPoint == r.startPoint)
      && (right.None? <==> text[i + 1..] == "")
      && (right.Some? ==> Coherent(right.value, text[i + 1..]) &&
                          right.value.endByte == r.endByte && right.value.endPoint == r.endPoint)
  }

  /** A delimiter split partitions the text of a coherent range. */
  lemma SubDelimitedPartitions(r: TsRange, text: string, delim: char)
    requires Coherent(r, text) && SingleByte(delim)
    ensures var res := SubDelimitedSpec(r, text, delim);
            res.Ok? && PiecesAround(text, delim, res.value.0, res.value.1, r)
  {
    match Find(text, delim)
    case None =>
    case Some(i) =>
      HeadCoherent(r, text, i);
      TailCoherent(r, text, i + 1);
  }

  /** A coherent range cut at a character is coherent with the text before it ... */
  lemma HeadCoherent(r: TsRange, text: string, k: nat)
    requires Coherent(r, text) && k <= |text|
    ensures Coherent(r.(endByte := r.startByte + CharToUnit(text, UTF8, k), endPoint := Advance(r.startPoint, text, k)),
                     text[..k])
  {
    BytesSplit(text, k);
    AdvanceSplit(r.startPoint, text, k, |text|);
  }

  /** ... and with the text from it on. */
  lemma TailCoherent(r: TsRange, text: string, k: nat)
    requires Coherent(r, text) && k <= |text|
    ensures Coherent(r.(startByte := r.startByte + CharToUnit(text, UTF8, k), startPoint := Advance(r.startPoint, text, k)),
                     text[k..])
  {
    BytesSplit(text, k);
    AdvanceSplit(r.startPoint, text, k, |text|);
  }

  /** A double split goes on with the remainder of the first, over the text after the delimiter. */
  lemma TriSplitsRest(r: TsRange, text: string, delim0: char, delim1: char, first: Option<TsRange>, rest: TsRange)
    requires r.Valid() && rest.Valid() && ByteLen(text) == r.endByte - r.startByte
    requires SingleByte(delim0) && SingleByte(delim1) && Find(text, delim0).Some?
    requires SubDelimitedSpec(r, text, delim0) == Ok((first, Some(rest)))
    ensures SubDelimitedTri(r, text, delim0, delim1) ==
            Then(first, SubDelimitedSpec(rest, text[Find(text, delim0).value + 1..], delim1))
  {
    RemainderText(r, text, delim0);
  }

  /** The pieces of a double split: the first split's, and those of its remainder. */
  ghost predicate TriPieces(text: string, delim0: char, delim1: char, pieces: Triple<TsRange>, r: TsRange) {
    match Find(text, delim0)
    case None => pieces == (Whole(r, text), None, None)
    case Some(i) =>
      exists remainder ::
        && PiecesAround(text, delim0, pieces.0, remainder, r)
        && if remainder.None? then pieces.1 == pieces.2 == None
           else PiecesAround(text[i + 1..], delim1, pieces.1, pieces.2, remainder.value)
  }

  /** A double split partitions the text, then the remainder after the first delimiter. */
  lemma SubDelimitedTriPartitions(r: TsRange, text: string, delim0: char, delim1: char)
    requires Coherent(r, text) && SingleByte(delim0) && SingleByte(delim1)
    ensures var res := SubDelimitedTri(r, text, delim0, delim1);
            res.Ok? && TriPieces(text, delim0, delim1, res.value, r)
  {
    SubDelimitedPartitions(r, text, delim0);
    if Find(text, delim0).Some? {
      var (first, remainder) := SubDelimitedSpec(r, text, delim0).value;
      if remainder.Some? {
        TriSplitsRest(r, text, delim0, delim1, first, remainder.value);
        SubDelimitedPartitions(remainder.value, text[Find(text, delim0).value + 1..], delim1);
      }
      assert PiecesAround(text, delim0, first, remainder, r);
    }
  }

  function BytesOf(r: Option<TsRange>): Option<B.ByteRange> {
    match r case None => None case Some(x) => Some(x.Bytes())
  }

  /** On bytes and on errors, delimiter splits are those of the byte range. */
  lemma AgreesWithBytes(r: TsRange, text: string, delim: char)
    requires r.Valid()
    ensures B.SubDelimited(r.Bytes(), text, delim) ==
            match SubDelimitedSpec(r, text, delim)
            case Err(error) => Err(error)
            case Ok((left, right)) => Ok((BytesOf(left), BytesOf(right)))
  {
    if ByteLen(text) == r.endByte - r.startByte && SingleByte(delim) && Find(text, delim).Some? {
      B.SplitsAtDelimiter(r.Bytes(), text, delim, Find(text, delim).value);
    }
  }

  /** The pieces of a double split, on bytes. */
  function TriBytes(res: Result<Triple<TsRange>, RangeError>): Result<Triple<B.ByteRange>, RangeError> {
    match res
    case Err(error) => Err(error)
    case Ok((first, second, third)) => Ok((BytesOf(first), BytesOf(second), BytesOf(third)))
  }

  lemma TriAgreesWithBytes(r: TsRange, text: string, delim0: char, delim1: char)
    requires r.Valid()
    ensures B.SubDelimitedTri(r.Bytes(), text, delim0, delim1) == TriBytes(SubDelimitedTri(r, text, delim0, delim1))
  {
    if SingleByte(delim0) && SingleByte(delim1) && text != "" && ByteLen(text) == r.endByte - r.startByte {
      AgreesWithBytes(r, text, delim0);
      if Find(text, delim0).Some? {
        TriAtDelimiter(r, text, delim0, delim1, Find(text, delim0).value);
      }
    }
  }

  lemma TriAtDelimiter(r: TsRange, text: string, delim0: char, delim1: char, i: nat)
    requires r.Valid() && ByteLen(text) == r.endByte - r.startByte
    requires SingleByte(delim0) && SingleByte(delim1) && Find(text, delim0) == Some(i)
    ensures B.SubDelimitedTri(r.Bytes(), text, delim0, delim1) == TriBytes(SubDelimitedTri(r, text, delim0, delim1))
  {
    B.SplitsAtDelimiter(r.Bytes(), text, delim0, i);
    AgreesWithBytes(r, text, delim0);
    var (first, remainder) := SubDelimitedSpec(r, text, delim0).value;
    if remainder.Some? {
      RemainderText(r, text, delim0);
      TriSplitsRest(r, text, delim0, delim1, first, remainder.value);
      AgreesWithBytes(remainder.value, text[i + 1..], delim1);
    }
  }

  // ------------------------------------------------------------ shrink

  function Shrink(r: TsRange, left: nat, right: nat): Result<TsRange, RangeError> {
    if r.startPoint.row != r.endPoint.row then Err(NotSingleLine)
    else
      Ok(TsRange(
        Min(r.startByte + left, r.endByte),
        Max(SubOrZero(r.endByte, right), r.startByte),
        Point(r.startPoint.row, Min(r.startPoint.column + left, r.endPoint.column)),
        Point(r.endPoint.row, Max(SubOrZero(r.endPoint.column, right), r.startPoint.column))))
  }

  function Max(a: nat, b: nat): nat { if a >= b then a else b }

  function SubOrZero(a: nat, b: nat): nat { if a >= b then a - b else 0 }

  /**
   A single-line range shrinks by each amount as far as it reaches, bytes and columns alike, and stays
   in order exactly when the amounts do not overlap or one of them spans nothing. Others do not shrink.
   */
  lemma ShrinkMovesAlike(r: TsRange, text: string, left: nat, right: nat)
    requires Coherent(r, text)
    ensures Shrink(r, left, right) == Err(NotSingleLine) <==> r.startPoint.row != r.endPoint.row
    ensures r.startPoint.row == r.endPoint.row ==>
              && Shrink(r, left, right).Ok?
              && var s := Shrink(r, left, right).value;
                 && s.startPoint.row == s.endPoint.row == r.startPoint.row
                 && s.startByte - r.startByte == s.startPoint.column - r.startPoint.column == Min(left, ByteLen(text))
                 && r.endByte - s.endByte == r.endPoint.column - s.endPoint.column == Min(right, ByteLen(text))
                 && (s.startByte <= s.endByte <==>
                       left + right <= ByteLen(text) || left == 0 || right == 0 || text == "")
  {
    if r.startPoint.row == r.endPoint.row {
      OneRowIsBytes(r.startPoint, text, |text|);
    }
  }

  /** Amounts that do not overlap come off either end. */
  lemma ShrinkTo(r: TsRange, left: nat, right: nat)
    requires r.startPoint.row == r.endPoint.row && left + right <= r.endByte - r.startByte
    requires r.endPoint.column - r.startPoint.column == r.endByte - r.startByte
    ensures Shrink(r, left, right) ==
            Ok(TsRange(r.startByte + left, r.endByte - right, Point(r.startPoint.row, r.startPoint.column + left),
                       Point(r.startPoint.row, r.endPoint.column - right)))
  {
  }

  /** The part of a range between two characters of its text. */
  function Between(r: TsRange, text: string, i: nat, j: nat): TsRange
    requires i <= |text| && j <= |text|
  {
    TsRange(r.startByte + CharToUnit(text, UTF8, i), r.startByte + CharToUnit(text, UTF8, j),
            Advance(r.startPoint, text, i), Advance(r.startPoint, text, j))
  }

  /** In one row that part is cut off by bytes at either end. */
  lemma BetweenInRow(r: TsRange, text: string, i: nat, j: nat, left: nat, right: nat)
    requires Coherent(r, text) && r.startPoint.row == r.endPoint.row && i <= j <= |text|
    requires CharToUnit(text, UTF8, i) == left && CharToUnit(text, UTF8, j) + right == ByteLen(text)
    ensures r.endPoint.column - r.startPoint.column == r.endByte - r.startByte
    ensures Between(r, text, i, j) ==
            TsRange(r.startByte + left, r.endByte - right, Point(r.startPoint.row, r.startPoint.column + left),
                    Point(r.startPoint.row, r.endPoint.column - right))
  {
    OneRowUpTo(r.startPoint, text, i);
    OneRowUpTo(r.startPoint, text, j);
    OneRowUpTo(r.startPoint, text, |text|);
  }

  /** Shrunk to cuts at characters, a coherent range is the part between them, coherent with the text there. */
  lemma ShrinkCoherent(r: TsRange, text: string, i: nat, j: nat, left: nat, right: nat)
    requires Coherent(r, text) && r.startPoint.row == r.endPoint.row && i <= j <= |text|
    requires CharToUnit(text, UTF8, i) == left && CharToUnit(text, UTF8, j) + right == ByteLen(text)
    ensures Shrink(r, left, right) == Ok(Between(r, text, i, j))
    ensures Coherent(Between(r, text, i, j), text[i..j])
  {
    CharToUnitMonotone(text, UTF8, i, j);
    BetweenInRow(r, text, i, j, left, right);
    ShrinkTo(r, left, right);
    BetweenCoherent(r.startPoint, text, i, j);
  }

  /** Within one row every point counts bytes from the start. */
  lemma OneRowUpTo(p: Point, text: string, k: nat)
    requires k <= |text| && AdvanceOver(p, text).row == p.row
    ensures Advance(p, text, k) == Point(p.row, p.column + CharToUnit(text, UTF8, k))
  {
    RowsGrow(p, text, k);
    if k < |text| {
      AdvanceIncreases(p, text, k, |text|);
    }
    OneRowIsBytes(p, text, k);
  }

  lemma BetweenCoherent(p: Point, text: string, i: nat, j: nat)
    requires i <= j <= |text|
    ensures ByteLen(text[i..j]) == CharToUnit(text, UTF8, j) - CharToUnit(text, UTF8, i)
    ensures AdvanceOver(Advance(p, text, i), text[i..j]) == Advance(p, text, j)
  {
    var head := text[..j];
    assert head[..i] == text[..i] && head[i..] == text[i..j];
    BytesSplit(text, j);
    BytesSplit(head, i);
    CharToUnitPrefix(head, text, UTF8, i);
    AdvanceSplit(p, head, i, j);
    AdvancePrefix(p, head, text, i);
    AdvancePrefix(p, head, text, j);
  }

  lemma {:induction false} OneRowIsBytes(p: Point, text: string, k: nat)
    requires k <= |text| && Advance(p, text, k).row == p.row
    ensures Advance(p, text, k).column == p.column + CharToUnit(text, UTF8, k)
  {
    if k > 0 {
      RowsGrow(p, text, k - 1);
      OneRowIsBytes(p, text, k - 1);
    }
  }

  lemma {:induction false} RowsGrow(p: Point, text: string, k: nat)
    requires k <= |text|
    ensures p.row <= Advance(p, text, k).row
  {
    if k > 0 {
      RowsGrow(p, text, k - 1);
    }
  }
}
