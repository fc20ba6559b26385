/** Byte ranges: the simple version the other two agree with. */
module ByteRanges {
  import opened Wrappers
  import opened TextEncoding
  import opened RangeBasics

  datatype ByteRange = ByteRange(start: nat, end: nat) {
    predicate Valid() { start <= end }
  }

  function SplitAt(r: ByteRange, at: nat): Result<(ByteRange, ByteRange), RangeError>
    requires r.Valid()
  {
    if at > r.end - r.start then Err(PositionOutOfRange)
    else Ok((ByteRange(r.start, r.start + at), ByteRange(r.start + at, r.end)))
  }

  function Sub(r: ByteRange, from: nat, to: nat): Result<ByteRange, RangeError>
    requires r.Valid()
  {
    var len := r.end - r.start;
    if from > len || to > len then Err(PositionOutOfRange)
    else if from > to then Err(StartAfterEnd)
    else Ok(ByteRange(r.start + from, r.start + to))
  }

  function SubDelimited(r: ByteRange, text: string, delim: char): Result<Pair<ByteRange>, RangeError>
    requires r.Valid()
  {
    if ByteLen(text) != r.end - r.start then Err(TextRangeMismatch(ByteLen(text), r.end - r.start))
    else if !SingleByte(delim) then Err(DelimiterNotSingleByte(delim))
    else
      match Find(text, delim)
      case None => Ok((if text == "" then None else Some(r), None))
      case Some(i) =>
        var offset := CharToUnit(text, UTF8, i);
        var left := SplitAt(r, offset);
        var right := SplitAt(r, offset + 1);
        if offset != 0 && left.Err? then Err(left.error)
        else if offset + 1 < ByteLen(text) && right.Err? then Err(right.error)
        else Ok((if offset == 0 then None else Some(left.value.0),
                 if offset + 1 >= ByteLen(text) then None else Some(right.value.1)))
  }

  /** The remainder after the first delimiter, split at the second. */
  function SubDelimitedTri(r: ByteRange, text: string, delim0: char, delim1: char): Result<Triple<ByteRange>, RangeError>
    requires r.Valid()
  {
    if !SingleByte(delim0) then Err(DelimiterNotSingleByte(delim0))
    else if !SingleByte(delim1) then Err(DelimiterNotSingleByte(delim1))
    else if text == "" then Ok((None, None, None))
    else if ByteLen(text) != r.end - r.start then Err(TextRangeMismatch(ByteLen(text), r.end - r.start))
    else
      match Find(text, delim0)
      case None => Ok((Some(r), None, None))
      case Some(i) =>
        SplitsAtDelimiter(r, text, delim0, i);
        match SubDelimited(r, text, delim0)
        case Err(error) => Err(error)
        case Ok((first, None)) => Ok((first, None, None))
        case Ok((first, Some(remainder))) =>
          Then(first, SubDelimited(remainder, text[i + 1..], delim1))
  }

  /** Splits and subranges fail exactly out of range, then out of order, and else keep offsets from the start. */
  lemma CutsFailIff(r: ByteRange, at: nat, to: nat)
    requires r.Valid()
    ensures SplitAt(r, at) ==
            if r.start + at > r.end then Err(PositionOutOfRange)
            else Ok((ByteRange(r.start, r.start + at), ByteRange(r.start + at, r.end)))
    ensures Sub(r, at, to) ==
            if r.start + at > r.end || r.start + to > r.end then Err(PositionOutOfRange)
            else if r.start + at > r.start + to then Err(StartAfterEnd)
            else Ok(ByteRange(r.start + at, r.start + to))
  {
  }

  /** Delimiter splits report a mismatched text first, then a wide delimiter, and nothing else. */
  lemma DelimitedFailsIff(r: ByteRange, text: string, delim: char)
    requires r.Valid()
    ensures match SubDelimited(r, text, delim)
            case Err(TextRangeMismatch(t, l)) => t == ByteLen(text) != l == r.end - r.start
            case Err(DelimiterNotSingleByte(d)) => d == delim && delim as int >= 0x80 && ByteLen(text) == r.end - r.start
            case Err(_) => false
            case Ok(_) => (delim as int) < 0x80 && ByteLen(text) == r.end - r.start
  {
    if SingleByte(delim) && ByteLen(text) == r.end - r.start && Find(text, delim).Some? {
      SplitsAtDelimiter(r, text, delim, Find(text, delim).value);
    }
  }

  /** Double splits report a wide delimiter first, then, but for an empty text, a mismatched text. */
  lemma TriFailsIff(r: ByteRange, text: string, delim0: char, delim1: char)
    requires r.Valid()
    ensures match SubDelimitedTri(r, text, delim0, delim1)
            case Err(DelimiterNotSingleByte(d)) =>
              d as int >= 0x80 && d == if delim0 as int >= 0x80 then delim0 else delim1
            case Err(TextRangeMismatch(t, l)) =>
              && (delim0 as int) < 0x80 && (delim1 as int) < 0x80 && text != ""
              && t == ByteLen(text) != l == r.end - r.start
            case Err(_) => false
            case Ok(pieces) =>
              && (delim0 as int) < 0x80 && (delim1 as int) < 0x80
              && (if text == "" then pieces == (None, None, None) else ByteLen(text) == r.end - r.start)
  {
    if SingleByte(delim0) && SingleByte(delim1) && text != "" && ByteLen(text) == r.end - r.start {
      if Find(text, delim0).Some? {
        var i := Find(text, delim0).value;
        SplitsAtDelimiter(r, text, delim0, i);
        var (_, remainder) := SubDelimited(r, text, delim0).value;
        if remainder.Some? {
          DelimitedFailsIff(remainder.value, text[i + 1..], delim1);
        }
      }
    }
  }

  /** A single-byte delimiter takes one byte between the bytes before it and those after it. */
  lemma DelimiterBytes(text: string, delim: char, i: nat)
    requires SingleByte(delim) && Find(text, delim) == Some(i)
    ensures CharToUnit(text, UTF8, i + 1) == CharToUnit(text, UTF8, i) + 1 <= ByteLen(text)
    ensures CharToUnit(text, UTF8, i) == 0 <==> i == 0
    ensures CharToUnit(text, UTF8, i + 1) == ByteLen(text) <==> i + 1 == |text|
    ensures ByteLen(text[i + 1..]) == ByteLen(text) - CharToUnit(text, UTF8, i + 1)
  {
    CharToUnitMonotone(text, UTF8, 0, i);
    CharToUnitMonotone(text, UTF8, i + 1, |text|);
    BytesSplit(text, i + 1);
  }

  /** Around the first single-byte delimiter lie the bytes before it and the bytes after it. */
  lemma SplitsAtDelimiter(r: ByteRange, text: string, delim: char, i: nat)
    requires r.Valid() && ByteLen(text) == r.end - r.start
    requires SingleByte(delim) && Find(text, delim) == Some(i)
    ensures ByteLen(text[i + 1..]) == ByteLen(text) - CharToUnit(text, UTF8, i + 1) &&
            CharToUnit(text, UTF8, i + 1) <= ByteLen(text)
    ensures SubDelimited(r, text, delim) == Ok((
              if i == 0 then None else Some(ByteRange(r.start, r.start + CharToUnit(text, UTF8, i))),
              if i + 1 == |text| then None else Some(ByteRange(r.start + CharToUnit(text, UTF8, i + 1), r.end))))
  {
    DelimiterBytes(text, delim, i);
  }
}
