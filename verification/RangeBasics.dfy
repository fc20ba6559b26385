/** What the three kinds of text range share: their errors and the search for a delimiter. */
module RangeBasics {
  import opened Wrappers
  import opened TextEncoding
  import opened TextLines

  datatype RangeError =
    | PositionOutOfRange
    | StartAfterEnd
    | NotSingleLine
    | DelimiterNotSingleByte(delimiter: char)
    | TextRangeMismatch(textLen: nat, rangeLen: nat)

  type Pair<T> = (Option<T>, Option<T>)

  type Triple<T> = (Option<T>, Option<T>, Option<T>)

  /** A first piece before the split of the rest. */
  function Then<R>(first: Option<R>, rest: Result<Pair<R>, RangeError>): Result<Triple<R>, RangeError> {
    match rest
    case Err(error) => Err(error)
    case Ok((second, third)) => Ok((first, second, third))
  }

  function ByteLen(text: string): nat { LenUnits(text, UTF8) }

  predicate SingleByte(c: char) { Units(c, UTF8) == 1 }

  /** The first occurrence of `c`, as a character index: the rope-free `str::find`. */
  function Find(text: string, c: char): (r: Option<nat>)
    ensures r.None? ==> c !in text
    ensures r.Some? ==> r.value < |text| && text[r.value] == c && c !in text[..r.value]
  {
    FindFrom(text, c, 0)
  }

  function FindFrom(text: string, c: char, k: nat): (r: Option<nat>)
    requires k <= |text| && c !in text[..k]
    ensures r.None? ==> c !in text
    ensures r.Some? ==> r.value < |text| && text[r.value] == c && c !in text[..r.value]
    decreases |text| - k
  {
    if k == |text| then assert text[..k] == text; None
    else if text[k] == c then Some(k)
    else assert text[..k + 1] == text[..k] + [text[k]]; FindFrom(text, c, k + 1)
  }

  /** The bytes of a text are those before a character and those from it on. */
  lemma BytesSplit(text: string, k: nat)
    requires k <= |text|
    ensures ByteLen(text[..k]) == CharToUnit(text, UTF8, k)
    ensures ByteLen(text[k..]) == ByteLen(text) - CharToUnit(text, UTF8, k)
  {
    assert text == text[..k] + text[k..];
    CharToUnitConcat(text[..k], text[k..], UTF8, |text| - k);
    CharToUnitPrefix(text[..k], text, UTF8, k);
  }

  /** Characters since the last LF before character `k`. */
  function CharsSinceLf(text: string, k: nat): (n: nat)
    requires k <= |text|
    ensures n <= k
  {
    if k == 0 || text[k - 1] == '\n' then 0 else 1 + CharsSinceLf(text, k - 1)
  }

  /** Rows before character `hit`, and where its line starts, in bytes and in characters. */
  method LocateLine(text: string, hit: nat) returns (rows: nat, lineStart: nat, lineChar: nat)
    requires hit <= |text|
    ensures rows == PointAt(text, hit).row
    ensures lineStart + PointAt(text, hit).column == CharToUnit(text, UTF8, hit)
    ensures lineChar + CharsSinceLf(text, hit) == hit
  {
    rows, lineStart, lineChar := 0, 0, 0;
    var byte := 0;
    for k := 0 to hit
      invariant byte == CharToUnit(text, UTF8, k)
      invariant rows == PointAt(text, k).row
      invariant lineStart + PointAt(text, k).column == byte
      invariant lineChar + CharsSinceLf(text, k) == k
    {
      byte := byte + Units(text[k], UTF8);
      if text[k] == '\n' {
        rows, lineStart, lineChar := rows + 1, byte, k + 1;
      }
    }
  }
}
