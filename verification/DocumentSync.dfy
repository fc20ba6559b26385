/**
 Incremental document changes (LSP 3.17, "DidChangeTextDocument Notification"): a batch folded
 into the text, and the tree-sitter edit each ranged change reports.
 */
module DocumentSync {
  import opened Wrappers
  import opened MachineInts
  import opened TextEncoding
  import opened TextLines
  import opened Positions

  datatype Range = Range(start: LspPosition, end: LspPosition)

  /** A change of a range, or of the whole text. */
  datatype ContentChange = ContentChange(range: Option<Range>, text: string)

  datatype InputEdit = InputEdit(startByte: nat, oldEndByte: nat, newEndByte: nat,
                                 startPosition: Point, oldEndPosition: Point, newEndPosition: Point)

  // ------------------------------------------------------------ one change

  /** The rope's `try_line_to_char`: one line past the last is still an index. */
  function LineToChar(text: string, line: nat): Option<nat> {
    if line <= LineCount(text) then Some(LineStart(text, line)) else None
  }

  /** Character offset of a position on a line the rope can index. */
  function CharOffset(text: string, p: LspPosition, e: Encoding): nat {
    LineStart(text, p.line) + LspToEncoding(text, p, e, UTF32).character
  }

  /** The character range a change's range denotes, or None for a line out of bounds. */
  function ChangeCharRange(text: string, range: Range, e: Encoding): Option<(nat, nat)> {
    if LineToChar(text, range.start.line).None? || LineToChar(text, range.end.line).None? then None
    else
      var start := CharOffset(text, range.start, e);
      var rawEnd := CharOffset(text, range.end, e);
      Some((start, Min(if rawEnd < start then start else rawEnd, |text|)))
  }

  /** The rope edit: it fails on a reversed or overlong range, and then changes nothing. */
  function ReplaceRange(text: string, start: nat, end: nat, inserted: string): Option<string> {
    if start <= end <= |text| then Some(text[..start] + inserted + text[end..]) else None
  }

  function ApplyChange(text: string, change: ContentChange, e: Encoding): Option<string> {
    match change.range
    case None => Some(change.text)
    case Some(range) =>
      match ChangeCharRange(text, range, e)
      case None => None
      case Some((start, end)) => ReplaceRange(text, start, end, change.text)
  }

  // ------------------------------------------------------------ a batch

  /** The left fold of a batch; a failing change stops it and is reported. */
  function FoldChanges(text: string, changes: seq<ContentChange>, e: Encoding): (string, bool)
    decreases changes
  {
    if changes == [] then (text, false)
    else
      match ApplyChange(text, changes[0], e)
      case None => (text, true)
      case Some(next) => FoldChanges(next, changes[1..], e)
  }

  method ApplyBatch(before: string, changes: seq<ContentChange>, e: Encoding) returns (text: string, failed: bool)
    ensures (text, failed) == FoldChanges(before, changes, e)
  {
    text, failed := before, false;
    for i := 0 to |changes|
      invariant !failed && FoldChanges(text, changes[i..], e) == FoldChanges(before, changes, e)
    {
      assert changes[i..][1..] == changes[i + 1..];
      var change := changes[i];
      if change.range.None? {
        text := change.text;
        continue;
      }
      var range := ChangeCharRange(text, change.range.value, e);
      if range.None? {
        failed := true;
        return;
      }
      var (start, end) := range.value;
      var edited := ReplaceRange(text, start, end, change.text);
      if edited.None? {
        failed := true;
        return;
      }
      text := edited.value;
    }
  }

  /** Every change of the batch applies in turn. */
  predicate Applies(text: string, changes: seq<ContentChange>, e: Encoding)
    decreases changes
  {
    changes == [] ||
    (ApplyChange(text, changes[0], e).Some? && Applies(ApplyChange(text, changes[0], e).value, changes[1..], e))
  }

  /** A batch of one is its change. */
  lemma FoldOne(text: string, change: ContentChange, e: Encoding)
    ensures FoldChanges(text, [change], e) ==
            match ApplyChange(text, change, e)
            case None => (text, true)
            case Some(next) => (next, false)
  {
    assert [change][1..] == [];
  }

  /** A batch whose first part applies goes on from the text that part leaves. */
  lemma {:induction false} FoldConcat(text: string, a: seq<ContentChange>, b: seq<ContentChange>, e: Encoding)
    requires Applies(text, a, e)
    ensures FoldChanges(text, a + b, e) == FoldChanges(FoldChanges(text, a, e).0, b, e)
    ensures Applies(text, a + b, e) <==> Applies(FoldChanges(text, a, e).0, b, e)
    decreases a
  {
    if a == [] {
      assert a + b == b;
    } else {
      assert (a + b)[1..] == a[1..] + b;
      FoldConcat(ApplyChange(text, a[0], e).value, a[1..], b, e);
    }
  }

  /** A change of the whole text always applies and forgets what came before it. */
  lemma WholeTextResets(text: string, a: seq<ContentChange>, whole: string, b: seq<ContentChange>, e: Encoding)
    requires Applies(text, a, e)
    ensures FoldChanges(text, a + [ContentChange(None, whole)] + b, e) == FoldChanges(whole, b, e)
    ensures FoldChanges(text, a + [ContentChange(None, whole)], e) == (whole, false)
  {
    var change := ContentChange(None, whole);
    FoldOne(FoldChanges(text, a, e).0, change, e);
    FoldConcat(text, a, [change], e);
    assert Applies(FoldChanges(text, a, e).0, [change], e);
    FoldConcat(text, a + [change], b, e);
  }

  /** A failed batch leaves the fold of the changes before the first failing one. */
  lemma {:induction false} FailureKeepsPrefix(text: string, changes: seq<ContentChange>, e: Encoding)
    ensures FoldChanges(text, changes, e).1 <==> !Applies(text, changes, e)
    ensures FoldChanges(text, changes, e).1 ==>
              exists n :: 0 <= n < |changes| && FailsAt(text, changes, e, n)
    decreases changes
  {
    if changes != [] && ApplyChange(text, changes[0], e).Some? {
      var next := ApplyChange(text, changes[0], e).value;
      FailureKeepsPrefix(next, changes[1..], e);
      if FoldChanges(next, changes[1..], e).1 {
        var n :| 0 <= n < |changes| - 1 && FailsAt(next, changes[1..], e, n);
        FailsAtShift(text, next, changes, e, n);
      }
    } else if changes != [] {
      assert FailsAt(text, changes, e, 0);
    }
  }

  lemma FailsAtShift(text: string, next: string, changes: seq<ContentChange>, e: Encoding, n: nat)
    requires n + 1 < |changes| && ApplyChange(text, changes[0], e) == Some(next)
    requires FailsAt(next, changes[1..], e, n)
    ensures FailsAt(text, changes, e, n + 1)
  {
    assert changes[..n + 1][1..] == changes[1..][..n];
  }

  /** Change `n` is the first that does not apply, and the batch stops with the text before it. */
  predicate FailsAt(text: string, changes: seq<ContentChange>, e: Encoding, n: nat)
    requires n < |changes|
  {
    var before := FoldChanges(text, changes[..n], e);
    && !before.1
    && ApplyChange(before.0, changes[n], e).None?
    && FoldChanges(text, changes, e).0 == before.0
  }

  // ------------------------------------------------------------ when a change applies

  lemma CharColumnBound(line: string, e: Encoding, col: nat)
    ensures CharColumn(line, e, col) <= col
  {
    Utf8IsLongest(line, e, CharColumn(line, e, col));
  }

  /** Offsets in UTF-8 and UTF-16 are floored characters of the clamped line; UTF-32 columns pass through. */
  lemma CharOffsetMeaning(text: string, p: LspPosition, e: Encoding)
    ensures CharOffset(text, p, e) == LineStart(text, p.line) +
              if e == UTF32 then p.character else CharColumn(Line(text, ClampLine(text, p.line)), e, p.character)
  {
    if e != UTF32 {
      var line := Line(text, ClampLine(text, p.line));
      CharColumnBound(line, e, p.character);
      ColumnCountsChars(line, p.character, e, UTF32);
      Utf32IsCharIndex(line, CharColumn(line, e, p.character));
    }
  }

  /** What a change's start must satisfy for the rope to have that index. */
  predicate StartIndexable(text: string, p: LspPosition, e: Encoding) {
    if e == UTF32 then LineStart(text, p.line) + p.character <= |text|
    else p.line < LineCount(text) || CharColumn(Line(text, LineCount(text) - 1), e, p.character) == 0
  }

  lemma StartIndexableIff(text: string, p: LspPosition, e: Encoding)
    requires p.line <= LineCount(text)
    ensures StartIndexable(text, p, e) <==> CharOffset(text, p, e) <= |text|
  {
    CharOffsetMeaning(text, p, e);
    if p.line < LineCount(text) {
      LineStartOrdered(text, p.line);
    } else {
      LineStartPastEnd(text, p.line);
    }
  }

  /** A range resolves when the rope has its lines; its end is never before its start inside the text. */
  lemma RangeResolves(text: string, range: Range, e: Encoding)
    ensures ChangeCharRange(text, range, e).Some? <==>
            range.start.line <= LineCount(text) && range.end.line <= LineCount(text)
    ensures match ChangeCharRange(text, range, e)
            case None => true
            case Some((start, end)) =>
              start == CharOffset(text, range.start, e) && end <= |text| && (start <= |text| ==> start <= end)
  {
  }

  /** A ranged change applies exactly when the rope has its lines and its start. */
  lemma AppliesIff(text: string, range: Range, inserted: string, e: Encoding)
    ensures ApplyChange(text, ContentChange(Some(range), inserted), e).Some? <==>
            && range.start.line <= LineCount(text)
            && range.end.line <= LineCount(text)
            && StartIndexable(text, range.start, e)
  {
    RangeResolves(text, range, e);
    if ChangeCharRange(text, range, e).Some? {
      StartIndexableIff(text, range.start, e);
      var (start, end) := ChangeCharRange(text, range, e).value;
      assert ReplaceRange(text, start, end, inserted).Some? <==> start <= |text|;
    }
  }

  /** In UTF-8 and UTF-16, a range starting on a line of the text is always a range of the text. */
  lemma RangeIsInText(text: string, range: Range, e: Encoding)
    requires e != UTF32 && range.start.line < LineCount(text)
    ensures match ChangeCharRange(text, range, e)
            case Some((start, end)) => start <= end <= |text|
            case None => range.end.line > LineCount(text)
  {
    AppliesIff(text, range, "", e);
  }

  // ------------------------------------------------------------ the tree-sitter edit

  function AsPoint(p: LspPosition): Point { Point(p.line, p.character) }

  function BuildEdit(text: string, inserted: string, start: nat, end: nat, from: Point, to: Point): InputEdit
    requires start <= |text| && end <= |text|
  {
    var startByte := CharToUnit(text, UTF8, start);
    InputEdit(startByte, CharToUnit(text, UTF8, end), startByte + LenUnits(inserted, UTF8),
              from, to, AdvanceOver(from, inserted))
  }

  /** The edit for one change of characters `start..end`, read off the text before the change. */
  function TreeSitterEdit(text: string, range: Range, inserted: string, start: nat, end: nat, e: Encoding): InputEdit
    requires start <= |text| && end <= |text|
  {
    BuildEdit(text, inserted, start, end,
              AsPoint(LspToEncoding(text, range.start, e, UTF8)),
              AsPoint(LspToEncoding(text, range.end, e, UTF8)))
  }

  /** The point of a byte of the text. */
  function PointAtByte(text: string, byte: nat): Point
    requires byte <= LenUnits(text, UTF8)
  {
    PointAt(text, UnitToChar(text, UTF8, byte))
  }

  /** Bytes and points of an edit agree: in the old text at its start and old end, in the new one at its new end. */
  ghost predicate Coherent(text: string, edited: string, x: InputEdit) {
    && x.startByte <= x.oldEndByte <= LenUnits(text, UTF8)
    && x.newEndByte <= LenUnits(edited, UTF8)
    && x.startPosition == PointAtByte(text, x.startByte)
    && x.oldEndPosition == PointAtByte(text, x.oldEndByte)
    && x.newEndPosition == PointAtByte(edited, x.newEndByte)
  }

  /**
   A position that denotes one place: its column stays before its line's LF, a UTF-8 column
   starts a character, and the byte column fits the wire. On the line past the last one, which
   the rope can still index, a converted column must clamp to the text's end.
   */
  ghost predicate WithinLine(text: string, p: LspPosition, e: Encoding) {
    var line := Line(text, ClampLine(text, p.line));
    var k := CharColumn(line, e, p.character);
    && CharToUnit(line, UTF8, k) <= U32_MAX
    && if p.line < LineCount(text)
       then (k < |line| || p.line + 1 == LineCount(text)) && (e == UTF8 ==> IsBoundary(line, UTF8, p.character))
       else e != UTF8 && k == |line|
  }

  /** The point of the `k`-th character of a line, when that is still in the line's row. */
  lemma PointInLine(text: string, l: nat, k: nat)
    requires l < LineCount(text) && k <= |Line(text, l)|
    ensures k < |Line(text, l)| || l + 1 == LineCount(text) ==>
              PointAt(text, LineStart(text, l) + k) == Point(l, CharToUnit(Line(text, l), UTF8, k))
    ensures k == |Line(text, l)| && l + 1 < LineCount(text) ==>
              PointAt(text, LineStart(text, l) + k) == Point(l + 1, 0)
  {
    var c := LineStart(text, l) + k;
    LineStartOrdered(text, l);
    if k < |Line(text, l)| || l + 1 == LineCount(text) {
      RowOfLine(text, l, c);
      ColumnInRow(text, l, c);
      UnitsInLine(text, l, UTF8, k);
    } else {
      LineStartPoint(text, l + 1);
    }
  }

  /** The character a position's offset comes to once it is held inside the text. */
  function HeldOffset(text: string, p: LspPosition, e: Encoding): nat {
    Min(CharOffset(text, p, e), |text|)
  }

  /** A position's UTF-8 point is the point of its character exactly when it is within its line. */
  lemma PointMatchesIff(text: string, p: LspPosition, e: Encoding)
    requires p.line <= LineCount(text)
    ensures AsPoint(LspToEncoding(text, p, e, UTF8)) == PointAt(text, HeldOffset(text, p, e)) <==>
            WithinLine(text, p, e)
  {
    if p.line < LineCount(text) {
      InlinePointMatchesIff(text, p, e);
    } else {
      PastLastPointMatchesIff(text, p, e);
    }
  }

  lemma PastLastPointMatchesIff(text: string, p: LspPosition, e: Encoding)
    requires p.line == LineCount(text)
    ensures AsPoint(LspToEncoding(text, p, e, UTF8)) == PointAt(text, HeldOffset(text, p, e)) <==>
            WithinLine(text, p, e)
  {
    HeldAtEnd(text, p, e);
    if e != UTF8 {
      PastLastColumn(text, p, e);
    }
  }

  lemma HeldAtEnd(text: string, p: LspPosition, e: Encoding)
    requires p.line == LineCount(text)
    ensures var line := Line(text, p.line - 1);
            PointAt(text, HeldOffset(text, p, e)) == Point(p.line - 1, LenUnits(line, UTF8))
  {
    LineStartPastEnd(text, p.line);
    EndPoint(text);
  }

  lemma PastLastColumn(text: string, p: LspPosition, e: Encoding)
    requires p.line == LineCount(text) && e != UTF8
    ensures LspToEncoding(text, p, e, UTF8).line == p.line - 1
    ensures var line := Line(text, p.line - 1);
            LspToEncoding(text, p, e, UTF8).character == LenUnits(line, UTF8) <==> WithinLine(text, p, e)
  {
    var line := Line(text, p.line - 1);
    ColumnCountsChars(line, p.character, e, UTF8);
    EndColumnIff(line, CharColumn(line, e, p.character));
  }

  lemma EndColumnIff(line: string, k: nat)
    requires k <= |line|
    ensures Saturate(CharToUnit(line, UTF8, k)) == LenUnits(line, UTF8) <==>
            k == |line| && CharToUnit(line, UTF8, k) <= U32_MAX
  {
    CharToUnitMonotone(line, UTF8, k, |line|);
  }

  /** The end of the text is at the end of its last line. */
  lemma EndPoint(text: string)
    ensures var l := LineCount(text) - 1;
            PointAt(text, |text|) == Point(l, LenUnits(Line(text, l), UTF8))
  {
    var l := LineCount(text) - 1;
    LineStartOrdered(text, l);
    LineStartPastEnd(text, l + 1);
    PointInLine(text, l, |Line(text, l)|);
  }

  lemma InlinePointMatchesIff(text: string, p: LspPosition, e: Encoding)
    requires p.line < LineCount(text)
    ensures AsPoint(LspToEncoding(text, p, e, UTF8)) == PointAt(text, HeldOffset(text, p, e)) <==>
            WithinLine(text, p, e)
  {
    if e == UTF8 {
      BoundaryIff(Line(text, p.line), UTF8, p.character);
      HeldPointIff(text, p, e, p.character);
    } else {
      var line := Line(text, p.line);
      ColumnCountsChars(line, p.character, e, UTF8);
      HeldPointIff(text, p, e, Saturate(CharToUnit(line, UTF8, CharColumn(line, e, p.character))));
    }
  }

  /** A wire column of its line names the held character exactly when it counts the units before it, short of the LF. */
  lemma HeldPointIff(text: string, p: LspPosition, e: Encoding, column: u32)
    requires p.line < LineCount(text)
    ensures var line := Line(text, p.line);
            var k := CharColumn(line, e, p.character);
            Point(p.line, column) == PointAt(text, HeldOffset(text, p, e)) <==>
            column == CharToUnit(line, UTF8, k) && (k < |line| || p.line + 1 == LineCount(text))
  {
    HeldOffsetPoint(text, p, e);
    PointInLine(text, p.line, CharColumn(Line(text, p.line), e, p.character));
  }

  /** The held offset is the position's character, unless a UTF-32 column leaves its line. */
  lemma HeldOffsetPoint(text: string, p: LspPosition, e: Encoding)
    requires p.line < LineCount(text)
    ensures var k := CharColumn(Line(text, p.line), e, p.character);
            var c := HeldOffset(text, p, e);
            || c == LineStart(text, p.line) + k
            || (p.line + 1 < LineCount(text) && k == |Line(text, p.line)| && PointAt(text, c).row != p.line)
  {
    CharOffsetMeaning(text, p, e);
    LineStartOrdered(text, p.line);
    LineStartPastEnd(text, LineCount(text));
    if e == UTF32 {
      Utf32Column(Line(text, p.line), p.character);
      RowOfLine(text, p.line, HeldOffset(text, p, e));
    }
  }

  lemma Utf32Column(line: string, col: nat)
    ensures CharColumn(line, UTF32, col) == Min(col, |line|)
  {
    Utf32IsCharIndex(line, |line|);
    Utf32IsCharIndex(line, Min(col, |line|));
    CharColumnOfChar(line, UTF32, Min(col, |line|));
  }

  /** A position's UTF-8 point is never the point of a later character than its own. */
  lemma PointNotAhead(text: string, p: LspPosition, e: Encoding, j: nat)
    requires p.line < LineCount(text) && j <= |text|
    requires AsPoint(LspToEncoding(text, p, e, UTF8)) == PointAt(text, j)
    ensures j <= CharOffset(text, p, e)
  {
    var line := Line(text, p.line);
    Utf8ColumnBound(text, p, e);
    PointColumn(text, p.line, j);
    var i := j - LineStart(text, p.line);
    CharOffsetMeaning(text, p, e);
    ColumnAhead(line, e, p.character, LspToEncoding(text, p, e, UTF8).character, i);
  }

  lemma PointColumn(text: string, l: nat, j: nat)
    requires l < LineCount(text) && j <= |text| && PointAt(text, j).row == l
    ensures 0 <= j - LineStart(text, l) <= |Line(text, l)|
    ensures PointAt(text, j).column == CharToUnit(Line(text, l), UTF8, j - LineStart(text, l))
  {
    RowOfLine(text, l, j);
    LineStartPastEnd(text, LineCount(text));
    PointInLine(text, l, j - LineStart(text, l));
  }

  /** A byte column that counts `i` characters cannot come from a column before them. */
  lemma ColumnAhead(line: string, e: Encoding, col: nat, bytes: nat, i: nat)
    requires i <= |line| && bytes == CharToUnit(line, UTF8, i)
    requires if e == UTF8 then bytes == col else bytes <= CharToUnit(line, UTF8, CharColumn(line, e, col))
    ensures i <= CharColumn(line, e, col) <= col
  {
    var k := CharColumn(line, e, col);
    CharColumnBound(line, e, col);
    CharColumnOfChar(line, UTF8, i);
    if k < i {
      CharToUnitMonotone(line, UTF8, k, i);
    }
  }

  lemma Utf8ColumnBound(text: string, p: LspPosition, e: Encoding)
    requires p.line < LineCount(text)
    ensures var q := LspToEncoding(text, p, e, UTF8);
            && q.line == p.line
            && (e == UTF8 ==> q == p)
            && (e != UTF8 ==> q.character <= CharToUnit(Line(text, p.line), UTF8,
                                                        CharColumn(Line(text, p.line), e, p.character)))
  {
    if e != UTF8 {
      ColumnCountsChars(Line(text, p.line), p.character, e, UTF8);
    }
  }

  /** The held end of a range is where its position points exactly when that is within its line and not before the start. */
  lemma OldEndMatchesIff(text: string, p: LspPosition, e: Encoding, start: nat, end: nat)
    requires p.line <= LineCount(text) && start <= |text|
    requires end == if CharOffset(text, p, e) < start then start else HeldOffset(text, p, e)
    ensures AsPoint(LspToEncoding(text, p, e, UTF8)) == PointAt(text, end) <==>
            WithinLine(text, p, e) && start <= CharOffset(text, p, e)
  {
    LineStartPastEnd(text, LineCount(text));
    if CharOffset(text, p, e) < start {
      if AsPoint(LspToEncoding(text, p, e, UTF8)) == PointAt(text, start) {
        PointNotAhead(text, p, e, start);
      }
    } else {
      PointMatchesIff(text, p, e);
    }
  }

  /** An edit built from character offsets is coherent exactly when its two points are theirs. */
  lemma CoherentIffPoints(text: string, inserted: string, start: nat, end: nat, from: Point, to: Point)
    requires start <= end <= |text|
    ensures Coherent(text, text[..start] + inserted + text[end..],
                     BuildEdit(text, inserted, start, end, from, to)) <==>
            from == PointAt(text, start) && to == PointAt(text, end)
  {
    UnitOfChar(text, UTF8, start);
    UnitOfChar(text, UTF8, end);
    CharToUnitMonotone(text, UTF8, start, end);
    InsertedEnd(text, inserted, start, end);
    UnitOfChar(text[..start] + inserted + text[end..], UTF8, start + |inserted|);
  }

  /** Replacing a range moves the point and the byte of its end over the inserted text. */
  lemma InsertedEnd(text: string, inserted: string, start: nat, end: nat)
    requires start <= end <= |text|
    ensures var edited := text[..start] + inserted + text[end..];
            var k := start + |inserted|;
            && PointAt(edited, k) == AdvanceOver(PointAt(text, start), inserted)
            && CharToUnit(edited, UTF8, k) == CharToUnit(text, UTF8, start) + LenUnits(inserted, UTF8)
  {
    var head := text[..start] + inserted;
    var k := start + |inserted|;
    AdvancePrefix(ORIGIN, head + text[end..], head, k);
    AdvanceConcat(ORIGIN, text[..start], inserted, |inserted|);
    AdvancePrefix(ORIGIN, text[..start], text, start);
    CharToUnitPrefix(head + text[end..], head, UTF8, k);
    CharToUnitConcat(text[..start], inserted, UTF8, |inserted|);
    CharToUnitPrefix(text[..start], text, UTF8, start);
  }

  /**
   Whenever a range resolves inside the text, its InputEdit is coherent, for any inserted text,
   exactly when both ends of the range are within their lines and in order.
   */
  lemma EditCoherentIff(text: string, range: Range, inserted: string, e: Encoding, start: nat, end: nat)
    requires ChangeCharRange(text, range, e) == Some((start, end)) && start <= |text|
    ensures start <= end <= |text|
    ensures Coherent(text, text[..start] + inserted + text[end..],
                     TreeSitterEdit(text, range, inserted, start, end, e)) <==>
            && WithinLine(text, range.start, e)
            && WithinLine(text, range.end, e)
            && CharOffset(text, range.start, e) <= CharOffset(text, range.end, e)
  {
    PointsMatchIff(text, range, e, start, end);
    CoherentIffPoints(text, inserted, start, end,
                      AsPoint(LspToEncoding(text, range.start, e, UTF8)),
                      AsPoint(LspToEncoding(text, range.end, e, UTF8)));
  }

  lemma PointsMatchIff(text: string, range: Range, e: Encoding, start: nat, end: nat)
    requires ChangeCharRange(text, range, e) == Some((start, end)) && start <= |text|
    ensures start <= end <= |text|
    ensures && AsPoint(LspToEncoding(text, range.start, e, UTF8)) == PointAt(text, start)
            && AsPoint(LspToEncoding(text, range.end, e, UTF8)) == PointAt(text, end) <==>
            && WithinLine(text, range.start, e)
            && WithinLine(text, range.end, e)
            && CharOffset(text, range.start, e) <= CharOffset(text, range.end, e)
  {
    StartMatchesIff(text, range.start, e, start);
    OldEndMatchesIff(text, range.end, e, start, end);
  }

  lemma StartMatchesIff(text: string, p: LspPosition, e: Encoding, start: nat)
    requires p.line <= LineCount(text) && start == CharOffset(text, p, e) <= |text|
    ensures AsPoint(LspToEncoding(text, p, e, UTF8)) == PointAt(text, start) <==> WithinLine(text, p, e)
  {
    PointMatchesIff(text, p, e);
  }

  lemma RangeApplies(text: string, range: Range, inserted: string, e: Encoding, start: nat, end: nat)
    requires ChangeCharRange(text, range, e) == Some((start, end)) && start <= end <= |text|
    ensures ApplyChange(text, ContentChange(Some(range), inserted), e) == Some(text[..start] + inserted + text[end..])
  {
  }

  /** A well-formed range always applies, and its edit is coherent. */
  lemma WellFormedRangeReports(text: string, range: Range, inserted: string, e: Encoding)
    requires WellFormedRange(text, range, e)
    ensures ChangeCharRange(text, range, e).Some?
    ensures var (start, end) := ChangeCharRange(text, range, e).value;
            && start <= end <= |text|
            && ApplyChange(text, ContentChange(Some(range), inserted), e) == Some(text[..start] + inserted + text[end..])
            && Coherent(text, text[..start] + inserted + text[end..],
                        TreeSitterEdit(text, range, inserted, start, end, e))
  {
    StartIndexableIff(text, range.start, e);
    RangeResolves(text, range, e);
    var (start, end) := ChangeCharRange(text, range, e).value;
    RangeApplies(text, range, inserted, e, start, end);
    EditCoherentIff(text, range, inserted, e, start, end);
  }

  // ------------------------------------------------------------ the edits of a batch

  /** The texts around one reported edit. */
  datatype Reported = Reported(before: string, after: string, edit: InputEdit)

  /** The tree edit of a change that applies, if it has a range. */
  function OwnEdit(text: string, change: ContentChange, e: Encoding): (r: seq<Reported>)
    requires ApplyChange(text, change, e).Some?
    ensures |r| == if change.range.Some? then 1 else 0
  {
    match change.range
    case None => []
    case Some(range) =>
      var (start, end) := ChangeCharRange(text, range, e).value;
      [Reported(text, ApplyChange(text, change, e).value, TreeSitterEdit(text, range, change.text, start, end, e))]
  }

  /** The tree edits of a batch, each read off the text it applies to. */
  function ReportedEdits(text: string, changes: seq<ContentChange>, e: Encoding): seq<Reported>
    decreases changes
  {
    if changes == [] || ApplyChange(text, changes[0], e).None? then []
    else
      OwnEdit(text, changes[0], e) + ReportedEdits(ApplyChange(text, changes[0], e).value, changes[1..], e)
  }

  /** How many of the changes have a range. */
  function Ranged(changes: seq<ContentChange>): nat {
    if changes == [] then 0 else Ranged(changes[1..]) + if changes[0].range.Some? then 1 else 0
  }

  /** The edits of changes that apply are one for each range, and those of the rest follow. */
  lemma {:induction false} ReportedConcat(text: string, a: seq<ContentChange>, b: seq<ContentChange>, e: Encoding)
    requires Applies(text, a, e)
    ensures ReportedEdits(text, a + b, e) == ReportedEdits(text, a, e) + ReportedEdits(FoldChanges(text, a, e).0, b, e)
    ensures |ReportedEdits(text, a, e)| == Ranged(a)
    decreases a
  {
    if a == [] {
      assert a + b == b;
    } else {
      var next := ApplyChange(text, a[0], e).value;
      assert (a + b)[1..] == a[1..] + b && (a + b)[0] == a[0];
      ReportedConcat(next, a[1..], b, e);
      ConcatAssociates(OwnEdit(text, a[0], e), ReportedEdits(next, a[1..], e),
                       ReportedEdits(FoldChanges(next, a[1..], e).0, b, e));
    }
  }

  lemma ConcatAssociates<T>(a: seq<T>, b: seq<T>, c: seq<T>)
    ensures a + b + c == a + (b + c)
  {
  }

  /**
   Each ranged change that applies reports exactly one edit, in the order of the batch: the one for its
   characters, read off the text just before it. A change that does not apply ends the list.
   */
  lemma RangedChangeReports(text: string, changes: seq<ContentChange>, e: Encoding, n: nat)
    requires n < |changes| && Applies(text, changes[..n], e)
    ensures var before := FoldChanges(text, changes[..n], e).0;
            var edits := ReportedEdits(text, changes, e);
            && Ranged(changes[..n]) <= |edits|
            && match ApplyChange(before, changes[n], e)
               case None => |edits| == Ranged(changes[..n])
               case Some(after) =>
                 changes[n].range.Some? ==>
                   && Ranged(changes[..n]) < |edits|
                   && var (start, end) := ChangeCharRange(before, changes[n].range.value, e).value;
                      edits[Ranged(changes[..n])] ==
                      Reported(before, after,
                               TreeSitterEdit(before, changes[n].range.value, changes[n].text, start, end, e))
  {
    assert changes == changes[..n] + changes[n..];
    ReportedConcat(text, changes[..n], changes[n..], e);
  }

  /** Every range of the batch is well formed against the text it applies to. */
  ghost predicate WellFormedBatch(text: string, changes: seq<ContentChange>, e: Encoding)
    decreases changes
  {
    changes == [] ||
    (&& (changes[0].range.Some? ==> WellFormedRange(text, changes[0].range.value, e))
     && (ApplyChange(text, changes[0], e).Some? ==>
          WellFormedBatch(ApplyChange(text, changes[0], e).value, changes[1..], e)))
  }

  ghost predicate WellFormedRange(text: string, range: Range, e: Encoding) {
    && range.start.line <= LineCount(text)
    && range.end.line <= LineCount(text)
    && StartIndexable(text, range.start, e)
    && WithinLine(text, range.start, e)
    && WithinLine(text, range.end, e)
    && CharOffset(text, range.start, e) <= CharOffset(text, range.end, e)
  }

  /** A change that applies reports its own edit, if ranged, before those of the rest of its batch. */
  lemma ReportedUnfolds(text: string, changes: seq<ContentChange>, e: Encoding, r: Reported)
    requires changes != [] && ApplyChange(text, changes[0], e).Some? && r in ReportedEdits(text, changes, e)
    ensures var next := ApplyChange(text, changes[0], e).value;
            || r in ReportedEdits(next, changes[1..], e)
            || (changes[0].range.Some? &&
                var range := changes[0].range.value;
                var (start, end) := ChangeCharRange(text, range, e).value;
                r == Reported(text, next, TreeSitterEdit(text, range, changes[0].text, start, end, e)))
  {
  }

  /** A well-formed batch never fails, and all its edits are coherent with the texts between its changes. */
  lemma {:induction false} WellFormedBatchReports(text: string, changes: seq<ContentChange>, e: Encoding)
    requires WellFormedBatch(text, changes, e)
    ensures Applies(text, changes, e)
    ensures forall r :: r in ReportedEdits(text, changes, e) ==> Coherent(r.before, r.after, r.edit)
    decreases changes
  {
    if changes != [] {
      if changes[0].range.Some? {
        WellFormedRangeReports(text, changes[0].range.value, changes[0].text, e);
        assert changes[0] == ContentChange(Some(changes[0].range.value), changes[0].text);
      }
      WellFormedBatchReports(ApplyChange(text, changes[0], e).value, changes[1..], e);
      forall r | r in ReportedEdits(text, changes, e) ensures Coherent(r.before, r.after, r.edit) {
        ReportedUnfolds(text, changes, e, r);
      }
    }
  }
}
