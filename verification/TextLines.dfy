/**
 Row-and-column points over a text, and its lines. Lines end at LF and keep it;
 the last line has no terminator and may be empty.
 */
module TextLines {
  import opened TextEncoding

  /** A tree-sitter point: a row and a UTF-8 byte column. */
  datatype Point = Point(row: nat, column: nat)

  const ORIGIN := Point(0, 0)

  function StepPoint(p: Point, c: char): Point {
    if c == '\n' then Point(p.row + 1, 0) else Point(p.row, p.column + Units(c, UTF8))
  }

  /** The point reached from `p` after the first `k` characters of `s`. */
  function Advance(p: Point, s: string, k: nat): Point
    requires k <= |s|
  {
    if k == 0 then p else StepPoint(Advance(p, s, k - 1), s[k - 1])
  }

  function AdvanceOver(p: Point, s: string): Point { Advance(p, s, |s|) }

  /** The point of the `k`-th character of a whole text. */
  function PointAt(s: string, k: nat): Point
    requires k <= |s|
  {
    Advance(ORIGIN, s, k)
  }

  /** An absolute point from a base and a point relative to it. */
  function Compose(base: Point, rel: Point): Point {
    Point(base.row + rel.row, if rel.row == 0 then base.column + rel.column else rel.column)
  }

  ghost predicate PointLess(p: Point, q: Point) {
    p.row < q.row || (p.row == q.row && p.column < q.column)
  }

  function LineCount(s: string): nat { PointAt(s, |s|).row + 1 }

  /** The first character at or after `k` whose row reaches `l`, else the end. */
  function ScanLine(s: string, l: nat, k: nat): (r: nat)
    requires k <= |s|
    requires forall j :: 0 <= j < k ==> PointAt(s, j).row < l
    ensures k <= r <= |s|
    ensures r < |s| ==> l <= PointAt(s, r).row
    ensures forall j :: 0 <= j < r ==> PointAt(s, j).row < l
    decreases |s| - k
  {
    if k == |s| || l <= PointAt(s, k).row then k else ScanLine(s, l, k + 1)
  }

  /** Character offset of line `l`; the text's length for lines past the last. */
  function LineStart(s: string, l: nat): (r: nat)
    ensures r <= |s|
  {
    ScanLine(s, l, 0)
  }

  /** The text of line `l` with its terminator. */
  function Line(s: string, l: nat): string
    requires l < LineCount(s)
  {
    LineStartOrdered(s, l);
    s[LineStart(s, l)..LineStart(s, l + 1)]
  }

  lemma {:induction false} AdvanceIncreases(p: Point, s: string, i: nat, j: nat)
    requires i < j <= |s|
    ensures PointLess(Advance(p, s, i), Advance(p, s, j))
  {
    if i < j - 1 {
      AdvanceIncreases(p, s, i, j - 1);
    }
  }

  /** Distinct characters of a text sit at distinct points. */
  lemma AdvanceInjective(p: Point, s: string, i: nat, j: nat)
    requires i <= |s| && j <= |s| && Advance(p, s, i) == Advance(p, s, j)
    ensures i == j
  {
    if i < j {
      AdvanceIncreases(p, s, i, j);
    } else if j < i {
      AdvanceIncreases(p, s, j, i);
    }
  }

  lemma {:induction false} AdvancePrefix(p: Point, a: string, b: string, k: nat)
    requires k <= |a| && k <= |b| && a[..k] == b[..k]
    ensures Advance(p, a, k) == Advance(p, b, k)
  {
    if k > 0 {
      assert a[k - 1] == a[..k][k - 1] == b[..k][k - 1];
      assert a[..k - 1] == a[..k][..k - 1] == b[..k][..k - 1];
      AdvancePrefix(p, a, b, k - 1);
    }
  }

  /** Advancing over a concatenation is advancing twice. */
  lemma {:induction false} AdvanceConcat(p: Point, a: string, b: string, k: nat)
    requires k <= |b|
    ensures Advance(p, a + b, |a| + k) == Advance(AdvanceOver(p, a), b, k)
  {
    if k == 0 {
      AdvancePrefix(p, a + b, a, |a|);
    } else {
      AdvanceConcat(p, a, b, k - 1);
      assert (a + b)[|a| + k - 1] == b[k - 1];
    }
  }

  /** Splitting a text splits its walk. */
  lemma AdvanceSplit(p: Point, s: string, i: nat, j: nat)
    requires i <= j <= |s|
    ensures Advance(p, s, j) == Advance(Advance(p, s, i), s[i..], j - i)
    ensures Advance(p, s, i) == AdvanceOver(p, s[..i])
  {
    assert s[..i] + s[i..] == s;
    AdvanceConcat(p, s[..i], s[i..], j - i);
    AdvancePrefix(p, s[..i], s, i);
  }

  /** A walk from `p` is the walk from the origin composed with `p`. */
  lemma {:induction false} AdvanceComposes(p: Point, s: string, k: nat)
    requires k <= |s|
    ensures Advance(p, s, k) == Compose(p, PointAt(s, k))
  {
    if k > 0 {
      AdvanceComposes(p, s, k - 1);
    }
  }

  lemma {:induction false} RowMonotone(s: string, i: nat, j: nat)
    requires i <= j <= |s|
    ensures PointAt(s, i).row <= PointAt(s, j).row
  {
    if i < j {
      AdvanceIncreases(ORIGIN, s, i, j);
    }
  }

  lemma LineStartOrdered(s: string, l: nat)
    ensures LineStart(s, l) <= LineStart(s, l + 1)
  {
    var q := PointAt(s, LineStart(s, l + 1));
  }

  /** A line that exists starts at column zero of its row. */
  lemma LineStartPoint(s: string, l: nat)
    requires l < LineCount(s)
    ensures PointAt(s, LineStart(s, l)) == Point(l, 0)
  {
    var a := LineStart(s, l);
    if a > 0 {
      assert PointAt(s, a - 1).row < l <= PointAt(s, a).row;
    }
  }

  /** Lines past the last start at the end of the text. */
  lemma LineStartPastEnd(s: string, l: nat)
    requires LineCount(s) <= l
    ensures LineStart(s, l) == |s|
  {
    var a := LineStart(s, l);
    if a < |s| {
      RowMonotone(s, a, |s|);
    }
  }

  /** A character is in row `l` when it lies in the line's span; the end of the text is in the last row. */
  lemma RowOfLine(s: string, l: nat, k: nat)
    requires l < LineCount(s) && k <= |s|
    ensures PointAt(s, k).row == l <==>
            LineStart(s, l) <= k && (k < LineStart(s, l + 1) || l + 1 == LineCount(s))
  {
    var a, b := LineStart(s, l), LineStart(s, l + 1);
    LineStartPoint(s, l);
    if k < a {
      assert PointAt(s, k).row < l;
    } else {
      RowMonotone(s, a, k);
      if l + 1 == LineCount(s) {
        RowMonotone(s, k, |s|);
      } else {
        LineStartPoint(s, l + 1);
        if b <= k {
          RowMonotone(s, b, k);
        }
      }
    }
  }

  /** Within one row, the column counts the UTF-8 units since the line's start. */
  lemma {:induction false} ColumnInRow(s: string, l: nat, k: nat)
    requires l < LineCount(s) && k <= |s| && PointAt(s, k).row == l
    ensures LineStart(s, l) <= k
    ensures CharToUnit(s, UTF8, k) == CharToUnit(s, UTF8, LineStart(s, l)) + PointAt(s, k).column
  {
    RowOfLine(s, l, k);
    LineStartPoint(s, l);
    if LineStart(s, l) < k {
      RowOfLine(s, l, k - 1);
      ColumnInRow(s, l, k - 1);
    }
  }

  /** Every line but the last ends at its only LF; the last has none. */
  lemma LinesEndAtLf(s: string, l: nat, j: nat)
    requires l < LineCount(s) && j < |Line(s, l)|
    ensures Line(s, l)[j] == '\n' <==> l + 1 < LineCount(s) && j == |Line(s, l)| - 1
  {
    var a, b := LineStart(s, l), LineStart(s, l + 1);
    RowOfLine(s, l, a + j);
    RowOfLine(s, l, a + j + 1);
    if l + 1 == LineCount(s) {
      LineStartPastEnd(s, l + 1);
    } else if j + 1 == b - a {
      LineStartPoint(s, l + 1);
    }
  }

  /** Unit offsets in a line are offsets in the text, less the line's start. */
  lemma UnitsInLine(s: string, l: nat, e: Encoding, k: nat)
    requires l < LineCount(s) && k <= |Line(s, l)|
    ensures CharToUnit(s, e, LineStart(s, l) + k) ==
            CharToUnit(s, e, LineStart(s, l)) + CharToUnit(Line(s, l), e, k)
  {
    var a, b := LineStart(s, l), LineStart(s, l + 1);
    LineStartOrdered(s, l);
    assert s == s[..a] + s[a..];
    CharToUnitConcat(s[..a], s[a..], e, k);
    CharToUnitPrefix(s[..a], s, e, a);
    SlicePrefix(s, a, b, k);
    CharToUnitPrefix(s[a..], Line(s, l), e, k);
  }

  lemma SlicePrefix(s: string, a: nat, b: nat, k: nat)
    requires a + k <= b <= |s|
    ensures s[a..][..k] == s[a..b][..k]
  {
    assert s[a..][..k] == s[a..a + k] == s[a..b][..k];
  }

  lemma {:induction false} NoLfNoRows(p: Point, s: string, k: nat)
    requires k <= |s| && forall j :: 0 <= j < k ==> s[j] != '\n'
    ensures Advance(p, s, k) == Point(p.row, p.column + CharToUnit(s, UTF8, k))
  {
    if k > 0 {
      NoLfNoRows(p, s, k - 1);
    }
  }

  /** A text without LF is its own only line. */
  lemma SingleLine(s: string)
    requires '\n' !in s
    ensures LineCount(s) == 1 && Line(s, 0) == s
  {
    NoLfNoRows(ORIGIN, s, |s|);
    LineStartPastEnd(s, 1);
  }
}
