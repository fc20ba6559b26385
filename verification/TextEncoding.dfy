/**
 Code-unit arithmetic over one string: the index functions a rope offers
 (`char_to_byte`, `byte_to_char`, `char_to_utf16_cu`, ...), for every encoding.
 A Dafny `char` is a Unicode scalar value, as a Rust `char` is.
 */
module TextEncoding {
  datatype Encoding = UTF8 | UTF16 | UTF32

  /** Units of one scalar value: RFC 3629, section 3; RFC 2781, section 2.1. */
  function Units(c: char, e: Encoding): (n: nat)
    ensures 1 <= n <= 4
  {
    var v := c as int;
    match e
    case UTF8 => if v < 0x80 then 1 else if v < 0x800 then 2 else if v < 0x1_0000 then 3 else 4
    case UTF16 => if v < 0x1_0000 then 1 else 2
    case UTF32 => 1
  }

  /** Units before the `k`-th character. */
  function CharToUnit(s: string, e: Encoding, k: nat): nat
    requires k <= |s|
  {
    if k == 0 then 0 else CharToUnit(s, e, k - 1) + Units(s[k - 1], e)
  }

  function LenUnits(s: string, e: Encoding): nat { CharToUnit(s, e, |s|) }

  /** The character that unit `u` belongs to: a unit inside a character floors to it. */
  function UnitToChar(s: string, e: Encoding, u: nat): (k: nat)
    requires u <= LenUnits(s, e)
    ensures k <= |s| && CharToUnit(s, e, k) <= u
    ensures k < |s| ==> u < CharToUnit(s, e, k + 1)
  {
    FloorFrom(s, e, u, |s|)
  }

  function FloorFrom(s: string, e: Encoding, u: nat, k: nat): (r: nat)
    requires k <= |s|
    requires k < |s| ==> u < CharToUnit(s, e, k + 1)
    ensures r <= k && CharToUnit(s, e, r) <= u
    ensures r < |s| ==> u < CharToUnit(s, e, r + 1)
  {
    if CharToUnit(s, e, k) <= u then k else FloorFrom(s, e, u, k - 1)
  }

  /** Unit offset `u` is the start of a character, or the end of the string. */
  ghost predicate IsBoundary(s: string, e: Encoding, u: nat) {
    exists k :: 0 <= k <= |s| && CharToUnit(s, e, k) == u
  }

  /** Offsets are strictly increasing in the character index. */
  lemma {:induction false} CharToUnitMonotone(s: string, e: Encoding, i: nat, j: nat)
    requires i <= j <= |s|
    ensures CharToUnit(s, e, i) + (j - i) <= CharToUnit(s, e, j)
  {
    if i < j {
      CharToUnitMonotone(s, e, i, j - 1);
    }
  }

  /** The floor is the only character whose units enclose `u`. */
  lemma UnitToCharUnique(s: string, e: Encoding, u: nat, k: nat)
    requires k <= |s| && CharToUnit(s, e, k) <= u <= LenUnits(s, e)
    requires k < |s| ==> u < CharToUnit(s, e, k + 1)
    ensures UnitToChar(s, e, u) == k
  {
    var r := UnitToChar(s, e, u);
    if r < k {
      CharToUnitMonotone(s, e, r + 1, k);
    } else if k < r {
      CharToUnitMonotone(s, e, k + 1, r);
    }
  }

  /** `UnitToChar` inverts `CharToUnit`. */
  lemma UnitOfChar(s: string, e: Encoding, k: nat)
    requires k <= |s|
    ensures CharToUnit(s, e, k) <= LenUnits(s, e)
    ensures UnitToChar(s, e, CharToUnit(s, e, k)) == k
  {
    CharToUnitMonotone(s, e, k, |s|);
    UnitToCharUnique(s, e, CharToUnit(s, e, k), k);
  }

  /** Flooring keeps order. */
  lemma UnitToCharMonotone(s: string, e: Encoding, u: nat, v: nat)
    requires u <= v <= LenUnits(s, e)
    ensures UnitToChar(s, e, u) <= UnitToChar(s, e, v)
  {
    var i, j := UnitToChar(s, e, u), UnitToChar(s, e, v);
    if j < i {
      CharToUnitMonotone(s, e, j + 1, i);
    }
  }

  /** UTF-32 units are characters. */
  lemma {:induction false} Utf32IsCharIndex(s: string, k: nat)
    requires k <= |s|
    ensures CharToUnit(s, UTF32, k) == k
  {
    if k > 0 {
      Utf32IsCharIndex(s, k - 1);
    }
  }

  /** No encoding uses more units than UTF-8, none fewer than UTF-32. */
  lemma {:induction false} Utf8IsLongest(s: string, e: Encoding, k: nat)
    requires k <= |s|
    ensures k <= CharToUnit(s, e, k) <= CharToUnit(s, UTF8, k)
  {
    if k > 0 {
      Utf8IsLongest(s, e, k - 1);
    }
  }

  /** Offsets only depend on the characters before them. */
  lemma {:induction false} CharToUnitPrefix(a: string, b: string, e: Encoding, k: nat)
    requires k <= |a| && k <= |b| && a[..k] == b[..k]
    ensures CharToUnit(a, e, k) == CharToUnit(b, e, k)
  {
    if k > 0 {
      assert a[k - 1] == a[..k][k - 1] == b[..k][k - 1];
      assert a[..k - 1] == a[..k][..k - 1] == b[..k][..k - 1];
      CharToUnitPrefix(a, b, e, k - 1);
    }
  }

  /** Offsets add up over concatenation. */
  lemma {:induction false} CharToUnitConcat(a: string, b: string, e: Encoding, k: nat)
    requires k <= |b|
    ensures CharToUnit(a + b, e, |a| + k) == LenUnits(a, e) + CharToUnit(b, e, k)
  {
    if k == 0 {
      CharToUnitPrefix(a + b, a, e, |a|);
    } else {
      CharToUnitConcat(a, b, e, k - 1);
      assert (a + b)[|a| + k - 1] == b[k - 1];
    }
  }
}
