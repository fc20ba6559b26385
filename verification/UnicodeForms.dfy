/**
 The encoding forms themselves: UTF-8 bytes (RFC 3629, section 3), UTF-16 words (RFC 2781, section 2.1)
 and whole scalar values. The widths that positions count in are the lengths of these forms.
 */
module UnicodeForms {
  import opened Wrappers
  import opened TextEncoding

  /** One past the largest code unit. */
  function UnitLimit(e: Encoding): nat {
    match e case UTF8 => 0x100 case UTF16 => 0x1_0000 case UTF32 => 0x11_0000
  }

  // ------------------------------------------------------------ encoding

  /** A byte `10xxxxxx` holding six bits. */
  function Tail(bits: nat): nat { 0x80 + bits % 0x40 }

  function EncodeUtf8(v: nat): seq<nat> {
    if v < 0x80 then [v]
    else if v < 0x800 then [0xC0 + v / 0x40, Tail(v)]
    else if v < 0x1_0000 then [0xE0 + v / 0x1000, Tail(v / 0x40), Tail(v)]
    else [0xF0 + v / 0x4_0000, Tail(v / 0x1000), Tail(v / 0x40), Tail(v)]
  }

  /** A word, or a pair of surrogates around the twenty bits beyond the first plane. */
  function EncodeUtf16(v: nat): seq<nat> {
    if v < 0x1_0000 then [v] else [0xD800 + (v - 0x1_0000) / 0x400, 0xDC00 + (v - 0x1_0000) % 0x400]
  }

  function Encode(c: char, e: Encoding): seq<nat> {
    match e
    case UTF8 => EncodeUtf8(c as int)
    case UTF16 => EncodeUtf16(c as int)
    case UTF32 => [c as int]
  }

  // ------------------------------------------------------------ decoding

  predicate IsTail(b: nat) { 0x80 <= b < 0xC0 }

  /** The value of one sequence of bytes by its lead byte, overlong sequences included. */
  function DecodeUtf8(bs: seq<nat>): Option<nat> {
    if |bs| == 1 && bs[0] < 0x80 then Some(bs[0])
    else if |bs| == 2 && 0xC0 <= bs[0] < 0xE0 && IsTail(bs[1]) then Some((bs[0] - 0xC0) * 0x40 + (bs[1] - 0x80))
    else if |bs| == 3 && 0xE0 <= bs[0] < 0xF0 && IsTail(bs[1]) && IsTail(bs[2]) then
      Some((bs[0] - 0xE0) * 0x1000 + (bs[1] - 0x80) * 0x40 + (bs[2] - 0x80))
    else if |bs| == 4 && 0xF0 <= bs[0] < 0xF8 && IsTail(bs[1]) && IsTail(bs[2]) && IsTail(bs[3]) then
      Some((bs[0] - 0xF0) * 0x4_0000 + (bs[1] - 0x80) * 0x1000 + (bs[2] - 0x80) * 0x40 + (bs[3] - 0x80))
    else None
  }

  predicate IsHighSurrogate(w: nat) { 0xD800 <= w < 0xDC00 }

  predicate IsLowSurrogate(w: nat) { 0xDC00 <= w < 0xE000 }

  function DecodeUtf16(ws: seq<nat>): Option<nat> {
    if |ws| == 1 && ws[0] < 0x1_0000 && !IsHighSurrogate(ws[0]) && !IsLowSurrogate(ws[0]) then Some(ws[0])
    else if |ws| == 2 && IsHighSurrogate(ws[0]) && IsLowSurrogate(ws[1]) then
      Some(0x1_0000 + (ws[0] - 0xD800) * 0x400 + (ws[1] - 0xDC00))
    else None
  }

  function Decode(units: seq<nat>, e: Encoding): Option<nat> {
    match e
    case UTF8 => DecodeUtf8(units)
    case UTF16 => DecodeUtf16(units)
    case UTF32 => if |units| == 1 then Some(units[0]) else None
  }

  // ------------------------------------------------------------ widths

  /** Six bits at a time add up. */
  lemma SixBits(v: nat)
    ensures v == v / 0x40 * 0x40 + v % 0x40
    ensures v / 0x40 == v / 0x1000 * 0x40 + v / 0x40 % 0x40
    ensures v / 0x1000 == v / 0x4_0000 * 0x40 + v / 0x1000 % 0x40
  {
  }

  lemma Utf8RoundTrip(v: nat)
    requires v < 0x11_0000
    ensures DecodeUtf8(EncodeUtf8(v)) == Some(v)
    ensures forall i :: 0 <= i < |EncodeUtf8(v)| ==> EncodeUtf8(v)[i] < 0x100
  {
    SixBits(v);
  }

  lemma Utf16RoundTrip(v: nat)
    requires v < 0x11_0000 && !IsHighSurrogate(v) && !IsLowSurrogate(v)
    ensures DecodeUtf16(EncodeUtf16(v)) == Some(v)
    ensures forall i :: 0 <= i < |EncodeUtf16(v)| ==> EncodeUtf16(v)[i] < 0x1_0000
  {
  }

  /** Decoding inverts encoding, and every code unit fits its form. */
  lemma DecodesBack(c: char, e: Encoding)
    ensures Decode(Encode(c, e), e) == Some(c as int)
    ensures forall i :: 0 <= i < |Encode(c, e)| ==> Encode(c, e)[i] < UnitLimit(e)
  {
    match e
    case UTF8 => Utf8RoundTrip(c as int);
    case UTF16 => Utf16RoundTrip(c as int);
    case UTF32 =>
  }

  /** A character's width is the length of its form, and no shorter form stands for it. */
  lemma UnitsAreShortest(c: char, e: Encoding, units: seq<nat>)
    ensures |Encode(c, e)| == Units(c, e)
    ensures Decode(units, e) == Some(c as int) ==> Units(c, e) <= |units|
  {
  }

  /** A text's form is the forms of its characters, one after the other. */
  function EncodeText(s: string, e: Encoding): seq<nat> {
    if s == [] then [] else EncodeText(s[..|s| - 1], e) + Encode(s[|s| - 1], e)
  }

  /** Unit offsets are lengths of encoded prefixes. */
  lemma {:induction false} OffsetsCountUnits(s: string, e: Encoding, k: nat)
    requires k <= |s|
    ensures CharToUnit(s, e, k) == |EncodeText(s[..k], e)|
  {
    if k > 0 {
      OffsetsCountUnits(s, e, k - 1);
      assert s[..k][..k - 1] == s[..k - 1];
      UnitsAreShortest(s[k - 1], e, []);
    }
  }
}
