/** Recounting the offsets of a signature label from one encoding to another. */
module LabelOffsets {
  import opened MachineInts
  import opened TextEncoding
  import opened Positions

  /** The first character boundary at or after unit `u`, or the end of the signature. */
  function CeilFrom(s: string, e: Encoding, u: nat, k: nat): (r: nat)
    requires k <= |s| && (k == 0 || CharToUnit(s, e, k - 1) < u)
    ensures k <= r <= |s| && (r == 0 || CharToUnit(s, e, r - 1) < u)
    ensures r < |s| ==> u <= CharToUnit(s, e, r)
    decreases |s| - k
  {
    if k == |s| || u <= CharToUnit(s, e, k) then k else CeilFrom(s, e, u, k + 1)
  }

  function CeilChar(s: string, e: Encoding, u: nat): (r: nat)
    ensures r <= |s| && (r == 0 || CharToUnit(s, e, r - 1) < u)
    ensures r < |s| ==> u <= CharToUnit(s, e, r)
  {
    CeilFrom(s, e, u, 0)
  }

  function Recount(signature: string, offset: u32, source: Encoding, target: Encoding): u32 {
    if source == target then offset
    else Saturate(CharToUnit(signature, target, CeilChar(signature, source, offset)))
  }

  lemma CeilCharUnique(s: string, e: Encoding, u: nat, k: nat)
    requires k <= |s| && (k == 0 || CharToUnit(s, e, k - 1) < u)
    requires k < |s| ==> u <= CharToUnit(s, e, k)
    ensures CeilChar(s, e, u) == k
  {
    var r := CeilChar(s, e, u);
    if r < k {
      CharToUnitMonotone(s, e, r, k - 1);
    } else if k < r {
      CharToUnitMonotone(s, e, k, r - 1);
    }
  }

  lemma CeilOfBoundary(s: string, e: Encoding, k: nat)
    requires k <= |s|
    ensures CeilChar(s, e, CharToUnit(s, e, k)) == k
  {
    CeilCharUnique(s, e, CharToUnit(s, e, k), k);
  }

  /** Label offsets round up: a boundary stays, an offset inside a character moves past it. */
  lemma RecountRoundsUp(signature: string, offset: u32, source: Encoding, target: Encoding)
    requires source != target
    ensures var k := CharColumn(signature, source, offset);
            Recount(signature, offset, source, target) == Saturate(CharToUnit(signature, target,
              if k < |signature| && CharToUnit(signature, source, k) < offset then k + 1 else k))
  {
    var k := CharColumn(signature, source, offset);
    CharToUnitMonotone(signature, source, k, |signature|);
    if k < |signature| && CharToUnit(signature, source, k) < offset {
      CeilCharUnique(signature, source, offset, k + 1);
    } else {
      CeilCharUnique(signature, source, offset, k);
    }
  }

  /** Between equal encodings every offset stays, inside a character and past the end too. */
  lemma SameEncodingKeepsOffsets(signature: string, offset: u32, e: Encoding)
    ensures Recount(signature, offset, e, e) == offset
  {
  }

  /** Recounting keeps order. */
  lemma RecountMonotone(signature: string, o: u32, p: u32, source: Encoding, target: Encoding)
    requires o <= p
    ensures Recount(signature, o, source, target) <= Recount(signature, p, source, target)
  {
    var i, j := CeilChar(signature, source, o), CeilChar(signature, source, p);
    if j < i {
      CharToUnitMonotone(signature, source, j, i - 1);
    } else {
      CharToUnitMonotone(signature, target, i, j);
    }
  }

  /**
   Recounting there and back is the identity exactly when the offset is the wire's number for its
   character, and no earlier character already saturates in the other encoding.
   */
  lemma RecountRoundTripExact(signature: string, offset: u32, a: Encoding, b: Encoding)
    requires a != b
    ensures var k := CeilChar(signature, a, offset);
            Recount(signature, Recount(signature, offset, a, b), b, a) == offset <==>
            Saturate(CharToUnit(signature, a, k)) == offset && (k == 0 || CharToUnit(signature, b, k - 1) < U32_MAX)
  {
    var k := CeilChar(signature, a, offset);
    if k == 0 || CharToUnit(signature, b, k - 1) < U32_MAX {
      CeilOfSaturated(signature, b, k);
    } else {
      EarlierCeil(signature, b, k);
      CharToUnitMonotone(signature, a, CeilChar(signature, b, U32_MAX), k - 1);
      CharToUnitMonotone(signature, b, k - 1, k);
    }
  }

  /** A character's saturated offset comes back to it when no earlier one saturates. */
  lemma CeilOfSaturated(s: string, e: Encoding, k: nat)
    requires k <= |s| && (k == 0 || CharToUnit(s, e, k - 1) < U32_MAX)
    ensures CeilChar(s, e, Saturate(CharToUnit(s, e, k))) == k
  {
    if k > 0 {
      CharToUnitMonotone(s, e, k - 1, k);
    }
    CeilCharUnique(s, e, Saturate(CharToUnit(s, e, k)), k);
  }

  lemma EarlierCeil(s: string, e: Encoding, k: nat)
    requires 0 < k <= |s| && CharToUnit(s, e, k - 1) >= U32_MAX
    ensures CeilChar(s, e, U32_MAX) < k
  {
    var r := CeilChar(s, e, U32_MAX);
    if k <= r {
      CharToUnitMonotone(s, e, k - 1, r - 1);
    }
  }

  /**
   So it is the identity exactly on the boundaries that no earlier character's saturation reaches,
   the wire's last number apart, and exactly on boundaries when the label fits the wire.
   */
  lemma RecountRoundTripIff(signature: string, offset: u32, a: Encoding, b: Encoding)
    requires a != b
    ensures var k := CeilChar(signature, a, offset);
            var restored := Recount(signature, Recount(signature, offset, a, b), b, a) == offset;
            && (offset < U32_MAX ==>
                  (restored <==> IsBoundary(signature, a, offset) &&
                                 (k == 0 || CharToUnit(signature, b, k - 1) < U32_MAX)))
            && (LenUnits(signature, UTF8) <= U32_MAX ==> (restored <==> IsBoundary(signature, a, offset)))
  {
    RecountRoundTripExact(signature, offset, a, b);
    CeilIsBoundaryIff(signature, a, offset);
    if LenUnits(signature, UTF8) <= U32_MAX {
      var k := CeilChar(signature, a, offset);
      AddressableLabel(signature, a, k);
      if k > 0 {
        AddressableLabel(signature, b, k - 1);
        CharToUnitMonotone(signature, b, k - 1, k);
        AddressableLabel(signature, b, k);
      }
    }
  }

  lemma CeilIsBoundaryIff(s: string, e: Encoding, u: nat)
    ensures IsBoundary(s, e, u) <==> CharToUnit(s, e, CeilChar(s, e, u)) == u
  {
    if IsBoundary(s, e, u) {
      var j :| 0 <= j <= |s| && CharToUnit(s, e, j) == u;
      CeilOfBoundary(s, e, j);
    }
  }

  lemma AddressableLabel(s: string, e: Encoding, k: nat)
    requires k <= |s| && LenUnits(s, UTF8) <= U32_MAX
    ensures CharToUnit(s, e, k) <= U32_MAX
  {
    Utf8IsLongest(s, e, k);
    CharToUnitMonotone(s, UTF8, k, |s|);
  }

  /** Recounts a signature's `[start, end]` pair in place. */
  method ConvertLabelOffsets(signature: string, offsets: array<u32>, source: Encoding, target: Encoding)
    modifies offsets
    ensures forall i :: 0 <= i < offsets.Length ==>
              offsets[i] == Recount(signature, old(offsets[i]), source, target)
  {
    if source == target {
      return;
    }
    for n := 0 to offsets.Length
      invariant forall i :: 0 <= i < n ==> offsets[i] == Recount(signature, old(offsets[i]), source, target)
      invariant forall i :: n <= i < offsets.Length ==> offsets[i] == old(offsets[i])
    {
      var goal := offsets[n];
      var seen, converted, k := 0, 0, 0;
      while k < |signature| && seen < goal
        invariant k <= |signature|
        invariant seen == CharToUnit(signature, source, k) && converted == CharToUnit(signature, target, k)
        invariant k == 0 || CharToUnit(signature, source, k - 1) < goal
      {
        seen := seen + Units(signature[k], source);
        converted := converted + Units(signature[k], target);
        k := k + 1;
      }
      CeilCharUnique(signature, source, goal, k);
      offsets[n] := Saturate(converted);
    }
  }
}
