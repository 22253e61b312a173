/** AQStateMatchingDescriptor: an immutable description of the bits a
    notification watches, kept as one index set, `matchingIndices`, plus a
    unique identifier. Two headers declare the class: the plain one builds
    the index set from a list of ranges, the masked one from ranges each
    narrowed by an optional mask bitfield. Both share the representation,
    `fullRange`, `matchesRange:` and `compare:`, so both are modelled here on
    one datatype. */
module StateMatchingDescriptors {
  import opened Foundation
  import opened Words
  import opened IndexSets
  import opened Ranges
  import opened Bitfields

  /** The error a list-based initialiser reports for lists of different
      lengths. */
  datatype DescriptorError = InvalidArgument

  /** The descriptor's state after initialisation. The identifier is a
      fresh number standing for the UUID string. */
  datatype StateMatchingDescriptor = StateMatchingDescriptor(uniqueID: nat, matchingIndices: seq<NSRange>)

  /** Hands out the identifiers of new descriptors: the `id` passed to
      every descriptor initialiser below is meant to come from `Fresh`. */
  class UniqueIDs {
    /** The next identifier to hand out; every one handed out is smaller. */
    var next: nat

    constructor ()
      ensures next == 0
    {
      next := 0;
    }

    /** Each identifier is handed out once, so no two descriptors share
        one. */
    method Fresh() returns (id: nat)
      modifies this
      ensures id == old(next) && next == old(next) + 1
    {
      id := next;
      next := next + 1;
    }
  }

  /** The NSRanges wrapped by a list of AQRange objects. */
  function RangesOf(ranges: seq<AQRange>): (rs: seq<NSRange>)
    ensures |rs| == |ranges| && forall k | 0 <= k < |ranges| :: rs[k] == ranges[k].range
  {
    seq(|ranges|, k requires 0 <= k < |ranges| => ranges[k].range)
  }

  // ---------------------------------------------------------------------
  // Plain ranges (AQStateMatchingDescriptor.h)

  /** initWithRanges: the matching indices are every index of every
      range. */
  function InitWithRanges(id: nat, ranges: seq<AQRange>): (d: StateMatchingDescriptor)
    ensures d.uniqueID == id && ValidRuns(d.matchingIndices)
    ensures forall i: nat :: i in Elements(d.matchingIndices) <==>
      exists k :: 0 <= k < |ranges| && ranges[k].range.Contains(i)
  {
    var spans := RangesOf(ranges);
    var d := StateMatchingDescriptor(id, InsertAll([], spans));
    forall i: nat
      ensures i in Elements(d.matchingIndices) <==> exists k :: 0 <= k < |ranges| && ranges[k].range.Contains(i)
    {
      ElementsMember(spans, i);
    }
    d
  }

  /** initWithRange: a descriptor watching exactly one range. */
  function InitWithRange(id: nat, r: NSRange): (d: StateMatchingDescriptor)
    ensures d.uniqueID == id
    ensures d.matchingIndices == if r.length > 0 then [r] else []
  {
    var d := InitWithRanges(id, [AQRange(r)]);
    var single := if r.length > 0 then [r] else [];
    assert [r][1..] == [];
    forall i: nat
      ensures i in Elements(d.matchingIndices) <==> i in Elements(single)
    {
      assert [AQRange(r)][0].range == r;
    }
    assert Elements(d.matchingIndices) == Elements(single);
    Canonical(d.matchingIndices, single);
    d
  }

  /** fullRange: from the first matching index to the last, or
      `{NSNotFound, 0}` when nothing is watched. */
  function FullRange(d: StateMatchingDescriptor): (fr: NSRange)
    requires ValidRuns(d.matchingIndices)
    ensures d.matchingIndices == [] ==> fr == NSRange(NSNotFound, 0)
    ensures forall i | i in Elements(d.matchingIndices) :: fr.Contains(i)
    ensures d.matchingIndices != [] ==>
      fr.length > 0 && fr.location in Elements(d.matchingIndices) &&
      fr.End() - 1 in Elements(d.matchingIndices)
  {
    var mi := d.matchingIndices;
    if mi == [] then NSRange(NSNotFound, 0)
    else
      NonEmptyRuns(mi);
      ElementsAbove(mi);
      ElementsBelow(mi);
      NSRange(mi[0].location, mi[|mi| - 1].End() - mi[0].location)
  }

  /** matchesRange: the descriptor watches some index of `r`. */
  function MatchesRange(d: StateMatchingDescriptor, r: NSRange): (m: bool)
    requires ValidRuns(d.matchingIndices)
    ensures m <==> exists i :: i in Elements(d.matchingIndices) && r.Contains(i)
  {
    var c := Clip(d.matchingIndices, r);
    NonEmptyRuns(c);
    if c != [] then
      assert c[0].location in Elements(d.matchingIndices) && r.Contains(c[0].location);
      true
    else
      assert forall i | i in Elements(d.matchingIndices) && r.Contains(i) :: i in Elements(c);
      false
  }

  /** compare: orders by full range (as AQRange's compare: does), then by
      identifier. */
  function Compare(a: StateMatchingDescriptor, b: StateMatchingDescriptor): NSComparisonResult
    requires ValidRuns(a.matchingIndices) && ValidRuns(b.matchingIndices)
  {
    var byRange := Ranges.Compare(AQRange(FullRange(a)), AQRange(FullRange(b)));
    if byRange != OrderedSame then byRange else CompareNat(a.uniqueID, b.uniqueID)
  }

  /** The full range of a descriptor made from ranges covers every non-empty
      one of them. */
  lemma FullRangeCovers(id: nat, ranges: seq<AQRange>, k: nat)
    requires k < |ranges| && ranges[k].range.length > 0
    ensures FullRange(InitWithRanges(id, ranges)).ContainsRange(ranges[k].range)
  {
    var r := ranges[k].range;
    var d := InitWithRanges(id, ranges);
    assert r.Contains(r.location) && r.Contains(r.End() - 1);
    assert r.location in Elements(d.matchingIndices);
    assert r.End() - 1 in Elements(d.matchingIndices);
  }

  /** A descriptor only matches a range that meets its full range, so it
      never matches one disjoint from it. */
  lemma MatchWithinFullRange(d: StateMatchingDescriptor, r: NSRange)
    requires ValidRuns(d.matchingIndices)
    ensures MatchesRange(d, r) ==> FullRange(d).Intersects(r)
  {
    if MatchesRange(d, r) {
      var i :| i in Elements(d.matchingIndices) && r.Contains(i);
      assert FullRange(d).Contains(i);
    }
  }

  /** A descriptor compares equal to itself. */
  lemma CompareReflexive(d: StateMatchingDescriptor)
    requires ValidRuns(d.matchingIndices)
    ensures Compare(d, d) == OrderedSame
  {
    Ranges.CompareSameIffEqual(AQRange(FullRange(d)), AQRange(FullRange(d)));
  }

  /** Exchanging the operands flips the result; NSOrderedSame means the
      same full range and the same identifier. */
  lemma CompareAntisymmetric(a: StateMatchingDescriptor, b: StateMatchingDescriptor)
    requires ValidRuns(a.matchingIndices) && ValidRuns(b.matchingIndices)
    ensures Compare(b, a) == Compare(a, b).Flip()
    ensures Compare(a, b) == OrderedSame <==> FullRange(a) == FullRange(b) && a.uniqueID == b.uniqueID
  {
    Ranges.CompareAntisymmetric(AQRange(FullRange(a)), AQRange(FullRange(b)));
  }

  // ---------------------------------------------------------------------
  // Ranges with masks (AQStateMaskMatchingDescriptor.h)

  /** One slot of the masks array: NSNull, or a bitfield whose bit `j`
      selects bit `j` of the corresponding range. */
  datatype Mask = NoMask | MaskBits(bits: seq<NSRange>)

  predicate ValidMask(m: Mask) {
    m.MaskBits? ==> ValidRuns(m.bits)
  }

  /** The mask that applies to range `k`: none when the array is nil. A
      mask bitfield always holds valid runs, so the last test only makes
      that visible to the verifier. */
  function MaskAt(masks: Option<seq<Mask>>, k: nat): (m: Mask)
    ensures ValidMask(m)
  {
    if masks.Some? && k < |masks.value| && ValidMask(masks.value[k]) then masks.value[k] else NoMask
  }

  /** The indices of `r` a mask selects: all of them without a mask,
      otherwise those whose offset in the range is set in the mask. */
  function CheckedRuns(r: NSRange, m: Mask): (res: seq<NSRange>)
    requires ValidMask(m)
    ensures ValidRuns(res)
    ensures forall i: nat :: i in Elements(res) <==>
      r.Contains(i) && (m.MaskBits? ==> i - r.location in Elements(m.bits))
  {
    match m
    case NoMask =>
      assert [r][1..] == [];
      if r.length > 0 then [r] else []
    case MaskBits(bits) =>
      MaskPlaced(r, bits);
      Clip(ShiftUp(bits, r.location), r)
  }

  /** Bit `j` of the mask, moved to the range's location and cut to the
      range, selects index `r.location + j`. */
  lemma {:induction false} MaskPlacedAt(r: NSRange, bits: seq<NSRange>, i: nat)
    requires ValidRuns(bits)
    ensures i in Elements(Clip(ShiftUp(bits, r.location), r)) <==>
      r.Contains(i) && i - r.location in Elements(bits)
  {
    ClipAt(ShiftUp(bits, r.location), r, i);
    ShiftUpAt(bits, r.location, i);
  }

  lemma {:induction false} MaskPlaced(r: NSRange, bits: seq<NSRange>)
    requires ValidRuns(bits)
    ensures forall i: nat :: i in Elements(Clip(ShiftUp(bits, r.location), r)) <==>
      r.Contains(i) && i - r.location in Elements(bits)
  {
    forall i: nat
      ensures i in Elements(Clip(ShiftUp(bits, r.location), r)) <==>
        r.Contains(i) && i - r.location in Elements(bits)
    {
      MaskPlacedAt(r, bits, i);
    }
  }

  /** The union of the checked indices of every (range, mask) pair. */
  function MaskedIndices(ranges: seq<AQRange>, masks: seq<Mask>): (res: seq<NSRange>)
    requires |masks| == |ranges| && forall k | 0 <= k < |masks| :: ValidMask(masks[k])
    ensures ValidRuns(res)
    ensures forall i: nat :: i in Elements(res) <==>
      exists k :: 0 <= k < |ranges| && i in Elements(CheckedRuns(ranges[k].range, masks[k]))
    decreases |ranges|
  {
    if ranges == [] then []
    else
      var rest := MaskedIndices(ranges[1..], masks[1..]);
      var res := InsertAll(rest, CheckedRuns(ranges[0].range, masks[0]));
      forall i: nat
        ensures i in Elements(res) <==>
          exists k :: 0 <= k < |ranges| && i in Elements(CheckedRuns(ranges[k].range, masks[k]))
      {
        if exists k :: 0 <= k < |ranges| && i in Elements(CheckedRuns(ranges[k].range, masks[k])) {
          var k :| 0 <= k < |ranges| && i in Elements(CheckedRuns(ranges[k].range, masks[k]));
          if k > 0 {
            assert ranges[1..][k - 1] == ranges[k] && masks[1..][k - 1] == masks[k];
          }
        }
        if i in Elements(rest) {
          var k :| 0 <= k < |ranges[1..]| && i in Elements(CheckedRuns(ranges[1..][k].range, masks[1..][k]));
          assert ranges[1..][k] == ranges[k + 1] && masks[1..][k] == masks[k + 1];
        }
      }
      res
  }

  /** initWithRanges:matchingMasks: the matching indices are the checked
      indices of every range under its mask; a nil masks array leaves every
      range unmasked, and a masks array of another length than the ranges is
      an invalid argument. */
  function InitWithRangesMatchingMasks(id: nat, ranges: seq<AQRange>, masks: Option<seq<Mask>>)
    : (res: Result<StateMatchingDescriptor, DescriptorError>)
    requires masks.Some? ==> forall k | 0 <= k < |masks.value| :: ValidMask(masks.value[k])
    ensures res.Failure? <==> masks.Some? && |masks.value| != |ranges|
    ensures res.Success? ==>
      res.value.uniqueID == id && ValidRuns(res.value.matchingIndices) &&
      forall i: nat :: i in Elements(res.value.matchingIndices) <==>
        exists k :: 0 <= k < |ranges| && i in Elements(CheckedRuns(ranges[k].range, MaskAt(masks, k)))
  {
    if masks.Some? && |masks.value| != |ranges| then Failure(InvalidArgument)
    else
      var slots := seq(|ranges|, k requires 0 <= k < |ranges| => MaskAt(masks, k));
      Success(StateMatchingDescriptor(id, MaskedIndices(ranges, slots)))
  }

  /** Without a mask every index of the range is checked. */
  lemma UnmaskedChecksAll(r: NSRange)
    ensures Elements(CheckedRuns(r, NoMask)) == Span(r)
  {
    assert [r][1..] == [];
  }

  /** With a nil masks array the masked initialiser watches what the plain
      one does. */
  lemma NilMasksUnmasked(id: nat, ranges: seq<AQRange>)
    ensures InitWithRangesMatchingMasks(id, ranges, None) == Success(InitWithRanges(id, ranges))
  {
    var a := InitWithRangesMatchingMasks(id, ranges, None).value;
    var b := InitWithRanges(id, ranges);
    forall k | 0 <= k < |ranges|
      ensures Elements(CheckedRuns(ranges[k].range, MaskAt(None, k))) == Span(ranges[k].range)
    {
      UnmaskedChecksAll(ranges[k].range);
    }
    forall i: nat
      ensures i in Elements(a.matchingIndices) <==> i in Elements(b.matchingIndices)
    {
      if i in Elements(a.matchingIndices) {
        var k :| 0 <= k < |ranges| && i in Elements(CheckedRuns(ranges[k].range, MaskAt(None, k)));
        assert ranges[k].range.Contains(i);
      }
      if i in Elements(b.matchingIndices) {
        var k :| 0 <= k < |ranges| && ranges[k].range.Contains(i);
        assert i in Span(ranges[k].range);
      }
    }
    assert Elements(a.matchingIndices) == Elements(b.matchingIndices);
    Canonical(a.matchingIndices, b.matchingIndices);
  }

  /** A masked descriptor matches a range exactly when the range holds a
      checked index of one of its (range, mask) pairs. */
  lemma MaskedMatchesRange(id: nat, ranges: seq<AQRange>, masks: Option<seq<Mask>>, r: NSRange)
    requires masks.Some? ==> forall k | 0 <= k < |masks.value| :: ValidMask(masks.value[k])
    requires InitWithRangesMatchingMasks(id, ranges, masks).Success?
    ensures MatchesRange(InitWithRangesMatchingMasks(id, ranges, masks).value, r) <==>
      exists k, i :: 0 <= k < |ranges| && i in Elements(CheckedRuns(ranges[k].range, MaskAt(masks, k))) &&
        r.Contains(i)
  {
    var d := InitWithRangesMatchingMasks(id, ranges, masks).value;
    if MatchesRange(d, r) {
      var i :| i in Elements(d.matchingIndices) && r.Contains(i);
      var k :| 0 <= k < |ranges| && i in Elements(CheckedRuns(ranges[k].range, MaskAt(masks, k)));
    }
    if exists k, i :: 0 <= k < |ranges| && i in Elements(CheckedRuns(ranges[k].range, MaskAt(masks, k))) &&
        r.Contains(i) {
      var k, i :| 0 <= k < |ranges| && i in Elements(CheckedRuns(ranges[k].range, MaskAt(masks, k))) &&
        r.Contains(i);
      assert i in Elements(d.matchingIndices);
    }
  }

  /** initWithRange:matchingMask: one range under an optional mask. */
  function InitWithRangeMatchingMask(id: nat, r: NSRange, mask: Option<seq<NSRange>>)
    : (d: StateMatchingDescriptor)
    requires mask.Some? ==> ValidRuns(mask.value)
    ensures d.uniqueID == id && ValidRuns(d.matchingIndices)
    ensures d.matchingIndices == CheckedRuns(r, if mask.Some? then MaskBits(mask.value) else NoMask)
  {
    var m := if mask.Some? then MaskBits(mask.value) else NoMask;
    var d := InitWithRangesMatchingMasks(id, [AQRange(r)], Some([m])).value;
    var checked := CheckedRuns(r, m);
    forall i: nat
      ensures i in Elements(d.matchingIndices) <==> i in Elements(checked)
    {
      assert [AQRange(r)][0].range == r && MaskAt(Some([m]), 0) == m;
    }
    assert Elements(d.matchingIndices) == Elements(checked);
    Canonical(d.matchingIndices, checked);
    d
  }

  /** A nil mask checks every bit of the range, as initWithRange: does. */
  lemma NilMaskWholeRange(id: nat, r: NSRange)
    ensures InitWithRangeMatchingMask(id, r, None) == InitWithRange(id, r)
  {
    var checked := CheckedRuns(r, NoMask);
    assert checked == if r.length > 0 then [r] else [];
  }

  /** initWith32BitMask:forRange: the mask's set bits select bits of the
      range; the mask must not be zero. */
  function InitWith32BitMask(id: nat, mask: nat, r: NSRange): (d: StateMatchingDescriptor)
    requires 0 < mask < Pow2(32)
    ensures d.uniqueID == id && ValidRuns(d.matchingIndices)
    ensures forall i: nat :: i in Elements(d.matchingIndices) <==>
      r.Contains(i) && i - r.location < 32 && NthBit(mask, i - r.location) == 1
  {
    WordMaskChecked(r, mask, 32);
    InitWithRangeMatchingMask(id, r, Some(RunsOfWord(mask, 32)))
  }

  /** initWith64BitMask:forRange: as the 32-bit form, with a 64-bit mask. */
  function InitWith64BitMask(id: nat, mask: nat, r: NSRange): (d: StateMatchingDescriptor)
    requires 0 < mask < Pow2(64)
    ensures d.uniqueID == id && ValidRuns(d.matchingIndices)
    ensures forall i: nat :: i in Elements(d.matchingIndices) <==>
      r.Contains(i) && i - r.location < 64 && NthBit(mask, i - r.location) == 1
  {
    WordMaskChecked(r, mask, 64);
    InitWithRangeMatchingMask(id, r, Some(RunsOfWord(mask, 64)))
  }

  /** A mask given as an `n`-bit word checks index `i` of the range exactly
      when bit `i - r.location` of the word is set. */
  lemma {:induction false} WordMaskChecked(r: NSRange, mask: nat, n: nat)
    ensures forall i: nat :: i in Elements(CheckedRuns(r, MaskBits(RunsOfWord(mask, n)))) <==>
      r.Contains(i) && i - r.location < n && NthBit(mask, i - r.location) == 1
  {
    var bits := RunsOfWord(mask, n);
    forall i: nat
      ensures i in Elements(CheckedRuns(r, MaskBits(bits))) <==>
        r.Contains(i) && i - r.location < n && NthBit(mask, i - r.location) == 1
    {
      if r.Contains(i) {
        var j: nat := i - r.location;
        assert j in Elements(bits) <==> j < n && NthBit(mask, j) == 1;
      }
    }
  }

  /** The full range of a masked descriptor lies within the hull of the
      ranges it was given: masks only narrow what is watched. */
  lemma MaskedFullRangeWithin(id: nat, ranges: seq<AQRange>, masks: Option<seq<Mask>>, i: nat)
    requires masks.Some? ==> forall k | 0 <= k < |masks.value| :: ValidMask(masks.value[k])
    requires InitWithRangesMatchingMasks(id, ranges, masks).Success?
    requires i in Elements(InitWithRangesMatchingMasks(id, ranges, masks).value.matchingIndices)
    ensures exists k :: 0 <= k < |ranges| && ranges[k].range.Contains(i)
  {
    var k :| 0 <= k < |ranges| && i in Elements(CheckedRuns(ranges[k].range, MaskAt(masks, k)));
  }
}
