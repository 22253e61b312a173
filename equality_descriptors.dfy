/** AQStateMaskedEqualityMatchingDescriptor: a masked descriptor that also
    carries an expected value per range. A bitfield matches when, for every
    (range, mask, value) triple, the zero-based copy of the range equals the
    value on the bits the mask selects (all bits when there is no mask).
    Bitfields appear here by their run lists; a descriptor is a value and
    matching only reads the bitfield. */
module EqualityDescriptors {
  import opened Foundation
  import opened Words
  import opened IndexSets
  import opened Ranges
  import opened Bitfields
  import opened IndexSetMasking
  import opened StateMatchingDescriptors
  import BitfieldPredicates

  /** One (range, mask, value) triple. */
  datatype Comparison = Comparison(range: NSRange, mask: Mask, value: seq<NSRange>)

  /** The masked descriptor the equality descriptor is built on, and its
      triples in the order the ranges were given. */
  datatype EqualityDescriptor = EqualityDescriptor(base: StateMatchingDescriptor, comparisons: seq<Comparison>)

  predicate ValidComparison(c: Comparison) {
    ValidMask(c.mask) && ValidRuns(c.value)
  }

  predicate ValidEquality(d: EqualityDescriptor) {
    forall k | 0 <= k < |d.comparisons| :: ValidComparison(d.comparisons[k])
  }

  /** Whether the mask selects bit `j` of the range; no mask selects all. */
  predicate Compared(m: Mask, j: nat) {
    m.NoMask? || j in Elements(m.bits)
  }

  /** The predicate a triple stands for: the bitfield form, masked when the
      triple has a mask. */
  function ComparisonPredicate(c: Comparison): (p: BitfieldPredicates.BitfieldPredicate)
    requires ValidComparison(c)
    ensures BitfieldPredicates.WellFormed(p) && BitfieldPredicates.Footprint(p) == c.range
  {
    match c.mask
    case NoMask => BitfieldPredicates.MatchingBitfield(c.value, c.range)
    case MaskBits(m) => BitfieldPredicates.MatchingBitfieldMasked(c.value, m, c.range)
  }

  /** One triple against the current bits: the copy of the range equals the
      value as a bitfield, or, under a mask, both masked with it are equal. */
  predicate Holds(c: Comparison, rs: seq<NSRange>)
    requires ValidRuns(rs) && ValidComparison(c)
  {
    BitfieldPredicates.Evaluate(ComparisonPredicate(c), rs)
  }

  /** A triple holds exactly when every bit the mask selects agrees with the
      value. */
  lemma HoldsBitwise(c: Comparison, rs: seq<NSRange>)
    requires ValidRuns(rs) && ValidComparison(c)
    ensures Holds(c, rs) ==>
      forall j: nat | Compared(c.mask, j) :: ExtractedBit(rs, c.range, j) == BitOf(c.value, j)
    ensures (forall j: nat | Compared(c.mask, j) :: ExtractedBit(rs, c.range, j) == BitOf(c.value, j)) ==>
      Holds(c, rs)
  {
    match c.mask
    case NoMask =>
      BitfieldPredicates.BitfieldMeaning(c.value, c.range, rs);
    case MaskBits(m) =>
      BitfieldPredicates.BitfieldMaskedMeaning(c.value, m, c.range, rs);
  }

  /** Every triple holds: the descriptor's conjunction. */
  function AllHold(cs: seq<Comparison>, rs: seq<NSRange>): (m: bool)
    requires ValidRuns(rs) && forall k | 0 <= k < |cs| :: ValidComparison(cs[k])
    ensures m <==> forall k | 0 <= k < |cs| :: Holds(cs[k], rs)
    decreases |cs|
  {
    if cs == [] then true
    else
      var rest := AllHold(cs[1..], rs);
      assert forall k | 1 <= k < |cs| :: cs[1..][k - 1] == cs[k];
      Holds(cs[0], rs) && rest
  }

  /** matchesBitfield: the bitfield whose runs are `rs` matches when every
      triple holds. */
  predicate MatchesBitfield(d: EqualityDescriptor, rs: seq<NSRange>)
    requires ValidRuns(rs) && ValidEquality(d)
  {
    AllHold(d.comparisons, rs)
  }

  /** A descriptor with a single triple matches exactly when that triple
      holds. */
  lemma OneComparison(d: EqualityDescriptor, rs: seq<NSRange>)
    requires ValidRuns(rs) && ValidEquality(d) && |d.comparisons| == 1
    ensures MatchesBitfield(d, rs) <==> Holds(d.comparisons[0], rs)
  {
    assert d.comparisons[1..] == [];
  }

  /** A masked triple holds exactly when the copy of its range and its
      value agree once both are masked. */
  lemma HoldsMasked(c: Comparison, rs: seq<NSRange>)
    requires ValidRuns(rs) && ValidComparison(c) && c.mask.MaskBits?
    ensures Holds(c, rs) <==> MaskedWith(Extract(rs, c.range), c.mask.bits) == MaskedWith(c.value, c.mask.bits)
  {
  }

  /** Bit by bit, a descriptor matches exactly when every selected bit of
      every range equals the corresponding bit of its value. */
  lemma MatchesBitwise(d: EqualityDescriptor, rs: seq<NSRange>)
    requires ValidRuns(rs) && ValidEquality(d)
    ensures MatchesBitfield(d, rs) <==>
      forall k, j: nat | 0 <= k < |d.comparisons| && Compared(d.comparisons[k].mask, j) ::
        ExtractedBit(rs, d.comparisons[k].range, j) == BitOf(d.comparisons[k].value, j)
  {
    forall k | 0 <= k < |d.comparisons| {
      HoldsBitwise(d.comparisons[k], rs);
    }
  }

  /** A descriptor with a triple that fails does not match. */
  lemma PartialMatchRefused(d: EqualityDescriptor, rs: seq<NSRange>, k: nat)
    requires ValidRuns(rs) && ValidEquality(d)
    requires k < |d.comparisons| && !Holds(d.comparisons[k], rs)
    ensures !MatchesBitfield(d, rs)
  {
    assert !AllHold(d.comparisons, rs);
  }

  // ---------------------------------------------------------------------
  // Initialisers

  /** initWithRanges:masks:matchingValues: ranges and masks as for the
      masked descriptor, plus one value per range; lists of different
      lengths are an invalid argument. */
  function InitWithRangesMasksValues(id: nat, ranges: seq<AQRange>, masks: Option<seq<Mask>>,
                                     values: seq<seq<NSRange>>)
    : (res: Result<EqualityDescriptor, DescriptorError>)
    requires masks.Some? ==> forall k | 0 <= k < |masks.value| :: ValidMask(masks.value[k])
    requires forall k | 0 <= k < |values| :: ValidRuns(values[k])
    ensures res.Failure? <==> (masks.Some? && |masks.value| != |ranges|) || |values| != |ranges|
    ensures res.Success? ==>
      ValidEquality(res.value) &&
      InitWithRangesMatchingMasks(id, ranges, masks).Success? &&
      res.value.base == InitWithRangesMatchingMasks(id, ranges, masks).value &&
      |res.value.comparisons| == |ranges| &&
      forall k | 0 <= k < |ranges| ::
        res.value.comparisons[k] == Comparison(ranges[k].range, MaskAt(masks, k), values[k])
  {
    var base := InitWithRangesMatchingMasks(id, ranges, masks);
    if base.Failure? || |values| != |ranges| then Failure(InvalidArgument)
    else
      var cs := seq(|ranges|, k requires 0 <= k < |ranges| =>
        Comparison(ranges[k].range, MaskAt(masks, k), values[k]));
      Success(EqualityDescriptor(base.value, cs))
  }

  /** A descriptor built from parallel lists matches exactly when, for every
      index `k`, the bits of range `k` that mask `k` selects equal those of
      value `k`. */
  lemma InitMatches(id: nat, ranges: seq<AQRange>, masks: Option<seq<Mask>>, values: seq<seq<NSRange>>,
                    rs: seq<NSRange>)
    requires masks.Some? ==> forall k | 0 <= k < |masks.value| :: ValidMask(masks.value[k])
    requires forall k | 0 <= k < |values| :: ValidRuns(values[k])
    requires ValidRuns(rs)
    requires InitWithRangesMasksValues(id, ranges, masks, values).Success?
    ensures MatchesBitfield(InitWithRangesMasksValues(id, ranges, masks, values).value, rs) <==>
      forall k, j: nat | 0 <= k < |ranges| && Compared(MaskAt(masks, k), j) ::
        ExtractedBit(rs, ranges[k].range, j) == BitOf(values[k], j)
  {
    var d := InitWithRangesMasksValues(id, ranges, masks, values).value;
    MatchesBitwise(d, rs);
    assert forall k | 0 <= k < |ranges| ::
      d.comparisons[k].range == ranges[k].range && d.comparisons[k].mask == MaskAt(masks, k) &&
      d.comparisons[k].value == values[k];
  }

  /** initWithRange:matchingValue:withMask: a single triple; a nil mask
      compares the whole range. */
  function InitWithRangeMatchingValueWithMask(id: nat, r: NSRange, value: seq<NSRange>,
                                              mask: Option<seq<NSRange>>)
    : (d: EqualityDescriptor)
    requires ValidRuns(value) && (mask.Some? ==> ValidRuns(mask.value))
    ensures ValidEquality(d)
    ensures d.base == InitWithRangeMatchingMask(id, r, mask)
    ensures d.comparisons == [Comparison(r, if mask.Some? then MaskBits(mask.value) else NoMask, value)]
  {
    var m := if mask.Some? then MaskBits(mask.value) else NoMask;
    var res := InitWithRangesMasksValues(id, [AQRange(r)], Some([m]), [value]);
    assert res.value.comparisons[0] == Comparison(r, m, value);
    res.value
  }

  /** initWithRange:matchingValue: the same triple without a mask. */
  function InitWithRangeMatchingValue(id: nat, r: NSRange, value: seq<NSRange>): (d: EqualityDescriptor)
    requires ValidRuns(value)
    ensures ValidEquality(d)
    ensures d.base == InitWithRange(id, r)
    ensures d.comparisons == [Comparison(r, NoMask, value)]
  {
    NilMaskWholeRange(id, r);
    InitWithRangeMatchingValueWithMask(id, r, value, None)
  }

  /** Without a mask, a single-range descriptor matches exactly when the
      zero-based copy of the range equals the value. */
  lemma SingleValueMatches(id: nat, r: NSRange, value: seq<NSRange>, rs: seq<NSRange>)
    requires ValidRuns(value) && ValidRuns(rs)
    ensures MatchesBitfield(InitWithRangeMatchingValue(id, r, value), rs) <==> Extract(rs, r) == value
  {
    var d := InitWithRangeMatchingValue(id, r, value);
    OneComparison(d, rs);
  }

  /** Under a mask, a single-range descriptor matches exactly when the copy
      of the range and the value agree once both are masked. */
  lemma SingleMaskedValueMatches(id: nat, r: NSRange, value: seq<NSRange>, mask: seq<NSRange>,
                                 rs: seq<NSRange>)
    requires ValidRuns(value) && ValidRuns(mask) && ValidRuns(rs)
    ensures MatchesBitfield(InitWithRangeMatchingValueWithMask(id, r, value, Some(mask)), rs) <==>
      MaskedWith(Extract(rs, r), mask) == MaskedWith(value, mask)
  {
    var d := InitWithRangeMatchingValueWithMask(id, r, value, Some(mask));
    OneComparison(d, rs);
    HoldsMasked(d.comparisons[0], rs);
  }

  /** initWith32BitValue:forRange: the value as a 32-bit bitfield; any
      value, zero included, is accepted. */
  function InitWith32BitValue(id: nat, value: nat, r: NSRange): (d: EqualityDescriptor)
    requires value < Pow2(32)
    ensures ValidEquality(d) && d.base == InitWithRange(id, r)
    ensures d.comparisons == [Comparison(r, NoMask, RunsOfWord(value, 32))]
  {
    InitWithRangeMatchingValue(id, r, RunsOfWord(value, 32))
  }

  /** initWith64BitValue:forRange: as the 32-bit form, 64 bits wide. */
  function InitWith64BitValue(id: nat, value: nat, r: NSRange): (d: EqualityDescriptor)
    requires value < Pow2(64)
    ensures ValidEquality(d) && d.base == InitWithRange(id, r)
    ensures d.comparisons == [Comparison(r, NoMask, RunsOfWord(value, 64))]
  {
    InitWithRangeMatchingValue(id, r, RunsOfWord(value, 64))
  }

  /** initWith32BitValue:forRange:matchingMask: value and mask as 32-bit
      bitfields. */
  function InitWith32BitValueMasked(id: nat, value: nat, r: NSRange, mask: nat): (d: EqualityDescriptor)
    requires value < Pow2(32) && mask < Pow2(32)
    ensures ValidEquality(d) && d.base == InitWithRangeMatchingMask(id, r, Some(RunsOfWord(mask, 32)))
    ensures d.comparisons == [Comparison(r, MaskBits(RunsOfWord(mask, 32)), RunsOfWord(value, 32))]
  {
    InitWithRangeMatchingValueWithMask(id, r, RunsOfWord(value, 32), Some(RunsOfWord(mask, 32)))
  }

  /** initWith64BitValue:forRange:matchingMask: as the 32-bit form. */
  function InitWith64BitValueMasked(id: nat, value: nat, r: NSRange, mask: nat): (d: EqualityDescriptor)
    requires value < Pow2(64) && mask < Pow2(64)
    ensures ValidEquality(d) && d.base == InitWithRangeMatchingMask(id, r, Some(RunsOfWord(mask, 64)))
    ensures d.comparisons == [Comparison(r, MaskBits(RunsOfWord(mask, 64)), RunsOfWord(value, 64))]
  {
    InitWithRangeMatchingValueWithMask(id, r, RunsOfWord(value, 64), Some(RunsOfWord(mask, 64)))
  }

  /** A word value compared against a range no wider than the word matches
      exactly when the range, read as an integer, equals the value. */
  lemma {:induction false} WordValueMatches(id: nat, value: nat, n: nat, r: NSRange, rs: seq<NSRange>)
    requires value < Pow2(n) && r.length <= n && ValidRuns(rs)
    ensures MatchesBitfield(InitWithRangeMatchingValue(id, r, RunsOfWord(value, n)), rs) <==>
      RangeValue(rs, r.location, r.length) == value
  {
    var word := RunsOfWord(value, n);
    var x := RangeValue(rs, r.location, r.length);
    SingleValueBitwise(id, r, word, rs);
    RangeValueBound(rs, r.location, r.length);
    PowMonotone(r.length, n);
    LowOfSmall(x, n);
    LowOfSmall(value, n);
    LowEqual(x, value, n);
    if forall j: nat :: ExtractedBit(rs, r, j) == BitOf(word, j) {
      forall j: nat | j < n
        ensures NthBit(x, j) == NthBit(value, j)
      {
        WordBitsAt(rs, r, value, 0, n, j);
        assert ExtractedBit(rs, r, j) == BitOf(word, j);
      }
    }
    if x == value {
      forall j: nat
        ensures ExtractedBit(rs, r, j) == BitOf(word, j)
      {
        WordBitsAt(rs, r, value, 0, n, j);
      }
    }
  }

  lemma {:induction false} PowMonotone(a: nat, b: nat)
    requires a <= b
    ensures Pow2(a) <= Pow2(b)
  {
    if a < b {
      PowMonotone(a, b - 1);
    }
  }

  /** The 32-bit value form over a range of at most 32 bits matches exactly
      when the range holds the value. */
  lemma Value32Matches(id: nat, value: nat, r: NSRange, rs: seq<NSRange>)
    requires value < Pow2(32) && r.length <= 32 && ValidRuns(rs)
    ensures MatchesBitfield(InitWith32BitValue(id, value, r), rs) <==> RangeValue(rs, r.location, r.length) == value
  {
    WordValueMatches(id, value, 32, r, rs);
  }

  /** The 64-bit value form over a range of at most 64 bits matches exactly
      when the range holds the value. */
  lemma Value64Matches(id: nat, value: nat, r: NSRange, rs: seq<NSRange>)
    requires value < Pow2(64) && r.length <= 64 && ValidRuns(rs)
    ensures MatchesBitfield(InitWith64BitValue(id, value, r), rs) <==> RangeValue(rs, r.location, r.length) == value
  {
    WordValueMatches(id, value, 64, r, rs);
  }

  /** The 32-bit value is compared whole: a value with a set bit at or
      beyond the range's length makes the descriptor match no bitfield. */
  lemma WideValueNeverMatches(id: nat, value: nat, r: NSRange, rs: seq<NSRange>)
    requires value < Pow2(32) && Pow2(r.length) <= value && ValidRuns(rs)
    ensures !MatchesBitfield(InitWith32BitValue(id, value, r), rs)
  {
    if 32 <= r.length {
      PowMonotone(32, r.length);
    }
    Value32Matches(id, value, r, rs);
    RangeValueBound(rs, r.location, r.length);
  }

  /** Without a mask, a single-range descriptor matches exactly when every
      bit of the zero-based copy equals the value's bit. */
  lemma {:induction false} SingleValueBitwise(id: nat, r: NSRange, value: seq<NSRange>, rs: seq<NSRange>)
    requires ValidRuns(value) && ValidRuns(rs)
    ensures MatchesBitfield(InitWithRangeMatchingValue(id, r, value), rs) <==>
      forall j: nat :: ExtractedBit(rs, r, j) == BitOf(value, j)
  {
    var d := InitWithRangeMatchingValue(id, r, value);
    OneComparison(d, rs);
    HoldsBitwise(d.comparisons[0], rs);
  }

  /** The bitfield made from a zero word has no runs. */
  lemma {:induction false} ZeroWordEmpty(n: nat)
    ensures RunsOfWord(0, n) == []
  {
    if n > 0 {
      ZeroWordEmpty(n - 1);
      ZeroHasNoBits(n - 1);
    }
  }

  /** A zero value is legal and matches exactly when every bit of the range
      is clear. */
  lemma ZeroValueMatches(id: nat, r: NSRange, rs: seq<NSRange>)
    requires ValidRuns(rs)
    ensures MatchesBitfield(InitWith32BitValue(id, 0, r), rs) <==>
      forall i: nat | r.Contains(i) :: BitOf(rs, i) == 0
  {
    ZeroWordEmpty(32);
    SingleValueMatches(id, r, [], rs);
    ClearCopyEmpty(rs, r);
  }

  /** Bit `j` of a range of at most `n` bits, of an `n`-bit value, and of an
      `n`-bit mask, each read from its bitfield. */
  lemma {:induction false} WordBitsAt(rs: seq<NSRange>, r: NSRange, value: nat, mask: nat, n: nat, j: nat)
    requires r.length <= n
    ensures ExtractedBit(rs, r, j) == if j < n then NthBit(RangeValue(rs, r.location, r.length), j) else 0
    ensures BitOf(RunsOfWord(value, n), j) == if j < n then NthBit(value, j) else 0
    ensures j in Elements(RunsOfWord(mask, n)) <==> j < n && NthBit(mask, j) == 1
  {
    var x := RangeValue(rs, r.location, r.length);
    if j < r.length {
      RangeValueBits(rs, r.location, r.length, j);
    } else if j < n {
      RangeValueBound(rs, r.location, r.length);
      LowBit(x, r.length, j);
      LowOfSmall(x, r.length);
    }
  }

  /** The masked word form compares only the bits the mask selects:
      `(range & mask) == (value & mask)` for a range of at most `n` bits. */
  lemma {:induction false} MaskedWordMatches(id: nat, value: nat, mask: nat, n: nat, r: NSRange,
                                             rs: seq<NSRange>)
    requires value < Pow2(n) && mask < Pow2(n) && r.length <= n && ValidRuns(rs)
    ensures MatchesBitfield(InitWithRangeMatchingValueWithMask(id, r, RunsOfWord(value, n),
                                                              Some(RunsOfWord(mask, n))), rs) <==>
      And(RangeValue(rs, r.location, r.length), mask) == And(value, mask)
  {
    var d := InitWithRangeMatchingValueWithMask(id, r, RunsOfWord(value, n), Some(RunsOfWord(mask, n)));
    var c := d.comparisons[0];
    var x := RangeValue(rs, r.location, r.length);
    var bitwise := forall j: nat | Compared(c.mask, j) :: ExtractedBit(rs, r, j) == BitOf(c.value, j);
    var selected := forall j: nat | j < n && NthBit(mask, j) == 1 :: NthBit(x, j) == NthBit(value, j);
    OneComparison(d, rs);
    HoldsBitwise(c, rs);
    MaskedEqual(x, value, mask, n);
    if bitwise {
      forall j: nat | j < n && NthBit(mask, j) == 1
        ensures NthBit(x, j) == NthBit(value, j)
      {
        WordBitsAt(rs, r, value, mask, n, j);
        assert Compared(c.mask, j);
      }
    }
    if selected {
      forall j: nat | Compared(c.mask, j)
        ensures ExtractedBit(rs, r, j) == BitOf(c.value, j)
      {
        WordBitsAt(rs, r, value, mask, n, j);
      }
    }
  }

  /** The 32-bit masked form: `(range & mask) == (value & mask)`. */
  lemma Masked32Matches(id: nat, value: nat, mask: nat, r: NSRange, rs: seq<NSRange>)
    requires value < Pow2(32) && mask < Pow2(32) && r.length <= 32 && ValidRuns(rs)
    ensures MatchesBitfield(InitWith32BitValueMasked(id, value, r, mask), rs) <==>
      And(RangeValue(rs, r.location, r.length), mask) == And(value, mask)
  {
    MaskedWordMatches(id, value, mask, 32, r, rs);
  }

  /** The 64-bit masked form: `(range & mask) == (value & mask)`. */
  lemma Masked64Matches(id: nat, value: nat, mask: nat, r: NSRange, rs: seq<NSRange>)
    requires value < Pow2(64) && mask < Pow2(64) && r.length <= 64 && ValidRuns(rs)
    ensures MatchesBitfield(InitWith64BitValueMasked(id, value, r, mask), rs) <==>
      And(RangeValue(rs, r.location, r.length), mask) == And(value, mask)
  {
    MaskedWordMatches(id, value, mask, 64, r, rs);
  }

  // ---------------------------------------------------------------------
  // Ordering

  /** compare: the masked descriptors' order: full range, then identifier. */
  function Compare(a: EqualityDescriptor, b: EqualityDescriptor): (c: NSComparisonResult)
    requires ValidRuns(a.base.matchingIndices) && ValidRuns(b.base.matchingIndices)
    ensures c == OrderedSame <==> FullRange(a.base) == FullRange(b.base) && a.base.uniqueID == b.base.uniqueID
  {
    StateMatchingDescriptors.CompareAntisymmetric(a.base, b.base);
    StateMatchingDescriptors.Compare(a.base, b.base)
  }

  /** A descriptor compares equal to itself, and exchanging the operands
      flips the result. */
  lemma CompareOrder(a: EqualityDescriptor, b: EqualityDescriptor)
    requires ValidRuns(a.base.matchingIndices) && ValidRuns(b.base.matchingIndices)
    ensures Compare(a, a) == OrderedSame
    ensures Compare(b, a) == Compare(a, b).Flip()
  {
    StateMatchingDescriptors.CompareReflexive(a.base);
    StateMatchingDescriptors.CompareAntisymmetric(a.base, b.base);
  }
}
