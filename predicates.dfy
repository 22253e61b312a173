/** The NSPredicate (AQBitfieldPredicates) factories: tests of a bitfield's
    current bits, built from a single bit, an integer pattern over a small
    range, or another bitfield, each optionally masked. A predicate is a
    value; evaluating it reads the bitfield, given here by its run list. */
module BitfieldPredicates {
  import opened Foundation
  import opened Words
  import opened IndexSets
  import opened Bitfields
  import opened IndexSetMasking

  /** The five predicate forms the factories create. */
  datatype BitfieldPredicate =
    | MatchingBitValue(value: Bit, index: nat)
    | MatchingAllBits(bits: nat, range: NSRange)
    | MatchingBitfield(pattern: seq<NSRange>, range: NSRange)
    | MatchingBitsMasked(bits: nat, mask: nat, range: NSRange)
    | MatchingBitfieldMasked(pattern: seq<NSRange>, patternMask: seq<NSRange>, range: NSRange)

  /** What each factory demands of its arguments: integer patterns cover at
      most the width of an NSUInteger; bitfields are well formed. */
  predicate WellFormed(p: BitfieldPredicate) {
    match p
    case MatchingBitValue(_, _) => true
    case MatchingAllBits(_, range) => range.length <= NSUIntegerBits
    case MatchingBitfield(pattern, _) => ValidRuns(pattern)
    case MatchingBitsMasked(_, _, range) => range.length <= NSUIntegerBits
    case MatchingBitfieldMasked(pattern, patternMask, _) => ValidRuns(pattern) && ValidRuns(patternMask)
  }

  /** The value the predicate computes for a bitfield. Integer forms read the
      range as an integer and compare it with the least significant
      `range.length` bits of the pattern (after masking both); bitfield
      forms compare the zero-based copy of the range with the pattern as
      bitfields (after masking both). */
  predicate Evaluate(p: BitfieldPredicate, rs: seq<NSRange>)
    requires WellFormed(p) && ValidRuns(rs)
  {
    match p
    case MatchingBitValue(value, index) =>
      BitOf(rs, index) == value
    case MatchingAllBits(bits, range) =>
      RangeValue(rs, range.location, range.length) == Low(bits, range.length)
    case MatchingBitfield(pattern, range) =>
      Extract(rs, range) == pattern
    case MatchingBitsMasked(bits, mask, range) =>
      Low(And(RangeValue(rs, range.location, range.length), mask), range.length) ==
      Low(And(bits, mask), range.length)
    case MatchingBitfieldMasked(pattern, patternMask, range) =>
      MaskedWith(Extract(rs, range), patternMask) == MaskedWith(pattern, patternMask)
  }

  /** predicateForMatchingAllBits:inRange: every bit of the range equals
      the bit of the value at the same offset. */
  lemma AllBitsMeaning(bits: nat, range: NSRange, rs: seq<NSRange>)
    requires range.length <= NSUIntegerBits && ValidRuns(rs)
    ensures Evaluate(MatchingAllBits(bits, range), rs) <==> MatchesBits(rs, range, bits)
  {
    MatchesBitsValue(rs, range, bits);
  }

  /** predicateForMatchingBitfield:againstRange: every bit of the
      zero-based copy of the range equals the pattern's bit; in particular
      a pattern with a bit at or beyond the range's length never matches. */
  lemma {:induction false} BitfieldMeaning(pattern: seq<NSRange>, range: NSRange, rs: seq<NSRange>)
    requires ValidRuns(pattern) && ValidRuns(rs)
    ensures Evaluate(MatchingBitfield(pattern, range), rs) ==>
      forall j: nat :: ExtractedBit(rs, range, j) == BitOf(pattern, j)
    ensures (forall j: nat :: ExtractedBit(rs, range, j) == BitOf(pattern, j)) ==>
      Evaluate(MatchingBitfield(pattern, range), rs)
  {
    var current := Extract(rs, range);
    assert forall j: nat :: BitOf(current, j) == ExtractedBit(rs, range, j);
    if forall j: nat :: ExtractedBit(rs, range, j) == BitOf(pattern, j) {
      forall j: nat
        ensures j in Elements(current) <==> j in Elements(pattern)
      {
        assert BitOf(current, j) == BitOf(pattern, j);
      }
      assert Elements(current) == Elements(pattern);
      Canonical(current, pattern);
    }
  }

  /** predicateForMatchingBits:maskedWith:inRange: every bit of the range
      that the mask selects equals the value's bit at the same offset; the
      other bits are ignored. */
  lemma {:induction false} BitsMaskedMeaning(bits: nat, mask: nat, range: NSRange, rs: seq<NSRange>)
    requires range.length <= NSUIntegerBits && ValidRuns(rs)
    ensures Evaluate(MatchingBitsMasked(bits, mask, range), rs) ==>
      forall j: nat | j < range.length && NthBit(mask, j) == 1 :: ExtractedBit(rs, range, j) == NthBit(bits, j)
    ensures (forall j: nat | j < range.length && NthBit(mask, j) == 1 :: ExtractedBit(rs, range, j) == NthBit(bits, j)) ==>
      Evaluate(MatchingBitsMasked(bits, mask, range), rs)
  {
    var x := RangeValue(rs, range.location, range.length);
    var a := And(x, mask);
    var b := And(bits, mask);
    LowEqual(a, b, range.length);
    forall j: nat | j < range.length
      ensures NthBit(a, j) == ExtractedBit(rs, range, j) * NthBit(mask, j)
      ensures NthBit(b, j) == NthBit(bits, j) * NthBit(mask, j)
    {
      AndBit(x, mask, j);
      AndBit(bits, mask, j);
      RangeValueBits(rs, range.location, range.length, j);
    }
  }

  /** predicateForMatchingBitfield:maskedWith:againstRange: every bit the
      mask selects of the zero-based copy of the range equals the pattern's
      bit. */
  lemma {:induction false} BitfieldMaskedMeaning(pattern: seq<NSRange>, patternMask: seq<NSRange>, range: NSRange,
                                                 rs: seq<NSRange>)
    requires ValidRuns(pattern) && ValidRuns(patternMask) && ValidRuns(rs)
    ensures Evaluate(MatchingBitfieldMasked(pattern, patternMask, range), rs) ==>
      forall j: nat | j in Elements(patternMask) :: ExtractedBit(rs, range, j) == BitOf(pattern, j)
    ensures (forall j: nat | j in Elements(patternMask) :: ExtractedBit(rs, range, j) == BitOf(pattern, j)) ==>
      Evaluate(MatchingBitfieldMasked(pattern, patternMask, range), rs)
  {
    var current := Extract(rs, range);
    var m := Elements(patternMask);
    MeetsAgree(MaskedWith(current, patternMask), MaskedWith(pattern, patternMask),
               Elements(current), Elements(pattern), m);
    CopyAgrees(current, pattern, rs, range, m);
  }

  /** A bitfield holding the zero-based copy of a range agrees with a
      pattern inside `m` exactly when the copied bits do. */
  lemma CopyAgrees(current: seq<NSRange>, pattern: seq<NSRange>, rs: seq<NSRange>, range: NSRange, m: set<nat>)
    requires forall j: nat :: BitOf(current, j) == ExtractedBit(rs, range, j)
    ensures (forall j: nat | j in m :: (j in Elements(current) <==> j in Elements(pattern))) ==>
      forall j: nat | j in m :: ExtractedBit(rs, range, j) == BitOf(pattern, j)
    ensures (forall j: nat | j in m :: ExtractedBit(rs, range, j) == BitOf(pattern, j)) ==>
      forall j: nat | j in m :: (j in Elements(current) <==> j in Elements(pattern))
  {
    if forall j: nat | j in m :: ExtractedBit(rs, range, j) == BitOf(pattern, j) {
      forall j: nat | j in m
        ensures j in Elements(current) <==> j in Elements(pattern)
      {
        assert BitOf(current, j) == ExtractedBit(rs, range, j) == BitOf(pattern, j);
      }
    }
  }

  /** The bits a predicate looks at: one bit, or its range. */
  function Footprint(p: BitfieldPredicate): (r: NSRange)
    ensures p.MatchingBitValue? ==> r.Contains(p.index) && r.length == 1
    ensures !p.MatchingBitValue? ==> r == p.range
  {
    if p.MatchingBitValue? then NSRange(p.index, 1) else p.range
  }

  /** Two bitfields that agree on every bit of one range agree on every bit
      of its zero-based copy. */
  lemma {:induction false} SameCopy(rs1: seq<NSRange>, rs2: seq<NSRange>, range: NSRange)
    requires forall i: nat | range.Contains(i) :: BitOf(rs1, i) == BitOf(rs2, i)
    ensures forall j: nat :: ExtractedBit(rs1, range, j) == ExtractedBit(rs2, range, j)
  {
    forall j: nat
      ensures ExtractedBit(rs1, range, j) == ExtractedBit(rs2, range, j)
    {
      if j < range.length {
        assert range.Contains(range.location + j);
      }
    }
  }

  /** No bit outside a predicate's footprint affects its result. */
  lemma {:induction false} Locality(p: BitfieldPredicate, rs1: seq<NSRange>, rs2: seq<NSRange>)
    requires WellFormed(p) && ValidRuns(rs1) && ValidRuns(rs2)
    requires forall i: nat | Footprint(p).Contains(i) :: BitOf(rs1, i) == BitOf(rs2, i)
    ensures Evaluate(p, rs1) == Evaluate(p, rs2)
  {
    match p
    case MatchingBitValue(value, index) =>
      assert Footprint(p).Contains(index);
    case MatchingAllBits(bits, range) =>
      SameCopy(rs1, rs2, range);
      AllBitsMeaning(bits, range, rs1);
      AllBitsMeaning(bits, range, rs2);
      assert forall j: nat | j < range.length ::
        BitOf(rs1, range.location + j) == ExtractedBit(rs1, range, j) &&
        BitOf(rs2, range.location + j) == ExtractedBit(rs2, range, j);
    case MatchingBitfield(pattern, range) =>
      SameCopy(rs1, rs2, range);
      BitfieldMeaning(pattern, range, rs1);
      BitfieldMeaning(pattern, range, rs2);
    case MatchingBitsMasked(bits, mask, range) =>
      SameCopy(rs1, rs2, range);
      BitsMaskedMeaning(bits, mask, range, rs1);
      BitsMaskedMeaning(bits, mask, range, rs2);
    case MatchingBitfieldMasked(pattern, patternMask, range) =>
      SameCopy(rs1, rs2, range);
      BitfieldMaskedMeaning(pattern, patternMask, range, rs1);
      BitfieldMaskedMeaning(pattern, patternMask, range, rs2);
  }

  /** Matching an integer pattern is matching the bitfield made from the
      pattern's least significant `range.length` bits. */
  lemma {:induction false} AllBitsAsBitfield(bits: nat, range: NSRange, rs: seq<NSRange>)
    requires range.length <= NSUIntegerBits && ValidRuns(rs)
    ensures Evaluate(MatchingAllBits(bits, range), rs) ==
      Evaluate(MatchingBitfield(RunsOfWord(bits, range.length), range), rs)
  {
    var word := RunsOfWord(bits, range.length);
    AllBitsMeaning(bits, range, rs);
    BitfieldMeaning(word, range, rs);
    if MatchesBits(rs, range, bits) {
      forall j: nat
        ensures ExtractedBit(rs, range, j) == BitOf(word, j)
      {
        WordBitAt(bits, range, rs, j);
      }
    }
    if forall j: nat :: ExtractedBit(rs, range, j) == BitOf(word, j) {
      forall j: nat | j < range.length
        ensures BitOf(rs, range.location + j) == NthBit(bits, j)
      {
        WordBitAt(bits, range, rs, j);
      }
    }
  }

  /** Bit `j` of the copy of the range agrees with bit `j` of the bitfield
      made from the pattern exactly when, below the range's length, the
      range's bit equals the pattern's. */
  lemma {:induction false} WordBitAt(bits: nat, range: NSRange, rs: seq<NSRange>, j: nat)
    ensures ExtractedBit(rs, range, j) == BitOf(RunsOfWord(bits, range.length), j) <==>
      (j < range.length ==> BitOf(rs, range.location + j) == NthBit(bits, j))
  {
    var word := RunsOfWord(bits, range.length);
    assert j in Elements(word) <==> j < range.length && NthBit(bits, j) == 1;
  }

  /** An integer pattern with every bit of the range selected by the mask
      matches as the unmasked pattern does. */
  lemma {:induction false} FullMaskUnmasked(bits: nat, mask: nat, range: NSRange, rs: seq<NSRange>)
    requires range.length <= NSUIntegerBits && ValidRuns(rs)
    requires forall j: nat | j < range.length :: NthBit(mask, j) == 1
    ensures Evaluate(MatchingBitsMasked(bits, mask, range), rs) == Evaluate(MatchingAllBits(bits, range), rs)
  {
    AllBitsMeaning(bits, range, rs);
    BitsMaskedMeaning(bits, mask, range, rs);
    assert forall j: nat | j < range.length :: ExtractedBit(rs, range, j) == BitOf(rs, range.location + j);
  }
}

/** AQSimpleBitTestPredicate: the bit at a fixed index has a fixed value.
    Both are set when the predicate is made and never change. */
module SimpleBitTestPredicates {
  import opened Foundation
  import opened IndexSets
  import opened Bitfields
  import BitfieldPredicates

  datatype SimpleBitTestPredicate = SimpleBitTestPredicate(index: nat, value: Bit)

  predicate Evaluate(p: SimpleBitTestPredicate, rs: seq<NSRange>) {
    BitOf(rs, p.index) == p.value
  }

  /** Evaluating against a bitfield object reads the one bit with
      bitAtIndex: and changes nothing. */
  method EvaluateWithBitfield(p: SimpleBitTestPredicate, b: Bitfield) returns (m: bool)
    requires b.Valid()
    ensures m <==> BitOf(b.runs, p.index) == p.value
  {
    var bit := b.BitAtIndex(p.index);
    m := bit == p.value;
  }

  /** The class computes what the factory's single-bit predicate does. */
  lemma AgreesWithFactory(p: SimpleBitTestPredicate, rs: seq<NSRange>)
    requires ValidRuns(rs)
    ensures Evaluate(p, rs) == BitfieldPredicates.Evaluate(BitfieldPredicates.MatchingBitValue(p.value, p.index), rs)
  {
  }

  /** Only the bit at the index matters. */
  lemma OnlyIndexMatters(p: SimpleBitTestPredicate, rs1: seq<NSRange>, rs2: seq<NSRange>)
    requires BitOf(rs1, p.index) == BitOf(rs2, p.index)
    ensures Evaluate(p, rs1) == Evaluate(p, rs2)
  {
  }
}

/** AQBitRangeMatchPredicate: the bits of a fixed range hold exactly a fixed
    pattern. The range may be at most as wide as an NSUInteger. */
module BitRangeMatchPredicates {
  import opened Foundation
  import opened Words
  import opened IndexSets
  import opened Bitfields
  import BitfieldPredicates

  datatype BitRangeMatchPredicate = BitRangeMatchPredicate(range: NSRange, value: nat)

  predicate WellFormed(p: BitRangeMatchPredicate) {
    p.range.length <= NSUIntegerBits
  }

  /** The range read as an integer equals the pattern's least significant
      `range.length` bits. */
  predicate Evaluate(p: BitRangeMatchPredicate, rs: seq<NSRange>) {
    RangeValue(rs, p.range.location, p.range.length) == Low(p.value, p.range.length)
  }

  /** Evaluating against a bitfield object asks bitsInRange:matchBits: and
      changes nothing; its answer is the integer comparison. */
  method EvaluateWithBitfield(p: BitRangeMatchPredicate, b: Bitfield) returns (m: bool)
    requires b.Valid() && WellFormed(p)
    ensures m <==> Evaluate(p, b.runs)
  {
    m := b.BitsInRangeMatchBits(p.range, p.value);
    MatchesBitsValue(b.runs, p.range, p.value);
  }

  /** The class computes what the factory's all-bits predicate does. */
  lemma AgreesWithFactory(p: BitRangeMatchPredicate, rs: seq<NSRange>)
    requires WellFormed(p) && ValidRuns(rs)
    ensures Evaluate(p, rs) == BitfieldPredicates.Evaluate(BitfieldPredicates.MatchingAllBits(p.value, p.range), rs)
  {
  }

  /** No bit outside the range affects the result. */
  lemma OnlyRangeMatters(p: BitRangeMatchPredicate, rs1: seq<NSRange>, rs2: seq<NSRange>)
    requires WellFormed(p) && ValidRuns(rs1) && ValidRuns(rs2)
    requires forall i: nat | p.range.Contains(i) :: BitOf(rs1, i) == BitOf(rs2, i)
    ensures Evaluate(p, rs1) == Evaluate(p, rs2)
  {
    BitfieldPredicates.Locality(BitfieldPredicates.MatchingAllBits(p.value, p.range), rs1, rs2);
  }
}
