/** AQBitfield: a mutable, logically unbounded bit vector whose 1 bits are
    kept as a run list (see IndexSets), together with the number of
    significant bits, `count`. The first half of the module gives the meaning
    of each operation as a function of the stored runs; the `Bitfield` class
    then performs the operations on its fields and is proved against those
    functions. */
module Bitfields {
  import opened Foundation
  import opened Words
  import opened IndexSets

  /** The exception `bitfieldFromRange:` raises. */
  datatype BitfieldError = RangeException

  // ---------------------------------------------------------------------
  // Meaning of the operations on a run list

  /** The indices of `r` whose bit is `b`. */
  function IndicesOfBit(rs: seq<NSRange>, b: Bit, r: NSRange): set<nat> {
    set i | i in Span(r) && BitOf(rs, i) == b
  }

  /** How many bits of `r` hold `b` (countOfBit:inRange:). */
  function CountOf(rs: seq<NSRange>, b: Bit, r: NSRange): nat {
    |IndicesOfBit(rs, b, r)|
  }

  /** The runs after every bit of `r` has been set to `b`. */
  function SetRange(rs: seq<NSRange>, r: NSRange, b: Bit): (res: seq<NSRange>)
    requires ValidRuns(rs)
    ensures ValidRuns(res)
    ensures forall i: nat :: BitOf(res, i) == if r.Contains(i) then b else BitOf(rs, i)
  {
    if b == 1 then InsertRun(rs, r) else RemoveRange(rs, r)
  }

  /** The runs after every bit of `r` has been inverted: the 1s of `r` are
      removed and its former 0s are added. */
  function FlipRange(rs: seq<NSRange>, r: NSRange): (res: seq<NSRange>)
    requires ValidRuns(rs)
    ensures ValidRuns(res)
    ensures forall i: nat :: BitOf(res, i) == if r.Contains(i) then 1 - BitOf(rs, i) else BitOf(rs, i)
  {
    if r.length == 0 then rs
    else
      assert [r][1..] == [];
      InsertAll(RemoveRange(rs, r), RemoveAll([r], rs))
  }

  /** A change confined to `r` keeps every 1 below `c`, or below the end
      of `r` when that lies further out. */
  lemma OnesBelow(before: seq<NSRange>, after: seq<NSRange>, r: NSRange, c: nat)
    requires forall i | i in Elements(before) :: i < c
    requires forall i: nat | !r.Contains(i) :: BitOf(after, i) == BitOf(before, i)
    ensures forall i | i in Elements(after) :: (i < c && !r.Contains(i)) || (r.length > 0 && i < Max(c, r.End()))
  {
    forall i | i in Elements(after)
      ensures (i < c && !r.Contains(i)) || (r.length > 0 && i < Max(c, r.End()))
    {
      if !r.Contains(i) {
        assert BitOf(before, i) == BitOf(after, i) == 1;
      }
    }
  }

  /** The zero-based copy of the bits of `r` (bitfieldFromRange:). */
  function Extract(rs: seq<NSRange>, r: NSRange): (res: seq<NSRange>)
    requires ValidRuns(rs)
    ensures ValidRuns(res)
    ensures forall j: nat :: BitOf(res, j) == if j < r.length then BitOf(rs, r.location + j) else 0
  {
    ExtractMeaning(rs, r);
    ShiftDown(Clip(rs, r), r.location)
  }

  lemma ExtractMeaning(rs: seq<NSRange>, r: NSRange)
    requires ValidRuns(rs)
    ensures forall j: nat :: BitOf(ShiftDown(Clip(rs, r), r.location), j) ==
                             (if j < r.length then BitOf(rs, r.location + j) else 0)
  {
    forall j: nat
      ensures BitOf(ShiftDown(Clip(rs, r), r.location), j) == if j < r.length then BitOf(rs, r.location + j) else 0
    {
      ExtractAt(rs, r, j);
    }
  }

  /** Index `j` of the zero-based copy is index `location + j` of the
      original, inside the range. */
  lemma ExtractAt(rs: seq<NSRange>, r: NSRange, j: nat)
    requires ValidRuns(rs)
    ensures j in Elements(ShiftDown(Clip(rs, r), r.location)) <==> j < r.length && r.location + j in Elements(rs)
  {
    ShiftDownAt(Clip(rs, r), r.location, j);
    ClipAt(rs, r, j + r.location);
  }

  /** The zero-based copy of a range is empty exactly when every bit of the
      range is clear. */
  lemma ClearCopyEmpty(rs: seq<NSRange>, r: NSRange)
    requires ValidRuns(rs)
    ensures Extract(rs, r) == [] <==> forall i: nat | r.Contains(i) :: BitOf(rs, i) == 0
  {
    var copy := Extract(rs, r);
    NonEmptyRuns(copy);
    if forall i: nat | r.Contains(i) :: BitOf(rs, i) == 0 {
      forall j: nat
        ensures j !in Elements(copy)
      {
        assert BitOf(copy, j) == if j < r.length then BitOf(rs, r.location + j) else 0;
        if j < r.length {
          assert r.Contains(r.location + j);
        }
      }
      assert Elements(copy) == {};
    }
    if copy == [] {
      forall i: nat | r.Contains(i)
        ensures BitOf(rs, i) == 0
      {
        var j: nat := i - r.location;
        assert BitOf(copy, j) == BitOf(rs, i);
      }
    }
  }

  /** Bit `j` of the zero-based copy of range `r` of the bitfield. */
  function ExtractedBit(rs: seq<NSRange>, r: NSRange, j: nat): Bit {
    if j < r.length then BitOf(rs, r.location + j) else 0
  }

  /** The bits of `[loc, loc + len)` read as an unsigned integer whose bit
      `j` is the bit at `loc + j`. */
  function RangeValue(rs: seq<NSRange>, loc: nat, len: nat): nat
    decreases len
  {
    if len == 0 then 0 else BitOf(rs, loc) + 2 * RangeValue(rs, loc + 1, len - 1)
  }

  /** Bit `j` of the range equals bit `j` of `v` for every `j` below the
      range's length (bitsInRange:matchBits:). */
  predicate MatchesBits(rs: seq<NSRange>, r: NSRange, v: nat) {
    forall j: nat | j < r.length :: BitOf(rs, r.location + j) == NthBit(v, j)
  }

  /** The bitfield holding the least significant `n` bits of `v`: bit `j`
      is set exactly when bit `j` of `v` is, for `j` below `n`. */
  function RunsOfWord(v: nat, n: nat): (res: seq<NSRange>)
    ensures ValidRuns(res)
    ensures forall j: nat :: j in Elements(res) <==> j < n && NthBit(v, j) == 1
    decreases n
  {
    if n == 0 then []
    else
      var rest := RunsOfWord(v, n - 1);
      if NthBit(v, n - 1) == 1 then InsertRun(rest, NSRange(n - 1, 1)) else rest
  }

  /** The number of indices a run shares with a range. */
  function Overlap(a: NSRange, r: NSRange): nat {
    var lo := Max(a.location, r.location);
    var hi := Min(a.End(), r.End());
    if lo < hi then hi - lo else 0
  }

  // ---------------------------------------------------------------------
  // Properties of the specification functions

  lemma SetDiffSize(a: set<nat>, b: set<nat>)
    ensures |a - b| == |a| - |a * b|
  {
    assert a == (a - b) + (a * b);
    assert (a - b) * (a * b) == {};
  }

  /** Every bit of a range holds either 0 or 1, so the two counts add up to
      the range's length. */
  lemma CountsSum(rs: seq<NSRange>, r: NSRange)
    ensures CountOf(rs, 0, r) + CountOf(rs, 1, r) == r.length
  {
    var zeros := IndicesOfBit(rs, 0, r);
    var ones := IndicesOfBit(rs, 1, r);
    assert zeros + ones == Span(r);
    assert zeros * ones == {};
    SpanSize(r);
  }

  /** After a range is set to `b`, every bit of it counts as `b`. */
  lemma CountAfterSet(rs: seq<NSRange>, r: NSRange, b: Bit)
    requires ValidRuns(rs)
    ensures CountOf(SetRange(rs, r, b), b, r) == r.length
  {
    assert IndicesOfBit(SetRange(rs, r, b), b, r) == Span(r);
    SpanSize(r);
  }

  /** Flipping the same range twice gives back the original runs. */
  lemma FlipTwice(rs: seq<NSRange>, r: NSRange)
    requires ValidRuns(rs)
    ensures FlipRange(FlipRange(rs, r), r) == rs
  {
    CanonicalBits(FlipRange(FlipRange(rs, r), r), rs);
  }

  /** Placing the zero-based copy back at the range's location gives exactly
      the runs of the original that lie inside the range. */
  lemma ExtractRoundTrip(rs: seq<NSRange>, r: NSRange)
    requires ValidRuns(rs)
    ensures ShiftUp(Extract(rs, r), r.location) == Clip(rs, r)
  {
    ShiftUpDown(Clip(rs, r), r.location);
  }

  lemma {:induction false} RangeValueBits(rs: seq<NSRange>, loc: nat, len: nat, j: nat)
    requires j < len
    decreases len
    ensures NthBit(RangeValue(rs, loc, len), j) == BitOf(rs, loc + j)
  {
    var rest := RangeValue(rs, loc + 1, len - 1);
    Digits(BitOf(rs, loc), rest);
    if j > 0 {
      RangeValueBits(rs, loc + 1, len - 1, j - 1);
      assert loc + 1 + (j - 1) == loc + j;
    }
  }

  lemma {:induction false} RangeValueBound(rs: seq<NSRange>, loc: nat, len: nat)
    ensures RangeValue(rs, loc, len) < Pow2(len)
    decreases len
  {
    if len > 0 {
      RangeValueBound(rs, loc + 1, len - 1);
    }
  }

  /** A range matches a pattern exactly when the range, read as an integer,
      equals the pattern's least significant `length` bits. */
  lemma MatchesBitsValue(rs: seq<NSRange>, r: NSRange, v: nat)
    ensures MatchesBits(rs, r, v) ==> RangeValue(rs, r.location, r.length) == Low(v, r.length)
    ensures RangeValue(rs, r.location, r.length) == Low(v, r.length) ==> MatchesBits(rs, r, v)
  {
    var x := RangeValue(rs, r.location, r.length);
    RangeValueBound(rs, r.location, r.length);
    LowOfSmall(x, r.length);
    LowEqual(x, v, r.length);
    forall j: nat | j < r.length
      ensures NthBit(x, j) == BitOf(rs, r.location + j)
    {
      RangeValueBits(rs, r.location, r.length, j);
    }
  }

  /** Reading the first `n` bits of the bitfield made from `v` gives back
      the least significant `n` bits of `v`. */
  lemma WordRoundTrip(v: nat, n: nat)
    ensures RangeValue(RunsOfWord(v, n), 0, n) == Low(v, n)
  {
    var rs := RunsOfWord(v, n);
    var x := RangeValue(rs, 0, n);
    forall j: nat | j < n
      ensures NthBit(x, j) == NthBit(v, j)
    {
      RangeValueBits(rs, 0, n, j);
    }
    LowEqual(x, v, n);
    RangeValueBound(rs, 0, n);
    LowOfSmall(x, n);
  }

  /** The indices the first `k + 1` runs share with `r` are those the first
      `k` share plus the overlap of run `k`. */
  lemma OnesStep(rs: seq<NSRange>, k: nat, r: NSRange)
    requires ValidRuns(rs) && k < |rs|
    ensures |Elements(rs[..k + 1]) * Span(r)| == |Elements(rs[..k]) * Span(r)| + Overlap(rs[k], r)
  {
    PrefixStep(rs, k);
    var a := Elements(rs[..k]) * Span(r);
    var b := Span(rs[k]) * Span(r);
    assert Elements(rs[..k + 1]) * Span(r) == a + b;
    forall x | x in a
      ensures x !in b
    {
    }
    assert a * b == {};
    OverlapSize(rs[k], r);
  }

  /** The indices two ranges share number their overlap. */
  lemma OverlapSize(a: NSRange, r: NSRange)
    ensures |Span(a) * Span(r)| == Overlap(a, r)
  {
    SpanMeet(a, r);
    var lo := Max(a.location, r.location);
    var hi := Min(a.End(), r.End());
    if lo < hi {
      SpanSize(NSRange(lo, hi - lo));
    }
  }

  /** A range contains a bit exactly when its count of that bit is
      positive. */
  lemma ContainsIffCount(rs: seq<NSRange>, b: Bit, r: NSRange)
    ensures CountOf(rs, b, r) > 0 <==> exists i: nat :: r.Contains(i) && BitOf(rs, i) == b
  {
    if CountOf(rs, b, r) > 0 {
      var i :| i in IndicesOfBit(rs, b, r);
      assert r.Contains(i);
    }
    if exists i: nat :: r.Contains(i) && BitOf(rs, i) == b {
      var i: nat :| r.Contains(i) && BitOf(rs, i) == b;
      assert i in IndicesOfBit(rs, b, r);
    }
  }

  /** The 1s of a range are the run indices inside it; its 0s are the rest. */
  lemma IndicesAsSets(rs: seq<NSRange>, r: NSRange)
    ensures IndicesOfBit(rs, 1, r) == Elements(rs) * Span(r)
    ensures IndicesOfBit(rs, 0, r) == Span(r) - Elements(rs)
  {
  }

  /** The 0s of a range are what its 1s leave of its length. */
  lemma CountFromOnes(rs: seq<NSRange>, r: NSRange, ones: nat)
    requires ones == |Elements(rs) * Span(r)|
    ensures CountOf(rs, 1, r) == ones && ones <= r.length
    ensures CountOf(rs, 0, r) == r.length - ones
  {
    IndicesAsSets(rs, r);
    SetDiffSize(Span(r), Elements(rs));
    assert Span(r) * Elements(rs) == Elements(rs) * Span(r);
    SpanSize(r);
  }

  /** The last run of a valid list holds its highest 1s; the index just
      below it reads 0. */
  lemma LastRunFacts(rs: seq<NSRange>)
    requires ValidRuns(rs) && rs != []
    ensures var last := rs[|rs| - 1];
      last.length > 0 &&
      (forall j: nat | last.location <= j < last.End() :: BitOf(rs, j) == 1) &&
      (forall j: nat | last.End() <= j :: BitOf(rs, j) == 0) &&
      (last.location > 0 ==> BitOf(rs, last.location - 1) == 0)
  {
    var k := |rs| - 1;
    var last := rs[k];
    ElementsBelow(rs);
    ValidAt(rs, k);
    PrefixStep(rs, k);
    assert rs[..k + 1] == rs;
    assert forall j: nat | last.location <= j < last.End() :: j in Span(last);
  }

  // ---------------------------------------------------------------------
  // The mutable bitfield

  class Bitfield {
    /** The runs of 1 bits; every index outside them reads 0. */
    var runs: seq<NSRange>
    /** The number of significant bits (the assignable `count` property). */
    var count: nat

    /** The runs are well formed, no 1 bit lies at or beyond `count`, and
        `count` stays within the index domain `[0, NSNotFound)`. */
    ghost predicate Valid()
      reads this
    {
      ValidRuns(runs) && count <= NSNotFound &&
      forall i | i in Elements(runs) :: i < count
    }

    /** initWithSize: (and bitfieldWithSize:): all bits clear. */
    constructor (numberOfBits: nat)
      requires numberOfBits <= NSNotFound
      ensures Valid() && runs == [] && count == numberOfBits
    {
      runs := [];
      count := numberOfBits;
    }

    /** Assigning `count`: bits at or beyond the new count are discarded. */
    method SetCount(n: nat)
      requires Valid() && n <= NSNotFound
      modifies this
      ensures Valid() && count == n
      ensures runs == Clip(old(runs), NSRange(0, n))
    {
      runs := Clip(runs, NSRange(0, n));
      count := n;
    }

    /** countOfBit:inRange: sums, run by run, how much of each run lies in
        the range; the 0s are what is left of the range. */
    method CountOfBit(bit: Bit, range: NSRange) returns (n: nat)
      requires Valid()
      ensures n == CountOf(runs, bit, range)
    {
      var ones := 0;
      var k := 0;
      while k < |runs|
        invariant k <= |runs|
        invariant ones == |Elements(runs[..k]) * Span(range)|
      {
        OnesStep(runs, k, range);
        ones := ones + Overlap(runs[k], range);
        k := k + 1;
      }
      assert runs[..k] == runs;
      CountFromOnes(runs, range, ones);
      n := if bit == 1 then ones else range.length - ones;
    }

    /** containsBit:inRange: holds exactly when some bit of the range holds
        `bit`. */
    method ContainsBit(bit: Bit, range: NSRange) returns (c: bool)
      requires Valid()
      ensures c <==> exists i: nat :: range.Contains(i) && BitOf(runs, i) == bit
    {
      var n := CountOfBit(bit, range);
      c := n > 0;
      if exists i: nat :: range.Contains(i) && BitOf(runs, i) == bit {
        var i: nat :| range.Contains(i) && BitOf(runs, i) == bit;
        assert i in IndicesOfBit(runs, bit, range);
      }
      if c {
        var i :| i in IndicesOfBit(runs, bit, range);
        assert range.Contains(i) && BitOf(runs, i) == bit;
      }
    }

    /** bitAtIndex: scans the runs for one that holds the index. */
    method BitAtIndex(index: nat) returns (b: Bit)
      requires Valid()
      ensures b == BitOf(runs, index)
    {
      var k := 0;
      while k < |runs|
        invariant k <= |runs|
        invariant index !in Elements(runs[..k])
      {
        PrefixStep(runs, k);
        if runs[k].Contains(index) {
          ElementsMember(runs, index);
          return 1;
        }
        k := k + 1;
      }
      assert runs[..k] == runs;
      return 0;
    }

    /** bitfieldFromRange: a fresh bitfield of `range.length` bits holding
        the range's bits from index 0, or the range exception when the range
        reaches past the index domain. */
    method BitfieldFromRange(range: NSRange) returns (res: Result<Bitfield, BitfieldError>)
      requires Valid()
      ensures res.Failure? <==> range.End() > NSNotFound
      ensures res.Success? ==>
        fresh(res.value) && res.value.Valid() &&
        res.value.count == range.length && res.value.runs == Extract(runs, range)
    {
      if range.End() > NSNotFound {
        return Failure(RangeException);
      }
      var copy := new Bitfield(range.length);
      copy.runs := Extract(runs, range);
      forall i | i in Elements(copy.runs)
        ensures i < copy.count
      {
        assert BitOf(copy.runs, i) == 1;
      }
      return Success(copy);
    }

    /** firstIndexOfBit: the lowest index below `count` holding `bit`, or
        NSNotFound when there is none. */
    function FirstIndexOfBit(bit: Bit): (i: nat)
      reads this
      requires Valid()
      ensures i == NSNotFound ==> forall j: nat | j < count :: BitOf(runs, j) != bit
      ensures i != NSNotFound ==>
        i < count && BitOf(runs, i) == bit && forall j: nat | j < i :: BitOf(runs, j) != bit
    {
      var rs := runs;
      var c := count;
      if rs != [] then
        ElementsAbove(rs);
        ValidAt(rs, 0);
        assert Elements(rs) == Span(rs[0]) + Elements(rs[1..]);
        assert rs[0].location in Span(rs[0]);
        assert rs[0].location in Elements(rs);
        if bit == 1 then rs[0].location
        else if c == 0 then NSNotFound
        else if rs[0].location > 0 then 0
        else
          TailAbove(rs);
          assert rs[0].End() !in Elements(rs);
          assert forall j: nat | j < rs[0].End() :: j in Span(rs[0]);
          if rs[0].End() < c then rs[0].End() else NSNotFound
      else if bit == 1 || c == 0 then NSNotFound
      else 0
    }

    /** lastIndexOfBit: the highest index below `count` holding `bit`, or
        NSNotFound when there is none. */
    function LastIndexOfBit(bit: Bit): (i: nat)
      reads this
      requires Valid()
      ensures i == NSNotFound ==> forall j: nat | j < count :: BitOf(runs, j) != bit
      ensures i != NSNotFound ==>
        i < count && BitOf(runs, i) == bit && forall j: nat | i < j < count :: BitOf(runs, j) != bit
    {
      var rs := runs;
      var c := count;
      if rs != [] then
        var last := rs[|rs| - 1];
        LastRunFacts(rs);
        assert BitOf(rs, last.End() - 1) == 1;
        if bit == 1 then last.End() - 1
        else if last.End() < c then c - 1
        else if last.location == 0 then NSNotFound
        else last.location - 1
      else if bit == 1 || c == 0 then NSNotFound
      else c - 1
    }

    /** setBitsInRange:usingBit: sets every bit of the range; setting 1s
        extends `count` to cover the range. */
    method SetBitsInRange(range: NSRange, bit: Bit)
      requires Valid() && range.End() <= NSNotFound
      modifies this
      ensures Valid()
      ensures runs == SetRange(old(runs), range, bit)
      ensures count == if bit == 1 && range.length > 0 then Max(old(count), range.End()) else old(count)
    {
      var before := runs;
      runs := SetRange(runs, range, bit);
      OnesBelow(before, runs, range, count);
      if bit == 1 && range.length > 0 {
        count := Max(count, range.End());
      }
    }

    /** setBit:atIndex: is the one-bit case of setBitsInRange:usingBit:. */
    method SetBit(bit: Bit, index: nat)
      requires Valid() && index < NSNotFound
      modifies this
      ensures Valid()
      ensures runs == SetRange(old(runs), NSRange(index, 1), bit)
      ensures count == if bit == 1 then Max(old(count), index + 1) else old(count)
    {
      SetBitsInRange(NSRange(index, 1), bit);
    }

    /** flipBitsInRange: inverts every bit of the range; the range's former
        0s may become 1s, so `count` is extended to cover the range. */
    method FlipBitsInRange(range: NSRange)
      requires Valid() && range.End() <= NSNotFound
      modifies this
      ensures Valid()
      ensures runs == FlipRange(old(runs), range)
      ensures count == if range.length > 0 then Max(old(count), range.End()) else old(count)
    {
      var before := runs;
      runs := FlipRange(runs, range);
      OnesBelow(before, runs, range, count);
      if range.length > 0 {
        count := Max(count, range.End());
      }
    }

    /** flipBitAtIndex: is the one-bit case of flipBitsInRange:. */
    method FlipBitAtIndex(index: nat)
      requires Valid() && index < NSNotFound
      modifies this
      ensures Valid()
      ensures runs == FlipRange(old(runs), NSRange(index, 1))
      ensures count == Max(old(count), index + 1)
    {
      FlipBitsInRange(NSRange(index, 1));
    }

    /** setAllBits: sets every significant bit, that is every index below
        `count`. */
    method SetAllBits(bit: Bit)
      requires Valid()
      modifies this
      ensures Valid() && count == old(count)
      ensures runs == SetRange(old(runs), NSRange(0, old(count)), bit)
      ensures forall i: nat | i < count :: BitOf(runs, i) == bit
    {
      SetBitsInRange(NSRange(0, count), bit);
    }

    /** bitsInRange:matchBits: compares the range bit by bit with the least
        significant bits of `bits`; the range must fit in an NSUInteger. */
    method BitsInRangeMatchBits(range: NSRange, bits: nat) returns (m: bool)
      requires Valid() && range.length <= NSUIntegerBits
      ensures m == MatchesBits(runs, range, bits)
    {
      var j := 0;
      var v := bits;
      while j < range.length
        invariant j <= range.length
        invariant v == Shr(bits, j)
        invariant forall i: nat | i < j :: BitOf(runs, range.location + i) == NthBit(bits, i)
      {
        ShrStep(bits, j);
        var b := BitAtIndex(range.location + j);
        if b != v % 2 {
          return false;
        }
        v := v / 2;
        j := j + 1;
      }
      return true;
    }
  }
}
