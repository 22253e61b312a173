/** The Foundation vocabulary the state machine is written against: NSRange,
    NSComparisonResult, NSNotFound, the AQBit type, and Option/Result for the
    error returns that the Objective-C code reports by exception or by nil. */
module Foundation {

  /** NSNotFound on a 64-bit platform (NSIntegerMax); also the first index an
      NSIndexSet cannot hold. */
  const NSNotFound: nat := 0x7FFF_FFFF_FFFF_FFFF

  /** The width in bits of NSUInteger on a 64-bit platform. */
  const NSUIntegerBits: nat := 64

  /** AQBit is a CFBit, a full NSUInteger whose value should always be 0 or 1. */
  type Bit = b: int | 0 <= b <= 1

  /** A half-open span of indices `[location, location + length)`. */
  datatype NSRange = NSRange(location: nat, length: nat) {

    /** NSMaxRange: one past the last index of the range. */
    function End(): nat {
      location + length
    }

    /** NSLocationInRange. */
    predicate Contains(i: int) {
      location <= i < location + length
    }

    /** Every index of `inner` lies in this range (an empty `inner` placed
        inside or at the edge of this range counts as contained). */
    predicate ContainsRange(inner: NSRange) {
      location <= inner.location && inner.location + inner.length <= location + length
    }

    /** The two ranges share at least one index. */
    predicate Intersects(other: NSRange) {
      length > 0 && other.length > 0 &&
      location < other.location + other.length && other.location < location + length
    }
  }

  datatype NSComparisonResult = OrderedAscending | OrderedSame | OrderedDescending {
    /** The result of the comparison with its operands exchanged. */
    function Flip(): NSComparisonResult {
      match this
      case OrderedAscending => OrderedDescending
      case OrderedSame => OrderedSame
      case OrderedDescending => OrderedAscending
    }
  }

  /** Orders two naturals the way NSNumber's compare: does. */
  function CompareNat(a: nat, b: nat): (c: NSComparisonResult)
    ensures c == OrderedSame <==> a == b
    ensures c == OrderedAscending <==> a < b
  {
    if a < b then OrderedAscending else if a == b then OrderedSame else OrderedDescending
  }

  datatype Option<+T> = None | Some(value: T)

  datatype Result<+T, +E> = Success(value: T) | Failure(error: E)

  function Min(a: int, b: int): int {
    if a <= b then a else b
  }

  function Max(a: int, b: int): int {
    if a <= b then b else a
  }
}
