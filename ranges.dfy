/** AQRange: an immutable object wrapping one NSRange so that ranges can be
    stored in collections, compared for equality and sorted. */
module Ranges {
  import opened Foundation

  /** initWithRange: stores the range; the `range` property returns it. */
  datatype AQRange = AQRange(range: NSRange)

  /** The argument of isEqual:, which may be any object. */
  datatype Object = RangeObject(value: AQRange) | OtherObject

  /** isEqualToNSRange: NSEqualRanges on the wrapped range. */
  predicate IsEqualToNSRange(a: AQRange, r: NSRange) {
    a.range.location == r.location && a.range.length == r.length
  }

  /** isEqual: only another AQRange wrapping an equal range is equal. */
  predicate IsEqual(a: AQRange, other: Object) {
    other.RangeObject? && IsEqualToNSRange(a, other.value.range)
  }

  /** compareToNSRange: orders by location, then by length. */
  function CompareToNSRange(a: AQRange, r: NSRange): (c: NSComparisonResult)
    ensures c == OrderedSame <==> a.range == r
    ensures c == OrderedAscending <==>
      a.range.location < r.location ||
      (a.range.location == r.location && a.range.length < r.length)
  {
    if a.range.location != r.location then CompareNat(a.range.location, r.location)
    else CompareNat(a.range.length, r.length)
  }

  /** compare: compares the two wrapped ranges. */
  function Compare(a: AQRange, b: AQRange): NSComparisonResult {
    CompareToNSRange(a, b.range)
  }

  // ---------------------------------------------------------------------
  // Properties

  /** isEqual: and isEqualToNSRange: agree, and both are equality of the
      wrapped values. */
  lemma EqualityAgrees(a: AQRange, b: AQRange)
    ensures IsEqual(a, RangeObject(b)) <==> IsEqualToNSRange(a, b.range)
    ensures IsEqual(a, RangeObject(b)) <==> a == b
  {
  }

  /** Nothing that is not an AQRange is equal to one. */
  lemma NotEqualToOtherObjects(a: AQRange)
    ensures !IsEqual(a, OtherObject)
  {
  }

  /** compare: reports NSOrderedSame exactly when isEqual: holds. */
  lemma CompareSameIffEqual(a: AQRange, b: AQRange)
    ensures Compare(a, b) == OrderedSame <==> IsEqual(a, RangeObject(b))
  {
  }

  /** Exchanging the operands flips the result. */
  lemma CompareAntisymmetric(a: AQRange, b: AQRange)
    ensures Compare(b, a) == Compare(a, b).Flip()
  {
  }

  /** compare: is transitive, so it is a total order for sorting. */
  lemma CompareTransitive(a: AQRange, b: AQRange, c: AQRange)
    requires Compare(a, b) == OrderedAscending && Compare(b, c) == OrderedAscending
    ensures Compare(a, c) == OrderedAscending
  {
  }
}
