/** The AQRangeMethods category: enumerating the maximal runs of an index
    set, forwards or backwards, optionally clipped to a range, with a block
    that can stop the enumeration; and counting the runs. A block is not
    run: what it decides is given as a function from the number of the call
    and the range passed to it to the value it stores through `stop`, and an
    enumeration returns the ranges it passed to the block, in order. */
module RangeMethods {
  import opened Foundation
  import opened IndexSets

  /** The value the block stores through `stop` on its n-th call (counting
      from 0) when passed a given range. */
  type StopDecision = (nat, NSRange) -> bool

  /** `xs` back to front. */
  function Reversed(xs: seq<NSRange>): (ys: seq<NSRange>)
    ensures |ys| == |xs|
    ensures forall k | 0 <= k < |xs| :: ys[k] == xs[|xs| - 1 - k]
  {
    if xs == [] then [] else Reversed(xs[1..]) + [xs[0]]
  }

  /** `visited` is what an enumeration of `order` passes to the block: a
      prefix of `order` that ends either with `order` itself or with the
      first call whose block set `stop`. */
  predicate EnumerationOf(order: seq<NSRange>, stop: StopDecision, visited: seq<NSRange>) {
    |visited| <= |order| && visited == order[..|visited|] &&
    (forall k | 0 <= k < |visited| - 1 :: !stop(k, order[k])) &&
    (|visited| < |order| ==> |visited| > 0 && stop(|visited| - 1, order[|visited| - 1]))
  }

  /** aq_enumerateRangesWithOptions:usingBlock: visits the runs in ascending
      order, or in descending order with the reverse option, and makes no
      further call once the block has set `stop`. */
  method EnumerateRangesWithOptions(rs: seq<NSRange>, reverse: bool, stop: StopDecision)
    returns (visited: seq<NSRange>)
    requires ValidRuns(rs)
    ensures EnumerationOf(if reverse then Reversed(rs) else rs, stop, visited)
  {
    var order := if reverse then Reversed(rs) else rs;
    visited := [];
    var k := 0;
    while k < |order|
      invariant k <= |order| && visited == order[..k]
      invariant forall i | 0 <= i < k :: !stop(i, order[i])
    {
      visited := visited + [order[k]];
      if stop(k, order[k]) {
        return;
      }
      k := k + 1;
    }
  }

  /** aq_enumerateRangesUsingBlock: the forward enumeration. */
  method EnumerateRanges(rs: seq<NSRange>, stop: StopDecision) returns (visited: seq<NSRange>)
    requires ValidRuns(rs)
    ensures EnumerationOf(rs, stop, visited)
  {
    visited := EnumerateRangesWithOptions(rs, false, stop);
  }

  /** aq_enumerateRangesInRange:options:usingBlock: enumerates the runs cut
      down to `range`; nothing outside the range is ever passed to the
      block. */
  method EnumerateRangesInRange(rs: seq<NSRange>, range: NSRange, reverse: bool, stop: StopDecision)
    returns (visited: seq<NSRange>)
    requires ValidRuns(rs)
    ensures EnumerationOf(if reverse then Reversed(Clip(rs, range)) else Clip(rs, range), stop, visited)
    ensures forall k | 0 <= k < |visited| :: range.ContainsRange(visited[k]) && visited[k].length > 0
  {
    var clipped := Clip(rs, range);
    visited := EnumerateRangesWithOptions(clipped, reverse, stop);
    if clipped != [] {
      RunsWithin(clipped, range);
    }
    forall k | 0 <= k < |visited|
      ensures range.ContainsRange(visited[k]) && visited[k].length > 0
    {
      var i := if reverse then |clipped| - 1 - k else k;
      ValidAt(clipped, i);
    }
  }

  /** numberOfRanges counts the calls of an enumeration that never stops:
      the number of maximal runs. */
  method NumberOfRanges(rs: seq<NSRange>) returns (n: nat)
    requires ValidRuns(rs)
    ensures n == |rs|
  {
    var visited := EnumerateRanges(rs, (call: nat, r: NSRange) => false);
    n := |visited|;
  }

  // ---------------------------------------------------------------------
  // Properties of an enumeration

  /** An enumeration whose block never sets `stop` visits every run, and the
      runs it visits hold exactly the indices of the set. */
  lemma FullEnumeration(rs: seq<NSRange>, visited: seq<NSRange>)
    requires EnumerationOf(rs, (call: nat, r: NSRange) => false, visited)
    ensures visited == rs
    ensures Elements(visited) == Elements(rs)
  {
  }

  /** The reverse enumeration visits the runs in strictly descending order,
      each run ending before the previously visited one starts. */
  lemma {:induction false} ReverseDescends(rs: seq<NSRange>)
    requires ValidRuns(rs)
    ensures forall k | 0 <= k < |rs| - 1 :: Reversed(rs)[k + 1].End() < Reversed(rs)[k].location
  {
    forall k | 0 <= k < |rs| - 1
      ensures Reversed(rs)[k + 1].End() < Reversed(rs)[k].location
    {
      ValidAt(rs, |rs| - 2 - k);
    }
  }

  /** Runs visited in ascending order are pairwise disjoint and
      non-adjacent, so no index is visited twice. */
  lemma {:induction false} AscendingDisjoint(rs: seq<NSRange>, i: nat, j: nat)
    requires ValidRuns(rs) && i < j < |rs|
    ensures rs[i].End() < rs[j].location
    decreases j - i
  {
    ValidAt(rs, i);
    if i + 1 < j {
      AscendingDisjoint(rs, i + 1, j);
      ValidAt(rs, i + 1);
    }
  }
}
