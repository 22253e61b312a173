/** The AQIndexSetMasking categories: the indices of an index set that also
    lie in a mask, as a new set (indexSetMaskedWithIndexSet:) or by
    changing a mutable set in place (maskWithIndexSet:). */
module IndexSetMasking {
  import opened Foundation
  import opened IndexSets

  /** indexSetMaskedWithIndexSet: the receiver clipped to each run of the
      mask in turn; the pieces come out in ascending order. */
  function MaskedWith(a: seq<NSRange>, mask: seq<NSRange>): (res: seq<NSRange>)
    requires ValidRuns(a) && ValidRuns(mask)
    ensures ValidRuns(res)
    ensures Elements(res) == Elements(a) * Elements(mask)
    ensures res != [] ==> mask != [] && mask[0].location <= res[0].location
    decreases |mask|
  {
    if mask == [] then []
    else
      var head := Clip(a, mask[0]);
      var rest := MaskedWith(a, mask[1..]);
      ElementsAppend(head, rest);
      ValidAt(mask, 0);
      ValidConcat(head, rest);
      head + rest
  }

  /** Masking twice with the same mask is masking once. */
  lemma MaskIdempotent(a: seq<NSRange>, mask: seq<NSRange>)
    requires ValidRuns(a) && ValidRuns(mask)
    ensures MaskedWith(MaskedWith(a, mask), mask) == MaskedWith(a, mask)
  {
    Canonical(MaskedWith(MaskedWith(a, mask), mask), MaskedWith(a, mask));
  }

  /** Two run lists holding the parts of `xs` and `ys` inside `m` are equal
      exactly when `xs` and `ys` agree inside `m`. */
  lemma MeetsAgree(a: seq<NSRange>, b: seq<NSRange>, xs: set<nat>, ys: set<nat>, m: set<nat>)
    requires ValidRuns(a) && ValidRuns(b)
    requires Elements(a) == xs * m && Elements(b) == ys * m
    ensures a == b ==> forall j: nat | j in m :: (j in xs <==> j in ys)
    ensures (forall j: nat | j in m :: (j in xs <==> j in ys)) ==> a == b
  {
    if a == b {
      forall j: nat | j in m
        ensures j in xs <==> j in ys
      {
        assert j in xs * m <==> j in ys * m;
      }
    }
    if forall j: nat | j in m :: (j in xs <==> j in ys) {
      assert xs * m == ys * m;
      Canonical(a, b);
    }
  }

  /** An empty mask leaves nothing. */
  lemma MaskEmpty(a: seq<NSRange>)
    requires ValidRuns(a)
    ensures MaskedWith(a, []) == []
  {
  }

  /** A mask holding every index of the receiver leaves it unchanged. */
  lemma MaskSuperset(a: seq<NSRange>, mask: seq<NSRange>)
    requires ValidRuns(a) && ValidRuns(mask)
    requires Elements(a) <= Elements(mask)
    ensures MaskedWith(a, mask) == a
  {
    Canonical(MaskedWith(a, mask), a);
  }

  /** The indices of `original` that are still present once every gap of
      the mask below `gapStart` has been removed. */
  ghost predicate GapsRemoved(cur: seq<NSRange>, original: set<nat>, mask: seq<NSRange>, gapStart: nat) {
    forall i: nat :: i in Elements(cur) <==> i in original && (gapStart <= i || i in Elements(mask))
  }

  /** Removing the gap before run `k` of the mask extends the removed part
      to the end of that run. */
  lemma GapStep(cur: seq<NSRange>, original: set<nat>, mask: seq<NSRange>, k: nat, gapStart: nat)
    requires ValidRuns(cur) && ValidRuns(mask) && k < |mask|
    requires k == 0 ==> gapStart == 0
    requires k > 0 ==> gapStart == mask[k - 1].End()
    requires gapStart <= mask[k].location
    requires GapsRemoved(cur, original, mask[..k], gapStart)
    ensures GapsRemoved(RemoveRange(cur, NSRange(gapStart, mask[k].location - gapStart)),
                        original, mask[..k + 1], mask[k].End())
  {
    PrefixStep(mask, k);
    if k > 0 {
      ValidAt(mask, k - 1);
      ValidPrefix(mask, k);
      ElementsBelow(mask[..k]);
      assert mask[..k][k - 1] == mask[k - 1];
    }
    forall i: nat
      ensures i in Elements(RemoveRange(cur, NSRange(gapStart, mask[k].location - gapStart))) <==>
        i in original && (mask[k].End() <= i || i in Elements(mask[..k + 1]))
    {
      assert i in Span(mask[k]) <==> mask[k].location <= i < mask[k].End();
      GapStepAt(cur, original, mask, k, gapStart, i);
    }
  }

  /** GapStep for one index. */
  lemma GapStepAt(cur: seq<NSRange>, original: set<nat>, mask: seq<NSRange>, k: nat, gapStart: nat, i: nat)
    requires ValidRuns(cur) && k < |mask| && gapStart <= mask[k].location
    requires i in Elements(cur) <==> i in original && (gapStart <= i || i in Elements(mask[..k]))
    requires i in Elements(mask[..k]) ==> i < gapStart
    requires i in Elements(mask[..k + 1]) <==> i in Elements(mask[..k]) || mask[k].location <= i < mask[k].End()
    ensures i in Elements(RemoveRange(cur, NSRange(gapStart, mask[k].location - gapStart))) <==>
      i in original && (mask[k].End() <= i || i in Elements(mask[..k + 1]))
  {
    var gap := NSRange(gapStart, mask[k].location - gapStart);
    assert i in Span(gap) <==> gapStart <= i < mask[k].location;
  }

  /** Once every gap is gone, dropping everything after the last run of the
      mask leaves exactly the indices the receiver and the mask share. */
  lemma GapFinish(cur: seq<NSRange>, original: set<nat>, mask: seq<NSRange>, gapStart: nat)
    requires ValidRuns(cur) && ValidRuns(mask)
    requires mask == [] ==> gapStart == 0
    requires mask != [] ==> gapStart == mask[|mask| - 1].End()
    requires GapsRemoved(cur, original, mask, gapStart)
    ensures Elements(Clip(cur, NSRange(0, gapStart))) == original * Elements(mask)
  {
    if mask != [] {
      ElementsBelow(mask);
    }
  }

  /** An NSMutableIndexSet. */
  class MutableIndexSet {
    var runs: seq<NSRange>

    ghost predicate Valid()
      reads this
    {
      ValidRuns(runs)
    }

    constructor (initial: seq<NSRange>)
      requires ValidRuns(initial)
      ensures Valid() && runs == initial
    {
      runs := initial;
    }

    /** maskWithIndexSet: removes, in place, the gap before each run of the
        mask and finally everything after its last run; the result is the
        set indexSetMaskedWithIndexSet: would have returned. */
    method MaskWith(mask: seq<NSRange>)
      requires Valid() && ValidRuns(mask)
      modifies this
      ensures Valid()
      ensures runs == MaskedWith(old(runs), mask)
    {
      ghost var original := Elements(runs);
      var gapStart := 0;
      var k := 0;
      while k < |mask|
        invariant k <= |mask| && ValidRuns(runs)
        invariant k == 0 ==> gapStart == 0
        invariant k > 0 ==> gapStart == mask[k - 1].End()
        invariant GapsRemoved(runs, original, mask[..k], gapStart)
      {
        if k > 0 {
          ValidAt(mask, k - 1);
        }
        GapStep(runs, original, mask, k, gapStart);
        runs := RemoveRange(runs, NSRange(gapStart, mask[k].location - gapStart));
        gapStart := mask[k].End();
        k := k + 1;
      }
      assert mask[..k] == mask;
      GapFinish(runs, original, mask, gapStart);
      runs := Clip(runs, NSRange(0, gapStart));
      Canonical(runs, MaskedWith(old(runs), mask));
    }
  }
}
