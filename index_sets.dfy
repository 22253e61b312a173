/** The run-list representation shared by NSIndexSet and AQBitfield: an
    ascending list of maximal runs `[location, location + length)` that are
    non-empty, disjoint and non-adjacent. An index outside every run is absent
    (for a bitfield, it reads 0). This module holds the representation
    invariant, its meaning as a set of indices, and the run-list operations the
    index-set categories and the bitfield are built from. */
module IndexSets {
  import opened Foundation

  /** The indices a range covers. */
  function Span(r: NSRange): set<nat> {
    set i: nat | r.location <= i < r.location + r.length && r.Contains(i)
  }

  /** The indices a run list holds. */
  function Elements(rs: seq<NSRange>): set<nat> {
    if rs == [] then {} else Span(rs[0]) + Elements(rs[1..])
  }

  /** The representation invariant: every run is non-empty and each run ends
      strictly before the next one starts, so runs are sorted, disjoint and
      never adjacent (adjacent runs would have been merged). */
  predicate ValidRuns(rs: seq<NSRange>) {
    rs == [] ||
    (rs[0].length > 0 && (|rs| > 1 ==> rs[0].End() < rs[1].location) && ValidRuns(rs[1..]))
  }

  /** The value of the bit at `i` in a bitfield stored as `rs`. */
  function BitOf(rs: seq<NSRange>, i: nat): Bit {
    if i in Elements(rs) then 1 else 0
  }

  /** The total number of indices a run list covers. */
  function TotalLength(rs: seq<NSRange>): nat {
    if rs == [] then 0 else rs[0].length + TotalLength(rs[1..])
  }

  /** The smallest range covering two overlapping or touching ranges. */
  function Hull(a: NSRange, b: NSRange): NSRange {
    var lo := Min(a.location, b.location);
    NSRange(lo, Max(a.End(), b.End()) - lo)
  }

  // ---------------------------------------------------------------------
  // Facts about the meaning of a run list

  lemma SpanOfHull(a: NSRange, b: NSRange)
    requires a.location <= b.End() && b.location <= a.End()
    ensures Span(Hull(a, b)) == Span(a) + Span(b)
  {
  }

  /** The indices two ranges share form the range from the later start to
      the earlier end. */
  lemma SpanMeet(a: NSRange, r: NSRange)
    ensures var lo := Max(a.location, r.location);
            var hi := Min(a.End(), r.End());
            Span(a) * Span(r) == if lo < hi then Span(NSRange(lo, hi - lo)) else {}
  {
  }

  lemma ElementsCons(a: NSRange, rest: seq<NSRange>)
    ensures Elements([a] + rest) == Span(a) + Elements(rest)
  {
    assert ([a] + rest)[1..] == rest;
  }

  lemma {:induction false} ElementsAppend(a: seq<NSRange>, b: seq<NSRange>)
    ensures Elements(a + b) == Elements(a) + Elements(b)
  {
    if a == [] {
      assert a + b == b;
    } else {
      assert (a + b)[1..] == a[1..] + b;
      ElementsAppend(a[1..], b);
    }
  }

  /** Every index a run list holds lies in one of its runs, and conversely. */
  lemma {:induction false} ElementsMember(rs: seq<NSRange>, x: nat)
    ensures x in Elements(rs) <==> exists k :: 0 <= k < |rs| && rs[k].Contains(x)
  {
    if rs != [] {
      ElementsMember(rs[1..], x);
      if x in Elements(rs[1..]) {
        var k :| 0 <= k < |rs[1..]| && rs[1..][k].Contains(x);
        assert rs[k + 1].Contains(x);
      }
      if exists k :: 0 <= k < |rs| && rs[k].Contains(x) {
        var k :| 0 <= k < |rs| && rs[k].Contains(x);
        if k > 0 {
          assert rs[1..][k - 1].Contains(x);
        }
      }
    }
  }

  /** A valid run list holds nothing below the start of its first run. */
  lemma {:induction false} ElementsAbove(rs: seq<NSRange>)
    requires ValidRuns(rs) && rs != []
    ensures forall x | x in Elements(rs) :: rs[0].location <= x
  {
    if |rs| > 1 {
      ElementsAbove(rs[1..]);
    }
  }

  /** A valid run list holds nothing at or above the end of its last run. */
  lemma {:induction false} ElementsBelow(rs: seq<NSRange>)
    requires ValidRuns(rs) && rs != []
    ensures forall x | x in Elements(rs) :: x < rs[|rs| - 1].End()
  {
    if |rs| > 1 {
      ElementsBelow(rs[1..]);
      assert rs[1..][|rs| - 2] == rs[|rs| - 1];
      assert rs[1].location in Span(rs[1]);
    }
  }

  /** The runs after the first hold nothing of the first run, nor the index
      just past it. */
  lemma TailAbove(rs: seq<NSRange>)
    requires ValidRuns(rs) && rs != []
    ensures forall x | x in Elements(rs[1..]) :: rs[0].End() < x
  {
    if |rs| > 1 {
      ElementsAbove(rs[1..]);
    }
  }

  /** Two valid run lists, the first ending strictly before the second
      starts, join into a valid run list. */
  lemma {:induction false} ValidConcat(a: seq<NSRange>, b: seq<NSRange>)
    requires ValidRuns(a) && ValidRuns(b)
    requires a != [] && b != [] ==> a[|a| - 1].End() < b[0].location
    ensures ValidRuns(a + b)
  {
    if a == [] {
      assert a + b == b;
    } else {
      assert (a + b)[1..] == a[1..] + b;
      if |a| > 1 {
        assert a[1..][|a| - 2] == a[|a| - 1];
      }
      ValidConcat(a[1..], b);
    }
  }

  /** A valid run list is empty exactly when it holds no index; otherwise it
      holds the first index of its first run and the last of its last run. */
  lemma NonEmptyRuns(rs: seq<NSRange>)
    requires ValidRuns(rs)
    ensures rs == [] <==> Elements(rs) == {}
    ensures rs != [] ==> rs[0].location in Elements(rs) && rs[|rs| - 1].End() - 1 in Elements(rs)
  {
    if rs != [] {
      assert rs[0].location in Span(rs[0]);
      ValidAt(rs, |rs| - 1);
      var last := rs[|rs| - 1];
      assert last.End() - 1 in Span(last);
      ElementsMember(rs, last.End() - 1);
    }
  }

  /** Each run of a valid list is non-empty and ends before the next starts. */
  lemma {:induction false} ValidAt(rs: seq<NSRange>, i: nat)
    requires ValidRuns(rs) && i < |rs|
    ensures rs[i].length > 0
    ensures i + 1 < |rs| ==> rs[i].End() < rs[i + 1].location
  {
    if i > 0 {
      ValidAt(rs[1..], i - 1);
    }
  }

  lemma {:induction false} ValidPrefix(rs: seq<NSRange>, k: nat)
    requires ValidRuns(rs) && k <= |rs|
    ensures ValidRuns(rs[..k])
  {
    if k > 0 {
      assert rs[..k][1..] == rs[1..][..k - 1];
      ValidPrefix(rs[1..], k - 1);
    }
  }

  lemma {:induction false} ValidSuffix(rs: seq<NSRange>, k: nat)
    requires ValidRuns(rs) && k <= |rs|
    ensures ValidRuns(rs[k..])
  {
    if k > 0 {
      assert rs[k..] == rs[1..][k - 1..];
      ValidSuffix(rs[1..], k - 1);
    }
  }

  /** The runs before run `k` hold the indices of the first `k` runs, all of
      them more than one place below the start of run `k`. */
  lemma PrefixStep(rs: seq<NSRange>, k: nat)
    requires ValidRuns(rs) && k < |rs|
    ensures Elements(rs[..k + 1]) == Elements(rs[..k]) + Span(rs[k])
    ensures forall x | x in Elements(rs[..k]) :: x + 1 < rs[k].location
  {
    assert rs[..k + 1] == rs[..k] + [rs[k]];
    ElementsAppend(rs[..k], [rs[k]]);
    ElementsCons(rs[k], []);
    if k > 0 {
      PrefixBelow(rs, k);
    }
  }

  lemma PrefixBelow(rs: seq<NSRange>, k: nat)
    requires ValidRuns(rs) && 0 < k < |rs|
    ensures forall x | x in Elements(rs[..k]) :: x + 1 < rs[k].location
  {
    ValidPrefix(rs, k);
    ElementsBelow(rs[..k]);
    ValidAt(rs, k - 1);
    assert rs[..k][k - 1] == rs[k - 1];
  }

  /** Every run of a valid list lies between the start of its first run and
      the end of its last. */
  lemma {:induction false} RunsWithin(rs: seq<NSRange>, r: NSRange)
    requires ValidRuns(rs) && rs != []
    requires r.location <= rs[0].location && rs[|rs| - 1].End() <= r.End()
    ensures forall k | 0 <= k < |rs| :: r.ContainsRange(rs[k])
  {
    if |rs| > 1 {
      assert rs[1..][|rs| - 2] == rs[|rs| - 1];
      RunsWithin(rs[1..], r);
      forall k | 0 <= k < |rs|
        ensures r.ContainsRange(rs[k])
      {
        if k > 0 {
          assert rs[k] == rs[1..][k - 1];
        }
      }
    }
  }

  // ---------------------------------------------------------------------
  // Run-list operations

  /** Adds every index of `r`, merging the runs it overlaps or touches. */
  function InsertRun(rs: seq<NSRange>, r: NSRange): (res: seq<NSRange>)
    requires ValidRuns(rs)
    ensures ValidRuns(res)
    ensures Elements(res) == Elements(rs) + Span(r)
    ensures res != [] && r.length > 0 ==>
      res[0].location == (if rs == [] then r.location else Min(rs[0].location, r.location))
    ensures res != [] && r.length == 0 ==> rs != [] && res[0].location == rs[0].location
    decreases |rs|
  {
    if r.length == 0 then rs
    else if rs == [] then
      ElementsCons(r, []);
      [r]
    else if rs[0].End() < r.location then
      var rest := InsertRun(rs[1..], r);
      ElementsCons(rs[0], rest);
      assert ([rs[0]] + rest)[1..] == rest;
      [rs[0]] + rest
    else if r.End() < rs[0].location then
      ElementsCons(r, rs);
      assert ([r] + rs)[1..] == rs;
      [r] + rs
    else
      SpanOfHull(rs[0], r);
      InsertRun(rs[1..], Hull(rs[0], r))
  }

  /** The parts of run `a` that lie outside a non-empty range `r`. */
  function Pieces(a: NSRange, r: NSRange): (ps: seq<NSRange>)
    requires a.length > 0 && r.length > 0
    ensures ValidRuns(ps)
    ensures Elements(ps) == Span(a) - Span(r)
    ensures ps != [] ==> a.location <= ps[0].location && ps[|ps| - 1].End() <= a.End()
  {
    var left := if a.location < r.location
      then [NSRange(a.location, Min(a.End(), r.location) - a.location)] else [];
    var right := if r.End() < a.End()
      then [NSRange(Max(a.location, r.End()), a.End() - Max(a.location, r.End()))] else [];
    ElementsAppend(left, right);
    assert left != [] ==> Elements(left) == Span(left[0]);
    assert right != [] ==> Elements(right) == Span(right[0]);
    ValidConcat(left, right);
    left + right
  }

  /** Removes every index of `r`, splitting a run that `r` cuts in two. */
  function RemoveRange(rs: seq<NSRange>, r: NSRange): (res: seq<NSRange>)
    requires ValidRuns(rs)
    ensures ValidRuns(res)
    ensures Elements(res) == Elements(rs) - Span(r)
    ensures res != [] ==> rs != [] && rs[0].location <= res[0].location
    decreases |rs|
  {
    if rs == [] || r.length == 0 then rs
    else
      var front := Pieces(rs[0], r);
      var rest := RemoveRange(rs[1..], r);
      RemoveStepValid(rs, r, front, rest);
      RemoveStepElements(rs, r, front, rest);
      front + rest
  }

  /** Cutting `r` out of the first run and out of the rest separately gives
      valid runs. */
  lemma RemoveStepValid(rs: seq<NSRange>, r: NSRange, front: seq<NSRange>, rest: seq<NSRange>)
    requires ValidRuns(rs) && rs != [] && r.length > 0
    requires front == Pieces(rs[0], r)
    requires ValidRuns(rest)
    requires rest != [] ==> rs[1..] != [] && rs[1].location <= rest[0].location
    ensures ValidRuns(front + rest)
    ensures front + rest != [] ==> rs[0].location <= (front + rest)[0].location
  {
    ValidAt(rs, 0);
    ValidConcat(front, rest);
  }

  /** Cutting `r` out of the first run and out of the rest separately
      removes exactly the indices of `r` from the whole list. */
  lemma RemoveStepElements(rs: seq<NSRange>, r: NSRange, front: seq<NSRange>, rest: seq<NSRange>)
    requires rs != []
    requires Elements(front) == Span(rs[0]) - Span(r)
    requires Elements(rest) == Elements(rs[1..]) - Span(r)
    ensures Elements(front + rest) == Elements(rs) - Span(r)
  {
    ElementsAppend(front, rest);
    assert Elements(rs) == Span(rs[0]) + Elements(rs[1..]);
  }

  /** The part of run `a` inside `r`, as a run list of at most one run. */
  function ClipRun(a: NSRange, r: NSRange): (res: seq<NSRange>)
    ensures ValidRuns(res) && |res| <= 1
    ensures Elements(res) == Span(a) * Span(r)
    ensures res != [] ==> a.location <= res[0].location && r.location <= res[0].location
    ensures res != [] ==> res[0].End() <= a.End() && res[0].End() <= r.End()
  {
    var lo := Max(a.location, r.location);
    var hi := Min(a.End(), r.End());
    SpanMeet(a, r);
    if lo < hi then
      var piece := NSRange(lo, hi - lo);
      ElementsCons(piece, []);
      assert [piece][1..] == [];
      [piece]
    else
      []
  }

  /** The runs of `rs` cut down to the part inside `r`; empty leftovers are
      dropped. */
  function Clip(rs: seq<NSRange>, r: NSRange): (res: seq<NSRange>)
    requires ValidRuns(rs)
    ensures ValidRuns(res)
    ensures Elements(res) == Elements(rs) * Span(r)
    ensures res != [] ==> rs != [] && rs[0].location <= res[0].location
    ensures res != [] ==> r.location <= res[0].location && res[|res| - 1].End() <= r.End()
    decreases |rs|
  {
    if rs == [] then []
    else
      var head := ClipRun(rs[0], r);
      var rest := Clip(rs[1..], r);
      ClipStepValid(rs, r, head, rest);
      ClipStepElements(rs, r, head, rest);
      head + rest
  }

  /** Clipping the first run and the rest separately gives valid runs
      inside `r`. */
  lemma ClipStepValid(rs: seq<NSRange>, r: NSRange, head: seq<NSRange>, rest: seq<NSRange>)
    requires ValidRuns(rs) && rs != []
    requires head == ClipRun(rs[0], r)
    requires ValidRuns(rest)
    requires rest != [] ==> rs[1..] != [] && rs[1].location <= rest[0].location
    requires rest != [] ==> r.location <= rest[0].location && rest[|rest| - 1].End() <= r.End()
    ensures ValidRuns(head + rest)
    ensures head + rest != [] ==> rs[0].location <= (head + rest)[0].location
    ensures head + rest != [] ==> r.location <= (head + rest)[0].location && (head + rest)[|head + rest| - 1].End() <= r.End()
  {
    ValidAt(rs, 0);
    ValidConcat(head, rest);
    if rest != [] {
      assert (head + rest)[|head + rest| - 1] == rest[|rest| - 1];
    }
  }

  /** Clipping the first run and the rest separately keeps exactly the
      indices of the whole list inside `r`. */
  lemma ClipStepElements(rs: seq<NSRange>, r: NSRange, head: seq<NSRange>, rest: seq<NSRange>)
    requires rs != []
    requires Elements(head) == Span(rs[0]) * Span(r)
    requires Elements(rest) == Elements(rs[1..]) * Span(r)
    ensures Elements(head + rest) == Elements(rs) * Span(r)
  {
    ElementsAppend(head, rest);
    assert Elements(rs) == Span(rs[0]) + Elements(rs[1..]);
  }

  /** Index `i` survives clipping to `r` exactly when it is in `r`. */
  lemma ClipAt(rs: seq<NSRange>, r: NSRange, i: nat)
    requires ValidRuns(rs)
    ensures i in Elements(Clip(rs, r)) <==> i in Elements(rs) && r.location <= i < r.End()
  {
    assert i in Span(r) <==> r.location <= i < r.End();
  }

  /** Adds every index of every run of `ys`. */
  function InsertAll(xs: seq<NSRange>, ys: seq<NSRange>): (res: seq<NSRange>)
    requires ValidRuns(xs)
    ensures ValidRuns(res)
    ensures Elements(res) == Elements(xs) + Elements(ys)
    decreases |ys|
  {
    if ys == [] then xs else InsertAll(InsertRun(xs, ys[0]), ys[1..])
  }

  /** Removes every index of every run of `ys`. */
  function RemoveAll(xs: seq<NSRange>, ys: seq<NSRange>): (res: seq<NSRange>)
    requires ValidRuns(xs)
    ensures ValidRuns(res)
    ensures Elements(res) == Elements(xs) - Elements(ys)
    decreases |ys|
  {
    if ys == [] then xs else RemoveAll(RemoveRange(xs, ys[0]), ys[1..])
  }

  /** Moves every run `offset` places towards zero; used to make a copy of a
      range zero-based. */
  function ShiftDown(rs: seq<NSRange>, offset: nat): (res: seq<NSRange>)
    requires ValidRuns(rs)
    requires rs != [] ==> offset <= rs[0].location
    ensures ValidRuns(res) && |res| == |rs|
    ensures res != [] ==> res[0].location == rs[0].location - offset
    decreases |rs|
  {
    if rs == [] then []
    else
      var rest := ShiftDown(rs[1..], offset);
      var first := NSRange(rs[0].location - offset, rs[0].length);
      assert ([first] + rest)[1..] == rest;
      [first] + rest
  }

  /** Index `j` of the runs shifted down is index `j + offset` of the
      original. */
  lemma {:induction false} ShiftDownAt(rs: seq<NSRange>, offset: nat, j: nat)
    requires ValidRuns(rs)
    requires rs != [] ==> offset <= rs[0].location
    ensures j in Elements(ShiftDown(rs, offset)) <==> j + offset in Elements(rs)
    decreases |rs|
  {
    if rs != [] {
      var rest := ShiftDown(rs[1..], offset);
      var first := NSRange(rs[0].location - offset, rs[0].length);
      if |rs| > 1 {
        ValidAt(rs, 0);
      }
      ShiftDownAt(rs[1..], offset, j);
      ElementsCons(first, rest);
      assert j in Span(first) <==> j + offset in Span(rs[0]);
    }
  }

  /** Moves every run `offset` places away from zero; used to place a
      zero-based mask or value over a range. */
  function ShiftUp(rs: seq<NSRange>, offset: nat): (res: seq<NSRange>)
    requires ValidRuns(rs)
    ensures ValidRuns(res) && |res| == |rs|
    ensures res != [] ==> res[0].location == rs[0].location + offset
    decreases |rs|
  {
    if rs == [] then []
    else
      var rest := ShiftUp(rs[1..], offset);
      var first := NSRange(rs[0].location + offset, rs[0].length);
      assert ([first] + rest)[1..] == rest;
      [first] + rest
  }

  /** Index `i` of the runs shifted up is index `i - offset` of the
      original, and nothing lies below `offset`. */
  lemma {:induction false} ShiftUpAt(rs: seq<NSRange>, offset: nat, i: nat)
    requires ValidRuns(rs)
    ensures i in Elements(ShiftUp(rs, offset)) <==> offset <= i && i - offset in Elements(rs)
    decreases |rs|
  {
    if rs != [] {
      var rest := ShiftUp(rs[1..], offset);
      var first := NSRange(rs[0].location + offset, rs[0].length);
      ShiftUpAt(rs[1..], offset, i);
      ElementsCons(first, rest);
      assert i in Span(first) <==> offset <= i && i - offset in Span(rs[0]);
    }
  }

  /** Shifting down and back up by the same offset restores the runs. */
  lemma {:induction false} ShiftUpDown(rs: seq<NSRange>, offset: nat)
    requires ValidRuns(rs)
    requires rs != [] ==> offset <= rs[0].location
    ensures ShiftUp(ShiftDown(rs, offset), offset) == rs
    decreases |rs|
  {
    if rs != [] {
      var down := ShiftDown(rs, offset);
      assert down[1..] == ShiftDown(rs[1..], offset);
      if |rs| > 1 {
        ValidAt(rs, 0);
      }
      ShiftUpDown(rs[1..], offset);
      assert ShiftUp(down, offset) == [rs[0]] + rs[1..];
    }
  }

  // ---------------------------------------------------------------------
  // Canonical form and size

  /** Two valid run lists holding the same indices are the same list: the
      representation is canonical, so equality of index sets (and of
      bitfields) is equality of their runs. */
  lemma {:induction false} Canonical(a: seq<NSRange>, b: seq<NSRange>)
    requires ValidRuns(a) && ValidRuns(b)
    requires Elements(a) == Elements(b)
    ensures a == b
    decreases |a|
  {
    if a != [] {
      assert a[0].location in Span(a[0]);
    }
    if b != [] {
      assert b[0].location in Span(b[0]);
    }
    if a != [] && b != [] {
      ElementsAbove(a);
      ElementsAbove(b);
      TailAbove(a);
      TailAbove(b);
      assert a[0].location == b[0].location;
      assert a[0].End() - 1 in Span(a[0]);
      assert b[0].End() - 1 in Span(b[0]);
      assert a[0].End() !in Elements(a);
      assert b[0].End() !in Elements(b);
      assert a[0].End() == b[0].End();
      assert a[0] == b[0];
      assert Elements(a[1..]) == Elements(a) - Span(a[0]);
      assert Elements(b[1..]) == Elements(b) - Span(b[0]);
      Canonical(a[1..], b[1..]);
      assert a == [a[0]] + a[1..];
      assert b == [b[0]] + b[1..];
    }
  }

  /** Two valid run lists that read the same at every bit are the same
      list. */
  lemma CanonicalBits(a: seq<NSRange>, b: seq<NSRange>)
    requires ValidRuns(a) && ValidRuns(b)
    requires forall i: nat :: BitOf(a, i) == BitOf(b, i)
    ensures a == b
  {
    forall i: nat
      ensures i in Elements(a) <==> i in Elements(b)
    {
      assert BitOf(a, i) == BitOf(b, i);
    }
    assert Elements(a) == Elements(b);
    Canonical(a, b);
  }

  lemma {:induction false} SpanSize(r: NSRange)
    ensures |Span(r)| == r.length
    decreases r.length
  {
    if r.length > 0 {
      var shorter := NSRange(r.location, r.length - 1);
      SpanSize(shorter);
      assert Span(r) == Span(shorter) + {r.End() - 1};
    } else {
      assert Span(r) == {};
    }
  }

  /** A valid run list holds exactly as many indices as its runs are long. */
  lemma {:induction false} ElementsSize(rs: seq<NSRange>)
    requires ValidRuns(rs)
    ensures |Elements(rs)| == TotalLength(rs)
  {
    if rs != [] {
      ElementsSize(rs[1..]);
      SpanSize(rs[0]);
      TailAbove(rs);
      assert Span(rs[0]) !! Elements(rs[1..]);
    }
  }
}
