/** AQNotifyingBitfield: a bitfield with a registry of notifiers, each
    watching a range. Every bit mutator changes the bits exactly as the plain
    bitfield does and then fires, in registration order, every notifier whose
    range shares an index with the range the mutation touched. Blocks are
    not run: a notifier carries an opaque handle for its block, and each
    mutator returns the notifiers it fired. */
module NotifyingBitfields {
  import opened Foundation
  import opened IndexSets
  import opened Bitfields

  /** A registered notifier: the range it watches and a handle for its
      block. */
  datatype Notifier = Notifier(range: NSRange, block: nat)

  /** Which registry entries a scan keeps: those not registered for exactly
      a range, those not wholly inside a range, or those watching a range
      that shares an index with a touched range. */
  datatype Selection = OtherThan(exact: NSRange) | NotWithin(outer: NSRange) | Touching(touched: NSRange)

  predicate Selects(s: Selection, n: Notifier) {
    match s
    case OtherThan(exact) => n.range != exact
    case NotWithin(outer) => !outer.ContainsRange(n.range)
    case Touching(touched) => n.range.Intersects(touched)
  }

  /** The entries a scan keeps, in registry order. */
  function Select(ns: seq<Notifier>, s: Selection): (res: seq<Notifier>)
    ensures |res| <= |ns|
    ensures forall n :: n in res <==> n in ns && Selects(s, n)
    decreases |ns|
  {
    if ns == [] then []
    else
      var rest := Select(ns[1..], s);
      assert forall n :: n in ns <==> n == ns[0] || n in ns[1..];
      (if Selects(s, ns[0]) then [ns[0]] else []) + rest
  }

  // ---------------------------------------------------------------------
  // Properties of a scan

  /** A scan of two registries one after the other is the scan of the first
      followed by the scan of the second: the kept entries stay in
      registration order. */
  lemma {:induction false} SelectAppend(a: seq<Notifier>, b: seq<Notifier>, s: Selection)
    ensures Select(a + b, s) == Select(a, s) + Select(b, s)
    decreases |a|
  {
    if a == [] {
      assert a + b == b;
    } else {
      assert (a + b)[1..] == a[1..] + b;
      SelectAppend(a[1..], b, s);
    }
  }

  /** Scanning one more entry of a registry appends that entry when the
      selection keeps it. */
  lemma SelectSnoc(ns: seq<Notifier>, k: nat, s: Selection)
    requires k < |ns|
    ensures Select(ns[..k + 1], s) == Select(ns[..k], s) + (if Selects(s, ns[k]) then [ns[k]] else [])
  {
    assert ns[..k + 1] == ns[..k] + [ns[k]];
    SelectAppend(ns[..k], [ns[k]], s);
    assert [ns[k]][1..] == [];
  }

  /** Scanning again with the same selection keeps everything. */
  lemma {:induction false} SelectIdempotent(ns: seq<Notifier>, s: Selection)
    ensures Select(Select(ns, s), s) == Select(ns, s)
    decreases |ns|
  {
    if ns != [] {
      SelectIdempotent(ns[1..], s);
      var head := if Selects(s, ns[0]) then [ns[0]] else [];
      SelectAppend(head, Select(ns[1..], s), s);
      if Selects(s, ns[0]) {
        assert head[1..] == [];
      }
    }
  }

  /** A scan that keeps every entry returns the registry unchanged. */
  lemma {:induction false} SelectAll(ns: seq<Notifier>, s: Selection)
    requires forall n | n in ns :: Selects(s, n)
    ensures Select(ns, s) == ns
    decreases |ns|
  {
    if ns != [] {
      assert ns[0] in ns;
      assert forall n | n in ns[1..] :: n in ns;
      SelectAll(ns[1..], s);
      assert [ns[0]] + ns[1..] == ns;
    }
  }

  /** Removing the entries wholly inside `r` also removes the entries
      registered for exactly `r`, so a later exact removal finds nothing. */
  lemma WithinSubsumesExact(ns: seq<Notifier>, r: NSRange)
    ensures Select(Select(ns, NotWithin(r)), OtherThan(r)) == Select(ns, NotWithin(r))
  {
    SelectAll(Select(ns, NotWithin(r)), OtherThan(r));
  }

  /** Registering a notifier for `r` and then removing the notifiers for
      exactly `r` leaves what removing them alone would have left. */
  lemma RegisterThenRemove(ns: seq<Notifier>, r: NSRange, block: nat)
    ensures Select(ns + [Notifier(r, block)], OtherThan(r)) == Select(ns, OtherThan(r))
  {
    SelectAppend(ns, [Notifier(r, block)], OtherThan(r));
    assert [Notifier(r, block)][1..] == [];
  }

  /** A one-bit mutation at `index` fires exactly the notifiers whose range
      holds `index`. */
  lemma OneBitTouches(n: Notifier, index: nat)
    ensures Selects(Touching(NSRange(index, 1)), n) <==> n.range.Contains(index)
  {
  }

  /** An illustration of `OneBitTouches` on one input: a notifier watching
      [10, 20) fires when bit 15 is set and not when bit 25 is. */
  lemma WatchedRangeExample(block: nat)
    ensures Select([Notifier(NSRange(10, 10), block)], Touching(NSRange(15, 1))) == [Notifier(NSRange(10, 10), block)]
    ensures Select([Notifier(NSRange(10, 10), block)], Touching(NSRange(25, 1))) == []
  {
    assert [Notifier(NSRange(10, 10), block)][1..] == [];
  }

  /** Removing the notifiers within `r` keeps a registered notifier exactly
      when its (non-empty) range has an index outside `r`: an entry that only
      overlaps `r` is never removed. */
  lemma WithinKeepsPartialOverlap(ns: seq<Notifier>, r: NSRange, n: Notifier)
    requires n.range.length > 0
    ensures n in Select(ns, NotWithin(r)) <==>
      n in ns && exists i: nat :: n.range.Contains(i) && !r.Contains(i)
  {
    var w := n.range;
    if !r.ContainsRange(w) {
      if w.location < r.location {
        assert w.Contains(w.location) && !r.Contains(w.location);
      } else {
        assert w.Contains(w.End() - 1) && !r.Contains(w.End() - 1);
      }
    }
  }

  // ---------------------------------------------------------------------
  // The notifying bitfield

  class NotifyingBitfield {
    /** The bits, kept by a plain bitfield. */
    const store: Bitfield
    /** The registered notifiers, oldest first. */
    var notifiers: seq<Notifier>

    ghost predicate Valid()
      reads this, store
    {
      store.Valid()
    }

    constructor (numberOfBits: nat)
      requires numberOfBits <= NSNotFound
      ensures Valid() && fresh(store)
      ensures store.runs == [] && store.count == numberOfBits && notifiers == []
    {
      store := new Bitfield(numberOfBits);
      notifiers := [];
    }

    /** notifyModificationOfBitsInRange:usingBlock: registers a notifier
        after every existing one; the bits do not change. */
    method NotifyModificationOfBitsInRange(range: NSRange, block: nat)
      requires Valid()
      modifies this
      ensures Valid()
      ensures notifiers == old(notifiers) + [Notifier(range, block)]
      ensures store.runs == old(store.runs) && store.count == old(store.count)
    {
      notifiers := notifiers + [Notifier(range, block)];
    }

    /** removeNotifierForBitsInRange: drops every notifier registered for
        exactly `range` and keeps the others in order; the bits do not
        change. */
    method RemoveNotifierForBitsInRange(range: NSRange)
      requires Valid()
      modifies this
      ensures Valid()
      ensures notifiers == Select(old(notifiers), OtherThan(range))
      ensures store.runs == old(store.runs) && store.count == old(store.count)
    {
      notifiers := Filter(OtherThan(range));
    }

    /** removeAllNotifiersWithinRange: drops every notifier whose range lies
        wholly inside `range`; one that only overlaps it stays. */
    method RemoveAllNotifiersWithinRange(range: NSRange)
      requires Valid()
      modifies this
      ensures Valid()
      ensures notifiers == Select(old(notifiers), NotWithin(range))
      ensures store.runs == old(store.runs) && store.count == old(store.count)
    {
      notifiers := Filter(NotWithin(range));
    }

    /** Scans the registry in order and collects the entries the selection
        keeps. */
    method Filter(s: Selection) returns (kept: seq<Notifier>)
      ensures kept == Select(notifiers, s)
    {
      kept := [];
      var k := 0;
      while k < |notifiers|
        invariant k <= |notifiers|
        invariant kept == Select(notifiers[..k], s)
      {
        SelectSnoc(notifiers, k, s);
        if Selects(s, notifiers[k]) {
          kept := kept + [notifiers[k]];
        }
        k := k + 1;
      }
      assert notifiers[..k] == notifiers;
    }

    /** setBitsInRange:usingBit: changes the bits as the plain bitfield
        does, then fires the notifiers watching any index of the range. */
    method SetBitsInRange(range: NSRange, bit: Bit) returns (fired: seq<Notifier>)
      requires Valid() && range.End() <= NSNotFound
      modifies store
      ensures Valid()
      ensures store.runs == SetRange(old(store.runs), range, bit)
      ensures store.count == if bit == 1 && range.length > 0 then Max(old(store.count), range.End()) else old(store.count)
      ensures fired == Select(notifiers, Touching(range))
    {
      store.SetBitsInRange(range, bit);
      fired := Filter(Touching(range));
    }

    /** setBit:atIndex: changes one bit and fires the notifiers watching
        it. */
    method SetBit(bit: Bit, index: nat) returns (fired: seq<Notifier>)
      requires Valid() && index < NSNotFound
      modifies store
      ensures Valid()
      ensures store.runs == SetRange(old(store.runs), NSRange(index, 1), bit)
      ensures store.count == if bit == 1 then Max(old(store.count), index + 1) else old(store.count)
      ensures fired == Select(notifiers, Touching(NSRange(index, 1)))
    {
      store.SetBit(bit, index);
      fired := Filter(Touching(NSRange(index, 1)));
    }

    /** flipBitsInRange: inverts the range and fires the notifiers watching
        any index of it. */
    method FlipBitsInRange(range: NSRange) returns (fired: seq<Notifier>)
      requires Valid() && range.End() <= NSNotFound
      modifies store
      ensures Valid()
      ensures store.runs == FlipRange(old(store.runs), range)
      ensures store.count == if range.length > 0 then Max(old(store.count), range.End()) else old(store.count)
      ensures fired == Select(notifiers, Touching(range))
    {
      store.FlipBitsInRange(range);
      fired := Filter(Touching(range));
    }

    /** flipBitAtIndex: inverts one bit and fires the notifiers watching
        it. */
    method FlipBitAtIndex(index: nat) returns (fired: seq<Notifier>)
      requires Valid() && index < NSNotFound
      modifies store
      ensures Valid()
      ensures store.runs == FlipRange(old(store.runs), NSRange(index, 1))
      ensures store.count == Max(old(store.count), index + 1)
      ensures fired == Select(notifiers, Touching(NSRange(index, 1)))
    {
      store.FlipBitAtIndex(index);
      fired := Filter(Touching(NSRange(index, 1)));
    }

    /** setAllBits: sets every significant bit and fires the notifiers
        watching any index below `count`. */
    method SetAllBits(bit: Bit) returns (fired: seq<Notifier>)
      requires Valid()
      modifies store
      ensures Valid() && store.count == old(store.count)
      ensures store.runs == SetRange(old(store.runs), NSRange(0, old(store.count)), bit)
      ensures fired == Select(notifiers, Touching(NSRange(0, store.count)))
    {
      store.SetAllBits(bit);
      fired := Filter(Touching(NSRange(0, store.count)));
    }
  }
}
