# AQAppStateMachine bit-state core, modelled in Dafny

This project models the bit-state engine behind AQAppStateMachine. Its parts:

- **`AQBitfield`**: a mutable, logically unbounded bit vector. It stores its
  1 bits as a sorted list of disjoint, non-adjacent runs `[location, end)`,
  and every index outside the runs reads 0. It also has an assignable count of
  significant bits.
- **`AQNotifyingBitfield`**: the same bit vector plus a registry of
  (range, notifier) entries. Every mutator fires the notifiers whose range
  shares an index with the range it wrote.
- **`AQRange`**: an NSRange value with equality and ordering.
- **Index-set categories**: masking (intersection, as a new set or in place)
  and run enumeration (forward, reverse, clipped, stoppable), plus
  `numberOfRanges`.
- **Match descriptors**: the plain range descriptor, the masked descriptor and
  the masked-equality descriptor. They are immutable values that answer
  "does this descriptor watch a bit in range r" and "do all masked ranges
  currently equal their expected values".
- **Bit predicates**: the five `NSPredicate` factories and the two predicate
  classes. Each is a boolean function of a bitfield's bits.

The files, leaf first:

| file | modules | what it holds |
|---|---|---|
| `foundation.dfy` | `Foundation` | NSRange, NSComparisonResult, NSNotFound, `Bit`, Option and Result |
| `words.dfy` | `Words` | NSUInteger values as bit patterns: bit `j`, the low `n` bits, AND |
| `index_sets.dfy` | `IndexSets` | the run-list invariant, its meaning as a set of indices, run-list operations, uniqueness of the representation |
| `bitfields.dfy` | `Bitfields` | the meaning of each AQBitfield operation as a function of the runs; the `Bitfield` class proved against them |
| `ranges.dfy` | `Ranges` | AQRange |
| `masking.dfy` | `IndexSetMasking` | `indexSetMaskedWithIndexSet:`, and `maskWithIndexSet:` on a mutable index-set class |
| `range_methods.dfy` | `RangeMethods` | the `aq_enumerateRanges…` methods and `numberOfRanges` |
| `descriptors.dfy` | `StateMatchingDescriptors` | the plain and masked descriptors, which share one class name in the source |
| `predicates.dfy` | `BitfieldPredicates`, `SimpleBitTestPredicates`, `BitRangeMatchPredicates` | the predicate factories and the two predicate classes |
| `equality_descriptors.dfy` | `EqualityDescriptors` | the masked-equality descriptor, whose per-range test is the bitfield predicate |
| `notifying.dfy` | `NotifyingBitfields` | the notifying bitfield |

How the model relates to the source:

- **Run lists.** Bitfields and index sets are both run lists. `Elements`
  gives the set of indices a run list holds. `Canonical` proves that two
  valid run lists holding the same indices are the same list. Equal contents
  are therefore equal values, as bitfield equality over 1-runs requires.
- **`count` is stored.** One might expect `count` to be the index of the
  highest set bit + 1. The header declares it an assignable property
  ("number of significant bits", `AQBitfield.h:20`), and this model follows
  the header:
  - `count` is stored;
  - no 1 bit lies at or beyond it;
  - writing 1s extends it to cover the written range;
  - first/last-index searches and `setAllBits:` work within it.
- **Blocks are not executed.**
  - A notifier is an opaque handle, and a mutator returns the notifiers it
    fired, in registration order.
  - An enumeration block is given as what it would store through `stop`, and
    an enumeration returns the ranges it passed to the block.
- **UUIDs are numbers.** A descriptor's UUID is a natural number handed out
  by a counter.
- **Word widths are bounds.** 32- and 64-bit words are naturals below
  `Pow2(32)` and `Pow2(64)`.

## Model

| member | source | states |
|---|---|---|
| Bitfields.Bitfield.constructor | AQAppStateMachine/AQBitfield.h:16-18 | a new bitfield of `numberOfBits` significant bits has every bit clear |
| Bitfields.Bitfield.SetCount | AQAppStateMachine/AQBitfield.h:20 | assigning `count` keeps the bits below the new count and discards the rest |
| Bitfields.Bitfield.CountOfBit | AQAppStateMachine/AQBitfield.h:22 | the loop over the runs returns the number of indices of the range holding the bit |
| Bitfields.CountsSum | AQAppStateMachine/AQBitfield.h:22 | the count of 0s plus the count of 1s in a range is the range's length |
| Bitfields.ContainsIffCount | AQAppStateMachine/AQBitfield.h:22-24 | a range contains a bit exactly when its count of that bit is positive |
| Bitfields.Bitfield.ContainsBit | AQAppStateMachine/AQBitfield.h:24 | YES exactly when some index of the range holds the bit |
| Bitfields.Bitfield.BitAtIndex | AQAppStateMachine/AQBitfield.h:25 | returns 1 exactly when a run holds the index, else 0 |
| Bitfields.Extract | AQAppStateMachine/AQBitfield.h:27 | bit `j` of the copy is bit `location + j` of the original for `j` below the length, and 0 beyond |
| Bitfields.ExtractRoundTrip | AQAppStateMachine/AQBitfield.h:27 | moving the zero-based copy back to the range's location gives exactly the original's runs inside the range |
| Bitfields.Bitfield.BitfieldFromRange | AQAppStateMachine/AQBitfield.h:27 | raises the range exception exactly when the range ends past NSNotFound; otherwise returns a fresh bitfield of `length` bits holding the zero-based copy |
| Bitfields.Bitfield.FirstIndexOfBit | AQAppStateMachine/AQBitfield.h:31 | returns an index below `count` holding the bit with no lower index holding it, or NSNotFound when no index below `count` holds it |
| Bitfields.Bitfield.LastIndexOfBit | AQAppStateMachine/AQBitfield.h:32 | returns an index below `count` holding the bit with no higher index below `count` holding it, or NSNotFound when none does |
| Bitfields.FlipRange | AQAppStateMachine/AQBitfield.h:34-35 | every bit of the range is inverted and every other bit is unchanged |
| Bitfields.ClearCopyEmpty | AQAppStateMachine/AQBitfield.h:27 | the zero-based copy of a range is empty exactly when every bit of the range is clear |
| Bitfields.FlipTwice | AQAppStateMachine/AQBitfield.h:34-35 | flipping the same range twice restores the original runs |
| Bitfields.Bitfield.FlipBitAtIndex | AQAppStateMachine/AQBitfield.h:34 | the bits become the flip of the one-bit range; `count` grows to cover the index |
| Bitfields.Bitfield.FlipBitsInRange | AQAppStateMachine/AQBitfield.h:35 | the bits become the flip of the range; a non-empty range extends `count` to its end |
| Bitfields.SetRange | AQAppStateMachine/AQBitfield.h:37-38 | every bit of the range reads the given bit and every other bit is unchanged |
| Bitfields.CountAfterSet | AQAppStateMachine/AQBitfield.h:38 | after setting a range to `b`, `countOfBit:b inRange:` of that range is its length |
| Bitfields.Bitfield.SetBit | AQAppStateMachine/AQBitfield.h:37 | the bit at the index becomes the given bit and no other bit changes; setting a 1 extends `count` to cover it |
| Bitfields.Bitfield.SetBitsInRange | AQAppStateMachine/AQBitfield.h:38 | the range is set to the given bit and no other bit changes; setting 1s extends `count` to the range's end |
| Bitfields.Bitfield.SetAllBits | AQAppStateMachine/AQBitfield.h:40 | every index below `count` reads the given bit, and `count` is unchanged |
| Bitfields.Bitfield.BitsInRangeMatchBits | AQAppStateMachine/AQBitfield.h:42-43 | for a range of at most 64 bits, YES exactly when bit `j` of the range equals bit `j` of the value for every `j` below the length |
| Bitfields.MatchesBitsValue | AQAppStateMachine/AQBitfield.h:42-43 | the bitwise match holds exactly when the range, read as an integer, equals the value's least significant `length` bits |
| Bitfields.RangeValueBits | AQAppStateMachine/AQBitfield.h:42-43 | bit `j` of the range read as an integer is the bit at `location + j` |
| Bitfields.RunsOfWord | AQAppStateMachine/AQStateMaskMatchingDescriptor.h:92-106 | the bitfield made from an `n`-bit word holds index `j` exactly when `j < n` and bit `j` of the word is set |
| Bitfields.WordRoundTrip | AQAppStateMachine/AQStateMaskMatchingDescriptor.h:92-106 | reading the first `n` bits of the bitfield made from a word gives back the word's low `n` bits |
| NotifyingBitfields.Select | AQAppStateMachine/AQNotifyingBitfield.h:14-17 | a registry scan keeps exactly the entries the selection accepts (not exactly `r`, not wholly inside `r`, or touching `r`) |
| NotifyingBitfields.SelectAppend | AQAppStateMachine/AQNotifyingBitfield.h:14 | scanning a registry keeps the selected entries in registration order |
| NotifyingBitfields.SelectIdempotent | AQAppStateMachine/AQNotifyingBitfield.h:16-17 | removing the same notifiers twice removes nothing more |
| NotifyingBitfields.WithinSubsumesExact | AQAppStateMachine/AQNotifyingBitfield.h:16-17 | after removing the notifiers within `r`, removing those for exactly `r` changes nothing |
| NotifyingBitfields.RegisterThenRemove | AQAppStateMachine/AQNotifyingBitfield.h:14-16 | registering for `r` and then removing the notifiers for exactly `r` leaves the registry as removing alone would |
| NotifyingBitfields.OneBitTouches | AQAppStateMachine/AQNotifyingBitfield.h:14 | a one-bit mutation fires exactly the notifiers whose range holds that bit |
| NotifyingBitfields.WatchedRangeExample | AQAppStateMachine/AQNotifyingBitfield.h:14 | an illustration on one input: a notifier on [10, 20) fires for bit 15 and not for bit 25 |
| NotifyingBitfields.WithinKeepsPartialOverlap | AQAppStateMachine/AQNotifyingBitfield.h:17 | removal within a range keeps a notifier exactly when its non-empty range has an index outside that range, so a partial overlap is never removed |
| NotifyingBitfields.NotifyingBitfield.constructor | AQAppStateMachine/AQNotifyingBitfield.h:12 | a new notifying bitfield has every bit clear and no notifiers |
| NotifyingBitfields.NotifyingBitfield.NotifyModificationOfBitsInRange | AQAppStateMachine/AQNotifyingBitfield.h:14 | appends one entry after every existing one and leaves the bits unchanged |
| NotifyingBitfields.NotifyingBitfield.RemoveNotifierForBitsInRange | AQAppStateMachine/AQNotifyingBitfield.h:16 | drops exactly the entries registered for an equal range, keeps the rest in order, and leaves the bits unchanged |
| NotifyingBitfields.NotifyingBitfield.RemoveAllNotifiersWithinRange | AQAppStateMachine/AQNotifyingBitfield.h:17 | drops exactly the entries whose range lies wholly inside the range, keeps partial overlaps, and leaves the bits unchanged |
| NotifyingBitfields.NotifyingBitfield.Filter | AQAppStateMachine/AQNotifyingBitfield.h:14-17 | the loop over the registry returns the entries the selection accepts, in order |
| NotifyingBitfields.NotifyingBitfield.SetBitsInRange | AQAppStateMachine/AQNotifyingBitfield.h:12-14 | the bits and `count` change as in AQBitfield; the fired notifiers are exactly those touching the range |
| NotifyingBitfields.NotifyingBitfield.SetBit | AQAppStateMachine/AQNotifyingBitfield.h:12-14 | the bit changes as in AQBitfield; the fired notifiers are exactly those watching the index |
| NotifyingBitfields.NotifyingBitfield.FlipBitsInRange | AQAppStateMachine/AQNotifyingBitfield.h:12-14 | the range is inverted as in AQBitfield; the fired notifiers are exactly those touching the range |
| NotifyingBitfields.NotifyingBitfield.FlipBitAtIndex | AQAppStateMachine/AQNotifyingBitfield.h:12-14 | the bit is inverted as in AQBitfield; the fired notifiers are exactly those watching the index |
| NotifyingBitfields.NotifyingBitfield.SetAllBits | AQAppStateMachine/AQNotifyingBitfield.h:12-14 | every significant bit is set as in AQBitfield; the fired notifiers are those touching `[0, count)` |
| Ranges.CompareToNSRange | AQAppStateMachine/AQRange.h:24 | NSOrderedSame exactly for an equal range; ascending exactly when the location is smaller, or equal with a smaller length |
| Ranges.EqualityAgrees | AQAppStateMachine/AQRange.h:20-21 | `isEqual:` on another AQRange agrees with `isEqualToNSRange:` on its range, and both are equality of the wrapped ranges |
| Ranges.NotEqualToOtherObjects | AQAppStateMachine/AQRange.h:20 | no object other than an AQRange is equal to one |
| Ranges.CompareSameIffEqual | AQAppStateMachine/AQRange.h:20-24 | `compare:` gives NSOrderedSame exactly when `isEqual:` holds |
| Ranges.CompareAntisymmetric | AQAppStateMachine/AQRange.h:23 | exchanging the operands flips the result |
| Ranges.CompareTransitive | AQAppStateMachine/AQRange.h:23 | ascending order is transitive |
| IndexSetMasking.MaskedWith | AQAppStateMachine/AQIndexSetMasking.h:12 | the result holds exactly the indices in both the receiver and the mask |
| IndexSetMasking.MaskIdempotent | AQAppStateMachine/AQIndexSetMasking.h:12 | masking twice with the same mask equals masking once |
| IndexSetMasking.MaskEmpty | AQAppStateMachine/AQIndexSetMasking.h:12 | masking with an empty set gives an empty set |
| IndexSetMasking.MaskSuperset | AQAppStateMachine/AQIndexSetMasking.h:12 | masking with a superset of the receiver leaves it unchanged |
| IndexSetMasking.MeetsAgree | AQAppStateMachine/AQIndexSetMasking.h:12 | two sets masked with the same mask give equal results exactly when they hold the same indices of the mask |
| IndexSetMasking.MutableIndexSet.constructor | AQAppStateMachine/AQIndexSetMasking.h:15 | a mutable index set holds the runs it was made from |
| IndexSetMasking.MutableIndexSet.MaskWith | AQAppStateMachine/AQIndexSetMasking.h:16 | after masking in place the receiver equals what `indexSetMaskedWithIndexSet:` returns for the old receiver |
| RangeMethods.Reversed | AQAppStateMachine/AQRangeMethods.h:22 | the reverse order visits run `k` from the end at step `k` |
| RangeMethods.EnumerateRangesWithOptions | AQAppStateMachine/AQRangeMethods.h:22 | visits the runs in ascending or, reversed, descending order, each once, and makes no call after the block sets `stop` |
| RangeMethods.EnumerateRanges | AQAppStateMachine/AQRangeMethods.h:21 | the forward enumeration with the same stopping rule |
| RangeMethods.EnumerateRangesInRange | AQAppStateMachine/AQRangeMethods.h:23 | enumerates the runs clipped to the range; every range passed to the block is non-empty and inside the range |
| RangeMethods.NumberOfRanges | AQAppStateMachine/AQRangeMethods.h:26 | the number of runs, counted by a full enumeration |
| RangeMethods.FullEnumeration | AQAppStateMachine/AQRangeMethods.h:21 | an enumeration that never stops visits every run, and the visited runs hold exactly the set's indices |
| RangeMethods.ReverseDescends | AQAppStateMachine/AQRangeMethods.h:22 | in reverse order each visited run ends before the previous one starts |
| RangeMethods.AscendingDisjoint | AQAppStateMachine/AQRangeMethods.h:21 | any two runs in ascending order are disjoint and non-adjacent |
| StateMatchingDescriptors.UniqueIDs.constructor | AQAppStateMachine/AQStateMatchingDescriptor.h:36-37 | the identifier source starts at 0 |
| StateMatchingDescriptors.UniqueIDs.Fresh | AQAppStateMachine/AQStateMatchingDescriptor.h:36-37 | each identifier is handed out once, because the counter only grows |
| StateMatchingDescriptors.InitWithRanges | AQAppStateMachine/AQStateMatchingDescriptor.h:27 | the matching indices are exactly the indices of the given ranges |
| StateMatchingDescriptors.InitWithRange | AQAppStateMachine/AQStateMatchingDescriptor.h:34 | the single-range initialiser watches exactly that range, as `initWithRanges:` with one element does |
| StateMatchingDescriptors.FullRange | AQAppStateMachine/AQStateMatchingDescriptor.h:38-39 | the full range contains every matching index and starts and ends at one; an empty descriptor gives `{NSNotFound, 0}` |
| StateMatchingDescriptors.FullRangeCovers | AQAppStateMachine/AQStateMatchingDescriptor.h:38-39 | the full range contains every non-empty range given at init |
| StateMatchingDescriptors.MatchesRange | AQAppStateMachine/AQStateMatchingDescriptor.h:41-46 | YES exactly when some matching index lies in the range |
| StateMatchingDescriptors.MatchWithinFullRange | AQAppStateMachine/AQStateMatchingDescriptor.h:38-46 | a descriptor only matches a range that meets its full range |
| StateMatchingDescriptors.CompareReflexive | AQAppStateMachine/AQStateMatchingDescriptor.h:48-53 | a descriptor compares NSOrderedSame with itself |
| StateMatchingDescriptors.CompareAntisymmetric | AQAppStateMachine/AQStateMatchingDescriptor.h:48-53 | exchanging the operands flips the result; NSOrderedSame means the same full range and identifier |
| StateMatchingDescriptors.CheckedRuns | AQAppStateMachine/AQStateMaskMatchingDescriptor.h:49-58 | an index is checked exactly when it is in the range and, under a mask, its offset in the range is set in the mask |
| StateMatchingDescriptors.MaskedIndices | AQAppStateMachine/AQStateMaskMatchingDescriptor.h:49-58 | the matching indices are exactly the checked indices of some (range, mask) pair |
| StateMatchingDescriptors.InitWithRangesMatchingMasks | AQAppStateMachine/AQStateMaskMatchingDescriptor.h:49-58 | fails exactly when a masks array has another length than the ranges; otherwise watches the checked indices, with mask `k` applying to range `k` and a nil array leaving every range unmasked |
| StateMatchingDescriptors.UnmaskedChecksAll | AQAppStateMachine/AQStateMaskMatchingDescriptor.h:52-53 | an NSNull slot checks every index of its range |
| StateMatchingDescriptors.NilMasksUnmasked | AQAppStateMachine/AQStateMaskMatchingDescriptor.h:55 | a nil masks array gives the same descriptor as `initWithRanges:` |
| StateMatchingDescriptors.MaskedMatchesRange | AQAppStateMachine/AQStateMaskMatchingDescriptor.h:65-70 | a masked descriptor matches a range exactly when the range holds a checked index |
| StateMatchingDescriptors.MaskedFullRangeWithin | AQAppStateMachine/AQStateMaskMatchingDescriptor.h:60-63 | every watched index lies in one of the given ranges |
| StateMatchingDescriptors.InitWithRangeMatchingMask | AQAppStateMachine/AQStateMaskMatchingDescriptor.h:84-90 | one range under an optional mask watches exactly its checked indices |
| StateMatchingDescriptors.NilMaskWholeRange | AQAppStateMachine/AQStateMaskMatchingDescriptor.h:87-90 | a nil mask gives the same descriptor as `initWithRange:` |
| StateMatchingDescriptors.InitWith32BitMask | AQAppStateMachine/AQStateMaskMatchingDescriptor.h:92-98 | requires a non-zero mask; index `i` is watched exactly when it is in the range and bit `i - location` (below 32) of the mask is set |
| StateMatchingDescriptors.InitWith64BitMask | AQAppStateMachine/AQStateMaskMatchingDescriptor.h:100-106 | as the 32-bit form with a 64-bit mask |
| StateMatchingDescriptors.WordMaskChecked | AQAppStateMachine/AQStateMaskMatchingDescriptor.h:92-106 | a word mask checks an index of the range exactly when the word's bit at its offset is set |
| BitfieldPredicates.AllBitsMeaning | AQAppStateMachine/AQBitfieldPredicates.h:24-36 | the integer comparison holds exactly when every bit of the range equals the value's bit at the same offset |
| BitfieldPredicates.BitfieldMeaning | AQAppStateMachine/AQBitfieldPredicates.h:38-47 | the bitfield comparison holds exactly when every bit of the range's zero-based copy equals the pattern's bit |
| BitfieldPredicates.BitsMaskedMeaning | AQAppStateMachine/AQBitfieldPredicates.h:49-64 | `(bits(range) & mask) == (value & mask)` on the range's width holds exactly when every bit the mask selects matches the value |
| BitfieldPredicates.BitfieldMaskedMeaning | AQAppStateMachine/AQBitfieldPredicates.h:66-78 | the masked bitfield comparison holds exactly when every bit the mask bitfield selects matches the pattern |
| BitfieldPredicates.Locality | AQAppStateMachine/AQBitfieldPredicates.h:12-78 | no bit outside a predicate's index or range affects its result |
| BitfieldPredicates.AllBitsAsBitfield | AQAppStateMachine/AQBitfieldPredicates.h:24-47 | the integer form agrees with the bitfield form given the bitfield made from the value's low bits |
| BitfieldPredicates.FullMaskUnmasked | AQAppStateMachine/AQBitfieldPredicates.h:49-64 | a mask selecting every bit of the range gives the unmasked comparison |
| SimpleBitTestPredicates.EvaluateWithBitfield | AQAppStateMachine/AQSimpleBitTestPredicate.h:12-26 | YES exactly when the bit at the index equals the value |
| SimpleBitTestPredicates.AgreesWithFactory | AQAppStateMachine/AQSimpleBitTestPredicate.h:21-26 | the class computes what `predicateForMatchingBitValue:atIndex:` does |
| SimpleBitTestPredicates.OnlyIndexMatters | AQAppStateMachine/AQSimpleBitTestPredicate.h:12-13 | no bit other than the one at the index affects the result |
| BitRangeMatchPredicates.EvaluateWithBitfield | AQAppStateMachine/AQBitRangeMatchPredicate.h:11-25 | asks `bitsInRange:matchBits:` and answers whether the range, read as an integer, equals the value's low bits |
| BitRangeMatchPredicates.AgreesWithFactory | AQAppStateMachine/AQBitRangeMatchPredicate.h:20-25 | the class computes what `predicateForMatchingAllBits:inRange:` does |
| BitRangeMatchPredicates.OnlyRangeMatters | AQAppStateMachine/AQBitRangeMatchPredicate.h:11-13 | no bit outside the range affects the result |
| EqualityDescriptors.HoldsBitwise | AQAppStateMachine/AQStateMaskedEqualityMatchingDescriptor.h:49-59 | a triple holds exactly when every bit its mask selects (every bit, for NSNull) of the range's copy equals the value's bit |
| EqualityDescriptors.AllHold | AQAppStateMachine/AQStateMaskedEqualityMatchingDescriptor.h:61-66 | the conjunction holds exactly when every triple holds |
| EqualityDescriptors.MatchesBitwise | AQAppStateMachine/AQStateMaskedEqualityMatchingDescriptor.h:61-66 | `matchesBitfield:` holds exactly when every selected bit of every range equals its value's bit |
| EqualityDescriptors.PartialMatchRefused | AQAppStateMachine/AQStateMaskedEqualityMatchingDescriptor.h:61-66 | one failing triple makes the descriptor refuse |
| EqualityDescriptors.InitWithRangesMasksValues | AQAppStateMachine/AQStateMaskedEqualityMatchingDescriptor.h:49-59 | fails exactly when the masks or values list has another length than the ranges; otherwise triple `k` is range `k`, mask `k`, value `k` over the masked descriptor |
| EqualityDescriptors.InitMatches | AQAppStateMachine/AQStateMaskedEqualityMatchingDescriptor.h:49-66 | the built descriptor matches exactly when every range agrees with its value on the bits its mask selects |
| EqualityDescriptors.InitWithRangeMatchingValue | AQAppStateMachine/AQStateMaskedEqualityMatchingDescriptor.h:80-86 | one unmasked triple over the descriptor `initWithRange:` builds |
| EqualityDescriptors.SingleValueMatches | AQAppStateMachine/AQStateMaskedEqualityMatchingDescriptor.h:80-86 | matches exactly when the range's zero-based copy equals the value |
| EqualityDescriptors.SingleValueBitwise | AQAppStateMachine/AQStateMaskedEqualityMatchingDescriptor.h:80-86 | matches exactly when every bit of the copy equals the value's bit |
| EqualityDescriptors.InitWithRangeMatchingValueWithMask | AQAppStateMachine/AQStateMaskedEqualityMatchingDescriptor.h:104-111 | one triple over the masked descriptor; a nil mask compares the whole range |
| EqualityDescriptors.SingleMaskedValueMatches | AQAppStateMachine/AQStateMaskedEqualityMatchingDescriptor.h:104-111 | matches exactly when the copy and the value are equal once both are masked |
| EqualityDescriptors.InitWith32BitValue | AQAppStateMachine/AQStateMaskedEqualityMatchingDescriptor.h:88-94 | one unmasked triple whose value is the 32-bit word as a bitfield |
| EqualityDescriptors.InitWith64BitValue | AQAppStateMachine/AQStateMaskedEqualityMatchingDescriptor.h:96-102 | as the 32-bit form, 64 bits wide |
| EqualityDescriptors.WordValueMatches | AQAppStateMachine/AQStateMaskedEqualityMatchingDescriptor.h:88-102 | for a range no wider than the word, matches exactly when the range read as an integer equals the value |
| EqualityDescriptors.Value32Matches | AQAppStateMachine/AQStateMaskedEqualityMatchingDescriptor.h:88-94 | the 32-bit form matches exactly when the range holds the value |
| EqualityDescriptors.Value64Matches | AQAppStateMachine/AQStateMaskedEqualityMatchingDescriptor.h:96-102 | the 64-bit form matches exactly when the range holds the value |
| EqualityDescriptors.WideValueNeverMatches | AQAppStateMachine/AQStateMaskedEqualityMatchingDescriptor.h:88-94 | a 32-bit value with a set bit at or beyond the range's length makes the descriptor match no bitfield |
| EqualityDescriptors.ZeroValueMatches | AQAppStateMachine/AQStateMaskedEqualityMatchingDescriptor.h:88-94 | a zero value is accepted and matches exactly when every bit of the range is clear |
| EqualityDescriptors.InitWith32BitValueMasked | AQAppStateMachine/AQStateMaskedEqualityMatchingDescriptor.h:113-120 | builds the masked single-range descriptor watching the indices the 32-bit mask selects, with the given id, and one triple whose value and mask are the 32-bit words as bitfields |
| EqualityDescriptors.InitWith64BitValueMasked | AQAppStateMachine/AQStateMaskedEqualityMatchingDescriptor.h:122-129 | as the 32-bit form, 64 bits wide: the descriptor watches the indices the 64-bit mask selects, with the given id, and holds the one masked triple |
| EqualityDescriptors.MaskedWordMatches | AQAppStateMachine/AQStateMaskedEqualityMatchingDescriptor.h:113-129 | for a range no wider than the word, matches exactly when `(range & mask) == (value & mask)` |
| EqualityDescriptors.Masked32Matches | AQAppStateMachine/AQStateMaskedEqualityMatchingDescriptor.h:113-120 | the 32-bit masked form matches exactly when `(range & mask) == (value & mask)` |
| EqualityDescriptors.Masked64Matches | AQAppStateMachine/AQStateMaskedEqualityMatchingDescriptor.h:122-129 | the 64-bit masked form matches exactly when `(range & mask) == (value & mask)` |
| EqualityDescriptors.Compare | AQAppStateMachine/AQStateMaskedEqualityMatchingDescriptor.h:68-73 | NSOrderedSame exactly when the full ranges and identifiers are equal |
| EqualityDescriptors.CompareOrder | AQAppStateMachine/AQStateMaskedEqualityMatchingDescriptor.h:68-73 | a descriptor compares NSOrderedSame with itself, and exchanging the operands flips the result |

## Left out

- NSCoding, NSCopying and NSMutableCopying, and the `bits` NSData view of a bitfield (`AQBitfield.h:14,29`): the headers do not declare the byte layout of `bits` or of the archived form.
- `bitfieldWithSize:` is the same as the constructor and is not modelled separately.
- Big-endian byte conversion in the integer predicates: it is host representation only. Values are naturals compared bit by bit.
- The `NSPredicate` machinery (`evaluateWithObject:`): only the boolean each predicate computes is modelled.
- The runtime swap of the system enumeration methods and the SDK-version guards (`AQRangeMethods.h:13-18`): platform plumbing. Only the `aq_` implementations are modelled.
- The AQAppStateMachine singleton, its named ranges and its serial dispatch queue: they concern process-wide coordination and concurrency.
- The sorted-dictionary container: it is unrelated to the bit-state engine.
- Executing blocks: notifiers are handles, and stop decisions are functions of the call number and range.
- UUID strings: an identifier is a natural number from a counter.
- Overflow of `location + length` past the 64-bit range: NSRange fields are unbounded naturals.
- Bitfields.Bitfield.constructor: sizes above NSNotFound are excluded by a precondition, because the index domain ends there.
- Bitfields.Bitfield.SetBitsInRange: requires the range to end within NSNotFound; the header does not say what happens to a range ending past NSNotFound. The same holds for `SetBit`, `FlipBitsInRange` and `FlipBitAtIndex`.
- Bitfields.Bitfield.SetCount: shrinking `count` discards the bits beyond it. The header does not say what happens to them.
- NotifyingBitfields.NotifyingBitfield: assigning `count` fires no notifiers. Registry entries are plain (range, notifier) pairs; the header registers only blocks, not descriptors.
- EqualityDescriptors.InitWithRangesMasksValues: a nil values array is not modelled. Every range has an expected value.
- EqualityDescriptors.InitWith32BitValue: the value is compared as a full 32-bit bitfield with the range's zero-based copy, without truncating it to the range's length. For a range wider than 32 bits, the bits beyond 32 must be clear. For a range narrower than 32 bits, a value bit at or beyond the range's length makes the descriptor never match (`WideValueNeverMatches`: the value 0x1F over a 4-bit range matches nothing), whereas `bitsInRange:matchBits:` and the integer predicates compare only the low `range.length` bits. The same holds for the 64-bit form, and for the masked forms wherever the mask selects such a bit.
- BitfieldPredicates.BitsMaskedMeaning: exactly `range.length` bits of the value and the mask are compared. The predicate's comment speaks of least-significant bytes compared byte by byte (`AQBitfieldPredicates.h:54-56`); the model reads "bytes" as bits, following `bitsInRange:matchBits:` ("least-significant bits of 'bits'", `AQBitfield.h:42`). A byte comparison would differ: for a 4-bit range and the value 0x1F it would see bit 4 of the value, which the model drops. The limit "range <= sizeof(NSUInteger)" is read as at most 64 bits.
- BitfieldPredicates.AllBitsMeaning: the same reading as `BitsMaskedMeaning` (`AQBitfieldPredicates.h:29-31`): exactly `range.length` bits of the value are compared, "bytes" is read as bits, and the range is at most 64 bits wide.
- EnumerateRangesWithOptions: of the NSEnumerationOptions only NSEnumerationReverse is modelled, as a `reverse` flag. NSEnumerationConcurrent is dropped: the model always calls the block sequentially in one fixed order and makes no call after `stop` is set, which the header does not promise for a concurrent enumeration.
- EnumerateRangesInRange: takes the same `reverse` flag in place of NSEnumerationOptions, so the concurrent option is dropped here too, with the same consequences for order and stopping.
- StateMatchingDescriptors.FullRange: for a masked descriptor the full range spans the checked indices. It therefore covers every watched index but not necessarily every range given, because the header does not say which is meant. An empty descriptor's full range is `{NSNotFound, 0}`.
- StateMatchingDescriptors.InitWith32BitMask: mask bits beyond the range's length select nothing. The header does not say whether such a mask is an error. The NSUInteger `mask` parameter (`AQStateMaskMatchingDescriptor.h:98`) is read as a 32-bit word, as the method's name says, so masks of 2^32 and above are excluded by a precondition.
