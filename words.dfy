/** NSUInteger values read as bit patterns: bit `j` of a value, its least
    significant `n` bits, and bitwise AND. Values are naturals; the 32- and
    64-bit widths of the source are the bounds `Pow2(32)` and `Pow2(64)`. */
module Words {
  import opened Foundation

  function Pow2(n: nat): (p: nat)
    ensures p >= 1
  {
    if n == 0 then 1 else 2 * Pow2(n - 1)
  }

  /** Bit `j` of `v`, counting from the least significant bit. */
  function NthBit(v: nat, j: nat): Bit {
    if j == 0 then v % 2 else NthBit(v / 2, j - 1)
  }

  /** The least significant `n` bits of `v` (that is, `v` modulo 2^n). */
  function Low(v: nat, n: nat): nat {
    if n == 0 then 0 else v % 2 + 2 * Low(v / 2, n - 1)
  }

  /** Bitwise AND. */
  function And(x: nat, y: nat): nat {
    if x == 0 || y == 0 then 0 else (x % 2) * (y % 2) + 2 * And(x / 2, y / 2)
  }

  /** `v` shifted right by `j` places. */
  function Shr(v: nat, j: nat): nat {
    if j == 0 then v else Shr(v / 2, j - 1)
  }

  /** Shifting right one more place halves the value, and the bit that then
      sits lowest is bit `j`. */
  lemma {:induction false} ShrStep(v: nat, j: nat)
    ensures Shr(v, j + 1) == Shr(v, j) / 2
    ensures NthBit(v, j) == Shr(v, j) % 2
  {
    if j > 0 {
      ShrStep(v / 2, j - 1);
    }
  }

  /** The lowest bit and the rest of a number built from a bit and a
      number above it. */
  lemma Digits(b: nat, y: nat)
    requires b < 2
    ensures (b + 2 * y) % 2 == b && (b + 2 * y) / 2 == y
  {
  }

  lemma {:induction false} ZeroHasNoBits(j: nat)
    ensures NthBit(0, j) == 0
  {
    if j > 0 {
      ZeroHasNoBits(j - 1);
    }
  }

  /** Bit `j` of `x & y` is set exactly when bit `j` is set in both. */
  lemma {:induction false} AndBit(x: nat, y: nat, j: nat)
    ensures NthBit(And(x, y), j) == NthBit(x, j) * NthBit(y, j)
  {
    if x == 0 || y == 0 {
      ZeroHasNoBits(j);
    } else {
      Digits((x % 2) * (y % 2), And(x / 2, y / 2));
      if j > 0 {
        AndBit(x / 2, y / 2, j - 1);
      }
    }
  }

  /** Keeping the low `n` bits keeps bits below `n` and clears the rest. */
  lemma {:induction false} LowBit(v: nat, n: nat, j: nat)
    ensures NthBit(Low(v, n), j) == if j < n then NthBit(v, j) else 0
  {
    if n == 0 {
      ZeroHasNoBits(j);
    } else if j > 0 {
      LowBit(v / 2, n - 1, j - 1);
    }
  }

  lemma {:induction false} LowBound(v: nat, n: nat)
    ensures Low(v, n) < Pow2(n)
  {
    if n > 0 {
      LowBound(v / 2, n - 1);
    }
  }

  /** A value that already fits in `n` bits is its own low `n` bits. */
  lemma {:induction false} LowOfSmall(v: nat, n: nat)
    requires v < Pow2(n)
    ensures Low(v, n) == v
  {
    if n > 0 {
      LowOfSmall(v / 2, n - 1);
    }
  }

  /** Two values agree on their low `n` bits exactly when every one of bits
      0 to n-1 agrees. */
  lemma LowEqual(x: nat, y: nat, n: nat)
    ensures Low(x, n) == Low(y, n) ==> forall j: nat | j < n :: NthBit(x, j) == NthBit(y, j)
    ensures (forall j: nat | j < n :: NthBit(x, j) == NthBit(y, j)) ==> Low(x, n) == Low(y, n)
  {
    if Low(x, n) == Low(y, n) {
      LowEqualBits(x, y, n);
    }
    if forall j: nat | j < n :: NthBit(x, j) == NthBit(y, j) {
      BitsEqualLow(x, y, n);
    }
  }

  lemma {:induction false} LowEqualBits(x: nat, y: nat, n: nat)
    requires Low(x, n) == Low(y, n)
    ensures forall j: nat | j < n :: NthBit(x, j) == NthBit(y, j)
  {
    if n > 0 {
      assert x % 2 == y % 2;
      assert Low(x / 2, n - 1) == Low(y / 2, n - 1);
      LowEqualBits(x / 2, y / 2, n - 1);
      forall j | 0 <= j < n ensures NthBit(x, j) == NthBit(y, j) {
        if j > 0 {
          assert NthBit(x, j) == NthBit(x / 2, j - 1);
          assert NthBit(y, j) == NthBit(y / 2, j - 1);
        }
      }
    }
  }

  lemma {:induction false} BitsEqualLow(x: nat, y: nat, n: nat)
    requires forall j: nat | j < n :: NthBit(x, j) == NthBit(y, j)
    ensures Low(x, n) == Low(y, n)
  {
    if n > 0 {
      assert NthBit(x, 0) == NthBit(y, 0);
      forall j | 0 <= j < n - 1 ensures NthBit(x / 2, j) == NthBit(y / 2, j) {
        assert NthBit(x, j + 1) == NthBit(y, j + 1);
      }
      BitsEqualLow(x / 2, y / 2, n - 1);
    }
  }

  /** A non-zero value that fits in `n` bits has a set bit below `n`. */
  lemma {:induction false} NonZeroHasBit(v: nat, n: nat)
    requires 0 < v < Pow2(n)
    ensures exists j :: 0 <= j < n && NthBit(v, j) == 1
  {
    if v % 2 == 1 {
      assert NthBit(v, 0) == 1;
    } else {
      NonZeroHasBit(v / 2, n - 1);
      var j :| 0 <= j < n - 1 && NthBit(v / 2, j) == 1;
      assert NthBit(v, j + 1) == 1;
    }
  }
  /** Masking with a value that fits in `n` bits gives a value that fits. */
  lemma {:induction false} AndBelow(x: nat, y: nat, n: nat)
    requires y < Pow2(n)
    ensures And(x, y) < Pow2(n)
  {
    if x != 0 && y != 0 {
      AndBelow(x / 2, y / 2, n - 1);
    }
  }

  /** `x & mask == y & mask` exactly when `x` and `y` agree on every bit the
      mask selects. */
  lemma MaskedEqual(x: nat, y: nat, mask: nat, n: nat)
    requires mask < Pow2(n)
    ensures And(x, mask) == And(y, mask) ==>
      forall j: nat | j < n && NthBit(mask, j) == 1 :: NthBit(x, j) == NthBit(y, j)
    ensures (forall j: nat | j < n && NthBit(mask, j) == 1 :: NthBit(x, j) == NthBit(y, j)) ==>
      And(x, mask) == And(y, mask)
  {
    var a := And(x, mask);
    var b := And(y, mask);
    AndBelow(x, mask, n);
    AndBelow(y, mask, n);
    LowOfSmall(a, n);
    LowOfSmall(b, n);
    LowEqual(a, b, n);
    forall j: nat | j < n
      ensures NthBit(a, j) == NthBit(x, j) * NthBit(mask, j)
      ensures NthBit(b, j) == NthBit(y, j) * NthBit(mask, j)
    {
      AndBit(x, mask, j);
      AndBit(y, mask, j);
    }
  }
}
