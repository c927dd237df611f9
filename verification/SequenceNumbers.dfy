/** The SEG_* comparison macros of inc/tpg_tcp.h: TCP sequence numbers are
    32-bit words that wrap, and a comparison is meaningful only between numbers
    that lie within half of the number space of each other. */
module SequenceNumbers {
  import opened Prelude

  const TWO_TO_THE_31 := 0x8000_0000
  const TWO_TO_THE_32 := 0x1_0000_0000

  /** The word that an unbounded stream position is stored as. */
  function Wrap(x: int): u32 {
    x % TWO_TO_THE_32
  }

  predicate SegLT(a: u32, b: u32) {
    || (b < TWO_TO_THE_31 && (a < b || a >= b + TWO_TO_THE_31))
    || (b >= TWO_TO_THE_31 && a < b && a >= b - TWO_TO_THE_31)
  }

  predicate SegLE(a: u32, b: u32) {
    a == b || SegLT(a, b)
  }

  predicate SegGT(a: u32, b: u32) {
    SegLT(b, a)
  }

  predicate SegGE(a: u32, b: u32) {
    SegLE(b, a)
  }

  function SegDiff(a: u32, b: u32): u32 {
    Wrap(a - b)
  }

  /** What the two-case macro computes: b is 1 to 2^31 steps ahead of a. */
  lemma SegLTIsForwardDistance(a: u32, b: u32)
    ensures SegLT(a, b) <==> 1 <= Wrap(b - a) <= TWO_TO_THE_31
  {
    if b >= a {
      assert Wrap(b - a) == b - a;
    } else {
      assert Wrap(b - a) == b - a + TWO_TO_THE_32;
    }
  }

  lemma WrapOfSum(x: int, k: int)
    ensures Wrap(Wrap(x) + k) == Wrap(x + k)
  {
    WrapIsRemainder(x + k, x / TWO_TO_THE_32, Wrap(x) + k);
  }

  lemma WrapOfDifference(x: int, y: int)
    ensures Wrap(Wrap(x) - Wrap(y)) == Wrap(x - y)
  {
    WrapIsRemainder(x - y, x / TWO_TO_THE_32 - y / TWO_TO_THE_32, Wrap(x) - Wrap(y));
  }

  lemma WrapIsRemainder(x: int, q: int, r: int)
    requires x == TWO_TO_THE_32 * q + r
    ensures Wrap(x) == Wrap(r)
  {
    assert (TWO_TO_THE_32 * q + r) % TWO_TO_THE_32 == r % TWO_TO_THE_32;
  }

  /** Adding the same offset to both sides changes no comparison. */
  lemma SegLTIsShiftInvariant(a: u32, b: u32, k: int)
    ensures SegLT(Wrap(a + k), Wrap(b + k)) <==> SegLT(a, b)
  {
    SegLTIsForwardDistance(a, b);
    SegLTIsForwardDistance(Wrap(a + k), Wrap(b + k));
    WrapOfDifference(b + k, a + k);
  }

  /** The macro agrees with the order of the positions behind the words exactly
      when the positions are less than half the space apart, or exactly half
      with b ahead. */
  lemma SegLTAgreesWithOrderIff(x: int, y: int)
    requires -TWO_TO_THE_32 < y - x < TWO_TO_THE_32
    ensures (SegLT(Wrap(x), Wrap(y)) <==> x < y)
       <==> -TWO_TO_THE_31 < y - x <= TWO_TO_THE_31
  {
    SegLTIsForwardDistance(Wrap(x), Wrap(y));
    WrapOfDifference(y, x);
    if y >= x {
      assert Wrap(y - x) == y - x;
    } else {
      assert Wrap(y - x) == y - x + TWO_TO_THE_32;
    }
  }

  /** The form the reassembly uses: inside a span of less than 2^31 every
      comparison of words is the comparison of the positions. */
  lemma WordsCompareAsPositions(x: int, y: int)
    requires -TWO_TO_THE_31 < y - x < TWO_TO_THE_31
    ensures SegLT(Wrap(x), Wrap(y)) <==> x < y
    ensures SegLE(Wrap(x), Wrap(y)) <==> x <= y
    ensures Wrap(x) == Wrap(y) <==> x == y
    ensures x >= y ==> SegDiff(Wrap(x), Wrap(y)) == x - y
  {
    SegLTAgreesWithOrderIff(x, y);
    WrapOfDifference(y, x);
    WrapOfDifference(x, y);
    if y >= x {
      assert Wrap(y - x) == y - x;
    } else {
      assert Wrap(y - x) == y - x + TWO_TO_THE_32;
    }
  }

  lemma WordsEqualIff(x: int, y: int)
    requires -TWO_TO_THE_32 < y - x < TWO_TO_THE_32
    ensures Wrap(x) == Wrap(y) <==> x == y
    ensures x >= y ==> SegDiff(Wrap(x), Wrap(y)) == x - y
  {
    WrapOfDifference(x, y);
    WrapOfDifference(y, x);
    if x >= y {
      assert Wrap(x - y) == x - y;
    } else {
      assert Wrap(y - x) == y - x;
    }
  }
}
