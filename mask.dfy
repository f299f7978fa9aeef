/**
 * The mask interpreter: `PrintMask` in main.go counts the logical processors
 * named by a 64-bit affinity mask (`uintptr` on amd64), one bit per processor
 * of a processor group.
 *
 * A mask is a `uint64`, an integer below 2^64, and the Go test
 * `mask&(1<<i) != 0` is `Bit(mask, i)`: bit i is the lowest bit of the mask
 * shifted right by i places, each shift a halving.
 */
module Mask {

  const TwoTo64: nat := 0x1_0000_0000_0000_0000
  /** Width of a mask: PrintMask inspects positions 0 .. 63. */
  const MaskBits: nat := 64

  type uint64 = x: int | 0 <= x < TwoTo64

  function Pow2(n: nat): (r: nat)
    ensures r >= 1
  {
    if n == 0 then 1 else 2 * Pow2(n - 1)
  }

  /** `mask & (1 << i) != 0`, i.e. `(mask >> i) & 1 == 1` */
  predicate Bit(mask: nat, i: nat) {
    if i == 0 then mask % 2 == 1 else Bit(mask / 2, i - 1)
  }

  /** Multiplying by d keeps a gap of at least d between different quotients. */
  lemma {:induction false} MulGap(d: nat, a: nat, b: nat)
    requires a < b
    ensures d * a + d <= d * b
    decreases b - a
  {
    if a + 1 < b {
      MulGap(d, a, b - 1);
      assert d * (b - 1) + d == d * b;
    } else {
      assert d * a + d == d * b;
    }
  }

  /** The quotient is the one q with m == d * q + r and 0 <= r < d. */
  lemma DivUnique(m: nat, d: nat, q: nat, r: nat)
    requires 0 <= r < d && m == d * q + r
    ensures m / d == q
  {
    var q', r' := m / d, m % d;
    assert m == d * q' + r' && 0 <= r' < d;
    if q' < q {
      MulGap(d, q', q);
    } else if q < q' {
      MulGap(d, q, q');
    }
  }

  /** Halving, then dividing by p, is dividing by 2 * p. */
  lemma DivDiv(m: nat, p: nat)
    requires p > 0
    ensures m / 2 / p == m / (2 * p)
  {
    var q, r := m / (2 * p), m % (2 * p);
    assert m == 2 * p * q + r;
    assert r == 2 * (r / 2) + r % 2;
    assert m == 2 * (p * q + r / 2) + r % 2;
    DivUnique(m, 2, p * q + r / 2, r % 2);
    DivUnique(m / 2, p, q, r / 2);
  }

  /** Bit i of the mask is digit i of its binary expansion: `(mask >> i) & 1 == 1`. */
  lemma {:induction false} BitIsDigit(mask: nat, i: nat)
    ensures Bit(mask, i) <==> (mask / Pow2(i)) % 2 == 1
  {
    if i > 0 {
      BitIsDigit(mask / 2, i - 1);
      DivDiv(mask, Pow2(i - 1));
    }
  }

  /** Number of set bits among positions 0 .. n-1. */
  function PopCountBelow(mask: nat, n: nat): (r: nat)
    ensures r <= n
  {
    if n == 0 then 0 else PopCountBelow(mask, n - 1) + (if Bit(mask, n - 1) then 1 else 0)
  }

  /** The number of logical processors a mask names. */
  function PopCount(mask: nat): (r: nat)
    ensures r <= MaskBits
  {
    PopCountBelow(mask, MaskBits)
  }

  /**
   * PrintMask (main.go:149-158): the loop over positions 0 .. 63 that counts
   * the set bits. The line it prints per set bit is console output and is not
   * modelled; the count it returns is.
   */
  method PrintMask(mask: uint64) returns (count: nat)
    ensures count == |SetBits(mask)|
    ensures count == PopCount(mask)
    ensures count <= MaskBits
  {
    count := 0;
    var i := 0;
    while i < MaskBits
      invariant 0 <= i <= MaskBits
      invariant count == PopCountBelow(mask, i)
    {
      if Bit(mask, i) {
        count := count + 1;
      }
      i := i + 1;
    }
    PopCountIsCardinality(mask);
  }

  /** The set of logical processors (bit positions) a mask names. */
  ghost function SetBitsBelow(mask: nat, n: nat): set<nat> {
    set i: nat | i < n && Bit(mask, i)
  }

  ghost function SetBits(mask: nat): set<nat> {
    SetBitsBelow(mask, MaskBits)
  }

  lemma {:induction false} PopCountBelowIsCardinality(mask: nat, n: nat)
    ensures PopCountBelow(mask, n) == |SetBitsBelow(mask, n)|
  {
    if n > 0 {
      PopCountBelowIsCardinality(mask, n - 1);
      if Bit(mask, n - 1) {
        assert SetBitsBelow(mask, n) == SetBitsBelow(mask, n - 1) + {n - 1};
      } else {
        assert SetBitsBelow(mask, n) == SetBitsBelow(mask, n - 1);
      }
    } else {
      assert SetBitsBelow(mask, 0) == {};
    }
  }

  /** The count is the number of distinct set positions: no position is counted twice. */
  lemma PopCountIsCardinality(mask: nat)
    ensures PopCount(mask) == |SetBits(mask)|
  {
    PopCountBelowIsCardinality(mask, MaskBits);
  }

  /** The expansion of a mask: the ascending sequence of its set bit positions below n. */
  function PositionsBelow(mask: nat, n: nat): (ps: seq<nat>)
    ensures |ps| == PopCountBelow(mask, n)
    ensures forall k :: 0 <= k < |ps| ==> ps[k] < n && Bit(mask, ps[k])
  {
    if n == 0 then []
    else PositionsBelow(mask, n - 1) + (if Bit(mask, n - 1) then [n - 1] else [])
  }

  /** The expansion lists the set positions below n in strictly ascending order, and misses none. */
  lemma {:induction false} PositionsBelowExact(mask: nat, n: nat)
    ensures forall k, l :: 0 <= k < l < |PositionsBelow(mask, n)| ==> PositionsBelow(mask, n)[k] < PositionsBelow(mask, n)[l]
    ensures forall i :: 0 <= i < n && Bit(mask, i) ==> i in PositionsBelow(mask, n)
  {
    if n > 0 {
      PositionsBelowExact(mask, n - 1);
      var ps := PositionsBelow(mask, n - 1);
      if Bit(mask, n - 1) {
        var qs := ps + [n - 1];
        assert PositionsBelow(mask, n) == qs;
        forall k, l | 0 <= k < l < |qs|
          ensures qs[k] < qs[l]
        {
          if l == |ps| {
            assert qs[k] == ps[k];
          }
        }
        forall i | 0 <= i < n && Bit(mask, i)
          ensures i in qs
        {
          if i < n - 1 {
            assert i in ps;
          } else {
            assert qs[|ps|] == i;
          }
        }
      } else {
        assert PositionsBelow(mask, n) == ps + [] == ps;
      }
    }
  }

  /** `expand(mask)`: the logical processors of one group, in ascending order. */
  function Positions(mask: nat): (ps: seq<nat>)
    ensures |ps| == PopCount(mask)
    ensures forall k :: 0 <= k < |ps| ==> ps[k] < MaskBits && Bit(mask, ps[k])
  {
    PositionsBelow(mask, MaskBits)
  }

  /** `expand(mask)` is ascending and names every set position of the mask. */
  lemma PositionsExact(mask: nat)
    ensures forall k, l :: 0 <= k < l < |Positions(mask)| ==> Positions(mask)[k] < Positions(mask)[l]
    ensures forall i :: 0 <= i < MaskBits && Bit(mask, i) <==> i in Positions(mask)
  {
    PositionsBelowExact(mask, MaskBits);
  }

  /** The mask with exactly the bits at the given positions set (for distinct positions). */
  function FromPositions(ps: seq<nat>): nat {
    if ps == [] then 0 else FromPositions(ps[..|ps| - 1]) + Pow2(ps[|ps| - 1])
  }

  /**
   * The value of the n lowest bits, rebuilt by halving: the mask modulo 2^n,
   * written without division by a power of two.
   */
  function Low(mask: nat, n: nat): nat {
    if n == 0 then 0 else mask % 2 + 2 * Low(mask / 2, n - 1)
  }

  lemma {:induction false} LowStep(mask: nat, n: nat)
    ensures Low(mask, n + 1) == Low(mask, n) + (if Bit(mask, n) then Pow2(n) else 0)
  {
    if n > 0 {
      LowStep(mask / 2, n - 1);
    }
  }

  lemma {:induction false} LowOfNarrow(mask: nat, n: nat)
    requires mask < Pow2(n)
    ensures Low(mask, n) == mask
  {
    if n > 0 {
      LowOfNarrow(mask / 2, n - 1);
    }
  }

  lemma {:induction false} FromPositionsBelow(mask: nat, n: nat)
    ensures FromPositions(PositionsBelow(mask, n)) == Low(mask, n)
  {
    if n > 0 {
      FromPositionsBelow(mask, n - 1);
      LowStep(mask, n - 1);
      var ps := PositionsBelow(mask, n - 1);
      if Bit(mask, n - 1) {
        var qs := ps + [n - 1];
        assert PositionsBelow(mask, n) == qs;
        assert qs[..|qs| - 1] == ps && qs[|qs| - 1] == n - 1;
        assert FromPositions(qs) == FromPositions(ps) + Pow2(n - 1);
      } else {
        assert PositionsBelow(mask, n) == ps + [] == ps;
      }
    }
  }

  /**
   * Round trip of the expansion: setting exactly the returned positions
   * rebuilds the mask, for every 64-bit mask, 0 and all-ones included.
   */
  lemma PositionsRoundTrip(mask: uint64)
    ensures FromPositions(Positions(mask)) == mask
  {
    FromPositionsBelow(mask, MaskBits);
    Pow2Value64();
    LowOfNarrow(mask, MaskBits);
  }

  lemma Pow2Value16()
    ensures Pow2(16) == 0x1_0000
  {
    assert Pow2(4) == 16;
    Pow2Add(4, 4);
    Pow2Add(8, 8);
  }

  lemma Pow2Value32()
    ensures Pow2(32) == 0x1_0000_0000
  {
    Pow2Value16();
    Pow2Add(16, 16);
  }

  lemma Pow2Value64()
    ensures Pow2(64) == TwoTo64
  {
    Pow2Value32();
    Pow2Add(32, 32);
  }

  lemma {:induction false} Pow2Add(a: nat, b: nat)
    ensures Pow2(a + b) == Pow2(a) * Pow2(b)
  {
    if b > 0 {
      Pow2Add(a, b - 1);
      assert Pow2(a + b) == 2 * Pow2(a + b - 1);
    }
  }

  /** Positions at or above n are clear in a mask below 2^n. */
  lemma {:induction false} HighBitsClear(mask: nat, n: nat, i: nat)
    requires mask < Pow2(n) && n <= i
    ensures !Bit(mask, i)
  {
    if n > 0 {
      HighBitsClear(mask / 2, n - 1, i - 1);
    } else if i > 0 {
      HighBitsClear(mask / 2, 0, i - 1);
    }
  }

  /** A mask below 2^n has all its set bits below position n. */
  lemma {:induction false} PopCountNarrow(mask: nat, n: nat, w: nat)
    requires mask < Pow2(n) && n <= w
    ensures PopCountBelow(mask, w) == PopCountBelow(mask, n)
  {
    if n < w {
      PopCountNarrow(mask, n, w - 1);
      HighBitsClear(mask, n, w - 1);
    }
  }

  /** A mask is zero exactly when it names no logical processor. */
  lemma PopCountZero(mask: uint64)
    ensures PopCount(mask) == 0 <==> mask == 0
  {
    if PopCount(mask) == 0 {
      PositionsRoundTrip(mask);
    } else {
      var ps := Positions(mask);
      assert Bit(mask, ps[0]);
      if mask == 0 {
        HighBitsClear(mask, 0, ps[0]);
      }
    }
  }

  /** Every position below k is set in 2^k - 1. */
  lemma {:induction false} LowOnesBit(k: nat, i: nat)
    requires i < k
    ensures Bit(Pow2(k) - 1, i)
  {
    if i > 0 {
      assert (Pow2(k) - 1) / 2 == Pow2(k - 1) - 1;
      LowOnesBit(k - 1, i - 1);
    }
  }

  lemma {:induction false} LowOnesCountBelow(k: nat, n: nat)
    requires n <= k
    ensures PopCountBelow(Pow2(k) - 1, n) == n
  {
    if n > 0 {
      LowOnesCountBelow(k, n - 1);
      LowOnesBit(k, n - 1);
    }
  }

  /** A mask of the k lowest positions names k logical processors. */
  lemma LowOnesPopCount(k: nat)
    requires k <= MaskBits
    ensures PopCount(Pow2(k) - 1) == k
  {
    LowOnesCountBelow(k, k);
    PopCountNarrow(Pow2(k) - 1, k, MaskBits);
  }

  /** The all-ones mask names all 64 logical processors of its group. */
  lemma PopCountAllOnes()
    ensures PopCount(TwoTo64 - 1) == 64
  {
    Pow2Value64();
    LowOnesPopCount(64);
  }
}
