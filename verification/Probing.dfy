/**
 The double-hashing probe sequence shared by the name tables and by the table of
 namespace-qualified attribute names: an odd step walks a table whose size is a
 power of two without meeting a slot twice.
 */
module Probing {

  function Pow2(n: nat): (r: nat)
    ensures r > 0
  {
    if n == 0 then 1 else 2 * Pow2(n - 1)
  }

  /** `h & (2^n - 1)` */
  function LowBits(h: nat, n: nat): (r: nat)
    ensures r < Pow2(n)
    ensures r <= h
  {
    if n == 0 then 0 else h % 2 + 2 * LowBits(h / 2, n - 1)
  }

  /** `h >> n` */
  function ShiftRight(h: nat, n: nat): nat {
    if n == 0 then h else ShiftRight(h / 2, n - 1)
  }

  lemma OddStep(second: nat, power: nat)
    requires power >= 3 && second < Pow2(power - 2)
    ensures var odd := if second % 2 == 0 then second + 1 else second;
            odd % 256 % 2 == 1 && 0 < odd % 256 < Pow2(power)
  {
    assert Pow2(power) == 2 * Pow2(power - 1) == 4 * Pow2(power - 2);
    var odd := if second % 2 == 0 then second + 1 else second;
    ByteIsOdd(odd);
  }

  lemma ByteIsOdd(n: nat)
    requires n % 2 == 1
    ensures n % 256 % 2 == 1 && n % 256 <= n
  {
    var k := n / 2 - 128 * (n / 256);
    assert n % 256 == 2 * k + 1;
  }

  /** The step for hash `h`: the bits of `h` that the index discarded, limited to a
      quarter of the table, made odd and then cut to one byte. */
  function ProbeStep(h: nat, power: nat): (step: nat)
    requires power >= 3
    ensures step % 2 == 1
    ensures 0 < step < Pow2(power)
  {
    var second := LowBits(ShiftRight(h - LowBits(h, power), power - 1), power - 2);
    var odd := if second % 2 == 0 then second + 1 else second;
    OddStep(second, power);
    odd % 256
  }

  function NextSlot(i: nat, step: nat, size: nat): (j: nat)
    requires i < size && step < size
    ensures j < size
  {
    if i < step then i + (size - step) else i - step
  }

  /** The slot looked at after `n` collisions. */
  function Slot(first: nat, step: nat, size: nat, n: nat): (i: nat)
    requires first < size && step < size
    ensures i < size
  {
    if n == 0 then first else NextSlot(Slot(first, step, size, n - 1), step, size)
  }

  /** Slot `n` is `first - n * step` up to a multiple of the size. */
  lemma {:induction false} SlotCongruence(first: nat, step: nat, size: nat, n: nat) returns (wraps: nat)
    requires first < size && step < size
    ensures Slot(first, step, size, n) == first - n * step + wraps * size
  {
    if n == 0 {
      wraps := 0;
    } else {
      wraps := SlotCongruence(first, step, size, n - 1);
      var i := Slot(first, step, size, n - 1);
      assert n * step == (n - 1) * step + step;
      if i < step {
        assert (wraps + 1) * size == wraps * size + size;
        wraps := wraps + 1;
      }
    }
  }

  /** An odd factor can be cancelled modulo a power of two. */
  lemma {:induction false} OddFactorCancels(k: nat, odd: nat, q: nat, p: nat) returns (r: nat)
    requires odd % 2 == 1
    requires k * odd == q * Pow2(p)
    ensures k == r * Pow2(p)
  {
    if p == 0 {
      r := k;
    } else {
      var s := odd / 2;
      assert k * odd == 2 * (k * s) + k by {
        assert odd == 2 * s + 1;
      }
      assert q * Pow2(p) == 2 * (q * Pow2(p - 1));
      var j := q * Pow2(p - 1) - k * s;
      assert k == 2 * j;
      assert j * odd == q * Pow2(p - 1) by {
        assert 2 * (j * odd) == k * odd;
      }
      r := OddFactorCancels(j, odd, q, p - 1);
      assert r * Pow2(p) == 2 * (r * Pow2(p - 1));
    }
  }

  /** Two probes that meet are a multiple of the table size apart. */
  lemma MeetingProbes(first: nat, step: nat, power: nat, a: nat, b: nat) returns (r: nat)
    requires first < Pow2(power) && step < Pow2(power) && step % 2 == 1
    requires a <= b
    requires Slot(first, step, Pow2(power), a) == Slot(first, step, Pow2(power), b)
    ensures b - a == r * Pow2(power)
  {
    var size := Pow2(power);
    var wa := SlotCongruence(first, step, size, a);
    var wb := SlotCongruence(first, step, size, b);
    SameOffset(first, step, size, a, b, wa, wb);
    r := OddFactorCancels(b - a, step, wb - wa, power);
  }

  lemma SameOffset(first: int, step: nat, size: nat, a: nat, b: nat, wa: nat, wb: nat)
    requires size > 0 && a <= b
    requires first - a * step + wa * size == first - b * step + wb * size
    ensures (b - a) * step == (wb - wa) * size
    ensures wb >= wa
  {
    assert (b - a) * step == b * step - a * step >= 0;
    assert (wb - wa) * size == wb * size - wa * size;
  }

  lemma PositiveMultiple(r: nat, size: nat, d: nat)
    requires 0 < d == r * size
    ensures d >= size
  {
  }

  /** The first `Pow2(power)` probes are pairwise different. */
  lemma SlotsAreDistinct(first: nat, step: nat, power: nat, a: nat, b: nat)
    requires first < Pow2(power) && step < Pow2(power) && step % 2 == 1
    requires a < b < Pow2(power)
    ensures Slot(first, step, Pow2(power), a) != Slot(first, step, Pow2(power), b)
  {
    if Slot(first, step, Pow2(power), a) == Slot(first, step, Pow2(power), b) {
      var r := MeetingProbes(first, step, power, a, b);
      PositiveMultiple(r, Pow2(power), b - a);
      assert false;
    }
  }

  /** The slots visited by the first `n` probes. */
  ghost function Visited(first: nat, step: nat, size: nat, n: nat): (s: set<nat>)
    requires first < size && step < size
  {
    set m: nat | m < n :: Slot(first, step, size, m)
  }

  /** So `n` probes visit `n` slots, and a table with a free slot is never walked in full. */
  lemma {:induction false} VisitedCount(first: nat, step: nat, power: nat, n: nat)
    requires first < Pow2(power) && step < Pow2(power) && step % 2 == 1
    requires n <= Pow2(power)
    ensures |Visited(first, step, Pow2(power), n)| == n
  {
    var size := Pow2(power);
    if n > 0 {
      VisitedCount(first, step, power, n - 1);
      var i := Slot(first, step, size, n - 1);
      forall m: nat | m < n - 1 ensures Slot(first, step, size, m) != i {
        SlotsAreDistinct(first, step, power, m, n - 1);
      }
      assert Visited(first, step, size, n) == Visited(first, step, size, n - 1) + {i};
    }
  }

  /** Probing stops: when every one of the `n` slots seen so far is taken, and fewer
      slots are taken than there are, `n` is below the table size. */
  lemma ProbingStops(first: nat, step: nat, power: nat, n: nat, taken: set<nat>)
    requires first < Pow2(power) && step < Pow2(power) && step % 2 == 1
    requires n <= Pow2(power)
    requires |taken| < Pow2(power)
    requires forall m: nat :: m < n ==> Slot(first, step, Pow2(power), m) in taken
    ensures n <= |taken|
  {
    VisitedCount(first, step, power, n);
    var s := Visited(first, step, Pow2(power), n);
    assert s <= taken;
    SubsetSize(s, taken);
  }

  lemma {:induction false} SubsetSize(a: set<nat>, b: set<nat>)
    requires a <= b
    ensures |a| <= |b|
    decreases b
  {
    if a != {} {
      var x :| x in a;
      SubsetSize(a - {x}, b - {x});
    }
  }

  /** The slot that the probe sequence of hash `h` reaches after `n` collisions. */
  function Chain(h: nat, power: nat, n: nat): (i: nat)
    requires power >= 3
    ensures i < Pow2(power)
  {
    Slot(LowBits(h, power), ProbeStep(h, power), Pow2(power), n)
  }

  ghost predicate TakenUpTo(taken: set<nat>, h: nat, power: nat, n: nat)
    requires power >= 3
  {
    forall m: nat :: m < n ==> Chain(h, power, m) in taken
  }

  /** Slot `i` is where the probe sequence of hash `h` comes without passing a free slot. */
  ghost predicate Reached(taken: set<nat>, h: nat, power: nat, i: nat)
    requires power >= 3
  {
    exists n: nat :: Chain(h, power, n) == i && TakenUpTo(taken, h, power, n)
  }

  /** Walking over taken slots is bounded by their number, as long as some slot is free. */
  lemma WalkIsBounded(taken: set<nat>, h: nat, power: nat, n: nat)
    requires power >= 3
    requires n <= Pow2(power) && |taken| < Pow2(power)
    requires TakenUpTo(taken, h, power, n)
    ensures n <= |taken|
  {
    forall m: nat | m < n ensures Slot(LowBits(h, power), ProbeStep(h, power), Pow2(power), m) in taken {
      assert Chain(h, power, m) in taken;
    }
    ProbingStops(LowBits(h, power), ProbeStep(h, power), power, n, taken);
  }

  lemma ReachedStays(taken: set<nat>, taken': set<nat>, h: nat, power: nat, i: nat)
    requires power >= 3 && taken <= taken'
    requires Reached(taken, h, power, i)
    ensures Reached(taken', h, power, i)
  {
    var n: nat :| Chain(h, power, n) == i && TakenUpTo(taken, h, power, n);
    assert TakenUpTo(taken', h, power, n);
  }
}
