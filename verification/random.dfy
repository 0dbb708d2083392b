/**
 `randomNumber` of src/emulator.c: a uniformly distributed integer between
 two bounds by rejection sampling. Each call of the C library's `rand()` is
 taken from the input sequence `rolls`, whose values lie in
 `[0, RAND_MAX]`; when the sequence runs out before a roll is accepted the
 model reports that no result was produced yet.
 */
module Random {
  import opened Wrappers

  /** The range of the C `int` parameters and locals. */
  const IntMin: int := -0x8000_0000
  const IntMax: int := 0x7FFF_FFFF

  predicate IsInt(x: int) {
    IntMin <= x <= IntMax
  }

  /** Rolls are what `rand()` can return. */
  predicate Rolls(rolls: seq<int>, randMax: int) {
    forall i :: 0 <= i < |rolls| ==> 0 <= rolls[i] <= randMax
  }

  /** The smaller and the larger bound, whichever order they come in. */
  function Lo(a: int, b: int): int { if a <= b then a else b }
  function Hi(a: int, b: int): int { if a <= b then b else a }

  /** `max - min + 1` after the swap. */
  function Range(a: int, b: int): (n: int)
    ensures n >= 1
  {
    Hi(a, b) - Lo(a, b) + 1
  }

  /** Rolls below `RAND_MAX / range * range` are accepted: the largest multiple of the range not above `RAND_MAX`. */
  function Threshold(range: int, randMax: int): (t: int)
    requires range >= 1 && randMax >= 0
    ensures 0 <= t <= randMax && t % range == 0
    ensures randMax < range ==> t == 0
    ensures range <= randMax ==> range <= t
  {
    DivisionFacts(randMax, range);
    randMax / range * range
  }

  lemma MulAtLeast(a: int, r: int)
    requires a >= 1 && r >= 1
    ensures a * r >= r
  {
    assert a * r == (a - 1) * r + r;
    assert (a - 1) * r >= 0;
  }

  /** Euclidean division is determined by its quotient-remainder decomposition. */
  lemma DivModUnique(x: int, r: int, k: int, m: int)
    requires r >= 1 && 0 <= m < r && x == k * r + m
    ensures x / r == k && x % r == m
  {
    var k', m' := x / r, x % r;
    assert x == k' * r + m';
    assert (k - k') * r == m' - m;
    if k > k' {
      MulAtLeast(k - k', r);
    } else if k < k' {
      MulAtLeast(k' - k, r);
    }
  }

  lemma DivisionFacts(x: int, r: int)
    requires x >= 0 && r >= 1
    ensures 0 <= x / r * r <= x
    ensures (x / r * r) % r == 0
    ensures x < r ==> x / r == 0
    ensures r <= x ==> r <= x / r * r
  {
    var q := x / r;
    assert x == q * r + x % r;
    DivModUnique(q * r, r, q, 0);
    if x < r {
      DivModUnique(x, r, 0, x);
    }
    if r <= x {
      MulAtLeast(q, r);
    }
  }

  /**
   `randomNumber(min, max)`: equal bounds are returned at once; otherwise
   the bounds are put in order (the C code swaps them with three XORs, which
   is a plain swap because they differ), rolls at or above the threshold are
   rejected, and the first accepted roll is reduced modulo the range and
   offset by the lower bound. `used` is the number of rolls consumed.
   */
  method RandomNumber(min: int, max: int, randMax: int, rolls: seq<int>) returns (r: Option<int>, used: nat)
    requires IsInt(min) && IsInt(max) && IsInt(Range(min, max))
    requires 0 < randMax <= IntMax
    requires Rolls(rolls, randMax)
    ensures used <= |rolls|
    ensures r.Some? ==> Lo(min, max) <= r.value <= Hi(min, max)
    ensures min == max ==> r == Some(min) && used == 0
    ensures min != max ==>
      (r.Some? <==> exists i :: 0 <= i < |rolls| && rolls[i] < Threshold(Range(min, max), randMax))
    ensures min != max && r.Some? ==>
      && 0 < used
      && rolls[used - 1] < Threshold(Range(min, max), randMax)
      && (forall j :: 0 <= j < used - 1 ==> rolls[j] >= Threshold(Range(min, max), randMax))
      && r.value == rolls[used - 1] % Range(min, max) + Lo(min, max)
    ensures r.None? ==> used == |rolls|
  {
    if min == max {
      return Some(min), 0;
    }
    var lo, hi := min, max;
    if lo > hi {
      lo, hi := hi, lo;
    }
    var range := hi - lo + 1;
    assert range == Range(min, max);
    var threshold := randMax / range * range;
    used := 0;
    while used < |rolls|
      invariant 0 <= used <= |rolls|
      invariant forall j :: 0 <= j < used ==> rolls[j] >= threshold
    {
      var x := rolls[used];
      used := used + 1;
      if x < threshold {
        return Some(x % range + lo), used;
      }
    }
    return None, used;
  }

  /**
   The loop can only stop if the range is at most `RAND_MAX`: a wider range
   makes the threshold zero, every roll is rejected and no supply of rolls
   ever produces a result.
   */
  lemma NoResultWhenRangeTooWide(min: int, max: int, randMax: int, rolls: seq<int>)
    requires min != max && randMax >= 0 && randMax < Range(min, max)
    requires Rolls(rolls, randMax)
    ensures forall i :: 0 <= i < |rolls| ==> rolls[i] >= Threshold(Range(min, max), randMax)
  {
  }

  /** Number of `x` in `[0, n)` with `x % range == t`. */
  function Hits(n: nat, range: int, t: int): nat
    requires range >= 1
  {
    if n == 0 then 0 else Hits(n - 1, range, t) + (if (n - 1) % range == t then 1 else 0)
  }

  /** Within one block of `range` values after a multiple of the range, residue `t` occurs once. */
  lemma {:induction false} HitsInBlock(base: nat, range: int, t: int, i: nat)
    requires range >= 1 && 0 <= t < range && i <= range
    requires base % range == 0
    ensures Hits(base + i, range, t) == Hits(base, range, t) + (if t < i then 1 else 0)
    decreases i
  {
    if i > 0 {
      HitsInBlock(base, range, t, i - 1);
      ModOfBlock(base, range, i - 1);
    }
  }

  lemma ModOfBlock(base: nat, range: int, j: nat)
    requires range >= 1 && j < range && base % range == 0
    ensures (base + j) % range == j
  {
    assert base == base / range * range;
    DivModUnique(base + j, range, base / range, j);
  }

  /**
   Each value of the range has exactly `RAND_MAX / range` accepted rolls that
   map to it: the accepted rolls divide evenly over the range.
   */
  lemma {:induction false} EvenlyDivided(q: nat, range: int, t: int)
    requires range >= 1 && 0 <= t < range
    ensures Hits(q * range, range, t) == q
    decreases q
  {
    if q > 0 {
      EvenlyDivided(q - 1, range, t);
      var base := (q - 1) * range;
      DivModUnique(base, range, q - 1, 0);
      HitsInBlock(base, range, t, range);
      assert base + range == q * range;
    }
  }

  /** Applied to `randomNumber`: every result value is reached by the same number of accepted rolls. */
  lemma AcceptedRollsUniform(min: int, max: int, randMax: int, value: int)
    requires randMax >= 0 && Lo(min, max) <= value <= Hi(min, max)
    ensures Hits(Threshold(Range(min, max), randMax), Range(min, max), value - Lo(min, max))
         == randMax / Range(min, max)
  {
    EvenlyDivided(randMax / Range(min, max), Range(min, max), value - Lo(min, max));
  }
}
