/**
 * The request's generation counter: a 32-bit signed integer advanced by
 * `Interlocked.Increment`, which wraps from `int.MaxValue` to `int.MinValue`.
 */
module Generation {
  const TwoTo32: int := 0x1_0000_0000
  const MinValue: int := -0x8000_0000
  const MaxValue: int := 0x7fff_ffff

  newtype Int32 = x: int | -0x8000_0000 <= x < 0x8000_0000

  /** The 32-bit two's-complement value congruent to `x` modulo 2^32. */
  function Wrap(x: int): (r: Int32)
    ensures (r as int - x) % TwoTo32 == 0
  {
    ((x - MinValue) % TwoTo32 + MinValue) as Int32
  }

  /** `Interlocked.Increment`: one more, wrapping at the top of the range. */
  function Increment(v: Int32): (r: Int32)
    ensures r == Wrap(v as int + 1)
    ensures r != v
  {
    if v as int == MaxValue then MinValue as Int32 else v + 1
  }

  /** The counter after `k` increments. */
  function IncrementN(v: Int32, k: nat): Int32 {
    if k == 0 then v else Increment(IncrementN(v, k - 1))
  }

  lemma WrapStep(x: int)
    ensures Wrap(Wrap(x) as int + 1) == Wrap(x + 1)
  {
    var y := x - MinValue;
    var q, r := y / TwoTo32, y % TwoTo32;
    assert y == q * TwoTo32 + r;
    assert Wrap(x) as int == r + MinValue;
    ModShiftInt(r + 1, q);
    assert (y + 1) % TwoTo32 == (r + 1) % TwoTo32;
  }

  /** `k` increments move the counter by `k` modulo 2^32. */
  lemma {:induction false} IncrementNWraps(v: Int32, k: nat)
    ensures IncrementN(v, k) == Wrap(v as int + k)
  {
    if k == 0 {
      assert Wrap(v as int) == v;
    } else {
      IncrementNWraps(v, k - 1);
      var before := IncrementN(v, k - 1);
      assert before == Wrap(v as int + k - 1);
      assert IncrementN(v, k) == Wrap(before as int + 1);
      WrapStep(v as int + k - 1);
    }
  }

  /** Adding whole multiples of 2^32 does not change a remainder. */
  lemma {:induction false} ModShift(x: int, a: nat)
    ensures (x + a * TwoTo32) % TwoTo32 == x % TwoTo32
    decreases a
  {
    if a > 0 {
      ModShift(x, a - 1);
      assert x + a * TwoTo32 == (x + (a - 1) * TwoTo32) + TwoTo32;
    }
  }

  lemma ModShiftInt(x: int, a: int)
    ensures (x + a * TwoTo32) % TwoTo32 == x % TwoTo32
  {
    if a >= 0 {
      ModShift(x, a);
    } else {
      ModShift(x + a * TwoTo32, -a);
    }
  }

  /** From an offset inside one period, advancing by `k` returns to it iff `k` is a whole number of periods. */
  lemma ReturnsToOffset(d: int, k: nat)
    requires 0 <= d < TwoTo32
    ensures (d + k) % TwoTo32 == d <==> k % TwoTo32 == 0
  {
    var a, b := k / TwoTo32, k % TwoTo32;
    assert k == a * TwoTo32 + b;
    ModShift(d + b, a);
    assert (d + k) % TwoTo32 == (d + b) % TwoTo32;
    if d + b >= TwoTo32 {
      assert (d + b) % TwoTo32 == d + b - TwoTo32;
    }
  }

  /**
   * A generation comes back exactly when the number of increments is a
   * multiple of 2^32: fewer than 2^32 increments always leave a different value.
   */
  lemma GenerationReturns(v: Int32, k: nat)
    ensures IncrementN(v, k) == v <==> k % TwoTo32 == 0
  {
    IncrementNWraps(v, k);
    var d := v as int - MinValue;
    assert Wrap(v as int + k) as int == (d + k) % TwoTo32 + MinValue;
    ReturnsToOffset(d, k);
  }
}
