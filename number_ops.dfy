/**
 * Rust `i64` arithmetic as the release build performs it (wrap-around on
 * overflow, division truncating toward zero), and `apply_number_op`,
 * `number_add` and `number_sub` on `serde_json::Number` (src/record.rs:388-413).
 */
module NumberOps {
  import opened Base
  import opened Values
  import opened Json

  const HALF_RANGE: int := 0x8000_0000_0000_0000

  /** Two's-complement wrap-around of an integer into the `i64` range. */
  function WrapI64(x: int): (r: i64)
    ensures I64_MIN <= x <= I64_MAX ==> r == x
    ensures (x - r) % TWO_POW_64 == 0
  {
    ((x + HALF_RANGE) % TWO_POW_64) - HALF_RANGE
  }

  /** Wrapping is compatible with adding multiples of 2^64. */
  lemma WrapShift(x: int, k: int)
    ensures WrapI64(x + k * TWO_POW_64) == WrapI64(x)
  {
    var y := x + HALF_RANGE;
    var q, r := y / TWO_POW_64, y % TWO_POW_64;
    assert y == q * TWO_POW_64 + r && 0 <= r < TWO_POW_64;
    assert y + k * TWO_POW_64 == (q + k) * TWO_POW_64 + r;
    assert (y + k * TWO_POW_64) % TWO_POW_64 == r;
  }

  lemma WrapAddInner(x: int, y: int)
    ensures WrapI64(WrapI64(x) + y) == WrapI64(x + y)
  {
    var r := WrapI64(x);
    var k := (x - r) / TWO_POW_64;
    assert x - r == k * TWO_POW_64;
    WrapShift(r + y, k);
    assert r + y + k * TWO_POW_64 == x + y;
  }

  /** `i64 + i64` and `i64 - i64`, wrapping on overflow. */
  function AddI64(x: i64, y: i64): i64 {
    WrapI64(x + y)
  }

  function SubI64(x: i64, y: i64): i64 {
    WrapI64(x - y)
  }

  /** Rust's `/` on integers: the quotient truncated toward zero. */
  function TruncDiv(a: int, b: int): (q: int)
    requires b > 0
    ensures a >= 0 ==> q >= 0
    ensures a < 0 ==> q <= 0
    ensures a >= 0 ==> q * b <= a < q * b + b
    ensures a < 0 ==> q * b - b < a <= q * b
  {
    if a >= 0 then
      var q := a / b;
      DivFacts(a, b);
      q
    else
      var q := -((-a) / b);
      NegDivFacts(a, b);
      q
  }

  /** Euclidean division of a non-negative number, as products. */
  lemma DivFacts(a: int, b: int)
    requires a >= 0 && b > 0
    ensures (a / b) * b <= a < (a / b) * b + b
  {
    assert a == (a / b) * b + a % b;
  }

  /** The truncated quotient of a negative number, as products. */
  lemma NegDivFacts(a: int, b: int)
    requires a < 0 && b > 0
    ensures -((-a) / b) * b - b < a <= -((-a) / b) * b
  {
    var m := (-a) / b;
    DivFacts(-a, b);
    NegMul(m, b);
  }

  lemma NegMul(m: int, b: int)
    ensures -m * b == -(m * b)
  {
  }

  lemma MulMonotone(x: int, y: int, b: int)
    requires x <= y && b > 0
    ensures x * b <= y * b
  {
    assert y * b - x * b == (y - x) * b;
  }

  /**
   * A truncated quotient stays within bounds that bracket the dividend: with
   * `b * lo <= a <= b * hi`, the quotient lies in `[lo, hi]`, so a mean lies
   * between the smallest and the largest value.
   */
  lemma TruncDivBounds(a: int, b: int, lo: int, hi: int)
    requires b > 0
    requires lo * b <= a <= hi * b
    ensures lo <= TruncDiv(a, b) <= hi
  {
    if a >= 0 {
      DivBounds(a, b, lo, hi);
    } else {
      assert (-hi) * b == -(hi * b) && (-lo) * b == -(lo * b);
      DivBounds(-a, b, -hi, -lo);
    }
  }

  lemma DivBounds(a: int, b: int, lo: int, hi: int)
    requires a >= 0 && b > 0
    requires lo * b <= a <= hi * b
    ensures lo <= a / b <= hi
  {
    var q := a / b;
    DivFacts(a, b);
    if q > hi {
      assert (hi + 1) * b == hi * b + b;
      MulMonotone(hi + 1, q, b);
    }
    if q < lo {
      assert (q + 1) * b == q * b + b;
      MulMonotone(q + 1, lo, b);
    }
  }

  /**
   * `apply_number_op`: `f0` on the two `as_i64` values when both have one, otherwise
   * `f1` on the two `as_f64` values, kept only when the result is finite.
   */
  function ApplyNumberOp(a: Number, b: Number, f0: (i64, i64) -> i64, f1: (F64, F64) -> F64, arith: FloatArith)
    : (r: Option<Number>)
    ensures a.AsI64().Some? && b.AsI64().Some? ==>
              r.Some? && r.value.AsI64() == Some(f0(a.AsI64().value, b.AsI64().value))
    ensures !(a.AsI64().Some? && b.AsI64().Some?) ==>
              (r.Some? <==> IsFinite(f1(a.AsF64(arith).value, b.AsF64(arith).value)))
              && (r.Some? ==> r.value == NFloat(f1(a.AsF64(arith).value, b.AsF64(arith).value)))
  {
    if a.AsI64().Some? && b.AsI64().Some? then
      Some(FromI64(f0(a.AsI64().value, b.AsI64().value)))
    else if a.AsF64(arith).Some? && b.AsF64(arith).Some? then
      FromF64(f1(a.AsF64(arith).value, b.AsF64(arith).value))
    else
      None
  }

  /** `number_add`. */
  function NumberAdd(a: Number, b: Number, arith: FloatArith): (r: Option<Number>)
    ensures a.AsI64().Some? && b.AsI64().Some? ==>
              r.Some? && r.value.AsI64() == Some(AddI64(a.AsI64().value, b.AsI64().value))
    ensures !(a.AsI64().Some? && b.AsI64().Some?) ==>
              (r.Some? <==> IsFinite(arith.add(a.AsF64(arith).value, b.AsF64(arith).value)))
              && (r.Some? ==> r.value == NFloat(arith.add(a.AsF64(arith).value, b.AsF64(arith).value)))
  {
    ApplyNumberOp(a, b, AddI64, arith.add, arith)
  }

  /** `number_sub`. */
  function NumberSub(a: Number, b: Number, arith: FloatArith): (r: Option<Number>)
    ensures a.AsI64().Some? && b.AsI64().Some? ==>
              r.Some? && r.value.AsI64() == Some(SubI64(a.AsI64().value, b.AsI64().value))
    ensures !(a.AsI64().Some? && b.AsI64().Some?) ==>
              (r.Some? <==> IsFinite(arith.sub(a.AsF64(arith).value, b.AsF64(arith).value)))
              && (r.Some? ==> r.value == NFloat(arith.sub(a.AsF64(arith).value, b.AsF64(arith).value)))
  {
    ApplyNumberOp(a, b, SubI64, arith.sub, arith)
  }

  /** Without overflow the integer path is exact. */
  lemma NumberAddExact(a: Number, b: Number, arith: FloatArith)
    requires a.AsI64().Some? && b.AsI64().Some?
    requires I64_MIN <= a.AsI64().value + b.AsI64().value <= I64_MAX
    ensures NumberAdd(a, b, arith) == Some(FromI64(a.AsI64().value + b.AsI64().value))
  {
  }

  /** On integers, `number_add` undoes `number_sub`, even across a wrap-around. */
  lemma NumberSubThenAdd(a: Number, b: Number, arith: FloatArith)
    requires a.AsI64().Some? && b.AsI64().Some?
    ensures NumberSub(a, b, arith).Some?
    ensures NumberAdd(NumberSub(a, b, arith).value, b, arith) == Some(a)
  {
    var x, y := a.AsI64().value, b.AsI64().value;
    var d := NumberSub(a, b, arith).value;
    assert d == FromI64(SubI64(x, y));
    WrapAddInner(x as int - y as int, y);
    assert AddI64(SubI64(x, y), y) == x;
    FromI64AsI64(a);
  }

  /** The difference of an integer-valued number with itself is zero. */
  lemma NumberSubSelf(a: Number, arith: FloatArith)
    requires a.AsI64().Some?
    ensures NumberSub(a, a, arith) == Some(PosInt(0))
  {
  }

  /** `number_add` is commutative whenever the float addition is. */
  lemma NumberAddCommutes(a: Number, b: Number, arith: FloatArith)
    requires forall x, y :: arith.add(x, y) == arith.add(y, x)
    ensures NumberAdd(a, b, arith) == NumberAdd(b, a, arith)
  {
  }

  /**
   * A `u64` above `i64::MAX` has no `as_i64`, so adding an integer to it goes
   * through `f64`.
   */
  lemma LargeU64GoesThroughFloat(arith: FloatArith)
    ensures NumberAdd(PosInt(I64_MAX + 1), PosInt(1), arith)
            == FromF64(arith.add(arith.fromInt(I64_MAX + 1), arith.fromInt(1)))
  {
  }
}
