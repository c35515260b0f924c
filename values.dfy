/**
 * The metric value model of `src/record.rs`: `ItemValue`, its kind tests and
 * conversions, and its hand-written total order. An `f64` is its IEEE-754 bit
 * pattern, so that `f64::total_cmp` and finiteness are exact; the floating-point
 * arithmetic the engine uses is a parameter (`FloatArith`).
 */
module Values {
  import opened Base
  import opened Order

  /** An `f64`, as its 64-bit pattern. */
  datatype F64 = F64(bits: u64)

  const SIGN_BIT: int := 0x8000_0000_0000_0000

  /**
   * The signed integer that `f64::total_cmp` compares: the bits as an `i64`, with
   * every bit but the sign flipped when the sign is set.
   */
  function TotalKey(f: F64): (k: int)
    ensures I64_MIN <= k <= I64_MAX
    ensures (k < 0) == (f.bits >= SIGN_BIT)
  {
    if f.bits < SIGN_BIT then f.bits else SIGN_BIT - 1 - f.bits
  }

  /** `f64::total_cmp`. */
  function TotalCmp(a: F64, b: F64): Ordering {
    CmpInt(TotalKey(a), TotalKey(b))
  }

  /** `f64::is_finite`: the exponent field is not all ones (not an infinity or a NaN). */
  predicate IsFinite(f: F64) {
    (f.bits / 0x10_0000_0000_0000) % 0x800 != 0x7FF
  }

  /**
   * The IEEE-754 operations the engine performs, which this model does not define:
   * `+`, `-`, `/`, the conversion `as f64` of an integer, and the value `Iterator::sum`
   * starts from.
   */
  datatype FloatArith = FloatArith(
    add: (F64, F64) -> F64,
    sub: (F64, F64) -> F64,
    div: (F64, F64) -> F64,
    fromInt: int -> F64,
    sumStart: F64)

  /** `ItemValue`: one flattened JSON scalar (`String` is named `Str` here). */
  datatype ItemValue = Null | Bool(b: bool) | Integer(i: i64) | Float(f: F64) | Str(s: string)
  {
    predicate IsNumber() {
      Integer? || Float?
    }

    predicate IsInteger() {
      Integer?
    }

    function AsI64(): (r: Option<i64>)
      ensures r.Some? <==> IsInteger()
      ensures r.Some? ==> this == Integer(r.value)
    {
      if Integer? then Some(i) else None
    }

    function AsF64(arith: FloatArith): (r: Option<F64>)
      ensures r.Some? <==> IsNumber()
      ensures Float? ==> r == Some(f)
    {
      if Integer? then Some(arith.fromInt(i)) else if Float? then Some(f) else None
    }
  }

  /** The kind rank of the order: Null < Bool < Integer < Float < String. */
  function Rank(v: ItemValue): nat {
    match v
    case Null => 0
    case Bool(_) => 1
    case Integer(_) => 2
    case Float(_) => 3
    case Str(_) => 4
  }

  function BoolToInt(b: bool): int {
    if b then 1 else 0
  }

  /** `Ord for ItemValue`: same kinds compare naturally; different kinds by kind. */
  function Cmp(a: ItemValue, b: ItemValue): Ordering {
    match (a, b)
    case (Null, Null) => Equal
    case (Bool(x), Bool(y)) => CmpInt(BoolToInt(x), BoolToInt(y))
    case (Integer(x), Integer(y)) => CmpInt(x, y)
    case (Float(x), Float(y)) => TotalCmp(x, y)
    case (Str(x), Str(y)) => CmpString(x, y)
    case (Null, _) => Less
    case (_, Null) => Greater
    case (Bool(_), _) => Less
    case (_, Bool(_)) => Greater
    case (Integer(_), _) => Less
    case (_, Integer(_)) => Greater
    case (Float(_), _) => Less
    case (_, Float(_)) => Greater
  }

  /** `PartialEq for ItemValue`: equal exactly when `cmp` says Equal. */
  predicate Eq(a: ItemValue, b: ItemValue) {
    Cmp(a, b) == Equal
  }

  /** Values of different kinds are ordered by kind rank alone. */
  lemma CmpByRank(a: ItemValue, b: ItemValue)
    requires Rank(a) != Rank(b)
    ensures Cmp(a, b) == CmpInt(Rank(a), Rank(b))
  {
  }

  /** `eq` is structural equality; so a `BTreeSet<ItemValue>` is a set of values. */
  lemma EqIsEquality(a: ItemValue, b: ItemValue)
    ensures Eq(a, b) <==> a == b
  {
    if a.Str? && b.Str? {
      CmpStringEqual(a.s, b.s);
    }
  }

  lemma CmpReverse(a: ItemValue, b: ItemValue)
    ensures Cmp(b, a) == Cmp(a, b).Reverse()
  {
    if a.Str? && b.Str? {
      CmpStringReverse(a.s, b.s);
    }
  }

  lemma CmpTransitive(a: ItemValue, b: ItemValue, c: ItemValue)
    requires Cmp(a, b) == Less && Cmp(b, c) == Less
    ensures Cmp(a, c) == Less
  {
    if a.Str? && b.Str? && c.Str? {
      CmpStringTransitive(a.s, b.s, c.s);
    }
  }

  /** `cmp` is a total order (reflexive, antisymmetric, transitive, total), with `eq` its equality. */
  lemma CmpIsTotalOrder()
    ensures forall a :: Cmp(a, a) == Equal
    ensures forall a, b :: Cmp(a, b) == Equal <==> a == b
    ensures forall a, b :: Cmp(b, a) == Cmp(a, b).Reverse()
    ensures forall a, b, c :: Cmp(a, b) != Greater && Cmp(b, c) != Greater ==> Cmp(a, c) != Greater
  {
    forall a, b ensures Cmp(a, b) == Equal <==> a == b {
      EqIsEquality(a, b);
    }
    forall a, b ensures Cmp(b, a) == Cmp(a, b).Reverse() {
      CmpReverse(a, b);
    }
    forall a, b, c | Cmp(a, b) != Greater && Cmp(b, c) != Greater ensures Cmp(a, c) != Greater {
      EqIsEquality(a, b);
      EqIsEquality(b, c);
      if Cmp(a, b) == Less && Cmp(b, c) == Less {
        CmpTransitive(a, b, c);
      }
    }
  }
}
