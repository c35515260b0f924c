/**
 * A JSON document (`serde_json::Value`) as an inductive datatype, and
 * `serde_json::Number` with the conversions the engine uses.
 */
module Json {
  import opened Base
  import opened Values

  /** A negative `i64`. */
  type NegI64 = x: int | I64_MIN <= x < 0 witness -1

  /** An `f64` that is neither infinite nor NaN. */
  type FiniteF64 = f: F64 | IsFinite(f) witness F64(0)

  /**
   * `serde_json::Number`: a non-negative integer as `u64`, a negative integer as
   * `i64`, or a finite float.
   */
  datatype Number = PosInt(u: u64) | NegInt(n: NegI64) | NFloat(f: FiniteF64)
  {
    /** `Number::as_i64`: the integer, when it fits in an `i64`. */
    function AsI64(): (r: Option<i64>)
      ensures r.Some? <==> (PosInt? && u <= I64_MAX) || NegInt?
      ensures PosInt? && r.Some? ==> r.value == u
      ensures NegInt? ==> r == Some(n)
    {
      match this
      case PosInt(u) => if u <= I64_MAX then Some(u as i64) else None
      case NegInt(n) => Some(n as i64)
      case NFloat(_) => None
    }

    /** `Number::as_u64`: the integer, when it is non-negative. */
    function AsU64(): (r: Option<u64>)
      ensures r.Some? <==> PosInt?
      ensures r.Some? ==> r.value == u
    {
      if PosInt? then Some(u) else None
    }

    /** `Number::as_f64`: every number converts, integers through `as f64`. */
    function AsF64(arith: FloatArith): (r: Option<F64>)
      ensures r.Some?
      ensures NFloat? ==> r.value == f
    {
      match this
      case PosInt(u) => Some(arith.fromInt(u))
      case NegInt(n) => Some(arith.fromInt(n))
      case NFloat(f) => Some(f)
    }
  }

  /** `Number::from(i64)`. */
  function FromI64(i: i64): (r: Number)
    ensures r.AsI64() == Some(i)
    ensures !r.NFloat?
  {
    if i < 0 then NegInt(i) else PosInt(i)
  }

  /** `Number::from_f64`: only a finite float becomes a number. */
  function FromF64(f: F64): (r: Option<Number>)
    ensures r.Some? <==> IsFinite(f)
    ensures r.Some? ==> r.value == NFloat(f)
  {
    if IsFinite(f) then Some(NFloat(f)) else None
  }

  /** An integer-valued number is the number of its `as_i64`. */
  lemma FromI64AsI64(n: Number)
    requires n.AsI64().Some?
    ensures FromI64(n.AsI64().value) == n
  {
  }

  datatype Json =
    | JNull
    | JBool(b: bool)
    | JNumber(n: Number)
    | JString(s: string)
    | JArray(elems: seq<Json>)
    | JObject(members: seq<Member>)

  /**
   * One member of an object, in the map's iteration order (serde_json's default
   * `Map` is a `BTreeMap`, so names come ascending and distinct; the model does
   * not need either fact).
   */
  datatype Member = Member(name: string, value: Json)

  /** The item value of a JSON number (src/record.rs:183-193). */
  function ItemOfNumber(n: Number): (r: ItemValue)
    ensures n.AsI64().Some? ==> r == Integer(n.AsI64().value)
    ensures n.PosInt? && n.u > I64_MAX ==> r == Integer(I64_MAX)
    ensures n.NFloat? ==> r == Float(n.f)
    ensures r.IsNumber()
  {
    if n.AsI64().Some? then Integer(n.AsI64().value)
    else if n.AsU64().Some? then Integer(I64_MAX)
    else Float(n.f)
  }
}
