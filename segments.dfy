/**
 * The contents of one time segment and its recomputation (src/record.rs:299-469):
 * per-target representative values and deltas, and cross-target aggregated sums.
 *
 * A segment is a value here, as the engine clones it before recomputing it; the
 * recomputing methods take a segment and return the new one.
 */
module Segments {
  import opened Base
  import opened Order
  import opened Values
  import opened Json
  import opened NumberOps
  import opened Num

  /** `RepresentativeValue`: a mean, or the set of distinct samples when no mean applies. */
  datatype RepresentativeValue = Avg(n: Number) | Set(values: set<ItemValue>)

  /** `RepresentativeValue::default`: the empty set. */
  const DEFAULT_REPRESENTATIVE: RepresentativeValue := Set({})

  /** `SegmentValue`: the samples of one key of one target, with their representative and delta. */
  datatype SegmentValue = SegmentValue(value: RepresentativeValue, delta: Option<Number>, rawValues: seq<ItemValue>)
  {
    /** `sync_representative_value`: recomputes `value` from the samples. */
    function SyncRepresentativeValue(arith: FloatArith): (r: SegmentValue)
      requires |rawValues| > 0
      ensures r.delta == delta && r.rawValues == rawValues
      ensures r.value == Representative(rawValues, arith)
    {
      this.(value := Representative(rawValues, arith))
    }

    /** `sync_delta`: when both this and `prev` are means, the delta becomes their difference. */
    function SyncDelta(prev: SegmentValue, arith: FloatArith): (r: SegmentValue)
      ensures r.value == value && r.rawValues == rawValues
      ensures value.Avg? && prev.value.Avg? ==> r.delta == NumberSub(value.n, prev.value.n, arith)
      ensures !(value.Avg? && prev.value.Avg?) ==> r == this
    {
      if value.Avg? && prev.value.Avg? then this.(delta := NumberSub(value.n, prev.value.n, arith)) else this
    }
  }

  /** `SegmentValue::default`, which `insert` creates for a new key. */
  const DEFAULT_SEGMENT_VALUE: SegmentValue := SegmentValue(DEFAULT_REPRESENTATIVE, None, [])

  /** `AggregatedValue`: the cross-target sum of one key and its delta. */
  datatype AggregatedValue = AggregatedValue(sum: Option<RepresentativeValue>, delta: Option<Number>)

  /** The segment values of one target, by flattened key. */
  type TargetValues = map<string, SegmentValue>

  /** The segment values by target, then by key. */
  type AllTargetValues = map<string, TargetValues>

  // ---------------------------------------------------------------------------
  // Representative value (src/record.rs:429-445)

  predicate AllIntegers(raw: seq<ItemValue>) {
    forall i :: 0 <= i < |raw| ==> raw[i].IsInteger()
  }

  predicate AllNumbers(raw: seq<ItemValue>) {
    forall i :: 0 <= i < |raw| ==> raw[i].IsNumber()
  }

  /** The exact sum of the integer samples. */
  function IntTotal(raw: seq<ItemValue>): int {
    if raw == [] then 0 else (if raw[0].Integer? then raw[0].i as int else 0) + IntTotal(raw[1..])
  }

  /** `filter_map(as_i64).sum::<i64>()` from `acc`, adding with wrap-around. */
  function IntSumFrom(acc: i64, raw: seq<ItemValue>): i64
    decreases |raw|
  {
    if raw == [] then acc
    else IntSumFrom(if raw[0].AsI64().Some? then AddI64(acc, raw[0].AsI64().value) else acc, raw[1..])
  }

  /** `filter_map(as_f64).sum::<f64>()` from `acc`, with the engine's float addition. */
  function FloatSumFrom(acc: F64, raw: seq<ItemValue>, arith: FloatArith): F64
    decreases |raw|
  {
    if raw == [] then acc
    else FloatSumFrom(if raw[0].IsNumber() then arith.add(acc, raw[0].AsF64(arith).value) else acc, raw[1..], arith)
  }

  /** The distinct samples: `collect` into a `BTreeSet`, whose equality is that of values. */
  function Distinct(raw: seq<ItemValue>): set<ItemValue> {
    set i | 0 <= i < |raw| :: raw[i]
  }

  /** Rust `sum / len` on `i64`, truncating. */
  function IntMean(raw: seq<ItemValue>): (m: i64)
    requires |raw| > 0
  {
    var s := IntSumFrom(0, raw);
    DivInRange(s, |raw|);
    TruncDiv(s, |raw|)
  }

  /** The float mean, `sum / len as f64`. */
  function FloatMean(raw: seq<ItemValue>, arith: FloatArith): F64
    requires |raw| > 0
  {
    arith.div(FloatSumFrom(arith.sumStart, raw, arith), arith.fromInt(|raw|))
  }

  /**
   * The representative value of a non-empty list of samples: the truncated integer
   * mean when all are integers; otherwise the float mean when all are numbers and
   * that mean is finite; otherwise the set of distinct samples.
   */
  function Representative(raw: seq<ItemValue>, arith: FloatArith): (r: RepresentativeValue)
    requires |raw| > 0
    ensures AllIntegers(raw) ==> r == Avg(FromI64(IntMean(raw)))
    ensures !AllIntegers(raw) && AllNumbers(raw) && IsFinite(FloatMean(raw, arith)) ==>
              r == Avg(NFloat(FloatMean(raw, arith)))
    ensures !AllIntegers(raw) && !(AllNumbers(raw) && IsFinite(FloatMean(raw, arith))) ==>
              r == Set(Distinct(raw))
    ensures r.Set? ==> forall x :: x in r.values <==> x in raw
  {
    if AllIntegers(raw) then
      Avg(FromI64(IntMean(raw)))
    else if AllNumbers(raw) && FromF64(FloatMean(raw, arith)).Some? then
      Avg(FromF64(FloatMean(raw, arith)).value)
    else
      Set(Distinct(raw))
  }

  lemma DivInRange(s: i64, n: int)
    requires n > 0
    ensures I64_MIN <= TruncDiv(s, n) <= I64_MAX
  {
    if s > 0 {
      MulMonotone(1, n, s);
      TruncDivBounds(s, n, 0, s);
    } else if s < 0 {
      MulMonotone(1, n, -(s as int));
      TruncDivBounds(s, n, s, 0);
    } else {
      TruncDivBounds(s, n, 0, 0);
    }
  }

  /** The wrap-around running sum is the exact total, wrapped once. */
  lemma {:induction false} IntSumIsWrappedTotal(acc: i64, raw: seq<ItemValue>)
    ensures IntSumFrom(acc, raw) == WrapI64(acc + IntTotal(raw))
    decreases |raw|
  {
    if raw == [] {
    } else {
      var x := if raw[0].Integer? then raw[0].i as int else 0;
      var next := if raw[0].AsI64().Some? then AddI64(acc, raw[0].AsI64().value) else acc;
      IntSumIsWrappedTotal(next, raw[1..]);
      WrapAddInner(acc + x, IntTotal(raw[1..]));
    }
  }

  /** The exact total of samples within `[lo, hi]` lies within their `n`-fold. */
  lemma {:induction false} IntTotalBounds(raw: seq<ItemValue>, lo: int, hi: int)
    requires AllIntegers(raw)
    requires forall i :: 0 <= i < |raw| ==> lo <= raw[i].i <= hi
    ensures |raw| * lo <= IntTotal(raw) <= |raw| * hi
    decreases |raw|
  {
    if raw != [] {
      IntTotalBounds(raw[1..], lo, hi);
      assert |raw| * lo == lo + (|raw| - 1) * lo;
      assert |raw| * hi == hi + (|raw| - 1) * hi;
    }
  }

  /**
   * When the samples are integers within `[lo, hi]` and their total does not
   * overflow, the integer mean lies within `[lo, hi]`.
   */
  lemma IntMeanWithinBounds(raw: seq<ItemValue>, lo: int, hi: int)
    requires |raw| > 0 && AllIntegers(raw)
    requires forall i :: 0 <= i < |raw| ==> lo <= raw[i].i <= hi
    requires I64_MIN <= IntTotal(raw) <= I64_MAX
    ensures lo <= IntMean(raw) <= hi
  {
    IntSumIsWrappedTotal(0, raw);
    IntTotalBounds(raw, lo, hi);
    assert lo * |raw| == |raw| * lo && hi * |raw| == |raw| * hi;
    TruncDivBounds(IntSumFrom(0, raw), |raw|, lo, hi);
  }

  /** Integer samples all equal to `c` have mean `c`, as long as their total fits in an `i64`. */
  lemma IntMeanOfEqual(raw: seq<ItemValue>, c: i64)
    requires |raw| > 0
    requires forall i :: 0 <= i < |raw| ==> raw[i] == Integer(c)
    requires I64_MIN <= |raw| * c <= I64_MAX
    ensures IntMean(raw) == c
  {
    assert forall i :: 0 <= i < |raw| ==> c <= raw[i].i <= c;
    assert forall i :: 0 <= i < |raw| ==> raw[i].IsInteger();
    IntTotalEqual(raw, c);
    IntMeanWithinBounds(raw, c, c);
  }

  lemma {:induction false} IntTotalEqual(raw: seq<ItemValue>, c: i64)
    requires forall i :: 0 <= i < |raw| ==> raw[i] == Integer(c)
    ensures IntTotal(raw) == |raw| * c
    decreases |raw|
  {
    if raw != [] {
      IntTotalEqual(raw[1..], c);
      assert |raw| * c == c + (|raw| - 1) * c;
    }
  }

  /** Examples: `[2, 4, 6]` gives 4; `[-1, -2]` truncates toward zero to -1; a string forces a set. */
  lemma RepresentativeExamples(arith: FloatArith)
    ensures Representative([Integer(2), Integer(4), Integer(6)], arith) == Avg(PosInt(4))
    ensures Representative([Integer(-1), Integer(-2)], arith) == Avg(NegInt(-1))
    ensures Representative([Integer(1), Str("x"), Integer(1)], arith) == Set({Integer(1), Str("x")})
  {
    var a := [Integer(2), Integer(4), Integer(6)];
    assert IntSumFrom(0, a) == 12;
    var b := [Integer(-1), Integer(-2)];
    assert IntSumFrom(0, b) == -3;
    var c := [Integer(1), Str("x"), Integer(1)];
    assert !AllIntegers(c) && !AllNumbers(c) by {
      assert !c[1].IsNumber();
    }
    assert Distinct(c) == {Integer(1), Str("x")} by {
      assert c[0] == Integer(1) && c[1] == Str("x");
    }
  }

  // ---------------------------------------------------------------------------
  // Per-target values (src/record.rs:322-335)

  /** The previous segment's value for `(target, key)`, if it has one. */
  function PrevEntry(prev: AllTargetValues, target: string, key: string): (r: Option<SegmentValue>)
    ensures r.Some? <==> target in prev && key in prev[target]
    ensures r.Some? ==> r.value == prev[target][key]
  {
    if target in prev && key in prev[target] then Some(prev[target][key]) else None
  }

  /** One entry after the per-target recomputation. */
  function SyncedEntry(v: SegmentValue, prev: Option<SegmentValue>, arith: FloatArith): (r: SegmentValue)
    requires |v.rawValues| > 0
    ensures r.rawValues == v.rawValues
    ensures r.value == Representative(v.rawValues, arith)
    ensures prev.Some? && r.value.Avg? && prev.value.value.Avg? ==> r.delta == NumberSub(r.value.n, prev.value.value.n, arith)
    ensures !(prev.Some? && r.value.Avg? && prev.value.value.Avg?) ==> r.delta == v.delta
  {
    var v1 := v.SyncRepresentativeValue(arith);
    if prev.Some? then v1.SyncDelta(prev.value, arith) else v1
  }

  predicate RawNonEmpty(tsv: AllTargetValues) {
    forall t, k :: t in tsv && k in tsv[t] ==> |tsv[t][k].rawValues| > 0
  }

  ghost function SyncedValues(target: string, values: TargetValues, prev: AllTargetValues, arith: FloatArith): TargetValues
    requires forall k :: k in values ==> |values[k].rawValues| > 0
  {
    map k | k in values :: SyncedEntry(values[k], PrevEntry(prev, target, k), arith)
  }

  ghost function SyncedTargets(tsv: AllTargetValues, prev: AllTargetValues, arith: FloatArith): AllTargetValues
    requires RawNonEmpty(tsv)
  {
    map t | t in tsv :: SyncedValues(t, tsv[t], prev, arith)
  }

  // ---------------------------------------------------------------------------
  // Aggregation over targets (src/record.rs:337-385)

  /** One step of the fold over targets: `value` is the next target's value, `sum` the running sum. */
  function FoldStep(sum: Option<RepresentativeValue>, value: RepresentativeValue, arith: FloatArith)
    : (r: Option<RepresentativeValue>)
    ensures sum.None? ==> r == Some(value)
    ensures sum.Some? && sum.value.Avg? != value.Avg? ==> r.None?
    ensures sum.Some? && sum.value.Set? && value.Set? ==> r == Some(Set(sum.value.values + value.values))
    ensures sum.Some? && sum.value.Avg? && value.Avg? ==>
              (r.Some? <==> NumberAdd(value.n, sum.value.n, arith).Some?)
              && (r.Some? ==> r.value == Avg(NumberAdd(value.n, sum.value.n, arith).value))
  {
    match (value, sum)
    case (_, None) => Some(value)
    case (Avg(_), Some(Set(_))) => None
    case (Set(_), Some(Avg(_))) => None
    case (Avg(a), Some(Avg(b))) =>
      var v := NumberAdd(a, b, arith);
      if v.Some? then Some(Avg(v.value)) else None
    case (Set(a), Some(Set(b))) => Some(Set(b + a))
  }

  /** The fold over the targets `ts`, in that order, skipping those without `key`. */
  function AggregateFrom(sum: Option<RepresentativeValue>, tsv: AllTargetValues, key: string, ts: seq<string>, arith: FloatArith)
    : Option<RepresentativeValue>
    decreases |ts|
  {
    if ts == [] then sum
    else
      var next := if ts[0] in tsv && key in tsv[ts[0]] then FoldStep(sum, tsv[ts[0]][key].value, arith) else sum;
      AggregateFrom(next, tsv, key, ts[1..], arith)
  }

  /** The aggregated sum of `key`: the fold over all targets in ascending order. */
  ghost function AggregateSum(tsv: AllTargetValues, key: string, arith: FloatArith): Option<RepresentativeValue> {
    AggregateFrom(None, tsv, key, KeysAscending(tsv.Keys), arith)
  }

  /** One aggregated value after recomputation, given its new sum and the previous segment's entry. */
  function SyncedAggregate(agg: AggregatedValue, sum: Option<RepresentativeValue>, prev: Option<AggregatedValue>, arith: FloatArith)
    : (r: AggregatedValue)
    ensures r.sum == sum
    ensures prev.Some? && prev.value.sum.Some? && prev.value.sum.value.Avg? && sum.Some? && sum.value.Avg? ==>
              r.delta == NumberSub(sum.value.n, prev.value.sum.value.n, arith)
    ensures !(prev.Some? && prev.value.sum.Some? && prev.value.sum.value.Avg? && sum.Some? && sum.value.Avg?) ==>
              r.delta == agg.delta
  {
    var a := agg.(sum := sum);
    if prev.Some? && prev.value.sum.Some? && prev.value.sum.value.Avg? && sum.Some? && sum.value.Avg? then
      a.(delta := NumberSub(sum.value.n, prev.value.sum.value.n, arith))
    else
      a
  }

  function PrevAggregate(prev: map<string, AggregatedValue>, key: string): Option<AggregatedValue> {
    if key in prev then Some(prev[key]) else None
  }

  // ---------------------------------------------------------------------------
  // The segment

  /** `TimeSeriesSegment`. */
  datatype TimeSeriesSegment = TimeSeriesSegment(
    startTime: u64,
    endTime: u64,
    aggregatedValues: map<string, AggregatedValue>,
    targetSegmentValues: AllTargetValues)
  {
    /** `sync_target_segment_values`. */
    method SyncTargetSegmentValues(prev: TimeSeriesSegment, arith: FloatArith) returns (r: TimeSeriesSegment)
      requires RawNonEmpty(targetSegmentValues)
      ensures r == this.(targetSegmentValues := SyncedTargets(targetSegmentValues, prev.targetSegmentValues, arith))
    {
      var tsv := targetSegmentValues;
      var out := tsv;
      var todo := tsv.Keys;
      while todo != {}
        invariant todo <= tsv.Keys && out.Keys == tsv.Keys
        invariant forall t :: t in todo ==> out[t] == tsv[t]
        invariant forall t :: t in tsv && t !in todo ==> out[t] == SyncedValues(t, tsv[t], prev.targetSegmentValues, arith)
        decreases todo
      {
        var target :| target in todo;
        var values := SyncSegmentValues(target, out[target], prev.targetSegmentValues, arith);
        out := out[target := values];
        todo := todo - {target};
      }
      assert out == SyncedTargets(tsv, prev.targetSegmentValues, arith);
      r := this.(targetSegmentValues := out);
    }

    /** `sync_aggregated_values`: only the keys already in `aggregated_values` are visited. */
    method SyncAggregatedValues(prev: TimeSeriesSegment, arith: FloatArith) returns (r: TimeSeriesSegment)
      ensures r == this.(aggregatedValues := SyncedAggregates(this, prev, arith))
    {
      var out := aggregatedValues;
      var todo := aggregatedValues.Keys;
      while todo != {}
        invariant todo <= aggregatedValues.Keys && out.Keys == aggregatedValues.Keys
        invariant forall k :: k in todo ==> out[k] == aggregatedValues[k]
        invariant forall k :: k in aggregatedValues && k !in todo ==>
                    out[k] == SyncedAggregate(aggregatedValues[k], AggregateSum(targetSegmentValues, k, arith),
                                              PrevAggregate(prev.aggregatedValues, k), arith)
        decreases todo
      {
        var key :| key in todo;
        var sum := FoldTargets(targetSegmentValues, key, arith);
        out := out[key := SyncedAggregate(out[key], sum, PrevAggregate(prev.aggregatedValues, key), arith)];
        todo := todo - {key};
      }
      r := this.(aggregatedValues := out);
    }

    /** `TimeSeriesSegment::sync_state`: per-target values first, then the aggregates. */
    method SyncState(prev: TimeSeriesSegment, arith: FloatArith) returns (r: TimeSeriesSegment)
      requires RawNonEmpty(targetSegmentValues)
      ensures r == SyncedSegment(this, prev, arith)
    {
      var s := SyncTargetSegmentValues(prev, arith);
      r := s.SyncAggregatedValues(prev, arith);
    }
  }

  /** `TimeSeriesSegment::empty`. */
  function EmptySegment(duration: SecondsNonZeroU64): (r: TimeSeriesSegment)
    ensures r.startTime == 0 && r.endTime == duration.Get()
    ensures r.aggregatedValues == map[] && r.targetSegmentValues == map[]
  {
    TimeSeriesSegment(0, duration.Get(), map[], map[])
  }

  ghost function SyncedAggregates(seg: TimeSeriesSegment, prev: TimeSeriesSegment, arith: FloatArith)
    : map<string, AggregatedValue>
  {
    map k | k in seg.aggregatedValues ::
      SyncedAggregate(seg.aggregatedValues[k], AggregateSum(seg.targetSegmentValues, k, arith),
                      PrevAggregate(prev.aggregatedValues, k), arith)
  }

  /** What `sync_state` makes of a segment, given the segment it treats as previous. */
  ghost function SyncedSegment(seg: TimeSeriesSegment, prev: TimeSeriesSegment, arith: FloatArith): TimeSeriesSegment
    requires RawNonEmpty(seg.targetSegmentValues)
  {
    var s := seg.(targetSegmentValues := SyncedTargets(seg.targetSegmentValues, prev.targetSegmentValues, arith));
    s.(aggregatedValues := SyncedAggregates(s, prev, arith))
  }

  /** The inner loop of `sync_target_segment_values`, over the keys of one target. */
  method SyncSegmentValues(target: string, values: TargetValues, prev: AllTargetValues, arith: FloatArith)
    returns (r: TargetValues)
    requires forall k :: k in values ==> |values[k].rawValues| > 0
    ensures r == SyncedValues(target, values, prev, arith)
  {
    r := values;
    var todo := values.Keys;
    while todo != {}
      invariant todo <= values.Keys && r.Keys == values.Keys
      invariant forall k :: k in todo ==> r[k] == values[k]
      invariant forall k :: k in values && k !in todo ==> r[k] == SyncedEntry(values[k], PrevEntry(prev, target, k), arith)
      decreases todo
    {
      var key :| key in todo;
      var v := r[key].SyncRepresentativeValue(arith);
      var p := PrevEntry(prev, target, key);
      if p.Some? {
        v := v.SyncDelta(p.value, arith);
      }
      r := r[key := v];
      todo := todo - {key};
    }
  }

  /** The fold of `sync_aggregated_values` over the targets, taken in ascending order as a `BTreeMap` yields them. */
  method FoldTargets(tsv: AllTargetValues, key: string, arith: FloatArith) returns (sum: Option<RepresentativeValue>)
    ensures sum == AggregateSum(tsv, key, arith)
  {
    sum := None;
    var todo := tsv.Keys;
    while todo != {}
      invariant todo <= tsv.Keys
      invariant AggregateFrom(sum, tsv, key, KeysAscending(todo), arith) == AggregateSum(tsv, key, arith)
      decreases todo
    {
      LeastExists(todo);
      var target :| IsLeast(target, todo);
      KeysAscendingFirst(todo, target);
      if key in tsv[target] {
        sum := FoldStep(sum, tsv[target][key].value, arith);
      }
      todo := todo - {target};
    }
  }

  // ---------------------------------------------------------------------------
  // Properties of the fold

  /** The union of the sets of the targets in `ts` that have `key`. */
  function UnionFor(tsv: AllTargetValues, key: string, ts: seq<string>): set<ItemValue>
    decreases |ts|
  {
    if ts == [] then {}
    else (if ts[0] in tsv && key in tsv[ts[0]] && tsv[ts[0]][key].value.Set? then tsv[ts[0]][key].value.values else {})
         + UnionFor(tsv, key, ts[1..])
  }

  /** Some target in `ts` has `key`. */
  predicate AnyHas(tsv: AllTargetValues, key: string, ts: seq<string>) {
    exists i :: 0 <= i < |ts| && ts[i] in tsv && key in tsv[ts[i]]
  }

  /** Every target in `ts` that has `key` holds a set for it. */
  predicate AllSets(tsv: AllTargetValues, key: string, ts: seq<string>) {
    forall i :: 0 <= i < |ts| && ts[i] in tsv && key in tsv[ts[i]] ==> tsv[ts[i]][key].value.Set?
  }

  lemma {:induction false} AllSetsTail(tsv: AllTargetValues, key: string, ts: seq<string>)
    requires ts != [] && AllSets(tsv, key, ts)
    ensures AllSets(tsv, key, ts[1..])
  {
    forall i | 0 <= i < |ts[1..]| && ts[1..][i] in tsv && key in tsv[ts[1..][i]]
      ensures tsv[ts[1..][i]][key].value.Set?
    {
      assert ts[1..][i] == ts[i + 1];
    }
  }

  /** Once the running sum is a set, sets only accumulate. */
  lemma {:induction false} AggregateSetsFrom(acc: set<ItemValue>, tsv: AllTargetValues, key: string, ts: seq<string>, arith: FloatArith)
    requires AllSets(tsv, key, ts)
    ensures AggregateFrom(Some(Set(acc)), tsv, key, ts, arith) == Some(Set(acc + UnionFor(tsv, key, ts)))
    decreases |ts|
  {
    if ts != [] {
      AllSetsTail(tsv, key, ts);
      if ts[0] in tsv && key in tsv[ts[0]] {
        assert tsv[ts[0]][key].value.Set? by {
          assert 0 < |ts|;
        }
        var a := tsv[ts[0]][key].value.values;
        assert FoldStep(Some(Set(acc)), tsv[ts[0]][key].value, arith) == Some(Set(acc + a));
        AggregateSetsFrom(acc + a, tsv, key, ts[1..], arith);
        assert acc + a + UnionFor(tsv, key, ts[1..]) == acc + UnionFor(tsv, key, ts);
      } else {
        assert UnionFor(tsv, key, ts) == UnionFor(tsv, key, ts[1..]);
        AggregateSetsFrom(acc, tsv, key, ts[1..], arith);
      }
    } else {
      assert acc + UnionFor(tsv, key, ts) == acc;
    }
  }

  /** When every target holds a set for `key`, the aggregated sum is their union; none at all gives no sum. */
  lemma {:induction false} AggregateOfSets(tsv: AllTargetValues, key: string, ts: seq<string>, arith: FloatArith)
    requires AllSets(tsv, key, ts)
    ensures AnyHas(tsv, key, ts) ==> AggregateFrom(None, tsv, key, ts, arith) == Some(Set(UnionFor(tsv, key, ts)))
    ensures !AnyHas(tsv, key, ts) ==> AggregateFrom(None, tsv, key, ts, arith) == None
    decreases |ts|
  {
    if ts != [] {
      AllSetsTail(tsv, key, ts);
      if ts[0] in tsv && key in tsv[ts[0]] {
        assert AnyHas(tsv, key, ts) by {
          assert 0 < |ts| && ts[0] in tsv && key in tsv[ts[0]];
        }
        AggregateSetsFrom(tsv[ts[0]][key].value.values, tsv, key, ts[1..], arith);
      } else {
        assert UnionFor(tsv, key, ts) == UnionFor(tsv, key, ts[1..]);
        AggregateOfSets(tsv, key, ts[1..], arith);
        AnyHasTail(tsv, key, ts);
      }
    }
  }

  lemma AnyHasTail(tsv: AllTargetValues, key: string, ts: seq<string>)
    requires ts != [] && !(ts[0] in tsv && key in tsv[ts[0]])
    ensures AnyHas(tsv, key, ts) <==> AnyHas(tsv, key, ts[1..])
  {
    if AnyHas(tsv, key, ts) {
      var i :| 0 <= i < |ts| && ts[i] in tsv && key in tsv[ts[i]];
      assert ts[1..][i - 1] == ts[i];
    }
    if AnyHas(tsv, key, ts[1..]) {
      var i :| 0 <= i < |ts[1..]| && ts[1..][i] in tsv && key in tsv[ts[1..][i]];
      assert ts[i + 1] == ts[1..][i];
    }
  }

  /** Every target in `ts` that has `key` holds an integer-valued mean for it. */
  predicate AllIntAvgs(tsv: AllTargetValues, key: string, ts: seq<string>) {
    forall i :: 0 <= i < |ts| && ts[i] in tsv && key in tsv[ts[i]] ==>
      tsv[ts[i]][key].value.Avg? && tsv[ts[i]][key].value.n.AsI64().Some?
  }

  /** The exact total of those integer means. */
  function IntAvgTotal(tsv: AllTargetValues, key: string, ts: seq<string>): int
    decreases |ts|
  {
    if ts == [] then 0
    else
      var v := if ts[0] in tsv && key in tsv[ts[0]] && tsv[ts[0]][key].value.Avg? && tsv[ts[0]][key].value.n.AsI64().Some?
               then tsv[ts[0]][key].value.n.AsI64().value as int else 0;
      v + IntAvgTotal(tsv, key, ts[1..])
  }

  lemma {:induction false} AllIntAvgsTail(tsv: AllTargetValues, key: string, ts: seq<string>)
    requires ts != [] && AllIntAvgs(tsv, key, ts)
    ensures AllIntAvgs(tsv, key, ts[1..])
  {
    forall i | 0 <= i < |ts[1..]| && ts[1..][i] in tsv && key in tsv[ts[1..][i]]
      ensures tsv[ts[1..][i]][key].value.Avg? && tsv[ts[1..][i]][key].value.n.AsI64().Some?
    {
      assert ts[1..][i] == ts[i + 1];
    }
  }

  /** Once the running sum is an integer mean, integer means add up with wrap-around. */
  lemma {:induction false} AggregateIntsFrom(acc: i64, tsv: AllTargetValues, key: string, ts: seq<string>, arith: FloatArith)
    requires AllIntAvgs(tsv, key, ts)
    ensures AggregateFrom(Some(Avg(FromI64(acc))), tsv, key, ts, arith)
            == Some(Avg(FromI64(WrapI64(acc + IntAvgTotal(tsv, key, ts)))))
    decreases |ts|
  {
    if ts != [] {
      AllIntAvgsTail(tsv, key, ts);
      if ts[0] in tsv && key in tsv[ts[0]] {
        assert tsv[ts[0]][key].value.Avg? by {
          assert 0 < |ts|;
        }
        var n := tsv[ts[0]][key].value.n;
        var x := n.AsI64().value;
        var next := AddI64(x, acc);
        assert NumberAdd(n, FromI64(acc), arith) == Some(FromI64(next));
        AggregateIntsFrom(next, tsv, key, ts[1..], arith);
        WrapAddInner(x + acc, IntAvgTotal(tsv, key, ts[1..]));
      } else {
        assert IntAvgTotal(tsv, key, ts) == IntAvgTotal(tsv, key, ts[1..]);
        AggregateIntsFrom(acc, tsv, key, ts[1..], arith);
      }
    }
  }

  /** A mean followed by a set discards the sum; the next mean restarts it. */
  lemma AggregateRestartExample(arith: FloatArith)
    ensures var tsv := map["a" := map["k" := SegmentValue(Avg(PosInt(3)), None, [Integer(3)])],
                           "b" := map["k" := SegmentValue(Set({Str("x")}), None, [Str("x")])]];
            AggregateFrom(None, tsv, "k", ["a", "b"], arith) == None
    ensures var tsv := map["a" := map["k" := SegmentValue(Avg(PosInt(3)), None, [Integer(3)])],
                           "b" := map["k" := SegmentValue(Set({Str("x")}), None, [Str("x")])],
                           "c" := map["k" := SegmentValue(Avg(PosInt(5)), None, [Integer(5)])]];
            AggregateFrom(None, tsv, "k", ["a", "b", "c"], arith) == Some(Avg(PosInt(5)))
  {
    var s := ["a", "b", "c"];
    assert s[1..] == ["b", "c"] && s[1..][1..] == ["c"];
    var t := ["a", "b"];
    assert t[1..] == ["b"];
  }

  // ---------------------------------------------------------------------------
  // Properties of a segment's recomputation

  /**
   * Recomputation keeps the segment's times, its targets, keys and samples; every
   * value becomes the representative of its samples, and the aggregated keys are
   * kept, so a segment without aggregated values keeps none.
   */
  lemma SyncedSegmentShape(seg: TimeSeriesSegment, prev: TimeSeriesSegment, arith: FloatArith)
    requires RawNonEmpty(seg.targetSegmentValues)
    ensures var r := SyncedSegment(seg, prev, arith);
      && r.startTime == seg.startTime && r.endTime == seg.endTime
      && r.aggregatedValues.Keys == seg.aggregatedValues.Keys
      && r.targetSegmentValues.Keys == seg.targetSegmentValues.Keys
      && (forall t :: t in seg.targetSegmentValues ==> r.targetSegmentValues[t].Keys == seg.targetSegmentValues[t].Keys)
      && (forall t, k :: t in seg.targetSegmentValues && k in seg.targetSegmentValues[t] ==>
            r.targetSegmentValues[t][k].rawValues == seg.targetSegmentValues[t][k].rawValues
            && r.targetSegmentValues[t][k].value == Representative(seg.targetSegmentValues[t][k].rawValues, arith))
      && RawNonEmpty(r.targetSegmentValues)
  {
  }

  /**
   * The segment is its own "previous" segment, so recomputing a segment that is
   * already up to date gives an integer mean the delta 0.
   */
  lemma ResyncGivesZeroDelta(seg: TimeSeriesSegment, t: string, k: string, arith: FloatArith)
    requires RawNonEmpty(seg.targetSegmentValues)
    requires t in seg.targetSegmentValues && k in seg.targetSegmentValues[t]
    requires var v := seg.targetSegmentValues[t][k];
      v.value == Representative(v.rawValues, arith) && v.value.Avg? && v.value.n.AsI64().Some?
    ensures SyncedSegment(seg, seg, arith).targetSegmentValues[t][k].delta == Some(PosInt(0))
  {
    var v := seg.targetSegmentValues[t][k];
    NumberSubSelf(v.value.n, arith);
  }

  /** A delta is the plain difference of the means: 100 before and 150 now gives 50, whatever the duration. */
  lemma DeltaIsPlainDifference(arith: FloatArith)
    ensures SyncedEntry(SegmentValue(Set({}), None, [Integer(150)]),
                        Some(SegmentValue(Avg(PosInt(100)), None, [Integer(100)])), arith).delta
            == Some(PosInt(50))
  {
    assert IntSumFrom(0, [Integer(150)]) == 150;
  }

  /** An entry whose previous value is not a mean, or that has no previous entry, keeps its delta. */
  lemma DeltaKeptWithoutPreviousMean(v: SegmentValue, prev: Option<SegmentValue>, arith: FloatArith)
    requires |v.rawValues| > 0
    requires prev.None? || prev.value.value.Set?
    ensures SyncedEntry(v, prev, arith).delta == v.delta
  {
  }
}
