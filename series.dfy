/**
 * `TimeSeries` (src/record.rs:226-297): records bucketed into fixed-width segments
 * keyed by their start second, with the set of segments that need recomputing.
 */
module Series {
  import opened Base
  import opened Values
  import opened Json
  import opened Flatten
  import opened Num
  import opened Segments

  /** The start of the segment that second `secs` falls in: `secs - secs % d`. */
  function Bucket(secs: u64, d: SecondsNonZeroU64): (k: u64)
    ensures k % d.Get() == 0
    ensures k <= secs < k + d.Get()
  {
    BucketFacts(secs, d.Get());
    secs - secs % d.Get()
  }

  lemma BucketFacts(secs: nat, d: nat)
    requires d > 0
    ensures (secs - secs % d) % d == 0
  {
    var q := secs / d;
    assert secs == q * d + secs % d;
    MultipleMod(q, d);
  }

  lemma MultipleMod(q: nat, d: nat)
    requires d > 0
    ensures (q * d) % d == 0
  {
    var p, r := (q * d) / d, (q * d) % d;
    assert q * d == p * d + r && 0 <= r < d;
    assert r == (q - p) * d;
    MulSign(q - p, d);
  }

  lemma MulSign(t: int, d: int)
    requires d > 0
    ensures t >= 1 ==> t * d >= d
    ensures t <= -1 ==> t * d <= -d
  {
    if t >= 1 {
      assert t * d == d + (t - 1) * d;
    } else if t <= -1 {
      assert t * d == -d + (t + 1) * d;
    }
  }

  /**
   * The segment `insert` creates for bucket `k`. Its `end_time` is `k + d`, which the
   * release build wraps modulo 2^64 in the one bucket where it overflows.
   */
  function NewSegment(k: u64, d: SecondsNonZeroU64): (s: TimeSeriesSegment)
    ensures s.startTime == k
    ensures k + d.Get() < TWO_POW_64 ==> s.endTime == k + d.Get()
    ensures s.aggregatedValues == map[] && s.targetSegmentValues == map[]
  {
    TimeSeriesSegment(k, (k + d.Get()) % TWO_POW_64, map[], map[])
  }

  /** The entry of `key` after one more sample `x`: `entry(key).or_default().raw_values.push(x)`. */
  function Pushed(values: TargetValues, key: string, x: ItemValue): (v: SegmentValue)
    ensures key in values ==> v == values[key].(rawValues := values[key].rawValues + [x])
    ensures key !in values ==> v == SegmentValue(Set({}), None, [x])
  {
    var e := if key in values then values[key] else DEFAULT_SEGMENT_VALUE;
    e.(rawValues := e.rawValues + [x])
  }

  /** One target's values after a record's items are appended. */
  ghost function AppendItems(values: TargetValues, items: Items): TargetValues {
    map key | key in values.Keys + items.Keys :: if key in items then Pushed(values, key, items[key]) else values[key]
  }

  /** A segment after a record of `target` with flattened `items` is added to it. */
  ghost function AddRecord(seg: TimeSeriesSegment, target: string, items: Items): TimeSeriesSegment {
    var tsv := seg.targetSegmentValues;
    var values := if target in tsv then tsv[target] else map[];
    seg.(targetSegmentValues := tsv[target := AppendItems(values, items)])
  }

  /** The push loop of `insert` (src/record.rs:270-276). */
  method PushItems(values0: TargetValues, items: Items) returns (values: TargetValues)
    ensures values == AppendItems(values0, items)
  {
    values := values0;
    var todo := items.Keys;
    while todo != {}
      invariant todo <= items.Keys
      invariant values.Keys == values0.Keys + (items.Keys - todo)
      invariant forall key :: key in values ==>
                  values[key] == if key in items && key !in todo then Pushed(values0, key, items[key]) else values0[key]
      decreases todo
    {
      var key :| key in todo;
      var entry := if key in values then values[key] else DEFAULT_SEGMENT_VALUE;
      values := values[key := entry.(rawValues := entry.rawValues + [items[key]])];
      todo := todo - {key};
    }
  }

  /**
   * Adding a record appends exactly one sample per flattened item to that target's
   * entry for the item's key, and changes nothing else.
   */
  lemma AddRecordAppendsOnePerItem(seg: TimeSeriesSegment, target: string, items: Items)
    ensures var r := AddRecord(seg, target, items);
      var before := if target in seg.targetSegmentValues then seg.targetSegmentValues[target] else map[];
      && r.startTime == seg.startTime && r.endTime == seg.endTime && r.aggregatedValues == seg.aggregatedValues
      && r.targetSegmentValues.Keys == seg.targetSegmentValues.Keys + {target}
      && (forall t :: t in seg.targetSegmentValues && t != target ==> r.targetSegmentValues[t] == seg.targetSegmentValues[t])
      && r.targetSegmentValues[target].Keys == before.Keys + items.Keys
      && (forall key :: key in items ==>
            r.targetSegmentValues[target][key].rawValues
            == (if key in before then before[key].rawValues else []) + [items[key]])
      && (forall key :: key in before && key !in items ==> r.targetSegmentValues[target][key] == before[key])
  {
  }

  /** Adding a record keeps every sample list non-empty. */
  lemma AddRecordKeepsRawNonEmpty(seg: TimeSeriesSegment, target: string, items: Items)
    requires RawNonEmpty(seg.targetSegmentValues)
    ensures RawNonEmpty(AddRecord(seg, target, items).targetSegmentValues)
  {
    var r: AllTargetValues := AddRecord(seg, target, items).targetSegmentValues;
    forall t, k | t in r && k in r[t] ensures |r[t][k].rawValues| > 0 {
      if t != target {
        assert r[t] == seg.targetSegmentValues[t];
      }
    }
  }

  predicate IsMax(m: u64, s: set<u64>) {
    m in s && forall k :: k in s ==> k <= m
  }

  /** A non-empty set of keys has a greatest element. */
  lemma {:induction false} MaxExists(s: set<u64>)
    requires s != {}
    ensures exists m :: IsMax(m, s)
    decreases |s|
  {
    var x :| x in s;
    if s == {x} {
      assert IsMax(x, s);
    } else {
      MaxExists(s - {x});
      var m :| IsMax(m, s - {x});
      var top := if x > m then x else m;
      forall k | k in s ensures k <= top {
        if k != x {
          assert k in s - {x};
        }
      }
      assert IsMax(top, s);
    }
  }

  function MaxKey(s: set<u64>): (m: u64)
    requires s != {}
    ensures IsMax(m, s)
  {
    MaxExists(s);
    var m :| IsMax(m, s);
    m
  }

  class TimeSeries {
    /** The earliest segment start (0 while there are none). */
    var startTime: u64
    const segmentDuration: SecondsNonZeroU64
    var segments: map<u64, TimeSeriesSegment>
    var dirtySegments: set<u64>

    /**
     * Every dirty key is a segment; each segment sits at a multiple of the duration,
     * knows its own start and end, has no aggregated values (nothing ever adds any),
     * and has only non-empty sample lists; `start_time` is the least key.
     */
    predicate Valid()
      reads this
    {
      && dirtySegments <= segments.Keys
      && AllWellFormed(segments, segmentDuration)
      && (segments != map[] ==> startTime in segments && forall k :: k in segments ==> startTime <= k)
    }

    /** `TimeSeries::new`. */
    constructor (segmentDuration: SecondsNonZeroU64)
      ensures Valid()
      ensures this.segmentDuration == segmentDuration
      ensures startTime == 0 && segments == map[] && dirtySegments == {}
    {
      this.startTime := 0;
      this.segmentDuration := segmentDuration;
      this.segments := map[];
      this.dirtySegments := {};
    }

    /**
     * `insert`: flattens the record, adds its items to the segment of its second
     * (creating the segment if needed) and marks that segment dirty.
     */
    method Insert(record: Record)
      requires Valid()
      modifies this
      ensures Valid()
      ensures var k := Bucket(record.timestamp, segmentDuration);
        && segments == old(segments)[k := AddRecord(if k in old(segments) then old(segments)[k] else NewSegment(k, segmentDuration),
                                                    record.target, Flattened(record.value))]
        && dirtySegments == old(dirtySegments) + {k}
        && startTime == (if old(segments) == map[] || k < old(startTime) then k else old(startTime))
    {
      var flat := record.Flatten();
      var start := Bucket(flat.timestamp, segmentDuration);
      if segments == map[] || start < startTime {
        startTime := start;
      }
      var segment := if start in segments then segments[start] else NewSegment(start, segmentDuration);
      var tsv := segment.targetSegmentValues;
      var values := if flat.target in tsv then tsv[flat.target] else map[];
      values := PushItems(values, flat.items);
      ghost var before := segment;
      segment := segment.(targetSegmentValues := tsv[flat.target := values]);
      assert segment == AddRecord(before, record.target, flat.items);
      InsertKeepsWellFormed(segments, start, record.target, flat.items, segmentDuration);
      segments := segments[start := segment];
      dirtySegments := dirtySegments + {start};
    }

    /** `last_time`: the greatest segment start, or 0 when there is none. */
    function LastTime(): (r: u64)
      reads this
      ensures segments == map[] ==> r == 0
      ensures segments != map[] ==> r in segments && forall k :: k in segments ==> k <= r
    {
      if segments == map[] then 0 else MaxKey(segments.Keys)
    }

    /**
     * `sync_state`: takes the dirty set and recomputes each dirty segment, handing
     * it its own pre-recomputation copy as the "previous" segment.
     */
    method SyncState(arith: FloatArith)
      requires Valid()
      modifies this
      ensures Valid()
      ensures dirtySegments == {} && startTime == old(startTime)
      ensures segments == SyncedSegments(old(segments), old(dirtySegments), arith)
      ensures segments.Keys == old(segments.Keys)
      ensures forall k :: k in old(segments) && k !in old(dirtySegments) ==> segments[k] == old(segments[k])
    {
      var empty := EmptySegment(segmentDuration);
      var todo := dirtySegments;
      ghost var dirty0 := dirtySegments;
      dirtySegments := {};
      ghost var segs0 := segments;
      var segs := segments;
      while todo != {}
        invariant todo <= dirty0 <= segs0.Keys
        invariant AllWellFormed(segs0, segmentDuration)
        invariant dirtySegments == {} && startTime == old(startTime) && segments == segs0
        invariant segs == PartlySynced(segs0, dirty0, todo, arith)
        decreases todo
      {
        var start :| start in todo;
        var prev := if start in segs then segs[start] else empty;
        assert start in segs;
        var segment := segs[start].SyncState(prev, arith);
        PartlySyncedStep(segs0, dirty0, todo, start, arith);
        segs := segs[start := segment];
        todo := todo - {start};
      }
      assert dirty0 - todo == dirty0;
      SyncedSegmentsWellFormed(segs0, dirty0, segmentDuration, arith);
      segments := segs;
    }
  }

  predicate AllWellFormed(segs: map<u64, TimeSeriesSegment>, d: SecondsNonZeroU64) {
    forall k :: k in segs ==> SegmentWellFormed(k, segs[k], d)
  }

  lemma InsertKeepsWellFormed(segs: map<u64, TimeSeriesSegment>, k: u64, target: string, items: Items, d: SecondsNonZeroU64)
    requires AllWellFormed(segs, d) && k % d.Get() == 0
    ensures AllWellFormed(segs[k := AddRecord(if k in segs then segs[k] else NewSegment(k, d), target, items)], d)
  {
    var before := if k in segs then segs[k] else NewSegment(k, d);
    AddRecordKeepsRawNonEmpty(before, target, items);
  }

  /** The segments after `sync_state`: each dirty one recomputed against its own copy. */
  ghost function SyncedSegments(segs: map<u64, TimeSeriesSegment>, dirty: set<u64>, arith: FloatArith)
    : map<u64, TimeSeriesSegment>
    requires forall k :: k in segs ==> RawNonEmpty(segs[k].targetSegmentValues)
  {
    map k | k in segs :: if k in dirty then SyncedSegment(segs[k], segs[k], arith) else segs[k]
  }

  /** The segments part way through `sync_state`, with the keys in `todo` not yet recomputed. */
  ghost function PartlySynced(segs: map<u64, TimeSeriesSegment>, dirty: set<u64>, todo: set<u64>, arith: FloatArith)
    : map<u64, TimeSeriesSegment>
    requires forall k :: k in segs ==> RawNonEmpty(segs[k].targetSegmentValues)
  {
    SyncedSegments(segs, dirty - todo, arith)
  }

  lemma PartlySyncedStep(segs: map<u64, TimeSeriesSegment>, dirty: set<u64>, todo: set<u64>, k: u64, arith: FloatArith)
    requires forall k :: k in segs ==> RawNonEmpty(segs[k].targetSegmentValues)
    requires k in todo && todo <= dirty <= segs.Keys
    ensures k in PartlySynced(segs, dirty, todo, arith)
    ensures PartlySynced(segs, dirty, todo, arith)[k] == segs[k]
    ensures PartlySynced(segs, dirty, todo, arith)[k := SyncedSegment(segs[k], segs[k], arith)]
            == PartlySynced(segs, dirty, todo - {k}, arith)
  {
    assert dirty - (todo - {k}) == (dirty - todo) + {k};
  }

  /**
   * `sync_state` keeps the segment keys and leaves clean segments alone, so with
   * nothing dirty (a second call without an `insert` in between) it changes nothing;
   * recomputed segments keep their shape.
   */
  lemma SyncedSegmentsWellFormed(segs: map<u64, TimeSeriesSegment>, dirty: set<u64>, d: SecondsNonZeroU64, arith: FloatArith)
    requires AllWellFormed(segs, d)
    ensures var r := SyncedSegments(segs, dirty, arith);
      && r.Keys == segs.Keys
      && AllWellFormed(r, d)
      && (forall k :: k in segs && k !in dirty ==> r[k] == segs[k])
      && (dirty == {} ==> r == segs)
  {
    var r := SyncedSegments(segs, dirty, arith);
    forall k | k in r ensures SegmentWellFormed(k, r[k], d) {
      if k in dirty {
        SyncedSegmentShape(segs[k], segs[k], arith);
      }
    }
  }

  /** The shape every stored segment keeps. */
  predicate SegmentWellFormed(k: u64, seg: TimeSeriesSegment, d: SecondsNonZeroU64) {
    && k % d.Get() == 0
    && seg.startTime == k && seg.endTime == (k + d.Get()) % TWO_POW_64
    && seg.aggregatedValues == map[]
    && RawNonEmpty(seg.targetSegmentValues)
  }
}
