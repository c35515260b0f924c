# magpies core in Dafny

magpies polls probe commands, writes each timestamped JSON result as one line of a
JSONL log, and rebuilds a time series from that log for viewing. This project
models the three core files of the Rust implementation and proves properties of
the model:

- **Records and the time series** (`src/record.rs`):
  - A record's JSON value is flattened into a map from dotted key paths to scalar
    item values.
  - Item values have a total order.
  - Records are bucketed into fixed-width segments by their start second.
  - `sync_state` recomputes every dirty segment: per target and key, a
    representative value (an integer mean, a float mean, or the set of distinct
    samples) and a delta; per key, an aggregated sum across targets.
- **Number formatting** (`src/num.rs`):
  - The `Seconds*` wrappers.
  - Thousands grouping of `u64`/`i64` values with `,`.
  - Grouping of an already formatted float string: the integer part is grouped
    from the right, the fraction from the left.
- **The JSONL reader** (`src/jsonl.rs`): a buffered reader that splits a byte
  stream at newlines and decodes one item per line.

Modules:

| module | file | contents |
|---|---|---|
| `Base` | base.dfy | machine integers, `Option`, `Ordering`, sequence reversal |
| `Order` | order.dfy | lexicographic string order; the ascending key order of a `BTreeMap` |
| `Values` | values.dfy | `ItemValue`, `f64` as a bit pattern, the item order |
| `Json` | json.dfy | JSON trees and `serde_json::Number` |
| `Flatten` | flatten.dfy | `flatten_json_value`, `Record::flatten`, and a leaf-path account of flattening |
| `NumberOps` | number_ops.dfy | wrapping `i64` arithmetic, `apply_number_op`, `number_add`, `number_sub` |
| `Segments` | segments.dfy | `SegmentValue`, `RepresentativeValue`, `AggregatedValue`, `TimeSeriesSegment` and their recomputation |
| `Series` | series.dfy | the `TimeSeries` class |
| `Num` | num.dfy | `src/num.rs` |
| `Jsonl` | jsonl.dfy | `JsonlReader` over an `array<byte>`, with a chunked input stream |

How some things are represented:

- **Floats.** An `f64` is its bit pattern, so `total_cmp` and finiteness are exact.
  Float addition, subtraction, division and the integer-to-float cast are supplied
  by the caller as a `FloatArith` value. The float-sum start value is a field of it.
- **Integer overflow.** `i64` arithmetic wraps around, as in a release build.
- **Segments.** A segment is a value: the map holds clones, and the sync methods
  return the new segment.
- **Item maps.** `BTreeMap` and `BTreeSet` become `map` and `set`. Where iteration
  order matters (the cross-target fold), the model folds the targets in ascending
  key order.
- **Time.** `insert` takes the record's timestamp as whole seconds.
- **The JSONL reader's input.** The inner `Read` is a queue of byte chunks. Each
  read returns a prefix of the head chunk; an empty head chunk reads as 0 bytes and
  is then dropped. The reader keeps the whole stream as ghost state, and what it has
  delivered plus what is still queued is always that stream. `serde_json::from_slice` is a `Decoder` parameter: a decode
  function and a null test.

Where the code differs from the intended behaviour (array keys indexed, deltas per
unit time, the previous segment in time, an aggregated map), the model follows the
code:

- **Array elements in keys.** Flattening does not add an element's index to the
  key: only a `.` is appended, and the index is printed to standard output. All
  elements of an array therefore write to the same key, and the last one wins
  (`Flatten.ScalarArrayLastWins`, `Flatten.RenderIgnoresIndex`).
- **Deltas.**
  - A delta is the plain difference of two means. It is not divided by the
    segment duration.
  - The "previous" segment handed to a segment's recomputation is that segment
    itself, as it was before recomputation, not the segment before it in time.
    So an already up-to-date integer mean gets delta 0
    (`Segments.ResyncGivesZeroDelta`).
- **Aggregated values.** `aggregated_values` is never populated: nothing inserts
  into it. The aggregation loop therefore runs over an empty map, and every stored
  segment keeps `aggregated_values` empty (`Series.TimeSeries.Valid`). The fold is
  still modelled and proved for any map.
- **The aggregation fold.** When the fold sees an `Avg` against a `Set`, it resets
  the running sum to none. The next target's value then starts a new sum
  (`Segments.AggregateRestartExample`). The fold does not stay at none.
- **`TimeSeries` fields.** `TimeSeries` has no `end_time` field, and there is no
  maximum-timestamp bookkeeping.
- **Null lines in the JSONL reader.**
  - A `null` line on the buffered (fast) path decodes as `Option<T>`, so it yields
    `Ok(None)`, which reads like end of stream.
  - On the read path a line decodes as `T`.
- **Decode errors in the JSONL reader.** A decode error on the read path leaves the
  failed line at offset 0. Later calls scan only newly read bytes, so that line's
  newline is never found again. The model tracks this with the ghost flag
  `healthy`.

## Model

| member | source | states |
|---|---|---|
| `Base.CmpInt` | src/record.rs:151-152 | `Less`/`Equal` exactly when the first integer is smaller/equal |
| `Base.ReverseReverse` | src/num.rs:92 | reversing twice gives back the sequence |
| `Base.ReverseAppend` | src/num.rs:92 | the reverse of a concatenation is the concatenation of the reverses, swapped |
| `Order.CmpStringEqual` | src/record.rs:154 | string comparison is `Equal` exactly for equal strings |
| `Order.CmpStringReverse` | src/record.rs:154 | swapping the arguments reverses the string ordering |
| `Order.CmpStringTransitive` | src/record.rs:154 | string `Less` is transitive |
| `Order.KeysAscendingFacts` | src/record.rs:340-343 | the iteration order of map keys lists every key once, in strictly ascending order |
| `Order.KeysAscendingFirst` | src/record.rs:340-343 | iteration starts at the least key and continues with the rest |
| `Values.TotalKey` | src/record.rs:153 | the `total_cmp` key of an `f64` is in the `i64` range and negative exactly when the sign bit is set |
| `Values.ItemValue.AsI64` | src/record.rs:122-128 | `Some` exactly for an `Integer` and holding its value |
| `Values.ItemValue.AsF64` | src/record.rs:130-138 | `Some` exactly for numbers; a `Float` gives its own bits |
| `Values.CmpByRank` | src/record.rs:155-162 | values of different kinds are ordered Null < Bool < Integer < Float < String |
| `Values.EqIsEquality` | src/record.rs:167-171 | `eq` holds exactly for identical values |
| `Values.CmpReverse` | src/record.rs:147-165 | swapping the arguments reverses the ordering |
| `Values.CmpTransitive` | src/record.rs:147-165 | `Less` is transitive |
| `Values.CmpIsTotalOrder` | src/record.rs:147-165 | `cmp` is reflexive, `Equal` only for identical values, antisymmetric and transitive |
| `Json.Number.AsI64` | src/record.rs:184 | `Some` exactly for negative integers and for non-negative ones up to `i64::MAX`, with the same value |
| `Json.Number.AsU64` | src/record.rs:186 | `Some` exactly for non-negative integers, with the same value |
| `Json.Number.AsF64` | src/record.rs:188 | always `Some`; a float number gives its own bits |
| `Json.FromI64` | src/record.rs:407 | the number built from an `i64` is an integer whose `as_i64` gives it back |
| `Json.FromF64` | src/record.rs:409 | `Some` exactly for finite floats, holding that float |
| `Json.FromI64AsI64` | src/record.rs:406-407 | rebuilding a number from its `as_i64` gives the same number |
| `Json.ItemOfNumber` | src/record.rs:183-193 | an `i64`-representable number becomes that integer, a larger `u64` becomes `i64::MAX`, a float stays that float |
| `Flatten.ScalarItem` | src/record.rs:177-196 | each JSON scalar becomes the item of the same kind and payload; a number becomes exactly the item `ItemOfNumber` gives it |
| `Flatten.ElementKey` | src/record.rs:201-203 | an element's key is the parent key plus `.`, or empty under the root |
| `Flatten.MemberKey` | src/record.rs:211-215 | a member's key is the parent key, `.` and the member name, or the bare name under the root |
| `Flatten.FlattenJsonValue` | src/record.rs:175-221 | leaves the key buffer as it found it and inserts exactly what the recursive flattening function gives |
| `Flatten.Record.Flatten` | src/record.rs:18-28 | keeps target and timestamp; the items are the flattened value, one key per rendered leaf path |
| `Flatten.FlattenIsApply` | src/record.rs:175-221 | flattening inserts each leaf of the tree, in depth-first order, under its rendered path |
| `Flatten.ElementsIsApply` | src/record.rs:197-208 | flattening array elements inserts the leaves of the elements in order |
| `Flatten.MembersIsApply` | src/record.rs:209-219 | flattening object members inserts the leaves of the members in order |
| `Flatten.ApplyAppend` | src/record.rs:200-207 | inserting two leaf lists one after the other is inserting their concatenation |
| `Flatten.ApplyKeys` | src/record.rs:175-221 | the resulting keys are the old keys plus every rendered leaf path |
| `Flatten.ApplyLastWins` | src/record.rs:178-195 | a key holds the value of the last leaf rendered to it |
| `Flatten.ApplyUntouched` | src/record.rs:178-195 | an existing key that no leaf renders to keeps its value |
| `Flatten.FlattenedLastLeaf` | src/record.rs:18-28 | in a flattened record a key holds the last leaf rendered to it |
| `Flatten.RenderAppend` | src/record.rs:200-216 | rendering a path in two parts is rendering the whole path |
| `Flatten.RenderIgnoresIndex` | src/record.rs:197-208 | the array index never reaches the key |
| `Flatten.ScalarArrayLastWins` | src/record.rs:197-208 | flattening an array of scalars leaves only the last element under the element key |
| `Flatten.ScalarArrayExample` | src/record.rs:197-208 | `[1,2]` flattens to one entry holding 2; `{"a":[true,null]}` to `"a."` holding null |
| `NumberOps.WrapI64` | src/record.rs:389-393 | an in-range value is unchanged, and the result differs from the input by a multiple of 2^64 |
| `NumberOps.TruncDiv` | src/record.rs:432 | the quotient truncated toward zero has the sign of the dividend; for a dividend of 0 or more, `q*b <= a < q*b + b`, and for a negative one, `q*b - b < a <= q*b` |
| `NumberOps.NegDivFacts` | src/record.rs:432 | a negative dividend lies within one divisor below its quotient truncated toward zero, times the divisor |
| `NumberOps.TruncDivBounds` | src/record.rs:432 | a dividend between `lo * b` and `hi * b` gives a quotient between `lo` and `hi` |
| `NumberOps.ApplyNumberOp` | src/record.rs:396-413 | two `i64`-representable numbers go through the integer operation; otherwise the float result, kept only when finite |
| `NumberOps.NumberAdd` | src/record.rs:392-394 | integers add with wrap-around; otherwise there is a result exactly when the float sum of the two `as_f64` values is finite, and it is that sum |
| `NumberOps.NumberSub` | src/record.rs:388-390 | integers subtract with wrap-around; otherwise there is a result exactly when the float difference of the two `as_f64` values is finite, and it is that difference |
| `NumberOps.NumberAddExact` | src/record.rs:392-394 | without overflow, the integer sum is exact |
| `NumberOps.NumberSubThenAdd` | src/record.rs:388-394 | on integers, adding back what was subtracted gives the original number, across wrap-around too |
| `NumberOps.NumberSubSelf` | src/record.rs:388-390 | an integer minus itself is 0 |
| `NumberOps.NumberAddCommutes` | src/record.rs:392-394 | `number_add` is commutative when the float addition is |
| `NumberOps.LargeU64GoesThroughFloat` | src/record.rs:406-409 | a `u64` above `i64::MAX` is added in floating point |
| `Segments.SegmentValue.SyncRepresentativeValue` | src/record.rs:429-445 | the representative value of the samples replaces the value; delta and samples stay |
| `Segments.SegmentValue.SyncDelta` | src/record.rs:447-456 | when both values are means, the delta becomes their `number_sub`; otherwise nothing changes |
| `Segments.Representative` | src/record.rs:429-445 | all integers give the wrapped integer mean; else all numbers with a finite float mean give that mean; otherwise the set of exactly the samples |
| `Segments.IntSumIsWrappedTotal` | src/record.rs:431 | the wrapping `i64` sum is the exact total wrapped into `i64` |
| `Segments.IntMeanWithinBounds` | src/record.rs:430-433 | without overflow, the integer mean lies between the smallest and largest sample bounds |
| `Segments.IntMeanOfEqual` | src/record.rs:430-433 | the mean of equal integers, without overflow, is that integer |
| `Segments.RepresentativeExamples` | src/record.rs:429-445 | the means of `[2,4,6]` and `[-1,-2]` are 4 and -1 (truncation); a string among the samples gives a set |
| `Segments.PrevEntry` | src/record.rs:326-330 | finds the previous segment's value for a target and key exactly when both are present |
| `Segments.SyncedEntry` | src/record.rs:324-332 | the value is the samples' representative, and the delta is the difference from a previous mean when there is one |
| `Segments.SyncSegmentValues` | src/record.rs:324-333 | recomputes every key of one target as `SyncedEntry` does |
| `Segments.TimeSeriesSegment.SyncTargetSegmentValues` | src/record.rs:322-335 | replaces the per-target values by their recomputed form and keeps everything else |
| `Segments.FoldStep` | src/record.rs:345-369 | the first value starts the sum, mixed kinds reset it to none, sets unite, means add with `number_add` |
| `Segments.FoldTargets` | src/record.rs:339-370 | the loop's sum is the fold over all targets in ascending order |
| `Segments.AggregateOfSets` | src/record.rs:365-368 | when every present value is a set, the sum is the union of those sets, or none when no target has the key |
| `Segments.AggregateSetsFrom` | src/record.rs:365-368 | folding sets onto a set adds their union |
| `Segments.AggregateIntsFrom` | src/record.rs:357-364 | folding integer means gives their wrapped total |
| `Segments.AggregateRestartExample` | src/record.rs:345-356 | a mean then a set gives none; a third mean restarts the sum at that mean |
| `Segments.SyncedAggregate` | src/record.rs:371-383 | the new sum is stored, and the delta is updated only when both the old and the new sum are means |
| `Segments.TimeSeriesSegment.SyncAggregatedValues` | src/record.rs:337-385 | every aggregated entry gets the fold's sum and, where defined, a delta; everything else is kept |
| `Segments.TimeSeriesSegment.SyncState` | src/record.rs:317-320 | target values first, then aggregates |
| `Segments.EmptySegment` | src/record.rs:308-315 | starts at 0, ends at the duration, holds nothing |
| `Segments.SyncedSegmentShape` | src/record.rs:317-385 | recomputation keeps times, targets, keys and samples, and makes each value the representative of its samples |
| `Segments.ResyncGivesZeroDelta` | src/record.rs:288-296 | a segment compared with itself gives an up-to-date integer mean delta 0 |
| `Segments.DeltaIsPlainDifference` | src/record.rs:447-456 | 150 against 100 gives delta 50, not divided by the duration |
| `Segments.DeltaKeptWithoutPreviousMean` | src/record.rs:326-332 | without a previous mean, the delta is left as it was |
| `Series.Bucket` | src/record.rs:251-252 | the segment start is a multiple of the duration and at most the timestamp, and the timestamp lies inside the segment |
| `Series.NewSegment` | src/record.rs:260-265 | a new segment starts at its key, ends one duration later (when that fits in `u64`), and is empty |
| `Series.Pushed` | src/record.rs:270-275 | a sample is appended to an existing entry, or starts a new one from the default value |
| `Series.PushItems` | src/record.rs:270-276 | appends the items of a record to one target's values |
| `Series.AddRecordAppendsOnePerItem` | src/record.rs:266-276 | adding a record appends exactly one sample per item under its key and changes nothing else |
| `Series.AddRecordKeepsRawNonEmpty` | src/record.rs:270-276 | every sample list stays non-empty |
| `Series.MaxKey` | src/record.rs:281-286 | the greatest element of a non-empty set of keys |
| `Series.TimeSeries.constructor` | src/record.rs:235-242 | an empty series with the given duration and start 0 |
| `Series.TimeSeries.Insert` | src/record.rs:248-279 | adds the flattened record to its bucket (creating it), marks the bucket dirty, and lowers `start_time` to the bucket when earlier or the first one |
| `Series.TimeSeries.LastTime` | src/record.rs:281-286 | the greatest segment key, or 0 without segments |
| `Series.TimeSeries.SyncState` | src/record.rs:288-296 | the dirty set is emptied and exactly the dirty segments are recomputed, each against itself; the keys stay the same and clean segments are untouched |
| `Series.InsertKeepsWellFormed` | src/record.rs:257-276 | inserting keeps every segment at a multiple of the duration with its own times and non-empty samples |
| `Series.PartlySyncedStep` | src/record.rs:290-295 | recomputing one more dirty segment advances the partial result |
| `Series.SyncedSegmentsWellFormed` | src/record.rs:288-296 | syncing keeps the keys and the segment shape, leaves clean segments alone, and with no dirty segment changes nothing |
| `Num.SecondsU64.New` | src/num.rs:28-34 | `get` returns what `new` was given |
| `Num.SecondsNonZeroU64.New` | src/num.rs:54-60 | `get` returns what `new` was given |
| `Num.SecondsNonZeroU64.Get` | src/num.rs:58-60 | the value is at least 1 |
| `Num.DigitChar` | src/num.rs:87-88 | the character is the decimal digit of the value |
| `Num.DigitsFacts` | src/num.rs:83-91 | the digits of `n` are decimal digits without leading zero and read back as `n` |
| `Num.DecimalStringRoundTrip` | src/num.rs:76-79 | the decimal string is non-empty, reads back as `n`, and is `"0"` exactly for 0 |
| `Num.FmtU64` | src/num.rs:76-94 | the result is the decimal string grouped from the right in threes |
| `Num.FormattedU64Shape` | src/num.rs:76-94 | removing the commas gives the decimal string, and the groups are well formed |
| `Num.UnsignedAbs` | src/num.rs:98 | the absolute value, `i64::MIN` included |
| `Num.FmtI64` | src/num.rs:96-102 | a `-` followed by the grouped absolute value for negatives, the grouped value otherwise |
| `Num.SplitOnce` | src/num.rs:106-108 | the integer part has no `.`, and with a fraction, integer, `.` and fraction make up the input |
| `Num.SplitOnceAt` | src/num.rs:106-108 | splitting at the first separator gives the parts around it |
| `Num.GroupFormattedFloat` | src/num.rs:104-130 | computes the grouped float string |
| `Num.GroupIntegerChars` | src/num.rs:110-117 | the reversed walk with a comma before every third digit (not after a sign) groups the integer part from the right |
| `Num.PushGroupedFraction` | src/num.rs:119-127 | appends `.` and the fraction grouped from the left |
| `Num.UngroupIntegerPart` | src/num.rs:110-117 | removing commas from the grouped integer part gives it back |
| `Num.UngroupFraction` | src/num.rs:119-127 | removing commas from the grouped fraction gives it back |
| `Num.UngroupFloatString` | src/num.rs:104-130 | removing commas from the grouped float string gives back the formatted string |
| `Num.GroupedDigitsWellFormed` | src/num.rs:110-117 | a grouped digit string has a first group of 1 to 3 digits and then groups of exactly 3 |
| `Num.GroupedFractionWellFormed` | src/num.rs:119-127 | a grouped fraction has groups of exactly 3 and then a last group of 1 to 3 |
| `Num.GroupIntegerPartSplit` | src/num.rs:110-117 | grouping splits at any point that leaves a multiple of three digits on the right |
| `Num.NoCommaAfterSign` | src/num.rs:112 | no comma is placed right after a leading `-` |
| `Num.GroupFractionFromPeriodic` | src/num.rs:121-123 | the comma positions of the fraction repeat every three digits |
| `Num.GroupedFloatStringShape` | src/num.rs:104-130 | a formatted float becomes sign, grouped integer part, `.` and grouped fraction, each well formed |
| `Num.GroupedIntegerStringShape` | src/num.rs:104-117 | a float formatted with no decimals becomes sign and grouped integer part, well formed, with no `.` |
| `Num.RemoveCommasKeeps` | src/num.rs:104-130 | removing commas keeps every other character |
| `Jsonl.FirstNewline` | src/jsonl.rs:29-32 | the position of the first newline, or the length when there is none, with no newline before it |
| `Jsonl.SplitJoin` | src/jsonl.rs:24-67 | bytes made of newline-free lines, each ending in a newline, split back into those lines |
| `Jsonl.LinesAfterFirst` | src/jsonl.rs:57-64 | a line followed by a newline is the first complete line of the stream |
| `Jsonl.NoCompleteLines` | src/jsonl.rs:50-51 | newline-free bytes hold no complete line and are all trailing |
| `Jsonl.SplitExample` | src/jsonl.rs:24-67 | `1␤2 3␤4` has complete lines `[1]`, `[2,3]` and trailing `[4]` |
| `Jsonl.ConsumeLine` | src/jsonl.rs:34-35 | consuming the bytes before a newline and skipping it keeps the account of what was read |
| `Jsonl.DecodeOption` | src/jsonl.rs:34 | a null line decodes to `None`, any other line to `Some` of its decoding, errors included |
| `Jsonl.TakeFromHead` | src/jsonl.rs:49 | taking `n` bytes from the head chunk leaves the stream unchanged: the bytes taken plus the rest of the head and the later chunks |
| `Jsonl.ChunkReader.Read` | src/jsonl.rs:49 | copies `min(head length, space)` bytes of the next chunk after `from`, leaves the part before it alone, and drops them from the queue (the whole chunk when all of it was taken); returns 0 exactly at an empty chunk (which is dropped) or the end; what was delivered plus what is queued is always the whole stream |
| `Jsonl.JsonlReader.constructor` | src/jsonl.rs:15-22 | a 4096-byte buffer with nothing buffered |
| `Jsonl.JsonlReader.Compact` | src/jsonl.rs:39-41 | moves the unconsumed bytes to the start of the buffer and keeps their contents |
| `Jsonl.JsonlReader.Grow` | src/jsonl.rs:45-47 | doubles the buffer and keeps its contents |
| `Jsonl.JsonlReader.Accounted` | src/jsonl.rs:6-12 | the lines returned plus the complete lines still buffered are exactly the complete lines read so far |
| `Jsonl.JsonlReader.ReadItem` | src/jsonl.rs:24-67 | a buffered newline is decoded as an optional item without reading; otherwise reads until a new newline (decoded as an item) or a 0-byte read (`Ok(None)`, with everything read accounted for); a read-path error is the decoding of the buffer's bytes up to a newline among the newly read bytes (while healthy, the buffer's first newline), and consumes nothing; on a stream without empty chunks, `Ok(None)` from the read path means the whole stream was read and, while healthy, the lines returned are its complete lines and the buffer holds its trailing bytes |
| `Jsonl.JsonlReader.ReadUntilLine` | src/jsonl.rs:44-66 | the read loop ends in one of the read-path outcomes; an error names the buffer's bytes up to a newline among the newly read bytes, which while healthy is the buffer's first newline |
| `Jsonl.JsonlReader.ReadStep` | src/jsonl.rs:45-65 | one round of the loop: grow if full, read, and stop at 0 bytes or a newline in the new bytes, ending in a read-path outcome whose error names the buffer's bytes up to that newline (while healthy, the buffer's first newline) |
| `Jsonl.JsonlReader.ReadMore` | src/jsonl.rs:49-55 | appends the bytes read after the buffered ones |
| `Jsonl.JsonlReader.EmptyReadOutcome` | src/jsonl.rs:50-51 | a 0-byte read into a compacted buffer is the `Ok(None)` outcome, with every complete line accounted for |
| `Jsonl.JsonlReader.ReadLineClean` | src/jsonl.rs:57-62 | the bytes before the first newline of the new bytes hold no newline |
| `Jsonl.JsonlReader.TakeBufferedLine` | src/jsonl.rs:29-36 | decodes the buffered line and consumes it on success only |
| `Jsonl.FirstLineExample` | src/jsonl.rs:15-67 | a fresh reader over the single chunk `A␤`, with an identity decoder, returns `Ok(Some([A]))` |
| `Jsonl.OneLineStream` | src/jsonl.rs:24-67 | the stream `A␤` has no empty chunk and the single complete line `[A]` |
| `Jsonl.OnlyLine` | src/jsonl.rs:57-64 | the only line followed by a newline in `A␤` is `[A]` |
| `Jsonl.JsonlReader.TakeReadLine` | src/jsonl.rs:57-64 | decodes the buffer's bytes before the first newline of the newly read bytes and consumes them on success; while healthy that is the buffer's first newline; an error leaves the reader unhealthy and names that line |

## Left out

- The poller, the CLI commands, the viewer and `main`: they are not part of this model.
- The `Seconds*` copies in `src/record.rs:30-95` duplicate those in `src/num.rs`. Only the `src/num.rs` ones are modelled.
- `SecondsF64`, `to_duration`, `Duration::as_secs` and `timestamp` read the clock or convert floats. `Record.timestamp` is whole seconds.
- `FromStr` for `SecondsU64`/`SecondsNonZeroU64` is decimal parsing from the standard library, left out.
- `TimeSeries::is_empty` is a plain emptiness test, left out.
- The `println!` in the array branch of `flatten_json_value` is output only, left out.
- Float arithmetic, the `u64`/`i64`-to-`f64` casts and the `{:.N}` float formatting are not modelled. Arithmetic is a parameter; `GroupFormattedFloat` starts from the formatted string.
- `Num.GroupFormattedFloat` does not model `fmt_f64`'s `format!` step, because float-to-decimal rendering is outside the model.
- Object members are a sequence in `serde_json::Map` iteration order (key order in the default build).
- `Values.ItemValue.AsF64` leaves the value of an integer converted to `f64` to the `FloatArith` parameter.
- `Json.Number.AsF64` likewise leaves the `u64`/`i64` conversion to the parameter.
- Debug builds panic on `i64` overflow in sums and on `u64` overflow of `end_time`. The model follows release builds (wrap-around).
- `Series.NewSegment` states `end_time` only when `start + duration` fits in `u64`; above that it wraps.
- The iteration order of the dirty set and of the per-target loops is not modelled. Those loops visit independent entries, so only the cross-target fold depends on order.
- `Segments.Representative` requires a non-empty sample list, which every stored segment has (`Series.AddRecordKeepsRawNonEmpty`). An empty list would divide by zero in the source.
- `Segments.IntMeanWithinBounds` and `Segments.IntMeanOfEqual` assume the sum does not overflow. With overflow the mean is of the wrapped sum (`Segments.IntSumIsWrappedTotal`).
- I/O errors from the inner reader are left out: the chunk queue never fails.
- An endless input is left out. A pause in a tailed file is an empty chunk, and what follows it is the later chunks. Only input beyond the finite chunk queue is left out.
- The JSON decoder is a parameter; no JSON text is parsed.
- `Jsonl.JsonlReader.ReadItem` states that `Ok(None)` means the whole stream was read only for a stream without empty chunks: an empty chunk is a 0-byte read, which ends the call with data still queued, as a pause in a tailed file does.
- `Jsonl.JsonlReader.ReadItem` states complete-line accounting only while the reader is `healthy`, that is, until a read-path decode error. After one, the source no longer splits lines correctly.
