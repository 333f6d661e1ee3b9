# SEH1 distribution and configuration-path formatting

A Dafny model of two independent pieces of the CloudWatch agent.

**The SEH1 metric distribution** is a sparse exponential histogram with base 1.1. It is a mergeable summary of a stream of (value, weight) samples:

- a map from bucket index to accumulated weight;
- the running sum of value × weight;
- the total weight (sample count);
- the smallest and largest value seen;
- a unit label.

The model has three layers:

- `Seh1Codec` (`seh1_codec.dfy`): the value-to-bucket codec, in exact real arithmetic. `Pow(i)` is 1.1^i, and `BucketOf(v)` is the unique `i` with `Pow(i) <= v < Pow(i + 1)`, that is floor(log v / log 1.1). The value reported for bucket i, 1.1^i × sqrt(1.1), is characterised exactly as the positive number whose square is 1.1^i × 1.1^(i+1) (`IsGeometricMean`). The bucket listing asks only for a value strictly inside the bucket (`IsRepresentative`), which the geometric mean is.
- `Seh1Stats` (`seh1_stats.dfy`): the state as a datatype `Stats`, with:
  - the effect of an entry (`WithEntry`, `WithEntryAndUnit`) and of a merge (`Merge`) as functions;
  - the invariant `Consistent` that every reachable state keeps;
  - the algebra of merging: commutative for compatible units, associative, with the empty distribution as unit element;
  - the conservation laws of entry streams;
  - the exact values the distribution test expects.
- `Seh1` (`seh1_distribution.dfy`): the class `SEH1Distribution`.
  - Its fields are updated in place by `AddEntry`, `AddEntryWithUnit` and `AddDistribution`.
  - Each method is proved to move the object's state exactly as the `Seh1Stats` function says, and to keep `Valid()`.
  - `ValuesAndCounts` lists the buckets with a loop.
  - `CloneSEH1Distribution` copies the bucket map with a loop.
  - `TestSEH1Distribution` replays the distribution test and proves every value it asserts.

**`GetFormattedPath`** turns a JSON-schema validation path such as `(root).agent.metrics_collection_interval` into `/agent/metrics_collection_interval`, in two steps:

1. The anchored pattern `^\(root\).` replaces a leading `(root)` and the one character after it with `/`. Its last `.` is an unescaped wildcard, so that character is anything but a newline.
2. Every `.` becomes `/`.

The function and its lemmas are in `ConfigSchema` (`config_schema.dfy`). The two documented examples are worked out in `ConfigSchemaExamples` (`config_schema_examples.dfy`). The package-level schema string, with `GetJsonSchema` and `OverwriteSchema`, is the one-field class `ConfigSchema.SchemaStore`.

The implementation file of the distribution (`seh1_distribution.go`) is not part of this model. The class follows:

- the behaviour the distribution test pins down;
- the documented design of the distribution: an entry with a value or count that is not positive is rejected with no change, and a merge keeps a set receiver unit.

## Model

| member | source | states |
|---|---|---|
| Seh1Codec.BucketOf | metric/distribution/seh1/seh1_distribution_test.go:16-18 | every positive value gets the bucket whose bounds 1.1^i and 1.1^(i+1) enclose it |
| Seh1Codec.BucketOfUnique | metric/distribution/seh1/seh1_distribution_test.go:25-32 | the enclosing bucket is unique, so two values share a bucket exactly when the same bounds enclose both |
| Seh1Codec.BucketOfMonotone | metric/distribution/seh1/seh1_distribution_test.go:22-23 | a larger value never falls into a lower bucket, so the minimum's and the maximum's buckets are the lowest and the highest occupied ones |
| Seh1Codec.TestValueBuckets | metric/distribution/seh1/seh1_distribution_test.go:31 | the grouping the test relies on: 20 and 21 share bucket 31; 22 and 23 share bucket 32; 30 is in bucket 35 and 50 in bucket 41 |
| Seh1Codec.RepresentativesDistinct | metric/distribution/seh1/seh1_distribution_test.go:27-31 | representatives of different buckets differ, so keying the reported pairs by value loses nothing |
| Seh1Codec.RepresentativeRelativeError | metric/distribution/seh1/seh1_distribution_test.go:31 | any value strictly inside a bucket differs from every sample of that bucket by less than a factor 1.1, in either direction |
| Seh1Codec.GeometricMeanIsRepresentative | metric/distribution/seh1/seh1_distribution_test.go:31 | the value the source reports for bucket i, the positive r with r² = 1.1^i × 1.1^(i+1), lies strictly inside bucket i |
| Seh1Codec.GeometricMeanRelativeError | metric/distribution/seh1/seh1_distribution_test.go:31 | that reported value and every sample of its bucket differ by at most a factor sqrt(1.1) in either direction, stated on squares: r² <= 1.1 × v² and v² < 1.1 × r² |
| Seh1Stats.Empty | metric/distribution/seh1/seh1_distribution_test.go:14 | a new distribution has no bucket, sum and count 0 and unit ""; its minimum is at least and its maximum below every possible sample value, so the first entry replaces both (its consistency is EmptyConsistent) |
| Seh1Stats.WithEntry | metric/distribution/seh1/seh1_distribution_test.go:16-17 | the effect of an accepted AddEntry: the value's bucket exists and gains the count; count and sum grow; the value lies between the new extremes, which only move outward and are the old ones or the value; the unit is untouched. Its laws are WithEntryConsistent, Conservation, StreamExtremes and EntriesCommute |
| Seh1Stats.WithEntryAndUnit | metric/distribution/seh1/seh1_distribution_test.go:18 | the effect of an accepted AddEntryWithUnit: every field as after WithEntry, and the unit set to the given one unconditionally |
| Seh1Stats.MergedUnit | metric/distribution/seh1/seh1_distribution_test.go:65 | the unit after a merge: a set receiver unit is kept, an unset one adopts the other's, and the result is unset exactly when both are |
| Seh1Stats.Merge | metric/distribution/seh1/seh1_distribution_test.go:59-73 | the effect of AddDistribution on the receiver: the bucket indices are the union, each weight is the sum of both, the minimum is the smaller and the maximum the larger of the two. Its laws are MergeConsistent, MergeCommutative, MergeAssociative, MergeEmpty, MergeUnitNeverCleared and TotalWeightMerge |
| Seh1Stats.AddWeight | metric/distribution/seh1/seh1_distribution_test.go:39 | adding weight w to bucket i raises that bucket's weight by w, creates it if absent, and leaves every other bucket as it was |
| Seh1Stats.MergeBuckets | metric/distribution/seh1/seh1_distribution_test.go:59-73 | merged buckets are the union of both index sets, and each weight is the sum of the two weights |
| Seh1Stats.TotalWeightAddWeight | metric/distribution/seh1/seh1_distribution_test.go:37-42 | an entry of weight w raises the total bucket weight by w, not by one |
| Seh1Stats.TotalWeightMerge | metric/distribution/seh1/seh1_distribution_test.go:59-62 | the total weight of merged buckets is the sum of the two totals |
| Seh1Stats.TotalWeightPositive | metric/distribution/seh1/seh1_distribution_test.go:21 | with positive weights, the total is 0 exactly when there is no bucket and positive otherwise |
| Seh1Stats.CountZeroIffEmpty | metric/distribution/seh1/seh1_distribution_test.go:21 | in a consistent state the sample count is non-negative, and it is 0 exactly when no bucket is occupied |
| Seh1Stats.SameWeights | metric/distribution/seh1/seh1_distribution_test.go:77 | two bucket maps with the same indices and the same weights are equal, which is the field equality the test asserts |
| Seh1Stats.EmptyConsistent | metric/distribution/seh1/seh1_distribution_test.go:14 | a new distribution satisfies the invariant: no buckets, sum and count 0, the extreme sentinels |
| Seh1Stats.FirstEntryPopulates | metric/distribution/seh1/seh1_distribution_test.go:16 | the first entry makes its value both the minimum and the maximum, and the only bucket is that value's |
| Seh1Stats.NextEntryKeepsPopulated | metric/distribution/seh1/seh1_distribution_test.go:17-18 | later entries keep the minimum's and the maximum's buckets occupied and every bucket between them |
| Seh1Stats.WithEntryConsistent | metric/distribution/seh1/seh1_distribution_test.go:16-18 | an accepted entry keeps the invariant: positive weights, count equal to the total weight, minimum and maximum bracketing the buckets |
| Seh1Stats.MergeConsistent | metric/distribution/seh1/seh1_distribution_test.go:59 | merging two consistent distributions gives a consistent one |
| Seh1Stats.MergeCommutative | metric/distribution/seh1/seh1_distribution_test.go:76-77 | the merge direction does not matter when at most one unit is set or both are equal |
| Seh1Stats.MergeAssociative | metric/distribution/seh1/seh1_distribution_test.go:59-77 | merging is associative, so partial aggregates can be combined in any grouping |
| Seh1Stats.MergeEmpty | metric/distribution/seh1/seh1_distribution_test.go:14 | a new distribution is the unit element of merging, on either side |
| Seh1Stats.MergeUnitNeverCleared | metric/distribution/seh1/seh1_distribution_test.go:65 | a set receiver unit survives a merge; an unset one adopts the other's; the result is unset only when both are |
| Seh1Stats.EntryIsSingletonMerge | metric/distribution/seh1/seh1_distribution_test.go:16-18 | adding an entry is the same as merging in a new distribution that holds only that entry |
| Seh1Stats.EntriesCommute | metric/distribution/seh1/seh1_distribution_test.go:37-39 | the order of two entries does not change the state |
| Seh1Stats.Conservation | metric/distribution/seh1/seh1_distribution_test.go:37-42 | after a stream of entries, count, sum and each bucket's weight have grown by the stream's total weight, total value × weight and per-bucket weight; the unit is untouched |
| Seh1Stats.StreamExtremes | metric/distribution/seh1/seh1_distribution_test.go:22-23 | after a stream of entries, every value added lies between the minimum and the maximum; both only move outward; each is the starting one or one of the values added |
| Seh1Stats.EntriesExtremes | metric/distribution/seh1/seh1_distribution_test.go:22-23 | from a new distribution, the minimum and the maximum are the smallest and the largest value added, each attained by some entry |
| Seh1Stats.EntriesLeaveUnitUnset | metric/distribution/seh1/seh1_distribution_test.go:35-45 | a distribution built only with AddEntry reports the unit "" |
| Seh1Stats.ReplayConsistent | metric/distribution/seh1/seh1_distribution_test.go:16-18 | any stream of valid entries keeps the invariant |
| Seh1Stats.FirstTestResult | metric/distribution/seh1/seh1_distribution_test.go:16-24 | after 20, 30 and 50 with unit "Count": sum 100, count 3, minimum 20, maximum 50, unit "Count", buckets {31: 1, 35: 1, 41: 1} |
| Seh1Stats.SecondTestResult | metric/distribution/seh1/seh1_distribution_test.go:37-45 | after 21, 22 and 23 with weight 2: sum 89, count 4, minimum 21, maximum 23, unit "", buckets {31: 1, 32: 3} |
| Seh1Stats.MergedTestResult | metric/distribution/seh1/seh1_distribution_test.go:59-77 | both merge directions give sum 189, count 7, minimum 20, maximum 50, unit "Count", buckets {31: 2, 32: 3, 35: 1, 41: 1} |
| Seh1.SEH1Distribution.constructor | metric/distribution/seh1/seh1_distribution_test.go:14 | a new distribution holds the empty state and satisfies the invariant |
| Seh1.SEH1Distribution.AddEntry | metric/distribution/seh1/seh1_distribution_test.go:16-17 | accepted exactly when value and count are positive; then the state becomes WithEntry of the old one, otherwise it is unchanged; the invariant is kept |
| Seh1.SEH1Distribution.AddEntryWithUnit | metric/distribution/seh1/seh1_distribution_test.go:18 | as AddEntry, and an accepted entry also sets the unit; a rejected one changes nothing |
| Seh1.SEH1Distribution.AddDistribution | metric/distribution/seh1/seh1_distribution_test.go:59 | the receiver becomes the merge of its old state with the other's; the other is not written; the invariant is kept |
| Seh1.SEH1Distribution.AddBuckets | metric/distribution/seh1/seh1_distribution_test.go:59 | the bucket loop of a merge leaves the receiver's buckets equal to the index-wise sum |
| Seh1.SEH1Distribution.Sum | metric/distribution/seh1/seh1_distribution_test.go:20 | the running sum; 0 while the distribution is empty |
| Seh1.SEH1Distribution.SampleCount | metric/distribution/seh1/seh1_distribution_test.go:21 | the total bucket weight; non-negative, and 0 exactly while there are no buckets |
| Seh1.SEH1Distribution.Minimum | metric/distribution/seh1/seh1_distribution_test.go:22 | a sample value no larger than the maximum, whose bucket is the lowest occupied one; the sentinel MaxFloat64 while empty |
| Seh1.SEH1Distribution.Maximum | metric/distribution/seh1/seh1_distribution_test.go:23 | a sample value no smaller than the minimum, whose bucket is the highest occupied one; 0 while empty |
| Seh1.SEH1Distribution.Unit | metric/distribution/seh1/seh1_distribution_test.go:24 | the unit label of the state |
| Seh1.SEH1Distribution.ValuesAndCounts | metric/distribution/seh1/seh1_distribution_test.go:25-32 | two equally long sequences, one position per bucket; position k pairs a bucket's representative with that bucket's weight; the set of pairs is exactly the bucket map's; no value repeats |
| Seh1.CloneSEH1Distribution | metric/distribution/seh1/seh1_distribution_test.go:80-93 | a fresh object whose every field, the bucket map included, equals the original's |
| Seh1.FirstTestScenario | metric/distribution/seh1/seh1_distribution_test.go:14-18 | the three calls on a new object produce the expected first state |
| Seh1.SecondTestScenario | metric/distribution/seh1/seh1_distribution_test.go:35-39 | the three calls on a new object produce the expected second state |
| Seh1.TestSEH1Distribution | metric/distribution/seh1/seh1_distribution_test.go:12-78 | the whole test: every accessor and value-count pair set it checks has the asserted value; the clone keeps the pre-merge state; after merging both ways the two distributions are equal |
| ConfigSchema.HasRootPrefix | translator/config/schema.go:1072 | the pattern `^\(root\).` matches exactly when "(root)" is a prefix of the path and is followed by a character that is not a newline |
| ConfigSchema.ReplaceDots | translator/config/schema.go:1075 | every '.' replaced by '/': the length is kept, and ReplaceDotsChars states the character-by-character result |
| ConfigSchema.ReplaceRootPrefix | translator/config/schema.go:1071-1073 | with the prefix, the seven matched characters become one "/" and the rest follows unchanged; without it, nothing changes |
| ConfigSchema.ReplaceDotsChars | translator/config/schema.go:1074-1075 | every '.' becomes '/', every other character stays in its place, and no '.' is left |
| ConfigSchema.GetFormattedPath | translator/config/schema.go:1070-1077 | the output is 6 characters shorter when the prefix matched and as long as the input otherwise; a matched prefix leaves a leading "/" |
| ConfigSchema.GetFormattedPathChars | translator/config/schema.go:1072-1075 | the output has no '.'; every character after the prefix, or every character when there is none, keeps its place, with '.' turned into '/' |
| ConfigSchema.ReplaceDotsWithoutDots | translator/config/schema.go:1074-1075 | a path without dots passes the second step unchanged |
| ConfigSchema.FormattedHasNoRootPrefix | translator/config/schema.go:1070-1077 | a formatted path never starts with "(root)" followed by a non-newline character |
| ConfigSchema.GetFormattedPathIdempotent | translator/config/schema.go:1070-1077 | formatting a formatted path changes nothing |
| ConfigSchema.LaterRootKept | translator/config/schema.go:1072-1075 | a "(root)" after the prefix keeps its text, shifted left by six places |
| ConfigSchema.PlainPathUnchanged | translator/config/schema.go:1072-1075 | a path with neither the prefix nor a dot comes out unchanged |
| ConfigSchema.ReplaceDotsAppend | translator/config/schema.go:1074-1075 | the dot replacement distributes over concatenation |
| ConfigSchema.ReplaceDotsJoin | translator/config/schema.go:1074-1075 | dot-free segments joined by "." come out joined by "/" |
| ConfigSchema.RootedPathFormatted | translator/config/schema.go:1067-1077 | "(root)." followed by dot-free segments joined by "." becomes "/" followed by the same segments joined by "/" |
| ConfigSchema.SegmentThenDot | translator/config/schema.go:1074-1075 | a dot-free segment followed by a dot becomes the segment followed by "/" |
| ConfigSchema.RootedPath | translator/config/schema.go:1071-1075 | "(root)." followed by any rest becomes "/" followed by the rest with its dots replaced |
| ConfigSchemaExamples.TwoSegments | translator/config/schema.go:1068 | two dot-free segments under "(root)." become the same segments under "/" |
| ConfigSchemaExamples.FiveSegments | translator/config/schema.go:1069 | five dot-free segments under "(root)." become the same segments under "/" |
| ConfigSchemaExamples.AgentIntervalExample | translator/config/schema.go:1068 | "(root).agent.metrics_collection_interval" becomes "/agent/metrics_collection_interval" |
| ConfigSchemaExamples.CpuResourcesExample | translator/config/schema.go:1069 | "(root).metrics.metrics_collected.cpu.resources.1" becomes "/metrics/metrics_collected/cpu/resources/1" |
| ConfigSchema.SchemaStore.constructor | translator/config/schema.go:13 | the store starts with the given schema document |
| ConfigSchema.SchemaStore.GetJsonSchema | translator/config/schema.go:1059-1061 | returns the schema currently held |
| ConfigSchema.SchemaStore.OverwriteSchema | translator/config/schema.go:1063-1065 | the new schema replaces the one held |
| ConfigSchema.OverwriteThenGet | translator/config/schema.go:1059-1065 | GetJsonSchema returns exactly the string most recently passed to OverwriteSchema |

## Left out

- The floating-point bucket codec is left out: `math.Log`, `math.Pow`, `math.Sqrt` and their rounding. Buckets are computed in exact real arithmetic, so a value that float64 rounding would place across a bucket boundary is not modelled. The float literals the test expects, such as 20.13119624437727, are not reproduced.
- Seh1.SEH1Distribution.ValuesAndCounts: takes the representative of each bucket as a parameter `rep`, and by choice asks only that `rep(i)` lie strictly inside bucket i. The source's value, the geometric mean characterised by IsGeometricMean, is one such choice (GeometricMeanIsRepresentative), so the listing holds for it too.
- Seh1Codec.RepresentativeRelativeError: by choice states the factor-1.1 bound that holds for any value inside the bucket. The source's tighter sqrt(1.1) bound for the geometric mean is stated separately, by GeometricMeanRelativeError.
- Seh1.SEH1Distribution.AddEntry: values above the largest finite float64, NaN and infinities are excluded by a precondition. Float64 cannot carry the first, and Dafny's reals have no NaN or infinity.
- Seh1.SEH1Distribution.AddEntry: the sum is exact, so float64 rounding of `sum += value * count` is not modelled.
- Seh1.SEH1Distribution.AddEntry: the rejection of a non-positive value or count is modelled as a `false` result with no change. The returned Go error value and its message are not modelled.
- Seh1Stats.Consistent: no bound on the sum is stated, such as minimum × count <= sum <= maximum × count.
- Bucket indices are unbounded integers rather than the source's `int16` keys. No overflow is lost by this: for every finite positive float64, floor(log v / log 1.1) lies between about -7811 and 7447, inside the `int16` range. Only non-finite inputs, which the model excludes, could leave that range. The model does not prove this range.
- Seh1Stats.MergeCommutative: requires compatible units. When both units are set and differ, the model keeps the receiver's, so the two merge directions differ there. The test never exercises that case.
- AddDistribution with an argument of another distribution type is not modelled. The type assertion that the Go interface involves is left out.
- Concurrency and locking around a distribution are not modelled.
- The minimum and maximum of an empty distribution are modelling choices (MaxFloat64 and 0). The implementation file that fixes them is not part of this model.
- The JSON schema document itself (translator/config/schema.go:13-1057) is static data for an external validator. The store's initial content is a constructor parameter.
- The package-level variable behind GetJsonSchema/OverwriteSchema is modelled as one object, with no concurrent access.
- ConfigSchema.GetFormattedPath: strings are sequences of Unicode code points. Go's handling of invalid UTF-8 bytes in the regular expression match is not modelled.
- The test's rebuilding of the returned slices into a `map[float64]float64` and the testify assertions are not modelled. `Pairs` (the set of positional pairs) plays the role of that map.
