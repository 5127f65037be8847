# Distinct count over a bitmap: a Dafny model

This project models the core of a Hive aggregate function, `count_bit_map_distinct`, that
counts the distinct `int` values of a column. Each worker folds its rows into an
aggregation buffer holding a Roaring bitmap. It serializes the bitmap as a partial.
Combiners and the reducer merge the partials by set union and finally report the
bitmap's cardinality.

The model is functional. A buffer is an immutable value `Buffer(bitmap: Option<set<int32>>)`:
`None` is a null bitmap field, `Some(s)` a present bitmap with members `s`. Every Java
method becomes a pure function from the old buffer to the new one. A thrown exception
becomes a `Failure` value.

Modules, leaf first:

- `Results` (`results.dfy`): `Option` for a nullable reference, `Result` for a call that may throw.
- `Codec` (`codec.dfy`): `int32`, bytes, and an encode/decode pair for a bitmap's serialized
  form. The library's real format is not modelled. A stand-in writes the members in
  increasing order, four big-endian bytes each. The rest of the model relies only on the
  proved round trip `Decode(Encode(s)) == Some(s)`. Bytes whose length is not a multiple
  of four fail to decode; this stands in for the library rejecting a malformed partial.
- `BitMapBuffer` (`bitmap_buffer.dfy`): the aggregation buffer and its operations. It also
  shows that the bitmap is never null on any buffer built by the constructor.
- `CountUdaf` (`count_udaf.dfy`): the resolver's argument check, the evaluator's `init` mode
  mapping, and the evaluator's buffer operations.
- `Protocol` (`protocol.dfy`): one aggregation stage per mode: a new buffer, `iterate` or
  `merge` over the inputs, then `terminatePartial` or `terminate`.
- `MergeTree` (`merge_tree.dfy`): arbitrary trees of PARTIAL1 leaves and PARTIAL2 combiners
  under a FINAL stage. The main theorem says that the final count is the number of distinct
  raw values, whatever the tree's shape and however the rows are split.

The code keeps the bitmap allocated from the constructor on, and `reset` clears the bitmap
rather than dropping it, so after a reset the partial is the encoding of the empty set, not
null. The null branches of `merge` and
`getPartial` are modelled but proved unreachable from a constructed buffer. `addItem`,
`getCardinalityCount` and `reset` dereference the field without a null check, so they
require a present bitmap, and a call sequence that reaches one of them with a null bitmap
fails with `NullBitmap`.

## Model

| member | source | states |
|---|---|---|
| Codec.Encode | src/main/java/sao/so/hive/util/udaf/BitMapBuffer.java:72 | stand-in for `bitMap.serialize`: the serialized form of a set takes four bytes per member; beyond that the rest of the model uses only the round trip |
| Codec.Decode | src/main/java/sao/so/hive/util/udaf/BitMapBuffer.java:50 | stand-in for reading a partial back as a bitmap: fails exactly on a byte string whose length is not a multiple of four; beyond that the rest of the model uses only the round trip |
| Codec.RoundTrip | src/main/java/sao/so/hive/util/udaf/BitMapBuffer.java:66-75 | decoding the serialized form of any set of ints gives back exactly that set |
| Codec.EncodeInjective | src/main/java/sao/so/hive/util/udaf/BitMapBuffer.java:66-75 | two sets with the same serialized form are equal, so a partial identifies its bitmap |
| BitMapBuffer.New | src/main/java/sao/so/hive/util/udaf/BitMapBuffer.java:25-27 | a freshly constructed buffer holds a present, empty bitmap |
| BitMapBuffer.AddItem | src/main/java/sao/so/hive/util/udaf/BitMapBuffer.java:29-31 | `addItem` inserts the id and keeps every existing member; the count grows by one exactly when the id was new |
| BitMapBuffer.Merge | src/main/java/sao/so/hive/util/udaf/BitMapBuffer.java:45-59 | a null partial leaves the buffer unchanged; a partial fails exactly when it does not decode; otherwise the result is present and holds the old members (none for a null bitmap) united with the decoded ones |
| BitMapBuffer.GetPartial | src/main/java/sao/so/hive/util/udaf/BitMapBuffer.java:66-75 | the partial is null exactly when the bitmap is null, and otherwise decodes back to the current members |
| BitMapBuffer.Cardinality | src/main/java/sao/so/hive/util/udaf/BitMapBuffer.java:82-84 | the count is the number of distinct members, zero exactly for an empty bitmap; with `AddItem`'s growth clause, each id is counted once however often it is added |
| BitMapBuffer.Reset | src/main/java/sao/so/hive/util/udaf/BitMapBuffer.java:86-88 | `reset` leaves a present, empty bitmap, not a null one |
| BitMapBuffer.StaysPresent | src/main/java/sao/so/hive/util/udaf/BitMapBuffer.java:29-88 | from a present bitmap, no sequence of calls dereferences a null bitmap or leaves the field null |
| BitMapBuffer.NeverNull | src/main/java/sao/so/hive/util/udaf/BitMapBuffer.java:45-75 | on any buffer built by the constructor, every call sequence keeps the bitmap present, so the null branches of `merge` and `getPartial` are unreachable |
| BitMapBuffer.AddIdempotent | src/main/java/sao/so/hive/util/udaf/BitMapBuffer.java:29-31 | adding an id twice gives the same buffer as adding it once |
| BitMapBuffer.AddCommutes | src/main/java/sao/so/hive/util/udaf/BitMapBuffer.java:29-31 | the order in which two ids are added does not matter |
| BitMapBuffer.MergePartialIsUnion | src/main/java/sao/so/hive/util/udaf/BitMapBuffer.java:55-58 | merging one buffer's partial into a present buffer yields exactly the union of their members |
| BitMapBuffer.MergeIntoAbsentCopies | src/main/java/sao/so/hive/util/udaf/BitMapBuffer.java:51-54 | merging a partial into a null bitmap yields exactly the partial's bitmap |
| BitMapBuffer.MergeCommutes | src/main/java/sao/so/hive/util/udaf/BitMapBuffer.java:33-44 | merging two partials in either order gives the same buffer |
| BitMapBuffer.MergeSelfIdempotent | src/main/java/sao/so/hive/util/udaf/BitMapBuffer.java:55-58 | merging a buffer's own partial back into it changes nothing |
| BitMapBuffer.ResetGivesEmptyPartial | src/main/java/sao/so/hive/util/udaf/BitMapBuffer.java:86-88 | after `reset` the partial is the encoding of the empty set rather than null, and the count is 0 |
| CountUdaf.GetEvaluator | src/main/java/sao/so/hive/util/udaf/RoaringBitMapCountUDAF.java:38-43 | the resolver fails with a length error exactly when given more than one argument type |
| CountUdaf.Init | src/main/java/sao/so/hive/util/udaf/RoaringBitMapCountUDAF.java:69-83 | `init` fails on an empty parameter array; otherwise it reads raw ints in the modes that iterate and partials in the modes that merge, and declares an int output exactly in FINAL |
| CountUdaf.ZeroArgumentsPassResolver | src/main/java/sao/so/hive/util/udaf/RoaringBitMapCountUDAF.java:38-43 | the resolver accepts a call with no argument, and `init` then fails on it in PARTIAL1 and COMPLETE |
| CountUdaf.GetEvaluatorExact | src/main/java/sao/so/hive/util/udaf/RoaringBitMapCountUDAF.java:38-43 | the check the resolver's message describes: an evaluator is handed out exactly for one argument |
| CountUdaf.ExactResolverInitialises | src/main/java/sao/so/hive/util/udaf/RoaringBitMapCountUDAF.java:72-77 | with the exact check, every evaluator handed out initialises in every mode |
| CountUdaf.CompleteOutputMismatch | src/main/java/sao/so/hive/util/udaf/RoaringBitMapCountUDAF.java:78-81 | `init` declares a binary output in COMPLETE although that mode ends with `terminate`, and declares the other three modes consistently |
| CountUdaf.InitFixed | src/main/java/sao/so/hive/util/udaf/RoaringBitMapCountUDAF.java:69-83 | the corrected `init`: the declared input and output fit the mode in all four modes, with an int output in FINAL and COMPLETE |
| CountUdaf.Prepare | src/main/java/sao/so/hive/util/udaf/RoaringBitMapCountUDAF.java:38-83 | resolver plus `init` with both corrections: succeeds exactly for one argument, and then the signature fits the mode |
| CountUdaf.NewAggregationBuffer | src/main/java/sao/so/hive/util/udaf/RoaringBitMapCountUDAF.java:89-94 | a new aggregation buffer is present, counts 0, and its partial is the encoding of the empty set |
| CountUdaf.ResetBuffer | src/main/java/sao/so/hive/util/udaf/RoaringBitMapCountUDAF.java:100-104 | resetting through the evaluator leaves a present buffer that counts 0 |
| CountUdaf.Iterate | src/main/java/sao/so/hive/util/udaf/RoaringBitMapCountUDAF.java:112-123 | a null array, an array whose length is not 1, or a null value leaves the buffer unchanged; otherwise exactly that value is added |
| CountUdaf.TerminatePartial | src/main/java/sao/so/hive/util/udaf/RoaringBitMapCountUDAF.java:131-140 | the emitted partial is null exactly for a null bitmap, and otherwise decodes to the buffer's members |
| CountUdaf.MergePartial | src/main/java/sao/so/hive/util/udaf/RoaringBitMapCountUDAF.java:148-159 | a null partial is skipped; a malformed one fails; otherwise the buffer gains exactly the values the partial carries |
| CountUdaf.Terminate | src/main/java/sao/so/hive/util/udaf/RoaringBitMapCountUDAF.java:167-175 | the result is the number of distinct values in the buffer |
| CountUdaf.PartialCarriesCount | src/main/java/sao/so/hive/util/udaf/RoaringBitMapCountUDAF.java:131-175 | a buffer's partial carries into the next stage exactly as many values as `terminate` counts on that buffer |
| Protocol.IterateAll | src/main/java/sao/so/hive/util/udaf/RoaringBitMapCountUDAF.java:112-123 | iterating over rows adds exactly the values of the counted rows and keeps the bitmap present |
| Protocol.MergeAll | src/main/java/sao/so/hive/util/udaf/BitMapBuffer.java:33-44 | merging partials one after another fails exactly when one is malformed, and otherwise adds exactly the union of what they carry |
| Protocol.Stage | src/main/java/sao/so/hive/util/udaf/RoaringBitMapCountUDAF.java:55-66 | a stage in any mode fails only on a malformed partial; the modes that feed a later stage emit a partial decoding to the input's distinct values, the others emit their number |
| Protocol.ValuesOfPermutation | src/main/java/sao/so/hive/util/udaf/RoaringBitMapCountUDAF.java:55-66 | the values counted depend only on which rows occur, not on their order |
| MergeTree.PartialOfTree | src/main/java/sao/so/hive/util/udaf/RoaringBitMapCountUDAF.java:55-66 | every merge tree's partial is present, well formed, and decodes to the distinct values of the rows at its leaves |
| MergeTree.PartialsOfTrees | src/main/java/sao/so/hive/util/udaf/BitMapBuffer.java:33-44 | the partials of a list of trees are all well formed and together carry the distinct values of all their rows |
| MergeTree.CompleteCount | src/main/java/sao/so/hive/util/udaf/RoaringBitMapCountUDAF.java:65-66 | a COMPLETE stage counts the distinct values of all rows |
| MergeTree.FinalCountsDistinct | src/main/java/sao/so/hive/util/udaf/RoaringBitMapCountUDAF.java:55-66 | the FINAL count over any forest of merge trees is the number of distinct raw values at its leaves |
| MergeTree.FinalMatchesComplete | src/main/java/sao/so/hive/util/udaf/BitMapBuffer.java:33-58 | any split of the rows into PARTIAL1 stages, merged through PARTIAL2 and FINAL in any order and tree shape, gives the count COMPLETE gives over the same rows |
| MergeTree.ShapeIndependent | src/main/java/sao/so/hive/util/udaf/BitMapBuffer.java:33-44 | two merge forests over the same rows give the same count, whatever their shapes |
| MergeTree.TwoNodesOverlap | src/main/java/sao/so/hive/util/udaf/RoaringBitMapCountUDAF.java:55-66 | two map stages over 1, 2, 3 and 3, 4, 5, merged by a combiner and a reducer, count 5 |
| MergeTree.SameValueEverywhere | src/main/java/sao/so/hive/util/udaf/RoaringBitMapCountUDAF.java:55-66 | three partitions all holding the value 1, merged in a skewed tree, count 1 |

## Left out

- The bitmap library's containers, run compression and binary format. A stand-in
  serialization with a proved round trip takes their place.
- When the library rejects malformed bytes. The stand-in rejects a byte string whose length
  is not a multiple of four. It accepts any other string, so "malformed" is narrower than
  the library's own rules.
- The wrapping of `IOException` in `HiveException` and the `DataOutputStream` plumbing.
  Every failure is one `Fault` value.
- Hive's object inspectors and the `getInt` coercion. The raw argument is taken as an
  already-coerced `int32`. Converting a partial through the binary inspector is the identity.
- `super.init` and Hive's choice of which mode to run where. The host is assumed to call the
  stages in the order the mode comments describe. `Protocol.Stage` requires raw rows exactly
  for the modes that iterate.
- Logging.
- Threading. Each buffer is owned by one caller, and the model has no shared state.
- BitMapBuffer.Cardinality: returns an unbounded count, not the library's `int`, so a
  count beyond the `int` range is not modelled (the library and the host own that case).
- CountUdaf.Terminate: returns an unbounded count, for the same reason.

## Findings

| source | as written | input that shows it | evidently intended | confidence | as-written member | corrected member |
|---|---|---|---|---|---|---|
| src/main/java/sao/so/hive/util/udaf/RoaringBitMapCountUDAF.java:38-43 | the resolver rejects only more than one argument | a call with no argument: the resolver accepts it, then `init` in PARTIAL1 or COMPLETE reads `parameters[0]` of an empty array | exactly one argument, as the error message says | medium, not executed | CountUdaf.ZeroArgumentsPassResolver | CountUdaf.GetEvaluatorExact |
| src/main/java/sao/so/hive/util/udaf/RoaringBitMapCountUDAF.java:78-81 | `init` declares a byte-array output in every mode but FINAL | mode COMPLETE: `terminate` returns an `Integer` while the declared output inspector is for `byte[]` | an `int` output in both modes that end with `terminate`, FINAL and COMPLETE | medium, not executed | CountUdaf.CompleteOutputMismatch | CountUdaf.InitFixed |
