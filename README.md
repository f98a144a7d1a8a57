# Gluten batch bridge and Substrait read node, in Dafny

This project models two small pieces of Gluten's JVM side and proves
properties of them.

- `ColumnarNativeIterator` hands Spark columnar batches to the native
  (C++) scanner. Each batch goes out as serialized Arrow bytes. Batches with
  zero rows are skipped.
- `ReadRelNode` is the table-scan leaf of a plan. Its `toProtobuf()` builds a
  Substrait `Rel` whose variant is the Read Operator. That message holds a
  base schema (`NamedStruct`), an optional filter, and a data source taken
  from the shared `SubstraitContext`. Its `RelCommon` is always `Direct`.

Files:

- `Wrappers.dfy`: `Option` (a Java null, or an unset protobuf field) and
  `Result` (an operation that may throw).
- `NativeIterator.dfy`: covers the iterator. The wrapped Java iterator is a
  sequence `delegated` with a cursor `pos`. `nextBatch` is an
  `Option<Batch>`. Arrow conversion plus serialization is one opaque
  function `encode`, given to the constructor. The pure functions
  `HasNextSpec`, `Produce` and `Drain` describe `hasNext()`, `next()`, and a
  caller that alternates the two. The class `ColumnarNativeIterator` has the
  real `while` loop of `hasNext()`, which is proved equal to `HasNextSpec`.
- `ReadRel.dfy`: covers the read node. The Substrait messages are
  datatypes. A protobuf field that can be unset is an `Option`, and a oneof
  is a datatype with one variant per alternative. The type, expression,
  local-files and extension-table nodes are opaque types. Their
  `toProtobuf()` functions come in as one `Encoders` record. `BuildRead` is
  the message as a function of the node's fields and of what the context
  holds. The class `ReadRelNode` has the two copying constructors and a
  `ToProtobuf` method whose builder loops are proved equal to `BuildRead`.

## Behaviour kept as written

The model follows the code, including where the code departs from what a
conventional iterator or a fail-fast serializer would do:

- `hasNext()` is not idempotent. A second call without `next()` starts after
  the pending non-empty batch, so that batch is never offered again. If
  another non-empty batch follows, it becomes the pending batch
  (`HasNextTwiceSkipsPending`, `HasNextTwiceExample`). If none follows, the
  call answers false and the pending batch is what the scan left behind (see
  the next two bullets).
- `next()` never clears `nextBatch`. Two calls in a row encode the same
  batch (`RepeatedNext`).
- A `hasNext()` that reads batches and answers false leaves the last,
  zero-row batch pending, so `next()` throws IllegalStateException.
- A `hasNext()` that answers false because the wrapped iterator was already
  exhausted leaves `nextBatch` as it was. `next()` then gives what that stale
  batch gives. If the previous `hasNext()` answered true, that is the
  batch's encoding, returned instead of a failure. If the last batch read
  had zero rows, it is IllegalStateException. If no batch was ever read, it
  is the null failure (`ProbeThenProduce`, `StaleBatchAfterExhaustion`,
  `NextAfterExhaustionExamples`).
- `toProtobuf()` does not reject a context holding both a local-files node
  and an extension table. It prefers local files. With neither, it sets no
  source and raises no error (`SourcePrecedence`).
- Nothing checks that `types` and `names` have the same length
  (`BaseSchemaKeepsOrder` has no precondition).

## Model

| member | source | states |
|---|---|---|
| `NativeIterator.HasNextSpec` | jvm/src/main/java/io/glutenproject/execution/ColumnarNativeIterator.java:51-59 | hasNext() only moves the cursor forward and stays within the delegate. It moves at least one batch when it answers true. It leaves the delegate exhausted when it answers false. |
| `NativeIterator.HasNextFindsFirstNonEmpty` | jvm/src/main/java/io/glutenproject/execution/ColumnarNativeIterator.java:51-56 | hasNext() is true iff an unread batch with numRows() > 0 exists. On true, nextBatch is the first such batch and the cursor sits just after it. Every batch passed over had zero rows. |
| `NativeIterator.HasNextExhausted` | jvm/src/main/java/io/glutenproject/execution/ColumnarNativeIterator.java:52-58 | On false, the delegate is exhausted. nextBatch is unchanged if no batch was read. Otherwise it is the last batch read, which has zero rows. |
| `NativeIterator.ProbeThenProduce` | jvm/src/main/java/io/glutenproject/execution/ColumnarNativeIterator.java:51-69 | next() after a true hasNext() encodes the batch hasNext() stopped at. After a false hasNext() that read batches, it throws IllegalStateException. After a false hasNext() on an exhausted delegate, it gives what the stale nextBatch gives. |
| `NativeIterator.HasNextTwiceSkipsPending` | jvm/src/main/java/io/glutenproject/execution/ColumnarNativeIterator.java:51-56 | A second hasNext() without next() starts after the pending batch. It answers true iff a later non-empty batch exists, and then pends a batch from a strictly later position. |
| `NativeIterator.HasNextTwiceExample` | jvm/src/main/java/io/glutenproject/execution/ColumnarNativeIterator.java:51-56 | For two non-empty batches, two hasNext() calls leave the second batch pending. next() then encodes the second batch, and the first is lost. |
| `NativeIterator.StaleBatchAfterExhaustion` | jvm/src/main/java/io/glutenproject/execution/ColumnarNativeIterator.java:51-69 | For one non-empty batch, after hasNext() true and then hasNext() false, next() still returns that batch's encoding. |
| `NativeIterator.NextAfterExhaustionExamples` | jvm/src/main/java/io/glutenproject/execution/ColumnarNativeIterator.java:51-69 | With no batches, hasNext() answers false and next() fails on the null nextBatch. With one zero-row batch, two hasNext() calls answer false and next() throws IllegalStateException. |
| `NativeIterator.DrainEncodesNonEmptyInOrder` | jvm/src/main/java/io/glutenproject/execution/ColumnarNativeIterator.java:51-70 | Strictly alternating hasNext()/next() until false yields encode(b) for exactly the unread batches with rows, in source order. |
| `NativeIterator.ColumnarNativeIterator.constructor` | jvm/src/main/java/io/glutenproject/execution/ColumnarNativeIterator.java:43-48 | A new iterator wraps the given delegate at its start, with nextBatch null. |
| `NativeIterator.ColumnarNativeIterator.HasNext` | jvm/src/main/java/io/glutenproject/execution/ColumnarNativeIterator.java:50-59 | The loop's result and new state equal HasNextSpec applied to the old state. It answers true iff an unread non-empty batch existed, and then that batch is nextBatch. |
| `NativeIterator.ColumnarNativeIterator.Next` | jvm/src/main/java/io/glutenproject/execution/ColumnarNativeIterator.java:61-70 | Returns encode(nextBatch) iff nextBatch has rows. Throws IllegalStateException for a zero-row nextBatch. Fails on a null one. |
| `NativeIterator.ColumnarNativeIterator.Close` | jvm/src/main/java/io/glutenproject/execution/ColumnarNativeIterator.java:76-79 | close() changes no state and cannot fail. |
| `NativeIterator.RepeatedNext` | jvm/src/main/java/io/glutenproject/execution/ColumnarNativeIterator.java:61-70 | Two consecutive next() calls return the same result: next() moves neither the cursor nor nextBatch. |
| `NativeIterator.DrainAlternating` | jvm/src/main/java/io/glutenproject/execution/ColumnarNativeIterator.java:50-70 | A caller that alternates HasNext and Next on the class receives the encodings of the remaining non-empty batches, in order, and leaves the delegate exhausted. |
| `ReadRel.EncodeTypes` | jvm/src/main/java/io/glutenproject/substrait/rel/ReadRelNode.java:38-41 | The struct types have one entry per type node, and entry i is the i-th type node's protobuf. |
| `ReadRel.ReadIsDirect` | jvm/src/main/java/io/glutenproject/substrait/rel/ReadRelNode.java:34-60 | The result is always the read variant of Rel, and its common is set to Direct. |
| `ReadRel.BaseSchemaKeepsOrder` | jvm/src/main/java/io/glutenproject/substrait/rel/ReadRelNode.java:38-49 | The base schema's types are the type nodes' protobufs in order. Its names equal the node's names in order, duplicates included. This holds for any two lengths. |
| `ReadRel.FilterIffPresent` | jvm/src/main/java/io/glutenproject/substrait/rel/ReadRelNode.java:50-52 | The filter field is set iff the node has a filter, and then to that filter's protobuf. |
| `ReadRel.SourcePrecedence` | jvm/src/main/java/io/glutenproject/substrait/rel/ReadRelNode.java:53-57 | Local files are used whenever present, even with an extension table. The extension table is used iff local files are absent and it is present. No source is set iff both are absent, and no error is raised. |
| `ReadRel.ReadRelNode.constructor` | jvm/src/main/java/io/glutenproject/substrait/rel/ReadRelNode.java:17-23 | The node's types and names equal the caller's lists at construction. The filter is the given one, which may be null. |
| `ReadRel.ReadRelNode.WithoutFilter` | jvm/src/main/java/io/glutenproject/substrait/rel/ReadRelNode.java:25-31 | The node's types and names equal the caller's lists at construction, and it has no filter. |
| `ReadRel.ReadRelNode.ToProtobuf` | jvm/src/main/java/io/glutenproject/substrait/rel/ReadRelNode.java:33-61 | The builder loops produce BuildRead of the node's fields and of the context's current local-files and extension-table nodes. The method changes nothing. |
| `ReadRel.ToProtobufTwice` | jvm/src/main/java/io/glutenproject/substrait/rel/ReadRelNode.java:33-61 | Two toProtobuf() calls with the context unchanged give equal Rels, both read relations with a Direct common. |
| `ReadRel.CallerListChangeNotSeen` | jvm/src/main/java/io/glutenproject/substrait/rel/ReadRelNode.java:12-31 | Adding to the caller's list after construction leaves the node's types as they were at construction. The node's fields are values, so this would also hold if the list were shared; it illustrates the copy rather than proving it. |

## Left out

- Arrow conversion and serialization (`ConverterUtils.createArrowRecordBatch`,
  `UnsafeRecordBatchSerializer.serializeUnsafe`) are one opaque `encode`.
  The model claims nothing about decoding its bytes back.
- The protobuf encodings of `TypeNode`, `ExpressionNode`, `LocalFilesNode`
  and `ExtensionTableNode` are opaque functions over opaque types. The
  generated `io.substrait.proto` builders are replaced by datatype values.
- The `SubstraitContext` is two optional fields read at call time. How nodes
  get into it is not modelled.
- Substrait's other `read_type` alternatives (virtual table, named table)
  and `Rel` variants other than read are never built by this code, so they
  are not modelled.
- The native caller of `next()` across JNI, and any threading, are not
  modelled. The code has none.
- `Serializable` and `AutoCloseable` plumbing are not modelled. `close()` is
  declared to throw `Exception` but does nothing, so it is a method with no
  effect.
- A `next()` before any `hasNext()` dereferences a null `nextBatch` in Java.
  This is the `NullBatch` error, not a thrown `NullPointerException`.
- The wrapped iterator is a finite sequence whose `hasNext()` and `next()`
  never throw. So the model's `HasNext` always terminates. The Java loop
  runs forever on an endless stream of zero-row batches. Exceptions thrown
  by the wrapped iterator are not modelled.
- `encode` is total. In Java, `createArrowRecordBatch` and
  `serializeUnsafe` can throw. `next()` changes no state, so after such a
  throw the iterator is unchanged, and a retry encodes the same batch again.
  The model does not represent the throw itself.
- A null element of `types` or `names`, or a null `context`, makes
  `toProtobuf()` throw `NullPointerException`. The null type node fails at
  `typeNode.toProtobuf()`, the generated `addNames` rejects a null name, and
  the null context fails at `context.getLocalFilesNode()`. Sequences of
  non-null values and a non-null `SubstraitContext` cannot represent these,
  so they are not modelled.
- The copy made by `addAll` in the constructors is represented by the
  node's fields being sequence values. Aliasing between the node's lists and
  the caller's lists therefore cannot arise in the model.
- A null list passed to a `ReadRelNode` constructor (a Java
  `NullPointerException` in `addAll`) is not modelled, because Dafny
  references are non-null.
- `Batch.numRows` is an unbounded `int`. The code only compares it with 0,
  so Java's 32-bit width plays no part.
