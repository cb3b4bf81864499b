# ByteBarista record codecs in Dafny

ByteBarista turns Java `record` classes into binary codecs. It reflects over
a record's components and generates JVM bytecode for two decoders. One reads
a `ByteArrayInputStream` byte by byte with shift-and-or sequences. The other
reads a `ByteBuffer` with its typed getters, which the model takes in the
buffer's default big-endian order. It then wraps the generated
method handles in a `DynamicCodec` (no size checks) or a `FixedCodec` (size
pre-checks). This project models that core and proves what it does:

- `Types`: component types, the `@UnsignedByte` / `@UnsignedShort` /
  `@UnsignedInteger` annotations, the registry of record classes, and the
  Java exceptions raised.
- `ClassUtils`: `sumFieldSizes`, the memoised `getRecordSize` (a class
  holding the cache map), the `isInfinitelyNested` walk (a recursive method
  with its loop) with its graph meaning, `isFixedSize`, and `getDescriptor`.
- `DecoderUtils`: `slotsFor`, `loadType`, `storeType`, and the slot layout
  they produce.
- `Wire`: what a read does to its bytes. It covers the width, the big-endian
  number, and two's complement or zero extension. It also holds a reference
  encoder with round trips both ways, and `DecodeAll`, the meaning of a whole
  generated body.
- `LocalFrame`: the emitted body as stores into local slots followed by loads
  into the constructor call. It includes the class verifier's typing rule for
  `istore`/`lstore`/`fstore`/`dstore` and their loads. `EmitBody` is the
  two-pass generation loop both builders share.
- `JavaIO`: `ByteBuffer` (an array with a position and a limit),
  `ByteArrayInputStream` and `ByteArrayOutputStream` as classes. They hold
  only the members the generated code and the codecs use.
- `RecordDecoderBuilder`: `buildSignature`, `writeParserMethod`,
  `populateConstructorFill` (intended and as written),
  `populateSafetyException` and `emitClassBytes` (intended and as
  written). It also covers
  `loadFromBuffer_Unsafe` and `loadFromBuffer_Safe` running on a buffer.
- `StreamDecoderBuilder`: `emitReadFunction`, `writePrimitiveParser`,
  `emitLongInfo`, `emitIntInfo`, `writeClassParser`, every
  `emitReadFrom*Stream` sequence, and the generated `decode` running on a
  stream. It includes the decoder's test vectors.
- `DynamicCodec` and `FixedCodec`: the four `decode`/`encode` overloads of
  each, as functions and as methods on the caller's buffer or stream.
- `ClassUtilsExamples`: the records of the cycle, fixed-size and size tests.

Floats and doubles are held as their IEEE 754 bit patterns.

## Model

| member | source | states |
|---|---|---|
| ClassUtils.FieldSize | src/main/java/net/ansinn/ByteBarista/ClassUtils.java:41-68 | A component has a width exactly when it is an enum or a non-`boolean` primitive, and otherwise `IllegalStateException` is thrown. The width is 1, 2, 4 or 8. A `long` takes 1/2/4/8 by the first of UnsignedByte/UnsignedShort/UnsignedInteger present. An `int` takes 1/2/4, and UnsignedInteger does not shorten it. |
| ClassUtils.SumFieldSizes | src/main/java/net/ansinn/ByteBarista/ClassUtils.java:40-70 | The record size exists exactly when every component has a width; the only exception is `IllegalStateException`. A size lies between one and eight bytes per component. |
| ClassUtils.SumFieldSizesAppend | src/main/java/net/ansinn/ByteBarista/ClassUtils.java:40-70 | The size of two runs of components is the sum of their sizes, and the first failing run decides the exception. |
| ClassUtils.SizeCache.GetRecordSize | src/main/java/net/ansinn/ByteBarista/ClassUtils.java:28-31 | It returns the `sumFieldSizes` of the record. On success the cache holds that size under the record. On failure the cache is unchanged. Every cached entry stays the size of its record. |
| ClassUtils.GetRecordSizeTwice | src/main/java/net/ansinn/ByteBarista/ClassUtils.java:28-31 | A second lookup returns the first lookup's answer, so memoisation cannot change a size. |
| ClassUtils.Nested | src/main/java/net/ansinn/ByteBarista/ClassUtils.java:92-109 | The meaning of the private walk. The only exception it can raise is the `NullPointerException` of a non-record class. |
| ClassUtils.IsInfinitelyNestedFrom | src/main/java/net/ansinn/ByteBarista/ClassUtils.java:92-109 | The recursive walk with its component loop returns `Nested`. When it answers false, the visited set is what it was on entry, because the record is removed on the way back. |
| ClassUtils.IsInfinitelyNested | src/main/java/net/ansinn/ByteBarista/ClassUtils.java:88-90 | The public overload is the walk from the record with an empty visited set. |
| ClassUtils.AcyclicWalks | src/main/java/net/ansinn/ByteBarista/ClassUtils.java:92-109 | A false answer means every walk through nested components from the record is simple and avoids the current path. |
| ClassUtils.CycleWitness | src/main/java/net/ansinn/ByteBarista/ClassUtils.java:92-109 | A true answer comes with a walk from the record that repeats a record or re-enters the path. |
| ClassUtils.NestedTotal | src/main/java/net/ansinn/ByteBarista/ClassUtils.java:95-104 | When every non-leaf component is a record, the walk never throws. |
| ClassUtils.InfinitelyNestedMeaning | src/main/java/net/ansinn/ByteBarista/ClassUtils.java:72-90 | `isInfinitelyNested` is true exactly when some walk from the record revisits a type, and false exactly when every walk is simple (no throw when all nested types are records). |
| ClassUtils.IsFixedSize | src/main/java/net/ansinn/ByteBarista/ClassUtils.java:111-113 | A fixed-size record is never infinitely nested. |
| ClassUtils.FlatFixedIffSized | src/main/java/net/ansinn/ByteBarista/ClassUtils.java:111-113 | For a record without nested classes, being fixed-size is the same as `sumFieldSizes` succeeding. |
| ClassUtils.Descriptor | src/main/java/net/ansinn/ByteBarista/ClassUtils.java:128-148 | It fails exactly on `boolean`, with `IllegalArgumentException`. A primitive gets one letter from `JISBDFC`. A reference type gets `L...;`. |
| ClassUtils.DescriptorInjective | src/main/java/net/ansinn/ByteBarista/ClassUtils.java:132-141 | Distinct supported primitives get distinct descriptors. |
| ClassUtilsExamples.SimpleIsLeafOnly | src/test/java/net/ansinn/ByteBarista/InfiniteNestTest.java:51 | The component loop of `Simple(int, float)` answers false on any path. |
| ClassUtilsExamples.DirectSelfIsCyclic | src/test/java/net/ansinn/ByteBarista/InfiniteNestTest.java:14-17 | `DirectSelf` is infinitely nested. |
| ClassUtilsExamples.SelfLinksAreCyclic | src/test/java/net/ansinn/ByteBarista/InfiniteNestTest.java:59-63 | `NullableStyle(NullableStyle next)` and `LinkedList(LinkedList next)` are infinitely nested. |
| ClassUtilsExamples.TreeIsCyclic | src/test/java/net/ansinn/ByteBarista/InfiniteNestTest.java:26-29 | `Tree(Tree, Tree)` is infinitely nested. |
| ClassUtilsExamples.IndirectCycleIsCyclic | src/test/java/net/ansinn/ByteBarista/InfiniteNestTest.java:19-24 | `IndirectA -> IndirectB -> IndirectC -> IndirectA` is infinitely nested. |
| ClassUtilsExamples.MixedIsCyclic | src/test/java/net/ansinn/ByteBarista/InfiniteNestTest.java:46-49 | `Mixed(Simple, DirectSelf)` is infinitely nested. |
| ClassUtilsExamples.AcyclicRecordsAreNotFlagged | src/test/java/net/ansinn/ByteBarista/InfiniteNestTest.java:9-44 | `Simple` and `FlatReference` are not flagged. Two sibling references to one acyclic record are not flagged either. |
| ClassUtilsExamples.BooleanRecordIsNotFixed | src/test/java/net/ansinn/ByteBarista/classUtils/FixedSizedRecordTest.java:13-49 | A record with a `boolean` is not fixed-size, and its size throws `IllegalStateException`. |
| ClassUtilsExamples.EnumRecordIsFixed | src/test/java/net/ansinn/ByteBarista/classUtils/FixedSizedRecordTest.java:51-56 | A record with an enum component is fixed-size. |
| ClassUtilsExamples.NestedFixedIsFixed | src/test/java/net/ansinn/ByteBarista/classUtils/FixedSizedRecordTest.java:79-84 | `OuterFixed(InnerFixed(int, short))` is fixed-size. |
| ClassUtilsExamples.DeepNestingIsFixed | src/test/java/net/ansinn/ByteBarista/classUtils/FixedSizedRecordTest.java:93-98 | `Level3 -> Level2 -> Level1(int)` is fixed-size. |
| ClassUtilsExamples.FlatDynamicCases | src/test/java/net/ansinn/ByteBarista/classUtils/FixedSizedRecordTest.java:58-77 | Records with a `String`, an `int[]` or an enum array are not fixed-size. |
| ClassUtilsExamples.NestedDynamicIsDynamic | src/test/java/net/ansinn/ByteBarista/classUtils/FixedSizedRecordTest.java:86-91 | `OuterDynamic(InnerDynamic(String))` is not fixed-size. |
| ClassUtilsExamples.MixedDynamicIsDynamic | src/test/java/net/ansinn/ByteBarista/classUtils/FixedSizedRecordTest.java:100-105 | `MixedOuter(MixedInner(int, String), long)` is not fixed-size. |
| ClassUtilsExamples.UnsignedTestSize | src/test/java/net/ansinn/ByteBarista/SafeRecordDecoderTest.java:28-36 | `UnsignedTest(@UnsignedByte int, @UnsignedShort int, @UnsignedInteger long)` is 7 bytes. |
| DecoderUtils.SlotsFor | src/main/java/net/ansinn/ByteBarista/codegen/DecoderUtils.java:74-80 | Two slots exactly for `long` and `double`; one for everything else. |
| DecoderUtils.LoadCategory | src/main/java/net/ansinn/ByteBarista/codegen/DecoderUtils.java:31-42 | `lload` exactly for `long`, `dload` for `double`, `fload` for `float`, and `iload` otherwise. |
| DecoderUtils.StoreCategory | src/main/java/net/ansinn/ByteBarista/codegen/DecoderUtils.java:52-63 | The store family is the load family of the same type, so a value is read back with the instruction that wrote it. `istore` is used exactly for types other than `long`, `double` and `float`. |
| DecoderUtils.SlotsMatchCategory | src/main/java/net/ansinn/ByteBarista/codegen/DecoderUtils.java:65-80 | `slotsFor` agrees with the slot width the virtual machine gives the family `storeType` picks. |
| DecoderUtils.SlotLayoutAt | src/main/java/net/ansinn/ByteBarista/codegen/stream/StreamDecoderBuilder.java:51-66 | Component `k` goes to `base` plus the slots of the components before it. |
| DecoderUtils.SlotLayoutDisjoint | src/main/java/net/ansinn/ByteBarista/codegen/stream/StreamDecoderBuilder.java:51-66 | An earlier component's slots end at or before a later component's slot: no two values share a local. |
| LocalFrame.StoreAllHolds | src/main/java/net/ansinn/ByteBarista/codegen/stream/StreamDecoderBuilder.java:55-66 | With well-typed stores into disjoint slots, every stored value is still in its slot after all the stores. |
| LocalFrame.StoreAllRejects | src/main/java/net/ansinn/ByteBarista/RecordDecoderBuilder.java:79 | A store of the wrong family makes the class verifier reject the body. |
| LocalFrame.LoadAllGets | src/main/java/net/ansinn/ByteBarista/codegen/stream/StreamDecoderBuilder.java:72-76 | Loads that each find their value, in their own family, push exactly those values in order. |
| LocalFrame.FillFor | src/main/java/net/ansinn/ByteBarista/codegen/stream/StreamDecoderBuilder.java:51-76 | The body has one store and one load per component, with the reads in order. Each load reads the family and slot its store wrote. |
| LocalFrame.FillForStore | src/main/java/net/ansinn/ByteBarista/codegen/stream/StreamDecoderBuilder.java:64-65 | Component `k` is stored with `storeType`'s family at slot 1 plus the `slotsFor` of the components before it. |
| LocalFrame.FillForSound | src/main/java/net/ansinn/ByteBarista/codegen/stream/StreamDecoderBuilder.java:51-76 | The emitted stores are well typed and never overlap. |
| LocalFrame.FrameFillFor | src/main/java/net/ansinn/ByteBarista/codegen/stream/StreamDecoderBuilder.java:46-85 | Whatever the reads yield, the class verifier accepts the body, and the constructor receives exactly the values read, in declaration order. |
| LocalFrame.RunFillFor | src/main/java/net/ansinn/ByteBarista/codegen/stream/StreamDecoderBuilder.java:46-85 | Running the body on enough bytes hands the constructor the decoded components. |
| LocalFrame.Plan | src/main/java/net/ansinn/ByteBarista/codegen/stream/StreamDecoderBuilder.java:55-62 | There is one read per component exactly when every component has one, and read `k` is the one dispatched for component `k`. |
| LocalFrame.PlanFirstError | src/main/java/net/ansinn/ByteBarista/codegen/stream/StreamDecoderBuilder.java:55-62 | Generation fails with the exception of the first component without a read. |
| LocalFrame.FirstFailure | src/main/java/net/ansinn/ByteBarista/codegen/stream/StreamDecoderBuilder.java:55-62 | When some component has no read, there is a first such component, and every component before it has one. |
| LocalFrame.PlanWidth | src/main/java/net/ansinn/ByteBarista/ClassUtils.java:40-70 | When every read takes its component's `sumFieldSizes` width, a complete plan reads exactly the record size. |
| LocalFrame.EmitBody | src/main/java/net/ansinn/ByteBarista/codegen/stream/StreamDecoderBuilder.java:51-76 | The store pass, with `index += slotsFor`, and the load pass, with `cursor += slotsFor`, produce the body `FillFor` lays out, or the plan's first exception. |
| Wire.Unsigned | src/main/java/net/ansinn/ByteBarista/codegen/stream/StreamDecoderBuilder.java:143-154 | The shift-and-or of `n` masked bytes is a number below `256^n`. |
| Wire.UnsignedOfBytes | src/main/java/net/ansinn/ByteBarista/codegen/stream/StreamDecoderBuilder.java:143-154 | Over one, two or four bytes, that number is the written-out sum of each byte shifted by eight bits per byte after it. Over eight bytes, it is the first four bytes' number times `2^32` plus the last four bytes' number. |
| Wire.UnsignedOfBigEndian | src/main/java/net/ansinn/ByteBarista/codegen/stream/StreamDecoderBuilder.java:143-154 | Reading the big-endian bytes of a number gives the number. |
| Wire.BigEndianOfUnsigned | src/main/java/net/ansinn/ByteBarista/codegen/stream/StreamDecoderBuilder.java:143-154 | Writing the number that bytes spell gives the bytes back. |
| Wire.Read | src/main/java/net/ansinn/ByteBarista/codegen/stream/StreamDecoderBuilder.java:143-294 | Every read yields a value of its Java type, within that type's range. |
| Wire.ReadPattern | src/main/java/net/ansinn/ByteBarista/codegen/stream/StreamDecoderBuilder.java:180-201 | A zero-extending read gives the big-endian number itself. A signed read gives it, or it minus `256^width`. |
| Wire.UnsignedRanges | src/main/java/net/ansinn/ByteBarista/codegen/stream/StreamDecoderBuilder.java:215-271 | The unsigned annotations give 0..255, 0..65535 and 0..4294967295. |
| Wire.SixteenBitRanges | src/main/java/net/ansinn/ByteBarista/codegen/stream/StreamDecoderBuilder.java:203-294 | The unnarrowed stream `short` and `char` are 0..65535. |
| Wire.BitPatternRanges | src/main/java/net/ansinn/ByteBarista/codegen/stream/StreamDecoderBuilder.java:273-281 | `float` and `double` patterns take all 32 and 64 bits. |
| Wire.SignedRanges | src/main/java/net/ansinn/ByteBarista/codegen/stream/StreamDecoderBuilder.java:143-188 | `long`, `int`, the buffer's `short` and `byte` span their full two's-complement ranges. |
| Wire.ReadWrite | src/main/java/net/ansinn/ByteBarista/codegen/stream/StreamDecoderBuilder.java:143-294 | Every value a read can produce is read back from its big-endian encoding. |
| Wire.WriteRead | src/main/java/net/ansinn/ByteBarista/codegen/stream/StreamDecoderBuilder.java:143-294 | Reads are injective: re-encoding a read value gives the bytes it came from. |
| Wire.TotalWidthAppend | src/main/java/net/ansinn/ByteBarista/ClassUtils.java:40-70 | The width of two runs of reads is the sum of their widths. |
| Wire.DecodeAll | src/main/java/net/ansinn/ByteBarista/codegen/stream/StreamDecoderBuilder.java:55-66 | A body yields one value per read, each in its read's range, and consumes exactly the total width. |
| Wire.DecodeAllAt | src/main/java/net/ansinn/ByteBarista/codegen/stream/StreamDecoderBuilder.java:55-66 | Component `k` is the read of exactly its own bytes, which start after every earlier component's bytes. |
| Wire.DecodeAllPrefix | src/main/java/net/ansinn/ByteBarista/codegen/stream/StreamDecoderBuilder.java:55-66 | Bytes after the record do not affect what is decoded. |
| Wire.DecodeWriteAll | src/main/java/net/ansinn/ByteBarista/codegen/stream/StreamDecoderBuilder.java:55-66 | Decoding the reference encoding of any readable values gives them back and consumes the record's width. |
| Wire.WriteDecodeAll | src/main/java/net/ansinn/ByteBarista/codegen/stream/StreamDecoderBuilder.java:55-66 | Re-encoding what was decoded gives exactly the bytes consumed. |
| JavaIO.ByteBuffer.Get | src/main/java/net/ansinn/ByteBarista/RecordDecoderBuilder.java:131-164 | A relative get returns the next `n` bytes and moves the position past them. When fewer remain, it throws `BufferUnderflowException` and leaves the position. |
| JavaIO.ByteBuffer.GetValue | src/main/java/net/ansinn/ByteBarista/RecordDecoderBuilder.java:119-169 | A typed getter returns the read of the next `Width` bytes and advances past them, or underflows without moving. |
| JavaIO.ByteBuffer.Put | src/main/java/net/ansinn/ByteBarista/codecs/DynamicCodec.java:93-101 | A bulk put throws `ReadOnlyBufferException` on a read-only buffer and `BufferOverflowException` when the bytes do not fit, changing nothing in either case. Otherwise it writes the bytes at the position and leaves the rest of the array unchanged. |
| JavaIO.ByteArrayInputStream.Read | src/main/java/net/ansinn/ByteBarista/codegen/stream/StreamDecoderBuilder.java:143-154 | `read()` returns the next byte as 0..255 and advances, or returns -1 at the end. |
| RecordDecoderBuilder.Descriptors | src/main/java/net/ansinn/ByteBarista/RecordDecoderBuilder.java:176-182 | The descriptors exist exactly when no component is `boolean`; otherwise `IllegalArgumentException` is thrown. |
| RecordDecoderBuilder.Signature | src/main/java/net/ansinn/ByteBarista/RecordDecoderBuilder.java:176-182 | The same condition applies. The descriptor has the form `(` ... `)V`. |
| RecordDecoderBuilder.BuildSignature | src/main/java/net/ansinn/ByteBarista/RecordDecoderBuilder.java:176-182 | The builder loop yields `Signature`. |
| RecordDecoderBuilder.PrimitiveSignature | src/main/java/net/ansinn/ByteBarista/RecordDecoderBuilder.java:176-182 | A primitive record's signature is `(`, one letter per component in order, then `)V`. |
| RecordDecoderBuilder.SignatureDeterminesTypes | src/main/java/net/ansinn/ByteBarista/RecordDecoderBuilder.java:176-182 | Primitive records with one constructor descriptor have the same component types in order. |
| RecordDecoderBuilder.BufferReaderFor | src/main/java/net/ansinn/ByteBarista/RecordDecoderBuilder.java:119-169 | A component has a getter exactly when it is a non-`boolean` primitive, except `@UnsignedInteger int`; otherwise `IllegalStateException` is thrown. Each getter reads `sumFieldSizes`'s width, and its value has the family `storeType` picks. |
| RecordDecoderBuilder.ConstructorFill | src/main/java/net/ansinn/ByteBarista/RecordDecoderBuilder.java:71-94 | As intended (see ## Findings): a body exists only when every component has a getter, with one store and one load per component in order. Store `k` uses component `k`'s getter, and each load reads back its own store's family and slot. |
| RecordDecoderBuilder.PopulateConstructorFill | src/main/java/net/ansinn/ByteBarista/RecordDecoderBuilder.java:71-94 | The intended generation (typed stores and `slotsFor` slots) yields `ConstructorFill`. |
| RecordDecoderBuilder.ConstructorFillErrors | src/main/java/net/ansinn/ByteBarista/RecordDecoderBuilder.java:71-94 | A body is emitted exactly when every component has a getter. A `boolean` throws `IllegalArgumentException` first. Any other failure is `IllegalStateException`. |
| RecordDecoderBuilder.ConstructorFillShape | src/main/java/net/ansinn/ByteBarista/RecordDecoderBuilder.java:71-94 | The body reads exactly `getRecordSize` bytes, with values matching their store families. |
| RecordDecoderBuilder.ConstructorFillRuns | src/main/java/net/ansinn/ByteBarista/RecordDecoderBuilder.java:71-94 | On enough bytes, the intended body hands the constructor the components in declaration order. |
| RecordDecoderBuilder.ConstructorFillAsWritten | src/main/java/net/ansinn/ByteBarista/RecordDecoderBuilder.java:71-94 | As written, a body exists exactly when the intended one does, with the same getters. Every store is an `istore` and every load an `iload`, at slot `k + 1` for component `k`. |
| RecordDecoderBuilder.IntSlots | src/main/java/net/ansinn/ByteBarista/RecordDecoderBuilder.java:75-86 | As written, there is one `istore`/`iload` per read, in slots 1, 2, 3, .... |
| RecordDecoderBuilder.AsWrittenRejectsWide | src/main/java/net/ansinn/ByteBarista/RecordDecoderBuilder.java:76-86 | As written, any `long`, `double` or `float` component makes the class verifier reject the body. |
| RecordDecoderBuilder.AsWrittenAgreesOnIntFamily | src/main/java/net/ansinn/ByteBarista/RecordDecoderBuilder.java:76-86 | As written, the body is the intended one for records of `int`-family components only, up to the reads. The `@UnsignedByte` and `@UnsignedShort` `int` getters are the helper calls listed under "## Left out", and the model gives them their intended meaning. |
| RecordDecoderBuilder.LongRecordFill | src/main/java/net/ansinn/ByteBarista/RecordDecoderBuilder.java:76-86 | A `long` record over `00..00 2A` is rejected as written and yields 42 as intended. |
| RecordDecoderBuilder.UnsignedRecordFill | src/test/java/net/ansinn/ByteBarista/SafeRecordDecoderTest.java:28-47 | `UnsignedTest` over seven `FF` bytes yields 255, 65535 and 4294967295 as intended, and is rejected as written. |
| RecordDecoderBuilder.PopulateSafetyException | src/main/java/net/ansinn/ByteBarista/RecordDecoderBuilder.java:96-117 | The guard asks `remaining() >= getRecordSize`, or the size's exception propagates. The size cache is updated as `getRecordSize` does. |
| RecordDecoderBuilder.EmitClassBytes | src/main/java/net/ansinn/ByteBarista/RecordDecoderBuilder.java:47-69 | As intended (see ## Findings): The unsafe body, the guard, and the safe body yield `ClassBytes`, and the cache is updated. |
| RecordDecoderBuilder.ClassBytesGuard | src/main/java/net/ansinn/ByteBarista/RecordDecoderBuilder.java:47-69 | As intended (see ## Findings): The class is emitted exactly when the body is, and its guard asks for exactly the bytes the body reads. |
| RecordDecoderBuilder.ClassBytes | src/main/java/net/ansinn/ByteBarista/RecordDecoderBuilder.java:47-69 | As intended (see ## Findings): both methods get the same body, and the guard's size is the record's `sumFieldSizes`. |
| RecordDecoderBuilder.ClassBytesAsWritten | src/main/java/net/ansinn/ByteBarista/RecordDecoderBuilder.java:47-69 | As written, both methods get the `istore`/`iload` body behind the same guard. The class is emitted exactly when the intended one is. |
| RecordDecoderBuilder.ClassBytesAsWrittenRejected | src/main/java/net/ansinn/ByteBarista/RecordDecoderBuilder.java:57-66 | As written, a record with a `long`, `double` or `float` component gets a class that the class verifier rejects, in both methods and whatever the bytes. The class therefore fails when it is defined (RecordDecoderBuilder.java:32). |
| RecordDecoderBuilder.ClassBytesAsWrittenOnIntFamily | src/main/java/net/ansinn/ByteBarista/RecordDecoderBuilder.java:57-66 | As written, a record of `int`-family components gets the intended class. |
| RecordDecoderBuilder.Consumed | src/main/java/net/ansinn/ByteBarista/RecordDecoderBuilder.java:76-80 | The reads take at most the bytes that remain. They take their total width when it fits, and less than that width otherwise. |
| RecordDecoderBuilder.UnsafeLoad | src/main/java/net/ansinn/ByteBarista/RecordDecoderBuilder.java:57-59 | The unsafe method returns one value per component and takes their total width. Otherwise it throws `BufferUnderflowException` having taken less than that width. It never takes more bytes than remain. |
| RecordDecoderBuilder.SafeLoad | src/main/java/net/ansinn/ByteBarista/RecordDecoderBuilder.java:61-66 | The safe method throws only `IllegalArgumentException` or `BufferUnderflowException`. The guard's `IllegalArgumentException` comes only on a short buffer, with nothing read. |
| RecordDecoderBuilder.SafeLoadNeverUnderflows | src/main/java/net/ansinn/ByteBarista/RecordDecoderBuilder.java:96-117 | The safe load never underflows. It throws `IllegalArgumentException` without reading exactly when the buffer is short, and otherwise equals the unsafe load. |
| RecordDecoderBuilder.UnsafeLoadFails | src/main/java/net/ansinn/ByteBarista/RecordDecoderBuilder.java:57-59 | The unsafe load fails exactly on short input. It consumes the record's width on success and never more bytes than remain. |
| RecordDecoderBuilder.ShortBufferExample | src/main/java/net/ansinn/ByteBarista/RecordDecoderBuilder.java:96-117 | With two `int`s and five bytes, unsafe reads 4 bytes then underflows; safe throws and reads none. |
| RecordDecoderBuilder.ReadComponents | src/main/java/net/ansinn/ByteBarista/RecordDecoderBuilder.java:76-80 | The relative gets on a buffer yield `UnsafeLoad`'s result, and the position moves by its consumed count. |
| RecordDecoderBuilder.LoadFromBufferUnsafe | src/main/java/net/ansinn/ByteBarista/RecordDecoderBuilder.java:57-59 | As intended (see ## Findings): `loadFromBuffer_Unsafe` on a buffer behaves as `UnsafeLoad` says. |
| RecordDecoderBuilder.LoadFromBufferSafe | src/main/java/net/ansinn/ByteBarista/RecordDecoderBuilder.java:61-66 | As intended (see ## Findings): `loadFromBuffer_Safe` on a buffer behaves as `SafeLoad` says. |
| RecordDecoderBuilder.RunFill | src/main/java/net/ansinn/ByteBarista/RecordDecoderBuilder.java:71-94 | As intended (see ## Findings): The reads, then the stores and loads, leave the buffer and result as `UnsafeLoad` says. |
| StreamDecoderBuilder.StreamReaderFor | src/main/java/net/ansinn/ByteBarista/codegen/stream/StreamDecoderBuilder.java:95-118 | A component has a read exactly when it is a non-`boolean` primitive, except `@UnsignedInteger int`. Non-primitives throw `UnsupportedOperationException` (`writeClassParser`). Other failures throw `IllegalStateException`. Each read takes `sumFieldSizes`'s width, with the family `storeType` picks. |
| StreamDecoderBuilder.AnnotationPrecedence | src/main/java/net/ansinn/ByteBarista/codegen/stream/StreamDecoderBuilder.java:132-178 | The first annotation present sets the width, and the read is zero-extended. `@UnsignedInteger` makes a `long` a 4-byte read and makes an `int` throw. Unannotated, a `long` is 8 signed bytes and an `int` 4. |
| StreamDecoderBuilder.StreamMatchesBuffer | src/main/java/net/ansinn/ByteBarista/codegen/stream/StreamDecoderBuilder.java:95-118 | Both builders accept the same components and choose the same read, except `short` (unnarrowed on the stream) and the exception for non-primitives. |
| StreamDecoderBuilder.ShortRawIsPattern | src/main/java/net/ansinn/ByteBarista/codegen/stream/StreamDecoderBuilder.java:203-213 | A stream `short` is the 16-bit pattern of the buffer's `short`. The two are equal exactly below `0x8000`, and above it they differ by 65536. |
| StreamDecoderBuilder.OneByteReads | src/main/java/net/ansinn/ByteBarista/codegen/stream/StreamDecoderBuilder.java:249-271 | The unsigned one-byte reads give the byte itself. A `byte` is the byte sign-extended by `i2b`. |
| StreamDecoderBuilder.TwoByteReads | src/main/java/net/ansinn/ByteBarista/codegen/stream/StreamDecoderBuilder.java:203-247 | `short`, `char` and `@UnsignedShort` give `(b0 << 8) \| b1`. |
| StreamDecoderBuilder.FourByteReads | src/main/java/net/ansinn/ByteBarista/codegen/stream/StreamDecoderBuilder.java:180-201 | The four shifted bytes: negative as an `int` when the top bit is set, never negative as an unsigned `long`, and the raw pattern of a `float`. |
| StreamDecoderBuilder.EightByteReads | src/main/java/net/ansinn/ByteBarista/codegen/stream/StreamDecoderBuilder.java:143-154 | The eight shifted bytes: negative as a `long` when the top bit is set, and the raw pattern of a `double`. |
| StreamDecoderBuilder.ReadValue | src/main/java/net/ansinn/ByteBarista/codegen/stream/StreamDecoderBuilder.java:143-154 | `Width` calls to `read()`, each shifting the bytes before it left, give `Read` of the next bytes and leave the stream just past them. |
| StreamDecoderBuilder.ReadStreamComponents | src/main/java/net/ansinn/ByteBarista/codegen/stream/StreamDecoderBuilder.java:55-66 | The body's reads give `DecodeAll` of the stream and leave it past the record. |
| StreamDecoderBuilder.ReadFunction | src/main/java/net/ansinn/ByteBarista/codegen/stream/StreamDecoderBuilder.java:46-85 | A body exists only when every component has a read, with one store and one load per component in order. Store `k` uses component `k`'s read, and each load reads back its own store's family and slot. |
| StreamDecoderBuilder.EmitReadFunction | src/main/java/net/ansinn/ByteBarista/codegen/stream/StreamDecoderBuilder.java:46-85 | `emitReadFunction` yields `ReadFunction`. |
| StreamDecoderBuilder.ReadFunctionErrors | src/main/java/net/ansinn/ByteBarista/codegen/stream/StreamDecoderBuilder.java:46-66 | A body is emitted exactly when every component has a read. A `boolean` throws `IllegalArgumentException` from the descriptor first. |
| StreamDecoderBuilder.ReadFunctionFirstError | src/main/java/net/ansinn/ByteBarista/codegen/stream/StreamDecoderBuilder.java:55-66 | Past the descriptor, the first component without a read decides the exception. |
| StreamDecoderBuilder.ReadFunctionShape | src/main/java/net/ansinn/ByteBarista/codegen/stream/StreamDecoderBuilder.java:46-85 | The `decode` body reads exactly `getRecordSize` bytes, with values matching their store families. |
| StreamDecoderBuilder.ReadFunctionRuns | src/main/java/net/ansinn/ByteBarista/codegen/stream/StreamDecoderBuilder.java:46-85 | On enough bytes, the constructor receives the components in declaration order. |
| StreamDecoderBuilder.ReadFunctionMatchesBuffer | src/main/java/net/ansinn/ByteBarista/codegen/stream/StreamDecoderBuilder.java:95-118 | The stream and buffer bodies exist for the same records, and are identical without `short` components. |
| StreamDecoderBuilder.Decode | src/main/java/net/ansinn/ByteBarista/codegen/stream/StreamDecoderBuilder.java:46-85 | The generated `decode` on a stream holding the record returns the decoded components and leaves the stream past them. |
| StreamDecoderBuilder.StreamDecode | src/main/java/net/ansinn/ByteBarista/codegen/stream/StreamDecoderBuilder.java:46-85 | The `decode` body decodes enough bytes to `DecodeAll` of its component reads, one value per component. |
| StreamDecoderBuilder.SingleComponent | src/main/java/net/ansinn/ByteBarista/codegen/stream/StreamDecoderBuilder.java:46-85 | A one-component record decodes to that component's read of its bytes. |
| StreamDecoderBuilder.DecodeByteRecord | src/test/java/net/ansinn/ByteBarista/codegen/stream/TestDecoderMethod.java:53-60 | `7F` decodes to the byte 127. |
| StreamDecoderBuilder.DecodeShortRecord | src/test/java/net/ansinn/ByteBarista/codegen/stream/TestDecoderMethod.java:62-69 | `00 2A` decodes to the short 42. |
| StreamDecoderBuilder.DecodeIntRecord | src/test/java/net/ansinn/ByteBarista/codegen/stream/TestDecoderMethod.java:71-78 | `00 00 00 2A` decodes to the int 42. |
| StreamDecoderBuilder.DecodeLongRecord | src/test/java/net/ansinn/ByteBarista/codegen/stream/TestDecoderMethod.java:80-87 | Seven zero bytes and `2A` decode to the long 42. |
| StreamDecoderBuilder.DecodeFloatRecord | src/test/java/net/ansinn/ByteBarista/codegen/stream/TestDecoderMethod.java:89-96 | `42 28 00 00` decodes to the bit pattern of 42.0f. |
| StreamDecoderBuilder.DecodeDoubleRecord | src/test/java/net/ansinn/ByteBarista/codegen/stream/TestDecoderMethod.java:98-105 | `40 45 00 ...` decodes to the bit pattern of 42.0. |
| StreamDecoderBuilder.DecodeCharRecord | src/test/java/net/ansinn/ByteBarista/codegen/stream/TestDecoderMethod.java:107-114 | `00 41` decodes to `'A'`. |
| StreamDecoderBuilder.DecodeUnsignedByteRecord | src/test/java/net/ansinn/ByteBarista/codegen/stream/TestDecoderMethod.java:116-123 | `FF` decodes to 255. |
| StreamDecoderBuilder.DecodeUnsignedShortRecord | src/test/java/net/ansinn/ByteBarista/codegen/stream/TestDecoderMethod.java:125-132 | `FF FF` decodes to 65535. |
| StreamDecoderBuilder.DecodeUnsignedIntRecord | src/test/java/net/ansinn/ByteBarista/codegen/stream/TestDecoderMethod.java:134-141 | `FF FF FF FF` decodes to 4294967295. |
| DynamicCodec.Catch | src/main/java/net/ansinn/ByteBarista/codecs/DynamicCodec.java:51-57 | A value passes unchanged. A listed exception is rethrown. Any other exception becomes `IllegalStateException`. |
| DynamicCodec.DecodeBuffer | src/main/java/net/ansinn/ByteBarista/codecs/DynamicCodec.java:50-58 | Buffer decode reads what the handle read and throws only `BufferUnderflowException` or `IllegalStateException`. |
| DynamicCodec.DecodeStream | src/main/java/net/ansinn/ByteBarista/codecs/DynamicCodec.java:72-78 | Stream decode reads what the handle read. It succeeds exactly when the handle does, and otherwise throws `IllegalStateException`. |
| DynamicCodec.DecodeExceptions | src/main/java/net/ansinn/ByteBarista/codecs/DynamicCodec.java:50-78 | Buffer decode succeeds exactly when the handle does, with its record. It rethrows `BufferUnderflowException` exactly when the handle threw it, and otherwise throws `IllegalStateException`. Stream decode throws only `IllegalStateException`. The bytes read are the handle's. |
| DynamicCodec.DecodeFromBuffer | src/main/java/net/ansinn/ByteBarista/codecs/DynamicCodec.java:50-58 | On a buffer, it returns `DecodeBuffer`'s result and moves the position by what the handle read. |
| DynamicCodec.DecodeFromStream | src/main/java/net/ansinn/ByteBarista/codecs/DynamicCodec.java:72-78 | On a stream, it returns `DecodeStream`'s result and consumes what the handle read. |
| DynamicCodec.Puts | src/main/java/net/ansinn/ByteBarista/codecs/DynamicCodec.java:93-101 | The encode handle's relative puts write at most the bytes that fit and at most the handle's bytes. All are written on success. A failure is `ReadOnlyBufferException` or `BufferOverflowException`. |
| DynamicCodec.PutsSucceed | src/main/java/net/ansinn/ByteBarista/codecs/DynamicCodec.java:93-101 | The puts succeed exactly when there are none, or the buffer is writable and all their bytes fit. A read-only buffer fails on the first put with nothing written. A writable buffer that is too small overflows. |
| DynamicCodec.EncodeBuffer | src/main/java/net/ansinn/ByteBarista/codecs/DynamicCodec.java:93-101 | Buffer encode writes at most the bytes that fit and at most the handle's bytes. It throws only `BufferOverflowException`, `ReadOnlyBufferException` or `IllegalStateException`. |
| DynamicCodec.EncodeBufferPartial | src/main/java/net/ansinn/ByteBarista/codecs/DynamicCodec.java:93-101 | A handle that puts `01` and then `02 03` into two bytes of room overflows with `01` written. A handle with nothing to put succeeds on a read-only buffer. |
| DynamicCodec.PutAll | src/main/java/net/ansinn/ByteBarista/codecs/DynamicCodec.java:93-101 | On a buffer, the puts end as `Puts` says. The position moves past the bytes written, and those bytes are the first ones of the handle's runs. Every other byte is unchanged. |
| DynamicCodec.EncodeBufferExceptions | src/main/java/net/ansinn/ByteBarista/codecs/DynamicCodec.java:93-101 | Encoding into a buffer succeeds exactly when the handle's puts fit a writable buffer, or it has none. It then writes all the handle's bytes. A handle that throws writes nothing. A read-only buffer fails on the first put with `ReadOnlyBufferException`. A writable buffer that is too small throws `BufferOverflowException`, and the earlier puts stay written. |
| DynamicCodec.EncodeIntoBuffer | src/main/java/net/ansinn/ByteBarista/codecs/DynamicCodec.java:93-101 | On a buffer, it returns `EncodeBuffer`'s result. The position moves by `EncodeBuffer`'s count, and the bytes written are that many leading bytes of the handle's runs. On success that is all of them. On failure it is the puts made before the failing one. Every other byte is unchanged. |
| DynamicCodec.EncodeStreamVia | src/main/java/net/ansinn/ByteBarista/codecs/DynamicCodec.java:114-120 | A handle whose type is not the call site's makes the call fail. Every failure is `IllegalStateException`. |
| DynamicCodec.EncodeStreamAsWritten | src/main/java/net/ansinn/ByteBarista/codecs/DynamicCodec.java:114-120 | As written, the call invokes the decode handle and always fails. |
| DynamicCodec.EncodeStream | src/main/java/net/ansinn/ByteBarista/codecs/DynamicCodec.java:114-120 | As intended (see ## Findings): stream encoding succeeds exactly when the encode handle does, and yields all the handle's bytes. |
| DynamicCodec.EncodeStreamAsWrittenFails | src/main/java/net/ansinn/ByteBarista/codecs/DynamicCodec.java:114-120 | As written, stream encoding throws `IllegalStateException` for every codec and value. |
| DynamicCodec.EncodeStreamExample | src/main/java/net/ansinn/ByteBarista/codecs/DynamicCodec.java:114-120 | With an encode handle that writes `07`, the as-written encode fails and the intended one writes `07`. |
| DynamicCodec.EncodeStreamExceptions | src/main/java/net/ansinn/ByteBarista/codecs/DynamicCodec.java:114-120 | As intended, stream encoding succeeds exactly when the encode handle does, with its bytes; otherwise it throws `IllegalStateException`. |
| DynamicCodec.EncodeIntoStream | src/main/java/net/ansinn/ByteBarista/codecs/DynamicCodec.java:114-120 | As intended (see ## Findings): the encode handle's bytes are appended to the stream, or nothing is. As written, the call always throws `IllegalStateException` (`DynamicCodec.EncodeStreamAsWrittenFails`). |
| FixedCodec.DecodeBuffer | src/main/java/net/ansinn/ByteBarista/codecs/FixedCodec.java:45-49 | A buffer with fewer than `size` bytes throws `IllegalStateException` having read nothing. Otherwise only `IllegalStateException` or `BufferUnderflowException` can be thrown. |
| FixedCodec.DecodeStream | src/main/java/net/ansinn/ByteBarista/codecs/FixedCodec.java:63-67 | A stream with fewer than `size` bytes throws `IllegalStateException` having read nothing. Every failure is `IllegalStateException`. |
| FixedCodec.EncodeBuffer | src/main/java/net/ansinn/ByteBarista/codecs/FixedCodec.java:81-85 | Fewer than `size` bytes of room throw `IllegalStateException` having written nothing. Otherwise at most the bytes that fit are written, and at most the internal codec's bytes. Only `IllegalStateException`, `BufferOverflowException` or `ReadOnlyBufferException` can be thrown. |
| FixedCodec.EncodeStream | src/main/java/net/ansinn/ByteBarista/codecs/FixedCodec.java:97-99 | As intended (see ## Findings): stream encoding succeeds exactly when the internal codec's encode handle does. Every failure is `IllegalStateException`. |
| FixedCodec.SizeChecks | src/main/java/net/ansinn/ByteBarista/codecs/FixedCodec.java:45-85 | Fewer than `size` bytes, or fewer bytes of room, throw `IllegalStateException` having read or written nothing. Otherwise the internal codec decides. |
| FixedCodec.EncodeStreamAsWrittenFails | src/main/java/net/ansinn/ByteBarista/codecs/FixedCodec.java:97-99 | Through the as-written internal codec, stream encoding fails for every value. |
| FixedCodec.DecodeFromBuffer | src/main/java/net/ansinn/ByteBarista/codecs/FixedCodec.java:45-49 | On a buffer, it returns `DecodeBuffer`'s result and moves the position by its consumed count. |
| FixedCodec.DecodeFromStream | src/main/java/net/ansinn/ByteBarista/codecs/FixedCodec.java:63-67 | On a stream, it returns `DecodeStream`'s result and consumes its count. |
| FixedCodec.EncodeIntoBuffer | src/main/java/net/ansinn/ByteBarista/codecs/FixedCodec.java:81-85 | On a buffer, it returns `EncodeBuffer`'s result. The position moves by `EncodeBuffer`'s count, and the bytes written are that many leading bytes of the internal codec's runs. Too little room throws `IllegalStateException` before anything is put. |
| FixedCodec.EncodeIntoStream | src/main/java/net/ansinn/ByteBarista/codecs/FixedCodec.java:97-99 | As intended (see ## Findings): on a stream, it appends the internal codec's stream encoding, or nothing. As written, the pass-through always throws `IllegalStateException` (`FixedCodec.EncodeStreamAsWrittenFails`). |
| FixedCodec.FixedBufferDecode | src/main/java/net/ansinn/ByteBarista/codecs/FixedCodec.java:45-49 | Sized by the body it wraps, a fixed codec never lets `BufferUnderflowException` through. It throws `IllegalStateException` without reading exactly on short input. Otherwise it returns the components and reads exactly `size` bytes, agreeing with `loadFromBuffer_Safe` on success. |
| FixedCodec.FixedCodecForRecord | src/main/java/net/ansinn/ByteBarista/codecs/FixedCodec.java:45-49 | As intended (see ## Findings): The same holds with `getRecordSize` as the size, for any record whose body can be generated. |
| FixedCodec.DecodeRecordFromStream | src/main/java/net/ansinn/ByteBarista/codecs/FixedCodec.java:63-67 | The `available()` check is exactly what the generated `decode` needs. A short stream throws `IllegalStateException` without reading. Otherwise the components are returned and the stream is left `size` bytes on. |

## Left out

- `RecordCodecBuilder`, `CacheManager`, `CodegenConstants` and the `Codec` interface are not part of this model. `BufferDecoderBuilder` is not part of this model either. The stream builder takes its `buildSignature` from it, and the model assumes it is the same as `RecordDecoderBuilder.buildSignature`.
- Bytecode is not modelled instruction by instruction. A generated body is its reads, its typed stores and its typed loads, and the class verifier's check is reduced to the family and slot of each store and load. Every other emitted instruction gets its intended byte-level meaning, including the three below, which the class verifier or the class-file builder may reject as written.
- StreamDecoderBuilder.java:150 emits `bipush(shift).i2l().lshl()` in `emitReadFromLongStream`. This widens the shift count rather than the masked byte, which leaves an `int` under a `long` where `lshl` needs a `long` under an `int`. `StreamDecoderBuilder.EightByteReads`, `StreamDecoderBuilder.DecodeLongRecord` and `StreamDecoderBuilder.DecodeDoubleRecord` take the intended 64-bit shift-and-or.
- RecordDecoderBuilder.java:125-138 call the `NumericHelpers` getters for `@UnsignedByte`, `@UnsignedShort` and `@UnsignedInteger` buffer reads with `invokevirtual` and no receiver on the stack. `RecordDecoderBuilder.BufferReaderFor` takes them as the intended zero-extending reads of 1, 2 and 4 bytes.
- StreamDecoderBuilder.java:219, 227 and 260 mask with `bipush(0xFF)`, whose operand lies outside a signed byte. The model takes the intended mask `0xFF`, as the `sipush(0xFF)` of the other reads does.
- The end of a stream is a precondition of `StreamDecoderBuilder.ReadValue`, `StreamDecoderBuilder.ReadStreamComponents` and `StreamDecoderBuilder.Decode`. At the end, `read()` returns -1, and the emitted code does not check for it. `FixedCodec.DecodeRecordFromStream` shows that the `available()` pre-check discharges this precondition.
- A stream `short` is `(b0 << 8) | b1` without narrowing, and it reaches the constructor's `short` parameter as that `int`. The model keeps the unsigned 16-bit pattern and does not decide how the JVM presents it as a `short`.
- Buffers are modelled in their default big-endian byte order, and `ByteBuffer.order()` is not modelled. The generated getters follow whatever order the caller set on the buffer, and the core neither sets nor checks it. A little-endian buffer therefore decodes differently from what `JavaIO.ByteBuffer.GetValue` and the buffer loads state.
- RecordDecoderBuilder.java:21-22 and 112 write descriptors with dotted class names, `(Ljava.nio.ByteBuffer;)J`, `(Ljava.nio.ByteBuffer;)I` and `(Ljava.lang.String;)V`. Descriptor validation is not modelled. Whether `MethodTypeDesc.ofDescriptor` accepts these strings when the class is initialised is therefore not decided. The model gives these call sites their intended slashed descriptors. The same applies to the descriptor built at RecordDecoderBuilder.java:43.
- `float` and `double` are their IEEE 754 bit patterns; no floating-point arithmetic is modelled.
- Method handles are modelled by what they do to bytes. A decode handle gives a result and the bytes it read. An encode handle gives the runs of bytes it puts, one relative bulk put per run, or an exception. The model takes an encode handle's own exception to arise before its first put. Generated encoders are not part of this model. `Wire.Write` is a reference encoder, not the repository's encoder.
- `invokeExact` type checks are modelled only in stream encoding, where the handle's type decides the outcome. Every other handle is assumed to match its call site.
- Exception messages are not modelled, only the exception classes.
- Concurrency is not modelled. The size cache is a `ConcurrentHashMap`, and the model treats it as a single-threaded map.
- ClassUtils.IsFixedSize: `isFixedSize` has an empty body in the repository. The model takes its meaning from its tests: non-`boolean` primitives and enums are fixed; `String`, arrays and non-record classes are not; records are fixed when all their components are. The test that expects a record with a `boolean` component to be fixed-size contradicts `sumFieldSizes` and `getDescriptor`, which both reject `boolean`. The model follows the code: `ClassUtilsExamples.BooleanRecordIsNotFixed`.
- ClassUtils.Descriptor: for reference types the code writes `L` + `Class.getName()` + `;`, which uses dots. Its documentation describes the slashed internal form. The model follows the code. No generated body reaches a reference-typed component, because both builders reject those components.
- Enums with more than 255 constants are not rejected, because `sumFieldSizes` does not check for them. The model follows the code.

## Findings

| source | as written | input that shows it | evidently intended | confidence | as-written member | corrected member |
|---|---|---|---|---|---|---|
| src/main/java/net/ansinn/ByteBarista/RecordDecoderBuilder.java:79 | Every component value is stored with `istore(index++)` and loaded with `iload`, whatever its type | `record R(long value)` over `00 00 00 00 00 00 00 2A`: the class verifier rejects the `istore` of a `long` | Use `storeType`/`loadType` and advance the slot by `slotsFor`, as the stream builder does; the body then yields 42 | not executed | RecordDecoderBuilder.LongRecordFill | RecordDecoderBuilder.ConstructorFillRuns |
| src/main/java/net/ansinn/ByteBarista/codecs/DynamicCodec.java:116 | `encode(ByteArrayOutputStream, T)` invokes `streamDecode()` with `invokeExact(outputStream, value)` | Any codec and any value, e.g. an encode handle that writes `07`: the decode handle's type `(ByteArrayInputStream)Object` never matches the call, so `IllegalStateException` is always thrown | Invoke `streamEncode()`, so the encode handle's bytes are written | not executed | DynamicCodec.EncodeStreamExample | DynamicCodec.EncodeStreamExceptions |
