/** The `ByteArrayInputStream` decoder generator: the read chosen per
    component (`writePrimitiveParser`, `emitLongInfo`, `emitIntInfo`,
    `writeClassParser`), the shift-and-or sequences the `emitReadFrom*Stream`
    helpers emit, and the `decode` body `emitReadFunction` assembles, with
    what that body does when run on a stream. */
module StreamDecoderBuilder {
  import opened Types
  import opened Sequences
  import opened Wire
  import opened ClassUtils
  import opened DecoderUtils
  import opened LocalFrame
  import opened JavaIO
  import opened RecordDecoderBuilder

  // ---------------------------------------------------------------------
  // Per-component read (writePrimitiveParser, emitLongInfo, emitIntInfo)
  // ---------------------------------------------------------------------

  /** The read the stream builder emits for a component. Non-primitive
      components go to `writeClassParser`, which throws
      `UnsupportedOperationException`; primitives are dispatched on their
      type name: `long` takes the first of the byte, short and integer
      annotations, `int` the byte or short one and rejects the integer one,
      `short` is assembled with no narrowing, and `boolean` falls to the
      default branch's `IllegalStateException`. */
  function StreamReaderFor(c: Component): (r: Result<Reader>)
    ensures r.Err? <==> (!c.ty.Prim? || c.ty.prim == Boolean ||
      (c.ty.prim == Int && !c.ann.unsignedByte && !c.ann.unsignedShort && c.ann.unsignedInteger))
    ensures !c.ty.Prim? ==> r == Err(UnsupportedOperation)
    ensures c.ty.Prim? && r.Err? ==> r == Err(IllegalState)
    ensures r.Ok? ==> FieldSize(c) == Ok(Width(r.value))
    ensures r.Ok? ==> KindCategory(KindOf(r.value)) == StoreCategory(c.ty)
  {
    if !c.ty.Prim? then Err(UnsupportedOperation)
    else match c.ty.prim
      case Long =>
        if c.ann.unsignedByte then Ok(UByteToLong)
        else if c.ann.unsignedShort then Ok(UShortToLong)
        else if c.ann.unsignedInteger then Ok(UIntToLong)
        else Ok(LongBE)
      case Int =>
        if c.ann.unsignedByte then Ok(UByteToInt)
        else if c.ann.unsignedShort then Ok(UShortToInt)
        else if c.ann.unsignedInteger then Err(IllegalState)
        else Ok(IntBE)
      case Short => Ok(ShortRaw)
      case Byte => Ok(ByteBE)
      case Double => Ok(DoubleBE)
      case Float => Ok(FloatBE)
      case Char => Ok(CharBE)
      case Boolean => Err(IllegalState)
  }

  /** The annotations on a `long` or `int` pick the width read: the first
      of `@UnsignedByte`, `@UnsignedShort` and `@UnsignedInteger` present
      wins, and a later one is ignored. */
  lemma AnnotationPrecedence(t: Primitive, a: Annotations)
    requires t == Long || t == Int
    ensures var r := StreamReaderFor(Component(Prim(t), a));
      && (a.unsignedByte ==> r.Ok? && Width(r.value) == 1 && !IsSigned(r.value))
      && (!a.unsignedByte && a.unsignedShort ==> r.Ok? && Width(r.value) == 2 && !IsSigned(r.value))
      && (!a.unsignedByte && !a.unsignedShort && a.unsignedInteger ==>
            if t == Long then r == Ok(UIntToLong) else r == Err(IllegalState))
      && (a == NoAnnotations ==> r.Ok? && IsSigned(r.value) && Width(r.value) == if t == Long then 8 else 4)
  {
  }

  /** The stream read and the buffer read of a component agree except on
      `short` and on the exception a non-primitive raises: both builders
      accept exactly the same components, and read a `short` from the same
      two bytes, the stream one without narrowing them to 16 signed bits. */
  lemma StreamMatchesBuffer(c: Component)
    ensures StreamReaderFor(c).Ok? <==> BufferReaderFor(c).Ok?
    ensures c.ty != Prim(Short) && StreamReaderFor(c).Ok? ==> StreamReaderFor(c) == BufferReaderFor(c)
    ensures c.ty == Prim(Short) ==> StreamReaderFor(c) == Ok(ShortRaw) && BufferReaderFor(c) == Ok(ShortBE)
    ensures c.ty.Prim? ==> StreamReaderFor(c) == BufferReaderFor(c) || c.ty == Prim(Short)
    ensures !c.ty.Prim? ==> StreamReaderFor(c) == Err(UnsupportedOperation) && BufferReaderFor(c) == Err(IllegalState)
  {
  }

  /** A stream `short` is the unsigned 16-bit pattern of the buffer's
      `short`: the two agree below `0x8000` and differ by 65536 above. */
  lemma ShortRawIsPattern(bs: seq<uint8>)
    requires |bs| == 2
    ensures Read(ShortRaw, bs).x == Pattern(Read(ShortBE, bs).x, 2)
    ensures Read(ShortRaw, bs).x == Read(ShortBE, bs).x <==> bs[0] < 0x80
    ensures bs[0] >= 0x80 ==> Read(ShortRaw, bs).x == Read(ShortBE, bs).x + 0x1_0000
  {
    PowValues();
    UnsignedOfBytes(bs);
  }

  // ---------------------------------------------------------------------
  // The emitted shift-and-or sequences (emitReadFrom*Stream)
  // ---------------------------------------------------------------------

  /** A one-byte read is the byte: masked with `0xFF` for the unsigned
      annotations, sign-extended by `i2b` for a `byte`. */
  lemma OneByteReads(bs: seq<uint8>)
    requires |bs| == 1
    ensures Read(UByteToInt, bs).x == bs[0] as int
    ensures Read(UByteToLong, bs).x == bs[0] as int
    ensures Read(ByteBE, bs).x == if bs[0] < 0x80 then bs[0] as int else bs[0] as int - 0x100
  {
    PowValues();
    UnsignedOfBytes(bs);
  }

  /** A two-byte read is `(b0 << 8) | b1`, kept as is for `short`, `char`
      and `@UnsignedShort`. */
  lemma TwoByteReads(bs: seq<uint8>)
    requires |bs| == 2
    ensures var u := bs[0] as int * 0x100 + bs[1] as int;
      && Read(ShortRaw, bs).x == u && Read(CharBE, bs).x == u
      && Read(UShortToInt, bs).x == u && Read(UShortToLong, bs).x == u
  {
    UnsignedOfBytes(bs);
    ReadPattern(ShortRaw, bs);
    ReadPattern(CharBE, bs);
    ReadPattern(UShortToInt, bs);
    ReadPattern(UShortToLong, bs);
  }

  /** A four-byte read is `(b0 << 24) | (b1 << 16) | (b2 << 8) | b3`:
      negative in an `int` when the top bit is set, never negative in a
      `long` after masking, and the raw pattern of a `float`. */
  lemma FourByteReads(bs: seq<uint8>)
    requires |bs| == 4
    ensures var u := bs[0] as int * 0x100_0000 + bs[1] as int * 0x1_0000 + bs[2] as int * 0x100 + bs[3] as int;
      && Read(UIntToLong, bs).x == u && Read(FloatBE, bs).x == u
      && Read(IntBE, bs).x == if bs[0] < 0x80 then u else u - 0x1_0000_0000
  {
    PowValues();
    UnsignedOfBytes(bs);
  }

  /** An eight-byte read is the two four-byte halves as one 64-bit number:
      negative in a `long` when the top bit is set, the raw pattern of a
      `double`. */
  lemma EightByteReads(bs: seq<uint8>)
    requires |bs| == 8
    ensures var u := Unsigned(bs[..4]) * 0x1_0000_0000 + Unsigned(bs[4..]);
      && Read(DoubleBE, bs).x == u
      && Read(LongBE, bs).x == if bs[0] < 0x80 then u else u - 0x1_0000_0000_0000_0000
  {
    PowValues();
    UnsignedOfBytes(bs);
    UnsignedOfBytes(bs[..4]);
    assert bs[..4][0] == bs[0];
  }

  /** One component's read run on a stream: `Width(r)` calls to `read()`,
      each byte shifted in below the ones before it, then the value the
      read's type makes of the bytes. The stream is assumed to hold the
      bytes: at its end `read()` returns -1, which the emitted code does not
      check. */
  method ReadValue(r: Reader, input: ByteArrayInputStream) returns (v: Value)
    requires input.Valid() && Width(r) <= input.Available()
    modifies input
    ensures input.Valid()
    ensures v == Read(r, old(input.Pending())[..Width(r)])
    ensures input.Pending() == old(input.Pending())[Width(r)..]
  {
    ghost var bs := input.Pending();
    var acc := 0;
    var i := 0;
    while i < Width(r)
      invariant 0 <= i <= Width(r)
      invariant input.Valid() && input.pos == old(input.pos) + i
      invariant acc == Unsigned(bs[..i])
    {
      var b := input.Read();
      assert b == bs[i] as int;
      PrefixOfPrefix(bs, i, i + 1);
      PrefixSnoc(bs, i);
      acc := acc * 0x100 + b;
      i := i + 1;
    }
    v := Make(r, acc);
  }

  /** The reads of a whole `decode` body run on a stream holding at least
      the bytes they take: the components in declaration order, and the
      stream left just past them. */
  method ReadStreamComponents(rs: seq<Reader>, input: ByteArrayInputStream) returns (vs: seq<Value>)
    requires input.Valid() && TotalWidth(rs) <= input.Available()
    modifies input
    ensures input.Valid()
    ensures vs == DecodeAll(rs, old(input.Pending())).values
    ensures input.Pending() == old(input.Pending())[TotalWidth(rs)..]
  {
    ghost var bs := input.Pending();
    vs := [];
    while |vs| < |rs|
      invariant ReadPrefix(rs, bs, vs)
      invariant input.Valid() && input.Pending() == bs[TotalWidth(rs[..|vs|])..]
      decreases |rs| - |vs|
    {
      var k := |vs|;
      ghost var rest := input.Pending();
      TotalWidthSnoc(rs, k);
      TotalWidthPrefix(rs, k + 1);
      var v := ReadValue(rs[k], input);
      ReadPrefixNext(rs, bs, vs, rest);
      vs := vs + [v];
    }
    ReadPrefixAll(rs, bs, vs);
    assert rs[..|vs|] == rs;
  }

  // ---------------------------------------------------------------------
  // The decode body (emitReadFunction)
  // ---------------------------------------------------------------------

  /** The `decode` body `emitReadFunction` should emit: the constructor
      descriptor's exception first, then the first unsupported component's,
      and otherwise every component read and stored at slots counted by
      `slotsFor` with the family `storeType` picks, loaded back with
      `loadType` and handed to the constructor. */
  function ReadFunction(cs: seq<Component>): (r: Result<Fill>)
    ensures r.Ok? ==> |r.value.stores| == |r.value.loads| == |cs|
    ensures r.Ok? ==> forall k :: 0 <= k < |cs| ==> StreamReaderFor(cs[k]) == Ok(r.value.stores[k].reader)
    ensures r.Ok? ==> forall k :: 0 <= k < |cs| ==> r.value.loads[k] == Load(r.value.stores[k].cat, r.value.stores[k].slot)
  {
    if Signature(cs).Err? then Err(IllegalArgument) else Body(cs, StreamReaderFor)
  }

  /** `emitReadFunction`: the descriptor, then the store pass and the load
      pass over the components. */
  method EmitReadFunction(cs: seq<Component>) returns (r: Result<Fill>)
    ensures r == ReadFunction(cs)
  {
    var signature := BuildSignature(cs);
    if signature.Err? {
      return Err(signature.error);
    }
    r := EmitBody(cs, StreamReaderFor);
  }


  /** When generation fails and why: a `boolean` makes the descriptor throw
      `IllegalArgumentException` first; otherwise the first unsupported
      component decides, `UnsupportedOperationException` for a nested record,
      enum, `String` or array, `IllegalStateException` for an
      `@UnsignedInteger int`. A body is emitted exactly when every component
      has a read. */
  lemma ReadFunctionErrors(cs: seq<Component>)
    ensures ReadFunction(cs).Ok? <==> forall k :: 0 <= k < |cs| ==> StreamReaderFor(cs[k]).Ok?
    ensures (exists k :: 0 <= k < |cs| && cs[k].ty == Prim(Boolean)) ==> ReadFunction(cs) == Err(IllegalArgument)
  {
  }

  /** Past the descriptor, the first component without a read decides
      the exception. */
  lemma ReadFunctionFirstError(cs: seq<Component>, k: nat)
    requires Signature(cs).Ok? && k < |cs| && StreamReaderFor(cs[k]).Err?
    requires forall j :: 0 <= j < k ==> StreamReaderFor(cs[j]).Ok?
    ensures ReadFunction(cs) == Err(StreamReaderFor(cs[k]).error)
  {
    PlanFirstError(cs, StreamReaderFor, k);
  }

  /** A `decode` body reads exactly `getRecordSize` bytes, with reads whose
      values match the families they are stored with. */
  lemma ReadFunctionShape(cs: seq<Component>)
    requires ReadFunction(cs).Ok?
    ensures Plan(cs, StreamReaderFor).Ok?
    ensures ReadFunction(cs).value == FillFor(TypesOf(cs), Plan(cs, StreamReaderFor).value)
    ensures Agree(TypesOf(cs), Plan(cs, StreamReaderFor).value)
    ensures SumFieldSizes(cs) == Ok(TotalWidth(Plan(cs, StreamReaderFor).value))
  {
    PlanWidth(cs, StreamReaderFor);
  }

  /** Running a `decode` body on enough bytes hands the constructor the
      components read in declaration order. */
  lemma ReadFunctionRuns(cs: seq<Component>, bs: seq<uint8>)
    requires ReadFunction(cs).Ok?
    requires TotalWidth(Readers(ReadFunction(cs).value.stores)) <= |bs|
    ensures Run(ReadFunction(cs).value, bs) == Ok(DecodeAll(Plan(cs, StreamReaderFor).value, bs).values)
  {
    ReadFunctionShape(cs);
    RunFillFor(TypesOf(cs), Plan(cs, StreamReaderFor).value, bs);
  }

  /** Two dispatches that agree on every component plan the same reads. */
  lemma {:induction false} PlanAgrees(cs: seq<Component>, f: Component -> Result<Reader>, g: Component -> Result<Reader>)
    requires forall k :: 0 <= k < |cs| ==> f(cs[k]) == g(cs[k])
    ensures Plan(cs, f) == Plan(cs, g)
    decreases |cs|
  {
    if cs != [] {
      assert f(cs[0]) == g(cs[0]);
      PlanAgrees(cs[1..], f, g);
    }
  }

  /** The stream body and the buffer body exist for the same records, and
      for a record without a `short` component they are the same body. */
  lemma ReadFunctionMatchesBuffer(cs: seq<Component>)
    ensures ReadFunction(cs).Ok? <==> ConstructorFill(cs).Ok?
    ensures (forall k :: 0 <= k < |cs| ==> cs[k].ty != Prim(Short)) && ReadFunction(cs).Ok? ==>
      ReadFunction(cs) == ConstructorFill(cs)
  {
    forall k | 0 <= k < |cs|
      ensures StreamReaderFor(cs[k]).Ok? <==> BufferReaderFor(cs[k]).Ok?
    {
      StreamMatchesBuffer(cs[k]);
    }
    ReadFunctionErrors(cs);
    ConstructorFillErrors(cs);
    if (forall k :: 0 <= k < |cs| ==> cs[k].ty != Prim(Short)) && ReadFunction(cs).Ok? {
      forall k | 0 <= k < |cs|
        ensures StreamReaderFor(cs[k]) == BufferReaderFor(cs[k])
      {
        StreamMatchesBuffer(cs[k]);
      }
      PlanAgrees(cs, StreamReaderFor, BufferReaderFor);
    }
  }

  /** The generated `decode(ByteArrayInputStream)` run on a stream holding
      at least the record's bytes: the components read in order are what
      the constructor receives, and the stream is left just past them. */
  method Decode(cs: seq<Component>, f: Fill, input: ByteArrayInputStream) returns (r: Result<seq<Value>>)
    requires ReadFunction(cs) == Ok(f) && input.Valid()
    requires TotalWidth(Readers(f.stores)) <= input.Available()
    modifies input
    ensures input.Valid()
    ensures r == Ok(DecodeAll(Readers(f.stores), old(input.Pending())).values)
    ensures input.Pending() == old(input.Pending())[TotalWidth(Readers(f.stores))..]
  {
    ghost var bs := input.Pending();
    var vs := ReadStreamComponents(Readers(f.stores), input);
    ReadFunctionRuns(cs, bs);
    r := Frame(f, vs);
  }

  // ---------------------------------------------------------------------
  // The decoder's test records
  // ---------------------------------------------------------------------

  /** What the `decode` body of a record yields on bytes `bs`. */
  function StreamDecode(cs: seq<Component>, bs: seq<uint8>): (r: Result<seq<Value>>)
    requires ReadFunction(cs).Ok? && TotalWidth(Readers(ReadFunction(cs).value.stores)) <= |bs|
    ensures r == Ok(DecodeAll(Readers(ReadFunction(cs).value.stores), bs).values)
    ensures r.Ok? && |r.value| == |cs|
  {
    ReadFunctionShape(cs);
    ReadFunctionRuns(cs, bs);
    Run(ReadFunction(cs).value, bs)
  }

  /** A record of one supported component decodes to that component's read
      of its bytes. */
  lemma SingleComponent(c: Component, bs: seq<uint8>)
    requires StreamReaderFor(c).Ok? && |bs| == Width(StreamReaderFor(c).value)
    ensures ReadFunction([c]).Ok?
    ensures TotalWidth(Readers(ReadFunction([c]).value.stores)) == |bs|
    ensures StreamDecode([c], bs) == Ok([Read(StreamReaderFor(c).value, bs)])
  {
    var r := StreamReaderFor(c).value;
    ReadFunctionErrors([c]);
    ReadFunctionShape([c]);
    assert Plan([c], StreamReaderFor).value == [r];
    assert TotalWidth([r]) == Width(r) by {
      assert [r][1..] == [];
    }
    ReadFunctionRuns([c], bs);
    DecodeOne(r, bs);
  }

  const ByteRecord := [Component(Prim(Byte), NoAnnotations)]
  const ShortRecord := [Component(Prim(Short), NoAnnotations)]
  const IntRecord := [Component(Prim(Int), NoAnnotations)]
  const LongRecord := [Component(Prim(Long), NoAnnotations)]
  const FloatRecord := [Component(Prim(Float), NoAnnotations)]
  const DoubleRecord := [Component(Prim(Double), NoAnnotations)]
  const CharRecord := [Component(Prim(Char), NoAnnotations)]
  const UnsignedByteRecord := [Component(Prim(Int), Annotations(true, false, false))]
  const UnsignedShortRecord := [Component(Prim(Int), Annotations(false, true, false))]
  const UnsignedIntRecord := [Component(Prim(Long), Annotations(false, false, true))]

  /** `ByteRecord`: 0x7F is 127. */
  lemma DecodeByteRecord()
    ensures ReadFunction(ByteRecord).Ok?
    ensures StreamDecode(ByteRecord, [0x7F]) == Ok([Value(JByte, 127)])
  {
    assert StreamReaderFor(ByteRecord[0]) == Ok(ByteBE);
    SingleComponent(ByteRecord[0], [0x7F]);
    OneByteReads([0x7F]);
  }

  /** `ShortRecord`: 00 2A is 42. */
  lemma DecodeShortRecord()
    ensures ReadFunction(ShortRecord).Ok?
    ensures StreamDecode(ShortRecord, [0x00, 0x2A]) == Ok([Value(JShort, 42)])
  {
    assert StreamReaderFor(ShortRecord[0]) == Ok(ShortRaw);
    SingleComponent(ShortRecord[0], [0x00, 0x2A]);
    TwoByteReads([0x00, 0x2A]);
  }

  /** `IntRecord`: 00 00 00 2A is 42. */
  lemma DecodeIntRecord()
    ensures ReadFunction(IntRecord).Ok?
    ensures StreamDecode(IntRecord, [0x00, 0x00, 0x00, 0x2A]) == Ok([Value(JInt, 42)])
  {
    assert StreamReaderFor(IntRecord[0]) == Ok(IntBE);
    SingleComponent(IntRecord[0], [0x00, 0x00, 0x00, 0x2A]);
    FourByteReads([0x00, 0x00, 0x00, 0x2A]);
  }

  /** `LongRecord`: seven zero bytes then 2A is 42. */
  lemma DecodeLongRecord()
    ensures ReadFunction(LongRecord).Ok?
    ensures StreamDecode(LongRecord, [0, 0, 0, 0, 0, 0, 0, 0x2A]) == Ok([Value(JLong, 42)])
  {
    assert StreamReaderFor(LongRecord[0]) == Ok(LongBE);
    var bs: seq<uint8> := [0, 0, 0, 0, 0, 0, 0, 0x2A];
    SingleComponent(LongRecord[0], bs);
    LongFortyTwo(bs);
  }

  /** `FloatRecord`: 42 28 00 00 is the bit pattern of 42.0f. */
  lemma DecodeFloatRecord()
    ensures ReadFunction(FloatRecord).Ok?
    ensures StreamDecode(FloatRecord, [0x42, 0x28, 0x00, 0x00]) == Ok([Value(JFloat, 0x4228_0000)])
  {
    assert StreamReaderFor(FloatRecord[0]) == Ok(FloatBE);
    SingleComponent(FloatRecord[0], [0x42, 0x28, 0x00, 0x00]);
    FourByteReads([0x42, 0x28, 0x00, 0x00]);
  }

  /** `DoubleRecord`: 40 45 00 00 00 00 00 00 is the bit pattern of 42.0. */
  lemma DecodeDoubleRecord()
    ensures ReadFunction(DoubleRecord).Ok?
    ensures StreamDecode(DoubleRecord, [0x40, 0x45, 0, 0, 0, 0, 0, 0]) == Ok([Value(JDouble, 0x4045_0000_0000_0000)])
  {
    assert StreamReaderFor(DoubleRecord[0]) == Ok(DoubleBE);
    var bs: seq<uint8> := [0x40, 0x45, 0, 0, 0, 0, 0, 0];
    SingleComponent(DoubleRecord[0], bs);
    DoubleFortyTwo(bs);
  }

  lemma DoubleFortyTwo(bs: seq<uint8>)
    requires bs == [0x40, 0x45, 0, 0, 0, 0, 0, 0]
    ensures Read(DoubleBE, bs) == Value(JDouble, 0x4045_0000_0000_0000)
  {
    assert bs[..4] == [0x40, 0x45, 0, 0] && bs[4..] == [0, 0, 0, 0];
    UnsignedOfBytes(bs);
    UnsignedOfBytes(bs[..4]);
    UnsignedOfBytes(bs[4..]);
  }

  /** `CharRecord`: 00 41 is 'A'. */
  lemma DecodeCharRecord()
    ensures ReadFunction(CharRecord).Ok?
    ensures StreamDecode(CharRecord, [0x00, 0x41]) == Ok([Value(JChar, 'A' as int)])
  {
    assert StreamReaderFor(CharRecord[0]) == Ok(CharBE);
    SingleComponent(CharRecord[0], [0x00, 0x41]);
    TwoByteReads([0x00, 0x41]);
  }

  /** `@UnsignedByte int`: FF is 255. */
  lemma DecodeUnsignedByteRecord()
    ensures ReadFunction(UnsignedByteRecord).Ok?
    ensures StreamDecode(UnsignedByteRecord, [0xFF]) == Ok([Value(JInt, 255)])
  {
    assert StreamReaderFor(UnsignedByteRecord[0]) == Ok(UByteToInt);
    SingleComponent(UnsignedByteRecord[0], [0xFF]);
    OneByteReads([0xFF]);
  }

  /** `@UnsignedShort int`: FF FF is 65535. */
  lemma DecodeUnsignedShortRecord()
    ensures ReadFunction(UnsignedShortRecord).Ok?
    ensures StreamDecode(UnsignedShortRecord, [0xFF, 0xFF]) == Ok([Value(JInt, 65535)])
  {
    assert StreamReaderFor(UnsignedShortRecord[0]) == Ok(UShortToInt);
    SingleComponent(UnsignedShortRecord[0], [0xFF, 0xFF]);
    TwoByteReads([0xFF, 0xFF]);
  }

  /** `@UnsignedInteger long`: FF FF FF FF is 4294967295. */
  lemma DecodeUnsignedIntRecord()
    ensures ReadFunction(UnsignedIntRecord).Ok?
    ensures StreamDecode(UnsignedIntRecord, [0xFF, 0xFF, 0xFF, 0xFF]) == Ok([Value(JLong, 0xFFFF_FFFF)])
  {
    assert StreamReaderFor(UnsignedIntRecord[0]) == Ok(UIntToLong);
    SingleComponent(UnsignedIntRecord[0], [0xFF, 0xFF, 0xFF, 0xFF]);
    FourByteReads([0xFF, 0xFF, 0xFF, 0xFF]);
  }
}
