/** The `ByteBuffer` decoder generator: the constructor descriptor
    (`buildSignature`), the read chosen per component (`writeParserMethod`),
    the body that reads every component into a local and calls the record
    constructor (`populateConstructorFill`), the remaining-bytes guard
    (`populateSafetyException`), the hidden class holding the unsafe and the
    safe load method (`emitClassBytes`), and what those methods do when run
    on a buffer. */
module RecordDecoderBuilder {
  import opened Types
  import opened Sequences
  import opened Wire
  import opened ClassUtils
  import opened DecoderUtils
  import opened LocalFrame
  import opened JavaIO

  // ---------------------------------------------------------------------
  // Constructor descriptor (buildSignature)
  // ---------------------------------------------------------------------

  /** The component descriptors concatenated in declaration order, or the
      `IllegalArgumentException` `getDescriptor` raises for a `boolean`. */
  function Descriptors(cs: seq<Component>): (r: Result<string>)
    ensures r.Ok? <==> forall k :: 0 <= k < |cs| ==> cs[k].ty != Prim(Boolean)
    ensures r.Err? ==> r.error == IllegalArgument
    decreases |cs|
  {
    if cs == [] then Ok("")
    else
      var n := |cs| - 1;
      var front := Descriptors(cs[..n]);
      var last := Descriptor(cs[n].ty);
      if front.Err? then front
      else if last.Err? then Err(last.error)
      else Ok(front.value + last.value)
  }

  /** The descriptor of the record's canonical constructor: the component
      descriptors between parentheses, returning `void`. */
  function Signature(cs: seq<Component>): (r: Result<string>)
    ensures r.Ok? <==> forall k :: 0 <= k < |cs| ==> cs[k].ty != Prim(Boolean)
    ensures r.Err? ==> r.error == IllegalArgument
    ensures r.Ok? ==> |r.value| >= 3 && r.value[0] == '(' && r.value[|r.value| - 2..] == ")V"
  {
    var ds := Descriptors(cs);
    if ds.Err? then Err(ds.error) else Ok("(" + ds.value + ")V")
  }

  /** `buildSignature`: a builder started with "(", each component's
      descriptor appended in order, then ")V". */
  method BuildSignature(cs: seq<Component>) returns (r: Result<string>)
    ensures r == Signature(cs)
  {
    var builder := "(";
    var k := 0;
    while k < |cs|
      invariant 0 <= k <= |cs|
      invariant Descriptors(cs[..k]).Ok? && builder == "(" + Descriptors(cs[..k]).value
    {
      var d := Descriptor(cs[k].ty);
      if d.Err? {
        return Err(d.error);
      }
      DescriptorsSnoc(cs, k);
      builder := builder + d.value;
      k := k + 1;
    }
    assert cs[..k] == cs;
    r := Ok(builder + ")V");
  }

  lemma DescriptorsSnoc(cs: seq<Component>, k: nat)
    requires k < |cs| && Descriptors(cs[..k]).Ok? && Descriptor(cs[k].ty).Ok?
    ensures Descriptors(cs[..k + 1]) == Ok(Descriptors(cs[..k]).value + Descriptor(cs[k].ty).value)
  {
    PrefixOfPrefix(cs, k, k + 1);
  }

  /** True when every component is a primitive other than `boolean`. */
  predicate AllSupportedPrimitives(cs: seq<Component>) {
    forall k :: 0 <= k < |cs| ==> cs[k].ty.Prim? && cs[k].ty.prim != Boolean
  }

  /** Over primitives the descriptors are one letter per component. */
  lemma {:induction false} PrimitiveDescriptors(cs: seq<Component>)
    requires AllSupportedPrimitives(cs)
    ensures Descriptors(cs).Ok? && |Descriptors(cs).value| == |cs|
    ensures forall k :: 0 <= k < |cs| ==> Descriptors(cs).value[k] == PrimLetter(cs[k].ty.prim)
    decreases |cs|
  {
    if cs != [] {
      var n := |cs| - 1;
      assert AllSupportedPrimitives(cs[..n]);
      PrimitiveDescriptors(cs[..n]);
    }
  }

  /** For a record of primitives, the signature is "(", one base-type
      letter per component in declaration order, then ")V". */
  lemma PrimitiveSignature(cs: seq<Component>)
    requires AllSupportedPrimitives(cs)
    ensures Signature(cs).Ok? && |Signature(cs).value| == |cs| + 3
    ensures forall k :: 0 <= k < |cs| ==> Signature(cs).value[k + 1] == PrimLetter(cs[k].ty.prim)
  {
    PrimitiveDescriptors(cs);
  }

  /** The signature of a primitive record determines its component types:
      two such records with one constructor descriptor have the same types
      in the same order. */
  lemma SignatureDeterminesTypes(cs: seq<Component>, ds: seq<Component>)
    requires AllSupportedPrimitives(cs) && AllSupportedPrimitives(ds)
    requires Signature(cs) == Signature(ds)
    ensures TypesOf(cs) == TypesOf(ds)
  {
    PrimitiveSignature(cs);
    PrimitiveSignature(ds);
    forall k | 0 <= k < |cs|
      ensures cs[k].ty == ds[k].ty
    {
      assert Signature(cs).value[k + 1] == Signature(ds).value[k + 1];
      if cs[k].ty.prim != ds[k].ty.prim {
        DescriptorInjective(cs[k].ty.prim, ds[k].ty.prim);
      }
    }
  }

  // ---------------------------------------------------------------------
  // Per-component read (writeParserMethod)
  // ---------------------------------------------------------------------

  /** The read `writeParserMethod` emits for a component, by its type name:
      `long` takes the first of the byte, short and integer annotations,
      `int` the byte or short one and rejects the integer one, the other
      primitives use the matching big-endian `ByteBuffer` getter, and
      every other type (`boolean`, enums, `String`, arrays, classes) is
      rejected. */
  function BufferReaderFor(c: Component): (r: Result<Reader>)
    ensures r.Err? <==> (!c.ty.Prim? || c.ty.prim == Boolean ||
      (c.ty.prim == Int && !c.ann.unsignedByte && !c.ann.unsignedShort && c.ann.unsignedInteger))
    ensures r.Err? ==> r.error == IllegalState
    ensures r.Ok? ==> FieldSize(c) == Ok(Width(r.value))
    ensures r.Ok? ==> KindCategory(KindOf(r.value)) == StoreCategory(c.ty)
  {
    if !c.ty.Prim? then Err(IllegalState)
    else match c.ty.prim
      case Long =>
        if c.ann.unsignedByte then Ok(UByteToLong)
        else if c.ann.unsignedShort then Ok(UShortToLong)
        else if c.ann.unsignedInteger then Ok(UIntToLong)
        else Ok(LongBE)
      case Int =>
        if c.ann.unsignedByte then Ok(UByteToInt)
        else if c.ann.unsignedShort then Ok(UShortToInt)
        else if c.ann.unsignedInteger then Err(IllegalState)
        else Ok(IntBE)
      case Short => Ok(ShortBE)
      case Byte => Ok(ByteBE)
      case Double => Ok(DoubleBE)
      case Float => Ok(FloatBE)
      case Char => Ok(CharBE)
      case Boolean => Err(IllegalState)
  }

  // ---------------------------------------------------------------------
  // Constructor fill (populateConstructorFill)
  // ---------------------------------------------------------------------

  /** The load body `populateConstructorFill` should emit: the signature's
      exception first, then the first rejected component's, and otherwise
      every component read and stored at slots counted by `slotsFor` with
      the family `storeType` picks, loaded back with `loadType`. */
  function ConstructorFill(cs: seq<Component>): (r: Result<Fill>)
    ensures r.Ok? ==> |r.value.stores| == |r.value.loads| == |cs|
    ensures r.Ok? ==> forall k :: 0 <= k < |cs| ==> BufferReaderFor(cs[k]) == Ok(r.value.stores[k].reader)
    ensures r.Ok? ==> forall k :: 0 <= k < |cs| ==> r.value.loads[k] == Load(r.value.stores[k].cat, r.value.stores[k].slot)
  {
    if Signature(cs).Err? then Err(IllegalArgument) else Body(cs, BufferReaderFor)
  }

  /** `populateConstructorFill`, with each value stored and loaded by the
      instruction family and slot count of its type. */
  method PopulateConstructorFill(cs: seq<Component>) returns (r: Result<Fill>)
    ensures r == ConstructorFill(cs)
  {
    var signature := BuildSignature(cs);
    if signature.Err? {
      return Err(signature.error);
    }
    r := EmitBody(cs, BufferReaderFor);
  }

  /** When generation fails and why: a `boolean` makes the signature throw
      `IllegalArgumentException` before any read is chosen; otherwise an
      unsupported component makes it throw `IllegalStateException`. A body
      is emitted exactly when every component has a read. */
  lemma ConstructorFillErrors(cs: seq<Component>)
    ensures ConstructorFill(cs).Ok? <==> forall k :: 0 <= k < |cs| ==> BufferReaderFor(cs[k]).Ok?
    ensures (exists k :: 0 <= k < |cs| && cs[k].ty == Prim(Boolean)) ==> ConstructorFill(cs) == Err(IllegalArgument)
    ensures ConstructorFill(cs).Err? && Signature(cs).Ok? ==> ConstructorFill(cs) == Err(IllegalState)
  {
    if Signature(cs).Ok? && Plan(cs, BufferReaderFor).Err? {
      var k :| 0 <= k < |cs| && BufferReaderFor(cs[k]).Err?;
      var j := FirstFailure(cs, BufferReaderFor, k);
      PlanFirstError(cs, BufferReaderFor, j);
    }
  }


  /** A generated body reads exactly `getRecordSize` bytes, with reads
      whose values match the families they are stored with. */
  lemma ConstructorFillShape(cs: seq<Component>)
    requires ConstructorFill(cs).Ok?
    ensures Plan(cs, BufferReaderFor).Ok?
    ensures ConstructorFill(cs).value == FillFor(TypesOf(cs), Plan(cs, BufferReaderFor).value)
    ensures Agree(TypesOf(cs), Plan(cs, BufferReaderFor).value)
    ensures SumFieldSizes(cs) == Ok(TotalWidth(Plan(cs, BufferReaderFor).value))
  {
    PlanWidth(cs, BufferReaderFor);
  }

  /** Running the generated body on enough bytes hands the constructor the
      components read in declaration order. */
  lemma ConstructorFillRuns(cs: seq<Component>, bs: seq<uint8>)
    requires ConstructorFill(cs).Ok?
    requires TotalWidth(Readers(ConstructorFill(cs).value.stores)) <= |bs|
    ensures Run(ConstructorFill(cs).value, bs) == Ok(DecodeAll(Plan(cs, BufferReaderFor).value, bs).values)
  {
    ConstructorFillShape(cs);
    RunFillFor(TypesOf(cs), Plan(cs, BufferReaderFor).value, bs);
  }

  /** `populateConstructorFill` as written: every value goes through
      `istore` into slot 1, 2, 3, ... and comes back through `iload`,
      whatever its type. */
  function ConstructorFillAsWritten(cs: seq<Component>): (r: Result<Fill>)
    ensures r.Ok? <==> ConstructorFill(cs).Ok?
    ensures r.Err? ==> r == ConstructorFill(cs)
    ensures r.Ok? ==> Readers(r.value.stores) == Readers(ConstructorFill(cs).value.stores)
    ensures r.Ok? ==> forall k :: 0 <= k < |cs| ==> r.value.stores[k].cat == IntCat && r.value.stores[k].slot == k + 1
  {
    if Signature(cs).Err? then Err(IllegalArgument)
    else
      var p := Plan(cs, BufferReaderFor);
      if p.Err? then Err(p.error) else Ok(IntSlots(p.value))
  }

  /** One `istore` per read into consecutive slots from 1, and one `iload`
      per slot. */
  function IntSlots(rs: seq<Reader>): (f: Fill)
    ensures |f.stores| == |f.loads| == |rs| && Readers(f.stores) == rs
  {
    Fill(seq(|rs|, k requires 0 <= k < |rs| => Store(rs[k], IntCat, k + 1)),
         seq(|rs|, k requires 0 <= k < |rs| => Load(IntCat, k + 1)))
  }

  /** As written, a record with a `long`, `double` or `float` component
      gets a body the class verifier rejects, whatever the buffer holds. */
  lemma AsWrittenRejectsWide(cs: seq<Component>, k: nat, bs: seq<uint8>)
    requires ConstructorFillAsWritten(cs).Ok? && k < |cs|
    requires cs[k].ty in {Prim(Long), Prim(Double), Prim(Float)}
    requires TotalWidth(Plan(cs, BufferReaderFor).value) <= |bs|
    ensures Run(ConstructorFillAsWritten(cs).value, bs) == Err(VerifyError)
  {
    var rs := Plan(cs, BufferReaderFor).value;
    var f := ConstructorFillAsWritten(cs).value;
    var vs := DecodeAll(rs, bs).values;
    AllFitAt(rs, vs, k);
    StoreAllRejects(f.stores, vs, k);
  }

  /** As written, the body is the intended one for records whose components
      are all `int`-family values. */
  lemma AsWrittenAgreesOnIntFamily(cs: seq<Component>)
    requires forall k :: 0 <= k < |cs| ==> StoreCategory(cs[k].ty) == IntCat
    ensures ConstructorFillAsWritten(cs) == ConstructorFill(cs)
  {
    var p := Plan(cs, BufferReaderFor);
    if Signature(cs).Ok? && p.Ok? {
      var types := TypesOf(cs);
      var f := FillFor(types, p.value);
      var g := IntSlots(p.value);
      assert forall j :: 0 <= j < |types| ==> StoreCategory(types[j]) == IntCat;
      forall k | 0 <= k < |cs|
        ensures f.stores[k] == g.stores[k] && f.loads[k] == g.loads[k]
      {
        FillForStore(types, p.value, k);
        OneSlotEach(types, k);
      }
      assert f.stores == g.stores && f.loads == g.loads;
      assert ConstructorFill(cs) == Ok(f);
    }
  }

  /** Types of one slot each take as many slots as there are of them. */
  lemma {:induction false} OneSlotEach(ts: seq<JType>, k: nat)
    requires k <= |ts|
    requires forall j :: 0 <= j < |ts| ==> StoreCategory(ts[j]) == IntCat
    ensures TotalSlots(ts[..k]) == k
  {
    if k > 0 {
      OneSlotEach(ts, k - 1);
      TotalSlotsSnoc(ts, k - 1);
      SlotsMatchCategory(ts[k - 1]);
    }
  }

  /** A record of one `long`: the body as written is rejected, the intended
      body yields the value the eight bytes spell. */
  lemma LongRecordFill()
    ensures var cs := [Component(Prim(Long), NoAnnotations)];
      var bs: seq<uint8> := [0, 0, 0, 0, 0, 0, 0, 42];
      && ConstructorFillAsWritten(cs).Ok?
      && Run(ConstructorFillAsWritten(cs).value, bs) == Err(VerifyError)
      && ConstructorFill(cs).Ok?
      && Run(ConstructorFill(cs).value, bs) == Ok([Value(JLong, 42)])
  {
    var cs := [Component(Prim(Long), NoAnnotations)];
    var bs: seq<uint8> := [0, 0, 0, 0, 0, 0, 0, 42];
    assert Plan(cs, BufferReaderFor).value == [LongBE];
    AsWrittenRejectsWide(cs, 0, bs);
    ConstructorFillRuns(cs, bs);
    DecodeOne(LongBE, bs);
    LongFortyTwo(bs);
  }

  lemma LongFortyTwo(bs: seq<uint8>)
    requires bs == [0, 0, 0, 0, 0, 0, 0, 42]
    ensures Read(LongBE, bs) == Value(JLong, 42)
  {
    assert bs[..4] == [0, 0, 0, 0] && bs[4..] == [0, 0, 0, 42];
    UnsignedOfBytes(bs);
    UnsignedOfBytes(bs[..4]);
    UnsignedOfBytes(bs[4..]);
    PowValues();
  }

  /** `UnsignedTest(@UnsignedByte int, @UnsignedShort int, @UnsignedInteger
      long)` over seven 0xFF bytes: the intended body reads all seven and
      yields 255, 65535 and 4294967295; as written the `long` component
      makes it rejected. */
  lemma UnsignedRecordFill(cs: seq<Component>, bs: seq<uint8>)
    requires cs == [Component(Prim(Int), Annotations(true, false, false)),
                    Component(Prim(Int), Annotations(false, true, false)),
                    Component(Prim(Long), Annotations(false, false, true))]
    requires bs == [0xFF, 0xFF, 0xFF, 0xFF, 0xFF, 0xFF, 0xFF]
    ensures ConstructorFill(cs).Ok? && ConstructorFillAsWritten(cs).Ok?
    ensures TotalWidth(Readers(ConstructorFill(cs).value.stores)) == 7
    ensures TotalWidth(Readers(ConstructorFillAsWritten(cs).value.stores)) == 7
    ensures Run(ConstructorFill(cs).value, bs) == Ok([Value(JInt, 0xFF), Value(JInt, 0xFFFF), Value(JLong, 0xFFFF_FFFF)])
    ensures Run(ConstructorFillAsWritten(cs).value, bs) == Err(VerifyError)
  {
    var rs := [UByteToInt, UShortToInt, UIntToLong];
    assert Plan(cs, BufferReaderFor).value == rs;
    UnsignedPlanWidth(rs);
    ConstructorFillShape(cs);
    ConstructorFillRuns(cs, bs);
    AllOnesDecode(rs, bs);
    AsWrittenRejectsWide(cs, 2, bs);
  }

  lemma UnsignedPlanWidth(rs: seq<Reader>)
    requires rs == [UByteToInt, UShortToInt, UIntToLong]
    ensures TotalWidth(rs) == 7 && TotalWidth(rs[1..]) == 6 && TotalWidth(rs[1..][1..]) == 4
  {
    var t1 := rs[1..];
    var t2 := t1[1..];
    assert t1 == [UShortToInt, UIntToLong] && t2 == [UIntToLong] && t2[1..] == [];
    assert TotalWidth(t2) == 4 + TotalWidth(t2[1..]);
  }

  lemma AllOnesDecode(rs: seq<Reader>, bs: seq<uint8>)
    requires rs == [UByteToInt, UShortToInt, UIntToLong]
    requires bs == [0xFF, 0xFF, 0xFF, 0xFF, 0xFF, 0xFF, 0xFF]
    ensures TotalWidth(rs) <= |bs|
    ensures DecodeAll(rs, bs).values == [Value(JInt, 0xFF), Value(JInt, 0xFFFF), Value(JLong, 0xFFFF_FFFF)]
  {
    UnsignedPlanWidth(rs);
    var tail, rest := rs[1..], bs[1..];
    assert tail == [UShortToInt, UIntToLong] && tail[1..] == [UIntToLong];
    DecodeAllCons(rs, bs);
    DecodeAllCons(tail, rest);
    DecodeOne(UIntToLong, rest[2..]);
    assert bs[..1] == [0xFF] && rest[..2] == [0xFF, 0xFF] && rest[2..] == [0xFF, 0xFF, 0xFF, 0xFF];
    AllOnes();
  }

  /** All-ones bytes read by a zero-extending read are the largest value
      its width holds. */
  lemma AllOnes()
    ensures Read(UByteToInt, [0xFF]) == Value(JInt, 0xFF)
    ensures Read(UShortToInt, [0xFF, 0xFF]) == Value(JInt, 0xFFFF)
    ensures Read(UIntToLong, [0xFF, 0xFF, 0xFF, 0xFF]) == Value(JLong, 0xFFFF_FFFF)
  {
    UnsignedOfBytes([0xFF]);
    UnsignedOfBytes([0xFF, 0xFF]);
    UnsignedOfBytes([0xFF, 0xFF, 0xFF, 0xFF]);
  }

  // ---------------------------------------------------------------------
  // Remaining-bytes guard (populateSafetyException) and the hidden class
  // ---------------------------------------------------------------------

  /** The guard `populateSafetyException` emits: continue when `remaining()`
      is at least `size`, otherwise throw `IllegalArgumentException`. */
  datatype Guard = RemainingAtLeast(size: int)

  /** `populateSafetyException`: the guard for the record's size, or the
      exception `getRecordSize` raises. */
  method PopulateSafetyException(cache: SizeCache, reg: Registry, name: string) returns (r: Result<Guard>)
    requires name in reg && cache.Valid(reg)
    modifies cache
    ensures cache.Valid(reg)
    ensures r.Ok? <==> SumFieldSizes(reg[name]).Ok?
    ensures r.Ok? ==> r.value == RemainingAtLeast(SumFieldSizes(reg[name]).value)
    ensures r.Ok? ==> cache.entries == old(cache.entries)[name := r.value.size]
    ensures r.Err? ==> r.error == SumFieldSizes(reg[name]).error && cache.entries == old(cache.entries)
  {
    var size := cache.GetRecordSize(reg, name);
    if size.Err? {
      return Err(size.error);
    }
    r := Ok(RemainingAtLeast(size.value));
  }

  /** The hidden `<Record>_Decoder` class: the body of
      `loadFromBuffer_Unsafe`, and the guard and body of
      `loadFromBuffer_Safe`. */
  datatype DecoderClass = DecoderClass(unsafeFill: Fill, guard: Guard, safeFill: Fill)

  /** The class `emitClassBytes` is meant to produce for a registered
      record, with the intended body `ConstructorFill` in both methods.
      `ClassBytesAsWritten` is the class it produces with the body of
      `populateConstructorFill` as written. */
  function ClassBytes(reg: Registry, name: string): (r: Result<DecoderClass>)
    requires name in reg
    ensures r.Ok? ==> r.value.unsafeFill == r.value.safeFill
    ensures r.Ok? ==> SumFieldSizes(reg[name]) == Ok(r.value.guard.size)
  {
    var fill := ConstructorFill(reg[name]);
    var size := SumFieldSizes(reg[name]);
    if fill.Err? then Err(fill.error)
    else if size.Err? then Err(size.error)
    else Ok(DecoderClass(fill.value, RemainingAtLeast(size.value), fill.value))
  }

  /** `emitClassBytes` with the intended `populateConstructorFill`: the
      unsafe method's body, then the safe method's guard and the same body
      again. */
  method EmitClassBytes(cache: SizeCache, reg: Registry, name: string) returns (r: Result<DecoderClass>)
    requires name in reg && cache.Valid(reg)
    modifies cache
    ensures cache.Valid(reg)
    ensures r == ClassBytes(reg, name)
    ensures r.Ok? ==> cache.entries == old(cache.entries)[name := r.value.guard.size]
    ensures r.Err? ==> cache.entries == old(cache.entries)
  {
    var unsafeFill := PopulateConstructorFill(reg[name]);
    if unsafeFill.Err? {
      return Err(unsafeFill.error);
    }
    var guard := PopulateSafetyException(cache, reg, name);
    if guard.Err? {
      // A body exists only when every component has a width, so the size
      // cannot fail once the unsafe body has been emitted.
      assert false;
    }
    var safeFill := PopulateConstructorFill(reg[name]);
    r := Ok(DecoderClass(unsafeFill.value, guard.value, safeFill.value));
  }

  /** The class is emitted exactly when the body is; its guard then asks
      for exactly the bytes the body reads. */
  lemma ClassBytesGuard(reg: Registry, name: string)
    requires name in reg
    ensures ClassBytes(reg, name).Ok? <==> ConstructorFill(reg[name]).Ok?
    ensures ClassBytes(reg, name).Ok? ==>
      ClassBytes(reg, name).value.guard.size == TotalWidth(Readers(ClassBytes(reg, name).value.safeFill.stores))
  {
    if ConstructorFill(reg[name]).Ok? {
      ConstructorFillShape(reg[name]);
    }
  }

  /** The class `emitClassBytes` produces as written: both methods get the
      `istore`/`iload` body of `ConstructorFillAsWritten`, behind the same
      guard. */
  function ClassBytesAsWritten(reg: Registry, name: string): (r: Result<DecoderClass>)
    requires name in reg
    ensures r.Ok? <==> ClassBytes(reg, name).Ok?
    ensures r.Ok? ==> r.value.guard == ClassBytes(reg, name).value.guard
    ensures r.Ok? ==> r.value.unsafeFill == r.value.safeFill == ConstructorFillAsWritten(reg[name]).value
  {
    var fill := ConstructorFillAsWritten(reg[name]);
    var size := SumFieldSizes(reg[name]);
    if fill.Err? then Err(fill.error)
    else if size.Err? then Err(size.error)
    else Ok(DecoderClass(fill.value, RemainingAtLeast(size.value), fill.value))
  }

  /** As written, the class of a record with a `long`, `double` or `float`
      component is rejected by the class verifier when it is defined,
      whatever bytes its methods would be given, so neither loader ever
      returns a record. */
  lemma ClassBytesAsWrittenRejected(reg: Registry, name: string, k: nat, bs: seq<uint8>)
    requires name in reg && ClassBytesAsWritten(reg, name).Ok? && k < |reg[name]|
    requires reg[name][k].ty in {Prim(Long), Prim(Double), Prim(Float)}
    requires TotalWidth(Readers(ClassBytesAsWritten(reg, name).value.unsafeFill.stores)) <= |bs|
    ensures Run(ClassBytesAsWritten(reg, name).value.unsafeFill, bs) == Err(VerifyError)
    ensures Run(ClassBytesAsWritten(reg, name).value.safeFill, bs) == Err(VerifyError)
  {
    ConstructorFillShape(reg[name]);
    AsWrittenRejectsWide(reg[name], k, bs);
  }

  /** As written, a record of `int`-family components gets the intended
      class. */
  lemma ClassBytesAsWrittenOnIntFamily(reg: Registry, name: string)
    requires name in reg
    requires forall k :: 0 <= k < |reg[name]| ==> StoreCategory(reg[name][k].ty) == IntCat
    ensures ClassBytesAsWritten(reg, name) == ClassBytes(reg, name)
  {
    AsWrittenAgreesOnIntFamily(reg[name]);
  }

  // ---------------------------------------------------------------------
  // Running the generated methods on a buffer
  // ---------------------------------------------------------------------

  /** Bytes the reads `rs` take from `n` remaining ones: each read that
      finds its width takes it, up to the first that does not. */
  function Consumed(rs: seq<Reader>, n: nat): (c: nat)
    ensures c <= n
    ensures TotalWidth(rs) <= n ==> c == TotalWidth(rs)
    ensures TotalWidth(rs) > n ==> c < TotalWidth(rs)
  {
    if rs == [] || n < Width(rs[0]) then 0
    else Width(rs[0]) + Consumed(rs[1..], n - Width(rs[0]))
  }

  /** When read `k` is the first that finds too few bytes, the reads take
      exactly the bytes of the reads before it. */
  lemma {:induction false} ConsumedAt(rs: seq<Reader>, n: nat, k: nat)
    requires k < |rs| && TotalWidth(rs[..k]) <= n < TotalWidth(rs[..k]) + Width(rs[k])
    ensures Consumed(rs, n) == TotalWidth(rs[..k])
    decreases k
  {
    if k > 0 {
      assert rs[..k][1..] == rs[1..][..k - 1];
      ConsumedAt(rs[1..], n - Width(rs[0]), k - 1);
    }
  }

  /** `loadFromBuffer_Unsafe` on a buffer whose remaining bytes are `bs`:
      the components read in order, or `BufferUnderflowException` from the
      first read that finds too few bytes, after the reads before it have
      moved the position. */
  function UnsafeLoad(rs: seq<Reader>, bs: seq<uint8>): (o: Outcome<seq<Value>>)
    ensures o.consumed <= |bs|
    ensures o.result.Ok? ==> |o.result.value| == |rs| && o.consumed == TotalWidth(rs)
    ensures o.result.Err? ==> o.result == Err(BufferUnderflow) && o.consumed < TotalWidth(rs)
  {
    Outcome(if TotalWidth(rs) <= |bs| then Ok(DecodeAll(rs, bs).values) else Err(BufferUnderflow),
            Consumed(rs, |bs|))
  }

  /** `loadFromBuffer_Safe`: the guard, which throws before anything is
      read, then the same reads. */
  function SafeLoad(g: Guard, rs: seq<Reader>, bs: seq<uint8>): (o: Outcome<seq<Value>>)
    ensures o.consumed <= |bs|
    ensures o.result.Err? ==> o.result.error in {IllegalArgument, BufferUnderflow}
    ensures o.result == Err(IllegalArgument) ==> o.consumed == 0 && |bs| < g.size
  {
    if |bs| < g.size then Outcome(Err(IllegalArgument), 0) else UnsafeLoad(rs, bs)
  }

  /** With the guard `emitClassBytes` puts in front, the safe method never
      underflows: it throws `IllegalArgumentException` without moving the
      position exactly when fewer than the record's size remain, and
      otherwise reads exactly that many bytes. */
  lemma SafeLoadNeverUnderflows(rs: seq<Reader>, bs: seq<uint8>)
    ensures SafeLoad(RemainingAtLeast(TotalWidth(rs)), rs, bs).result != Err(BufferUnderflow)
    ensures SafeLoad(RemainingAtLeast(TotalWidth(rs)), rs, bs).result.Err? <==> |bs| < TotalWidth(rs)
    ensures |bs| < TotalWidth(rs) ==> SafeLoad(RemainingAtLeast(TotalWidth(rs)), rs, bs) == Outcome(Err(IllegalArgument), 0)
    ensures |bs| >= TotalWidth(rs) ==> SafeLoad(RemainingAtLeast(TotalWidth(rs)), rs, bs) == UnsafeLoad(rs, bs)
  {
  }

  /** The unsafe method fails exactly on short input, and then only after
      consuming the bytes of the reads that fit. */
  lemma UnsafeLoadFails(rs: seq<Reader>, bs: seq<uint8>)
    ensures UnsafeLoad(rs, bs).result.Err? <==> |bs| < TotalWidth(rs)
    ensures UnsafeLoad(rs, bs).result.Ok? ==> UnsafeLoad(rs, bs).consumed == TotalWidth(rs)
    ensures UnsafeLoad(rs, bs).consumed <= |bs|
  {
  }

  /** Two `int` components and five bytes: the unsafe method takes four
      bytes and underflows; the safe one throws and takes none. */
  lemma ShortBufferExample()
    ensures var bs: seq<uint8> := [0, 0, 0, 7, 1];
      && UnsafeLoad([IntBE, IntBE], bs) == Outcome(Err(BufferUnderflow), 4)
      && SafeLoad(RemainingAtLeast(8), [IntBE, IntBE], bs) == Outcome(Err(IllegalArgument), 0)
  {
    var rs := [IntBE, IntBE];
    assert rs[1..] == [IntBE] && rs[1..][1..] == [];
    assert TotalWidth(rs) == 8;
    assert Consumed(rs, 5) == 4 + Consumed([IntBE], 1);
  }

  /** The unsafe load of a plan whose read `k` is the first to find too
      few bytes. */
  lemma UnsafeLoadUnderflow(rs: seq<Reader>, bs: seq<uint8>, k: nat)
    requires k < |rs| && TotalWidth(rs[..k]) <= |bs| < TotalWidth(rs[..k]) + Width(rs[k])
    ensures UnsafeLoad(rs, bs) == Outcome(Err(BufferUnderflow), TotalWidth(rs[..k]))
  {
    TotalWidthSnoc(rs, k);
    TotalWidthPrefix(rs, k + 1);
    ConsumedAt(rs, |bs|, k);
  }

  /** The unsafe load of a plan whose reads have all been decoded. */
  lemma UnsafeLoadComplete(rs: seq<Reader>, bs: seq<uint8>, vs: seq<Value>)
    requires ReadPrefix(rs, bs, vs) && |vs| == |rs|
    ensures UnsafeLoad(rs, bs) == Outcome(Ok(vs), TotalWidth(rs[..|vs|]))
  {
    ReadPrefixAll(rs, bs, vs);
    assert rs[..|vs|] == rs;
  }

  /** Reads `rs` from the buffer, one relative get per component. */
  method ReadComponents(rs: seq<Reader>, buffer: ByteBuffer) returns (r: Result<seq<Value>>)
    requires buffer.Valid()
    modifies buffer
    ensures buffer.Valid() && buffer.limit == old(buffer.limit)
    ensures r == UnsafeLoad(rs, old(buffer.Pending())).result
    ensures buffer.position == old(buffer.position) + UnsafeLoad(rs, old(buffer.Pending())).consumed
  {
    ghost var bs := buffer.Pending();
    var vs: seq<Value> := [];
    while |vs| < |rs|
      invariant ReadPrefix(rs, bs, vs)
      invariant buffer.Valid() && buffer.limit == old(buffer.limit)
      invariant buffer.position == old(buffer.position) + TotalWidth(rs[..|vs|])
      invariant buffer.Pending() == bs[TotalWidth(rs[..|vs|])..]
      decreases |rs| - |vs|
    {
      var k := |vs|;
      ghost var rest := buffer.Pending();
      var v := buffer.GetValue(rs[k]);
      if v.Err? {
        UnsafeLoadUnderflow(rs, bs, k);
        return Err(BufferUnderflow);
      }
      ReadPrefixNext(rs, bs, vs, rest);
      TotalWidthSnoc(rs, k);
      vs := vs + [v.value];
    }
    UnsafeLoadComplete(rs, bs, vs);
    r := Ok(vs);
  }

  /** `loadFromBuffer_Unsafe` of an emitted class, run on a buffer. */
  method LoadFromBufferUnsafe(cs: seq<Component>, c: DecoderClass, buffer: ByteBuffer) returns (r: Result<seq<Value>>)
    requires ConstructorFill(cs) == Ok(c.unsafeFill) && buffer.Valid()
    modifies buffer
    ensures buffer.Valid() && buffer.limit == old(buffer.limit)
    ensures r == UnsafeLoad(Readers(c.unsafeFill.stores), old(buffer.Pending())).result
    ensures buffer.position == old(buffer.position) + UnsafeLoad(Readers(c.unsafeFill.stores), old(buffer.Pending())).consumed
  {
    r := RunFill(cs, c.unsafeFill, buffer);
  }

  /** `loadFromBuffer_Safe` of an emitted class, run on a buffer. */
  method LoadFromBufferSafe(cs: seq<Component>, c: DecoderClass, buffer: ByteBuffer) returns (r: Result<seq<Value>>)
    requires ConstructorFill(cs) == Ok(c.safeFill) && buffer.Valid()
    modifies buffer
    ensures buffer.Valid() && buffer.limit == old(buffer.limit)
    ensures r == SafeLoad(c.guard, Readers(c.safeFill.stores), old(buffer.Pending())).result
    ensures buffer.position == old(buffer.position) + SafeLoad(c.guard, Readers(c.safeFill.stores), old(buffer.Pending())).consumed
  {
    if buffer.Remaining() < c.guard.size {
      return Err(IllegalArgument);
    }
    r := RunFill(cs, c.safeFill, buffer);
  }

  /** A generated body run on a buffer: the reads, then the stores and
      loads that hand the values to the constructor. */
  method RunFill(cs: seq<Component>, f: Fill, buffer: ByteBuffer) returns (r: Result<seq<Value>>)
    requires ConstructorFill(cs) == Ok(f) && buffer.Valid()
    modifies buffer
    ensures buffer.Valid() && buffer.limit == old(buffer.limit)
    ensures r == UnsafeLoad(Readers(f.stores), old(buffer.Pending())).result
    ensures buffer.position == old(buffer.position) + UnsafeLoad(Readers(f.stores), old(buffer.Pending())).consumed
  {
    ghost var bs := buffer.Pending();
    var read := ReadComponents(Readers(f.stores), buffer);
    if read.Err? {
      return read;
    }
    ConstructorFillRuns(cs, bs);
    r := Frame(f, read.value);
  }
}
