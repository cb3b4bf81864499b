/** `FixedCodec`: a `DynamicCodec` behind size pre-checks. Decoding checks
    that at least `size` bytes remain or are available and encoding into a
    buffer checks that `size` bytes of room remain, each throwing
    `IllegalStateException` before anything is read or written; stream
    encoding is passed straight through. */
module FixedCodec {
  import opened Types
  import opened Wire
  import opened JavaIO
  import opened ClassUtils
  import opened LocalFrame
  import opened RecordDecoderBuilder
  import opened StreamDecoderBuilder
  import D = DynamicCodec

  /** The record `FixedCodec(size, internalCodec)`. */
  datatype Fixed<!T> = FixedCodec(size: int, internalCodec: D.Codec<T>)

  /** `decode(ByteBuffer)` on a buffer whose remaining bytes are `bs`. */
  function DecodeBuffer<T>(f: Fixed<T>, bs: seq<uint8>): (o: Outcome<T>)
    ensures |bs| < f.size ==> o == Outcome(Err(IllegalState), 0)
    ensures o.result.Err? ==> o.result.error in {IllegalState, BufferUnderflow}
  {
    if |bs| < f.size then Outcome(Err(IllegalState), 0) else D.DecodeBuffer(f.internalCodec, bs)
  }

  /** `decode(ByteArrayInputStream)` on a stream whose unread bytes are
      `bs`. */
  function DecodeStream<T>(f: Fixed<T>, bs: seq<uint8>): (o: Outcome<T>)
    ensures |bs| < f.size ==> o == Outcome(Err(IllegalState), 0)
    ensures o.result.Err? ==> o.result == Err(IllegalState)
  {
    if |bs| < f.size then Outcome(Err(IllegalState), 0) else D.DecodeStream(f.internalCodec, bs)
  }

  /** `encode(ByteBuffer, T)` on a buffer with `remaining` bytes of room:
      the exception seen, if any, and the number of bytes put. */
  function EncodeBuffer<T>(f: Fixed<T>, v: T, readOnly: bool, remaining: nat): (o: Outcome<()>)
    ensures remaining < f.size ==> o == Outcome(Err(IllegalState), 0)
    ensures o.consumed <= remaining && o.consumed <= |D.Encoded(f.internalCodec.bufferEncode, v)|
    ensures o.result.Err? ==> o.result.error in {IllegalState, BufferOverflow, ReadOnlyBuffer}
  {
    if remaining < f.size then Outcome(Err(IllegalState), 0) else D.EncodeBuffer(f.internalCodec, v, readOnly, remaining)
  }

  /** `encode(ByteArrayOutputStream, T)`, passed to the internal codec's
      stream encoding (the intended one, which invokes the encode handle). */
  function EncodeStream<T>(f: Fixed<T>, v: T): (r: Result<seq<uint8>>)
    ensures r.Ok? <==> f.internalCodec.streamEncode(v).Ok?
    ensures r.Err? ==> r == Err(IllegalState)
  {
    D.EncodeStream(f.internalCodec, v)
  }

  /** The pre-checks: too few bytes throw `IllegalStateException` having
      read or written nothing, and enough bytes leave the outcome to the
      internal codec. */
  lemma SizeChecks<T>(f: Fixed<T>, bs: seq<uint8>, v: T, readOnly: bool, remaining: nat)
    ensures |bs| < f.size ==> DecodeBuffer(f, bs) == Outcome(Err(IllegalState), 0)
    ensures |bs| >= f.size ==> DecodeBuffer(f, bs) == D.DecodeBuffer(f.internalCodec, bs)
    ensures |bs| < f.size ==> DecodeStream(f, bs) == Outcome(Err(IllegalState), 0)
    ensures |bs| >= f.size ==> DecodeStream(f, bs) == D.DecodeStream(f.internalCodec, bs)
    ensures remaining < f.size ==> EncodeBuffer(f, v, readOnly, remaining) == Outcome(Err(IllegalState), 0)
    ensures remaining >= f.size ==> EncodeBuffer(f, v, readOnly, remaining) == D.EncodeBuffer(f.internalCodec, v, readOnly, remaining)
  {
  }

  /** With the internal codec as written, stream encoding through a fixed
      codec fails for every value. */
  lemma EncodeStreamAsWrittenFails<T>(f: Fixed<T>, v: T)
    ensures D.EncodeStreamAsWritten(f.internalCodec, v) == Err(IllegalState)
  {
    D.EncodeStreamAsWrittenFails(f.internalCodec, v);
  }

  // ---------------------------------------------------------------------
  // The four methods run on the caller's buffer or stream
  // ---------------------------------------------------------------------

  method DecodeFromBuffer<T>(f: Fixed<T>, buffer: ByteBuffer) returns (r: Result<T>)
    requires f.internalCodec.Valid() && buffer.Valid()
    modifies buffer
    ensures buffer.Valid() && buffer.limit == old(buffer.limit)
    ensures r == DecodeBuffer(f, old(buffer.Pending())).result
    ensures buffer.position == old(buffer.position) + DecodeBuffer(f, old(buffer.Pending())).consumed
  {
    if buffer.Remaining() < f.size {
      return Err(IllegalState);
    }
    r := D.DecodeFromBuffer(f.internalCodec, buffer);
  }

  method DecodeFromStream<T>(f: Fixed<T>, input: ByteArrayInputStream) returns (r: Result<T>)
    requires f.internalCodec.Valid() && input.Valid()
    modifies input
    ensures input.Valid()
    ensures r == DecodeStream(f, old(input.Pending())).result
    ensures input.Pending() == old(input.Pending())[DecodeStream(f, old(input.Pending())).consumed..]
  {
    if input.Available() < f.size {
      assert input.Pending()[0..] == input.Pending();
      return Err(IllegalState);
    }
    r := D.DecodeFromStream(f.internalCodec, input);
  }

  method EncodeIntoBuffer<T>(f: Fixed<T>, buffer: ByteBuffer, v: T) returns (r: Result<()>)
    requires buffer.Valid()
    modifies buffer, buffer.data
    ensures buffer.Valid() && buffer.limit == old(buffer.limit)
    ensures r == EncodeBuffer(f, v, buffer.readOnly, old(buffer.Remaining())).result
    ensures var n := EncodeBuffer(f, v, buffer.readOnly, old(buffer.Remaining())).consumed;
      && buffer.position == old(buffer.position) + n
      && buffer.data[..] == old(buffer.data[..buffer.position]) + D.Encoded(f.internalCodec.bufferEncode, v)[..n] + old(buffer.data[buffer.position + n..])
  {
    if buffer.Remaining() < f.size {
      assert buffer.data[..] == buffer.data[..buffer.position] + [] + buffer.data[buffer.position..];
      return Err(IllegalState);
    }
    r := D.EncodeIntoBuffer(f.internalCodec, buffer, v);
  }

  method EncodeIntoStream<T>(f: Fixed<T>, output: ByteArrayOutputStream, v: T) returns (r: Result<()>)
    modifies output
    ensures r.Ok? <==> EncodeStream(f, v).Ok?
    ensures r.Err? ==> r == Err(IllegalState) && output.bytes == old(output.bytes)
    ensures r.Ok? ==> output.bytes == old(output.bytes) + EncodeStream(f, v).value
  {
    r := D.EncodeIntoStream(f.internalCodec, output, v);
  }

  // ---------------------------------------------------------------------
  // A fixed codec over the generated decoders
  // ---------------------------------------------------------------------

  /** A codec whose buffer decode handle is the generated
      `loadFromBuffer_Unsafe` of a body with reads `rs`; the other handles
      are those of `c`. */
  function WithBufferLoad(rs: seq<Reader>, c: D.Codec<seq<Value>>): D.Codec<seq<Value>> {
    c.(bufferDecode := bs => UnsafeLoad(rs, bs))
  }

  /** A fixed codec whose size is what the generated buffer body reads
      never lets `BufferUnderflowException` through: it throws
      `IllegalStateException` without reading exactly when fewer bytes
      remain, and otherwise returns the components read in order, having
      read exactly `size` bytes. It agrees with `loadFromBuffer_Safe` except
      for the exception class. */
  lemma FixedBufferDecode(rs: seq<Reader>, c: D.Codec<seq<Value>>, bs: seq<uint8>)
    ensures var o := DecodeBuffer(FixedCodec(TotalWidth(rs), WithBufferLoad(rs, c)), bs);
      && o.result != Err(BufferUnderflow)
      && (o.result.Ok? <==> |bs| >= TotalWidth(rs))
      && (o.result.Err? ==> o == Outcome(Err(IllegalState), 0))
      && (o.result.Ok? ==> o == Outcome(Ok(DecodeAll(rs, bs).values), TotalWidth(rs)))
      && (o.result.Ok? ==> o == SafeLoad(RemainingAtLeast(TotalWidth(rs)), rs, bs))
  {
    SafeLoadNeverUnderflows(rs, bs);
    UnsafeLoadFails(rs, bs);
  }

  /** For a record whose buffer body can be generated, `getRecordSize` is
      that body's width, so a fixed codec built with it behaves as
      `FixedBufferDecode` describes. */
  lemma FixedCodecForRecord(cs: seq<Component>, c: D.Codec<seq<Value>>, bs: seq<uint8>)
    requires ConstructorFill(cs).Ok?
    ensures SumFieldSizes(cs).Ok?
    ensures var rs := Readers(ConstructorFill(cs).value.stores);
      var o := DecodeBuffer(FixedCodec(SumFieldSizes(cs).value, WithBufferLoad(rs, c)), bs);
      && o.result != Err(BufferUnderflow)
      && (o.result.Ok? <==> |bs| >= SumFieldSizes(cs).value)
  {
    ConstructorFillShape(cs);
    var rs := Readers(ConstructorFill(cs).value.stores);
    FixedBufferDecode(rs, c, bs);
  }

  /** A fixed codec's stream decoding over the generated `decode` body: the
      `available()` check establishes exactly what the generated body needs,
      a stream holding the whole record, so the body never reads past the
      end. */
  method DecodeRecordFromStream(cs: seq<Component>, fill: Fill, size: int, input: ByteArrayInputStream)
    returns (r: Result<seq<Value>>)
    requires ReadFunction(cs) == Ok(fill) && SumFieldSizes(cs) == Ok(size) && input.Valid()
    modifies input
    ensures input.Valid() && TotalWidth(Readers(fill.stores)) == size
    ensures old(input.Available()) < size ==> r == Err(IllegalState) && input.pos == old(input.pos)
    ensures old(input.Available()) >= size ==>
      && r == Ok(DecodeAll(Readers(fill.stores), old(input.Pending())).values)
      && input.Pending() == old(input.Pending())[size..]
  {
    ReadFunctionShape(cs);
    if input.Available() < size {
      return Err(IllegalState);
    }
    r := Decode(cs, fill, input);
  }
}
