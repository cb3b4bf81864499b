/** `DynamicCodec`: the four generated method handles of a record, invoked
    with no size checks. Each codec method runs one handle and decides which
    of its failures the caller sees as thrown and which become
    `IllegalStateException`. A handle is modelled by what it does to the
    bytes it is given, not by its code. */
module DynamicCodec {
  import opened Types
  import opened Wire
  import opened JavaIO
  import opened Sequences

  /** A decode handle, by what it does to the bytes it is given: the record
      it returns or the exception it throws, and how many of the bytes it
      read before that. */
  type DecodeHandle<T> = seq<uint8> -> Outcome<T>

  /** An encode handle, by what it does with a value: the runs of bytes it
      puts into its target, one relative put per run and in order, or the
      exception it throws before its first put. */
  type EncodeHandle<!T> = T -> Result<seq<seq<uint8>>>

  /** The bytes of a run of puts, in order. */
  function Joined(ps: seq<seq<uint8>>): seq<uint8> {
    if ps == [] then [] else ps[0] + Joined(ps[1..])
  }

  lemma {:induction false} JoinedAppend(a: seq<seq<uint8>>, b: seq<seq<uint8>>)
    ensures Joined(a + b) == Joined(a) + Joined(b)
  {
    if a == [] {
      assert a + b == b;
    } else {
      assert (a + b)[0] == a[0] && (a + b)[1..] == a[1..] + b;
      JoinedAppend(a[1..], b);
    }
  }

  /** The bytes an encode handle means to put for `v`: none when it throws. */
  function Encoded<T>(h: EncodeHandle<T>, v: T): seq<uint8> {
    if h(v).Err? then [] else Joined(h(v).value)
  }

  /** The record `DynamicCodec(bufferDecode, streamDecode, bufferEncode,
      streamEncode)`. */
  datatype Codec<!T> = DynamicCodec(
    bufferDecode: DecodeHandle<T>,
    streamDecode: DecodeHandle<T>,
    bufferEncode: EncodeHandle<T>,
    streamEncode: EncodeHandle<T>)
  {
    /** A decode handle never reads more bytes than it is given. */
    ghost predicate Valid() {
      && (forall bs :: bufferDecode(bs).consumed <= |bs|)
      && (forall bs :: streamDecode(bs).consumed <= |bs|)
    }
  }

  /** A `try` whose `catch` clauses rethrow the exceptions in `passed` and
      turn every other `Throwable` into `IllegalStateException`. */
  function Catch<T>(r: Result<T>, passed: set<Exception>): (c: Result<T>)
    ensures c.Ok? <==> r.Ok?
    ensures r.Ok? ==> c == r
    ensures r.Err? && r.error in passed ==> c == r
    ensures r.Err? && r.error !in passed ==> c == Err(IllegalState)
  {
    if r.Ok? || r.error in passed then r else Err(IllegalState)
  }

  /** The exceptions `decode(ByteBuffer)` rethrows. */
  const BufferDecodePassed: set<Exception> := {BufferUnderflow}

  /** The exceptions `encode(ByteBuffer, T)` rethrows. */
  const BufferEncodePassed: set<Exception> := {BufferOverflow, ReadOnlyBuffer}

  /** The stream methods rethrow nothing. */
  const StreamPassed: set<Exception> := {}

  // ---------------------------------------------------------------------
  // decode(ByteBuffer) and decode(ByteArrayInputStream)
  // ---------------------------------------------------------------------

  /** `decode(ByteBuffer)` on a buffer whose remaining bytes are `bs`. */
  function DecodeBuffer<T>(c: Codec<T>, bs: seq<uint8>): (o: Outcome<T>)
    ensures o.consumed == c.bufferDecode(bs).consumed
    ensures o.result.Err? ==> o.result.error in {BufferUnderflow, IllegalState}
  {
    var o := c.bufferDecode(bs);
    Outcome(Catch(o.result, BufferDecodePassed), o.consumed)
  }

  /** `decode(ByteArrayInputStream)` on a stream whose unread bytes are
      `bs`. */
  function DecodeStream<T>(c: Codec<T>, bs: seq<uint8>): (o: Outcome<T>)
    ensures o.consumed == c.streamDecode(bs).consumed
    ensures o.result.Ok? <==> c.streamDecode(bs).result.Ok?
    ensures o.result.Err? ==> o.result == Err(IllegalState)
  {
    var o := c.streamDecode(bs);
    Outcome(Catch(o.result, StreamPassed), o.consumed)
  }

  /** What a caller of the decode methods can see thrown: from a buffer
      only `BufferUnderflowException`, kept exactly when the handle threw
      it, or `IllegalStateException`; from a stream only
      `IllegalStateException`. A handle that returns a record has it
      returned unchanged, and the bytes read are the handle's. */
  lemma DecodeExceptions<T>(c: Codec<T>, bs: seq<uint8>)
    ensures DecodeBuffer(c, bs).result.Ok? <==> c.bufferDecode(bs).result.Ok?
    ensures DecodeBuffer(c, bs).result.Ok? ==> DecodeBuffer(c, bs).result == c.bufferDecode(bs).result
    ensures DecodeBuffer(c, bs).result.Err? ==> DecodeBuffer(c, bs).result.error in {BufferUnderflow, IllegalState}
    ensures DecodeBuffer(c, bs).result == Err(BufferUnderflow) <==> c.bufferDecode(bs).result == Err(BufferUnderflow)
    ensures DecodeBuffer(c, bs).consumed == c.bufferDecode(bs).consumed
    ensures DecodeStream(c, bs).result.Ok? <==> c.streamDecode(bs).result.Ok?
    ensures DecodeStream(c, bs).result.Ok? ==> DecodeStream(c, bs).result == c.streamDecode(bs).result
    ensures DecodeStream(c, bs).result.Err? ==> DecodeStream(c, bs).result == Err(IllegalState)
  {
  }

  /** `decode(ByteBuffer)` run on a buffer: the handle reads from the
      position on and moves it past what it read. */
  method DecodeFromBuffer<T>(c: Codec<T>, buffer: ByteBuffer) returns (r: Result<T>)
    requires c.Valid() && buffer.Valid()
    modifies buffer
    ensures buffer.Valid() && buffer.limit == old(buffer.limit)
    ensures r == DecodeBuffer(c, old(buffer.Pending())).result
    ensures buffer.position == old(buffer.position) + DecodeBuffer(c, old(buffer.Pending())).consumed
  {
    var o := c.bufferDecode(buffer.Pending());
    buffer.Skip(o.consumed);
    r := Catch(o.result, BufferDecodePassed);
  }

  /** `decode(ByteArrayInputStream)` run on a stream. */
  method DecodeFromStream<T>(c: Codec<T>, input: ByteArrayInputStream) returns (r: Result<T>)
    requires c.Valid() && input.Valid()
    modifies input
    ensures input.Valid()
    ensures r == DecodeStream(c, old(input.Pending())).result
    ensures input.Pending() == old(input.Pending())[DecodeStream(c, old(input.Pending())).consumed..]
  {
    var o := c.streamDecode(input.Pending());
    input.Consume(o.consumed);
    r := Catch(o.result, StreamPassed);
  }

  // ---------------------------------------------------------------------
  // encode(ByteBuffer, T)
  // ---------------------------------------------------------------------

  /** Relative puts of the runs `ps` on a buffer with `remaining` bytes of
      room: the exception of the first put that fails, and the bytes put
      before it. A put throws `ReadOnlyBufferException` on a read-only
      buffer, even an empty put, and `BufferOverflowException` when its run
      does not fit; either way it writes nothing, and the puts before it
      stay written. */
  function Puts(ps: seq<seq<uint8>>, readOnly: bool, remaining: nat): (o: Outcome<()>)
    ensures o.consumed <= remaining && o.consumed <= |Joined(ps)|
    ensures o.result.Ok? ==> o.consumed == |Joined(ps)|
    ensures o.result.Err? ==> o.result.error in {ReadOnlyBuffer, BufferOverflow}
  {
    if ps == [] then Outcome(Ok(()), 0)
    else if readOnly then Outcome(Err(ReadOnlyBuffer), 0)
    else if |ps[0]| > remaining then Outcome(Err(BufferOverflow), 0)
    else
      var rest := Puts(ps[1..], readOnly, remaining - |ps[0]|);
      Outcome(rest.result, |ps[0]| + rest.consumed)
  }

  /** The puts all succeed exactly when there are none, or the buffer is
      writable and all their bytes fit; a read-only buffer fails on the
      first put before writing, and a writable one that is too small
      fails with `BufferOverflowException`. */
  lemma {:induction false} PutsSucceed(ps: seq<seq<uint8>>, readOnly: bool, remaining: nat)
    ensures Puts(ps, readOnly, remaining).result.Ok? <==> (ps == [] || !readOnly) && |Joined(ps)| <= remaining
    ensures ps != [] && readOnly ==> Puts(ps, readOnly, remaining) == Outcome(Err(ReadOnlyBuffer), 0)
    ensures !readOnly && |Joined(ps)| > remaining ==> Puts(ps, readOnly, remaining).result == Err(BufferOverflow)
  {
    if ps != [] && !readOnly && |ps[0]| <= remaining {
      PutsSucceed(ps[1..], readOnly, remaining - |ps[0]|);
    }
  }

  /** `encode(ByteBuffer, T)` on a buffer with `remaining` bytes left: the
      exception seen, if any, and the number of bytes put. The handle's own
      failure is caught before any put; its puts then fail on a read-only
      buffer and on one with too little room, and those two exceptions are
      rethrown with the earlier puts left in place. */
  function EncodeBuffer<T>(c: Codec<T>, v: T, readOnly: bool, remaining: nat): (o: Outcome<()>)
    ensures o.consumed <= remaining && o.consumed <= |Encoded(c.bufferEncode, v)|
    ensures o.result.Err? ==> o.result.error in {BufferOverflow, ReadOnlyBuffer, IllegalState}
  {
    var h := c.bufferEncode(v);
    if h.Err? then Outcome(Catch(Err(h.error), BufferEncodePassed), 0)
    else
      var p := Puts(h.value, readOnly, remaining);
      Outcome(Catch(p.result, BufferEncodePassed), p.consumed)
  }

  /** Encoding into a buffer succeeds exactly when the handle produces puts
      that a writable buffer has room for, or none at all, and then puts
      all the handle's bytes. A handle that throws puts nothing; a
      read-only buffer fails on the first put; otherwise a failure leaves
      the bytes of the puts before it written. */
  lemma EncodeBufferExceptions<T>(c: Codec<T>, v: T, readOnly: bool, remaining: nat)
    ensures EncodeBuffer(c, v, readOnly, remaining).result.Ok? <==>
      c.bufferEncode(v).Ok? && (c.bufferEncode(v).value == [] || !readOnly) && |Encoded(c.bufferEncode, v)| <= remaining
    ensures EncodeBuffer(c, v, readOnly, remaining).result.Ok? ==>
      EncodeBuffer(c, v, readOnly, remaining).consumed == |Encoded(c.bufferEncode, v)|
    ensures c.bufferEncode(v).Err? ==> EncodeBuffer(c, v, readOnly, remaining).result.Err? && EncodeBuffer(c, v, readOnly, remaining).consumed == 0
    ensures c.bufferEncode(v).Ok? && c.bufferEncode(v).value != [] && readOnly ==>
      EncodeBuffer(c, v, readOnly, remaining) == Outcome(Err(ReadOnlyBuffer), 0)
    ensures c.bufferEncode(v).Ok? && !readOnly && |Encoded(c.bufferEncode, v)| > remaining ==>
      EncodeBuffer(c, v, readOnly, remaining).result == Err(BufferOverflow)
  {
    if c.bufferEncode(v).Ok? {
      PutsSucceed(c.bufferEncode(v).value, readOnly, remaining);
    }
  }

  /** A handle that puts one byte and then two, on a buffer with room for
      two: the second put overflows and the first byte stays written. A
      handle with nothing to put succeeds even on a read-only buffer. */
  lemma EncodeBufferPartial()
    ensures var c := Codec<int>.DynamicCodec(_ => Outcome(Err(IllegalState), 0), _ => Outcome(Err(IllegalState), 0),
                                             _ => Ok([[1], [2, 3]]), _ => Ok([[1], [2, 3]]));
      EncodeBuffer(c, 0, false, 2) == Outcome(Err(BufferOverflow), 1)
    ensures var c := Codec<int>.DynamicCodec(_ => Outcome(Err(IllegalState), 0), _ => Outcome(Err(IllegalState), 0),
                                             _ => Ok([]), _ => Ok([]));
      EncodeBuffer(c, 0, true, 0) == Outcome(Ok(()), 0)
  {
    var ps: seq<seq<uint8>> := [[1], [2, 3]];
    assert ps[1..] == [[2, 3]] && ps[1..][1..] == [];
    assert Puts(ps, false, 2) == Outcome(Err(BufferOverflow), 1);
  }

  /** A first put of `ps[0]` at `p`, then `c` bytes of the rest's puts
      right after it, leave the bytes of `Joined(ps)[..|ps[0]| + c]` at `p`. */
  lemma PutThenRest(d0: seq<uint8>, p: nat, ps: seq<seq<uint8>>, c: nat, d1: seq<uint8>, d2: seq<uint8>)
    requires ps != [] && c <= |Joined(ps[1..])| && p + |ps[0]| + c <= |d0|
    requires d1 == d0[..p] + ps[0] + d0[p + |ps[0]|..]
    requires d2 == d1[..p + |ps[0]|] + Joined(ps[1..])[..c] + d1[p + |ps[0]| + c..]
    ensures d2 == d0[..p] + Joined(ps)[..|ps[0]| + c] + d0[p + |ps[0]| + c..]
  {
    var x := Joined(ps[1..])[..c];
    SpliceAppend(d0, p, ps[0], x);
    assert Joined(ps)[..|ps[0]| + c] == ps[0] + x;
  }

  /** The puts of an encode handle, run on a buffer one after another:
      each lands at the position and moves it on, until one fails; the
      bytes put before a failure stay written. */
  method PutAll(buffer: ByteBuffer, ps: seq<seq<uint8>>) returns (o: Outcome<()>)
    requires buffer.Valid()
    modifies buffer, buffer.data
    ensures buffer.Valid() && buffer.limit == old(buffer.limit)
    ensures o == Puts(ps, buffer.readOnly, old(buffer.Remaining()))
    ensures buffer.position == old(buffer.position) + o.consumed
    ensures buffer.data[..] == old(buffer.data[..buffer.position]) + Joined(ps)[..o.consumed] + old(buffer.data[buffer.position + o.consumed..])
    decreases |ps|
  {
    if ps == [] {
      assert buffer.data[..] == buffer.data[..buffer.position] + [] + buffer.data[buffer.position..];
      return Outcome(Ok(()), 0);
    }
    ghost var p0 := buffer.position;
    ghost var d0 := buffer.data[..];
    var put := buffer.Put(ps[0]);
    if put.Err? {
      assert d0 == d0[..p0] + [] + d0[p0..];
      return Outcome(put, 0);
    }
    ghost var d1 := buffer.data[..];
    var rest := PutAll(buffer, ps[1..]);
    PutThenRest(d0, p0, ps, rest.consumed, d1, buffer.data[..]);
    o := Outcome(rest.result, |ps[0]| + rest.consumed);
  }

  /** `encode(ByteBuffer, T)` run on a buffer: the handle's runs are put at
      the position one after another, each moving it on, until one fails;
      the bytes put before a failure stay written. */
  method EncodeIntoBuffer<T>(c: Codec<T>, buffer: ByteBuffer, v: T) returns (r: Result<()>)
    requires buffer.Valid()
    modifies buffer, buffer.data
    ensures buffer.Valid() && buffer.limit == old(buffer.limit)
    ensures r == EncodeBuffer(c, v, buffer.readOnly, old(buffer.Remaining())).result
    ensures var n := EncodeBuffer(c, v, buffer.readOnly, old(buffer.Remaining())).consumed;
      && buffer.position == old(buffer.position) + n
      && buffer.data[..] == old(buffer.data[..buffer.position]) + Encoded(c.bufferEncode, v)[..n] + old(buffer.data[buffer.position + n..])
  {
    var h := c.bufferEncode(v);
    if h.Err? {
      assert buffer.data[..] == buffer.data[..buffer.position] + [] + buffer.data[buffer.position..];
      return Catch(Err(h.error), BufferEncodePassed);
    }
    var o := PutAll(buffer, h.value);
    r := Catch(o.result, BufferEncodePassed);
  }

  // ---------------------------------------------------------------------
  // encode(ByteArrayOutputStream, T)
  // ---------------------------------------------------------------------

  /** The type of a handle, written as `(parameters)result`. */
  datatype CallType = CallType(params: seq<string>, result: string)

  /** The stream handles' types and the type of the call in
      `encode(ByteArrayOutputStream, T)`. */
  const StreamDecodeType := CallType(["java.io.ByteArrayInputStream"], "T")
  const StreamEncodeType := CallType(["java.io.ByteArrayOutputStream", "T"], "void")
  const StreamEncodeSite := CallType(["java.io.ByteArrayOutputStream", "T"], "void")

  /** The two stream handles a codec holds. */
  datatype StreamHandle = StreamDecodeHandle | StreamEncodeHandle

  function HandleType(h: StreamHandle): CallType {
    match h
    case StreamDecodeHandle => StreamDecodeType
    case StreamEncodeHandle => StreamEncodeType
  }

  /** `encode(ByteArrayOutputStream, T)` invoking handle `h` with
      `invokeExact`: the handle runs only when its type is exactly the call
      site's, otherwise `WrongMethodTypeException` is thrown before it runs;
      either failure becomes `IllegalStateException`. */
  function EncodeStreamVia<T>(c: Codec<T>, v: T, h: StreamHandle): (r: Result<seq<uint8>>)
    ensures HandleType(h) != StreamEncodeSite ==> r.Err?
    ensures r.Err? ==> r == Err(IllegalState)
  {
    if HandleType(h) != StreamEncodeSite then Catch(Err(WrongMethodType), StreamPassed)
    else
      var o := c.streamEncode(v);
      if o.Err? then Catch(Err(o.error), StreamPassed) else Ok(Joined(o.value))
  }

  /** `encode(ByteArrayOutputStream, T)` as written: it invokes the stream
      decode handle. */
  function EncodeStreamAsWritten<T>(c: Codec<T>, v: T): (r: Result<seq<uint8>>)
    ensures r.Err?
  {
    assert |StreamDecodeType.params| == 1 && |StreamEncodeSite.params| == 2;
    EncodeStreamVia(c, v, StreamDecodeHandle)
  }

  /** `encode(ByteArrayOutputStream, T)` invoking the stream encode handle,
      as its documentation describes. */
  function EncodeStream<T>(c: Codec<T>, v: T): (r: Result<seq<uint8>>)
    ensures r.Ok? <==> c.streamEncode(v).Ok?
    ensures r.Ok? ==> r.value == Encoded(c.streamEncode, v)
  {
    EncodeStreamVia(c, v, StreamEncodeHandle)
  }

  /** As written, stream encoding fails for every codec and every value,
      even one whose encode handle would succeed, and writes nothing. */
  lemma EncodeStreamAsWrittenFails<T>(c: Codec<T>, v: T)
    ensures EncodeStreamAsWritten(c, v) == Err(IllegalState)
  {
    assert StreamDecodeType.params != StreamEncodeSite.params by {
      assert |StreamDecodeType.params| == 1 && |StreamEncodeSite.params| == 2;
    }
  }

  /** A codec whose stream encode handle writes the single byte 7: as
      written encoding fails, as intended it writes that byte. */
  lemma EncodeStreamExample()
    ensures var c := Codec<int>.DynamicCodec(_ => Outcome(Err(IllegalState), 0), _ => Outcome(Err(IllegalState), 0),
                                       _ => Ok([[7]]), _ => Ok([[7]]));
      && EncodeStreamAsWritten(c, 0) == Err(IllegalState)
      && EncodeStream(c, 0) == Ok([7])
  {
    var c := Codec<int>.DynamicCodec(_ => Outcome(Err(IllegalState), 0), _ => Outcome(Err(IllegalState), 0),
                               _ => Ok([[7]]), _ => Ok([[7]]));
    EncodeStreamAsWrittenFails(c, 0);
    var ps: seq<seq<uint8>> := [[7]];
    assert c.streamEncode(0) == Ok(ps);
    assert Joined(ps) == [7] by {
      assert ps[1..] == [];
    }
  }

  /** As intended, stream encoding succeeds exactly when the encode handle
      does, with its bytes, and otherwise throws `IllegalStateException`. */
  lemma EncodeStreamExceptions<T>(c: Codec<T>, v: T)
    ensures EncodeStream(c, v).Ok? <==> c.streamEncode(v).Ok?
    ensures EncodeStream(c, v).Ok? ==> EncodeStream(c, v) == Ok(Joined(c.streamEncode(v).value))
    ensures EncodeStream(c, v).Err? ==> EncodeStream(c, v) == Err(IllegalState)
  {
  }

  /** `encode(ByteArrayOutputStream, T)` invoking the encode handle, run on
      a stream: the handle's bytes are appended, or nothing is. */
  method EncodeIntoStream<T>(c: Codec<T>, output: ByteArrayOutputStream, v: T) returns (r: Result<()>)
    modifies output
    ensures r.Ok? <==> EncodeStream(c, v).Ok?
    ensures r.Err? ==> r == Err(IllegalState) && output.bytes == old(output.bytes)
    ensures r.Ok? ==> output.bytes == old(output.bytes) + EncodeStream(c, v).value
  {
    var o := EncodeStream(c, v);
    if o.Err? {
      return Err(o.error);
    }
    output.Write(o.value);
    r := Ok(());
  }
}
