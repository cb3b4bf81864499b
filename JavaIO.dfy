/** The caller-owned byte containers the generated code and the codecs
    work on: a heap `java.nio.ByteBuffer`, a `java.io.ByteArrayInputStream`
    and a `java.io.ByteArrayOutputStream`, reduced to the members they use. */
module JavaIO {
  import opened Types
  import opened Wire

  /** A heap `ByteBuffer`: a backing array with a position and a limit.
      Relative gets and puts work on the bytes between the two. */
  class ByteBuffer {
    const data: array<uint8>
    var position: nat
    var limit: nat
    const readOnly: bool

    ghost predicate Valid()
      reads this
    {
      position <= limit <= data.Length
    }

    /** `ByteBuffer.wrap(bytes)`, or its `asReadOnlyBuffer()` view: position
        0, limit at the end. */
    constructor Wrap(bytes: seq<uint8>, readOnly: bool)
      ensures Valid() && fresh(data)
      ensures data[..] == bytes && position == 0 && limit == |bytes|
      ensures this.readOnly == readOnly
    {
      data := new uint8[|bytes|](i requires 0 <= i < |bytes| => bytes[i]);
      position := 0;
      limit := |bytes|;
      this.readOnly := readOnly;
    }

    /** `remaining()` */
    function Remaining(): nat
      reads this
      requires Valid()
    {
      limit - position
    }

    /** The bytes between the position and the limit. */
    function Pending(): seq<uint8>
      reads this, data
      requires Valid()
    {
      data[position..limit]
    }

    /** A relative get of `n` bytes, as `get()`, `getShort()`, `getInt()`
        and `getLong()` perform it: the next `n` bytes and a position moved
        past them, or `BufferUnderflowException` with the position left
        where it was when fewer than `n` remain. */
    method Get(n: nat) returns (r: Result<seq<uint8>>)
      requires Valid()
      modifies this
      ensures Valid() && limit == old(limit)
      ensures n <= old(Remaining()) ==> r == Ok(old(Pending())[..n]) && position == old(position) + n
      ensures n > old(Remaining()) ==> r == Err(BufferUnderflow) && position == old(position)
    {
      if limit - position < n {
        return Err(BufferUnderflow);
      }
      assert data[position..limit][..n] == data[position..position + n];
      r := Ok(data[position..position + n]);
      position := position + n;
    }

    /** The typed relative get a read stands for (`get()`, `getShort()`,
        `getChar()`, `getInt()`, `getFloat()`, `getLong()`, `getDouble()`, or
        an unsigned helper reading the width its name gives): the value of
        the next `Width(r)` bytes, or `BufferUnderflowException` with the
        position left where it was. */
    method GetValue(r: Reader) returns (res: Result<Value>)
      requires Valid()
      modifies this
      ensures Valid() && limit == old(limit)
      ensures Width(r) <= old(Remaining()) ==>
        && res == Ok(Read(r, old(Pending())[..Width(r)]))
        && position == old(position) + Width(r)
        && Pending() == old(Pending())[Width(r)..]
      ensures Width(r) > old(Remaining()) ==> res == Err(BufferUnderflow) && position == old(position)
    {
      var bytes := Get(Width(r));
      if bytes.Err? {
        return Err(bytes.error);
      }
      res := Ok(Read(r, bytes.value));
    }

    /** The position moved past `n` bytes that were read, as the relative
        gets of a generated method move it. */
    method Skip(n: nat)
      requires Valid() && n <= Remaining()
      modifies this
      ensures Valid() && limit == old(limit)
      ensures position == old(position) + n
      ensures Pending() == old(Pending())[n..]
    {
      position := position + n;
    }

    /** A relative bulk `put(bytes)`:`ReadOnlyBufferException` on a
        read-only buffer, then `BufferOverflowException` when fewer bytes
        remain than are put; either way nothing is written. Otherwise the
        bytes land at the position, which moves past them. */
    method Put(bs: seq<uint8>) returns (r: Result<()>)
      requires Valid()
      modifies this, data
      ensures Valid() && limit == old(limit)
      ensures r.Ok? <==> !readOnly && |bs| <= old(Remaining())
      ensures readOnly ==> r == Err(ReadOnlyBuffer)
      ensures !readOnly && |bs| > old(Remaining()) ==> r == Err(BufferOverflow)
      ensures r.Err? ==> position == old(position) && data[..] == old(data[..])
      ensures r.Ok? ==> position == old(position) + |bs|
      ensures r.Ok? ==> data[..] == old(data[..position]) + bs + old(data[position + |bs|..])
    {
      if readOnly {
        return Err(ReadOnlyBuffer);
      }
      if limit - position < |bs| {
        return Err(BufferOverflow);
      }
      var i := 0;
      while i < |bs|
        invariant 0 <= i <= |bs|
        invariant position == old(position) && limit == old(limit)
        invariant forall j :: 0 <= j < data.Length ==>
          data[j] == if position <= j < position + i then bs[j - position] else old(data[j])
      {
        data[position + i] := bs[i];
        i := i + 1;
      }
      assert data[..] == old(data[..position]) + bs + old(data[position + |bs|..]);
      position := position + |bs|;
      r := Ok(());
    }
  }

  /** A `ByteArrayInputStream` over a fixed byte array. */
  class ByteArrayInputStream {
    const buf: seq<uint8>
    var pos: nat
    const count: nat

    ghost predicate Valid()
      reads this
    {
      pos <= count <= |buf|
    }

    constructor (bytes: seq<uint8>)
      ensures Valid()
      ensures buf == bytes && pos == 0 && count == |bytes|
    {
      buf := bytes;
      pos := 0;
      count := |bytes|;
    }

    /** `available()` */
    function Available(): nat
      reads this
      requires Valid()
    {
      count - pos
    }

    /** The bytes not yet read. */
    function Pending(): seq<uint8>
      reads this
      requires Valid()
    {
      buf[pos..count]
    }

    /** `read()`: the next byte as a number from 0 to 255, or -1 at the end
        of the stream, where the position stays. */
    method Read() returns (b: int)
      requires Valid()
      modifies this
      ensures Valid()
      ensures old(pos) < count ==> b == buf[old(pos)] as int && pos == old(pos) + 1
      ensures old(pos) >= count ==> b == -1 && pos == old(pos)
    {
      if pos < count {
        b := buf[pos] as int;
        pos := pos + 1;
      } else {
        b := -1;
      }
    }

    /** Consumes `n` bytes, as a read of `n` bytes whose values are used
        elsewhere does. */
    method Consume(n: nat)
      requires Valid() && n <= Available()
      modifies this
      ensures Valid() && pos == old(pos) + n
      ensures Pending() == old(Pending())[n..]
    {
      pos := pos + n;
    }
  }

  /** A `ByteArrayOutputStream`: a byte sequence that grows as it is
      written. */
  class ByteArrayOutputStream {
    var bytes: seq<uint8>

    constructor ()
      ensures bytes == []
    {
      bytes := [];
    }

    /** `write(bs)`: appends, never fails. */
    method Write(bs: seq<uint8>)
      modifies this
      ensures bytes == old(bytes) + bs
    {
      bytes := bytes + bs;
    }
  }
}
