/** The byte-level meaning of the code the generators emit for one record
    component: how many bytes it takes and which Java value those bytes
    become. Both the stream decoder and the buffer decoder read big-endian. */
module Wire {
  import opened Sequences

  /** An octet as `InputStream.read()` returns it and a `byte[]` holds its
      bits: a number from 0 to 255. */
  newtype uint8 = x: int | 0 <= x < 256

  /** 256 to the power `n`: the number of values `n` bytes can hold. */
  function Pow256(n: nat): (r: nat)
    ensures r >= 1
  {
    if n == 0 then 1 else 256 * Pow256(n - 1)
  }

  /** The bytes `bs` read as an unsigned big-endian number: the value the
      emitted shift-and-or sequence assembles, each byte masked to 0..255
      and shifted left by 8 times the number of bytes after it. */
  function Unsigned(bs: seq<uint8>): (u: nat)
    ensures u < Pow256(|bs|)
  {
    if bs == [] then 0 else Unsigned(bs[..|bs| - 1]) * 256 + bs[|bs| - 1] as int
  }

  /** The `n`-byte big-endian representation of `u`: the bytes a writer
      produces, most significant first. */
  function BigEndian(u: nat, n: nat): (bs: seq<uint8>)
    requires u < Pow256(n)
    ensures |bs| == n
  {
    if n == 0 then []
    else
      assert u / 256 < Pow256(n - 1);
      BigEndian(u / 256, n - 1) + [(u % 256) as uint8]
  }

  lemma DivMod256(a: nat, b: nat)
    requires b < 256
    ensures (a * 256 + b) / 256 == a && (a * 256 + b) % 256 == b
  {
  }

  /** Appending a byte shifts the number left by one byte and adds it. */
  lemma UnsignedSnoc(bs: seq<uint8>, b: uint8)
    ensures Unsigned(bs + [b]) == Unsigned(bs) * 256 + b as int
  {
    assert (bs + [b])[..|bs|] == bs;
  }

  /** Reading back what `BigEndian` wrote gives the number that was written. */
  lemma {:induction false} UnsignedOfBigEndian(u: nat, n: nat)
    requires u < Pow256(n)
    ensures Unsigned(BigEndian(u, n)) == u
  {
    if n > 0 {
      var q, b := u / 256, u % 256;
      assert q < Pow256(n - 1);
      var front := BigEndian(q, n - 1);
      UnsignedOfBigEndian(q, n - 1);
      var c := b as uint8;
      UnsignedSnoc(front, c);
      assert BigEndian(u, n) == front + [c];
      assert Unsigned(front) == q;
      assert Unsigned(front + [c]) == q * 256 + b;
    }
  }

  /** Writing the number a byte sequence stands for gives back those bytes. */
  lemma {:induction false} BigEndianOfUnsigned(bs: seq<uint8>)
    ensures BigEndian(Unsigned(bs), |bs|) == bs
  {
    if bs != [] {
      var n := |bs|;
      var front := bs[..n - 1];
      DivMod256(Unsigned(front), bs[n - 1] as int);
      BigEndianOfUnsigned(front);
      assert front + [bs[n - 1]] == bs;
    }
  }

  /** Half of the range of an `n`-byte number: the first pattern whose top
      bit is set. */
  function Half(n: nat): (h: nat)
    requires n > 0
    ensures 2 * h == Pow256(n)
  {
    128 * Pow256(n - 1)
  }

  /** An `n`-byte pattern read as a two's-complement number (what `i2b`, a
      32-bit `ishl`/`ior`, or a 64-bit `lshl`/`lor` leaves in a Java `byte`,
      `int` or `long`). */
  function Signed(u: nat, n: nat): (v: int)
    requires n > 0 && u < Pow256(n)
    ensures -(Half(n) as int) <= v < Half(n)
    ensures v == u || v == u - Pow256(n)
  {
    if u < Half(n) then u else u - Pow256(n)
  }

  /** The pattern of a two's-complement number; the inverse of `Signed`. */
  function Pattern(v: int, n: nat): (u: nat)
    requires n > 0 && -(Half(n) as int) <= v < Half(n)
    ensures u < Pow256(n)
    ensures Signed(u, n) == v
  {
    if v < 0 then v + Pow256(n) else v
  }

  lemma PatternOfSigned(u: nat, n: nat)
    requires n > 0 && u < Pow256(n)
    ensures Pattern(Signed(u, n), n) == u
  {
  }

  /** One component's read, as the emitters and the `ByteBuffer` getters
      perform it. The names say the width read and the Java type produced. */
  datatype Reader =
    | LongBE        // 8 bytes into a `long`
    | UByteToLong   // 1 byte, zero-extended into a `long`
    | UShortToLong  // 2 bytes, zero-extended into a `long`
    | UIntToLong    // 4 bytes, zero-extended into a `long`
    | IntBE         // 4 bytes into an `int`
    | UByteToInt    // 1 byte, zero-extended into an `int`
    | UShortToInt   // 2 bytes, zero-extended into an `int`
    | ShortRaw      // 2 bytes, `(b0 << 8) | b1` with no narrowing to `short`
    | ShortBE       // 2 bytes into a `short` (`ByteBuffer.getShort`)
    | ByteBE        // 1 byte into a `byte`
    | DoubleBE      // 8 bytes, the bit pattern of a `double`
    | FloatBE       // 4 bytes, the bit pattern of a `float`
    | CharBE        // 2 bytes into a `char`

  /** The bytes one read consumes. */
  function Width(r: Reader): nat {
    match r
    case LongBE | DoubleBE => 8
    case IntBE | FloatBE | UIntToLong => 4
    case ShortRaw | ShortBE | CharBE | UShortToLong | UShortToInt => 2
    case ByteBE | UByteToLong | UByteToInt => 1
  }

  /** True for the reads whose result is the two's-complement reading of
      the bytes; the others zero-extend. */
  predicate IsSigned(r: Reader) {
    r == LongBE || r == IntBE || r == ShortBE || r == ByteBE
  }

  /** The Java type a decoded value has. */
  datatype Kind = JLong | JInt | JShort | JByte | JChar | JFloat | JDouble

  /** A decoded component value: its Java type and the number it holds.
      `float` and `double` values are held as their raw IEEE 754 bit
      patterns. */
  datatype Value = Value(kind: Kind, x: int)

  /** The Java type each read produces. */
  function KindOf(r: Reader): Kind {
    match r
    case LongBE | UByteToLong | UShortToLong | UIntToLong => JLong
    case IntBE | UByteToInt | UShortToInt => JInt
    case ShortRaw | ShortBE => JShort
    case ByteBE => JByte
    case CharBE => JChar
    case FloatBE => JFloat
    case DoubleBE => JDouble
  }

  /** The least number a read can produce. */
  function Lo(r: Reader): int {
    if IsSigned(r) then -(Half(Width(r)) as int) else 0
  }

  /** One more than the greatest number a read can produce. */
  function Hi(r: Reader): int {
    if IsSigned(r) then Half(Width(r)) else Pow256(Width(r))
  }

  /** True when `v` has the Java type `r` produces and lies in the range
      `r` can produce. */
  predicate Fits(r: Reader, v: Value) {
    v.kind == KindOf(r) && Lo(r) <= v.x < Hi(r)
  }

  lemma PowValues()
    ensures Pow256(1) == 0x100 && Pow256(2) == 0x1_0000
    ensures Pow256(4) == 0x1_0000_0000 && Pow256(8) == 0x1_0000_0000_0000_0000
    ensures Half(1) == 0x80 && Half(2) == 0x8000
    ensures Half(4) == 0x8000_0000 && Half(8) == 0x8000_0000_0000_0000
  {
  }

  /** The ranges of the zero-extending reads, written out: `@UnsignedByte`,
      `@UnsignedShort` and `@UnsignedInteger` reads give 0..255, 0..65535
      and 0..4294967295. */
  lemma UnsignedRanges(v: Value)
    ensures Fits(UByteToLong, v) <==> v.kind == JLong && 0 <= v.x <= 0xFF
    ensures Fits(UShortToLong, v) <==> v.kind == JLong && 0 <= v.x <= 0xFFFF
    ensures Fits(UIntToLong, v) <==> v.kind == JLong && 0 <= v.x <= 0xFFFF_FFFF
    ensures Fits(UByteToInt, v) <==> v.kind == JInt && 0 <= v.x <= 0xFF
    ensures Fits(UShortToInt, v) <==> v.kind == JInt && 0 <= v.x <= 0xFFFF
  {
    PowValues();
  }

  /** The raw `short` pattern and `char` are 0..65535. */
  lemma SixteenBitRanges(v: Value)
    ensures Fits(ShortRaw, v) <==> v.kind == JShort && 0 <= v.x <= 0xFFFF
    ensures Fits(CharBE, v) <==> v.kind == JChar && 0 <= v.x <= 0xFFFF
  {
    PowValues();
  }

  /** `float` and `double` bit patterns take all 32 and 64 bits. */
  lemma BitPatternRanges(v: Value)
    ensures Fits(FloatBE, v) <==> v.kind == JFloat && 0 <= v.x <= 0xFFFF_FFFF
    ensures Fits(DoubleBE, v) <==> v.kind == JDouble && 0 <= v.x <= 0xFFFF_FFFF_FFFF_FFFF
  {
    assert Pow256(4) == 0x1_0000_0000 && Pow256(8) == 0x1_0000_0000_0000_0000 by { PowValues(); }
    assert Lo(FloatBE) == 0 && Hi(FloatBE) == 0x1_0000_0000;
    assert Lo(DoubleBE) == 0 && Hi(DoubleBE) == 0x1_0000_0000_0000_0000;
  }

  /** The signed reads give the full two's-complement range of `long`,
      `int`, `short` and `byte`. */
  lemma SignedRanges(v: Value)
    ensures Fits(LongBE, v) <==> v.kind == JLong && -0x8000_0000_0000_0000 <= v.x <= 0x7FFF_FFFF_FFFF_FFFF
    ensures Fits(IntBE, v) <==> v.kind == JInt && -0x8000_0000 <= v.x <= 0x7FFF_FFFF
    ensures Fits(ShortBE, v) <==> v.kind == JShort && -0x8000 <= v.x <= 0x7FFF
    ensures Fits(ByteBE, v) <==> v.kind == JByte && -0x80 <= v.x <= 0x7F
  {
    PowValues();
  }

  /** The value `r` makes of the unsigned reading `u` of its bytes. */
  function Make(r: Reader, u: nat): (v: Value)
    requires u < Pow256(Width(r))
    ensures Fits(r, v)
  {
    Value(KindOf(r), if IsSigned(r) then Signed(u, Width(r)) else u)
  }

  /** The value one read produces from exactly `Width(r)` bytes: the
      big-endian number the bytes spell, read as two's complement by the
      signed reads and zero-extended by the others. */
  function Read(r: Reader, bs: seq<uint8>): (v: Value)
    requires |bs| == Width(r)
    ensures Fits(r, v)
  {
    Make(r, Unsigned(bs))
  }

  /** A read keeps the bytes' pattern: the zero-extending reads give the
      big-endian number itself, the signed reads give it or it minus
      `256^Width`, whichever lies in the type's range. */
  lemma ReadPattern(r: Reader, bs: seq<uint8>)
    requires |bs| == Width(r)
    ensures Read(r, bs).kind == KindOf(r)
    ensures Read(r, bs).x == Unsigned(bs) || Read(r, bs).x == Unsigned(bs) - Pow256(Width(r))
    ensures !IsSigned(r) ==> Read(r, bs).x == Unsigned(bs)
  {
  }

  /** The unsigned pattern of a value `r` can produce: the number whose
      bytes `r` turns into that value. */
  function PatternOf(r: Reader, v: Value): (u: nat)
    requires Fits(r, v)
    ensures u < Pow256(Width(r))
    ensures Make(r, u) == v
  {
    if IsSigned(r) then Pattern(v.x, Width(r)) else v.x
  }

  /** The bytes that read back as `v` under `r`: the big-endian encoding of
      its pattern. No encoder is part of this model; this is the reference
      the reads are checked against. */
  function Write(r: Reader, v: Value): (bs: seq<uint8>)
    requires Fits(r, v)
    ensures |bs| == Width(r)
  {
    BigEndian(PatternOf(r, v), Width(r))
  }

  /** Every value a read can produce is read back from its encoding. */
  lemma ReadWrite(r: Reader, v: Value)
    requires Fits(r, v)
    ensures Read(r, Write(r, v)) == v
  {
    UnsignedOfBigEndian(PatternOf(r, v), Width(r));
  }

  /** Reading is injective: re-encoding a read value gives back the bytes
      it was read from. */
  lemma WriteRead(r: Reader, bs: seq<uint8>)
    requires |bs| == Width(r)
    ensures Write(r, Read(r, bs)) == bs
  {
    var u := Unsigned(bs);
    if IsSigned(r) {
      PatternOfSigned(u, Width(r));
    }
    assert PatternOf(r, Read(r, bs)) == u;
    BigEndianOfUnsigned(bs);
  }

  /** Bytes all records of a field plan take together. */
  function TotalWidth(rs: seq<Reader>): nat {
    if rs == [] then 0 else Width(rs[0]) + TotalWidth(rs[1..])
  }

  lemma {:induction false} TotalWidthAppend(a: seq<Reader>, b: seq<Reader>)
    ensures TotalWidth(a + b) == TotalWidth(a) + TotalWidth(b)
    decreases |a|
  {
    if a == [] {
      assert a + b == b;
    } else {
      assert (a + b)[0] == a[0];
      assert (a + b)[1..] == a[1..] + b;
      TotalWidthAppend(a[1..], b);
    }
  }

  /** `vs` holds one value per read of `rs`, each one that read can
      produce. */
  predicate AllFit(rs: seq<Reader>, vs: seq<Value>) {
    |rs| == |vs| && (rs == [] || (Fits(rs[0], vs[0]) && AllFit(rs[1..], vs[1..])))
  }

  lemma {:induction false} AllFitAt(rs: seq<Reader>, vs: seq<Value>, k: nat)
    requires AllFit(rs, vs) && k < |rs|
    ensures Fits(rs[k], vs[k])
    decreases |rs|
  {
    if k > 0 {
      AllFitAt(rs[1..], vs[1..], k - 1);
    }
  }

  /** What the decoded components of a plan are, and how many bytes they
      took. */
  datatype Decoded = Decoded(values: seq<Value>, consumed: nat)

  /** The meaning of a generated decoder body: each component read in
      declaration order from where the previous one stopped. */
  function DecodeAll(rs: seq<Reader>, bs: seq<uint8>): (d: Decoded)
    requires TotalWidth(rs) <= |bs|
    ensures |d.values| == |rs|
    ensures d.consumed == TotalWidth(rs)
    ensures AllFit(rs, d.values)
  {
    if rs == [] then Decoded([], 0)
    else
      var w := Width(rs[0]);
      var rest := DecodeAll(rs[1..], bs[w..]);
      Decoded([Read(rs[0], bs[..w])] + rest.values, w + rest.consumed)
  }

  /** Where component `k` starts: the widths of the components before it. */
  function Offset(rs: seq<Reader>, k: nat): (o: nat)
    requires k < |rs|
    ensures o + Width(rs[k]) <= TotalWidth(rs)
  {
    if k == 0 then 0 else Width(rs[0]) + Offset(rs[1..], k - 1)
  }

  /** The bytes of component `k`: `Width(rs[k])` bytes from its offset. */
  function FieldBytes(rs: seq<Reader>, bs: seq<uint8>, k: nat): (f: seq<uint8>)
    requires TotalWidth(rs) <= |bs| && k < |rs|
    ensures |f| == Width(rs[k])
  {
    bs[Offset(rs, k)..Offset(rs, k) + Width(rs[k])]
  }

  lemma FieldBytesTail(rs: seq<Reader>, bs: seq<uint8>, k: nat)
    requires TotalWidth(rs) <= |bs| && 0 < k < |rs|
    ensures FieldBytes(rs, bs, k) == FieldBytes(rs[1..], bs[Width(rs[0])..], k - 1)
  {
    var w := Width(rs[0]);
    var o, n := Offset(rs[1..], k - 1), Width(rs[k]);
    assert Offset(rs, k) == w + o;
    calc {
      FieldBytes(rs, bs, k);
      bs[w + o..w + o + n];
      { DropSlice(bs, w, o, n); }
      bs[w..][o..o + n];
      { TailAt(rs, k); }
      FieldBytes(rs[1..], bs[w..], k - 1);
    }
  }

  /** Component `k` is the read of exactly its own bytes, which start after
      the bytes of every earlier component. */
  lemma {:induction false} DecodeAllAt(rs: seq<Reader>, bs: seq<uint8>, k: nat)
    requires TotalWidth(rs) <= |bs| && k < |rs|
    ensures DecodeAll(rs, bs).values[k] == Read(rs[k], FieldBytes(rs, bs, k))
    decreases |rs|
  {
    var w := Width(rs[0]);
    var tail := DecodeAll(rs[1..], bs[w..]).values;
    assert DecodeAll(rs, bs).values == [Read(rs[0], bs[..w])] + tail;
    if k == 0 {
      assert FieldBytes(rs, bs, 0) == bs[..w];
    } else {
      calc {
        DecodeAll(rs, bs).values[k];
        tail[k - 1];
        { DecodeAllAt(rs[1..], bs[w..], k - 1); }
        Read(rs[1..][k - 1], FieldBytes(rs[1..], bs[w..], k - 1));
        { TailAt(rs, k); FieldBytesTail(rs, bs, k); }
        Read(rs[k], FieldBytes(rs, bs, k));
      }
    }
  }

  /** Decoding reads only the first `TotalWidth` bytes: what follows them
      does not matter. */
  lemma {:induction false} DecodeAllPrefix(rs: seq<Reader>, bs: seq<uint8>, extra: seq<uint8>)
    requires TotalWidth(rs) <= |bs|
    ensures DecodeAll(rs, bs + extra) == DecodeAll(rs, bs)
    decreases |rs|
  {
    if rs != [] {
      var w := Width(rs[0]);
      assert (bs + extra)[..w] == bs[..w];
      assert (bs + extra)[w..] == bs[w..] + extra;
      DecodeAllPrefix(rs[1..], bs[w..], extra);
    }
  }

  /** The reference encoding of a whole record: each value's bytes in
      declaration order. */
  function WriteAll(rs: seq<Reader>, vs: seq<Value>): (bs: seq<uint8>)
    requires AllFit(rs, vs)
    ensures |bs| == TotalWidth(rs)
  {
    if rs == [] then [] else Write(rs[0], vs[0]) + WriteAll(rs[1..], vs[1..])
  }

  /** Decoding the reference encoding of any values a plan can produce
      gives those values back, consuming exactly the record's width. */
  lemma {:induction false} DecodeWriteAll(rs: seq<Reader>, vs: seq<Value>)
    requires AllFit(rs, vs)
    ensures DecodeAll(rs, WriteAll(rs, vs)) == Decoded(vs, TotalWidth(rs))
    decreases |rs|
  {
    if rs != [] {
      var head, rest := Write(rs[0], vs[0]), WriteAll(rs[1..], vs[1..]);
      var bs := head + rest;
      assert WriteAll(rs, vs) == bs;
      ConcatSlices(head, rest);
      var d := DecodeAll(rs, bs);
      assert d.values == [Read(rs[0], head)] + DecodeAll(rs[1..], rest).values;
      ReadWrite(rs[0], vs[0]);
      DecodeWriteAll(rs[1..], vs[1..]);
      assert [vs[0]] + vs[1..] == vs;
    }
  }

  /** Re-encoding what was decoded gives back exactly the bytes consumed. */
  lemma {:induction false} WriteDecodeAll(rs: seq<Reader>, bs: seq<uint8>)
    requires TotalWidth(rs) <= |bs|
    ensures WriteAll(rs, DecodeAll(rs, bs).values) == bs[..TotalWidth(rs)]
    decreases |rs|
  {
    if rs != [] {
      var w, t := Width(rs[0]), TotalWidth(rs[1..]);
      var head, rest := bs[..w], bs[w..];
      var v, tail := Read(rs[0], head), DecodeAll(rs[1..], rest).values;
      calc {
        WriteAll(rs, DecodeAll(rs, bs).values);
        WriteAll(rs, [v] + tail);
        { WriteAllCons(rs, [v] + tail); assert ([v] + tail)[1..] == tail; }
        Write(rs[0], v) + WriteAll(rs[1..], tail);
        { WriteRead(rs[0], head); WriteDecodeAll(rs[1..], rest); }
        head + rest[..t];
        { TakeSplit(bs, w, t); }
        bs[..w + t];
      }
    }
  }

  lemma WriteAllCons(rs: seq<Reader>, vs: seq<Value>)
    requires AllFit(rs, vs) && rs != []
    ensures WriteAll(rs, vs) == Write(rs[0], vs[0]) + WriteAll(rs[1..], vs[1..])
  {
  }

  /** One more read adds its width to the prefix's. */
  lemma TotalWidthSnoc(rs: seq<Reader>, k: nat)
    requires k < |rs|
    ensures TotalWidth(rs[..k + 1]) == TotalWidth(rs[..k]) + Width(rs[k])
  {
    TotalWidthAppend(rs[..k], [rs[k]]);
    assert rs[..k] + [rs[k]] == rs[..k + 1];
    assert [rs[k]][1..] == [];
  }

  /** A prefix of a plan reads no more than the whole plan. */
  lemma TotalWidthPrefix(rs: seq<Reader>, k: nat)
    requires k <= |rs|
    ensures TotalWidth(rs[..k]) <= TotalWidth(rs)
  {
    TotalWidthAppend(rs[..k], rs[k..]);
    assert rs[..k] + rs[k..] == rs;
  }

  /** Bytes read after other bytes shift the number those spell left by
      eight bits per byte. */
  lemma {:induction false} UnsignedAppend(a: seq<uint8>, b: seq<uint8>)
    ensures Unsigned(a + b) == Unsigned(a) * Pow256(|b|) + Unsigned(b)
    decreases |b|
  {
    if b == [] {
      assert a + b == a;
    } else {
      var n := |b| - 1;
      UnsignedAppend(a, b[..n]);
      assert a + b == (a + b[..n]) + [b[n]];
      assert b == b[..n] + [b[n]];
      UnsignedSnoc(a + b[..n], b[n]);
      UnsignedSnoc(b[..n], b[n]);
      ShiftByte(Unsigned(a), Pow256(n), Unsigned(b[..n]), b[n] as int);
    }
  }

  lemma ShiftByte(x: int, p: int, y: int, b: int)
    ensures (x * p + y) * 256 + b == x * (256 * p) + (y * 256 + b)
  {
  }

  /** The number one, two, four or eight bytes spell, written out: the
      shift-and-or of the bytes, most significant first. */
  lemma UnsignedOfBytes(bs: seq<uint8>)
    ensures |bs| == 1 ==> Unsigned(bs) == bs[0] as int
    ensures |bs| == 2 ==> Unsigned(bs) == bs[0] as int * 0x100 + bs[1] as int
    ensures |bs| == 4 ==> (Unsigned(bs) ==
      bs[0] as int * 0x100_0000 + bs[1] as int * 0x1_0000 + bs[2] as int * 0x100 + bs[3] as int)
    ensures |bs| == 8 ==> Unsigned(bs) == Unsigned(bs[..4]) * 0x1_0000_0000 + Unsigned(bs[4..])
  {
    if |bs| == 1 {
      UnsignedOne(bs);
    } else if |bs| == 2 {
      UnsignedTwo(bs);
    } else if |bs| == 4 {
      UnsignedFour(bs);
    } else if |bs| == 8 {
      PowValues();
      assert bs == bs[..4] + bs[4..];
      UnsignedAppend(bs[..4], bs[4..]);
    }
  }

  lemma UnsignedOne(bs: seq<uint8>)
    requires |bs| == 1
    ensures Unsigned(bs) == bs[0] as int
  {
    assert bs[..0] == [];
  }

  lemma UnsignedTwo(bs: seq<uint8>)
    requires |bs| == 2
    ensures Unsigned(bs) == bs[0] as int * 0x100 + bs[1] as int
  {
    UnsignedOne(bs[..1]);
  }

  lemma UnsignedFour(bs: seq<uint8>)
    requires |bs| == 4
    ensures Unsigned(bs) ==
      bs[0] as int * 0x100_0000 + bs[1] as int * 0x1_0000 + bs[2] as int * 0x100 + bs[3] as int
  {
    PowValues();
    assert bs == bs[..2] + bs[2..];
    UnsignedAppend(bs[..2], bs[2..]);
    UnsignedTwo(bs[..2]);
    UnsignedTwo(bs[2..]);
  }

  /** A plan of one read decodes to that read's value. */
  lemma DecodeOne(r: Reader, bs: seq<uint8>)
    requires |bs| == Width(r)
    ensures DecodeAll([r], bs).values == [Read(r, bs)]
  {
    assert [r][1..] == [] && bs[..Width(r)] == bs;
  }

  /** Decoding one more read whose bytes follow the bytes decoded so far
      appends that read's value. */
  lemma {:induction false} DecodeAllSnoc(p: seq<Reader>, r: Reader, b: seq<uint8>, f: seq<uint8>)
    requires TotalWidth(p) == |b| && |f| == Width(r)
    ensures TotalWidth(p + [r]) == |b + f|
    ensures DecodeAll(p + [r], b + f).values == DecodeAll(p, b).values + [Read(r, f)]
    decreases |p|, 1
  {
    TotalWidthAppend(p, [r]);
    assert [r][1..] == [];
    if p == [] {
      assert p + [r] == [r] && b + f == f && f[..Width(r)] == f;
    } else {
      DecodeAllSnocStep(p, r, b, f);
    }
  }

  lemma {:induction false} DecodeAllSnocStep(p: seq<Reader>, r: Reader, b: seq<uint8>, f: seq<uint8>)
    requires p != [] && TotalWidth(p) == |b| && |f| == Width(r)
    requires TotalWidth(p + [r]) == |b + f|
    ensures DecodeAll(p + [r], b + f).values == DecodeAll(p, b).values + [Read(r, f)]
    decreases |p|, 0
  {
    var w := Width(p[0]);
    AppendCons(p, [r]);
    AppendSplit(b, f, w);
    DecodeAllSnoc(p[1..], r, b[w..], f);
    DecodeAllCons(p + [r], b + f);
    DecodeAllCons(p, b);
  }

  /** `DecodeAll` reads the first component, then the rest from the bytes
      after it. */
  lemma DecodeAllCons(rs: seq<Reader>, bs: seq<uint8>)
    requires rs != [] && TotalWidth(rs) <= |bs|
    ensures DecodeAll(rs, bs).values ==
      [Read(rs[0], bs[..Width(rs[0])])] + DecodeAll(rs[1..], bs[Width(rs[0])..]).values
  {
  }

  /** Decoding one more read appends the value of the bytes that follow
      those of the reads before it. */
  lemma DecodeAllSnocAt(p: seq<Reader>, r: Reader, bs: seq<uint8>)
    requires TotalWidth(p) + Width(r) <= |bs|
    ensures TotalWidth(p + [r]) <= |bs|
    ensures DecodeAll(p + [r], bs).values ==
      DecodeAll(p, bs).values + [Read(r, bs[TotalWidth(p)..TotalWidth(p) + Width(r)])]
  {
    var t, w := TotalWidth(p), Width(r);
    PrefixSplit(bs, t, t + w);
    DecodeAllSnoc(p, r, bs[..t], bs[t..t + w]);
    TakeDrop(bs, t + w);
    DecodeAllPrefix(p + [r], bs[..t + w], bs[t + w..]);
    TakeDrop(bs, t);
    DecodeAllPrefix(p, bs[..t], bs[t..]);
  }

  /** `vs` are the values of the first `|vs|` reads of `rs`, decoded from
      the front of `bs`: the state of a decoder part-way through. */
  ghost predicate ReadPrefix(rs: seq<Reader>, bs: seq<uint8>, vs: seq<Value>) {
    && |vs| <= |rs|
    && TotalWidth(rs[..|vs|]) <= |bs|
    && vs == DecodeAll(rs[..|vs|], bs).values
  }

  /** Reading the next component from the bytes not yet read extends the
      prefix, and leaves the bytes after that component. */
  lemma ReadPrefixNext(rs: seq<Reader>, bs: seq<uint8>, vs: seq<Value>, rest: seq<uint8>)
    requires ReadPrefix(rs, bs, vs) && |vs| < |rs|
    requires rest == bs[TotalWidth(rs[..|vs|])..] && Width(rs[|vs|]) <= |rest|
    ensures ReadPrefix(rs, bs, vs + [Read(rs[|vs|], rest[..Width(rs[|vs|])])])
    ensures rest[Width(rs[|vs|])..] == bs[TotalWidth(rs[..|vs| + 1])..]
  {
    var off, w := TotalWidth(rs[..|vs|]), Width(rs[|vs|]);
    DropTake(bs, off, w);
    DropDrop(bs, off, w);
    TotalWidthSnoc(rs, |vs|);
    ReadPrefixSnoc(rs, bs, vs, rest[..w]);
  }

  /** Reading the next component's bytes extends the prefix. */
  lemma ReadPrefixSnoc(rs: seq<Reader>, bs: seq<uint8>, vs: seq<Value>, field: seq<uint8>)
    requires ReadPrefix(rs, bs, vs) && |vs| < |rs|
    requires TotalWidth(rs[..|vs|]) + Width(rs[|vs|]) <= |bs|
    requires field == bs[TotalWidth(rs[..|vs|])..TotalWidth(rs[..|vs|]) + Width(rs[|vs|])]
    ensures ReadPrefix(rs, bs, vs + [Read(rs[|vs|], field)])
  {
    var k := |vs|;
    assert |vs + [Read(rs[k], field)]| == k + 1;
    PrefixSnoc(rs, k);
    DecodeAllSnocAt(rs[..k], rs[k], bs);
  }

  /** A complete prefix is what `DecodeAll` yields. */
  lemma ReadPrefixAll(rs: seq<Reader>, bs: seq<uint8>, vs: seq<Value>)
    requires ReadPrefix(rs, bs, vs) && |vs| == |rs|
    ensures TotalWidth(rs) <= |bs| && DecodeAll(rs, bs).values == vs
  {
    assert rs[..|vs|] == rs;
  }
}
