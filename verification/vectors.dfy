/**
 The concrete examples the package's tests check, stated as lemmas about the
 model: each fixes the calls the test makes and proves the buffer contents,
 positions and errors the test expects. Buffers that the tests allocate
 zeroed are left arbitrary here, since every byte of them is overwritten.
 */
module Vectors {
  import opened GoBits
  import opened BitOrder
  import opened IoBit
  import opened Stream

  /** A byte slice literal such as `[]uint8{0x01, 0x23}`. */
  function Hex(bs: seq<bv8>): (r: seq<Octet>)
    ensures |r| == |bs|
    ensures forall i :: 0 <= i < |bs| ==> r[i] == ByteBits(bs[i])
  {
    seq(|bs|, i requires 0 <= i < |bs| => ByteBits(bs[i]))
  }

  lemma BytesToBits4(a: Octet, b: Octet, c: Octet, d: Octet)
    ensures BytesToBits([a, b, c, d]) == a + b + c + d
  {
    assert [a, b, c, d][1..] == [b, c, d];
    assert [b, c, d][1..] == [c, d];
    assert [c, d][1..] == [d];
    assert [d][1..] == [];
    assert BytesToBits([d]) == d + [] == d;
    assert BytesToBits([c, d]) == c + d;
    assert BytesToBits([b, c, d]) == b + (c + d);
    assert BytesToBits([a, b, c, d]) == a + (b + (c + d));
  }

  lemma Slices4(a: Octet, b: Octet, c: Octet, d: Octet)
    ensures var v := a + b + c + d;
            v[..8] == a && v[8..16] == b && v[16..24] == c && v[24..] == d
  {
  }

  /** A `uint32` is its four bytes, most significant first. */
  lemma Word32Bytes(x: bv32)
    ensures Word32(x) == BytesToBits([ByteBits((x >> 24) as bv8), ByteBits(((x >> 16) & 0xFF) as bv8),
                                      ByteBits(((x >> 8) & 0xFF) as bv8), ByteBits((x & 0xFF) as bv8)])
  {
    BytesToBits4(ByteBits((x >> 24) as bv8), ByteBits(((x >> 16) & 0xFF) as bv8),
                 ByteBits(((x >> 8) & 0xFF) as bv8), ByteBits((x & 0xFF) as bv8));
  }

  /** The 32-bit little-endian field of a `uint32` is its four bytes, least significant first. */
  lemma LeWord32Bytes(x: bv32)
    ensures LeBits(Word32(x), 32) == BytesToBits([ByteBits((x & 0xFF) as bv8), ByteBits(((x >> 8) & 0xFF) as bv8),
                                                  ByteBits(((x >> 16) & 0xFF) as bv8), ByteBits((x >> 24) as bv8)])
  {
    var a: Octet, b: Octet, c: Octet, d: Octet := ByteBits((x >> 24) as bv8), ByteBits(((x >> 16) & 0xFF) as bv8),
                      ByteBits(((x >> 8) & 0xFF) as bv8), ByteBits((x & 0xFF) as bv8);
    SwapBytes(a, b, c, d);
    BytesToBits4(d, c, b, a);
  }

  lemma SwapBytes(a: Octet, b: Octet, c: Octet, d: Octet)
    ensures LeBits(a + b + c + d, 32) == d + c + b + a
  {
    var v: Uint32 := a + b + c + d;
    LeBitsOfSwap(v, 4, 0, 32, 32);
    Slices4(a, b, c, d);
    assert Bswap32(v) == d + c + b + a;
    assert Bswap32(v)[..32] + [] == Bswap32(v);
  }

  /** A writer whose stream is the stream of `src`, over a buffer as long as `src`, flushes `src` into the buffer. */
  lemma FlushesTo(w: Writer, s: seq<bool>, src: seq<Octet>)
    requires Inv(w, s) && s == BytesToBits(src) && |src| == |w.dst|
    ensures Flush(w).1 == Ok && Flush(w).0.dst == src
  {
    FlushFull(w, s);
    BytesToBitsInjective(Flush(w).0.dst, src);
  }

  /** The 64 bits of a `uint64` are its eight bytes, most significant first. */
  lemma Word64Bytes(x: bv64, hi: bv32, lo: bv32)
    requires hi == (x >> 32) as bv32 && lo == (x & 0xFFFF_FFFF) as bv32
    ensures Word64(x) == BytesToBits(
              [ByteBits((hi >> 24) as bv8), ByteBits(((hi >> 16) & 0xFF) as bv8),
               ByteBits(((hi >> 8) & 0xFF) as bv8), ByteBits((hi & 0xFF) as bv8)] +
              [ByteBits((lo >> 24) as bv8), ByteBits(((lo >> 16) & 0xFF) as bv8),
               ByteBits(((lo >> 8) & 0xFF) as bv8), ByteBits((lo & 0xFF) as bv8)])
  {
    Word32Bytes(hi);
    Word32Bytes(lo);
    BytesToBitsAppend(
      [ByteBits((hi >> 24) as bv8), ByteBits(((hi >> 16) & 0xFF) as bv8),
       ByteBits(((hi >> 8) & 0xFF) as bv8), ByteBits((hi & 0xFF) as bv8)],
      [ByteBits((lo >> 24) as bv8), ByteBits(((lo >> 16) & 0xFF) as bv8),
       ByteBits(((lo >> 8) & 0xFF) as bv8), ByteBits((lo & 0xFF) as bv8)]);
  }

  /** A fresh writer given one `PutUint64` holds exactly that field. */
  lemma FreshPut64(e: Endian, dst: seq<Octet>, bits: nat, val: bv64)
    requires bits <= 64
    ensures Inv(PutUint64(e, NewWriter(dst), bits, val), Field64Bits(e, bits, val))
  {
    var s := Field64Bits(e, bits, val);
    NewWriterStream(dst);
    PutUint64Stream(e, NewWriter(dst), [], bits, val);
    AppendEmpty(s);
    InvSame(PutUint64(e, NewWriter(dst), bits, val), [] + s, s);
  }

  lemma BigEndianBytes64()
    ensures Field64Bits(BigEndian, 64, 0x0123456789ABCDEF) == BytesToBits(Hex([0x01, 0x23, 0x45, 0x67, 0x89, 0xAB, 0xCD, 0xEF]))
  {
    var x := Word64(0x0123456789ABCDEF);
    assert Field64Bits(BigEndian, 64, 0x0123456789ABCDEF) == x[0..] == x;
    Word64Bytes(0x0123456789ABCDEF, 0x01234567, 0x89ABCDEF);
    assert Hex([0x01, 0x23, 0x45, 0x67, 0x89, 0xAB, 0xCD, 0xEF]) ==
           [ByteBits(0x01), ByteBits(0x23), ByteBits(0x45), ByteBits(0x67)] +
           [ByteBits(0x89), ByteBits(0xAB), ByteBits(0xCD), ByteBits(0xEF)];
  }

  /** `TestBigEndianWrite`: all 64 bits of 0x0123456789ABCDEF, big-endian, fill eight bytes most significant first. */
  lemma BigEndianWrite64(dst: seq<Octet>)
    requires |dst| == 8
    ensures var f := Flush(PutUint64(BigEndian, NewWriter(dst), 64, 0x0123456789ABCDEF));
            f.1 == Ok && f.0.dst == Hex([0x01, 0x23, 0x45, 0x67, 0x89, 0xAB, 0xCD, 0xEF])
  {
    FreshPut64(BigEndian, dst, 64, 0x0123456789ABCDEF);
    BigEndianBytes64();
    FlushesTo(PutUint64(BigEndian, NewWriter(dst), 64, 0x0123456789ABCDEF),
              Field64Bits(BigEndian, 64, 0x0123456789ABCDEF), Hex([0x01, 0x23, 0x45, 0x67, 0x89, 0xAB, 0xCD, 0xEF]));
  }

  lemma LittleEndianBytes64()
    ensures Field64Bits(LittleEndian, 64, 0x0123456789ABCDEF) == BytesToBits(Hex([0xEF, 0xCD, 0xAB, 0x89, 0x67, 0x45, 0x23, 0x01]))
  {
    var x, h, g := Word64(0x0123456789ABCDEF), Word32(0x01234567), Word32(0x89ABCDEF);
    Word64Halves(0x0123456789ABCDEF, x, h, g);
    LeBitsConcat(h, g, 64);
    LeWord32Bytes(0x89ABCDEF);
    LeWord32Bytes(0x01234567);
    var lo, hi := [ByteBits(0xEF), ByteBits(0xCD), ByteBits(0xAB), ByteBits(0x89)],
                  [ByteBits(0x67), ByteBits(0x45), ByteBits(0x23), ByteBits(0x01)];
    BytesToBitsAppend(lo, hi);
    assert Hex([0xEF, 0xCD, 0xAB, 0x89, 0x67, 0x45, 0x23, 0x01]) == lo + hi;
  }

  /** `TestLittleEndianWrite`: all 64 bits of 0x0123456789ABCDEF, little-endian, fill eight bytes least significant first. */
  lemma LittleEndianWrite64(dst: seq<Octet>)
    requires |dst| == 8
    ensures var f := Flush(PutUint64(LittleEndian, NewWriter(dst), 64, 0x0123456789ABCDEF));
            f.1 == Ok && f.0.dst == Hex([0xEF, 0xCD, 0xAB, 0x89, 0x67, 0x45, 0x23, 0x01])
  {
    FreshPut64(LittleEndian, dst, 64, 0x0123456789ABCDEF);
    LittleEndianBytes64();
    FlushesTo(PutUint64(LittleEndian, NewWriter(dst), 64, 0x0123456789ABCDEF),
              Field64Bits(LittleEndian, 64, 0x0123456789ABCDEF), Hex([0xEF, 0xCD, 0xAB, 0x89, 0x67, 0x45, 0x23, 0x01]));
  }

  /** The stream of five bytes: the first four, then the last. */
  lemma BytesToBits5(a: Octet, b: Octet, c: Octet, d: Octet, e: Octet)
    ensures BytesToBits([a, b, c, d, e]) == a + b + c + d + e
  {
    BytesToBits4(a, b, c, d);
    BytesToBitsAppend([a, b, c, d], [e]);
    assert [a, b, c, d] + [e] == [a, b, c, d, e];
    assert BytesToBits([e]) == e + [] == e;
  }

  lemma SmallBytes()
    ensures ByteBits(0x00) == Zeros(8)
    ensures ByteBits(0x01) == Zeros(7) + [true]
    ensures ByteBits(0x80) == [true] + Zeros(7)
  {
  }

  lemma BigEndianBytes33()
    ensures Field64Bits(BigEndian, 33, 0xFFFFFFFE00000001) + FieldBits(BigEndian, 7, 0) == BytesToBits(Hex([0x00, 0x00, 0x00, 0x00, 0x80]))
  {
    var x, h, g := Word64(0xFFFFFFFE00000001), Word32(0xFFFFFFFE), Word32(0x00000001);
    Word64Halves(0xFFFFFFFE00000001, x, h, g);
    BeBitsConcat(h, g, 33);
    Word32Bytes(0x00000001);
    BytesToBits4(ByteBits(0x00), ByteBits(0x00), ByteBits(0x00), ByteBits(0x01));
    assert h[31..] == h[24..][7..] == [false];
    var z := Word32(0);
    assert z[25..] == z[24..][1..] == ByteBits(0)[1..];
    BytesToBits5(ByteBits(0x00), ByteBits(0x00), ByteBits(0x00), ByteBits(0x00), ByteBits(0x80));
    assert Hex([0x00, 0x00, 0x00, 0x00, 0x80]) == [ByteBits(0x00), ByteBits(0x00), ByteBits(0x00), ByteBits(0x00), ByteBits(0x80)];
    SmallBytes();
    BitAt32();
  }

  /** The two ways the 33-bit example stream splits into pieces give the same 40 bits. */
  lemma BitAt32()
    ensures [false] + (Zeros(8) + Zeros(8) + Zeros(8) + (Zeros(7) + [true])) + Zeros(8)[1..]
         == Zeros(8) + Zeros(8) + Zeros(8) + Zeros(8) + ([true] + Zeros(7))
  {
    var a := [false] + (Zeros(8) + Zeros(8) + Zeros(8) + (Zeros(7) + [true])) + Zeros(8)[1..];
    var b := Zeros(8) + Zeros(8) + Zeros(8) + Zeros(8) + ([true] + Zeros(7));
    assert forall i :: 0 <= i < 40 ==> a[i] == (i == 32) == b[i];
  }

  lemma LittleEndianField33()
    ensures Field64Bits(LittleEndian, 33, 0xFFFFFFFE00000001) == ByteBits(0x01) + ByteBits(0x00) + ByteBits(0x00) + ByteBits(0x00) + [false]
  {
    var x, h, g := Word64(0xFFFFFFFE00000001), Word32(0xFFFFFFFE), Word32(0x00000001);
    Word64Halves(0xFFFFFFFE00000001, x, h, g);
    LeBitsConcat(h, g, 33);
    LeWord32Bytes(0x00000001);
    BytesToBits4(ByteBits(0x01), ByteBits(0x00), ByteBits(0x00), ByteBits(0x00));
    assert h[31..] == h[24..][7..] == [false];
  }

  lemma LittleEndianBytes33()
    ensures Field64Bits(LittleEndian, 33, 0xFFFFFFFE00000001) + FieldBits(LittleEndian, 7, 0) == BytesToBits(Hex([0x01, 0x00, 0x00, 0x00, 0x00]))
  {
    var b0, b1 := ByteBits(0x00), ByteBits(0x01);
    LittleEndianField33();
    var z := Word32(0);
    assert FieldBits(LittleEndian, 7, 0) == z[25..] == z[24..][1..] == b0[1..];
    SmallBytes();
    assert [false] + b0[1..] == b0;
    AppendAssoc(b1 + b0 + b0 + b0, [false], b0[1..]);
    BytesToBits5(b1, b0, b0, b0, b0);
    assert Hex([0x01, 0x00, 0x00, 0x00, 0x00]) == [b1, b0, b0, b0, b0];
  }

  /** `TestSmall64BigEndianWrite`: 33 bits of 0xFFFFFFFE00000001 then 7 zero bits, big-endian, into five bytes. */
  lemma BigEndianWrite33(dst: seq<Octet>)
    requires |dst| == 5
    ensures var w := PutUint32(BigEndian, PutUint64(BigEndian, NewWriter(dst), 33, 0xFFFFFFFE00000001), 7, 0);
            Flush(w).1 == Ok && Flush(w).0.dst == Hex([0x00, 0x00, 0x00, 0x00, 0x80])
  {
    var w1 := PutUint64(BigEndian, NewWriter(dst), 33, 0xFFFFFFFE00000001);
    var s1 := Field64Bits(BigEndian, 33, 0xFFFFFFFE00000001);
    FreshPut64(BigEndian, dst, 33, 0xFFFFFFFE00000001);
    PutUint32Stream(BigEndian, w1, s1, 7, 0);
    BigEndianBytes33();
    FlushesTo(PutUint32(BigEndian, w1, 7, 0), s1 + FieldBits(BigEndian, 7, 0), Hex([0x00, 0x00, 0x00, 0x00, 0x80]));
  }

  /** `TestSmall64LittleEndianWrite`: 33 bits of 0xFFFFFFFE00000001 then 7 zero bits, little-endian, into five bytes. */
  lemma LittleEndianWrite33(dst: seq<Octet>)
    requires |dst| == 5
    ensures var w := PutUint32(LittleEndian, PutUint64(LittleEndian, NewWriter(dst), 33, 0xFFFFFFFE00000001), 7, 0);
            Flush(w).1 == Ok && Flush(w).0.dst == Hex([0x01, 0x00, 0x00, 0x00, 0x00])
  {
    var w1 := PutUint64(LittleEndian, NewWriter(dst), 33, 0xFFFFFFFE00000001);
    var s1 := Field64Bits(LittleEndian, 33, 0xFFFFFFFE00000001);
    FreshPut64(LittleEndian, dst, 33, 0xFFFFFFFE00000001);
    PutUint32Stream(LittleEndian, w1, s1, 7, 0);
    LittleEndianBytes33();
    FlushesTo(PutUint32(LittleEndian, w1, 7, 0), s1 + FieldBits(LittleEndian, 7, 0), Hex([0x01, 0x00, 0x00, 0x00, 0x00]));
  }

  /** `TestFlushErrors`: 9, 16 and 17 bits into a two-byte buffer flush to Underflow, success and Overflow. */
  lemma FlushErrors(buf: seq<Octet>)
    requires |buf| == 2
    ensures Flush(PutUint32(BigEndian, NewWriter(buf), 9, 0)).1 == Underflow
    ensures Flush(PutUint32(BigEndian, NewWriter(buf), 16, 0)).1 == Ok
    ensures Flush(PutUint32(BigEndian, NewWriter(buf), 17, 0)).1 == Overflow
  {
  }

  /** The four fields of `TestWriteHelpers`, 0, 1, five 0s and 1, are the byte 0x41. */
  lemma HelperBits()
    ensures [] + FieldBits(BigEndian, 1, 0) + FieldBits(BigEndian, 1, 1) + FieldBits(BigEndian, 5, 0) + FieldBits(BigEndian, 1, 1)
         == BytesToBits(Hex([0x41]))
  {
    var z, o := Word32(0), Word32(1);
    assert z[31..] == z[24..][7..] && z[27..] == z[24..][3..];
    assert o[31..] == o[24..][7..];
    assert Hex([0x41]) == [ByteBits(0x41)];
    assert BytesToBits([ByteBits(0x41)]) == ByteBits(0x41) + [];
  }

  /**
   `TestWriteHelpers`: a one-byte buffer takes bits 0, 1, 00000, 1 and
   flushes 0x41 with the position and capacity the test expects; one more
   bit leaves no room, and the next flush overflows.
   */
  lemma WriteHelpers(buf: seq<Octet>)
    requires |buf| == 1
    ensures var w0 := NewWriter(buf);
            var w1 := PutUint32(BigEndian, w0, 1, 0);
            var w4 := PutUint32(BigEndian, PutUint32(BigEndian, PutUint32(BigEndian, w1, 1, 1), 5, 0), 1, 1);
            var f := Flush(w4);
            var w5 := PutUint32(BigEndian, f.0, 1, 0);
            && Bits(w0) == 8
            && Index(w1) == 1 && Bits(w1) == 7
            && f.1 == Ok && f.0.dst == Hex([0x41])
            && Index(f.0) == 8 && Bits(f.0) == 0 && Bytes(f.0) == Some([])
            && Index(w5) == 9 && Bits(w5) == 0 && Bytes(w5) == Some([])
            && Flush(w5).1 == Overflow
  {
    var w0 := NewWriter(buf);
    var w1 := PutUint32(BigEndian, w0, 1, 0);
    var w2 := PutUint32(BigEndian, w1, 1, 1);
    var w3 := PutUint32(BigEndian, w2, 5, 0);
    var w4 := PutUint32(BigEndian, w3, 1, 1);
    var a, b, c, d := FieldBits(BigEndian, 1, 0), FieldBits(BigEndian, 1, 1), FieldBits(BigEndian, 5, 0), FieldBits(BigEndian, 1, 1);
    assert Inv(w4, [] + a + b + c + d) by {
      NewWriterStream(buf);
      PutUint32Stream(BigEndian, w0, [], 1, 0);
      PutUint32Stream(BigEndian, w1, [] + a, 1, 1);
      PutUint32Stream(BigEndian, w2, [] + a + b, 5, 0);
      PutUint32Stream(BigEndian, w3, [] + a + b + c, 1, 1);
    }
    HelperBits();
    FlushesTo(w4, [] + a + b + c + d, Hex([0x41]));
  }
}
