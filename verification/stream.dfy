/**
 What a writer means: the bit stream it has been given since it was created.

 `Inv(w, s)` ties a writer state to the stream `s`: its first `idx` bytes
 are stored in `dst` (as long as the cursor has not run past the end), the
 remaining `fill` bits are the pending register bits, and the register is
 zero below them. Every operation is shown to extend the stream by exactly
 the bits the caller asked for, in the order the caller asked for.
 */
module Stream {
  import opened GoBits
  import opened BitOrder
  import opened IoBit

  predicate Inv(w: Writer, s: seq<bool>) {
    && Clean(w)
    && |s| == 8 * w.idx + w.fill
    && w.cache[..w.fill] == s[8 * w.idx..]
    && (w.idx <= |w.dst| ==> forall j :: 0 <= j < w.idx ==> w.dst[j] == s[8 * j..8 * j + 8])
  }

  /** The bits `e.PutUint32` appends for the low `bits` bits of `val`. */
  function FieldBits(e: Endian, bits: nat, val: bv32): (r: seq<bool>)
    requires bits <= 32
    ensures |r| == bits
  {
    match e
    case BigEndian => BeBits(Word32(val), bits)
    case LittleEndian => LeBits(Word32(val), bits)
  }

  /** The bits `e.PutUint64` appends for the low `bits` bits of `val`. */
  function Field64Bits(e: Endian, bits: nat, val: bv64): (r: seq<bool>)
    requires bits <= 64
    ensures |r| == bits
  {
    match e
    case BigEndian => BeBits(Word64(val), bits)
    case LittleEndian => LeBits(Word64(val), bits)
  }

  lemma NewWriterStream(dst: seq<Octet>)
    ensures Inv(NewWriter(dst), [])
  {
  }

  /** The drain step stores exactly the next four stream bytes, or runs the cursor past the end. */
  lemma SpillStream(w: Writer, s: seq<bool>)
    requires Inv(w, s) && w.fill >= 32
    ensures Inv(Spill(w), s)
  {
    var r := Spill(w);
    var k := w.idx;
    assert r.cache[..r.fill] == s[8 * r.idx..] by {
      assert w.cache[32..w.fill] == s[8 * k..][32..];
    }
    if r.idx <= |r.dst| {
      forall j | k <= j < k + 4
        ensures r.dst[j] == s[8 * j..8 * j + 8]
      {
        SpillByte(w, s, j - k, j);
      }
    }
  }

  /** Byte `q` of the drained word is stream byte `idx + q`. */
  lemma SpillByte(w: Writer, s: seq<bool>, q: nat, j: nat)
    requires Valid(w) && w.fill >= 32 && |s| == 8 * w.idx + w.fill && w.cache[..w.fill] == s[8 * w.idx..]
    requires q < 4 && j == w.idx + q && w.idx + 4 <= |w.dst|
    ensures Spill(w).dst[j] == s[8 * j..8 * j + 8]
  {
    var k := w.idx;
    assert Spill(w).dst[k + q] == w.cache[8 * q..8 * q + 8];
    calc {
      w.cache[8 * q..8 * q + 8];
      w.cache[..w.fill][8 * q..8 * q + 8];
      s[8 * k..][8 * q..8 * q + 8];
      s[8 * j..8 * j + 8];
    }
  }

  /** Inserting a word that fits in `bits` bits appends those bits to the stream. */
  lemma InsertStream(w: Writer, s: seq<bool>, u: Uint64, bits: nat)
    requires Inv(w, s) && Fits(u, bits) && w.fill + bits <= 64
    ensures Inv(Insert(w, u, bits), s + u[64 - bits..])
  {
    var r := Insert(w, u, bits);
    var t := s + u[64 - bits..];
    assert r.cache[..r.fill] == r.cache[..w.fill] + r.cache[w.fill..r.fill];
    assert t[8 * r.idx..] == s[8 * w.idx..] + u[64 - bits..];
    if r.idx <= |r.dst| {
      forall j | 0 <= j < r.idx
        ensures r.dst[j] == t[8 * j..8 * j + 8]
      {
        assert t[8 * j..8 * j + 8] == s[8 * j..8 * j + 8];
      }
    }
  }

  lemma MakeRoomStream(w: Writer, s: seq<bool>, bits: nat)
    requires Inv(w, s) && bits <= 32
    ensures Inv(MakeRoom(w, bits), s)
  {
    if w.fill + bits > 64 {
      SpillStream(w, s);
    }
  }

  /** `BigEndian.PutUint32` appends the low `bits` bits of `val`, most significant first. */
  lemma BigEndianPutUint32Stream(w: Writer, s: seq<bool>, bits: nat, val: bv32)
    requires Inv(w, s) && bits <= 32
    ensures Inv(BigEndianPutUint32(w, bits, val), s + BeBits(Word32(val), bits))
  {
    var u := ZeroExtend(Word32(val), 64);
    var w1 := MakeRoom(w, bits);
    MakeRoomStream(w, s, bits);
    assert MaskLow(u, bits)[64 - bits..] == BeBits(Word32(val), bits);
    InsertStream(w1, s, MaskLow(u, bits), bits);
  }

  /** `LittleEndian.PutUint32` appends the low `bits` bits of `val` in little-endian bit order. */
  lemma LittleEndianPutUint32Stream(w: Writer, s: seq<bool>, bits: nat, val: bv32)
    requires Inv(w, s) && bits <= 32
    ensures Inv(LittleEndianPutUint32(w, bits, val), s + LeBits(Word32(val), bits))
  {
    var w1 := MakeRoom(w, bits);
    MakeRoomStream(w, s, bits);
    InsertStream(w1, s, LittleEndianWord(bits, val), bits);
  }

  lemma PutUint32Stream(e: Endian, w: Writer, s: seq<bool>, bits: nat, val: bv32)
    requires Inv(w, s) && bits <= 32
    ensures Inv(PutUint32(e, w, bits, val), s + FieldBits(e, bits, val))
  {
    match e
    case BigEndian => BigEndianPutUint32Stream(w, s, bits, val);
    case LittleEndian => LittleEndianPutUint32Stream(w, s, bits, val);
  }

  /** Two consecutive `PutUint32`s append their two fields in call order. */
  lemma PutUint32TwiceStream(e: Endian, w: Writer, s: seq<bool>, bits1: nat, val1: bv32, bits2: nat, val2: bv32)
    requires Inv(w, s) && bits1 <= 32 && bits2 <= 32
    ensures Valid(PutUint32(e, w, bits1, val1))
    ensures Inv(PutUint32(e, PutUint32(e, w, bits1, val1), bits2, val2),
                s + FieldBits(e, bits1, val1) + FieldBits(e, bits2, val2))
  {
    PutUint32Stream(e, w, s, bits1, val1);
    PutUint32Stream(e, PutUint32(e, w, bits1, val1), s + FieldBits(e, bits1, val1), bits2, val2);
  }

  /** The high and low halves of a `uint64`, as `uint32(val >> 32)` and `uint32(val & 0xFFFFFFFF)`. */
  lemma Word64Halves(val: bv64, x: Uint64, hi: Uint32, lo: Uint32)
    requires x == Word64(val) && hi == Word32((val >> 32) as bv32) && lo == Word32((val & 0xFFFF_FFFF) as bv32)
    ensures x == hi + lo
  {
    assert x == x[..32] + x[32..];
  }

  lemma BeBitsConcat(hi: Uint32, lo: Uint32, bits: nat)
    requires bits <= 64
    ensures bits > 32 ==> BeBits(hi + lo, bits) == BeBits(hi, bits - 32) + BeBits(lo, 32)
    ensures bits <= 32 ==> BeBits(hi + lo, bits) == BeBits(lo, bits)
  {
  }

  lemma LeBitsConcat(hi: Uint32, lo: Uint32, bits: nat)
    requires bits <= 64
    ensures bits > 32 ==> LeBits(hi + lo, bits) == LeBits(lo, 32) + LeBits(hi, bits - 32)
    ensures bits <= 32 ==> LeBits(hi + lo, bits) == LeBits(lo, bits)
  {
    var x := hi + lo;
    if bits > 32 {
      LeBitsSplit32(x, bits);
      LeBitsLow(x, lo, 32);
      assert x[..|x| - 32] == hi;
    } else {
      assert x[64 - bits..] == lo[32 - bits..];
      LeBitsLow(x, lo, bits);
    }
  }

  /**
   The field of a `PutUint64` is the two fields of the `PutUint32`s it makes:
   high part then low word for big-endian, low word then high part for
   little-endian, and just the low word when `bits <= 32`.
   */
  lemma Field64Split(e: Endian, s: seq<bool>, bits: nat, val: bv64)
    requires bits <= 64
    ensures var hi, lo := (val >> 32) as bv32, (val & 0xFFFF_FFFF) as bv32;
            && (bits > 32 && e == BigEndian ==>
                  s + Field64Bits(e, bits, val) == s + FieldBits(e, bits - 32, hi) + FieldBits(e, 32, lo))
            && (bits > 32 && e == LittleEndian ==>
                  s + Field64Bits(e, bits, val) == s + FieldBits(e, 32, lo) + FieldBits(e, bits - 32, hi))
            && (bits <= 32 ==> Field64Bits(e, bits, val) == FieldBits(e, bits, lo))
  {
    var hi, lo := (val >> 32) as bv32, (val & 0xFFFF_FFFF) as bv32;
    var x, h, g := Word64(val), Word32(hi), Word32(lo);
    Word64Halves(val, x, h, g);
    match e
    case BigEndian =>
      BeBitsConcat(h, g, bits);
      if bits > 32 {
        AppendAssoc(s, BeBits(h, bits - 32), BeBits(g, 32));
      }
    case LittleEndian =>
      LeBitsConcat(h, g, bits);
      if bits > 32 {
        AppendAssoc(s, LeBits(g, 32), LeBits(h, bits - 32));
      }
  }

  lemma AppendAssoc(s: seq<bool>, a: seq<bool>, b: seq<bool>)
    ensures s + (a + b) == s + a + b
  {
  }

  lemma InvSame(w: Writer, s: seq<bool>, t: seq<bool>)
    requires Inv(w, s) && s == t
    ensures Inv(w, t)
  {
  }

  /** `e.PutUint64` appends the low `bits` bits of `val` in the byte order `e`. */
  lemma PutUint64Stream(e: Endian, w: Writer, s: seq<bool>, bits: nat, val: bv64)
    requires Inv(w, s) && bits <= 64
    ensures Inv(PutUint64(e, w, bits, val), s + Field64Bits(e, bits, val))
  {
    var hi, lo := (val >> 32) as bv32, (val & 0xFFFF_FFFF) as bv32;
    var r := PutUint64(e, w, bits, val);
    var t := if bits <= 32 then s + FieldBits(e, bits, lo)
             else if e == BigEndian then s + FieldBits(e, bits - 32, hi) + FieldBits(e, 32, lo)
             else s + FieldBits(e, 32, lo) + FieldBits(e, bits - 32, hi);
    assert Inv(r, t) by {
      PutUint64Reduces(e, w, bits, val);
      if bits <= 32 {
        PutUint32Stream(e, w, s, bits, lo);
      } else if e == BigEndian {
        PutUint32TwiceStream(e, w, s, bits - 32, hi, 32, lo);
      } else {
        PutUint32TwiceStream(e, w, s, 32, lo, bits - 32, hi);
      }
    }
    assert t == s + Field64Bits(e, bits, val) by { Field64Split(e, s, bits, val); }
    InvSame(r, t, s + Field64Bits(e, bits, val));
  }

  /** One iteration of the flush loop moves the next whole stream byte from the register to `dst`. */
  lemma DrainByteStream(w: Writer, s: seq<bool>)
    requires Inv(w, s) && w.fill >= 8 && w.idx < |w.dst|
    ensures Inv(DrainByte(w), s)
  {
    var r := DrainByte(w);
    assert r.cache[..r.fill] == w.cache[8..w.fill];
    assert w.cache[..8] == s[8 * w.idx..8 * w.idx + 8];
  }

  lemma {:induction false} FlushBytesStream(w: Writer, s: seq<bool>)
    requires Inv(w, s)
    ensures Inv(FlushBytes(w), s)
    decreases w.fill
  {
    if w.fill >= 8 && w.idx < |w.dst| {
      DrainByteStream(w, s);
      FlushBytesStream(DrainByte(w), s);
    }
  }

  /**
   `Flush` keeps the stream, and when it succeeds the first `|s|/8` bytes of
   `dst` are the whole stream.
   */
  lemma FlushStream(w: Writer, s: seq<bool>)
    requires Inv(w, s)
    ensures Inv(Flush(w).0, s)
    ensures Flush(w).1 == Ok ==> |s| % 8 == 0 && |s| <= 8 * |w.dst| && BytesToBits(Flush(w).0.dst[..|s| / 8]) == s
  {
    FlushBytesStream(w, s);
    var f := Flush(w).0;
    if Flush(w).1 == Ok {
      var d := f.dst[..f.idx];
      forall j | 0 <= j < |d|
        ensures d[j] == s[8 * j..8 * j + 8]
      {
      }
      BytesToBitsFrom(d, s);
    }
  }

  lemma AppendSlice<T>(s: seq<T>, t: seq<T>, a: nat, b: nat)
    requires a <= b <= |s| + |t|
    ensures b <= |s| ==> (s + t)[a..b] == s[a..b]
    ensures |s| <= a ==> (s + t)[a..b] == t[a - |s|..b - |s|]
  {
  }

  /** Bytes of `s` followed by the bytes of `p`, stored one after the other, are the bytes of the joint stream. */
  lemma StoredAppend(d: seq<Octet>, k: nat, s: seq<bool>, p: seq<Octet>)
    requires |s| == 8 * k && k + |p| <= |d|
    requires forall j :: 0 <= j < k ==> d[j] == s[8 * j..8 * j + 8]
    requires d[k..k + |p|] == p
    ensures forall j :: 0 <= j < k + |p| ==> d[j] == (s + BytesToBits(p))[8 * j..8 * j + 8]
  {
    forall j | 0 <= j < k + |p|
      ensures d[j] == (s + BytesToBits(p))[8 * j..8 * j + 8]
    {
      if j < k {
        AppendSlice(s, BytesToBits(p), 8 * j, 8 * j + 8);
      } else {
        StoredAppendAt(d, k, s, p, j);
      }
    }
  }

  lemma StoredAppendAt(d: seq<Octet>, k: nat, s: seq<bool>, p: seq<Octet>, j: nat)
    requires |s| == 8 * k && k <= j < k + |p| <= |d|
    requires d[k..k + |p|] == p
    ensures d[j] == (s + BytesToBits(p))[8 * j..8 * j + 8]
  {
    var q := j - k;
    var bs := BytesToBits(p);
    assert d[j] == p[q] by { SliceAt(d, k, p, q, j); }
    assert p[q] == bs[8 * q..8 * q + 8] by { BytesToBitsAt(p, q); }
    assert bs[8 * q..8 * q + 8] == (s + bs)[8 * j..8 * j + 8] by {
      AppendSliceAt(s, bs, 8 * j, 8 * j + 8, 8 * q, 8 * q + 8);
    }
  }

  lemma SliceAt<T>(d: seq<T>, k: nat, p: seq<T>, q: nat, i: nat)
    requires k + |p| <= |d| && q < |p| && d[k..k + |p|] == p && i == k + q
    ensures d[i] == p[q]
  {
    assert d[k..k + |p|][q] == d[i];
  }

  /** A slice of a concatenation lying wholly in its second part, by the positions it has there. */
  lemma AppendSliceAt<T>(s: seq<T>, t: seq<T>, a: nat, b: nat, c: nat, e: nat)
    requires |s| <= a <= b <= |s| + |t| && c == a - |s| && e == b - |s|
    ensures (s + t)[a..b] == t[c..e]
  {
  }

  /**
   After a successful flush, `Write(p)` appends the bytes of `p` to the
   stream, whether or not they fit in `dst`.
   */
  lemma WriteStream(w: Writer, s: seq<bool>, p: seq<Octet>)
    requires Inv(w, s) && Flush(w).1 == Ok
    ensures Inv(Write(w, p).0, s + BytesToBits(p))
  {
    var f := Flush(w).0;
    assert Inv(f, s) && f.fill == 0 by { FlushStream(w, s); }
    var c := CopyAt(f.dst, f.idx, p).0;
    assert Write(w, p).0 == f.(dst := c, idx := f.idx + |p|);
    assert f.idx + |p| <= |c| ==> c[f.idx..f.idx + |p|] == p by {
      if f.idx + |p| <= |c| && |p| > 0 {
        assert f.idx < |f.dst|;
      }
    }
    CopyStream(f, s, p, c, Write(w, p).0, s + BytesToBits(p));
  }

  /**
   With nothing pending, storing `p` at the cursor without disturbing the
   bytes before it, and moving the cursor past `p`, appends the bytes of `p`.
   */
  lemma CopyStream(f: Writer, s: seq<bool>, p: seq<Octet>, c: seq<Octet>, g: Writer, t: seq<bool>)
    requires Inv(f, s) && f.fill == 0 && |c| == |f.dst|
    requires f.idx + |p| <= |c| ==> c[f.idx..f.idx + |p|] == p
    requires forall j :: 0 <= j < f.idx && j < |c| ==> c[j] == f.dst[j]
    requires g == f.(dst := c, idx := f.idx + |p|) && t == s + BytesToBits(p)
    ensures Inv(g, t)
  {
    var k := f.idx;
    assert Clean(g) && |t| == 8 * g.idx + g.fill && g.cache[..g.fill] == t[8 * g.idx..] by {
      assert g.cache[..g.fill] == [] == t[8 * g.idx..];
    }
    assert g.idx <= |g.dst| ==> forall j :: 0 <= j < g.idx ==> g.dst[j] == t[8 * j..8 * j + 8] by {
      if k + |p| <= |c| {
        forall j | 0 <= j < k
          ensures c[j] == s[8 * j..8 * j + 8]
        {
          assert c[j] == f.dst[j];
        }
        StoredAppend(c, k, s, p);
      }
    }
  }

  /** The arguments of one `PutUint32` or `PutUint64` call. */
  datatype Field = Field32(bits: nat, val32: bv32) | Field64(bits: nat, val64: bv64)

  predicate Puttable(fs: seq<Field>) {
    forall i :: 0 <= i < |fs| ==> fs[i].bits <= if fs[i].Field32? then 32 else 64
  }

  function TotalBits(fs: seq<Field>): nat {
    if |fs| == 0 then 0 else fs[0].bits + TotalBits(fs[1..])
  }

  /** The bits one call appends. */
  function OneFieldBits(e: Endian, f: Field): (r: seq<bool>)
    requires f.bits <= if f.Field32? then 32 else 64
    ensures |r| == f.bits
  {
    match f
    case Field32(bits, val) => FieldBits(e, bits, val)
    case Field64(bits, val) => Field64Bits(e, bits, val)
  }

  /** The bits a sequence of calls appends, one field after another. */
  function FieldsBits(e: Endian, fs: seq<Field>): (r: seq<bool>)
    requires Puttable(fs)
    ensures |r| == TotalBits(fs)
  {
    if |fs| == 0 then [] else OneFieldBits(e, fs[0]) + FieldsBits(e, fs[1..])
  }

  /** One `e.PutUint32` or `e.PutUint64` call. */
  function PutOne(e: Endian, w: Writer, f: Field): (r: Writer)
    requires Valid(w) && f.bits <= if f.Field32? then 32 else 64
    ensures Valid(r) && Index(r) == Index(w) + f.bits && |r.dst| == |w.dst|
  {
    match f
    case Field32(bits, val) => PutUint32(e, w, bits, val)
    case Field64(bits, val) => PutUint64(e, w, bits, val)
  }

  /** The calls applied in turn, as the writer's callers make them. */
  function PutAll(e: Endian, w: Writer, fs: seq<Field>): (r: Writer)
    requires Valid(w) && Puttable(fs)
    ensures Valid(r) && Index(r) == Index(w) + TotalBits(fs) && |r.dst| == |w.dst|
    decreases |fs|
  {
    if |fs| == 0 then w
    else
      assert Puttable(fs[1..]) by {
        assert forall i :: 0 <= i < |fs| - 1 ==> fs[1..][i] == fs[i + 1];
      }
      PutAll(e, PutOne(e, w, fs[0]), fs[1..])
  }

  lemma PutOneStream(e: Endian, w: Writer, s: seq<bool>, f: Field)
    requires Inv(w, s) && f.bits <= if f.Field32? then 32 else 64
    ensures Inv(PutOne(e, w, f), s + OneFieldBits(e, f))
  {
    match f
    case Field32(bits, val) => PutUint32Stream(e, w, s, bits, val);
    case Field64(bits, val) => PutUint64Stream(e, w, s, bits, val);
  }

  lemma {:induction false} PutAllStream(e: Endian, w: Writer, s: seq<bool>, fs: seq<Field>)
    requires Inv(w, s) && Puttable(fs)
    ensures Inv(PutAll(e, w, fs), s + FieldsBits(e, fs))
    decreases |fs|
  {
    if |fs| == 0 {
      assert s + [] == s;
    } else {
      var f, rest := OneFieldBits(e, fs[0]), FieldsBits(e, fs[1..]);
      PutOneStream(e, w, s, fs[0]);
      PutAllStream(e, PutOne(e, w, fs[0]), s + f, fs[1..]);
      AppendAssoc(s, f, rest);
      assert FieldsBits(e, fs) == f + rest;
      InvSame(PutAll(e, w, fs), s + f + rest, s + FieldsBits(e, fs));
    }
  }

  /**
   Writing fields whose bits are exactly the bits of `src` into a fresh
   writer over a buffer of the same length, then flushing, succeeds and
   leaves a copy of `src` in the buffer.
   */
  lemma RoundTrip(e: Endian, dst: seq<Octet>, fs: seq<Field>, src: seq<Octet>)
    requires Puttable(fs) && FieldsBits(e, fs) == BytesToBits(src) && |src| == |dst|
    ensures var f := Flush(PutAll(e, NewWriter(dst), fs));
            f.1 == Ok && f.0.dst == src
  {
    var w := PutAll(e, NewWriter(dst), fs);
    var s := FieldsBits(e, fs);
    assert Flush(w).1 == Ok && BytesToBits(Flush(w).0.dst) == s by {
      PutAllFresh(e, dst, fs);
      FlushFull(w, s);
    }
    BytesToBitsInjective(Flush(w).0.dst, src);
  }

  /** A fresh writer given a sequence of fields holds exactly their bits. */
  lemma PutAllFresh(e: Endian, dst: seq<Octet>, fs: seq<Field>)
    requires Puttable(fs)
    ensures Inv(PutAll(e, NewWriter(dst), fs), FieldsBits(e, fs))
  {
    var s := FieldsBits(e, fs);
    NewWriterStream(dst);
    PutAllStream(e, NewWriter(dst), [], fs);
    AppendEmpty(s);
    InvSame(PutAll(e, NewWriter(dst), fs), [] + s, s);
  }

  /** A writer whose stream is exactly as long as its buffer flushes successfully and leaves the whole stream in it. */
  lemma FlushFull(w: Writer, s: seq<bool>)
    requires Inv(w, s) && |s| == 8 * |w.dst|
    ensures Flush(w).1 == Ok && BytesToBits(Flush(w).0.dst) == s
  {
    FlushStream(w, s);
    var d := Flush(w).0.dst;
    assert d[..|s| / 8] == d;
  }

  lemma AppendEmpty(s: seq<bool>)
    ensures [] + s == s
  {
  }

  /** After a successful flush the register is empty, so `Reset` starts a fresh stream over the same buffer. */
  lemma ResetAfterFlush(w: Writer, s: seq<bool>)
    requires Inv(w, s) && Flush(w).1 == Ok
    ensures Inv(Reset(Flush(w).0), [])
  {
    FlushStream(w, s);
    var f := Flush(w).0;
    assert forall i :: 0 <= i < 64 ==> !f.cache[i];
  }
}
