/**
 The bit-granular writer: a 64-bit left-justified shift register (`cache`)
 holding `fill` pending bits, draining into a caller-owned byte buffer
 (`dst`) of fixed length at byte cursor `idx`.

 Each Go method becomes a pure function from the writer state to the new
 state (plus the method's results). The two `PutUint32` variants share
 their drain step and their final OR-insertion; the Go code inlines both
 copies by hand, and `MakeRoom` and `Insert` are those copies written once.
 */
module IoBit {
  import opened GoBits
  import opened BitOrder

  /** Go's `error` results: nil, `ErrOverflow` and `ErrUnderflow`. */
  datatype Status = Ok | Overflow | Underflow

  datatype Option<T> = None | Some(value: T)

  datatype Writer = Writer(dst: seq<Octet>, cache: Uint64, fill: nat, idx: nat)

  /** The writer's standing invariant: the register never holds more than 64 pending bits. */
  predicate Valid(w: Writer) {
    w.fill <= 64
  }

  /** Every register bit below the `fill` pending bits is zero. */
  predicate Clean(w: Writer) {
    Valid(w) && forall i :: w.fill <= i < 64 ==> !w.cache[i]
  }

  /** The word `u` has no set bit above its low `bits` bits. */
  predicate Fits(u: seq<bool>, bits: nat) {
    bits <= |u| && forall i :: 0 <= i < |u| - bits ==> !u[i]
  }

  function NewWriter(dst: seq<Octet>): (w: Writer)
    ensures Clean(w) && w.dst == dst
    ensures Index(w) == 0 && Bits(w) == 8 * |dst|
  {
    Writer(dst, Zeros(64), 0, 0)
  }

  /**
   `byte(w.cache >> 56)`, ..., `byte(w.cache >> 32)`: the top four register
   bytes, most significant first.
   */
  function TopBytes(c: Uint64): (r: seq<Octet>)
    ensures |r| == 4
    ensures forall q :: 0 <= q < 4 ==> r[q] == c[8 * q..8 * q + 8]
  {
    var r := [Byte(Shr(c, 56)), Byte(Shr(c, 48)), Byte(Shr(c, 40)), Byte(Shr(c, 32))];
    assert r[0] == c[0..8] by { assert Shr(c, 56)[56..] == c[0..8]; }
    assert r[1] == c[8..16] by { assert Shr(c, 48)[56..] == c[8..16]; }
    assert r[2] == c[16..24] by { assert Shr(c, 40)[56..] == c[16..24]; }
    assert r[3] == c[24..32] by { assert Shr(c, 32)[56..] == c[24..32]; }
    r
  }

  /** `dst` with `dst[idx..idx+4)` replaced by `b`, or `dst` unchanged when that range is out of bounds. */
  function Store4(dst: seq<Octet>, idx: nat, b: seq<Octet>): (r: seq<Octet>)
    requires |b| == 4
    ensures |r| == |dst|
    ensures idx + 4 <= |dst| ==> forall q :: 0 <= q < 4 ==> r[idx + q] == b[q]
    ensures forall j :: 0 <= j < |dst| && !(idx <= j < idx + 4) ==> r[j] == dst[j]
    ensures idx + 4 > |dst| ==> r == dst
  {
    if idx + 4 <= |dst| then dst[..idx] + b + dst[idx + 4..] else dst
  }

  /**
   The drain step of both `PutUint32`s: the top 32 register bits go to
   `dst[idx..idx+4)` when that range is inside `dst` and are discarded
   otherwise; either way the cursor advances by 4 and the register by 32 bits.
   */
  function Spill(w: Writer): (r: Writer)
    requires Valid(w) && w.fill >= 32
    ensures Valid(r) && r.fill == w.fill - 32 && r.idx == w.idx + 4 && r.cache[..r.fill] == w.cache[32..w.fill]
    ensures && |r.dst| == |w.dst|
            && (w.idx + 4 <= |w.dst| ==> forall q :: 0 <= q < 4 ==> r.dst[w.idx + q] == w.cache[8 * q..8 * q + 8])
            && (forall j :: 0 <= j < |w.dst| && !(w.idx <= j < w.idx + 4) ==> r.dst[j] == w.dst[j])
    ensures w.idx + 4 > |w.dst| ==> r.dst == w.dst
    ensures Clean(w) ==> Clean(r)
  {
    var top := TopBytes(w.cache);
    var drained := Writer(Store4(w.dst, w.idx, top), Shl(w.cache, 32), w.fill - 32, w.idx + 4);
    assert drained.cache[..drained.fill] == w.cache[32..w.fill];
    drained
  }

  /** `if w.fill+bits > 64 { <drain> }`, shared by both `PutUint32`s. */
  function MakeRoom(w: Writer, bits: nat): (r: Writer)
    requires Valid(w) && bits <= 32
    ensures Valid(r) && r.fill + bits <= 64
    ensures (r.idx == w.idx + 4) <==> w.fill + bits > 64
    ensures w.fill + bits > 64 ==> w.fill > 32 && r == Spill(w)
    ensures w.fill + bits <= 64 ==> r == w
  {
    if w.fill + bits > 64 then Spill(w) else w
  }

  /**
   The insertion step shared by both `PutUint32`s (writer.go:47-49): the
   word, which fits in `bits` bits, is shifted up to sit directly below the
   pending bits and ORed into the register, which then holds `bits` more.
   */
  function Insert(w: Writer, u: Uint64, bits: nat): (r: Writer)
    requires w.fill + bits <= 64
    ensures Valid(r) && r.dst == w.dst && r.idx == w.idx && r.fill == w.fill + bits
    ensures Clean(w) && Fits(u, bits) ==>
              && Clean(r) && r.fill == w.fill + bits
              && r.cache[..w.fill] == w.cache[..w.fill]
              && r.cache[w.fill..r.fill] == u[64 - bits..]
  {
    var shifted := Shl(u, 64 - w.fill - bits);
    Writer(w.dst, Or(w.cache, shifted), w.fill + bits, w.idx)
  }

  /** `u &= ^(^uint64(0) << bits)`: keeps the low `bits` bits. */
  function MaskLow(u: Uint64, bits: nat): (r: Uint64)
    requires bits <= 64
    ensures Fits(r, bits) && r[64 - bits..] == u[64 - bits..]
  {
    And(u, Not(Shl(Ones(64), bits)))
  }

  /** `bigEndian.PutUint32`: appends the low `bits` bits of `val`, most significant first. */
  function BigEndianPutUint32(w: Writer, bits: nat, val: bv32): (r: Writer)
    requires Valid(w) && bits <= 32
    ensures Valid(r) && Index(r) == Index(w) + bits
    ensures |r.dst| == |w.dst|
    ensures (r.idx == w.idx + 4) <==> w.fill + bits > 64
    ensures w.fill + bits > 64 ==> w.fill > 32
    ensures w.fill + bits <= 64 ==> r.idx == w.idx && r.dst == w.dst
    ensures forall j :: 0 <= j < |w.dst| && !(w.idx <= j < w.idx + 4) ==> r.dst[j] == w.dst[j]
    ensures w.idx + 4 > |w.dst| ==> r.dst == w.dst
    ensures Clean(w) ==> Clean(r)
  {
    var u := ZeroExtend(Word32(val), 64);
    var w1 := MakeRoom(w, bits);
    Insert(w1, MaskLow(u, bits), bits)
  }

  /**
   The arithmetic of the little-endian `PutUint32` on the byte-swapped value
   `v` (writer.go:55-72): the byte holding the trailing partial byte is
   shifted to the bottom and cut to its low `bits & 7` bits; the whole bytes
   are shifted down to end just above it, with those low bits cleared; the
   two pieces are added.
   */
  function LittleEndianArith(v: Uint32, bits: nat): (r: Uint32)
    requires bits <= 32
  {
    var left, right := bits % 8, bits - bits % 8;  // bits&7 and bits&0xF8 for bits <= 32
    var sub := Shr(v, UintSub(24, right));
    var mask := Shl(Ones(32), left);
    var sub' := And(sub, Not(mask));
    var v' := And(Shr(v, UintSub(32, bits)), mask);
    Add(v', sub')
  }

  /**
   The recombination is right: the whole swapped bytes moved down and the
   partial byte below them add up to the field's bits in little-endian
   order, right-aligned in the 32-bit word.
   */
  lemma LeRecombine(x: Uint32, bits: nat)
    requires bits <= 32
    ensures LittleEndianArith(Bswap32(x), bits) == Zeros(32 - bits) + LeBits(x, bits)
  {
    var v := Bswap32(x);
    var k, l := bits / 8, bits % 8;
    var right := bits - l;
    assert right == 8 * k && bits == 8 * k + l;
    var mask := Shl(Ones(32), l);
    var sub' := And(Shr(v, UintSub(24, right)), Not(mask));
    var v' := And(Shr(v, UintSub(32, bits)), mask);
    var n, p, t := 32 - bits, v[..right], PartialBits(v, k, l);
    assert v' == Zeros(n) + p + Zeros(l) by { WholeBytes(v, k, l, right, bits); }
    assert sub' == Zeros(32 - l) + t by { PartialByte(v, k, l, right); }
    assert Add(Zeros(n) + p + Zeros(l), Zeros(32 - l) + t) == Zeros(n) + (p + t) by {
      AddPieces(n, p, t, l, 32 - l);
    }
    assert p + t == LeBits(x, bits) by { LeBitsOfSwap(x, k, l, right, bits); }
  }

  /** The value the little-endian `PutUint32` adds, before widening: the field right-aligned above zeros. */
  function LittleEndianValue(bits: nat, val: bv32): (r: Uint32)
    requires bits <= 32
    ensures r == Zeros(32 - bits) + LeBits(Word32(val), bits)
  {
    LeRecombine(Word32(val), bits);
    LittleEndianArith(Bswap32(Word32(val)), bits)
  }

  /** Widening a word that is zero above its low field keeps the field and the zeros. */
  lemma WidenField(x: seq<bool>, f: seq<bool>)
    requires |x| <= 64 && |f| <= |x| && x == Zeros(|x| - |f|) + f
    ensures Fits(ZeroExtend(x, 64), |f|) && ZeroExtend(x, 64)[64 - |f|..] == f
  {
    var r := ZeroExtend(x, 64);
    assert r == Zeros(64 - |x|) + Zeros(|x| - |f|) + f;
  }

  /** The word the little-endian `PutUint32` ORs into the register: `uint64(val + sub)`. */
  function LittleEndianWord(bits: nat, val: bv32): (r: Uint64)
    requires bits <= 32
    ensures Fits(r, bits)
    ensures r[64 - bits..] == LeBits(Word32(val), bits)
  {
    var x := LittleEndianValue(bits, val);
    WidenField(x, LeBits(Word32(val), bits));
    ZeroExtend(x, 64)
  }

  /** `littleEndian.PutUint32`: appends the low `bits` bits of `val` in little-endian bit order. */
  function LittleEndianPutUint32(w: Writer, bits: nat, val: bv32): (r: Writer)
    requires Valid(w) && bits <= 32
    ensures Valid(r) && Index(r) == Index(w) + bits
    ensures |r.dst| == |w.dst|
    ensures (r.idx == w.idx + 4) <==> w.fill + bits > 64
    ensures w.fill + bits > 64 ==> w.fill > 32
    ensures w.fill + bits <= 64 ==> r.idx == w.idx && r.dst == w.dst
    ensures forall j :: 0 <= j < |w.dst| && !(w.idx <= j < w.idx + 4) ==> r.dst[j] == w.dst[j]
    ensures w.idx + 4 > |w.dst| ==> r.dst == w.dst
    ensures Clean(w) ==> Clean(r)
  {
    var w1 := MakeRoom(w, bits);
    Insert(w1, LittleEndianWord(bits, val), bits)
  }

  /** `bigEndian.PutUint64`: the high `bits-32` bits first, then the low 32 bits. */
  function BigEndianPutUint64(w: Writer, bits: nat, val: bv64): (r: Writer)
    requires Valid(w) && bits <= 64
    ensures Valid(r) && Index(r) == Index(w) + bits && |r.dst| == |w.dst|
    ensures Clean(w) ==> Clean(r)
  {
    if bits > 32 then
      var w1 := BigEndianPutUint32(w, bits - 32, (val >> 32) as bv32);
      BigEndianPutUint32(w1, 32, (val & 0xFFFF_FFFF) as bv32)
    else
      BigEndianPutUint32(w, bits, (val & 0xFFFF_FFFF) as bv32)
  }

  /** `littleEndian.PutUint64`: the low 32 bits first, then the high `bits-32` bits. */
  function LittleEndianPutUint64(w: Writer, bits: nat, val: bv64): (r: Writer)
    requires Valid(w) && bits <= 64
    ensures Valid(r) && Index(r) == Index(w) + bits && |r.dst| == |w.dst|
    ensures Clean(w) ==> Clean(r)
  {
    if bits > 32 then
      var w1 := LittleEndianPutUint32(w, 32, (val & 0xFFFF_FFFF) as bv32);
      LittleEndianPutUint32(w1, bits - 32, (val >> 32) as bv32)
    else
      LittleEndianPutUint32(w, bits, (val & 0xFFFF_FFFF) as bv32)
  }

  /** One iteration of the `Flush` loop: the top register byte goes to `dst[idx]`. */
  function DrainByte(w: Writer): (r: Writer)
    requires Valid(w) && w.fill >= 8 && w.idx < |w.dst|
    ensures Valid(r) && r.fill == w.fill - 8 && r.idx == w.idx + 1 && |r.dst| == |w.dst|
    ensures r.dst[w.idx] == w.cache[..8]
    ensures forall j :: 0 <= j < |w.dst| && j != w.idx ==> r.dst[j] == w.dst[j]
    ensures r.cache == Shl(w.cache, 8)
    ensures Clean(w) ==> Clean(r)
  {
    var b := Byte(Shr(w.cache, 56));
    assert b == w.cache[..8] by { assert Shr(w.cache, 56)[56..] == w.cache[..8]; }
    Writer(w.dst[w.idx := b], Shl(w.cache, 8), w.fill - 8, w.idx + 1)
  }

  /** The two byte orders, Go's `BigEndian` and `LittleEndian` values. */
  datatype Endian = BigEndian | LittleEndian

  /** `e.PutUint32(w, bits, val)`. */
  function PutUint32(e: Endian, w: Writer, bits: nat, val: bv32): (r: Writer)
    requires Valid(w) && bits <= 32
    ensures Valid(r) && Index(r) == Index(w) + bits && |r.dst| == |w.dst|
    ensures Clean(w) ==> Clean(r)
  {
    match e
    case BigEndian => BigEndianPutUint32(w, bits, val)
    case LittleEndian => LittleEndianPutUint32(w, bits, val)
  }

  /** `e.PutUint64(w, bits, val)`. */
  function PutUint64(e: Endian, w: Writer, bits: nat, val: bv64): (r: Writer)
    requires Valid(w) && bits <= 64
    ensures Valid(r) && Index(r) == Index(w) + bits && |r.dst| == |w.dst|
    ensures Clean(w) ==> Clean(r)
  {
    match e
    case BigEndian => BigEndianPutUint64(w, bits, val)
    case LittleEndian => LittleEndianPutUint64(w, bits, val)
  }

  /** Two words that are zero above their low `bits` bits and agree on those bits are equal. */
  lemma FitsEqual(u: seq<bool>, v: seq<bool>, bits: nat)
    requires |u| == |v| && Fits(u, bits) && Fits(v, bits)
    requires u[|u| - bits..] == v[|v| - bits..]
    ensures u == v
  {
    forall i | 0 <= i < |u|
      ensures u[i] == v[i]
    {
      if i >= |u| - bits {
        assert u[i] == u[|u| - bits..][i - (|u| - bits)];
      }
    }
  }

  /** A put ignores every bit of `val` above its low `bits` bits. */
  lemma PutUint32LowBits(e: Endian, w: Writer, bits: nat, a: bv32, b: bv32)
    requires Valid(w) && bits <= 32
    requires Word32(a)[32 - bits..] == Word32(b)[32 - bits..]
    ensures PutUint32(e, w, bits, a) == PutUint32(e, w, bits, b)
  {
    match e
    case BigEndian =>
      BigEndianWordLowBits(bits, Word32(a), Word32(b));
    case LittleEndian =>
      LittleEndianWordLowBits(bits, a, b);
  }

  lemma LittleEndianWordLowBits(bits: nat, a: bv32, b: bv32)
    requires bits <= 32 && Word32(a)[32 - bits..] == Word32(b)[32 - bits..]
    ensures LittleEndianWord(bits, a) == LittleEndianWord(bits, b)
  {
    var x, y := LittleEndianWord(bits, a), LittleEndianWord(bits, b);
    assert x[64 - bits..] == y[64 - bits..] by { LeBitsLow(Word32(a), Word32(b), bits); }
    FitsEqual(x, y, bits);
  }

  lemma BigEndianWordLowBits(bits: nat, x: Uint32, y: Uint32)
    requires bits <= 32 && x[32 - bits..] == y[32 - bits..]
    ensures MaskLow(ZeroExtend(x, 64), bits) == MaskLow(ZeroExtend(y, 64), bits)
  {
    var u, v := ZeroExtend(x, 64), ZeroExtend(y, 64);
    assert u[64 - bits..] == x[32 - bits..];
    assert v[64 - bits..] == y[32 - bits..];
    FitsEqual(MaskLow(u, bits), MaskLow(v, bits), bits);
  }

  /**
   A 64-bit put is one or two 32-bit puts of the same byte order: for more
   than 32 bits, the high part and then the low word in big-endian order,
   the low word and then the high part in little-endian order.
   */
  lemma PutUint64Reduces(e: Endian, w: Writer, bits: nat, val: bv64)
    requires Valid(w) && bits <= 64
    ensures var hi, lo := (val >> 32) as bv32, (val & 0xFFFF_FFFF) as bv32;
            && (bits <= 32 ==> PutUint64(e, w, bits, val) == PutUint32(e, w, bits, lo))
            && (bits > 32 && e == BigEndian ==>
                  PutUint64(e, w, bits, val) == PutUint32(e, PutUint32(e, w, bits - 32, hi), 32, lo))
            && (bits > 32 && e == LittleEndian ==>
                  PutUint64(e, w, bits, val) == PutUint32(e, PutUint32(e, w, 32, lo), bits - 32, hi))
  {
  }

  /**
   The loop of `Flush`: while at least a byte is pending and the cursor is
   inside `dst`, the top register byte goes to `dst[idx]`. On exit either
   fewer than eight bits are pending or the cursor has reached the end.
   */
  function FlushBytes(w: Writer): (r: Writer)
    requires Valid(w)
    ensures Valid(r) && Index(r) == Index(w) && |r.dst| == |w.dst|
    ensures r.fill < 8 || r.idx >= |r.dst|
    ensures w.idx <= r.idx && (r.idx > w.idx ==> r.idx <= |w.dst|)
    ensures Clean(w) ==> Clean(r)
    decreases w.fill
  {
    if w.fill >= 8 && w.idx < |w.dst| then FlushBytes(DrainByte(w)) else w
  }

  /** The loop only stores into `dst[idx..]` at positions it passes: every other byte is left as it was. */
  lemma {:induction false} FlushBytesFrame(w: Writer)
    requires Valid(w)
    ensures var r := FlushBytes(w);
            forall j :: 0 <= j < |w.dst| && !(w.idx <= j < r.idx) ==> r.dst[j] == w.dst[j]
    decreases w.fill
  {
    if w.fill >= 8 && w.idx < |w.dst| {
      FlushBytesFrame(DrainByte(w));
    }
  }

  /**
   `Flush`: drains whole bytes, then reports Overflow when `idx + fill`
   exceeds `len(dst)` (a byte count compared with a bit count, as written),
   Underflow when bits remain pending, and success otherwise.
   */
  function Flush(w: Writer): (r: (Writer, Status))
    requires Valid(w)
    ensures Valid(r.0) && Index(r.0) == Index(w) && |r.0.dst| == |w.dst|
    ensures r.1 == Ok <==> Index(w) % 8 == 0 && Index(w) <= 8 * |w.dst|
    ensures r.1 == Overflow <==> Index(w) / 8 + Index(w) % 8 > |w.dst|
    ensures r.1 == Ok ==> r.0.fill == 0 && r.0.idx == Index(w) / 8
    ensures Clean(w) ==> Clean(r.0)
  {
    var d := FlushBytes(w);
    if d.idx + d.fill > |d.dst| then (d, Overflow)
    else if d.fill != 0 then (d, Underflow)
    else (d, Ok)
  }

  /** A second `Flush` with no write in between changes nothing and reports the same result. */
  lemma FlushIdempotent(w: Writer)
    requires Valid(w)
    ensures Flush(Flush(w).0) == Flush(w)
  {
    var d := Flush(w).0;
    assert FlushBytes(d) == d;
  }

  /**
   `copy(dst[idx:], p)` when `idx < len(dst)`, and no copy otherwise: the
   bytes copied and the count, which is the shorter of `p` and the room left.
   */
  function CopyAt(dst: seq<Octet>, idx: nat, p: seq<Octet>): (r: (seq<Octet>, nat))
    ensures && |r.0| == |dst|
            && r.1 == (if idx < |dst| then Imin(|p|, |dst| - idx) else 0)
            && (idx < |dst| ==> r.0[idx..idx + r.1] == p[..r.1])
            && (forall j :: 0 <= j < |dst| && !(idx <= j < idx + r.1) ==> r.0[j] == dst[j])
  {
    if idx < |dst| then
      var n := Imin(|p|, |dst| - idx);
      (dst[..idx] + p[..n] + dst[idx + n..], n)
    else (dst, 0)
  }

  /**
   `Write(p)`: flushes; on a flush error returns it with nothing copied.
   Otherwise copies as much of `p` as fits at the cursor, advances the cursor
   by all of `len(p)`, and reports Overflow when the copy was cut short.
   */
  function Write(w: Writer, p: seq<Octet>): (r: (Writer, int, Status))
    requires Valid(w)
    ensures Valid(r.0) && |r.0.dst| == |w.dst|
    ensures Flush(w).1 != Ok ==> r == (Flush(w).0, 0, Flush(w).1)
    ensures Flush(w).1 == Ok ==>
              var start := Index(w) / 8;
              && r.1 == Imin(|p|, |w.dst| - start)
              && Index(r.0) == Index(w) + 8 * |p| && r.0.fill == 0
              && (r.2 == Ok <==> start + |p| <= |w.dst|)
              && (r.2 != Ok ==> r.2 == Overflow)
              && |r.0.dst| == |w.dst|
              && r.0.dst[start..start + r.1] == p[..r.1]
              && (forall j :: 0 <= j < |w.dst| && !(start <= j < start + r.1) ==> r.0.dst[j] == Flush(w).0.dst[j])
  {
    var (f, err) := Flush(w);
    if err != Ok then (f, 0, err)
    else
      var (dst, n) := CopyAt(f.dst, f.idx, p);
      (f.(dst := dst, idx := f.idx + |p|), n, if n != |p| then Overflow else Ok)
  }

  /** `Index()`: bits produced so far, drained or pending. */
  function Index(w: Writer): int {
    w.idx * 8 + w.fill
  }

  function Imin(a: int, b: int): (r: int)
    ensures r <= a && r <= b && (r == a || r == b)
  {
    if a > b then b else a
  }

  /** `Bits()`: the capacity of `dst` left after the current position, in bits. */
  function Bits(w: Writer): (r: int)
    ensures 0 <= r <= 8 * |w.dst|
    ensures Index(w) <= 8 * |w.dst| ==> r + Index(w) == 8 * |w.dst|
    ensures Index(w) >= 8 * |w.dst| ==> r == 0
  {
    var size := |w.dst|;
    size * 8 - Imin(w.idx * 8 + w.fill, size * 8)
  }

  /**
   `Bytes()` as written: `dst[skip:last]` with `last = len(dst) - skip`.
   `None` stands for the Go run-time panic of a slice whose low bound
   exceeds its high bound.
   */
  function Bytes(w: Writer): (r: Option<seq<Octet>>)
    ensures var skip := Imin(w.idx + w.fill / 8, |w.dst|);
            && (r.None? <==> 0 < |w.dst| - skip < skip)
            && (r.Some? && skip < |w.dst| ==> |r.value| == |w.dst| - 2 * skip && r.value == w.dst[skip..|w.dst| - skip])
            && (skip == |w.dst| ==> r == Some([]))
  {
    var skip := Imin(w.idx + w.fill / 8, |w.dst|);
    var last := |w.dst| - skip;
    if last == 0 then Some(w.dst[0..0])
    else if skip <= last then Some(w.dst[skip..last])
    else None
  }

  /** `Reset()`: rewinds the cursor and forgets pending bits; `dst` and `cache` are left as they are. */
  function Reset(w: Writer): (r: Writer)
    ensures Valid(r) && Index(r) == 0 && Bits(r) == 8 * |w.dst|
    ensures r.dst == w.dst && r.cache == w.cache
  {
    w.(fill := 0, idx := 0)
  }
}
