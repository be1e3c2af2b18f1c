/**
 Three places where the writer as written departs from what the code
 evidently intends. Each comes in two halves: a lemma that exhibits the
 discrepancy on the as-written model, and a corrected definition with the
 intended property proved about it.
 */
module Departures {
  import opened GoBits
  import opened BitOrder
  import opened IoBit
  import opened Stream
  import opened Vectors

  // ---------------------------------------------------------------------
  // Flush compares a byte cursor with a bit count.
  // ---------------------------------------------------------------------

  /**
   `Flush` with the overflow test on bytes: Overflow when the pending bits
   need more bytes than remain after the cursor, `idx + ceil(fill/8) > len(dst)`.
   It reports Overflow exactly when more bits were written than `dst` holds,
   and Underflow exactly when they fit but do not end on a byte boundary.
   */
  function FlushIntended(w: Writer): (r: (Writer, Status))
    requires Valid(w)
    ensures r.0 == Flush(w).0
    ensures r.1 == Overflow <==> Index(w) > 8 * |w.dst|
    ensures r.1 == Underflow <==> Index(w) <= 8 * |w.dst| && Index(w) % 8 != 0
    ensures r.1 == Ok <==> Flush(w).1 == Ok
  {
    var d := FlushBytes(w);
    if d.idx + (d.fill + 7) / 8 > |d.dst| then (d, Overflow)
    else if d.fill != 0 then (d, Underflow)
    else (d, Ok)
  }

  /**
   The two flushes disagree only where the as-written one reports Overflow
   for bits that fit, which the intended one reports as Underflow; in
   particular an as-written Underflow or success is always right.
   */
  lemma FlushDisagreement(w: Writer)
    requires Valid(w)
    ensures Flush(w).1 != FlushIntended(w).1 ==> Flush(w).1 == Overflow && FlushIntended(w).1 == Underflow
    ensures FlushIntended(w).1 == Overflow ==> Flush(w).1 == Overflow
  {
  }

  /** Fifteen bits fit in a two-byte buffer, yet `Flush` reports Overflow rather than Underflow. */
  lemma FlushFifteenBits(buf: seq<Octet>)
    requires |buf| == 2
    ensures var w := PutUint32(BigEndian, NewWriter(buf), 15, 0);
            && Index(w) <= 8 * |buf|
            && Flush(w).1 == Overflow
            && FlushIntended(w).1 == Underflow
  {
  }

  // ---------------------------------------------------------------------
  // Bytes() ends its window at len(dst) - skip instead of len(dst).
  // ---------------------------------------------------------------------

  /**
   The part of `dst` not yet covered by whole written bytes,
   `dst[skip:]`: the bytes that still have at least one bit of capacity,
   so that its length is `Bits()` rounded up to whole bytes.
   */
  function UnwrittenTail(w: Writer): (r: seq<Octet>)
    ensures var skip := Imin(w.idx + w.fill / 8, |w.dst|);
            && |r| == |w.dst| - skip
            && w.dst == w.dst[..skip] + r
    ensures |r| == (Bits(w) + 7) / 8
  {
    var skip := Imin(w.idx + w.fill / 8, |w.dst|);
    w.dst[skip..]
  }

  /**
   `Bytes()` as written yields the unwritten tail exactly when nothing or
   everything has been written; whenever the cursor is strictly inside
   `dst` it either panics or returns a window that is too short.
   */
  lemma BytesWindow(w: Writer)
    ensures var skip := Imin(w.idx + w.fill / 8, |w.dst|);
            Bytes(w) == Some(UnwrittenTail(w)) <==> skip == 0 || skip == |w.dst|
  {
    var skip := Imin(w.idx + w.fill / 8, |w.dst|);
    if skip == 0 {
      assert w.dst[0..|w.dst|] == w.dst[0..];
    }
  }

  /**
   Sixteen bits into a three-byte buffer, flushed, leave the cursor at byte
   2: `Bytes()` slices `dst[2:1]`, which panics, while one byte is unwritten.
   */
  lemma BytesPanics(buf: seq<Octet>)
    requires |buf| == 3
    ensures var f := Flush(PutUint32(BigEndian, NewWriter(buf), 16, 0));
            && f.1 == Ok
            && Bytes(f.0) == None
            && |UnwrittenTail(f.0)| == 1
  {
  }

  // ---------------------------------------------------------------------
  // Reset() leaves stale pending bits in the register.
  // ---------------------------------------------------------------------

  /** `Reset` that also clears the register: a fresh writer over the same buffer. */
  function ResetClean(w: Writer): (r: Writer)
    ensures r == NewWriter(w.dst)
    ensures Inv(r, [])
  {
    w.(cache := Zeros(64), fill := 0, idx := 0)
  }

  /**
   The as-written `Reset` starts a fresh stream exactly when the register
   is already empty; any bit left set in it is later ORed into output.
   */
  lemma ResetFresh(w: Writer)
    ensures Inv(Reset(w), []) <==> forall i :: 0 <= i < 64 ==> !w.cache[i]
  {
  }

  /**
   One set bit, a `Reset`, then eight zero bits into a one-byte buffer:
   as written the flushed byte is 0x80, the stale bit ORed into the new
   ones; with the register cleared it is 0x00.
   */
  lemma ResetLeaksBits(buf: seq<Octet>)
    requires |buf| == 1
    ensures var w := PutUint32(BigEndian, Reset(PutUint32(BigEndian, NewWriter(buf), 1, 1)), 8, 0);
            Flush(w).1 == Ok && Flush(w).0.dst == Hex([0x80])
    ensures var w := PutUint32(BigEndian, ResetClean(PutUint32(BigEndian, NewWriter(buf), 1, 1)), 8, 0);
            Flush(w).1 == Ok && Flush(w).0.dst == Hex([0x00])
  {
    var w1 := PutUint32(BigEndian, NewWriter(buf), 1, 1);
    assert w1.cache[..8] == [true] + Zeros(7) by {
      NewWriterStream(buf);
      PutUint32Stream(BigEndian, NewWriter(buf), [], 1, 1);
      var o := Word32(1);
      assert FieldBits(BigEndian, 1, 1) == o[31..] == o[24..][7..] == [true];
    }
    StaleByte(w1);
    SmallBytes();
    assert Hex([0x80]) == [[true] + Zeros(7)];
    CleanStart(buf, w1);
  }

  /** Eight zero bits after a `Reset` leave the register as it was, so the flushed byte is its top byte. */
  lemma StaleByte(w: Writer)
    requires Valid(w) && |w.dst| == 1
    ensures var v := PutUint32(BigEndian, Reset(w), 8, 0);
            Flush(v).1 == Ok && Flush(v).0.dst == [w.cache[..8]]
  {
    var r := Reset(w);
    var u := ZeroExtend(Word32(0), 64);
    assert Word32(0) == Zeros(32) by { SmallBytes(); }
    assert forall i :: 0 <= i < 64 ==> !MaskLow(u, 8)[i];
    var v := PutUint32(BigEndian, r, 8, 0);
    assert v == r.(fill := 8) by {
      assert v.cache == Or(r.cache, Shl(MaskLow(u, 8), 56));
    }
    assert FlushBytes(v) == DrainByte(v);
  }

  /** With the register cleared, eight zero bits flush to 0x00. */
  lemma CleanStart(buf: seq<Octet>, w: Writer)
    requires |buf| == 1 && w.dst == buf && Valid(w)
    ensures var v := PutUint32(BigEndian, ResetClean(w), 8, 0);
            Flush(v).1 == Ok && Flush(v).0.dst == Hex([0x00])
  {
    var z := Word32(0);
    PutUint32Stream(BigEndian, ResetClean(w), [], 8, 0);
    assert [] + FieldBits(BigEndian, 8, 0) == z[24..] == ByteBits(0x00);
    assert Hex([0x00]) == [ByteBits(0x00)];
    assert BytesToBits([ByteBits(0x00)]) == ByteBits(0x00) + [];
    FlushesTo(PutUint32(BigEndian, ResetClean(w), 8, 0), [] + FieldBits(BigEndian, 8, 0), Hex([0x00]));
  }
}
