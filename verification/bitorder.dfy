/**
 Reference definitions of the two bit orders the writer produces, stated
 directly on bit sequences and independent of the register arithmetic the
 writer uses to produce them.
 */
module BitOrder {
  import opened GoBits

  /** The bits of a byte sequence in stream order: bytes in order, each most significant bit first. */
  function BytesToBits(d: seq<Octet>): (r: seq<bool>)
    ensures |r| == 8 * |d|
    decreases |d|
  {
    if |d| == 0 then [] else d[0] + BytesToBits(d[1..])
  }

  /**
   Big-endian order of an n-bit field: the low n bits of the word, most
   significant first.
   */
  function BeBits(x: seq<bool>, n: nat): (r: seq<bool>)
    requires n <= |x|
    ensures |r| == n
  {
    x[|x| - n..]
  }

  /**
   Little-endian order of an n-bit field: the low n bits of the word taken a
   byte at a time starting from the least significant byte, each byte most
   significant bit first; a final partial byte contributes its low bits.
   */
  function LeBits(x: seq<bool>, n: nat): (r: seq<bool>)
    requires n <= |x|
    ensures |r| == n
    decreases n
  {
    if n <= 8 then x[|x| - n..]
    else x[|x| - 8..] + LeBits(x[..|x| - 8], n - 8)
  }

  lemma {:induction false} BytesToBitsAt(d: seq<Octet>, j: nat)
    requires j < |d|
    ensures BytesToBits(d)[8 * j..8 * j + 8] == d[j]
    decreases j
  {
    if j > 0 {
      BytesToBitsAt(d[1..], j - 1);
      assert BytesToBits(d)[8 * j..8 * j + 8] == BytesToBits(d[1..])[8 * (j - 1)..8 * (j - 1) + 8];
    }
  }

  /** A bit sequence that agrees with `d` byte by byte is the stream of `d`. */
  lemma {:induction false} BytesToBitsFrom(d: seq<Octet>, t: seq<bool>)
    requires |t| == 8 * |d|
    requires forall j :: 0 <= j < |d| ==> d[j] == t[8 * j..8 * j + 8]
    ensures BytesToBits(d) == t
    decreases |d|
  {
    if |d| > 0 {
      forall j | 0 <= j < |d| - 1
        ensures d[1..][j] == t[8..][8 * j..8 * j + 8]
      {
        assert d[1..][j] == d[j + 1];
        assert t[8..][8 * j..8 * j + 8] == t[8 * (j + 1)..8 * (j + 1) + 8];
      }
      BytesToBitsFrom(d[1..], t[8..]);
      assert d[0] == t[..8];
      assert t == t[..8] + t[8..];
    }
  }

  /** The stream of two byte sequences one after the other is their two streams one after the other. */
  lemma {:induction false} BytesToBitsAppend(a: seq<Octet>, b: seq<Octet>)
    ensures BytesToBits(a + b) == BytesToBits(a) + BytesToBits(b)
    decreases |a|
  {
    if |a| > 0 {
      assert (a + b)[0] == a[0] && (a + b)[1..] == a[1..] + b;
      BytesToBitsAppend(a[1..], b);
      assert BytesToBits(a + b) == a[0] + (BytesToBits(a[1..]) + BytesToBits(b));
    } else {
      assert a + b == b;
    }
  }

  /** Two byte sequences with the same stream bits are equal. */
  lemma BytesToBitsInjective(a: seq<Octet>, b: seq<Octet>)
    requires BytesToBits(a) == BytesToBits(b)
    ensures a == b
  {
    assert |a| == |b|;
    forall j | 0 <= j < |a|
      ensures a[j] == b[j]
    {
      BytesToBitsAt(a, j);
      BytesToBitsAt(b, j);
    }
  }

  /** A little-endian field depends only on the low n bits of the word it is taken from. */
  lemma {:induction false} LeBitsLow(x: seq<bool>, y: seq<bool>, n: nat)
    requires n <= |x| && n <= |y|
    requires x[|x| - n..] == y[|y| - n..]
    ensures LeBits(x, n) == LeBits(y, n)
    decreases n
  {
    if n > 8 {
      assert x[|x| - 8..] == x[|x| - n..][n - 8..];
      assert y[|y| - 8..] == y[|y| - n..][n - 8..];
      var x', y' := x[..|x| - 8], y[..|y| - 8];
      assert x'[|x'| - (n - 8)..] == x[|x| - n..][..n - 8];
      assert y'[|y'| - (n - 8)..] == y[|y| - n..][..n - 8];
      LeBitsLow(x', y', n - 8);
    }
  }

  /**
   Splitting a little-endian field at a 32-bit boundary: the low 32 bits come
   first, in their own little-endian order, then the remaining high bits.
   */
  lemma LeBitsSplit32(x: seq<bool>, n: nat)
    requires 32 <= n <= |x|
    ensures LeBits(x, n) == LeBits(x, 32) + LeBits(x[..|x| - 32], n - 32)
  {
    var x1 := x[..|x| - 8];
    var x2 := x1[..|x1| - 8];
    var x3 := x2[..|x2| - 8];
    assert x2 == x[..|x| - 16];
    assert x3 == x[..|x| - 24];
    assert x3[..|x3| - 8] == x[..|x| - 32];
    assert LeBits(x, 32) == x[|x| - 8..] + (x1[|x1| - 8..] + (x2[|x2| - 8..] + x3[|x3| - 8..]));
    if n > 32 {
      calc {
        LeBits(x, n);
        x[|x| - 8..] + LeBits(x1, n - 8);
        x[|x| - 8..] + (x1[|x1| - 8..] + LeBits(x2, n - 16));
        x[|x| - 8..] + (x1[|x1| - 8..] + (x2[|x2| - 8..] + LeBits(x3, n - 24)));
        x[|x| - 8..] + (x1[|x1| - 8..] + (x2[|x2| - 8..] + (x3[|x3| - 8..] + LeBits(x3[..|x3| - 8], n - 32))));
      }
    }
  }

  /**
   The trailing partial byte of a little-endian field of `8k+l` bits, as it
   sits in the byte-swapped word: the low `l` bits of swapped byte `k`.
   */
  function PartialBits(v: Uint32, k: nat, l: nat): (r: seq<bool>)
    requires k <= 4 && l < 8 && 8 * k + l <= 32
    ensures |r| == l
  {
    if k < 4 then v[8 * k + 8 - l..8 * k + 8] else []
  }

  /** `(v >> (32 - bits)) & mask`: the whole swapped bytes of the field, moved down above `l` zero bits. */
  lemma WholeBytes(v: Uint32, k: nat, l: nat, right: nat, bits: nat)
    requires k <= 4 && l < 8 && right == 8 * k && bits == right + l && bits <= 32
    ensures And(Shr(v, UintSub(32, bits)), Shl(Ones(32), l)) == Zeros(32 - bits) + v[..right] + Zeros(l)
  {
  }

  /** `(v >> (24 - right)) &^ mask`: the partial byte, moved to the bottom. */
  lemma PartialByte(v: Uint32, k: nat, l: nat, right: nat)
    requires k <= 4 && l < 8 && right == 8 * k && right + l <= 32
    ensures And(Shr(v, UintSub(24, right)), Not(Shl(Ones(32), l))) == Zeros(32 - l) + PartialBits(v, k, l)
  {
  }

  /** A word of high zeros, a middle and low zeros, plus a word that is zero but for its low bits, is the three pieces side by side. */
  lemma AddPieces(n: nat, p: seq<bool>, t: seq<bool>, m: nat, q: nat)
    requires |t| == m && q == n + |p|
    ensures Add(Zeros(n) + p + Zeros(m), Zeros(q) + t) == Zeros(n) + (p + t)
  {
    var a, b := Zeros(n) + p + Zeros(m), Zeros(q) + t;
    assert forall i :: 0 <= i < |a| ==> !(a[i] && b[i]);
    AddDisjoint(a, b);
    var c := Zeros(n) + (p + t);
    assert forall i :: 0 <= i < |c| ==> Or(a, b)[i] == c[i];
  }

  /** A little-endian field of `8k+l` bits is the first `k` bytes of the swapped word, then its partial byte. */
  lemma LeBitsOfSwap(x: Uint32, k: nat, l: nat, right: nat, bits: nat)
    requires k <= 4 && l < 8 && right == 8 * k && bits == right + l && bits <= 32
    ensures LeBits(x, bits) == Bswap32(x)[..right] + PartialBits(Bswap32(x), k, l)
  {
    if k == 1 {
      LeSwap1(x, l);
    } else if k == 2 {
      LeSwap2(x, l);
    } else if k == 3 {
      LeSwap3(x, l);
    } else if k == 4 {
      LeSwap3(x, 8);
    }
  }

  lemma LeSwap1(x: Uint32, l: nat)
    requires l < 8
    ensures LeBits(x, 8 + l) == Bswap32(x)[..8] + Bswap32(x)[16 - l..16]
  {
    LeOneByte(x, l);
    assert Bswap32(x)[16 - l..16] == x[24 - l..24] == x[..24][24 - l..];
  }

  lemma LeSwap2(x: Uint32, l: nat)
    requires l < 8
    ensures LeBits(x, 16 + l) == Bswap32(x)[..16] + Bswap32(x)[24 - l..24]
  {
    var x1, x2 := x[..24], x[..16];
    LeOneByte(x, 8 + l);
    LeOneByte(x1, l);
    assert x1[..16] == x2 && x1[16..] == x[16..24];
    assert LeBits(x2, l) == x[16 - l..16];
    assert Bswap32(x)[..16] == x[24..] + x[16..24];
    assert Bswap32(x)[24 - l..24] == x[16 - l..16];
  }

  lemma LeSwap3(x: Uint32, l: nat)
    requires l <= 8
    ensures LeBits(x, 24 + l) == Bswap32(x)[..24] + Bswap32(x)[32 - l..32]
  {
    var x1, x2, x3 := x[..24], x[..16], x[..8];
    LeOneByte(x, 16 + l);
    LeOneByte(x1, 8 + l);
    LeOneByte(x2, l);
    assert x1[..16] == x2 && x1[16..] == x[16..24];
    assert x2[..8] == x3 && x2[8..] == x[8..16];
    assert LeBits(x3, l) == x[8 - l..8];
    assert Bswap32(x)[..24] == x[24..] + x[16..24] + x[8..16];
    assert Bswap32(x)[32 - l..32] == x[8 - l..8];
  }

  /** One step of a little-endian field: the lowest byte, then the rest of the field from the remaining word. */
  lemma LeOneByte(x: seq<bool>, m: nat)
    requires 8 + m <= |x|
    ensures LeBits(x, 8 + m) == x[|x| - 8..] + LeBits(x[..|x| - 8], m)
  {
  }
}
