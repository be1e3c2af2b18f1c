/**
 Go's unsigned machine words and the operators the writer applies to them.

 A `uint32` or `uint64` is modelled as the sequence of its bits, most
 significant bit first, so that Go's shifts become slicing and Go's bitwise
 operators become pointwise operations. Go's shift rule (a shift by the word
 width or more yields 0) and `uint` wrap-around on subtraction are written
 out explicitly. Literal values enter through `Word32`/`Word64`, and bytes
 leave through `Byte`, which is Go's `byte(x)` truncation.
 */
module GoBits {

  type Uint32 = w: seq<bool> | |w| == 32 witness Zeros(32)
  type Uint64 = w: seq<bool> | |w| == 64 witness Zeros(64)

  const Uint64Modulus: int := 0x1_0000_0000_0000_0000

  /** Go's `a - b` on `uint`: wraps modulo 2^64 instead of going negative. */
  function UintSub(a: nat, b: nat): (r: nat)
    requires a < Uint64Modulus && b < Uint64Modulus
    ensures r < Uint64Modulus
    ensures b <= a ==> r == a - b
    ensures a < b ==> r == Uint64Modulus - (b - a)
  {
    (a - b) % Uint64Modulus
  }

  function Zeros(n: nat): (r: seq<bool>)
    ensures |r| == n
    ensures forall i :: 0 <= i < n ==> !r[i]
  {
    seq(n, _ => false)
  }

  function Ones(n: nat): (r: seq<bool>)
    ensures |r| == n
    ensures forall i :: 0 <= i < n ==> r[i]
  {
    seq(n, _ => true)
  }

  /** Go's `x << n`: bits move towards the front; a shift by the width or more gives 0. */
  function Shl(x: seq<bool>, n: nat): (r: seq<bool>)
    ensures |r| == |x|
    ensures forall i :: 0 <= i < |x| ==> r[i] == (i + n < |x| && x[i + n])
  {
    seq(|x|, i requires 0 <= i < |x| => i + n < |x| && x[i + n])
  }

  /** Go's unsigned `x >> n`: bits move towards the back; a shift by the width or more gives 0. */
  function Shr(x: seq<bool>, n: nat): (r: seq<bool>)
    ensures |r| == |x|
    ensures forall i :: 0 <= i < |x| ==> r[i] == (n <= i && x[i - n])
  {
    seq(|x|, i requires 0 <= i < |x| => n <= i && x[i - n])
  }

  function And(x: seq<bool>, y: seq<bool>): (r: seq<bool>)
    requires |x| == |y|
    ensures |r| == |x|
  {
    seq(|x|, i requires 0 <= i < |x| => x[i] && y[i])
  }

  function Or(x: seq<bool>, y: seq<bool>): (r: seq<bool>)
    requires |x| == |y|
    ensures |r| == |x|
  {
    seq(|x|, i requires 0 <= i < |x| => x[i] || y[i])
  }

  /** Go's `^x`. */
  function Not(x: seq<bool>): (r: seq<bool>)
    ensures |r| == |x|
  {
    seq(|x|, i requires 0 <= i < |x| => !x[i])
  }

  /**
   Ripple-carry addition of two equal-width words with an incoming carry:
   the sum word and the carry out of its most significant bit.
   */
  function AddWithCarry(x: seq<bool>, y: seq<bool>, carry: bool): (r: (seq<bool>, bool))
    requires |x| == |y|
    ensures |r.0| == |x|
    decreases |x|
  {
    if |x| == 0 then ([], carry)
    else
      var n := |x| - 1;
      var a, b := x[n], y[n];
      var sum := a != (b != carry);
      var out := (a && b) || (carry && (a || b));
      var high := AddWithCarry(x[..n], y[..n], out);
      (high.0 + [sum], high.1)
  }

  /** Go's `x + y` on unsigned words: the carry out of the top bit is lost. */
  function Add(x: seq<bool>, y: seq<bool>): (r: seq<bool>)
    requires |x| == |y|
    ensures |r| == |x|
  {
    AddWithCarry(x, y, false).0
  }

  /** Go's widening conversion, e.g. `uint64(v)` for a `uint32` v. */
  function ZeroExtend(x: seq<bool>, n: nat): (r: seq<bool>)
    requires |x| <= n
    ensures |r| == n
  {
    Zeros(n - |x|) + x
  }

  /** A Go `byte`: its eight bits, most significant first. */
  type Octet = s: seq<bool> | |s| == 8 witness Zeros(8)

  /** The byte with the value of the literal `b`. */
  function ByteBits(b: bv8): (r: Octet)
  {
    [b & 0x80 != 0, b & 0x40 != 0, b & 0x20 != 0, b & 0x10 != 0,
     b & 0x08 != 0, b & 0x04 != 0, b & 0x02 != 0, b & 0x01 != 0]
  }

  /** Go's `byte(x)`: the low eight bits of a wider word. */
  function Byte(x: seq<bool>): (r: Octet)
    requires |x| >= 8
  {
    x[|x| - 8..]
  }

  /** The bits of a `uint32` value, most significant first. */
  function Word32(x: bv32): (r: Uint32)
    ensures r[..8] == ByteBits((x >> 24) as bv8)
    ensures r[24..] == ByteBits((x & 0xFF) as bv8)
  {
    ByteBits((x >> 24) as bv8) + ByteBits(((x >> 16) & 0xFF) as bv8) +
    ByteBits(((x >> 8) & 0xFF) as bv8) + ByteBits((x & 0xFF) as bv8)
  }

  /** The bits of a `uint64` value, most significant first. */
  function Word64(x: bv64): (r: Uint64)
    ensures r[..32] == Word32((x >> 32) as bv32)
    ensures r[32..] == Word32((x & 0xFFFF_FFFF) as bv32)
  {
    Word32((x >> 32) as bv32) + Word32((x & 0xFFFF_FFFF) as bv32)
  }

  /** Adding words with no set bit in common never carries: the sum is the bitwise or. */
  lemma {:induction false} AddDisjoint(x: seq<bool>, y: seq<bool>)
    requires |x| == |y|
    requires forall i :: 0 <= i < |x| ==> !(x[i] && y[i])
    ensures AddWithCarry(x, y, false) == (Or(x, y), false)
    ensures Add(x, y) == Or(x, y)
    decreases |x|
  {
    if |x| > 0 {
      var n := |x| - 1;
      AddDisjoint(x[..n], y[..n]);
      assert Or(x[..n], y[..n]) + [x[n] || y[n]] == Or(x, y);
    }
  }

  /*
   The numbers words denote. Go defines its unsigned shifts arithmetically:
   `x >> n` is `x` divided by 2^n, rounded down, and `x << n` is `x` times
   2^n, reduced modulo 2^width. `ShrValue` and `ShlValue` prove that the
   bit-sequence shifts above are exactly those operations.
   */

  /** 2^n. */
  function Pow2(n: nat): (r: nat)
    ensures r >= 1
  {
    if n == 0 then 1 else 2 * Pow2(n - 1)
  }

  /** The unsigned number a word denotes, most significant bit first. */
  function Value(w: seq<bool>): (r: nat)
    ensures r < Pow2(|w|)
    decreases |w|
  {
    if |w| == 0 then 0 else 2 * Value(w[..|w| - 1]) + (if w[|w| - 1] then 1 else 0)
  }

  lemma {:induction false} Pow2Add(a: nat, b: nat, c: nat)
    requires c == a + b
    ensures Pow2(c) == Pow2(a) * Pow2(b)
    decreases b
  {
    if b > 0 {
      Pow2Add(a, b - 1, c - 1);
      assert Pow2(c) == 2 * Pow2(c - 1);
    }
  }

  lemma Pow2Mono(a: nat, b: nat)
    requires a <= b
    ensures Pow2(a) <= Pow2(b)
  {
    Pow2Add(a, b - a, b);
    MulAtLeast(Pow2(b - a), Pow2(a));
  }

  lemma MulAtLeast(k: int, d: int)
    requires k >= 1 && d > 0
    ensures k * d >= d
  {
    assert k * d == (k - 1) * d + d;
  }

  /** Division and remainder are determined by any quotient and in-range remainder. */
  lemma DivModUnique(a: int, d: int, q: int, m: int)
    requires d > 0 && 0 <= m < d && a == q * d + m
    ensures a / d == q && a % d == m
  {
    var q', m' := a / d, a % d;
    assert a == q' * d + m' && 0 <= m' < d;
    assert (q - q') * d == m' - m by {
      assert (q - q') * d == q * d - q' * d;
    }
    if q > q' {
      MulAtLeast(q - q', d);
    } else if q < q' {
      MulAtLeast(q' - q, d);
    }
  }

  lemma Double(x: int, p: int)
    ensures 2 * (x * p) == x * (2 * p)
  {
  }

  lemma {:induction false} ValueAppend(a: seq<bool>, b: seq<bool>)
    ensures Value(a + b) == Value(a) * Pow2(|b|) + Value(b)
    decreases |b|
  {
    if |b| > 0 {
      var n := |b| - 1;
      var bit := if b[n] then 1 else 0;
      assert (a + b)[..|a + b| - 1] == a + b[..n];
      ValueAppend(a, b[..n]);
      var x, p := Value(a), Pow2(n);
      calc {
        Value(a + b);
        2 * (x * p + Value(b[..n])) + bit;
        { Double(x, p); }
        x * (2 * p) + (2 * Value(b[..n]) + bit);
        x * Pow2(|b|) + Value(b);
      }
    } else {
      assert a + b == a;
    }
  }

  /** A word denotes its leading `k` bits scaled past the rest, plus the rest. */
  lemma ValueSplit(w: seq<bool>, k: nat)
    requires k <= |w|
    ensures Value(w) == Value(w[..k]) * Pow2(|w| - k) + Value(w[k..])
  {
    assert w == w[..k] + w[k..];
    ValueAppend(w[..k], w[k..]);
  }

  lemma {:induction false} ValueZeros(n: nat)
    ensures Value(Zeros(n)) == 0
  {
    if n > 0 {
      assert Zeros(n)[..n - 1] == Zeros(n - 1);
      ValueZeros(n - 1);
    }
  }

  /** Go's unsigned `x >> n` is floor division by 2^n. */
  lemma ShrValue(w: seq<bool>, n: nat)
    ensures Value(Shr(w, n)) == Value(w) / Pow2(n)
  {
    if n >= |w| {
      assert Shr(w, n) == Zeros(|w|);
      ValueZeros(|w|);
      Pow2Mono(|w|, n);
      DivModUnique(Value(w), Pow2(n), 0, Value(w));
    } else {
      var k := |w| - n;
      assert Value(Shr(w, n)) == Value(w[..k]) by {
        assert Shr(w, n) == Zeros(n) + w[..k];
        ValueAppend(Zeros(n), w[..k]);
        ValueZeros(n);
      }
      assert Value(w) == Value(w[..k]) * Pow2(n) + Value(w[k..]) by {
        ValueSplit(w, k);
      }
      DivModUnique(Value(w), Pow2(n), Value(w[..k]), Value(w[k..]));
    }
  }

  /** Go's `x << n` is multiplication by 2^n, wrapped to the width of `x`. */
  lemma ShlValue(w: seq<bool>, n: nat)
    ensures Value(Shl(w, n)) == (Value(w) * Pow2(n)) % Pow2(|w|)
  {
    if n >= |w| {
      ShlValueAll(w, n);
    } else {
      ShlValueSome(w, n);
    }
  }

  /** A shift by the width or more: the product is a multiple of 2^width. */
  lemma ShlValueAll(w: seq<bool>, n: nat)
    requires n >= |w|
    ensures Value(Shl(w, n)) == (Value(w) * Pow2(n)) % Pow2(|w|)
  {
    assert Shl(w, n) == Zeros(|w|);
    ValueZeros(|w|);
    Pow2Add(n - |w|, |w|, n);
    WrapAll(Value(w), Pow2(n - |w|), Pow2(|w|), Pow2(n));
  }

  /** A shorter shift: the leading `n` bits fall off the top, exactly the wrapped part. */
  lemma ShlValueSome(w: seq<bool>, n: nat)
    requires n < |w|
    ensures Value(Shl(w, n)) == (Value(w) * Pow2(n)) % Pow2(|w|)
  {
    assert Value(w) == Value(w[..n]) * Pow2(|w| - n) + Value(w[n..]) by {
      ValueSplit(w, n);
    }
    assert Value(Shl(w, n)) == Value(w[n..]) * Pow2(n) by {
      assert Shl(w, n) == w[n..] + Zeros(n);
      ValueAppend(w[n..], Zeros(n));
      ValueZeros(n);
    }
    assert Pow2(|w|) == Pow2(|w| - n) * Pow2(n) by {
      Pow2Add(|w| - n, n, |w|);
    }
    WrapHigh(Value(w[..n]), Value(w[n..]), Pow2(|w| - n), Pow2(n), Value(w), Pow2(|w|));
  }

  /** A multiple of `d` wraps to zero modulo `d`. */
  lemma WrapAll(v: int, c: int, d: int, p: int)
    requires d > 0 && p == c * d
    ensures (v * p) % d == 0
  {
    assert v * (c * d) == (v * c) * d;
    DivModUnique((v * c) * d, d, v * c, 0);
  }

  /** Scaling `h*a + l` with `l < a` by `b` and wrapping modulo `a*b` drops the high part `h`. */
  lemma WrapHigh(h: int, l: int, a: int, b: int, v: int, m: int)
    requires 0 <= l < a && b > 0 && v == h * a + l && m == a * b
    ensures (v * b) % m == l * b
  {
    assert (h * a + l) * b == h * (a * b) + l * b by {
      assert (h * a + l) * b == (h * a) * b + l * b;
      assert (h * a) * b == h * (a * b);
    }
    assert 0 <= l * b < a * b by {
      MulAtLeast(a - l, b);
      assert (a - l) * b == a * b - l * b;
    }
    DivModUnique(h * (a * b) + l * b, a * b, h, l * b);
  }

  /** On a literal word the bit-sequence `<<` agrees with Dafny's bit-vector `<<`. */
  lemma ShlLiteral()
    ensures Shl(Word64(0x0123_4567_89AB_CDEF), 8) == Word64(0x2345_6789_ABCD_EF00)
  {
  }

  /** On a literal word the bit-sequence `>>` agrees with Dafny's bit-vector `>>`. */
  lemma ShrLiteral()
    ensures Shr(Word32(0xBC0A_0000), 16) == Word32(0xBC0A)
  {
  }

  /**
   `bswap32`: reverses the order of the four bytes of a `uint32`. It is called
   by the little-endian writer but defined outside the modelled file; this is
   the byte reversal its name and its use describe.
   */
  function Bswap32(x: Uint32): (r: Uint32)
    ensures r[..8] == x[24..] && r[8..16] == x[16..24]
    ensures r[16..24] == x[8..16] && r[24..] == x[..8]
  {
    x[24..] + x[16..24] + x[8..16] + x[..8]
  }
}
