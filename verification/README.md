# iobit bit writer, modelled in Dafny

This project models the bit-granular `Writer` of the Go package `iobit`
(`writer.go`). The writer packs fields of 0 to 64 bits, in big-endian or
little-endian bit order, into a caller-owned byte buffer of fixed length. It
keeps a 64-bit left-justified shift register (`cache`) holding `fill`
pending bits. Whole words drain into `dst` at the byte cursor `idx`.

Representation:

- A Go `uint32`/`uint64` is the sequence of its bits, most significant
  first (`GoBits.Uint32`, `GoBits.Uint64`). A `byte` is an eight-bit
  `GoBits.Octet`.
- Go's shifts, masks, `^`, `+`, `uint64(x)` and `byte(x)` are written out
  as operations on those sequences. The `val` arguments stay Dafny
  bit-vectors (`bv32`, `bv64`) until they enter the register through
  `GoBits.Word32`, so `uint32(val >> 32)` in `PutUint64` is a bit-vector
  shift and cast. Two Go rules are kept explicitly:
  - A shift by the word width or more yields zero.
  - `uint` subtraction wraps modulo 2^64 (`GoBits.UintSub`).

  These are the rules the little-endian writer relies on when `bits` is 32
  or 0.
- `GoBits.Value` is the unsigned number a word denotes. The shifts are
  proved against Go's arithmetic definition of unsigned shifts through it:
  `x >> n` is division by 2^n, rounded down, and `x << n` is
  multiplication by 2^n, reduced modulo 2^width.
- Every method of the writer is a pure function from the state
  `Writer(dst, cache, fill, idx)` to the new state and the method's
  results. Go's `error` results become `Ok | Overflow | Underflow`.

The modules follow the program:

- `GoBits`: machine words and the Go operators.
- `BitOrder`: reference definitions of the two bit orders and of the byte
  stream. These are independent of the register arithmetic.
- `IoBit`: the writer itself.
- `Stream`: the meaning of a writer state. `Inv(w, s)` ties it to the bit
  stream `s` it has been given. Every operation is proved to append exactly
  the requested bits.
- `Vectors`: the fixed examples of `writer_test.go`.
- `Departures`: three places where the code departs from its evident intent.

`Flush` (writer.go:96-109) drains whole bytes while the cursor is inside
`dst`, and reports Underflow for a trailing partial byte. Its overflow test
at writer.go:103, however, adds the bit count `fill` to the byte cursor
`idx`. The model follows the code; the byte-rounded test that the
surrounding code evidently intends is the first finding below.

## Model

| member | source | states |
|---|---|---|
| GoBits.UintSub | writer.go:55 | `uint` subtraction: the true difference when it is non-negative, otherwise the difference wrapped modulo 2^64 (so `24 - 32` is a huge shift count) |
| GoBits.ShlValue | writer.go:43 | for every word and every shift count, the shifted word denotes the word's number times 2^n reduced modulo 2^width, which is Go's definition of unsigned `x << n`; a shift by the width or more gives 0 |
| GoBits.ShlLiteral | writer.go:43 | on a 64-bit literal, `<<` by 8 gives the same word as Dafny's bit-vector `<<` |
| GoBits.ShrValue | writer.go:55 | for every word and every shift count, the shifted word denotes the word's number divided by 2^n and rounded down, which is Go's definition of unsigned `x >> n`; a shift by the width or more gives 0 |
| GoBits.ShrLiteral | writer.go:55 | on a 32-bit literal, `>>` by 16 gives the same word as Dafny's bit-vector `>>` |
| GoBits.AddDisjoint | writer.go:72 | adding two words with no set bit in common produces no carry, and the sum equals their bitwise or |
| GoBits.Bswap32 | writer.go:53 | `bswap32` reverses the four bytes of a `uint32` |
| BitOrder.LeBitsLow | writer.go:68-71 | a little-endian field depends only on the low `bits` bits of the value |
| BitOrder.LeBitsSplit32 | writer.go:87-94 | a little-endian field of more than 32 bits is the low 32-bit word's field followed by the field of the remaining high bits |
| BitOrder.WholeBytes | writer.go:68-71 | `(v >> (32-bits)) & mask` holds exactly the whole swapped bytes of the field, moved down above `bits&7` zero bits and with zeros above |
| BitOrder.PartialByte | writer.go:55-69 | `(v >> (24-right)) &^ mask` holds exactly the low `bits&7` bits of the swapped byte after the whole ones, at the bottom of the word; with `bits == 32` the wrapped shift yields zero |
| BitOrder.AddPieces | writer.go:72 | `val + sub` of those two words never carries and places the partial byte just below the whole bytes |
| BitOrder.LeBitsOfSwap | writer.go:53-54 | a little-endian field of `8k+l` bits is the first `k` bytes of the byte-swapped value followed by the low `l` bits of its next byte |
| IoBit.NewWriter | writer.go:28-30 | a new writer is at position 0 with the whole buffer (`8*len(dst)` bits) free and a register with no stray bits |
| IoBit.TopBytes | writer.go:37-40 | `byte(cache >> 56)` to `byte(cache >> 32)` are the four top register bytes, most significant first |
| IoBit.Store4 | writer.go:36-41 | the four stores land at `dst[idx..idx+4)` when that range is inside `dst`; every other byte is unchanged, and the whole buffer is unchanged when the range is out of bounds |
| IoBit.Spill | writer.go:36-44 | the drain step moves the top 32 register bits into `dst[idx..idx+4)` only when in bounds; the cursor advances by 4 and `fill` drops by 32 either way; the remaining pending bits move to the top; a clean register stays clean |
| IoBit.MakeRoom | writer.go:35-45 | after the guard there is room for `bits` more bits; the drain fires exactly when `fill+bits > 64`, and then `fill > 32` |
| IoBit.Insert | writer.go:47-49 | when the register is clean and the value fits in `bits` bits, OR-insertion keeps the pending bits, puts the value directly below them, leaves the register clean, and grows `fill` by `bits` |
| IoBit.MaskLow | writer.go:46 | `u &^ (^0 << bits)` keeps the low `bits` bits of `u` and clears every bit above them |
| IoBit.BigEndianPutUint32 | writer.go:32-50 | the position grows by exactly `bits`; `fill <= 64` is kept; the drain fires only when `fill > 32`; `dst` keeps its length and changes only in `[idx, idx+4)`; register hygiene is preserved |
| IoBit.LeRecombine | writer.go:53-72 | the byte swap, shifts, mask and addition of the little-endian writer yield exactly the reference little-endian field, right-aligned above zeros, for every `bits` from 0 to 32 |
| IoBit.LittleEndianValue | writer.go:52-72 | `val + sub` is the little-endian field of `val`'s low `bits` bits, right-aligned above zeros |
| IoBit.WidenField | writer.go:72 | `uint64(x)` of a word that is zero above its field keeps the field and fits in `bits` bits |
| IoBit.LittleEndianWord | writer.go:72 | the word the little-endian writer ORs in fits in `bits` bits, and those bits are the little-endian field |
| IoBit.LittleEndianPutUint32 | writer.go:52-76 | the same bounds, drain guard, in-bounds store and hygiene facts as the big-endian writer |
| IoBit.BigEndianPutUint64 | writer.go:78-85 | the position grows by exactly `bits` (up to 64); the buffer length and register hygiene are kept |
| IoBit.LittleEndianPutUint64 | writer.go:87-94 | the position grows by exactly `bits` (up to 64); the buffer length and register hygiene are kept |
| IoBit.PutUint32 | writer.go:32-76 | either byte order keeps `fill <= 64` and hygiene and advances the position by `bits` |
| IoBit.PutUint64 | writer.go:78-94 | either byte order keeps `fill <= 64` and hygiene and advances the position by `bits` |
| IoBit.PutUint64Reduces | writer.go:78-94 | above 32 bits, big-endian puts the high `bits-32` bits and then the low word, while little-endian puts the low word and then the high bits; at most 32 bits is a single put of the low word; the bits these calls append together are stated by Stream.Field64Split and Stream.PutUint64Stream |
| IoBit.PutUint32LowBits | writer.go:46-75 | two values that agree on their low `bits` bits give identical writers, so only those bits of `val` matter |
| IoBit.DrainByte | writer.go:97-101 | one loop iteration stores the top register byte at `dst[idx]` only, then advances `idx` by 1 and drops `fill` by 8 |
| IoBit.FlushBytes | writer.go:97-102 | the loop keeps the position; it stops with fewer than 8 bits pending or the cursor at the end; it never moves the cursor past `len(dst)` |
| IoBit.FlushBytesFrame | writer.go:97-102 | the loop stores only into the bytes its cursor passes |
| IoBit.Flush | writer.go:96-110 | success exactly when the position is a whole number of bytes within `dst`; Overflow exactly when `Index/8 + Index%8 > len(dst)`, with bits and bytes mixed as written; success leaves no bit pending with the cursor at `Index/8` |
| IoBit.FlushIdempotent | writer.go:96-110 | a second `Flush` changes nothing and reports the same result |
| IoBit.CopyAt | writer.go:118-120 | `copy(dst[idx:], p)` copies `min(len(p), len(dst)-idx)` bytes to the cursor when `idx < len(dst)` and nothing otherwise; other bytes are untouched |
| IoBit.Write | writer.go:112-126 | a failed flush returns `(0, err)` with nothing copied, though the drain has still happened; otherwise it copies the part of `p` that fits, advances the position by `8*len(p)`, and reports Overflow exactly when the copy was cut short |
| IoBit.Imin | writer.go:132-137 | the result is the smaller argument |
| IoBit.Bits | writer.go:139-142 | the result lies in `[0, 8*len(dst)]`: the free bits after the position, or 0 once the position passes the end |
| IoBit.Bytes | writer.go:144-151 | Go panics exactly when `0 < len(dst)-skip < skip`; otherwise the result is `dst[skip:len(dst)-skip]`, or empty when everything is written |
| IoBit.Reset | writer.go:153-156 | the position returns to 0 with the whole buffer free; `dst` and `cache` are unchanged |
| Stream.NewWriterStream | writer.go:28-30 | a new writer holds the empty stream |
| Stream.SpillStream | writer.go:36-44 | the drain step keeps the stream and stores its next four bytes, or runs the cursor past the end |
| Stream.InsertStream | writer.go:46-49 | inserting a fitting word appends its low `bits` bits to the stream |
| Stream.MakeRoomStream | writer.go:35-45 | the drain guard keeps the stream |
| Stream.BigEndianPutUint32Stream | writer.go:32-50 | big-endian `PutUint32` appends the low `bits` bits of `val` to the stream, most significant first |
| Stream.LittleEndianPutUint32Stream | writer.go:52-76 | little-endian `PutUint32` appends the low `bits` bits of `val` to the stream in little-endian order |
| Stream.PutUint32Stream | writer.go:32-76 | either `PutUint32` appends exactly its field to the stream |
| Stream.PutUint32TwiceStream | writer.go:32-76 | two consecutive puts append their fields in call order |
| Stream.LeBitsConcat | writer.go:87-94 | the little-endian field of a 64-bit value is its low word's field and then its high part's field |
| Stream.BeBitsConcat | writer.go:78-85 | the big-endian field of a 64-bit value is its high part's field and then its low word's field |
| Stream.Field64Split | writer.go:78-94 | the 64-bit field is exactly the fields of the two 32-bit puts `PutUint64` makes, in each byte order |
| Stream.PutUint64Stream | writer.go:78-94 | either `PutUint64` appends the low `bits` bits of `val` in its byte order |
| Stream.DrainByteStream | writer.go:97-101 | one loop iteration stores the next whole stream byte and keeps the stream |
| Stream.FlushBytesStream | writer.go:97-102 | the flush loop keeps the stream |
| Stream.FlushStream | writer.go:96-110 | a successful flush leaves the whole stream, a whole number of bytes, in the first `|s|/8` bytes of `dst` |
| Stream.StoredAppend | writer.go:118-121 | bytes of `p` stored after the stream's bytes give the bytes of the joint stream |
| Stream.WriteStream | writer.go:112-126 | after a successful flush, `Write(p)` appends the bytes of `p` to the stream |
| Stream.CopyStream | writer.go:118-121 | with nothing pending, storing `p` at the cursor without disturbing the bytes before it and advancing the cursor past `p` appends the bytes of `p`, whether or not they fit |
| Stream.PutOneStream | writer.go:32-94 | one put call appends its field |
| Stream.PutAllStream | writer_test.go:56-74 | any sequence of put calls appends their fields one after another |
| Stream.PutAllFresh | writer_test.go:56-74 | a new writer given a sequence of fields holds exactly their bits |
| Stream.FlushFull | writer.go:96-110 | a writer whose stream fills its buffer exactly flushes successfully and leaves the whole stream in it |
| Stream.RoundTrip | writer_test.go:76-84 | fields whose bits are a source buffer's bits, written into a same-length buffer and flushed, reproduce the source exactly, however the source is cut into fields |
| Stream.ResetAfterFlush | writer.go:153-156 | after a successful flush, `Reset` starts a fresh empty stream over the same buffer |
| Vectors.BigEndianWrite64 | writer_test.go:104-110 | 64 bits of 0x0123456789ABCDEF big-endian flush to `01 23 45 67 89 AB CD EF` |
| Vectors.LittleEndianWrite64 | writer_test.go:112-118 | 64 bits of 0x0123456789ABCDEF little-endian flush to `EF CD AB 89 67 45 23 01` |
| Vectors.BigEndianWrite33 | writer_test.go:86-93 | 33 bits of 0xFFFFFFFE00000001 and then 7 zero bits, big-endian, flush to `00 00 00 00 80` |
| Vectors.LittleEndianWrite33 | writer_test.go:95-102 | the same calls little-endian flush to `01 00 00 00 00` |
| Vectors.FlushErrors | writer_test.go:126-140 | 9, 16 and 17 bits into two bytes flush to Underflow, success and Overflow |
| Vectors.WriteHelpers | writer_test.go:153-174 | bits 0,1,00000,1 into one byte give `0x41` with `Index() == 8`, `Bits() == 0` and an empty `Bytes()`; one more bit gives `Index() == 9` and a flush Overflow |
| Departures.FlushIntended | writer.go:103-108 | with the pending bits rounded up to bytes, Overflow happens exactly when more bits were written than `dst` holds, and Underflow exactly when they fit but end mid-byte |
| Departures.FlushDisagreement | writer.go:103-108 | the written and the intended flush differ only where the written one says Overflow and the intended one says Underflow |
| Departures.FlushFifteenBits | writer.go:103-105 | 15 bits fit in two bytes, yet the written flush reports Overflow where the intended one reports Underflow |
| Departures.UnwrittenTail | writer.go:144-151 | the unwritten part of `dst` is the suffix after `skip`, and its length is `Bits()` rounded up to bytes |
| Departures.BytesWindow | writer.go:144-151 | `Bytes()` returns the unwritten tail exactly when nothing or everything has been written |
| Departures.BytesPanics | writer.go:144-151 | after 16 bits into three bytes, `Bytes()` panics while one byte is still unwritten |
| Departures.ResetClean | writer.go:153-156 | a reset that also clears the register is exactly a new writer over the same buffer |
| Departures.ResetFresh | writer.go:153-156 | the written `Reset` starts a fresh stream exactly when the register is already all zero |
| Departures.ResetLeaksBits | writer.go:153-156 | put one set bit, `Reset`, then put eight zero bits: the written code flushes `0x80`, while the clearing reset flushes `0x00` |

`IoBit.Index` (writer.go:128-130) is the plain formula `8*idx + fill`. The
rows above state what it means.

## Left out

- IoBit.PutUint32: `bits` is required to be at most 32, and at most 64 for `PutUint64`. The Go code does not check this, and the model does not say what larger counts do.
- `bswap32` is not part of this model. It is called but defined elsewhere, and `GoBits.Bswap32` models it as the byte reversal its name and use describe.
- IoBit.Bytes: the Go run-time panic of an inverted slice is modelled as `None`; a panic cannot be represented as a value.
- `Flush` mutates its receiver in place; the model returns the new state instead. Callers of the Go code keep the drained state even when `Flush` fails, and `Write` models that explicitly.
- The package's `io.Writer`-backed writer (`NewWriter(&bytes.Buffer)`, `NewWriterSize`, `CacheSize`) exercised by `iobit/writer_test.go` is not part of this model; its source is not among the modelled files.
- Benchmarks and the random-input helpers of `writer_test.go` (writer_test.go:17-38, 176 onwards) are left out because they are `math/rand` scaffolding. `Stream.RoundTrip` states the randomized test's property for every split of every source.
- Go's integer widths for `idx` and `fill` (`int`, `uint`) are unbounded here. The code never approaches their limits: `fill` stays at most 64, and `idx` grows only by the bytes the caller writes.
- GoBits.ShlValue, GoBits.ShrValue: state the shifts against the numbers the bit sequences denote. That `GoBits.Word32` and `GoBits.Word64` denote the numbers of their `bv32` and `bv64` arguments is shown only on the literals of `GoBits.ShlLiteral` and `GoBits.ShrLiteral`, not for every value.
- IoBit.Write: uses the `Flush` as written. With `Departures.FlushIntended`, only the reported error of a failed flush would change.

## Findings

| source | as written | input that shows it | evidently intended | confidence | as-written member | corrected member |
|---|---|---|---|---|---|---|
| writer.go:103 | `idx + int(fill) > len(dst)` adds a bit count to a byte count | 15 bits into a 2-byte buffer: idx 1, fill 7, so 8 > 2 gives Overflow | `idx + ceil(fill/8) > len(dst)`: Underflow when the bits fit but end mid-byte | high, not executed | Departures.FlushFifteenBits | Departures.FlushIntended |
| writer.go:144-151 | `dst[skip:last]` with `last = len(dst) - skip` | 16 bits into a 3-byte buffer, flushed: skip 2, last 1, so the slice panics | `dst[skip:]`, the unwritten tail | high, not executed | Departures.BytesPanics | Departures.UnwrittenTail |
| writer.go:153-156 | `Reset` zeroes `idx` and `fill` but keeps stale `cache` bits, which later puts OR into new output | put 1 bit of value 1, `Reset`, put 8 zero bits into a 1-byte buffer: the flush stores 0x80 | also clear `cache`, so that a reset writer behaves like a new one (0x00) | medium, not executed | Departures.ResetLeaksBits | Departures.ResetClean |
