# imgpocket envelope codec, modelled in Dafny

imgpocket hides a byte payload in the pixels of an image. `encode` deflates the
payload and frames it as an *envelope*: a four-byte length prefix followed by the
deflated bytes. The prefix is the byte view of a one-element `Uint32Array`, which is
little-endian on every browser platform. It refuses an image with too few pixels.
Otherwise it writes every envelope byte into the two low bits of four successive
colour samples of the RGBA buffer, low pair first, and steps over every alpha
sample. `decode` walks the same cursor with `getByte`. It reads the length from the
first four bytes, then that many payload bytes.

This project models that core over a mutable sample buffer (`array<Byte>`):

- `Bytes` writes the codec's bit operations on samples as arithmetic on numbers
  0..255. Each one is proved equal to the 8-bit operation it stands for (`bv8`).
- `Framing` models the length prefix and the envelope, with the round trips of the
  prefix.
- `Slots` models the shared cursor. `SlotIndex(k)` is the sample that holds slot `k`
  (slot `k` is pair `k % 4` of envelope byte `k / 4`). The module gives its closed
  form, its bounds, and the fact that it never stands on alpha.
- `Packing` defines two specification functions on sequences.
  - `Written(orig, env, n)` is the buffer after the first `n` slot writes.
  - `Gather`/`ReadBytes`/`Decoded` are what `getByte` and `decode` read back.
  - The module proves channel isolation and the read-back properties.
- `Codec` holds the imperative code: the capacity test, `PackByte` (the `forEach`
  callback), `Encode`, `GetByte`, `ReadLength`, `GetBytes` (the body loop), `Decode`,
  and the end-to-end round trip.

`src/index.ts` walks the samples in plain red-green-blue order with no permutation,
and `decode` reads whatever length the prefix declares without checking it against
the buffer.

## Model

| member | source | states |
|---|---|---|
| Bytes.Embed | src/index.ts:53 | replacing the two low bits of a sample by `p` leaves exactly `p` in them and keeps the six high bits (`r / 4 == x / 4`) |
| Bytes.EmbedIsBitwise | src/index.ts:53 | `(x & ~3) \| q` on 8-bit values equals `Embed(x, q)` for every sample and every pair `q < 4` |
| Bytes.PairIsShift | src/index.ts:53 | `(byte >> (i * 2)) & 3` on 8-bit values equals `Pair(byte, i)` for i = 0..3 |
| Bytes.Low2IsAnd | src/index.ts:80 | `sample & 3` on 8-bit values equals `Low2(sample)` |
| Bytes.OrPairIsBitwise | src/index.ts:80 | `acc \| (q << (i * 2))`, with `acc` holding only pairs below i, equals `OrPair(acc, q, i)` |
| Bytes.OrPair | src/index.ts:80 | adding pair i to an accumulator below 4^i gives a value below 4^(i+1) that is at least the accumulator, so `getByte` returns a byte |
| Bytes.PairsReassemble | src/index.ts:52-53 | the four pairs written for a byte, weighted 1, 4, 16, 64, add up to the byte: no bit is lost |
| Framing.ReadU32LE | src/index.ts:85 | the length read from four bytes is below 2^32 |
| Framing.PrefixRoundTrip | src/index.ts:40 | reading the four bytes of `new Uint32Array([n])` back gives `n mod 2^32` |
| Framing.PrefixOfRead | src/index.ts:85 | every four-byte prefix is the encoding of the length it declares |
| Framing.ValueOfLittleEndian | src/index.ts:40 | the lowest `count` bytes of n, read back, give `n mod 256^count` |
| Framing.LittleEndianOfValue | src/index.ts:85 | spelling out the value of a byte sequence gives the sequence back |
| Framing.EnvelopeLayout | src/index.ts:40-43 | the envelope is the length prefix followed by the deflated bytes unchanged, and its prefix reads back as the length mod 2^32 |
| Slots.SlotIndexAt | src/index.ts:54-55 | after `3q + c` cursor steps (c < 3) the cursor stands on channel c of pixel q |
| Slots.SlotIndexClosed | src/index.ts:54-55 | the cursor after k steps stands on sample `4 * (k / 3) + k % 3` |
| Slots.SlotIndexNotAlpha | src/index.ts:55 | the cursor never stands on an alpha sample (index 3 mod 4) |
| Slots.SlotOf | src/index.ts:54-55 | every colour sample is visited by the cursor, at slot `SlotOf(j)` |
| Slots.SlotOfIndex | src/index.ts:54-55 | `SlotOf` undoes `SlotIndex`, so no two slots share a sample |
| Slots.SlotIndexMonotone | src/index.ts:54-55 | later slots are in strictly later samples |
| Slots.SlotWithinPixels | src/index.ts:45-55 | on a buffer of p pixels, slot k is inside the buffer if and only if k < 3p |
| Slots.SlotWithinSamples | src/index.ts:45-55 | when 4k < 3 × sample count, slot k is inside the buffer, even when the count is not a multiple of 4 |
| Packing.WriteStep | src/index.ts:53-55 | one iteration of the inner write loop (embed pair i of byte m under the cursor, then step the cursor) takes the buffer after write `4m + i` to the buffer after write `4m + i + 1`, and the cursor to the next slot |
| Packing.WrittenAt | src/index.ts:50-57 | after n writes, every sample equals its closed form: the samples holding slots below n carry their pair, and all other samples are unchanged |
| Packing.WrittenSlot | src/index.ts:53 | after n writes, slot k < n holds pair `k % 4` of envelope byte `k / 4` in its low bits |
| Packing.WrittenContents | src/index.ts:50-57 | channel isolation: every sample keeps its six high bits, alpha is never changed, each written slot holds its pair, and every sample with no slot below n is unchanged |
| Packing.GatherSum | src/index.ts:79-82 | the four reads of `getByte` assemble the byte `b0 + 4·b1 + 16·b2 + 64·b3` from the low bits of four successive slots |
| Packing.GatherPairs | src/index.ts:77-84 | when four successive slots hold the four pairs of b, `getByte` returns b |
| Packing.ReadBackSlot | src/index.ts:80 | once envelope byte m is written and its last slot fits, its slot i reads back as pair i of the byte |
| Packing.ReadBack | src/index.ts:77-84 | `getByte` from slot 4m returns envelope byte m once it is written and fits: `getByte` inverts the packing |
| Packing.ReadBytesEach | src/index.ts:87-89 | a sequence whose element j is the byte read at slot `k + 4j` is exactly the sequence of successive reads |
| Packing.ReadPrefix | src/index.ts:85 | the first four reads are the bytes at slots 0, 4, 8 and 12 |
| Packing.ReadBytesBack | src/index.ts:87-89 | when slots `4j` hold envelope byte j, successive reads give that stretch of the envelope |
| Packing.Decoded | src/index.ts:85-89 | the decoded payload is shorter than 2^32 bytes |
| Packing.DecodedFromPrefix | src/index.ts:85-89 | if the first four reads are the prefix of a payload's length and the next reads are the payload, decoding returns the payload |
| Codec.TooSmallInPixels | src/index.ts:45-46 | on p whole pixels the capacity test fails exactly when 3p < 4L |
| Codec.CapacityCoversWrites | src/index.ts:45-53 | when the capacity test passes, every one of the 4L slot writes is inside the buffer |
| Codec.CapacityIsTight | src/index.ts:45-48 | on whole pixels the test passes exactly when the last slot of a non-empty envelope fits |
| Codec.PackByte | src/index.ts:51-57 | the `forEach` callback takes the buffer after 4m writes to the buffer after 4m + 4 writes and hands the cursor on at slot 4m + 4; every write is in bounds |
| Codec.Encode | src/index.ts:40-57 | fails if and only if the capacity test fails, leaving the buffer untouched; otherwise the buffer is the original with all 4 × (4 + \|deflated\|) slot writes of the envelope applied |
| Codec.GetByte | src/index.ts:77-84 | returns the byte gathered from the four slots from the cursor, counting a read past the end as 0, and hands on the cursor four slots later |
| Codec.ReadLength | src/index.ts:85 | the length is the Uint32 read from the first four `getByte` results, and the cursor is left at slot 16 |
| Codec.GetBytes | src/index.ts:86-89 | the body loop returns `count` successive `getByte` results from slot k |
| Codec.Decode | src/index.ts:76-89 | returns the bytes the `Decoded` specification gives for the buffer |
| Codec.EnvelopeReadsBack | src/index.ts:77-84 | after a successful encode, every envelope byte reads back from its four slots |
| Codec.DecodesEnvelope | src/index.ts:85-89 | any buffer whose slots hold a payload's envelope decodes to that payload |
| Codec.RoundTrip | src/index.ts:40-89 | decoding the buffer that a successful encode leaves gives the deflated bytes back, in order, for any payload shorter than 2^32 bytes |

## Left out

- Loading the image, the canvas, and `getImageData`/`putImageData` (src/index.ts:3-34, 58, 68-74) are browser I/O. The model starts from the sample buffer and ends with it.
- Deflate and inflate from fflate (src/index.ts:36-39, 91-94) are foreign code. `Encode` takes the deflated bytes, and `Decode` returns them uninflated. The string wrappers `encodeString`/`decodeString` (UTF-8 via fflate, src/index.ts:63-65, 97-99) are left out for the same reason.
- Promises and `async` are left out. Nothing in the core depends on the order of asynchronous events.
- The thrown `Error` of the capacity test is the `ImageTooSmall` outcome.
- The build configuration (rollup.config.js:13) lists `seedrandom` as an external module, but `src/index.ts` never imports it: no pixel order is derived from a seed, and none is modelled.
- Framing.U32LE and Framing.ReadU32LE fix little-endian byte order. The byte view of a `Uint32Array` (src/index.ts:40, 85) uses the platform's byte order, which is little-endian on every platform browsers run on; a big-endian platform is not modelled.
- Codec.TooSmall: the test `data.length / 4 < length * 8 / 6` is evaluated in doubles. The model compares the exact rationals (`3 × samples < 16 × length`). `data.length / 4` is an integer, held exactly. `length * 8 / 6` is either an integer, which a double also holds exactly, or at least 1/3 away from every integer, far more than the rounding error for any length a browser can allocate. So the double comparison gives the same answer as the exact one.
- Codec.Decode: `new Uint8Array(length)` throws a RangeError in engines that cannot allocate `length` bytes. The model allocates any length below 2^32.
- Codec.RoundTrip requires a deflated payload shorter than 2^32 bytes. For longer payloads the prefix wraps (ToUint32), and decode reads only the first `length mod 2^32` bytes.
- Codec.GetByte and Codec.PackByte: the closure variable `pixel` that the JavaScript functions share is passed in and handed back. A ghost slot number ties it to the cursor specification.
- Bytes.Byte: samples and bytes are integers 0..255, not 8-bit vectors. The bitwise expressions are linked to `bv8` by the `Bytes.*IsBitwise`, `PairIsShift` and `Low2IsAnd` lemmas. Every written sample is below 256, so the clamping of a `Uint8ClampedArray` never comes into play.
- Packing.Written drops a write past the end of the buffer, as typed arrays do. After a passing capacity test no such write happens (`Codec.CapacityCoversWrites`).
