# graph-layout: locality-preserving tanglers and delta compression

This project models the core of the `graph-layout` Rust crate in Dafny and
proves what the crate promises.

The crate maps a pair of `u32` coordinates to one `u64` index and back, along
two space-filling curves:

- **`ZOrder`** interleaves the bits of the two coordinates. It works a byte
  pair at a time through two 65536-entry tables.
- **`Hilbert`** follows the Hilbert curve.
  - `bit_entangle` and `bit_detangle` walk the curve one bit level at a time.
  - `entangle` and `detangle` walk it a byte pair at a time. They use three
    tables built by `new`: the index of every byte pair, the byte pair of
    every index, and a rotation code for every byte pair.
- **`BytewiseCached`** detangles Hilbert indices. It caches the high
  coordinates and the orientation that belong to the high 48 bits of the
  last index it saw.

The crate also compresses sequences of `u64` values as their differences:

- **`Compressed`** stores each difference. A difference from 1 to 255 becomes
  one byte. Any other difference becomes a zero tag byte, plus an `Others`
  entry naming a `u16`, `u32` or `u64` stream, plus the value in that stream.
- **`Compressor`** pushes values one at a time.
- **`Decompressor`** iterates over the values again.

Both curves are defined once, in module `Curves`, as one quadtree curve with
two parameters: how the four quadrants are numbered, and how each level
turns (`CurveIndex`, `CurvePoint`, `Turn`). Every tangler is proved equal to
that reference. Its two directions are proved inverse to each other
(`PointOfIndex`, `IndexOfPoint`).

Modelling conventions:

- Integers are `nat` values of the fixed widths (`U8` … `U64`).
- `x >> k` is `x / Pow2(k)`, `x << k` is `x * Pow2(k)`, and a mask is `%`.
  `^` is `Bits.Xor`.
- Wrap-around is written out with `%`.
- The tables are sequences, or arrays while they are being filled.
- The compression streams are sequences that the methods reassign.

Where the crate's documentation and its code disagree, the model follows the
code:

- The comment on `Hilbert`'s fields says the entangle table is keyed by
  `x_byte << 16 + y_byte`. The code keys it by `(x_byte << 8) + y_byte`
  (src/layout.rs:157), and the model uses that key (`Tables.Key`).
- `Hilbert::detangle` reads the 16-bit chunks from the least significant
  chunk upwards, re-orienting the partial result before adding each chunk.
  The model follows that order (`HilbertTangle.Hilbert.Detangle`).
- The debug build checks arithmetic, but `bit_rotate` is modelled with
  wrapping subtraction, as a release build runs it. The checked version is
  modelled beside it; see "## Findings".
- The compressed round trip is proved for every sequence of `u64` values,
  not only increasing ones, because `Compressor::push` and
  `Decompressor::next` both wrap.

## Model

| member | source | states |
|---|---|---|
| Bits.Xor | src/layout.rs:112 | bitwise `^`; the parity of the result is the parity of the sum |
| Curves.CurveIndex | src/layout.rs:106-117 | reference curve index of a point in the `n`-bit square, most significant level first; it fits `2n` bits |
| Curves.CurvePoint | src/layout.rs:120-132 | reference point of an index below `4^n`; it lies in the `n`-bit square |
| Curves.PointOfIndex | src/layout.rs:1-10 | detangling the index of any point gives the point back, for both curves at every width |
| Curves.IndexOfPoint | src/layout.rs:1-10 | entangling the point of any index gives the index back, for both curves at every width |
| Curves.IndexInjective | src/layout.rs:3-6 | distinct points of the square have distinct indices |
| Curves.IndexSplit | src/layout.rs:148-165 | the index of an `m+n`-bit point is the index of its high `m` bits, followed by the index of its low `n` bits as re-oriented by the turn of the high part (the basis of byte-at-a-time entangling) |
| Curves.PointSplit | src/layout.rs:169-190 | the point of an index splits the same way: the high digits give the high bits, and the low digits give the low bits in the turned orientation |
| Curves.IndexStep | src/layout.rs:108-113 | one level of the curve: the quadrant code of the top bits, then the rest re-oriented by that quadrant's turn |
| Curves.PointStep | src/layout.rs:122-128 | one level of the inverse: the top digit names the quadrant, and the rest is re-oriented by that quadrant's turn |
| Curves.QuadrantOfCode | src/layout.rs:110-112 | quadrant numbering and its inverse agree for both curves |
| Curves.ReorientThen | src/layout.rs:159-160 | re-orienting twice is re-orienting by the composed orientation (swap and flip compose by exclusive or) |
| Curves.ReorientTwice | src/layout.rs:134-144 | every re-orientation is its own inverse |
| Curves.ZTurnUpright | src/layout.rs:21-24 | the Z-order curve never turns, so interleaving needs no rotation table |
| Tables.KeyOfPoint | src/layout.rs:41 | the key `(x << 8) + y` of a byte pair is below 65536 and gives the pair back |
| Tables.EntangleStored | src/layout.rs:41 | storing the index of byte pair `(x, y)` at its key extends the filled prefix of the entangle table by one |
| Tables.EntanglePushed | src/layout.rs:89 | pushing the index of the next byte pair extends the filled prefix of the entangle table by one |
| Tables.DetangleStored | src/layout.rs:40 | storing `(x, y)` at its index keeps every filled entry of the detangle table right |
| Tables.DetangleComplete | src/layout.rs:33-43 | once every byte pair is stored, every entry of the detangle table is the point of its index |
| ZOrderTangle.Interleave | src/layout.rs:35-39 | the bit loop yields the Z-order index of the byte pair |
| ZOrderTangle.InterleaveDigit | src/layout.rs:8-9 | bit `b` of `x` lands at bit `2b` of the index, and bit `b` of `y` at bit `2b+1` |
| ZOrderTangle.FillRow | src/layout.rs:34-42 | one row of `x` fills both tables for all 256 values of `y` |
| ZOrderTangle.NewZOrder | src/layout.rs:29-49 | the tables hold the 8-bit Z-order index of every byte pair and the byte pair of every 16-bit index |
| ZOrderTangle.ZOrder.EntangleEntry | src/layout.rs:57-60 | the table entry of byte `i` of both coordinates is the index of that byte pair |
| ZOrderTangle.ZOrder.Entangle | src/layout.rs:54-61 | the four table lookups, shifted and added, give the 32-bit Z-order index |
| ZOrderTangle.ZOrder.Detangle | src/layout.rs:64-71 | the four chunk lookups, shifted and added, give the 32-bit Z-order point |
| ZOrderTangle.DetangleEntangle | src/layout.rs:54-71 | `detangle(entangle(p)) == p` for every `u32` pair |
| ZOrderTangle.EntangleDetangle | src/layout.rs:54-71 | `entangle(detangle(t)) == t` for every `u64` |
| ZOrderTangle.EntangleByteGroup | src/layout.rs:57-60 | 16-bit chunk `i` of the index depends only on byte `i` of both coordinates |
| ZOrderTangle.PointBytes | src/layout.rs:69-70 | the point of an index joins the table points of its four 16-bit chunks, byte by byte |
| HilbertTangle.BitRotate | src/layout.rs:134-144 | `bit_rotate` with wrapping subtraction; the result stays a `u32` pair (what it means is stated by `BitRotateLow` and `BitRotateInBox`) |
| HilbertTangle.BitRotateLow | src/layout.rs:134-144 | on the low `logn` bits, `bit_rotate` is the Hilbert re-orientation of quadrant `(rx, ry)`: no change, a swap, or a flip plus a swap |
| HilbertTangle.BitRotateInBox | src/layout.rs:134-144 | on a pair inside the `logn`-bit square, `bit_rotate` is exactly that re-orientation |
| HilbertTangle.BitRotateChecked | src/layout.rs:135-144 | `bit_rotate` as written, with `off - pair.1` and `off - pair.0` as checked `u32` subtractions: it fails exactly in the `(rx, ry) == (1, 0)` case on a pair outside the `log_n % 32`-bit square |
| HilbertTangle.BitRotateCheckedAgrees | src/layout.rs:138-139 | `bit_rotate` with checked `u32` subtraction (`BitRotateChecked`) agrees with the wrapping version whenever it does not fail |
| HilbertTangle.BitRotateUnderflow | src/layout.rs:110-113 | in quadrant `(1, 0)` the unmasked `pair.0` exceeds `off`, so the checked subtraction fails |
| HilbertTangle.BitEntangleUnderflow | src/layout.rs:106-113 | the first level of `bit_entangle((1 << 31, 0))` is such a failure |
| HilbertTangle.XorCode | src/layout.rs:112 | `(3 * rx) ^ ry` is the Hilbert quadrant code of `(rx, ry)` |
| HilbertTangle.BitEntangle | src/layout.rs:106-117 | the bit loop yields the 32-bit Hilbert index of the pair |
| HilbertTangle.BitEntangleLevel | src/layout.rs:109-113 | one pass at level `log_s` adds the quadrant code at bit `2*log_s` above bits that stay zero, keeps the pair within 32 bits, and leaves the index of the rotated low `log_s` bits still to be added |
| HilbertTangle.BitEntangleStep | src/layout.rs:108-113 | one iteration adds the quadrant code at bit `2*log_s`, and the rotated pair carries the rest of the index |
| HilbertTangle.CodeField | src/layout.rs:112 | each level writes its code into bits `2*log_s` and `2*log_s+1`, which the levels above left zero, and leaves the bits below zero |
| HilbertTangle.BitEntangleDetangle | src/layout.rs:106-132 | `bit_detangle(bit_entangle(pair)) == pair` for every `u32` pair |
| HilbertTangle.BitDetangle | src/layout.rs:120-132 | the bit loop yields the 32-bit Hilbert point of the index |
| HilbertTangle.BitDetangleStep | src/layout.rs:122-128 | one iteration rotates the partial point and adds the quadrant bits at `log_s`, giving the point of one more level of digits |
| HilbertTangle.QuadrantOfDigit | src/layout.rs:123-126 | `rx = (s >> 1) & 1` and `ry = (s ^ rx) & 1` decode the Hilbert quadrant of a 2-bit digit |
| HilbertTangle.RotationCode | src/layout.rs:94-98 | the 4-bit code has bit 1 set exactly when the orientation swaps, and equals 12 or 6 exactly when it flips |
| HilbertTangle.ProbeCode | src/layout.rs:91-98 | the probe point's 2-bit-square index under each orientation is that orientation's code |
| HilbertTangle.ProbeIndex | src/layout.rs:88-91 | for the probe `(x << 24, (y << 24) + (1 << 23))`, bits 48..63 of the index are the 8-bit index of `(x, y)`, and bits 44..47 are the rotation code of its turn |
| HilbertTangle.Hilbert.KeyEntries | src/layout.rs:157-158 | the entangle and rotation entries of a byte pair are its 8-bit index and the code of its turn |
| HilbertTangle.Hilbert.DetangleEntry | src/layout.rs:174 | the detangle entry of a 16-bit chunk is its 8-bit point |
| HilbertTangle.Hilbert.EntangleByte | src/layout.rs:155-160 | one iteration appends a 16-bit chunk and re-orients `(x, y)`, preserving the index still to be produced |
| HilbertTangle.Hilbert.PairEntries | src/layout.rs:157-158 | the two reads under key `(x_byte << 8) + y_byte` give the 8-bit Hilbert index of the byte pair and the rotation code of its turn |
| HilbertTangle.RotateWord | src/layout.rs:159-160 | swapping when bit 1 of the code is set, then complementing against `0xFFFFFFFF` when the code is 12 or 6, is the re-orientation of the 32-bit pair by the turn the code encodes |
| HilbertTangle.EntangleByteStep | src/layout.rs:154-161 | the index of `k` low bits is the index of the next byte pair, followed by the index of the remaining bits turned by that byte pair's orientation |
| HilbertTangle.Hilbert.Entangle | src/layout.rs:150-165 | the byte-at-a-time loop yields the 32-bit Hilbert index, the same as `bit_entangle`, which is the `debug_assert` |
| HilbertTangle.Hilbert.DetangleChunk | src/layout.rs:173-185 | one iteration turns the partial point by the chunk's rotation and adds the chunk's byte pair above it, giving the point of 8 more levels |
| HilbertTangle.Hilbert.ChunkEntries | src/layout.rs:174-175 | the two table reads of a pass give the 8-bit point of the chunk and the rotation code of its turn |
| HilbertTangle.RotateBelow | src/layout.rs:176-182 | complementing against `1 << 8*log_s` when the code is 12 or 6, then swapping when bit 1 is set, is the re-orientation by the turn |
| HilbertTangle.DetangleChunkStep | src/layout.rs:172-186 | the point of `m + 8` levels is the chunk's byte pair joined above the point of `m` levels, re-oriented by that pair's turn |
| HilbertTangle.Hilbert.Detangle | src/layout.rs:169-190 | the chunk-at-a-time loop yields the 32-bit Hilbert point, the same as `bit_detangle`, which is the `debug_assert` |
| HilbertTangle.Hilbert.DetangleEntangle | tests/tests.rs:5-11 | `entangle(detangle(i)) == i`, for every `u64` rather than the test's first 2^20 |
| HilbertTangle.NewHilbert | src/layout.rs:82-103 | the three tables hold the 8-bit index, the point and the rotation code for every byte pair and 16-bit index |
| HilbertTangle.FillRow | src/layout.rs:86-100 | one row of `x` extends all three tables by 256 entries |
| HilbertTangle.FillEntry | src/layout.rs:87-91 | one probe through `bit_entangle` extends all three tables by the entries of `(x, y)` |
| HilbertTangle.RotationPushed | src/layout.rs:91 | pushing the code of the next byte pair extends the filled prefix of the rotation table |
| CachedTangle.Classify | src/layout.rs:214-220 | the four recognised probe bytes map to the orientation that carries `(0x0F, 0x00)` onto them; anything else is the `panic!` arm |
| CachedTangle.ClassifyReoriented | src/layout.rs:214-220 | every orientation of the probe cell is recognised as that orientation, so the `panic!` arm is unreachable |
| CachedTangle.ProbeCell | src/layout.rs:210 | the point of the low probe `255` in the 8-bit square is `(0x0F, 0x00)` |
| CachedTangle.LastPoint | src/layout.rs:210 | the last cell of every Hilbert square is its corner `(2^n - 1, 0)` |
| CachedTangle.HighChunkSplit | src/layout.rs:200-234 | the point of a `u64` index joins the 24-bit point of its high 48 bits with the 8-bit point of its low 16 bits, turned |
| CachedTangle.ProbePoint | src/layout.rs:209-220 | detangling `(hi << 16) + 255` gives the high point of `hi` in its upper bytes, and the turn of `hi` recognisably in its low bytes |
| CachedTangle.ProbeCache | src/layout.rs:211-221 | masking and classifying the probe gives exactly the cached value and orientation of `hi` |
| CachedTangle.CachedPoint | src/layout.rs:225-233 | the cached high bytes plus the low byte pair in the cached orientation are the point of the index |
| CachedTangle.ClearLowByte | src/layout.rs:221 | `v & 0xFFFFFF00` is the multiple of 256 just at or below `v` |
| CachedTangle.OrientByte | src/layout.rs:225-231 | flipping against 255 and then swapping is the re-orientation of the byte pair |
| CachedTangle.BytewiseCached.constructor | src/layout.rs:235-245 | the tables are built and the priming `detangle(0)` leaves a valid cache for high bits 0 |
| CachedTangle.BytewiseCached.Detangle | src/layout.rs:202-234 | yields the 32-bit Hilbert point of any `u64`, keeps the cache valid for the new high bits, and leaves it untouched when the high bits are unchanged |
| CachedTangle.BytewiseCached.FillCache | src/layout.rs:206-221 | the refill branch computes the cached high point and orientation of `hi` |
| CachedTangle.BytewiseCached.Store | src/layout.rs:207-221 | the cache fields take the refilled values, and the tables are unchanged |
| CachedTangle.BytewiseCached.Assemble | src/layout.rs:203-233 | the table lookup of the low 16 bits, in the cached orientation, gives the point of the index |
| Compression.WrapInverse | src/compression.rs:84-85 | adding back the wrapped difference from the previous value recovers the value |
| Compression.WrapSub | src/compression.rs:84 | the wrapping `next - current` is the difference when `current <= next` and the difference plus 2^64 otherwise |
| Compression.WrapAddCarry | src/compression.rs:106-112 | the wrapping `current += delta` is the sum when it fits in 64 bits and the sum less 2^64 otherwise |
| Compression.StreamCounts | src/compression.rs:3-14 | there are as many zero tags as `Others` entries, and as many of those as values in the three wide streams |
| Compression.OthersCount | src/compression.rs:54-58 | every `Others` entry names exactly one of the three widths |
| Compression.Single | src/compression.rs:17-34 | one push adds exactly one tag byte |
| Compression.TierBoundaries | src/compression.rs:18-31 | the width chosen at each boundary: 1 and 255 are bytes; 0, 256 and 65535 are `u16`; 65536 and 2^32-1 are `u32`; 2^32 is `u64` |
| Compression.SingleStep | src/compression.rs:103-118 | reading back the streams of one push yields its delta and leaves nothing |
| Compression.Append | src/compression.rs:17-34 | the streams of pushes made one after another hold one tag byte per push of both parts; AppendConsistent proves that it keeps the count invariant, and StepAppend that decoding reads the first part before the second |
| Compression.AppendConsistent | src/compression.rs:17-34 | appending keeps the tag, entry and stream counts consistent |
| Compression.Step | src/compression.rs:103-118 | one `next` consumes one tag byte and keeps the streams consistent |
| Compression.StepDefined | src/compression.rs:109-112 | on consistent streams none of the `unwrap`s in `next` fails |
| Compression.StepAppend | src/compression.rs:103-118 | reading the first delta of appended streams reads it from the first part |
| Compression.Decode | src/compression.rs:103-118 | the iterator yields one value per tag byte |
| Compression.DecodeCons | src/compression.rs:104-116 | decoding a push then the rest yields the running sum, then the rest from there |
| Compression.Encode | src/compression.rs:83-86 | compressing a sequence adds one tag byte per value |
| Compression.EncodeConsistent | src/compression.rs:83-86 | compressed streams are always consistent |
| Compression.EncodeSnoc | src/compression.rs:83-86 | pushing one more value appends the streams of its wrapped difference from the last value |
| Compression.DecodeFirst | src/compression.rs:103-118 | the first decoded value is the first value pushed |
| Compression.RoundTrip | src/compression.rs:1-7 | decompressing a compressed sequence yields that sequence, for every `u64` sequence |
| Compression.Compressed.constructor | src/compression.rs:69-75 | all five streams start empty |
| Compression.Compressed.Push | src/compression.rs:17-34 | the streams grow by exactly the streams of the delta |
| Compression.Compressed.From | src/compression.rs:35-41 | the streams are the compression of the whole sequence |
| Compression.Compressed.Decompress | src/compression.rs:42-51 | the decompressor starts at 0 on the full streams and will yield their decoding |
| Compression.Compressor.WithCapacity | src/compression.rs:66-77 | nothing pushed, `current` 0, fresh empty streams |
| Compression.Compressor.New | src/compression.rs:78-80 | same as `with_capacity(0)` |
| Compression.Compressor.Push | src/compression.rs:83-86 | the streams encode every value pushed so far, and `current` is the last |
| Compression.Compressor.Done | src/compression.rs:87-89 | the result is the compression of every value pushed |
| Compression.Decompressor.constructor | src/compression.rs:43-50 | `current` 0 and the given streams remaining |
| Compression.Decompressor.Next | src/compression.rs:103-118 | `None` with nothing changed once the tags run out; otherwise one decode step, yielding the new `current`; the values to come lose exactly the yielded value |
| Compression.Decompressor.SizeHint | src/compression.rs:120-122 | both bounds are exactly the number of values still to come |
| Compression.Decompressor.Collect | tests/tests.rs:18 | draining with `next` yields all values still to come |
| Compression.CompressDecompress | tests/tests.rs:13-20 | compressing and decompressing `[0, 1, 2, 4, 100, 123412, 1543245423]` gives it back |

## Left out

- The `Tangle` trait (src/layout.rs:14-19) is not modelled as a trait. Each tangler has its own `Entangle` and `Detangle` with the same contracts.
- Benchmarks (bench/, benches/) are not modelled. They only measure time.
- The `unsafe get_unchecked` read in `BytewiseCached::detangle` is modelled as an ordinary indexed read. Its index `tangle as u16` is always in bounds.
- In `BytewiseCached::detangle` the model reads the low byte pair after the cache check, not before it. Nothing in between changes the table.
- The `panic!` message formatting in `BytewiseCached::detangle` is not modelled. The model proves the arm unreachable (`ClassifyReoriented`, `ProbeCache`).
- Allocation is not modelled: `Vec::with_capacity(size)` keeps its size argument only as a parameter, and `from` does not use `size_hint`.
- Compression.Compressed.From: the generic iterator argument of `Compressed::from` is modelled as a sequence of `u64` values.
- Compression.Decompressor.constructor: borrowed slice iterators are modelled as copies of the remaining suffixes.
- Compression.Decompressor.Next: requires consistent streams. On inconsistent streams the crate panics on `unwrap`, which cannot happen for streams built by `push` (`EncodeConsistent`).
- `usize` is taken as 64 bits wide. The table indices are below 65536 in any case.
- Debug-build overflow panics are not modelled, except for the checked `bit_rotate` in "## Findings". Everywhere else, wrapping (release) arithmetic is modelled.
- The `debug_assert!`s in `Hilbert::entangle` and `Hilbert::detangle` are not separate statements. Both byte-wise methods and both bit-wise methods are proved equal to the same curve functions, which implies each assertion.
- The 65536 table entries are not evaluated one by one. They are characterised by predicates over the curve functions, and `NewZOrder` and `NewHilbert` prove the tables filled to match.

## Findings

| source | as written | input that shows it | evidently intended | confidence | as-written member | corrected member |
|---|---|---|---|---|---|---|
| src/layout.rs:138-139 | `off` is computed with `Wrapping<u32>`, but `off - pair.1` and `off - pair.0` are plain `u32` subtractions, and `bit_entangle` passes the unmasked pair, so in quadrant `(1, 0)` the value `pair.0` exceeds `off` and a debug build panics on overflow | `bit_entangle((1 << 31, 0))` at level 31, and so `Hilbert::new` at byte pair `(128, 0)` | wrapping subtraction; only the low `logn` bits of the result are used | medium, not executed | HilbertTangle.BitEntangleUnderflow | HilbertTangle.BitRotateLow |
