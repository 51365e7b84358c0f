# gwTGA decoder in Dafny

This project models the TGA (Truevision Targa) image decoder of gwTGA: `LoadTga` and
the pixel-fetch and run-length routines it calls in `source/gwTGA.cpp`, together with
the header records of `source/gwTGA.h`. A decode goes through these steps:

1. The loader reads the eighteen-byte header as twelve little-endian fields.
2. It derives the image metadata from the header: the effective bits per pixel, the
   attribute bits and the origin corner.
3. It skips the image ID and loads the palette.
4. It allocates a buffer of `width * height * (bitsPerPixel / 8)` bytes.
5. It fills that buffer as the image-type code selects:
   - types 2 and 3 copy the pixel data verbatim;
   - types 10 and 11 run-length decode it with the direct fetch;
   - type 1 resolves palette indexes;
   - type 9 run-length decodes with the palette fetch.

Types 1 and 9 return early when the index width is not 8 or 16 bits, when
`colorMapType` is not 1, or when no palette was loaded. Every other type code leaves the buffer as allocated.

The model has two levels.

- **Specification functions** say what the decoder produces from a byte sequence:
  - `Header.ParseHeader` parses the header;
  - `Fetch.PerPixel` and `Fetch.FetchRun` give the per-pixel and batched fetch forms;
  - `Rle.DecodeRle` decodes a packet stream;
  - `Loader.LoadPixels` gives the whole buffer the loader leaves.

  `None` marks the inputs the model leaves undefined:
  - the stream ends inside a read whose bytes are used;
  - the palette read is short, even for types 2, 3, 10 and 11, which do not use its
    bytes;
  - a palette index lies outside the palette;
  - the last run-length packet writes past the buffer.

  The last two read or write outside a buffer in the C++. A short read does not: it
  stores the bytes that are there and leaves the rest of its target as it was. The
  model does not follow such a partly filled read (see "Left out").
- **Methods** mirror the C++ routines:
  - they step a cursor through the input `seq<byte>`;
  - they write into an `array<byte>` in place;
  - they are proved to leave exactly what the specification functions describe.

  Each buffer write is stated with `Bytes.Overwrite`, the effect of a `memcpy` or a
  `stream.read` into a buffer.

Modules:

- `Wrappers` holds `Option`.
- `Bytes` holds bytes, little-endian values, replication, buffer writes and product
  helpers.
- `Header` holds the `TGAColorMapSpec`, `TGAImageSpec` and `TGAHeader` records and the
  header reads.
- `Image` holds `TGAImage`, `TGAImageOrigin`, the effective depth and the descriptor
  split.
- `Fetch` holds the four fetch routines.
- `Rle` holds `decompressRLE`.
- `Loader` holds `LoadTga`.

The code has no encoder, flips, error codes, depth validation or short-read
detection. Two consequences:

- Effective depth is the color-map entry size whenever `colorMapLength != 0`, whatever
  `colorMapType` says.
- A stream that ends early is not reported. The model leaves it undefined.

## Model

| member | source | states |
|---|---|---|
| Header.ReadHeader | source/gwTGA.cpp:40-51 | the twelve reads at field widths 1,1,1,2,2,1,2,2,2,2,1,1, run in declaration order from offset 0, yield exactly `ParseHeader` and leave the cursor at byte 18 |
| Header.ReadU8 | source/gwTGA.cpp:40-42 | a 1-byte read yields the byte at the cursor and advances the cursor by 1 |
| Header.ReadU16 | source/gwTGA.cpp:43-44 | a 2-byte read yields `U16At` at the cursor and advances the cursor by 2 |
| Header.ReadColorMapSpec | source/gwTGA.cpp:43-45 | the three `colorMapSpec` reads at widths 2, 2 and 1 yield the fields at offsets 0, 2 and 4 from the cursor, and the cursor moves by 5 |
| Header.ReadImageSpec | source/gwTGA.cpp:46-51 | the six `imageSpec` reads at widths 2, 2, 2, 2, 1 and 1 yield the fields at offsets 0, 2, 4, 6, 8 and 9 from the cursor, and the cursor moves by 10 |
| Bytes.ReadField | source/gwTGA.cpp:40-51 | a read into a zeroed little-endian integer, one byte per place value, yields the little-endian value of the next `width` bytes, below 256 to the power `width`, and advances the cursor by `width` |
| Bytes.LeSnoc | source/gwTGA.cpp:218 | one more byte after a little-endian value adds that byte times 256 to the power of the length |
| Header.OffsetsConsecutive | source/gwTGA.h:21-42 | each field starts where the previous one ends, the first at 0, and the last ends at byte 18 |
| Header.ParseHeader | source/gwTGA.cpp:40-51 | every one of the twelve fields of the parsed header equals the little-endian value of the bytes at its offset and width |
| Header.ParseHeaderInjective | source/gwTGA.cpp:40-51 | two streams parse to the same header if and only if their first eighteen bytes are equal |
| Header.U16At | source/gwTGA.h:22-23 | the 2-byte field `lo + 256 * hi` equals the little-endian value of its bytes |
| Bytes.LeInjective | source/gwTGA.cpp:40-51 | equal little-endian values of equal-width byte strings imply equal bytes, so every header byte is recoverable from its field |
| Header.PixelCount | source/gwTGA.h:30-31 | `width * height` of two 16-bit fields is at most 65535 squared |
| Header.PaletteSize | source/gwTGA.h:23-24 | `colorMapLength * (colorMapEntrySize / 8)` is at most 65535 * 31, and 0 when the length is 0 |
| Header.PixelCountAsWritten | source/gwTGA.cpp:121 | the count as computed in 32-bit `int` and widened to `size_t` is right if and only if the product is below 2^31; otherwise it is at least 2^63 |
| Header.PixelCountOverflow | source/gwTGA.cpp:121 | for a 46341 x 46341 image the true count is 2147488281 while the computed count is 2^64 - 2147479015 |
| Image.EffectiveBitsPerPixel | source/gwTGA.cpp:56-60 | the effective depth is either the image spec's depth or the color-map entry size, and the palette size is `colorMapLength` entries of that depth in whole bytes |
| Image.PaletteEntriesAreOutputPixels | source/gwTGA.cpp:56-60 | with `colorMapLength > 0` the effective depth is `colorMapEntrySize` and the palette holds `colorMapLength` output pixels; with length 0 the depth is the image spec's and the palette is empty |
| Image.AttributeBits | source/gwTGA.cpp:62 | `imgDescriptor & 0x0F` is below 16 |
| Image.OriginOf | source/gwTGA.cpp:64-77 | the four values 0x00, 0x10, 0x20, 0x30 of `imgDescriptor & 0x30` select bottom-left, bottom-right, top-left and top-right, each if and only if |
| Image.DescriptorLowSixBits | source/gwTGA.cpp:62-77 | two descriptors agree on attribute bits and origin if and only if they agree on bits 0-5, so bits 6-7 affect neither |
| Loader.PaletteStart | source/gwTGA.cpp:103-104 | the palette starts after the 18 header bytes and the `iDLength` bytes of image id that the `seekg` skips, so within 255 bytes of the header's end |
| Loader.PixelDataStart | source/gwTGA.cpp:106-118 | the pixel data starts after the palette, at most 65535 entries of 31 bytes further, and right at the palette start when `colorMapLength` is 0 |
| Loader.PaletteEndsAtPixelData | source/gwTGA.cpp:117 | a palette read that succeeds leaves the cursor where the pixel data starts |
| Loader.ReadPalette | source/gwTGA.cpp:106-118 | with `colorMapLength > 0` the palette is the next `PaletteSize` bytes verbatim, and the read succeeds if and only if the stream holds them; with length 0 nothing is read |
| Loader.BytesPerPixel | source/gwTGA.cpp:124 | `bitsPerPixel / 8` of an 8-bit depth is at most 31 |
| Loader.ImageDataSize | source/gwTGA.cpp:121-125 | the buffer size `pixelsNumber * bytesPerPixel` never exceeds 65535 * 65535 * 31 |
| Loader.Blank | source/gwTGA.cpp:128 | the buffer from `newTexture` has `imgDataSize` bytes, taken to be zero |
| Loader.FillRle | source/gwTGA.cpp:142-147 | a run-length decoding fits the buffer if and only if its bytes fit, and the buffer then starts with exactly those bytes |
| Loader.DirectFormat | source/gwTGA.cpp:146 | the direct fetch of types 10 and 11 has input and output pixels of `bytesPerPixel` bytes |
| Loader.PaletteFormat | source/gwTGA.cpp:168-172 | the palette fetch of types 1 and 9 uses 1- or 2-byte indexes |
| Loader.LoadPixels | source/gwTGA.cpp:30-179 | whenever the load is defined, the buffer it leaves is `imgDataSize` bytes long |
| Loader.PixelData | source/gwTGA.cpp:136-174 | every branch of the type dispatch leaves exactly `imgDataSize` bytes |
| Loader.VerbatimTypes | source/gwTGA.cpp:136-140 | for types 2 and 3 the load is defined if and only if the stream holds `imgDataSize` bytes after the palette, and the buffer is those bytes |
| Loader.ColorMapUsable | source/gwTGA.cpp:152-162 | the palette fetch runs if and only if the index depth is 8 or 16 bits, `colorMapType` is 1 and a palette was allocated (`colorMapLength > 0`); it then reads 1- or 2-byte indexes and the effective depth is the entry size |
| Loader.ColorMappedEarlyReturn | source/gwTGA.cpp:148-162 | types 1 and 9 with an index width other than 8 or 16 bits, a `colorMapType` other than 1 or no palette leave the buffer as allocated |
| Loader.OtherTypesBlank | source/gwTGA.cpp:136-174 | an image type outside 1, 2, 3, 9, 10, 11 leaves the buffer as allocated |
| Loader.RleTypesFit | source/gwTGA.cpp:142-147 | a run-length image whose packets decode loads if and only if its packets add up to exactly `width * height` pixels, and the buffer is then exactly the decoded bytes |
| Loader.ColorMappedSlots | source/gwTGA.cpp:164-168 | pixel `k` of a loaded type-1 image is the palette entry that the `k`-th index after the palette selects, at byte `k * bpo` of the buffer |
| Loader.LoadTga | source/gwTGA.cpp:30-179 | width, height, effective depth, attribute bits and origin come from the header, and the fresh buffer holds `LoadPixels(input)` |
| Loader.ReadPixels | source/gwTGA.cpp:135-174 | the type dispatch leaves in the buffer what `PixelData` specifies, including the early returns |
| Fetch.ColorIndex | source/gwTGA.cpp:192-202 | a 1-, 2- or 3-byte index is below 2^24 |
| Fetch.ColorIndexIsLe | source/gwTGA.cpp:192-202 | the index is the unsigned little-endian value of the index bytes, for all three widths |
| Fetch.ThreeByteIndexMask | source/gwTGA.cpp:199-200 | reading four bytes and masking with 0xFFFFFF gives the value of the first three, whatever the fourth |
| Fetch.PaletteEntry | source/gwTGA.cpp:203 | a palette entry that exists is `bpo` bytes long |
| Fetch.PaletteEntryAt | source/gwTGA.cpp:203 | entry `idx` exists if and only if `colorMap[idx * bpo .. idx * bpo + bpo)` lies inside the palette, and it is that slice |
| Fetch.PaletteLookup | source/gwTGA.cpp:203 | in a palette of `length` entries an index resolves if and only if it is below `length` |
| Fetch.FetchPixel | source/gwTGA.cpp:183-204 | one fetch yields an output pixel of `bytesPerOutputPixel` bytes |
| Fetch.ReadBytes | source/gwTGA.cpp:207 | a read of `n` bytes succeeds if and only if the stream holds them, and yields `n` bytes and the cursor `n` further |
| Fetch.FetchPixelUncompressed | source/gwTGA.cpp:183-185 | the slot receives the input pixel itself |
| Fetch.FetchPixelColorMap | source/gwTGA.cpp:187-204 | the slot receives the palette entry the index selects, given an index inside the palette |
| Fetch.FetchPixelsUncompressed | source/gwTGA.cpp:206-208 | the buffer from `off` receives the next `count * bpi` stream bytes and the cursor moves past them |
| Fetch.FetchPixelsColorMap | source/gwTGA.cpp:210-232 | the loop writes the batched palette run at `off` and leaves the cursor after the indexes it read |
| Fetch.ReadIndexAndCopy | source/gwTGA.cpp:218-230 | reading the index into the zeroed `colorIdx` and copying palette entry `colorIdx` writes the per-pixel palette fetch of the index bytes |
| Fetch.ColorMapStep | source/gwTGA.cpp:214-231 | one pass reads one index, appends one palette entry to what is written and extends the run of fetches by one |
| Fetch.FetchRun | source/gwTGA.cpp:206-232 | a batched fetch of `count` pixels yields `count * bytesPerOutputPixel` bytes |
| Fetch.BatchedMatchesPerPixel | source/gwTGA.cpp:183-232 | the batched and per-pixel forms agree on bytes and cursor, except that a palette fetch with zero-width entries reads no index |
| Fetch.DirectRunMatchesPerPixel | source/gwTGA.cpp:206-208 | one read of `count` direct pixels equals `count` single reads |
| Fetch.PerPixel | source/gwTGA.cpp:214-231 | `count` successful per-pixel fetches produce `count * bpo` bytes and leave the cursor `count * bpi` bytes further |
| Fetch.PerPixelSlot | source/gwTGA.cpp:214-231 | output slot `k` of a run of fetches is the fetch of input pixel `k` |
| Fetch.ColorMapRunSlot | source/gwTGA.cpp:214-231 | slot `k` of a batched palette fetch is the palette entry that index `k` selects |
| Fetch.FetchOne | source/gwTGA.cpp:262 | the per-pixel template argument writes that fetch into the slot |
| Fetch.FetchMany | source/gwTGA.cpp:272 | the batched template argument writes that run and advances the cursor past it |
| Rle.PacketCount | source/gwTGA.cpp:251 | `(packetHeader & 0x7F) + 1` lies in 1..128 |
| Rle.IsRunPacket | source/gwTGA.cpp:253 | `(packetHeader & 0x80) == 0x80` holds if and only if the top bit is set, that is, the header differs from its remainder modulo 128 |
| Rle.PacketHeaderFields | source/gwTGA.cpp:251-253 | two headers have the same type bit and count if and only if they are the same byte |
| Rle.Packet | source/gwTGA.cpp:253-275 | a decoded packet holds `count * bpo` bytes |
| Rle.RunPacket | source/gwTGA.cpp:253-265 | a run packet reads one input pixel after its header and repeats its fetch `count` times |
| Rle.RunPacketSlots | source/gwTGA.cpp:260-265 | every slot of a run packet, at `k * bpo`, holds the fetch of its one input pixel |
| Rle.RawPacket | source/gwTGA.cpp:267-275 | a raw packet is the batched fetch of `count` input pixels |
| Rle.DecodeRle | source/gwTGA.cpp:246-276 | decoding until `need` pixels have been produced yields between `need` and `need + 127` pixels of `bpo` bytes each |
| Rle.FitsIffExact | source/gwTGA.cpp:246-276 | the decoded bytes fit a buffer of `need` pixels if and only if the packets sum exactly to `need` |
| Rle.RunOverrun | source/gwTGA.cpp:246-265 | the stream `0x81 07` asked for one pixel decodes to two, because the last packet is not clamped |
| Rle.DecompressRle | source/gwTGA.cpp:234-277 | the `while` loop writes exactly the decoding of `DecodeRle` from slot 0 and stops at its end |
| Rle.NextPacket | source/gwTGA.cpp:246-276 | one iteration moves one packet from what is to come to what is written, and `readPixels` strictly increases |
| Rle.DecodePacket | source/gwTGA.cpp:249-275 | one iteration writes the packet at byte `readPixels * bpo` and adds its count to `readPixels` |
| Rle.EmitRun | source/gwTGA.cpp:260-265 | the `for` loop writes `count` copies of the fetched pixel into consecutive slots and counts each one |
| Rle.EmitOne | source/gwTGA.cpp:262-264 | one pass writes one more copy and increments `readPixels` |
| Rle.DecodeRleStep | source/gwTGA.cpp:246-276 | a decoding that still needs pixels is the packet at the cursor followed by the decoding of what remains |
| Rle.DecodeRleDone | source/gwTGA.cpp:246 | when no pixels are needed, what is written is the whole decoding |
| Bytes.MemCopy | source/gwTGA.cpp:184 | `memcpy` writes its source bytes at the offset and leaves the rest of the buffer unchanged |
| Bytes.OverwriteConsecutive | source/gwTGA.cpp:246-276 | two adjacent writes equal one write of both |
| Bytes.RepeatAt | source/gwTGA.cpp:260-265 | copy `k` of a replicated pixel sits at byte `k` times the pixel width |

## Left out

- `LoadTgaFromFile` (source/gwTGA.cpp:9-28) is left out: it only opens and closes a file. The stream is modelled as a `seq<byte>` with a cursor.
- Short or failed stream reads are not modelled as the C++ runs them. The source never checks stream state. A short `stream.read` stores the bytes that remain, sets the stream's fail state and leaves the rest of its target unchanged; later reads then store nothing. The model leaves every input with a short read of used bytes undefined (`None`), and `Loader.LoadTga` requires a defined load. So the partly filled buffer that a truncated type-2 or type-3 image leaves is not described.
- Loader.LoadTga: when the palette read is short, the method keeps an empty palette. The precondition excludes every later use of that palette.
- Host-endianness pointer casts (source/gwTGA.cpp:194-200, 218) are modelled as little-endian arithmetic. The 4-byte read of a 3-byte index is covered by `Fetch.ThreeByteIndexMask`.
- Bit masks on 8-bit values (`& 0x0F`, `& 0x30`, `& 0x7F`, `& 0x80`) are modelled as the equivalent division and remainder.
- Memory management is not modelled: `new`, `delete`, `alloca` and the listener's `newTexture`. Allocation always succeeds, so the null checks never fire. The listener classes are not part of this model.
- The new buffer's contents are taken to be zero. What `newTexture` leaves there is not specified.
- The commented-out pixel-format switch (source/gwTGA.cpp:80-101) is inactive code.
- `TGAExtensionArea` and `TGAFooter` (source/gwTGA.h:44-68) are declared but never read.
- source/Test.cpp is not part of this model: it is a console test driver.
- Reads and writes outside a buffer are not modelled further; the model leaves them undefined. These are:
  - a palette index at or above `colorMapLength`, which reads outside `colorMap`;
  - a run-length stream whose last packet writes past the buffer.

  `Fetch.PaletteLookup`, `Rle.FitsIffExact` and `Rle.RunOverrun` characterise exactly when each happens.
- `xOrigin`, `yOrigin` and `firstEntryIndex` are parsed, but no modelled member uses them beyond that. The source does not use them either.
- Loader.LoadTga: the pixel count uses the exact product `Header.PixelCount`, not the 32-bit evaluation of source/gwTGA.cpp:121 (see Findings).

## Findings

| source | as written | input that shows it | evidently intended | confidence | as-written member | corrected member |
|---|---|---|---|---|---|---|
| source/gwTGA.cpp:121 | `width * height` promotes both `uint16_t` operands to 32-bit `int`. A product above 2^31 - 1 overflows; on two's-complement targets it wraps negative, then sign-extends into `size_t pixelsNumber` | a 46341 x 46341 header: true count 2147488281, computed count 2^64 - 2147479015 | the exact product of the two 16-bit fields, at most 65535 squared | not executed | Header.PixelCountAsWritten, Header.PixelCountOverflow | Header.PixelCount, Loader.ImageDataSize |
