/** `LoadTga`: reads the header, derives the image metadata, skips the image ID, loads
    the palette and fills the pixel buffer as the image type selects: a verbatim read
    (types 2 and 3), the run-length decoder with the direct fetch (types 10 and 11), or
    the palette fetch (type 1) and the run-length decoder with it (type 9). */
module Loader {
  import opened Wrappers
  import opened Bytes
  import opened Header
  import opened Image
  import opened Fetch
  import opened Rle

  /** `resultImage.bitsPerPixel / 8`: bytes of one output pixel. */
  function BytesPerPixel(h: TgaHeader): (n: nat)
    ensures n <= 31
  {
    EffectiveBitsPerPixel(h) / 8
  }

  /** `imgDataSize = pixelsNumber * bytesPerPixel`, the size of the buffer `newTexture`
      returns. It never exceeds 65535 * 65535 * 31 bytes, so the `size_t` product
      cannot wrap. */
  function ImageDataSize(h: TgaHeader): (n: nat)
    ensures n <= 0xFFFF * 0xFFFF * 31
  {
    MulBound(PixelCount(h), 0xFFFF * 0xFFFF, BytesPerPixel(h), 31);
    PixelCount(h) * BytesPerPixel(h)
  }

  /** The buffer `newTexture` hands out, before anything is written to it. Its contents
      are not the loader's concern; they are taken to be zero. */
  function Blank(n: nat): (r: seq<byte>)
    ensures |r| == n && forall i :: 0 <= i < n ==> r[i] == 0
  {
    seq(n, _ => 0)
  }

  /** Stream offset of the palette: the image ID of `iDLength` bytes after the fixed
      header is skipped unread. */
  function PaletteStart(h: TgaHeader): (p: nat)
    ensures p == FieldOffsets[11] + FieldWidths[11] + h.iDLength
    ensures HeaderSize <= p < HeaderSize + 0x100
  {
    HeaderSize + h.iDLength
  }

  /** Stream offset of the pixel data: the palette, when there is one, follows the
      image ID. */
  function PixelDataStart(h: TgaHeader): (p: nat)
    ensures PaletteStart(h) <= p <= PaletteStart(h) + 0xFFFF * 31
    ensures h.colorMapSpec.colorMapLength == 0 ==> p == PaletteStart(h)
  {
    PaletteStart(h) + PaletteSize(h)
  }

  /** A palette load that succeeds leaves the cursor at `PixelDataStart(h)`, where
      the pixel reads begin, whether or not there is a palette. */
  lemma PaletteEndsAtPixelData(input: seq<byte>, h: TgaHeader)
    requires ReadPalette(input, h).Some?
    ensures ReadPalette(input, h).value.next == PixelDataStart(h)
  {
  }

  /** The palette load: `PaletteSize(h)` bytes read from `PaletteStart(h)` when
      `colorMapLength > 0`, nothing at all otherwise (no palette, cursor unmoved).
      `None` when the stream ends inside the palette. */
  function ReadPalette(input: seq<byte>, h: TgaHeader): (r: Option<Fetched>)
    ensures r.Some? ==> |r.value.bytes| == PaletteSize(h)
    ensures h.colorMapSpec.colorMapLength == 0 ==> r == Some(Fetched([], PaletteStart(h)))
    ensures h.colorMapSpec.colorMapLength > 0 ==>
      (r.Some? <==> PaletteStart(h) + PaletteSize(h) <= |input|) &&
      (r.Some? ==> r.value == Fetched(input[PaletteStart(h) .. PaletteStart(h) + PaletteSize(h)], PaletteStart(h) + PaletteSize(h)))
  {
    if h.colorMapSpec.colorMapLength > 0 then ReadBytes(input, PaletteStart(h), PaletteSize(h))
    else Some(Fetched([], PaletteStart(h)))
  }

  /** The buffer after a run-length decoding `d` has been written from its start, or
      `None` when the decoding failed or its last packet runs past the end. */
  function FillRle(blank: seq<byte>, d: Option<Decoded>): (r: Option<seq<byte>>)
    ensures r.Some? <==> d.Some? && |d.value.bytes| <= |blank|
    ensures r.Some? ==> |r.value| == |blank| && r.value[..|d.value.bytes|] == d.value.bytes
  {
    if d.None? || |d.value.bytes| > |blank| then None
    else
      OverwritePrefix(blank, 0, d.value.bytes);
      Some(Overwrite(blank, 0, d.value.bytes))
  }

  /** The direct format of types 10 and 11: input and output pixels alike are
      `bytesPerPixel` wide. */
  function DirectFormat(h: TgaHeader): (f: PixelFormat)
    ensures f.Valid() && f.source == Direct
    ensures f.bytesPerInputPixel == BytesPerPixel(h) && f.bytesPerOutputPixel == BytesPerPixel(h)
  {
    PixelFormat(Direct, BytesPerPixel(h), BytesPerPixel(h))
  }

  /** The palette format of types 1 and 9: `imageSpec.bitsPerPixel / 8`-byte indexes
      into `palette`, resolved to `bytesPerPixel`-byte entries. */
  function PaletteFormat(h: TgaHeader, palette: seq<byte>): (f: PixelFormat)
    requires h.imageSpec.bitsPerPixel == 8 || h.imageSpec.bitsPerPixel == 16
    ensures f.Valid() && (f.bytesPerInputPixel == 1 || f.bytesPerInputPixel == 2)
  {
    PixelFormat(ColorMap(palette), h.imageSpec.bitsPerPixel / 8, BytesPerPixel(h))
  }

  /** Types 1 and 9 need 8- or 16-bit indexes, `colorMapType == 1` and a loaded
      palette; otherwise the loader returns before writing any pixel. The palette
      pointer `colorMap` is non-null exactly when `colorMapLength > 0`: it is allocated
      then, even with zero-width entries (`new char[0]` is not null). */
  predicate ColorMapUsable(h: TgaHeader): (b: bool)
    ensures b <==> !(h.imageSpec.bitsPerPixel != 8 && h.imageSpec.bitsPerPixel != 16) &&
                   !(h.colorMapType != 1 || h.colorMapSpec.colorMapLength == 0)
    ensures b ==> EffectiveBitsPerPixel(h) == h.colorMapSpec.colorMapEntrySize
    ensures b ==> 1 <= h.imageSpec.bitsPerPixel / 8 <= 2
  {
    (h.imageSpec.bitsPerPixel == 8 || h.imageSpec.bitsPerPixel == 16) &&
    h.colorMapType == 1 && h.colorMapSpec.colorMapLength > 0
  }

  /** What `LoadTga` leaves in the pixel buffer, or `None` where the model leaves the
      result undefined: the stream ends inside a read whose bytes are used, a palette
      index lies outside the palette, or a run-length stream writes past the buffer. */
  function LoadPixels(input: seq<byte>): (r: Option<seq<byte>>)
    ensures r.Some? ==> |input| >= HeaderSize && |r.value| == ImageDataSize(ParseHeader(input))
  {
    if |input| < HeaderSize then None
    else PixelData(input, ParseHeader(input), ReadPalette(input, ParseHeader(input)))
  }

  /** The pixel read selected by `imageType`, once the header `h` is known and the
      palette load has given `pal`. */
  function PixelData(input: seq<byte>, h: TgaHeader, pal: Option<Fetched>): (r: Option<seq<byte>>)
    requires pal.Some? ==> |pal.value.bytes| == PaletteSize(h)
    ensures r.Some? ==> |r.value| == ImageDataSize(h)
  {
    var blank := Blank(ImageDataSize(h));
    var t := h.imageType;
    if t == 2 || t == 3 then
      if pal.None? then None
      else
        match ReadBytes(input, pal.value.next, ImageDataSize(h))
        case None => None
        case Some(data) => Some(data.bytes)
    else if t == 10 || t == 11 then
      if pal.None? then None
      else FillRle(blank, DecodeRle(DirectFormat(h), input, pal.value.next, PixelCount(h)))
    else if t == 1 || t == 9 then
      if !ColorMapUsable(h) then Some(blank)
      else if pal.None? then None
      else
        var f := PaletteFormat(h, pal.value.bytes);
        if t == 1 then
          match FetchRun(f, input, pal.value.next, PixelCount(h))
          case None => None
          case Some(run) => Some(run.bytes)
        else FillRle(blank, DecodeRle(f, input, pal.value.next, PixelCount(h)))
    else Some(blank)
  }

  /** Types 2 and 3 copy the `imgDataSize` bytes that follow the palette verbatim into
      the buffer, and are defined exactly when the stream holds all of them. */
  lemma VerbatimTypes(input: seq<byte>)
    requires |input| >= HeaderSize
    requires ParseHeader(input).imageType == 2 || ParseHeader(input).imageType == 3
    ensures var h := ParseHeader(input);
      LoadPixels(input).Some? <==> PixelDataStart(h) + ImageDataSize(h) <= |input|
    ensures var h := ParseHeader(input);
      LoadPixels(input).Some? ==>
        LoadPixels(input).value == input[PixelDataStart(h) .. PixelDataStart(h) + ImageDataSize(h)]
  {
  }

  /** Types 1 and 9 with an index width other than 8 or 16 bits, a `colorMapType` other
      than 1 or no palette return before any pixel is read: the buffer stays as
      allocated, whatever the stream holds after the header. */
  lemma ColorMappedEarlyReturn(input: seq<byte>)
    requires |input| >= HeaderSize
    requires ParseHeader(input).imageType == 1 || ParseHeader(input).imageType == 9
    requires !ColorMapUsable(ParseHeader(input))
    ensures LoadPixels(input) == Some(Blank(ImageDataSize(ParseHeader(input))))
  {
  }

  /** Image types other than 1, 2, 3, 9, 10 and 11 read no pixel data. */
  lemma OtherTypesBlank(input: seq<byte>)
    requires |input| >= HeaderSize
    requires ParseHeader(input).imageType !in {1, 2, 3, 9, 10, 11}
    ensures LoadPixels(input) == Some(Blank(ImageDataSize(ParseHeader(input))))
  {
  }

  /** A run-length image (types 9, 10, 11) of non-empty pixels whose packets decode is
      loaded exactly when its packets add up to `width * height` pixels; with more,
      the last packet writes past the buffer. A load that succeeds leaves exactly the
      decoded bytes, which then fill the buffer. */
  lemma RleTypesFit(input: seq<byte>, f: PixelFormat)
    requires |input| >= HeaderSize
    requires var h := ParseHeader(input);
      && ReadPalette(input, h).Some?
      && ((h.imageType in {10, 11} && f == DirectFormat(h)) ||
          (h.imageType == 9 && ColorMapUsable(h) && f == PaletteFormat(h, ReadPalette(input, h).value.bytes)))
    requires BytesPerPixel(ParseHeader(input)) > 0
    requires DecodeRle(f, input, PixelDataStart(ParseHeader(input)), PixelCount(ParseHeader(input))).Some?
    ensures var h := ParseHeader(input);
      LoadPixels(input).Some? <==> DecodeRle(f, input, PixelDataStart(h), PixelCount(h)).value.pixels == PixelCount(h)
    ensures var h := ParseHeader(input);
      LoadPixels(input).Some? ==> LoadPixels(input).value == DecodeRle(f, input, PixelDataStart(h), PixelCount(h)).value.bytes
  {
    var h := ParseHeader(input);
    assert ReadPalette(input, h).value.next == PixelDataStart(h);
    assert LoadPixels(input) == FillRle(Blank(ImageDataSize(h)), DecodeRle(f, input, PixelDataStart(h), PixelCount(h)));
    assert f.bytesPerOutputPixel == BytesPerPixel(h);
    FitsIffExact(f, input, PixelDataStart(h), PixelCount(h));
  }

  /** Pixel `k` of a loaded type-1 image is the palette entry indexed by input pixel `k`:
      the `bpi`-byte little-endian index at `PixelDataStart + k * bpi` selects the
      `bpo` bytes at `index * bpo` of the palette, which land at `k * bpo` in the
      buffer. */
  lemma ColorMappedSlots(input: seq<byte>, k: nat)
    requires LoadPixels(input).Some?
    requires ParseHeader(input).imageType == 1 && ColorMapUsable(ParseHeader(input))
    requires BytesPerPixel(ParseHeader(input)) > 0 && k < PixelCount(ParseHeader(input))
    ensures var h := ParseHeader(input);
      var bpi, bpo := h.imageSpec.bitsPerPixel / 8, BytesPerPixel(h);
      var at := PixelDataStart(h) + SlotAt(k, bpi);
      && at + bpi <= |input|
      && SlotAt(k, bpo) + bpo <= |LoadPixels(input).value|
      && PaletteEntry(input[PaletteStart(h) .. PixelDataStart(h)], ColorIndex(input[at .. at + bpi]), bpo)
           == Some(LoadPixels(input).value[SlotAt(k, bpo) .. SlotAt(k, bpo) + bpo])
  {
    var h := ParseHeader(input);
    var pal := ReadPalette(input, h).value;
    assert pal == Fetched(input[PaletteStart(h) .. PixelDataStart(h)], PixelDataStart(h));
    var f := PaletteFormat(h, pal.bytes);
    assert LoadPixels(input).value == FetchRun(f, input, PixelDataStart(h), PixelCount(h)).value.bytes;
    ColorMapRunSlot(pal.bytes, f.bytesPerInputPixel, f.bytesPerOutputPixel, input, PixelDataStart(h), PixelCount(h), k);
  }

  /** `LoadTga`: the twelve header reads, the image metadata, the image-ID skip, the
      palette load and the allocation of `imgDataSize` bytes, then the pixel read. */
  method LoadTga(input: seq<byte>) returns (image: TgaImage)
    requires LoadPixels(input).Some?
    ensures var h := ParseHeader(input);
      && image.width == h.imageSpec.width && image.height == h.imageSpec.height
      && image.bitsPerPixel == EffectiveBitsPerPixel(h)
      && image.attributeBitsPerPixel == AttributeBits(h.imageSpec.imgDescriptor)
      && image.origin == OriginOf(h.imageSpec.imgDescriptor)
    ensures fresh(image.bytes) && image.bytes[..] == LoadPixels(input).value
  {
    var header, pos := ReadHeader(input);
    var bitsPerPixel: u8;
    if header.colorMapSpec.colorMapLength == 0 {
      bitsPerPixel := header.imageSpec.bitsPerPixel;
    } else {
      bitsPerPixel := header.colorMapSpec.colorMapEntrySize;
    }
    var attributeBits := AttributeBits(header.imageSpec.imgDescriptor);
    var origin := OriginOf(header.imageSpec.imgDescriptor);

    // The image ID is skipped unread.
    pos := pos + header.iDLength;

    // A palette read the stream cannot satisfy leaves the palette unusable; every
    // later use of it is then excluded by the precondition.
    ghost var pal := ReadPalette(input, header);
    var colorMap: seq<byte> := [];
    if header.colorMapSpec.colorMapLength > 0 {
      var size := PaletteSize(header);
      if pos + size <= |input| {
        colorMap := input[pos .. pos + size];
        pos := pos + size;
      }
    }

    var pixelsNumber := PixelCount(header);
    var bytesPerPixel := bitsPerPixel / 8;
    var imgDataSize := pixelsNumber * bytesPerPixel;
    var bytes := new byte[imgDataSize](_ => 0);
    image := TgaImage(header.imageSpec.width, header.imageSpec.height, bitsPerPixel, attributeBits, origin, bytes);
    assert bytes[..] == Blank(imgDataSize);
    ReadPixels(bytes, input, header, pal, colorMap, pos);
  }

  /** The pixel read of `LoadTga`, dispatched on `imageType`, into the freshly allocated
      buffer; `colorMap` and `pos` are what the palette load `pal` left. */
  method ReadPixels(bytes: array<byte>, input: seq<byte>, header: TgaHeader, ghost pal: Option<Fetched>,
                    colorMap: seq<byte>, pos: nat)
    requires pal == ReadPalette(input, header)
    requires pal.Some? ==> colorMap == pal.value.bytes && pos == pal.value.next
    requires PixelData(input, header, pal).Some?
    requires bytes[..] == Blank(ImageDataSize(header))
    modifies bytes
    ensures bytes[..] == PixelData(input, header, pal).value
  {
    var pixelsNumber := PixelCount(header);
    var bytesPerPixel := BytesPerPixel(header);
    var imgDataSize := pixelsNumber * bytesPerPixel;
    var imageType := header.imageType;
    if imageType == 2 || imageType == 3 {
      MemCopy(bytes, 0, input[pos .. pos + imgDataSize]);
      OverwriteAll(Blank(imgDataSize), input[pos .. pos + imgDataSize]);
    } else if imageType == 10 || imageType == 11 {
      var _ := DecompressRle(bytes, pixelsNumber, DirectFormat(header), input, pos);
    } else if imageType == 1 || imageType == 9 {
      if header.imageSpec.bitsPerPixel != 8 && header.imageSpec.bitsPerPixel != 16 {
        return;
      }
      if header.colorMapType != 1 || header.colorMapSpec.colorMapLength == 0 {
        return;
      }
      var indexBytes := header.imageSpec.bitsPerPixel / 8;
      if imageType == 1 {
        var _ := FetchPixelsColorMap(bytes, 0, input, pos, indexBytes, colorMap, bytesPerPixel, pixelsNumber);
        OverwriteAll(Blank(imgDataSize), FetchRun(PaletteFormat(header, colorMap), input, pos, pixelsNumber).value.bytes);
      } else {
        var _ := DecompressRle(bytes, pixelsNumber, PaletteFormat(header, colorMap), input, pos);
      }
    }
  }
}
