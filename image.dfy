/** The decoded image (`TGAImage`) and the metadata the loader derives from the header:
    the effective pixel depth and the split of the descriptor byte. */
module Image {
  import opened Bytes
  import opened Header

  /** `TGAImageOrigin`: the corner the first stored pixel belongs to. */
  datatype Origin = BottomLeft | BottomRight | TopLeft | TopRight

  /** `TGAImage`, returned by value; `bytes` is the pixel buffer the loader allocates
      and fills. */
  datatype TgaImage = TgaImage(
    width: u16,
    height: u16,
    bitsPerPixel: u8,
    attributeBitsPerPixel: u8,
    origin: Origin,
    bytes: array<byte>)

  /** Depth of one output pixel: a color-mapped image is expanded to palette entries,
      so a non-empty palette decides the depth; otherwise the image spec does. */
  function EffectiveBitsPerPixel(h: TgaHeader): (b: u8)
    ensures b == h.imageSpec.bitsPerPixel || b == h.colorMapSpec.colorMapEntrySize
    ensures PaletteSize(h) == h.colorMapSpec.colorMapLength * (b / 8)
  {
    if h.colorMapSpec.colorMapLength == 0 then h.imageSpec.bitsPerPixel
    else h.colorMapSpec.colorMapEntrySize
  }

  /** When a palette is present it holds exactly `colorMapLength` entries of one output
      pixel each; when it is absent the image spec's depth is kept. */
  lemma PaletteEntriesAreOutputPixels(h: TgaHeader)
    ensures h.colorMapSpec.colorMapLength > 0 ==>
      EffectiveBitsPerPixel(h) == h.colorMapSpec.colorMapEntrySize &&
      PaletteSize(h) == h.colorMapSpec.colorMapLength * (EffectiveBitsPerPixel(h) / 8)
    ensures h.colorMapSpec.colorMapLength == 0 ==>
      EffectiveBitsPerPixel(h) == h.imageSpec.bitsPerPixel && PaletteSize(h) == 0
  {
  }

  /** `imgDescriptor & 0x0F`: bits 0-3 count the attribute bits of a pixel; on an
      8-bit value the mask leaves the remainder modulo 16. */
  function AttributeBits(descriptor: u8): (a: u8)
    ensures a < 16
  {
    descriptor % 16
  }

  /** The corner selected by `imgDescriptor & 0x30`, the value of bits 4-5. The four
      values of those bits are all handled, so every descriptor has an origin: 0x00 is
      the bottom-left corner, 0x10 the bottom-right, 0x20 the top-left and 0x30 the
      top-right (`d % 64 - d % 16` is `d & 0x30` on a byte). */
  function OriginOf(descriptor: u8): (o: Origin)
    ensures descriptor % 64 - descriptor % 16 == 0x00 <==> o == BottomLeft
    ensures descriptor % 64 - descriptor % 16 == 0x10 <==> o == BottomRight
    ensures descriptor % 64 - descriptor % 16 == 0x20 <==> o == TopLeft
    ensures descriptor % 64 - descriptor % 16 == 0x30 <==> o == TopRight
  {
    LowSixBits(descriptor);
    var corner := descriptor / 16 % 4;
    if corner == 0 then BottomLeft
    else if corner == 1 then BottomRight
    else if corner == 2 then TopLeft
    else TopRight
  }

  /** Attribute bits and origin together are exactly bits 0-5 of the descriptor: two
      descriptors agree on both iff they agree on their low six bits, so bits 6-7
      affect neither. */
  lemma DescriptorLowSixBits(d: u8, e: u8)
    ensures (AttributeBits(d) == AttributeBits(e) && OriginOf(d) == OriginOf(e)) <==> d % 64 == e % 64
  {
    LowSixBits(d);
    LowSixBits(e);
  }

  /** Bits 0-5 of a byte are bits 4-5 above bits 0-3. */
  lemma LowSixBits(d: u8)
    ensures d % 64 == d / 16 % 4 * 16 + d % 16
  {
  }
}
