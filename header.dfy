/** The fixed TGA file header: the `TGAColorMapSpec`, `TGAImageSpec` and `TGAHeader`
    records and the twelve little-endian reads that fill them. */
module Header {
  import opened Bytes

  datatype ColorMapSpec = ColorMapSpec(
    firstEntryIndex: u16,
    colorMapLength: u16,
    colorMapEntrySize: u8)

  datatype ImageSpec = ImageSpec(
    xOrigin: u16,
    yOrigin: u16,
    width: u16,
    height: u16,
    bitsPerPixel: u8,
    imgDescriptor: u8)

  datatype TgaHeader = TgaHeader(
    iDLength: u8,
    colorMapType: u8,
    imageType: u8,
    colorMapSpec: ColorMapSpec,
    imageSpec: ImageSpec)

  /** Byte width of each header field in declaration order. */
  const FieldWidths: seq<nat> := [1, 1, 1, 2, 2, 1, 2, 2, 2, 2, 1, 1]

  /** Total width of the fixed header. */
  const HeaderSize: nat := 18

  /** Values of the twelve fields in declaration order. */
  function Fields(h: TgaHeader): (f: seq<nat>)
    ensures |f| == |FieldWidths|
  {
    [h.iDLength, h.colorMapType, h.imageType,
     h.colorMapSpec.firstEntryIndex, h.colorMapSpec.colorMapLength, h.colorMapSpec.colorMapEntrySize,
     h.imageSpec.xOrigin, h.imageSpec.yOrigin, h.imageSpec.width, h.imageSpec.height,
     h.imageSpec.bitsPerPixel, h.imageSpec.imgDescriptor]
  }

  /** The 2-byte little-endian field starting at offset `i`: the low byte plus 256
      times the high byte. */
  function U16At(s: seq<byte>, i: nat): (v: u16)
    requires i + 2 <= |s|
    ensures v == Le(s[i..i + 2])
  {
    LeTwo(s[i..i + 2]);
    s[i] as int + 256 * s[i + 1] as int
  }

  lemma LeTwo(s: seq<byte>)
    requires |s| == 2
    ensures Le(s) == s[0] as int + 256 * s[1] as int
  {
    assert s[1..][1..] == [];
  }

  /** The header held by the first eighteen bytes of `s`: field `k`, for every one of
      the twelve fields, is the little-endian value of the bytes at its offset and
      width. */
  function ParseHeader(s: seq<byte>): (h: TgaHeader)
    requires |s| >= HeaderSize
    ensures forall k :: 0 <= k < |FieldWidths| ==>
      Fields(h)[k] == Le(s[FieldOffsets[k]..FieldOffsets[k] + FieldWidths[k]])
  {
    LeOne(s[0..1]);
    LeOne(s[1..2]);
    LeOne(s[2..3]);
    LeOne(s[7..8]);
    LeOne(s[16..17]);
    LeOne(s[17..18]);
    TgaHeader(s[0], s[1], s[2],
      ColorMapSpec(U16At(s, 3), U16At(s, 5), s[7]),
      ImageSpec(U16At(s, 8), U16At(s, 10), U16At(s, 12), U16At(s, 14), s[16], s[17]))
  }

  /** The twelve `stream.read` calls that open the loader, one per field in
      declaration order, each as wide as the field it fills. Read one after another
      from offset 0 they yield `ParseHeader` and leave the cursor just past the header. */
  method ReadHeader(input: seq<byte>) returns (header: TgaHeader, pos: nat)
    requires |input| >= HeaderSize
    ensures header == ParseHeader(input)
    ensures pos == HeaderSize
  {
    pos := 0;
    var iDLength, colorMapType, imageType;
    iDLength, pos := ReadU8(input, pos);
    colorMapType, pos := ReadU8(input, pos);
    imageType, pos := ReadU8(input, pos);
    var colorMapSpec, imageSpec;
    colorMapSpec, pos := ReadColorMapSpec(input, pos);
    imageSpec, pos := ReadImageSpec(input, pos);
    header := TgaHeader(iDLength, colorMapType, imageType, colorMapSpec, imageSpec);
  }

  /** The reads of the three `colorMapSpec` fields, 2, 2 and 1 bytes wide. */
  method ReadColorMapSpec(input: seq<byte>, pos: nat) returns (spec: ColorMapSpec, next: nat)
    requires pos + 5 <= |input|
    ensures spec == ColorMapSpec(U16At(input, pos), U16At(input, pos + 2), input[pos + 4])
    ensures next == pos + 5
  {
    next := pos;
    var firstEntryIndex, colorMapLength, colorMapEntrySize;
    firstEntryIndex, next := ReadU16(input, next);
    colorMapLength, next := ReadU16(input, next);
    colorMapEntrySize, next := ReadU8(input, next);
    spec := ColorMapSpec(firstEntryIndex, colorMapLength, colorMapEntrySize);
  }

  /** The reads of the six `imageSpec` fields, four 2 bytes wide and two 1 byte wide. */
  method ReadImageSpec(input: seq<byte>, pos: nat) returns (spec: ImageSpec, next: nat)
    requires pos + 10 <= |input|
    ensures spec == ImageSpec(U16At(input, pos), U16At(input, pos + 2), U16At(input, pos + 4),
                              U16At(input, pos + 6), input[pos + 8], input[pos + 9])
    ensures next == pos + 10
  {
    next := pos;
    var xOrigin, yOrigin, width, height, bitsPerPixel, imgDescriptor;
    xOrigin, next := ReadU16(input, next);
    yOrigin, next := ReadU16(input, next);
    width, next := ReadU16(input, next);
    height, next := ReadU16(input, next);
    bitsPerPixel, next := ReadU8(input, next);
    imgDescriptor, next := ReadU8(input, next);
    spec := ImageSpec(xOrigin, yOrigin, width, height, bitsPerPixel, imgDescriptor);
  }

  /** `stream.read` into a `uint8_t` field. */
  method ReadU8(input: seq<byte>, pos: nat) returns (v: u8, next: nat)
    requires pos + 1 <= |input|
    ensures v == input[pos] && next == pos + 1
  {
    var w;
    w, next := ReadField(input, pos, 1);
    assert Pow256(1) == 0x100;
    LeOne(input[pos..pos + 1]);
    v := w;
  }

  /** `stream.read` into a `uint16_t` field. */
  method ReadU16(input: seq<byte>, pos: nat) returns (v: u16, next: nat)
    requires pos + 2 <= |input|
    ensures v == U16At(input, pos) && next == pos + 2
  {
    var w;
    w, next := ReadField(input, pos, 2);
    assert Pow256(2) == 0x1_0000;
    v := w;
  }

  /** Offset of each field: the widths of the fields before it, added up. */
  const FieldOffsets: seq<nat> := [0, 1, 2, 3, 5, 7, 8, 10, 12, 14, 16, 17]

  /** Each field starts where the one before it ends, and the last ends at byte 18. */
  lemma OffsetsConsecutive()
    ensures |FieldOffsets| == |FieldWidths| && FieldOffsets[0] == 0
    ensures forall k :: 0 < k < |FieldWidths| ==> FieldOffsets[k] == FieldOffsets[k - 1] + FieldWidths[k - 1]
    ensures FieldOffsets[11] + FieldWidths[11] == HeaderSize
  {
  }

  lemma LeOne(s: seq<byte>)
    requires |s| == 1
    ensures Le(s) == s[0]
  {
    assert s[1..] == [];
  }

  /** Two streams give the same header exactly when their first eighteen bytes agree:
      the header depends on no other byte and loses none of these. */
  lemma ParseHeaderInjective(s: seq<byte>, t: seq<byte>)
    requires |s| >= HeaderSize && |t| >= HeaderSize
    ensures ParseHeader(s) == ParseHeader(t) <==> s[..HeaderSize] == t[..HeaderSize]
  {
    if s[..HeaderSize] == t[..HeaderSize] {
      SamePrefixSameHeader(s, t);
    }
    if ParseHeader(s) == ParseHeader(t) {
      SameHeaderSamePrefix(s, t);
    }
  }

  lemma SamePrefixSameHeader(s: seq<byte>, t: seq<byte>)
    requires |s| >= HeaderSize && |t| >= HeaderSize
    requires s[..HeaderSize] == t[..HeaderSize]
    ensures ParseHeader(s) == ParseHeader(t)
  {
    assert forall i :: 0 <= i < HeaderSize ==> s[i] == s[..HeaderSize][i] == t[..HeaderSize][i] == t[i];
    assert s[3..5] == t[3..5] && s[5..7] == t[5..7] && s[8..10] == t[8..10];
    assert s[10..12] == t[10..12] && s[12..14] == t[12..14] && s[14..16] == t[14..16];
  }

  lemma SameHeaderSamePrefix(s: seq<byte>, t: seq<byte>)
    requires |s| >= HeaderSize && |t| >= HeaderSize
    requires ParseHeader(s) == ParseHeader(t)
    ensures s[..HeaderSize] == t[..HeaderSize]
  {
    forall i | 0 <= i < HeaderSize
      ensures s[i] == t[i]
    {
      var k := FieldOf(i);
      assert Fields(ParseHeader(s))[k] == Fields(ParseHeader(t))[k];
      SameFieldSameBytes(s, t, k, i);
    }
  }

  /** Equal values of field `k` mean equal bytes under it. */
  lemma SameFieldSameBytes(s: seq<byte>, t: seq<byte>, k: nat, i: nat)
    requires k < |FieldWidths| && FieldOffsets[k] <= i < FieldOffsets[k] + FieldWidths[k] <= HeaderSize
    requires |s| >= HeaderSize && |t| >= HeaderSize
    requires Le(s[FieldOffsets[k]..FieldOffsets[k] + FieldWidths[k]]) == Le(t[FieldOffsets[k]..FieldOffsets[k] + FieldWidths[k]])
    ensures s[i] == t[i]
  {
    var o, w := FieldOffsets[k], FieldWidths[k];
    LeInjective(s[o..o + w], t[o..o + w]);
    assert s[o..o + w][i - o] == s[i];
    assert t[o..o + w][i - o] == t[i];
  }

  /** The field that covers header byte `i`. */
  function FieldOf(i: nat): (k: nat)
    requires i < HeaderSize
    ensures k < |FieldWidths| && FieldOffsets[k] <= i < FieldOffsets[k] + FieldWidths[k]
  {
    [0, 1, 2, 3, 3, 4, 4, 5, 6, 6, 7, 7, 8, 8, 9, 9, 10, 11][i]
  }

  /** `width * height`, the number of pixels the image holds. Both factors are 16-bit,
      so the count never exceeds 65535 squared. */
  function PixelCount(h: TgaHeader): (n: nat)
    ensures n <= 0xFFFF * 0xFFFF
  {
    MulBound(h.imageSpec.width, 0xFFFF, h.imageSpec.height, 0xFFFF);
    h.imageSpec.width * h.imageSpec.height
  }

  /** `header.imageSpec.width * header.imageSpec.height` as the loader evaluates it: both
      16-bit operands are promoted to 32-bit `int` before they are multiplied, so a
      product above 2^31 - 1 overflows `int` (undefined behaviour, which two's-complement
      targets turn into a wrap to a negative value), and the assignment to the 64-bit
      `size_t pixelsNumber` then sign-extends that value to one above 2^63. */
  function PixelCountAsWritten(h: TgaHeader): (n: nat)
    ensures n == PixelCount(h) <==> PixelCount(h) < 0x8000_0000
    ensures n != PixelCount(h) ==> n >= 0x8000_0000_0000_0000
  {
    var p := h.imageSpec.width * h.imageSpec.height;
    if p < 0x8000_0000 then p else p - 0x1_0000_0000 + 0x1_0000_0000_0000_0000
  }

  /** A 46341 x 46341 image, the smallest square one with more than 2^31 - 1 pixels,
      holds 2147488281 pixels, but the loader's count comes out near 2^64, and so does
      every buffer size and read length derived from it. */
  lemma PixelCountOverflow(h: TgaHeader)
    requires h.imageSpec.width == 46341 && h.imageSpec.height == 46341
    ensures PixelCount(h) == 2147488281
    ensures PixelCountAsWritten(h) == 0x1_0000_0000_0000_0000 - 2147479015
  {
  }

  /** Bytes of palette that follow the image ID: `colorMapLength` entries of
      `colorMapEntrySize / 8` bytes each. With a 16-bit length and an 8-bit entry size
      the total never exceeds 65535 * 31 (so the `int` product in the loader cannot
      overflow). */
  function PaletteSize(h: TgaHeader): (n: nat)
    ensures n <= 0xFFFF * 31
    ensures n == 0 <== h.colorMapSpec.colorMapLength == 0
  {
    MulBound(h.colorMapSpec.colorMapLength, 0xFFFF, h.colorMapSpec.colorMapEntrySize / 8, 31);
    h.colorMapSpec.colorMapLength * (h.colorMapSpec.colorMapEntrySize / 8)
  }

  lemma MulBound(a: nat, a': nat, b: nat, b': nat)
    requires a <= a' && b <= b'
    ensures a * b <= a' * b'
  {
    assert a * b <= a' * b;
  }
}
