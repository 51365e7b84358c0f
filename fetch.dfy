/** The pixel-fetch strategies of the decoder: a direct copy of the input pixel, or a
    palette lookup through a 1-, 2- or 3-byte little-endian index; each in a per-pixel
    form (`fetchPixel...`) and a batched form that reads `count` pixels from the
    stream (`fetchPixels...`). */
module Fetch {
  import opened Wrappers
  import opened Bytes

  /** Where an output pixel comes from: the input bytes themselves, or the palette
      entry they index. */
  datatype PixelSource = Direct | ColorMap(palette: seq<byte>)

  /** A fetch strategy with its input and output pixel widths in bytes. */
  datatype PixelFormat = PixelFormat(source: PixelSource, bytesPerInputPixel: nat, bytesPerOutputPixel: nat)
  {
    /** A direct copy fills a slot as wide as the input pixel; a palette index is
        1, 2 or 3 bytes wide. */
    predicate Valid()
    {
      match source
      case Direct => bytesPerInputPixel == bytesPerOutputPixel
      case ColorMap(_) => 1 <= bytesPerInputPixel <= 3
    }
  }

  /** Bytes produced by a fetch, and the stream cursor after the bytes it consumed. */
  datatype Fetched = Fetched(bytes: seq<byte>, next: nat)

  /** The palette index held by a 1-, 2- or 3-byte input pixel: the pixel read as an
      8-, 16- or 24-bit little-endian integer, one case per index width. */
  function ColorIndex(px: seq<byte>): (idx: nat)
    requires 1 <= |px| <= 3
    ensures idx < 0x100_0000
  {
    if |px| == 1 then px[0]
    else if |px| == 2 then px[0] as int + 256 * px[1] as int
    else px[0] as int + 256 * px[1] as int + 0x1_0000 * px[2] as int
  }

  /** Every index width reads the unsigned little-endian value of the pixel's bytes. */
  lemma ColorIndexIsLe(px: seq<byte>)
    requires 1 <= |px| <= 3
    ensures ColorIndex(px) == Le(px)
  {
    assert Le(px) == px[0] + 256 * Le(px[1..]);
    if |px| == 1 {
      assert px[1..] == [];
    } else {
      assert px[1..][1..] == px[2..];
      assert Le(px[1..]) == px[1] + 256 * Le(px[2..]);
      if |px| == 2 {
        assert px[2..] == [];
      } else {
        assert px[2..][1..] == px[3..] == [];
        assert Le(px[2..]) == px[2] + 256 * Le(px[3..]);
      }
    }
  }

  /** A 3-byte index is read as a 32-bit word and masked with 0xFFFFFF: the mask drops
      whatever byte follows the index, leaving the value of its three bytes. */
  lemma ThreeByteIndexMask(px: seq<byte>, b: byte)
    requires |px| == 3
    ensures Le(px + [b]) % 0x100_0000 == ColorIndex(px)
  {
    var w := px + [b];
    assert w[1..][1..] == w[2..] && w[2..][1..] == w[3..] && w[3..] == [b] && [b][1..] == [];
    assert Le(w[3..]) == b;
    assert Le(w[2..]) == px[2] + 256 * b;
    assert Le(w[1..]) == px[1] + 256 * px[2] + 0x1_0000 * b;
    assert Le(w) == ColorIndex(px) + 0x100_0000 * b;
    Truncate24(Le(w), ColorIndex(px), b);
  }

  lemma Truncate24(x: int, v: int, q: int)
    requires 0 <= v < 0x100_0000 && q >= 0 && x == v + 0x100_0000 * q
    ensures x % 0x100_0000 == v
  {
  }

  /** Entry `idx` of a palette of `bpo`-byte entries: skip `idx` entries and take the
      next one, or `None` when the palette ends first (the source reads out of bounds
      then). */
  function PaletteEntry(palette: seq<byte>, idx: nat, bpo: nat): (r: Option<seq<byte>>)
    ensures r.Some? ==> |r.value| == bpo
    decreases idx
  {
    if |palette| < bpo then None
    else if idx == 0 then Some(palette[..bpo])
    else PaletteEntry(palette[bpo..], idx - 1, bpo)
  }

  /** Entry `idx` is the slice `colorMap[idx * bpo .. idx * bpo + bpo)` that
      `fetchPixelColorMap` copies, and it exists exactly when that slice lies inside
      the palette. */
  lemma {:induction false} PaletteEntryAt(palette: seq<byte>, idx: nat, bpo: nat)
    ensures PaletteEntry(palette, idx, bpo).Some? <==> idx * bpo + bpo <= |palette|
    ensures PaletteEntry(palette, idx, bpo).Some? ==>
      PaletteEntry(palette, idx, bpo).value == palette[idx * bpo .. idx * bpo + bpo]
    decreases idx
  {
    MulMono(0, idx, bpo);
    if idx > 0 && |palette| >= bpo {
      var rest := palette[bpo..];
      var a := (idx - 1) * bpo;
      PaletteEntryAt(rest, idx - 1, bpo);
      MulPred(idx, bpo);
      if a + bpo <= |rest| {
        assert rest[a .. a + bpo] == palette[a + bpo .. a + bpo + bpo];
      }
    }
  }

  /** For a palette of `length` entries of `bpo > 0` bytes, an index resolves exactly
      when it is below `length`: the source's missing range check is needed for every
      index from `colorMapLength` up, and for no other. */
  lemma PaletteLookup(palette: seq<byte>, length: nat, bpo: nat, idx: nat)
    requires bpo > 0 && |palette| == length * bpo
    ensures PaletteEntry(palette, idx, bpo).Some? <==> idx < length
  {
    PaletteEntryAt(palette, idx, bpo);
    MulAdd(idx, 1, bpo);
    if idx < length {
      MulMono(idx + 1, length, bpo);
    } else {
      MulMono(length, idx, bpo);
    }
  }

  /** One output pixel from the input pixel `px`. */
  function FetchPixel(f: PixelFormat, px: seq<byte>): (r: Option<seq<byte>>)
    requires f.Valid() && |px| == f.bytesPerInputPixel
    ensures r.Some? ==> |r.value| == f.bytesPerOutputPixel
  {
    match f.source
    case Direct => Some(px)
    case ColorMap(palette) => PaletteEntry(palette, ColorIndex(px), f.bytesPerOutputPixel)
  }

  /** `stream.read` of `n` bytes at the cursor: the bytes and the cursor after them,
      or `None` when the stream ends first. */
  function ReadBytes(input: seq<byte>, pos: nat, n: nat): (r: Option<Fetched>)
    ensures r.Some? <==> pos + n <= |input|
    ensures r.Some? ==> |r.value.bytes| == n && r.value.next == pos + n
  {
    if pos + n <= |input| then Some(Fetched(input[pos .. pos + n], pos + n)) else None
  }

  /** The per-pixel form applied `count` times: each fetch reads the next input pixel
      from the stream and appends one output pixel, so a successful run produces
      `count` output pixels and consumes `count` input pixels. `None` when the stream
      ends early or an index leaves the palette. */
  function PerPixel(f: PixelFormat, input: seq<byte>, pos: nat, count: nat): (r: Option<Fetched>)
    requires f.Valid()
    ensures r.Some? ==> |r.value.bytes| == count * f.bytesPerOutputPixel
    ensures r.Some? ==> r.value.next == pos + count * f.bytesPerInputPixel
  {
    if count == 0 then Some(Fetched([], pos))
    else
      match PerPixel(f, input, pos, count - 1)
      case None => None
      case Some(prev) =>
        var at := prev.next;
        if at + f.bytesPerInputPixel > |input| then None
        else
          match FetchPixel(f, input[at .. at + f.bytesPerInputPixel])
          case None => None
          case Some(p) =>
            MulPred(count, f.bytesPerOutputPixel);
            MulPred(count, f.bytesPerInputPixel);
            Some(Fetched(prev.bytes + p, at + f.bytesPerInputPixel))
  }

  /** A successful run of `k + 1` per-pixel fetches is the run of `k` followed by the
      fetch of the input pixel at the cursor the run of `k` left. */
  lemma PerPixelStep(f: PixelFormat, input: seq<byte>, pos: nat, k: nat, done: seq<byte>, at: nat)
    returns (p: seq<byte>)
    requires f.Valid()
    requires PerPixel(f, input, pos, k + 1).Some?
    requires PerPixel(f, input, pos, k) == Some(Fetched(done, at))
    ensures at + f.bytesPerInputPixel <= |input|
    ensures FetchPixel(f, input[at .. at + f.bytesPerInputPixel]) == Some(p)
    ensures PerPixel(f, input, pos, k + 1) == Some(Fetched(done + p, at + f.bytesPerInputPixel))
  {
    p := FetchPixel(f, input[at .. at + f.bytesPerInputPixel]).value;
  }

  /** A run of per-pixel fetches that succeeds also succeeds when cut short. */
  lemma {:induction false} PerPixelPrefix(f: PixelFormat, input: seq<byte>, pos: nat, k: nat, count: nat)
    requires f.Valid() && k <= count
    requires PerPixel(f, input, pos, count).Some?
    ensures PerPixel(f, input, pos, k).Some?
  {
    if k < count {
      PerPixelPrefix(f, input, pos, k, count - 1);
    }
  }

  /** Slot `k` of a successful run of per-pixel fetches, the `bpo` bytes from
      `k * bpo`, is the fetch of input pixel `k`, the `bpi` bytes from `pos + k * bpi`. */
  lemma PerPixelSlot(f: PixelFormat, input: seq<byte>, pos: nat, count: nat, k: nat)
    requires f.Valid() && k < count
    requires PerPixel(f, input, pos, count).Some?
    ensures pos + SlotAt(k, f.bytesPerInputPixel) + f.bytesPerInputPixel <= |input|
    ensures SlotAt(k, f.bytesPerOutputPixel) + f.bytesPerOutputPixel <= |PerPixel(f, input, pos, count).value.bytes|
    ensures FetchPixel(f, input[pos + SlotAt(k, f.bytesPerInputPixel) .. pos + SlotAt(k, f.bytesPerInputPixel) + f.bytesPerInputPixel])
      == Some(PerPixel(f, input, pos, count).value.bytes[SlotAt(k, f.bytesPerOutputPixel) .. SlotAt(k, f.bytesPerOutputPixel) + f.bytesPerOutputPixel])
  {
    PerPixelPrefix(f, input, pos, k + 1, count);
    LastSlot(f, input, pos, k);
    PerPixelExtends(f, input, pos, k + 1, count);
    SliceOfPrefix(PerPixel(f, input, pos, k + 1).value.bytes, PerPixel(f, input, pos, count).value.bytes,
                  SlotAt(k, f.bytesPerOutputPixel), f.bytesPerOutputPixel);
  }

  /** A longer run of per-pixel fetches only appends to the output of a shorter one. */
  lemma {:induction false} PerPixelExtends(f: PixelFormat, input: seq<byte>, pos: nat, k: nat, count: nat)
    requires f.Valid() && k <= count
    requires PerPixel(f, input, pos, count).Some?
    ensures PerPixel(f, input, pos, k).Some?
    ensures PerPixel(f, input, pos, k).value.bytes <= PerPixel(f, input, pos, count).value.bytes
  {
    if k < count {
      PerPixelExtends(f, input, pos, k, count - 1);
    }
  }

  /** The last slot of a run of `k + 1` fetches is the fetch of input pixel `k`. */
  lemma LastSlot(f: PixelFormat, input: seq<byte>, pos: nat, k: nat)
    requires f.Valid()
    requires PerPixel(f, input, pos, k + 1).Some?
    ensures pos + SlotAt(k, f.bytesPerInputPixel) + f.bytesPerInputPixel <= |input|
    ensures SlotAt(k, f.bytesPerOutputPixel) + f.bytesPerOutputPixel <= |PerPixel(f, input, pos, k + 1).value.bytes|
    ensures FetchPixel(f, input[pos + SlotAt(k, f.bytesPerInputPixel) .. pos + SlotAt(k, f.bytesPerInputPixel) + f.bytesPerInputPixel])
      == Some(PerPixel(f, input, pos, k + 1).value.bytes[SlotAt(k, f.bytesPerOutputPixel) .. SlotAt(k, f.bytesPerOutputPixel) + f.bytesPerOutputPixel])
  {
    var prev := PerPixel(f, input, pos, k).value;
    var p := PerPixelStep(f, input, pos, k, prev.bytes, prev.next);
    assert (prev.bytes + p)[|prev.bytes| .. |prev.bytes| + |p|] == p;
  }

  /** The batched form: `fetchPixelsUncompressed` reads `count` pixels in one go;
      `fetchPixelsColorMap` steps through the output `bytesPerOutputPixel` bytes at a
      time, reading one index per step, so with a zero-width palette entry it reads
      no index at all. */
  function FetchRun(f: PixelFormat, input: seq<byte>, pos: nat, count: nat): (r: Option<Fetched>)
    requires f.Valid()
    ensures r.Some? ==> |r.value.bytes| == count * f.bytesPerOutputPixel
  {
    match f.source
    case Direct =>
      ReadBytes(input, pos, count * f.bytesPerInputPixel)
    case ColorMap(_) =>
      if f.bytesPerOutputPixel == 0 then Some(Fetched([], pos))
      else
        PerPixel(f, input, pos, count)
  }

  /** The batched and per-pixel forms agree on every input, bytes and cursor alike,
      except that a batched palette fetch with zero-width entries consumes no input. */
  lemma BatchedMatchesPerPixel(f: PixelFormat, input: seq<byte>, pos: nat, count: nat)
    requires f.Valid() && pos <= |input|
    ensures (f.source.Direct? || f.bytesPerOutputPixel > 0) ==> FetchRun(f, input, pos, count) == PerPixel(f, input, pos, count)
    ensures f.source.ColorMap? && f.bytesPerOutputPixel == 0 ==> FetchRun(f, input, pos, count) == Some(Fetched([], pos))
  {
    if f.source.Direct? {
      DirectRunMatchesPerPixel(f, input, pos, count);
    }
  }

  /** The batched palette fetch with entries of `bpo > 0` bytes puts at slot `k`, the
      `bpo` bytes from `k * bpo`, the palette entry that the `k`-th `bpi`-byte index
      of the stream selects. */
  lemma ColorMapRunSlot(palette: seq<byte>, bpi: nat, bpo: nat, input: seq<byte>, pos: nat, count: nat, k: nat)
    requires 1 <= bpi <= 3 && bpo > 0 && k < count && pos <= |input|
    requires FetchRun(PixelFormat(ColorMap(palette), bpi, bpo), input, pos, count).Some?
    ensures pos + SlotAt(k, bpi) + bpi <= |input|
    ensures SlotAt(k, bpo) + bpo <= |FetchRun(PixelFormat(ColorMap(palette), bpi, bpo), input, pos, count).value.bytes|
    ensures PaletteEntry(palette, ColorIndex(input[pos + SlotAt(k, bpi) .. pos + SlotAt(k, bpi) + bpi]), bpo)
      == Some(FetchRun(PixelFormat(ColorMap(palette), bpi, bpo), input, pos, count).value.bytes[SlotAt(k, bpo) .. SlotAt(k, bpo) + bpo])
  {
    var f := PixelFormat(ColorMap(palette), bpi, bpo);
    BatchedMatchesPerPixel(f, input, pos, count);
    PerPixelSlot(f, input, pos, count, k);
  }

  /** One read of `count` direct pixels yields what `count` single reads yield. */
  lemma {:induction false} DirectRunMatchesPerPixel(f: PixelFormat, input: seq<byte>, pos: nat, count: nat)
    requires f.Valid() && f.source.Direct? && pos <= |input|
    ensures PerPixel(f, input, pos, count) == ReadBytes(input, pos, count * f.bytesPerInputPixel)
  {
    if count > 0 {
      DirectRunMatchesPerPixel(f, input, pos, count - 1);
      MulPred(count, f.bytesPerInputPixel);
      DirectRunStep(f, input, pos, count, (count - 1) * f.bytesPerInputPixel);
      assert ReadBytes(input, pos, count * f.bytesPerInputPixel) ==
        ReadBytes(input, pos, (count - 1) * f.bytesPerInputPixel + f.bytesPerInputPixel);
    }
  }

  /** Reading one more direct pixel after a read of `n` bytes is one read of `n`
      bytes more. */
  lemma DirectRunStep(f: PixelFormat, input: seq<byte>, pos: nat, count: nat, n: nat)
    requires f.Valid() && f.source.Direct? && count > 0
    requires PerPixel(f, input, pos, count - 1) == ReadBytes(input, pos, n)
    ensures PerPixel(f, input, pos, count) == ReadBytes(input, pos, n + f.bytesPerInputPixel)
  {
    var b := f.bytesPerInputPixel;
    if pos + n + b <= |input| {
      assert input[pos .. pos + n + b] == input[pos .. pos + n] + input[pos + n .. pos + n + b];
    }
  }

  /** `fetchPixelUncompressed`: copies the input pixel into the slot at `off`. */
  method FetchPixelUncompressed(target: array<byte>, off: nat, px: seq<byte>)
    requires off + |px| <= target.Length
    modifies target
    ensures target[..] == Overwrite(old(target[..]), off, FetchPixel(PixelFormat(Direct, |px|, |px|), px).value)
  {
    MemCopy(target, off, px);
  }

  /** `fetchPixelColorMap`: computes the little-endian index of a 1-, 2- or 3-byte input
      pixel and copies that palette entry into the slot at `off`. The index must lie
      inside the palette: the source does not check it. */
  method FetchPixelColorMap(target: array<byte>, off: nat, px: seq<byte>, palette: seq<byte>, bpi: nat, bpo: nat)
    requires 1 <= bpi <= 3 && |px| == bpi
    requires PaletteEntry(palette, ColorIndex(px), bpo).Some?
    requires off + bpo <= target.Length
    modifies target
    ensures target[..] == Overwrite(old(target[..]), off, FetchPixel(PixelFormat(ColorMap(palette), bpi, bpo), px).value)
  {
    var colorIdx := ColorIndex(px);
    PaletteEntryAt(palette, colorIdx, bpo);
    MemCopy(target, off, palette[colorIdx * bpo .. colorIdx * bpo + bpo]);
  }

  /** `fetchPixelsUncompressed`: one stream read of `count` input pixels into the
      buffer at `off`. */
  method FetchPixelsUncompressed(target: array<byte>, off: nat, input: seq<byte>, pos: nat, bpi: nat, count: nat)
    returns (next: nat)
    requires FetchRun(PixelFormat(Direct, bpi, bpi), input, pos, count).Some?
    requires off + count * bpi <= target.Length
    modifies target
    ensures var run := FetchRun(PixelFormat(Direct, bpi, bpi), input, pos, count).value;
      target[..] == Overwrite(old(target[..]), off, run.bytes) && next == run.next
  {
    MemCopy(target, off, input[pos .. pos + count * bpi]);
    next := pos + count * bpi;
  }

  /** `fetchPixelsColorMap`: for `i` from 0 below `count * bpo` in steps of `bpo`, reads
      one `bpi`-byte index from the stream straight into the zeroed `colorIdx` and
      copies its palette entry to `off + i`. That read gives the little-endian value
      of the index bytes, which `ColorIndexIsLe` shows is the index `fetchPixelColorMap`
      computes, so each step writes the per-pixel fetch of its index. */
  method FetchPixelsColorMap(target: array<byte>, off: nat, input: seq<byte>, pos: nat, bpi: nat,
                             palette: seq<byte>, bpo: nat, count: nat)
    returns (next: nat)
    requires 1 <= bpi <= 3
    requires FetchRun(PixelFormat(ColorMap(palette), bpi, bpo), input, pos, count).Some?
    requires off + count * bpo <= target.Length
    modifies target
    ensures var run := FetchRun(PixelFormat(ColorMap(palette), bpi, bpo), input, pos, count).value;
      target[..] == Overwrite(old(target[..]), off, run.bytes) && next == run.next
  {
    ghost var f := PixelFormat(ColorMap(palette), bpi, bpo);
    ghost var k: nat := 0;
    ghost var done: seq<byte> := [];
    next := pos;
    var i: nat := 0;
    assert Overwrite(target[..], off, []) == target[..];
    while i < count * bpo
      invariant ProductIs(k, bpo, i) && i == |done| && i <= count * bpo
      invariant bpo > 0 ==> k <= count
      invariant bpo == 0 ==> k == 0
      invariant PerPixel(f, input, pos, k) == Some(Fetched(done, next))
      invariant target[..] == Overwrite(old(target[..]), off, done)
      decreases count * bpo - i
    {
      StepBelow(k, count, bpo, i);
      i, next, k, done := ColorMapStep(target, off, i, input, next, palette, bpi, bpo, f, pos, k, count, done, old(target[..]));
    }
    if bpo > 0 {
      StepsDone(k, count, bpo, i);
    }
  }

  /** One pass of the loop of `fetchPixelsColorMap` (source/gwTGA.cpp:214-231): the
      index read of line 218 and the `memcpy` of line 230, both in `ReadIndexAndCopy`,
      then the step `i += bytesPerOutputPixel` of line 214; the cursor moves by one
      index. The ghost parameters carry the loop invariant: the run of `k` fetches
      written so far, `done`, extended by one. */
  method ColorMapStep(target: array<byte>, off: nat, i: nat, input: seq<byte>, at: nat, palette: seq<byte>,
                      bpi: nat, bpo: nat, ghost f: PixelFormat, ghost pos: nat, ghost k: nat, ghost count: nat,
                      ghost done: seq<byte>, ghost orig: seq<byte>)
    returns (i': nat, at': nat, ghost k': nat, ghost done': seq<byte>)
    requires f == PixelFormat(ColorMap(palette), bpi, bpo) && f.Valid() && k < count
    requires PerPixel(f, input, pos, count).Some?
    requires PerPixel(f, input, pos, k) == Some(Fetched(done, at))
    requires ProductIs(k, bpo, i) && i == |done| && i + bpo <= count * bpo
    requires off + count * bpo <= target.Length == |orig|
    requires target[..] == Overwrite(orig, off, done)
    modifies target
    ensures ProductIs(k', bpo, i') && i' == |done'| && i' <= count * bpo && k' == k + 1
    ensures PerPixel(f, input, pos, k') == Some(Fetched(done', at'))
    ensures target[..] == Overwrite(orig, off, done')
  {
    i' := i + bpo;
    at' := at + bpi;
    k' := k + 1;
    ghost var entry := PerPixelAdvance(f, input, pos, k, k', count, done, at, at');
    ReadIndexAndCopy(target, off + i, input, at, at', palette, bpi, bpo);
    OverwriteConsecutive(orig, off, done, entry);
    done' := done + entry;
  }

  /** The body of that loop (source/gwTGA.cpp:218-230): `stream.read` of the
      `bpi`-byte index into the zeroed `colorIdx`, then the `memcpy` of palette entry
      `colorIdx` to `off`. It writes the per-pixel fetch of the index bytes. */
  method ReadIndexAndCopy(target: array<byte>, off: nat, input: seq<byte>, at: nat, at': nat,
                          palette: seq<byte>, bpi: nat, bpo: nat)
    requires 1 <= bpi <= 3 && at' == at + bpi && at' <= |input|
    requires PaletteEntry(palette, ColorIndex(input[at .. at']), bpo).Some?
    requires off + bpo <= target.Length
    modifies target
    ensures target[..] == Overwrite(old(target[..]), off,
      FetchPixel(PixelFormat(ColorMap(palette), bpi, bpo), input[at .. at']).value)
  {
    var colorIdx, _ := ReadField(input, at, bpi);
    ColorIndexIsLe(input[at .. at']);
    PaletteEntryAt(palette, colorIdx, bpo);
    MemCopy(target, off, palette[colorIdx * bpo .. colorIdx * bpo + bpo]);
  }

  /** One more per-pixel fetch after `k` of the `count` that succeed: the input pixel
      at the cursor is there, its fetch succeeds, and it extends the run to `k' = k + 1`
      fetches ending at `at'`. */
  lemma PerPixelAdvance(f: PixelFormat, input: seq<byte>, pos: nat, k: nat, k': nat, count: nat, done: seq<byte>, at: nat, at': nat)
    returns (p: seq<byte>)
    requires f.Valid() && k < count && k' == k + 1 && at' == at + f.bytesPerInputPixel
    requires PerPixel(f, input, pos, count).Some?
    requires PerPixel(f, input, pos, k) == Some(Fetched(done, at))
    ensures at' <= |input|
    ensures FetchPixel(f, input[at .. at']) == Some(p)
    ensures PerPixel(f, input, pos, k') == Some(Fetched(done + p, at'))
  {
    PerPixelPrefix(f, input, pos, k + 1, count);
    p := PerPixelStep(f, input, pos, k, done, at);
  }

  /** The `fetchPixel` template argument of `decompressRLE`: the direct copy or the
      palette lookup, as the format's source selects. */
  method FetchOne(target: array<byte>, off: nat, f: PixelFormat, px: seq<byte>)
    requires f.Valid() && |px| == f.bytesPerInputPixel
    requires FetchPixel(f, px).Some?
    requires off + f.bytesPerOutputPixel <= target.Length
    modifies target
    ensures target[..] == Overwrite(old(target[..]), off, FetchPixel(f, px).value)
  {
    match f.source
    case Direct =>
      FetchPixelUncompressed(target, off, px);
    case ColorMap(palette) =>
      FetchPixelColorMap(target, off, px, palette, f.bytesPerInputPixel, f.bytesPerOutputPixel);
  }

  /** The `fetchPixels` template argument of `decompressRLE`: the batched direct copy or
      the batched palette lookup, as the format's source selects. */
  method FetchMany(target: array<byte>, off: nat, f: PixelFormat, input: seq<byte>, pos: nat, count: nat)
    returns (next: nat)
    requires f.Valid()
    requires FetchRun(f, input, pos, count).Some?
    requires off + count * f.bytesPerOutputPixel <= target.Length
    modifies target
    ensures target[..] == Overwrite(old(target[..]), off, FetchRun(f, input, pos, count).value.bytes)
    ensures next == FetchRun(f, input, pos, count).value.next
  {
    match f.source
    case Direct =>
      next := FetchPixelsUncompressed(target, off, input, pos, f.bytesPerInputPixel, count);
    case ColorMap(palette) =>
      next := FetchPixelsColorMap(target, off, input, pos, f.bytesPerInputPixel, palette, f.bytesPerOutputPixel, count);
  }

  /** Inside the loop of `FetchPixelsColorMap` one more step still fits. */
  lemma StepBelow(k: nat, count: nat, bpo: nat, i: int)
    requires ProductIs(k, bpo, i) && i < count * bpo
    ensures bpo > 0 && k < count && i + bpo <= count * bpo
  {
    ProductIsMul(k, bpo, i);
    MulMono(count, k, bpo);
    MulMono(k + 1, count, bpo);
    MulPred(k + 1, bpo);
  }

  /** On leaving the loop of `FetchPixelsColorMap` all `count` steps are done. */
  lemma StepsDone(k: nat, count: nat, bpo: nat, i: int)
    requires bpo > 0 && k <= count && ProductIs(k, bpo, i) && i >= count * bpo
    ensures k == count
  {
    ProductIsMul(k, bpo, i);
    MulMono(k + 1, count, bpo);
    MulPred(k + 1, bpo);
  }
}
