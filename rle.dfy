/** The run-length decoder of image types 9, 10 and 11 (`decompressRLE`): a sequence of
    packets, each a one-byte header followed either by one pixel repeated (a run packet)
    or by the pixels themselves (a raw packet), decoded into consecutive output slots
    until the requested number of pixels has been produced. */
module Rle {
  import opened Wrappers
  import opened Bytes
  import opened Fetch

  /** `(packetHeader & 0x7F) + 1`: the low seven bits of a packet header count the
      pixels of the packet, less one, so every packet holds 1 to 128 pixels. On an
      8-bit value the mask `& 0x7F` leaves the remainder modulo 128. */
  function PacketCount(h: byte): (c: nat)
    ensures 1 <= c <= 128
  {
    h % 128 + 1
  }

  /** `(packetHeader & 0x80) == 0x80`: the top bit of an 8-bit header is set exactly
      when the header is at least 128. */
  predicate IsRunPacket(h: byte): (b: bool)
    ensures b <==> h % 128 != h
  {
    h >= 128
  }

  /** The body of one packet whose header `h` has already been read, starting at `pos`:
      a run packet reads one input pixel and fetches it `count` times, a raw packet
      fetches `count` input pixels with the batched form. */
  function Packet(f: PixelFormat, input: seq<byte>, pos: nat, h: byte): (r: Option<Fetched>)
    requires f.Valid()
    ensures r.Some? ==> |r.value.bytes| == PacketCount(h) * f.bytesPerOutputPixel
  {
    if IsRunPacket(h) then
      var bpi := f.bytesPerInputPixel;
      if pos + bpi > |input| then None
      else
        match FetchPixel(f, input[pos .. pos + bpi])
        case None => None
        case Some(p) => Some(Fetched(Repeat(p, PacketCount(h)), pos + bpi))
    else
      FetchRun(f, input, pos, PacketCount(h))
  }

  /** Output of the decoder: the bytes written from the start of the buffer, the number
      of pixels they hold and the stream cursor after the last packet read. */
  datatype Decoded = Decoded(bytes: seq<byte>, pixels: nat, next: nat)

  /** Reads packets from `pos` while fewer than `need` pixels have been produced. The
      last packet is not cut short, so the output may hold more than `need` pixels.
      `None` when the stream ends inside a packet or a palette index is out of range. */
  function DecodeRle(f: PixelFormat, input: seq<byte>, pos: nat, need: int): (r: Option<Decoded>)
    requires f.Valid()
    ensures r.Some? ==> |r.value.bytes| == r.value.pixels * f.bytesPerOutputPixel
    ensures r.Some? && need <= 0 ==> r.value == Decoded([], 0, pos)
    ensures r.Some? && need > 0 ==> need <= r.value.pixels < need + 128
    decreases need
  {
    if need <= 0 then Some(Decoded([], 0, pos))
    else if pos >= |input| then None
    else
      var h := input[pos];
      match Packet(f, input, pos + 1, h)
      case None => None
      case Some(p) =>
        match DecodeRle(f, input, p.next, need - PacketCount(h))
        case None => None
        case Some(rest) =>
          MulAdd(PacketCount(h), rest.pixels, f.bytesPerOutputPixel);
          Some(Decoded(p.bytes + rest.bytes, PacketCount(h) + rest.pixels, rest.next))
  }

  /** The header byte is exactly its type bit above its count: two headers agree on
      both iff they are the same byte, so no header value is ambiguous or unused. */
  lemma PacketHeaderFields(h: byte, g: byte)
    ensures (IsRunPacket(h) == IsRunPacket(g) && PacketCount(h) == PacketCount(g)) <==> h == g
  {
    assert h == (if IsRunPacket(h) then 128 else 0) + PacketCount(h) - 1;
    assert g == (if IsRunPacket(g) then 128 else 0) + PacketCount(g) - 1;
  }

  /** A raw packet holds as many input pixels as its count, fetched in one batch. */
  lemma RawPacket(f: PixelFormat, input: seq<byte>, pos: nat, h: byte)
    requires f.Valid() && !IsRunPacket(h)
    ensures Packet(f, input, pos, h) == FetchRun(f, input, pos, PacketCount(h))
  {
  }

  /** A run packet that decodes reads one input pixel right after its header and
      repeats that pixel's fetch `PacketCount(h)` times. */
  lemma RunPacket(f: PixelFormat, input: seq<byte>, pos: nat, h: byte)
    requires f.Valid() && IsRunPacket(h)
    requires Packet(f, input, pos, h).Some?
    ensures pos + f.bytesPerInputPixel <= |input|
    ensures FetchPixel(f, input[pos .. pos + f.bytesPerInputPixel]).Some?
    ensures Packet(f, input, pos, h).value ==
      Fetched(Repeat(FetchPixel(f, input[pos .. pos + f.bytesPerInputPixel]).value, PacketCount(h)), pos + f.bytesPerInputPixel)
  {
  }

  /** Every slot of a run packet holds the fetch of its one input pixel: slot `k` is
      bytes `k * bpo .. k * bpo + bpo` of the packet's output. */
  lemma RunPacketSlots(f: PixelFormat, input: seq<byte>, pos: nat, h: byte, k: nat)
    requires f.Valid() && IsRunPacket(h) && k < PacketCount(h)
    requires Packet(f, input, pos, h).Some?
    ensures k * f.bytesPerOutputPixel + f.bytesPerOutputPixel <= |Packet(f, input, pos, h).value.bytes|
    ensures Packet(f, input, pos, h).value.bytes[k * f.bytesPerOutputPixel .. k * f.bytesPerOutputPixel + f.bytesPerOutputPixel]
      == FetchPixel(f, input[pos .. pos + f.bytesPerInputPixel]).value
  {
    RunPacket(f, input, pos, h);
    RepeatAt(FetchPixel(f, input[pos .. pos + f.bytesPerInputPixel]).value, PacketCount(h), k);
  }

  /** With a buffer of exactly `need` output pixels, as the loader allocates, the
      decoding fits exactly when its packets add up to `need` pixels: since the last
      packet is never cut short, any excess is written past the end of the buffer. */
  lemma FitsIffExact(f: PixelFormat, input: seq<byte>, pos: nat, need: nat)
    requires f.Valid() && f.bytesPerOutputPixel > 0
    requires DecodeRle(f, input, pos, need).Some?
    ensures |DecodeRle(f, input, pos, need).value.bytes| <= need * f.bytesPerOutputPixel
      <==> DecodeRle(f, input, pos, need).value.pixels == need
  {
    var d := DecodeRle(f, input, pos, need).value;
    if d.pixels > need {
      MulMono(need + 1, d.pixels, f.bytesPerOutputPixel);
      MulPred(need + 1, f.bytesPerOutputPixel);
    }
  }

  /** A run packet is not clamped to what is still needed: one pixel requested from the
      stream `0x81 07` (a run of two copies of the byte 7) decodes to two pixels, so a
      one-pixel buffer would be overrun by one byte. */
  lemma RunOverrun()
    ensures DecodeRle(PixelFormat(Direct, 1, 1), [0x81, 7], 0, 1) == Some(Decoded([7, 7], 2, 2))
  {
    var f := PixelFormat(Direct, 1, 1);
    var s: seq<byte> := [0x81, 7];
    assert s[0] == 0x81 && PacketCount(0x81) == 2 && IsRunPacket(0x81);
    assert s[1 .. 2] == [7];
    assert Repeat([7], 2) == Repeat([7], 1) + [7] == [7, 7];
    assert Packet(f, s, 1, 0x81) == Some(Fetched([7, 7], 2));
    assert DecodeRle(f, s, 2, -1) == Some(Decoded([], 0, 2));
    assert [7, 7] + [] == [7, 7];
  }

  /** `decompressRLE`: the `while` loop over packets with its `readPixels` counter,
      writing pixel `k` at byte `k * bytesPerOutputPixel` of `target`. `f` carries
      `bytesPerInputPixel`, the palette and `bytesPerOutputPixel`, and its source
      selects the pair of fetch functions the template is instantiated with. Every
      byte written must lie inside `target`; the source does not check it. */
  method DecompressRle(target: array<byte>, pixelsNumber: nat, f: PixelFormat, input: seq<byte>, pos: nat)
    returns (next: nat)
    requires f.Valid()
    requires DecodeRle(f, input, pos, pixelsNumber).Some?
    requires |DecodeRle(f, input, pos, pixelsNumber).value.bytes| <= target.Length
    modifies target
    ensures var d := DecodeRle(f, input, pos, pixelsNumber).value;
      target[..] == Overwrite(old(target[..]), 0, d.bytes) && next == d.next
  {
    ghost var total := DecodeRle(f, input, pos, pixelsNumber).value;
    ghost var done: seq<byte> := [];
    var readPixels: nat := 0;
    next := pos;
    assert Overwrite(target[..], 0, []) == target[..];
    assert DecodeRle(f, input, next, pixelsNumber - readPixels).value == total;
    assert Joined(done, readPixels, total) == total;
    while readPixels < pixelsNumber
      invariant DecodeRle(f, input, next, pixelsNumber - readPixels).Some?
      invariant Joined(done, readPixels, DecodeRle(f, input, next, pixelsNumber - readPixels).value) == total
      invariant |done| <= target.Length
      invariant target[..] == Overwrite(old(target[..]), 0, done)
      decreases pixelsNumber - readPixels
    {
      next, readPixels, done := NextPacket(target, f, input, next, readPixels, pixelsNumber, done, total, old(target[..]));
    }
    DecodeRleDone(f, input, next, pixelsNumber - readPixels, done, readPixels, total);
  }

  /** One pass of the `while` loop (source/gwTGA.cpp:247-275), seen against the whole
      decoding `total`: the statements of the pass are `DecodePacket`; the ghost
      parameters carry the loop invariant, under which the packet at the cursor moves
      from what is still to come to what is written. */
  method NextPacket(target: array<byte>, f: PixelFormat, input: seq<byte>, at: nat, readPixels: nat,
                    ghost pixelsNumber: nat, ghost done: seq<byte>, ghost total: Decoded, ghost orig: seq<byte>)
    returns (next: nat, readPixels': nat, ghost done': seq<byte>)
    requires f.Valid() && readPixels < pixelsNumber
    requires |total.bytes| == total.pixels * f.bytesPerOutputPixel
    requires DecodeRle(f, input, at, pixelsNumber - readPixels).Some?
    requires Joined(done, readPixels, DecodeRle(f, input, at, pixelsNumber - readPixels).value) == total
    requires |total.bytes| <= target.Length == |orig|
    requires target[..] == Overwrite(orig, 0, done)
    modifies target
    ensures DecodeRle(f, input, next, pixelsNumber - readPixels').Some?
    ensures Joined(done', readPixels', DecodeRle(f, input, next, pixelsNumber - readPixels').value) == total
    ensures |done'| <= target.Length
    ensures target[..] == Overwrite(orig, 0, done')
    ensures readPixels' > readPixels
  {
    ghost var packet := DecodeRleStep(f, input, at, pixelsNumber - readPixels, done, readPixels, total);
    OverwriteConsecutive(orig, 0, done, packet.bytes);
    next, readPixels' := DecodePacket(target, f, input, at, readPixels);
    done' := done + packet.bytes;
  }

  /** One pass of the loop of `decompressRLE` (source/gwTGA.cpp:249-275): reads the
      packet header at `at` and writes the packet's pixels from slot `readPixels`,
      advancing `readPixels` by the packet's count. */
  method DecodePacket(target: array<byte>, f: PixelFormat, input: seq<byte>, at: nat, readPixels: nat)
    returns (next: nat, readPixels': nat)
    requires f.Valid() && at < |input|
    requires Packet(f, input, at + 1, input[at]).Some?
    requires readPixels * f.bytesPerOutputPixel + |Packet(f, input, at + 1, input[at]).value.bytes| <= target.Length
    modifies target
    ensures var packet := Packet(f, input, at + 1, input[at]).value;
      && target[..] == Overwrite(old(target[..]), readPixels * f.bytesPerOutputPixel, packet.bytes)
      && next == packet.next
      && readPixels' == readPixels + PacketCount(input[at])
  {
    var bpi, bpo := f.bytesPerInputPixel, f.bytesPerOutputPixel;
    var packetHeader := input[at];
    var repetitionCount := PacketCount(packetHeader);
    if IsRunPacket(packetHeader) {
      RunPacket(f, input, at + 1, packetHeader);
      var colorValues := input[at + 1 .. at + 1 + bpi];
      readPixels' := EmitRun(target, f, colorValues, readPixels, repetitionCount);
      next := at + 1 + bpi;
    } else {
      RawPacket(f, input, at + 1, packetHeader);
      next := FetchMany(target, readPixels * bpo, f, input, at + 1, repetitionCount);
      readPixels' := readPixels + repetitionCount;
    }
  }

  /** The inner `for` loop of a run packet (source/gwTGA.cpp:260-265): fetches the
      pixel `px` into `count` consecutive slots from slot `readPixels`, counting each
      one. */
  method EmitRun(target: array<byte>, f: PixelFormat, px: seq<byte>, readPixels: nat, count: nat)
    returns (readPixels': nat)
    requires f.Valid() && |px| == f.bytesPerInputPixel
    requires FetchPixel(f, px).Some?
    requires readPixels * f.bytesPerOutputPixel + count * f.bytesPerOutputPixel <= target.Length
    modifies target
    ensures readPixels' == readPixels + count
    ensures target[..] == Overwrite(old(target[..]), readPixels * f.bytesPerOutputPixel, Repeat(FetchPixel(f, px).value, count))
  {
    ghost var p := FetchPixel(f, px).value;
    ghost var start := readPixels * f.bytesPerOutputPixel;
    readPixels' := readPixels;
    var i := 0;
    assert Overwrite(target[..], start, []) == target[..];
    while i < count
      invariant i <= count && readPixels' == readPixels + i
      invariant readPixels' * f.bytesPerOutputPixel == start + |Repeat(p, i)|
      invariant start + |Repeat(p, i)| <= target.Length
      invariant target[..] == Overwrite(old(target[..]), start, Repeat(p, i))
    {
      readPixels', i := EmitOne(target, f, px, readPixels', i, start, count, old(target[..]));
    }
  }

  /** One pass of that `for` loop (source/gwTGA.cpp:262-264): the `fetchPixel` call of
      line 262 puts the pixel in slot `at`, the copy after the `i` already written,
      and line 264 counts it. */
  method EmitOne(target: array<byte>, f: PixelFormat, px: seq<byte>, at: nat, i: nat,
                 ghost start: nat, ghost count: nat, ghost orig: seq<byte>)
    returns (at': nat, i': nat)
    requires f.Valid() && |px| == f.bytesPerInputPixel
    requires FetchPixel(f, px).Some?
    requires i < count && start + count * f.bytesPerOutputPixel <= target.Length == |orig|
    requires at * f.bytesPerOutputPixel == start + |Repeat(FetchPixel(f, px).value, i)|
    requires target[..] == Overwrite(orig, start, Repeat(FetchPixel(f, px).value, i))
    modifies target
    ensures at' == at + 1 && i' == i + 1
    ensures at' * f.bytesPerOutputPixel == start + |Repeat(FetchPixel(f, px).value, i')|
    ensures start + |Repeat(FetchPixel(f, px).value, i')| <= |orig|
    ensures target[..] == Overwrite(orig, start, Repeat(FetchPixel(f, px).value, i'))
  {
    ghost var p := FetchPixel(f, px).value;
    RepeatFits(p, i, count);
    FetchOne(target, at * f.bytesPerOutputPixel, f, px);
    OverwriteConsecutive(orig, start, Repeat(p, i), p);
    MulPred(at + 1, f.bytesPerOutputPixel);
    at' := at + 1;
    i' := i + 1;
  }

  /** A decoding that still needs pixels and succeeds is the packet at the cursor
      followed by the decoding of what that packet leaves to be produced: seen from the
      whole stream, moving that packet from what is still to come to what is already
      produced leaves the whole unchanged. */
  lemma DecodeRleStep(f: PixelFormat, input: seq<byte>, at: nat, need: int,
                      done: seq<byte>, read: nat, total: Decoded) returns (packet: Fetched)
    requires f.Valid() && need > 0
    requires DecodeRle(f, input, at, need).Some?
    requires Joined(done, read, DecodeRle(f, input, at, need).value) == total
    requires |total.bytes| == total.pixels * f.bytesPerOutputPixel
    ensures at < |input| && Packet(f, input, at + 1, input[at]) == Some(packet)
    ensures |done| == read * f.bytesPerOutputPixel
    ensures |done| + |packet.bytes| <= |total.bytes|
    ensures DecodeRle(f, input, packet.next, need - PacketCount(input[at])).Some?
    ensures Joined(done + packet.bytes, read + PacketCount(input[at]),
                   DecodeRle(f, input, packet.next, need - PacketCount(input[at])).value) == total
  {
    var rest := DecodeRle(f, input, at, need).value;
    packet := Packet(f, input, at + 1, input[at]).value;
    var after := DecodeRle(f, input, packet.next, need - PacketCount(input[at])).value;
    MulAdd(read, rest.pixels, f.bytesPerOutputPixel);
    assert done + packet.bytes + after.bytes == done + (packet.bytes + after.bytes);
  }

  /** Once no more pixels are needed, what is already produced is the whole decoding. */
  lemma DecodeRleDone(f: PixelFormat, input: seq<byte>, at: nat, need: int,
                      done: seq<byte>, read: nat, total: Decoded)
    requires f.Valid() && need <= 0
    requires DecodeRle(f, input, at, need).Some?
    requires Joined(done, read, DecodeRle(f, input, at, need).value) == total
    ensures done == total.bytes && at == total.next
  {
    assert done + [] == done;
  }

  /** The decoding of a whole stream seen from a point inside it: `done` and `read`
      already produced, `rest` still to come. */
  ghost function Joined(done: seq<byte>, read: nat, rest: Decoded): Decoded
  {
    Decoded(done + rest.bytes, read + rest.pixels, rest.next)
  }
}
