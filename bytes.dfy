/** Byte-level vocabulary shared by the decoder: fixed-width unsigned integers,
    little-endian values, replication and in-place buffer writes. */
module Bytes {

  /** One octet of the input stream or of an output buffer. */
  type byte = x: int | 0 <= x < 0x100

  /** `uint8_t` and `uint16_t` header fields. */
  type u8 = byte
  type u16 = x: int | 0 <= x < 0x1_0000

  /** 256 to the power `n`: one more than the largest `n`-byte unsigned value. */
  function Pow256(n: nat): (p: nat)
    ensures p >= 1
  {
    if n == 0 then 1 else 256 * Pow256(n - 1)
  }

  /** Unsigned value of `s` read least significant byte first. */
  function Le(s: seq<byte>): (n: nat)
    ensures n < Pow256(|s|)
  {
    if s == [] then 0 else s[0] + 256 * Le(s[1..])
  }

  /** Two byte strings of one width with the same little-endian value are equal:
      every byte of a field is recoverable from the field's value. */
  lemma {:induction false} LeInjective(s: seq<byte>, t: seq<byte>)
    requires |s| == |t| && Le(s) == Le(t)
    ensures s == t
  {
    if s != [] {
      assert s[0] == Le(s) % 256 && t[0] == Le(t) % 256;
      assert Le(s[1..]) == Le(s) / 256 && Le(t[1..]) == Le(t) / 256;
      LeInjective(s[1..], t[1..]);
      assert s == [s[0]] + s[1..] && t == [t[0]] + t[1..];
    }
  }

  /** One more byte `b` after `s` adds `b` in the next higher place. */
  lemma {:induction false} LeSnoc(s: seq<byte>, b: byte)
    ensures Le(s + [b]) == Le(s) + b * Pow256(|s|)
  {
    var t := s + [b];
    if s != [] {
      assert t[0] == s[0] && t[1..] == s[1..] + [b];
      LeSnoc(s[1..], b);
      var p := Pow256(|s| - 1);
      assert Pow256(|s|) == 256 * p;
      ShiftPlace(b, p);
      assert Le(t) == s[0] + 256 * Le(s[1..]) + 256 * (b * p);
    } else {
      assert t[1..] == [];
    }
  }

  lemma ShiftPlace(b: nat, p: nat)
    ensures 256 * (b * p) == b * (256 * p)
  {
  }

  /** Reads the `width` bytes at the cursor as one little-endian integer and advances
      the cursor past them: one `stream.read` into a zeroed integer variable of at
      least that width on a little-endian host, byte `j` of the stream landing in
      byte `j` of the variable, that is, adding its value times 256 to the power `j`. */
  method ReadField(input: seq<byte>, pos: nat, width: nat) returns (v: nat, next: nat)
    requires pos + width <= |input|
    ensures v == Le(input[pos..pos + width]) && v < Pow256(width)
    ensures next == pos + width
  {
    v := 0;
    var j := 0;
    assert input[pos..pos] == [];
    while j < width
      invariant j <= width
      invariant v == Le(input[pos..pos + j])
    {
      LeSnoc(input[pos..pos + j], input[pos + j]);
      assert input[pos..pos + j] + [input[pos + j]] == input[pos..pos + j + 1];
      v := v + input[pos + j] * Pow256(j);
      j := j + 1;
    }
    next := pos + width;
  }

  /** `count` consecutive copies of the pixel `p`. */
  function Repeat(p: seq<byte>, count: nat): (r: seq<byte>)
    ensures |r| == count * |p|
  {
    if count == 0 then [] else Repeat(p, count - 1) + p
  }

  /** Copy `k` of the pixel sits at byte offset `k * |p|` of the replication. */
  lemma {:induction false} RepeatAt(p: seq<byte>, count: nat, k: nat)
    requires k < count
    ensures k * |p| + |p| <= |Repeat(p, count)|
    ensures Repeat(p, count)[k * |p| .. k * |p| + |p|] == p
  {
    assert (k + 1) * |p| == k * |p| + |p|;
    if k < count - 1 {
      RepeatAt(p, count - 1, k);
      assert (k + 1) * |p| <= (count - 1) * |p|;
      assert Repeat(p, count)[..(count - 1) * |p|] == Repeat(p, count - 1);
    } else {
      assert k * |p| == |Repeat(p, count - 1)|;
    }
  }

  /** Fewer copies than `count`, plus one more, still fit in `count` copies. */
  lemma RepeatFits(p: seq<byte>, i: nat, count: nat)
    requires i < count
    ensures |Repeat(p, i)| + |p| <= |Repeat(p, count)|
  {
    MulPred(i + 1, |p|);
    MulMono(i + 1, count, |p|);
  }

  /** Byte offset of slot `k` in a buffer of `w`-byte slots. */
  function SlotAt(k: nat, w: nat): nat
  {
    k * w
  }

  /** A slice inside a prefix `a` of `b` is the same slice of `b`. */
  lemma SliceOfPrefix(a: seq<byte>, b: seq<byte>, o: int, n: nat)
    requires a <= b && 0 <= o && o + n <= |a|
    ensures b[o .. o + n] == a[o .. o + n]
  {
  }

  /** `s` with the bytes `w` written at offset `off`: the effect of a `memcpy`
      or a `stream.read` into a buffer. */
  function Overwrite(s: seq<byte>, off: nat, w: seq<byte>): (r: seq<byte>)
    requires off + |w| <= |s|
    ensures |r| == |s|
  {
    s[..off] + w + s[off + |w|..]
  }

  /** Writing `a` and then `b` right after it is one write of `a + b`. */
  lemma OverwriteConsecutive(s: seq<byte>, off: nat, a: seq<byte>, b: seq<byte>)
    requires off + |a| + |b| <= |s|
    ensures Overwrite(Overwrite(s, off, a), off + |a|, b) == Overwrite(s, off, a + b)
  {
    var l := Overwrite(Overwrite(s, off, a), off + |a|, b);
    var r := Overwrite(s, off, a + b);
    assert forall i :: 0 <= i < |s| ==> l[i] == r[i];
  }

  /** A write as long as the buffer replaces all of it. */
  lemma OverwriteAll(s: seq<byte>, w: seq<byte>)
    requires |w| == |s|
    ensures Overwrite(s, 0, w) == w
  {
    assert s[..0] == [] && s[|w|..] == [];
  }

  /** The written bytes follow the untouched prefix. */
  lemma OverwritePrefix(s: seq<byte>, off: nat, w: seq<byte>)
    requires off + |w| <= |s|
    ensures Overwrite(s, off, w)[..off + |w|] == s[..off] + w
  {
  }

  /** `memcpy(&target[off], src, |src|)`, and equally `stream.read(&target[off], |src|)`
      once the stream has delivered the bytes `src`. */
  method MemCopy(target: array<byte>, off: nat, src: seq<byte>)
    requires off + |src| <= target.Length
    modifies target
    ensures target[..] == Overwrite(old(target[..]), off, src)
  {
    forall j | 0 <= j < |src| {
      target[off + j] := src[j];
    }
    assert forall i :: 0 <= i < target.Length ==> target[..][i] == Overwrite(old(target[..]), off, src)[i];
  }

  /** Multiplication distributes over addition. */
  lemma MulAdd(a: nat, b: nat, c: nat)
    ensures (a + b) * c == a * c + b * c
  {
  }

  /** One factor fewer takes away one copy of the other. */
  lemma MulPred(n: nat, c: nat)
    requires n > 0
    ensures n * c == (n - 1) * c + c
  {
    MulAdd(n - 1, 1, c);
  }

  /** `p == k * c`, stated as `k` additions of `c`: a loop that adds `c` to `p` each
      time it counts one more step keeps it without reasoning about products. */
  ghost predicate ProductIs(k: nat, c: nat, p: int)
  {
    if k == 0 then p == 0 else ProductIs(k - 1, c, p - c)
  }

  lemma {:induction false} ProductIsMul(k: nat, c: nat, p: int)
    ensures ProductIs(k, c, p) <==> p == k * c
  {
    if k > 0 {
      ProductIsMul(k - 1, c, p - c);
      MulPred(k, c);
    }
  }

  /** Multiplying by the same factor keeps the order. */
  lemma MulMono(a: nat, b: nat, c: nat)
    ensures a <= b ==> a * c <= b * c
  {
  }
}
