/** The boot image format as written by hardware/tools/elf2bin.py:64-96. */
module BootImage {
  import opened Arithmetic
  import opened Octets

  // ---------------------------------------------------------------- little-endian numbers

  function Le32(x: nat): (s: Bytes)
    ensures |s| == 4
  {
    [x % 0x100, x / 0x100 % 0x100, x / 0x1_0000 % 0x100, x / 0x100_0000 % 0x100]
  }

  function FromLe32(s: Bytes): (x: nat)
    requires |s| == 4
  {
    s[0] + 0x100 * (s[1] as int) + 0x1_0000 * (s[2] as int) + 0x100_0000 * (s[3] as int)
  }

  lemma {:induction false} Le32RoundTrip(x: nat)
    requires x < 0x1_0000_0000
    ensures FromLe32(Le32(x)) == x
  {
    var a, b, c := x / 0x100, x / 0x1_0000, x / 0x100_0000;
    assert b == a / 0x100 && c == b / 0x100;
    assert x == 0x100 * a + x % 0x100 && a == 0x100 * b + a % 0x100 && b == 0x100 * c + b % 0x100;
    RemainderOfSmall(c, 0x100);
  }

  /** The first byte is the low one. */
  lemma {:induction false} LowByteFirst(s: Bytes)
    requires |s| == 4
    ensures FromLe32(s) % 0x100 == s[0] && FromLe32(s) / 0x100 == FromLe32(s[1..] + [0])
  {
    QuotientUnique(FromLe32(s), 0x100, FromLe32(s[1..] + [0]), s[0]);
  }

  // ---------------------------------------------------------------- the format

  /** A segment as the ELF tools report it: an address, a size, and the bytes that were extracted. */
  datatype Segment = Segment(addr: nat, size: nat, raw: Bytes)

  predicate Sound(seg: Segment) {
    seg.addr < 0x1_0000_0000 && seg.size < 0x1_0000_0000 && |seg.raw| == seg.size
  }

  function Header(entry: nat, count: nat, mode: Byte, sizeFreq: Byte): (h: Bytes)
    ensures |h| == 8
  {
    [0xe9, count % 0x100, mode, sizeFreq] + Le32(entry)
  }

  function SegmentHeader(seg: Segment): (h: Bytes)
    ensures |h| == 8
  {
    Le32(seg.addr) + Le32(seg.size)
  }

  function Body(segments: seq<Segment>): Bytes {
    if segments == [] then []
    else SegmentHeader(segments[0]) + segments[0].raw + Body(segments[1..])
  }

  function XorAll(seed: Byte, data: Bytes): Byte
    decreases data
  {
    if data == [] then seed else XorAll(Xor(seed, data[0]), data[1..])
  }

  function Checksum(seed: Byte, segments: seq<Segment>): Byte
    decreases segments
  {
    if segments == [] then seed else Checksum(XorAll(seed, segments[0].raw), segments[1..])
  }

  /** The number of zeros that make room for the checksum in the last byte of a line of sixteen. */
  function Padding(n: nat): (k: nat)
    ensures k < 16 && (n + 1 + k) % 16 == 0
  {
    (15 - n % 16)
  }

  function Repeat(b: Byte, n: nat): (s: Bytes)
    ensures |s| == n
  {
    seq(n, _ => b)
  }

  function ImageOf(header: Bytes, segments: seq<Segment>, toAddr: nat): Bytes {
    var content := header + Body(segments);
    var line := content + Repeat(0, Padding(|content|)) + [Checksum(0xef, segments)];
    line + Repeat(0xaa, if |line| < toAddr then toAddr - |line| else 0)
  }

  // ---------------------------------------------------------------- write_bin

  datatype Outcome = Written | TooManySegments | SizeMismatch(index: nat)

  class OutFile {
    var bytes: Bytes

    constructor ()
      ensures bytes == []
    {
      bytes := [];
    }

    method Write(data: Bytes)
      modifies this
      ensures bytes == old(bytes) + data
    {
      bytes := bytes + data;
    }
  }

  /** The loop over the bytes of one segment. */
  method AddToChecksum(seed: Byte, raw: Bytes) returns (checksum: Byte)
    ensures checksum == XorAll(seed, raw)
  {
    checksum := seed;
    var i := 0;
    assert raw[0..] == raw;
    while i < |raw|
      invariant i <= |raw| && XorAll(checksum, raw[i..]) == XorAll(seed, raw)
    {
      assert raw[i..][1..] == raw[i + 1..];
      checksum := Xor(checksum, raw[i]);
      i := i + 1;
    }
  }

  predicate Matches(segments: seq<Segment>, n: nat)
    requires n <= |segments|
  {
    forall j :: 0 <= j < n ==> |segments[j].raw| == segments[j].size
  }

  lemma {:induction false} BodyStep(done: Bytes, segments: seq<Segment>, i: nat)
    requires i < |segments|
    ensures done + SegmentHeader(segments[i]) + segments[i].raw + Body(segments[i + 1..])
            == done + Body(segments[i..])
    ensures |Body(segments[i..])| == 8 + |segments[i].raw| + |Body(segments[i + 1..])|
  {
    assert segments[i..][1..] == segments[i + 1..];
  }

  lemma {:induction false} ChecksumStep(checksum: Byte, segments: seq<Segment>, i: nat)
    requires i < |segments|
    ensures Checksum(XorAll(checksum, segments[i].raw), segments[i + 1..]) == Checksum(checksum, segments[i..])
  {
    assert segments[i..][1..] == segments[i + 1..];
  }

  /** The loop over the segments. */
  method WriteSegments(out: OutFile, segments: seq<Segment>, start: nat)
    returns (outcome: Outcome, total_size: nat, checksum: Byte)
    modifies out
    ensures outcome == Written <==> Matches(segments, |segments|)
    ensures outcome == Written ==>
              && out.bytes == old(out.bytes) + Body(segments)
              && total_size == start + |Body(segments)|
              && checksum == Checksum(0xef, segments)
    ensures outcome == Written || (outcome.SizeMismatch? && outcome.index < |segments| &&
              |segments[outcome.index].raw| != segments[outcome.index].size && Matches(segments, outcome.index))
  {
    total_size, checksum := start, 0xef;
    var i := 0;
    assert segments[0..] == segments;
    while i < |segments|
      invariant i <= |segments|
      invariant out.bytes + Body(segments[i..]) == old(out.bytes) + Body(segments)
      invariant total_size + |Body(segments[i..])| == start + |Body(segments)|
      invariant Checksum(checksum, segments[i..]) == Checksum(0xef, segments)
      invariant Matches(segments, i)
    {
      var seg := segments[i];
      BodyStep(out.bytes, segments, i);
      ChecksumStep(checksum, segments, i);
      out.Write(SegmentHeader(seg));
      total_size := total_size + 8;
      if |seg.raw| != seg.size {
        return SizeMismatch(i), total_size, checksum;
      }
      out.Write(seg.raw);
      total_size := total_size + |seg.raw|;
      checksum := AddToChecksum(checksum, seg.raw);
      i := i + 1;
    }
    assert segments[i..] == [];
    outcome := Written;
  }

  /** Writing a byte while a total has not reached its target. */
  method WritePadding(out: OutFile, total0: nat) returns (total_size: nat)
    requires total0 > 0
    modifies out
    ensures total_size == total0 + Padding(total0 - 1)
    ensures out.bytes == old(out.bytes) + Repeat(0, Padding(total0 - 1))
  {
    total_size := total0;
    while total_size % 16 != 0
      invariant total0 <= total_size <= total0 + Padding(total0 - 1)
      invariant out.bytes == old(out.bytes) + Repeat(0, total_size - total0)
      decreases total0 + Padding(total0 - 1) - total_size
    {
      total_size := total_size + 1;
      out.Write([0]);
    }
  }

  method WriteFill(out: OutFile, total0: nat, toAddr: nat)
    modifies out
    ensures out.bytes == old(out.bytes) + Repeat(0xaa, if total0 < toAddr then toAddr - total0 else 0)
  {
    var total_size := total0;
    if toAddr != 0 {
      while total_size < toAddr
        invariant total0 <= total_size && (total_size <= toAddr || total_size == total0)
        invariant out.bytes == old(out.bytes) + Repeat(0xaa, total_size - total0)
      {
        out.Write([0xaa]);
        total_size := total_size + 1;
      }
    }
  }

  lemma {:induction false} ImageInParts(start: Bytes, header: Bytes, segments: seq<Segment>, toAddr: nat)
    ensures var content := header + Body(segments);
            var pad, sum := Repeat(0, Padding(|content|)), [Checksum(0xef, segments)];
            var size := |content| + 1 + Padding(|content|);
            start + header + Body(segments) + pad + sum
              + Repeat(0xaa, if size < toAddr then toAddr - size else 0)
            == start + ImageOf(header, segments, toAddr)
  {
  }

  method WriteBin(out: OutFile, entry: nat, segments: seq<Segment>, toAddr: nat, mode: Byte, sizeFreq: Byte)
    returns (outcome: Outcome)
    modifies out
    ensures outcome == Written <==> |segments| <= 255 && Matches(segments, |segments|)
    ensures outcome == Written ==>
              out.bytes == old(out.bytes) + ImageOf(Header(entry, |segments|, mode, sizeFreq), segments, toAddr)
    ensures |segments| > 255 <==> outcome == TooManySegments
    ensures outcome == TooManySegments ==> out.bytes == old(out.bytes)
  {
    if |segments| > 255 {
      return TooManySegments;
    }
    var header := Header(entry, |segments|, mode, sizeFreq);
    ImageInParts(out.bytes, header, segments, toAddr);
    out.Write(header);
    var total_size, checksum;
    outcome, total_size, checksum := WriteSegments(out, segments, 8);
    if outcome != Written {
      return;
    }
    total_size := total_size + 1;
    total_size := WritePadding(out, total_size);
    out.Write([checksum]);
    WriteFill(out, total_size, toAddr);
  }

  // ---------------------------------------------------------------- properties of the format

  lemma {:induction false} BodySize(segments: seq<Segment>)
    ensures |Body(segments)| >= 8 * |segments|
  {
    if segments != [] {
      BodySize(segments[1..]);
    }
  }

  function Content(header: Bytes, segments: seq<Segment>): Bytes { header + Body(segments) }

  /** The image without fill ends with its checksum at the end of a line of sixteen bytes. */
  lemma {:induction false} ImageSize(header: Bytes, segments: seq<Segment>)
    ensures |ImageOf(header, segments, 0)| == (|Content(header, segments)| + 16) / 16 * 16
  {
    var n := |Content(header, segments)|;
    QuotientUnique(n + 16, 16, n / 16 + 1, n % 16);
  }

  /** The data of all segments. */
  function AllData(segments: seq<Segment>): Bytes {
    if segments == [] then [] else segments[0].raw + AllData(segments[1..])
  }

  /** An odd number of the bytes have that bit. */
  predicate Odd(data: Bytes, m: bv8) {
    data != [] && Bit(data[0], m) != Odd(data[1..], m)
  }

  lemma {:induction false} OddConcat(a: Bytes, b: Bytes, m: bv8)
    ensures Odd(a + b, m) == (Odd(a, m) != Odd(b, m))
  {
    if a == [] {
      assert a + b == b;
    } else {
      OddConcat(a[1..], b, m);
      assert (a + b)[0] == a[0] && (a + b)[1..] == a[1..] + b;
    }
  }

  lemma {:induction false} XorAllBit(seed: Byte, data: Bytes, m: bv8)
    requires IsBit(m)
    ensures Bit(XorAll(seed, data), m) == (Bit(seed, m) != Odd(data, m))
    decreases data
  {
    if data != [] {
      Bitwise(seed, data[0], m);
      XorAllBit(Xor(seed, data[0]), data[1..], m);
    }
  }

  /** A bit of the checksum tells whether an odd number of all data bytes have it. */
  lemma {:induction false} ChecksumBit(seed: Byte, segments: seq<Segment>, m: bv8)
    requires IsBit(m)
    ensures Bit(Checksum(seed, segments), m) == (Bit(seed, m) != Odd(AllData(segments), m))
    decreases segments
  {
    if segments != [] {
      var raw := segments[0].raw;
      XorAllBit(seed, raw, m);
      ChecksumBit(XorAll(seed, raw), segments[1..], m);
      OddConcat(raw, AllData(segments[1..]), m);
    }
  }

  lemma {:induction false} HeaderBytes(entry: nat, count: nat, mode: Byte, sizeFreq: Byte)
    requires entry < UINT32 && count <= 255
    ensures var h := Header(entry, count, mode, sizeFreq);
            h[..4] == [0xe9, count, mode, sizeFreq] && FromLe32(h[4..8]) == entry
  {
    var h := Header(entry, count, mode, sizeFreq);
    Le32RoundTrip(entry);
    assert h[4..8] == Le32(entry);
  }

  lemma {:induction false} ImageStart(header: Bytes, segments: seq<Segment>, toAddr: nat)
    requires |header| == 8
    ensures var n := 8 + |Body(segments)|;
            var image, line := ImageOf(header, segments, toAddr), n + Padding(n) + 1;
            && |image| == (if line < toAddr then toAddr else line)
            && image[..8] == header && image[8..n] == Body(segments)
            && image[line - 1] == Checksum(0xef, segments)
  {
  }

  lemma {:induction false} ImageFilling(header: Bytes, segments: seq<Segment>, toAddr: nat, i: nat)
    requires |header| == 8
    ensures var n := 8 + |Body(segments)|;
            var image, line := ImageOf(header, segments, toAddr), n + Padding(n) + 1;
            (n <= i < line - 1 ==> image[i] == 0) && (line <= i < |image| ==> image[i] == 0xaa)
  {
  }

  lemma {:induction false} LineSize(n: nat)
    ensures n + Padding(n) + 1 == (n + 16) / 16 * 16
  {
  }

  /** The image byte by byte: the header, the segments, zeros, the checksum at the end of a line, and the fill. */
  lemma {:induction false} ImageBytes(header: Bytes, segments: seq<Segment>, toAddr: nat, i: nat, m: bv8)
    requires |header| == 8 && IsBit(m)
    ensures var n := 8 + |Body(segments)|;
            var image, line := ImageOf(header, segments, toAddr), (n + 16) / 16 * 16;
            && |image| == (if line < toAddr then toAddr else line)
            && image[..8] == header && image[8..n] == Body(segments)
            && (n <= i < line - 1 ==> image[i] == 0)
            && (Bit(image[line - 1], m) <==> Bit(0xef, m) != Odd(AllData(segments), m))
            && (line <= i < |image| ==> image[i] == 0xaa)
  {
    LineSize(8 + |Body(segments)|);
    ImageStart(header, segments, toAddr);
    ImageFilling(header, segments, toAddr, i);
    ChecksumBit(0xef, segments, m);
  }
}
