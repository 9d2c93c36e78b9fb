/** The size of the running sketch, read back from flash (hardware/cores/esp8266/Esp.cpp:490-520). */
module Esp {
  import opened Arithmetic
  import opened BootImage
  import opened Flash
  import opened Loader
  import opened Octets
  import opened Wrappers

  /** Where the segments end; only headers are read, whatever their address. */
  function WalkEnd(d: Bytes, pos: nat, n: nat): Option<nat>
    decreases n
  {
    if n == 0 then Some(pos)
    else if pos + 8 > |d| then None
    else WalkEnd(d, Next(SegmentAt(d, pos)), n - 1)
  }

  /** (pos + 16) & ~15 */
  function LineAfter(pos: nat): nat {
    Wrap32(pos + 16) / 16 * 16
  }

  /** In the last line of the address space this wraps to 0. */
  lemma {:induction false} LineAfterIsZero(pos: nat)
    requires pos < UINT32
    ensures LineAfter(pos) == 0 <==> pos >= 0xffff_fff0
  {
  }

  class EspClass {
    var result: nat   // the static cache; 0 while unknown

    constructor ()
      ensures result == 0
    {
      result := 0;
    }

    /** The body of the loop: the data of the section is skipped. */
    method SkipSection(flash: Flash, pos0: nat) returns (rc: int, pos: nat)
      modifies flash`faults
      ensures Reported(rc, old(flash.faults), flash.faults)
      ensures rc == 0 ==> pos0 + 8 <= |flash.Contents()| && pos == Next(SegmentAt(flash.Contents(), pos0))
    {
      var section_header;
      pos := pos0;
      rc, section_header := flash.SPIRead(pos, 8);
      if rc != 0 {
        return;
      }
      assert section_header[4..] == flash.Contents()[pos + 4..pos + 8];
      pos := Wrap32(pos + 8);
      pos := Wrap32(pos + FromLe32(section_header[4..]));
    }

    /** The loop over the segments. */
    method SkipSections(flash: Flash, start: nat, num_segments: nat) returns (rc: int, pos: nat)
      modifies flash`faults
      ensures Reported(rc, old(flash.faults), flash.faults)
      ensures rc == 0 ==> WalkEnd(flash.Contents(), start, num_segments) == Some(pos)
      ensures rc == 0 && start < UINT32 ==> pos < UINT32
    {
      rc, pos := 0, start;
      ghost var all := WalkEnd(flash.Contents(), start, num_segments);
      for section_index := 0 to num_segments
        invariant WalkEnd(flash.Contents(), pos, num_segments - section_index) == all
        invariant rc == 0 && flash.faults == old(flash.faults)
        invariant start < UINT32 ==> pos < UINT32
      {
        rc, pos := SkipSection(flash, pos);
        if rc != 0 {
          return;
        }
      }
    }

    method GetSketchSize(flash: Flash) returns (size: nat)
      requires flash.Valid()
      modifies this, flash`faults
      ensures old(result) != 0 ==> size == result == old(result) && flash.faults == old(flash.faults)
      ensures old(result) == 0 ==> result == size
      ensures old(result) == 0 && flash.faults == old(flash.faults) ==>
                var d, base := flash.Contents(), APP_START_OFFSET;
                && base + 8 <= |d|
                && WalkEnd(d, base + 8, d[base + 1]).Some?
                && var end := WalkEnd(d, base + 8, d[base + 1]).value;
                && size == LineAfter(end)
                && (size == 0 <==> end >= 0xffff_fff0)
      ensures flash.faults != old(flash.faults) ==>
                size == 0 && Faulted(old(flash.faults), flash.faults)
    {
      if result != 0 {
        return result;
      }
      var rc, image_header;
      var pos: nat := APP_START_OFFSET;
      rc, image_header := flash.SPIRead(pos, 8);
      if rc != 0 {
        return 0;
      }
      pos := Wrap32(pos + 8);
      var num_segments: nat := image_header[1];
      rc, pos := SkipSections(flash, pos, num_segments);
      if rc != 0 {
        return 0;
      }
      LineAfterIsZero(pos);
      result := LineAfter(pos);
      return result;
    }
  }

  lemma {:induction false} WalkEndOfBody(d: Bytes, pos: nat, segments: seq<Segment>)
    requires AllSound(segments) && |d| <= MAX_FLASH_SIZE && StandsAt(d, pos, Body(segments))
    ensures WalkEnd(d, pos, |segments|) == Some(pos + |Body(segments)|)
    decreases segments
  {
    if segments != [] {
      BodyHead(d, pos, segments);
      WalkEndOfBody(d, pos + 8 + |segments[0].raw|, segments[1..]);
    }
  }

  /** The file that the two calls of write_bin produce: the boot loader with one segment, filled up to
      the sketch's place, then the sketch. */
  function FirmwareFile(header: Bytes, text: Segment, appHeader: Bytes, segments: seq<Segment>): Bytes {
    ImageOf(header, [text], APP_START_OFFSET) + ImageOf(appHeader, segments, 0)
  }

  /** The sketch starts at its place exactly when the boot loader's code leaves room for two headers
      and the checksum. */
  lemma {:induction false} BootLoaderFits(header: Bytes, text: Segment)
    requires |header| == 8
    ensures |ImageOf(header, [text], APP_START_OFFSET)| == APP_START_OFFSET <==> |text.raw| <= 4079
  {
    assert Body([text]) == SegmentHeader(text) + text.raw;
    var n := 16 + |text.raw|;
    assert |header + Body([text])| == n;
    assert n + 1 + Padding(n) <= 4096 <==> n <= 4095 by {
      if n <= 4095 {
        assert (n + 1 + Padding(n)) / 16 <= 256;
      }
    }
  }

  lemma {:induction false} SizeInFile(d: Bytes, header: Bytes, text: Segment, entry: nat, mode: Byte, sizeFreq: Byte,
                                      segments: seq<Segment>)
    requires |d| <= MAX_FLASH_SIZE && |header| == 8 && |text.raw| <= 4079
    requires entry < UINT32 && |segments| <= 255 && AllSound(segments)
    requires StandsAt(d, 0, FirmwareFile(header, text, Header(entry, |segments|, mode, sizeFreq), segments))
    ensures APP_START_OFFSET + 8 <= |d|
    ensures var end := WalkEnd(d, APP_START_OFFSET + 8, d[APP_START_OFFSET + 1]);
            end.Some? && LineAfter(end.value)
                         == |FirmwareFile(header, text, Header(entry, |segments|, mode, sizeFreq), segments)|
  {
    var appHeader := Header(entry, |segments|, mode, sizeFreq);
    BootLoaderFits(header, text);
    StandsInParts(d, 0, ImageOf(header, [text], APP_START_OFFSET), ImageOf(appHeader, segments, 0));
    ImageStands(d, APP_START_OFFSET, appHeader, segments, 0);
    HeaderRead(d, APP_START_OFFSET, entry, |segments|, mode, sizeFreq);
    WalkEndOfBody(d, APP_START_OFFSET + 8, segments);
    SizeOfLine(appHeader, segments);
  }

  /** Then the computed size is the length of the file, whatever the segments of the sketch. */
  method SketchSizeOfFile(esp: EspClass, flash: Flash, ghost header: Bytes, ghost text: Segment, ghost entry: nat,
                          ghost mode: Byte, ghost sizeFreq: Byte, ghost segments: seq<Segment>) returns (size: nat)
    requires flash.Valid() && esp.result == 0
    requires |header| == 8 && |text.raw| <= 4079 && entry < UINT32 && |segments| <= 255 && AllSound(segments)
    requires StandsAt(flash.Contents(), 0,
                      FirmwareFile(header, text, Header(entry, |segments|, mode, sizeFreq), segments))
    modifies esp, flash`faults
    ensures flash.faults == old(flash.faults) ==>
              size == |FirmwareFile(header, text, Header(entry, |segments|, mode, sizeFreq), segments)|
    ensures flash.faults != old(flash.faults) ==> size == 0 && Faulted(old(flash.faults), flash.faults)
  {
    SizeInFile(flash.Contents(), header, text, entry, mode, sizeFreq, segments);
    size := esp.GetSketchSize(flash);
  }

  /** Rounding the end of the segments up past one more byte is what the padding does. */
  lemma {:induction false} SizeOfLine(appHeader: Bytes, segments: seq<Segment>)
    requires |appHeader| == 8 && 4096 + 8 + |Body(segments)| <= MAX_FLASH_SIZE
    ensures LineAfter(4096 + 8 + |Body(segments)|) == 4096 + |ImageOf(appHeader, segments, 0)|
  {
    ImageSize(appHeader, segments);
    var n := 8 + |Body(segments)|;
    assert |Content(appHeader, segments)| == n;
    QuotientUnique(4096 + n + 16, 16, 256 + (n + 16) / 16, (n + 16) % 16);
  }
}
