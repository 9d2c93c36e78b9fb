/** Loading an application from flash into memory (hardware/bootloaders/eboot/eboot.c:35-88). */
module Loader {
  import opened Arithmetic
  import opened BootImage
  import opened Flash
  import opened Octets
  import opened Wrappers

  // ---------------------------------------------------------------- memory

  type Memory = nat -> Byte

  function Store(mem: Memory, addr: nat, data: Bytes): Memory {
    (i: nat) => if addr <= i < addr + |data| then data[i - addr] else mem(i)
  }

  class Ram {
    var mem: Memory

    constructor (initial: Memory)
      ensures mem == initial
    {
      mem := initial;
    }

    /** The part of SPIRead that writes to its destination. */
    method Write(addr: nat, data: Bytes)
      modifies this
      ensures mem == Store(old(mem), addr, data)
    {
      mem := Store(mem, addr, data);
    }
  }

  /** Which segments are copied: those not mapped from flash. */
  predicate IsLoaded(address: nat) {
    address < 0x4000_0000 || 0x4010_0000 <= address < 0x4010_8000 || address >= 0x6000_0000
  }

  /** In the memory map of the linker scripts data and code in RAM are loaded, and code in flash is not. */
  lemma {:induction false} LinkedSegments(address: nat)
    ensures 0x3ffe_8000 <= address < 0x3ffe_8000 + 0x1_4000 ==> IsLoaded(address)
    ensures 0x4010_0000 <= address < 0x4010_0000 + 0x8000 ==> IsLoaded(address)
    ensures 0x4020_1010 <= address < 0x4020_1010 + 0xf_eff0 ==> !IsLoaded(address)
  {
  }

  // ---------------------------------------------------------------- the walk over an image in flash

  /** A segment found in flash, and where its data starts. */
  datatype Found = Found(addr: nat, size: nat, pos: nat)

  function SegmentAt(d: Bytes, pos: nat): Found
    requires pos + 8 <= |d|
  {
    Found(FromLe32(d[pos..pos + 4]), FromLe32(d[pos + 4..pos + 8]), Wrap32(pos + 8))
  }

  /** Whether a segment header, and the data if it is to be loaded, lie within the flash. */
  predicate Readable(d: Bytes, pos: nat) {
    pos + 8 <= |d| &&
    var f := SegmentAt(d, pos);
    IsLoaded(f.addr) ==> f.pos + f.size <= |d|
  }

  function Next(f: Found): nat { Wrap32(f.pos + f.size) }

  /** The next n segments, with positions in 32 bits; None if one of them is not readable. */
  function Walk(d: Bytes, pos: nat, n: nat): Option<seq<Found>>
    decreases n
  {
    if n == 0 then Some([])
    else if !Readable(d, pos) then None
    else
      match Walk(d, Next(SegmentAt(d, pos)), n - 1)
      case None => None
      case Some(rest) => Some([SegmentAt(d, pos)] + rest)
  }

  function LoadOne(mem: Memory, d: Bytes, f: Found): Memory {
    if IsLoaded(f.addr) && f.pos + f.size <= |d| then Store(mem, f.addr, d[f.pos..f.pos + f.size]) else mem
  }

  /** Memory after loading the segments found, in order. */
  function LoadAll(mem: Memory, d: Bytes, found: seq<Found>): Memory
    decreases found
  {
    if found == [] then mem else LoadAll(LoadOne(mem, d, found[0]), d, found[1..])
  }

  /** Walking and loading at the same time, as the loop does. */
  function WalkLoad(mem: Memory, d: Bytes, pos: nat, n: nat): Option<Memory>
    decreases n
  {
    if n == 0 then Some(mem)
    else if !Readable(d, pos) then None
    else WalkLoad(LoadOne(mem, d, SegmentAt(d, pos)), d, Next(SegmentAt(d, pos)), n - 1)
  }

  lemma {:induction false} WalkLoadIsWalkThenLoad(mem: Memory, d: Bytes, pos: nat, n: nat)
    ensures WalkLoad(mem, d, pos, n) ==
            match Walk(d, pos, n) { case None => None case Some(found) => Some(LoadAll(mem, d, found)) }
    decreases n
  {
    if n > 0 && Readable(d, pos) {
      var f := SegmentAt(d, pos);
      WalkLoadIsWalkThenLoad(LoadOne(mem, d, f), d, Next(f), n - 1);
      if Walk(d, Next(f), n - 1).Some? {
        var rest := Walk(d, Next(f), n - 1).value;
        assert ([f] + rest)[1..] == rest;
      }
    }
  }

  /** The code 0 means that no call has failed, another that a read has. */
  ghost predicate Reported(rc: int, before: seq<Fault>, now: seq<Fault>) {
    if rc == 0 then now == before else Faulted(before, now) && now[|now| - 1].ReadFault?
  }

  /** The body of the loop. */
  method LoadSegment(flash: Flash, ram: Ram, pos0: nat) returns (rc: int, pos: nat)
    requires flash.Valid()
    modifies ram, flash`faults
    ensures rc == 0 || rc == 2 || rc == 3
    ensures Reported(rc, old(flash.faults), flash.faults)
    ensures rc == 2 ==> flash.faults == old(flash.faults) + [ReadFault(pos0, 8)]
    ensures rc == 3 ==> pos0 + 8 <= |flash.Contents()|
    ensures rc == 3 ==> var f := SegmentAt(flash.Contents(), pos0);
                        IsLoaded(f.addr) && flash.faults == old(flash.faults) + [ReadFault(f.pos, f.size)]
    ensures rc == 0 ==> Readable(flash.Contents(), pos0)
    ensures rc == 0 ==> ram.mem == LoadOne(old(ram.mem), flash.Contents(), SegmentAt(flash.Contents(), pos0))
    ensures rc == 0 ==> pos == Next(SegmentAt(flash.Contents(), pos0))
  {
    pos := pos0;
    var header;
    rc, header := flash.SPIRead(pos, 8);
    if rc != 0 {
      return 2, pos;
    }
    assert header[..4] == flash.Contents()[pos..pos + 4] && header[4..] == flash.Contents()[pos + 4..pos + 8];
    pos := Wrap32(pos + 8);
    var address, size := FromLe32(header[..4]), FromLe32(header[4..]);
    var load := false;
    if address < 0x4000_0000 {
      load := true;
    }
    if address >= 0x4010_0000 && address < 0x4010_8000 {
      load := true;
    }
    if address >= 0x6000_0000 {
      load := true;
    }
    if !load {
      pos := Wrap32(pos + size);
      return 0, pos;
    }
    var data;
    rc, data := flash.SPIRead(pos, size);
    if rc != 0 {
      return 3, pos;
    }
    ram.Write(address, data);
    pos := Wrap32(pos + size);
  }

  /** The walk from here on leads to all. */
  ghost predicate OnWalk(mem: Memory, d: Bytes, pos: nat, left: nat, all: Option<Memory>) {
    WalkLoad(mem, d, pos, left) == all
  }

  /** The same, as a step of a walk. */
  method LoadNext(flash: Flash, ram: Ram, pos0: nat, ghost left: nat, ghost all: Option<Memory>)
    returns (rc: int, pos: nat)
    requires flash.Valid() && left > 0 && OnWalk(ram.mem, flash.Contents(), pos0, left, all)
    modifies ram, flash`faults
    ensures rc == 0 || rc == 2 || rc == 3
    ensures Reported(rc, old(flash.faults), flash.faults)
    ensures rc == 0 ==> OnWalk(ram.mem, flash.Contents(), pos, left - 1, all)
  {
    rc, pos := LoadSegment(flash, ram, pos0);
    WalkLoadStep(old(ram.mem), flash.Contents(), pos0, left);
  }

  /** The loop over the segments. */
  method LoadSegments(flash: Flash, ram: Ram, start: nat, count: nat) returns (rc: int)
    requires flash.Valid()
    modifies ram, flash`faults
    ensures rc == 0 || rc == 2 || rc == 3
    ensures Reported(rc, old(flash.faults), flash.faults)
    ensures rc == 0 ==> WalkLoad(old(ram.mem), flash.Contents(), start, count) == Some(ram.mem)
  {
    ghost var d, left := flash.Contents(), count;
    ghost var all := WalkLoad(ram.mem, d, start, count);
    var pos := start;
    rc := 0;
    for section_index := 0 to count
      invariant left == count - section_index && rc == 0
      invariant flash.faults == old(flash.faults) && flash.Contents() == d
      invariant OnWalk(ram.mem, d, pos, left, all)
    {
      rc, pos := LoadNext(flash, ram, pos, left, all);
      if rc != 0 {
        return;
      }
      left := left - 1;
    }
    NothingLeft(ram.mem, d, pos, left, all);
  }

  lemma {:induction false} NothingLeft(mem: Memory, d: Bytes, pos: nat, n: nat, all: Option<Memory>)
    requires n == 0 && OnWalk(mem, d, pos, n, all)
    ensures all == Some(mem)
  {
  }

  lemma {:induction false} WalkLoadStep(mem: Memory, d: Bytes, pos: nat, n: nat)
    requires n > 0
    ensures Readable(d, pos) ==>
              WalkLoad(mem, d, pos, n) ==
              WalkLoad(LoadOne(mem, d, SegmentAt(d, pos)), d, Next(SegmentAt(d, pos)), n - 1)
  {
  }

  /** An application at an address of the flash has been loaded, and runs from its entry point. */
  ghost predicate LoadedFrom(d: Bytes, flash_addr: nat, entry: nat, before: Memory, after: Memory) {
    var base := Wrap32(flash_addr + APP_START_OFFSET);
    && base + 8 <= |d|
    && entry == FromLe32(d[base + 4..base + 8])
    && WalkLoad(before, d, Wrap32(base + 8), d[base + 1]) == Some(after)
  }

  /** On success control passes to the entry point, which is returned here. */
  method LoadAppFromFlashRaw(flash: Flash, ram: Ram, flash_addr: nat) returns (rc: int, entry: nat)
    requires flash.Valid() && flash_addr < UINT32
    modifies ram, flash`faults
    ensures 0 <= rc <= 3 && Reported(rc, old(flash.faults), flash.faults)
    ensures rc == 1 ==> flash.faults == old(flash.faults) + [ReadFault(Wrap32(flash_addr + APP_START_OFFSET), 8)]
    ensures rc == 0 ==> LoadedFrom(flash.Contents(), flash_addr, entry, old(ram.mem), ram.mem)
  {
    entry := 0;
    var pos := Wrap32(flash_addr + APP_START_OFFSET);
    var image_header;
    rc, image_header := flash.SPIRead(pos, 8);
    if rc != 0 {
      return 1, 0;
    }
    assert image_header[4..] == flash.Contents()[pos + 4..pos + 8];
    var num_segments := image_header[1];
    entry := FromLe32(image_header[4..]);
    pos := Wrap32(pos + 8);
    rc := LoadSegments(flash, ram, pos, num_segments);
  }

  // ---------------------------------------------------------------- the round trip

  /** What loading the segments of an application is meant to do. */
  function Overlaid(mem: Memory, segments: seq<Segment>): Memory
    decreases segments
  {
    if segments == [] then mem
    else Overlaid(if IsLoaded(segments[0].addr) then Store(mem, segments[0].addr, segments[0].raw) else mem,
                  segments[1..])
  }

  /** The bytes s stand at position pos of d. */
  predicate StandsAt(d: Bytes, pos: nat, s: Bytes) {
    pos + |s| <= |d| && d[pos..pos + |s|] == s
  }

  lemma {:induction false} StandsInParts(d: Bytes, pos: nat, s: Bytes, t: Bytes)
    requires StandsAt(d, pos, s + t)
    ensures StandsAt(d, pos, s) && StandsAt(d, pos + |s|, t)
  {
    assert s == (s + t)[..|s|] && t == (s + t)[|s|..];
    assert d[pos..pos + |s|] == d[pos..pos + |s + t|][..|s|];
    assert d[pos + |s|..pos + |s + t|] == d[pos..pos + |s + t|][|s|..];
  }

  lemma {:induction false} SegmentHeaderRead(d: Bytes, pos: nat, seg: Segment)
    requires Sound(seg) && StandsAt(d, pos, SegmentHeader(seg)) && |d| <= MAX_FLASH_SIZE
    ensures pos + 8 <= |d| && SegmentAt(d, pos) == Found(seg.addr, seg.size, pos + 8)
  {
    StandsInParts(d, pos, Le32(seg.addr), Le32(seg.size));
    Le32RoundTrip(seg.addr);
    Le32RoundTrip(seg.size);
  }

  predicate AllSound(segments: seq<Segment>) {
    forall i :: 0 <= i < |segments| ==> Sound(segments[i])
  }

  lemma {:induction false} BodyHead(d: Bytes, pos: nat, segments: seq<Segment>)
    requires segments != [] && AllSound(segments) && |d| <= MAX_FLASH_SIZE && StandsAt(d, pos, Body(segments))
    ensures var seg := segments[0];
            && pos + 8 <= |d| && SegmentAt(d, pos) == Found(seg.addr, seg.size, pos + 8)
            && StandsAt(d, pos + 8, seg.raw)
            && StandsAt(d, pos + 8 + |seg.raw|, Body(segments[1..]))
            && AllSound(segments[1..])
  {
    var seg := segments[0];
    StandsInParts(d, pos, SegmentHeader(seg) + seg.raw, Body(segments[1..]));
    StandsInParts(d, pos, SegmentHeader(seg), seg.raw);
    SegmentHeaderRead(d, pos, seg);
  }

  /** What was found is what was written: the same address and size, and the data in its place. */
  predicate Finds(d: Bytes, f: Found, seg: Segment) {
    f.addr == seg.addr && f.size == seg.size && StandsAt(d, f.pos, seg.raw)
  }

  /** The walk finds every segment that was written, in order, with its data. */
  lemma {:induction false} WalkFindsBody(d: Bytes, pos: nat, segments: seq<Segment>)
    requires AllSound(segments) && |d| <= MAX_FLASH_SIZE && StandsAt(d, pos, Body(segments))
    ensures var walk := Walk(d, pos, |segments|);
            && walk.Some? && |walk.value| == |segments|
            && forall i :: 0 <= i < |segments| ==> Finds(d, walk.value[i], segments[i])
    decreases segments
  {
    if segments != [] {
      BodyHead(d, pos, segments);
      var rest := segments[1..];
      var next := pos + 8 + |segments[0].raw|;
      WalkFindsBody(d, next, rest);
      var found := Walk(d, next, |rest|).value;
      assert Walk(d, pos, |segments|) == Some([SegmentAt(d, pos)] + found);
      forall i | 0 <= i < |segments| ensures Finds(d, ([SegmentAt(d, pos)] + found)[i], segments[i]) {
        if i > 0 { assert segments[i] == rest[i - 1]; }
      }
    }
  }

  /** Loading is overlaying, in order, exactly the segments that the filter lets through. */
  lemma {:induction false} WalkLoadsBody(mem: Memory, d: Bytes, pos: nat, segments: seq<Segment>)
    requires AllSound(segments) && |d| <= MAX_FLASH_SIZE && StandsAt(d, pos, Body(segments))
    ensures WalkLoad(mem, d, pos, |segments|) == Some(Overlaid(mem, segments))
    decreases segments
  {
    if segments != [] {
      BodyHead(d, pos, segments);
      var seg := segments[0];
      WalkLoadsBody(if IsLoaded(seg.addr) then Store(mem, seg.addr, seg.raw) else mem,
                    d, pos + 8 + |seg.raw|, segments[1..]);
    }
  }

  /** An image that write_bin made stands where the loader looks for it. */
  predicate Flashed(d: Bytes, flash_addr: nat, entry: nat, segments: seq<Segment>, mode: Byte, sizeFreq: Byte,
                    toAddr: nat)
  {
    && flash_addr < UINT32 && entry < UINT32 && |segments| <= 255 && AllSound(segments) && |d| <= MAX_FLASH_SIZE
    && StandsAt(d, flash_addr + APP_START_OFFSET, ImageOf(Header(entry, |segments|, mode, sizeFreq), segments, toAddr))
  }

  /** The image round trip: loading such an image runs the entry point it was made with, in a memory
      overlaid with exactly its loadable segments. */
  lemma {:induction false} LoadWritten(d: Bytes, flash_addr: nat, entry: nat, segments: seq<Segment>, mode: Byte,
                                       sizeFreq: Byte, toAddr: nat, started: nat, before: Memory, after: Memory)
    requires Flashed(d, flash_addr, entry, segments, mode, sizeFreq, toAddr)
    requires LoadedFrom(d, flash_addr, started, before, after)
    ensures started == entry && after == Overlaid(before, segments)
  {
    var base, header := flash_addr + APP_START_OFFSET, Header(entry, |segments|, mode, sizeFreq);
    ImageStands(d, base, header, segments, toAddr);
    HeaderRead(d, base, entry, |segments|, mode, sizeFreq);
    LoadBody(d, flash_addr, segments, started, before, after);
  }

  lemma {:induction false} LoadBody(d: Bytes, flash_addr: nat, segments: seq<Segment>, started: nat, before: Memory,
                                    after: Memory)
    requires AllSound(segments) && |segments| <= 255
    requires |d| <= MAX_FLASH_SIZE && flash_addr + APP_START_OFFSET + 8 <= |d|
    requires d[flash_addr + APP_START_OFFSET + 1] == |segments|
    requires StandsAt(d, flash_addr + APP_START_OFFSET + 8, Body(segments))
    requires LoadedFrom(d, flash_addr, started, before, after)
    ensures after == Overlaid(before, segments)
    ensures started == FromLe32(d[flash_addr + APP_START_OFFSET + 4..flash_addr + APP_START_OFFSET + 8])
  {
    WalkLoadsBody(before, d, flash_addr + APP_START_OFFSET + 8, segments);
  }

  lemma {:induction false} ImageStands(d: Bytes, base: nat, header: Bytes, segments: seq<Segment>, toAddr: nat)
    requires StandsAt(d, base, ImageOf(header, segments, toAddr))
    ensures StandsAt(d, base, header) && StandsAt(d, base + |header|, Body(segments))
  {
    var image, content := ImageOf(header, segments, toAddr), header + Body(segments);
    assert image[..|content|] == content;
    assert image == content + image[|content|..];
    StandsInParts(d, base, content, image[|content|..]);
    StandsInParts(d, base, header, Body(segments));
  }

  lemma {:induction false} HeaderRead(d: Bytes, base: nat, entry: nat, count: nat, mode: Byte, sizeFreq: Byte)
    requires entry < UINT32 && count <= 255 && StandsAt(d, base, Header(entry, count, mode, sizeFreq))
    ensures base + 8 <= |d| && d[base + 1] == count && FromLe32(d[base + 4..base + 8]) == entry
  {
    var h := Header(entry, count, mode, sizeFreq);
    assert d[base..base + 8][1] == h[1] && d[base + 4..base + 8] == d[base..base + 8][4..] == h[4..] == Le32(entry);
    RemainderOfSmall(count, 256);
    Le32RoundTrip(entry);
  }
}
