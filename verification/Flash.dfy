/** A NOR flash chip behind the SPI calls of the boot loader (hardware/bootloaders/eboot/flash.h).

    Erasing sets every bit of a sector or of a block of sixteen sectors; writing can only clear bits.
    Every call may fail, and a failed erase or write may have done part of its work. */
module Flash {
  import opened Octets

  // The sizes are written out, 4096 and 65536, where they multiply a variable.
  const FLASH_SECTOR_SIZE := 0x1000
  const FLASH_BLOCK_SIZE := 0x10000
  const APP_START_OFFSET := 0x1000
  const MAX_FLASH_SIZE := 0x100_0000   // 16 MB

  datatype EraseOp = Sector(n: nat) | Block(n: nat)

  /** A call that failed. */
  datatype Fault = EraseFault(op: EraseOp) | ReadFault(addr: nat, size: nat) | WriteFault(addr: nat, size: nat)

  /** One more call has failed. */
  ghost predicate Faulted(before: seq<Fault>, now: seq<Fault>) {
    |now| == |before| + 1 && now[..|before|] == before
  }

  /** The number of sectors that a size rounds up to, in 32 bits. */
  function SectorCount(size: nat): nat {
    (size + 4095) % UINT32 / 4096
  }

  /** Contents d with n bytes at position at replaced. */
  function Overlay(d: Bytes, at: nat, bytes: Bytes): (e: Bytes)
    requires at + |bytes| <= |d|
    ensures |e| == |d|
  {
    d[..at] + bytes + d[at + |bytes|..]
  }

  function Erased(n: nat): (e: Bytes)
    ensures |e| == n
  {
    seq(n, _ => 0xff)
  }

  /** What a NOR cell holds after a write. */
  function Programmed(before: Bytes, bytes: Bytes): (e: Bytes)
    requires |before| == |bytes|
    ensures |e| == |bytes|
  {
    seq(|bytes|, i requires 0 <= i < |bytes| => And(before[i], bytes[i]))
  }

  /** Contents d and e agree outside the n bytes at position at. */
  ghost predicate SameOutside(d: Bytes, e: Bytes, at: nat, n: nat) {
    |d| == |e| && forall i: nat :: i < |d| && (i < at || at + n <= i) ==> d[i] == e[i]
  }

  /** Contents e differ from d in done bytes that have been programmed. */
  lemma {:induction false} WrittenPart(d: Bytes, e: Bytes, at: nat, src: Bytes, done: nat)
    requires |e| == |d| && at + |src| <= |d| && done <= |src|
    requires forall i: nat :: i < |d| ==> e[i] == if at <= i < at + done then And(d[i], src[i - at]) else d[i]
    ensures SameOutside(d, e, at, |src|)
    ensures done == |src| ==> e == Overlay(d, at, Programmed(d[at..at + |src|], src))
  {
  }

  class Flash {
    const data: array<Byte>
    ghost var ops: seq<EraseOp>    // the erase operations that succeeded, in order
    ghost var faults: seq<Fault>   // the calls that failed, in order

    ghost predicate Valid() {
      data.Length % FLASH_BLOCK_SIZE == 0 && data.Length <= MAX_FLASH_SIZE
    }

    constructor (size: nat)
      requires size % FLASH_BLOCK_SIZE == 0 && size <= MAX_FLASH_SIZE
      ensures Valid() && fresh(data) && data.Length == size && ops == [] && faults == []
    {
      data := new Byte[size](_ => 0xff);
      ops, faults := [], [];
    }

    ghost function Contents(): Bytes reads data { data[..] }

    /** Erases bytes in order until it is done or something goes wrong. */
    method EraseBytes(at: nat, n: nat) returns (rc: int)
      requires at + n <= data.Length
      modifies data
      ensures rc == 0 ==> Contents() == Overlay(old(Contents()), at, Erased(n))
      ensures rc != 0 ==> SameOutside(old(Contents()), Contents(), at, n)
    {
      var done: nat := *;
      if done > n { done := n; }
      forall i | at <= i < at + done {
        data[i] := 0xff;
      }
      rc := if done == n then 0 else 1;
    }

    method SPIEraseSector(sector: nat) returns (rc: int)
      requires Valid()
      modifies data, this`ops, this`faults
      ensures rc == 0 ==> 4096 * (sector + 1) <= data.Length
      ensures rc == 0 ==>
                Contents() == Overlay(old(Contents()), 4096 * sector, Erased(FLASH_SECTOR_SIZE))
      ensures ops == old(ops) + (if rc == 0 then [Sector(sector)] else [])
      ensures faults == old(faults) + (if rc == 0 then [] else [EraseFault(Sector(sector))])
      ensures rc != 0 ==> SameOutside(old(Contents()), Contents(), 4096 * sector, FLASH_SECTOR_SIZE)
    {
      rc := 1;
      if 4096 * (sector + 1) <= data.Length {
        rc := EraseBytes(4096 * sector, FLASH_SECTOR_SIZE);
      }
      if rc == 0 {
        ops := ops + [Sector(sector)];
      } else {
        faults := faults + [EraseFault(Sector(sector))];
      }
    }

    method SPIEraseBlock(block: nat) returns (rc: int)
      requires Valid()
      modifies data, this`ops, this`faults
      ensures rc == 0 ==> 65536 * (block + 1) <= data.Length
      ensures rc == 0 ==>
                Contents() == Overlay(old(Contents()), 65536 * block, Erased(FLASH_BLOCK_SIZE))
      ensures ops == old(ops) + (if rc == 0 then [Block(block)] else [])
      ensures faults == old(faults) + (if rc == 0 then [] else [EraseFault(Block(block))])
      ensures rc != 0 ==> SameOutside(old(Contents()), Contents(), 65536 * block, FLASH_BLOCK_SIZE)
    {
      rc := 1;
      if 65536 * (block + 1) <= data.Length {
        rc := EraseBytes(65536 * block, FLASH_BLOCK_SIZE);
      }
      if rc == 0 {
        ops := ops + [Block(block)];
      } else {
        faults := faults + [EraseFault(Block(block))];
      }
    }

    method SPIRead(addr: nat, size: nat) returns (rc: int, dest: Bytes)
      modifies this`faults
      ensures faults == old(faults) + (if rc == 0 then [] else [ReadFault(addr, size)])
      ensures rc == 0 ==> addr + size <= data.Length && dest == Contents()[addr..addr + size]
    {
      var works: bool := *;
      if works && addr + size <= data.Length {
        return 0, data[addr..addr + size];
      }
      faults := faults + [ReadFault(addr, size)];
      return 1, [];
    }

    /** Programs bytes in order until it is done or something goes wrong. */
    method WriteBytes(addr: nat, src: Bytes) returns (rc: int)
      requires addr + |src| <= data.Length
      modifies data
      ensures rc == 0 ==>
                Contents() == Overlay(old(Contents()), addr, Programmed(old(Contents())[addr..addr + |src|], src))
      ensures rc != 0 ==> SameOutside(old(Contents()), Contents(), addr, |src|)
    {
      var done: nat := *;
      if done > |src| { done := |src|; }
      forall i | addr <= i < addr + done {
        data[i] := And(data[i], src[i - addr]);
      }
      rc := if done == |src| then 0 else 1;
      WrittenPart(old(Contents()), Contents(), addr, src, done);
    }

    method SPIWrite(addr: nat, src: Bytes) returns (rc: int)
      modifies data, this`faults
      ensures faults == old(faults) + (if rc == 0 then [] else [WriteFault(addr, |src|)])
      ensures rc == 0 ==> addr + |src| <= data.Length
      ensures rc == 0 ==>
                Contents() == Overlay(old(Contents()), addr, Programmed(old(Contents())[addr..addr + |src|], src))
      ensures rc != 0 ==> SameOutside(old(Contents()), Contents(), addr, |src|)
    {
      rc := 1;
      if addr + |src| <= data.Length {
        rc := WriteBytes(addr, src);
      }
      if rc != 0 {
        faults := faults + [WriteFault(addr, |src|)];
      }
    }
  }
}
