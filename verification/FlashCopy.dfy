/** The boot loader's flash copier (hardware/bootloaders/eboot/eboot.c:92-124). */
module FlashCopy {
  import opened Arithmetic
  import opened Flash
  import opened Octets

  predicate Aligned(a: nat) { a % FLASH_SECTOR_SIZE == 0 }

  /** The size rounded up to whole sectors. */
  function Rounded(size: nat): nat {
    4096 * SectorCount(size)
  }

  /** That is, unless the rounding wraps: then nothing is copied, and the copy succeeds. */
  lemma {:induction false} RoundedCoversIff(size: nat)
    requires size < UINT32
    ensures size <= Rounded(size) <==> size <= UINT32 - FLASH_SECTOR_SIZE
    ensures size > UINT32 - FLASH_SECTOR_SIZE ==> Rounded(size) == 0
    ensures Rounded(size) < size + FLASH_SECTOR_SIZE
  {
  }

  // ---------------------------------------------------------------- what the loop leaves behind

  /** Byte j of the destination after a copy from s to t, given the contents d before it.  Every turn
      erases its sector before it reads: a copy onto itself leaves nothing but erased bytes, and a copy
      to a slightly higher address repeats the first t - s bytes. */
  function CopyValue(d: Bytes, s: nat, t: nat, j: nat): Byte
    requires t <= j && s + (j - t) < |d|
  {
    if s == t then 0xff
    else if t < s then d[s + (j - t)]
    else
      RemainderSmaller(j - t, t - s);
      d[s + (j - t) % (t - s)]
  }

  ghost predicate Copied(d: Bytes, e: Bytes, s: nat, t: nat, n: nat)
    requires n > 0 ==> s + n <= |d| && t + n <= |d|
  {
    SameOutside(d, e, t, n) && forall j: nat :: t <= j < t + n ==> e[j] == CopyValue(d, s, t, j)
  }

  // ---------------------------------------------------------------- any addresses

  /** k turns from s to t stay within a flash of that length. */
  predicate Within(length: nat, s: nat, t: nat, k: nat) {
    k > 0 ==> s + 4096 * k <= length && t + 4096 * k <= length
  }

  /** The start of the sector of t. */
  function SectorStart(t: nat): nat { t / 4096 * 4096 }

  predicate InSector(sector: nat, x: nat) { 4096 * sector <= x < 4096 * sector + 4096 }

  /** Byte j after k turns from s to t, whether these are aligned or not: a turn writes what it reads over
      what it has erased, and may read what it has erased or an earlier turn has left. */
  function ByteAfter(d: Bytes, s: nat, t: nat, k: nat, j: nat): Byte
    requires Within(|d|, s, t, k) && j < |d|
    decreases k, 0
  {
    if k == 0 then d[j]
    else if t + 4096 * (k - 1) <= j < t + 4096 * k then
      And(ByteErased(d, s, t, k - 1, j), ByteErased(d, s, t, k - 1, s + (j - t)))
    else ByteErased(d, s, t, k - 1, j)
  }

  /** Byte j after k turns and the erase of one more. */
  function ByteErased(d: Bytes, s: nat, t: nat, k: nat, j: nat): Byte
    requires Within(|d|, s, t, k) && j < |d|
    decreases k, 1
  {
    if InSector((t + 4096 * k) / 4096, j) then 0xff else ByteAfter(d, s, t, k, j)
  }

  /** The contents after k turns. */
  function Turns(d: Bytes, s: nat, t: nat, k: nat): (e: Bytes)
    requires Within(|d|, s, t, k)
    ensures |e| == |d|
  {
    seq(|d|, j requires 0 <= j < |d| => ByteAfter(d, s, t, k, j))
  }

  lemma {:induction false} NextTurn(t: nat, k: nat)
    ensures SectorStart(t + 4096 * k) == SectorStart(t) + 4096 * k
    ensures 4096 * ((t + 4096 * k) / 4096) == SectorStart(t) + 4096 * k
    ensures t == SectorStart(t) + t % 4096
    ensures Aligned(t) <==> SectorStart(t) == t
  {
  }

  /** The first k turns leave the bytes before and beyond their targets' sectors. */
  lemma {:induction false} OutsideStays(d: Bytes, s: nat, t: nat, k: nat, j: nat)
    requires Within(|d|, s, t, k) && j < |d|
    requires j < SectorStart(t) || t + 4096 * k <= j
    ensures ByteAfter(d, s, t, k, j) == d[j]
    decreases k
  {
    if k > 0 {
      NextTurn(t, k - 1);
      OutsideStays(d, s, t, k - 1, j);
    }
  }

  lemma {:induction false} TurnsOutside(d: Bytes, s: nat, t: nat, k: nat)
    requires Within(|d|, s, t, k)
    ensures SameOutside(d, Turns(d, s, t, k), SectorStart(t), t % 4096 + 4096 * k)
  {
    NextTurn(t, k);
    forall j: nat | j < |d| && (j < SectorStart(t) || t + 4096 * k <= j) ensures ByteAfter(d, s, t, k, j) == d[j] {
      OutsideStays(d, s, t, k, j);
    }
  }

  /** The byte before an unaligned target is erased in the first turn and never written. */
  lemma {:induction false} ByteBeforeErased(d: Bytes, s: nat, t: nat, k: nat)
    requires !Aligned(t) && k > 0 && Within(|d|, s, t, k)
    ensures ByteAfter(d, s, t, k, t - 1) == 0xff
  {
    NextTurn(t, k - 1);
    if k > 1 {
      ByteBeforeErased(d, s, t, k - 1);
    }
  }

  /** What a turn leaves in an aligned target: it reads what it has erased as erased. */
  lemma {:induction false} NewByte(d: Bytes, s: nat, t: nat, k: nat, j: nat)
    requires Aligned(t) && Within(|d|, s, t, k + 1) && t + 4096 * k <= j < t + 4096 * (k + 1)
    ensures var x := s + (j - t);
            ByteAfter(d, s, t, k + 1, j) ==
            if t + 4096 * k <= x < t + 4096 * (k + 1) then 0xff else ByteAfter(d, s, t, k, x)
  {
    NextTurn(t, k);
    AndOnes(ByteErased(d, s, t, k, s + (j - t)));
  }

  /** What turns leave in an aligned target, later turns leave there. */
  lemma {:induction false} TurnsKeep(d: Bytes, s: nat, t: nat, k: nat, l: nat, j: nat)
    requires Aligned(t) && k <= l && Within(|d|, s, t, l) && j < t + 4096 * k && j < |d|
    ensures ByteAfter(d, s, t, l, j) == ByteAfter(d, s, t, k, j)
    decreases l
  {
    if k < l {
      NextTurn(t, l - 1);
      TurnsKeep(d, s, t, k, l - 1, j);
    }
  }

  /** The byte at t + n of an aligned target, by the turn that writes it. */
  lemma {:induction false} TargetByte(d: Bytes, s: nat, t: nat, k: nat, n: nat)
    requires Aligned(t) && n < 4096 * k && Within(|d|, s, t, k)
    ensures var q := n / 4096;
            ByteAfter(d, s, t, k, t + n) ==
            if t + 4096 * q <= s + n < t + 4096 * (q + 1) then 0xff else ByteAfter(d, s, t, q, s + n)
  {
    var q := n / 4096;
    TurnsKeep(d, s, t, q + 1, k, t + n);
    NewByte(d, s, t, q, t + n);
  }

  // ---------------------------------------------------------------- aligned addresses

  lemma {:induction false} AlignedApart(s: nat, t: nat, n: nat)
    requires Aligned(s) && Aligned(t)
    ensures var q := n / 4096;
            t + 4096 * q <= s + n < t + 4096 * (q + 1) <==> s == t
    ensures var q := n / 4096;
            s > t ==> s + n >= t + 4096 * (q + 1)
  {
  }

  /** To a higher address the copy repeats itself. */
  lemma {:induction false} CopyValuePeriod(d: Bytes, s: nat, t: nat, n: nat)
    requires s < t && s + n < |d|
    ensures n < t - s ==> CopyValue(d, s, t, t + n) == d[s + n]
    ensures n >= t - s ==> CopyValue(d, s, t, t + n) == CopyValue(d, s, t, s + n)
  {
    if n < t - s {
      RemainderOfSmall(n, t - s);
    } else {
      RemainderPeriod(n, t - s);
    }
  }

  /** Between aligned addresses a target byte has the value of the closed form. */
  lemma {:induction false} AlignedByte(d: Bytes, s: nat, t: nat, k: nat, n: nat)
    requires Aligned(s) && Aligned(t) && n < 4096 * k && Within(|d|, s, t, k)
    ensures ByteAfter(d, s, t, k, t + n) == CopyValue(d, s, t, t + n)
    decreases n
  {
    var q := n / 4096;
    TargetByte(d, s, t, k, n);
    AlignedApart(s, t, n);
    if s < t {
      CopyValuePeriod(d, s, t, n);
      if n >= t - s {
        TurnsKeep(d, s, t, q, k, s + n);
        AlignedByte(d, s, t, k, n - (t - s));
      } else {
        OutsideStays(d, s, t, q, s + n);
      }
    } else if t < s {
      OutsideStays(d, s, t, q, s + n);
    }
  }

  lemma {:induction false} TurnsAligned(d: Bytes, s: nat, t: nat, k: nat)
    requires Aligned(s) && Aligned(t) && Within(|d|, s, t, k)
    ensures Copied(d, Turns(d, s, t, k), s, t, 4096 * k)
  {
    TurnsOutside(d, s, t, k);
    forall j: nat | t <= j < t + 4096 * k ensures ByteAfter(d, s, t, k, j) == CopyValue(d, s, t, j) {
      AlignedByte(d, s, t, k, j - t);
    }
  }

  // ---------------------------------------------------------------- copy_raw

  /** The code that tells which call has failed. */
  function CodeOf(fault: Fault): int {
    if fault.EraseFault? then 2 else if fault.ReadFault? then 3 else 4
  }

  /** The code 0 means that no call has failed, another that one has, and which. */
  ghost predicate Tells(rc: int, before: seq<Fault>, now: seq<Fault>) {
    if rc == 0 then now == before else Faulted(before, now) && rc == CodeOf(now[|now| - 1])
  }

  /** The erase and the read of one turn. */
  method EraseRead(flash: Flash, saddr: nat, sector: nat) returns (rc: int, buffer: Bytes)
    requires flash.Valid()
    modifies flash.data, flash`ops, flash`faults
    ensures Tells(rc, old(flash.faults), flash.faults) && rc < 4
    ensures rc == 0 ==> saddr + 4096 <= flash.data.Length && 4096 * sector + 4096 <= flash.data.Length
    ensures rc == 0 ==> flash.Contents() == Overlay(old(flash.Contents()), 4096 * sector, Erased(4096))
    ensures rc == 0 ==> buffer == flash.Contents()[saddr..saddr + 4096]
    ensures rc != 0 ==> SameOutside(old(flash.Contents()), flash.Contents(), 4096 * sector, 4096)
  {
    ghost var d := flash.Contents();
    rc := flash.SPIEraseSector(sector);
    if rc != 0 {
      return 2, [];
    }
    ErasedOutside(d, 4096 * sector);
    rc, buffer := flash.SPIRead(saddr, FLASH_SECTOR_SIZE);
    if rc != 0 {
      rc := 3;
    }
  }

  lemma {:induction false} ErasedOutside(d: Bytes, at: nat)
    requires at + 4096 <= |d|
    ensures SameOutside(d, Overlay(d, at, Erased(4096)), at, 4096)
  {
  }

  lemma {:induction false} WriteFailed(d: Bytes, e: Bytes, f: Bytes, at: nat, to: nat)
    requires at + 4096 <= |d| && at <= to < at + 4096
    requires e == Overlay(d, at, Erased(4096)) && SameOutside(e, f, to, 4096)
    ensures SameOutside(d, f, at, to - at + 4096)
  {
    ErasedOutside(d, at);
  }

  /** Byte x when a sector has been erased. */
  function Blank(d: Bytes, sector: nat, x: nat): Byte
    requires x < |d|
  {
    if InSector(sector, x) then 0xff else d[x]
  }

  /** Byte j when that sector has been erased, and then 4096 bytes been read from s and written to t. */
  function TurnByte(d: Bytes, s: nat, t: nat, sector: nat, j: nat): Byte
    requires s + 4096 <= |d| && j < |d|
  {
    if t <= j < t + 4096 then And(Blank(d, sector, j), Blank(d, sector, s + (j - t))) else Blank(d, sector, j)
  }

  ghost predicate Turned(d: Bytes, f: Bytes, s: nat, t: nat, sector: nat)
    requires s + 4096 <= |d|
  {
    |f| == |d| && forall j: nat :: j < |d| ==> f[j] == TurnByte(d, s, t, sector, j)
  }

  lemma {:induction false} ErasedAt(d: Bytes, sector: nat, x: nat)
    requires 4096 * sector + 4096 <= |d| && x < |d|
    ensures Overlay(d, 4096 * sector, Erased(4096))[x] == Blank(d, sector, x)
  {
  }

  lemma {:induction false} WrittenAt(e: Bytes, buffer: Bytes, t: nat, j: nat)
    requires |buffer| == 4096 && t + 4096 <= |e| && j < |e|
    ensures Overlay(e, t, Programmed(e[t..t + 4096], buffer))[j] ==
            if t <= j < t + 4096 then And(e[j], buffer[j - t]) else e[j]
  {
  }

  lemma {:induction false} CallsTurn(d: Bytes, e: Bytes, f: Bytes, buffer: Bytes, s: nat, t: nat, sector: nat)
    requires s + 4096 <= |d| && t + 4096 <= |d| && 4096 * sector + 4096 <= |d|
    requires e == Overlay(d, 4096 * sector, Erased(4096)) && buffer == e[s..s + 4096]
    requires f == Overlay(e, t, Programmed(e[t..t + 4096], buffer))
    ensures Turned(d, f, s, t, sector)
  {
    forall j: nat | j < |d| ensures f[j] == TurnByte(d, s, t, sector, j) {
      WrittenAt(e, buffer, t, j);
      ErasedAt(d, sector, j);
      if t <= j < t + 4096 {
        assert buffer[j - t] == e[s + (j - t)];
        ErasedAt(d, sector, s + (j - t));
      }
    }
  }

  /** The erase, the read and the write of one turn. */
  method EraseReadWrite(flash: Flash, saddr: nat, daddr: nat, sector: nat) returns (rc: int)
    requires flash.Valid() && 4096 * sector <= daddr < 4096 * sector + 4096
    modifies flash.data, flash`ops, flash`faults
    ensures Tells(rc, old(flash.faults), flash.faults)
    ensures rc == 0 ==> saddr + 4096 <= flash.data.Length && daddr + 4096 <= flash.data.Length
    ensures rc == 0 ==> Turned(old(flash.Contents()), flash.Contents(), saddr, daddr, sector)
    ensures rc != 0 ==>
              SameOutside(old(flash.Contents()), flash.Contents(), 4096 * sector, daddr - 4096 * sector + 4096)
  {
    ghost var d := flash.Contents();
    var buffer;
    rc, buffer := EraseRead(flash, saddr, sector);
    if rc != 0 {
      return;
    }
    ghost var e := flash.Contents();
    rc := flash.SPIWrite(daddr, buffer);
    if rc == 0 {
      CallsTurn(d, e, flash.Contents(), buffer, saddr, daddr, sector);
    } else {
      rc := 4;
      WriteFailed(d, e, flash.Contents(), 4096 * sector, daddr);
    }
  }

  lemma {:induction false} TurnedIsNext(d: Bytes, f: Bytes, s: nat, t: nat, k: nat)
    requires Within(|d|, s, t, k + 1)
    requires Turned(Turns(d, s, t, k), f, s + 4096 * k, t + 4096 * k, (t + 4096 * k) / 4096)
    ensures f == Turns(d, s, t, k + 1)
  {
    forall j: nat | j < |d| ensures f[j] == ByteAfter(d, s, t, k + 1, j) {
      TurnedByte(d, s, t, k, j);
    }
  }

  lemma {:induction false} TurnedByte(d: Bytes, s: nat, t: nat, k: nat, j: nat)
    requires Within(|d|, s, t, k + 1) && j < |d|
    ensures var at, from := t + 4096 * k, s + 4096 * k;
            TurnByte(Turns(d, s, t, k), from, at, at / 4096, j) == ByteAfter(d, s, t, k + 1, j)
  {
    var at, from := t + 4096 * k, s + 4096 * k;
    ErasedIsBlank(d, s, t, k, j);
    if at <= j < at + 4096 {
      assert from + (j - at) == s + (j - t);
      ErasedIsBlank(d, s, t, k, s + (j - t));
    }
  }

  lemma {:induction false} ErasedIsBlank(d: Bytes, s: nat, t: nat, k: nat, j: nat)
    requires Within(|d|, s, t, k) && j < |d|
    ensures Blank(Turns(d, s, t, k), (t + 4096 * k) / 4096, j) == ByteErased(d, s, t, k, j)
  {
  }

  lemma {:induction false} GivenUp(d: Bytes, f: Bytes, s: nat, t: nat, k: nat, count: nat)
    requires Within(|d|, s, t, k) && k < count
    requires SameOutside(Turns(d, s, t, k), f, SectorStart(t) + 4096 * k, t % 4096 + 4096)
    ensures SameOutside(d, f, SectorStart(t), t % 4096 + 4096 * count)
  {
    NextTurn(t, k);
    forall j: nat | j < |d| && (j < SectorStart(t) || t + 4096 * count <= j) ensures f[j] == d[j] {
      OutsideStays(d, s, t, k, j);
    }
  }

  /** The body of the loop, after k turns of count. */
  method CopyNext(flash: Flash, saddr: nat, daddr: nat, ghost d: Bytes, ghost s: nat, ghost t: nat,
                  ghost k: nat, ghost count: nat) returns (rc: int)
    requires flash.Valid() && |d| == flash.data.Length && k < count
    requires saddr == s + 4096 * k && daddr == t + 4096 * k && Within(|d|, s, t, k)
    requires flash.Contents() == Turns(d, s, t, k)
    modifies flash.data, flash`ops, flash`faults
    ensures Tells(rc, old(flash.faults), flash.faults)
    ensures rc == 0 ==> Within(|d|, s, t, k + 1) && flash.Contents() == Turns(d, s, t, k + 1)
    ensures rc != 0 ==> SameOutside(d, flash.Contents(), SectorStart(t), t % 4096 + 4096 * count)
  {
    var sector := daddr / FLASH_SECTOR_SIZE;
    NextTurn(t, k);
    assert 4096 * sector == SectorStart(t) + 4096 * k && daddr == 4096 * sector + t % 4096;
    rc := EraseReadWrite(flash, saddr, daddr, sector);
    if rc == 0 {
      TurnedIsNext(d, flash.Contents(), s, t, k);
    } else {
      GivenUp(d, flash.Contents(), s, t, k, count);
    }
  }

  /** In C, `src_addr & 0xfff != 0` masks the address with a truth value, so only odd addresses are turned away.
      The contents after a success are fully determined for all others, and what a failure leaves is confined to
      the sectors that the copy was to touch. */
  method CopyRaw(flash: Flash, src_addr: nat, dst_addr: nat, size: nat) returns (rc: int)
    requires flash.Valid() && src_addr < UINT32 && dst_addr < UINT32 && size < UINT32
    modifies flash.data, flash`ops, flash`faults
    ensures 0 <= rc <= 4 && (rc == 1 <==> src_addr % 2 == 1 || dst_addr % 2 == 1)
    ensures if rc == 1 then flash.faults == old(flash.faults) else Tells(rc, old(flash.faults), flash.faults)
    ensures rc == 0 ==> Within(flash.data.Length, src_addr, dst_addr, SectorCount(size))
    ensures rc == 0 ==> flash.Contents() == Turns(old(flash.Contents()), src_addr, dst_addr, SectorCount(size))
    ensures rc == 0 && !Aligned(dst_addr) && Rounded(size) > 0 ==> flash.Contents()[dst_addr - 1] == 0xff
    ensures rc == 0 && Aligned(src_addr) && Aligned(dst_addr) ==>
              Copied(old(flash.Contents()), flash.Contents(), src_addr, dst_addr, Rounded(size))
    ensures rc == 1 || Rounded(size) == 0 ==> flash.Contents() == old(flash.Contents())
    ensures SameOutside(old(flash.Contents()), flash.Contents(), SectorStart(dst_addr),
                        dst_addr % 4096 + Rounded(size))
  {
    if src_addr % 2 == 1 || dst_addr % 2 == 1 {
      return 1;
    }
    var left := Rounded(size);
    var saddr := src_addr;
    var daddr := dst_addr;
    ghost var d, k: nat := flash.Contents(), 0;
    while left != 0
      invariant k <= SectorCount(size) && left == 4096 * (SectorCount(size) - k)
      invariant saddr == src_addr + 4096 * k && daddr == dst_addr + 4096 * k
      invariant Within(flash.data.Length, src_addr, dst_addr, k)
      invariant flash.Contents() == Turns(d, src_addr, dst_addr, k)
      invariant flash.faults == old(flash.faults)
      decreases left
    {
      rc := CopyNext(flash, saddr, daddr, d, src_addr, dst_addr, k, SectorCount(size));
      if rc != 0 {
        return;
      }
      k := k + 1;
      saddr := (saddr + FLASH_SECTOR_SIZE) % UINT32;
      daddr := (daddr + FLASH_SECTOR_SIZE) % UINT32;
      left := left - FLASH_SECTOR_SIZE;
    }
    CopyOutcome(d, src_addr, dst_addr, k);
    return 0;
  }

  lemma {:induction false} CopyOutcome(d: Bytes, s: nat, t: nat, k: nat)
    requires Within(|d|, s, t, k)
    ensures SameOutside(d, Turns(d, s, t, k), SectorStart(t), t % 4096 + 4096 * k)
    ensures !Aligned(t) && k > 0 ==> Turns(d, s, t, k)[t - 1] == 0xff
    ensures Aligned(s) && Aligned(t) ==> Copied(d, Turns(d, s, t, k), s, t, 4096 * k)
  {
    TurnsOutside(d, s, t, k);
    if !Aligned(t) && k > 0 {
      ByteBeforeErased(d, s, t, k);
    } else if Aligned(s) && Aligned(t) {
      TurnsAligned(d, s, t, k);
    }
  }

  // ---------------------------------------------------------------- when the copy is a copy

  /** The first m bytes at t are those that d had at s, and outside the n bytes at t all is as in d. */
  ghost predicate Moved(d: Bytes, e: Bytes, s: nat, t: nat, n: nat, m: nat) {
    && SameOutside(d, e, t, n)
    && (m > 0 ==> s + m <= |d| && t + m <= |d|)
    && forall j: nat :: t <= j < t + m ==> e[j] == d[s + (j - t)]
  }

  /** To an aligned target at least a sector below the source, or beyond the m bytes to be copied. */
  predicate SafeToCopy(s: nat, t: nat, m: nat) {
    m == 0 || (Aligned(t) && (t + 4096 <= s || s + m <= t))
  }

  /** A copy under these conditions moves the bytes, even between overlapping areas and from any source. */
  lemma {:induction false} SafeCopyMoves(d: Bytes, s: nat, t: nat, k: nat, m: nat)
    requires Within(|d|, s, t, k) && m <= 4096 * k && (m == 0 ==> k == 0) && SafeToCopy(s, t, m)
    ensures Moved(d, Turns(d, s, t, k), s, t, 4096 * k, m)
  {
    TurnsOutside(d, s, t, k);
    NextTurn(t, k);
    forall j: nat | t <= j < t + m ensures ByteAfter(d, s, t, k, j) == d[s + (j - t)] {
      TargetByte(d, s, t, k, j - t);
      OutsideStays(d, s, t, (j - t) / 4096, s + (j - t));
    }
  }

  /** From a source below the target, byte t - s of the target is read back from the target's first byte. */
  lemma {:induction false} ReadBack(d: Bytes, s: nat, t: nat, k: nat)
    requires Aligned(t) && s < t < s + 4096 * k && Within(|d|, s, t, k)
    ensures ByteAfter(d, s, t, k, t + (t - s)) == if t - s < 4096 then 0xff else d[s]
  {
    var q := (t - s) / 4096;
    TargetByte(d, s, t, k, t - s);
    if q > 0 {
      TargetByte(d, s, t, q, 0);
    }
  }

  lemma {:induction false} WrongByte(d: Bytes, e: Bytes, s: nat, t: nat, n: nat, m: nat, j: nat)
    requires j < |e| && s + m <= |d| == |e|
    requires if t <= j < t + m then e[j] != d[s + (j - t)] else j < t && e[j] != d[j]
    ensures !Moved(d, e, s, t, n, m)
  {
  }

  /** Under no other: for every other pair of areas there are contents that are spoilt. */
  lemma {:induction false} UnsafeCopySpoils(size: nat, s: nat, t: nat, k: nat, m: nat) returns (d: Bytes)
    requires 0 < m <= 4096 * k && Within(size, s, t, k) && !SafeToCopy(s, t, m)
    ensures |d| == size && !Moved(d, Turns(d, s, t, k), s, t, 4096 * k, m)
  {
    d := seq(size, i => if i == t then 1 else 0);
    var j: nat;
    if !Aligned(t) {
      j := t - 1;
      ByteBeforeErased(d, s, t, k);
    } else if t <= s {
      j := t;
      TargetByte(d, s, t, k, 0);
    } else {
      j := t + (t - s);
      ReadBack(d, s, t, k);
    }
    WrongByte(d, Turns(d, s, t, k), s, t, 4096 * k, m, j);
  }

  /** A success copies the bytes asked for, whatever the contents, and changes nothing outside the rounded
      target. */
  ghost predicate AlwaysCopies(length: nat, s: nat, t: nat, size: nat)
    requires Within(length, s, t, SectorCount(size))
  {
    forall d: Bytes :: |d| == length ==> Moved(d, Turns(d, s, t, SectorCount(size)), s, t, Rounded(size), size)
  }

  /** For all addresses and sizes that the guard admits and that fit the flash. */
  lemma {:induction false} CopyIff(length: nat, s: nat, t: nat, size: nat)
    requires length <= MAX_FLASH_SIZE && s % 2 == 0 && t % 2 == 0 && size < UINT32
    requires Within(length, s, t, SectorCount(size))
    ensures AlwaysCopies(length, s, t, size) <==> size <= UINT32 - FLASH_SECTOR_SIZE && SafeToCopy(s, t, size)
  {
    var k := SectorCount(size);
    RoundedCoversIff(size);
    if size > UINT32 - FLASH_SECTOR_SIZE {
      var d: Bytes := seq(length, _ => 0);
      assert !Moved(d, Turns(d, s, t, k), s, t, Rounded(size), size);
    } else if SafeToCopy(s, t, size) {
      forall d: Bytes | |d| == length ensures Moved(d, Turns(d, s, t, k), s, t, Rounded(size), size) {
        SafeCopyMoves(d, s, t, k, size);
      }
    } else {
      var d := UnsafeCopySpoils(length, s, t, k, size);
    }
  }
}
