/** What the boot loader does after a reset (hardware/bootloaders/eboot/eboot.c:128-170). */
module Eboot {
  import opened BootImage
  import opened FlashCopy
  import opened Flash
  import opened Loader
  import opened Octets
  import Bits
  import Cmd = EbootCommand

  /** Either the application runs, or the chip is reset. */
  datatype Outcome = Started(entry: nat) | Restart(res: int)

  /** What a command record asks for. */
  datatype Job = Copy(src: nat, dst: nat, size: nat) | Load(addr: nat) | Nothing

  function JobOf(rec: Cmd.Record): Job {
    if Cmd.Accepted(rec) then Asked(rec) else Load(0)
  }

  function Asked(rec: Cmd.Record): Job {
    if rec[Cmd.ACTION] == Cmd.ACTION_COPY_RAW then CopyOf(rec)
    else if rec[Cmd.ACTION] == Cmd.ACTION_LOAD_APP then Load(Bits.Value(rec[Cmd.ARGS]))
    else Nothing
  }

  function CopyOf(rec: Cmd.Record): (job: Job)
    ensures job.Copy?
  {
    Copy(Source(rec), Target(rec), Size(rec))
  }

  ghost predicate CopyDone(job: Job, d: Bytes, e: Bytes)
    requires job.Copy?
  {
    Within(|d|, job.src, job.dst, SectorCount(job.size)) && e == Turns(d, job.src, job.dst, SectorCount(job.size))
  }

  /** A job that ends with an application running. */
  ghost predicate Done(job: Job, d: Bytes, e: Bytes, entry: nat, before: Memory, after: Memory) {
    match job
    case Load(addr) => e == d && LoadedFrom(d, addr, entry, before, after)
    case Copy(_, t, _) => CopyDone(job, d, e) && LoadedFrom(e, t, entry, before, after)
    case Nothing => false
  }

  /** A job that is turned away without a failing call: an unknown one, or a copy with an odd address. */
  predicate Impossible(job: Job) {
    job.Nothing? || (job.Copy? && (job.src % 2 == 1 || job.dst % 2 == 1))
  }

  /** What a job leaves alone, whether it succeeds or fails. */
  ghost predicate Spared(job: Job, d: Bytes, e: Bytes) {
    match job
    case Copy(_, t, size) => SameOutside(d, e, SectorStart(t), t % 4096 + Rounded(size))
    case _ => e == d
  }

  /** Part one of main: fetch the command, or make one up. */
  method FetchCommand(rtc: array<Bits.Word>, cmd: array<Bits.Word>)
    requires rtc != cmd && rtc.Length == cmd.Length == Cmd.DW_COUNT
    modifies rtc, cmd
    ensures rtc[..] == if Cmd.Accepted(old(rtc[..])) then Cmd.Cleared(old(rtc[..])) else old(rtc[..])
    ensures cmd[..] == if Cmd.Accepted(old(rtc[..])) then old(rtc[..]) else
              old(rtc[..])[Cmd.ACTION := Cmd.ACTION_LOAD_APP][Cmd.ARGS := Bits.Word32(0)]
    ensures Asked(cmd[..]) == JobOf(old(rtc[..]))
  {
    WordsDiffer();
    var status := Cmd.EbootCommandRead(rtc, cmd);
    if status == 0 {
      Cmd.EbootCommandClear(rtc);
    } else {
      cmd[Cmd.ACTION] := Cmd.ACTION_LOAD_APP;
      cmd[Cmd.ARGS] := Bits.Word32(0);
    }
  }

  /** Part two: copy, and go on as if a load from the target had been asked for. */
  method CopyAction(flash: Flash, cmd: array<Bits.Word>) returns (res: int)
    requires flash.Valid() && cmd.Length == Cmd.DW_COUNT
    modifies flash.data, flash`ops, flash`faults, cmd
    ensures var rec := old(cmd[..]);
            && (res == 0 ==>
                  && cmd[..] == rec[Cmd.ACTION := Cmd.ACTION_LOAD_APP][Cmd.ARGS := rec[Cmd.ARGS + 1]]
                  && Asked(cmd[..]) == Load(Target(rec))
                  && CopyDone(CopyOf(rec), old(flash.Contents()), flash.Contents())
                  && flash.faults == old(flash.faults))
            && (res != 0 ==> cmd[..] == rec)
            && (res != 0 ==> Faulted(old(flash.faults), flash.faults) || Impossible(CopyOf(rec)))
            && Spared(CopyOf(rec), old(flash.Contents()), flash.Contents())
  {
    WordsDiffer();
    res := CopyRaw(flash, Bits.Value(cmd[Cmd.ARGS]), Bits.Value(cmd[Cmd.ARGS + 1]), Bits.Value(cmd[Cmd.ARGS + 2]));
    if res == 0 {
      cmd[Cmd.ACTION] := Cmd.ACTION_LOAD_APP;
      cmd[Cmd.ARGS] := cmd[Cmd.ARGS + 1];
    }
  }

  method BootMain(flash: Flash, ram: Ram, rtc: array<Bits.Word>) returns (outcome: Outcome)
    requires flash.Valid() && rtc.Length == Cmd.DW_COUNT
    modifies flash.data, flash`ops, flash`faults, ram, rtc
    ensures rtc[..] == if Cmd.Accepted(old(rtc[..])) then Cmd.Cleared(old(rtc[..])) else old(rtc[..])
    ensures outcome.Started? ==> Done(JobOf(old(rtc[..])), old(flash.Contents()), flash.Contents(), outcome.entry,
                                      old(ram.mem), ram.mem)
    ensures Spared(JobOf(old(rtc[..])), old(flash.Contents()), flash.Contents())
    ensures outcome.Started? ==> flash.faults == old(flash.faults)
    ensures outcome.Restart? ==> outcome.res != 0
    ensures outcome.Restart? ==>
              || Faulted(old(flash.faults), flash.faults) || Impossible(JobOf(old(rtc[..])))
  {
    var res := 9;
    var cmd := new Bits.Word[32](_ => Bits.Falses(32));
    FetchCommand(rtc, cmd);
    WordsDiffer();
    if cmd[Cmd.ACTION] == Cmd.ACTION_COPY_RAW {
      res := CopyAction(flash, cmd);
    }
    if cmd[Cmd.ACTION] == Cmd.ACTION_LOAD_APP {
      var entry;
      res, entry := LoadAppFromFlashRaw(flash, ram, Bits.Value(cmd[Cmd.ARGS]));
      if res == 0 {
        return Started(entry);
      }
    }
    return Restart(res);
  }

  lemma {:induction false} SecondBit(x: nat, n: nat)
    requires n >= 2
    ensures Bits.FromNat(x, n)[n - 2] == (x / 2 % 2 == 1)
  {
    assert Bits.FromNat(x, n) == Bits.FromNat(x / 2, n - 1) + [x % 2 == 1];
    Bits.FromNatLow(x / 2, n - 1);
  }

  lemma {:induction false} WordsDiffer()
    ensures Cmd.ACTION_COPY_RAW != Cmd.ACTION_LOAD_APP
    ensures Bits.Value(Bits.Word32(0)) == 0
  {
    Bits.ToNatFromNat(0, 32);
    SecondBit(1, 32);
    SecondBit(0xffff_ffff, 32);
  }

  // ---------------------------------------------------------------- an update, from command to start

  lemma {:induction false} MovedStands(d: Bytes, e: Bytes, s: nat, t: nat, n: nat, m: nat, at: nat, image: Bytes)
    requires Moved(d, e, s, t, n, m) && StandsAt(d, s + at, image) && at + |image| <= m <= n
    requires t + n <= |d|
    ensures StandsAt(e, t + at, image)
  {
    forall i | 0 <= i < |image| ensures e[t + at..t + at + |image|][i] == image[i] {
      assert image[i] == d[s + at..s + at + |image|][i] == d[s + at + i];
      assert e[t + at + i] == d[s + (t + at + i - t)];
    }
    assert e[t + at..t + at + |image|] == image;
  }

  /** The length of the file that holds an image for the flash. */
  function FileLength(entry: nat, segments: seq<Segment>, mode: Byte, sizeFreq: Byte, toAddr: nat): nat {
    APP_START_OFFSET + |ImageOf(Header(entry, |segments|, mode, sizeFreq), segments, toAddr)|
  }

  lemma {:induction false} MovedInstalls(s: nat, t: nat, n: nat, m: nat, d: Bytes, e: Bytes, started: nat,
      before: Memory, after: Memory, entry: nat, segments: seq<Segment>, mode: Byte, sizeFreq: Byte, toAddr: nat)
    requires Flashed(d, s, entry, segments, mode, sizeFreq, toAddr) && t < UINT32 && t + n <= |d|
    requires FileLength(entry, segments, mode, sizeFreq, toAddr) == m <= n && Moved(d, e, s, t, n, m)
    requires LoadedFrom(e, t, started, before, after)
    ensures started == entry && after == Overlaid(before, segments)
  {
    MovedStands(d, e, s, t, n, m, APP_START_OFFSET,
                ImageOf(Header(entry, |segments|, mode, sizeFreq), segments, toAddr));
    assert Flashed(e, t, entry, segments, mode, sizeFreq, toAddr);
    LoadWritten(e, t, entry, segments, mode, sizeFreq, toAddr, started, before, after);
  }

  /** Copying a file that holds an image to a place that is safe for that many bytes, and loading it from
      there, installs and starts that image. */
  lemma {:induction false} CopyInstalls(s: nat, t: nat, size: nat, d: Bytes, started: nat,
      before: Memory, after: Memory, entry: nat, segments: seq<Segment>, mode: Byte, sizeFreq: Byte, toAddr: nat)
    requires Flashed(d, s, entry, segments, mode, sizeFreq, toAddr) && t < UINT32
    requires var m := FileLength(entry, segments, mode, sizeFreq, toAddr);
             m <= Rounded(size) && SafeToCopy(s, t, m)
    requires Within(|d|, s, t, SectorCount(size))
    requires LoadedFrom(Turns(d, s, t, SectorCount(size)), t, started, before, after)
    ensures Moved(d, Turns(d, s, t, SectorCount(size)), s, t, Rounded(size),
                  FileLength(entry, segments, mode, sizeFreq, toAddr))
    ensures started == entry && after == Overlaid(before, segments)
  {
    var e, m := Turns(d, s, t, SectorCount(size)), FileLength(entry, segments, mode, sizeFreq, toAddr);
    SafeCopyMoves(d, s, t, SectorCount(size), m);
    MovedInstalls(s, t, Rounded(size), m, d, e, started, before, after,
                  entry, segments, mode, sizeFreq, toAddr);
  }

  /** A copy command that was written to the mailbox, for a file that holds an image and a place that is
      safe for it, ends, if it ends in a running application at all, with the file in its new place,
      nothing else in the flash changed, and that image loaded and started. */
  lemma {:induction false} UpdateInstalls(cmd: Cmd.Record, d: Bytes, e: Bytes, started: nat,
      before: Memory, after: Memory, entry: nat, segments: seq<Segment>, mode: Byte, sizeFreq: Byte, toAddr: nat)
    requires cmd[Cmd.ACTION] == Cmd.ACTION_COPY_RAW
    requires var s, t, n := Source(cmd), Target(cmd), Rounded(Size(cmd));
             var m := FileLength(entry, segments, mode, sizeFreq, toAddr);
             Flashed(d, s, entry, segments, mode, sizeFreq, toAddr) && m <= n && SafeToCopy(s, t, m)
    requires Done(JobOf(Cmd.Sealed(cmd)), d, e, started, before, after)
    ensures Moved(d, e, Source(cmd), Target(cmd), Rounded(Size(cmd)),
                  FileLength(entry, segments, mode, sizeFreq, toAddr))
    ensures started == entry && after == Overlaid(before, segments)
  {
    JobOfSealed(cmd);
    CopyInstalls(Source(cmd), Target(cmd), Size(cmd), d, started, before, after,
                 entry, segments, mode, sizeFreq, toAddr);
  }

  function Source(rec: Cmd.Record): (x: nat) ensures x < UINT32 { Bits.Value(rec[Cmd.ARGS]) }

  function Target(rec: Cmd.Record): (x: nat) ensures x < UINT32 { Bits.Value(rec[Cmd.ARGS + 1]) }

  function Size(rec: Cmd.Record): (x: nat) ensures x < UINT32 { Bits.Value(rec[Cmd.ARGS + 2]) }

  lemma {:induction false} JobOfSealed(cmd: Cmd.Record)
    requires cmd[Cmd.ACTION] == Cmd.ACTION_COPY_RAW
    ensures JobOf(Cmd.Sealed(cmd)) ==
            Copy(Source(cmd), Target(cmd), Size(cmd))
  {
    Cmd.WrittenIsAccepted(cmd);
  }
}
