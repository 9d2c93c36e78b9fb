/** The command mailbox of the boot loader (hardware/bootloaders/eboot/eboot_command.c).

    An update leaves a 32-word record in the RTC memory before it resets the chip; the boot loader
    reads it back after the reset.  The record carries a CRC-32 over its first 31 words, with the
    generator polynomial of section 3.2.9 of IEEE 802.3 but without that standard's reflection and
    final complement. */
module EbootCommand {
  import opened Arithmetic
  import opened Bits
  import opened Sequences
  import Crc
  import Polynomials

  const EBOOT_MAGIC := 0xeb00_1000
  const EBOOT_MAGIC_MASK := 0xffff_f000
  const POLYNOMIAL: Word := Word32(0x04c1_1db7)
  const CRC_SEED: Word := Word32(0xffff_ffff)

  // struct eboot_command as an array of words: magic, action, args[29], crc32
  const MAGIC := 0
  const ACTION := 1
  const ARGS := 2
  const CRC32 := 31
  const DW_COUNT := 32

  const ACTION_COPY_RAW: Word := Word32(1)
  const ACTION_LOAD_APP: Word := Word32(0xffff_ffff)

  type Octet = b: Bits | |b| == 8 witness seq(8, _ => false)
  type Record = r: seq<Word> | |r| == 32 witness seq(32, _ => Falses(32))

  // ---------------------------------------------------------------- memory layout

  /** The four bytes of a word in the order of their addresses. */
  function WordBytes(w: Word): seq<Octet> {
    [w[24..], w[16..24], w[8..16], w[..8]]
  }

  function Bytes(words: seq<Word>): seq<Octet> {
    if words == [] then [] else WordBytes(words[0]) + Bytes(words[1..])
  }

  function WordStream(w: Word): (s: Bits)
    ensures |s| == 32
  {
    w[24..] + w[16..24] + w[8..16] + w[..8]
  }

  /** The bits of a run of bytes in the order in which crc_update meets them. */
  function Stream(data: seq<Octet>): Bits {
    if data == [] then [] else data[0] + Stream(data[1..])
  }

  function RecordStream(words: seq<Word>): (s: Bits)
    ensures |s| == 32 * |words|
  {
    if words == [] then [] else WordStream(words[0]) + RecordStream(words[1..])
  }

  lemma {:induction false} StreamOfBytes(words: seq<Word>)
    ensures Stream(Bytes(words)) == RecordStream(words)
  {
    if words != [] {
      StreamOfBytes(words[1..]);
      StreamOfWord(words[0], Bytes(words[1..]));
    }
  }

  lemma {:induction false} StreamOfWord(w: Word, rest: seq<Octet>)
    ensures Stream(WordBytes(w) + rest) == WordStream(w) + Stream(rest)
  {
    var b := WordBytes(w);
    assert b + rest == [b[0]] + ([b[1]] + ([b[2]] + ([b[3]] + rest)));
    StreamHead(b[3], rest);
    StreamHead(b[2], [b[3]] + rest);
    StreamHead(b[1], [b[2]] + ([b[3]] + rest));
    StreamHead(b[0], [b[1]] + ([b[2]] + ([b[3]] + rest)));
  }

  lemma {:induction false} StreamHead(b: Octet, rest: seq<Octet>)
    ensures Stream([b] + rest) == b + Stream(rest)
  {
    assert ([b] + rest)[1..] == rest;
  }

  lemma {:induction false} RecordStreamSplit(a: seq<Word>, b: seq<Word>)
    ensures RecordStream(a + b) == RecordStream(a) + RecordStream(b)
  {
    if a == [] {
      assert a + b == b;
    } else {
      RecordStreamSplit(a[1..], b);
      ConsConcat(a, b);
      Associative(WordStream(a[0]), RecordStream(a[1..]), RecordStream(b));
    }
  }

  lemma {:induction false} WordStreamInjective(v: Word, w: Word)
    requires WordStream(v) == WordStream(w)
    ensures v == w
  {
    forall i: nat | i < 32 ensures v[i] == w[i] {
      var k := 8 * (3 - i / 8) + i % 8;
      assert v[i] == WordStream(v)[k] && w[i] == WordStream(w)[k];
    }
  }

  lemma {:induction false} RecordStreamInjective(a: seq<Word>, b: seq<Word>)
    requires |a| == |b| && RecordStream(a) == RecordStream(b)
    ensures a == b
  {
    if a != [] {
      assert WordStream(a[0]) == RecordStream(a)[..32] && WordStream(b[0]) == RecordStream(b)[..32];
      assert RecordStream(a[1..]) == RecordStream(a)[32..] && RecordStream(b[1..]) == RecordStream(b)[32..];
      WordStreamInjective(a[0], b[0]);
      RecordStreamInjective(a[1..], b[1..]);
    }
  }

  // ---------------------------------------------------------------- the operations

  /** The check value of a run of words. */
  function Check(words: seq<Word>): Word {
    Crc.Feed(POLYNOMIAL, CRC_SEED, RecordStream(words))
  }

  lemma {:induction false} TakeBit(c: Octet, i: nat, rest: Bits)
    requires i < 8
    ensures (c[i..] + rest)[0] == c[i] && (c[i..] + rest)[1..] == c[i + 1..] + rest
  {
    assert c[i..][1..] == c[i + 1..];
  }

  method CrcUpdate(crc0: Word, data: seq<Octet>) returns (crc: Word)
    ensures crc == Crc.Feed(POLYNOMIAL, crc0, Stream(data))
  {
    crc := crc0;
    var n := 0;
    assert data[0..] == data;
    while n < |data|
      invariant n <= |data|
      invariant Crc.Feed(POLYNOMIAL, crc, Stream(data[n..])) == Crc.Feed(POLYNOMIAL, crc0, Stream(data))
    {
      var c := data[n];
      ghost var rest := Stream(data[n + 1..]);
      assert data[n..][1..] == data[n + 1..];
      assert c[0..] == c;
      var i := 0;   // the bit selected by the mask 0x80 >> i
      while i < 8
        invariant i <= 8
        invariant Crc.Feed(POLYNOMIAL, crc, c[i..] + rest) == Crc.Feed(POLYNOMIAL, crc0, Stream(data))
      {
        TakeBit(c, i, rest);
        var bit := crc[0];
        if c[i] {
          bit := !bit;
        }
        crc := crc[1..] + [false];
        if bit {
          crc := Xor(crc, POLYNOMIAL);
        }
        i := i + 1;
      }
      assert c[8..] + rest == rest;
      n := n + 1;
    }
    assert data[n..] == [];
  }

  method CalculateCrc32(cmd: array<Word>) returns (crc: Word)
    requires cmd.Length == DW_COUNT
    ensures crc == Check(cmd[..CRC32])
  {
    crc := CrcUpdate(CRC_SEED, Bytes(cmd[..CRC32]));
    StreamOfBytes(cmd[..CRC32]);
  }

  /** When a record is taken for a command.  In C, `magic & MASK != MAGIC` masks the magic word with
      the truth value of `MASK != MAGIC`, so of the magic word only the lowest bit is looked at. */
  predicate Accepted(rec: Record) {
    !rec[MAGIC][31] && rec[CRC32] == Check(rec[..CRC32])
  }

  /** The record with its magic word and its check value filled in. */
  function Sealed(rec: Record): Record {
    var marked := rec[MAGIC := Word32(EBOOT_MAGIC)];
    marked[CRC32 := Check(marked[..CRC32])]
  }

  function Cleared(rec: Record): Record {
    rec[MAGIC := Word32(0)][CRC32 := Word32(0)]
  }

  lemma {:induction false} LowBitMask(w: Word)
    ensures And(w, Word32(1)) != Word32(0) <==> w[31]
  {
    FromNatZero(31);
    FromNatZero(32);
    assert Word32(1) == FromNat(0, 31) + [true];
    assert And(w, Word32(1))[31] == w[31];
    if !w[31] {
      assert And(w, Word32(1)) == Falses(32);
    }
  }

  /** The word-by-word loops of the read and of the write. */
  method CopyWords(src: array<Word>, dst: array<Word>)
    requires src != dst && src.Length == dst.Length == DW_COUNT
    modifies dst
    ensures dst[..] == src[..]
  {
    var i := 0;
    while i < DW_COUNT
      invariant i <= DW_COUNT && dst[..i] == src[..i]
    {
      dst[i] := src[i];
      i := i + 1;
    }
    assert dst[..] == dst[..DW_COUNT] && src[..] == src[..DW_COUNT];
  }

  method EbootCommandRead(rtc: array<Word>, cmd: array<Word>) returns (res: int)
    requires rtc != cmd && rtc.Length == cmd.Length == DW_COUNT
    modifies cmd
    ensures cmd[..] == rtc[..]
    ensures res == if Accepted(rtc[..]) then 0 else 1
  {
    CopyWords(rtc, cmd);
    assert cmd[..CRC32] == rtc[..][..CRC32];
    var crc32 := CalculateCrc32(cmd);
    LowBitMask(cmd[MAGIC]);
    var test := if EBOOT_MAGIC_MASK != EBOOT_MAGIC then 1 else 0;
    if And(cmd[MAGIC], Word32(test)) != Word32(0) || cmd[CRC32] != crc32 {
      return 1;
    }
    return 0;
  }

  method EbootCommandWrite(cmd: array<Word>, rtc: array<Word>)
    requires rtc != cmd && rtc.Length == cmd.Length == DW_COUNT
    modifies cmd, rtc
    ensures cmd[..] == rtc[..] == Sealed(old(cmd[..]))
  {
    cmd[MAGIC] := Word32(EBOOT_MAGIC);
    assert cmd[..] == old(cmd[..])[MAGIC := Word32(EBOOT_MAGIC)];
    assert cmd[..CRC32] == cmd[..][..CRC32];
    cmd[CRC32] := CalculateCrc32(cmd);
    assert cmd[..] == Sealed(old(cmd[..]));
    CopyWords(cmd, rtc);
  }

  method EbootCommandClear(rtc: array<Word>)
    requires rtc.Length == DW_COUNT
    modifies rtc
    ensures rtc[..] == Cleared(old(rtc[..]))
  {
    rtc[MAGIC] := Word32(0);
    rtc[CRC32] := Word32(0);
  }

  // ---------------------------------------------------------------- what the check value protects

  lemma {:induction false} ConstantsOdd()
    ensures POLYNOMIAL[31] && !Word32(EBOOT_MAGIC)[31] && !Word32(0)[31]
  {
    FromNatLow(0x04c1_1db7, 32);
    FromNatLow(EBOOT_MAGIC, 32);
    FromNatLow(0, 32);
  }

  // ---------------------------------------------------------------- what the check value is

  /** The hexadecimal digits of the polynomial. */
  predicate ItsDigits(d: seq<Digit>) {
    |d| == 8 && d[..4] == [0, 4, 0xc, 1] && d[4..] == [1, 0xd, 0xb, 7]
  }

  lemma {:induction false} DigitsValue(d: seq<Digit>)
    requires ItsDigits(d)
    ensures HexValue(d) == 0x04c1_1db7
  {
    HexValueStep(d, 0);
    HexValueStep(d, 1);
    HexValueStep(d, 2);
    HexValueStep(d, 3);
    HexValueStep(d, 4);
    HexValueStep(d, 5);
    HexValueStep(d, 6);
    HexValueStep(d, 7);
    assert d[4] == d[4..][0] && d[5] == d[4..][1] && d[6] == d[4..][2] && d[7] == d[4..][3];
    assert d[..8] == d;
  }

  lemma {:induction false} DigitsOfPolynomial() returns (d: seq<Digit>)
    ensures ItsDigits(d) && POLYNOMIAL == HexBits(d)
  {
    d := [0, 4, 0xc, 1] + [1, 0xd, 0xb, 7];
    DigitsValue(d);
    FromNatHex(d);
  }

  /** The powers of x in the generator polynomial of IEEE 802.3 below x^32. */
  const EXPONENTS: set<nat> := {0, 1, 2, 4, 5, 7, 8, 10, 11, 12, 16, 22, 23, 26}

  lemma {:induction false} DigitExponents(d: seq<Digit>, i: nat, k: nat)
    requires i < 8 && k < 4 && ItsDigits(d)
    ensures Hex(d[7 - i])[3 - k] <==> 4 * i + k in EXPONENTS
  {
    assert d[7 - i] == if i < 4 then d[4..][3 - i] else d[..4][7 - i];
  }

  lemma {:induction false} ExponentsOfDigits(poly: Bits, d: seq<Digit>, i: nat, k: nat)
    requires i < 8 && k < 4 && ItsDigits(d) && poly == HexBits(d)
    ensures poly[31 - (4 * i + k)] <==> 4 * i + k in EXPONENTS
  {
    HexBitAt(d, 7 - i, 3 - k);
    DigitExponents(d, i, k);
  }

  /** The generator is the sum of x^32 and of these powers. */
  lemma {:induction false} GeneratorExponents(e: nat)
    requires e <= 32
    ensures Crc.Generator(POLYNOMIAL)[32 - e] <==> e == 32 || e in EXPONENTS
  {
    if e < 32 {
      var d := DigitsOfPolynomial();
      ExponentsOfDigits(POLYNOMIAL, d, e / 4, e % 4);
    }
  }

  /** Bit 8 * j + i of a word's part of the stream is bit i, from the top, of the byte of weight 256^j. */
  lemma {:induction false} StreamBit(words: seq<Word>, k: nat, j: nat, i: nat)
    requires k < |words| && j < 4 && i < 8
    ensures RecordStream(words)[32 * k + 8 * j + i] == words[k][31 - (8 * j + 7 - i)]
  {
    StreamAround(words, k);
  }

  /** The stream with its first 32 bits inverted. */
  function Inverted(s: Bits): (t: Bits)
    ensures |t| == |s|
  {
    seq(|s|, i requires 0 <= i < |s| => if i < 32 then !s[i] else s[i])
  }

  /** The check value is the remainder of the stream, with its first 32 bits inverted, times x^32 by the generator. */
  lemma {:induction false} CheckIsRemainder(words: seq<Word>, r: Word)
    requires words != []
    ensures Check(words) == r <==>
            Polynomials.IsRemainder(r, Inverted(RecordStream(words)) + Falses(32), Crc.Generator(POLYNOMIAL))
  {
    var s := RecordStream(words);
    SeedIsOnes();
    Crc.SeedIsXor(POLYNOMIAL, CRC_SEED, s);
    assert Xor(s, CRC_SEED + Falses(|s| - 32)) == Inverted(s);
    Crc.FeedIsRemainder(POLYNOMIAL, Inverted(s), r);
  }

  lemma {:induction false} SeedIsOnes()
    ensures CRC_SEED == seq(32, _ => true)
  {
    FromNatOnes(32);
    Power2Of32();
  }

  /** A written command is accepted, and everything but the magic and the check value is kept. */
  lemma {:induction false} WrittenIsAccepted(rec: Record)
    ensures Accepted(Sealed(rec))
    ensures Sealed(rec)[ACTION..CRC32] == rec[ACTION..CRC32]
  {
    ConstantsOdd();
    assert Sealed(rec)[..CRC32] == rec[MAGIC := Word32(EBOOT_MAGIC)][..CRC32];
  }

  /** Replacing one word changes the check value. */
  lemma {:induction false} CheckSeesWord(words: seq<Word>, i: nat, w: Word)
    requires i < |words| && Check(words) == Check(words[i := w])
    ensures words[i] == w
  {
    ConstantsOdd();
    var a, b := words, words[i := w];
    StreamAround(a, i);
    StreamAround(b, i);
    assert b[..i] == a[..i] && b[i + 1..] == a[i + 1..];
    Crc.WindowDetected(POLYNOMIAL, CRC_SEED, RecordStream(a), RecordStream(b),
                       RecordStream(a[..i]), WordStream(a[i]), WordStream(w), RecordStream(a[i + 1..]));
    WordStreamInjective(words[i], w);
  }

  lemma {:induction false} StreamAround(words: seq<Word>, i: nat)
    requires i < |words|
    ensures RecordStream(words) == RecordStream(words[..i]) + WordStream(words[i]) + RecordStream(words[i + 1..])
  {
    assert words == words[..i] + words[i..];
    RecordStreamSplit(words[..i], words[i..]);
    assert words[i..][1..] == words[i + 1..];
  }

  lemma {:induction false} ChangedWordRejected(rec: Record, i: nat, w: Word)
    requires i < DW_COUNT && w != Sealed(rec)[i]
    ensures !Accepted(Sealed(rec)[i := w])
  {
    var good := Sealed(rec);
    WrittenIsAccepted(rec);
    if i == CRC32 {
      assert good[i := w][..CRC32] == good[..CRC32];
    } else {
      assert good[i := w][..CRC32] == good[..CRC32][i := w];
      if Check(good[..CRC32]) == Check(good[..CRC32][i := w]) {
        CheckSeesWord(good[..CRC32], i, w);
      }
    }
  }

  /** Any change confined to one word of a written record makes the record unacceptable. */
  lemma {:induction false} CorruptWordRejected(rec: Record, i: nat, w: Word)
    requires i < DW_COUNT
    ensures Accepted(Sealed(rec)[i := w]) <==> w == Sealed(rec)[i]
  {
    var good := Sealed(rec);
    if w == good[i] {
      assert good[i := w] == good;
      WrittenIsAccepted(rec);
    } else {
      ChangedWordRejected(rec, i, w);
    }
  }

  /** Replacing words within 32 consecutive bits changes the check value. */
  lemma {:induction false} CheckSeesBurst(v: seq<Word>, w: seq<Word>, k: nat)
    requires |v| == |w| && k + 32 <= 32 * |v| && Check(v) == Check(w)
    requires RecordStream(v)[..k] == RecordStream(w)[..k] && RecordStream(v)[k + 32..] == RecordStream(w)[k + 32..]
    ensures v == w
  {
    ConstantsOdd();
    Crc.BurstDetected(POLYNOMIAL, CRC_SEED, RecordStream(v), RecordStream(w), k);
    RecordStreamInjective(v, w);
  }

  /** So does any burst: a change confined to 32 consecutive bits of the protected words, counted in
      the order in which the check runs over them, across word boundaries or not. */
  lemma {:induction false} CorruptBurstRejected(rec: Record, bad: Record, k: nat)
    requires k + 32 <= 32 * CRC32 && bad[CRC32] == Sealed(rec)[CRC32]
    requires RecordStream(bad[..CRC32])[..k] == RecordStream(Sealed(rec)[..CRC32])[..k]
    requires RecordStream(bad[..CRC32])[k + 32..] == RecordStream(Sealed(rec)[..CRC32])[k + 32..]
    ensures Accepted(bad) <==> bad == Sealed(rec)
  {
    var good := Sealed(rec);
    WrittenIsAccepted(rec);
    assert bad == bad[..CRC32] + [bad[CRC32]] && good == good[..CRC32] + [good[CRC32]];
    if Accepted(bad) {
      CheckSeesBurst(bad[..CRC32], good[..CRC32], k);
    }
  }

  // ---------------------------------------------------------------- a consumed command

  /** What the magic word contributes to the check value of any record. */
  const CONSUMED: Word :=
    Crc.Feed(POLYNOMIAL, Falses(32), WordStream(Word32(EBOOT_MAGIC)) + Falses(32 * 30))

  /** How the check value depends on the first word. */
  lemma {:induction false} CheckHead(a: Word, b: Word, rest: seq<Word>)
    ensures Check([a] + rest) == Xor(Check([b] + rest), Crc.Feed(POLYNOMIAL, Falses(32),
                                     Xor(WordStream(a), WordStream(b)) + Falses(32 * |rest|)))
  {
    var r := RecordStream(rest);
    var s, d := WordStream(b) + r, Xor(WordStream(a), WordStream(b)) + Falses(|r|);
    assert ([a] + rest)[1..] == rest && ([b] + rest)[1..] == rest;
    assert Xor(s, d) == WordStream(a) + r;
    assert Xor(CRC_SEED, Falses(32)) == CRC_SEED;
    Crc.FeedLinear(POLYNOMIAL, CRC_SEED, Falses(32), s, d);
  }

  lemma {:induction false} CheckOfFirst(rec: Record, magic: Word)
    ensures Check(rec[MAGIC := magic][..CRC32]) ==
            Xor(Check(rec[MAGIC := Falses(32)][..CRC32]),
                Crc.Feed(POLYNOMIAL, Falses(32), WordStream(magic) + Falses(32 * 30)))
  {
    var zero, rest := Falses(32), rec[1..CRC32];
    assert rec[MAGIC := magic][..CRC32] == [magic] + rest;
    assert rec[MAGIC := zero][..CRC32] == [zero] + rest;
    assert Xor(WordStream(magic), WordStream(zero)) == WordStream(magic);
    CheckHead(magic, zero, rest);
  }

  lemma {:induction false} CheckOfMagic(rec: Record)
    ensures Sealed(rec)[CRC32] == Xor(Check(Cleared(Sealed(rec))[..CRC32]), CONSUMED)
  {
    CheckOfFirst(rec, Word32(EBOOT_MAGIC));
    FromNatZero(32);
    assert Cleared(Sealed(rec))[..CRC32] == rec[MAGIC := Falses(32)][..CRC32];
  }

  /** Clearing a command does not always consume it: the cleared record is still accepted exactly
      when the stored check value was one particular constant. */
  lemma {:induction false} ClearedStillAcceptedIff(rec: Record)
    ensures Accepted(Cleared(Sealed(rec))) <==> Sealed(rec)[CRC32] == CONSUMED
  {
    CheckOfMagic(rec);
    ConstantsOdd();
    FromNatZero(32);
    var c := Check(Cleared(Sealed(rec))[..CRC32]);
    assert c == Word32(0) ==> Xor(c, CONSUMED) == CONSUMED;
    assert Xor(Xor(c, CONSUMED), CONSUMED) == c;
    assert Xor(CONSUMED, CONSUMED) == Falses(32);
  }

  /** The command with v as its last argument is still accepted after it was written and cleared. */
  predicate SurvivesClearing(rec: Record, v: Word) {
    Accepted(Cleared(Sealed(rec[30 := v])))
  }

  /** Such commands exist: whatever the action and the other arguments, one value of the last
      argument, and only one, makes the command survive its clearing. */
  lemma {:induction false} ClearedStillAcceptedExists(rec: Record) returns (w: Word)
    ensures SurvivesClearing(rec, w)
    ensures forall v: Word :: SurvivesClearing(rec, v) ==> v == w
  {
    ConstantsOdd();
    var reg := RegisterBeforeLast(rec);
    var s := Crc.WindowSolvable(POLYNOMIAL, reg, CONSUMED);
    w := WordOfStream(s);
    SurvivesIff(rec, w);
    forall v: Word | SurvivesClearing(rec, v) ensures v == w {
      SurvivesIff(rec, v);
      Crc.WindowInjective(POLYNOMIAL, reg, WordStream(v), s);
      WordStreamInjective(v, w);
    }
  }

  lemma {:induction false} WordOfStream(s: Bits) returns (w: Word)
    requires |s| == 32
    ensures WordStream(w) == s
  {
    w := s[24..] + s[16..24] + s[8..16] + s[..8];
    assert w[24..] == s[..8] && w[16..24] == s[8..16] && w[8..16] == s[16..24] && w[..8] == s[24..];
  }

  /** The check register when only the last argument is still to come. */
  function RegisterBeforeLast(rec: Record): Word {
    Crc.Feed(POLYNOMIAL, CRC_SEED, RecordStream(rec[MAGIC := Word32(EBOOT_MAGIC)][..30]))
  }

  lemma {:induction false} SurvivesIff(rec: Record, v: Word)
    ensures SurvivesClearing(rec, v) <==>
            Crc.Feed(POLYNOMIAL, RegisterBeforeLast(rec), WordStream(v)) == CONSUMED
  {
    ClearedStillAcceptedIff(rec[30 := v]);
    var body := rec[MAGIC := Word32(EBOOT_MAGIC)][..30];
    assert rec[30 := v][MAGIC := Word32(EBOOT_MAGIC)][..CRC32] == body + [v];
    RecordStreamSplit(body, [v]);
    assert RecordStream([v]) == WordStream(v);
    Crc.FeedConcat(POLYNOMIAL, CRC_SEED, RecordStream(body), WordStream(v));
  }

  /** With the parentheses that the constants call for, clearing would always consume the command,
      and a written command would still be accepted. */
  lemma {:induction false} IntendedTestConsumes(rec: Record)
    ensures And(Cleared(Sealed(rec))[MAGIC], Word32(EBOOT_MAGIC_MASK)) != Word32(EBOOT_MAGIC)
    ensures And(Sealed(rec)[MAGIC], Word32(EBOOT_MAGIC_MASK)) == Word32(EBOOT_MAGIC)
  {
    var magic := MagicWord();
    var mask := MaskWord();
    FromNatZero(32);
    AndMask(magic, 12);
  }

  lemma {:induction false} MagicWord() returns (a: Bits)
    ensures |a| == 20 && a[19] && Word32(EBOOT_MAGIC) == a + Falses(12)
  {
    var h := 0xe_b001;
    assert Power2(12) == 4096;
    ShiftedWord(EBOOT_MAGIC, h, 20, 12);
    FromNatLow(h, 20);
    a := FromNat(h, 20);
  }

  lemma {:induction false} MaskWord() returns (ones: Bits)
    ensures ones == seq(20, _ => true) && Word32(EBOOT_MAGIC_MASK) == ones + Falses(12)
  {
    assert Power2(12) == 4096 && Power2(20) == 0x10_0000;
    OnesWord(EBOOT_MAGIC_MASK, 20, 12);
    ones := seq(20, _ => true);
  }

  lemma {:induction false} ShiftedWord(x: nat, h: nat, n: nat, k: nat)
    requires n + k == 32 && x == h * Power2(k)
    ensures Word32(x) == FromNat(h, n) + Falses(k)
  {
    FromNatShifted(h, n, k);
  }

  lemma {:induction false} OnesWord(x: nat, n: nat, k: nat)
    requires n + k == 32 && x == (Power2(n) - 1) * Power2(k)
    ensures Word32(x) == seq(n, _ => true) + Falses(k)
  {
    ShiftedWord(x, Power2(n) - 1, n, k);
    FromNatOnes(n);
  }

  lemma {:induction false} AndMask(a: Bits, k: nat)
    ensures And(a + Falses(k), seq(|a|, _ => true) + Falses(k)) == a + Falses(k)
    ensures And(Falses(|a| + k), seq(|a|, _ => true) + Falses(k)) == Falses(|a| + k)
    ensures |a| > 0 && a[|a| - 1] ==> (a + Falses(k))[|a| - 1]
  {
  }
}
