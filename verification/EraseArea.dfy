/** Erasing an area with as few erase commands as possible (hardware/bootloaders/eboot/flash.c:14-48). */
module EraseArea {
  import opened Flash
  import opened Octets
  import opened Sequences

  const SECTORS_PER_BLOCK: nat := 16   // FLASH_BLOCK_SIZE / FLASH_SECTOR_SIZE

  // ---------------------------------------------------------------- what erase commands cover

  function SectorsOf(op: EraseOp): (s: seq<nat>)
    ensures |s| == if op.Block? then SECTORS_PER_BLOCK else 1
  {
    match op
    case Sector(n) => [n]
    case Block(n) => Range(SECTORS_PER_BLOCK * n, SECTORS_PER_BLOCK * (n + 1))
  }

  function Range(a: nat, b: nat): (s: seq<nat>)
    requires a <= b
    ensures |s| == b - a
  {
    seq(b - a, i requires 0 <= i < b - a => a + i)
  }

  /** The sectors that a run of commands erases, in the order in which it erases them. */
  function Expand(ops: seq<EraseOp>): seq<nat> {
    if ops == [] then [] else SectorsOf(ops[0]) + Expand(ops[1..])
  }

  // ---------------------------------------------------------------- the plan

  function Head(c: nat, end: nat): seq<EraseOp>
    decreases end - c
  {
    if c < end && c % SECTORS_PER_BLOCK != 0 then [Sector(c)] + Head(c + 1, end) else Blocks(c, end)
  }

  function Blocks(c: nat, end: nat): seq<EraseOp>
    decreases end - c
  {
    if c + SECTORS_PER_BLOCK <= end
    then [Block(c / SECTORS_PER_BLOCK)] + Blocks(c + SECTORS_PER_BLOCK, end)
    else Tail(c, end)
  }

  function Tail(c: nat, end: nat): seq<EraseOp>
    decreases end - c
  {
    if c < end then [Sector(c)] + Tail(c + 1, end) else []
  }

  lemma {:induction false} RangeConcat(a: nat, b: nat, c: nat)
    requires a <= b <= c
    ensures Range(a, b) + Range(b, c) == Range(a, c)
  {
  }

  lemma {:induction false} ExpandCons(op: EraseOp, rest: seq<EraseOp>, a: nat, b: nat, c: nat)
    requires a <= b <= c && SectorsOf(op) == Range(a, b) && Expand(rest) == Range(b, c)
    ensures Expand([op] + rest) == Range(a, c)
  {
    assert ([op] + rest)[1..] == rest;
    RangeConcat(a, b, c);
  }

  /** The plan erases every sector of the range once, in ascending order, and no other. */
  lemma {:induction false} HeadCovers(c: nat, end: nat)
    requires c <= end
    ensures Expand(Head(c, end)) == Range(c, end)
    decreases end - c
  {
    if c < end && c % SECTORS_PER_BLOCK != 0 {
      HeadCovers(c + 1, end);
      ExpandCons(Sector(c), Head(c + 1, end), c, c + 1, end);
    } else {
      BlocksCover(c, end);
    }
  }

  lemma {:induction false} BlocksCover(c: nat, end: nat)
    requires c == end || (c < end && c % SECTORS_PER_BLOCK == 0)
    ensures Expand(Blocks(c, end)) == Range(c, end)
    decreases end - c
  {
    if c + SECTORS_PER_BLOCK <= end {
      BlocksCover(c + SECTORS_PER_BLOCK, end);
      ExpandCons(Block(c / SECTORS_PER_BLOCK), Blocks(c + SECTORS_PER_BLOCK, end), c, c + SECTORS_PER_BLOCK, end);
    } else {
      TailCovers(c, end);
    }
  }

  lemma {:induction false} TailCovers(c: nat, end: nat)
    requires c <= end
    ensures Expand(Tail(c, end)) == Range(c, end)
    decreases end - c
  {
    if c < end {
      TailCovers(c + 1, end);
      ExpandCons(Sector(c), Tail(c + 1, end), c, c + 1, end);
    }
  }

  lemma {:induction false} ExpandConcat(a: seq<EraseOp>, b: seq<EraseOp>)
    ensures Expand(a + b) == Expand(a) + Expand(b)
  {
    if a == [] {
      assert a + b == b;
    } else {
      ExpandConcat(a[1..], b);
      ConsConcat(a, b);
      Associative(SectorsOf(a[0]), Expand(a[1..]), Expand(b));
    }
  }

  // ---------------------------------------------------------------- the plan is the shortest

  function BlockCount(ops: seq<EraseOp>): nat {
    if ops == [] then 0 else (if ops[0].Block? then 1 else 0) + BlockCount(ops[1..])
  }

  /** A block command saves fifteen commands. */
  lemma {:induction false} CommandCount(ops: seq<EraseOp>)
    ensures |ops| + 15 * BlockCount(ops) == |Expand(ops)|
  {
    if ops != [] {
      CommandCount(ops[1..]);
    }
  }

  /** The number of whole aligned blocks between two sectors. */
  function WholeBlocks(c: nat, end: nat): nat {
    var first, last := (c + SECTORS_PER_BLOCK - 1) / SECTORS_PER_BLOCK, end / SECTORS_PER_BLOCK;
    if first < last then last - first else 0
  }

  lemma {:induction false} TailBlocks(c: nat, end: nat)
    ensures BlockCount(Tail(c, end)) == 0
    decreases end - c
  {
    if c < end {
      TailBlocks(c + 1, end);
      assert Tail(c, end)[1..] == Tail(c + 1, end);
    }
  }

  lemma {:induction false} BlocksBlocks(c: nat, end: nat)
    requires c <= end && c % SECTORS_PER_BLOCK == 0
    ensures BlockCount(Blocks(c, end)) == WholeBlocks(c, end)
    decreases end - c
  {
    if c + SECTORS_PER_BLOCK <= end {
      BlocksBlocks(c + SECTORS_PER_BLOCK, end);
      assert Blocks(c, end)[1..] == Blocks(c + SECTORS_PER_BLOCK, end);
    } else {
      TailBlocks(c, end);
    }
  }

  lemma {:induction false} SameBlocks(c: nat, end: nat)
    requires c % SECTORS_PER_BLOCK != 0
    ensures WholeBlocks(c, end) == WholeBlocks(c + 1, end)
    ensures c == end ==> WholeBlocks(c, end) == 0
  {
  }

  lemma {:induction false} HeadBlocks(c: nat, end: nat)
    requires c <= end
    ensures BlockCount(Head(c, end)) == WholeBlocks(c, end)
    decreases end - c
  {
    if c % SECTORS_PER_BLOCK == 0 {
      BlocksBlocks(c, end);
    } else {
      SameBlocks(c, end);
      if c < end {
        HeadBlocks(c + 1, end);
        assert Head(c, end)[1..] == Head(c + 1, end);
      } else {
        assert Head(c, end) == [];
      }
    }
  }

  /** The block numbers that a run of commands uses. */
  function BlockSet(ops: seq<EraseOp>): set<nat> {
    set i | 0 <= i < |ops| && ops[i].Block? :: ops[i].n
  }

  function SetOf(s: seq<nat>): set<nat> {
    set n | n in s
  }

  lemma {:induction false} BlocksWithin(ops: seq<EraseOp>, i: nat, k: nat)
    requires i < |ops| && ops[i].Block? && k < SECTORS_PER_BLOCK
    ensures SECTORS_PER_BLOCK * ops[i].n + k in Expand(ops)
    decreases i
  {
    if i == 0 {
      assert SectorsOf(ops[0])[k] == SECTORS_PER_BLOCK * ops[0].n + k;
      assert Expand(ops)[k] == SECTORS_PER_BLOCK * ops[0].n + k;
    } else {
      BlocksWithin(ops[1..], i - 1, k);
    }
  }

  lemma {:induction false} SetOfConcat(s: seq<nat>, t: seq<nat>)
    ensures SetOf(s + t) == SetOf(s) + SetOf(t)
    ensures |SetOf(s + t)| <= |SetOf(s)| + |SetOf(t)|
  {
    var a, b := SetOf(s), SetOf(t);
    assert SetOf(s + t) == a + b;
    assert |a + b| + |a * b| == |a| + |b|;
  }

  lemma {:induction false} SetOfSize(s: seq<nat>)
    ensures |SetOf(s)| <= |s|
  {
    if s != [] {
      SetOfSize(s[1..]);
      assert s == [s[0]] + s[1..];
      SetOfConcat([s[0]], s[1..]);
      assert SetOf([s[0]]) == {s[0]};
    }
  }

  /** A command that uses a block again adds nothing, another block sixteen sectors, a sector one. */
  lemma {:induction false} SectorsOfCommands(ops: seq<EraseOp>)
    ensures |SetOf(Expand(ops))| <= |ops| + 15 * |BlockSet(ops)|
  {
    if ops != [] {
      var rest, op := ops[1..], ops[0];
      SectorsOfCommands(rest);
      SetOfConcat(SectorsOf(op), Expand(rest));
      SetOfSize(SectorsOf(op));
      BlockSetCons(ops);
      if op.Sector? {
        assert BlockSet(ops) == BlockSet(rest);
      } else if op.n in BlockSet(rest) {
        UsedAgain(rest, op.n);
        assert SetOf(Expand(ops)) == SetOf(Expand(rest));
        assert BlockSet(ops) == BlockSet(rest);
      }
    }
  }

  lemma {:induction false} UsedAgain(ops: seq<EraseOp>, n: nat)
    requires n in BlockSet(ops)
    ensures SetOf(SectorsOf(Block(n))) <= SetOf(Expand(ops))
  {
    var i :| 0 <= i < |ops| && ops[i].Block? && ops[i].n == n;
    forall x: nat | x in SectorsOf(Block(n)) ensures x in Expand(ops) {
      BlocksWithin(ops, i, x - SECTORS_PER_BLOCK * n);
    }
  }

  lemma {:induction false} BlockSetCons(ops: seq<EraseOp>)
    requires ops != []
    ensures BlockSet(ops) == BlockSet(ops[1..]) + (if ops[0].Block? then {ops[0].n} else {})
  {
    forall n | n in BlockSet(ops[1..]) ensures n in BlockSet(ops) {
      var i :| 0 <= i < |ops[1..]| && ops[1..][i].Block? && ops[1..][i].n == n;
      assert ops[i + 1] == ops[1..][i];
    }
    forall n | n in BlockSet(ops) ensures n in BlockSet(ops[1..]) || (ops[0].Block? && n == ops[0].n) {
      var i :| 0 <= i < |ops| && ops[i].Block? && ops[i].n == n;
      if i > 0 { assert ops[1..][i - 1] == ops[i]; }
    }
  }

  lemma {:induction false} IntervalSize(s: set<nat>, lo: nat, hi: nat)
    requires forall n :: n in s ==> lo <= n < hi
    ensures |s| <= if lo < hi then hi - lo else 0
    decreases hi
  {
    if lo < hi {
      IntervalSize(s - {hi - 1}, lo, hi - 1);
    } else {
      assert s == {};
    }
  }

  lemma {:induction false} PlanLength(c: nat, end: nat)
    requires c <= end
    ensures |Head(c, end)| == end - c - 15 * WholeBlocks(c, end)
  {
    HeadCovers(c, end);
    HeadBlocks(c, end);
    CommandCount(Head(c, end));
  }

  lemma {:induction false} IntervalExact(s: set<nat>, lo: nat, hi: nat)
    requires lo <= hi && forall n: nat :: n in s <==> lo <= n < hi
    ensures |s| == hi - lo
    decreases hi
  {
    if lo < hi {
      IntervalExact(s - {hi - 1}, lo, hi - 1);
    } else {
      assert s == {};
    }
  }

  /** No run of erase commands that erases exactly the same sectors is shorter, repeated erases included. */
  lemma {:induction false} PlanIsShortest(ops: seq<EraseOp>, c: nat, end: nat)
    requires c <= end && forall n: nat :: n in Expand(ops) <==> c <= n < end
    ensures |Head(c, end)| <= |ops|
  {
    PlanLength(c, end);
    IntervalExact(SetOf(Expand(ops)), c, end);
    SectorsOfCommands(ops);
    BlockSetWithin(ops, c, end);
  }

  lemma {:induction false} BlockBetween(n: nat, c: nat, end: nat)
    requires c <= SECTORS_PER_BLOCK * n && SECTORS_PER_BLOCK * n + SECTORS_PER_BLOCK - 1 < end
    ensures (c + SECTORS_PER_BLOCK - 1) / SECTORS_PER_BLOCK <= n < end / SECTORS_PER_BLOCK
  {
  }

  lemma {:induction false} BlockSetWithin(ops: seq<EraseOp>, c: nat, end: nat)
    requires forall n: nat :: n in Expand(ops) ==> c <= n < end
    ensures |BlockSet(ops)| <= WholeBlocks(c, end)
  {
    var lo, hi := (c + SECTORS_PER_BLOCK - 1) / SECTORS_PER_BLOCK, end / SECTORS_PER_BLOCK;
    forall n | n in BlockSet(ops) ensures lo <= n < hi {
      var i :| 0 <= i < |ops| && ops[i].Block? && ops[i].n == n;
      BlocksWithin(ops, i, 0);
      BlocksWithin(ops, i, SECTORS_PER_BLOCK - 1);
      BlockBetween(n, c, end);
    }
    IntervalSize(BlockSet(ops), lo, hi);
  }

  // ---------------------------------------------------------------- SPIEraseAreaEx

  /** Contents in which everything between two sectors is erased and nothing else has changed. */
  ghost predicate ErasedBetween(d: Bytes, e: Bytes, from: nat, to: nat) {
    && |d| == |e|
    && forall i: nat :: i < |d| ==>
         e[i] == if 4096 * from <= i < 4096 * to then 0xff else d[i]
  }

  lemma {:induction false} ErasedFurther(d: Bytes, e: Bytes, f: Bytes, first: nat, c: nat, k: nat)
    requires first <= c && ErasedBetween(d, e, first, c) && 4096 * (c + k) <= |e|
    requires f == Overlay(e, 4096 * c, Erased(4096 * k))
    ensures ErasedBetween(d, f, first, c + k)
  {
  }

  lemma {:induction false} FailedWithin(d: Bytes, e: Bytes, f: Bytes, first: nat, c: nat, k: nat, end: nat)
    requires first <= c && c + k <= end && ErasedBetween(d, e, first, c)
    requires SameOutside(e, f, 4096 * c, 4096 * k)
    ensures SameOutside(d, f, 4096 * first, 4096 * (end - first))
  {
  }

  /** Commands done so far and commands to come make up the plan. */
  ghost predicate OnPlan(before: seq<EraseOp>, now: seq<EraseOp>, rest: seq<EraseOp>, plan: seq<EraseOp>) {
    before <= now && now + rest == before + plan
  }

  lemma {:induction false} PlanStep(before: seq<EraseOp>, now: seq<EraseOp>, op: EraseOp, rest: seq<EraseOp>,
                                    plan: seq<EraseOp>)
    requires OnPlan(before, now, [op] + rest, plan)
    ensures OnPlan(before, now + [op], rest, plan)
    ensures before <= now && now + [op] <= before + plan
  {
    assert now + ([op] + rest) == now + [op] + rest;
  }

  /** How far the erasing of an area has come, and what remains of its plan. */
  ghost predicate Reached(flash: Flash, d: Bytes, ops: seq<EraseOp>, first: nat, c: nat, end: nat, rest: seq<EraseOp>)
    reads flash, flash.data
  {
    && first <= c <= end
    && OnPlan(ops, flash.ops, rest, Head(first, end))
    && ErasedBetween(d, flash.Contents(), first, c)
  }

  /** Where the erasing of an area may be left by a failure: op, the next command of the plan, has failed. */
  ghost predicate GivenUp(flash: Flash, d: Bytes, ops: seq<EraseOp>, first: nat, end: nat, op: EraseOp)
    requires first <= end
    reads flash, flash.data
  {
    && ops <= flash.ops && flash.ops + [op] <= ops + Head(first, end)
    && SameOutside(d, flash.Contents(), 4096 * first, 4096 * (end - first))
  }

  /** The failed call of the last command tried. */
  function FailedOp(faults: seq<Fault>): EraseOp {
    if faults != [] && faults[|faults| - 1].EraseFault? then faults[|faults| - 1].op else Sector(0)
  }

  method EraseOneSector(flash: Flash, c: nat, ghost d: Bytes, ghost ops: seq<EraseOp>,
                        ghost first: nat, ghost end: nat, ghost rest: seq<EraseOp>) returns (rc: int)
    requires flash.Valid() && c < end && Reached(flash, d, ops, first, c, end, [Sector(c)] + rest)
    modifies flash.data, flash`ops, flash`faults
    ensures flash.faults == old(flash.faults) + (if rc == 0 then [] else [EraseFault(Sector(c))])
    ensures rc == 0 ==> Reached(flash, d, ops, first, c + 1, end, rest)
    ensures rc != 0 ==> GivenUp(flash, d, ops, first, end, Sector(c))
  {
    ghost var e := flash.Contents();
    PlanStep(ops, flash.ops, Sector(c), rest, Head(first, end));
    rc := flash.SPIEraseSector(c);
    if rc == 0 {
      ErasedFurther(d, e, flash.Contents(), first, c, 1);
    } else {
      FailedWithin(d, e, flash.Contents(), first, c, 1, end);
    }
  }

  method EraseOneBlock(flash: Flash, c: nat, ghost d: Bytes, ghost ops: seq<EraseOp>,
                       ghost first: nat, ghost end: nat, ghost rest: seq<EraseOp>) returns (rc: int)
    requires flash.Valid() && c % SECTORS_PER_BLOCK == 0 && c + SECTORS_PER_BLOCK <= end
    requires Reached(flash, d, ops, first, c, end, [Block(c / SECTORS_PER_BLOCK)] + rest)
    modifies flash.data, flash`ops, flash`faults
    ensures flash.faults == old(flash.faults) + (if rc == 0 then [] else [EraseFault(Block(c / SECTORS_PER_BLOCK))])
    ensures rc == 0 ==> Reached(flash, d, ops, first, c + SECTORS_PER_BLOCK, end, rest)
    ensures rc != 0 ==> GivenUp(flash, d, ops, first, end, Block(c / SECTORS_PER_BLOCK))
  {
    ghost var e := flash.Contents();
    var block := c / SECTORS_PER_BLOCK;
    assert 65536 * block == 4096 * c;
    PlanStep(ops, flash.ops, Block(block), rest, Head(first, end));
    rc := flash.SPIEraseBlock(block);
    if rc == 0 {
      ErasedFurther(d, e, flash.Contents(), first, c, SECTORS_PER_BLOCK);
    } else {
      FailedWithin(d, e, flash.Contents(), first, c, SECTORS_PER_BLOCK, end);
    }
  }

  /** The first loop: single sectors up to a block boundary. */
  method EraseToBoundary(flash: Flash, c0: nat, ghost d: Bytes, ghost ops: seq<EraseOp>,
                         ghost first: nat, end: nat) returns (rc: int, c: nat)
    requires flash.Valid() && Reached(flash, d, ops, first, c0, end, Head(c0, end))
    modifies flash.data, flash`ops, flash`faults
    ensures rc == 0 ==> Reached(flash, d, ops, first, c, end, Blocks(c, end))
    ensures rc == 0 ==> c == end || c % SECTORS_PER_BLOCK == 0
    ensures rc == 0 ==> flash.faults == old(flash.faults)
    ensures rc != 0 ==> rc == 2 && Faulted(old(flash.faults), flash.faults)
    ensures rc != 0 ==> var op := FailedOp(flash.faults);
                        op.Sector? && first <= end && GivenUp(flash, d, ops, first, end, op)
  {
    c := c0;
    while c < end && c % SECTORS_PER_BLOCK != 0
      invariant flash.faults == old(flash.faults)
      invariant Reached(flash, d, ops, first, c, end, Head(c, end))
      decreases end - c
    {
      rc := EraseOneSector(flash, c, d, ops, first, end, Head(c + 1, end));
      if rc != 0 {
        return 2, c;
      }
      c := c + 1;
    }
    rc := 0;
  }

  /** The second loop: whole blocks. */
  method EraseBlocks(flash: Flash, c0: nat, ghost d: Bytes, ghost ops: seq<EraseOp>,
                     ghost first: nat, end: nat) returns (rc: int, c: nat)
    requires flash.Valid() && Reached(flash, d, ops, first, c0, end, Blocks(c0, end))
    requires c0 == end || c0 % SECTORS_PER_BLOCK == 0
    modifies flash.data, flash`ops, flash`faults
    ensures rc == 0 ==> Reached(flash, d, ops, first, c, end, Tail(c, end))
    ensures rc == 0 ==> flash.faults == old(flash.faults)
    ensures rc != 0 ==> rc == 3 && Faulted(old(flash.faults), flash.faults)
    ensures rc != 0 ==> var op := FailedOp(flash.faults);
                        op.Block? && first <= end && GivenUp(flash, d, ops, first, end, op)
  {
    c := c0;
    while c + SECTORS_PER_BLOCK <= end
      invariant flash.faults == old(flash.faults)
      invariant Reached(flash, d, ops, first, c, end, Blocks(c, end))
      invariant c == end || c % SECTORS_PER_BLOCK == 0
      decreases end - c
    {
      rc := EraseOneBlock(flash, c, d, ops, first, end, Blocks(c + SECTORS_PER_BLOCK, end));
      if rc != 0 {
        return 3, c;
      }
      c := c + SECTORS_PER_BLOCK;
    }
    rc := 0;
  }

  /** The third loop: the sectors left over. */
  method EraseRest(flash: Flash, c0: nat, ghost d: Bytes, ghost ops: seq<EraseOp>,
                   ghost first: nat, end: nat) returns (rc: int)
    requires flash.Valid() && Reached(flash, d, ops, first, c0, end, Tail(c0, end))
    modifies flash.data, flash`ops, flash`faults
    ensures rc == 0 ==> Reached(flash, d, ops, first, end, end, [])
    ensures rc == 0 ==> flash.faults == old(flash.faults)
    ensures rc != 0 ==> rc == 4 && Faulted(old(flash.faults), flash.faults)
    ensures rc != 0 ==> var op := FailedOp(flash.faults);
                        op.Sector? && first <= end && GivenUp(flash, d, ops, first, end, op)
  {
    var c := c0;
    while c < end
      invariant flash.faults == old(flash.faults)
      invariant Reached(flash, d, ops, first, c, end, Tail(c, end))
      decreases end - c
    {
      rc := EraseOneSector(flash, c, d, ops, first, end, Tail(c + 1, end));
      if rc != 0 {
        return 4;
      }
      c := c + 1;
    }
    rc := 0;
  }

  /** In C, `start & (FLASH_SECTOR_SIZE - 1) != 0` masks start with a truth value, so only an odd start
      is turned away. */
  method SPIEraseAreaEx(flash: Flash, start: nat, size: nat) returns (rc: int)
    requires flash.Valid() && start < UINT32 && size < UINT32
    modifies flash.data, flash`ops, flash`faults
    ensures 0 <= rc <= 4 && (start % 2 == 1 <==> rc == 1)
    ensures rc == 1 ==> flash.Contents() == old(flash.Contents()) && flash.ops == old(flash.ops)
    ensures rc <= 1 ==> flash.faults == old(flash.faults)
    ensures var first, count := start / FLASH_SECTOR_SIZE, SectorCount(size);
            rc == 0 ==>
              && flash.ops == old(flash.ops) + Head(first, first + count)
              && ErasedBetween(old(flash.Contents()), flash.Contents(), first, first + count)
    ensures var first, count := start / FLASH_SECTOR_SIZE, SectorCount(size);
            rc > 1 ==>
              && Faulted(old(flash.faults), flash.faults) && (rc == 3 <==> FailedOp(flash.faults).Block?)
              && GivenUp(flash, old(flash.Contents()), old(flash.ops), first, first + count, FailedOp(flash.faults))
  {
    if start % 2 == 1 {
      return 1;
    }
    var current_sector: nat := start / FLASH_SECTOR_SIZE;
    var sector_count := (size + FLASH_SECTOR_SIZE - 1) % UINT32 / FLASH_SECTOR_SIZE;
    var end := current_sector + sector_count;
    ghost var first, d, ops := current_sector, flash.Contents(), flash.ops;
    rc, current_sector := EraseToBoundary(flash, current_sector, d, ops, first, end);
    if rc != 0 {
      return;
    }
    rc, current_sector := EraseBlocks(flash, current_sector, d, ops, first, end);
    if rc != 0 {
      return;
    }
    rc := EraseRest(flash, current_sector, d, ops, first, end);
  }

  /** However far the erasing came, the sectors it erased are the first ones of the area, in order. */
  lemma {:induction false} ErasedPrefix(before: seq<EraseOp>, now: seq<EraseOp>, first: nat, end: nat)
    requires first <= end && before <= now <= before + Head(first, end)
    ensures Expand(now[|before|..]) <= Range(first, end)
  {
    var done := now[|before|..];
    var plan := Head(first, end);
    assert plan == (before + plan)[|before|..];
    assert done == plan[..|done|] && plan == done + plan[|done|..];
    ExpandConcat(done, plan[|done|..]);
    HeadCovers(first, end);
  }

  // ---------------------------------------------------------------- which bytes are covered

  /** Whether the byte range that was asked for lies within the sectors that are erased. */
  predicate CoversRequest(start: nat, size: nat) {
    var first := start / FLASH_SECTOR_SIZE;
    size == 0 ||
    (4096 * first <= start && start + size <= (first + SectorCount(size)) * 4096)
  }

  /** The size is rounded up without regard to where in its sector the start lies, and in 32 bits: the
      whole request is covered exactly when the start's offset fits the slack of the rounding and the
      size is not within a sector of 2^32. */
  lemma {:induction false} CoversRequestIff(start: nat, size: nat)
    requires start < UINT32 && size < UINT32
    ensures CoversRequest(start, size) <==>
              size == 0 || (size <= UINT32 - FLASH_SECTOR_SIZE &&
                            start % FLASH_SECTOR_SIZE <= (FLASH_SECTOR_SIZE - size % FLASH_SECTOR_SIZE) % FLASH_SECTOR_SIZE)
  {
  }

  /** In particular a sector-aligned request is covered, and rounded up by less than a sector. */
  lemma {:induction false} AlignedRequestCovered(start: nat, size: nat)
    requires start % FLASH_SECTOR_SIZE == 0 && start < UINT32 && size <= UINT32 - FLASH_SECTOR_SIZE
    ensures CoversRequest(start, size)
    ensures 4096 * SectorCount(size) < size + FLASH_SECTOR_SIZE
  {
  }
}
