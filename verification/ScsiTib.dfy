/**
  Transfer instruction blocks of the Mac SCSI Manager.

  A TIB program lives in Mac memory and rewrites itself while it runs: INC advances its own
  pointer field, LOOP counts down its own counter field. Running one builds the scatter/gather
  table that the command is later sent with.
 */
module ScsiTib {
  import opened Bytes
  import opened MacMemory

  const SG_TABLE_SIZE := 1024

  // Opcodes
  const INC := 1
  const NO_INC := 2
  const ADD := 3
  const MOVE := 4
  const LOOP := 5
  const NOP := 6
  const STOP := 7
  const COMP := 8

  // Result codes
  const OK := 0
  const SC_BAD_PARMS_ERR := 4
  const SC_COMPARE_ERR := 6
  const SG_FULL_ERR := -108

  /** A block of Mac memory named by an INC or NOINC instruction. */
  datatype Block = Block(ptr: Word32, len: Word32)

  /** An entry of the scatter/gather table; `ptr` is a host address. */
  datatype Entry = Entry(ptr: int, len: Word32)

  /**
    What the interpreter works on. `base` is the host address of Mac address 0. `blocks` is the
    history of blocks recorded since the table was last flushed.
   */
  datatype Machine = Machine(mem: Memory, tib: Word32, table: seq<Entry>, total: Word32, blocks: seq<Block>)

  datatype Outcome =
    | Running(m: Machine)
    | Halted(m: Machine, code: int)

  // ---------- The table ----------

  predicate Merges(base: int, table: seq<Entry>, b: Block) {
    |table| > 0 && base + b.ptr == table[|table| - 1].ptr + table[|table| - 1].len
  }

  predicate TableFull(base: int, table: seq<Entry>, b: Block) {
    !Merges(base, table, b) && |table| == SG_TABLE_SIZE
  }

  /** The table with one more block: merged into the last entry, or as a new entry. */
  function Record(base: int, table: seq<Entry>, b: Block): (table': seq<Entry>)
    requires !TableFull(base, table, b)
  {
    if Merges(base, table, b) then
      var last := table[|table| - 1];
      table[|table| - 1 := Entry(last.ptr, U32(last.len + b.len))]
    else
      table + [Entry(base + b.ptr, b.len)]
  }

  // ---------- Instructions ----------

  /** Executes the instruction at `m.tib`. */
  function Step(base: int, m: Machine): (o: Outcome) {
    var cmd := Read16(m.mem, m.tib);
    var ptrField, lenField := U32(m.tib + 2), U32(m.tib + 6);
    var ptr, len := Read32(m.mem, ptrField), Read32(m.mem, lenField);
    var next := m.(tib := U32(m.tib + 10));
    if cmd == INC then
      AddBlock(base, next.(mem := Write32(m.mem, ptrField, U32(ptr + len))), Block(ptr, len))
    else if cmd == NO_INC then
      AddBlock(base, next, Block(ptr, len))
    else if cmd == ADD then
      Running(next.(mem := Write32(m.mem, ptr, U32(Read32(m.mem, ptr) + len))))
    else if cmd == MOVE then
      Running(next.(mem := Write32(m.mem, len, Read32(m.mem, ptr))))
    else if cmd == LOOP then
      var counted := next.(mem := Write32(m.mem, lenField, U32(len - 1)));
      Running(if U32(len - 1) > 0 then counted.(tib := U32(m.tib + I32(ptr))) else counted)
    else if cmd == NOP then
      Running(next)
    else if cmd == STOP then
      Halted(next, OK)
    else if cmd == COMP then
      Halted(next, SC_COMPARE_ERR)
    else
      Halted(next, SC_BAD_PARMS_ERR)
  }

  function AddBlock(base: int, m: Machine, b: Block): (o: Outcome) {
    if TableFull(base, m.table, b) then Halted(m, SG_FULL_ERR)
    else Running(m.(table := Record(base, m.table, b), total := U32(m.total + b.len), blocks := m.blocks + [b]))
  }

  /** At most `fuel` instructions. */
  function Run(base: int, m: Machine, fuel: nat): (o: Outcome)
    decreases fuel
  {
    if fuel == 0 then Running(m)
    else
      match Step(base, m)
      case Running(m') => Run(base, m', fuel - 1)
      case Halted(m', code) => Halted(m', code)
  }

  /** A program that halts does the same however much longer it is allowed to run. */
  lemma {:induction false} MoreFuel(base: int, m: Machine, fuel: nat, more: nat)
    requires Run(base, m, fuel).Halted? && fuel <= more
    ensures Run(base, m, more) == Run(base, m, fuel)
    decreases fuel
  {
    hide Step;
    if fuel > 0 && Step(base, m).Running? {
      MoreFuel(base, Step(base, m).m, fuel - 1, more - 1);
    }
  }

  // ---------- What the table means ----------

  /** The host addresses of `len` bytes from `ptr`. */
  function Span(ptr: int, len: nat): (s: seq<int>)
    ensures |s| == len
  {
    seq(len, i => ptr + i)
  }

  /** The host addresses a table transfers, in order. */
  function Flatten(table: seq<Entry>): (s: seq<int>)
    decreases |table|
  {
    if table == [] then []
    else Flatten(table[..|table| - 1]) + Span(table[|table| - 1].ptr, table[|table| - 1].len)
  }

  /** The host addresses a list of blocks stands for, in order. */
  function FlattenBlocks(base: int, blocks: seq<Block>): (s: seq<int>)
    decreases |blocks|
  {
    if blocks == [] then []
    else
      var last := blocks[|blocks| - 1];
      FlattenBlocks(base, blocks[..|blocks| - 1]) + Span(base + last.ptr, last.len)
  }

  function TotalLength(blocks: seq<Block>): (n: nat)
    decreases |blocks|
  {
    if blocks == [] then 0 else TotalLength(blocks[..|blocks| - 1]) + blocks[|blocks| - 1].len
  }

  /** The block ends inside the 32-bit address space. */
  predicate InMemory(b: Block) {
    b.ptr + b.len < 0x1_0000_0000
  }

  /** Where the last stretch of blocks begins that each start at the end of the one before. */
  function StretchStart(blocks: seq<Block>): (start: Word32)
    requires blocks != []
    decreases |blocks|
  {
    var n := |blocks|;
    if n > 1 && blocks[n - 2].ptr + blocks[n - 2].len == blocks[n - 1].ptr then StretchStart(blocks[..n - 1])
    else blocks[n - 1].ptr
  }

  /** No stretch of blocks that follow each other in memory comes to 2^32 bytes. */
  predicate StretchesFit(blocks: seq<Block>)
    decreases |blocks|
  {
    blocks == []
    || (var last := blocks[|blocks| - 1];
        StretchesFit(blocks[..|blocks| - 1]) && last.ptr + last.len - StretchStart(blocks) < 0x1_0000_0000)
  }

  /** Blocks inside the address space always fit. */
  lemma {:induction false} InMemoryFits(blocks: seq<Block>)
    requires forall i :: 0 <= i < |blocks| ==> InMemory(blocks[i])
    ensures StretchesFit(blocks)
    decreases |blocks|
  {
    if blocks != [] {
      assert InMemory(blocks[|blocks| - 1]);
      InMemoryFits(blocks[..|blocks| - 1]);
    }
  }

  lemma SpanJoins(ptr: int, a: nat, b: nat)
    ensures Span(ptr, a) + Span(ptr + a, b) == Span(ptr, a + b)
  {
  }

  /**
    Recording a block appends exactly its bytes to what the table stands for, if and only if
    merging does not carry the last entry's 32-bit length past its width.
   */
  lemma RecordExact(base: int, table: seq<Entry>, b: Block)
    requires !TableFull(base, table, b)
    ensures Flatten(Record(base, table, b)) == Flatten(table) + Span(base + b.ptr, b.len)
       <==> (Merges(base, table, b) ==> table[|table| - 1].len + b.len < 0x1_0000_0000)
  {
    hide Flatten, Span, Record, U32;
    if Merges(base, table, b) {
      if table[|table| - 1].len + b.len < 0x1_0000_0000 {
        MergeFits(base, table, b);
      } else {
        MergeWraps(base, table, b);
      }
    } else {
      NewEntry(base, table, b);
    }
  }

  lemma NewEntry(base: int, table: seq<Entry>, b: Block)
    requires !Merges(base, table, b) && !TableFull(base, table, b)
    ensures Flatten(Record(base, table, b)) == Flatten(table) + Span(base + b.ptr, b.len)
  {
    hide Flatten, Span;
    FlattenLast(table, Entry(base + b.ptr, b.len));
  }

  lemma FlattenLast(table: seq<Entry>, e: Entry)
    ensures Flatten(table + [e]) == Flatten(table) + Span(e.ptr, e.len)
  {
    assert (table + [e])[..|table|] == table;
  }

  lemma FlattenMerged(base: int, table: seq<Entry>, b: Block)
    requires Merges(base, table, b)
    ensures var n := |table|;
      && Flatten(table) == Flatten(table[..n - 1]) + Span(table[n - 1].ptr, table[n - 1].len)
      && Flatten(Record(base, table, b))
         == Flatten(table[..n - 1]) + Span(table[n - 1].ptr, U32(table[n - 1].len + b.len))
  {
    hide Flatten, Span, U32, Record;
    var n := |table|;
    var last, front := table[n - 1], table[..n - 1];
    RecordMerged(base, table, b);
    FlattenLast(front, last);
    FlattenLast(front, Entry(last.ptr, U32(last.len + b.len)));
  }

  lemma RecordMerged(base: int, table: seq<Entry>, b: Block)
    requires Merges(base, table, b)
    ensures var n := |table|;
      && table == table[..n - 1] + [table[n - 1]]
      && Record(base, table, b) == table[..n - 1] + [Entry(table[n - 1].ptr, U32(table[n - 1].len + b.len))]
  {
    hide U32;
  }

  lemma MergeFits(base: int, table: seq<Entry>, b: Block)
    requires Merges(base, table, b) && table[|table| - 1].len + b.len < 0x1_0000_0000
    ensures Flatten(Record(base, table, b)) == Flatten(table) + Span(base + b.ptr, b.len)
  {
    hide Flatten, Span, Record;
    FlattenMerged(base, table, b);
    var n := |table|;
    var last := table[n - 1];
    SpanJoins(last.ptr, last.len, b.len);
    Associates(Flatten(table[..n - 1]), Span(last.ptr, last.len), Span(base + b.ptr, b.len));
  }

  lemma MergeWraps(base: int, table: seq<Entry>, b: Block)
    requires Merges(base, table, b) && table[|table| - 1].len + b.len >= 0x1_0000_0000
    ensures |Flatten(Record(base, table, b))| < |Flatten(table)| + b.len
  {
    hide Flatten, Span, Record;
    FlattenMerged(base, table, b);
  }

  lemma Associates<T>(a: seq<T>, b: seq<T>, c: seq<T>)
    ensures (a + b) + c == a + (b + c)
  {
  }

  /** A run of contiguous blocks that reaches 2^32 bytes is lost: the merged length wraps to 0. */
  lemma MergedLengthWraps()
    ensures var half := Block(0, 0x8000_0000);
            var rest := Block(0x8000_0000, 0x8000_0000);
            Record(0, Record(0, [], half), rest) == [Entry(0, 0)]
  {
  }

  /** Every entry starts inside the Mac's memory. */
  predicate Based(base: int, table: seq<Entry>) {
    forall i :: 0 <= i < |table| ==> base <= table[i].ptr
  }

  /**
    The table of a list of recorded blocks. While every stretch fits, the last entry is the last
    stretch; once one has not fitted, the table stands for fewer bytes than the blocks, for good.
   */
  predicate Stands(base: int, table: seq<Entry>, blocks: seq<Block>) {
    && (table == [] <==> blocks == [])
    && (StretchesFit(blocks) ==> Flatten(table) == FlattenBlocks(base, blocks) && LastStretch(base, table, blocks))
    && (!StretchesFit(blocks) ==> |Flatten(table)| < TotalLength(blocks))
  }

  predicate LastStretch(base: int, table: seq<Entry>, blocks: seq<Block>) {
    blocks != [] && table != [] ==>
      var last := blocks[|blocks| - 1];
      && table[|table| - 1].ptr == base + StretchStart(blocks)
      && table[|table| - 1].len == last.ptr + last.len - StretchStart(blocks)
  }

  /** The table says the same as the recorded blocks. */
  predicate Faithful(base: int, m: Machine) {
    && |m.table| <= SG_TABLE_SIZE
    && m.total == U32(TotalLength(m.blocks))
    && Stands(base, m.table, m.blocks)
  }

  /** The table stands for the recorded blocks if and only if no stretch of them is too long. */
  lemma StandsExactly(base: int, table: seq<Entry>, blocks: seq<Block>)
    requires Stands(base, table, blocks)
    ensures Flatten(table) == FlattenBlocks(base, blocks) <==> StretchesFit(blocks)
  {
    hide Flatten, FlattenBlocks, StretchesFit, TotalLength;
    FlattenedLength(base, blocks);
  }

  lemma {:induction false} FlattenedLength(base: int, blocks: seq<Block>)
    ensures |FlattenBlocks(base, blocks)| == TotalLength(blocks)
    decreases |blocks|
  {
    hide Span;
    if blocks != [] {
      FlattenedLength(base, blocks[..|blocks| - 1]);
    }
  }

  /** Recording a block in a table that stands for those before it. */
  lemma RecordStands(base: int, table: seq<Entry>, blocks: seq<Block>, b: Block)
    requires Stands(base, table, blocks) && !TableFull(base, table, b)
    ensures Stands(base, Record(base, table, b), blocks + [b])
  {
    hide Flatten, FlattenBlocks, StretchesFit, StretchStart, TotalLength, Span, Record;
    var table', blocks' := Record(base, table, b), blocks + [b];
    BlocksGrow(base, blocks, b);
    FitsGrows(blocks, b);
    RecordGrowsBy(base, table, b);
    RecordExact(base, table, b);
    FlattenedLength(base, blocks);
    if StretchesFit(blocks) {
      MergeIsStretch(base, table, blocks, b);
    }
    if StretchesFit(blocks') {
      RecordLast(base, table, blocks, b);
    } else if StretchesFit(blocks) {
      MergeWraps(base, table, b);
    }
  }

  lemma FitsGrows(blocks: seq<Block>, b: Block)
    ensures StretchesFit(blocks + [b])
       <==> StretchesFit(blocks) && b.ptr + b.len - StretchStart(blocks + [b]) < 0x1_0000_0000
    ensures StretchStart(blocks + [b])
         == if blocks != [] && blocks[|blocks| - 1].ptr + blocks[|blocks| - 1].len == b.ptr
            then StretchStart(blocks) else b.ptr
  {
    var blocks' := blocks + [b];
    assert blocks'[..|blocks|] == blocks;
  }

  /** Recording adds no more bytes than the block has. */
  lemma RecordGrowsBy(base: int, table: seq<Entry>, b: Block)
    requires !TableFull(base, table, b)
    ensures Record(base, table, b) != []
    ensures |Flatten(Record(base, table, b))| <= |Flatten(table)| + b.len
  {
    hide Flatten, Span, Record;
    if Merges(base, table, b) {
      FlattenMerged(base, table, b);
      RecordMerged(base, table, b);
    } else {
      NewEntry(base, table, b);
      RecordNew(base, table, b);
    }
  }

  lemma RecordNew(base: int, table: seq<Entry>, b: Block)
    requires !Merges(base, table, b) && !TableFull(base, table, b)
    ensures Record(base, table, b) == table + [Entry(base + b.ptr, b.len)]
  {
  }

  /** While stretches fit, a block is merged exactly when it goes on with the last stretch. */
  lemma MergeIsStretch(base: int, table: seq<Entry>, blocks: seq<Block>, b: Block)
    requires LastStretch(base, table, blocks) && (table == [] <==> blocks == [])
    ensures Merges(base, table, b) <==> blocks != [] && blocks[|blocks| - 1].ptr + blocks[|blocks| - 1].len == b.ptr
    ensures Merges(base, table, b) ==>
              table[|table| - 1].len + b.len == b.ptr + b.len - StretchStart(blocks + [b])
  {
    hide StretchStart;
    FitsGrows(blocks, b);
  }

  lemma RecordLast(base: int, table: seq<Entry>, blocks: seq<Block>, b: Block)
    requires LastStretch(base, table, blocks) && (table == [] <==> blocks == [])
    requires !TableFull(base, table, b)
    requires b.ptr + b.len - StretchStart(blocks + [b]) < 0x1_0000_0000
    ensures LastStretch(base, Record(base, table, b), blocks + [b])
  {
    hide StretchStart, StretchesFit;
    FitsGrows(blocks, b);
    MergeIsStretch(base, table, blocks, b);
    if Merges(base, table, b) { RecordMerged(base, table, b); }
  }

  lemma AddBlockFaithful(base: int, m: Machine, b: Block)
    requires Faithful(base, m)
    ensures Faithful(base, AddBlock(base, m, b).m)
  {
    hide U32, Stands, TotalLength;
    if !TableFull(base, m.table, b) {
      RecordStands(base, m.table, m.blocks, b);
      BlocksGrow(base, m.blocks, b);
    }
  }

  lemma BlocksGrow(base: int, blocks: seq<Block>, b: Block)
    ensures TotalLength(blocks + [b]) == TotalLength(blocks) + b.len
    ensures U32(U32(TotalLength(blocks)) + b.len) == U32(TotalLength(blocks + [b]))
    ensures FlattenBlocks(base, blocks + [b]) == FlattenBlocks(base, blocks) + Span(base + b.ptr, b.len)
  {
    hide Span;
    var longer := blocks + [b];
    assert longer[..|blocks|] == blocks && longer[|blocks|] == b;
  }

  lemma StepFaithful(base: int, m: Machine)
    requires Faithful(base, m)
    ensures Faithful(base, Step(base, m).m)
  {
    hide Faithful;
    hide Read32, Read16, Write32, U32, I32;
    var cmd := Read16(m.mem, m.tib);
    var ptr, len := Read32(m.mem, U32(m.tib + 2)), Read32(m.mem, U32(m.tib + 6));
    var next := m.(tib := U32(m.tib + 10));
    if cmd == INC {
      var advanced := next.(mem := Write32(m.mem, U32(m.tib + 2), U32(ptr as int + len)));
      SameTable(base, m, advanced);
      AddBlockFaithful(base, advanced, Block(ptr, len));
    } else if cmd == NO_INC {
      SameTable(base, m, next);
      AddBlockFaithful(base, next, Block(ptr, len));
    } else {
      SameTable(base, m, Step(base, m).m);
    }
  }

  lemma SameTable(base: int, m: Machine, m': Machine)
    requires Faithful(base, m)
    requires m'.table == m.table && m'.total == m.total && m'.blocks == m.blocks
    ensures Faithful(base, m')
  {
  }

  lemma {:induction false} RunFaithful(base: int, m: Machine, fuel: nat)
    requires Faithful(base, m)
    ensures Faithful(base, Run(base, m, fuel).m)
    decreases fuel
  {
    hide Faithful, Step;
    if fuel > 0 {
      StepFaithful(base, m);
      if Step(base, m).Running? {
        RunFaithful(base, Step(base, m).m, fuel - 1);
      }
    }
  }

  // ---------- Instructions on data ----------

  /** ADD adds its second operand to the word at the first; MOVE copies the word at the first operand to the
      second. Nothing else in memory changes, and nothing is recorded. */
  lemma DataStep(base: int, m: Machine, p: Word32, q: Word32, cmd: Word16)
    requires Read16(m.mem, m.tib) == cmd && (cmd == ADD || cmd == MOVE)
    requires Read32(m.mem, U32(m.tib + 2)) == p && Read32(m.mem, U32(m.tib + 6)) == q
    ensures Step(base, m).Running?
    ensures var m' := Step(base, m).m;
      var goal := if cmd == ADD then p else q;
      && m' == m.(mem := m'.mem, tib := U32(m.tib + 10))
      && Read32(m'.mem, goal) == (if cmd == ADD then U32(Read32(m.mem, p) + q) else Read32(m.mem, p))
      && forall b :: CellsApart(goal, b) ==> Read32(m'.mem, b) == Read32(m.mem, b)
  {
    hide Read16, Read32, Write32, U32;
    if cmd == ADD {
      WriteCell(m.mem, p, U32(Read32(m.mem, p) + q));
    } else {
      WriteCell(m.mem, q, Read32(m.mem, p));
    }
  }

  /** INC and NOINC record the block of their operands where there is room for it; INC also moves its first
      operand to the end of the block. */
  lemma BlockStep(base: int, m: Machine, p: Word32, len: Word32, cmd: Word16)
    requires Read16(m.mem, m.tib) == cmd && (cmd == INC || cmd == NO_INC)
    requires Read32(m.mem, U32(m.tib + 2)) == p && Read32(m.mem, U32(m.tib + 6)) == len
    ensures var o, field := Step(base, m), U32(m.tib + 2);
      && o.m.tib == U32(m.tib + 10)
      && (cmd == NO_INC ==> o.m.mem == m.mem)
      && (cmd == INC ==> Read32(o.m.mem, field) == U32(p + len))
      && (forall b :: CellsApart(field, b) ==> Read32(o.m.mem, b) == Read32(m.mem, b))
      && (o.Running? ==> o.m.blocks == m.blocks + [Block(p, len)] && o.m.total == U32(m.total + len))
      && (o.Halted? ==> o.code == SG_FULL_ERR && |m.table| == SG_TABLE_SIZE && o.m.table == m.table)
  {
    hide Read16, Read32, Write32, U32, Record;
    WriteCell(m.mem, U32(m.tib + 2), U32(p + len));
  }

  /** How often LOOP still goes round; a counter of 0 stands for 2^32. */
  function Rounds(counter: Word32): (n: nat) {
    if counter == 0 then 0x1_0000_0000 else counter
  }

  /** LOOP counts one round down, and jumps to its first operand, a distance from itself, until all are done. */
  lemma JumpStep(base: int, m: Machine, jump: Word32, counter: Word32)
    requires Read16(m.mem, m.tib) == LOOP
    requires Read32(m.mem, U32(m.tib + 2)) == jump && Read32(m.mem, U32(m.tib + 6)) == counter
    ensures var o, field := Step(base, m), U32(m.tib + 6);
      && o.Running? && o.m == m.(mem := o.m.mem, tib := o.m.tib)
      && o.m.tib == (if Rounds(counter) > 1 then U32(m.tib + I32(jump)) else U32(m.tib + 10))
      && Read32(o.m.mem, field) == Rounds(counter) - 1
      && (forall b :: CellsApart(field, b) ==> Read32(o.m.mem, b) == Read32(m.mem, b))
  {
    Counted(counter);
    hide Read16, Read32, Write32, U32, I32;
    WriteCell(m.mem, U32(m.tib + 6), U32(counter - 1));
  }

  lemma Counted(counter: Word32)
    ensures U32(counter - 1) == Rounds(counter) - 1
  {
  }

  /** NOP does nothing; every other instruction ends the program, STOP alone without an error. */
  lemma OtherStep(base: int, m: Machine)
    requires Read16(m.mem, m.tib) !in {INC, NO_INC, ADD, MOVE, LOOP}
    ensures var o, cmd := Step(base, m), Read16(m.mem, m.tib);
      && o.m == m.(tib := U32(m.tib + 10))
      && (o.Halted? <==> cmd != NOP)
      && (o.Halted? ==> (o.code == OK <==> cmd == STOP) && (o.code == SC_COMPARE_ERR <==> cmd == COMP))
  {
    hide Read16, Read32, Write32, U32;
  }

  // ---------- The counted loop ----------

  /** {INC p len; LOOP -10 n; STOP} at address `at`. */
  predicate CountedLoop(mem: Memory, at: int, p: Word32, len: Word32, n: Word32) {
    && Read16(mem, at) == INC && Read32(mem, at + 2) == p && Read32(mem, at + 6) == len
    && Read16(mem, at + 10) == LOOP && I32(Read32(mem, at + 12)) == -10 && Read32(mem, at + 16) == n
    && Read16(mem, at + 20) == STOP
  }

  /** INC records the block and advances its own pointer field. */
  lemma IncStep(base: int, m: Machine, p: Word32, len: Word32, n: Word32)
    requires m.tib + 30 < 0x1_0000_0000 && CountedLoop(m.mem, m.tib, p, len, n)
    requires p + len < 0x1_0000_0000 && !TableFull(base, m.table, Block(p, len))
    ensures var b := Block(p, len);
      var mem' := Write32(m.mem, m.tib + 2, p + len);
      && Step(base, m) == Running(Machine(mem', m.tib + 10, Record(base, m.table, b), U32(m.total + len),
          m.blocks + [b]))
      && CountedLoop(mem', m.tib, p + len, len, n)
  {
    hide Read16, Read32, Write32, Record, TableFull;
    var at, v := m.tib, p + len;
    ReadBack32(m.mem, at + 2, v);
    Untouched(m.mem, at + 2, v, at);
    Untouched(m.mem, at + 2, v, at + 6);
    Untouched(m.mem, at + 2, v, at + 10);
    Untouched(m.mem, at + 2, v, at + 12);
    Untouched(m.mem, at + 2, v, at + 16);
    Untouched(m.mem, at + 2, v, at + 20);
  }

  /** LOOP counts down its own counter field and goes back while it is not 0. */
  lemma LoopStep(base: int, m: Machine, at: int, p: Word32, len: Word32, n: Word32)
    requires m.tib == at + 10 && 0 <= at && at + 30 < 0x1_0000_0000 && CountedLoop(m.mem, at, p, len, n) && n >= 1
    ensures var mem' := Write32(m.mem, at + 16, n - 1);
      && Step(base, m) == Running(m.(mem := mem', tib := if n > 1 then at else at + 20))
      && CountedLoop(mem', at, p, len, n - 1)
  {
    hide Read16, Read32, Write32;
    ReadBack32(m.mem, at + 16, n - 1);
    Untouched(m.mem, at + 16, n - 1, at);
    Untouched(m.mem, at + 16, n - 1, at + 2);
    Untouched(m.mem, at + 16, n - 1, at + 6);
    Untouched(m.mem, at + 16, n - 1, at + 10);
    Untouched(m.mem, at + 16, n - 1, at + 12);
    Untouched(m.mem, at + 16, n - 1, at + 20);
  }

  /** `n * len`, by repeated addition. */
  function Times(n: nat, len: nat): (r: nat)
    decreases n
  {
    if n == 0 then 0 else len + Times(n - 1, len)
  }

  lemma {:induction false} TimesIsProduct(n: nat, len: nat)
    ensures Times(n, len) == n * len
    decreases n
  {
    if n > 0 { TimesIsProduct(n - 1, len); }
  }

  /** Two blocks in a row, recorded one by one, are recorded as one. */
  lemma RecordTwice(base: int, table: seq<Entry>, p: Word32, a: Word32, b: Word32)
    requires Based(base, table) && p + a + b < 0x1_0000_0000
    requires !TableFull(base, table, Block(p, a))
    ensures var once := Record(base, table, Block(p, a));
      && Based(base, once)
      && Merges(base, once, Block(p + a, b))
      && Record(base, once, Block(p + a, b)) == Record(base, table, Block(p, a + b))
  {
  }

  /** Whether there is room depends only on where a block starts. */
  lemma RoomByStart(base: int, table: seq<Entry>, b: Block, c: Block)
    requires b.ptr == c.ptr
    ensures TableFull(base, table, b) == TableFull(base, table, c)
    ensures Merges(base, table, b) ==> !TableFull(base, table, c)
  {
  }

  lemma SumsWrap(total: int, a: int, b: int)
    ensures U32(U32(total + a) + b) == U32(total + (a + b))
  {
  }

  lemma {:induction false} TurnsRun(base: int, m: Machine, p: Word32, len: Word32, n: Word32)
    requires m.tib + 30 < 0x1_0000_0000 && CountedLoop(m.mem, m.tib, p, len, n)
    requires n >= 1 && p + Times(n, len) < 0x1_0000_0000
    requires Based(base, m.table) && !TableFull(base, m.table, Block(p, len))
    ensures var bytes := Times(n, len);
      var o := Run(base, m, 2 * n + 1);
      && o.Halted? && o.code == OK
      && !TableFull(base, m.table, Block(p, bytes))
      && o.m.table == Record(base, m.table, Block(p, bytes))
      && o.m.total == U32(m.total + bytes)
      && Read32(o.m.mem, m.tib + 2) == p + bytes
      && Read32(o.m.mem, m.tib + 16) == 0
    decreases n
  {
    hide Record, U32, CountedLoop, TableFull, Step, Read32, Write32, Merges, Based;
    var rest := Times(n - 1, len);
    IncStep(base, m, p, len, n);
    var m1 := Step(base, m).m;
    LoopStep(base, m1, m.tib, p + len, len, n);
    var m2 := Step(base, m1).m;
    assert Run(base, m, 2 * n + 1) == Run(base, m1, 2 * n);
    assert Run(base, m1, 2 * n) == Run(base, m2, 2 * n - 1);
    RoomByStart(base, m.table, Block(p, len), Block(p, len + rest));
    RecordTwice(base, m.table, p, len, rest);
    if n == 1 {
      StopStep(base, m2, m.tib, p + len, len);
      RecordTwice(base, m.table, p, len, 0);
    } else {
      RoomByStart(base, m2.table, Block(p + len, rest), Block(p + len, len));
      SumsWrap(m.total, len, rest);
      TurnsRun(base, m2, p + len, len, n - 1);
    }
  }

  lemma StopStep(base: int, m: Machine, at: int, p: Word32, len: Word32)
    requires m.tib == at + 20 && 0 <= at && at + 30 < 0x1_0000_0000 && CountedLoop(m.mem, at, p, len, 0)
    ensures Run(base, m, 1) == Halted(m.(tib := at + 30), OK)
    ensures Read32(m.mem, at + 2) == p && Read32(m.mem, at + 16) == 0
  {
    hide Read16, Read32;
    assert Step(base, m) == Halted(m.(tib := at + 30), OK);
  }

  /**
    The self-modifying loop transfers one block of `n * len` bytes: from any table with room it
    halts after 2n + 1 instructions with that one block recorded, the total grown by its length,
    and the pointer and counter fields in memory left at `p + n * len` and 0.
   */
  lemma CountedLoopRuns(base: int, m: Machine, p: Word32, len: Word32, n: Word32)
    requires m.tib + 30 < 0x1_0000_0000 && CountedLoop(m.mem, m.tib, p, len, n)
    requires n >= 1 && p + n * len < 0x1_0000_0000
    requires Based(base, m.table) && !TableFull(base, m.table, Block(p, len))
    ensures 0 <= n * len < 0x1_0000_0000
    ensures var o := Run(base, m, 2 * n + 1);
      && o.Halted? && o.code == OK
      && !TableFull(base, m.table, Block(p, n * len))
      && o.m.table == Record(base, m.table, Block(p, n * len))
      && o.m.total == U32(m.total + n * len)
      && Read32(o.m.mem, m.tib + 2) == p + n * len
      && Read32(o.m.mem, m.tib + 16) == 0
  {
    hide Record, U32, CountedLoop, TableFull, Step, Read32, Write32, Merges, Run;
    TimesIsProduct(n, len);
    TurnsRun(base, m, p, len, n);
  }

  /** From an empty table the loop leaves a single entry. */
  lemma CountedLoopFromEmpty(base: int, m: Machine, p: Word32, len: Word32, n: Word32)
    requires m.tib + 30 < 0x1_0000_0000 && CountedLoop(m.mem, m.tib, p, len, n)
    requires n >= 1 && p + n * len < 0x1_0000_0000
    requires m.table == [] && m.total == 0
    ensures 0 <= n * len < 0x1_0000_0000
    ensures var o := Run(base, m, 2 * n + 1);
      && o.Halted? && o.code == OK
      && o.m.table == [Entry(base + p, n * len)] && o.m.total == n * len
      && Read32(o.m.mem, m.tib + 2) == p + n * len && Read32(o.m.mem, m.tib + 16) == 0
  {
    hide CountedLoop, Read32, Run;
    CountedLoopRuns(base, m, p, len, n);
  }
}
