/**
  The emulated SCSI Manager: the logical bus phases, and the scatter/gather table they guard.

  `ScsiManager` is the manager with its global variables as fields; each call is proved to do
  what `Apply` says on the abstract state. What every run of calls keeps is proved about `Apply`.
 */
module ScsiManagement {
  import opened Options
  import opened Bytes
  import opened MacMemory
  import opened ScsiTib

  const SC_COMM_ERR := 2
  const SC_PHASE_ERR := 5
  const SC_MGR_BUSY_ERR := 7
  const SC_SEQUENCE_ERR := 8

  datatype Phase = Free | Arbitrated | Selected | Transfer

  /** The faked 5380 status word of each phase. */
  function StatusOf(phase: Phase): Word16 {
    match phase
    case Free => 0x0000
    case Arbitrated => 0x0040
    case Selected => 0x006a
    case Transfer => 0x006e
  }

  datatype Bus = Bus(
    phase: Phase,
    status: Word16,
    reading: bool,
    target: int,
    table: seq<Entry>,
    total: Word32,
    mem: Memory,
    blocks: seq<Block>)
  {
    function At(tib: Word32): ScsiTib.Machine {
      ScsiTib.Machine(mem, tib, table, total, blocks)
    }

    function After(m: Machine): Bus {
      this.(mem := m.mem, table := m.table, total := m.total, blocks := m.blocks)
    }
  }

  /** What the host's SCSI driver is asked to do, and what it answers. */
  datatype Request = Request(total: Word32, reading: bool, table: seq<Entry>)
  datatype Reply = Reply(success: bool, status: Word16)

  /** The calls, with what the host answers. `fuel` bounds the instructions of a TIB program that
      have been executed so far; a program that never stops is seen at every point of its run. */
  datatype Op =
    | Reset
    | Get
    | Select(id: int, present: bool)
    | Cmd(length: int, lunPresent: bool)
    | Read(tib: Word32, fuel: nat)
    | Write(tib: Word32, fuel: nat)
    | Complete(message: Word32, stat: Word32, device: Request -> Reply)

  function FreeBus(s: Bus): Bus {
    s.(phase := Free, status := StatusOf(Free))
  }

  /** The state after a call, and its result code; no code while a TIB program still runs. */
  function Apply(base: int, s: Bus, op: Op): (r: (Bus, Option<int>)) {
    match op
    case Reset =>
      (FreeBus(s).(table := [], target := 8), Some(OK))
    case Get =>
      if s.phase != Free then (s, Some(SC_MGR_BUSY_ERR))
      else
        (s.(phase := Arbitrated, status := StatusOf(Arbitrated), reading := false, table := [], total := 0,
            blocks := []), Some(OK))
    case Select(id, present) =>
      if s.phase != Arbitrated then (s, Some(SC_SEQUENCE_ERR))
      else if id < 0 || id > 7 then (s, Some(SC_BAD_PARMS_ERR))
      else if !present then (FreeBus(s).(target := id), Some(SC_COMM_ERR))
      else (s.(phase := Selected, status := StatusOf(Selected), target := id), Some(OK))
    case Cmd(length, lunPresent) =>
      if s.phase != Selected then (s, Some(SC_PHASE_ERR))
      else if length != 6 && length != 10 && length != 12 then (s, Some(SC_BAD_PARMS_ERR))
      else if !lunPresent then (FreeBus(s), Some(SC_COMM_ERR))
      else (s.(phase := Transfer, status := StatusOf(Transfer)), Some(OK))
    case Read(tib, fuel) =>
      if s.phase != Transfer then (s, Some(SC_PHASE_ERR))
      else Executed(s.(reading := true), Run(base, s.At(tib), fuel))
    case Write(tib, fuel) =>
      if s.phase != Transfer then (s, Some(SC_PHASE_ERR))
      else Executed(s, Run(base, s.At(tib), fuel))
    case Complete(message, stat, device) =>
      var told := s.(mem := Write16(s.mem, message, 0));
      if s.phase != Transfer then (told, Some(SC_PHASE_ERR))
      else
        var reply := device(Request(s.total, s.reading, s.table));
        (FreeBus(told.(mem := Write16(told.mem, stat, reply.status))), Some(if reply.success then OK else SC_COMM_ERR))
  }

  function Executed(s: Bus, o: Outcome): (Bus, Option<int>) {
    (s.After(o.m), if o.Halted? then Some(o.code) else None)
  }

  // ---------- Every run ----------

  /** The state the emulator starts in: C's zero-initialized globals, over any memory. */
  predicate Initial(s: Bus) {
    s.phase == Free && s.status == 0 && !s.reading && s.table == []
  }

  ghost predicate Inv(base: int, s: Bus) {
    && s.status == StatusOf(s.phase)
    && |s.table| <= SG_TABLE_SIZE
    && (s.phase == Arbitrated || s.phase == Selected ==> s.table == [] && s.total == 0 && s.blocks == [])
    && (s.phase != Free ==> Faithful(base, s.At(0)))
  }

  lemma ApplyKeepsInv(base: int, s: Bus, op: Op)
    requires Inv(base, s)
    ensures Inv(base, Apply(base, s, op).0)
  {
    hide Run, Faithful;
    match op
    case Get =>
      var s' := Apply(base, s, op).0;
      if s.phase == Free { EmptyIsFaithful(base, s'.At(0)); }
    case Select(id, present) =>
      var s' := Apply(base, s, op).0;
      if s.phase != Free { SameTable(base, s.At(0), s'.At(0)); }
    case Cmd(length, lunPresent) =>
      var s' := Apply(base, s, op).0;
      if s.phase != Free { SameTable(base, s.At(0), s'.At(0)); }
    case Complete(message, stat, device) =>
      var s' := Apply(base, s, op).0;
      if s.phase != Free { SameTable(base, s.At(0), s'.At(0)); }
    case Reset =>
    case Read(tib, fuel) =>
      if s.phase == Transfer { TransferKeepsInv(base, s, s.(reading := true), tib, fuel); }
    case Write(tib, fuel) =>
      if s.phase == Transfer { TransferKeepsInv(base, s, s, tib, fuel); }
  }

  lemma EmptyIsFaithful(base: int, m: Machine)
    requires m.table == [] && m.total == 0 && m.blocks == []
    ensures Faithful(base, m)
  {
  }

  lemma FaithfulTable(base: int, m: Machine)
    requires Faithful(base, m)
    ensures |m.table| <= SG_TABLE_SIZE
  {
  }

  lemma TransferKeepsInv(base: int, s: Bus, r: Bus, tib: Word32, fuel: nat)
    requires Inv(base, s) && s.phase == Transfer
    requires r == s || r == s.(reading := true)
    ensures Inv(base, r.After(Run(base, s.At(tib), fuel).m))
  {
    hide Run, Faithful;
    var m' := Run(base, s.At(tib), fuel).m;
    SameTable(base, s.At(0), s.At(tib));
    RunFaithful(base, s.At(tib), fuel);
    SameTable(base, m', r.After(m').At(0));
    FaithfulTable(base, m');
  }

  function RunOps(base: int, s: Bus, ops: seq<Op>): (s': Bus)
    decreases |ops|
  {
    if ops == [] then s else RunOps(base, Apply(base, s, ops[0]).0, ops[1..])
  }

  lemma {:induction false} RunKeepsInv(base: int, s: Bus, ops: seq<Op>)
    requires Inv(base, s)
    ensures Inv(base, RunOps(base, s, ops))
    decreases |ops|
  {
    hide Inv, Apply;
    if ops != [] {
      ApplyKeepsInv(base, s, ops[0]);
      RunKeepsInv(base, Apply(base, s, ops[0]).0, ops[1..]);
    }
  }

  /**
    After any run from power-up: the status word is the phase's, the table is empty until the
    command is sent and never overfull, and whatever command is completed then is sent with a
    table that stands for exactly the blocks its TIB programs recorded, in order, if and only if
    no stretch of blocks that follow each other in memory comes to 2^32 bytes.
   */
  lemma EveryRun(base: int, s0: Bus, ops: seq<Op>)
    requires Initial(s0)
    ensures var s := RunOps(base, s0, ops);
      && s.status == StatusOf(s.phase)
      && |s.table| <= SG_TABLE_SIZE
      && (s.phase == Arbitrated || s.phase == Selected ==> s.table == [])
      && (s.phase != Free ==>
            && s.total == U32(TotalLength(s.blocks))
            && (Flatten(s.table) == FlattenBlocks(base, s.blocks) <==> StretchesFit(s.blocks)))
  {
    hide RunOps, Stands, Flatten, FlattenBlocks, StretchesFit, TotalLength, U32;
    RunKeepsInv(base, s0, ops);
    var s := RunOps(base, s0, ops);
    if s.phase != Free { StandsExactly(base, s.table, s.blocks); }
  }

  /** The blocks a call records: those its program adds, in execution order. */
  lemma {:induction false} RunAppendsBlocks(base: int, m: Machine, fuel: nat)
    ensures m.blocks <= Run(base, m, fuel).m.blocks
    decreases fuel
  {
    if fuel > 0 {
      assert m.blocks <= Step(base, m).m.blocks by { StepAppends(base, m); }
      if Step(base, m).Running? {
        hide Step;
        RunAppendsBlocks(base, Step(base, m).m, fuel - 1);
      }
    }
  }

  lemma StepAppends(base: int, m: Machine)
    ensures m.blocks <= Step(base, m).m.blocks
  {
    hide Read32, Read16, Write32, U32, I32, Record, TableFull;
  }

  /** Until the bus is freed, no call forgets a recorded block. */
  lemma BlocksGrowUntilFree(base: int, s: Bus, op: Op)
    requires s.phase != Free && Apply(base, s, op).0.phase != Free
    ensures s.blocks <= Apply(base, s, op).0.blocks
  {
    hide Run;
    match op
    case Read(tib, fuel) => RunAppendsBlocks(base, s.At(tib), fuel);
    case Write(tib, fuel) => RunAppendsBlocks(base, s.At(tib), fuel);
    case _ =>
  }

  // ---------- The manager ----------

  class ScsiManager {
    const base: int                 // host address of Mac address 0
    var mem: Memory
    var targetId: int
    var phase: Phase
    var fakeStatus: Word16
    var reading: bool
    var sgIndex: nat                // entries in use
    const sgPtr: array<int>
    const sgLen: array<Word32>
    var sgTotalLength: Word32
    ghost var blocks: seq<Block>

    ghost predicate Valid()
      reads this
    {
      && sgPtr.Length == SG_TABLE_SIZE && sgLen.Length == SG_TABLE_SIZE
      && sgIndex <= SG_TABLE_SIZE
    }

    ghost function Table(): (t: seq<Entry>)
      requires Valid()
      reads this, sgPtr, sgLen
      ensures |t| == sgIndex
    {
      seq(sgIndex, i requires 0 <= i < sgIndex && Valid() reads this, sgPtr, sgLen => Entry(sgPtr[i], sgLen[i]))
    }

    ghost function State(): Bus
      requires Valid()
      reads this, sgPtr, sgLen
    {
      Bus(phase, fakeStatus, reading, targetId, Table(), sgTotalLength, mem, blocks)
    }

    constructor (base: int, mem: Memory)
      ensures Valid() && fresh(sgPtr) && fresh(sgLen)
      ensures Initial(State()) && this.base == base && this.mem == mem
    {
      this.base := base;
      this.mem := mem;
      targetId, phase, fakeStatus, reading, sgIndex, sgTotalLength := 0, Free, 0, false, 0, 0;
      sgPtr := new int[SG_TABLE_SIZE];
      sgLen := new Word32[SG_TABLE_SIZE];
      blocks := [];
    }

    /** Adds a block to the table; false if there is no room. */
    method AddToTable(ptr: Word32, len: Word32) returns (ok: bool)
      requires Valid()
      modifies this`sgIndex, this`sgTotalLength, this`blocks, sgPtr, sgLen
      ensures Valid()
      ensures var b := Block(ptr, len);
        && ok == !TableFull(base, old(Table()), b)
        && Table() == (if ok then Record(base, old(Table()), b) else old(Table()))
        && sgTotalLength == (if ok then U32(old(sgTotalLength) + len) else old(sgTotalLength))
        && blocks == (if ok then old(blocks) + [b] else old(blocks))
    {
      ghost var t := Table();
      if sgIndex > 0 && base + ptr == sgPtr[sgIndex - 1] + sgLen[sgIndex - 1] {
        sgLen[sgIndex - 1] := U32(sgLen[sgIndex - 1] + len);
        assert Table() == Record(base, t, Block(ptr, len));
      } else {
        if sgIndex == SG_TABLE_SIZE {
          return false;
        }
        sgPtr[sgIndex] := base + ptr;
        sgLen[sgIndex] := len;
        sgIndex := sgIndex + 1;
        assert Table() == Record(base, t, Block(ptr, len));
      }
      sgTotalLength := U32(sgTotalLength + len);
      blocks := blocks + [Block(ptr, len)];
      return true;
    }

    /** Executes at most `fuel` instructions of the TIB program at `tib0`. */
    method ExecTib(tib0: Word32, fuel: nat) returns (code: Option<int>)
      requires Valid()
      modifies this`mem, this`sgIndex, this`sgTotalLength, this`blocks, sgPtr, sgLen
      ensures Valid()
      ensures var o := Run(base, old(State().At(tib0)), fuel);
        && State() == old(State()).After(o.m)
        && code == (if o.Halted? then Some(o.code) else None)
    {
      hide Read16, Read32, Write32, Record, TableFull, Run, U32, I32;
      var tib: Word32, left := tib0, fuel;
      ghost var whole := Run(base, State().At(tib0), fuel);
      while left > 0
        invariant Valid()
        invariant whole == Run(base, State().At(tib), left)
        invariant (phase, fakeStatus, reading, targetId) == old((phase, fakeStatus, reading, targetId))
        decreases left
      {
        ghost var m, t := State().At(tib), Table();
        RunOne(base, m, left);
        left := left - 1;

        var cmd := Read16(mem, tib);
        var ptrField := U32(tib as int + 2);
        var lenField := U32(tib as int + 6);
        var ptr := Read32(mem, ptrField);
        var len := Read32(mem, lenField);
        tib := U32(tib as int + 10);

        if cmd == INC || cmd == NO_INC {
          if cmd == INC {
            mem := Write32(mem, ptrField, U32(ptr as int + len));
          }
          assert Table() == t;
          var ok := AddToTable(ptr, len);
          if !ok {
            assert Step(base, m) == Halted(State().At(tib), SG_FULL_ERR);
            return Some(SG_FULL_ERR);
          }
        } else if cmd == ADD {
          mem := Write32(mem, ptr, U32(Read32(mem, ptr) as int + len));
        } else if cmd == MOVE {
          mem := Write32(mem, len, Read32(mem, ptr));
        } else if cmd == LOOP {
          mem := Write32(mem, lenField, U32(len as int - 1));
          if U32(len as int - 1) > 0 {
            JumpTarget(m.tib, I32(ptr));
            tib := U32(tib as int + I32(ptr) - 10);
          }
        } else if cmd == NOP {
        } else if cmd == STOP {
          return Some(OK);
        } else if cmd == COMP {
          return Some(SC_COMPARE_ERR);
        } else {
          return Some(SC_BAD_PARMS_ERR);
        }
        assert cmd != INC && cmd != NO_INC ==> Table() == t;
        assert Step(base, m) == Running(State().At(tib));
      }
      RunNone(base, State().At(tib));
      return None;
    }

    method SCSIReset() returns (code: int)
      requires Valid()
      modifies this
      ensures Valid() && mem == old(mem)
      ensures (State(), Some(code)) == Apply(base, old(State()), Reset)
    {
      phase := Free;
      fakeStatus := 0x0000;
      sgIndex := 0;
      targetId := 8;
      return OK;
    }

    method SCSIGet() returns (code: int)
      requires Valid()
      modifies this
      ensures Valid()
      ensures (State(), Some(code)) == Apply(base, old(State()), Get)
    {
      if phase != Free {
        return SC_MGR_BUSY_ERR;
      }
      phase := Arbitrated;
      fakeStatus := 0x0040;
      reading := false;
      sgIndex := 0;
      sgTotalLength := 0;
      blocks := [];
      return OK;
    }

    /** `present` answers for the host whether target `id` exists. */
    method SCSISelect(id: int, present: bool) returns (code: int)
      requires Valid()
      modifies this
      ensures Valid()
      ensures (State(), Some(code)) == Apply(base, old(State()), Select(id, present))
    {
      if phase != Arbitrated {
        return SC_SEQUENCE_ERR;
      }
      if id < 0 || id > 7 {
        assert Table() == old(Table());
        return SC_BAD_PARMS_ERR;
      }
      targetId := id;
      if !present {
        phase := Free;
        fakeStatus := 0x0000;
        assert Table() == old(Table());
        return SC_COMM_ERR;
      }
      phase := Selected;
      fakeStatus := 0x006a;
      assert Table() == old(Table());
      return OK;
    }

    /** `lunPresent` answers for the host whether the target has the command's logical unit. */
    method SCSICmd(length: int, lunPresent: bool) returns (code: int)
      requires Valid()
      modifies this
      ensures Valid()
      ensures (State(), Some(code)) == Apply(base, old(State()), Cmd(length, lunPresent))
    {
      if phase != Selected {
        assert Table() == old(Table());
        return SC_PHASE_ERR;
      }
      if length != 6 && length != 10 && length != 12 {
        assert Table() == old(Table());
        return SC_BAD_PARMS_ERR;
      }
      if !lunPresent {
        phase := Free;
        fakeStatus := 0x0000;
        assert Table() == old(Table());
        return SC_COMM_ERR;
      }
      phase := Transfer;
      fakeStatus := 0x006e;
      assert Table() == old(Table());
      return OK;
    }

    method SCSIRead(tib: Word32, fuel: nat) returns (code: Option<int>)
      requires Valid()
      modifies this, sgPtr, sgLen
      ensures Valid()
      ensures (State(), code) == Apply(base, old(State()), Read(tib, fuel))
    {
      if phase != Transfer {
        return Some(SC_PHASE_ERR);
      }
      hide Run;
      reading := true;
      assert Table() == old(Table());
      code := ExecTib(tib, fuel);
    }

    method SCSIWrite(tib: Word32, fuel: nat) returns (code: Option<int>)
      requires Valid()
      modifies this, sgPtr, sgLen
      ensures Valid()
      ensures (State(), code) == Apply(base, old(State()), Write(tib, fuel))
    {
      if phase != Transfer {
        return Some(SC_PHASE_ERR);
      }
      hide Run;
      code := ExecTib(tib, fuel);
    }

    /** `device` is the host's driver; it sees the table and answers with a status. */
    method SCSIComplete(message: Word32, stat: Word32, device: Request -> Reply) returns (code: int)
      requires Valid()
      modifies this
      ensures Valid()
      ensures (State(), Some(code)) == Apply(base, old(State()), Complete(message, stat, device))
    {
      mem := Write16(mem, message, 0);
      if phase != Transfer {
        assert Table() == old(Table());
        return SC_PHASE_ERR;
      }
      var table := seq(sgIndex, i requires 0 <= i < sgIndex && Valid() reads this, sgPtr, sgLen =>
                                  Entry(sgPtr[i], sgLen[i]));
      assert table == Table() == old(Table());
      var reply := device(Request(sgTotalLength, reading, table));
      mem := Write16(mem, stat, reply.status);
      phase := Free;
      fakeStatus := 0x0000;
      assert Table() == old(Table());
      return if reply.success then OK else SC_COMM_ERR;
    }
  }

  lemma JumpTarget(tib: int, offset: int)
    ensures U32(U32(tib + 10) + offset - 10) == U32(tib + offset)
  {
  }

  lemma RunOne(base: int, m: ScsiTib.Machine, fuel: nat)
    requires fuel > 0
    ensures Run(base, m, fuel)
         == match Step(base, m) case Running(m') => Run(base, m', fuel - 1) case Halted(m', c) => Halted(m', c)
  {
  }

  lemma RunNone(base: int, m: ScsiTib.Machine)
    ensures Run(base, m, 0) == Running(m)
  {
  }
}
