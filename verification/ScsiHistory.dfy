/**
  The SCSI Manager over whole runs: what the calls so far say about the bus, and about the request that the
  device gets.
 */
module ScsiHistory {
  import opened Options
  import opened Bytes
  import opened MacMemory
  import opened ScsiTib
  import opened ScsiManagement

  /** What the call at place `i` of a run answers. */
  ghost function Code(base: int, s0: Bus, ops: seq<Op>, i: nat): (code: Option<int>)
    requires i < |ops|
  {
    Apply(base, RunOps(base, s0, ops[..i]), ops[i]).1
  }

  /** The call is refused: it comes at the wrong time, or its parameters are wrong. */
  predicate Refused(op: Op, code: Option<int>) {
    || code == Some(SC_MGR_BUSY_ERR) || code == Some(SC_SEQUENCE_ERR) || code == Some(SC_PHASE_ERR)
    || (code == Some(SC_BAD_PARMS_ERR) && (op.Select? || op.Cmd?))
  }

  ghost predicate Taken(base: int, s0: Bus, ops: seq<Op>, i: nat) {
    i < |ops| && !Refused(ops[i], Code(base, s0, ops, i))
  }

  /** The place of the last call that was not refused. */
  ghost predicate LastTaken(base: int, s0: Bus, ops: seq<Op>, i: nat) {
    Taken(base, s0, ops, i) && forall j: nat :: i < j < |ops| ==> !Taken(base, s0, ops, j)
  }

  /** There is a taken call of which `p` holds, and no taken SCSIGet after it. */
  ghost predicate SinceGet(base: int, s0: Bus, ops: seq<Op>, p: Op -> bool) {
    exists i: nat ::
      Taken(base, s0, ops, i) && p(ops[i]) && forall j: nat :: i < j && Taken(base, s0, ops, j) ==> !ops[j].Get?
  }

  // ---------- One call more ----------

  lemma {:induction false} RunOneMore(base: int, s: Bus, ops: seq<Op>, op: Op)
    ensures RunOps(base, s, ops + [op]) == Apply(base, RunOps(base, s, ops), op).0
    decreases |ops|
  {
    hide Apply;
    if ops == [] {
      assert (ops + [op])[1..] == [];
    } else {
      assert (ops + [op])[1..] == ops[1..] + [op];
      RunOneMore(base, Apply(base, s, ops[0]).0, ops[1..], op);
    }
  }

  lemma TakenBefore(base: int, s0: Bus, ops: seq<Op>, op: Op, i: nat)
    ensures i < |ops| ==> (Taken(base, s0, ops + [op], i) <==> Taken(base, s0, ops, i))
    ensures i == |ops| ==>
              (Taken(base, s0, ops + [op], i) <==> !Refused(op, Apply(base, RunOps(base, s0, ops), op).1))
    ensures Taken(base, s0, ops + [op], i) ==> i <= |ops|
  {
    hide Apply, RunOps;
    if i <= |ops| { assert (ops + [op])[..i] == ops[..i]; }
    assert ops[..|ops|] == ops;
  }

  lemma SinceGetOneMore(base: int, s0: Bus, ops: seq<Op>, op: Op, p: Op -> bool)
    requires !(op.Get? && p(op))
    ensures var taken := !Refused(op, Apply(base, RunOps(base, s0, ops), op).1);
      SinceGet(base, s0, ops + [op], p) <==> (taken && p(op)) || (!(taken && op.Get?) && SinceGet(base, s0, ops, p))
  {
    hide Taken, Apply, RunOps, Refused;
    var n, more := |ops|, ops + [op];
    TakenBefore(base, s0, ops, op, n);
    forall i: nat
      ensures i < n ==> (Taken(base, s0, more, i) <==> Taken(base, s0, ops, i)) && more[i] == ops[i]
      ensures Taken(base, s0, more, i) ==> i <= n
    {
      TakenBefore(base, s0, ops, op, i);
    }
    assert more[n] == op;
    TakenInside(base, s0, ops);
    if SinceGet(base, s0, ops, p) && !(Taken(base, s0, more, n) && op.Get?) {
      var i: nat :| Taken(base, s0, ops, i) && p(ops[i])
                 && forall j: nat :: i < j && Taken(base, s0, ops, j) ==> !ops[j].Get?;
      assert Taken(base, s0, more, i) && p(more[i]);
    }
    if SinceGet(base, s0, more, p) {
      var i: nat :| Taken(base, s0, more, i) && p(more[i])
                 && forall j: nat :: i < j && Taken(base, s0, more, j) ==> !more[j].Get?;
      if i < n { assert Taken(base, s0, ops, i) && p(ops[i]); }
    }
  }

  lemma TakenInside(base: int, s0: Bus, ops: seq<Op>)
    ensures forall i: nat :: Taken(base, s0, ops, i) ==> i < |ops|
  {
  }

  // ---------- Reading or writing ----------

  function IsRead(op: Op): (b: bool) { op.Read? }

  /** A command is sent as a read if and only if SCSIRead was called for it. */
  lemma {:induction false} ReadingIfRead(base: int, s0: Bus, ops: seq<Op>)
    requires ScsiManagement.Initial(s0)
    ensures RunOps(base, s0, ops).reading <==> SinceGet(base, s0, ops, IsRead)
    decreases |ops|
  {
    hide Apply, Refused, Taken;
    if ops == [] {
      TakenInside(base, s0, ops);
    } else {
      var before, op := ops[..|ops| - 1], ops[|ops| - 1];
      assert ops == before + [op];
      ReadingIfRead(base, s0, before);
      hide SinceGet, RunOps;
      RunOneMore(base, s0, before, op);
      SinceGetOneMore(base, s0, before, op, IsRead);
      ReadingStep(base, RunOps(base, s0, before), op);
    }
  }

  lemma ReadingStep(base: int, s: Bus, op: Op)
    ensures var (s', code) := Apply(base, s, op);
      s'.reading == if Refused(op, code) then s.reading else if op.Get? then false else s.reading || op.Read?
  {
    if op.Read? || op.Write? { RunCodes(base, s.At(op.tib), op.fuel); }
    hide Run;
  }

  /** What a TIB program can end with. */
  predicate TibCode(code: int) {
    code == OK || code == SC_BAD_PARMS_ERR || code == SC_COMPARE_ERR || code == SG_FULL_ERR
  }

  lemma {:induction false} RunCodes(base: int, m: ScsiTib.Machine, fuel: nat)
    ensures var o := Run(base, m, fuel); o.Halted? ==> TibCode(o.code)
    decreases fuel
  {
    hide Step, TibCode;
    if fuel > 0 {
      StepCodes(base, m);
      if Step(base, m).Running? { RunCodes(base, Step(base, m).m, fuel - 1); }
    }
  }

  lemma StepCodes(base: int, m: ScsiTib.Machine)
    ensures var o := Step(base, m); o.Halted? ==> TibCode(o.code)
  {
    hide Read16, Read32, Write32, U32, I32, Record, TableFull;
  }

  /** The target of a command is the last one that was selected for it, and it was there. */
  lemma {:induction false} TargetSelected(base: int, s0: Bus, ops: seq<Op>, id: int)
    requires ScsiManagement.Initial(s0)
    requires var s := RunOps(base, s0, ops); (s.phase == Selected || s.phase == Transfer) && s.target == id
    ensures 0 <= id <= 7 && SinceGet(base, s0, ops, op => op == Select(id, true))
    decreases |ops|
  {
    hide Apply, Refused, Taken;
    var p := op => op == Select(id, true);
    if ops != [] {
      var before, op := ops[..|ops| - 1], ops[|ops| - 1];
      assert ops == before + [op];
      RunOneMore(base, s0, before, op);
      hide SinceGet, RunOps;
      SinceGetOneMore(base, s0, before, op, p);
      TargetStep(base, RunOps(base, s0, before), op);
      if op != Select(id, true) || Refused(op, Apply(base, RunOps(base, s0, before), op).1) {
        TargetSelected(base, s0, before, id);
      }
    }
  }

  lemma TargetStep(base: int, s: Bus, op: Op)
    requires var s' := Apply(base, s, op).0; s'.phase == Selected || s'.phase == Transfer
    ensures var (s', code) := Apply(base, s, op);
      if Refused(op, code) then s'.phase == s.phase && s'.target == s.target
      else
        && !op.Get?
        && (op.Select? ==> 0 <= op.id <= 7 && op == Select(s'.target, true))
        && (!op.Select? ==> (s.phase == Selected || s.phase == Transfer) && s'.target == s.target)
  {
    if op.Read? || op.Write? { RunCodes(base, s.At(op.tib), op.fuel); }
    hide Run;
  }

  // ---------- The order of calls ----------

  /** The bus is free after the call, which was taken. */
  predicate Frees(op: Op, code: Option<int>) {
    op.Reset? || op.Complete? || ((op.Select? || op.Cmd?) && code == Some(SC_COMM_ERR))
  }

  /** The command has been sent, and data may be transferred. */
  predicate Transfers(op: Op, code: Option<int>) {
    (op.Cmd? && code == Some(OK)) || op.Read? || op.Write?
  }

  /** Where a call that was taken leaves the bus. */
  predicate PhaseAfter(op: Op, code: Option<int>, phase: Phase) {
    match phase
    case Free => Frees(op, code)
    case Arbitrated => op.Get?
    case Selected => op.Select? && code == Some(OK)
    case Transfer => Transfers(op, code)
  }

  lemma TakenPhase(base: int, s: Bus, op: Op)
    ensures var (s', code) := Apply(base, s, op);
      if Refused(op, code) then s'.phase == s.phase else PhaseAfter(op, code, s'.phase)
    ensures Refused(op, Apply(base, s, op).1) <==>
      match op
      case Reset => false
      case Get => s.phase != Free
      case Select(id, _) => s.phase != Arbitrated || id < 0 || id > 7
      case Cmd(length, _) => s.phase != Selected || length !in {6, 10, 12}
      case Read(_, _) => s.phase != Transfer
      case Write(_, _) => s.phase != Transfer
      case Complete(_, _, _) => s.phase != Transfer
  {
    if op.Read? || op.Write? { RunCodes(base, s.At(op.tib), op.fuel); }
    hide Run;
  }

  lemma LastTakenOneMore(base: int, s0: Bus, ops: seq<Op>, op: Op, last: nat)
    requires LastTaken(base, s0, ops + [op], last)
    ensures var code := Apply(base, RunOps(base, s0, ops), op).1;
      if Refused(op, code) then
        LastTaken(base, s0, ops, last) && Code(base, s0, ops + [op], last) == Code(base, s0, ops, last)
      else
        last == |ops| && Code(base, s0, ops + [op], last) == code
  {
    var n, more := |ops|, ops + [op];
    TakenInside(base, s0, more);
    TakenBefore(base, s0, ops, op, n);
    assert more[..last] == ops[..last];
    assert ops[..n] == ops;
    hide Apply, RunOps, Refused;
    forall i: nat | i < n
      ensures Taken(base, s0, more, i) <==> Taken(base, s0, ops, i)
    {
      TakenBefore(base, s0, ops, op, i);
    }
  }

  /** Where the bus is follows from the last call that was not refused. */
  lemma {:induction false} PhaseFromCalls(base: int, s0: Bus, ops: seq<Op>, last: nat)
    requires ScsiManagement.Initial(s0) && LastTaken(base, s0, ops, last)
    ensures PhaseAfter(ops[last], Code(base, s0, ops, last), RunOps(base, s0, ops).phase)
    decreases |ops|
  {
    hide Apply, Refused, RunOps, PhaseAfter;
    var before, op := ops[..|ops| - 1], ops[|ops| - 1];
    assert ops == before + [op];
    RunOneMore(base, s0, before, op);
    TakenPhase(base, RunOps(base, s0, before), op);
    LastTakenOneMore(base, s0, before, op, last);
    if Refused(op, Apply(base, RunOps(base, s0, before), op).1) {
      PhaseFromCalls(base, s0, before, last);
    }
  }

  /** Until a call is taken the bus is free. */
  lemma {:induction false} FreeAtFirst(base: int, s0: Bus, ops: seq<Op>)
    requires ScsiManagement.Initial(s0) && forall i: nat :: !Taken(base, s0, ops, i)
    ensures RunOps(base, s0, ops).phase == Free
    decreases |ops|
  {
    hide Apply, Refused, RunOps, Taken;
    if ops == [] {
      RunNoOps(base, s0);
    } else {
      var before, op := ops[..|ops| - 1], ops[|ops| - 1];
      assert ops == before + [op];
      RunOneMore(base, s0, before, op);
      TakenPhase(base, RunOps(base, s0, before), op);
      TakenBefore(base, s0, before, op, |before|);
      TakenInside(base, s0, before);
      forall i: nat
        ensures !Taken(base, s0, before, i)
      {
        TakenBefore(base, s0, before, op, i);
      }
      FreeAtFirst(base, s0, before);
    }
  }

  lemma RunNoOps(base: int, s: Bus)
    ensures RunOps(base, s, []) == s
  {
  }

  /** Each call is taken just after those that it has to follow: the bus is got when it is free, a target
      selected next, a command sent next, and then data may be transferred until the command completes. */
  lemma CallOrder(base: int, s0: Bus, ops: seq<Op>, last: nat, op: Op)
    requires ScsiManagement.Initial(s0) && LastTaken(base, s0, ops, last)
    ensures var was, code := ops[last], Code(base, s0, ops, last);
      !Refused(op, Apply(base, RunOps(base, s0, ops), op).1) <==>
        match op
        case Reset => true
        case Get => Frees(was, code)
        case Select(id, _) => was.Get? && 0 <= id <= 7
        case Cmd(length, _) => was.Select? && code == Some(OK) && length in {6, 10, 12}
        case Read(_, _) => Transfers(was, code)
        case Write(_, _) => Transfers(was, code)
        case Complete(_, _, _) => Transfers(was, code)
  {
    PhaseFromCalls(base, s0, ops, last);
    TakenPhase(base, RunOps(base, s0, ops), op);
    hide Apply, RunOps, Refused, LastTaken;
  }

  // ---------- The request ----------

  /** What the device is asked when a command completes: to read if SCSIRead was called for the command and
      else to write, with a table that stands for the blocks recorded for it and the sum of their lengths.
      Its answer is what the caller gets. */
  lemma CompletedRequest(base: int, s0: Bus, ops: seq<Op>, message: Word32, stat: Word32, device: Request -> Reply)
    requires ScsiManagement.Initial(s0) && RunOps(base, s0, ops).phase == Transfer
    ensures var s := RunOps(base, s0, ops);
      var (s', code) := Apply(base, s, Complete(message, stat, device));
      var request := Request(U32(TotalLength(s.blocks)), SinceGet(base, s0, ops, IsRead), s.table);
      && (Flatten(request.table) == FlattenBlocks(base, s.blocks) <==> StretchesFit(s.blocks))
      && code == Some(if device(request).success then OK else SC_COMM_ERR)
      && Read16(s'.mem, stat) == device(request).status
      && (message + 2 <= stat || stat + 2 <= message ==> Read16(s'.mem, message) == 0)
  {
    var s := RunOps(base, s0, ops);
    hide RunOps, SinceGet, Flatten, FlattenBlocks, StretchesFit, TotalLength, U32;
    ScsiManagement.EveryRun(base, s0, ops);
    ReadingIfRead(base, s0, ops);
  }
}
