/**
  The Time Manager's two threads, one step at a time: the emulator thread, which inserts, removes and
  primes tasks and serves the timer interrupt, and the timer thread, which sleeps until
  `wakeup_time` and then raises that interrupt.

  The timer thread tests `wakeup_time` without the lock and later overwrites it. What is shown is
  that no wakeup is lost for that, in any interleaving.
 */
module TimerSteps {
  import opened Options

  // ---------- The task list ----------

  datatype Task = Task(tm: int, wakeup: int, active: bool)

  /** Later than any wakeup time in use: 0x7fffffff seconds and 999999999 nanoseconds. */
  const WAKEUP_TIME_MAX: int := 0x7fff_ffff * 1_000_000_000 + 999_999_999

  /** Where the first task at address `tm` is in the list; the list's length if there is none. */
  function Find(tasks: seq<Task>, tm: int): (i: nat)
    ensures i <= |tasks|
    ensures i < |tasks| ==> tasks[i].tm == tm
    ensures forall j :: 0 <= j < i ==> tasks[j].tm != tm
  {
    if tasks == [] || tasks[0].tm == tm then 0 else 1 + Find(tasks[1..], tm)
  }

  /** The earlier of `w` and the earliest wakeup time of an active task. */
  function Earliest(tasks: seq<Task>, w: int): (r: int)
    ensures r <= w
    ensures forall i :: 0 <= i < |tasks| && tasks[i].active ==> r <= tasks[i].wakeup
    ensures r == w || exists i :: 0 <= i < |tasks| && tasks[i].active && tasks[i].wakeup == r
  {
    if tasks == [] then w
    else
      var w' := if tasks[0].active && tasks[0].wakeup < w then tasks[0].wakeup else w;
      var r := Earliest(tasks[1..], w');
      assert forall i :: 0 < i < |tasks| ==> tasks[i] == tasks[1..][i - 1];
      r
  }

  function SetWakeup(tasks: seq<Task>, tm: int, wakeup: int): (r: seq<Task>) {
    var i := Find(tasks, tm);
    if i < |tasks| then tasks[i := tasks[i].(wakeup := wakeup)] else tasks
  }

  function SetActive(tasks: seq<Task>, tm: int, active: bool): (r: seq<Task>) {
    var i := Find(tasks, tm);
    if i < |tasks| then tasks[i := tasks[i].(active := active)] else tasks
  }

  function Insert(tasks: seq<Task>, tm: int, garbage: int): (r: seq<Task>) {
    if Find(tasks, tm) < |tasks| then SetActive(tasks, tm, false) else [Task(tm, garbage, false)] + tasks
  }

  function Drop(tasks: seq<Task>, tm: int): (r: seq<Task>) {
    var i := Find(tasks, tm);
    if i < |tasks| then tasks[..i] + tasks[i + 1..] else tasks
  }

  /** The task after `tm` in the list. */
  function Next(tasks: seq<Task>, tm: int): (next: Option<int>) {
    var i := Find(tasks, tm);
    if i + 1 < |tasks| then Some(tasks[i + 1].tm) else None
  }

  // ---------- The machine ----------

  datatype Holder = Free | ByEmulator | ByThread

  /** What the emulator thread takes the lock for. */
  datatype Op = PrimeOp(tm: int) | RemoveOp(tm: int) | RescanOp

  datatype Emulator =
    | Calm                      // not in the middle of a Time Manager call
    | Locking(op: Op)
    | Suspending(op: Op)
    | Updating(op: Op)
    | Unlocking(op: Op)
    | Resuming(op: Op)
    | Freeing(tm: int)

  /** How far the timer interrupt is: it has cleared its flag, or it is at `next` in the list, with
      `calling` set while a task's own code runs. */
  datatype Pass =
    | NoPass
    | Cleared
    | Visiting(at: int, next: Option<int>, calling: bool)

  datatype Thread =
    | Top
    | Sleeping(until: int)
    | Woken
    | Compare(sys: int)
    | WantLock
    | Clearing
    | Releasing
    | Flagging

  datatype State = State(
    tasks: seq<Task>,
    wakeupTime: int,
    lock: Holder,
    suspended: bool,
    flag: bool,
    now: int,
    em: Emulator,
    pass: Pass,
    tt: Thread)

  datatype Event =
    // guest code
    | InsTime(tm: int, garbage: int)
    | RmvTime(tm: int)
    | PrimeTime(tm: int, wakeup: int)
    | TimerReset
    // the timer interrupt
    | TakeInterrupt
    | StartPass
    | Visit(calls: bool)
    | CallReturns
    | EndPass
    // the rest of RmvTime, PrimeTime and the timer interrupt
    | Lock | Suspend | Update | Unlock | Resume | FreeDesc
    // the timer thread and the clock
    | ThreadStep | Signal
    | Tick(d: nat)

  /** Guest code runs: ordinarily, or called by the timer interrupt. */
  predicate GuestRuns(s: State) {
    s.em == Calm && (s.pass == NoPass || (s.pass.Visiting? && s.pass.calling))
  }

  predicate Enabled(s: State, e: Event) {
    match e
    case InsTime(_, _) => GuestRuns(s)
    case PrimeTime(tm, _) => GuestRuns(s) && Find(s.tasks, tm) < |s.tasks|
    case RmvTime(tm) => GuestRuns(s) && Find(s.tasks, tm) < |s.tasks| && (s.pass.Visiting? ==> s.pass.next != Some(tm))
    case TimerReset => GuestRuns(s) && s.pass == NoPass
    case TakeInterrupt => GuestRuns(s) && s.pass == NoPass && s.flag
    case StartPass => s.em == Calm && s.pass == Cleared
    case Visit(_) => s.em == Calm && s.pass.Visiting? && !s.pass.calling && s.pass.next.Some?
    case CallReturns => s.em == Calm && s.pass.Visiting? && s.pass.calling
    case EndPass => s.em == Calm && s.pass.Visiting? && !s.pass.calling && s.pass.next.None?
    case Lock => s.em.Locking? && s.lock == Free
    case Suspend => s.em.Suspending?
    case Update => s.em.Updating?
    case Unlock => s.em.Unlocking?
    case Resume => s.em.Resuming?
    case FreeDesc => s.em.Freeing?
    case ThreadStep =>
      !s.suspended && (s.tt.Sleeping? ==> s.tt.until <= s.now) && (s.tt.WantLock? ==> s.lock == Free)
    case Signal => !s.suspended && s.tt.Sleeping?
    case Tick(_) => true
  }

  /** What the emulator thread does while it holds the lock and the timer thread is suspended. */
  function Updated(s: State, op: Op): (s': State) {
    match op
    case PrimeOp(tm) =>
      var tasks := SetActive(s.tasks, tm, true);
      s.(tasks := tasks, wakeupTime := Earliest(tasks, WAKEUP_TIME_MAX))
    case RemoveOp(tm) =>
      var i := Find(s.tasks, tm);
      if i < |s.tasks| && s.tasks[i].active then
        var tasks := SetActive(s.tasks, tm, false);
        s.(tasks := tasks, wakeupTime := Earliest(tasks, WAKEUP_TIME_MAX))
      else s
    case RescanOp => s.(wakeupTime := Earliest(s.tasks, WAKEUP_TIME_MAX), pass := NoPass)
  }

  /** One step of `timer_func`. */
  function ThreadDoes(s: State): (s': State) {
    match s.tt
    case Top => s.(tt := Sleeping(s.wakeupTime))
    case Sleeping(_) => s.(tt := Woken)
    case Woken => s.(tt := Compare(s.now))
    case Compare(sys) => s.(tt := if s.wakeupTime < sys then WantLock else Top)
    case WantLock => s.(tt := Clearing, lock := ByThread)
    case Clearing => s.(tt := Releasing, wakeupTime := WAKEUP_TIME_MAX)
    case Releasing => s.(tt := Flagging, lock := Free)
    case Flagging => s.(tt := Top, flag := true)
  }

  /** The task at `next` is looked at: if it has expired it is made inactive, and called. */
  function Visited(s: State, at: int, next: int, calls: bool): (s': State) {
    var i, after := Find(s.tasks, next), Next(s.tasks, next);
    if i < |s.tasks| && s.tasks[i].active && s.tasks[i].wakeup <= at then
      s.(tasks := SetActive(s.tasks, next, false), pass := Visiting(at, after, calls))
    else s.(pass := Visiting(at, after, false))
  }

  /** A thread that is resumed does not go on sleeping. */
  function Resumed(tt: Thread): (r: Thread) {
    if tt.Sleeping? then Woken else tt
  }

  function Do(s: State, e: Event): (s': State)
    requires Enabled(s, e)
  {
    match e
    case InsTime(tm, garbage) => s.(tasks := Insert(s.tasks, tm, garbage))
    case PrimeTime(tm, wakeup) => s.(tasks := SetWakeup(s.tasks, tm, wakeup), em := Locking(PrimeOp(tm)))
    case RmvTime(tm) => s.(em := Locking(RemoveOp(tm)))
    case TimerReset => s.(tasks := [])
    case TakeInterrupt => s.(flag := false, pass := Cleared)
    case StartPass => s.(pass := Visiting(s.now, if s.tasks == [] then None else Some(s.tasks[0].tm), false))
    case Visit(calls) => Visited(s, s.pass.at, s.pass.next.value, calls)
    case CallReturns => s.(pass := Visiting(s.pass.at, s.pass.next, false))
    case EndPass => s.(em := Locking(RescanOp))
    case Lock => s.(em := Suspending(s.em.op), lock := ByEmulator)
    case Suspend => s.(em := Updating(s.em.op), suspended := true)
    case Update => Updated(s, s.em.op).(em := Unlocking(s.em.op))
    case Unlock => s.(em := Resuming(s.em.op), lock := Free)
    case Resume =>
      s.(em := if s.em.op.RemoveOp? then Freeing(s.em.op.tm) else Calm, suspended := false,
         tt := Resumed(s.tt))
    case FreeDesc => s.(tasks := Drop(s.tasks, s.em.tm), em := Calm)
    case ThreadStep => ThreadDoes(s)
    case Signal => s.(tt := Woken)
    case Tick(d) => s.(now := s.now + d)
  }

  /** When both threads have started. */
  predicate Initial(s: State) {
    && s.tasks == [] && s.wakeupTime == WAKEUP_TIME_MAX && s.lock == Free && !s.suspended && !s.flag
    && s.em == Calm && s.pass == NoPass && s.tt == Top
  }

  // ---------- What every step keeps ----------

  /** The lock and the suspension are where the two threads' places in their code say. In particular
      the timer thread is never suspended while it holds the lock. */
  predicate LockInv(s: State) {
    && (s.lock == ByThread <==> s.tt.Clearing? || s.tt.Releasing?)
    && (s.lock == ByEmulator <==> s.em.Suspending? || s.em.Updating? || s.em.Unlocking?)
    && (s.suspended <==> s.em.Updating? || s.em.Unlocking? || s.em.Resuming?)
    && (s.suspended ==> s.lock != ByThread)
  }

  /** The emulator thread is about to find the new wakeup time of `tm` itself. */
  predicate Primes(em: Emulator, tm: int) {
    (em.Locking? || em.Suspending? || em.Updating?) && em.op == PrimeOp(tm)
  }

  /** The task will be called in time: its time is not before `wakeup_time`, or an interrupt is on
      its way, or is being served, or its priming is not complete. */
  predicate Covered(s: State, t: Task) {
    || !t.active
    || t.wakeup >= s.wakeupTime
    || s.flag
    || s.tt.Releasing? || s.tt.Flagging?
    || s.pass != NoPass
    || Primes(s.em, t.tm)
  }

  ghost predicate NoLostWakeup(s: State) {
    forall i :: 0 <= i < |s.tasks| ==> Covered(s, s.tasks[i])
  }

  /** A sleeping timer thread sleeps until `wakeup_time`, and not longer. */
  predicate SleepInv(s: State) {
    s.tt.Sleeping? && !s.suspended ==> s.tt.until == s.wakeupTime
  }

  ghost predicate Distinct(tasks: seq<Task>) {
    forall i, j :: 0 <= i < j < |tasks| ==> tasks[i].tm != tasks[j].tm
  }

  /** The task that the emulator thread is removing. */
  function Removing(em: Emulator): (tm: Option<int>) {
    match em
    case Freeing(tm) => Some(tm)
    case Calm => None
    case _ => if em.op.RemoveOp? then Some(em.op.tm) else None
  }

  predicate InTask(tasks: seq<Task>, tm: int) {
    Find(tasks, tm) < |tasks|
  }

  /** The interrupt's place in the list stays in the list. */
  predicate PassInv(s: State) {
    && (s.pass.Visiting? && s.pass.next.Some? ==> InTask(s.tasks, s.pass.next.value) && Removing(s.em) != s.pass.next)
    && (s.pass == Cleared ==> s.em == Calm)
  }

  ghost predicate Inv(s: State) {
    LockInv(s) && NoLostWakeup(s) && SleepInv(s) && Distinct(s.tasks) && PassInv(s)
  }

  // ---------- The list ----------

  lemma InList(tasks: seq<Task>, i: nat)
    requires i < |tasks|
    ensures InTask(tasks, tasks[i].tm)
  {
  }

  /** Changing a task in place moves nothing. */
  lemma {:induction false} SamePlaces(tasks: seq<Task>, tasks': seq<Task>, tm: int)
    requires |tasks| == |tasks'| && forall i :: 0 <= i < |tasks| ==> tasks[i].tm == tasks'[i].tm
    ensures Find(tasks, tm) == Find(tasks', tm)
  {
    if tasks != [] && tasks[0].tm != tm { SamePlaces(tasks[1..], tasks'[1..], tm); }
  }

  lemma TasksStay(tasks: seq<Task>, tm: int, other: int, n: int)
    requires InTask(tasks, other)
    ensures InTask(SetActive(tasks, tm, true), other) && InTask(SetActive(tasks, tm, false), other)
    ensures InTask(SetWakeup(tasks, tm, n), other) && InTask(Insert(tasks, tm, n), other)
  {
    var i := Find(tasks, other);
    InList(SetActive(tasks, tm, true), i);
    InList(SetActive(tasks, tm, false), i);
    InList(SetWakeup(tasks, tm, n), i);
    var r := Insert(tasks, tm, n);
    InList(r, if |r| == |tasks| then i else i + 1);
  }

  lemma FindIs(tasks: seq<Task>, tm: int, i: nat)
    requires Distinct(tasks) && i < |tasks| && tasks[i].tm == tm
    ensures Find(tasks, tm) == i
  {
  }

  lemma DropIs(tasks: seq<Task>, tm: int)
    requires Distinct(tasks)
    ensures Distinct(Drop(tasks, tm)) && !InTask(Drop(tasks, tm), tm)
    ensures forall tm' :: tm' != tm ==> (InTask(Drop(tasks, tm), tm') <==> InTask(tasks, tm'))
    ensures forall t :: t in Drop(tasks, tm) ==> t in tasks
  {
    var i, r := Find(tasks, tm), Drop(tasks, tm);
    if i < |tasks| {
      assert forall j :: 0 <= j < i ==> r[j] == tasks[j];
      assert forall j :: i <= j < |r| ==> r[j] == tasks[j + 1];
      assert forall j :: i < j < |tasks| ==> r[j - 1] == tasks[j];
    }
    forall tm' | tm' != tm
      ensures InTask(r, tm') <==> InTask(tasks, tm')
    {
      var k := Find(tasks, tm');
      if k < |tasks| { assert r[if k < i then k else k - 1].tm == tm'; }
      if k' :| 0 <= k' < |r| && r[k'].tm == tm' { assert tasks[if k' < i then k' else k' + 1].tm == tm'; }
    }
  }

  // ---------- The proof, step by step ----------

  lemma StepKeepsLock(s: State, e: Event)
    requires LockInv(s) && Enabled(s, e)
    ensures LockInv(Do(s, e))
  {
    hide Find, Earliest, SetActive, SetWakeup, Insert, Drop, Next;
  }

  lemma StepKeepsSleep(s: State, e: Event)
    requires LockInv(s) && SleepInv(s) && Enabled(s, e)
    ensures SleepInv(Do(s, e))
  {
    hide Find, Earliest, SetActive, SetWakeup, Insert, Drop, Next;
  }

  lemma StepKeepsDistinct(s: State, e: Event)
    requires Distinct(s.tasks) && Enabled(s, e)
    ensures Distinct(Do(s, e).tasks)
  {
    hide Find, Earliest, Drop, Next;
    if e == FreeDesc { DropIs(s.tasks, s.em.tm); }
  }

  lemma StepKeepsPass(s: State, e: Event)
    requires PassInv(s) && Distinct(s.tasks) && LockInv(s) && Enabled(s, e)
    ensures PassInv(Do(s, e))
  {
    StepKeepsNext(s, e);
    StepKeepsRemoving(s, e);
    hide Do, Enabled, InTask, Removing;
  }

  /** What is being removed is not the place in the list. */
  lemma StepKeepsRemoving(s: State, e: Event)
    requires PassInv(s) && Enabled(s, e)
    ensures var s' := Do(s, e);
      && (s'.pass.Visiting? && s'.pass.next.Some? ==> Removing(s'.em) != s'.pass.next)
      && (s'.pass == Cleared ==> s'.em == Calm)
  {
    hide Find, Earliest, InTask, Insert, Drop, SetActive, SetWakeup, Next, Distinct, Updated, Visited, ThreadDoes;
    if e.Visit? {
      VisitOnly(s, s.pass.at, s.pass.next.value, e.calls);
    } else if e == Update {
      UpdateOnly(s, s.em.op);
    } else if e == ThreadStep {
      ThreadOnly(s);
    }
  }

  lemma VisitOnly(s: State, at: int, next: int, calls: bool)
    ensures var s' := Visited(s, at, next, calls); s'.em == s.em && s'.pass.Visiting?
  {
  }

  lemma UpdateOnly(s: State, op: Op)
    ensures var s' := Updated(s, op); s'.em == s.em && (s'.pass == s.pass || s'.pass == NoPass)
  {
  }

  lemma ThreadOnly(s: State)
    ensures var s' := ThreadDoes(s); s'.em == s.em && s'.pass == s.pass
  {
  }

  /** The place in the list, in a step that changes the list or the place. */
  lemma StepKeepsNext(s: State, e: Event)
    requires PassInv(s) && Distinct(s.tasks) && Enabled(s, e)
    ensures var s' := Do(s, e); s'.pass.Visiting? && s'.pass.next.Some? ==> InTask(s'.tasks, s'.pass.next.value)
  {
    hide Find, Earliest, InTask, Insert, Drop, SetActive, SetWakeup, Next, Visited, Distinct;
    if e.Visit? {
      VisitKeepsNext(s, s.pass.at, s.pass.next.value, e.calls);
    } else if e == StartPass {
      if s.tasks != [] { InList(s.tasks, 0); }
    } else if s.pass.Visiting? && s.pass.next.Some? {
      ListKeepsNext(s, e, s.pass.next.value);
    }
  }

  lemma ListKeepsNext(s: State, e: Event, next: int)
    requires InTask(s.tasks, next) && Distinct(s.tasks) && Enabled(s, e) && (e == FreeDesc ==> s.em.tm != next)
    requires !e.Visit? && e != TimerReset
    ensures InTask(Do(s, e).tasks, next)
  {
    hide Find, Earliest, InTask, Insert, Drop, SetActive, SetWakeup, Next, Visited, Distinct;
    match e
    case InsTime(tm, garbage) => TasksStay(s.tasks, tm, next, garbage);
    case PrimeTime(tm, wakeup) => TasksStay(s.tasks, tm, next, wakeup);
    case Update => if s.em.op != RescanOp { TasksStay(s.tasks, s.em.op.tm, next, 0); }
    case FreeDesc => DropIs(s.tasks, s.em.tm);
    case _ =>
  }

  lemma VisitKeepsNext(s: State, at: int, next: int, calls: bool)
    requires Distinct(s.tasks) && InTask(s.tasks, next)
    ensures var s' := Visited(s, at, next, calls); s'.pass.next.Some? ==> InTask(s'.tasks, s'.pass.next.value)
  {
    var i := Find(s.tasks, next);
    if i + 1 < |s.tasks| {
      InList(s.tasks, i + 1);
      TasksStay(s.tasks, next, s.tasks[i + 1].tm, 0);
    }
  }

  lemma StepKeepsCovered(s: State, e: Event)
    requires NoLostWakeup(s) && Distinct(s.tasks) && PassInv(s) && LockInv(s) && Enabled(s, e)
    ensures NoLostWakeup(Do(s, e))
  {
    if e == Update {
      UpdateCovers(s, s.em.op);
    } else if e.Visit? {
      hide Earliest, Next;
      assert NoLostWakeup(Visited(s, s.pass.at, s.pass.next.value, e.calls));
    } else if e == FreeDesc {
      DropIs(s.tasks, s.em.tm);
      hide Drop, LockInv;
      assert Do(s, e) == s.(tasks := Drop(s.tasks, s.em.tm), em := Calm);
      assert forall t :: t in s.tasks ==> Covered(s, t);
      hide Do, Enabled;
    } else if e.InsTime? || e.PrimeTime? {
      hide LockInv;
    } else {
      hide Find, SetActive, Insert, Drop, SetWakeup, Earliest, Next, Updated, Visited;
    }
  }

  lemma UpdateCovers(s: State, op: Op)
    requires NoLostWakeup(s) && Distinct(s.tasks) && PassInv(s) && s.em == Updating(op)
    ensures NoLostWakeup(Updated(s, op).(em := Unlocking(op)))
  {
  }

  lemma StepKeepsInv(s: State, e: Event)
    requires Inv(s) && Enabled(s, e)
    ensures Inv(Do(s, e))
  {
    hide Do, Enabled, NoLostWakeup, LockInv, SleepInv, PassInv;
    StepKeepsLock(s, e);
    StepKeepsSleep(s, e);
    StepKeepsDistinct(s, e);
    StepKeepsPass(s, e);
    StepKeepsCovered(s, e);
  }

  // ---------- Whole runs ----------

  /** The state after the events, if every one of them can happen when it does. */
  function Run(s: State, es: seq<Event>): (r: Option<State>)
    decreases |es|
  {
    if es == [] then Some(s)
    else if Enabled(s, es[0]) then Run(Do(s, es[0]), es[1..])
    else None
  }

  lemma {:induction false} RunKeepsInv(s: State, es: seq<Event>)
    requires Inv(s) && Run(s, es).Some?
    ensures Inv(Run(s, es).value)
    decreases |es|
  {
    hide Do, Enabled, Inv;
    if es != [] {
      StepKeepsInv(s, es[0]);
      RunKeepsInv(Do(s, es[0]), es[1..]);
    }
  }

  /** In every interleaving: no wakeup is lost, and the timer thread is never suspended with the lock
      in its hands. */
  lemma EveryRun(s: State, es: seq<Event>)
    requires Initial(s) && Run(s, es).Some?
    ensures var r := Run(s, es).value;
      && Inv(r) && NoLostWakeup(r)
      && !(r.suspended && (r.tt.Clearing? || r.tt.Releasing?))
  {
    hide Run, Do;
    RunKeepsInv(s, es);
  }

  lemma {:induction false} RunOn(s: State, es: seq<Event>, more: seq<Event>)
    requires Run(s, es).Some?
    ensures Run(s, es + more) == Run(Run(s, es).value, more)
    decreases |es|
  {
    hide Do, Enabled;
    if es == [] {
      assert es + more == more;
    } else {
      assert (es + more)[1..] == es[1..] + more;
      RunOn(Do(s, es[0]), es[1..], more);
    }
  }

  /** A call's steps after its first, without the timer thread in between. */
  const CALL: seq<Event> := [Lock, Suspend, Update, Unlock, Resume]

  lemma CallRuns(s: State, op: Op)
    requires s.em == Locking(op) && s.lock == Free && !s.suspended
    ensures Run(s, CALL)
        == Some(Updated(s, op).(em := if op.RemoveOp? then Freeing(op.tm) else Calm, tt := Resumed(s.tt)))
  {
    var s1 := s.(em := Suspending(op), lock := ByEmulator);
    var s2 := s1.(em := Updating(op), suspended := true);
    UpdatedOnly(s, s2, op);
    hide Updated, Run, Do, Enabled;
    CallSteps(s, op);
    OneStep(s, Lock, s1, CALL);
    CallSteps(s1, op);
    OneStep(s1, Suspend, s2, CALL[1..]);
    var s5 := Updated(s, op).(em := if op.RemoveOp? then Freeing(op.tm) else Calm, tt := Resumed(s.tt));
    CallRunsOn(s2, op, Updated(s2, op), s5);
  }

  lemma CallRunsOn(s: State, op: Op, u: State, r: State)
    requires s.em == Updating(op) && u == Updated(s, op) && u.em == s.em
    requires r == u.(em := if op.RemoveOp? then Freeing(op.tm) else Calm, lock := Free, suspended := false,
                     tt := Resumed(u.tt))
    ensures Run(s, CALL[2..]) == Some(r)
  {
    hide Updated, Run, Do, Enabled;
    var s3 := u.(em := Unlocking(op));
    var s4 := s3.(em := Resuming(op), lock := Free);
    CallSteps(s, op);
    OneStep(s, Update, s3, CALL[2..]);
    CallSteps(s3, op);
    OneStep(s3, Unlock, s4, CALL[3..]);
    CallSteps(s4, op);
    OneStep(s4, Resume, r, CALL[4..]);
    NoSteps(r);
    assert CALL[4..][1..] == [];
  }

  /** The steps of a call, one by one. */
  lemma CallSteps(s: State, op: Op)
    ensures s.em == Locking(op) && s.lock == Free ==>
      Enabled(s, Lock) && Do(s, Lock) == s.(em := Suspending(op), lock := ByEmulator)
    ensures s.em == Suspending(op) ==>
        Enabled(s, Suspend) && Do(s, Suspend) == s.(em := Updating(op), suspended := true)
    ensures s.em == Updating(op) ==> Enabled(s, Update) && Do(s, Update) == Updated(s, op).(em := Unlocking(op))
    ensures s.em == Unlocking(op) ==> Enabled(s, Unlock) && Do(s, Unlock) == s.(em := Resuming(op), lock := Free)
    ensures s.em == Resuming(op) ==>
      && Enabled(s, Resume)
      && Do(s, Resume) == s.(em := if op.RemoveOp? then Freeing(op.tm) else Calm, suspended := false,
                             tt := Resumed(s.tt))
  {
    hide Updated;
  }

  lemma UpdatedOnly(s: State, s': State, op: Op)
    requires s' == s.(em := s'.em, lock := s'.lock, suspended := s'.suspended)
    ensures Updated(s', op) == Updated(s, op).(em := s'.em, lock := s'.lock, suspended := s'.suspended)
    ensures var r := Updated(s, op);
      && r.em == s.em && r.lock == s.lock && r.suspended == s.suspended
      && r.tt == s.tt && r.flag == s.flag && r.now == s.now
  {
    hide Find, SetActive, Earliest;
  }

  lemma OneStep(s: State, e: Event, s': State, es: seq<Event>)
    requires Enabled(s, e) && Do(s, e) == s' && es != [] && es[0] == e
    ensures Run(s, es) == Run(s', es[1..])
  {
    hide Enabled, Do;
  }

  lemma SingleStep(s: State, e: Event, s': State)
    requires Enabled(s, e) && Do(s, e) == s'
    ensures Run(s, [e]) == Some(s')
  {
    hide Enabled, Do;
    OneStep(s, e, s', [e]);
    NoSteps(s');
  }

  lemma NoSteps(s: State)
    ensures Run(s, []) == Some(s)
  {
  }

  lemma ThreadSteps(s: State)
    requires !s.suspended
    ensures s.tt == WantLock && s.lock == Free ==>
      Enabled(s, ThreadStep) && Do(s, ThreadStep) == s.(tt := Clearing, lock := ByThread)
    ensures s.tt == Clearing ==>
      Enabled(s, ThreadStep) && Do(s, ThreadStep) == s.(tt := Releasing, wakeupTime := WAKEUP_TIME_MAX)
  {
  }

  lemma IsPrimed(s: State, tm: int, wakeup: int)
    requires InTask(s.tasks, tm)
    ensures var tasks := Updated(s.(tasks := SetWakeup(s.tasks, tm, wakeup), em := Locking(PrimeOp(tm))),
        PrimeOp(tm)).tasks;
      InTask(tasks, tm) && tasks[Find(tasks, tm)] == Task(tm, wakeup, true)
  {
    var tasks := SetWakeup(s.tasks, tm, wakeup);
    SamePlaces(s.tasks, tasks, tm);
    SamePlaces(tasks, SetActive(tasks, tm, true), tm);
  }

  /** That an interrupt follows is needed: when the timer thread has made up its mind, a task can be
      primed for a later time, and its time in `wakeup_time` is then overwritten all the same. */
  lemma WakeupIsOverwritten(s: State, tm: int, wakeup: int)
    requires Inv(s) && GuestRuns(s) && InTask(s.tasks, tm) && s.tt == WantLock && wakeup < WAKEUP_TIME_MAX
    ensures var es := [PrimeTime(tm, wakeup)] + CALL + [ThreadStep, ThreadStep];
      && Run(s, es).Some?
      && var r := Run(s, es).value;
         && r.tt == Releasing && r.wakeupTime == WAKEUP_TIME_MAX > wakeup
         && InTask(r.tasks, tm) && var t := r.tasks[Find(r.tasks, tm)]; t.active && t.wakeup == wakeup
  {
    var s1 := s.(tasks := SetWakeup(s.tasks, tm, wakeup), em := Locking(PrimeOp(tm)));
    var s2 := Updated(s1, PrimeOp(tm)).(em := Calm);
    var s3 := s2.(tt := Clearing, lock := ByThread);
    var s4 := s3.(tt := Releasing, wakeupTime := WAKEUP_TIME_MAX);
    UpdatedOnly(s1, s1, PrimeOp(tm));
    assert Enabled(s, PrimeTime(tm, wakeup)) && Do(s, PrimeTime(tm, wakeup)) == s1;
    assert !s2.suspended && s2.tt == WantLock && s2.lock == Free;
    ThreadSteps(s2);
    ThreadSteps(s3);
    hide Run, Do, Enabled, Updated;
    assert Run(s, [PrimeTime(tm, wakeup)]) == Some(s1) by {
      OneStep(s, PrimeTime(tm, wakeup), s1, [PrimeTime(tm, wakeup)]);
      NoSteps(s1);
    }
    CallRuns(s1, PrimeOp(tm));
    RunOn(s, [PrimeTime(tm, wakeup)], CALL);
    RunOn(s, [PrimeTime(tm, wakeup)] + CALL, [ThreadStep, ThreadStep]);
    assert Run(s2, [ThreadStep, ThreadStep]) == Some(s4) by {
      OneStep(s2, ThreadStep, s3, [ThreadStep, ThreadStep]);
      OneStep(s3, ThreadStep, s4, [ThreadStep]);
      NoSteps(s4);
    }
    IsPrimed(s, tm, wakeup);
  }

  // ---------- Delivery ----------

  /** A task's time has passed while the emulator thread is not in the Time Manager. */
  ghost predicate Due(s: State, t: Task) {
    Inv(s) && s.em == Calm && s.pass == NoPass && t in s.tasks && t.active && t.wakeup < s.now
  }

  /** How many more steps of the timer thread there are, at most, before the flag is set. */
  function StepsToFlag(s: State): (n: nat)
    ensures n <= 9
  {
    if s.flag then 0
    else
      match s.tt
      case Flagging => 1
      case Releasing => 2
      case Clearing => 3
      case WantLock => 4
      case Compare(sys) => if s.wakeupTime < sys then 5 else 9
      case Woken => 6
      case Sleeping(_) => 7
      case Top => 8
  }

  /** The timer thread can go on, and comes nearer. */
  lemma ThreadComesNearer(s: State, t: Task)
    requires Due(s, t) && !s.flag
    ensures Enabled(s, ThreadStep)
    ensures var s' := Do(s, ThreadStep); Due(s', t) && s'.tasks == s.tasks && StepsToFlag(s') < StepsToFlag(s)
  {
    StepKeepsInv(s, ThreadStep);
    var i :| 0 <= i < |s.tasks| && s.tasks[i] == t;
    assert Covered(s, s.tasks[i]);
  }

  /** The task's interrupt is raised within nine steps of the timer thread, none of which waits. */
  lemma {:induction false} ThreadDelivers(s: State, t: Task) returns (es: seq<Event>)
    requires Due(s, t)
    ensures |es| <= StepsToFlag(s) && forall i :: 0 <= i < |es| ==> es[i] == ThreadStep
    ensures Run(s, es).Some?
    ensures var r := Run(s, es).value; Due(r, t) && r.flag && r.tasks == s.tasks
    decreases StepsToFlag(s)
  {
    es := [];
    if !s.flag {
      ThreadComesNearer(s, t);
      hide Do, Enabled, Due, StepsToFlag;
      var more := ThreadDelivers(Do(s, ThreadStep), t);
      es := [ThreadStep] + more;
      assert es[1..] == more;
    } else {
      assert StepsToFlag(s) == 0;
    }
  }

  /** Steps of the timer thread, stray signals, and the clock. */
  predicate OutsideEmulator(e: Event) {
    e == ThreadStep || e == Signal || e.Tick?
  }

  function StepsMade(es: seq<Event>): (n: nat)
    decreases |es|
  {
    if es == [] then 0 else (if es[0] == ThreadStep then 1 else 0) + StepsMade(es[1..])
  }

  lemma StepOutside(s: State, t: Task, e: Event)
    requires Due(s, t) && OutsideEmulator(e) && Enabled(s, e)
    ensures Due(Do(s, e), t)
    ensures StepsToFlag(Do(s, e)) + (if e == ThreadStep && !s.flag then 1 else 0) <= StepsToFlag(s)
  {
    StepKeepsInv(s, e);
    if e == ThreadStep && !s.flag { ThreadComesNearer(s, t); }
    hide Inv;
  }

  /** However the steps fall: while the emulator thread is outside the Time Manager, a task that is due
      has its interrupt raised once the timer thread has made nine steps. */
  lemma {:induction false} EveryScheduleDelivers(s: State, t: Task, es: seq<Event>)
    requires Due(s, t) && Run(s, es).Some? && (forall e :: e in es ==> OutsideEmulator(e))
    ensures Due(Run(s, es).value, t)
    ensures StepsMade(es) >= StepsToFlag(s) ==> Run(s, es).value.flag
    decreases |es|
  {
    if es == [] {
      if StepsToFlag(s) == 0 { assert s.flag; }
    } else {
      StepOutside(s, t, es[0]);
      hide Do, Enabled, Due, StepsToFlag;
      EveryScheduleDelivers(Do(s, es[0]), t, es[1..]);
    }
  }

  // ---------- Nobody waits for ever ----------

  /** What happens next for the emulator thread to get out of the Time Manager. */
  function Forward(s: State): (e: Event)
    requires s.em != Calm
  {
    match s.em
    case Locking(_) => if s.lock == ByThread then ThreadStep else Lock
    case Suspending(_) => Suspend
    case Updating(_) => Update
    case Unlocking(_) => Unlock
    case Resuming(_) => Resume
    case Freeing(_) => FreeDesc
  }

  function StepsToCalm(s: State): (n: nat)
    ensures n <= 8
  {
    match s.em
    case Calm => 0
    case Locking(_) => 6 + if s.tt == Clearing then 2 else if s.tt == Releasing then 1 else 0
    case Suspending(_) => 5
    case Updating(_) => 4
    case Unlocking(_) => 3
    case Resuming(_) => 2
    case Freeing(_) => 1
  }

  /** The emulator thread can go on, or the timer thread can that has the lock: it is not suspended. */
  lemma EmulatorGoesOn(s: State)
    requires LockInv(s) && s.em != Calm
    ensures Enabled(s, Forward(s)) && StepsToCalm(Do(s, Forward(s))) < StepsToCalm(s)
  {
    hide Find, SetActive, Earliest, Drop;
  }

  /** Neither thread can keep the other waiting: a call ends within eight steps. */
  lemma {:induction false} CallEnds(s: State) returns (es: seq<Event>)
    requires Inv(s)
    ensures |es| <= StepsToCalm(s) && Run(s, es).Some? && Run(s, es).value.em == Calm
    decreases StepsToCalm(s)
  {
    es := [];
    if s.em != Calm {
      EmulatorGoesOn(s);
      StepKeepsInv(s, Forward(s));
      hide Do, Enabled, Inv, StepsToCalm, Forward;
      var more := CallEnds(Do(s, Forward(s)));
      es := [Forward(s)] + more;
      assert es[1..] == more;
    }
  }

  // ---------- Serving the interrupt ----------

  predicate Expired(t: Task, at: int) {
    t.active && t.wakeup <= at
  }

  /** The first `i` tasks of the list have been looked at: those that have expired were called. */
  ghost predicate Served(before: seq<Task>, tasks: seq<Task>, at: int, i: nat) {
    |tasks| == |before| && forall j :: 0 <= j < |before| ==>
      tasks[j] == if j < i && Expired(before[j], at) then before[j].(active := false) else before[j]
  }

  function Place(tasks: seq<Task>, i: nat): (next: Option<int>) {
    if i < |tasks| then Some(tasks[i].tm) else None
  }

  /** The interrupt calls every task that has expired, and changes no other. */
  lemma {:induction false} PassServes(s: State, before: seq<Task>, i: nat) returns (es: seq<Event>)
    requires Distinct(before) && i <= |before| && s.em == Calm && s.pass.Visiting?
    requires s.pass == Visiting(s.pass.at, Place(s.tasks, i), false) && Served(before, s.tasks, s.pass.at, i)
    ensures Run(s, es).Some?
    ensures var r := Run(s, es).value;
      && r == s.(tasks := r.tasks, pass := Visiting(s.pass.at, None, false))
      && Served(before, r.tasks, s.pass.at, |before|)
    decreases |before| - i
  {
    es := [];
    if i < |before| {
      var s1 := VisitServes(s, before, i);
      var s2 := s1.(pass := Visiting(s1.pass.at, s1.pass.next, false));
      var first := [Visit(true)] + if s1.pass.calling then [CallReturns] else [];
      assert Run(s, first) == Some(s2) by {
        NoSteps(s2);
        OneStep(s, Visit(true), s1, first);
        assert first[1..] == if s1.pass.calling then [CallReturns] else [];
        if s1.pass.calling { OneStep(s1, CallReturns, s2, first[1..]); }
      }
      hide Do, Enabled, Run, Served, Place;
      var more := PassServes(s2, before, i + 1);
      RunOn(s, first, more);
      es := first + more;
    }
  }

  lemma VisitServes(s: State, before: seq<Task>, i: nat) returns (s': State)
    requires Distinct(before) && i < |before| && s.em == Calm && s.pass.Visiting?
    requires s.pass == Visiting(s.pass.at, Place(s.tasks, i), false) && Served(before, s.tasks, s.pass.at, i)
    ensures Enabled(s, Visit(true)) && s' == Do(s, Visit(true)) && s' == s.(tasks := s'.tasks, pass := s'.pass)
    ensures s'.pass == Visiting(s.pass.at, Place(s'.tasks, i + 1), Expired(before[i], s.pass.at))
    ensures Served(before, s'.tasks, s.pass.at, i + 1)
  {
    s' := Do(s, Visit(true));
    FindIs(s.tasks, s.tasks[i].tm, i);
  }

  /** From the passing of its time to its call: a task that is due is called. The timer thread raises
      the interrupt, and the emulator thread serves it and returns to what it was doing. */
  lemma DueTaskIsCalled(s: State, t: Task) returns (es: seq<Event>)
    requires Due(s, t)
    ensures Run(s, es).Some?
    ensures var r := Run(s, es).value;
      && Inv(r) && r.em == Calm && r.pass == NoPass && r.now == s.now
      && Served(s.tasks, r.tasks, s.now, |s.tasks|) && t.(active := false) in r.tasks
  {
    var raise := ThreadDelivers(s, t);
    var s1 := Run(s, raise).value;
    ThreadKeepsTime(s, raise);
    var s2 := s1.(flag := false, pass := Visiting(s1.now, Place(s1.tasks, 0), false));
    var take := [TakeInterrupt, StartPass];
    assert Run(s1, take) == Some(s2) by {
      OneStep(s1, TakeInterrupt, s1.(flag := false, pass := Cleared), take);
      OneStep(s1.(flag := false, pass := Cleared), StartPass, s2, take[1..]);
      NoSteps(s2);
      assert take[1..][1..] == [];
    }
    var visits := PassServes(s2, s.tasks, 0);
    var s3 := Run(s2, visits).value;
    var s4 := s3.(em := Locking(RescanOp));
    assert Run(s3, [EndPass]) == Some(s4) by { SingleStep(s3, EndPass, s4); }
    hide Do, Enabled, Run, Inv;
    RunOn(s, raise, take);
    RunOn(s, raise + take, visits);
    RunOn(s, raise + take + visits, [EndPass]);
    RunKeepsInv(s, raise + take + visits + [EndPass]);
    var finish := RescanEnds(s4);
    RunOn(s, raise + take + visits + [EndPass], finish);
    es := raise + take + visits + [EndPass] + finish;
    RunKeepsInv(s, es);
  }

  lemma {:induction false} ThreadKeepsTime(s: State, es: seq<Event>)
    requires Run(s, es).Some? && forall i :: 0 <= i < |es| ==> es[i] == ThreadStep
    ensures Run(s, es).value.now == s.now
    decreases |es|
  {
    if es != [] { ThreadKeepsTime(Do(s, es[0]), es[1..]); }
  }

  predicate Rescanning(s: State) {
    (s.em.Locking? || s.em.Suspending? || s.em.Updating? || s.em.Unlocking? || s.em.Resuming?) && s.em.op == RescanOp
  }

  /** The interrupt's last part leaves the list as it is. */
  lemma {:induction false} RescanEnds(s: State) returns (es: seq<Event>)
    requires Inv(s) && Rescanning(s) && (s.pass == NoPass <==> s.em.Unlocking? || s.em.Resuming?)
    ensures Run(s, es).Some?
    ensures var r := Run(s, es).value; r.em == Calm && r.pass == NoPass && r.tasks == s.tasks && r.now == s.now
    decreases StepsToCalm(s)
  {
    var e := Forward(s);
    EmulatorGoesOn(s);
    StepKeepsInv(s, e);
    var s' := Do(s, e);
    assert s'.tasks == s.tasks && s'.now == s.now;
    if s'.em == Calm {
      es := [e];
      OneStep(s, e, s', es);
      NoSteps(s');
    } else {
      assert Rescanning(s') && (s'.pass == NoPass <==> s'.em.Unlocking? || s'.em.Resuming?);
      hide Do, Enabled, Inv, StepsToCalm, Forward, Rescanning;
      var more := RescanEnds(s');
      es := [e] + more;
      assert es[1..] == more;
    }
  }
}
