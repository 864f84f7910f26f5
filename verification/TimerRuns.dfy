/**
  The Time Manager's calls as a whole: each is a run of the two threads' machine in which the timer
  thread does not step, and the interrupt calls the tasks that have expired, in order.
 */
module TimerRuns {
  import opened Options
  import opened Bytes
  import opened TimerSteps
  import opened MacTimer

  // ---------- Calls are runs ----------

  /** The machine is in the state that the calls' worlds describe, and guest code runs. */
  predicate Mirrors(s: State, w: World) {
    s.tasks == w.tasks && s.wakeupTime == w.wakeupTime && GuestRuns(s) && s.lock == Free && !s.suspended
  }

  /** The same machine after a call. */
  function Mirrored(s: State, w: World): (s': State) {
    s.(tasks := w.tasks, wakeupTime := w.wakeupTime, tt := Resumed(s.tt))
  }

  lemma InsTimeIsStep(s: State, w: World, tm: int, trap: Word16, garbage: int)
    requires Mirrors(s, w)
    ensures var w' := AfterInsTime(w, tm, trap, garbage);
      Run(s, [InsTime(tm, garbage)]) == Some(s.(tasks := w'.tasks, wakeupTime := w'.wakeupTime))
  {
    var s' := s.(tasks := Insert(s.tasks, tm, garbage));
    OneStep(s, InsTime(tm, garbage), s', [InsTime(tm, garbage)]);
    NoSteps(s');
  }

  lemma PrimeTimeIsRun(s: State, w: World, tm: int, time: int, now: int)
    requires Mirrors(s, w) && InTask(w.tasks, tm)
    ensures var wakeup := PrimedWakeup(Record(w.mac, tm), w.tasks[Find(w.tasks, tm)].wakeup, time, now);
      Run(s, [PrimeTime(tm, wakeup)] + CALL) == Some(Mirrored(s, AfterPrimeTime(w, tm, time, now)))
  {
    hide PrimedWakeup, MacToHost, Activated;
    var wakeup := PrimedWakeup(Record(w.mac, tm), w.tasks[Find(w.tasks, tm)].wakeup, time, now);
    var e, op := PrimeTime(tm, wakeup), PrimeOp(tm);
    var s1 := s.(tasks := SetWakeup(s.tasks, tm, wakeup), em := Locking(op));
    hide SetWakeup, SetActive, Earliest;
    assert Updated(s1, op).(em := Calm, tt := Resumed(s.tt)) == Mirrored(s, AfterPrimeTime(w, tm, time, now));
    hide Updated, AfterPrimeTime, Mirrored, Find;
    OneStep(s, e, s1, [e]);
    NoSteps(s1);
    CallRuns(s1, op);
    RunOn(s, [e], CALL);
  }

  lemma RmvTimeIsRun(s: State, w: World, tm: int, now: int)
    requires Mirrors(s, w) && InTask(w.tasks, tm) && Distinct(w.tasks)
    requires s.pass.Visiting? ==> s.pass.next != Some(tm)
    ensures Run(s, [RmvTime(tm)] + CALL + [FreeDesc]) == Some(Mirrored(s, AfterRmvTime(w, tm, now)))
  {
    hide HostToMac, Deactivated, Earliest;
    var e, op := RmvTime(tm), RemoveOp(tm);
    var s1 := s.(em := Locking(op));
    DropsAlike(s.tasks, tm);
    var s2 := Updated(s1, op).(em := Freeing(tm), tt := Resumed(s.tt));
    hide SetActive;
    var s3 := s2.(tasks := Drop(s2.tasks, tm), em := Calm);
    assert s3 == Mirrored(s, AfterRmvTime(w, tm, now));
    assert Enabled(s, e) && Do(s, e) == s1 && Enabled(s2, FreeDesc) && Do(s2, FreeDesc) == s3;
    hide Updated, AfterRmvTime, Mirrored, Find, Drop, Run, Do, Enabled;
    assert Run(s, [e]) == Some(s1) by { SingleStep(s, e, s1); }
    CallRuns(s1, op);
    RunOn(s, [e], CALL);
    assert Run(s2, [FreeDesc]) == Some(s3) by { SingleStep(s2, FreeDesc, s3); }
    RunOn(s, [e] + CALL, [FreeDesc]);
  }

  lemma DropsAlike(tasks: seq<Task>, tm: int)
    ensures Drop(SetActive(tasks, tm, false), tm) == Drop(tasks, tm)
  {
    SamePlaces(tasks, SetActive(tasks, tm, false), tm);
  }

  // ---------- The interrupt is a run ----------

  /** The events of a call made by guest code. */
  function CallEvents(w: World, c: Call): (es: seq<Event>) {
    match c
    case Ins(tm, _, garbage) => [InsTime(tm, garbage)]
    case Rmv(tm, _) => if InTask(w.tasks, tm) then [RmvTime(tm)] + CALL + [FreeDesc] else []
    case Prime(tm, time, now) =>
      if InTask(w.tasks, tm) then
        [PrimeTime(tm, PrimedWakeup(Record(w.mac, tm), w.tasks[Find(w.tasks, tm)].wakeup, time, now))] + CALL
      else []
  }

  /** The list ends in these tasks. */
  ghost predicate ListEnds(tasks: seq<Task>, tail: seq<int>) {
    |tail| <= |tasks| && forall i :: 0 <= i < |tail| ==> tasks[|tasks| - |tail| + i].tm == tail[i]
  }

  /** The calls remove none of these tasks. */
  ghost predicate Spares(cs: seq<Call>, tail: seq<int>) {
    forall c :: c in cs && c.Rmv? ==> c.tm !in tail
  }

  /** The machine does what the call does, and keeps the interrupt's place. */
  lemma CallIsRun(s: State, w: World, c: Call, tail: seq<int>)
    returns (s': State)
    requires Mirrors(s, w) && Distinct(w.tasks) && ListEnds(w.tasks, tail) && Spares([c], tail)
    requires s.pass.Visiting? && s.pass.next == First(tail)
    ensures Run(s, CallEvents(w, c)) == Some(s') && Same(s, s') && Mirrors(s', AfterCall(w, c))
    ensures Distinct(AfterCall(w, c).tasks) && ListEnds(AfterCall(w, c).tasks, tail)
  {
    CallKeepsEnd(w, c, tail);
    hide Distinct, ListEnds, AfterInsTime, AfterRmvTime, AfterPrimeTime, PrimedWakeup, InTask, Run;
    NoSteps(s);
    CallUnfolds(w, c);
    match c
    case Ins(tm, trap, garbage) =>
      InsTimeIsStep(s, w, tm, trap, garbage);
      s' := s.(tasks := AfterCall(w, c).tasks, wakeupTime := AfterCall(w, c).wakeupTime);
    case Rmv(tm, now) =>
      assert c in [c];
      s' := s;
      if InTask(w.tasks, tm) {
        RmvTimeIsRun(s, w, tm, now);
        s' := Mirrored(s, AfterCall(w, c));
      }
    case Prime(tm, time, now) =>
      s' := s;
      if InTask(w.tasks, tm) {
        PrimeTimeIsRun(s, w, tm, time, now);
        s' := Mirrored(s, AfterCall(w, c));
      }
  }

  lemma CallUnfolds(w: World, c: Call)
    ensures !c.Ins? && !InTask(w.tasks, c.tm) ==> AfterCall(w, c) == w
  {
  }

  function First(tail: seq<int>): (next: Option<int>) {
    if tail == [] then None else Some(tail[0])
  }

  /** Apart from the tasks and the wakeup time, all that changes is that the timer thread may be awake. */
  predicate Same(s: State, s': State) {
    s' == s.(tasks := s'.tasks, wakeupTime := s'.wakeupTime, tt := s'.tt) && (s'.tt == s.tt || s'.tt == Resumed(s.tt))
  }

  lemma CallKeepsEnd(w: World, c: Call, tail: seq<int>)
    requires Distinct(w.tasks) && ListEnds(w.tasks, tail) && Spares([c], tail)
    ensures Distinct(AfterCall(w, c).tasks) && ListEnds(AfterCall(w, c).tasks, tail)
  {
    assert c in [c];
    hide PrimedWakeup, MacToHost, HostToMac, Earliest, Inserted, Activated, Deactivated;
    match c
    case Ins(tm, _, garbage) => InsertKeepsEnd(w.tasks, tm, garbage, tail);
    case Rmv(tm, _) =>
      DropIs(w.tasks, tm);
      DropKeepsEnd(w.tasks, tm, tail);
    case Prime(tm, _, _) =>
  }

  lemma InsertKeepsEnd(tasks: seq<Task>, tm: int, garbage: int, tail: seq<int>)
    requires Distinct(tasks) && ListEnds(tasks, tail)
    ensures Distinct(Insert(tasks, tm, garbage)) && ListEnds(Insert(tasks, tm, garbage), tail)
  {
    if !InTask(tasks, tm) {
      var t := Task(tm, garbage, false);
      assert forall i :: 0 <= i < |tasks| ==> tasks[i].tm != tm;
      assert Insert(tasks, tm, garbage) == [t] + tasks;
      hide Insert, Find;
      PrependKeepsEnd(tasks, t, tail);
    } else {
      var r := SetActive(tasks, tm, false);
      assert Insert(tasks, tm, garbage) == r;
      assert |r| == |tasks| && forall i :: 0 <= i < |r| ==> r[i].tm == tasks[i].tm;
      hide Insert, SetActive, Find;
    }
  }

  lemma PrependKeepsEnd(tasks: seq<Task>, t: Task, tail: seq<int>)
    requires Distinct(tasks) && ListEnds(tasks, tail) && forall i :: 0 <= i < |tasks| ==> tasks[i].tm != t.tm
    ensures Distinct([t] + tasks) && ListEnds([t] + tasks, tail)
  {
    var r := [t] + tasks;
    assert forall i :: 0 < i < |r| ==> r[i] == tasks[i - 1];
  }

  lemma DropKeepsEnd(tasks: seq<Task>, tm: int, tail: seq<int>)
    requires ListEnds(tasks, tail) && tm !in tail
    ensures ListEnds(Drop(tasks, tm), tail)
  {
    FoundBefore(tasks, tm, tail);
    hide ListEnds, Find;
    if InTask(tasks, tm) { CutKeepsEnd(tasks, Find(tasks, tm), tail); }
  }

  lemma FoundBefore(tasks: seq<Task>, tm: int, tail: seq<int>)
    requires ListEnds(tasks, tail) && tm !in tail
    ensures InTask(tasks, tm) <==> Find(tasks, tm) < |tasks| - |tail|
  {
    var n := |tasks| - |tail|;
    forall k | n <= k < |tasks|
      ensures tasks[k].tm != tm
    {
      assert tasks[n + (k - n)].tm == tail[k - n];
    }
  }

  lemma CutKeepsEnd(tasks: seq<Task>, i: nat, tail: seq<int>)
    requires ListEnds(tasks, tail) && i < |tasks| - |tail|
    ensures ListEnds(tasks[..i] + tasks[i + 1..], tail)
  {
    var r := tasks[..i] + tasks[i + 1..];
    assert forall j :: i <= j < |r| ==> r[j] == tasks[j + 1];
  }

  /** So it does for all the calls of a routine. */
  lemma {:induction false} CallsAreRun(s: State, w: World, cs: seq<Call>, tail: seq<int>)
    returns (es: seq<Event>, s': State)
    requires Mirrors(s, w) && Distinct(w.tasks) && ListEnds(w.tasks, tail) && Spares(cs, tail)
    requires s.pass.Visiting? && s.pass.next == First(tail)
    ensures Run(s, es) == Some(s') && Same(s, s') && Mirrors(s', AfterCalls(w, cs))
    ensures Distinct(AfterCalls(w, cs).tasks) && ListEnds(AfterCalls(w, cs).tasks, tail)
    decreases |cs|
  {
    hide AfterCall, Run, Distinct, ListEnds, CallEvents;
    if cs == [] {
      es, s' := [], s;
      NoSteps(s);
    } else {
      var n := |cs| - 1;
      var first, s1 := CallsAreRun(s, w, cs[..n], tail);
      assert cs[n] in cs;
      s' := CallIsRun(s1, AfterCalls(w, cs[..n]), cs[n], tail);
      es := first + CallEvents(AfterCalls(w, cs[..n]), cs[n]);
      RunOn(s, first, CallEvents(AfterCalls(w, cs[..n]), cs[n]));
    }
  }

  /** Where the machine is in the interrupt's walk. */
  ghost predicate Walks(s: State, w: World, at: int, rest: seq<int>) {
    && s.tasks == w.tasks && s.wakeupTime == w.wakeupTime && s.em == Calm && s.lock == Free && !s.suspended
    && s.pass == Visiting(at, First(rest), false)
    && Distinct(w.tasks) && ListEnds(w.tasks, rest)
  }

  /** No routine removes a task that the interrupt has yet to come to. */
  ghost predicate SparesRest(rest: seq<int>, routines: Routines) {
    forall i :: 0 <= i < |rest| ==> Spares(routines(rest[i]), rest[i + 1..])
  }

  /** Looking at one task, and calling it if it has expired, is a run of the machine. */
  lemma VisitIsRun(s: State, w: World, at: int, rest: seq<int>, routines: Routines)
    returns (es: seq<Event>, s': State)
    requires rest != [] && Walks(s, w, at, rest) && SparesRest(rest, routines)
    ensures var w' := AfterVisit(w, at, rest[0], routines).0;
      Run(s, es) == Some(s') && Same(s.(pass := s'.pass), s') && Walks(s', w', at, rest[1..])
  {
    hide Walks, ListEnds, Distinct, Find, SetActive, Run, AfterCalls, ToBeCalled, Do, Enabled, Deactivate;
    var tm, tail := rest[0], rest[1..];
    var w1 := Deactivate(w, tm);
    var calls := Record(w1.mac, tm).addr != 0;
    VisitStep(s, w, at, rest, calls);
    var s1 := Do(s, Visit(calls));
    SingleStep(s, Visit(calls), s1);
    if ToBeCalled(w, tm, at) && calls {
      assert Spares(routines(tm), tail);
      es, s' := RoutineIsRun(s1, w1, at, tail, routines(tm));
      RunOn(s, [Visit(calls)], es);
      es := [Visit(calls)] + es;
    } else {
      es, s' := [Visit(calls)], s1;
    }
  }

  /** The first step: the task is made inactive if it has expired. */
  lemma VisitStep(s: State, w: World, at: int, rest: seq<int>, calls: bool)
    requires rest != [] && Walks(s, w, at, rest)
    ensures Enabled(s, Visit(calls))
    ensures var due, tail := ToBeCalled(w, rest[0], at), rest[1..];
      var w1 := if due then Deactivate(w, rest[0]) else w;
      var s1 := Do(s, Visit(calls));
      && s1 == s.(tasks := w1.tasks, pass := Visiting(at, First(tail), due && calls))
      && Walks(s1.(pass := Visiting(at, First(tail), false)), w1, at, tail)
  {
    var i := |w.tasks| - |rest|;
    FindIs(w.tasks, rest[0], i);
    NextIsFirst(w.tasks, rest);
    hide Find, Next;
  }

  /** The routine's calls, and its return. */
  lemma RoutineIsRun(s: State, w: World, at: int, tail: seq<int>, cs: seq<Call>)
    returns (es: seq<Event>, s': State)
    requires Walks(s.(pass := Visiting(at, First(tail), false)), w, at, tail)
    requires s.pass == Visiting(at, First(tail), true) && Spares(cs, tail)
    ensures Run(s, es) == Some(s') && Same(s.(pass := s'.pass), s') && Walks(s', AfterCalls(w, cs), at, tail)
  {
    hide ListEnds, Distinct, Run, AfterCalls, Spares;
    var more, s2 := CallsAreRun(s, w, cs, tail);
    s' := s2.(pass := Visiting(at, First(tail), false));
    SingleStep(s2, CallReturns, s');
    RunOn(s, more, [CallReturns]);
    es := more + [CallReturns];
  }

  lemma NextIsFirst(tasks: seq<Task>, rest: seq<int>)
    requires Distinct(tasks) && rest != [] && ListEnds(tasks, rest)
    ensures Next(tasks, rest[0]) == First(rest[1..]) && ListEnds(tasks, rest[1..])
  {
    FindIs(tasks, rest[0], |tasks| - |rest|);
  }

  lemma {:induction false} PassIsRun(s: State, w: World, at: int, rest: seq<int>, routines: Routines)
    returns (es: seq<Event>, s': State)
    requires Walks(s, w, at, rest) && SparesRest(rest, routines)
    ensures Run(s, es) == Some(s') && Same(s.(pass := s'.pass), s')
    ensures Walks(s', AfterPass(w, at, rest, routines).0, at, [])
    decreases |rest|
  {
    if rest == [] {
      es, s' := [], s;
      NoSteps(s);
    } else {
      var first, s1 := VisitIsRun(s, w, at, rest, routines);
      hide Run, Walks, AfterVisit, Spares;
      assert forall i :: 0 <= i < |rest| - 1 ==> rest[1..][i] == rest[i + 1] && rest[1..][i + 1..] == rest[i + 2..];
      var more, s2 := PassIsRun(s1, AfterVisit(w, at, rest[0], routines).0, at, rest[1..], routines);
      es, s' := first + more, s2;
      RunOn(s, first, more);
    }
  }

  /** The whole interrupt, with routines that insert, prime and remove tasks, is a run of the machine: it
      takes the flag, walks over the list, and ends by finding the next wakeup time with the lock. */
  lemma InterruptIsRun(s: State, w: World, routines: Routines)
    returns (es: seq<Event>)
    requires Mirrors(s, w) && s.pass == NoPass && s.flag && Distinct(w.tasks)
    requires SparesRest(Names(w.tasks), routines)
    ensures var r := AfterInterrupt(w, s.now, routines).0;
      Run(s, es) == Some(s.(tasks := r.tasks, wakeupTime := r.wakeupTime, flag := false, tt := Resumed(s.tt)))
  {
    var names := Names(w.tasks);
    var take := [TakeInterrupt, StartPass];
    var s1 := s.(flag := false, pass := Cleared);
    var s2 := s.(flag := false, pass := Visiting(s.now, First(names), false));
    OneStep(s, TakeInterrupt, s1, take);
    OneStep(s1, StartPass, s2, take[1..]);
    NoSteps(s2);
    assert take[1..][1..] == [];
    assert Walks(s2, w, s.now, names);
    var walk, s3 := PassIsRun(s2, w, s.now, names, routines);
    hide SparesRest, AfterPass, ListEnds, Distinct, Names;
    var s4 := s3.(em := Locking(RescanOp));
    SingleStep(s3, EndPass, s4);
    CallRuns(s4, RescanOp);
    hide Run, Do, Enabled;
    RunOn(s, take, walk);
    RunOn(s, take + walk, [EndPass]);
    RunOn(s, take + walk + [EndPass], CALL);
    es := take + walk + [EndPass] + CALL;
  }

  // ---------- The tasks that the interrupt calls ----------

  function Lookup(tasks: seq<Task>, tm: int): (t: Option<Task>) {
    var i := Find(tasks, tm);
    if i < |tasks| then Some(tasks[i]) else None
  }

  /** Everything the interrupt looks at to decide about a task is the same in both. */
  predicate SameFor(w: World, w': World, tm: int) {
    Lookup(w.tasks, tm) == Lookup(w'.tasks, tm) && Record(w.mac, tm) == Record(w'.mac, tm)
  }

  /** Changing a task does not change what is found of another. */
  lemma LookupElsewhere(tasks: seq<Task>, tm: int, other: int, n: int, active: bool)
    requires tm != other
    ensures Lookup(SetActive(tasks, tm, active), other) == Lookup(tasks, other)
    ensures Lookup(SetWakeup(tasks, tm, n), other) == Lookup(tasks, other)
    ensures Lookup(Drop(tasks, tm), other) == Lookup(tasks, other)
  {
    SamePlaces(tasks, SetActive(tasks, tm, active), other);
    SamePlaces(tasks, SetWakeup(tasks, tm, n), other);
    LookupDropped(tasks, tm, other);
  }

  lemma {:induction false} LookupDropped(tasks: seq<Task>, tm: int, other: int)
    requires tm != other
    ensures Lookup(Drop(tasks, tm), other) == Lookup(tasks, other)
  {
    hide Lookup, Find;
    if tasks != [] {
      var rest := tasks[1..];
      assert tasks == [tasks[0]] + rest;
      LookupFirst(tasks[0], rest, other);
      DropFirst(tasks[0], rest, tm);
      hide Drop;
      LookupDropped(rest, tm, other);
      LookupFirst(tasks[0], Drop(rest, tm), other);
    }
  }

  lemma DropFirst(t: Task, tasks: seq<Task>, tm: int)
    ensures Drop([t] + tasks, tm) == if t.tm == tm then tasks else [t] + Drop(tasks, tm)
  {
    FindFirst(t, tasks, tm);
    var i := Find(tasks, tm);
    hide Find;
    CutFirst(t, tasks, i);
  }

  lemma FindFirst(t: Task, tasks: seq<Task>, tm: int)
    ensures Find([t] + tasks, tm) == if t.tm == tm then 0 else 1 + Find(tasks, tm)
  {
    assert ([t] + tasks)[1..] == tasks;
  }

  lemma CutFirst(t: Task, tasks: seq<Task>, i: nat)
    requires i <= |tasks|
    ensures var all := [t] + tasks;
      && all[..0] + all[1..] == tasks
      && (i < |tasks| ==> all[..i + 1] + all[i + 2..] == [t] + (tasks[..i] + tasks[i + 1..]))
  {
  }

  lemma LookupFirst(t: Task, tasks: seq<Task>, tm: int)
    ensures Lookup([t] + tasks, tm) == if t.tm == tm then Some(t) else Lookup(tasks, tm)
  {
    assert ([t] + tasks)[1..] == tasks;
  }

  /** A call is about its own task only. */
  lemma CallKeepsOthers(w: World, c: Call, other: int)
    requires c.tm != other
    ensures SameFor(AfterCall(w, c), w, other)
  {
    hide Find, Drop, SetActive, SetWakeup, Earliest, PrimedWakeup, MacToHost, HostToMac, Lookup;
    LookupElsewhere(w.tasks, c.tm, other, 0, false);
    match c
    case Ins(tm, trap, garbage) =>
      LookupFirst(Task(tm, garbage, false), w.tasks, other);
    case Rmv(tm, now) =>
    case Prime(tm, time, now) =>
      var i := Find(w.tasks, tm);
      if i < |w.tasks| {
        var wakeup := PrimedWakeup(Record(w.mac, tm), w.tasks[i].wakeup, time, now);
        LookupElsewhere(w.tasks, tm, other, wakeup, true);
        LookupElsewhere(SetWakeup(w.tasks, tm, wakeup), tm, other, 0, true);
      }
  }

  /** Routines that call the Time Manager for their own task only, as periodic tasks do. */
  ghost predicate OwnTaskOnly(routines: Routines) {
    forall tm, c :: c in routines(tm) ==> c.tm == tm
  }

  /** No other task's routine calls the Time Manager for this task. */
  ghost predicate LeavesAlone(routines: Routines, tm: int) {
    forall other, c :: other != tm && c in routines(other) ==> c.tm != tm
  }

  lemma {:induction false} CallsKeepOthers(w: World, cs: seq<Call>, other: int)
    requires forall c :: c in cs ==> c.tm != other
    ensures SameFor(AfterCalls(w, cs), w, other)
    decreases |cs|
  {
    hide AfterCall, Lookup, Record;
    if cs != [] {
      var n := |cs| - 1;
      CallsKeepOthers(w, cs[..n], other);
      CallKeepsOthers(AfterCalls(w, cs[..n]), cs[n], other);
    }
  }

  lemma VisitKeepsOthers(w: World, at: int, tm: int, routines: Routines, other: int)
    requires tm != other && LeavesAlone(routines, other)
    ensures SameFor(AfterVisit(w, at, tm, routines).0, w, other)
  {
    hide AfterCalls, Lookup, Find, SetActive;
    LookupElsewhere(w.tasks, tm, other, 0, false);
    CallsKeepOthers(Deactivate(w, tm), routines(tm), other);
  }

  /** The task has expired and has a routine. */
  predicate Calls(w: World, at: int, tm: int) {
    ToBeCalled(w, tm, at) && Record(w.mac, tm).addr != 0
  }

  /** Those of the tasks that are called, in order. */
  function Callees(w: World, at: int, rest: seq<int>): (tms: seq<int>)
    decreases |rest|
  {
    if rest == [] then []
    else (if Calls(w, at, rest[0]) then [rest[0]] else []) + Callees(w, at, rest[1..])
  }

  lemma {:induction false} SameCallees(w: World, w': World, at: int, rest: seq<int>)
    requires forall i :: 0 <= i < |rest| ==> SameFor(w', w, rest[i])
    ensures Callees(w', at, rest) == Callees(w, at, rest)
    decreases |rest|
  {
    hide Find;
    if rest != [] {
      assert SameFor(w', w, rest[0]);
      SameCallees(w, w', at, rest[1..]);
    }
  }

  /** The interrupt calls the routine of each task that had expired when it began, once, in the order of
      the list, and leaves the tasks that had not expired as they were. */
  lemma {:induction false} PassCallsExpired(w: World, at: int, rest: seq<int>, routines: Routines)
    requires OwnTaskOnly(routines) && forall i, j :: 0 <= i < j < |rest| ==> rest[i] != rest[j]
    ensures AfterPass(w, at, rest, routines).1 == Callees(w, at, rest)
    ensures forall tm :: tm !in rest || !ToBeCalled(w, tm, at) ==> SameFor(AfterPass(w, at, rest, routines).0, w, tm)
    decreases |rest|
  {
    if rest != [] {
      var tm := rest[0];
      var (w', called) := AfterVisit(w, at, tm, routines);
      assert called == if Calls(w, at, tm) then [tm] else [] by { VisitCalls(w, at, tm, routines); }
      assert !ToBeCalled(w, tm, at) ==> w' == w;
      hide AfterVisit, Lookup, Record, Find, ToBeCalled, SameFor;
      forall other | other != tm
        ensures SameFor(w', w, other) && (ToBeCalled(w', other, at) <==> ToBeCalled(w, other, at))
      {
        VisitKeepsOthers(w, at, tm, routines, other);
        SameMeansSame(w', w, at, other);
      }
      SameCallees(w, w', at, rest[1..]);
      PassCallsExpired(w', at, rest[1..], routines);
      var r := AfterPass(w', at, rest[1..], routines).0;
      forall other | other !in rest || !ToBeCalled(w, other, at)
        ensures SameFor(AfterPass(w, at, rest, routines).0, w, other)
      {
        assert SameFor(r, w', other) by {
          if other == tm { assert other !in rest[1..]; }
        }
        SameChain(r, w', w, other);
      }
    }
  }

  lemma VisitCalls(w: World, at: int, tm: int, routines: Routines)
    ensures AfterVisit(w, at, tm, routines).1 == if Calls(w, at, tm) then [tm] else []
  {
    hide AfterCalls;
  }

  lemma SameMeansSame(w: World, w': World, at: int, tm: int)
    requires SameFor(w, w', tm)
    ensures ToBeCalled(w, tm, at) <==> ToBeCalled(w', tm, at)
  {
    hide Find;
  }

  lemma SameChain(a: World, b: World, c: World, tm: int)
    requires SameFor(a, b, tm) && (b == c || SameFor(b, c, tm))
    ensures SameFor(a, c, tm)
  {
    hide Lookup, Record;
  }

  lemma InterruptCallsExpired(w: World, now: int, routines: Routines, tm: int)
    requires OwnTaskOnly(routines) && Distinct(w.tasks)
    ensures var (r, called) := AfterInterrupt(w, now, routines);
      && called == Callees(w, now, Names(w.tasks))
      && (!ToBeCalled(w, tm, now) ==> SameFor(r, w, tm))
      && forall i :: 0 <= i < |r.tasks| && r.tasks[i].active ==> r.tasks[i].wakeup >= r.wakeupTime
  {
    hide AfterPass, SameFor, ToBeCalled;
    PassCallsExpired(w, now, Names(w.tasks), routines);
    var r := AfterPass(w, now, Names(w.tasks), routines).0;
    hide Lookup, Record;
    assert !ToBeCalled(w, tm, now) ==> SameFor(r.(wakeupTime := Earliest(r.tasks, WAKEUP_TIME_MAX)), w, tm) by {
      SameTasks(r, Earliest(r.tasks, WAKEUP_TIME_MAX), w, tm);
    }
  }

  lemma SameTasks(r: World, n: int, w: World, tm: int)
    ensures SameFor(r.(wakeupTime := n), w, tm) <==> SameFor(r, w, tm)
  {
  }
}
