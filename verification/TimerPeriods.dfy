/**
  Periodic tasks: a task that is inserted, primed, and primes itself again each time the timer interrupt
  calls it, while other tasks come and go.
 */
module TimerPeriods {
  import opened Options
  import opened Bytes
  import opened TimerSteps
  import opened MacTimer
  import opened TimerRuns

  // ---------- What happens to a task ----------

  /** Guest code makes a call, or there is a timer interrupt; `primed` is when the task under
      consideration primes itself in it, should it be called. */
  datatype Moment =
    | Guest(c: Call)
    | Interrupt(at: int, primed: int, routines: Routines)

  /** The task is inserted and primed. */
  function Started(w: World, tm: int, trap: Word16, garbage: int, time: int, now: int): (r: World) {
    AfterPrimeTime(AfterInsTime(w, tm, trap, garbage), tm, time, now)
  }

  /** All that happens, and at what times the task has primed itself in the interrupts that called it. */
  function AfterMoments(w: World, ms: seq<Moment>, tm: int): (r: (World, seq<int>))
    decreases |ms|
  {
    if ms == [] then (w, [])
    else
      var (w', calls) := AfterMoments(w, ms[..|ms| - 1], tm);
      match ms[|ms| - 1]
      case Guest(c) => (AfterCall(w', c), calls)
      case Interrupt(at, primed, routines) =>
        var (r, called) := AfterInterrupt(w', at, routines);
        (r, if tm in called then calls + [primed] else calls)
  }

  /** The routine primes its task once, and makes no other call about it. */
  ghost predicate PrimesItself(cs: seq<Call>, tm: int, time: int, now: int) {
    exists i :: 0 <= i < |cs| && cs[i] == Prime(tm, time, now) && forall j :: 0 <= j < |cs| && j != i ==> cs[j].tm != tm
  }

  /** Only the task's own routine calls the Time Manager for it, and what that does is to prime it. */
  ghost predicate LeavesToItself(m: Moment, tm: int, time: int) {
    match m
    case Guest(c) => c.tm != tm
    case Interrupt(_, primed, routines) =>
      LeavesAlone(routines, tm) && PrimesItself(routines(tm), tm, time, primed)
  }

  // ---------- Priming for the first time ----------

  /** A task that has not been scheduled before wakes up when the delay is over that it is primed with, from
      the moment on at which it is primed, whatever its new descriptor happens to contain. So does one that
      is not extended, always. */
  lemma FirstPriming(w: World, tm: int, trap: Word16, garbage: int, time: int, now: int)
    requires trap / 0x400 % 2 == 0 || Record(w.mac, tm).wakeUp == 0
    ensures var r := Started(w, tm, trap, garbage, time, now);
      && Lookup(r.tasks, tm) == Some(Task(tm, now + MacToHost(time), true))
      && (IsExtended(Record(r.mac, tm)) <==> trap / 0x400 % 2 == 1)
      && (trap / 0x400 % 2 == 1 ==> Record(r.mac, tm).wakeUp != 0)
      && Record(r.mac, tm).addr == Record(w.mac, tm).addr
  {
    hide MacToHost, Earliest, Find, Insert;
    var w1 := AfterInsTime(w, tm, trap, garbage);
    InsertedKind(Record(w.mac, tm), trap);
    ActivatedKind(Record(w1.mac, tm));
    InsertedFound(w.tasks, tm, garbage);
    Primed(w1, tm, time, now);
  }

  lemma InsertedFound(tasks: seq<Task>, tm: int, garbage: int)
    ensures InTask(Insert(tasks, tm, garbage), tm)
  {
    var r := Insert(tasks, tm, garbage);
    if Find(tasks, tm) < |tasks| { InList(r, Find(tasks, tm)); } else { InList(r, 0); }
  }

  /** What priming does to the task itself. */
  lemma Primed(w: World, tm: int, time: int, now: int)
    requires InTask(w.tasks, tm)
    ensures var r, t := AfterPrimeTime(w, tm, time, now), Record(w.mac, tm);
      && Lookup(r.tasks, tm)
         == Some(Task(tm, PrimedWakeup(t, Lookup(w.tasks, tm).value.wakeup, time, now), true))
      && Record(r.mac, tm) == Activated(t)
  {
    hide PrimedWakeup, Activated, Earliest;
    var i := Find(w.tasks, tm);
    var wakeup := PrimedWakeup(Record(w.mac, tm), w.tasks[i].wakeup, time, now);
    var tasks := SetWakeup(w.tasks, tm, wakeup);
    SamePlaces(w.tasks, tasks, tm);
    SamePlaces(tasks, SetActive(tasks, tm, true), tm);
    hide Find;
  }

  // ---------- The task in an interrupt ----------

  /** The task is scheduled for `wakeup`, and can be called. */
  predicate Scheduled(w: World, tm: int, wakeup: int, extended: bool) {
    var t := Record(w.mac, tm);
    && Lookup(w.tasks, tm) == Some(Task(tm, wakeup, true))
    && IsExtended(t) == extended && (extended ==> t.wakeUp != 0) && t.addr != 0
  }

  lemma SameScheduled(w: World, w': World, tm: int, wakeup: int, extended: bool)
    requires SameFor(w', w, tm)
    ensures Scheduled(w', tm, wakeup, extended) <==> Scheduled(w, tm, wakeup, extended)
  {
    hide Lookup, Record;
  }

  /** When the task is scheduled for after it has primed itself. */
  function NextWakeup(wakeup: int, extended: bool, time: int, now: int): (w: int) {
    (if extended then wakeup else now) + MacToHost(time)
  }

  /** The task has been called, and can be primed. */
  predicate Stopped(w: World, tm: int, wakeup: int, extended: bool) {
    var t := Record(w.mac, tm);
    && Lookup(w.tasks, tm) == Some(Task(tm, wakeup, false))
    && IsExtended(t) == extended && (extended ==> t.wakeUp != 0) && t.addr != 0
  }

  lemma PrimeSchedules(w: World, tm: int, wakeup: int, extended: bool, time: int, now: int)
    requires Stopped(w, tm, wakeup, extended) && time != 0
    ensures Scheduled(AfterPrimeTime(w, tm, time, now), tm, NextWakeup(wakeup, extended, time, now), extended)
  {
    hide Lookup, Record, Find, MacToHost, AfterPrimeTime;
    Found(w.tasks, tm);
    Primed(w, tm, time, now);
    ActivatedKind(Record(w.mac, tm));
  }

  lemma CallsPrime(w: World, cs: seq<Call>, tm: int, wakeup: int, extended: bool, time: int, now: int)
    requires Stopped(w, tm, wakeup, extended) && time != 0 && PrimesItself(cs, tm, time, now)
    ensures Scheduled(AfterCalls(w, cs), tm, NextWakeup(wakeup, extended, time, now), extended)
  {
    var i :| 0 <= i < |cs| && cs[i] == Prime(tm, time, now) && forall j :: 0 <= j < |cs| && j != i ==> cs[j].tm != tm;
    hide AfterCalls, Lookup, Record, Find, NextWakeup, AfterPrimeTime, PrimesItself, Scheduled;
    var before, after := cs[..i], cs[i + 1..];
    var w1, w2 := AfterCalls(w, before), AfterCalls(w, before + [cs[i]]);
    CallsKeepOthers(w, before, tm);
    CallsJoin(w, before, [cs[i]]);
    OneCall(w1, cs[i]);
    PrimeSchedules(w1, tm, wakeup, extended, time, now);
    assert cs == before + [cs[i]] + after;
    CallsJoin(w, before + [cs[i]], after);
    CallsKeepOthers(w2, after, tm);
    SameScheduled(w2, AfterCalls(w, cs), tm, NextWakeup(wakeup, extended, time, now), extended);
  }

  lemma Found(tasks: seq<Task>, tm: int)
    ensures Lookup(tasks, tm).Some? <==> InTask(tasks, tm)
  {
  }

  lemma OneCall(w: World, c: Call)
    ensures AfterCalls(w, [c]) == AfterCall(w, c)
  {
    hide AfterCall;
    assert [c][..0] == [];
  }

  lemma {:induction false} CallsJoin(w: World, cs: seq<Call>, more: seq<Call>)
    ensures AfterCalls(w, cs + more) == AfterCalls(AfterCalls(w, cs), more)
    decreases |more|
  {
    hide AfterCall;
    if more == [] {
      assert cs + more == cs;
    } else {
      var n := |more| - 1;
      assert (cs + more)[..|cs + more| - 1] == cs + more[..n];
      CallsJoin(w, cs, more[..n]);
    }
  }

  /** The interrupt comes to the task. */
  lemma VisitPrimes(w: World, at: int, tm: int, wakeup: int, extended: bool, time: int, now: int, routines: Routines)
    requires Scheduled(w, tm, wakeup, extended) && time != 0 && PrimesItself(routines(tm), tm, time, now)
    ensures var (r, called) := AfterVisit(w, at, tm, routines);
      && Scheduled(r, tm, if wakeup <= at then NextWakeup(wakeup, extended, time, now) else wakeup, extended)
      && (tm in called <==> wakeup <= at)
  {
    hide AfterCalls, PrimesItself, MacToHost;
    if wakeup <= at {
      var w' := Deactivate(w, tm);
      ActivatedKind(Record(w.mac, tm));
      SamePlaces(w.tasks, w'.tasks, tm);
      DeactivatedKind(Record(w.mac, tm));
      hide Find;
      CallsPrime(w', routines(tm), tm, wakeup, extended, time, now);
    }
  }

  lemma DeactivatedKind(t: TMTask)
    ensures IsExtended(Deactivated(t)) <==> IsExtended(t)
  {
    var q := t.qType;
    assert q / 0x4000 % 2 == (q % 0x8000) / 0x4000;
  }

  lemma {:induction false} PassPrimes(w: World, at: int, rest: seq<int>, tm: int, wakeup: int, extended: bool,
                                      time: int, now: int, routines: Routines)
    requires Scheduled(w, tm, wakeup, extended) && time != 0
    requires LeavesAlone(routines, tm) && PrimesItself(routines(tm), tm, time, now)
    requires forall i, j :: 0 <= i < j < |rest| ==> rest[i] != rest[j]
    ensures var (r, called) := AfterPass(w, at, rest, routines);
      var calls := tm in rest && wakeup <= at;
      && Scheduled(r, tm, if calls then NextWakeup(wakeup, extended, time, now) else wakeup, extended)
      && (tm in called <==> calls)
    decreases |rest|
  {
    hide Scheduled, PrimesItself, NextWakeup, AfterVisit;
    if rest != [] {
      var (w', called) := AfterVisit(w, at, rest[0], routines);
      if rest[0] == tm {
        VisitPrimes(w, at, tm, wakeup, extended, time, now, routines);
        assert tm !in rest[1..];
        PassAvoids(w', at, rest[1..], tm, routines);
        SameScheduled(w', AfterPass(w', at, rest[1..], routines).0, tm,
                      if wakeup <= at then NextWakeup(wakeup, extended, time, now) else wakeup, extended);
      } else {
        VisitKeepsOthers(w, at, rest[0], routines, tm);
        VisitCalls(w, at, rest[0], routines);
        SameScheduled(w, w', tm, wakeup, extended);
        PassPrimes(w', at, rest[1..], tm, wakeup, extended, time, now, routines);
        assert tm in rest <==> tm in rest[1..];
      }
    }
  }

  /** An interrupt that does not come to the task leaves it as it is. */
  lemma {:induction false} PassAvoids(w: World, at: int, rest: seq<int>, tm: int, routines: Routines)
    requires LeavesAlone(routines, tm) && tm !in rest
    ensures var (r, called) := AfterPass(w, at, rest, routines); SameFor(r, w, tm) && tm !in called
    decreases |rest|
  {
    hide AfterVisit, Lookup, Record;
    if rest != [] {
      var w' := AfterVisit(w, at, rest[0], routines).0;
      VisitKeepsOthers(w, at, rest[0], routines, tm);
      VisitCalls(w, at, rest[0], routines);
      PassAvoids(w', at, rest[1..], tm, routines);
    }
  }

  lemma InterruptPrimes(w: World, at: int, tm: int, wakeup: int, extended: bool, time: int, now: int,
                        routines: Routines)
    requires Distinct(w.tasks) && Scheduled(w, tm, wakeup, extended) && time != 0
    requires LeavesAlone(routines, tm) && PrimesItself(routines(tm), tm, time, now)
    ensures var (r, called) := AfterInterrupt(w, at, routines);
      && Scheduled(r, tm, if wakeup <= at then NextWakeup(wakeup, extended, time, now) else wakeup, extended)
      && (tm in called <==> wakeup <= at)
  {
    var names := Names(w.tasks);
    var i := Find(w.tasks, tm);
    assert names[i] == tm;
    hide AfterPass, PrimesItself, Names, Find, NextWakeup;
    PassPrimes(w, at, names, tm, wakeup, extended, time, now, routines);
  }

  // ---------- The list stays one ----------

  lemma CallKeepsDistinct(w: World, c: Call)
    requires Distinct(w.tasks)
    ensures Distinct(AfterCall(w, c).tasks)
  {
    CallKeepsEnd(w, c, []);
  }

  lemma {:induction false} CallsKeepDistinct(w: World, cs: seq<Call>)
    requires Distinct(w.tasks)
    ensures Distinct(AfterCalls(w, cs).tasks)
    decreases |cs|
  {
    hide AfterCall, Distinct;
    if cs != [] {
      CallsKeepDistinct(w, cs[..|cs| - 1]);
      CallKeepsDistinct(AfterCalls(w, cs[..|cs| - 1]), cs[|cs| - 1]);
    }
  }

  lemma {:induction false} PassKeepsDistinct(w: World, at: int, rest: seq<int>, routines: Routines)
    requires Distinct(w.tasks)
    ensures Distinct(AfterPass(w, at, rest, routines).0.tasks)
    decreases |rest|
  {
    if rest != [] {
      var w' := Deactivate(w, rest[0]);
      assert Distinct(w'.tasks);
      hide AfterCalls, Distinct, Deactivate, ToBeCalled;
      CallsKeepDistinct(w', routines(rest[0]));
      PassKeepsDistinct(AfterVisit(w, at, rest[0], routines).0, at, rest[1..], routines);
    }
  }

  // ---------- Every run ----------

  /** How many of the interrupts are due, if the first time is `first` and the others follow in steps
      of `period`. */
  function DueCalls(first: int, period: int, ms: seq<Moment>): (k: nat)
    decreases |ms|
  {
    if ms == [] then 0
    else
      var k := DueCalls(first, period, ms[..|ms| - 1]);
      var m := ms[|ms| - 1];
      if m.Interrupt? && first + k * period <= m.at then k + 1 else k
  }

  /** When the task is scheduled for that was primed at `now`, for `delay`, and has since primed itself at
      the times `calls`. */
  function WakeupAfter(extended: bool, first: int, period: int, calls: seq<int>): (w: int) {
    if extended then first + |calls| * period
    else if calls == [] then first
    else calls[|calls| - 1] + period
  }

  /**
    A periodic task, from its insertion on. An extended task does not drift, however late it is called and
    however long its routine takes to prime it: its wakeup times are whole periods apart, and it is called
    in exactly those interrupts that find the next of them past. The wakeup time of another task always is
    one period after it last primed itself.
   */
  lemma NoDrift(w: World, tm: int, trap: Word16, garbage: int, delay: int, now: int, time: int, ms: seq<Moment>)
    requires Distinct(w.tasks) && Record(w.mac, tm).addr != 0
    requires trap / 0x400 % 2 == 0 || Record(w.mac, tm).wakeUp == 0
    requires time != 0 && forall i :: 0 <= i < |ms| ==> LeavesToItself(ms[i], tm, time)
    ensures var (r, calls) := AfterMoments(Started(w, tm, trap, garbage, delay, now), ms, tm);
      var extended, first, period := trap / 0x400 % 2 == 1, now + MacToHost(delay), MacToHost(time);
      && Lookup(r.tasks, tm) == Some(Task(tm, WakeupAfter(extended, first, period, calls), true))
      && (extended ==> |calls| == DueCalls(first, period, ms))
  {
    hide AfterMoments, Started, Lookup, Record, WakeupAfter, DueCalls, LeavesToItself, Distinct, MacToHost;
    RunsScheduled(w, tm, trap, garbage, delay, now, time, ms);
  }

  lemma {:induction false} RunsScheduled(w: World, tm: int, trap: Word16, garbage: int, delay: int, now: int, time: int,
                                         ms: seq<Moment>)
    requires Distinct(w.tasks) && Record(w.mac, tm).addr != 0
    requires trap / 0x400 % 2 == 0 || Record(w.mac, tm).wakeUp == 0
    requires time != 0 && forall i :: 0 <= i < |ms| ==> LeavesToItself(ms[i], tm, time)
    ensures var (r, calls) := AfterMoments(Started(w, tm, trap, garbage, delay, now), ms, tm);
      var extended, first, period := trap / 0x400 % 2 == 1, now + MacToHost(delay), MacToHost(time);
      && Distinct(r.tasks) && Scheduled(r, tm, WakeupAfter(extended, first, period, calls), extended)
      && (extended ==> |calls| == DueCalls(first, period, ms))
    decreases |ms|
  {
    hide AfterCall, AfterInterrupt, Distinct, LeavesToItself, Started, Scheduled, MacToHost;
    if ms == [] {
      StartIsScheduled(w, tm, trap, garbage, delay, now);
    } else {
      var n := |ms| - 1;
      RunsScheduled(w, tm, trap, garbage, delay, now, time, ms[..n]);
      var (r, calls) := AfterMoments(Started(w, tm, trap, garbage, delay, now), ms[..n], tm);
      var extended, first, period := trap / 0x400 % 2 == 1, now + MacToHost(delay), MacToHost(time);
      assert LeavesToItself(ms[n], tm, time);
      MomentScheduled(r, tm, extended, first, time, calls, ms[n]);
    }
  }

  lemma StartIsScheduled(w: World, tm: int, trap: Word16, garbage: int, delay: int, now: int)
    requires Distinct(w.tasks) && Record(w.mac, tm).addr != 0
    requires trap / 0x400 % 2 == 0 || Record(w.mac, tm).wakeUp == 0
    ensures var r := Started(w, tm, trap, garbage, delay, now);
      Distinct(r.tasks) && Scheduled(r, tm, now + MacToHost(delay), trap / 0x400 % 2 == 1)
  {
    hide AfterInsTime, AfterPrimeTime, Distinct, Lookup, Record, MacToHost;
    FirstPriming(w, tm, trap, garbage, delay, now);
    CallKeepsDistinct(w, Ins(tm, trap, garbage));
    CallKeepsDistinct(AfterInsTime(w, tm, trap, garbage), Prime(tm, delay, now));
  }

  /** One more moment. */
  lemma MomentScheduled(w: World, tm: int, extended: bool, first: int, time: int, calls: seq<int>, m: Moment)
    requires Distinct(w.tasks) && time != 0 && LeavesToItself(m, tm, time)
    requires Scheduled(w, tm, WakeupAfter(extended, first, MacToHost(time), calls), extended)
    ensures m.Guest? ==>
      var r := AfterCall(w, m.c);
      Distinct(r.tasks) && Scheduled(r, tm, WakeupAfter(extended, first, MacToHost(time), calls), extended)
    ensures m.Interrupt? ==>
      var (r, called) := AfterInterrupt(w, m.at, m.routines);
      var calls' := if tm in called then calls + [m.primed] else calls;
      && Distinct(r.tasks) && Scheduled(r, tm, WakeupAfter(extended, first, MacToHost(time), calls'), extended)
      && (tm in called <==> WakeupAfter(extended, first, MacToHost(time), calls) <= m.at)
  {
    hide AfterCall, Distinct, PrimesItself, Scheduled, MacToHost, AfterPass;
    match m
    case Guest(c) =>
      CallKeepsOthers(w, c, tm);
      SameScheduled(w, AfterCall(w, c), tm, WakeupAfter(extended, first, MacToHost(time), calls), extended);
      CallKeepsDistinct(w, c);
    case Interrupt(at, primed, routines) =>
      var wakeup := WakeupAfter(extended, first, MacToHost(time), calls);
      InterruptPrimes(w, at, tm, wakeup, extended, time, primed, routines);
      PassKeepsDistinct(w, at, Names(w.tasks), routines);
      assert (|calls| + 1) * MacToHost(time) == |calls| * MacToHost(time) + MacToHost(time);
  }
}
