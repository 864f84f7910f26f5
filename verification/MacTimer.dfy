/**
  Time Manager arithmetic on values: a task's record in Mac memory, delays and remaining times, and
  what the calls of `TimeManager` do to the list of tasks.

  Host times are whole nanoseconds.
 */
module MacTimer {
  import opened Bytes
  import opened TimerSteps

  // ---------- Time values ----------

  /** A Mac delay as a host time: positive numbers are milliseconds, negative ones microseconds. */
  function MacToHost(time: int): (delay: int)
    ensures delay >= 0
  {
    if time > 0 then time / 1000 * 1_000_000_000 + time % 1000 * 1_000_000
    else -time / 1_000_000 * 1_000_000_000 + -time % 1_000_000 * 1000
  }

  /** A remaining time as a Mac time: negative microseconds as long as these fit 32 bits. */
  function HostToMac(time: int): (r: int)
    ensures -0x8000_0000 <= r < 0x8000_0000
  {
    if time < 0 then 0
    else
      var t := time / 1_000_000_000 * 1_000_000 + time % 1_000_000_000 / 1000;
      I32(if t > 0x7fff_ffff then t / 1000 else -t)
  }

  lemma MacToHostIs(time: int)
    ensures MacToHost(time) == if time > 0 then time * 1_000_000 else -time * 1000
  {
  }

  /** The remaining time that a task's record gets says how much time remains, to the microsecond, or
      the millisecond where that does not fit. */
  lemma RemainingTime(time: nat)
    requires time < 0x8000_0000 * 1_000_000
    ensures var back := MacToHost(HostToMac(time));
      back <= time < back + if time < 0x8000_0000 * 1000 then 1000 else 1_000_000
  {
    var t := time / 1000;
    assert time / 1_000_000_000 * 1_000_000 + time % 1_000_000_000 / 1000 == t by { WholeMicroseconds(time); }
    MacToHostIs(HostToMac(time));
    assert t / 1000 < 0x8000_0000;
  }

  /** A task that was overdue when it was removed has nothing left. */
  lemma OverdueTime(time: int)
    requires time < 0
    ensures MacToHost(HostToMac(time)) == 0
  {
  }

  lemma WholeMicroseconds(time: nat)
    ensures time / 1_000_000_000 * 1_000_000 + time % 1_000_000_000 / 1000 == time / 1000
  {
    var s, r := time / 1_000_000_000, time % 1_000_000_000;
    assert time == (s * 1_000_000 + r / 1000) * 1000 + r % 1000;
  }

  /** The upper half of a saved count, which is what `PrimeTime` reads to continue a delay. */
  function HalfSaved(count: int): (n: Word16) {
    U32(count) / 0x1_0000
  }

  /** As a delay the upper half is the whole only if nothing remained, or by chance for one other value. */
  lemma HalfIsWhole(count: int)
    requires -0x8000_0000 <= count < 0x8000_0000
    ensures MacToHost(HalfSaved(count)) == MacToHost(count) <==> count == 0 || count == -64_551_000
  {
    var high := HalfSaved(count);
    MacToHostIs(high);
    MacToHostIs(count);
    Halves(count, high);
    hide MacToHost, HalfSaved;
    if high > 0 && count < 0 { HalvesMeet(-count, high); }
  }

  lemma Halves(count: int, high: int)
    requires -0x8000_0000 <= count < 0x8000_0000 && high == HalfSaved(count)
    ensures count >= 0 ==> high * 0x1_0000 <= count
    ensures count < 0 ==> 0 < high && 0 <= 0x1_0000_0000 + count - high * 0x1_0000 < 0x1_0000
  {
  }

  lemma HalvesMeet(m: int, high: int)
    requires 0 <= 0x1_0000_0000 - m - high * 0x1_0000 < 0x1_0000
    ensures m == 1000 * high <==> m == 64_551_000
  {
  }

  // ---------- Records ----------

  /** A TMTask in Mac memory: its flags, the routine to call, its count, and the time mark. */
  datatype TMTask = TMTask(qType: Word16, addr: Word32, count: int, wakeUp: Word32)

  type Mac = map<int, TMTask>

  function Record(mac: Mac, tm: int): (t: TMTask) {
    if tm in mac then mac[tm] else TMTask(0, 0, 0, 0)
  }

  predicate IsActive(mac: Mac, tm: int) {
    Record(mac, tm).qType >= 0x8000
  }

  predicate IsExtended(t: TMTask) {
    t.qType / 0x4000 % 2 == 1
  }

  function Inserted(t: TMTask, trap: Word16): (r: TMTask) {
    t.(qType := t.qType % 0x2000 + trap / 0x200 % 4 * 0x2000)
  }

  function Activated(t: TMTask): (r: TMTask) {
    t.(qType := t.qType % 0x8000 + 0x8000, wakeUp := if IsExtended(t) then 0x1234_5678 else t.wakeUp)
  }

  function Deactivated(t: TMTask): (r: TMTask) {
    t.(qType := t.qType % 0x8000)
  }

  /** Bit 10 of the trap word, set in InsXTime, is what makes a task extended; inserting never makes
      it active. */
  lemma InsertedKind(t: TMTask, trap: Word16)
    ensures IsExtended(Inserted(t, trap)) <==> trap / 0x400 % 2 == 1
    ensures Inserted(t, trap).qType < 0x8000
  {
    var k := trap / 0x200 % 4;
    assert Inserted(t, trap).qType / 0x4000 == k / 2;
    assert trap / 0x400 == trap / 0x200 / 2;
  }

  /** When a primed task is to wake up; `last` is when it was last to. */
  function PrimedWakeup(t: TMTask, last: int, time: int, now: int): (w: int) {
    if IsExtended(t) && t.wakeUp != 0 then
      last + MacToHost(if time == 0 then HalfSaved(t.count) else time)
    else now + MacToHost(time)
  }

  lemma ActivatedKind(t: TMTask)
    ensures IsExtended(Activated(t)) <==> IsExtended(t)
    ensures Activated(t).qType >= 0x8000 && Deactivated(t).qType < 0x8000
  {
    var q := t.qType;
    assert q / 0x4000 % 2 == (q % 0x8000) / 0x4000;
    assert (q % 0x8000 + 0x8000) / 0x4000 == 2 + (q % 0x8000) / 0x4000;
  }

  // ---------- Calls ----------

  /** All that the Time Manager's calls change. */
  datatype World = World(tasks: seq<Task>, mac: Mac, wakeupTime: int)

  function AfterInsTime(w: World, tm: int, trap: Word16, garbage: int): (r: World) {
    w.(tasks := Insert(w.tasks, tm, garbage), mac := w.mac[tm := Inserted(Record(w.mac, tm), trap)])
  }

  function AfterRmvTime(w: World, tm: int, now: int): (r: World) {
    var i := Find(w.tasks, tm);
    if i == |w.tasks| then w
    else
      var t, active := Record(w.mac, tm), w.tasks[i].active;
      World(
        Drop(w.tasks, tm),
        w.mac[tm := Deactivated(t).(count := if active then HostToMac(w.tasks[i].wakeup - now) else 0)],
        if active then Earliest(SetActive(w.tasks, tm, false), WAKEUP_TIME_MAX) else w.wakeupTime)
  }

  function AfterPrimeTime(w: World, tm: int, time: int, now: int): (r: World) {
    var i := Find(w.tasks, tm);
    if i == |w.tasks| then w
    else
      var t := Record(w.mac, tm);
      var tasks := SetActive(SetWakeup(w.tasks, tm, PrimedWakeup(t, w.tasks[i].wakeup, time, now)), tm, true);
      World(tasks, w.mac[tm := Activated(t)], Earliest(tasks, WAKEUP_TIME_MAX))
  }

  // ---------- Continuing a delay ----------

  /** A task that was primed before is removed, inserted again as an extended task, and primed with 0. */
  function Continued(w: World, tm: int, trap: Word16, removed: int, garbage: int, later: int): (r: World) {
    AfterPrimeTime(AfterInsTime(AfterRmvTime(w, tm, removed), tm, trap, garbage), tm, 0, later)
  }

  /** The time that remained when the task was removed, as its record has it. */
  function SavedCount(w: World, tm: int, removed: int): (count: int)
    requires InTask(w.tasks, tm)
  {
    var t := w.tasks[Find(w.tasks, tm)];
    if t.active then HostToMac(t.wakeup - removed) else 0
  }

  ghost predicate CanContinue(w: World, tm: int, trap: Word16) {
    Distinct(w.tasks) && InTask(w.tasks, tm) && Record(w.mac, tm).wakeUp != 0 && trap / 0x400 % 2 == 1
  }

  /** Such a task is to go on for the time that remained when it was removed. What it goes on from is
      whatever its new descriptor happens to contain, and for how long is the upper half of what was
      saved; so it wakes up when it should if and only if these two happen to make up for each other. */
  lemma ContinuedDelay(w: World, tm: int, trap: Word16, removed: int, garbage: int, later: int)
    requires CanContinue(w, tm, trap)
    ensures var r, count := Continued(w, tm, trap, removed, garbage, later), SavedCount(w, tm, removed);
      && r.tasks != [] && r.tasks[0] == Task(tm, garbage + MacToHost(HalfSaved(count)), true)
      && (r.tasks[0].wakeup == later + MacToHost(count) <==>
            garbage + MacToHost(HalfSaved(count)) == later + MacToHost(count))
  {
    hide MacToHost, HostToMac, HalfSaved, Earliest;
    var w1 := AfterRmvTime(w, tm, removed);
    var w2 := AfterInsTime(w1, tm, trap, garbage);
    DropIs(w.tasks, tm);
    InsertedKind(Record(w1.mac, tm), trap);
    assert Record(w1.mac, tm).count == SavedCount(w, tm, removed);
    hide Drop, AfterRmvTime, SavedCount;
    assert w2.tasks == [Task(tm, garbage, false)] + w1.tasks;
    assert Find(w2.tasks, tm) == 0;
  }

  /** So no moment but one is the right one to prime the task at: it wakes up at the same time whenever
      it is primed. */
  lemma ContinuedAtOneTime(w: World, tm: int, trap: Word16, removed: int, garbage: int, later: int, later': int)
    requires CanContinue(w, tm, trap) && later != later'
    ensures var count := SavedCount(w, tm, removed);
      var r, r' := Continued(w, tm, trap, removed, garbage, later), Continued(w, tm, trap, removed, garbage, later');
      && r.tasks != [] && r'.tasks != [] && r.tasks[0] == r'.tasks[0]
      && !(r.tasks[0].wakeup == later + MacToHost(count) && r'.tasks[0].wakeup == later' + MacToHost(count))
  {
    hide MacToHost, HalfSaved, Continued, SavedCount;
    ContinuedDelay(w, tm, trap, removed, garbage, later);
    ContinuedDelay(w, tm, trap, removed, garbage, later');
  }

  /** A task with half a second left, whose new descriptor happens to hold its last time: one that is primed
      a second after it was removed wakes up after more than a minute. */
  lemma ContinuedTooLong(mac: Mac, trap: Word16)
    requires trap / 0x400 % 2 == 1 && Record(mac, 0x1000).wakeUp != 0
    ensures var w := World([Task(0x1000, 1_500_000_000, true)], mac, 1_500_000_000);
      var r := Continued(w, 0x1000, trap, 1_000_000_000, 1_500_000_000, 2_000_000_000);
      && SavedCount(w, 0x1000, 1_000_000_000) == -500_000
      && r.tasks != [] && r.tasks[0].wakeup == 67_028_000_000 != 2_000_000_000 + MacToHost(-500_000)
  {
    var w := World([Task(0x1000, 1_500_000_000, true)], mac, 1_500_000_000);
    assert Find(w.tasks, 0x1000) == 0;
    assert HostToMac(500_000_000) == -500_000 && HalfSaved(-500_000) == 65_528;
    hide HostToMac, HalfSaved, Continued;
    ContinuedDelay(w, 0x1000, trap, 1_000_000_000, 1_500_000_000, 2_000_000_000);
    MacToHostIs(65_528);
    MacToHostIs(-500_000);
  }

  // ---------- Routines ----------

  /** What guest code may call. */
  datatype Call =
    | Ins(tm: int, trap: Word16, garbage: int)
    | Rmv(tm: int, now: int)
    | Prime(tm: int, time: int, now: int)

  function AfterCall(w: World, c: Call): (r: World) {
    match c
    case Ins(tm, trap, garbage) => AfterInsTime(w, tm, trap, garbage)
    case Rmv(tm, now) => AfterRmvTime(w, tm, now)
    case Prime(tm, time, now) => AfterPrimeTime(w, tm, time, now)
  }

  function AfterCalls(w: World, cs: seq<Call>): (r: World)
    decreases |cs|
  {
    if cs == [] then w else AfterCall(AfterCalls(w, cs[..|cs| - 1]), cs[|cs| - 1])
  }

  // ---------- The interrupt ----------

  /** What each task's routine calls. */
  type Routines = int -> seq<Call>

  function Deactivate(w: World, tm: int): (r: World) {
    w.(tasks := SetActive(w.tasks, tm, false), mac := w.mac[tm := Deactivated(Record(w.mac, tm))])
  }

  predicate ToBeCalled(w: World, tm: int, at: int) {
    var i := Find(w.tasks, tm);
    i < |w.tasks| && Expired(w.tasks[i], at)
  }

  /** The tasks in `rest` are looked at, one by one; those called are in `called`, in order. */
  function AfterPass(w: World, at: int, rest: seq<int>, routines: Routines): (r: (World, seq<int>))
    decreases |rest|
  {
    if rest == [] then (w, [])
    else
      var tm := rest[0];
      var (w', called) := AfterVisit(w, at, tm, routines);
      var (r, more) := AfterPass(w', at, rest[1..], routines);
      (r, called + more)
  }

  function AfterVisit(w: World, at: int, tm: int, routines: Routines): (r: (World, seq<int>)) {
    if !ToBeCalled(w, tm, at) then (w, [])
    else
      var w' := Deactivate(w, tm);
      if Record(w'.mac, tm).addr == 0 then (w', []) else (AfterCalls(w', routines(tm)), [tm])
  }

  function Names(tasks: seq<Task>): (tms: seq<int>)
    ensures |tms| == |tasks|
    ensures forall i :: 0 <= i < |tms| ==> tms[i] == tasks[i].tm
  {
    seq(|tasks|, i requires 0 <= i < |tasks| => tasks[i].tm)
  }

  function AfterInterrupt(w: World, now: int, routines: Routines): (r: (World, seq<int>)) {
    var (w', called) := AfterPass(w, now, Names(w.tasks), routines);
    (w'.(wakeupTime := Earliest(w'.tasks, WAKEUP_TIME_MAX)), called)
  }
}
