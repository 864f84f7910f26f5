/**
  The Time Manager's calls, on the linked list of task descriptors: what the emulator thread runs. The
  steps in which the timer thread takes part are in `TimerSteps`.
 */
module TimeManagement {
  import opened Bytes
  import opened TimerSteps
  import opened MacTimer

  class TMDesc {
    const task: Word32
    var wakeup: int
    var next: TMDesc?

    constructor (task: Word32, wakeup: int, next: TMDesc?)
      ensures this.task == task && this.wakeup == wakeup && this.next == next
    {
      this.task, this.wakeup, this.next := task, wakeup, next;
    }
  }

  /** The list ends in `tail`. */
  ghost predicate Ends(descs: seq<TMDesc>, tail: seq<TMDesc>) {
    |tail| <= |descs| && descs[|descs| - |tail|..] == tail
  }

  /** Guest code may not remove tasks that the interrupt has not come to. */
  ghost predicate Polite(cs: seq<Call>, tail: seq<TMDesc>) {
    forall c, d :: c in cs && c.Rmv? && d in tail ==> c.tm != d.task
  }

  ghost function TasksOf(descs: seq<TMDesc>, mac: Mac): (tasks: seq<Task>)
    reads descs`wakeup
    ensures |tasks| == |descs|
    ensures forall i :: 0 <= i < |descs| ==>
        tasks[i] == Task(descs[i].task, descs[i].wakeup, IsActive(mac, descs[i].task))
  {
    if descs == [] then []
    else [Task(descs[0].task, descs[0].wakeup, IsActive(mac, descs[0].task))] + TasksOf(descs[1..], mac)
  }

  ghost function At(descs: seq<TMDesc>, i: nat): (d: TMDesc?) {
    if i < |descs| then descs[i] else null
  }

  ghost predicate Chained(descs: seq<TMDesc>)
    reads descs`next
  {
    forall i :: 0 <= i < |descs| ==> descs[i].next == At(descs, i + 1)
  }

  ghost predicate Among(descs: seq<TMDesc>, nodes: set<TMDesc>) {
    forall i :: 0 <= i < |descs| ==> descs[i] in nodes
  }

  ghost predicate Apart(descs: seq<TMDesc>) {
    forall i, j :: 0 <= i < j < |descs| ==> descs[i] != descs[j] && descs[i].task != descs[j].task
  }

  class TimeManager {
    var tmDescList: TMDesc?
    var wakeupTime: int
    var mac: Mac
    ghost var descs: seq<TMDesc>
    ghost var nodes: set<TMDesc>      // every descriptor there was

    ghost predicate Valid()
      reads this`tmDescList, this`descs, this`nodes, descs`next
    {
      tmDescList == At(descs, 0) && Chained(descs) && Apart(descs) && Among(descs, nodes)
    }

    ghost function Tasks(): (tasks: seq<Task>)
      reads this`mac, this`descs, descs`wakeup
    {
      TasksOf(descs, mac)
    }

    ghost function View(): (w: World)
      reads this, descs`wakeup
    {
      World(Tasks(), mac, wakeupTime)
    }

    constructor (mac: Mac)
      ensures Valid() && nodes == {} && View() == World([], mac, WAKEUP_TIME_MAX)
    {
      tmDescList, wakeupTime, this.mac, descs, nodes := null, WAKEUP_TIME_MAX, mac, [], {};
    }

    /** Finds the descriptor associated with a task. */
    method FindDesc(tm: int) returns (desc: TMDesc?)
      requires Valid()
      ensures desc == At(descs, Find(Tasks(), tm))
    {
      desc := tmDescList;
      ghost var k := 0;
      while desc != null
        invariant 0 <= k <= |descs| && desc == At(descs, k)
        invariant forall j :: 0 <= j < k ==> descs[j].task != tm
        decreases |descs| - k
      {
        if desc.task == tm {
          FindFirst(Tasks(), tm, k);
          return;
        }
        desc := desc.next;
        k := k + 1;
      }
      FindFirst(Tasks(), tm, k);
    }

    method FreeDesc(desc: TMDesc, ghost k: nat)
      requires Valid() && k < |descs| && descs[k] == desc
      modifies this`tmDescList, this`descs, nodes`next
      ensures Valid() && descs == old(descs)[..k] + old(descs)[k + 1..]
      ensures Tasks() == old(Tasks())[..k] + old(Tasks())[k + 1..]
    {
      hide TasksOf, Apart, Chained;
      TasksWithout(descs, mac, k);
      Unlink(desc, k);
      ChainedWithout(descs, k);
      descs := descs[..k] + descs[k + 1..];
    }

    method Unlink(desc: TMDesc, ghost k: nat)
      requires Valid() && k < |descs| && descs[k] == desc
      modifies this`tmDescList, nodes`next
      ensures tmDescList == At(descs, if k == 0 then 1 else 0)
      ensures forall i :: 0 <= i < |descs| ==> descs[i].next == At(descs, if i == k - 1 then k + 1 else i + 1)
    {
      if desc == tmDescList {
        assert k == 0;
        tmDescList := desc.next;
      } else {
        var d := tmDescList;
        ghost var i := 0;
        while d != null
          invariant 0 <= i < k && d == At(descs, i) && d != null
          decreases k - i
        {
          if d.next == desc {
            d.next := desc.next;
            break;
          }
          d := d.next;
          i := i + 1;
        }
        assert i == k - 1;
      }
    }

    /** Looks for the next task to be called, and sets `wakeup_time`. */
    method SetWakeupTime()
      requires Valid()
      modifies this`wakeupTime
      ensures View() == old(View()).(wakeupTime := Earliest(old(View()).tasks, WAKEUP_TIME_MAX))
    {
      hide Earliest, Among, Apart, TasksOf;
      wakeupTime := WAKEUP_TIME_MAX;
      var d := tmDescList;
      ghost var k, tasks := 0, Tasks();
      assert tasks[0..] == tasks;
      while d != null
        invariant 0 <= k <= |descs| && d == At(descs, k)
        invariant Earliest(tasks, WAKEUP_TIME_MAX) == Earliest(tasks[k..], wakeupTime)
        decreases |descs| - k
      {
        NextEarliest(tasks, k, wakeupTime);
        if Record(mac, d.task).qType >= 0x8000 && d.wakeup < wakeupTime {
          wakeupTime := d.wakeup;
        }
        d := d.next;
        k := k + 1;
      }
      NoneEarlier(wakeupTime);
    }

    /** `garbage` is what the new descriptor's wakeup time happens to be. */
    method InsTime(tm: Word32, trap: Word16, garbage: int)
      requires Valid()
      modifies this`mac, this`tmDescList, this`descs, this`nodes
      ensures Valid() && View() == AfterInsTime(old(View()), tm, trap, garbage)
      ensures Ends(descs, old(descs)) && fresh(nodes - old(nodes))
    {
      hide TasksOf, Find, SetActive, Inserted, Chained, Apart, Among, Ends;
      InsertedKind(Record(mac, tm), trap);
      FlagSet(descs, mac, tm, Inserted(Record(mac, tm), trap));
      mac := mac[tm := Inserted(Record(mac, tm), trap)];
      var found := FindDesc(tm);
      if found == null {
        NotThere(descs, mac, tm);
        AddDesc(tm, garbage);
      } else {
        WholeEnds(descs);
      }
    }

    method AddDesc(tm: Word32, garbage: int)
      requires Valid() && forall d :: d in descs ==> d.task != tm
      modifies this`tmDescList, this`descs, this`nodes
      ensures Valid() && Tasks() == [Task(tm, garbage, IsActive(mac, tm))] + old(Tasks())
      ensures Ends(descs, old(descs)) && fresh(nodes - old(nodes))
    {
      hide TasksOf, Chained, Apart, Among, IsActive;
      ghost var list := descs;
      var desc := new TMDesc(tm, garbage, tmDescList);
      AmongWith(desc, list, nodes);
      ChainedWith(desc, list);
      TasksWith(desc, list, mac);
      tmDescList := desc;
      descs, nodes := [desc] + descs, nodes + {desc};
      assert descs[1..] == list;
    }

    method RmvTime(tm: Word32, now: int)
      requires Valid()
      modifies this`mac, this`wakeupTime, this`tmDescList, this`descs, nodes`next
      ensures Valid() && View() == AfterRmvTime(old(View()), tm, now)
      ensures var k := Find(old(Tasks()), tm);
        descs == if k < |old(descs)| then old(descs)[..k] + old(descs)[k + 1..] else old(descs)
    {
      hide TasksOf, Find, SetActive, Chained, Apart, Record, HostToMac, IsActive, Deactivated;
      var desc := FindDesc(tm);
      if desc == null {
        return;
      }
      ghost var k := Find(Tasks(), tm);
      StopTask(desc, tm, now);
      FreeDesc(desc, k);
    }

    /** What is done to remove a task with the lock held. */
    method StopTask(desc: TMDesc, tm: Word32, now: int)
      requires Valid() && desc == At(descs, Find(Tasks(), tm))
      modifies this`mac, this`wakeupTime
      ensures mac == AfterRmvTime(old(View()), tm, now).mac
      ensures wakeupTime == AfterRmvTime(old(View()), tm, now).wakeupTime
      ensures Drop(Tasks(), tm) == Drop(old(Tasks()), tm) && Find(Tasks(), tm) == Find(old(Tasks()), tm)
    {
      hide TasksOf, Find, SetActive, Chained, Apart, HostToMac, IsActive, Earliest, Drop;
      FoundTask(descs, mac, tm);
      ghost var t := Record(mac, tm);
      if Record(mac, tm).qType >= 0x8000 {
        ActivatedKind(t);
        FlagSet(descs, mac, tm, Deactivated(t));
        mac := mac[tm := Deactivated(Record(mac, tm))];
        SetWakeupTime();
        var remaining := desc.wakeup - now;
        FlagSet(descs, mac, tm, Deactivated(t).(count := HostToMac(remaining)));
        mac := mac[tm := Record(mac, tm).(count := HostToMac(remaining))];
      } else {
        FlagSet(descs, mac, tm, t.(count := 0));
        mac := mac[tm := Record(mac, tm).(count := 0)];
      }
    }

    method PrimeTime(tm: Word32, time: int, now: int)
      requires Valid()
      modifies this`mac, this`wakeupTime, nodes`wakeup
      ensures Valid() && View() == AfterPrimeTime(old(View()), tm, time, now)
      ensures descs == old(descs)
    {
      hide TasksOf, Find, SetActive, SetWakeup, Chained, Apart, PrimedWakeup, IsActive, Earliest, IsExtended;
      var desc := FindDesc(tm);
      if desc == null {
        return;
      }
      FoundTask(descs, mac, tm);
      Schedule(desc, tm, time, now);
      StartTask(tm);
    }

    /** Makes a task active, which is done with the lock held. */
    method StartTask(tm: Word32)
      requires Valid()
      modifies this`mac, this`wakeupTime
      ensures var t := Record(old(mac), tm); mac == old(mac)[tm := t.(qType := t.qType % 0x8000 + 0x8000)]
      ensures Tasks() == SetActive(old(Tasks()), tm, true) && wakeupTime == Earliest(Tasks(), WAKEUP_TIME_MAX)
    {
      hide TasksOf, Find, SetActive, Chained, Apart, IsActive, Earliest;
      var t := Record(mac, tm);
      FlagSet(descs, mac, tm, t.(qType := t.qType % 0x8000 + 0x8000));
      mac := mac[tm := t.(qType := t.qType % 0x8000 + 0x8000)];
      SetWakeupTime();
    }

    /** Computes when a task is to wake up. */
    method Schedule(desc: TMDesc, tm: Word32, time: int, now: int)
      requires Valid() && desc == At(descs, Find(Tasks(), tm))
      modifies this`mac, desc`wakeup
      ensures var t := Record(old(mac), tm);
        && Tasks() == SetWakeup(old(Tasks()), tm, PrimedWakeup(t, old(desc.wakeup), time, now))
        && Record(mac, tm) == t.(wakeUp := if IsExtended(t) then 0x1234_5678 else t.wakeUp)
      ensures mac[tm := Activated(Record(old(mac), tm))] == old(mac)[tm := Activated(Record(old(mac), tm))]
    {
      hide TasksOf, Find, Chained, MacToHost, HalfSaved, U32;
      ghost var before, t, last := Tasks(), Record(mac, tm), desc.wakeup;
      FoundTask(descs, mac, tm);
      var delay := MacToHost(time);
      if Record(mac, tm).qType / 0x4000 % 2 == 1 {
        if Record(mac, tm).wakeUp != 0 {
          if time == 0 {
            delay := MacToHost(HalfSaved(Record(mac, tm).count));
          }
          desc.wakeup := desc.wakeup + delay;
        } else {
          desc.wakeup := now + delay;
        }
        // from now on the last time counts
        mac := mac[tm := Record(mac, tm).(wakeUp := 0x1234_5678)];
      } else {
        desc.wakeup := now + delay;
      }
      assert desc.wakeup == PrimedWakeup(t, last, time, now);
      hide PrimedWakeup;
      assert forall i :: 0 <= i < |descs| && descs[i] != desc ==> Tasks()[i] == before[i];
    }

    method DoCall(c: Call, ghost tail: seq<TMDesc>)
      requires Valid() && 0 <= c.tm < 0x1_0000_0000
      requires Ends(descs, tail) && (c.Rmv? ==> forall d :: d in tail ==> d.task != c.tm)
      modifies this, nodes
      ensures Valid() && View() == AfterCall(old(View()), c)
      ensures Ends(descs, tail)
      ensures fresh(nodes - old(nodes))
    {
      hide TasksOf, Find, Chained, Apart, AfterInsTime, AfterRmvTime, AfterPrimeTime, Ends;
      ghost var list := descs;
      match c
      case Ins(tm, trap, garbage) =>
        InsTime(tm, trap, garbage);
        EndsChain(descs, list, tail);
      case Rmv(tm, now) =>
        ghost var k := Find(Tasks(), tm);
        if k < |list| {
          FoundTask(list, mac, tm);
          EndsWithout(list, k, tail);
        }
        RmvTime(tm, now);
      case Prime(tm, time, now) => PrimeTime(tm, time, now);
    }

    /** What a task's routine calls. */
    method RunCalls(cs: seq<Call>, ghost tail: seq<TMDesc>)
      requires Valid() && Ends(descs, tail) && Polite(cs, tail)
      requires forall c :: c in cs ==> 0 <= c.tm < 0x1_0000_0000
      modifies this, nodes
      ensures Valid() && View() == AfterCalls(old(View()), cs)
      ensures Ends(descs, tail) && fresh(nodes - old(nodes))
    {
      hide TasksOf, Chained, Apart, AfterCall, Ends;
      for i := 0 to |cs|
        invariant Valid() && View() == AfterCalls(old(View()), cs[..i])
        invariant Ends(descs, tail) && fresh(nodes - old(nodes))
      {
        assert cs[..i + 1][..i] == cs[..i];
        assert cs[i] in cs;
        DoCall(cs[i], tail);
      }
      assert cs[..|cs|] == cs;
    }

    /** The interrupt: calls the routines of the tasks that have expired, in the order of the list, and
        then looks for the next task to be called. */
    method TimerInterrupt(now: int, routines: Routines) returns (called: seq<int>)
      requires Valid() && GoodRoutines(descs, routines)
      modifies this, nodes
      ensures Valid() && (View(), called) == AfterInterrupt(old(View()), now, routines)
    {
      hide Valid, View, AfterPass, Earliest, GoodRoutines, Names;
      called := VisitAll(now, routines);
      SetWakeupTime();
    }

    /** The interrupt's loop over the list. */
    method VisitAll(now: int, routines: Routines) returns (called: seq<int>)
      requires Valid() && GoodRoutines(descs, routines)
      modifies this, nodes
      ensures Valid() && (View(), called) == AfterPass(old(View()), now, Names(old(View()).tasks), routines)
    {
      hide TasksOf, Apart, Among, Chained, AfterPass, Ends, GoodRoutines, PassOn, Names, TaskNames;
      ghost var w, list, k := View(), descs, 0;
      called := [];
      var desc := tmDescList;
      PassBegins(w, now, routines, list, mac);
      hide Valid, View;
      while desc != null
        invariant 0 <= k <= |list| && desc == At(list, k)
        invariant Valid() && Ends(descs, list[k..])
        invariant fresh(nodes - old(nodes))
        invariant PassOn(w, now, routines, list, View(), k, called)
        decreases |list| - k
      {
        desc, called := VisitNext(desc, now, routines, called, w, list, k);
        k := k + 1;
      }
      PassEnds(w, now, routines, list, View(), called);
    }

    /** One turn of the interrupt's loop; the next descriptor is saved before the routine is called. */
    method VisitNext(desc: TMDesc, now: int, routines: Routines, before: seq<int>, ghost w: World,
                     ghost list: seq<TMDesc>, ghost k: nat)
      returns (next: TMDesc?, called: seq<int>)
      requires Valid() && k < |list| && desc == list[k] && Ends(descs, list[k..]) && GoodRoutines(list, routines)
      requires PassOn(w, now, routines, list, View(), k, before)
      modifies this, nodes
      ensures next == At(list, k + 1) && Valid() && Ends(descs, list[k + 1..])
      ensures fresh(nodes - old(nodes))
      ensures PassOn(w, now, routines, list, View(), k + 1, called)
    {
      hide Valid, Chained, TaskNames, TasksOf, Apart, AfterPass, AfterVisit, Ends, GoodRoutines, PassOn, Polite, View;
      ghost var at := EndsAt(descs, list, k);
      PassStep(w, now, routines, list, View(), k, before);
      RoutineAt(list, routines, k);
      NextIs(at);
      next := desc.next;
      var calls := VisitDesc(desc, at, now, routines, list[k + 1..]);
      called := before + calls;
    }

    lemma NextIs(i: nat)
      requires Valid() && i < |descs|
      ensures descs[i].next == At(descs, i + 1)
    {
    }

    /** One task is looked at: if it has expired it is made inactive, and its routine called. */
    method VisitDesc(desc: TMDesc, ghost k: nat, now: int, routines: Routines, ghost tail: seq<TMDesc>)
      returns (called: seq<int>)
      requires Valid() && k < |descs| && descs[k] == desc
      requires Ends(descs, tail) && Polite(routines(desc.task), tail)
      requires forall c :: c in routines(desc.task) ==> 0 <= c.tm < 0x1_0000_0000
      modifies this, nodes
      ensures Valid() && (View(), called) == AfterVisit(old(View()), now, desc.task, routines)
      ensures Ends(descs, tail) && fresh(nodes - old(nodes))
    {
      hide TasksOf, Chained, Apart, Ends, Polite, AfterCalls, SetActive, Find, IsActive, Deactivated;
      called := [];
      var tm := desc.task;
      FindDescAt(descs, mac, k);
      FoundTask(descs, mac, tm);
      if Record(mac, tm).qType >= 0x8000 && desc.wakeup <= now {
        FlagSet(descs, mac, tm, Deactivated(Record(mac, tm)));
        ActivatedKind(Record(mac, tm));
        mac := mac[tm := Deactivated(Record(mac, tm))];
        if Record(mac, tm).addr != 0 {
          called := [tm];
          RunCalls(routines(tm), tail);
        }
      }
    }
  }

  /** What the tasks' routines call: they do not remove tasks that the interrupt has yet to come to,
      whose place in the list it has saved. */
  ghost predicate GoodRoutines(descs: seq<TMDesc>, routines: Routines) {
    && (forall i :: 0 <= i < |descs| ==> Polite(routines(descs[i].task), descs[i + 1..]))
    && (forall i, c :: 0 <= i < |descs| && c in routines(descs[i].task) ==> 0 <= c.tm < 0x1_0000_0000)
  }

  ghost function TaskNames(descs: seq<TMDesc>): (tms: seq<int>)
    ensures |tms| == |descs|
    ensures forall i :: 0 <= i < |tms| ==> tms[i] == descs[i].task
  {
    seq(|descs|, i requires 0 <= i < |descs| => descs[i].task)
  }

  /** The interrupt has looked at `k` tasks: what remains to be done gives what the whole gives. */
  ghost predicate PassOn(w: World, now: int, routines: Routines, list: seq<TMDesc>, w': World, k: nat, called: seq<int>)
    requires k <= |list|
  {
    var (r, more) := AfterPass(w', now, TaskNames(list[k..]), routines);
    AfterPass(w, now, TaskNames(list), routines) == (r, called + more)
  }

  lemma PassBegins(w: World, now: int, routines: Routines, list: seq<TMDesc>, mac: Mac)
    requires w.tasks == TasksOf(list, mac)
    ensures PassOn(w, now, routines, list, w, 0, []) && Ends(list, list[0..]) && Names(w.tasks) == TaskNames(list)
  {
    assert list[0..] == list;
    NamesAre(list, mac);
    hide AfterPass, TaskNames;
    var (r, more) := AfterPass(w, now, TaskNames(list), routines);
    assert [] + more == more;
  }

  lemma PassStep(w: World, now: int, routines: Routines, list: seq<TMDesc>, w1: World, k: nat, called: seq<int>)
    requires k < |list| && PassOn(w, now, routines, list, w1, k, called)
    ensures var (w2, calls) := AfterVisit(w1, now, list[k].task, routines);
      PassOn(w, now, routines, list, w2, k + 1, called + calls)
  {
    hide AfterVisit;
    var tms := TaskNames(list[k..]);
    assert tms[0] == list[k].task && tms[1..] == TaskNames(list[k + 1..]);
    var (w2, calls) := AfterVisit(w1, now, list[k].task, routines);
    var (r, more) := AfterPass(w2, now, tms[1..], routines);
    assert AfterPass(w1, now, tms, routines) == (r, calls + more);
    assert called + (calls + more) == called + calls + more;
  }

  lemma WholeEnds(descs: seq<TMDesc>)
    ensures Ends(descs, descs[0..]) && Ends(descs, descs)
  {
  }

  lemma PassEnds(w: World, now: int, routines: Routines, list: seq<TMDesc>, w': World, called: seq<int>)
    requires PassOn(w, now, routines, list, w', |list|, called) && Names(w.tasks) == TaskNames(list)
    ensures AfterPass(w, now, Names(w.tasks), routines) == (w', called)
  {
    assert TaskNames(list[|list|..]) == [];
    assert called + [] == called;
    hide Names;
  }

  lemma NamesAre(descs: seq<TMDesc>, mac: Mac)
    ensures Names(TasksOf(descs, mac)) == TaskNames(descs)
  {
    hide TasksOf;
  }

  lemma RoutineAt(list: seq<TMDesc>, routines: Routines, k: nat)
    requires GoodRoutines(list, routines) && k < |list|
    ensures Polite(routines(list[k].task), list[k + 1..])
    ensures forall c :: c in routines(list[k].task) ==> 0 <= c.tm < 0x1_0000_0000
  {
    hide Polite;
  }

  lemma EndsAt(descs: seq<TMDesc>, list: seq<TMDesc>, k: nat) returns (at: nat)
    requires k < |list| && Ends(descs, list[k..])
    ensures at < |descs| && descs[at] == list[k] && At(descs, at + 1) == At(list, k + 1) && Ends(descs, list[k + 1..])
  {
    at := |descs| - |list[k..]|;
    assert descs[at..][0] == list[k..][0];
    assert descs[at..][1..] == list[k..][1..] == list[k + 1..];
    if k + 1 < |list| { assert descs[at..][1] == list[k..][1]; }
  }

  lemma FindDescAt(descs: seq<TMDesc>, mac: Mac, k: nat)
    requires Apart(descs) && k < |descs|
    ensures Find(TasksOf(descs, mac), descs[k].task) == k
  {
    hide TasksOf;
  }

  lemma EndsChain(descs: seq<TMDesc>, middle: seq<TMDesc>, tail: seq<TMDesc>)
    requires Ends(descs, middle) && Ends(middle, tail)
    ensures Ends(descs, tail)
  {
  }

  lemma EndsWithout(descs: seq<TMDesc>, k: nat, tail: seq<TMDesc>)
    requires Ends(descs, tail) && k < |descs| && descs[k] !in tail
    ensures Ends(descs[..k] + descs[k + 1..], tail)
  {
    var r := descs[..k] + descs[k + 1..];
    assert forall i :: |descs| - |tail| <= i < |descs| ==> descs[i] == tail[i - (|descs| - |tail|)];
    assert forall i :: |r| - |tail| <= i < |r| ==> r[i] == descs[i + 1];
  }

  lemma ChainedWithout(descs: seq<TMDesc>, k: nat)
    requires k < |descs| && Apart(descs)
    requires forall i :: 0 <= i < |descs| ==> descs[i].next == At(descs, if i == k - 1 then k + 1 else i + 1)
    ensures var r := descs[..k] + descs[k + 1..];
      Chained(r) && Apart(r) && At(r, 0) == At(descs, if k == 0 then 1 else 0)
  {
    var r := descs[..k] + descs[k + 1..];
    assert forall i :: 0 <= i < |r| ==> r[i] == if i < k then descs[i] else descs[i + 1];
    hide Apart;
    forall i | 0 <= i < |r|
      ensures r[i].next == At(r, i + 1)
    {
    }
    assert Apart(r) by { ApartWithout(descs, k); }
  }

  lemma ApartWithout(descs: seq<TMDesc>, k: nat)
    requires k < |descs| && Apart(descs)
    ensures Apart(descs[..k] + descs[k + 1..])
  {
    var r := descs[..k] + descs[k + 1..];
    forall i, j | 0 <= i < j < |r|
      ensures r[i] != r[j] && r[i].task != r[j].task
    {
      assert r[i] == descs[if i < k then i else i + 1] && r[j] == descs[if j < k then j else j + 1];
    }
  }

  lemma ChainedWith(d: TMDesc, descs: seq<TMDesc>)
    requires Chained(descs) && Apart(descs) && d.next == At(descs, 0) && d !in descs
    requires forall d' :: d' in descs ==> d'.task != d.task
    ensures Chained([d] + descs) && Apart([d] + descs)
  {
  }

  lemma AmongWith(d: TMDesc, descs: seq<TMDesc>, nodes: set<TMDesc>)
    requires Among(descs, nodes)
    ensures Among([d] + descs, nodes + {d})
    ensures d !in nodes ==> d !in descs
  {
  }

  lemma TasksWithout(descs: seq<TMDesc>, mac: Mac, k: nat)
    requires k < |descs|
    ensures TasksOf(descs[..k] + descs[k + 1..], mac) == TasksOf(descs, mac)[..k] + TasksOf(descs, mac)[k + 1..]
  {
    hide TasksOf;
  }

  lemma TasksWith(d: TMDesc, descs: seq<TMDesc>, mac: Mac)
    ensures TasksOf([d] + descs, mac) == [Task(d.task, d.wakeup, IsActive(mac, d.task))] + TasksOf(descs, mac)
  {
    assert ([d] + descs)[1..] == descs;
  }

  lemma FoundTask(descs: seq<TMDesc>, mac: Mac, tm: int)
    requires Find(TasksOf(descs, mac), tm) < |descs|
    ensures var k := Find(TasksOf(descs, mac), tm);
      descs[k].task == tm && TasksOf(descs, mac)[k] == Task(tm, descs[k].wakeup, Record(mac, tm).qType >= 0x8000)
  {
    hide TasksOf;
  }

  /** A new record for a task says whether the task is active, and says nothing about any other. */
  lemma FlagSet(descs: seq<TMDesc>, mac: Mac, tm: int, t: TMTask)
    requires Apart(descs)
    ensures TasksOf(descs, mac[tm := t]) == SetActive(TasksOf(descs, mac), tm, t.qType >= 0x8000)
    ensures Find(TasksOf(descs, mac[tm := t]), tm) == Find(TasksOf(descs, mac), tm)
    ensures Find(TasksOf(descs, mac), tm) == |descs| ==> TasksOf(descs, mac[tm := t]) == TasksOf(descs, mac)
    ensures Drop(TasksOf(descs, mac[tm := t]), tm) == Drop(TasksOf(descs, mac), tm)
  {
    hide TasksOf;
    SamePlaces(TasksOf(descs, mac), TasksOf(descs, mac[tm := t]), tm);
  }

  lemma NotThere(descs: seq<TMDesc>, mac: Mac, tm: int)
    requires At(descs, Find(TasksOf(descs, mac), tm)) == null
    ensures forall d :: d in descs ==> d.task != tm
  {
    hide TasksOf;
  }

  lemma NextEarliest(tasks: seq<Task>, k: nat, w: int)
    requires k < |tasks|
    ensures Earliest(tasks[k..], w)
        == Earliest(tasks[k + 1..], if tasks[k].active && tasks[k].wakeup < w then tasks[k].wakeup else w)
  {
    assert tasks[k..][1..] == tasks[k + 1..];
  }

  lemma NoneEarlier(w: int)
    ensures Earliest([], w) == w
  {
  }

  lemma FindFirst(tasks: seq<Task>, tm: int, k: nat)
    requires k <= |tasks| && (forall j :: 0 <= j < k ==> tasks[j].tm != tm) && (k < |tasks| ==> tasks[k].tm == tm)
    ensures Find(tasks, tm) == k
  {
  }
}
