/**
 The alarm facility as it is built: a wrapping 32-bit tick counter, alarms with a 32-bit time and a rollover
 flag, and an intrusive list. Every operation is proved to perform the step of the same name on the unbounded
 schedule, for every number of counter wraps.
 */
module AlarmClock {
  import opened Words
  import opened AlarmTime
  import opened AlarmList
  import opened AlarmSchedule

  ghost function StampOf(a: Alarm): Stamp
    reads a`time, a`rollover
  {
    Stamp(a.time, a.rollover)
  }

  /** The stored stamps stand for the deadlines, seen from the given tick; the head has none. */
  ghost predicate Standing(alarms: seq<Alarm>, due: map<Alarm, nat>, tick: int, head: Alarm, running: Alarm?)
    reads alarms`time, alarms`rollover
  {
    forall a :: a in alarms && a != head && a != running ==> a in due && tick >= 0 && Encodes(StampOf(a), due[a], tick)
  }

  /** While its callback runs, an alarm shows the current tick, its deadline, unless the callback started it again. */
  ghost predicate RunningStands(z: Schedule, now: nat, head: Alarm, running: Alarm?)
    reads if running == null then {} else {running}
  {
    running != null ==>
      && (z.Lists(running) || running in z.idle) && running != head && running !in z.after
      && running in z.due && Shows(StampOf(running), z.due[running], now)
  }

  /** A stamp stands for a deadline that is now, as it has just been compared, or ahead. */
  ghost predicate Shows(s: Stamp, due: nat, now: nat)
  {
    if due == now then s == Stamp(Counter(now), false) else Encodes(s, due, now)
  }

  ghost predicate Stands(z: Schedule, now: nat, head: Alarm, running: Alarm?)
    reads z.Alarms()`time, z.Alarms()`rollover, if running == null then {} else {running}
  {
    && Standing(z.before, z.due, now, head, running) && Standing(z.after, z.due, now - 1, head, running)
    && RunningStands(z, now, head, running)
  }

  lemma StartStands(z: Schedule, a: Alarm, delay: UInt32, now: nat, running: Alarm?)
    requires z.Valid() && (a in z.idle || a in z.blank) && (delay < LAST || Counter(now) == LAST)
    requires Standing(z.before, z.due, now, z.before[0], running) && Standing(z.after, z.due, now - 1, z.before[0], running)
    requires (a != running ==> RunningStands(z, now, z.before[0], running)) && StampOf(a) == StartStamp(Counter(now), delay)
    ensures Stands(z.Start(a, delay, now), now, z.before[0], running)
  {
    StartEncodes(now, delay);
    var z' := z.Start(a, delay, now);
    assert forall x :: x in z'.before <==> x in z.before || x == a;
  }

  lemma StopStands(z: Schedule, a: Alarm, now: nat, running: Alarm?)
    requires z.Valid() && (a in z.idle || z.Lists(a)) && a != z.before[0]
    requires Stands(z, now, z.before[0], running)
    ensures Stands(z.Stop(a), now, z.before[0], running)
  {
  }

  /** With the reloaded stamp in place the alarm no longer needs its exemption. */
  lemma ReloadStands(z: Schedule, a: Alarm, was: Stamp, now: nat, period: UInt32)
    requires z.Valid() && (z.Lists(a) || a in z.idle) && a !in z.after && period > 0
    requires Standing(z.before, z.due, now, z.before[0], a) && Standing(z.after, z.due, now - 1, z.before[0], a)
    requires z.Reloads(a, period, now) && Shows(was, z.due[a], now)
    requires StampOf(a) == ReloadStamp(was, Counter(now), period)
    ensures z.Rearm(a, period).Valid() && z.Rearm(a, period).Alarms() == z.Alarms()
    ensures Stands(z.Rearm(a, period), now, z.before[0], null)
  {
    ReloadEncodes(was, z.due[a], now, period);
  }

  /** Passing an alarm whose stamp, once the flag is dropped on the wrap, has been compared. */
  lemma PassStands(z: Schedule, now: nat)
    requires z.Valid() && z.after != []
    requires Standing(z.before, z.due, now, z.before[0], null)
    requires Standing(z.after, z.due, now - 1, z.before[0], z.after[0])
    requires z.after[0] in z.due && z.due[z.after[0]] >= now
    requires z.due[z.after[0]] == now ==> StampOf(z.after[0]) == Stamp(Counter(now), false)
    requires z.due[z.after[0]] != now ==> Encodes(StampOf(z.after[0]), z.due[z.after[0]], now)
    ensures z.Pass().before + z.Pass().after == z.before + z.after
    ensures Stands(z.Pass(), now, z.before[0], if z.due[z.after[0]] == now then z.after[0] else null)
  {
    var y := z.Pass();
    assert forall x :: x in y.after ==> x in z.after && x != z.after[0];
    assert forall x :: x in y.before ==> x in z.before || x == z.after[0];
  }

  ghost predicate IdleLinks(idle: set<Alarm>)
    reads idle`next, idle`previous
  {
    forall a :: a in idle ==> SelfLinked(a)
  }

  class Clock {
    const head: Alarm
    var nticks: UInt32
    var tickRate: UInt32

    ghost var now: nat
    ghost var z: Schedule
    ghost var running: Alarm?

    ghost predicate Valid()
      reads this, z.Alarms()
    {
      && z.Valid() && head == z.before[0] && nticks == Counter(now)
      && Ring(z.before + z.after) && IdleLinks(z.idle)
      && (running == null || running in z.Alarms()) && Stands(z, now, head, running)
    }

    constructor (tickRate: UInt32, ghost alarms: set<Alarm>)
      ensures Valid() && fresh(head) && this.tickRate == tickRate && running == null && now == 0
      ensures z == Schedule([head], [], {}, alarms, map[])
    {
      var list := new Alarm();
      head := list;
      nticks := 0;
      this.tickRate := tickRate;
      now := 0;
      z := Schedule([list], [], {}, alarms, map[]);
      running := null;
      new;
      head.next := head;
      head.previous := head;
      ghost var cycle := [head];
      assert Ring(cycle) by {
        assert cycle[0].next == cycle[Succ(0, 1)];
      }
      assert z.before + z.after == cycle;
    }

    /** alt_alarm_start. */
    method Start(alarm: Alarm?, delay: UInt32) returns (error: Option<Errno>)
      requires Valid()
      requires tickRate != 0 && alarm != null ==>
                 (alarm in z.idle || alarm in z.blank) && (delay < LAST || nticks == LAST)
      modifies this`z, z.Alarms()`next, z.Alarms()`previous
      modifies (if alarm == null then {} else {alarm})`time, (if alarm == null then {} else {alarm})`rollover
      ensures Valid()
      ensures error == if tickRate == 0 then Some(ENOTSUP) else if alarm == null then Some(EINVAL) else None
      ensures z == (if error == None then old(z).Start(alarm, delay, now) else old(z)) && z.Alarms() == old(z).Alarms()
    {
      if tickRate == 0 {
        return Some(ENOTSUP);
      }
      if alarm == null {
        return Some(EINVAL);
      }
      alarm.time := (delay + nticks + 1) % TWO_32;
      alarm.rollover := alarm.time < nticks;
      Register(alarm, delay);
      error := None;
    }

    /** The list insertion that completes a start. */
    method Register(alarm: Alarm, ghost delay: UInt32)
      requires z.Valid() && head == z.before[0] && nticks == Counter(now)
      requires Ring(z.before + z.after) && IdleLinks(z.idle)
      requires (running == null || running in z.Alarms()) && (alarm != running ==> RunningStands(z, now, head, running))
      requires Standing(z.before, z.due, now, head, running) && Standing(z.after, z.due, now - 1, head, running)
      requires (alarm in z.idle || alarm in z.blank) && (delay < LAST || nticks == LAST)
      requires StampOf(alarm) == StartStamp(nticks, delay)
      modifies this`z, z.Alarms()`next, z.Alarms()`previous
      ensures Valid() && z == old(z).Start(alarm, delay, now) && z.Alarms() == old(z).Alarms()
    {
      StartKeepsValid(z, alarm, delay, now);
      StartStands(z, alarm, delay, now, running);
      Link(alarm, delay);
      Adopt(z.Start(alarm, delay, now));
    }

    /** The schedule follows what has been done to the list and the stamps. */
    ghost method Adopt(next: Schedule)
      requires next.Valid() && head == next.before[0] && nticks == Counter(now)
      requires Ring(next.before + next.after) && IdleLinks(next.idle)
      requires (running == null || running in next.Alarms()) && Stands(next, now, head, running)
      modifies this`z
      ensures Valid() && z == next
    {
      z := next;
    }

    method Link(alarm: Alarm, ghost delay: UInt32)
      requires z.before != [] && head == z.before[0] && Ring(z.before + z.after) && IdleLinks(z.idle)
      requires (alarm in z.idle || alarm in z.blank) && !z.Lists(alarm)
      requires forall a :: a in z.idle ==> !z.Lists(a)
      requires Stands(z.Start(alarm, delay, now), now, head, running)
      modifies z.Alarms()`next, z.Alarms()`previous
      ensures Ring(z.Start(alarm, delay, now).before + z.Start(alarm, delay, now).after)
      ensures IdleLinks(z.idle - {alarm}) && Stands(z.Start(alarm, delay, now), now, head, running)
    {
      ghost var cycle := z.before + z.after;
      LinksStayInCycle(cycle, head);
      Insert(head, alarm, cycle);
      assert [head, alarm] + cycle[1..] == [head, alarm] + z.before[1..] + z.after;
    }

    /** alt_alarm_stop. */
    method Stop(alarm: Alarm)
      requires Valid() && (alarm in z.idle || z.Lists(alarm)) && alarm != head
      modifies this`z, z.Alarms()`next, z.Alarms()`previous
      ensures Valid() && z == old(z).Stop(alarm)
    {
      StopKeepsValid(z, alarm);
      StopStands(z, alarm, now, running);
      Unlink(alarm);
      Adopt(z.Stop(alarm));
    }

    method Unlink(alarm: Alarm)
      requires z.before != [] && head == z.before[0] && Ring(z.before + z.after) && IdleLinks(z.idle)
      requires (alarm in z.idle || z.Lists(alarm)) && alarm != head && (alarm !in z.before || alarm !in z.after)
      requires forall a :: a in z.idle ==> !z.Lists(a)
      requires Stands(z.Stop(alarm), now, head, running)
      modifies z.Alarms()`next, z.Alarms()`previous
      ensures Ring(z.Stop(alarm).before + z.Stop(alarm).after) && IdleLinks(z.Stop(alarm).idle)
      ensures Stands(z.Stop(alarm), now, head, running)
    {
      WithoutSplit(z.before, z.after, alarm);
      DetachStanding(alarm, z.Stop(alarm));
    }

    /** Removing an alarm from the list leaves every stamp alone. */
    method DetachStanding(alarm: Alarm, ghost next: Schedule)
      requires z.before != [] && head == z.before[0] && Ring(z.before + z.after) && IdleLinks(z.idle)
      requires (alarm in z.idle || z.Lists(alarm)) && alarm != head
      requires forall a :: a in z.idle ==> !z.Lists(a)
      requires Stands(next, now, head, running)
      modifies z.Alarms()`next, z.Alarms()`previous
      ensures Ring(Without(z.before + z.after, alarm)) && IdleLinks(z.idle + {alarm}) && Stands(next, now, head, running)
    {
      Detach(alarm);
    }

    method Detach(alarm: Alarm)
      requires z.before != [] && head == z.before[0] && Ring(z.before + z.after) && IdleLinks(z.idle)
      requires (alarm in z.idle || z.Lists(alarm)) && alarm != head
      requires forall a :: a in z.idle ==> !z.Lists(a)
      modifies z.Alarms()`next, z.Alarms()`previous
      ensures Ring(Without(z.before + z.after, alarm)) && IdleLinks(z.idle + {alarm})
    {
      ghost var cycle := z.before + z.after;
      if alarm in cycle {
        LinksStayInCycle(cycle, alarm);
      }
      assert forall a :: a in z.idle && a != alarm ==> a != alarm.next && a != alarm.previous;
      Remove(alarm, cycle);
    }

    // ---------------------------------------------------------------- the tick

    /**
     alt_tick. The wrapped counter and the stamps drive exactly the traversal of the unbounded schedule: the
     same alarms are visited, the same callbacks run, and the same deadlines stand afterwards.
     */
    method Tick(script: Script) returns (ghost called: seq<Alarm>)
      requires Valid() && z.after == [] && running == null && tickRate != 0
      requires z.NewTick().WalkPermitted(now + 1, script)
      modifies this`nticks, this`now, this`z, this`running, z.Alarms()
      ensures Valid() && z.after == [] && running == null
      ensures now == old(now) + 1 && nticks == (old(nticks) + 1) % TWO_32
      ensures z == old(z).NewTick().Walk(now, script)
      ensures called == old(z).NewTick().Called(now, script)
      ensures forall a :: a in called ==> a in old(z).due && old(z).due[a] == now
    {
      BeginTick();
      CalledOnTime(z, now, script);
      WalkLeads(z, now, script);
      called := Traverse(script, z.Walk(now, script), z.Called(now, script));
    }

    /** The loop of alt_tick. */
    method Traverse(script: Script, ghost walk: Schedule, ghost calls: seq<Alarm>) returns (ghost called: seq<Alarm>)
      requires Valid() && running == null && tickRate != 0 && |z.before| == 1 && Remaining(script, walk, calls)
      modifies this`z, this`running, z.Alarms()
      ensures Valid() && z.after == [] && running == null && z == walk && called == calls
    {
      ghost var alarms := z.Alarms();
      ghost var left := calls;
      called := [];
      var alarm := FirstToVisit();
      while alarm != head
        invariant Valid() && running == null && z.Alarms() == alarms
        invariant alarm == if z.after == [] then head else z.after[0]
        invariant OnCourse(script, walk, calls, called, left)
        decreases |z.after|
      {
        alarm, called, left := VisitNext(alarm, script, walk, calls, called, left);
      }
      HeadIsPassed(z);
    }

    /** What is left of the traversal leads to the given schedule and makes the given callbacks. */
    ghost predicate Remaining(script: Script, walk: Schedule, left: seq<Alarm>)
      requires z.Valid()
      reads this`z, this`now
    {
      z.Leads(now, script, walk, left)
    }

    ghost predicate OnCourse(script: Script, walk: Schedule, calls: seq<Alarm>, called: seq<Alarm>, left: seq<Alarm>)
      requires z.Valid()
      reads this`z, this`now
    {
      Remaining(script, walk, left) && called + left == calls
    }

    method VisitNext(alarm: Alarm, script: Script,
                     ghost walk: Schedule, ghost calls: seq<Alarm>, ghost called: seq<Alarm>, ghost left: seq<Alarm>)
        returns (next: Alarm, ghost called': seq<Alarm>, ghost left': seq<Alarm>)
      requires Valid() && running == null && tickRate != 0 && z.after != [] && alarm == z.after[0]
      requires OnCourse(script, walk, calls, called, left)
      modifies this`z, this`running, z.Alarms()
      ensures Valid() && running == null && z.Alarms() == old(z).Alarms() && |z.after| < |old(z).after|
      ensures next == if z.after == [] then head else z.after[0]
      ensures OnCourse(script, walk, calls, called', left')
    {
      ghost var run;
      next, run, left' := VisitRemaining(alarm, script, walk, left);
      called' := called + run;
      Reassociate(called, run, left');
    }

    method VisitRemaining(alarm: Alarm, script: Script, ghost walk: Schedule, ghost calls: seq<Alarm>)
        returns (next: Alarm, ghost run: seq<Alarm>, ghost left: seq<Alarm>)
      requires Valid() && running == null && tickRate != 0 && z.after != [] && alarm == z.after[0]
      requires Remaining(script, walk, calls)
      modifies this`z, this`running, z.Alarms()
      ensures Valid() && running == null && z.Alarms() == old(z).Alarms() && |z.after| < |old(z).after|
      ensures next == if z.after == [] then head else z.after[0]
      ensures Remaining(script, walk, left) && calls == run + left
    {
      left := if z.IsDue(alarm, now) then calls[1..] else calls;
      next, run := VisitOne(alarm, script);
    }

    method BeginTick()
      requires Valid() && z.after == [] && running == null
      modifies this`nticks, this`now, this`z
      ensures Valid() && now == old(now) + 1 && nticks == (old(nticks) + 1) % TWO_32 && z == old(z).NewTick()
    {
      NewTickKeepsValid(z);
      ghost var was := z;
      nticks := (nticks + 1) % TWO_32;
      now := now + 1;
      z := z.NewTick();
      assert was.before + was.after == z.before + z.after;
      assert Standing(z.after, z.due, now - 1, head, running);
    }

    /** The saved head of the list is read before anything else. */
    method FirstToVisit() returns (alarm: Alarm)
      requires Valid() && |z.before| == 1
      ensures Valid() && alarm == if z.after == [] then head else z.after[0]
    {
      ghost var cycle := z.before + z.after;
      assert cycle[0].next == cycle[Succ(0, |cycle|)];
      alarm := head.next;
    }

    /** One turn of the loop of alt_tick. */
    method VisitOne(alarm: Alarm, script: Script) returns (next: Alarm, ghost run: seq<Alarm>)
      requires Valid() && running == null && tickRate != 0
      requires z.after != [] && alarm == z.after[0] && z.VisitPermitted(now, script)
      modifies this`z, this`running, z.Alarms()
      ensures Valid() && running == null && z == old(z).Visit(now, script)
      ensures run == if old(z).IsDue(alarm, now) then [alarm] else []
      ensures next == if z.after == [] then head else z.after[0]
    {
      next := NextOf(alarm);
      var expired := Expire(alarm);
      run := [];
      if expired {
        run := [alarm];
        ActionsKeepSuccessor(z, script(alarm).actions, now);
        StartsOnlyKnown(z, script(alarm).actions, now);
        Callback(alarm, script(alarm));
      }
    }

    /** The callback and what its result asks for. No stamps change but those of its own alarm and of the alarms it starts. */
    method Callback(alarm: Alarm, does: Behaviour)
      requires Valid() && running == alarm && tickRate != 0
      requires z.AllowsAll(does.actions, now) && z.PerformAll(does.actions, now).Reloads(alarm, does.period, now)
      modifies this`z, this`running, z.Alarms()`next, z.Alarms()`previous
      modifies Started(does.actions)`time, Started(does.actions)`rollover, alarm`time, alarm`rollover
      ensures Valid() && running == null && z == old(z).PerformAll(does.actions, now).Rearm(alarm, does.period)
      ensures alarm !in Started(does.actions) ==> StampOf(alarm) == Settled(old(StampOf(alarm)), does.period)
    {
      RunCallback(alarm, does.actions);
      Settle(alarm, does.period);
    }

    method NextOf(alarm: Alarm) returns (next: Alarm)
      requires Valid() && z.after != [] && alarm == z.after[0]
      ensures next == if z.Pass().after == [] then head else z.Pass().after[0]
    {
      ghost var cycle, k := z.before + z.after, |z.before|;
      assert cycle[k] == alarm && cycle[k].next == cycle[Succ(k, |cycle|)];
      next := alarm.next;
    }

    /** Drop the rollover flag on the wrap, then test the stamp: it has expired exactly when the deadline is now. */
    method Expire(alarm: Alarm) returns (expired: bool)
      requires Valid() && running == null && z.after != [] && alarm == z.after[0]
      modifies this`z, this`running, alarm`rollover
      ensures Valid() && z == old(z).Pass()
      ensures expired == old(z).IsDue(alarm, now)
      ensures running == if expired then alarm else null
    {
      assert alarm in z.after && alarm != head;
      TickIsExact(StampOf(alarm), z.due[alarm], now - 1);
      if alarm.rollover && nticks == 0 {
        alarm.rollover := false;
      }
      expired := alarm.time <= nticks && !alarm.rollover;
      Passed(expired);
    }

    /** The schedule follows the compared stamp. */
    ghost method Passed(expired: bool)
      requires z.Valid() && head == z.before[0] && nticks == Counter(now) && Ring(z.before + z.after) && IdleLinks(z.idle)
      requires Standing(z.before, z.due, now, head, null) && z.after != []
      requires Standing(z.after, z.due, now - 1, head, z.after[0])
      requires z.after[0] in z.due && z.due[z.after[0]] >= now && (expired <==> z.due[z.after[0]] == now)
      requires expired ==> StampOf(z.after[0]) == Stamp(Counter(now), false)
      requires !expired ==> Encodes(StampOf(z.after[0]), z.due[z.after[0]], now)
      modifies this`z, this`running
      ensures Valid() && z == old(z).Pass()
      ensures running == if expired then old(z).after[0] else null
    {
      PassStands(z, now);
      running := if expired then z.after[0] else null;
      Adopt(z.Pass());
    }

    /** Whatever a callback does, it does through the operations of this class. */
    method RunCallback(alarm: Alarm, actions: seq<Action>)
      requires Valid() && running == alarm && tickRate != 0 && z.AllowsAll(actions, now)
      modifies this`z, z.Alarms()`next, z.Alarms()`previous, Started(actions)`time, Started(actions)`rollover
      ensures Valid() && z == old(z).PerformAll(actions, now)
    {
      if actions != [] {
        PerformOne(alarm, actions[0]);
        RunCallback(alarm, actions[1..]);
      }
    }

    method PerformOne(alarm: Alarm, action: Action)
      requires Valid() && running == alarm && tickRate != 0 && z.Allows(action, now)
      modifies this`z, z.Alarms()`next, z.Alarms()`previous, Started([action])`time, Started([action])`rollover
      ensures Valid() && z == old(z).Perform(action, now) && z.Alarms() == old(z).Alarms()
    {
      PerformKeepsValid(z, action, now);
      match action
      case StartAlarm(a, n) =>
        var error := Start(a, n);
      case StopAlarm(a) =>
        Stop(a);
    }

    /** The stamp of an alarm after its callback, if that did not start it. */
    ghost function Settled(was: Stamp, period: UInt32): Stamp
      reads this`nticks
    {
      if period == 0 then was else ReloadStamp(was, nticks, period)
    }

    /** After the callback: unregister the alarm, or move its stamp on by the period. */
    method Settle(alarm: Alarm, period: UInt32)
      requires Valid() && running == alarm && z.Reloads(alarm, period, now)
      modifies this`z, this`running, z.Alarms()`next, z.Alarms()`previous, alarm`time, alarm`rollover
      ensures Valid() && running == null && z == old(z).Rearm(alarm, period)
      ensures StampOf(alarm) == Settled(old(StampOf(alarm)), period)
    {
      if period == 0 {
        Stop(alarm);
        Finish(alarm);
      } else {
        Reload(alarm, period);
      }
    }

    /** An alarm that is no longer registered needs no exemption. */
    ghost method Finish(alarm: Alarm)
      requires Valid() && running == alarm && !z.Lists(alarm)
      modifies this`running
      ensures Valid() && running == null
    {
      running := null;
    }

    method Reload(alarm: Alarm, period: UInt32)
      requires Valid() && running == alarm && period > 0 && z.Reloads(alarm, period, now)
      modifies this`z, this`running, alarm`time, alarm`rollover
      ensures Valid() && running == null && z == old(z).Rearm(alarm, period)
      ensures StampOf(alarm) == ReloadStamp(old(StampOf(alarm)), nticks, period)
    {
      ghost var was := StampOf(alarm);
      alarm.time := (alarm.time + period) % TWO_32;
      if alarm.time < nticks {
        alarm.rollover := true;
      }
      assert StampOf(alarm) == ReloadStamp(was, nticks, period);
      Rearmed(alarm, was, period);
    }

    /** The schedule follows the reloaded stamp. */
    ghost method Rearmed(alarm: Alarm, was: Stamp, period: UInt32)
      requires z.Valid() && head == z.before[0] && nticks == Counter(now) && Ring(z.before + z.after) && IdleLinks(z.idle)
      requires (z.Lists(alarm) || alarm in z.idle) && alarm !in z.after && period > 0
      requires Standing(z.before, z.due, now, head, alarm) && Standing(z.after, z.due, now - 1, head, alarm)
      requires z.Reloads(alarm, period, now) && Shows(was, z.due[alarm], now)
      requires StampOf(alarm) == ReloadStamp(was, nticks, period)
      modifies this`z, this`running
      ensures Valid() && running == null && z == old(z).Rearm(alarm, period)
    {
      ReloadStands(z, alarm, was, now, period);
      running := null;
      Adopt(z.Rearm(alarm, period));
    }

    // ---------------------------------------------------------------- callbacks that do not spare the traversal

    /**
     Exactly when a callback spares the traversal: from the successor saved before it, the next links lead back to the
     head right after it if, and only if, it did not stop that successor.
     */
    method CallbackSparesIff(alarm: Alarm, actions: seq<Action>, next: Alarm)
      requires Valid() && running == alarm && tickRate != 0 && z.after != [] && next == z.after[0]
      requires z.AllowsAll(actions, now) && forall n :: StartAlarm(next, n) !in actions
      modifies this`z, z.Alarms()`next, z.Alarms()`previous, Started(actions)`time, Started(actions)`rollover
      ensures Valid() && z == old(z).PerformAll(actions, now)
      ensures (exists k: nat :: Follow(next, k, z.Alarms()) == head) <==> StopAlarm(next) !in actions
    {
      SuccessorStaysIff(z, actions, now);
      RunCallback(alarm, actions);
      TraversalFrom(next);
    }

    /** A stopped alarm as the loop comes to it. */
    ghost predicate Halted(alarm: Alarm)
      reads this`z, this`now, alarm`time, alarm`rollover
    {
      z.before != [] && alarm in z.idle && alarm != z.before[0] && alarm in z.due && Halts(StampOf(alarm), z.due[alarm], now)
    }

    /**
     One turn of the loop of alt_tick at a stopped alarm: it is the next one again, whatever its callback does. The
     links from it lead back to the head exactly if its deadline has come and its callback leaves it registered and asks
     for a period; if the callback does not start it, the turn after this one finds it stopped as before.
     */
    method VisitStopped(alarm: Alarm, does: Behaviour) returns (next: Alarm)
      requires Valid() && running == null && tickRate != 0 && Halted(alarm) && z.TurnAllowed(alarm, does, now)
      modifies this`z, this`running, z.Alarms()
      ensures Valid() && running == null && next == alarm && z == old(z).Turn(alarm, does, now)
      ensures (exists k: nat :: Follow(next, k, z.Alarms()) == head) <==> z.Lists(alarm)
      ensures z.Lists(alarm) <==>
                old(z).IsDue(alarm, now) && old(z).PerformAll(does.actions, now).Lists(alarm) && does.period != 0
      ensures z.Lists(alarm) ==> alarm in Started(does.actions)
      ensures alarm !in Started(does.actions) ==> Halted(alarm)
    {
      next := alarm.next;
      TurnStaysOut(z, alarm, does, now);
      var expired := ExpireStopped(alarm);
      if expired {
        StartsOnlyKnown(z, does.actions, now);
        Callback(alarm, does);
        if alarm !in Started(does.actions) {
          StillHalted(alarm, old(z), does);
        }
      }
      TraversalFrom(alarm);
    }

    /** The comparison of a stopped alarm: true exactly when its deadline is now. */
    method ExpireStopped(alarm: Alarm) returns (expired: bool)
      requires Valid() && running == null && Halted(alarm)
      modifies this`running, alarm`rollover
      ensures Valid() && Halted(alarm) && (expired <==> z.IsDue(alarm, now))
      ensures running == (if expired then alarm else null) && (expired ==> StampOf(alarm) == Stamp(Counter(now), false))
    {
      HaltedTest(StampOf(alarm), z.due[alarm], now);
      if alarm.rollover && nticks == 0 {
        alarm.rollover := false;
      }
      expired := alarm.time <= nticks && !alarm.rollover;
      running := if expired then alarm else null;
    }

    lemma StillHalted(alarm: Alarm, was: Schedule, does: Behaviour)
      requires was.Valid() && alarm in was.idle && alarm != was.before[0] && was.TurnAllowed(alarm, does, now)
      requires alarm in was.due && was.due[alarm] == now > 0 && alarm !in Started(does.actions)
      requires nticks == Counter(now) && z == was.Turn(alarm, does, now)
      requires StampOf(alarm) == Settled(Stamp(Counter(now), false), does.period)
      ensures Halted(alarm)
    {
      TurnMovesDue(was, alarm, does, now);
      if does.period > 0 {
        HaltedReload(now, does.period);
      }
    }

    /** The links from an alarm that was ever registered lead to the head exactly if it is registered now. */
    lemma TraversalFrom(alarm: Alarm)
      requires Valid() && (alarm in z.idle || z.Lists(alarm)) && alarm != head
      ensures (exists k: nat :: Follow(alarm, k, z.Alarms()) == head) <==> z.Lists(alarm)
    {
      assert forall a :: a in z.before + z.after ==> a in z.Alarms();
      TraversalEndsIff(z.before + z.after, alarm, z.Alarms());
    }

    /**
     The loop of alt_tick at a stopped alarm, for any number of turns in which its callback, if it runs, does not start it:
     the loop has not come to its end.
     */
    method TickGoesOn(stopped: Alarm, script: nat -> Behaviour, turns: nat) returns (alarm: Alarm)
      requires Valid() && running == null && tickRate != 0 && Halted(stopped)
      requires z.TurnsAllowed(stopped, script, 0, turns, now)
      modifies this`z, this`running, z.Alarms()
      ensures Valid() && running == null && alarm == stopped != head && Halted(stopped)
      ensures forall k: nat :: Follow(alarm, k, z.Alarms()) != head
    {
      alarm := stopped;
      ghost var alarms := z.Alarms();
      for k := 0 to turns
        invariant Valid() && running == null && alarm == stopped && Halted(stopped) && z.Alarms() == alarms
        invariant z.TurnsAllowed(stopped, script, k, turns, now)
      {
        TurnStaysOut(z, stopped, script(k), now);
        alarm := VisitStopped(alarm, script(k));
      }
      TraversalFrom(stopped);
    }
  }

  /** A clock with two alarms, the first one registered to expire on the first tick. */
  method OneAlarm() returns (clock: Clock, one: Alarm, two: Alarm)
    ensures fresh(clock) && fresh(clock.z.Alarms()) && two in clock.z.blank
    ensures clock.Valid() && clock.running == null && clock.tickRate != 0 && clock.now == 0
    ensures clock.z.before == [clock.head, one] && clock.z.after == [] && one in clock.z.due && clock.z.due[one] == 1
  {
    one := new Alarm();
    two := new Alarm();
    clock := new Clock(1000, {one, two});
    assert fresh(clock.z.Alarms());
    var error := clock.Start(one, 0);
  }

  /** Two alarms, both to expire on the first tick. */
  method TwoAlarms() returns (clock: Clock, one: Alarm, two: Alarm)
    ensures fresh(clock) && fresh(clock.z.Alarms())
    ensures clock.Valid() && clock.running == null && clock.tickRate != 0 && clock.now == 0
    ensures clock.z.before == [clock.head, two, one] && clock.z.after == []
    ensures {one, two} <= clock.z.due.Keys && clock.z.due[one] == clock.z.due[two] == 1
  {
    clock, one, two := OneAlarm();
    var error := clock.Start(two, 0);
  }

  /** The first tick begins: both are to be visited. */
  method FirstTick() returns (clock: Clock, first: Alarm, next: Alarm)
    ensures fresh(clock) && fresh(clock.z.Alarms())
    ensures clock.Valid() && clock.running == null && clock.tickRate != 0 && clock.now == 1
    ensures clock.z.after == [first, next] && next != clock.head && clock.z.due[first] == clock.z.due[next] == 1
  {
    clock, next, first := TwoAlarms();
    clock.BeginTick();
  }

  /** The callback of the first of them is running, and the loop has saved the second as the next. */
  method FirstCallback() returns (clock: Clock, running: Alarm, next: Alarm)
    ensures fresh(clock) && fresh(clock.z.Alarms())
    ensures clock.Valid() && clock.running == running && clock.tickRate != 0 && clock.now == 1
    ensures clock.z.after == [next] && next != clock.head && running in clock.z.before
    ensures next in clock.z.due && clock.z.due[next] == 1 && Halts(StampOf(next), 1, 1)
    ensures running in clock.z.before[1..] && running in clock.z.due && clock.z.due[running] == 1
  {
    clock, running, next := FirstTick();
    next := clock.NextOf(running);
    assert running in clock.z.after && running in clock.z.Alarms();
    var expired := clock.Expire(running);
  }

  /** That callback stops the second alarm and asks for no other period. */
  method StopSecond(clock: Clock, running: Alarm, next: Alarm)
    requires clock.Valid() && clock.running == running && clock.tickRate != 0 && clock.now == 1
    requires clock.z.after == [next] && next in clock.z.due && clock.z.due[next] == 1 && Halts(StampOf(next), 1, 1)
    requires running in clock.z.before[1..] && running in clock.z.due && clock.z.due[running] == 1
    modifies clock`z, clock`running, clock.z.Alarms()`next, clock.z.Alarms()`previous, running`time, running`rollover
    ensures clock.Valid() && clock.running == null && clock.z.Alarms() == old(clock.z).Alarms()
    ensures clock.Halted(next) && clock.z.due[next] == 1
  {
    StopNext(clock.z, running, next);
    clock.Callback(running, Behaviour([StopAlarm(next)], 0));
  }

  lemma StopNext(z: Schedule, running: Alarm, next: Alarm)
    requires z.Valid() && z.after == [next] && running in z.before[1..] && running in z.due && z.due[running] == 1
    ensures z.AllowsAll([StopAlarm(next)], 1) && Started([StopAlarm(next)]) == {}
    ensures z.PerformAll([StopAlarm(next)], 1).Reloads(running, 0, 1)
    ensures var z' := z.PerformAll([StopAlarm(next)], 1).Rearm(running, 0);
            next in z'.idle && z'.due == z.due && z'.before != [] && z'.before[0] == z.before[0] && z'.Alarms() == z.Alarms()
  {
    var stop := [StopAlarm(next)];
    assert next in z.after && stop[1..] == [];
    StopKeepsValid(z, next);
    assert z.PerformAll(stop, 1) == z.Stop(next);
    StopKeepsValid(z.Stop(next), running);
  }

  /** Callbacks that do nothing and ask for no period leave a stopped alarm stopped for any number of turns. */
  lemma {:induction false} QuietTurns(z: Schedule, a: Alarm, k: nat, turns: nat, now: nat)
    requires z.Valid() && a in z.idle && a != z.before[0] && k <= turns && a in z.due && z.due[a] == now
    ensures z.TurnsAllowed(a, _ => Behaviour([], 0), k, turns, now)
    decreases turns - k
  {
    if k == turns {
    } else {
      assert z.idle + {a} == z.idle;
      assert z.Turn(a, Behaviour([], 0), now) == z;
      QuietTurns(z, a, k + 1, turns, now);
    }
  }

  /**
   A run from start-up whose tick never ends. Two alarms are due; the callback of the first stops the second, the
   successor the loop has saved, and the callback of the second does nothing. After any number of further turns the loop
   is still at the second alarm.
   */
  method EndlessTick(turns: nat) returns (clock: Clock, alarm: Alarm, ghost begun: Schedule)
    ensures clock.Valid() && clock.running == null && begun.after == [alarm]
    ensures alarm in clock.z.Alarms() && alarm != clock.head
    ensures forall k: nat :: Follow(alarm, k, clock.z.Alarms()) != clock.head
  {
    var running, next;
    clock, running, next := FirstCallback();
    begun := clock.z;
    StopSecond(clock, running, next);
    QuietTurns(clock.z, next, 0, turns, clock.now);
    alarm := clock.TickGoesOn(next, _ => Behaviour([], 0), turns);
  }
}
