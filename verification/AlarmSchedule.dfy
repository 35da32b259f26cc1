/**
 What the alarm facility is meant to do, over unbounded ticks: a cycle of registered alarms, each with a
 deadline, and the effect of one tick when the callbacks themselves start and stop alarms.
 */
module AlarmSchedule {
  import opened Words
  import opened AlarmList
  import opened AlarmTime

  /** What a callback may ask of the alarm facility while it runs. */
  datatype Action = StartAlarm(alarm: Alarm, nticks: UInt32) | StopAlarm(alarm: Alarm)

  /** A callback: what it does, in order, and the period it returns (zero to unregister its alarm). */
  datatype Behaviour = Behaviour(actions: seq<Action>, period: UInt32)

  /** The alarms that a callback starts. */
  ghost function Started(acts: seq<Action>): set<Alarm>
  {
    set act | act in acts && act.StartAlarm? :: act.alarm
  }

  /** What the callback of each alarm does if it runs during one tick. */
  type Script = Alarm -> Behaviour

  /**
   The registered alarms in list order with the head first: those the current tick is done with, then those it
   has still to visit (none between ticks). The idle alarms were unregistered, the blank ones never registered.
   */
  datatype Schedule = Schedule(
      before: seq<Alarm>, after: seq<Alarm>, idle: set<Alarm>, blank: set<Alarm>, due: map<Alarm, nat>) {

    ghost predicate Valid()
    {
      && before != [] && Distinct(before) && Distinct(after)
      && (forall a :: a in before ==> a !in after && a !in idle && a !in blank)
      && (forall a :: a in after ==> a !in idle && a !in blank && a in due)
      && (forall a :: a in before && a != before[0] ==> a in due)
      && (forall a :: a in idle ==> a !in blank)
    }

    ghost predicate Lists(a: Alarm) { a in before || a in after }

    ghost function Alarms(): set<Alarm>
    {
      (set a | a in before) + (set a | a in after) + idle + blank
    }

    // What one call does to the schedule.

    ghost function Start(a: Alarm, nticks: UInt32, now: nat): Schedule
      requires before != []
    {
      this.(before := [before[0], a] + before[1..], idle := idle - {a}, blank := blank - {a},
            due := due[a := now + nticks + 1])
    }

    ghost function Stop(a: Alarm): Schedule
    {
      this.(before := Without(before, a), after := Without(after, a), idle := idle + {a})
    }

    ghost function Perform(act: Action, now: nat): Schedule
      requires before != []
    {
      match act
      case StartAlarm(a, n) => Start(a, n, now)
      case StopAlarm(a) => Stop(a)
    }

    /**
     What the facility allows at any time: to start an alarm that is not registered, by a delay that its stamp can
     stand for, and to stop any alarm ever registered.
     */
    ghost predicate Allows(act: Action, now: nat)
      requires before != []
    {
      match act
      case StartAlarm(a, n) => (a in idle || a in blank) && (n < LAST || Counter(now) == LAST)
      case StopAlarm(a) => (a in idle || Lists(a)) && a != before[0]
    }

    ghost predicate AllowsAll(acts: seq<Action>, now: nat)
      requires Valid()
      decreases |acts|
    {
      acts == [] ||
      (Allows(acts[0], now) && (PerformKeepsValid(this, acts[0], now); Perform(acts[0], now).AllowsAll(acts[1..], now)))
    }

    /** What a callback may do during the traversal: all that is allowed but stop the alarm saved as the next. */
    ghost predicate PermitsAll(acts: seq<Action>, now: nat)
      requires Valid()
    {
      AllowsAll(acts, now) && (after != [] ==> StopAlarm(after[0]) !in acts)
    }

    ghost function PerformAll(acts: seq<Action>, now: nat): (z: Schedule)
      requires Valid() && AllowsAll(acts, now)
      ensures z.Valid() && z.Alarms() == Alarms() && z.before[0] == before[0] && |z.after| <= |after|
      ensures z.blank <= blank
      decreases |acts|
    {
      if acts == [] then this else
      PerformKeepsValid(this, acts[0], now);
      Perform(acts[0], now).PerformAll(acts[1..], now)
    }

    // One tick: the traversal passes the registered alarms one by one.

    ghost function Pass(): (z: Schedule)
      requires Valid() && after != []
      ensures z.Valid() && z.Alarms() == Alarms() && z.before[0] == before[0]
    {
      PassKeepsValid(this);
      this.(before := before + [after[0]], after := after[1..])
    }

    ghost predicate IsDue(a: Alarm, now: nat)
    {
      a in due && due[a] <= now
    }

    /** After a callback its alarm is unregistered, or its deadline moves by the period it asked for. */
    ghost function Rearm(a: Alarm, period: UInt32): Schedule
    {
      if period == 0 then Stop(a)
      else if a in due then this.(due := due[a := due[a] + period])
      else this
    }

    ghost predicate VisitPermitted(now: nat, script: Script)
      requires Valid() && after != []
    {
      IsDue(after[0], now) ==>
        Pass().PermitsAll(script(after[0]).actions, now) &&
        Pass().PerformAll(script(after[0]).actions, now).Reloads(after[0], script(after[0]).period, now)
    }

    /** A period asked for leaves the deadline less than one turn of the counter ahead. */
    ghost predicate Reloads(a: Alarm, period: UInt32, now: nat)
    {
      a in due && due[a] + period < now + TWO_32
    }

    ghost function Visit(now: nat, script: Script): (z: Schedule)
      requires Valid() && after != [] && VisitPermitted(now, script)
      ensures z.Valid() && z.Alarms() == Alarms() && z.before[0] == before[0] && |z.after| < |after|
    {
      var a := after[0];
      if IsDue(a, now) then
        var z := Pass().PerformAll(script(a).actions, now);
        StaysKnown(Pass(), script(a).actions, now, a);
        z.Rearm(a, script(a).period)
      else Pass()
    }

    // One turn of the loop at an alarm that is not registered: nothing is passed.

    ghost predicate TurnAllowed(a: Alarm, does: Behaviour, now: nat)
      requires Valid()
    {
      IsDue(a, now) ==> AllowsAll(does.actions, now) && PerformAll(does.actions, now).Reloads(a, does.period, now)
    }

    ghost function Turn(a: Alarm, does: Behaviour, now: nat): (z: Schedule)
      requires Valid() && a in idle && a != before[0] && TurnAllowed(a, does, now)
      ensures z.Valid() && z.Alarms() == Alarms() && z.before[0] == before[0] && (z.Lists(a) || a in z.idle)
    {
      if IsDue(a, now) then
        StaysKnown(this, does.actions, now, a);
        PerformAll(does.actions, now).Rearm(a, does.period)
      else this
    }

    /** Further turns at the same alarm, none of whose callbacks starts it. */
    ghost predicate TurnsAllowed(a: Alarm, script: nat -> Behaviour, k: nat, turns: nat, now: nat)
      requires Valid() && a in idle && a != before[0] && k <= turns
      decreases turns - k
    {
      k == turns ||
      (&& a !in Started(script(k).actions) && TurnAllowed(a, script(k), now)
       && (TurnStaysOut(this, a, script(k), now); Turn(a, script(k), now).TurnsAllowed(a, script, k + 1, turns, now)))
    }

    ghost predicate WalkPermitted(now: nat, script: Script)
      requires Valid()
      decreases |after|
    {
      after == [] || (VisitPermitted(now, script) && Visit(now, script).WalkPermitted(now, script))
    }

    /** The whole traversal of one tick. */
    ghost function Walk(now: nat, script: Script): (z: Schedule)
      requires Valid() && WalkPermitted(now, script)
      ensures z.Valid() && z.Alarms() == Alarms() && z.before[0] == before[0] && z.after == []
      decreases |after|
    {
      if after == [] then this else Visit(now, script).Walk(now, script)
    }

    /** The alarms the traversal visits, in order. */
    ghost function Visited(now: nat, script: Script): seq<Alarm>
      requires Valid() && WalkPermitted(now, script)
      decreases |after|
    {
      if after == [] then [] else [after[0]] + Visit(now, script).Visited(now, script)
    }

    /** The alarms whose callbacks the traversal runs, in order. */
    ghost function Called(now: nat, script: Script): seq<Alarm>
      requires Valid() && WalkPermitted(now, script)
      decreases |after|
    {
      if after == [] then []
      else (if IsDue(after[0], now) then [after[0]] else []) + Visit(now, script).Called(now, script)
    }

    /** The rest of the traversal is permitted, leads to the given schedule, and makes the given callbacks. */
    ghost predicate Leads(now: nat, script: Script, walk: Schedule, left: seq<Alarm>)
      requires Valid()
      decreases |after|
    {
      if after == [] then this == walk && left == []
      else
        && VisitPermitted(now, script)
        && (IsDue(after[0], now) ==> left != [] && left[0] == after[0])
        && Visit(now, script).Leads(now, script, walk, if IsDue(after[0], now) then left[1..] else left)
    }

    /** A new tick: everything registered is to be visited. */
    ghost function NewTick(): (z: Schedule)
      requires Valid() && after == []
      ensures z.Valid() && z.Alarms() == Alarms() && z.before[0] == before[0]
    {
      NewTickKeepsValid(this);
      this.(before := before[..1], after := before[1..])
    }
  }

  lemma StartKeepsValid(z: Schedule, a: Alarm, nticks: UInt32, now: nat)
    requires z.Valid() && (a in z.idle || a in z.blank)
    ensures z.Start(a, nticks, now).Valid() && z.Start(a, nticks, now).Alarms() == z.Alarms()
  {
    var z' := z.Start(a, nticks, now);
    assert forall x :: x in z'.before <==> x in z.before || x == a;
  }

  lemma StopKeepsValid(z: Schedule, a: Alarm)
    requires z.Valid() && (a in z.idle || z.Lists(a)) && a != z.before[0]
    ensures z.Stop(a).Valid() && z.Stop(a).Alarms() == z.Alarms() && z.Stop(a).before[0] == z.before[0]
    ensures |z.Stop(a).after| <= |z.after|
  {
    WithoutKeepsDistinct(z.before, a);
    WithoutKeepsDistinct(z.after, a);
  }

  lemma PerformKeepsValid(z: Schedule, act: Action, now: nat)
    requires z.Valid() && z.Allows(act, now)
    ensures z.Perform(act, now).Valid() && z.Perform(act, now).Alarms() == z.Alarms()
    ensures z.Perform(act, now).before[0] == z.before[0] && |z.Perform(act, now).after| <= |z.after|
    ensures z.Perform(act, now).blank <= z.blank
  {
    match act
    case StartAlarm(a, n) =>
      StartKeepsValid(z, a, n, now);
      assert forall x :: x in z.before ==> x in z.Start(a, n, now).before;
    case StopAlarm(a) => StopKeepsValid(z, a);
  }

  /** A callback starts no alarm but those of the schedule. */
  lemma {:induction false} StartsOnlyKnown(z: Schedule, acts: seq<Action>, now: nat)
    requires z.Valid() && z.AllowsAll(acts, now)
    ensures Started(acts) <= z.Alarms()
    decreases |acts|
  {
    if acts == [] {
    } else {
      PerformKeepsValid(z, acts[0], now);
      StartsOnlyKnown(z.Perform(acts[0], now), acts[1..], now);
      assert forall act :: act in acts <==> act == acts[0] || act in acts[1..];
    }
  }

  /** After its callback an alarm can be rearmed. */
  lemma StaysKnown(z: Schedule, acts: seq<Action>, now: nat, a: Alarm)
    requires z.Valid() && z.AllowsAll(acts, now) && (z.Lists(a) || a in z.idle) && a != z.before[0]
    ensures var z' := z.PerformAll(acts, now);
            && (z'.Lists(a) || a in z'.idle) && a != z'.before[0]
            && z'.Stop(a).Valid() && z'.Stop(a).Alarms() == z.Alarms() && z'.Stop(a).before[0] == z.before[0]
            && |z'.Stop(a).after| <= |z.after|
  {
    assert a in z.Alarms() && a !in z.blank;
    StopKeepsValid(z.PerformAll(acts, now), a);
  }

  lemma PassKeepsValid(z: Schedule)
    requires z.Valid() && z.after != []
    ensures var z' := z.(before := z.before + [z.after[0]], after := z.after[1..]);
            z'.Valid() && z'.Alarms() == z.Alarms()
  {
    var z' := z.(before := z.before + [z.after[0]], after := z.after[1..]);
    assert z.after[0] in z.after;
    assert forall x :: x in z.after <==> x == z.after[0] || x in z'.after;
    assert forall i :: 0 <= i < |z'.after| ==> z'.after[i] == z.after[i + 1];
  }

  lemma NewTickKeepsValid(z: Schedule)
    requires z.Valid() && z.after == []
    ensures var z' := z.(before := z.before[..1], after := z.before[1..]);
            z'.Valid() && z'.Alarms() == z.Alarms()
  {
    var z' := z.(before := z.before[..1], after := z.before[1..]);
    assert z.before == [z.before[0]] + z'.after;
    assert forall i :: 0 <= i < |z'.after| ==> z'.after[i] == z.before[i + 1];
  }

  /** The head is never still to be visited. */
  lemma HeadIsPassed(z: Schedule)
    requires z.Valid()
    ensures z.after != [] ==> z.after[0] != z.before[0]
  {
    assert z.before[0] in z.before;
  }

  /** A permitted traversal leads to its walk, with its callbacks. */
  lemma {:induction false} WalkLeads(z: Schedule, now: nat, script: Script)
    requires z.Valid() && z.WalkPermitted(now, script)
    ensures z.Leads(now, script, z.Walk(now, script), z.Called(now, script))
    decreases |z.after|
  {
    if z.after == [] {
    } else {
      var y, calls := z.Visit(now, script), z.Called(now, script);
      WalkStep(z, now, script);
      WalkLeads(y, now, script);
      assert y.Called(now, script) == if z.IsDue(z.after[0], now) then calls[1..] else calls;
    }
  }

  /** One visit of the traversal leaves the rest of it to do. */
  lemma WalkStep(z: Schedule, now: nat, script: Script)
    requires z.Valid() && z.after != [] && z.WalkPermitted(now, script)
    ensures z.VisitPermitted(now, script) && z.Visit(now, script).WalkPermitted(now, script)
    ensures z.Visit(now, script).Walk(now, script) == z.Walk(now, script)
    ensures (if z.IsDue(z.after[0], now) then [z.after[0]] else []) + z.Visit(now, script).Called(now, script)
         == z.Called(now, script)
  {
  }

  // ------------------------------------------------------------------ what one tick visits

  /** The alarms of t, wherever they stand in s, have the same deadlines there. */
  ghost predicate TailOf(t: Schedule, s: Schedule)
  {
    forall a :: a in t.after ==> a in s.after && a in s.due && a in t.due && t.due[a] == s.due[a]
  }

  /** Callbacks cannot add to what is left of the traversal, and drop from it only what they stop. */
  lemma {:induction false} ActionsShrinkTail(z: Schedule, acts: seq<Action>, now: nat)
    requires z.Valid() && z.AllowsAll(acts, now)
    ensures TailOf(z.PerformAll(acts, now), z)
    ensures forall a :: a in z.after && StopAlarm(a) !in acts ==> a in z.PerformAll(acts, now).after
    decreases |acts|
  {
    if acts == [] {
    } else {
      var z' := z.Perform(acts[0], now);
      PerformKeepsValid(z, acts[0], now);
      ActionsShrinkTail(z', acts[1..], now);
      assert TailOf(z', z);
      forall a | a in z.after && StopAlarm(a) !in acts
        ensures a in z'.after && StopAlarm(a) !in acts[1..]
      {
        assert acts[0] in acts;
      }
    }
  }

  /** The successor saved before a callback is still the next to visit after it, if the callback does not stop it. */
  lemma {:induction false} ActionsKeepSuccessor(z: Schedule, acts: seq<Action>, now: nat)
    requires z.Valid() && z.PermitsAll(acts, now)
    ensures var z' := z.PerformAll(acts, now);
            if z.after == [] then z'.after == [] else z'.after != [] && z'.after[0] == z.after[0]
    decreases |acts|
  {
    if acts == [] {
    } else {
      PerformKeepsValid(z, acts[0], now);
      assert acts[0] in acts && forall x :: x in acts[1..] ==> x in acts;
      ActionsKeepSuccessor(z.Perform(acts[0], now), acts[1..], now);
    }
  }

  /** An alarm that a callback stops, and does not start again, is not registered after it. */
  lemma {:induction false} StoppedStaysOut(z: Schedule, acts: seq<Action>, now: nat, a: Alarm)
    requires z.Valid() && z.AllowsAll(acts, now) && (StopAlarm(a) in acts || a in z.idle)
    requires forall n :: StartAlarm(a, n) !in acts
    ensures a in z.PerformAll(acts, now).idle
    decreases |acts|
  {
    if acts == [] {
    } else {
      PerformKeepsValid(z, acts[0], now);
      assert acts[0] in acts && forall x :: x in acts[1..] ==> x in acts;
      assert acts == [acts[0]] + acts[1..];
      StoppedStaysOut(z.Perform(acts[0], now), acts[1..], now, a);
    }
  }

  /** Callbacks leave the deadline of an alarm that they do not start alone. */
  lemma {:induction false} PerformKeepsDue(z: Schedule, acts: seq<Action>, now: nat, a: Alarm)
    requires z.Valid() && z.AllowsAll(acts, now) && a !in Started(acts) && a in z.due
    ensures a in z.PerformAll(acts, now).due && z.PerformAll(acts, now).due[a] == z.due[a]
    decreases |acts|
  {
    if acts == [] {
    } else {
      PerformKeepsValid(z, acts[0], now);
      assert acts[0] in acts && forall x :: x in acts[1..] ==> x in acts;
      PerformKeepsDue(z.Perform(acts[0], now), acts[1..], now, a);
    }
  }

  /**
   Exactly when a stopped alarm is registered after a turn: when its deadline has come, and its callback leaves it
   registered, for which it has to start it, and asks for a period.
   */
  lemma TurnStaysOut(z: Schedule, a: Alarm, does: Behaviour, now: nat)
    requires z.Valid() && a in z.idle && a != z.before[0] && z.TurnAllowed(a, does, now)
    ensures var z' := z.Turn(a, does, now);
            && (z'.Lists(a) <==> z.IsDue(a, now) && z.PerformAll(does.actions, now).Lists(a) && does.period != 0)
            && (z'.Lists(a) ==> a in Started(does.actions))
  {
    if z.IsDue(a, now) {
      if does.period == 0 {
        StopKeepsValid(z.PerformAll(does.actions, now), a);
      } else if a !in Started(does.actions) {
        forall n
          ensures StartAlarm(a, n) !in does.actions
        {
        }
        StoppedStaysOut(z, does.actions, now, a);
      }
    }
  }

  /** At a stopped alarm whose deadline has come, a callback that does not start it moves the deadline by the period. */
  lemma TurnMovesDue(z: Schedule, a: Alarm, does: Behaviour, now: nat)
    requires z.Valid() && a in z.idle && a != z.before[0] && z.TurnAllowed(a, does, now)
    requires z.IsDue(a, now) && a !in Started(does.actions)
    ensures var z' := z.Turn(a, does, now);
            a in z'.idle && a != z'.before[0] && a in z'.due && z'.due[a] == z.due[a] + does.period
  {
    TurnStaysOut(z, a, does, now);
    PerformKeepsDue(z, does.actions, now, a);
  }

  /**
   Exactly which callbacks spare the traversal: among those that do not start the saved successor again, the ones that
   do not stop it.
   */
  lemma SuccessorStaysIff(z: Schedule, acts: seq<Action>, now: nat)
    requires z.Valid() && z.after != [] && z.AllowsAll(acts, now)
    requires forall n :: StartAlarm(z.after[0], n) !in acts
    ensures var z' := z.PerformAll(acts, now);
            && (z'.after != [] && z'.after[0] == z.after[0] <==> StopAlarm(z.after[0]) !in acts)
            && (StopAlarm(z.after[0]) in acts <==> z.after[0] in z'.idle)
  {
    if StopAlarm(z.after[0]) in acts {
      StoppedStaysOut(z, acts, now, z.after[0]);
    } else {
      ActionsKeepSuccessor(z, acts, now);
    }
  }

  lemma RearmKeepsTail(z: Schedule, a: Alarm, period: UInt32)
    requires z.Valid() && a !in z.after
    ensures z.Rearm(a, period).after == z.after
    ensures TailOf(z.Rearm(a, period), z)
  {
  }

  lemma VisitShrinksTail(z: Schedule, now: nat, script: Script)
    requires z.Valid() && z.after != [] && z.VisitPermitted(now, script)
    ensures TailOf(z.Visit(now, script), z) && z.after[0] !in z.Visit(now, script).after
    ensures forall a :: a in z.after && a != z.after[0] && StopAlarm(a) !in script(z.after[0]).actions
                        ==> a in z.Visit(now, script).after
  {
    var first, y := z.after[0], z.Pass();
    assert y.after == z.after[1..] && y.due == z.due && first in y.before;
    assert forall a :: a in z.after && a != first ==> a in y.after;
    if z.IsDue(first, now) {
      ActionsShrinkTail(y, script(first).actions, now);
      RearmKeepsTail(y.PerformAll(script(first).actions, now), first, script(first).period);
    }
  }

  /** Nothing registered at the start of the tick is visited twice, and nothing else is visited at all. */
  lemma {:induction false} VisitedAtMostOnce(z: Schedule, now: nat, script: Script)
    requires z.Valid() && z.WalkPermitted(now, script)
    ensures Distinct(z.Visited(now, script))
    ensures forall a :: a in z.Visited(now, script) ==> a in z.after
    decreases |z.after|
  {
    if z.after == [] {
    } else {
      VisitShrinksTail(z, now, script);
      VisitedAtMostOnce(z.Visit(now, script), now, script);
    }
  }

  /** Everything registered at the start of the tick is visited, unless a callback of this tick stops it. */
  lemma {:induction false} VisitedUnlessStopped(z: Schedule, now: nat, script: Script, a: Alarm)
    requires z.Valid() && z.WalkPermitted(now, script) && a in z.after
    requires forall b :: b in z.Called(now, script) ==> StopAlarm(a) !in script(b).actions
    ensures a in z.Visited(now, script)
    decreases |z.after|
  {
    var first := z.after[0];
    if a == first {
    } else {
      VisitShrinksTail(z, now, script);
      WalkStep(z, now, script);
      assert z.IsDue(first, now) ==> first in z.Called(now, script);
      assert forall b :: b in z.Visit(now, script).Called(now, script) ==> b in z.Called(now, script);
      VisitedUnlessStopped(z.Visit(now, script), now, script, a);
    }
  }

  /** The visited alarms whose deadline had come. */
  ghost function DueOnly(alarms: seq<Alarm>, due: map<Alarm, nat>, now: nat): seq<Alarm>
  {
    if alarms == [] then []
    else (if alarms[0] in due && due[alarms[0]] <= now then [alarms[0]] else []) + DueOnly(alarms[1..], due, now)
  }

  lemma {:induction false} DueOnlyDependsOnMembers(alarms: seq<Alarm>, due: map<Alarm, nat>, due': map<Alarm, nat>, now: nat)
    requires forall a :: a in alarms ==> a in due && a in due' && due[a] == due'[a]
    ensures DueOnly(alarms, due, now) == DueOnly(alarms, due', now)
  {
    if alarms == [] {
    } else {
      assert alarms[0] in alarms;
      DueOnlyDependsOnMembers(alarms[1..], due, due', now);
    }
  }

  /** The callbacks run are those of the visited alarms that were due at the start of the tick, in list order. */
  lemma {:induction false} CalledWhenDue(z: Schedule, now: nat, script: Script)
    requires z.Valid() && z.WalkPermitted(now, script)
    ensures z.Called(now, script) == DueOnly(z.Visited(now, script), z.due, now)
    decreases |z.after|
  {
    if z.after == [] {
    } else {
      var z' := z.Visit(now, script);
      VisitShrinksTail(z, now, script);
      CalledWhenDue(z', now, script);
      VisitedAtMostOnce(z', now, script);
      DueOnlyDependsOnMembers(z'.Visited(now, script), z'.due, z.due, now);
      assert z.Visited(now, script)[1..] == z'.Visited(now, script);
    }
  }

  lemma {:induction false} DueOnlyMembers(alarms: seq<Alarm>, due: map<Alarm, nat>, now: nat, a: Alarm)
    ensures a in DueOnly(alarms, due, now) <==> a in alarms && a in due && due[a] <= now
  {
    if alarms == [] {
    } else {
      DueOnlyMembers(alarms[1..], due, now, a);
      assert a in alarms <==> a == alarms[0] || a in alarms[1..];
    }
  }

  /**
   On time: when no deadline has been missed before, a callback runs in this tick only if the deadline of its
   alarm is this tick, and it does run for every such alarm that no callback of this tick stops.
   */
  lemma CalledOnTime(z: Schedule, now: nat, script: Script)
    requires z.Valid() && z.WalkPermitted(now, script) && forall a :: a in z.after ==> z.due[a] >= now
    ensures forall a :: a in z.Called(now, script) ==> a in z.after && z.due[a] == now
    ensures forall a :: a in z.after && z.due[a] == now &&
                        (forall b :: b in z.Called(now, script) ==> StopAlarm(a) !in script(b).actions)
                        ==> a in z.Called(now, script)
  {
    CalledWhenDue(z, now, script);
    VisitedAtMostOnce(z, now, script);
    forall a | a in z.after
      ensures a in z.Called(now, script) <==> a in z.Visited(now, script) && z.due[a] <= now
    {
      DueOnlyMembers(z.Visited(now, script), z.due, now, a);
    }
    forall a | a in z.Called(now, script)
      ensures a in z.after && z.due[a] == now
    {
      DueOnlyMembers(z.Visited(now, script), z.due, now, a);
    }
    forall a | a in z.after && forall b :: b in z.Called(now, script) ==> StopAlarm(a) !in script(b).actions
      ensures a in z.Visited(now, script)
    {
      VisitedUnlessStopped(z, now, script, a);
    }
  }
}
