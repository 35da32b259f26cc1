/**
 Enumeration: the state machine that attaches a device, shared by the polled task and the bus interrupt handler,
 and the order in which enumeration reaches its milestones on every run.
 */
module UsbTask {
  import opened Words
  import opened TransferSpec

  const DETACHED: Byte := 0x00
  const INITIALIZE: Byte := 0x01
  const WAIT_FOR_DEVICE: Byte := 0x03
  const ILLEGAL: Byte := 0x04
  const ATTACHED: Byte := 0x10
  const SETTLE: Byte := 0x11
  const RESET_DEVICE: Byte := 0x12
  const WAIT_RESET_COMPLETE: Byte := 0x13
  const WAIT_SOF: Byte := 0x14
  const GET_DEVICE_DESCRIPTOR_SIZE: Byte := 0x15
  const ADDRESSING: Byte := 0x20
  const CONFIGURING: Byte := 0x30
  const RUNNING: Byte := 0x40
  const ERROR: Byte := 0xFF

  const NO_ADDRESS: Byte := 0xFE
  const NO_DRIVER: Byte := 0xFD
  const SETTLE_MS: nat := 200
  const NUM_DEVICES: nat := 8
  const NUM_CLASSES: nat := 4

  // ------------------------------------------------------------------ what one step does

  /** Which entries of the device table have endpoint information. */
  type Slots = s: seq<bool> | |s| == NUM_DEVICES + 1
    witness [false, false, false, false, false, false, false, false, false]

  datatype Machine = Machine(state: Byte, error: Byte, last: Byte, delay: nat, tmpAddr: Byte, used: Slots)

  /** What one call of USB_Task finds: Ms of the tick, the controller's registers, and how each transfer ends. */
  datatype World = World(
      ms: UInt32, busReset: bool, hirq: Byte, descriptor: Byte, setAddress: Byte, mouse: bool, keyboard: bool)

  /** The power-on values of the state machine's variables. */
  const BOOT: Machine :=
    Machine(INITIALIZE, 0, 0, 0, 0, [false, false, false, false, false, false, false, false, false])

  /** The state masked with 0xf0 is the given group. */
  predicate In(state: Byte, group: Byte) { group <= state < group + 0x10 }

  function Cleared(m: Machine): Machine
  {
    m.(used := [true, false, false, false, false, false, false, false, false])
  }

  function Failed(m: Machine, code: Byte): Machine
  {
    m.(error := code, last := m.state, state := ERROR)
  }

  /** The least free address from some address on; address 8 is never used. */
  function LeastFree(used: Slots, from: nat): (slot: Option<nat>)
    ensures slot.Some? ==> from <= slot.value < NUM_DEVICES && !used[slot.value]
    ensures forall i :: from <= i < (if slot.Some? then slot.value else NUM_DEVICES) ==> used[i]
    decreases NUM_DEVICES - from
  {
    if from >= NUM_DEVICES then None else if !used[from] then Some(from) else LeastFree(used, from + 1)
  }

  /** A register value with the frame bit, 0x40, set. */
  function WithFrameBit(hirq: Byte): Byte
  {
    if hirq / 0x40 % 2 == 1 then hirq else hirq + 0x40
  }

  /** Class driver i's probe: only the two HID drivers can accept a device. */
  predicate Probe(i: nat, w: World) { (i == 1 && w.mouse) || (i == 2 && w.keyboard) }

  function TaskStep(m: Machine, w: World): Machine
  {
    if In(m.state, DETACHED) then
      if m.state == INITIALIZE then Cleared(m).(state := WAIT_FOR_DEVICE) else m
    else if In(m.state, ATTACHED) then AttachedStep(m, w)
    else if In(m.state, ADDRESSING) then
      match LeastFree(m.used, 1)
      case Some(i) =>
        var taken := m.(used := m.used[i := true]);
        if w.setAddress == 0 then taken.(tmpAddr := i, state := CONFIGURING) else Failed(taken, w.setAddress)
      case None => if m.state == ADDRESSING then Failed(m, NO_ADDRESS) else m
    else if In(m.state, CONFIGURING) then
      if w.mouse || w.keyboard then m.(state := RUNNING)
      else if m.state == CONFIGURING then Failed(m, NO_DRIVER) else m
    else m
  }

  function AttachedStep(m: Machine, w: World): Machine
  {
    if m.state == ATTACHED then m.(delay := w.ms + SETTLE_MS, state := SETTLE)
    else if m.state == SETTLE then if w.ms > m.delay then m.(state := RESET_DEVICE) else m
    else if m.state == RESET_DEVICE then m.(state := WAIT_RESET_COMPLETE)
    else if m.state == WAIT_RESET_COMPLETE then if w.busReset then m else m.(state := WAIT_SOF)
    else if m.state == WAIT_SOF then if WithFrameBit(w.hirq) != 0 then m.(state := GET_DEVICE_DESCRIPTOR_SIZE) else m
    else if m.state == GET_DEVICE_DESCRIPTOR_SIZE then
      if w.descriptor == 0 then m.(state := ADDRESSING) else Failed(m, w.descriptor)
    else m
  }

  /** MAX_busprobe: the two line-state bits are J, K, both (illegal), or neither (disconnected). */
  function Probed(m: Machine, hrsl: Byte): Machine
  {
    var lines := hrsl / 0x40;
    if lines == 1 || lines == 2 then
      if m.state != WAIT_RESET_COMPLETE then m.(state := ATTACHED) else m
    else if lines == 3 then m.(state := ILLEGAL)
    else if !In(m.state, DETACHED) then m.(state := INITIALIZE)
    else m.(state := WAIT_FOR_DEVICE)
  }

  /** The bare increment of the bus event handler, in one byte. */
  function Incremented(m: Machine): Machine
  {
    m.(state := if m.state == 0xFF then 0 else m.state + 1)
  }

  predicate ConnectBit(hirq: Byte) { hirq / 0x20 % 2 == 1 }
  predicate BusEventBit(hirq: Byte) { hirq % 2 == 1 }

  function AfterConnect(m: Machine, hirq: Byte, hrsl: Byte): Machine
  {
    if ConnectBit(hirq) then Probed(m, hrsl) else m
  }

  function InterruptStep(m: Machine, hirq: Byte, hrsl: Byte): Machine
  {
    var connected := AfterConnect(m, hirq, hrsl);
    if BusEventBit(hirq) then Incremented(connected) else connected
  }

  /** The program's events: a task call, an interrupt, and the controller being initialised again. */
  datatype Event = Task(w: World) | Interrupt(hirq: Byte, hrsl: Byte) | Restart(hrsl: Byte)

  function Step(m: Machine, e: Event): Machine
  {
    match e
    case Task(w) => TaskStep(m, w)
    case Interrupt(hirq, hrsl) => InterruptStep(m, hirq, hrsl)
    case Restart(hrsl) => Cleared(Probed(m, hrsl))
  }

  // ------------------------------------------------------------------ what a run has done

  datatype Milestone = Described | Addressed(slot: nat) | Accepted

  /**
   The milestones since the last attachment, the addresses tried since the table was last cleared, the millisecond
   at which the settle delay was set for this attachment, and whether the attaching interrupt carried a bus event too.
   */
  datatype History = History(milestones: seq<Milestone>, tried: nat, armedAt: Option<UInt32>, skipped: bool)

  /** The milestone a call of USB_Task reaches, judged by the transfers that succeed in it. */
  function Reached(m: Machine, w: World): seq<Milestone>
  {
    if m.state == GET_DEVICE_DESCRIPTOR_SIZE && w.descriptor == 0 then [Described]
    else if In(m.state, ADDRESSING) && LeastFree(m.used, 1).Some? && w.setAddress == 0 then
      [Addressed(LeastFree(m.used, 1).value)]
    else if In(m.state, CONFIGURING) && (w.mouse || w.keyboard) then [Accepted]
    else []
  }

  function RecordedTask(h: History, m: Machine, w: World): History
  {
    History(
      h.milestones + Reached(m, w),
      if m.state == INITIALIZE then 0
      else if In(m.state, ADDRESSING) && LeastFree(m.used, 1).Some? then h.tried + 1
      else h.tried,
      if m.state == ATTACHED then Some(w.ms) else h.armedAt,
      h.skipped)
  }

  /** The interrupt attaches a device: in its probe, or by an increment that leads to ATTACHED. */
  predicate Attaches(m: Machine, hirq: Byte, hrsl: Byte)
  {
    AfterConnect(m, hirq, hrsl).state == ATTACHED || InterruptStep(m, hirq, hrsl).state == ATTACHED
  }

  function Recorded(h: History, m: Machine, e: Event): History
  {
    match e
    case Task(w) => RecordedTask(h, m, w)
    case Interrupt(hirq, hrsl) =>
      if Attaches(m, hirq, hrsl) then h.(milestones := [], armedAt := None, skipped := BusEventBit(hirq)) else h
    case Restart(hrsl) =>
      if Probed(m, hrsl).state == ATTACHED then History([], 0, None, false) else h.(tried := 0)
  }

  datatype Run = Run(machine: Machine, history: History)

  function Next(r: Run, e: Event): Run
  {
    Run(Step(r.machine, e), Recorded(r.history, r.machine, e))
  }

  /** main: the controller and the table are initialised, then events happen in any order. */
  function After(hrsl: Byte, events: seq<Event>): Run
  {
    if events == [] then Run(Step(BOOT, Restart(hrsl)), History([], 0, None, false))
    else
      var n := |events| - 1;
      Next(After(hrsl, events[..n]), events[n])
  }

  // ------------------------------------------------------------------ enumeration happens in order

  /** The milestones behind a state are exactly those that lead to it, and the table holds the addresses tried. */
  ghost predicate InOrder(m: Machine, h: History)
  {
    && TriedInTurn(m.used, h.tried)
    && (In(m.state, ATTACHED) ==> h.milestones == [])
    && (In(m.state, ADDRESSING) ==> h.milestones == [Described])
    && (In(m.state, CONFIGURING) ==> 1 <= m.tmpAddr == h.tried && h.milestones == [Described, Addressed(m.tmpAddr)])
    && (In(m.state, RUNNING) ==> 1 <= m.tmpAddr == h.tried && h.milestones == [Described, Addressed(m.tmpAddr), Accepted])
  }

  /** Addresses are tried in turn from 1 on, each once. */
  ghost predicate TriedInTurn(used: Slots, tried: nat)
  {
    tried < NUM_DEVICES && forall i :: 0 <= i <= NUM_DEVICES ==> (used[i] <==> i <= tried)
  }

  lemma LeastFreeIsNext(used: Slots, tried: nat)
    requires TriedInTurn(used, tried)
    ensures LeastFree(used, 1) == if tried < 7 then Some(tried + 1) else None
  {
    assert tried + 1 < NUM_DEVICES ==> !used[tried + 1];
  }

  /** The bare increment fires in the last state of a group, and so enters the next group unearned. */
  predicate Harmful(m: Machine, e: Event)
  {
    e.Interrupt? && BusEventBit(e.hirq) && AfterConnect(m, e.hirq, e.hrsl).state in {0x1F, 0x2F, 0x3F}
  }

  lemma AddressingKeepsOrder(m: Machine, h: History, w: World)
    requires InOrder(m, h) && In(m.state, ADDRESSING)
    ensures InOrder(TaskStep(m, w), RecordedTask(h, m, w))
  {
    LeastFreeIsNext(m.used, h.tried);
    assert [Described] + [Addressed(h.tried + 1)] == [Described, Addressed(h.tried + 1)];
  }

  lemma AttachedKeepsOrder(m: Machine, h: History, w: World)
    requires InOrder(m, h) && In(m.state, ATTACHED)
    ensures InOrder(TaskStep(m, w), RecordedTask(h, m, w))
  {
    AttachedStepLeads(m, w);
    assert [] + Reached(m, w) == Reached(m, w);
  }

  /** Where an attached substate leads: within its group, to addressing after the descriptor, or to the error state. */
  lemma AttachedStepLeads(m: Machine, w: World)
    requires In(m.state, ATTACHED)
    ensures var next := TaskStep(m, w);
            && next.used == m.used && next.tmpAddr == m.tmpAddr
            && if m.state == GET_DEVICE_DESCRIPTOR_SIZE then
                 next.state == if w.descriptor == 0 then ADDRESSING else ERROR
               else In(next.state, ATTACHED)
  {
  }

  lemma OtherTasksKeepOrder(m: Machine, h: History, w: World)
    requires InOrder(m, h) && !In(m.state, ADDRESSING) && !In(m.state, ATTACHED)
    ensures InOrder(TaskStep(m, w), RecordedTask(h, m, w))
  {
    assert h.milestones + [] == h.milestones;
  }

  /** A step keeps the order exactly when it is not a harmful increment. */
  lemma StepKeepsOrderIff(m: Machine, h: History, e: Event)
    requires InOrder(m, h)
    ensures InOrder(Step(m, e), Recorded(h, m, e)) <==> !Harmful(m, e)
  {
    if e.Task? {
      if In(m.state, ADDRESSING) {
        AddressingKeepsOrder(m, h, e.w);
      } else if In(m.state, ATTACHED) {
        AttachedKeepsOrder(m, h, e.w);
      } else {
        OtherTasksKeepOrder(m, h, e.w);
      }
    }
  }

  ghost predicate Harmless(hrsl: Byte, events: seq<Event>)
  {
    forall n :: 0 <= n < |events| ==> !Harmful(After(hrsl, events[..n]).machine, events[n])
  }

  ghost predicate InOrderAllAlong(hrsl: Byte, events: seq<Event>)
  {
    forall n :: 0 <= n <= |events| ==>
      InOrder(After(hrsl, events[..n]).machine, After(hrsl, events[..n]).history)
  }

  lemma AfterOneMore(hrsl: Byte, events: seq<Event>, n: nat)
    requires n < |events|
    ensures After(hrsl, events[..n + 1]) == Next(After(hrsl, events[..n]), events[n])
  {
    assert events[..n + 1][..n] == events[..n];
  }

  lemma {:induction false} HarmlessPrefixInOrder(hrsl: Byte, events: seq<Event>, n: nat)
    requires n <= |events| && Harmless(hrsl, events)
    ensures InOrder(After(hrsl, events[..n]).machine, After(hrsl, events[..n]).history)
  {
    if n == 0 {
    } else {
      HarmlessPrefixInOrder(hrsl, events, n - 1);
      AfterOneMore(hrsl, events, n - 1);
      var r := After(hrsl, events[..n - 1]);
      StepKeepsOrderIff(r.machine, r.history, events[n - 1]);
    }
  }

  /** A run is in order all along exactly when no increment in it is harmful. */
  lemma InOrderAllAlongIff(hrsl: Byte, events: seq<Event>)
    ensures InOrderAllAlong(hrsl, events) <==> Harmless(hrsl, events)
  {
    if Harmless(hrsl, events) {
      forall n | 0 <= n <= |events|
        ensures InOrder(After(hrsl, events[..n]).machine, After(hrsl, events[..n]).history)
      {
        HarmlessPrefixInOrder(hrsl, events, n);
      }
    }
    if InOrderAllAlong(hrsl, events) {
      forall n | 0 <= n < |events|
        ensures !Harmful(After(hrsl, events[..n]).machine, events[n])
      {
        var r := After(hrsl, events[..n]);
        AfterOneMore(hrsl, events, n);
        StepKeepsOrderIff(r.machine, r.history, events[n]);
      }
    }
  }

  // ------------------------------------------------------------------ the interrupts the program enables

  /**
   Only the connection interrupt is enabled, so the handler is never entered without it; a bus event may come along with
   it at any time.
   */
  predicate ConnectOnly(events: seq<Event>)
  {
    forall n :: 0 <= n < |events| && events[n].Interrupt? ==> ConnectBit(events[n].hirq)
  }

  /** The only values the state takes then; USB_Task ignores 0x02, 0x04 and 0x05. */
  predicate Known(state: Byte)
  {
    || 0x01 <= state <= 0x05 || ATTACHED <= state <= GET_DEVICE_DESCRIPTOR_SIZE
    || state in {ADDRESSING, CONFIGURING, RUNNING, ERROR}
  }

  /** The settle delay is armed exactly when the attaching interrupt carried no bus event. */
  predicate SettleKnown(m: Machine, h: History)
  {
    && (m.state == ATTACHED ==> h.armedAt.None? && !h.skipped)
    && (m.state == SETTLE ==>
          if h.skipped then h.armedAt.None? else h.armedAt.Some? && m.delay == h.armedAt.value + SETTLE_MS)
  }

  lemma StepStaysKnown(m: Machine, h: History, e: Event)
    requires Known(m.state) && SettleKnown(m, h) && (e.Interrupt? ==> ConnectBit(e.hirq))
    ensures Known(Step(m, e).state) && SettleKnown(Step(m, e), Recorded(h, m, e)) && !Harmful(m, e)
  {
  }

  /** Every run with the interrupts the program enables is in order, and its state is one of the known ones. */
  lemma {:induction false} ConnectedRun(hrsl: Byte, events: seq<Event>)
    requires ConnectOnly(events)
    ensures var r := After(hrsl, events);
            InOrder(r.machine, r.history) && Known(r.machine.state) && SettleKnown(r.machine, r.history)
  {
    if events == [] {
    } else {
      var n := |events| - 1;
      var r := After(hrsl, events[..n]);
      ConnectedRun(hrsl, events[..n]);
      StepStaysKnown(r.machine, r.history, events[n]);
      StepKeepsOrderIff(r.machine, r.history, events[n]);
    }
  }

  /**
   Whenever the device is running, the descriptor was read, then an address from 1 to 7 was set, then a driver accepted
   it, all since the device was last attached; and the address is the number of addresses tried since the table was
   cleared, so none is tried twice.
   */
  lemma RunningIsEarned(hrsl: Byte, events: seq<Event>)
    requires ConnectOnly(events)
    ensures InOrderAllAlong(hrsl, events)
    ensures var r := After(hrsl, events);
            && r.history.tried <= 7
            && (r.machine.state == RUNNING ==>
                  && 1 <= r.machine.tmpAddr == r.history.tried
                  && r.history.milestones == [Described, Addressed(r.machine.tmpAddr), Accepted])
  {
    ConnectedRun(hrsl, events);
    forall n | 0 <= n <= |events|
      ensures InOrder(After(hrsl, events[..n]).machine, After(hrsl, events[..n]).history)
    {
      ConnectedRun(hrsl, events[..n]);
    }
  }

  /**
   Exactly when a device is given its settle time: the bus reset follows more than 200 ms after the attachment was
   noticed if, and only if, the attaching interrupt carried no bus event.
   */
  lemma SettleServedIff(hrsl: Byte, events: seq<Event>, w: World)
    requires ConnectOnly(events) && After(hrsl, events).machine.state == SETTLE
    requires TaskStep(After(hrsl, events).machine, w).state == RESET_DEVICE
    ensures var h := After(hrsl, events).history;
            h.armedAt.Some? && w.ms > h.armedAt.value + 200 <==> !h.skipped
  {
    ConnectedRun(hrsl, events);
  }

  lemma AfterOnce(hrsl: Byte, events: seq<Event>, e: Event)
    ensures After(hrsl, events + [e]) == Next(After(hrsl, events), e)
  {
    assert (events + [e])[..|events|] == events;
  }

  /** A run from power on without the settle time: the device is attached with a bus event, and reset 1 ms after start. */
  lemma SettleSkipped(w: World)
    requires w.ms == 1
    ensures var events := [Interrupt(0x21, 0x80)] + [Task(w)];
            ConnectOnly(events) && After(0x00, events).machine.state == RESET_DEVICE
  {
    var attach := Interrupt(0x21, 0x80);
    AfterOnce(0x00, [], attach);
    assert [] + [attach] == [attach];
    AfterOnce(0x00, [attach], Task(w));
  }

  /** Exactly when the next call of USB_Task clears the table after a disconnection: when it came without a bus event. */
  lemma DisconnectClearsIff(m: Machine, hirq: Byte, hrsl: Byte, w: World)
    requires ConnectBit(hirq) && hrsl / 0x40 == 0 && !In(m.state, DETACHED) && m.used != Cleared(m).used
    ensures TaskStep(InterruptStep(m, hirq, hrsl), w).used == Cleared(m).used <==> !BusEventBit(hirq)
  {
  }

  // ------------------------------------------------------------------ progress

  /** Task calls still needed, not counting those that wait. */
  function Rank(state: Byte): nat
  {
    if ATTACHED <= state <= GET_DEVICE_DESCRIPTOR_SIZE then 8 - (state - ATTACHED)
    else if state == ADDRESSING then 2
    else if state == CONFIGURING then 1
    else 0
  }

  predicate Enumerating(state: Byte) { Rank(state) > 0 }

  /** The two waits of enumeration: the settle time, and the controller's bus reset. Waiting for a frame is no wait. */
  predicate Waits(m: Machine, w: World)
  {
    || (m.state == SETTLE && w.ms <= m.delay)
    || (m.state == WAIT_RESET_COMPLETE && w.busReset)
  }

  /** A task call in the middle of enumeration waits, advances by exactly one stage, or ends in the error state. */
  lemma TaskAdvances(m: Machine, w: World)
    requires Enumerating(m.state)
    ensures Waits(m, w) ==> TaskStep(m, w) == m
    ensures !Waits(m, w) ==>
              var next := TaskStep(m, w).state;
              next == ERROR || (Rank(next) == Rank(m.state) - 1 && (Rank(next) == 0 <==> next == RUNNING))
  {
  }

  /** The answer that the stage asks for is good, and an address is there to be given. */
  predicate GoodFor(m: Machine, w: World)
  {
    && (m.state == GET_DEVICE_DESCRIPTOR_SIZE ==> w.descriptor == 0)
    && (m.state == ADDRESSING ==> w.setAddress == 0 && exists i :: 1 <= i <= 7 && !m.used[i])
    && (m.state == CONFIGURING ==> w.mouse || w.keyboard)
  }

  /** The code that USB_Task stores for a stage that fails: the answer to the transfer, no address left, or no driver. */
  function ErrorCode(m: Machine, w: World): Byte
  {
    if m.state == GET_DEVICE_DESCRIPTOR_SIZE then w.descriptor
    else if m.state == CONFIGURING then 0xFD
    else if forall i :: 1 <= i <= 7 ==> m.used[i] then 0xFE
    else w.setAddress
  }

  /** Exactly when a call in mid-enumeration fails: it does not wait, and the answer to its stage is not good. */
  lemma FailsIff(m: Machine, w: World)
    requires Enumerating(m.state)
    ensures TaskStep(m, w).state == ERROR <==> !Waits(m, w) && !GoodFor(m, w)
    ensures TaskStep(m, w).state == ERROR ==> TaskStep(m, w).error == ErrorCode(m, w) && TaskStep(m, w).last == m.state
  {
    var slot := LeastFree(m.used, 1);
    assert slot.Some? ==> !m.used[slot.value];
  }

  function Tasks(m: Machine, worlds: seq<World>): Machine
  {
    if worlds == [] then m else TaskStep(Tasks(m, worlds[..|worlds| - 1]), worlds[|worlds| - 1])
  }

  /** Calls that neither wait nor find enumeration over. */
  function Advances(m: Machine, worlds: seq<World>): nat
  {
    if worlds == [] then 0
    else
      var n := |worlds| - 1;
      var before := Tasks(m, worlds[..n]);
      Advances(m, worlds[..n]) + if Enumerating(before.state) && !Waits(before, worlds[n]) then 1 else 0
  }

  /**
   Without interrupts, enumeration from ATTACHED takes at most eight calls that do not wait, whatever the answers,
   and it is over after them: running or failed.
   */
  lemma {:induction false} EnumerationEnds(m: Machine, worlds: seq<World>)
    requires m.state == ATTACHED
    ensures var end := Tasks(m, worlds);
            && Advances(m, worlds) + Rank(end.state) <= 8
            && (Enumerating(end.state) || end.state == RUNNING || end.state == ERROR)
            && (Enumerating(end.state) || end.state == RUNNING ==> Advances(m, worlds) + Rank(end.state) == 8)
  {
    if worlds == [] {
    } else {
      var n := |worlds| - 1;
      EnumerationEnds(m, worlds[..n]);
      var before := Tasks(m, worlds[..n]);
      if Enumerating(before.state) {
        TaskAdvances(before, worlds[n]);
      }
    }
  }

  /** Every answer is good. */
  predicate AllGood(worlds: seq<World>)
  {
    forall i :: 0 <= i < |worlds| ==> GoodAnswers(worlds[i])
  }

  predicate GoodAnswers(w: World) { w.descriptor == 0 && w.setAddress == 0 && (w.mouse || w.keyboard) }

  /** With good answers, and an address that is free, enumeration from ATTACHED does not fail. */
  lemma {:induction false} GoodAnswersNeverFail(m: Machine, worlds: seq<World>)
    requires m.state == ATTACHED && !m.used[1] && AllGood(worlds)
    ensures var end := Tasks(m, worlds);
            (Enumerating(end.state) || end.state == RUNNING) && (Rank(end.state) >= 2 ==> !end.used[1])
  {
    if worlds == [] {
    } else {
      var n := |worlds| - 1;
      GoodAnswersNeverFail(m, worlds[..n]);
      var before := Tasks(m, worlds[..n]);
      assert GoodAnswers(worlds[n]);
      if Enumerating(before.state) {
        FailsIff(before, worlds[n]);
        TaskAdvances(before, worlds[n]);
      }
    }
  }

  /** With good answers the device is running after eight calls that do not wait, and not before. */
  lemma RunsOnGoodAnswers(m: Machine, worlds: seq<World>)
    requires m.state == ATTACHED && !m.used[1] && AllGood(worlds)
    ensures Tasks(m, worlds).state == RUNNING <==> Advances(m, worlds) == 8
  {
    GoodAnswersNeverFail(m, worlds);
    EnumerationEnds(m, worlds);
  }

  /** Line states with one of J and K set: a low-speed or a full-speed device is connected. */
  predicate Connected(hrsl: Byte) { (hrsl / 0x80 == 1) != (hrsl / 0x40 % 2 == 1) }

  function TaskEvents(worlds: seq<World>): (events: seq<Event>)
    ensures |events| == |worlds|
  {
    seq(|worlds|, i requires 0 <= i < |worlds| => Task(worlds[i]))
  }

  lemma {:induction false} TasksFromPowerOn(hrsl: Byte, worlds: seq<World>)
    ensures After(hrsl, TaskEvents(worlds)).machine == Tasks(After(hrsl, []).machine, worlds)
  {
    if worlds == [] {
      assert TaskEvents(worlds) == [];
    } else {
      var n := |worlds| - 1;
      TasksFromPowerOn(hrsl, worlds[..n]);
      assert TaskEvents(worlds)[..n] == TaskEvents(worlds[..n]);
    }
  }

  /**
   A device of either speed that is there at power on, answers well and has a driver is running after exactly eight calls
   of USB_Task that do not wait.
   */
  lemma RunsFromPowerOn(hrsl: Byte, worlds: seq<World>)
    requires Connected(hrsl) && AllGood(worlds)
    ensures var start := After(hrsl, []).machine;
            && start.state == ATTACHED
            && (After(hrsl, TaskEvents(worlds)).machine.state == RUNNING <==> Advances(start, worlds) == 8)
  {
    assert 0x40 <= hrsl < 0xC0;
    TasksFromPowerOn(hrsl, worlds);
    RunsOnGoodAnswers(After(hrsl, []).machine, worlds);
  }

  /** One call, and then so many calls that find the settle time and the bus reset over. */
  function Calls(first: World, later: World, n: nat): (worlds: seq<World>)
    ensures |worlds| == n + 1
  {
    if n == 0 then [first] else Calls(first, later, n - 1) + [later]
  }

  lemma {:induction false} CallsAdvance(m: Machine, first: World, later: World, n: nat)
    requires m.state == ATTACHED && !m.used[1] && GoodAnswers(first) && GoodAnswers(later) && n <= 7
    requires later.ms > first.ms + SETTLE_MS && !later.busReset
    ensures AllGood(Calls(first, later, n)) && Advances(m, Calls(first, later, n)) == n + 1
    ensures var end := Tasks(m, Calls(first, later, n));
            Rank(end.state) == 7 - n && (n == 0 ==> end.state == SETTLE && end.delay == first.ms + SETTLE_MS)
  {
    if n == 0 {
      assert Tasks(m, [first]) == TaskStep(Tasks(m, []), first) by {
        assert [first][..0] == [];
      }
    } else {
      var before := Calls(first, later, n - 1);
      var worlds := Calls(first, later, n);
      CallsAdvance(m, first, later, n - 1);
      assert worlds[..n] == before && worlds[n] == later;
      assert AllGood(worlds) by {
        assert forall i :: 0 <= i < n ==> worlds[i] == before[i];
      }
      GoodAnswersNeverFail(m, worlds);
      GoodAnswersNeverFail(m, before);
      TaskAdvances(Tasks(m, before), later);
    }
  }

  /** A run from power on that reaches RUNNING, for a device of either speed. */
  lemma RunningReached(hrsl: Byte, first: World, later: World)
    requires Connected(hrsl) && GoodAnswers(first) && GoodAnswers(later)
    requires later.ms > first.ms + 200 && !later.busReset
    ensures After(hrsl, TaskEvents(Calls(first, later, 7))).machine.state == RUNNING
  {
    var worlds := Calls(first, later, 7);
    ProbeFollowsLines(BOOT, hrsl);
    CallsAdvance(After(hrsl, []).machine, first, later, 7);
    RunsFromPowerOn(hrsl, worlds);
  }

  /** What a probe of the line makes of the state: with one line up attached, unless a reset is awaited; both up illegal. */
  lemma ProbeFollowsLines(m: Machine, hrsl: Byte)
    ensures Connected(hrsl) ==> Probed(m, hrsl).state == if m.state == WAIT_RESET_COMPLETE then m.state else ATTACHED
    ensures !Connected(hrsl) && hrsl >= 0x80 ==> Probed(m, hrsl).state == ILLEGAL
    ensures !Connected(hrsl) && hrsl < 0x80 ==>
              Probed(m, hrsl).state == if m.state < ATTACHED then WAIT_FOR_DEVICE else INITIALIZE
  {
  }

  /** Within one turn of the millisecond clock the settle time is over at exactly the 201st tick. */
  lemma SettleIsExact(now: nat, t: nat)
    requires now <= t && Product(now) + 1000 * (t - now) < TWO_32
    ensures Ms(t) > Ms(now) + SETTLE_MS <==> t > now + 200
  {
    MsCountsTicks(now, t - now);
  }

  // ------------------------------------------------------------------ the code

  class Enumerator {
    var state: Byte
    var error: Byte
    var last: Byte
    var delay: nat
    var tmpAddr: Byte
    // devtable[i].epinfo != NULL
    const used: array<bool>

    ghost predicate Valid() { used.Length == NUM_DEVICES + 1 }

    ghost function Snapshot(): Machine
      requires Valid()
      reads this, used
    {
      Machine(state, error, last, delay, tmpAddr, used[..])
    }

    /** Power on. */
    constructor ()
      ensures Valid() && fresh(used) && Snapshot() == BOOT
    {
      state, error, last, delay, tmpAddr := INITIALIZE, 0, 0, 0, 0;
      used := new bool[NUM_DEVICES + 1](_ => false);
    }

    /** USB_init: only entry 0 keeps endpoint information. */
    method Init()
      requires Valid()
      modifies used
      ensures Snapshot() == Cleared(old(Snapshot()))
    {
      for i := 0 to NUM_DEVICES + 1
        invariant forall j :: 0 <= j < i ==> !used[j]
      {
        used[i] := false;
      }
      used[0] := true;
    }

    /** The address loop of USB_Task: the least free address is taken before its transfer is tried. */
    method Address(setAddress: Byte)
      requires Valid() && In(state, ADDRESSING)
      modifies this`state, this`error, this`last, this`tmpAddr, used
      ensures forall w: World :: w.setAddress == setAddress ==> Snapshot() == TaskStep(old(Snapshot()), w)
    {
      var i := 1;
      while i < NUM_DEVICES
        invariant 1 <= i <= NUM_DEVICES && state == old(state)
        invariant Snapshot() == old(Snapshot()) && LeastFree(used[..], 1) == LeastFree(used[..], i)
      {
        if !used[i] {
          used[i] := true;
          if setAddress == 0 {
            tmpAddr, state := i, CONFIGURING;
          } else {
            error, last := setAddress, state;
            state := ERROR;
          }
          break;
        }
        i := i + 1;
      }
      if state == ADDRESSING {
        error, last := NO_ADDRESS, state;
        state := ERROR;
      }
    }

    /** The probe loop of USB_Task: the drivers are asked in turn until one accepts the device. */
    method Configure(w: World)
      requires Valid() && In(state, CONFIGURING)
      modifies this`state, this`error, this`last
      ensures Snapshot() == TaskStep(old(Snapshot()), w)
    {
      var i := 0;
      while i < NUM_CLASSES
        invariant 0 <= i <= NUM_CLASSES && Snapshot() == old(Snapshot())
        invariant forall j :: 0 <= j < i ==> !Probe(j, w)
      {
        if Probe(i, w) {
          state := RUNNING;
          break;
        }
        i := i + 1;
      }
      if state == CONFIGURING {
        assert !Probe(1, w) && !Probe(2, w);
        error, last := NO_DRIVER, state;
        state := ERROR;
      } else if state != RUNNING {
        assert !Probe(1, w) && !Probe(2, w);
      }
    }

    /** USB_Task. */
    method Task(w: World)
      requires Valid()
      modifies this, used
      ensures Snapshot() == TaskStep(old(Snapshot()), w)
    {
      if In(state, DETACHED) {
        if state == INITIALIZE {
          Init();
          state := WAIT_FOR_DEVICE;
        }
      } else if In(state, ATTACHED) {
        Attach(w);
      } else if In(state, ADDRESSING) {
        Address(w.setAddress);
      } else if In(state, CONFIGURING) {
        Configure(w);
      }
    }

    method Attach(w: World)
      requires Valid()
      modifies this`state, this`delay, this`error, this`last
      ensures Snapshot() == AttachedStep(old(Snapshot()), w)
    {
      if state == ATTACHED {
        delay := w.ms + SETTLE_MS;
        state := SETTLE;
      } else if state == SETTLE {
        if w.ms > delay {
          state := RESET_DEVICE;
        }
      } else if state == RESET_DEVICE {
        state := WAIT_RESET_COMPLETE;
      } else if state == WAIT_RESET_COMPLETE {
        if !w.busReset {
          state := WAIT_SOF;
        }
      } else if state == WAIT_SOF {
        if WithFrameBit(w.hirq) != 0 {
          state := GET_DEVICE_DESCRIPTOR_SIZE;
        }
      } else if state == GET_DEVICE_DESCRIPTOR_SIZE {
        if w.descriptor == 0 {
          state := ADDRESSING;
        } else {
          error, last := w.descriptor, state;
          state := ERROR;
        }
      }
    }

    /** MAX_busprobe. */
    method BusProbe(hrsl: Byte)
      requires Valid()
      modifies this`state
      ensures Snapshot() == Probed(old(Snapshot()), hrsl)
    {
      var lines := hrsl / 0x40;
      if lines == 1 || lines == 2 {
        if state != WAIT_RESET_COMPLETE {
          state := ATTACHED;
        }
      } else if lines == 3 {
        state := ILLEGAL;
      } else if !In(state, DETACHED) {
        state := INITIALIZE;
      } else {
        state := WAIT_FOR_DEVICE;
      }
    }

    /** MaxIntHandler. */
    method Interrupt(hirq: Byte, hrsl: Byte)
      requires Valid()
      modifies this`state
      ensures Snapshot() == InterruptStep(old(Snapshot()), hirq, hrsl)
    {
      if ConnectBit(hirq) {
        BusProbe(hrsl);
      }
      if BusEventBit(hirq) {
        state := if state == 0xFF then 0 else state + 1;
      }
    }

    /** The controller initialised, at power on and again by the main loop after a disconnection. */
    method Restart(hrsl: Byte)
      requires Valid()
      modifies this`state, used
      ensures Snapshot() == Step(old(Snapshot()), Event.Restart(hrsl))
    {
      BusProbe(hrsl);
      Init();
    }
  }
}
