/**
 The interrupt-driven JTAG UART driver: foreground read, write and close, the interrupt routine and the
 host-presence alarm, together with the registers and FIFOs of the device they drive.

 Between any two steps of a foreground routine the method Interleave lets an arbitrary finite number of
 things happen: the host sends or fetches bytes, the interrupt routine runs, the alarm fires. The routines
 take no lock. What the foreground may rely on is written in the frames: the interrupt side may change
 rxIn, rxBuf and txOut, and never rxOut, txIn or txBuf.
 */
module JtagUart {
  import opened Words
  import opened RingBuffer

  const FIFO_LEN: nat := 64
  const FIFO_THRESHOLD: nat := 8
  const INT_MAX: nat := 0x7FFF_FFFF

  /** A foreground call either returned a count or an error to its caller, or is still polling when observation stops. */
  datatype Outcome = Returned(count: nat) | Failed(error: Errno) | Waiting

  /** How one turn of write's outer loop ended; Stopped is the end of observation while polling. */
  datatype Round = Again | Finished | Stopped

  /** What a read of the control register shows. */
  datatype Control = Control(ri: bool, wi: bool, ac: bool, wspace: nat)

  /** The device: its two FIFOs, the receive pause flag, the two interrupt enables and the activity bit. */
  datatype Device = Device(rxFifo: seq<Byte>, pause: bool, txFifo: seq<Byte>, re: bool, we: bool, activity: bool) {
    ghost predicate Valid()
    {
      |rxFifo| <= FIFO_LEN && |txFifo| <= FIFO_LEN && (pause ==> rxFifo != [])
    }

    function ReadControl(): (c: Control)
      requires |txFifo| <= FIFO_LEN
    {
      Control(re && (pause || FIFO_LEN - |rxFifo| <= FIFO_THRESHOLD),
              we && |txFifo| <= FIFO_THRESHOLD,
              activity,
              FIFO_LEN - |txFifo|)
    }

    /** What the host side can have done to the device while no register was accessed. */
    ghost predicate MovedTo(d: Device)
    {
      && d.Valid()
      && rxFifo <= d.rxFifo && |d.txFifo| <= |txFifo| && d.txFifo == txFifo[|txFifo| - |d.txFifo|..]
      && d.re == re && d.we == we
    }
  }

  class Uart {
    var dev: Device

    // The driver state structure.
    var irqRe: bool
    var irqWe: bool
    var hostInactive: nat
    const timeout: nat
    var rxIn: nat
    var rxOut: nat
    var txIn: nat
    var txOut: nat
    const rxBuf: array<Byte>
    const txBuf: array<Byte>

    // Histories: bytes popped from the receive FIFO, bytes returned to callers,
    // bytes published by callers, bytes the transmit FIFO accepted.
    ghost var taken: seq<Byte>
    ghost var returned: seq<Byte>
    ghost var published: seq<Byte>
    ghost var sent: seq<Byte>

    // Where the foreground is: consumed but not yet re-enabled RE; published but not yet enabled WE.
    ghost var consuming: bool
    ghost var publishing: bool

    // Reads of the data register that showed RVALID 0 with RAVAIL above 0, and whether one of them switched RE off.
    ghost var late: nat
    ghost var slipped: bool
    // The highest idle count since it was last looked at.
    ghost var peak: nat

    /** The receive ring holds exactly what was taken from the device and not yet returned. */
    ghost predicate RxRing()
      reads this`taken, this`returned, this`rxIn, this`rxOut, rxBuf
    {
      returned <= taken && Backed(rxBuf, rxOut, rxIn, taken, |returned|)
    }

    /** The transmit ring holds exactly what was published and not yet sent to the device. */
    ghost predicate TxRing()
      reads this`published, this`sent, this`txIn, this`txOut, txBuf
    {
      sent <= published && Backed(txBuf, txOut, txIn, published, |sent|)
    }

    /**
     No stranded data: a disabled write interrupt has nothing to do, or the foreground is about to enable it. A disabled
     read interrupt leaves data in the ring, so that the next read enables it; and the ring is full, unless a byte that
     came in between the two halves of a read of the data register had it disabled.
     */
    ghost predicate NothingStranded()
      reads this`irqRe, this`irqWe, this`rxIn, this`rxOut, this`txIn, this`txOut, this`consuming, this`publishing
      reads this`slipped, this`late
    {
      && (txIn != txOut ==> irqWe || publishing)
      && (!irqRe ==> rxIn != rxOut || consuming)
      && (!irqRe ==> RingFull() || consuming || slipped)
      && (slipped ==> late > 0)
    }

    predicate RingFull()
      reads this`rxIn, this`rxOut
    {
      (rxIn + 1) % BUF_LEN == rxOut
    }

    ghost predicate Valid()
      reads this, rxBuf, txBuf
    {
      && rxBuf != txBuf
      && dev.Valid() && dev.re == irqRe && dev.we == irqWe
      && RxRing() && TxRing() && NothingStranded() && hostInactive <= peak
    }

    /**
     No byte can be left behind: when no foreground routine is half way, undelivered output has an interrupt
     pending or a device FIFO still draining towards one, and input is held up only while there is data in the ring for
     the next read, which enables it again; only a full ring holds it up, as long as no read of the data register is late.
     */
    lemma SomethingWillHappen()
      requires Valid() && Idle()
      ensures |sent| < |published| ==> dev.ReadControl().wi || |dev.txFifo| > FIFO_THRESHOLD
      ensures dev.pause ==> dev.ReadControl().ri || |taken| > |returned|
      ensures !slipped && dev.pause ==> dev.ReadControl().ri || |taken| == |returned| + BUF_LEN - 1
      ensures |taken| - |returned| < BUF_LEN && |published| - |sent| < BUF_LEN
    {
    }

    /** Each ring, read between its two indices, is the queue of bytes put in and not yet taken out. */
    lemma RingsRefineQueues()
      requires Valid()
      ensures returned + Contents(rxBuf[..], rxOut, rxIn) == taken
      ensures sent + Contents(txBuf[..], txOut, txIn) == published
    {
      ContentsAreStreamTail(rxBuf, rxOut, rxIn, taken, |returned|);
      ContentsAreStreamTail(txBuf, txOut, txIn, published, |sent|);
      assert taken[..|returned|] == returned && published[..|sent|] == sent;
    }

    ghost predicate Idle()
      reads this`consuming, this`publishing
    {
      !consuming && !publishing
    }

    constructor (timeout: nat)
      ensures Valid() && Idle() && fresh(rxBuf) && fresh(txBuf) && this.timeout == timeout
      ensures taken == returned == published == sent == []
      ensures irqRe && !irqWe && hostInactive == 0 && late == 0
    {
      dev := Device([], false, [], true, false, false);
      irqRe, irqWe := true, false;
      hostInactive := 0;
      this.timeout := timeout;
      rxIn, rxOut, txIn, txOut := 0, 0, 0, 0;
      rxBuf := new Byte[BUF_LEN];
      txBuf := new Byte[BUF_LEN];
      taken, returned, published, sent := [], [], [], [];
      consuming, publishing := false, false;
      late, slipped, peak := 0, false, 0;
    }

    // ---------------------------------------------------------------- device registers

    /**
     Reading the data register pops the receive FIFO. RVALID is decided a cycle before RAVAIL counts what is in the FIFO,
     so a byte that comes in between is counted although it was not there to be popped.
     */
    method ReadData() returns (rvalid: bool, data: Byte, ravail: nat)
      requires dev.Valid()
      modifies this`dev, this`taken
      ensures dev.Valid() && dev == old(dev).(rxFifo := dev.rxFifo, pause := dev.pause) && ravail == |dev.rxFifo|
      ensures rvalid == (old(dev.rxFifo) != [])
      ensures !rvalid ==> taken == old(taken) && ravail <= 1
      ensures rvalid ==> taken == old(taken) + [data] && old(dev.rxFifo) <= [data] + dev.rxFifo
      ensures rvalid ==> |dev.rxFifo| <= |old(dev.rxFifo)|
    {
      rvalid := dev.rxFifo != [];
      data := 0;
      if rvalid {
        data := dev.rxFifo[0];
        dev := dev.(rxFifo := dev.rxFifo[1..]);
        taken := taken + [data];
      }
      var arrives: bool, b: Byte := *, *;
      if arrives {
        dev := dev.(rxFifo := dev.rxFifo + [b]);
      }
      ravail := |dev.rxFifo|;
      var paused: bool := *;
      dev := dev.(pause := paused && ravail > 0);
    }

    /** Writing the data register pushes the transmit FIFO, or loses the byte when that FIFO is full. */
    method WriteData(data: Byte)
      modifies this`dev, this`sent
      ensures |old(dev.txFifo)| < FIFO_LEN
              ==> dev == old(dev).(txFifo := old(dev.txFifo) + [data]) && sent == old(sent) + [data]
      ensures |old(dev.txFifo)| >= FIFO_LEN ==> dev == old(dev) && sent == old(sent)
    {
      if |dev.txFifo| < FIFO_LEN {
        dev := dev.(txFifo := dev.txFifo + [data]);
        sent := sent + [data];
      }
    }

    /** The host side of the device: it sends bytes while there is room, pauses, fetches bytes, shows activity. */
    method DeviceMoves()
      requires dev.Valid()
      modifies this`dev
      ensures old(dev).MovedTo(dev)
    {
      var moves: nat := *;
      while moves > 0
        invariant old(dev).MovedTo(dev)
      {
        if {
          case |dev.rxFifo| < FIFO_LEN =>
            var b: Byte := *;
            dev := dev.(rxFifo := dev.rxFifo + [b]);
          case dev.rxFifo != [] =>
            dev := dev.(pause := true);
          case dev.txFifo != [] =>
            dev := dev.(txFifo := dev.txFifo[1..]);
          case true =>
            dev := dev.(activity := true);
        }
        moves := moves - 1;
      }
    }

    // ---------------------------------------------------------------- interrupt side

    /** What the interrupt routine can still do before it must find nothing pending. */
    ghost function Work(): int
      reads this`returned, this`taken, this`published, this`sent, this`irqRe, this`irqWe
    {
      |returned| + BUF_LEN - |taken| + |published| - |sent|
      + (if irqRe then 1 else 0) + (if irqWe then 1 else 0)
    }

    /**
     The interrupt routine, with the device running on between its register accesses. It always terminates:
     every pass round the loop that finds something pending moves a byte or clears an interrupt enable. It ends only when
     neither interrupt is pending any more.
     */
    method Irq()
      requires Valid()
      modifies this`dev, this`irqRe, this`irqWe, this`rxIn, this`taken, rxBuf, this`txOut, this`sent, this`slipped, this`late
      ensures Valid() && old(taken) <= taken && old(sent) <= sent && !Pending()
    {
      var more := true;
      while more
        invariant Valid() && old(taken) <= taken && old(sent) <= sent && (!more ==> !Pending())
        decreases Work() + (if more then 1 else 0)
      {
        more := Service();
      }
    }

    /** One of the two interrupts is pending. */
    predicate Pending()
      requires |dev.txFifo| <= FIFO_LEN
      reads this`dev
    {
      dev.ReadControl().ri || dev.ReadControl().wi
    }

    /**
     One pass of the interrupt routine: false when the control register shows nothing pending, and otherwise each half
     that was pending has moved a byte or turned its enable off.
     */
    method Service() returns (more: bool)
      requires Valid()
      modifies this`dev, this`irqRe, this`irqWe, this`rxIn, this`taken, rxBuf, this`txOut, this`sent, this`slipped, this`late
      ensures Valid() && old(taken) <= taken && old(sent) <= sent
      ensures 0 <= Work() <= old(Work())
      ensures more == old(Pending()) && (more ==> Work() < old(Work())) && (!more ==> !Pending())
      ensures old(dev.ReadControl().ri) ==> |old(taken)| < |taken| || !irqRe
      ensures old(dev.ReadControl().wi) ==> |old(sent)| < |sent| || !irqWe
    {
      var control := dev.ReadControl();
      if !control.ri && !control.wi {
        return false;
      }
      DeviceMoves();
      if control.ri {
        Receive();
      }
      if control.wi {
        Transmit(control.wspace);
      }
      return true;
    }

    /**
     The receive half. Either at least one byte has moved or RE is off, and RE goes off with room in the ring exactly
     when a read of the data register was late.
     */
    method Receive()
      requires Valid() && dev.rxFifo != [] && irqRe
      modifies this`dev, this`irqRe, this`rxIn, this`taken, rxBuf, this`slipped, this`late
      ensures Valid() && old(taken) <= taken
      ensures dev.we == old(dev.we) && |dev.txFifo| <= |old(dev.txFifo)|
      ensures |old(taken)| < |taken| || !irqRe
      ensures late == old(late) + if !irqRe && !RingFull() then 1 else 0
    {
      var go, ravail: nat := true, 1;
      ghost var slow := false;
      while go
        invariant Valid() && old(taken) <= taken
        invariant dev.we == old(dev.we) && |dev.txFifo| <= |old(dev.txFifo)|
        invariant irqRe && late == old(late) + (if slow then 1 else 0)
        invariant |old(taken)| < |taken| || (dev.rxFifo != [] && ravail == 1)
        invariant go ==> !slow
        invariant !go && ravail > 0 ==> (RingFull() <==> !slow)
        invariant slow ==> ravail > 0 && |returned| < |taken|
        decreases go, |returned| + BUF_LEN - |taken|
      {
        go, ravail, slow := ReceiveOne(ravail);
      }
      assert ravail > 0 ==> |returned| < |taken|;
      if ravail > 0 {
        irqRe := false;
        dev := dev.(re := irqRe);
        slipped := slow;
      }
    }

    /** One turn of the receive loop: stop on a full ring or an empty FIFO, else store one byte. */
    method ReceiveOne(ravail: nat) returns (go: bool, ravail': nat, ghost slow: bool)
      requires Valid() && irqRe
      modifies this`dev, this`rxIn, this`taken, rxBuf, this`late
      ensures Valid() && old(taken) <= taken && |taken| <= |returned| + BUF_LEN
      ensures dev.we == old(dev.we) && |dev.txFifo| <= |old(dev.txFifo)|
      ensures late == old(late) + (if slow then 1 else 0) && (slow ==> !go && ravail' > 0 && !RingFull())
      ensures old(RingFull()) ==> !go && ravail' == ravail && dev == old(dev) && rxIn == old(rxIn) && !slow
      ensures old(!RingFull() && dev.rxFifo == []) ==> !go && (slow <==> ravail' > 0)
      ensures old(!RingFull() && dev.rxFifo != []) ==> go && |taken| == |old(taken)| + 1
    {
      slow := false;
      if (rxIn + 1) % BUF_LEN == rxOut {
        return false, ravail, slow;
      }
      ghost var before := taken;
      var rvalid, data, left := ReadData();
      if !rvalid {
        if left > 0 {
          late, slow := late + 1, true;
        }
        return false, left, slow;
      }
      StoreRx(data, before);
      DeviceMoves();
      return true, left, slow;
    }

    /** One byte, already popped from the device, into the ring. */
    method StoreRx(data: Byte, ghost before: seq<Byte>)
      requires returned <= before && Backed(rxBuf, rxOut, rxIn, before, |returned|) && (rxIn + 1) % BUF_LEN != rxOut
      requires taken == before + [data]
      modifies this`rxIn, rxBuf
      ensures RxRing()
    {
      rxBuf[rxIn] := data;
      rxIn := (rxIn + 1) % BUF_LEN;
    }

    /** The transmit half. It never overruns the device FIFO, and turns WE off only when the ring is empty. */
    method Transmit(wspace: nat)
      requires Valid() && |dev.txFifo| + wspace <= FIFO_LEN && wspace > 0
      modifies this`dev, this`irqWe, this`txOut, this`sent
      ensures Valid() && old(sent) <= sent
      ensures |sent| == Min(|published|, |old(sent)| + wspace)
      ensures irqWe == (old(irqWe) && |sent| == |old(sent)| + wspace)
    {
      var space := wspace;
      while space > 0 && txOut != txIn
        invariant Valid() && old(sent) <= sent && |sent| <= |published| && irqWe == old(irqWe)
        invariant |dev.txFifo| + space <= FIFO_LEN
        invariant |sent| == |old(sent)| + wspace - space
      {
        TransmitOne();
        space := space - 1;
      }
      if space > 0 {
        irqWe := false;
        dev := dev.(we := irqWe);
      }
    }

    /** One turn of the transmit loop: the oldest byte of the ring goes to the device. */
    method TransmitOne()
      requires Valid() && txIn != txOut && |dev.txFifo| < FIFO_LEN
      modifies this`dev, this`txOut, this`sent
      ensures Valid() && old(sent) <= sent
      ensures |sent| == |old(sent)| + 1 && |dev.txFifo| <= |old(dev.txFifo)| + 1
    {
      ghost var before := sent;
      WriteData(txBuf[txOut]);
      ReleaseTx(before);
      DeviceMoves();
    }

    /** Release the slot of a byte the device has just accepted. */
    method ReleaseTx(ghost before: seq<Byte>)
      requires before <= published && Backed(txBuf, txOut, txIn, published, |before|) && txIn != txOut
      requires sent == before + [txBuf[txOut]]
      modifies this`txOut
      ensures TxRing()
    {
      assert published[|before|] == txBuf[Slot(txOut, 0)];
      txOut := (txOut + 1) % BUF_LEN;
    }

    /**
     The once-a-second alarm: host activity clears the idle count, and the activity bit unless it goes on; silence advances
     the count. The alarm comes again after another second.
     */
    method HostCheck(ticksPerSecond: nat) returns (again: nat)
      requires Valid()
      modifies this`hostInactive, this`peak, this`dev
      ensures Valid() && again == ticksPerSecond && peak == Max(old(peak), hostInactive)
      ensures hostInactive == if old(dev.activity) then 0
                              else if old(hostInactive) < INT_MAX - 2 then old(hostInactive) + 1
                              else old(hostInactive)
      ensures dev == old(dev).(activity := dev.activity) && (dev.activity ==> old(dev.activity))
    {
      if dev.ReadControl().ac {
        var ongoing: bool := *;
        dev := dev.(activity := ongoing);
        hostInactive := 0;
      } else if hostInactive < INT_MAX - 2 {
        hostInactive := hostInactive + 1;
      }
      peak := Max(peak, hostInactive);
      again := ticksPerSecond;
    }

    /** Anything that can happen while the foreground stands between two of its steps. */
    method Interleave()
      requires Valid()
      modifies this`dev, this`irqRe, this`irqWe, this`rxIn, this`taken, rxBuf, this`txOut, this`sent, this`hostInactive
      modifies this`slipped, this`late, this`peak
      ensures Valid() && old(taken) <= taken && old(sent) <= sent && old(peak) <= peak
    {
      var events: nat := *;
      while events > 0
        invariant Valid() && old(taken) <= taken && old(sent) <= sent && old(peak) <= peak
      {
        if * {
          DeviceMoves();
        } else if * {
          Irq();
        } else {
          var second: nat := *;
          var again := HostCheck(second);
        }
        events := events - 1;
      }
    }

    // ---------------------------------------------------------------- foreground: write

    /**
     Write. The bytes published by the call are a prefix of the data, and their number is what it returns;
     it stops short only after finding the ring full, and unless it may not block, only for an idle host, and after waiting
     for room in the ring or for the idle count to reach the timeout.
     */
    method Write(data: seq<Byte>, nonblock: bool, polls: nat) returns (r: Outcome, ghost done: nat)
      requires Valid() && Idle()
      modifies this`dev, this`irqRe, this`irqWe, this`rxIn, this`taken, rxBuf, this`txOut, this`sent, this`hostInactive
      modifies this`slipped, this`late, this`peak
      modifies this`txIn, this`published, this`publishing, txBuf
      ensures Valid() && Idle() && old(taken) <= taken && old(sent) <= sent
      ensures done <= |data| && published == old(published) + data[..done]
      ensures r != Waiting ==>
                r == if done > 0 then Returned(done) else Failed(if nonblock then EWOULDBLOCK else EIO)
      ensures done < |data| ==> |published| >= |old(sent)| + BUF_LEN - 1
      ensures done < |data| && !nonblock && r != Waiting ==> hostInactive != 0 && (HasRoom() || peak >= timeout)
      ensures nonblock ==> r != Waiting
    {
      ghost var goal := old(published) + data;
      var next, budget: nat := 0, polls;
      var round := Again;
      peak := hostInactive;
      while round == Again
        invariant Valid() && Idle() && old(taken) <= taken && old(sent) <= sent
        invariant next <= |data| && published <= goal && |published| == |old(published)| + next
        invariant round == Finished && next < |data| ==> |published| >= |old(sent)| + BUF_LEN - 1
        invariant round == Stopped && next < |data| ==> |published| >= |old(sent)| + BUF_LEN - 1
        invariant round == Finished && next < |data| && !nonblock ==> hostInactive != 0 && (HasRoom() || peak >= timeout)
        invariant nonblock ==> round != Stopped
        decreases round == Again, budget
      {
        round, next, budget := WriteRound(data, next, nonblock, budget, goal);
      }
      done := next;
      assert published == goal[..|published|];
      r := if round == Stopped then Waiting
           else if next > 0 then Returned(next)
           else Failed(if nonblock then EWOULDBLOCK else EIO);
    }

    /** There is a free slot in the transmit ring. */
    ghost predicate HasRoom()
      reads this`published, this`sent
    {
      |published| < |sent| + BUF_LEN - 1
    }

    /** One turn of write's outer loop: fill, kick the interrupt routine, and wait for room if data is left. */
    method WriteRound(data: seq<Byte>, start: nat, nonblock: bool, budget: nat, ghost goal: seq<Byte>)
        returns (round: Round, next: nat, budget': nat)
      requires Valid() && Idle() && start <= |data|
      requires published <= goal && |published| + |data| == |goal| + start && goal[|published|..] == data[start..]
      modifies this`dev, this`irqRe, this`irqWe, this`rxIn, this`taken, rxBuf, this`txOut, this`sent, this`hostInactive
      modifies this`slipped, this`late, this`peak
      modifies this`txIn, this`published, this`publishing, txBuf
      ensures Valid() && Idle() && old(taken) <= taken && old(sent) <= sent
      ensures start <= next <= |data| && published <= goal && |published| == |old(published)| + next - start
      ensures next < |data| ==> |published| >= |old(sent)| + BUF_LEN - 1
      ensures nonblock ==> round == Finished
      ensures round == Finished && next < |data| && !nonblock ==> hostInactive != 0 && (HasRoom() || peak >= timeout)
      ensures round == Again ==> budget' < budget && hostInactive == 0
    {
      var out;
      next, out := Fill(data, start, goal);
      EnableWe();
      if next == |data| || nonblock {
        return Finished, next, budget;
      }
      var left;
      left, budget' := AwaitRoom(out, budget);
      assert left ==> HasRoom() || peak >= timeout;
      if !left {
        return Stopped, next, budget';
      }
      Interleave();
      round := if hostInactive != 0 then Finished else Again;
    }

    /** The inner loop of write: copy into the contiguous free space until the data ends or the ring is full. */
    method Fill(data: seq<Byte>, start: nat, ghost goal: seq<Byte>) returns (next: nat, out: nat)
      requires Valid() && start <= |data|
      requires published <= goal && |published| + |data| == |goal| + start && goal[|published|..] == data[start..]
      modifies this`dev, this`irqRe, this`irqWe, this`rxIn, this`taken, rxBuf, this`txOut, this`sent, this`hostInactive
      modifies this`slipped, this`late, this`peak
      modifies this`txIn, this`published, this`publishing, txBuf
      ensures Valid() && old(taken) <= taken && old(sent) <= sent
      ensures start <= next <= |data| && published <= goal && |published| == |old(published)| + next - start
      ensures next < |data| ==> |published| >= |old(sent)| + BUF_LEN - 1 && !HasRoom() && out == txOut
    {
      next, out := start, 0;
      ghost var base := |published|;
      while next < |data|
        invariant Valid() && old(taken) <= taken && old(sent) <= sent
        invariant start <= next <= |data| && published <= goal && |published| == base + next - start
      {
        var n;
        n, out := FreeRun();
        if n == 0 {
          break;
        }
        n := Min(n, |data| - next);
        SameSlice(data, start, goal, base, next - start, n);
        CopyIn(data[next..next + n], goal);
        next := next + n;
      }
    }

    /** Snapshot both indices, with anything happening in between; the answer stays conservative. */
    method FreeRun() returns (n: nat, out: nat)
      requires Valid()
      modifies this`dev, this`irqRe, this`irqWe, this`rxIn, this`taken, rxBuf, this`txOut, this`sent, this`hostInactive
      modifies this`slipped, this`late, this`peak
      ensures Valid() && old(taken) <= taken && old(sent) <= sent
      ensures txIn + n <= BUF_LEN && |published| - |sent| + n < BUF_LEN
      ensures n == 0 ==> |published| == |sent| + BUF_LEN - 1 && out == txOut
    {
      Interleave();
      var inIndex := txIn;
      Interleave();
      out := txOut;
      WriterRunIsFreeSpace(inIndex, out);
      n := WriterRun(inIndex, out);
    }

    /** memcpy into the ring, byte by byte with anything happening in between, then publish the new in index. */
    method CopyIn(chunk: seq<Byte>, ghost goal: seq<Byte>)
      requires Valid() && txIn + |chunk| <= BUF_LEN && |published| - |sent| + |chunk| < BUF_LEN
      requires published <= goal && |published| + |chunk| <= |goal|
      requires goal[|published|..|published| + |chunk|] == chunk
      modifies this`dev, this`irqRe, this`irqWe, this`rxIn, this`taken, rxBuf, this`txOut, this`sent, this`hostInactive
      modifies this`slipped, this`late, this`peak
      modifies this`txIn, this`published, this`publishing, txBuf
      ensures Valid() && old(taken) <= taken && old(sent) <= sent
      ensures published <= goal && |published| == |old(published)| + |chunk|
    {
      StoreChunk(chunk);
      PublishTx(chunk, goal);
    }

    /** The first j bytes of the chunk are in the slots from the in index on. */
    ghost predicate Stored(chunk: seq<Byte>, j: nat)
      reads this`txIn, txBuf
    {
      j <= |chunk| && txIn + |chunk| <= txBuf.Length && forall i :: 0 <= i < j ==> chunk[i] == txBuf[txIn + i]
    }

    /** The memcpy: nothing the interrupt side does meanwhile touches the slots it fills. */
    method StoreChunk(chunk: seq<Byte>)
      requires Valid() && txIn + |chunk| <= BUF_LEN && |published| - |sent| + |chunk| < BUF_LEN
      modifies this`dev, this`irqRe, this`irqWe, this`rxIn, this`taken, rxBuf, this`txOut, this`sent, this`hostInactive
      modifies this`slipped, this`late, this`peak
      modifies txBuf
      ensures Valid() && old(taken) <= taken && old(sent) <= sent
      ensures Stored(chunk, |chunk|)
    {
      var j := 0;
      while j < |chunk|
        invariant Valid() && old(taken) <= taken && old(sent) <= sent
        invariant 0 <= j <= |chunk| && Stored(chunk, j)
      {
        StoreTx(chunk, j);
        j := j + 1;
      }
    }

    /** One store of memcpy: the slot is outside the live region, whatever the interrupt side did meanwhile. */
    method StoreTx(chunk: seq<Byte>, j: nat)
      requires Valid() && j < |chunk| && txIn + |chunk| <= BUF_LEN && |published| - |sent| + |chunk| < BUF_LEN
      requires Stored(chunk, j)
      modifies this`dev, this`irqRe, this`irqWe, this`rxIn, this`taken, rxBuf, this`txOut, this`sent, this`hostInactive
      modifies this`slipped, this`late, this`peak
      modifies txBuf
      ensures Valid() && old(taken) <= taken && old(sent) <= sent
      ensures Stored(chunk, j + 1)
    {
      txBuf[txIn + j] := chunk[j];
      Interleave();
    }

    /** The store that makes a copied chunk visible to the interrupt routine. */
    method PublishTx(chunk: seq<Byte>, ghost goal: seq<Byte>)
      requires Valid() && |published| - |sent| + |chunk| < BUF_LEN && Stored(chunk, |chunk|)
      requires published <= goal && |published| + |chunk| <= |goal|
      requires goal[|published|..|published| + |chunk|] == chunk
      modifies this`txIn, this`published, this`publishing
      ensures Valid() && published <= goal && |published| == |old(published)| + |chunk|
    {
      PrefixGrows(published, goal, chunk);
      txIn := (txIn + |chunk|) % BUF_LEN;
      published := published + chunk;
      publishing := true;
    }

    /** With interrupts disabled: turn WE on in the driver's copy and in the device. */
    method EnableWe()
      requires Valid()
      modifies this`irqWe, this`dev, this`publishing
      ensures Valid() && irqWe && !publishing
    {
      irqWe := true;
      dev := dev.(we := irqWe);
      publishing := false;
    }

    /** Spin until the out index moves or the host counts as gone; false when observation stops first. */
    method AwaitRoom(out: nat, budget: nat) returns (left: bool, budget': nat)
      requires Valid()
      modifies this`dev, this`irqRe, this`irqWe, this`rxIn, this`taken, rxBuf, this`txOut, this`sent, this`hostInactive
      modifies this`slipped, this`late, this`peak
      ensures Valid() && old(taken) <= taken && old(sent) <= sent
      ensures left ==> budget' < budget && (out != txOut || hostInactive >= timeout)
      ensures !left ==> budget' == 0 && (budget > 0 ==> hostInactive < timeout)
      ensures old(peak) <= peak
    {
      budget' := budget;
      left := false;
      while budget' > 0
        invariant Valid() && old(taken) <= taken && old(sent) <= sent && old(peak) <= peak && budget' <= budget
        invariant budget' < budget ==> hostInactive < timeout
      {
        budget' := budget' - 1;
        Interleave();
        if out != txOut {
          return true, budget';
        }
        Interleave();
        if hostInactive >= timeout {
          return true, budget';
        }
      }
    }

    // ---------------------------------------------------------------- foreground: read

    /** The first n bytes of the caller's buffer are what has been returned since the position from. */
    ghost predicate Holds(buffer: array<Byte>, n: nat, from: nat)
      reads this`returned, buffer
    {
      n <= buffer.Length && |returned| == from + n && forall i :: 0 <= i < n ==> buffer[i] == returned[from + i]
    }

    /** The same, for bytes already taken from the device. */
    ghost predicate Matches(buffer: array<Byte>, n: nat, from: nat)
      reads this`taken, buffer
    {
      n <= buffer.Length && from + n <= |taken| && forall i :: 0 <= i < n ==> buffer[i] == taken[from + i]
    }

    /**
     Read. The bytes returned are the next ones of the stream taken from the device, in order; the call gives
     fewer than asked for only after emptying the ring, so nothing that had arrived before the call is left. A call that
     may block gives up only when the idle count has reached the timeout during the call.
     */
    method Read(buffer: array<Byte>, space: int, nonblock: bool, polls: nat) returns (r: Outcome, ghost done: nat)
      requires Valid() && Idle() && space <= buffer.Length && buffer != rxBuf && buffer != txBuf
      modifies this`dev, this`irqRe, this`irqWe, this`rxIn, this`taken, rxBuf, this`txOut, this`sent, this`hostInactive
      modifies this`slipped, this`late, this`peak
      modifies this`rxOut, this`returned, this`consuming, buffer
      ensures Valid() && Idle() && old(taken) <= taken && old(sent) <= sent && old(returned) <= returned
      ensures Holds(buffer, done, |old(returned)|) && (done <= space || done == 0)
      ensures forall i :: done <= i < buffer.Length ==> buffer[i] == old(buffer[i])
      ensures r != Waiting ==>
                r == if done > 0 then Returned(done) else Failed(if nonblock then EWOULDBLOCK else EIO)
      ensures done < space ==> |returned| >= |old(taken)|
      ensures r == Failed(EIO) && space > 0 ==> peak >= timeout && returned == taken
      ensures r == Waiting ==> done == 0
      ensures nonblock ==> r != Waiting
    {
      var got: nat, budget: nat := 0, polls;
      var round := Again;
      peak := hostInactive;
      if space <= 0 {
        round := Finished;
      }
      while round == Again
        invariant Valid() && old(taken) <= taken && old(sent) <= sent && old(returned) <= returned
        invariant Holds(buffer, got, |old(returned)|) && (got <= space || got == 0)
        invariant forall i :: got <= i < buffer.Length ==> buffer[i] == old(buffer[i])
        invariant got == 0 ==> consuming == old(consuming) && publishing == old(publishing)
        invariant round != Again && got < space ==> |returned| >= |old(taken)|
        invariant round == Finished && got == 0 && space > 0 && !nonblock ==> peak >= timeout && returned == taken
        invariant round != Finished ==> got == 0
        invariant nonblock ==> round != Stopped
        decreases round == Again, budget
      {
        round, got, budget := ReadRound(buffer, space, nonblock, budget);
      }
      if got > 0 {
        EnableRe();
      }
      done := got;
      r := if round == Stopped then Waiting
           else if got > 0 then Returned(got)
           else Failed(if nonblock then EWOULDBLOCK else EIO);
    }

    /** One turn of read's outer loop: drain the ring, and wait for data if there was none. */
    method ReadRound(buffer: array<Byte>, space: nat, nonblock: bool, budget: nat)
        returns (round: Round, got: nat, budget': nat)
      requires Valid() && 0 < space <= buffer.Length && buffer != rxBuf && buffer != txBuf
      modifies this`dev, this`irqRe, this`irqWe, this`rxIn, this`taken, rxBuf, this`txOut, this`sent, this`hostInactive
      modifies this`slipped, this`late, this`peak
      modifies this`rxOut, this`returned, this`consuming, buffer
      ensures Valid() && old(taken) <= taken && old(sent) <= sent && old(returned) <= returned
      ensures Holds(buffer, got, |old(returned)|) && got <= space
      ensures forall i :: got <= i < buffer.Length ==> buffer[i] == old(buffer[i])
      ensures got == 0 ==> consuming == old(consuming)
      ensures got < space ==> |returned| >= |old(taken)|
      ensures round != Finished ==> got == 0
      ensures nonblock ==> round == Finished
      ensures round == Finished && got == 0 && !nonblock ==> peak >= timeout && returned == taken
      ensures round == Again ==> budget' < budget && returned != taken
    {
      var inIndex;
      got, inIndex := Drain(buffer, space);
      if got > 0 || nonblock {
        return Finished, got, budget;
      }
      var left;
      left, budget' := AwaitData(inIndex, budget);
      if !left {
        return Stopped, got, budget';
      }
      Interleave();
      round := if inIndex == rxIn then Finished else Again;
    }

    /** The inner loop of read: copy out contiguous live bytes until the buffer is full or the ring was seen empty. */
    method Drain(buffer: array<Byte>, space: nat) returns (got: nat, inIndex: nat)
      requires Valid() && 0 < space <= buffer.Length && buffer != rxBuf && buffer != txBuf
      modifies this`dev, this`irqRe, this`irqWe, this`rxIn, this`taken, rxBuf, this`txOut, this`sent, this`hostInactive
      modifies this`slipped, this`late, this`peak
      modifies this`rxOut, this`returned, this`consuming, buffer
      ensures Valid() && old(taken) <= taken && old(sent) <= sent && old(returned) <= returned
      ensures Holds(buffer, got, |old(returned)|) && got <= space
      ensures forall i :: got <= i < buffer.Length ==> buffer[i] == old(buffer[i])
      ensures got == 0 ==> consuming == old(consuming) && inIndex == rxOut
      ensures got < space ==> |returned| >= |old(taken)|
    {
      got := 0;
      var more := true;
      inIndex := rxIn;
      while more
        invariant Valid() && old(taken) <= taken && old(sent) <= sent && old(returned) <= returned
        invariant Holds(buffer, got, |old(returned)|) && got <= space
        invariant forall i :: got <= i < buffer.Length ==> buffer[i] == old(buffer[i])
        invariant got == 0 ==> consuming == old(consuming)
        invariant more ==> got < space
        invariant !more && got < space ==> |returned| >= |old(taken)|
        invariant !more && got == 0 ==> inIndex == rxOut
        decreases more, space - got
      {
        var n;
        n, inIndex := LiveRun();
        if n == 0 {
          more := false;
        } else {
          n := Min(n, space - got);
          CopyOut(buffer, got, n, |old(returned)|);
          got := got + n;
          more := got < space;
        }
      }
    }

    /** Snapshot both indices, with anything happening in between; the answer stays conservative. */
    method LiveRun() returns (n: nat, inIndex: nat)
      requires Valid()
      modifies this`dev, this`irqRe, this`irqWe, this`rxIn, this`taken, rxBuf, this`txOut, this`sent, this`hostInactive
      modifies this`slipped, this`late, this`peak
      ensures Valid() && old(taken) <= taken && old(sent) <= sent
      ensures rxOut + n <= BUF_LEN && |returned| + n <= |taken|
      ensures n == 0 ==> |returned| >= |old(taken)| && inIndex == rxOut
    {
      Interleave();
      inIndex := rxIn;
      ReaderRunIsLiveBytes(inIndex, rxOut);
      n := ReaderRun(inIndex, rxOut);
      Interleave();
    }

    /** memcpy out of the ring, byte by byte with anything happening in between, then publish the new out index. */
    method CopyOut(buffer: array<Byte>, at: nat, n: nat, ghost from: nat)
      requires Valid() && n > 0 && rxOut + n <= BUF_LEN && |returned| + n <= |taken|
      requires at + n <= buffer.Length && buffer != rxBuf && buffer != txBuf && Holds(buffer, at, from)
      modifies this`dev, this`irqRe, this`irqWe, this`rxIn, this`taken, rxBuf, this`txOut, this`sent, this`hostInactive
      modifies this`slipped, this`late, this`peak
      modifies this`rxOut, this`returned, this`consuming, buffer
      ensures Valid() && old(taken) <= taken && old(sent) <= sent && old(returned) <= returned
      ensures Holds(buffer, at + n, from)
      ensures forall i :: at + n <= i < buffer.Length ==> buffer[i] == old(buffer[i])
    {
      var j := 0;
      while j < n
        invariant Valid() && old(taken) <= taken && old(sent) <= sent
        invariant 0 <= j <= n && rxOut == old(rxOut) && returned == old(returned)
        invariant Matches(buffer, at + j, from)
        invariant forall i :: at + n <= i < buffer.Length ==> buffer[i] == old(buffer[i])
      {
        CopyOne(buffer, at, j, from);
        j := j + 1;
      }
      ConsumeRx(n);
    }

    /** One load of memcpy: the slot still holds its byte, whatever the interrupt side did meanwhile. */
    method CopyOne(buffer: array<Byte>, at: nat, j: nat, ghost from: nat)
      requires Valid() && rxOut + j < BUF_LEN && |returned| + j < |taken| && |returned| == from + at
      requires at + j < buffer.Length && buffer != rxBuf && buffer != txBuf && Matches(buffer, at + j, from)
      modifies this`dev, this`irqRe, this`irqWe, this`rxIn, this`taken, rxBuf, this`txOut, this`sent, this`hostInactive
      modifies this`slipped, this`late, this`peak
      modifies buffer
      ensures Valid() && old(taken) <= taken && old(sent) <= sent && Matches(buffer, at + j + 1, from)
      ensures forall i :: at + j < i < buffer.Length ==> buffer[i] == old(buffer[i])
    {
      assert taken[|returned| + j] == rxBuf[Slot(rxOut, j)];
      buffer[at + j] := rxBuf[rxOut + j];
      Interleave();
    }

    /** The store that gives the copied slots back to the interrupt routine. */
    method ConsumeRx(n: nat)
      requires Valid() && rxOut + n <= BUF_LEN && |returned| + n <= |taken|
      modifies this`rxOut, this`returned, this`consuming
      ensures Valid() && consuming
      ensures |returned| == |old(returned)| + n && old(returned) <= returned <= taken
    {
      returned := taken[..|returned| + n];
      rxOut := (rxOut + n) % BUF_LEN;
      consuming := true;
    }

    /** With interrupts disabled: turn RE on in the driver's copy and in the device. */
    method EnableRe()
      requires Valid()
      modifies this`irqRe, this`dev, this`consuming, this`slipped
      ensures Valid() && irqRe && !consuming && !slipped
    {
      irqRe := true;
      dev := dev.(re := irqRe);
      consuming, slipped := false, false;
    }

    /** Spin until the in index moves or the host counts as gone; false when observation stops first. */
    method AwaitData(inIndex: nat, budget: nat) returns (left: bool, budget': nat)
      requires Valid()
      modifies this`dev, this`irqRe, this`irqWe, this`rxIn, this`taken, rxBuf, this`txOut, this`sent, this`hostInactive
      modifies this`slipped, this`late, this`peak
      ensures Valid() && old(taken) <= taken && old(sent) <= sent
      ensures left ==> budget' < budget && (inIndex != rxIn || hostInactive >= timeout)
      ensures !left ==> budget' == 0 && (budget > 0 ==> hostInactive < timeout)
      ensures old(peak) <= peak
    {
      budget' := budget;
      left := false;
      while budget' > 0
        invariant Valid() && old(taken) <= taken && old(sent) <= sent && old(peak) <= peak && budget' <= budget
        invariant budget' < budget ==> hostInactive < timeout
      {
        budget' := budget' - 1;
        Interleave();
        if inIndex != rxIn {
          return true, budget';
        }
        Interleave();
        if hostInactive >= timeout {
          return true, budget';
        }
      }
    }

    // ---------------------------------------------------------------- foreground: close

    /** Close. Success means every published byte has reached the device, or the host counts as gone. */
    method Close(nonblock: bool, polls: nat) returns (r: Outcome)
      requires Valid() && Idle()
      modifies this`dev, this`irqRe, this`irqWe, this`rxIn, this`taken, rxBuf, this`txOut, this`sent, this`hostInactive
      modifies this`slipped, this`late, this`peak
      ensures Valid() && Idle() && old(taken) <= taken && old(sent) <= sent
      ensures r == Returned(0) ==> sent == published || hostInactive >= timeout
      ensures polls > 0 && old(sent) == published ==> r == Returned(0)
      ensures r == Waiting && polls > 0 ==> hostInactive < timeout
      ensures r == Waiting || r == Returned(0) || (nonblock && r == Failed(EWOULDBLOCK))
      ensures r == Failed(EWOULDBLOCK) ==> |old(sent)| < |published| && hostInactive < timeout
      ensures nonblock && polls > 0 ==> r != Waiting
      ensures r == Waiting && |sent| < |published| ==> irqWe
    {
      var budget := polls;
      while budget > 0
        invariant Valid() && Idle() && old(taken) <= taken && old(sent) <= sent && budget <= polls
        invariant (nonblock ==> budget == polls) && (budget < polls ==> hostInactive < timeout)
        invariant old(sent) == published ==> budget == polls
      {
        budget := budget - 1;
        Interleave();
        if txOut == txIn {
          return Returned(0);
        }
        Interleave();
        if hostInactive >= timeout {
          return Returned(0);
        }
        if nonblock {
          return Failed(EWOULDBLOCK);
        }
      }
      r := Waiting;
    }
  }
}
