/**
 The transfer engine: packet dispatch with retries, multi-packet IN transfers and control transfers, over a
 model of the host controller's transfer registers and of the device's data toggles.
 */
module UsbTransfer {
  import opened Words
  import opened UsbTypes
  import opened TransferSpec
  import Max3421e
  import Spi

  /** A transfer ended with a result code, or is still being polled when observation stops. */
  datatype Outcome = Code(value: Byte) | Waiting

  const RCV_FIFO: Byte := 0x08

  /** A byte array placed somewhere in memory. */
  ghost function Placed(cells: seq<Byte>, base: int, rest: Memory): Memory
  {
    k => if base <= k < base + |cells| then cells[k - base] else rest(k)
  }

  /**
   Reading the receive FIFO over SPI stores one packet as the transfer engine takes it to: the replies are the packet,
   or for an empty one the stray byte.
   */
  method ReadFifo(spi: Spi.SpiCore, nbytes: Byte, mem: array<Byte>, data: nat, ghost base: int, ghost rest: Memory)
      returns (next: nat, ghost packet: seq<Byte>, ghost stray: Byte)
    requires spi.Idle() && !spi.sso && data + nbytes <= mem.Length && (nbytes == 0 ==> data > 0)
    modifies spi, mem
    ensures spi.Idle() && !spi.sso && next == data + |packet| && |packet| == nbytes
    ensures |spi.miso| > |old(spi.miso)| && spi.miso[|old(spi.miso)| + 1..] == if nbytes == 0 then [stray] else packet
    ensures forall k: int :: Placed(mem[..], base, rest)(k)
                          == StorePacket(Placed(old(mem[..]), base, rest), base + data, packet, stray)(k)
  {
    next := Max3421e.BytesRd(spi, RCV_FIFO, nbytes, mem, data);
    ghost var replies := spi.miso[|old(spi.miso)| + 1..];
    stray := replies[0];
    packet := if nbytes == 0 then [] else replies;
  }

  /** The tokens that the engine launches; the endpoint goes into the low nibble. */
  predicate Token(token: Byte) { token == TOK_IN || token == TOK_SETUP || token == TOK_INHS || token == TOK_OUTHS }

  /** A launched token whose transaction has not completed. */
  datatype Pending = Pending(token: Byte, ep: nat)

  /** A packet that came with an accepted IN, and whether the controller showed that it has data. */
  datatype Arrival = Arrival(packet: seq<Byte>, flagged: bool)

  class Host {
    // Time, memory, and the endpoint records of the addressed device.
    var now: nat
    var mem: Memory
    const eps: array<EpRecord>

    // The controller: token in flight, transfer-done flag, result nibble, expected receive toggle, data-available flag,
    // receive and setup FIFOs.
    var pending: Option<Pending>
    var doneIrq: bool
    var hrsl: Byte
    var hostToggle: bool
    var rcvdav: bool
    var fifo: seq<Byte>
    var sudfifo: seq<Byte>
    var peraddr: Byte

    // The device: for each endpoint the toggle of the packet it will send next.
    var devToggle: seq<bool>

    // Histories: tokens launched, results of transactions, packets accepted, values written to HCTL, toggle flips by the
    // device, acknowledgements that did not reach it, and looks at the transfer-done flag.
    ghost var launched: seq<Byte>
    ghost var results: seq<Byte>
    ghost var arrived: seq<Arrival>
    ghost var hctl: seq<Byte>
    ghost var flips: nat
    ghost var lost: nat
    ghost var looks: nat

    ghost predicate Valid()
      reads this`pending, this`hrsl, this`fifo, this`devToggle
    {
      && hrsl < 0x10 && |fifo| < 0x100 && |devToggle| == eps.Length && eps.Length <= 0x10
      && (hrsl == HR_BUSY <==> pending.Some?) && (pending.Some? ==> pending.value.ep < eps.Length)
    }

    // ---------------------------------------------------------------- the controller and the device

    /** Write HXFR: the controller sends the token, and its result register shows that it is busy. */
    method Launch(token: Byte, ep: nat)
      requires Valid() && pending.None? && ep < eps.Length && Token(token)
      modifies this`pending, this`hrsl, this`launched
      ensures Valid() && pending == Some(Pending(token, ep)) && launched == old(launched) + [token + ep]
    {
      pending := Some(Pending(token, ep));
      hrsl := HR_BUSY;
      launched := launched + [token + ep];
    }

    /** Neither end of the wire has done anything. */
    twostate predicate Still()
      reads this`hostToggle, this`devToggle, this`results, this`flips, this`lost, this`arrived
      reads this`fifo, this`rcvdav
    {
      && hostToggle == old(hostToggle) && devToggle == old(devToggle) && results == old(results)
      && flips == old(flips) && lost == old(lost) && arrived == old(arrived)
      && fifo == old(fifo) && rcvdav == old(rcvdav)
    }

    /** An accepted IN brings a packet, which the receive FIFO then holds; nothing else does. */
    twostate predicate Received(token: Byte)
      reads this`hrsl, this`arrived, this`fifo, this`rcvdav
    {
      arrived == if token == TOK_IN && hrsl == HR_SUCCESS then old(arrived) + [Arrival(fifo, rcvdav)] else old(arrived)
    }

    /** The host has acknowledged a packet: the device moves on to its other toggle, unless that is lost on the way. */
    twostate predicate Acknowledged(ep: nat)
      requires ep < |devToggle| && ep < |old(devToggle)|
      reads this`devToggle, this`flips, this`lost
    {
      && old(flips) <= flips && old(lost) <= lost && flips + lost == old(flips) + old(lost) + 1
      && devToggle == if lost == old(lost) then old(devToggle)[ep := !old(devToggle)[ep]] else old(devToggle)
    }

    /** What one completed transaction may do to the toggles. */
    twostate predicate Transacted(token: Byte, ep: nat)
      requires ep < |devToggle| && ep < |old(devToggle)|
      reads this`hrsl, this`hostToggle, this`devToggle, this`flips, this`lost
    {
      if token == TOK_IN && hrsl == HR_SUCCESS then
        // The expected packet: the host moves on as well.
        old(hostToggle) == old(devToggle)[ep] && hostToggle == !old(hostToggle) && Acknowledged(ep)
      else if token == TOK_IN && hrsl == HR_TOGERR then
        // A repeated packet: acknowledged and dropped.
        old(hostToggle) != old(devToggle)[ep] && hostToggle == old(hostToggle) && Acknowledged(ep)
      else
        // A setup packet that reaches the device lets its data stage begin with DATA1, even if its answer does not
        // reach the host.
        && hostToggle == old(hostToggle) && flips == old(flips) && lost == old(lost)
        && (token != TOK_SETUP ==> devToggle == old(devToggle))
        && (token == TOK_SETUP ==>
              devToggle == old(devToggle)[ep := true] || (hrsl != HR_SUCCESS && devToggle == old(devToggle)))
    }

    /** Some result that the device and the bus allow; reaches says whether the host's half of it gets to the device. */
    method Answer(token: Byte, ep: nat) returns (reaches: bool)
      requires ep < |devToggle|
      modifies this`hrsl, this`rcvdav, this`fifo
      ensures hrsl < 0x10 && hrsl != HR_BUSY && |fifo| < 0x100
      ensures token == TOK_IN && hrsl == HR_SUCCESS ==> hostToggle == devToggle[ep]
      ensures token == TOK_IN && hrsl == HR_TOGERR ==> hostToggle != devToggle[ep]
    {
      var r: Byte, p: seq<Byte>, available: bool := *, *, *;
      reaches := *;
      rcvdav, fifo := available, if |p| < 0x100 then p else [];
      hrsl := if r < 0x10 && r != HR_BUSY then r else HR_TIMEOUT;
      if token == TOK_IN && hrsl == HR_SUCCESS && hostToggle != devToggle[ep] {
        hrsl := HR_TOGERR;
      } else if token == TOK_IN && hrsl == HR_TOGERR && hostToggle == devToggle[ep] {
        hrsl := HR_TIMEOUT;
      }
    }

    /** The transaction in flight completes. */
    method Transact()
      requires Valid() && pending.Some?
      modifies this`pending, this`doneIrq, this`hrsl, this`hostToggle, this`rcvdav, this`fifo
      modifies this`devToggle, this`results, this`flips, this`lost, this`arrived
      ensures Valid() && pending.None? && doneIrq
      ensures Transacted(old(pending).value.token, old(pending).value.ep) && results == old(results) + [hrsl]
      ensures Received(old(pending).value.token)
    {
      var token, ep := pending.value.token, pending.value.ep;
      var reaches := Answer(token, ep);
      if token == TOK_IN && hrsl == HR_SUCCESS {
        hostToggle := !hostToggle;
        arrived := arrived + [Arrival(fifo, rcvdav)];
      }
      if token == TOK_IN && (hrsl == HR_SUCCESS || hrsl == HR_TOGERR) {
        if reaches {
          devToggle := devToggle[ep := !devToggle[ep]];
          flips := flips + 1;
        } else {
          lost := lost + 1;
        }
      } else if token == TOK_SETUP && (hrsl == HR_SUCCESS || reaches) {
        devToggle := devToggle[ep := true];
      }
      results := results + [hrsl];
      pending, doneIrq := None, true;
    }

    /** Time for one register access, in which a transaction in flight may complete. */
    method Progress()
      requires Valid()
      modifies this`pending, this`doneIrq, this`hrsl, this`hostToggle, this`rcvdav, this`fifo
      modifies this`devToggle, this`results, this`flips, this`lost, this`arrived
      ensures Valid()
      ensures pending == old(pending) ==> Still() && hrsl == old(hrsl) && doneIrq == old(doneIrq)
      ensures pending != old(pending) ==>
        && old(pending).Some? && pending.None? && doneIrq && results == old(results) + [hrsl]
        && Transacted(old(pending).value.token, old(pending).value.ep) && Received(old(pending).value.token)
    {
      var completes: bool := *;
      if completes && pending.Some? {
        Transact();
      }
    }

    /**
     Between two calls there is time enough for a transaction that the first of them left in flight: it completes, with
     nobody waiting for it, and leaves the transfer-done flag set.
     */
    method Finish()
      requires Valid()
      modifies this`pending, this`doneIrq, this`hrsl, this`hostToggle, this`rcvdav, this`fifo
      modifies this`devToggle, this`results, this`flips, this`lost, this`arrived
      ensures Valid() && pending.None?
      ensures old(pending).None? ==> Still() && hrsl == old(hrsl) && doneIrq == old(doneIrq)
      ensures old(pending).Some? ==>
                && doneIrq && Transacted(old(pending).value.token, old(pending).value.ep)
                && Received(old(pending).value.token)
    {
      if pending.Some? {
        Transact();
      }
    }

    /** Read HIRQ once; up to one tick passes, and the transaction may complete. */
    method PollDone() returns (done: bool)
      requires Valid()
      modifies this`now, this`looks
      modifies this`pending, this`doneIrq, this`hrsl, this`hostToggle, this`rcvdav, this`fifo
      modifies this`devToggle, this`results, this`flips, this`lost, this`arrived
      ensures Valid() && old(now) <= now <= old(now) + 1 && done == doneIrq && looks == old(looks) + 1
      ensures pending == old(pending) ==> Still() && hrsl == old(hrsl) && doneIrq == old(doneIrq)
      ensures pending != old(pending) ==>
        && old(pending).Some? && pending.None? && doneIrq && results == old(results) + [hrsl]
        && Transacted(old(pending).value.token, old(pending).value.ep) && Received(old(pending).value.token)
    {
      var tick: bool := *;
      if tick {
        now := now + 1;
      }
      Progress();
      done := doneIrq;
      looks := looks + 1;
    }

    /** The token is still in flight: observation stopped, the deadline passed, or the result was read too early. */
    static predicate InFlight(r: Outcome)
    {
      r.Waiting? || r.value == NO_ANSWER || r.value == HR_BUSY
    }

    // ---------------------------------------------------------------- packet dispatch

    /** A result code below 0x10 is the controller's result for the last packet. */
    ghost predicate Relayed(r: Outcome)
      reads this`hrsl
    {
      r.Code? && r.value < 0x10 ==> r.value == hrsl
    }

    /** The code of a call that ended because its last transaction did not succeed: that one's result, or it is in flight. */
    ghost predicate Failed(r: Outcome)
      reads this`hrsl, this`pending
    {
      if InFlight(r) then pending.Some? else pending.None? && r.value == hrsl && hrsl != HR_SUCCESS
    }

    /**
     One turn of the poll loop: a look at the transfer-done flag, and if it is set, the flag cleared and the result read. A
     flag left over from an earlier transaction makes it read while the controller is busy.
     */
    method Look(token: Byte, ep: nat, deadline: nat, ghost start: nat) returns (r: Option<Byte>)
      requires Valid() && pending == Some(Pending(token, ep)) && Ms(now) < deadline
      requires deadline == Deadline(start) && start <= now && (InOneTurn(start) ==> now <= start + XFER_TIMEOUT)
      modifies this`now, this`looks
      modifies this`pending, this`doneIrq, this`hrsl, this`hostToggle, this`rcvdav, this`fifo
      modifies this`devToggle, this`results, this`flips, this`lost, this`arrived
      ensures Valid() && old(now) <= now && (InOneTurn(start) ==> now <= start + XFER_TIMEOUT) && looks == old(looks) + 1
      ensures if r.None? || r.value == HR_BUSY then pending == old(pending) && Still()
              else
                && pending.None? && r.value == hrsl && Transacted(token, ep) && Received(token)
                && results == old(results) + [hrsl]
      ensures r.Some? ==> r.value == hrsl
      ensures !old(doneIrq) ==> r != Some(HR_BUSY) && !doneIrq
    {
      if InOneTurn(start) {
        DeadlineIsExact(start, now);
      }
      var done := PollDone();
      if !done {
        return None;
      }
      doneIrq := false;
      Progress();
      r := Some(hrsl);
    }

    /**
     One launch and its poll loop: the result read, or NO_ANSWER when the millisecond clock showed the deadline.
     A transfer-done flag left over from an earlier transaction makes the result HR_BUSY. In both cases the token is
     still in flight. Observation stops when the polls run out.
     */
    method Attempt(token: Byte, ep: nat, deadline: nat, polls: nat, ghost start: nat) returns (r: Outcome, left: nat)
      requires Valid() && pending.None? && ep < eps.Length && Token(token)
      requires deadline == Deadline(start) && start <= now && (InOneTurn(start) ==> now <= start + XFER_TIMEOUT)
      modifies this`now, this`looks, this`launched
      modifies this`pending, this`doneIrq, this`hrsl, this`hostToggle, this`rcvdav, this`fifo
      modifies this`devToggle, this`results, this`flips, this`lost, this`arrived
      ensures Valid() && left <= polls && old(now) <= now && (InOneTurn(start) ==> now <= start + XFER_TIMEOUT)
      ensures launched == old(launched) + [token + ep] && Relayed(r)
      ensures (r == Waiting ==> left == 0) && looks == old(looks) + polls - left
      ensures r.Code? && r.value != NO_ANSWER ==> left < polls
      ensures r.Code? && r.value == NO_ANSWER ==> Ms(now) >= deadline
      ensures if InFlight(r) then pending == Some(Pending(token, ep)) && Still()
              else
                && pending.None? && r.value == hrsl && Transacted(token, ep) && Received(token)
                && results == old(results) + [hrsl]
      ensures !old(doneIrq) ==> r != Code(HR_BUSY) && !doneIrq
    {
      Launch(token, ep);
      left := polls;
      while Ms(now) < deadline
        invariant Valid() && pending == Some(Pending(token, ep)) && left <= polls && old(now) <= now
        invariant launched == old(launched) + [token + ep]
        invariant InOneTurn(start) ==> now <= start + XFER_TIMEOUT
        invariant Still() && (!old(doneIrq) ==> !doneIrq) && looks == old(looks) + polls - left
        decreases left
      {
        if left == 0 {
          return Waiting, left;
        }
        left := left - 1;
        var result := Look(token, ep, deadline, start);
        if result.Some? {
          return Code(result.value), left;
        }
      }
      r := Code(NO_ANSWER);
    }

    /** What the tries of one dispatch amount to; tries are the results seen, the last one last. */
    static ghost predicate Dispatched(r: Outcome, tries: seq<Byte>, launches: nat)
    {
      if InFlight(r) then AllRetried(tries) && launches == |tries| + 1
      else
        && launches == |tries| > 0 && AllRetried(tries[..|tries| - 1]) && tries[|tries| - 1] == r.value
        && (r.value == HR_NAK ==> multiset(tries)[HR_NAK] == 200)
        && (r.value == HR_TIMEOUT ==> multiset(tries)[HR_TIMEOUT] == 3)
    }

    /** Between two points so many tokens were launched, all of them the given one. */
    static ghost predicate Launches(before: seq<Byte>, after: seq<Byte>, times: nat, token: int)
    {
      before <= after && |after| == |before| + times && forall i :: |before| <= i < |after| ==> after[i] == token
    }

    static lemma LaunchesOneMore(before: seq<Byte>, after: seq<Byte>, times: nat, token: Byte)
      requires Launches(before, after, times, token)
      ensures Launches(before, after + [token], times + 1, token)
    {
    }

    /** A packet is sent at most 202 times, whatever answers it gets. */
    static lemma LaunchBound(r: Outcome, tries: seq<Byte>, launches: nat)
      requires Dispatched(r, tries, launches)
      ensures launches <= 202
    {
      if InFlight(r) {
        RetryBound(tries);
      } else {
        RetryBound(tries[..|tries| - 1]);
      }
    }

    /**
     XferDispatchPkt. NAK is returned only after exactly 200 NAKs and a bus timeout only after exactly 3; as long
     as the clock product does not wrap, the call is over 5000 ticks after it began. The toggles are as after
     the last try, the retried ones having left them alone, unless a retried setup packet reached the device. With
     no transfer-done flag left over, the result is never HR_BUSY.
     */
    method Dispatch(token: Byte, ep: nat, polls: nat) returns (r: Outcome, left: nat, ghost tries: seq<Byte>, ghost launches: nat)
      requires Valid() && pending.None? && ep < eps.Length && Token(token)
      modifies this`now, this`looks, this`launched
      modifies this`pending, this`doneIrq, this`hrsl, this`hostToggle, this`rcvdav, this`fifo
      modifies this`devToggle, this`results, this`flips, this`lost, this`arrived
      ensures Valid() && left <= polls && old(now) <= now && (InOneTurn(old(now)) ==> now <= old(now) + 5000)
      ensures Dispatched(r, tries, launches) && results == old(results) + tries && Relayed(r)
      ensures Launches(old(launched), launched, launches, token + ep)
      ensures (r == Waiting ==> left == 0) && looks == old(looks) + polls - left
      ensures r.Code? && r.value != NO_ANSWER ==> left < polls
      ensures r.Code? && r.value == NO_ANSWER ==> Ms(now) >= Deadline(old(now))
      ensures if InFlight(r) then pending == Some(Pending(token, ep)) && Unmoved(token, ep)
              else pending.None? && r.value == hrsl && Transacted(token, ep) && Received(token)
      ensures !old(doneIrq) ==> r != Code(HR_BUSY) && !doneIrq
    {
      var deadline := Deadline(now);
      var retries, naks := 0, 0;
      left := polls;
      tries, launches := [], 0;
      ghost var start := now;
      while true
        invariant Valid() && pending.None? && left <= polls && start <= now
        invariant InOneTurn(start) ==> now <= start + XFER_TIMEOUT
        invariant results == old(results) + tries && AllRetried(tries) && launches == |tries|
        invariant naks == multiset(tries)[HR_NAK] < NAK_LIMIT && retries == multiset(tries)[HR_TIMEOUT] < RETRY_LIMIT
        invariant Launches(old(launched), launched, launches, token + ep)
        invariant Unmoved(token, ep) && (!old(doneIrq) ==> !doneIrq) && looks == old(looks) + polls - left
        decreases NAK_LIMIT - naks + RETRY_LIMIT - retries
      {
        ghost var before := tries;
        LaunchesOneMore(old(launched), launched, launches, token + ep);
        r, left := Attempt(token, ep, deadline, left, start);
        launches := launches + 1;
        if InFlight(r) {
          return;
        }
        tries := tries + [r.value];
        OneMoreTry(before, r.value);
        Reassociate(old(results), before, [r.value]);
        if r.value == HR_NAK {
          naks := naks + 1;
          if naks == NAK_LIMIT {
            return;
          }
        } else if r.value == HR_TIMEOUT {
          retries := retries + 1;
          if retries == RETRY_LIMIT {
            return;
          }
        } else {
          return;
        }
      }
    }

    /** No packet has arrived and no toggle has moved, except that the device may have taken a setup packet. */
    twostate predicate Unmoved(token: Byte, ep: nat)
      requires ep < |devToggle| && ep < |old(devToggle)|
      reads this`hostToggle, this`devToggle, this`flips, this`lost, this`arrived
    {
      && hostToggle == old(hostToggle) && flips == old(flips) && lost == old(lost) && arrived == old(arrived)
      && (devToggle == old(devToggle) || (token == TOK_SETUP && devToggle == old(devToggle)[ep := true]))
    }

    // ---------------------------------------------------------------- IN transfers

    /** The stored toggle of an endpoint is the toggle of the packet the device will send next. */
    ghost predicate InStep(ep: nat)
      requires ep < eps.Length && ep < |devToggle|
      reads this`devToggle, eps
    {
      eps[ep].rcvToggle == ToggleBits(devToggle[ep])
    }

    /** Write HCTL: one of the two receive toggle bits sets the controller's toggle. */
    method SetToggle(bits: Byte)
      modifies this`hostToggle, this`hctl
      ensures hctl == old(hctl) + [bits]
      ensures hostToggle == if bits == BM_RCVTOG1 then true else if bits == BM_RCVTOG0 then false else old(hostToggle)
    {
      hctl := hctl + [bits];
      hostToggle := if bits == BM_RCVTOG1 then true else if bits == BM_RCVTOG0 then false else hostToggle;
    }

    /** Read the received packet into memory, as MAXbytes_rd does, and clear the flag. */
    method ReadPacket(data: int) returns (next: int, ghost stray: Byte)
      modifies this`mem, this`rcvdav
      ensures mem == StorePacket(old(mem), data, fifo, stray) && next == data + |fifo| && !rcvdav
    {
      var b: Byte := *;
      stray := b;
      mem := StorePacket(mem, data, fifo, b);
      next := data + |fifo|;
      rcvdav := false;
    }

    /** What an IN packet that ends with the given code does to the toggles. */
    twostate predicate PacketMoved(r: Outcome, ep: nat)
      requires ep < |devToggle| && ep < |old(devToggle)|
      reads this`hostToggle, this`devToggle, this`flips, this`lost, this`arrived
    {
      if r == Code(HR_SUCCESS) || r == Code(NO_DATA) then
        old(hostToggle) == old(devToggle)[ep] && hostToggle == !old(hostToggle) && Acknowledged(ep)
      else if r == Code(HR_TOGERR) then
        old(hostToggle) != old(devToggle)[ep] && hostToggle == old(hostToggle) && Acknowledged(ep)
      else Unmoved(TOK_IN, ep)
    }

    /**
     What a packet that ends with the given code adds to the packets that have arrived: the one taken, which the
     controller showed; one that it did not show, with 0xf0; and none with any other code.
     */
    ghost predicate Delivered(before: seq<Arrival>, r: Outcome, packet: seq<Byte>)
      reads this`arrived
    {
      if r == Code(HR_SUCCESS) then arrived == before + [Arrival(packet, true)]
      else if r == Code(NO_DATA) then before < arrived && |arrived| == |before| + 1 && !arrived[|before|].flagged
      else arrived == before
    }

    /** One IN packet: dispatched, checked for data, and stored; the code is the one InTransfer would return for it. */
    method InPacket(ep: nat, data: int, polls: nat)
        returns (r: Outcome, size: nat, next: int, left: nat, ghost packet: seq<Byte>, ghost stray: Byte)
      requires Valid() && pending.None? && ep < eps.Length
      modifies this`now, this`looks, this`launched, this`mem
      modifies this`pending, this`doneIrq, this`hrsl, this`hostToggle, this`rcvdav, this`fifo
      modifies this`devToggle, this`results, this`flips, this`lost, this`arrived
      ensures Valid() && left <= polls && (r == Code(HR_SUCCESS) ==> left < polls) && Relayed(r)
      ensures LaunchedOnly(old(launched), launched, TOK_IN + ep)
      ensures r == Code(HR_SUCCESS) ==>
        mem == StorePacket(old(mem), data, packet, stray) && size == |packet| < 0x100 && next == data + size
      ensures r != Code(HR_SUCCESS) ==> mem == old(mem)
      ensures pending == if InFlight(r) then Some(Pending(TOK_IN, ep)) else None
      ensures PacketMoved(r, ep) && Delivered(old(arrived), r, packet) && (r == Waiting ==> left == 0)
      ensures (r == Code(HR_SUCCESS) || r == Code(NO_DATA) || Failed(r)) && looks == old(looks) + polls - left
      ensures !old(doneIrq) ==> r != Code(HR_BUSY) && !doneIrq
    {
      ghost var tries, launches;
      size, next, packet, stray := 0, data, [], 0;
      r, left, tries, launches := Dispatch(TOK_IN, ep, polls);
      if r == Code(HR_SUCCESS) {
        if rcvdav {
          packet := fifo;
          size := |fifo|;
          next, stray := ReadPacket(data);
        } else {
          r := Code(NO_DATA);
        }
      }
    }

    /** Between two points every launched token is the given one, and there is at least one. */
    static ghost predicate LaunchedOnly(before: seq<Byte>, after: seq<Byte>, token: int)
    {
      before < after && forall i :: |before| <= i < |after| ==> after[i] == token
    }

    /**
     XferInTransfer. On success the packets taken are a complete transfer, memory holds them one after the other
     from data on, and the endpoint's stored toggle is saved. A toggle in step with the device before the call is in
     step when it returns exactly if it succeeded and no acknowledgement was lost, or failed and the device has moved
     on an even number of times; a toggle out of step, exactly if the device's repeated packet was seen and dropped.
     While the token is still in flight the device may yet move on.
     */
    method InTransfer(ep: nat, nbytes: Word, data: int, maxpktsize: Byte, polls: nat)
        returns (r: Outcome, left: nat, ghost packets: seq<seq<Byte>>, ghost strays: seq<Byte>)
      requires Valid() && pending.None? && ep < eps.Length
      modifies this`now, this`looks, this`launched, this`mem, this`hctl, eps
      modifies this`pending, this`doneIrq, this`hrsl, this`hostToggle, this`rcvdav, this`fifo
      modifies this`devToggle, this`results, this`flips, this`lost, this`arrived
      ensures Valid() && left <= polls && hctl == old(hctl) + [old(eps[ep].rcvToggle)] && Relayed(r)
      ensures LaunchedOnly(old(launched), launched, TOK_IN + ep)
      ensures |strays| == |packets| && mem == StoreAll(old(mem), data, packets, strays)
      ensures r == Code(HR_SUCCESS) ==> Complete(packets, nbytes, maxpktsize)
      ensures r != Code(HR_SUCCESS) ==> Unfinished(packets, nbytes, maxpktsize) && eps[ep] == old(eps[ep])
      ensures eps[ep] == old(eps[ep]).(rcvToggle := eps[ep].rcvToggle)
      ensures forall i :: 0 <= i < eps.Length && i != ep ==> eps[i] == old(eps[i])
      ensures old(InStep(ep)) ==>
                (InStep(ep) <==> if r == Code(HR_SUCCESS) then lost == old(lost) else (flips - old(flips)) % 2 == 0)
      ensures old(InStep(ep)) && r == Code(HR_TOGERR) ==> lost > old(lost) && packets != []
      ensures !old(InStep(ep)) && old(eps[ep].rcvToggle) in {BM_RCVTOG0, BM_RCVTOG1} ==>
                packets == [] && (InStep(ep) <==> r == Code(HR_TOGERR) && lost == old(lost))
      ensures SizesAtMost(packets, 0xFF) && Tallied(r, |packets|, old(flips), old(lost)) && Came(old(arrived), r, packets)
      ensures (r == Waiting ==> left == 0) && looks == old(looks) + polls - left
      ensures r == Code(HR_SUCCESS) || r == Code(NO_DATA) || Failed(r)
      ensures pending == if InFlight(r) then Some(Pending(TOK_IN, ep)) else None
      ensures !old(doneIrq) ==> r != Code(HR_BUSY) && !doneIrq
    {
      SetToggle(eps[ep].rcvToggle);
      r, left, packets, strays := CollectPackets(ep, nbytes, data, maxpktsize, polls);
      MovedIsParity(old(devToggle)[ep], flips - old(flips));
      if r == Code(HR_SUCCESS) {
        eps[ep] := eps[ep].(rcvToggle := ToggleBits(hostToggle));
      }
    }

    /**
     Every packet taken, and the one that ended the transfer without being taken, was acknowledged: the device moved on
     or the acknowledgement was lost.
     */
    ghost predicate Tallied(r: Outcome, taken: nat, flipsBefore: nat, lostBefore: nat)
      reads this`flips, this`lost
    {
      && flipsBefore <= flips && lostBefore <= lost
      && (flips - flipsBefore) + (lost - lostBefore)
         == taken + if r == Code(NO_DATA) || r == Code(HR_TOGERR) then 1 else 0
    }

    /** A toggle that was t, after the device has moved on so many times. */
    static function Moved(t: bool, times: nat): bool
    {
      if times == 0 then t else !Moved(t, times - 1)
    }

    static lemma MovedIsParity(t: bool, times: nat)
      ensures Moved(t, times) == t <==> times % 2 == 0
    {
    }

    /** The toggles between packets, so many packets after the host's was h and the device's was d. */
    ghost predicate Kept(ep: nat, taken: nat, h: bool, d: bool, flipsBefore: nat, lostBefore: nat)
      requires ep < |devToggle|
      reads this`hostToggle, this`devToggle, this`flips, this`lost
    {
      && Tallied(Code(HR_SUCCESS), taken, flipsBefore, lostBefore) && devToggle[ep] == Moved(d, flips - flipsBefore)
      && if taken == 0 then hostToggle == h else h == d && (hostToggle == devToggle[ep] <==> lost == lostBefore)
    }

    /** The toggles when a packet ended the transfer without being taken. */
    ghost predicate Ended(r: Outcome, ep: nat, taken: nat, h: bool, d: bool, flipsBefore: nat, lostBefore: nat)
      requires ep < |devToggle|
      reads this`devToggle, this`flips, this`lost
    {
      && Tallied(r, taken, flipsBefore, lostBefore) && devToggle[ep] == Moved(d, flips - flipsBefore)
      && (r == Code(HR_TOGERR) && h == d ==> lost > lostBefore && taken > 0)
      && (h != d ==> taken == 0 && r != Code(NO_DATA))
    }

    /** Packets that arrived and were shown. */
    static ghost function Shown(packets: seq<seq<Byte>>): (s: seq<Arrival>)
      ensures |s| == |packets|
    {
      seq(|packets|, i requires 0 <= i < |packets| => Arrival(packets[i], true))
    }

    static lemma ShownOneMore(before: seq<Arrival>, packets: seq<seq<Byte>>, packet: seq<Byte>)
      ensures before + Shown(packets) + [Arrival(packet, true)] == before + Shown(packets + [packet])
    {
      assert Shown(packets) + [Arrival(packet, true)] == Shown(packets + [packet]);
    }

    /**
     The packets taken are those that have arrived, in order; there is one more exactly with the code 0xf0, which the
     controller did not show.
     */
    ghost predicate Came(before: seq<Arrival>, r: Outcome, packets: seq<seq<Byte>>)
      reads this`arrived
    {
      if r == Code(NO_DATA) then
        && before + Shown(packets) < arrived && |arrived| == |before| + |packets| + 1
        && !arrived[|arrived| - 1].flagged
      else arrived == before + Shown(packets)
    }

    /** One IN packet of a transfer, with its part in the tally of the toggles and of the packets that have arrived. */
    method TallyPacket(ep: nat, data: int, polls: nat,
                       ghost packets: seq<seq<Byte>>, ghost h: bool, ghost d: bool, ghost flipsBefore: nat,
                       ghost lostBefore: nat, ghost before: seq<Arrival>)
        returns (r: Outcome, size: nat, next: int, left: nat, ghost packet: seq<Byte>, ghost stray: Byte)
      requires Valid() && pending.None? && ep < eps.Length
      requires Kept(ep, |packets|, h, d, flipsBefore, lostBefore) && arrived == before + Shown(packets)
      modifies this`now, this`looks, this`launched, this`mem
      modifies this`pending, this`doneIrq, this`hrsl, this`hostToggle, this`rcvdav, this`fifo
      modifies this`devToggle, this`results, this`flips, this`lost, this`arrived
      ensures Valid() && left <= polls && (r == Code(HR_SUCCESS) ==> left < polls) && Relayed(r)
      ensures LaunchedOnly(old(launched), launched, TOK_IN + ep)
      ensures r == Code(HR_SUCCESS) ==>
        mem == StorePacket(old(mem), data, packet, stray) && size == |packet| < 0x100 && next == data + size
      ensures r != Code(HR_SUCCESS) ==> mem == old(mem)
      ensures pending == if InFlight(r) then Some(Pending(TOK_IN, ep)) else None
      ensures Came(before, r, if r == Code(HR_SUCCESS) then packets + [packet] else packets) && (r == Waiting ==> left == 0)
      ensures (r == Code(HR_SUCCESS) || r == Code(NO_DATA) || Failed(r)) && looks == old(looks) + polls - left
      ensures if r == Code(HR_SUCCESS) then Kept(ep, |packets| + 1, h, d, flipsBefore, lostBefore)
              else Ended(r, ep, |packets|, h, d, flipsBefore, lostBefore)
      ensures !old(doneIrq) ==> r != Code(HR_BUSY) && !doneIrq
    {
      r, size, next, left, packet, stray := InPacket(ep, data, polls);
      ShownOneMore(before, packets, packet);
    }

    /** What the packet loop knows between packets: what it has taken is in memory, and more is to come. */
    static ghost predicate Collecting(m: Memory, base: Memory, data: int, at: int, xfrlen: Word, nbytes: Word,
                                      maxpktsize: Byte, packets: seq<seq<Byte>>, strays: seq<Byte>)
    {
      && |strays| == |packets| && m == StoreAll(base, data, packets, strays)
      && Unfinished(packets, nbytes, maxpktsize) && SizesAtMost(packets, 0xFF)
      && at == data + Total(packets) && xfrlen == Wrap(Total(packets))
    }

    /** The test at the end of the packet loop: over exactly when the transfer is complete. */
    static lemma CollectingOneMore(m: Memory, base: Memory, data: int, at: int, xfrlen: Word, nbytes: Word, maxpktsize: Byte,
                                   packets: seq<seq<Byte>>, strays: seq<Byte>, packet: seq<Byte>, stray: Byte)
      requires Collecting(m, base, data, at, xfrlen, nbytes, maxpktsize, packets, strays) && |packet| < 0x100
      ensures var m', length := StorePacket(m, at, packet, stray), Wrap(xfrlen + |packet|);
              if |packet| < maxpktsize || length >= nbytes then
                && m' == StoreAll(base, data, packets + [packet], strays + [stray])
                && Complete(packets + [packet], nbytes, maxpktsize) && SizesAtMost(packets + [packet], 0xFF)
              else
                Collecting(m', base, data, at + |packet|, length, nbytes, maxpktsize, packets + [packet], strays + [stray])
    {
      OneMore(base, data, packets, strays, packet, stray, nbytes, maxpktsize);
      WrapAdds(Total(packets), |packet|);
    }

    /** One turn of the packet loop: on success one more packet is in memory, and over says whether it was the last. */
    method TakePacket(ep: nat, at: int, xfrlen: Word, nbytes: Word, maxpktsize: Byte, polls: nat,
                      ghost base: Memory, ghost data: int, ghost packets: seq<seq<Byte>>, ghost strays: seq<Byte>,
                      ghost begun: seq<Byte>, ghost h: bool, ghost d: bool, ghost flipsBefore: nat, ghost lostBefore: nat,
                      ghost before: seq<Arrival>)
        returns (r: Outcome, next: int, length: Word, over: bool, left: nat, ghost packet: seq<Byte>, ghost stray: Byte)
      requires Valid() && pending.None? && ep < eps.Length
      requires Collecting(mem, base, data, at, xfrlen, nbytes, maxpktsize, packets, strays)
      requires launched == begun || LaunchedOnly(begun, launched, TOK_IN + ep)
      requires Kept(ep, |packets|, h, d, flipsBefore, lostBefore) && arrived == before + Shown(packets)
      modifies this`now, this`looks, this`launched, this`mem
      modifies this`pending, this`doneIrq, this`hrsl, this`hostToggle, this`rcvdav, this`fifo
      modifies this`devToggle, this`results, this`flips, this`lost, this`arrived
      ensures Valid() && left <= polls && (r == Code(HR_SUCCESS) ==> left < polls) && Relayed(r)
      ensures LaunchedOnly(begun, launched, TOK_IN + ep)
      ensures r == Code(HR_SUCCESS) && !over ==>
                Collecting(mem, base, data, next, length, nbytes, maxpktsize, packets + [packet], strays + [stray])
      ensures r == Code(HR_SUCCESS) && over ==>
        && mem == StoreAll(base, data, packets + [packet], strays + [stray])
        && Complete(packets + [packet], nbytes, maxpktsize) && SizesAtMost(packets + [packet], 0xFF)
      ensures r != Code(HR_SUCCESS) ==> mem == old(mem)
      ensures pending == if InFlight(r) then Some(Pending(TOK_IN, ep)) else None
      ensures Came(before, r, if r == Code(HR_SUCCESS) then packets + [packet] else packets)
      ensures (r == Waiting ==> left == 0) && looks == old(looks) + polls - left
      ensures r == Code(HR_SUCCESS) || r == Code(NO_DATA) || Failed(r)
      ensures if r == Code(HR_SUCCESS) then Kept(ep, |packets| + 1, h, d, flipsBefore, lostBefore)
              else Ended(r, ep, |packets|, h, d, flipsBefore, lostBefore)
      ensures !old(doneIrq) ==> r != Code(HR_BUSY) && !doneIrq
    {
      var size;
      r, size, next, left, packet, stray :=
        TallyPacket(ep, at, polls, packets, h, d, flipsBefore, lostBefore, before);
      assert begun <= old(launched) < launched;
      length, over := xfrlen, true;
      if r == Code(HR_SUCCESS) {
        CollectingOneMore(old(mem), base, data, at, xfrlen, nbytes, maxpktsize, packets, strays, packet, stray);
        length := Wrap(xfrlen + size);
        over := size < maxpktsize || length >= nbytes;
      }
    }

    /** The packet loop of XferInTransfer. */
    method CollectPackets(ep: nat, nbytes: Word, data: int, maxpktsize: Byte, polls: nat)
        returns (r: Outcome, left: nat, ghost packets: seq<seq<Byte>>, ghost strays: seq<Byte>)
      requires Valid() && pending.None? && ep < eps.Length
      modifies this`now, this`looks, this`launched, this`mem
      modifies this`pending, this`doneIrq, this`hrsl, this`hostToggle, this`rcvdav, this`fifo
      modifies this`devToggle, this`results, this`flips, this`lost, this`arrived
      ensures Valid() && left <= polls && LaunchedOnly(old(launched), launched, TOK_IN + ep) && Relayed(r)
      ensures |strays| == |packets| && mem == StoreAll(old(mem), data, packets, strays) && SizesAtMost(packets, 0xFF)
      ensures if r == Code(HR_SUCCESS) then Complete(packets, nbytes, maxpktsize) else Unfinished(packets, nbytes, maxpktsize)
      ensures Came(old(arrived), r, packets) && (r == Waiting ==> left == 0) && looks == old(looks) + polls - left
      ensures r == Code(HR_SUCCESS) || r == Code(NO_DATA) || Failed(r)
      ensures if r == Code(HR_SUCCESS) then
                Kept(ep, |packets|, old(hostToggle), old(devToggle)[ep], old(flips), old(lost))
              else Ended(r, ep, |packets|, old(hostToggle), old(devToggle)[ep], old(flips), old(lost))
      ensures pending == if InFlight(r) then Some(Pending(TOK_IN, ep)) else None
      ensures !old(doneIrq) ==> r != Code(HR_BUSY) && !doneIrq
    {
      var xfrlen: Word, at, over := 0, data, false;
      left, packets, strays := polls, [], [];
      ghost var begun := launched;
      while true
        invariant Valid() && pending.None? && left <= polls && (!old(doneIrq) ==> !doneIrq)
        invariant packets == [] ==> launched == begun
        invariant packets != [] ==> LaunchedOnly(begun, launched, TOK_IN + ep)
        invariant Collecting(mem, old(mem), data, at, xfrlen, nbytes, maxpktsize, packets, strays)
        invariant Kept(ep, |packets|, old(hostToggle), old(devToggle)[ep], old(flips), old(lost))
        invariant arrived == old(arrived) + Shown(packets) && looks == old(looks) + polls - left
        decreases left
      {
        ghost var packet, stray;
        r, at, xfrlen, over, left, packet, stray :=
          TakePacket(ep, at, xfrlen, nbytes, maxpktsize, left, old(mem), data, packets, strays, begun,
                     old(hostToggle), old(devToggle)[ep], old(flips), old(lost), old(arrived));
        if r != Code(HR_SUCCESS) {
          return;
        }
        packets, strays := packets + [packet], strays + [stray];
        if over {
          return;
        }
      }
    }

    // ---------------------------------------------------------------- control transfers

    /** The tokens launched from one point to another are all the given one. */
    static ghost predicate Stage(tokens: seq<Byte>, from: nat, to: nat, token: int)
    {
      from <= to <= |tokens| && forall i :: from <= i < to ==> tokens[i] == token
    }

    /** XferCtrlND: the status stage alone, in the direction opposite to the request's. */
    method CtrlNoData(ep: nat, direction: bool, polls: nat) returns (r: Outcome, left: nat)
      requires Valid() && pending.None? && ep < eps.Length
      modifies this`now, this`looks, this`launched
      modifies this`pending, this`doneIrq, this`hrsl, this`hostToggle, this`rcvdav, this`fifo
      modifies this`devToggle, this`results, this`flips, this`lost, this`arrived
      ensures Valid() && left <= polls && old(launched) < launched && devToggle == old(devToggle) && Relayed(r)
      ensures (r == Code(HR_SUCCESS) || Failed(r)) && (InFlight(r) <==> pending.Some?) && arrived == old(arrived)
      ensures (r == Waiting ==> left == 0) && looks == old(looks) + polls - left
      ensures !old(doneIrq) ==> r != Code(HR_BUSY) && !doneIrq
      ensures Stage(launched, |old(launched)|, |launched|, (if direction then TOK_OUTHS else TOK_INHS) + ep)
    {
      ghost var tries, launches;
      r, left, tries, launches := Dispatch(if direction then TOK_OUTHS else TOK_INHS, ep, polls);
    }

    /**
     How an IN data stage and what follows it end: the status stage follows exactly a complete data stage. If the stage
     began in step with the device, the toggles agree after it unless an acknowledgement was lost, and without that
     there is no toggle error.
     */
    ghost predicate DataStage(r: Outcome, status: bool, ep: nat, packets: seq<seq<Byte>>, nbytes: Word, inStep: bool,
                              lostBefore: nat)
      requires ep < eps.Length && ep < |devToggle|
      reads this`hrsl, this`pending, this`devToggle, this`lost, eps
    {
      if status then
        && Complete(packets, nbytes, eps[ep].maxPktSize % 0x100) && (r == Code(HR_SUCCESS) || Failed(r))
        && (inStep ==> (InStep(ep) <==> lost == lostBefore))
      else
        && Unfinished(packets, nbytes, eps[ep].maxPktSize % 0x100) && (Failed(r) || r == Code(NO_DATA))
        && (inStep && r == Code(HR_TOGERR) ==> lost > lostBefore)
    }

    /** XferCtrlData: an IN data stage that starts at DATA1, then its status stage; OUT data is refused. */
    method CtrlData(ep: nat, nbytes: Word, data: int, direction: bool, polls: nat)
        returns (r: Outcome, left: nat, ghost split: nat, ghost packets: seq<seq<Byte>>, ghost strays: seq<Byte>)
      requires Valid() && pending.None? && ep < eps.Length
      modifies this`now, this`looks, this`launched, this`mem, this`hctl, eps
      modifies this`pending, this`doneIrq, this`hrsl, this`hostToggle, this`rcvdav, this`fifo
      modifies this`devToggle, this`results, this`flips, this`lost, this`arrived
      ensures Valid() && left <= polls && old(launched) <= launched && |old(launched)| <= split <= |launched|
      ensures Relayed(r)
      ensures |strays| == |packets| && mem == StoreAll(old(mem), data, packets, strays)
      ensures forall i :: 0 <= i < eps.Length && i != ep ==> eps[i] == old(eps[i])
      ensures eps[ep] == old(eps[ep]).(rcvToggle := eps[ep].rcvToggle)
      ensures !direction ==> r == Code(NO_ANSWER) && launched == old(launched) && hctl == old(hctl) && packets == []
      ensures !direction ==> pending.None? && hrsl == old(hrsl)
      ensures direction ==>
        && hctl == old(hctl) + [BM_RCVTOG1]
        && |old(launched)| < split && Stage(launched, |old(launched)|, split, TOK_IN + ep)
        && Stage(launched, split, |launched|, TOK_OUTHS + ep)
      ensures direction ==> DataStage(r, split < |launched|, ep, packets, nbytes, old(devToggle)[ep], old(lost))
      ensures Came(old(arrived), r, packets) && (r == Waiting ==> left == 0) && looks == old(looks) + polls - left
      ensures direction ==> (InFlight(r) <==> pending.Some?)
      ensures !old(doneIrq) ==> r != Code(HR_BUSY) && !doneIrq
    {
      split, packets, strays := |launched|, [], [];
      if !direction {
        return Code(NO_ANSWER), polls, split, packets, strays;
      }
      eps[ep] := eps[ep].(rcvToggle := BM_RCVTOG1);
      r, left, packets, strays := InTransfer(ep, nbytes, data, eps[ep].maxPktSize % 0x100, polls);
      split := |launched|;
      if r == Code(HR_SUCCESS) {
        ghost var tries, launches;
        r, left, tries, launches := Dispatch(TOK_OUTHS, ep, left);
      }
    }

    /** The eight bytes of a setup packet, as section 9.3 of USB 2.0 lays them out. */
    static function SetupPacket(reqType: Byte, request: Byte, valLo: Byte, valHi: Byte, index: Word, length: Word): seq<Byte>
    {
      [reqType, request, valLo, valHi, index % 0x100, index / 0x100, length % 0x100, length / 0x100]
    }

    /** A device reads back from the packet what the host asked for. */
    static lemma SetupRoundTrip(reqType: Byte, request: Byte, valLo: Byte, valHi: Byte, index: Word, length: Word)
      ensures var p := SetupPacket(reqType, request, valLo, valHi, index, length);
              && |p| == 8 && p[0] == reqType && p[1] == request && p[2] == valLo && p[3] == valHi
              && LittleEndian(p[4], p[5]) == index && LittleEndian(p[6], p[7]) == length
    {
    }

    /** The call through ctrl_xfers: the stages behind the setup packet, without and with a data stage. */
    method Stages(ep: nat, nbytes: Word, data: Option<int>, direction: bool, polls: nat)
        returns (r: Outcome, left: nat, ghost split: nat, ghost packets: seq<seq<Byte>>, ghost strays: seq<Byte>)
      requires Valid() && pending.None? && ep < eps.Length
      modifies this`now, this`looks, this`launched, this`mem, this`hctl, eps
      modifies this`pending, this`doneIrq, this`hrsl, this`hostToggle, this`rcvdav, this`fifo
      modifies this`devToggle, this`results, this`flips, this`lost, this`arrived
      ensures Valid() && left <= polls && Relayed(r)
      ensures old(launched) <= launched && |old(launched)| <= split <= |launched|
      ensures forall i :: 0 <= i < eps.Length && i != ep ==> eps[i] == old(eps[i])
      ensures eps[ep] == old(eps[ep]).(rcvToggle := eps[ep].rcvToggle)
      ensures Came(old(arrived), r, packets) && (r == Waiting ==> left == 0) && looks == old(looks) + polls - left
      ensures |strays| == |packets| && mem == if data.Some? then StoreAll(old(mem), data.value, packets, strays) else old(mem)
      ensures data.None? ==>
        && hctl == old(hctl) && split == |old(launched)| < |launched| && (r == Code(HR_SUCCESS) || Failed(r))
        && Stage(launched, split, |launched|, (if direction then TOK_OUTHS else TOK_INHS) + ep)
      ensures data.Some? && !direction ==>
        && hctl == old(hctl) && split == |old(launched)| == |launched| && packets == []
        && r == Code(NO_ANSWER) && pending.None? && hrsl == old(hrsl)
      ensures data.Some? && direction ==>
        && Stage(launched, |old(launched)|, split, TOK_IN + ep) && Stage(launched, split, |launched|, TOK_OUTHS + ep)
        && hctl == old(hctl) + [BM_RCVTOG1] && |old(launched)| < split
        && DataStage(r, split < |launched|, ep, packets, nbytes, old(devToggle)[ep], old(lost))
      ensures !old(doneIrq) ==> r != Code(HR_BUSY) && !doneIrq
    {
      match data {
        case None =>
          split, packets, strays := |launched|, [], [];
          r, left := CtrlNoData(ep, direction, polls);
        case Some(buffer) =>
          r, left, split, packets, strays := CtrlData(ep, nbytes, buffer, direction, polls);
      }
    }

    /** The setup stage, after what an earlier call left in flight has completed. */
    method SendSetup(addr: Byte, ep: nat, packet: seq<Byte>, polls: nat)
        returns (r: Outcome, left: nat, ghost lostBefore: nat, ghost before: seq<Arrival>)
      requires Valid() && ep < eps.Length
      modifies this`now, this`looks, this`launched, this`peraddr, this`sudfifo
      modifies this`pending, this`doneIrq, this`hrsl, this`hostToggle, this`rcvdav, this`fifo
      modifies this`devToggle, this`results, this`flips, this`lost, this`arrived
      ensures Valid() && left <= polls && peraddr == addr && sudfifo == packet && Relayed(r)
      ensures old(lost) <= lostBefore == lost && (old(pending).None? ==> lostBefore == old(lost))
      ensures old(arrived) <= before == arrived && |before| <= |old(arrived)| + 1
      ensures old(pending).None? ==> before == old(arrived)
      ensures LaunchedOnly(old(launched), launched, TOK_SETUP + ep)
      ensures if r == Code(HR_SUCCESS) then pending.None? && devToggle[ep] else Failed(r)
      ensures (r == Waiting ==> left == 0) && looks == old(looks) + polls - left
      ensures old(pending).None? && !old(doneIrq) ==> r != Code(HR_BUSY) && !doneIrq
    {
      ghost var tries, launches;
      Finish();
      lostBefore, before := lost, arrived;
      peraddr := addr;
      sudfifo := packet;
      r, left, tries, launches := Dispatch(TOK_SETUP, ep, polls);
    }

    /**
     XferCtrlReq. The setup packet goes out first, then the data stage if there is a buffer, then the status stage;
     no stage begins before the previous one succeeded, and success means that all of them did. A data stage
     starts at DATA1 in step with the device, so unless an acknowledgement is lost it never ends with a toggle error, and
     after it the toggles agree.
     */
    method CtrlReq(addr: Byte, ep: nat, reqType: Byte, request: Byte, valLo: Byte, valHi: Byte, index: Word,
                   nbytes: Word, data: Option<int>, polls: nat)
        returns (r: Outcome, left: nat, ghost setupEnd: nat, ghost split: nat,
                 ghost packets: seq<seq<Byte>>, ghost strays: seq<Byte>, ghost lostBefore: nat,
                 ghost before: seq<Arrival>)
      requires Valid() && ep < eps.Length
      modifies this`now, this`looks, this`launched, this`mem, this`hctl, this`peraddr, this`sudfifo, eps
      modifies this`pending, this`doneIrq, this`hrsl, this`hostToggle, this`rcvdav, this`fifo
      modifies this`devToggle, this`results, this`flips, this`lost, this`arrived
      ensures Valid() && left <= polls && peraddr == addr && Relayed(r)
      ensures old(lost) <= lostBefore && (old(pending).None? ==> lostBefore == old(lost))
      ensures old(arrived) <= before && |before| <= |old(arrived)| + 1 && (old(pending).None? ==> before == old(arrived))
      ensures Came(before, r, packets) && (r == Waiting ==> left == 0) && looks == old(looks) + polls - left
      ensures old(pending).None? && !old(doneIrq) ==> r != Code(HR_BUSY) && !doneIrq
      ensures sudfifo == SetupPacket(reqType, request, valLo, valHi, index, nbytes)
      ensures old(launched) < launched && |old(launched)| < setupEnd <= split <= |launched|
      ensures Stage(launched, |old(launched)|, setupEnd, TOK_SETUP + ep)
      ensures forall i :: 0 <= i < eps.Length && i != ep ==> eps[i] == old(eps[i])
      ensures eps[ep] == old(eps[ep]).(rcvToggle := eps[ep].rcvToggle)
      ensures |strays| == |packets| && mem == if data.Some? then StoreAll(old(mem), data.value, packets, strays) else old(mem)
      ensures data.None? ==>
        && hctl == old(hctl) && split == setupEnd
        && Stage(launched, split, |launched|, (if reqType >= 0x80 then TOK_OUTHS else TOK_INHS) + ep)
        && (if split < |launched| then r == Code(HR_SUCCESS) || Failed(r) else Failed(r))
      ensures data.Some? && reqType < 0x80 ==>
        && hctl == old(hctl) && setupEnd == |launched| && packets == []
        && (Failed(r) || (r == Code(NO_ANSWER) && pending.None? && hrsl == HR_SUCCESS))
      ensures data.Some? && reqType >= 0x80 ==>
        && Stage(launched, setupEnd, split, TOK_IN + ep) && Stage(launched, split, |launched|, TOK_OUTHS + ep)
        && hctl == old(hctl) + (if setupEnd < split then [BM_RCVTOG1] else [])
        && if setupEnd < split then DataStage(r, split < |launched|, ep, packets, nbytes, true, lostBefore)
           else split == |launched| && packets == [] && Failed(r)
    {
      r, left, lostBefore, before :=
        SendSetup(addr, ep, SetupPacket(reqType, request, valLo, valHi, index, nbytes), polls);
      setupEnd, split, packets, strays := |launched|, |launched|, [], [];
      if r != Code(HR_SUCCESS) {
        return;
      }
      r, left, split, packets, strays := Stages(ep, nbytes, data, reqType >= 0x80, left);
    }

    // ---------------------------------------------------------------- polling

    /**
     kbdPoll and mousePoll: an IN transfer of 8 bytes from endpoint 1. A token that the previous call left in flight
     completes first; step says whether the toggles then agree, late and lateLost what that completion did. With packets
     of 8 bytes or more a poll takes at most one, and toggles in step stay in step, NAKs and timeouts included, except
     exactly when the poll succeeds and the device has not moved on, or fails and it has. Toggles out of step take no
     packet and are brought back in step by the first packet that the device sends and sees acknowledged, in a poll
     that reports a toggle error or late.
     */
    method Poll(addr: Byte, data: int, polls: nat)
        returns (r: Outcome, left: nat, ghost packets: seq<seq<Byte>>, ghost strays: seq<Byte>,
                 ghost step: bool, ghost late: nat, ghost lateLost: nat, ghost before: seq<Arrival>)
      requires Valid() && eps.Length >= 2
      modifies this`now, this`looks, this`launched, this`mem, this`hctl, this`peraddr, eps
      modifies this`pending, this`doneIrq, this`hrsl, this`hostToggle, this`rcvdav, this`fifo
      modifies this`devToggle, this`results, this`flips, this`lost, this`arrived
      ensures Valid() && left <= polls && peraddr == addr && Relayed(r)
      ensures |strays| == |packets| && mem == StoreAll(old(mem), data, packets, strays)
      ensures eps[1] == old(eps[1]).(rcvToggle := eps[1].rcvToggle)
      ensures if r == Code(HR_SUCCESS) then Complete(packets, 8, eps[1].maxPktSize % 0x100)
              else Unfinished(packets, 8, eps[1].maxPktSize % 0x100)
      // What has arrived, in the call and before it.
      ensures Came(before, r, packets) && (r == Code(HR_SUCCESS) || r == Code(NO_DATA) || Failed(r))
      ensures old(arrived) <= before && |before| <= |old(arrived)| + 1 && (old(pending).None? ==> before == old(arrived))
      ensures (r == Waiting ==> left == 0) && looks == old(looks) + polls - left
      // What was left in flight, and what is.
      ensures old(pending).None? ==> step == old(InStep(1)) && late == lateLost == 0
      ensures old(pending) == Some(Pending(TOK_IN, 1)) && old(eps[1].rcvToggle) in {BM_RCVTOG0, BM_RCVTOG1} ==>
                late <= 1 && (step <==> (old(InStep(1)) <==> late == 0))
      ensures pending == if InFlight(r) then Some(Pending(TOK_IN, 1)) else None
      ensures old(pending).None? && !old(doneIrq) ==> r != Code(HR_BUSY) && !doneIrq
      // From toggles in step, and from toggles out of step.
      ensures Tallied(r, |packets|, old(flips) + late, old(lost) + lateLost)
      ensures step ==> (InStep(1) <==> if r == Code(HR_SUCCESS) then lost == old(lost) + lateLost
                                       else (flips - (old(flips) + late)) % 2 == 0)
      ensures eps[1].maxPktSize % 0x100 >= 8 ==> |packets| <= 1 && (packets != [] <==> r == Code(HR_SUCCESS))
      ensures step && eps[1].maxPktSize % 0x100 >= 8 ==>
                (InStep(1) <==> (r == Code(HR_SUCCESS) <==> flips > old(flips) + late))
      ensures step && eps[1].maxPktSize % 0x100 >= 8 && lost == old(lost) + lateLost ==>
                (InStep(1) <==> r != Code(NO_DATA))
      ensures !step && old(eps[1].rcvToggle) in {BM_RCVTOG0, BM_RCVTOG1} ==>
                packets == [] && (InStep(1) <==> r == Code(HR_TOGERR) && lost == old(lost) + lateLost)
    {
      Finish();
      step, late, lateLost, before := InStep(1), flips - old(flips), lost - old(lost), arrived;
      peraddr := addr;
      r, left, packets, strays := InTransfer(1, 8, data, eps[1].maxPktSize % 0x100, polls);
      if eps[1].maxPktSize % 0x100 >= 8 {
        OnePacketIsEnough(packets, eps[1].maxPktSize % 0x100);
      }
    }

    /** A report of 8 bytes fits in one packet of 8 or more. */
    static lemma {:induction false} OnePacketIsEnough(packets: seq<seq<Byte>>, maxpktsize: Byte)
      requires maxpktsize >= 8 && SizesAtMost(packets, 0xFF)
      ensures Unfinished(packets, 8, maxpktsize) ==> packets == []
      ensures Complete(packets, 8, maxpktsize) ==> |packets| == 1
    {
      if packets == [] {
      } else {
        var n := |packets| - 1;
        OnePacketIsEnough(packets[..n], maxpktsize);
        assert n == 0 ==> Total(packets) == |packets[0]|;
      }
    }
  }
}
