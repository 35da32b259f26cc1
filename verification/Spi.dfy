/**
 One SPI master transaction, as alt_avalon_spi_command performs it by polling, against a model of the SPI core.
 The core may take any number of polls up to its latency to accept a byte or to finish shifting one, and the
 slave may answer anything. Observation stops after a given number of polls.
 */
module Spi {
  import opened Words

  const EXHAUSTED: int := -1024

  /** What happens on the wires: the chip is selected, a byte is clocked out (in a held frame or alone), the chip is released. */
  datatype Event = Select | Clock(out: Byte, held: bool) | Release

  /** Event k of a command: the write data, then zeros. */
  function Outgoing(writeData: seq<Byte>, k: nat, held: bool): Event
  {
    Clock(if k < |writeData| then writeData[k] else 0, held)
  }

  /** All events of a command that moves n bytes. */
  function Clocks(writeData: seq<Byte>, n: nat, held: bool): (s: seq<Event>)
    ensures |s| == n && forall k :: 0 <= k < n ==> s[k] == Outgoing(writeData, k, held)
  {
    seq(n, k requires 0 <= k < n => Outgoing(writeData, k, held))
  }

  /** From the given start on, the plan is the events of a command that moves n bytes. */
  ghost predicate PlanFor(plan: seq<Event>, start: nat, writeData: seq<Byte>, n: nat, held: bool)
  {
    |plan| == start + n && forall k :: start <= k < |plan| ==> plan[k] == Outgoing(writeData, k - start, held)
  }

  /** The local variables of one command. The credit count takes the value -1024 when there is nothing to send. */
  datatype Cursor = Cursor(written: nat, zeros: nat, ignore: nat, got: nat, credits: int)

  class SpiCore {
    const latency: nat

    var sso: bool
    var inFlight: bool
    var rrdy: bool
    var rxData: Byte
    var wait: nat

    // What went over the wires.
    ghost var trace: seq<Event>
    ghost var miso: seq<Byte>

    constructor (latency: nat)
      ensures Idle() && !sso && this.latency == latency && trace == [] && miso == []
    {
      this.latency := latency;
      sso, inFlight, rrdy, rxData, wait := false, false, false, 0, 0;
      trace, miso := [], [];
    }

    ghost predicate Valid()
      reads this`wait, this`inFlight, this`rrdy
    {
      wait <= latency && !(inFlight && rrdy)
    }

    /** Nothing is being shifted; a stale byte may still sit in the receive register. */
    ghost predicate Idle()
      reads this`wait, this`inFlight, this`rrdy
    {
      Valid() && !inFlight
    }

    // ---------------------------------------------------------------- registers

    /** Read status: the core gets one poll closer to finishing what it is doing. */
    method Status() returns (trdy: bool, ready: bool, tmt: bool)
      requires Valid()
      modifies this`inFlight, this`rrdy, this`rxData, this`wait, this`miso
      ensures Valid() && ready == rrdy && tmt == !inFlight
      ensures old(inFlight && wait == 0) ==> !inFlight && rrdy && miso == old(miso) + [rxData] && wait == 0
      ensures !old(inFlight && wait == 0) ==>
                && inFlight == old(inFlight) && rrdy == old(rrdy) && rxData == old(rxData) && miso == old(miso)
                && wait == if old(wait) > 0 then old(wait) - 1 else 0
      ensures !old(inFlight) ==> trdy == (old(wait) == 0)
    {
      var second: bool := *;
      trdy := if inFlight then second else wait == 0;
      if wait > 0 {
        wait := wait - 1;
      } else if inFlight {
        rxData := *;
        inFlight, rrdy := false, true;
        miso := miso + [rxData];
      }
      ready, tmt := rrdy, !inFlight;
    }

    method Delay() returns (n: nat)
      ensures n <= latency
    {
      n :| 0 <= n <= latency;
    }

    /** Write the transmit register of an idle core. */
    method WriteTx(b: Byte)
      requires Idle() && !rrdy
      modifies this`inFlight, this`wait, this`trace
      ensures Valid() && inFlight && trace == old(trace) + [Clock(b, sso)]
    {
      inFlight := true;
      wait := Delay();
      trace := trace + [Clock(b, sso)];
    }

    /** Read the receive register, which clears RRDY. */
    method ReadRx() returns (b: Byte)
      requires Idle()
      modifies this`rrdy, this`wait
      ensures Idle() && !rrdy && b == rxData
    {
      b := rxData;
      rrdy := false;
      wait := Delay();
    }

    /** Write the SSO bit of the control register. */
    method WriteSso(on: bool)
      modifies this`sso, this`trace
      ensures sso == on
      ensures trace == old(trace) + if old(sso) == on then [] else if on then [Select] else [Release]
    {
      trace := trace + if sso == on then [] else if on then [Select] else [Release];
      sso := on;
    }

    // ---------------------------------------------------------------- the command loop

    /** The four counters of a command of w write bytes and r read bytes, after so many bytes sent and received. */
    static ghost predicate Counted(c: Cursor, w: nat, r: nat, sent: nat, received: nat)
    {
      && received <= sent <= w + r
      && (sent <= w ==> c.written == sent && c.zeros == r)
      && (sent > w ==> c.written == w && c.zeros == w + r - sent)
      && (received <= w ==> c.ignore == w - received && c.got == 0)
      && (received > w ==> c.ignore == 0 && c.got == received - w)
    }

    /** The credit law: the one credit is held by the loop, or by the byte being shifted, or by the byte waiting to be read. */
    ghost predicate Credited(c: Cursor, w: nat, r: nat, sent: nat, received: nat)
      reads this`inFlight, this`rrdy
    {
      if c.credits == EXHAUSTED then w + r == 0 && !inFlight && !rrdy && sent == received
      else if inFlight || rrdy then c.credits == 0 && inFlight != rrdy && sent == received + 1
      else c.credits == 1 && sent == received
    }

    /** The bytes sent so far are the planned ones. */
    ghost predicate Outputs(sent: nat, start: nat, plan: seq<Event>)
      reads this`trace
    {
      trace <= plan && |trace| == start + sent
    }

    /** The replies received so far have been dropped or stored, and one more may be waiting. */
    ghost predicate Inputs(received: nat, w: nat, readData: array<Byte>, base: nat, miso0: seq<Byte>)
      reads this`rrdy, this`miso, this`rxData, readData
    {
      && miso0 <= miso && received <= w + readData.Length && base == |miso0| + w
      && |miso| == |miso0| + received + (if rrdy then 1 else 0) && (rrdy ==> |miso| > 0 && miso[|miso| - 1] == rxData)
      && forall k :: base <= k < |miso0| + received ==> miso[k] == readData[k - base]
    }

    /** The poll loop: spin until there is something to do; false when observation stops first. */
    method Poll(credits: int, polls: nat) returns (ok: bool, trdy: bool, ready: bool, left: nat)
      requires Valid() && !rrdy && polls > 0 && (inFlight <==> credits == 0)
      modifies this`inFlight, this`rrdy, this`rxData, this`wait, this`miso
      ensures Valid() && left < polls
      ensures ok && credits == 0 ==> ready && rrdy && miso == old(miso) + [rxData]
      ensures ok && credits != 0 ==> trdy && !ready && !inFlight && !rrdy && miso == old(miso)
      ensures polls > old(wait) ==> ok && left == polls - old(wait) - 1
    {
      left := polls;
      ok, trdy, ready := false, false, false;
      while left > 0
        invariant Valid() && left <= polls && !rrdy && miso == old(miso) && inFlight == old(inFlight)
        invariant polls > old(wait) ==> polls - left + wait == old(wait)
      {
        left := left - 1;
        var tmt;
        trdy, ready, tmt := Status();
        if (trdy && credits != 0) || ready {
          return true, trdy, ready, left;
        }
      }
    }

    /** The sending half of a turn: the next write byte, or a zero, or nothing when both have run out. */
    method Send(c: Cursor, writeData: seq<Byte>, r: nat, ghost sent: nat, ghost start: nat, ghost plan: seq<Event>)
        returns (c': Cursor)
      requires Idle() && !rrdy && Counted(c, |writeData|, r, sent, sent) && c.credits == 1
      requires sent < |writeData| + r || |writeData| + r == 0
      requires Outputs(sent, start, plan) && PlanFor(plan, start, writeData, |writeData| + r, sso)
      modifies this`inFlight, this`wait, this`trace
      ensures Valid() && c'.ignore == c.ignore && c'.got == c.got
      ensures |writeData| + r == 0 ==> c' == c.(credits := EXHAUSTED) && !inFlight && wait == old(wait) && trace == old(trace)
      ensures |writeData| + r > 0 ==>
                c'.credits == 0 && inFlight && Counted(c', |writeData|, r, sent + 1, sent) && Outputs(sent + 1, start, plan)
    {
      c' := c.(credits := c.credits - 1);
      if c.written < |writeData| {
        WriteTx(writeData[c.written]);
        c' := c'.(written := c.written + 1);
      } else if c.zeros > 0 {
        c' := c'.(zeros := c.zeros - 1);
        WriteTx(0);
      } else {
        c' := c'.(credits := EXHAUSTED);
      }
    }

    /** The receiving half of a turn: drop the reply to a write byte, or store the next byte read. */
    method Receive(c: Cursor, ghost w: nat, readData: array<Byte>, ghost received: nat, ghost base: nat, ghost miso0: seq<Byte>)
        returns (c': Cursor, last: bool)
      requires Idle() && rrdy && c.credits == 0 && Counted(c, w, readData.Length, received + 1, received)
      requires Inputs(received, w, readData, base, miso0)
      modifies this`rrdy, this`wait, readData
      ensures Idle() && !rrdy && c'.credits == 1 && Counted(c', w, readData.Length, received + 1, received + 1)
      ensures Inputs(received + 1, w, readData, base, miso0)
      ensures last <==> received + 1 == w + readData.Length
    {
      var rx := ReadRx();
      if c.ignore > 0 {
        c' := c.(ignore := c.ignore - 1, credits := c.credits + 1);
      } else {
        readData[c.got] := rx;
        c' := c.(got := c.got + 1, credits := c.credits + 1);
      }
      last := c'.ignore == 0 && c'.got == readData.Length;
    }

    /** What holds between two turns of the command loop. */
    ghost predicate Running(c: Cursor, w: nat, readData: array<Byte>, sent: nat, received: nat,
                            start: nat, plan: seq<Event>, miso0: seq<Byte>)
      reads this`wait, this`inFlight, this`rrdy, this`trace, this`miso, this`rxData, readData
    {
      && Valid() && Counted(c, w, readData.Length, sent, received) && Credited(c, w, readData.Length, sent, received)
      && Outputs(sent, start, plan)
      && Inputs(received, w, readData, |miso0| + w, miso0)
    }

    /** The polls that may still be needed until the current byte is in. */
    ghost function Cost(): (n: nat)
      reads this`wait, this`inFlight
    {
      wait + 1 + (if inFlight then 0 else latency + 1)
    }

    /** One byte costs at most this many polls: one delay until it is accepted, one until it is shifted. */
    function PerByte(): nat
    {
      2 * latency + 2
    }

    /** A number of polls that always suffices for a command of n bytes, with one for the final check. */
    function Enough(n: nat): (polls: nat)
      ensures polls > 0
    {
      if n == 0 then 1 else Enough(n - 1) + PerByte()
    }

    /** One turn of the command loop. With polls to spare for the current byte, those reserved for the rest remain. */
    method Turn(c: Cursor, writeData: seq<Byte>, readData: array<Byte>, polls: nat, ghost sent: nat, ghost received: nat,
                ghost start: nat, ghost plan: seq<Event>, ghost miso0: seq<Byte>, ghost reserved: nat)
        returns (ok: bool, c': Cursor, last: bool, left: nat, ghost sent': nat, ghost received': nat)
      requires PlanFor(plan, start, writeData, |writeData| + readData.Length, sso)
      requires Running(c, |writeData|, readData, sent, received, start, plan, miso0) && !rrdy && polls > 0
      requires received < |writeData| + readData.Length || |writeData| + readData.Length == 0
      modifies this`inFlight, this`wait, this`trace, this`rrdy, this`rxData, this`miso, readData
      ensures left < polls
      ensures ok ==> Running(c', |writeData|, readData, sent', received', start, plan, miso0) && !rrdy
      ensures ok && c.credits == 0 ==> received' == received + 1 && !inFlight
      ensures ok && c.credits == 0 ==> (last <==> received' == |writeData| + readData.Length)
      ensures ok && c.credits != 0 ==> received' == received && !last
      ensures |writeData| + readData.Length > 0 && polls >= reserved + old(Cost()) ==>
                ok && left >= reserved + if c.credits == 0 then 0 else Cost()
    {
      var trdy, ready;
      ok, trdy, ready, left := Poll(c.credits, polls);
      c', last, sent', received' := c, false, sent, received;
      if ok && trdy && c.credits > 0 {
        c' := Send(c, writeData, readData.Length, sent, start, plan);
        sent' := if |writeData| + readData.Length == 0 then sent else sent + 1;
      }
      if ok && ready {
        c', last := Receive(c', |writeData|, readData, received, |miso0| + |writeData|, miso0);
        received' := received + 1;
      }
    }

    /** The command loop, followed by the wait for the transmitter to empty. */
    method Transfer(writeData: seq<Byte>, readData: array<Byte>, polls: nat, ghost plan: seq<Event>) returns (done: bool)
      requires Idle() && !rrdy && trace <= plan
      requires PlanFor(plan, |trace|, writeData, |writeData| + readData.Length, sso)
      modifies this`inFlight, this`wait, this`trace, this`rrdy, this`rxData, this`miso, readData
      ensures |writeData| + readData.Length == 0 ==> !done
      ensures |writeData| + readData.Length > 0 && polls >= Enough(|writeData| + readData.Length) ==> done
      ensures done ==> Idle() && !rrdy && trace == plan
      ensures done ==> Inputs(|writeData| + readData.Length, |writeData|, readData, |old(miso)| + |writeData|, old(miso))
    {
      ghost var n, start := |writeData| + readData.Length, |trace|;
      var c := Cursor(0, readData.Length, |writeData|, 0, 1);
      var left := polls;
      ghost var reserved: nat, sent: nat, received: nat := if n == 0 then 0 else Enough(n - 1), 0, 0;
      while left > 0
        invariant Running(c, |writeData|, readData, sent, received, start, plan, old(miso)) && !rrdy
        invariant received < n || n == 0
        invariant n > 0 ==> reserved == Enough(n - received - 1)
        invariant n > 0 && polls >= Enough(n) ==> left >= reserved + Cost()
        decreases left
      {
        var ok, last;
        ok, c, last, left, sent, received := Turn(c, writeData, readData, left, sent, received, start, plan, old(miso), reserved);
        if !ok {
          return false;
        }
        if last {
          done := AwaitEmpty(left);
          return;
        }
        reserved := if n == 0 then 0 else Enough(n - received - 1);
      }
      done := false;
    }

    /** The transmitter is empty as soon as the last byte has been received. */
    method AwaitEmpty(polls: nat) returns (ok: bool)
      requires Idle() && !rrdy
      modifies this`inFlight, this`rrdy, this`rxData, this`wait, this`miso
      ensures Idle() && !rrdy && miso == old(miso) && ok == (polls > 0)
    {
      if polls == 0 {
        return false;
      }
      var trdy, ready, tmt := Status();
      ok := tmt;
    }

    /**
     alt_avalon_spi_command. When it completes, the wires carried the write data followed by one zero for each
     byte to read, with chip select asserted before and released after as the two flags ask, and the read
     buffer holds what came back after the first |writeData| bytes. Given enough polls it completes exactly
     when there is a byte to move.
     */
    method Command(writeData: seq<Byte>, readData: array<Byte>, merge: bool, toggle: bool, polls: nat)
        returns (done: bool, readLength: nat)
      requires Idle()
      modifies this, readData
      ensures |writeData| + readData.Length == 0 ==> !done
      ensures |writeData| + readData.Length > 0 && polls >= Enough(|writeData| + readData.Length) ==> done
      ensures done ==>
        var held := old(sso) || !toggle;
        && Idle() && readLength == readData.Length && sso == (merge && held)
        && trace == old(trace) + (if !old(sso) && held then [Select] else [])
                    + Clocks(writeData, |writeData| + readData.Length, held)
                    + (if !merge && held then [Release] else [])
        && |miso| == |old(miso)| + |writeData| + readData.Length && old(miso) <= miso
        && (forall k :: |old(miso)| + |writeData| <= k < |miso| ==> miso[k] == readData[k - |old(miso)| - |writeData|])
    {
      if !toggle {
        WriteSso(true);
      }
      var stale := ReadRx();
      ghost var plan := trace + Clocks(writeData, |writeData| + readData.Length, sso);
      done := Transfer(writeData, readData, polls, plan);
      readLength := readData.Length;
      if done && !merge {
        WriteSso(false);
      }
    }
  }
}
