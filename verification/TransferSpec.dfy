/** The arithmetic of USB transfers: the millisecond clock, retries, reassembly of packets. */
module TransferSpec {
  import opened Words

  const HR_SUCCESS: Byte := 0x00
  const HR_BUSY: Byte := 0x01
  const HR_NAK: Byte := 0x04
  const HR_TOGERR: Byte := 0x06
  const HR_TIMEOUT: Byte := 0x0E
  const NO_ANSWER: Byte := 0xFF
  const NO_DATA: Byte := 0xF0

  const NAK_LIMIT: nat := 200
  const RETRY_LIMIT: nat := 3
  const XFER_TIMEOUT: nat := 5000
  const TICKS_PER_SEC: nat := 1000

  // ------------------------------------------------------------------ the millisecond clock

  /** The 32-bit product in the clock expression. */
  function Product(now: nat): (p: UInt32) { now % TWO_32 * 1000 % TWO_32 }

  /** (alt_nticks() * 1000) / alt_ticks_per_second(), as 32-bit arithmetic computes it. */
  function Ms(now: nat): (ms: UInt32) { Product(now) / TICKS_PER_SEC }

  function Deadline(now: nat): nat { Ms(now) + XFER_TIMEOUT }

  /** The product does not wrap before the timeout has passed. */
  predicate InOneTurn(now: nat) { Product(now) + 1000 * XFER_TIMEOUT < TWO_32 }

  lemma ProductIsCongruent(now: nat)
    ensures Product(now) == now * 1000 % TWO_32
  {
    var q, r := now / TWO_32, now % TWO_32;
    var s, p := r * 1000 / TWO_32, r * 1000 % TWO_32;
    TurnIs(now * 1000, 1000 * q + s, p);
  }

  /** The product advances by 1000 a tick until it wraps. */
  lemma ProductAdvances(now: nat, k: nat)
    requires Product(now) + 1000 * k < 2 * TWO_32
    ensures Product(now + k) == if Product(now) + 1000 * k < TWO_32 then Product(now) + 1000 * k
                                else Product(now) + 1000 * k - TWO_32
  {
    ProductIsCongruent(now);
    ProductIsCongruent(now + k);
    var q, p := now * 1000 / TWO_32, Product(now);
    if p + 1000 * k < TWO_32 {
      TurnIs((now + k) * 1000, q, p + 1000 * k);
    } else {
      TurnIs((now + k) * 1000, q + 1, p + 1000 * k - TWO_32);
    }
  }

  /** Without a wrap of the product the clock counts ticks. */
  lemma MsCountsTicks(now: nat, k: nat)
    requires Product(now) + 1000 * k < TWO_32
    ensures Ms(now + k) == Ms(now) + k
  {
    ProductAdvances(now, k);
    Thousandths(Product(now), k);
  }

  lemma Thousandths(p: nat, k: nat)
    ensures (p + TICKS_PER_SEC * k) / TICKS_PER_SEC == p / TICKS_PER_SEC + k
  {
  }

  lemma ThousandthsGrow(p: nat, q: nat)
    requires p <= q
    ensures p / TICKS_PER_SEC <= q / TICKS_PER_SEC
  {
  }

  /** The first tick that shows the deadline is exactly the last one of the timeout. */
  lemma DeadlineIsExact(now: nat, t: nat)
    requires InOneTurn(now) && now <= t <= now + XFER_TIMEOUT
    ensures Ms(t) >= Deadline(now) <==> t == now + 5000
  {
    MsCountsTicks(now, t - now);
  }

  /** If the product wraps first, the deadline stays out of reach for more than an hour of ticks. */
  lemma DeadlineMissed(now: nat, t: nat)
    requires !InOneTurn(now) && now <= t < now + 4_200_000
    ensures Ms(t) < Deadline(now)
  {
    if Product(now) + TICKS_PER_SEC * (t - now) < TWO_32 {
      MsCountsTicks(now, t - now);
    } else {
      ProductAdvances(now, t - now);
      ThousandthsGrow(Product(t), Product(now));
    }
  }

  /** Exactly when the timeout works: polling every tick shows the deadline within it. */
  lemma DeadlineReachedIff(now: nat)
    ensures (exists t: nat :: now <= t <= now + 5000 && Ms(t) >= Deadline(now)) <==> InOneTurn(now)
  {
    if InOneTurn(now) {
      DeadlineIsExact(now, now + XFER_TIMEOUT);
    } else {
      forall t: nat | now <= t <= now + XFER_TIMEOUT
        ensures Ms(t) < Deadline(now)
      {
        DeadlineMissed(now, t);
      }
    }
  }

  // ------------------------------------------------------------------ retries

  /** Results after each of which the packet is sent again. */
  ghost predicate AllRetried(results: seq<Byte>)
  {
    && (forall i :: 0 <= i < |results| ==> results[i] == HR_NAK || results[i] == HR_TIMEOUT)
    && multiset(results)[HR_NAK] < NAK_LIMIT && multiset(results)[HR_TIMEOUT] < RETRY_LIMIT
  }

  lemma {:induction false} TwoKindsAddUp(results: seq<Byte>)
    requires forall i :: 0 <= i < |results| ==> results[i] == HR_NAK || results[i] == HR_TIMEOUT
    ensures multiset(results)[HR_NAK] + multiset(results)[HR_TIMEOUT] == |results|
  {
    if results == [] {
    } else {
      var last := |results| - 1;
      assert results == results[..last] + [results[last]];
      TwoKindsAddUp(results[..last]);
    }
  }

  /** The counters of a dispatch after one more result. */
  lemma OneMoreTry(before: seq<Byte>, code: Byte)
    requires AllRetried(before)
    ensures var tries := before + [code];
            && tries[..|before|] == before
            && multiset(tries)[HR_NAK] == multiset(before)[HR_NAK] + (if code == HR_NAK then 1 else 0)
            && multiset(tries)[HR_TIMEOUT] == multiset(before)[HR_TIMEOUT] + (if code == HR_TIMEOUT then 1 else 0)
            && (AllRetried(tries) <==>
                  || (code == HR_NAK && multiset(before)[HR_NAK] + 1 < NAK_LIMIT)
                  || (code == HR_TIMEOUT && multiset(before)[HR_TIMEOUT] + 1 < RETRY_LIMIT))
  {
    var tries := before + [code];
    assert tries[|before|] == code && forall i :: 0 <= i < |before| ==> tries[i] == before[i];
  }

  /** At most 199 NAKs and 2 timeouts come before the last try, so a packet is sent at most 202 times. */
  lemma RetryBound(results: seq<Byte>)
    requires AllRetried(results)
    ensures |results| <= 199 + 2
  {
    TwoKindsAddUp(results);
  }

  // ------------------------------------------------------------------ reassembly

  /** The 16-bit running total. */
  function Wrap(total: nat): (w: Word) { total % TWO_16 }

  lemma WrapAdds(total: nat, size: nat)
    ensures Wrap(Wrap(total) + size) == Wrap(total + size)
  {
  }

  /** Memory as a byte at each address: a C buffer is an address, and a store may fall outside the buffer. */
  type Memory = int -> Byte

  function Total(packets: seq<seq<Byte>>): nat
  {
    if packets == [] then 0 else Total(packets[..|packets| - 1]) + |packets[|packets| - 1]|
  }

  function Joined(packets: seq<seq<Byte>>): (s: seq<Byte>)
    ensures |s| == Total(packets)
  {
    if packets == [] then [] else Joined(packets[..|packets| - 1]) + packets[|packets| - 1]
  }

  /** The test that ends an IN transfer, on the size of the latest packet and the 16-bit running total. */
  predicate Ends(size: nat, total: nat, nbytes: Word, maxpktsize: Word)
  {
    size < maxpktsize || Wrap(total) >= nbytes
  }

  /** The packets of a transfer that goes on after each of them. */
  ghost predicate Unfinished(packets: seq<seq<Byte>>, nbytes: Word, maxpktsize: Word)
  {
    packets == [] ||
    (Unfinished(packets[..|packets| - 1], nbytes, maxpktsize) &&
     !Ends(|packets[|packets| - 1]|, Total(packets), nbytes, maxpktsize))
  }

  /** The packets of a complete transfer: it goes on after each but the last, and ends there. */
  ghost predicate Complete(packets: seq<seq<Byte>>, nbytes: Word, maxpktsize: Word)
  {
    && packets != []
    && Unfinished(packets[..|packets| - 1], nbytes, maxpktsize)
    && Ends(|packets[|packets| - 1]|, Total(packets), nbytes, maxpktsize)
  }

  function StoreBytes(mem: Memory, at: int, bytes: seq<Byte>): Memory
  {
    k => if at <= k < at + |bytes| then bytes[k - at] else mem(k)
  }

  /** MAXbytes_rd of one packet: an empty packet still stores one stray byte, before the place it was asked for. */
  function StorePacket(mem: Memory, at: int, packet: seq<Byte>, stray: Byte): Memory
  {
    if packet == [] then StoreBytes(mem, at - 1, [stray]) else StoreBytes(mem, at, packet)
  }

  /** All packets of a transfer, each stored where the previous one ended. */
  function StoreAll(mem: Memory, data: int, packets: seq<seq<Byte>>, strays: seq<Byte>): Memory
    requires |strays| == |packets|
  {
    if packets == [] then mem else
    var n := |packets| - 1;
    StorePacket(StoreAll(mem, data, packets[..n], strays[..n]), data + Total(packets[..n]), packets[n], strays[n])
  }

  /** One more packet: where it is stored, and whether the transfer is complete with it. */
  lemma OneMore(mem: Memory, data: int, packets: seq<seq<Byte>>, strays: seq<Byte>, packet: seq<Byte>, stray: Byte,
                nbytes: Word, maxpktsize: Byte)
    requires |strays| == |packets| && Unfinished(packets, nbytes, maxpktsize)
    ensures Total(packets + [packet]) == Total(packets) + |packet|
    ensures StoreAll(mem, data, packets + [packet], strays + [stray])
         == StorePacket(StoreAll(mem, data, packets, strays), data + Total(packets), packet, stray)
    ensures if Ends(|packet|, Total(packets) + |packet|, nbytes, maxpktsize)
            then Complete(packets + [packet], nbytes, maxpktsize) else Unfinished(packets + [packet], nbytes, maxpktsize)
  {
    assert (packets + [packet])[..|packets|] == packets;
    assert (strays + [stray])[..|packets|] == strays;
  }

  ghost predicate NoneEmpty(packets: seq<seq<Byte>>)
  {
    forall i :: 0 <= i < |packets| ==> packets[i] != []
  }

  /** Without empty packets memory holds the concatenation of the packets from data on, and is unchanged elsewhere. */
  lemma {:induction false} StoreAllIsJoined(mem: Memory, data: int, packets: seq<seq<Byte>>, strays: seq<Byte>, k: int)
    requires |strays| == |packets| && NoneEmpty(packets)
    ensures StoreAll(mem, data, packets, strays)(k) == StoreBytes(mem, data, Joined(packets))(k)
  {
    if packets == [] {
    } else {
      var n := |packets| - 1;
      StoreAllIsJoined(mem, data, packets[..n], strays[..n], k);
    }
  }

  /** An empty packet puts its stray byte in the cell before its place, and no later packet that is not empty repairs it. */
  lemma {:induction false} StrayByteStays(mem: Memory, data: int, packets: seq<seq<Byte>>, strays: seq<Byte>, i: nat)
    requires |strays| == |packets| && i < |packets| && packets[i] == []
    requires forall j :: i < j < |packets| ==> packets[j] != []
    ensures var m, cell := StoreAll(mem, data, packets, strays), data + Total(packets[..i]) - 1;
            m(cell) == strays[i]
    decreases |packets|
  {
    var n := |packets| - 1;
    if i == n {
    } else {
      assert packets[..n][..i] == packets[..i];
      StrayByteStays(mem, data, packets[..n], strays[..n], i);
      TotalGrows(packets[..n], i);
    }
  }

  lemma {:induction false} TotalGrows(packets: seq<seq<Byte>>, i: nat)
    requires i <= |packets|
    ensures Total(packets[..i]) <= Total(packets)
  {
    if i < |packets| {
      var n := |packets| - 1;
      assert packets[..n][..i] == packets[..i];
      TotalGrows(packets[..n], i);
    } else {
      assert packets[..i] == packets;
    }
  }

  /** Reassembly is exact, whatever the stray bytes, exactly when no packet is empty. */
  lemma ReassemblyIsExactIff(mem: Memory, data: int, packets: seq<seq<Byte>>)
    ensures (forall strays: seq<Byte>, k: int :: |strays| == |packets| ==>
               StoreAll(mem, data, packets, strays)(k) == StoreBytes(mem, data, Joined(packets))(k)) <==> NoneEmpty(packets)
  {
    if NoneEmpty(packets) {
      forall strays: seq<Byte>, k: int | |strays| == |packets|
        ensures StoreAll(mem, data, packets, strays)(k) == StoreBytes(mem, data, Joined(packets))(k)
      {
        StoreAllIsJoined(mem, data, packets, strays, k);
      }
    } else {
      var i := LastEmpty(packets);
      var cell := data + Total(packets[..i]) - 1;
      var stray: Byte := if StoreBytes(mem, data, Joined(packets))(cell) == 0 then 1 else 0;
      var strays: seq<Byte> := seq(|packets|, _ => stray);
      StrayByteStays(mem, data, packets, strays, i);
      assert StoreAll(mem, data, packets, strays)(cell) != StoreBytes(mem, data, Joined(packets))(cell);
    }
  }

  lemma LastEmpty(packets: seq<seq<Byte>>) returns (i: nat)
    requires !NoneEmpty(packets)
    ensures i < |packets| && packets[i] == [] && forall j :: i < j < |packets| ==> packets[j] != []
  {
    i := |packets| - 1;
    while packets[i] != []
      invariant i < |packets| && forall j :: i < j < |packets| ==> packets[j] != []
      invariant exists k :: 0 <= k <= i && packets[k] == []
      decreases i
    {
      i := i - 1;
    }
  }

  // ------------------------------------------------------------------ how many packets

  ghost predicate SizesAtMost(packets: seq<seq<Byte>>, size: nat)
  {
    forall i :: 0 <= i < |packets| ==> |packets[i]| <= size
  }

  /** While a transfer goes on every packet is full, and their total is short of the number asked for. */
  lemma {:induction false} UnfinishedAreFull(packets: seq<seq<Byte>>, nbytes: Word, maxpktsize: Byte)
    requires Unfinished(packets, nbytes, maxpktsize) && SizesAtMost(packets, maxpktsize)
    requires nbytes + maxpktsize <= TWO_16
    ensures Total(packets) == Multiple(|packets|, maxpktsize)
    ensures packets != [] ==> Total(packets) < nbytes
  {
    if packets == [] {
    } else {
      var n := |packets| - 1;
      UnfinishedAreFull(packets[..n], nbytes, maxpktsize);
      assert |packets[n]| == maxpktsize;
      if n == 0 {
        assert Total(packets[..0]) == 0;
      }
      assert Total(packets) < TWO_16;
    }
  }

  /**
   With packets of at most maxpktsize and no wrap of the 16-bit total, a complete transfer takes at least one
   packet, at most the number of full packets that hold nbytes, and overshoots by less than one packet.
   */
  lemma CompleteIsTight(packets: seq<seq<Byte>>, nbytes: Word, maxpktsize: Byte)
    requires Complete(packets, nbytes, maxpktsize) && SizesAtMost(packets, maxpktsize)
    requires maxpktsize > 0 && nbytes + maxpktsize <= TWO_16
    ensures |packets| >= 1 && (|packets| > 1 ==> (|packets| - 1) * maxpktsize < nbytes)
    ensures Total(packets) < nbytes + maxpktsize || (nbytes == 0 && Total(packets) <= maxpktsize)
  {
    var n := |packets| - 1;
    UnfinishedAreFull(packets[..n], nbytes, maxpktsize);
    MultipleIsProduct(n, maxpktsize);
    if n == 0 {
      assert packets[..0] == [];
    }
  }

  lemma {:induction false} FullPacketsGoOn(packets: seq<seq<Byte>>, nbytes: Word, size: Byte)
    requires (forall i :: 0 <= i < |packets| ==> |packets[i]| == size) && Total(packets) < nbytes
    ensures Unfinished(packets, nbytes, size)
  {
    if packets == [] {
    } else {
      FullPacketsGoOn(packets[..|packets| - 1], nbytes, size);
    }
  }

  /**
   Exactly when the 16-bit total is wide enough: a transfer of full packets ends with the packet that reaches
   nbytes if, and only if, the total is still below 65536 there.
   */
  lemma FullTransferEndsIff(packets: seq<seq<Byte>>, nbytes: Word, size: Byte)
    requires packets != [] && size > 0 && forall i :: 0 <= i < |packets| ==> |packets[i]| == size
    requires Total(packets[..|packets| - 1]) < nbytes <= Total(packets)
    ensures Complete(packets, nbytes, size) <==> Total(packets) < TWO_16
  {
    FullPacketsGoOn(packets[..|packets| - 1], nbytes, size);
  }

  // ------------------------------------------------------------------ the packet size in a byte

  /** Until it ends with the truncated size, a transfer goes on with the full one as well, if no packet is short for it. */
  lemma {:induction false} GoesOnWithFullSize(packets: seq<seq<Byte>>, nbytes: Word, size: Word)
    requires Unfinished(packets, nbytes, size % 0x100)
    ensures Unfinished(packets, nbytes, size) <==> forall i :: 0 <= i < |packets| ==> |packets[i]| >= size
  {
    if packets == [] {
    } else {
      var n := |packets| - 1;
      GoesOnWithFullSize(packets[..n], nbytes, size);
      assert forall i :: 0 <= i < n ==> packets[..n][i] == packets[i];
      assert (forall i :: 0 <= i < |packets| ==> |packets[i]| >= size) <==>
               (forall i :: 0 <= i < n ==> |packets[..n][i]| >= size) && |packets[n]| >= size;
    }
  }

  /**
   Exactly when passing the packet size of the record in a byte does not change where a transfer ends: all but the last
   packet are full for the size of the record.
   */
  lemma TruncationIsHarmlessIff(packets: seq<seq<Byte>>, nbytes: Word, size: Word)
    requires Complete(packets, nbytes, size % 0x100)
    ensures Complete(packets, nbytes, size) <==> forall i :: 0 <= i < |packets| - 1 ==> |packets[i]| >= size
  {
    var n := |packets| - 1;
    GoesOnWithFullSize(packets[..n], nbytes, size);
    assert forall i :: 0 <= i < n ==> packets[..n][i] == packets[i];
  }

  /** A record value of 256 or more, with packets that fit the byte count register, survives only in one-packet transfers. */
  lemma LargeSizeNeedsOnePacket(packets: seq<seq<Byte>>, nbytes: Word, size: Word)
    requires Complete(packets, nbytes, size % 0x100) && SizesAtMost(packets, 0xFF) && size >= 0x100
    ensures Complete(packets, nbytes, size) <==> |packets| == 1
  {
    TruncationIsHarmlessIff(packets, nbytes, size);
    assert |packets| > 1 ==> |packets[0]| < size;
  }
}
