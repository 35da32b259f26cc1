/**
 The boot-protocol HID drivers' probes: the walk over the configuration descriptor, and what a probe does to the
 device table. Section numbers are those of USB 2.0.
 */
module HidProbe {
  import opened Words
  import opened UsbTypes

  const INTERFACE: Byte := 0x04
  const ENDPOINT: Byte := 0x05
  const HID_INTF: Byte := 0x03
  const BOOT_INTF_SUBCLASS: Byte := 0x01
  const CONF_DESCR_LEN: nat := 9
  const BUFFER_SIZE: nat := 256

  /** The two drivers, which differ in the interface protocol they look for and in the class they record. */
  datatype Driver = Mouse | Keyboard

  function Protocol(d: Driver): Byte { if d.Mouse? then 0x02 else 0x01 }
  function DevClass(d: Driver): Byte { if d.Mouse? then 2 else 1 }

  /** Memory from the start of the descriptor buffer on; a walk may read past the buffer's end. */
  type Bytes = nat -> Byte

  /** How the transfers of one probe end, and what the buffer holds after each of the two reads. */
  datatype Answers = Answers(first: Byte, header: Bytes, second: Byte, bytes: Bytes, setConf: Byte, setProto: Byte)

  datatype Request = GetConf(length: nat) | SetConf(value: Byte) | SetProto(interface: Byte)

  function WordAt(bytes: Bytes, at: nat): Word { LittleEndian(bytes(at), bytes(at + 1)) }

  /** The length to walk: wTotalLength of the first read, cut to the buffer. */
  function TotalLength(a: Answers): nat
  {
    if WordAt(a.header, 2) > BUFFER_SIZE then BUFFER_SIZE else WordAt(a.header, 2)
  }

  // ------------------------------------------------------------------ the walk

  /** A walk finds a descriptor, runs past the end, or stays at a descriptor of length 0 for ever. */
  datatype Walk = Found(at: nat) | PastEnd | Stuck

  /** From a position on, skip by bLength to the first descriptor of a type. */
  function Seek(bytes: Bytes, kind: Byte, at: nat, total: nat): (w: Walk)
    ensures w.Found? ==> at <= w.at < total && bytes(w.at + 1) == kind
    decreases total - at
  {
    if at >= total then PastEnd
    else if bytes(at + 1) == kind then Found(at)
    else if bytes(at) == 0 then Stuck
    else Seek(bytes, kind, at + bytes(at), total)
  }

  /** The position after so many skips. */
  function Skip(bytes: Bytes, at: nat, k: nat): (p: nat)
    ensures p >= at
    decreases k
  {
    if k == 0 then at else Skip(bytes, at + bytes(at), k - 1)
  }

  predicate Misses(bytes: Bytes, kind: Byte, at: nat, k: nat) { bytes(Skip(bytes, at, k) + 1) != kind }

  /** After k skips the walk stands on a length of 0, and on no descriptor of the wanted type before or there. */
  ghost predicate Trapped(bytes: Bytes, kind: Byte, at: nat, total: nat, k: nat)
  {
    && Skip(bytes, at, k) < total && bytes(Skip(bytes, at, k)) == 0
    && forall j :: 0 <= j <= k ==> Misses(bytes, kind, at, j)
  }

  lemma {:induction false} StuckIsTrapped(bytes: Bytes, kind: Byte, at: nat, total: nat) returns (k: nat)
    requires Seek(bytes, kind, at, total) == Stuck
    ensures Trapped(bytes, kind, at, total, k)
    decreases total - at
  {
    if bytes(at) == 0 {
      k := 0;
    } else {
      var next := at + bytes(at);
      k := StuckIsTrapped(bytes, kind, next, total);
      k := k + 1;
      forall j | 0 <= j <= k
        ensures Misses(bytes, kind, at, j)
      {
        assert j > 0 ==> Misses(bytes, kind, next, j - 1);
      }
    }
  }

  lemma {:induction false} TrappedIsStuck(bytes: Bytes, kind: Byte, at: nat, total: nat, k: nat)
    requires Trapped(bytes, kind, at, total, k)
    ensures Seek(bytes, kind, at, total) == Stuck
    decreases k
  {
    assert Misses(bytes, kind, at, 0);
    if k == 0 || bytes(at) == 0 {
    } else {
      var next := at + bytes(at);
      forall j | 0 <= j <= k - 1
        ensures Misses(bytes, kind, next, j)
      {
        assert Misses(bytes, kind, at, j + 1);
      }
      TrappedIsStuck(bytes, kind, next, total, k - 1);
    }
  }

  /** Exactly when the walk never ends: it comes to a descriptor of length 0 before any of the type it looks for. */
  lemma StuckIff(bytes: Bytes, kind: Byte, at: nat, total: nat)
    ensures Seek(bytes, kind, at, total) == Stuck <==> exists k: nat :: Trapped(bytes, kind, at, total, k)
  {
    if Seek(bytes, kind, at, total) == Stuck {
      var k := StuckIsTrapped(bytes, kind, at, total);
    }
    if k: nat :| Trapped(bytes, kind, at, total, k) {
      TrappedIsStuck(bytes, kind, at, total, k);
    }
  }

  /** A first read that gives a total length of 9, and zeros from the second, keep either probe walking for ever. */
  lemma ZerosAreEndless(d: Driver, a: Answers)
    requires a.first == 0 && a.second == 0 && TotalLength(a) == 9 && a.bytes == (_ => 0)
    ensures Parsed(d, a) == Endless(None)
  {
  }

  datatype Endpoint = Endpoint(address: Byte, attr: Byte, maxPktSize: Word, interval: Byte)

  /** What a probe makes of a configuration. */
  datatype Parse =
    | Unread
    | Endless(claimed: Option<Byte>)
    | Rejected
    | NoEndpoint(interface: Byte)
    | Selected(interface: Byte, endpoint: Endpoint)

  predicate Matches(d: Driver, bytes: Bytes, at: nat)
  {
    bytes(at + 5) == HID_INTF && bytes(at + 6) == BOOT_INTF_SUBCLASS && bytes(at + 7) == Protocol(d)
  }

  function EndpointAt(bytes: Bytes, at: nat): Endpoint
  {
    Endpoint(bytes(at + 2), bytes(at + 3), WordAt(bytes, at + 4), bytes(at + 6))
  }

  function Parsed(d: Driver, a: Answers): Parse
  {
    if a.first != 0 || a.second != 0 then Unread else BytesParsed(d, a.bytes, TotalLength(a))
  }

  function BytesParsed(d: Driver, bytes: Bytes, total: nat): Parse
  {
    match Seek(bytes, INTERFACE, 0, total)
    case PastEnd => Rejected
    case Stuck => Endless(None)
    case Found(i) =>
      if !Matches(d, bytes, i) then Rejected else EndpointParsed(bytes(i + 2), bytes, i + bytes(i), total)
  }

  function EndpointParsed(interface: Byte, bytes: Bytes, from: nat, total: nat): Parse
  {
    match Seek(bytes, ENDPOINT, from, total)
    case PastEnd => NoEndpoint(interface)
    case Stuck => Endless(Some(interface))
    case Found(e) => Selected(interface, EndpointAt(bytes, e))
  }

  // ------------------------------------------------------------------ well-formed configurations

  /** Table 9-5: descriptors of type 4 are interfaces, of type 5 endpoints. */
  predicate IsInterface(d: seq<Byte>) requires |d| >= 2 { d[1] == 4 }

  predicate IsEndpoint(d: seq<Byte>) requires |d| >= 2 { d[1] == 5 }

  /** How many bytes of a descriptor a probe reads. */
  function Need(d: seq<Byte>): nat
    requires |d| >= 2
  {
    if IsInterface(d) then 9 else if IsEndpoint(d) then 7 else 2
  }

  /** A descriptor as sections 9.6.3 to 9.6.6 have it: its length first, its type second, its fields all there. */
  type Descriptor = d: seq<Byte> | |d| >= 2 && d[0] == |d| && |d| >= Need(d) witness [2, 0]

  /** The bytes of a descriptor, as far as the walked length reaches. */
  ghost predicate Holds(bytes: Bytes, at: nat, d: Descriptor, total: nat)
  {
    forall k :: 0 <= k < |d| && at + k < total ==> bytes(at + k) == d[k]
  }

  /**
   A list of descriptors lies in memory from a position on. The walked length may cut the list, and the descriptor it
   cuts, except in the part of that one that a probe reads.
   */
  ghost predicate Laid(bytes: Bytes, at: nat, ds: seq<Descriptor>, total: nat)
    decreases |ds|
  {
    ds == [] ||
    ((at < total ==> at + Need(ds[0]) <= total) && Holds(bytes, at, ds[0], total) &&
     Laid(bytes, at + |ds[0]|, ds[1..], total))
  }

  function Size(ds: seq<Descriptor>): nat
  {
    if ds == [] then 0 else |ds[0]| + Size(ds[1..])
  }

  /** The index of the first descriptor of a type, or the number of descriptors. */
  function First(ds: seq<Descriptor>, kind: Byte): (i: nat)
    ensures i <= |ds| && (i < |ds| ==> ds[i][1] == kind)
  {
    if ds == [] || ds[0][1] == kind then 0 else 1 + First(ds[1..], kind)
  }

  lemma {:induction false} LaidFrom(bytes: Bytes, at: nat, ds: seq<Descriptor>, total: nat, i: nat)
    requires Laid(bytes, at, ds, total) && i <= |ds|
    ensures Laid(bytes, at + Size(ds[..i]), ds[i..], total) && Size(ds) == Size(ds[..i]) + Size(ds[i..])
    decreases |ds|
  {
    if i == 0 {
      assert ds[0..] == ds;
    } else {
      LaidFrom(bytes, at + |ds[0]|, ds[1..], total, i - 1);
      assert ds[..i][1..] == ds[1..][..i - 1] && ds[1..][i - 1..] == ds[i..];
    }
  }

  /** The first descriptor of a type that begins before the walked length ends. */
  function FirstBefore(ds: seq<Descriptor>, at: nat, kind: Byte, total: nat): Option<nat>
  {
    var i := First(ds, kind);
    if i < |ds| && at + Size(ds[..i]) < total then Some(i) else None
  }

  /** On well-formed descriptors the walk ends, at the first descriptor of the type it looks for. */
  lemma {:induction false} SeekFindsFirst(bytes: Bytes, at: nat, ds: seq<Descriptor>, kind: Byte, total: nat)
    requires Laid(bytes, at, ds, total) && total <= at + Size(ds)
    ensures Seek(bytes, kind, at, total)
         == match FirstBefore(ds, at, kind, total) case Some(i) => Found(at + Size(ds[..i])) case None => PastEnd
    decreases |ds|
  {
    if ds == [] || at >= total {
      assert Seek(bytes, kind, at, total) == PastEnd;
    } else {
      assert bytes(at) == ds[0][0] && bytes(at + 1) == ds[0][1];
      var i := First(ds, kind);
      if i == 0 {
        assert Size(ds[..0]) == 0;
      } else {
        SeekFindsFirst(bytes, at + |ds[0]|, ds[1..], kind, total);
        assert ds[..i][1..] == ds[1..][..i - 1];
      }
    }
  }

  /**
   Section 9.6.5: fields 5 to 7 of an interface descriptor are its class, subclass and protocol. Section 4 of the HID
   class definition: class 3 with subclass 1 is a boot device, protocol 1 a keyboard and 2 a mouse.
   */
  predicate IsBoot(d: Driver, intf: Descriptor)
    requires IsInterface(intf)
  {
    intf[5] == 3 && intf[6] == 1 && intf[7] == match d case Keyboard => 1 case Mouse => 2
  }

  /** Section 9.6.6: the fields of an endpoint descriptor. */
  function Fields(ep: Descriptor): Endpoint
    requires IsEndpoint(ep)
  {
    Endpoint(ep[2], ep[3], LittleEndian(ep[4], ep[5]), ep[6])
  }

  /** What a probe should make of a list of descriptors: the first interface and the first endpoint behind it. */
  ghost function Expected(d: Driver, ds: seq<Descriptor>, total: nat): Parse
  {
    match FirstBefore(ds, 0, INTERFACE, total)
    case None => Rejected
    case Some(i) =>
      if !IsBoot(d, ds[i]) then Rejected
      else ExpectedEndpoint(ds[i][2], ds[i + 1..], Size(ds[..i]) + |ds[i]|, total)
  }

  ghost function ExpectedEndpoint(interface: Byte, rest: seq<Descriptor>, from: nat, total: nat): Parse
  {
    match FirstBefore(rest, from, ENDPOINT, total)
    case None => NoEndpoint(interface)
    case Some(j) => Selected(interface, Fields(rest[j]))
  }

  /** Descriptor i in memory, and what follows it. */
  lemma Entry(bytes: Bytes, from: nat, ds: seq<Descriptor>, total: nat, i: nat)
    requires Laid(bytes, from, ds, total) && i < |ds|
    ensures var at := from + Size(ds[..i]);
            && (at < total ==> at + Need(ds[i]) <= total) && Holds(bytes, at, ds[i], total)
            && Laid(bytes, at + |ds[i]|, ds[i + 1..], total) && from + Size(ds) == at + |ds[i]| + Size(ds[i + 1..])
  {
    LaidFrom(bytes, from, ds, total, i);
    assert ds[i..][0] == ds[i] && ds[i..][1..] == ds[i + 1..];
  }

  lemma EndpointIsExpected(interface: Byte, bytes: Bytes, from: nat, rest: seq<Descriptor>, total: nat)
    requires Laid(bytes, from, rest, total) && total <= from + Size(rest)
    ensures EndpointParsed(interface, bytes, from, total) == ExpectedEndpoint(interface, rest, from, total)
  {
    SeekFindsFirst(bytes, from, rest, ENDPOINT, total);
    match FirstBefore(rest, from, ENDPOINT, total) {
      case None =>
      case Some(j) =>
        Entry(bytes, from, rest, total, j);
        EndpointFrom(interface, bytes, from, rest, total, j, from + Size(rest[..j]));
    }
  }

  lemma EndpointFrom(interface: Byte, bytes: Bytes, from: nat, rest: seq<Descriptor>, total: nat, j: nat, at: nat)
    requires FirstBefore(rest, from, ENDPOINT, total) == Some(j) && Seek(bytes, ENDPOINT, from, total) == Found(at)
    requires j < |rest| && rest[j][1] == ENDPOINT && at + 7 <= total && Holds(bytes, at, rest[j], total)
    ensures EndpointParsed(interface, bytes, from, total) == ExpectedEndpoint(interface, rest, from, total)
  {
    FieldsAreRead(bytes, at, rest[j], total);
  }

  lemma FieldsAreRead(bytes: Bytes, at: nat, ep: Descriptor, total: nat)
    requires ep[1] == ENDPOINT && at + 7 <= total && Holds(bytes, at, ep, total)
    ensures EndpointAt(bytes, at) == Fields(ep)
  {
    assert bytes(at + 2) == ep[2] && bytes(at + 3) == ep[3] && bytes(at + 4) == ep[4];
    assert bytes(at + 5) == ep[5] && bytes(at + 6) == ep[6];
  }

  lemma InterfaceIsExpected(d: Driver, bytes: Bytes, at: nat, intf: Descriptor, total: nat)
    requires intf[1] == INTERFACE && at + 9 <= total && Holds(bytes, at, intf, total)
    ensures (Matches(d, bytes, at) <==> IsBoot(d, intf)) && bytes(at + 2) == intf[2] && bytes(at) == |intf|
  {
    assert bytes(at + 0) == intf[0] && bytes(at + 2) == intf[2] && bytes(at + 5) == intf[5];
    assert bytes(at + 6) == intf[6] && bytes(at + 7) == intf[7];
  }

  lemma ParsedFrom(d: Driver, bytes: Bytes, total: nat, at: nat, intf: Descriptor, next: Parse)
    requires Seek(bytes, INTERFACE, 0, total) == Found(at) && IsInterface(intf)
    requires (Matches(d, bytes, at) <==> IsBoot(d, intf)) && bytes(at) == |intf| && bytes(at + 2) == intf[2]
    requires EndpointParsed(intf[2], bytes, at + |intf|, total) == next
    ensures BytesParsed(d, bytes, total) == if IsBoot(d, intf) then next else Rejected
  {
  }

  lemma ParsedOnInterface(d: Driver, bytes: Bytes, total: nat, at: nat, intf: Descriptor, rest: seq<Descriptor>)
    requires Seek(bytes, INTERFACE, 0, total) == Found(at) && IsInterface(intf)
    requires at + 9 <= total <= at + |intf| + Size(rest)
    requires Holds(bytes, at, intf, total) && Laid(bytes, at + |intf|, rest, total)
    ensures BytesParsed(d, bytes, total)
         == if IsBoot(d, intf) then ExpectedEndpoint(intf[2], rest, at + |intf|, total) else Rejected
  {
    InterfaceIsExpected(d, bytes, at, intf, total);
    EndpointIsExpected(intf[2], bytes, at + |intf|, rest, total);
    ParsedFrom(d, bytes, total, at, intf, ExpectedEndpoint(intf[2], rest, at + |intf|, total));
  }

  /**
   The walk against its specification: for every list of well-formed descriptors it ends and selects what it should.
   A list longer than the walked length may be cut anywhere but inside the fields the probe reads.
   */
  lemma ParsedIsExpected(d: Driver, bytes: Bytes, ds: seq<Descriptor>, total: nat)
    requires Laid(bytes, 0, ds, total) && total <= Size(ds)
    ensures BytesParsed(d, bytes, total) == Expected(d, ds, total)
  {
    SeekFindsFirst(bytes, 0, ds, INTERFACE, total);
    match FirstBefore(ds, 0, INTERFACE, total) {
      case None =>
      case Some(i) => ParsedOnEntry(d, bytes, ds, total, i, Size(ds[..i]));
    }
  }

  lemma ParsedOnEntry(d: Driver, bytes: Bytes, ds: seq<Descriptor>, total: nat, i: nat, at: nat)
    requires Laid(bytes, 0, ds, total) && total <= Size(ds)
    requires i < |ds| && IsInterface(ds[i]) && at == Size(ds[..i]) < total
    requires Seek(bytes, INTERFACE, 0, total) == Found(at)
    ensures BytesParsed(d, bytes, total)
         == if IsBoot(d, ds[i]) then ExpectedEndpoint(ds[i][2], ds[i + 1..], at + |ds[i]|, total) else Rejected
  {
    Entry(bytes, 0, ds, total, i);
    ParsedOnInterface(d, bytes, total, at, ds[i], ds[i + 1..]);
  }

  /** Section 9.6.3: fields 2 and 3 of the configuration descriptor are the length of the whole configuration. */
  function WholeLength(conf: Descriptor): nat
    requires |conf| >= CONF_DESCR_LEN
  {
    LittleEndian(conf[2], conf[3])
  }

  /** A configuration as section 9.6.3 has it: its own descriptor first, which gives the length of all of them. */
  ghost predicate Configuration(ds: seq<Descriptor>)
  {
    ds != [] && |ds[0]| == CONF_DESCR_LEN && Size(ds) == WholeLength(ds[0])
  }

  /** How much of a configuration a probe walks: all of it, or what fits into the buffer. */
  function Walked(ds: seq<Descriptor>): nat { if Size(ds) > 256 then 256 else Size(ds) }

  /** The device answers both reads with its configuration: its first nine bytes, and as much of it as is walked. */
  ghost predicate AnswersWith(a: Answers, ds: seq<Descriptor>)
    requires Configuration(ds)
  {
    && a.first == 0 && a.second == 0
    && (forall k :: 0 <= k < CONF_DESCR_LEN ==> a.header(k) == ds[0][k])
    && Laid(a.bytes, 0, ds, Walked(ds))
  }

  /**
   The probe of a device against the device's own configuration: what is asked of it, what is selected, and, if that is
   configured, by the value in field 5 of its configuration descriptor.
   */
  lemma ConfigurationIsExpected(d: Driver, a: Answers, ds: seq<Descriptor>)
    requires Configuration(ds) && AnswersWith(a, ds)
    ensures TotalLength(a) == Walked(ds) && Parsed(d, a) == Expected(d, ds, Walked(ds))
    ensures Drivers.Reads(a) == [GetConf(9), GetConf(Walked(ds))]
    ensures forall i :: Drivers.Setup(a, i) == [SetConf(ds[0][5])] + if a.setConf == 0 then [SetProto(i)] else []
  {
    assert a.header(2) == ds[0][2] && a.header(3) == ds[0][3];
    ParsedIsExpected(d, a.bytes, ds, Walked(ds));
    assert Size(ds) >= CONF_DESCR_LEN;
    assert a.bytes(0 + 5) == ds[0][5];
  }

  /** A configuration that one driver selects is rejected by the other. */
  lemma OneDriverOnly(a: Answers)
    ensures Parsed(Mouse, a).Selected? ==> Parsed(Keyboard, a) == Rejected
    ensures Parsed(Keyboard, a).Selected? ==> Parsed(Mouse, a) == Rejected
  {
  }

  // ------------------------------------------------------------------ the code

  datatype Outcome = Done(accepted: bool) | Spinning

  class Drivers {
    // The device table: endpoint information, which entries may share, and the device class.
    const epinfo: array<array?<EpRecord>>
    const devclass: array<Byte>
    // The HID drivers' own endpoint records and device.
    const hidEp: array<EpRecord>
    var hidInterface: Byte
    var hidAddr: Byte
    ghost var requests: seq<Request>

    ghost predicate Valid() { epinfo.Length == devclass.Length && hidEp.Length == 2 }

    /** A skip loop, for at most so many rounds. */
    method Walk(bytes: Bytes, kind: Byte, from: nat, total: nat, rounds: nat) returns (w: Walk)
      ensures w == Seek(bytes, kind, from, total) || (w == Stuck && rounds < total - from)
      ensures (exists k: nat :: Trapped(bytes, kind, from, total, k)) ==> w == Stuck
      ensures w == Stuck && rounds >= total - from ==> exists k: nat :: Trapped(bytes, kind, from, total, k)
    {
      var at, left := from, rounds;
      StuckIff(bytes, kind, from, total);
      while at < total && bytes(at + 1) != kind
        invariant from <= at && Seek(bytes, kind, from, total) == Seek(bytes, kind, at, total)
        invariant at - from >= rounds - left || Seek(bytes, kind, from, total) == Stuck
        decreases left
      {
        if left == 0 {
          return Stuck;
        }
        left := left - 1;
        at := at + bytes(at);
      }
      w := if at < total then Found(at) else PastEnd;
    }

    /** A driver's first steps on its interface. */
    twostate predicate Claimed(d: Driver, addr: Byte, interface: Byte)
      requires Valid() && addr < epinfo.Length && old(epinfo[addr]) != null && old(epinfo[addr].Length) > 0
      reads this, epinfo, devclass, hidEp
    {
      && epinfo[..] == old(epinfo[..])[addr := hidEp] && devclass[..] == old(devclass[..])[addr := DevClass(d)]
      && hidInterface == interface && hidAddr == addr
      && hidEp[0] == old(hidEp[0]).(maxPktSize := old(epinfo[addr][0]).maxPktSize % 0x100)
      && hidEp[1].sndToggle == BM_SNDTOG0 && hidEp[1].rcvToggle == BM_RCVTOG0
    }

    twostate predicate Untouched()
      requires Valid()
      reads this, epinfo, devclass, hidEp
    {
      && epinfo[..] == old(epinfo[..]) && devclass[..] == old(devclass[..]) && hidEp[..] == old(hidEp[..])
      && hidInterface == old(hidInterface) && hidAddr == old(hidAddr)
    }

    static function Reads(a: Answers): seq<Request>
    {
      [GetConf(CONF_DESCR_LEN)] + if a.first == 0 then [GetConf(TotalLength(a))] else []
    }

    /** The requests that configure a selected interface: the protocol only if the configuration was set. */
    static function Setup(a: Answers, interface: Byte): seq<Request>
    {
      [SetConf(a.bytes(5))] + if a.setConf == 0 then [SetProto(interface)] else []
    }

    /** What a probe does, given what it makes of the configuration and the requests it has sent to read it. */
    twostate predicate Effect(p: Parse, d: Driver, addr: Byte, a: Answers, r: Outcome, sent: seq<Request>)
      requires Valid() && addr < epinfo.Length && old(epinfo[addr]) != null && old(epinfo[addr].Length) > 0
      reads this, epinfo, devclass, hidEp
    {
      match p
      case Unread => r == Done(false) && Untouched() && requests == sent
      case Rejected => r == Done(false) && Untouched() && requests == sent
      case Endless(None) => r == Spinning && Untouched() && requests == sent
      case Endless(Some(interface)) => r == Spinning && Claimed(d, addr, interface) && requests == sent
      case NoEndpoint(interface) =>
        && r == Done(false) && Claimed(d, addr, interface) && requests == sent
        && hidEp[1] == old(hidEp[1]).(sndToggle := BM_SNDTOG0, rcvToggle := BM_RCVTOG0)
      case Selected(interface, ep) =>
        && r == Done(a.setConf == 0 && a.setProto == 0) && Claimed(d, addr, interface)
        && requests == sent + Setup(a, interface)
        && hidEp[1] == EpRecord(ep.address, ep.attr, ep.maxPktSize, ep.interval, BM_SNDTOG0, BM_RCVTOG0)
    }

    /** The second half of a probe, on the driver's own interface. */
    method Select(d: Driver, addr: Byte, a: Answers, at: nat, rounds: nat) returns (r: Outcome)
      requires Valid() && addr < epinfo.Length && epinfo[addr] != null && epinfo[addr].Length > 0
      requires rounds >= BUFFER_SIZE
      modifies this`hidInterface, this`hidAddr, this`requests, epinfo, devclass, hidEp
      ensures Effect(EndpointParsed(a.bytes(at + 2), a.bytes, at + a.bytes(at), TotalLength(a)), d, addr, a, r,
                     old(requests))
    {
      var confvalue := a.bytes(5);
      Claim(d, addr, a.bytes(at + 2));
      var w := Walk(a.bytes, ENDPOINT, at + a.bytes(at), TotalLength(a), rounds);
      if w == Stuck {
        return Spinning;
      }
      if w == PastEnd {
        return Done(false);
      }
      Copy(a.bytes, w.at);
      requests := requests + [SetConf(confvalue)];
      if a.setConf != 0 {
        return Done(false);
      }
      requests := requests + [SetProto(hidInterface)];
      r := Done(a.setProto == 0);
      assert requests == old(requests) + Setup(a, hidInterface);
    }

    /** The reads at the start of a probe. */
    method ReadConfiguration(a: Answers) returns (ok: bool)
      modifies this`requests
      ensures ok <==> a.first == 0 && a.second == 0
      ensures requests == old(requests) + Reads(a)
    {
      requests := requests + [GetConf(CONF_DESCR_LEN)];
      if a.first != 0 {
        return false;
      }
      requests := requests + [GetConf(TotalLength(a))];
      ok := a.second == 0;
    }

    /**
     HIDMProbe and HIDKProbe. A rejected configuration leaves the table and the driver's records alone. A selected
     one is claimed, its endpoint's fields are copied, and it is accepted when both requests succeed. The probe
     goes on for ever exactly when the walk meets a descriptor of length 0, and otherwise takes fewer rounds than
     the configuration has bytes. What the control transfers themselves do to endpoint 0's toggle is not part of this.
     */
    method Probe(d: Driver, addr: Byte, a: Answers, rounds: nat) returns (r: Outcome)
      requires Valid() && addr < epinfo.Length && epinfo[addr] != null && epinfo[addr].Length > 0
      requires rounds >= BUFFER_SIZE
      modifies this`hidInterface, this`hidAddr, this`requests, epinfo, devclass, hidEp
      ensures Effect(Parsed(d, a), d, addr, a, r, old(requests) + Reads(a))
    {
      var ok := ReadConfiguration(a);
      if !ok {
        return Done(false);
      }
      r := Examine(d, addr, a, rounds);
    }

    /** What a probe does once the configuration is in the buffer. */
    method Examine(d: Driver, addr: Byte, a: Answers, rounds: nat) returns (r: Outcome)
      requires Valid() && addr < epinfo.Length && epinfo[addr] != null && epinfo[addr].Length > 0
      requires rounds >= BUFFER_SIZE && a.first == 0 && a.second == 0
      modifies this`hidInterface, this`hidAddr, this`requests, epinfo, devclass, hidEp
      ensures Effect(Parsed(d, a), d, addr, a, r, old(requests))
    {
      var w := Walk(a.bytes, INTERFACE, 0, TotalLength(a), rounds);
      if w == Stuck {
        return Spinning;
      }
      if w == PastEnd || !Matches(d, a.bytes, w.at) {
        return Done(false);
      }
      r := Select(d, addr, a, w.at, rounds);
    }

    /** The table entry takes the driver's records; the packet size passes through a byte. */
    method Claim(d: Driver, addr: Byte, interface: Byte)
      requires Valid() && addr < epinfo.Length && epinfo[addr] != null && epinfo[addr].Length > 0
      modifies this`hidInterface, this`hidAddr, epinfo, devclass, hidEp
      ensures Claimed(d, addr, interface)
      ensures hidEp[1] == old(hidEp[1]).(sndToggle := BM_SNDTOG0, rcvToggle := BM_RCVTOG0)
    {
      devclass[addr] := DevClass(d);
      var tmpbyte: Byte := epinfo[addr][0].maxPktSize % 0x100;
      hidEp[1] := hidEp[1].(sndToggle := BM_SNDTOG0, rcvToggle := BM_RCVTOG0);
      epinfo[addr] := hidEp;
      epinfo[addr][0] := epinfo[addr][0].(maxPktSize := tmpbyte);
      hidInterface := interface;
      hidAddr := addr;
    }

    /** Fill in the endpoint information. */
    method Copy(bytes: Bytes, at: nat)
      requires Valid()
      modifies hidEp
      ensures hidEp[0] == old(hidEp[0])
      ensures var ep := EndpointAt(bytes, at);
              hidEp[1] == EpRecord(ep.address, ep.attr, ep.maxPktSize, ep.interval, old(hidEp[1]).sndToggle, old(hidEp[1]).rcvToggle)
    {
      hidEp[1] := hidEp[1].(epAddr := bytes(at + 2), attr := bytes(at + 3), maxPktSize := WordAt(bytes, at + 4));
      hidEp[1] := hidEp[1].(interval := bytes(at + 6));
    }

    /**
     The two HID drivers in the order USB_Task asks them, on a device that answers both alike: a boot mouse or boot
     keyboard is claimed by its own driver only, as if the other had not been asked.
     */
    method ProbeBoth(addr: Byte, a: Answers, rounds: nat) returns (r: Outcome)
      requires Valid() && addr < epinfo.Length && epinfo[addr] != null && epinfo[addr].Length > 0
      requires rounds >= BUFFER_SIZE && a.setConf == 0 && a.setProto == 0
      modifies this`hidInterface, this`hidAddr, this`requests, epinfo, devclass, hidEp
      ensures forall d :: Parsed(d, a).Selected? ==>
                var (interface, ep) := (Parsed(d, a).interface, Parsed(d, a).endpoint);
                && r == Done(true) && Claimed(d, addr, interface)
                && hidEp[1] == EpRecord(ep.address, ep.attr, ep.maxPktSize, ep.interval, BM_SNDTOG0, BM_RCVTOG0)
      ensures Parsed(Mouse, a) == Rejected && Parsed(Keyboard, a) == Rejected ==> r == Done(false) && Untouched()
    {
      OneDriverOnly(a);
      r := Probe(Mouse, addr, a, rounds);
      if r == Done(false) {
        r := Probe(Keyboard, addr, a, rounds);
      }
    }
  }
}
