/**
 Register access to the MAX3421E over SPI: every access is one chip-select frame, made of several SPI commands.
 A buffer is a memory array and an index into it, as a C pointer is.
 */
module Max3421e {
  import opened Words
  import opened Spi

  /** One chip-select frame that clocks out the given bytes. */
  ghost function Frame(bytes: seq<Byte>): seq<Event>
  {
    [Select] + Held(bytes) + [Release]
  }

  ghost function Held(bytes: seq<Byte>): (s: seq<Event>)
    ensures |s| == |bytes| && forall k :: 0 <= k < |s| ==> s[k] == Clock(bytes[k], true)
  {
    seq(|bytes|, k requires 0 <= k < |bytes| => Clock(bytes[k], true))
  }

  lemma HeldGrows(bytes: seq<Byte>, i: nat)
    requires i < |bytes|
    ensures Held(bytes[..i + 1]) == Held(bytes[..i]) + [Clock(bytes[i], true)]
  {
  }

  lemma FrameOf(command: Byte, bytes: seq<Byte>)
    ensures Frame([command] + bytes) == [Select, Clock(command, true)] + Held(bytes) + [Release]
  {
  }

  ghost function Zeros(n: nat): (s: seq<Byte>)
    ensures |s| == n && forall i :: 0 <= i < n ==> s[i] == 0
  {
    seq(n, i => 0)
  }

  /** The memory cells an access of nbytes at data touches: with nbytes == 0 it is the cell before the buffer. */
  function First(data: nat, nbytes: Byte): nat
    requires nbytes == 0 ==> data > 0
  {
    if nbytes == 0 then data - 1 else data
  }

  function Count(nbytes: Byte): (n: nat)
    ensures n > 0
  {
    if nbytes == 0 then 1 else nbytes
  }

  /** A command that writes one byte. */
  method Put(spi: SpiCore, b: Byte, merge: bool, toggle: bool)
    requires spi.Idle() && (spi.sso || !toggle)
    modifies spi
    ensures spi.Idle() && spi.sso == merge
    ensures spi.trace == old(spi.trace) + (if old(spi.sso) then [] else [Select]) + [Clock(b, true)]
                         + if merge then [] else [Release]
    ensures |spi.miso| == |old(spi.miso)| + 1 && old(spi.miso) <= spi.miso
  {
    var none := new Byte[0];
    var done, rc := spi.Command([b], none, merge, toggle, spi.Enough(1));
    assert Clocks([b], 1, true) == [Clock(b, true)];
  }

  /** A command that reads one byte, clocking out a zero. */
  method Get(spi: SpiCore, merge: bool, toggle: bool) returns (b: Byte)
    requires spi.Idle() && (spi.sso || !toggle)
    modifies spi
    ensures spi.Idle() && spi.sso == merge
    ensures spi.trace == old(spi.trace) + (if old(spi.sso) then [] else [Select]) + [Clock(0, true)]
                         + if merge then [] else [Release]
    ensures spi.miso == old(spi.miso) + [b]
  {
    var cell := new Byte[1];
    var done, rc := spi.Command([], cell, merge, toggle, spi.Enough(1));
    assert Clocks([], 1, true) == [Clock(0, true)];
    b := cell[0];
    assert spi.miso[|old(spi.miso)|] == b;
  }

  /** MAXreg_wr: one frame carrying the register's write command and the value. */
  method RegWr(spi: SpiCore, reg: Byte, val: Byte)
    requires spi.Idle() && !spi.sso
    modifies spi
    ensures spi.Idle() && !spi.sso
    ensures spi.trace == old(spi.trace) + Frame([(reg + 2) % 0x100, val])
  {
    Put(spi, (reg + 2) % 0x100, true, false);
    Put(spi, val, false, false);
    assert Frame([(reg + 2) % 0x100, val]) == [Select, Clock((reg + 2) % 0x100, true), Clock(val, true), Release];
  }

  /** MAXreg_rd: one frame carrying the register's read command and one slot; the value is the reply in that slot. */
  method RegRd(spi: SpiCore, reg: Byte) returns (val: Byte)
    requires spi.Idle() && !spi.sso
    modifies spi
    ensures spi.Idle() && !spi.sso
    ensures spi.trace == old(spi.trace) + Frame([reg, 0])
    ensures |spi.miso| == |old(spi.miso)| + 2 && val == spi.miso[|old(spi.miso)| + 1]
  {
    Put(spi, reg, true, false);
    val := Get(spi, false, false);
    assert Frame([reg, 0]) == [Select, Clock(reg, true), Clock(0, true), Release];
  }

  /**
   MAXbytes_wr: one frame carrying the register's write command and the bytes of the buffer. With nbytes == 0
   it still sends one byte, the one before the buffer.
   */
  method BytesWr(spi: SpiCore, reg: Byte, nbytes: Byte, mem: array<Byte>, data: nat) returns (next: nat)
    requires spi.Idle() && !spi.sso && data + nbytes <= mem.Length && (nbytes == 0 ==> data > 0)
    modifies spi
    ensures spi.Idle() && !spi.sso && next == data + nbytes
    ensures spi.trace == old(spi.trace)
              + Frame([(reg + 2) % 0x100] + mem[First(data, nbytes)..First(data, nbytes) + Count(nbytes)])
  {
    ghost var cells := mem[First(data, nbytes)..First(data, nbytes) + Count(nbytes)];
    ghost var start := spi.trace;
    Put(spi, (reg + 2) % 0x100, true, false);
    ghost var begun := spi.trace;
    var i := 0;
    while i < nbytes - 1
      invariant 0 <= i <= nbytes && (nbytes > 0 ==> i <= nbytes - 1) && (nbytes == 0 ==> i == 0)
      invariant spi.Idle() && spi.sso && spi.trace == begun + Held(cells[..i])
    {
      PutHeld(spi, mem[data + i], begun, cells, i);
      i := i + 1;
    }
    Put(spi, mem[data + nbytes - 1], false, false);
    assert cells[i] == mem[data + nbytes - 1] && cells[..i + 1] == cells;
    FrameEnds(start, begun, spi.trace, (reg + 2) % 0x100, cells, i);
    next := data + nbytes;
  }

  /** One more byte of a buffer inside a frame. */
  method PutHeld(spi: SpiCore, b: Byte, ghost begun: seq<Event>, ghost cells: seq<Byte>, ghost i: nat)
    requires spi.Idle() && spi.sso && i < |cells| && cells[i] == b && spi.trace == begun + Held(cells[..i])
    modifies spi
    ensures spi.Idle() && spi.sso && spi.trace == begun + Held(cells[..i + 1])
  {
    Put(spi, b, true, true);
    HeldGrows(cells, i);
  }

  /** A frame that has carried all bytes but the last, after the last. */
  lemma FrameEnds(start: seq<Event>, begun: seq<Event>, end: seq<Event>, command: Byte, cells: seq<Byte>, i: nat)
    requires begun == start + [Select] + [Clock(command, true)] && i + 1 == |cells|
    requires end == begun + Held(cells[..i]) + [Clock(cells[i], true)] + [Release]
    ensures end == start + Frame([command] + cells)
  {
    HeldGrows(cells, i);
    assert cells[..i + 1] == cells;
    FrameOf(command, cells);
  }

  /**
   MAXbytes_rd: one frame carrying the register's read command and one slot for each byte; the replies go to the
   buffer in order and nothing else in memory changes. With nbytes == 0 there is still one slot, and its reply
   overwrites the byte before the buffer.
   */
  method BytesRd(spi: SpiCore, reg: Byte, nbytes: Byte, mem: array<Byte>, data: nat) returns (next: nat)
    requires spi.Idle() && !spi.sso && data + nbytes <= mem.Length && (nbytes == 0 ==> data > 0)
    modifies spi, mem
    ensures spi.Idle() && !spi.sso && next == data + nbytes
    ensures spi.trace == old(spi.trace) + Frame([reg] + Zeros(Count(nbytes)))
    ensures |spi.miso| == |old(spi.miso)| + 1 + Count(nbytes)
    ensures forall k :: 0 <= k < mem.Length && !(First(data, nbytes) <= k < First(data, nbytes) + Count(nbytes)) ==>
              mem[k] == old(mem[k])
    ensures mem[First(data, nbytes)..First(data, nbytes) + Count(nbytes)] == spi.miso[|old(spi.miso)| + 1..]
  {
    Put(spi, reg, true, false);
    ghost var begun, first := spi.trace, First(data, nbytes);
    ghost var base := |spi.miso|;
    var i := 0;
    while i < nbytes - 1
      invariant 0 <= i <= nbytes && (nbytes > 0 ==> i <= nbytes - 1) && (nbytes == 0 ==> i == 0)
      invariant spi.Idle() && spi.sso && spi.trace == begun + Held(Zeros(i))
      invariant |spi.miso| == base + i
      invariant forall k :: data <= k < data + i ==> mem[k] == spi.miso[base + k - data]
      invariant forall k :: 0 <= k < mem.Length && !(data <= k < data + i) ==> mem[k] == old(mem[k])
    {
      mem[data + i] := Get(spi, true, true);
      i := i + 1;
      assert Held(Zeros(i)) == Held(Zeros(i - 1)) + [Clock(0, true)];
    }
    mem[data + nbytes - 1] := Get(spi, false, false);
    assert Held(Zeros(Count(nbytes))) == Held(Zeros(i)) + [Clock(0, true)];
    assert Frame([reg] + Zeros(Count(nbytes))) == [Select, Clock(reg, true)] + Held(Zeros(Count(nbytes))) + [Release];
    next := data + nbytes;
    ghost var replies := spi.miso[base..];
    assert |replies| == Count(nbytes) && forall k :: 0 <= k < Count(nbytes) ==> mem[first + k] == replies[k];
  }
}
