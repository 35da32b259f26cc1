/**
 The arithmetic shared by the transmit and the receive ring of the JTAG UART driver: BUF_LEN slots, an out
 index, an in index, and one slot always kept empty so that equal indices mean an empty ring.
 */
module RingBuffer {
  import opened Words

  const BUF_LEN: nat := 2048

  /** How many bytes lie between two ring indices. */
  function Live(outIndex: nat, inIndex: nat): (n: nat)
    requires outIndex < BUF_LEN && inIndex < BUF_LEN
    ensures n < BUF_LEN
  {
    if outIndex <= inIndex then inIndex - outIndex else BUF_LEN - outIndex + inIndex
  }

  /** The slot j places after a ring index. */
  function Slot(index: nat, j: nat): (slot: nat)
    requires index < BUF_LEN && j < BUF_LEN
    ensures slot < BUF_LEN
  {
    if index + j < BUF_LEN then index + j else index + j - BUF_LEN
  }

  /** How many bytes the writer copies in one go, computed from its snapshot of the two indices. */
  function WriterRun(inIndex: nat, outIndex: nat): int
  {
    if inIndex < outIndex then outIndex - 1 - inIndex
    else if outIndex > 0 then BUF_LEN - inIndex
    else BUF_LEN - 1 - inIndex
  }

  /** How many bytes the reader copies in one go, computed from its snapshot of the two indices. */
  function ReaderRun(inIndex: nat, outIndex: nat): int
  {
    if inIndex >= outIndex then inIndex - outIndex else BUF_LEN - outIndex
  }

  function Min(a: int, b: int): int { if a < b then a else b }

  function Max(a: int, b: int): int { if a > b then a else b }

  /** The writer's three-way test picks exactly the contiguous free slots, keeping one slot of the ring empty. */
  lemma WriterRunIsFreeSpace(inIndex: nat, outIndex: nat)
    requires outIndex < BUF_LEN && inIndex < BUF_LEN
    ensures WriterRun(inIndex, outIndex) == Min(BUF_LEN - 1 - Live(outIndex, inIndex), BUF_LEN - inIndex)
  {
  }

  /** The reader's two-way test picks exactly the contiguous live bytes. */
  lemma ReaderRunIsLiveBytes(inIndex: nat, outIndex: nat)
    requires outIndex < BUF_LEN && inIndex < BUF_LEN
    ensures ReaderRun(inIndex, outIndex) == Min(Live(outIndex, inIndex), BUF_LEN - outIndex)
  {
  }

  /** The live slots hold the tail of the stream that starts at position lo. */
  ghost predicate Backed(buf: array<Byte>, outIndex: nat, inIndex: nat, stream: seq<Byte>, lo: nat)
    reads buf
  {
    && buf.Length == BUF_LEN && outIndex < BUF_LEN && inIndex < BUF_LEN
    && lo <= |stream| && |stream| - lo == Live(outIndex, inIndex)
    && forall k :: lo <= k < |stream| ==> stream[k] == buf[Slot(outIndex, k - lo)]
  }

  /** The live region as the C code sees it: up to the end of the array, then from slot 0. */
  function Contents(buf: seq<Byte>, outIndex: nat, inIndex: nat): (s: seq<Byte>)
    requires |buf| == BUF_LEN && outIndex < BUF_LEN && inIndex < BUF_LEN
  {
    if outIndex <= inIndex then buf[outIndex..inIndex] else buf[outIndex..] + buf[..inIndex]
  }

  /** Refinement to a queue: the stream is what has been removed, followed by the region between the indices. */
  lemma ContentsAreStreamTail(buf: array<Byte>, outIndex: nat, inIndex: nat, stream: seq<Byte>, lo: nat)
    requires Backed(buf, outIndex, inIndex, stream, lo)
    ensures stream[..lo] + Contents(buf[..], outIndex, inIndex) == stream
  {
    var c := Contents(buf[..], outIndex, inIndex);
    forall j | 0 <= j < |c|
      ensures c[j] == stream[lo + j]
    {
      assert stream[lo + j] == buf[Slot(outIndex, j)];
    }
  }

  /** A prefix of a goal, extended by what the goal holds next, is a longer prefix of that goal. */
  lemma PrefixGrows(part: seq<Byte>, goal: seq<Byte>, chunk: seq<Byte>)
    requires part <= goal && |part| + |chunk| <= |goal|
    requires goal[|part|..|part| + |chunk|] == chunk
    ensures part + chunk <= goal
  {
    assert goal[..|part| + |chunk|] == goal[..|part|] + goal[|part|..|part| + |chunk|];
  }

  /** Two sequences with the same tail have the same slices of it. */
  lemma SameSlice(a: seq<Byte>, i: nat, b: seq<Byte>, j: nat, skip: nat, n: nat)
    requires i <= |a| && j <= |b| && a[i..] == b[j..] && i + skip + n <= |a|
    ensures j + skip + n <= |b| && a[i + skip..i + skip + n] == b[j + skip..j + skip + n]
  {
    assert a[i..][skip..skip + n] == a[i + skip..i + skip + n];
    assert b[j..][skip..skip + n] == b[j + skip..j + skip + n];
  }
}
