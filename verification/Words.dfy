/** Fixed-width unsigned integers of the Nios II build, and the usual optional value. */
module Words {
  const TWO_16: nat := 0x1_0000
  const TWO_32: nat := 0x1_0000_0000

  type Byte = x: int | 0 <= x < 0x100
  type Word = x: int | 0 <= x < 0x1_0000
  type UInt32 = x: int | 0 <= x < 0x1_0000_0000

  datatype Option<+T> = None | Some(value: T)

  /** The error numbers the firmware returns or stores, by name. */
  datatype Errno = EACCES | EBADFD | EINVAL | EIO | EMFILE | ENODEV | ENOSYS | ENOTSUP | ENOTTY | EWOULDBLOCK

  /** A word from its two bytes, the low one first. */
  function LittleEndian(lo: Byte, hi: Byte): Word
  {
    lo as int + 0x100 * (hi as int)
  }

  /** Quotient and remainder by 2^32 are unique. */
  lemma TurnIs(n: nat, turn: nat, rest: nat)
    requires n == turn * TWO_32 + rest && rest < TWO_32
    ensures n / TWO_32 == turn && n % TWO_32 == rest
  {
  }

  /** Multiplication by counting, which is linear for the solver. */
  function Multiple(count: nat, size: nat): nat
  {
    if count == 0 then 0 else Multiple(count - 1, size) + size
  }

  lemma {:induction false} MultipleIsProduct(count: nat, size: nat)
    ensures Multiple(count, size) == count * size
  {
    if count == 0 {
    } else {
      MultipleIsProduct(count - 1, size);
      assert count * size == (count - 1) * size + size;
    }
  }

  /** Concatenation is associative. */
  lemma Reassociate<T>(a: seq<T>, b: seq<T>, c: seq<T>)
    ensures a + b + c == a + (b + c)
  {
  }
}
