/** Bytes, digests, outcomes and big-endian numbers shared by every engine of the model. */
module Basics {

  type byte = b: int | 0 <= b < 256
  type Bytes = seq<byte>

  /** A 32-byte digest: the source's `[32]byte`. */
  type Digest = d: Bytes | |d| == 32 witness seq(32, i => 0)

  /** A hash function: SHA-256 in the source, arbitrary here. */
  type Hash = Bytes -> Digest

  datatype Option<+T> = None | Some(value: T)

  datatype Result<+T, +E> = Ok(value: T) | Err(error: E) {
    predicate IsFailure() { Err? }

    function PropagateFailure<U>(): Result<U, E>
      requires Err?
    {
      Err(error)
    }

    function Extract(): T
      requires Ok?
    {
      value
    }
  }

  const TWO_TO_64 := 0x1_0000_0000_0000_0000

  const TWO_TO_62 := 0x4000_0000_0000_0000

  type uint64 = x: int | 0 <= x < TWO_TO_64

  /** The value a 64-bit signed integer holds after arithmetic that yields x. */
  function Wrap(x: int): int {
    (x + TWO_TO_64 / 2) % TWO_TO_64 - TWO_TO_64 / 2
  }

  /** How a call ends: it returns, or one of its loops never does. */
  datatype Outcome<+T> = Returned(value: T) | NeverReturns

  function Pow2(j: nat): (r: nat)
    ensures r >= 1
  {
    if j == 0 then 1 else 2 * Pow2(j - 1)
  }

  lemma {:induction false} Pow2Monotone(i: nat, j: nat)
    requires i <= j
    ensures Pow2(i) <= Pow2(j)
    ensures i < j ==> 2 * Pow2(i) <= Pow2(j)
    decreases j
  {
    if i < j {
      Pow2Monotone(i, j - 1);
    }
  }

  lemma Regroup<T>(a: seq<T>, b: seq<T>, c: seq<T>)
    ensures a + (b + c) == a + b + c
  {
  }

  /** A collision of H: two distinct inputs with one digest. */
  predicate Collides(H: Hash, c: (Bytes, Bytes)) {
    c.0 != c.1 && H(c.0) == H(c.1)
  }
}
