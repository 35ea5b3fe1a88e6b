/** Machine integers, byte strings and result types shared by all modules. */
module Primitives {

  const TWO_63: int := 0x8000_0000_0000_0000
  const TWO_64: int := 0x1_0000_0000_0000_0000

  /** An unsigned 64-bit integer; arithmetic on it wraps explicitly with `Wrap`. */
  type Uint64 = n: nat | n < TWO_64

  type Byte = n: nat | n < 256

  datatype Option<+T> = None | Some(value: T)

  datatype Result<+T, +E> = Ok(value: T) | Err(error: E)

  /** The value a 64-bit register holds after an addition, subtraction or increment. */
  function Wrap(n: int): (r: Uint64)
    ensures 0 <= n < TWO_64 ==> r == n
  {
    n % TWO_64
  }

  /** Go's `int(x)` of a uint64: two's complement reinterpretation. */
  function ToInt64(n: Uint64): (r: int)
    ensures -TWO_63 <= r < TWO_63
    ensures Wrap(r) == n
  {
    if n < TWO_63 then n else n - TWO_64
  }

  function Pow2(k: nat): (r: nat)
    ensures r > 0
  {
    if k == 0 then 1 else 2 * Pow2(k - 1)
  }

  lemma {:induction false} Pow2Grows(i: nat, j: nat)
    requires i <= j
    ensures Pow2(i) <= Pow2(j)
  {
    if i < j { Pow2Grows(i, j - 1); }
  }
}
