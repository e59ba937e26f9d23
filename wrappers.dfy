/** Small value types shared by the modules of this model. */
module Wrappers {

  /** A value that may be absent; stands for a nullable pointer or a missing entry. */
  datatype Option<+T> = None | Some(value: T)

  /** Largest value of a 32-bit `int` and of a 32-bit `unsigned int`. */
  const INT_MAX: int := 0x7FFF_FFFF
  const UINT_MAX: int := 0xFFFF_FFFF

  predicate IsUint32(x: int) { 0 <= x <= UINT_MAX }

  /** `++x` on an `unsigned int`: wraps from UINT_MAX to 0. */
  function Inc32(x: int): (r: int)
    requires IsUint32(x)
    ensures IsUint32(r)
    ensures x < UINT_MAX ==> r == x + 1
    ensures x == UINT_MAX ==> r == 0
  {
    if x == UINT_MAX then 0 else x + 1
  }

  /** `--x` on an `unsigned int`: wraps from 0 to UINT_MAX. */
  function Dec32(x: int): (r: int)
    requires IsUint32(x)
    ensures IsUint32(r)
    ensures x > 0 ==> r == x - 1
    ensures x == 0 ==> r == UINT_MAX
  {
    if x == 0 then UINT_MAX else x - 1
  }

  lemma {:induction false} IncDecInverse(x: int)
    requires IsUint32(x)
    ensures Dec32(Inc32(x)) == x && Inc32(Dec32(x)) == x
  {
  }

  /** Conversion of a wider integer to a 32-bit signed `int`, as gcc performs it (two's complement wrap). */
  function ToInt32(x: int): (r: int)
    ensures -INT_MAX - 1 <= r <= INT_MAX
    ensures (r - x) % 0x1_0000_0000 == 0
    ensures -INT_MAX - 1 <= x <= INT_MAX ==> r == x
  {
    var m := x % 0x1_0000_0000;
    if m > INT_MAX then m - 0x1_0000_0000 else m
  }
}
