/**
 The few pieces of Rust's `core` that the iterator relies on: the 64-bit
 `usize` type, `Option`, `min`, and the overflow-aware `usize` operations
 `overflowing_mul` and `checked_add`. Dafny integers are unbounded, so the
 wrap-around of `overflowing_mul` is written out explicitly.
 */
module RustCore {

  /** Largest value of a 64-bit `usize`. */
  const USIZE_MAX: nat := 0xFFFF_FFFF_FFFF_FFFF

  type usize = x: nat | x <= USIZE_MAX

  datatype Option<+T> = None | Some(value: T)

  function Min(a: nat, b: nat): (m: nat)
    ensures m <= a && m <= b
    ensures m == a || m == b
  {
    if a <= b then a else b
  }

  /** `usize::overflowing_mul`: the product wrapped to 64 bits, and whether it wrapped. */
  function OverflowingMul(a: usize, b: usize): (r: (usize, bool))
    ensures r.1 <==> a * b > USIZE_MAX
    ensures !r.1 ==> r.0 == a * b
    // the value agrees with the true product modulo 2^64
    ensures (a * b - r.0) % (USIZE_MAX + 1) == 0
  {
    ((a * b) % (USIZE_MAX + 1), a * b > USIZE_MAX)
  }

  /** `usize::checked_add`: the sum, or `None` when it does not fit in 64 bits. */
  function CheckedAdd(a: usize, b: usize): (r: Option<usize>)
    ensures r.Some? <==> a + b <= USIZE_MAX
    ensures r.Some? ==> r.value == a + b
  {
    if a + b <= USIZE_MAX then Some(a + b) else None
  }
}
