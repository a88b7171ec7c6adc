/**
 Arithmetic the iterator's contracts are stated in. Offsets that are a
 multiple of a step are written as `Stride(n, step)`, the sum of `n` steps,
 which keeps products out of the proofs that only need to add one step at a
 time; `StrideIsProduct` connects it to multiplication.
 */
module Arith {

  /** The offset reached after `n` steps of `step` elements. */
  function Stride(n: nat, step: nat): nat {
    if n == 0 then 0 else Stride(n - 1, step) + step
  }

  lemma {:induction false} StrideIsProduct(n: nat, step: nat)
    ensures Stride(n, step) == n * step
  {
    if n > 0 {
      StrideIsProduct(n - 1, step);
    }
  }

  /** A ceiling of `len / step` with `step >= 1` is at most `len`. */
  lemma CeilAtMost(h: nat, step: nat, len: nat)
    requires 1 <= step
    requires (h - 1) * step < len
    ensures h <= len
  {
    if h >= 1 {
      assert (h - 1) * step >= (h - 1) * 1;
    }
  }

  lemma MulSucc(n: nat, step: nat)
    ensures (n + 1) * step == n * step + step
  {
  }

  /** Rounding the quotient up, as `len / step` plus one when `len % step > 0`,
      gives the ceiling of `len / step`. */
  lemma CeilDiv(len: nat, step: nat)
    requires 1 <= step
    ensures var q := len / step + (if len % step > 0 then 1 else 0);
            (q - 1) * step < len <= q * step
  {
    var q := len / step;
    assert len == q * step + len % step;
    MulSucc(q, step);
    if q >= 1 {
      MulSucc(q - 1, step);
    }
  }

  /** The ceiling of `len / step` is unique. */
  lemma CeilUnique(a: int, b: int, step: nat, len: nat)
    requires 1 <= step
    requires (a - 1) * step < len <= a * step
    requires (b - 1) * step < len <= b * step
    ensures a == b
  {
    MulLessCancel(a - 1, b, step);
    MulLessCancel(b - 1, a, step);
  }

  /** Products with a positive factor keep the order of the other factor. */
  lemma MulLessCancel(a: int, b: int, step: nat)
    requires 1 <= step
    requires a * step < b * step
    ensures a < b
  {
    assert (b - a) * step == b * step - a * step;
  }

  /** Products with a non-negative factor keep the order of the other factor. */
  lemma MulLeMono(a: nat, b: nat, step: nat)
    requires a <= b
    ensures a * step <= b * step
  {
    assert b * step == a * step + (b - a) * step;
  }

  /** Division of a number written as a multiple of `step` plus a remainder. */
  lemma DivUnique(y: nat, a: nat, rem: nat, step: nat)
    requires 1 <= step && rem < step
    requires y == a * step + rem
    ensures y / step == a
  {
    var q := y / step;
    assert y == q * step + y % step;
    MulLessCancel(a - 1, q, step);
    MulLessCancel(q - 1, a, step);
  }

  /** One more step of a larger step size reaches strictly further. */
  lemma {:induction false} StrideLess(n: nat, small: nat, large: nat)
    requires small < large && 1 <= n
    ensures Stride(n, small) < Stride(n, large)
  {
    if n > 1 {
      StrideLess(n - 1, small, large);
    }
  }

  /** Removing one step from the dividend removes one from the quotient. */
  lemma DivStep(x: nat, step: nat)
    requires 1 <= step <= x
    ensures (x - step) / step == x / step - 1
  {
    var q, rem := x / step, x % step;
    assert x == q * step + rem;
    MulLessCancel(0, q, step);
    MulSucc(q - 1, step);
    DivUnique(x - step, q - 1, rem, step);
  }
}
