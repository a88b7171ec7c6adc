/**
 The `Chonks` windowed slice iterator (src/lib.rs).

 The Rust struct borrows `v`, the part of the original slice not yet
 consumed. Here the state keeps the whole original sequence `s` and the
 offset `pos` at which `v` starts, so `v` is `s[pos..]` by construction and
 every window can be compared with the original it was cut from.
 */
module Chonk {
  import opened RustCore
  import opened Arith

  datatype Chonks<T> = Chonks(s: seq<T>, pos: nat, chunkSize: usize, readSize: usize)
  {
    /** A state the iterator can be in: `v` lies inside `s`, a slice length
        fits a `usize`, the step is positive and a window is at least one
        step long. */
    predicate Valid() {
      && pos <= |s| <= USIZE_MAX
      && 1 <= chunkSize <= readSize
    }

    /** The borrowed slice `v`. */
    function Remaining(): seq<T>
      requires pos <= |s|
    {
      s[pos..]
    }

    /** `v.len()`. */
    function Len(): nat
      requires pos <= |s|
    {
      |s| - pos
    }

    /** The same iterator with `v` emptied (`self.v = &[]`). */
    function Exhausted(): Chonks<T> {
      this.(pos := |s|)
    }
  }

  /** `Chonks::new`: `v` is the whole slice and `read_size` is
      `chunk_size + read_ahead`. */
  function New<T>(slice: seq<T>, chunkSize: usize, readAhead: usize): (st: Chonks<T>)
    requires |slice| <= USIZE_MAX
    requires 1 <= chunkSize
    requires chunkSize + readAhead <= USIZE_MAX
    ensures st.Valid()
    ensures st.s == slice && st.Remaining() == slice
    ensures st.chunkSize == chunkSize && st.readSize - st.chunkSize == readAhead
    ensures st.chunkSize <= st.readSize
    ensures st.readSize == st.chunkSize <==> readAhead == 0
  {
    Chonks(slice, 0, chunkSize, chunkSize + readAhead)
  }

  /** `Iterator::next`. Returns the window (if any) and the advanced state. */
  function Next<T>(st: Chonks<T>): (r: (Option<seq<T>>, Chonks<T>))
    requires st.Valid()
    ensures r.1.Valid()
    ensures r.1.s == st.s && r.1.chunkSize == st.chunkSize && r.1.readSize == st.readSize
    // exhausted: nothing is produced and nothing changes (fused)
    ensures r.0.None? <==> st.Len() == 0
    ensures r.0.None? ==> r.1 == st
    // every window is a non-empty prefix of `v`, so a contiguous piece of
    // the original, at most `read_size` long
    ensures r.0.Some? ==>
              && 1 <= |r.0.value| <= st.readSize
              && |r.0.value| <= st.Len()
              && r.0.value == st.Remaining()[..|r.0.value|]
    // `v` stays a suffix of the original and strictly shrinks, and no
    // element is skipped: the new `v` starts inside the window just produced
    ensures r.0.Some? ==> st.pos < r.1.pos <= st.pos + |r.0.value|
    // tail rule: a short `v` is flushed whole as one window
    ensures 0 < st.Len() < st.readSize ==>
              r.0.Some? && |r.0.value| == st.Len() && r.1.Len() == 0
    // full-window rule: `read_size` elements are read, `chunk_size` dropped
    ensures st.Len() >= st.readSize ==>
              r.0.Some? && |r.0.value| == st.readSize && r.1.pos == st.pos + st.chunkSize
  {
    if st.Len() == 0 then
      (None, st)
    else if st.Len() < st.readSize then
      (Some(st.Remaining()), st.Exhausted())
    else
      (Some(st.Remaining()[..st.readSize]), st.(pos := st.pos + st.chunkSize))
  }

  /** `Iterator::size_hint`: the same number as lower and upper bound. */
  function SizeHint<T>(st: Chonks<T>): (h: (usize, Option<usize>))
    requires st.Valid()
    ensures h.1 == Some(h.0)
    ensures h.0 == 0 <==> st.Len() == 0
    ensures 0 < st.Len() < st.readSize ==> h.0 == 1
    // otherwise h.0 is the ceiling of len / read_size
    ensures (h.0 - 1) * st.readSize < st.Len() <= h.0 * st.readSize
  {
    var len := st.Len();
    if len == 0 then
      (0, Some(0))
    else if len < st.readSize then
      (1, Some(1))
    else
      CeilDiv(len, st.readSize);
      var n := len / st.readSize;
      var rem := len % st.readSize;
      var n := if rem > 0 then n + 1 else n;
      (n, Some(n))
  }

  /** `Iterator::count`, which the source forwards to `ExactSizeIterator::len`,
      that is, to the lower bound of `size_hint`. */
  function Count<T>(st: Chonks<T>): (n: usize)
    requires st.Valid()
    ensures n == SizeHint(st).0
    ensures n == 0 <==> st.Len() == 0
    ensures n <= st.Len()
    // the ceiling of `v.len() / read_size`
    ensures (n - 1) * st.readSize < st.Len() <= n * st.readSize
  {
    var n := SizeHint(st).0;
    CeilAtMost(n, st.readSize, st.Len());
    n
  }

  /** The index arithmetic of `Iterator::nth` on a `v` of length `len`: the
      skip offset `n * read_size` computed with `overflowing_mul`, and the
      window end computed with `checked_add`, saturating to `len`. `None`
      means `v` is skipped past. The contract restates the result in
      unbounded arithmetic, as `n` strides of `read_size`: the overflow
      guards lose nothing, and the range always lies inside `v`. */
  function NthRange(len: usize, n: usize, readSize: usize): (r: Option<(nat, nat)>)
    ensures r.None? <==> Stride(n, readSize) >= len
    ensures r.Some? ==>
              && r.value.0 == Stride(n, readSize)
              && r.value.1 == Min(len, r.value.0 + readSize)
              && r.value.0 < len
              && r.value.1 <= len
  {
    StrideIsProduct(n, readSize);
    var (start, overflow) := OverflowingMul(n, readSize);
    if start >= len || overflow then
      None
    else
      var end := match CheckedAdd(start, readSize) {
        case Some(i) => Min(len, i)
        case None => len
      };
      Some((start, end))
  }

  /** `Iterator::nth`: skips `n` strides of `read_size` and returns the window
      of up to `read_size` elements there, leaving `v` as what follows it;
      or `None` with `v` emptied when the skip reaches the end. */
  function Nth<T>(st: Chonks<T>, n: usize): (r: (Option<seq<T>>, Chonks<T>))
    requires st.Valid()
    ensures r.1.Valid()
    ensures r.1.s == st.s && r.1.chunkSize == st.chunkSize && r.1.readSize == st.readSize
    ensures r.0.None? <==> Stride(n, st.readSize) >= st.Len()
    ensures r.0.None? ==> r.1 == st.Exhausted()
    ensures r.0.Some? ==>
              var start := Stride(n, st.readSize);
              var end := Min(st.Len(), start + st.readSize);
              && start < end <= st.Len()
              && r.0.value == st.s[st.pos + start .. st.pos + end]
              && r.1.pos == st.pos + end
    ensures r.0.Some? ==> 1 <= |r.0.value| <= st.readSize
  {
    match NthRange(st.Len(), n, st.readSize)
    case None => (None, st.Exhausted())
    case Some((start, end)) => (Some(st.Remaining()[start..end]), st.(pos := st.pos + end))
  }
}
