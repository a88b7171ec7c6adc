/**
 The exact-length promise. The source marks the iterator `ExactSizeIterator`
 and `TrustedLen` (src/lib.rs:90-92): `size_hint` must report, as both bounds,
 exactly the number of windows `next` still yields, and `count` forwards to
 it. `size_hint` divides by `read_size`, while `next` steps by `chunk_size`:
 the two agree without read-ahead and can disagree with it.
 */
module ExactSize {
  import opened RustCore
  import opened Arith
  import opened Chonk
  import opened Iteration

  /** Without read-ahead, `size_hint` reports both bounds exactly and `count`
      is the number of windows `next` yields. */
  lemma ExactWithoutReadAhead<T>(st: Chonks<T>)
    requires st.Valid() && st.chunkSize == st.readSize
    ensures SizeHint(st) == (|Windows(st)|, Some(|Windows(st)|))
    ensures Count(st) == |Windows(st)|
  {
    WindowsAreCeiling(st);
    CeilUnique(|Windows(st)|, SizeHint(st).0, st.readSize, st.Len());
  }

  /** Without read-ahead the windows are `read_size` apart, so their number
      is the ceiling of `v.len() / read_size`. */
  lemma WindowsAreCeiling<T>(st: Chonks<T>)
    requires st.Valid() && st.chunkSize == st.readSize
    ensures (|Windows(st)| - 1) * st.readSize < st.Len() <= |Windows(st)| * st.readSize
  {
    var n := |Windows(st)|;
    WindowsCover(st);
    if n > 0 {
      // the last window ends at the end of `v`, so it starts before it
      WindowLengths(st);
      StrideIsProduct(n - 1, st.chunkSize);
    }
  }

  /** The lower bound is sound in general: at least `size_hint().0` windows
      remain. */
  lemma HintIsLowerBound<T>(st: Chonks<T>)
    requires st.Valid()
    ensures SizeHint(st).0 <= |Windows(st)|
    ensures Count(st) <= |Windows(st)|
  {
    WindowsCover(st);
    MulLessCancel(SizeHint(st).0 - 1, |Windows(st)|, st.readSize);
  }

  /** With read-ahead the upper bound is wrong: a `v` exactly one window long
      yields two windows (the second one the last `read_ahead` elements again),
      yet `size_hint` and `count` report one. */
  lemma HintUnderstates<T>(st: Chonks<T>)
    requires st.Valid() && st.chunkSize < st.readSize && st.Len() == st.readSize
    ensures |Windows(st)| == 2
    ensures SizeHint(st) == (1, Some(1)) && Count(st) == 1
  {
    WindowsStep(st);
    var rest := Next(st).1;
    WindowsStep(rest);
    assert Windows(Next(rest).1) == [];
  }

  /** The exact-size promise holds for every slice given to `Chonks::new` with
      `chunk_size` and `read_ahead` exactly when `read_ahead` is zero. */
  lemma ExactIffNoReadAhead(chunkSize: usize, readAhead: usize)
    requires 1 <= chunkSize && chunkSize + readAhead <= USIZE_MAX
    ensures (forall s: seq<int> | |s| <= USIZE_MAX ::
               Count(New(s, chunkSize, readAhead)) == |Windows(New(s, chunkSize, readAhead))|)
            <==> readAhead == 0
  {
    if readAhead == 0 {
      forall s: seq<int> | |s| <= USIZE_MAX
        ensures Count(New(s, chunkSize, readAhead)) == |Windows(New(s, chunkSize, readAhead))|
      {
        ExactWithoutReadAhead(New(s, chunkSize, readAhead));
      }
    } else {
      var s := seq(chunkSize + readAhead, i => 0);
      HintUnderstates(New(s, chunkSize, readAhead));
    }
  }

  /** The number of windows `next` yields from a `v` of `len` elements, in
      closed form: the windows that are read in full, one per `chunk_size`
      step while at least `read_size` elements are left, plus one shorter
      window for whatever those steps leave. */
  function WindowCount(len: nat, chunkSize: nat, readSize: nat): nat
    requires 1 <= chunkSize <= readSize
  {
    if len == 0 then 0
    else if len < readSize then 1
    else if Leftover(len, chunkSize, readSize) > 0 then FullWindows(len, chunkSize, readSize) + 1
    else FullWindows(len, chunkSize, readSize)
  }

  /** How many full windows fit: one, plus one per `chunk_size` that the
      elements past the first window hold. */
  function FullWindows(len: nat, chunkSize: nat, readSize: nat): nat
    requires 1 <= chunkSize <= readSize <= len
  {
    (len - readSize) / chunkSize + 1
  }

  /** What the `chunk_size` steps of the full windows leave over. */
  function Leftover(len: nat, chunkSize: nat, readSize: nat): int
    requires 1 <= chunkSize <= readSize <= len
  {
    len - FullWindows(len, chunkSize, readSize) * chunkSize
  }

  /** Taking one step off the front while a full window remains leaves one
      full window fewer and the same leftover. */
  lemma FullStep(len: nat, chunkSize: nat, readSize: nat)
    requires 1 <= chunkSize <= readSize <= len - chunkSize
    ensures FullWindows(len - chunkSize, chunkSize, readSize) == FullWindows(len, chunkSize, readSize) - 1
    ensures Leftover(len - chunkSize, chunkSize, readSize) == Leftover(len, chunkSize, readSize)
  {
    var q := (len - readSize) / chunkSize;
    DivStep(len - readSize, chunkSize);
    assert (len - chunkSize - readSize) / chunkSize == q - 1;
    MulSucc(q, chunkSize);
  }

  /** One full window taken off the front leaves one window fewer. */
  lemma WindowCountStep(len: nat, chunkSize: nat, readSize: nat)
    requires 1 <= chunkSize <= readSize <= len
    ensures WindowCount(len, chunkSize, readSize) == 1 + WindowCount(len - chunkSize, chunkSize, readSize)
  {
    if len - chunkSize >= readSize {
      FullStep(len, chunkSize, readSize);
    } else {
      // the first window is the only full one
      assert (len - readSize) / chunkSize == 0;
    }
  }

  /** The closed form counts exactly the windows `next` yields. */
  lemma {:induction false} WindowCountIsExact<T>(st: Chonks<T>)
    requires st.Valid()
    ensures WindowCount(st.Len(), st.chunkSize, st.readSize) == |Windows(st)|
    decreases st.Len()
  {
    if st.Len() >= st.readSize {
      WindowsStep(st);
      WindowCountIsExact(Next(st).1);
      WindowCountStep(st.Len(), st.chunkSize, st.readSize);
    } else if st.Len() > 0 {
      WindowsStep(st);
    }
  }

  /** A `size_hint` that keeps the exact-size promise for any read-ahead: the
      closed-form window count, reported as both bounds. It never exceeds
      `v.len()`, so it fits a `usize`. */
  function CorrectedSizeHint<T>(st: Chonks<T>): (h: (usize, Option<usize>))
    requires st.Valid()
    ensures h == (|Windows(st)|, Some(|Windows(st)|))
  {
    WindowCountIsExact(st);
    var n := WindowCount(st.Len(), st.chunkSize, st.readSize);
    (n, Some(n))
  }

  /** The counterexample in numbers: ten elements, `chunk_size` 1 and
      `read_ahead` 1 give ten windows, but `size_hint` and `count` say five. */
  lemma TenElementsCounterexample()
    ensures var st := New(seq(10, i => i), 1, 1);
            && |Windows(st)| == 10
            && SizeHint(st) == (5, Some(5)) && Count(st) == 5
            && CorrectedSizeHint(st) == (10, Some(10))
  {
    var st := New(seq(10, i => i), 1, 1);
    WindowCountIsExact(st);
  }
}
