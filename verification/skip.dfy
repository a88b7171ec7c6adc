/**
 `Iterator::nth` against its meaning. The standard library defines
 `nth(n)` as what `next` returns after `n` earlier calls of `next` have been
 thrown away. The source jumps `n * read_size` elements ahead instead of
 `n * chunk_size`, which is the same only without read-ahead.
 */
module Skip {
  import opened RustCore
  import opened Arith
  import opened Chonk
  import opened Iteration
  import opened ExactSize

  /** `nth(0)` returns the same window as `next`. It leaves the iterator in
      the same state only when no read-ahead is dropped: without read-ahead
      or on a short tail; otherwise it consumes the read-ahead as well. */
  lemma NthZeroIsNext<T>(st: Chonks<T>)
    requires st.Valid()
    ensures Nth(st, 0).0 == Next(st).0
    ensures Nth(st, 0).1 == Next(st).1 <==> st.chunkSize == st.readSize || st.Len() < st.readSize
  {
    assert Stride(0, st.readSize) == 0;
  }

  /** Without read-ahead, `nth(n)` reading inside `v` is one `next` from
      `n` strides further on. */
  lemma NthIsJump<T>(st: Chonks<T>, n: usize)
    requires st.Valid() && st.chunkSize == st.readSize
    requires Stride(n, st.readSize) < st.Len()
    ensures Nth(st, n) == Next(st.(pos := st.pos + Stride(n, st.readSize)))
  {
    var at := st.pos + Stride(n, st.readSize);
    if |st.s| - at < st.readSize {
      assert st.s[at..] == st.s[at..|st.s|];
    } else {
      assert st.s[at..][..st.readSize] == st.s[at..at + st.readSize];
    }
  }

  /** Without read-ahead, `nth(n)` is `n` discarded calls of `next` followed by
      one more: the window it returns and the state it leaves agree. */
  lemma NthWithoutReadAhead<T>(st: Chonks<T>, n: usize)
    requires st.Valid() && st.chunkSize == st.readSize
    ensures Nth(st, n) == Next(Advance(st, n))
  {
    var count := |Windows(st)|;
    AdvancePosition(st, n);
    if n < count {
      // the `n`-th call of `next` still finds elements
      WindowsAreNexts(st, n);
      NthIsJump(st, n);
    } else {
      // `n` strides reach past all `count` windows, which cover `v`
      ExactWithoutReadAhead(st);
      StrideIsProduct(n, st.readSize);
      MulLeMono(count, n, st.readSize);
    }
  }

  /** With read-ahead, `nth(n)` lands somewhere else than `n` discarded calls
      of `next` followed by one more, whenever the window `nth` reads is a
      full one that does not reach the end of `v`. */
  lemma NthStrideDiffers<T>(st: Chonks<T>, n: usize)
    requires st.Valid() && st.chunkSize < st.readSize
    requires Stride(n, st.readSize) + st.readSize < st.Len()
    ensures Nth(st, n).1 != Next(Advance(st, n)).1
  {
    AdvancePosition(st, n);
    if n < |Windows(st)| {
      if n > 0 {
        StrideLess(n, st.chunkSize, st.readSize);
      }
      assert Stride(n, st.chunkSize) + st.chunkSize < Stride(n, st.readSize) + st.readSize;
    }
  }

  /** An `nth` that keeps the standard library's meaning for any read-ahead:
      `n` steps of `chunk_size`, or `None` with `v` emptied once `n` reaches
      the number of windows left. The offset `n * chunk_size` is then below
      `v.len()`, so it cannot overflow. */
  function NthFixed<T>(st: Chonks<T>, n: usize): (r: (Option<seq<T>>, Chonks<T>))
    requires st.Valid()
    ensures r == Next(Advance(st, n))
  {
    WindowCountIsExact(st);
    AdvancePosition(st, n);
    StrideIsProduct(n, st.chunkSize);
    if n >= WindowCount(st.Len(), st.chunkSize, st.readSize) then
      (None, st.Exhausted())
    else
      Next(st.(pos := st.pos + n * st.chunkSize))
  }
}
