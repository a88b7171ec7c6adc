/**
 The crate's own test in numbers: a 256-element buffer holding `0..256`,
 cut with `chunk_size` 32 and `read_ahead` 4, and neighbouring inputs.
 */
module Scenarios {
  import opened RustCore
  import opened Arith
  import opened Chonk
  import opened Iteration
  import opened ExactSize
  import opened Skip

  /** The test's buffer: element `i` holds `i`. */
  function Buffer(): (buf: seq<int>)
    ensures |buf| == 256
    ensures forall i :: 0 <= i < 256 ==> buf[i] == i
  {
    seq(256, i => i)
  }

  /** The test's loop sees eight windows: seven of 36 elements, each starting
      32 elements after the one before, then the last 32 elements alone.
      Here `size_hint` and `count` happen to be right. */
  lemma TestChonks()
    ensures var st := New(Buffer(), 32, 4);
            && |Windows(st)| == 8
            && (forall i :: 0 <= i < 7 ==> |Windows(st)[i]| == 36)
            && |Windows(st)[7]| == 32
            && Windows(st)[7] == Buffer()[224..]
            && SizeHint(st) == (8, Some(8)) && Count(st) == 8
  {
    var st := New(Buffer(), 32, 4);
    WindowCountIsExact(st);
    WindowLengths(st);
    StrideIsProduct(7, 32);
    WindowStart(st, 7);
  }

  /** Without read-ahead the same buffer falls into eight plain chunks of 32
      that give the buffer back. */
  lemma TestChunksWithoutReadAhead()
    ensures var st := New(Buffer(), 32, 0);
            && |Windows(st)| == 8
            && (forall i :: 0 <= i < 8 ==> |Windows(st)[i]| == 32)
            && Concat(Windows(st)) == Buffer()
  {
    var st := New(Buffer(), 32, 0);
    WindowCountIsExact(st);
    WindowLengths(st);
    StrideIsProduct(7, 32);
    ChunksRoundTrip(st);
  }

  /** A `chunk_size` larger than the buffer gives one window: all of it. */
  lemma TestOneWindow()
    ensures var st := New(Buffer(), 300, 4);
            && Windows(st) == [Buffer()]
            && Count(st) == 1
  {
    var st := New(Buffer(), 300, 4);
    WindowsStep(st);
  }

  /** An empty slice gives no window. */
  lemma TestEmpty()
    ensures var st := New<int>([], 32, 4);
            && Next(st).0 == None
            && Windows(st) == []
            && Count(st) == 0
  {
    var st := New<int>([], 32, 4);
    assert st.Len() == 0;
  }

  /** `nth(1)` on the test's iterator returns elements 36 to 71, while
      discarding one `next` and calling it again returns elements 32 to 67. */
  lemma TestNthOne()
    ensures var st := New(Buffer(), 32, 4);
            && Nth(st, 1).0 == Some(Buffer()[36..72])
            && Next(Advance(st, 1)).0 == Some(Buffer()[32..68])
            && Nth(st, 1).0 != Next(Advance(st, 1)).0
            && NthFixed(st, 1).0 == Some(Buffer()[32..68])
  {
    var st := New(Buffer(), 32, 4);
    assert Stride(1, 36) == 36;
    assert Advance(st, 1) == Next(st).1 == st.(pos := 32);
    assert Buffer()[32..][..36] == Buffer()[32..68];
    assert Buffer()[36..72][0] != Buffer()[32..68][0];
  }
}
