/**
 Repeated `next`: the state after `k` calls, the whole sequence of windows a
 `for` loop over the iterator sees, and what that sequence looks like.
 */
module Iteration {
  import opened RustCore
  import opened Arith
  import opened Chonk

  /** The state after `k` calls of `next`. */
  function Advance<T>(st: Chonks<T>, k: nat): (r: Chonks<T>)
    requires st.Valid()
    ensures r.Valid()
    ensures r.s == st.s && r.chunkSize == st.chunkSize && r.readSize == st.readSize
    ensures st.pos <= r.pos
    decreases k
  {
    if k == 0 then st else Advance(Next(st).1, k - 1)
  }

  /** The windows repeated `next` produces, in order, until it returns `None`.
      Each call shrinks `v`, so the iteration ends, after at most `v.len()`
      windows. */
  function Windows<T>(st: Chonks<T>): (ws: seq<seq<T>>)
    requires st.Valid()
    ensures |ws| <= st.Len()
    ensures |ws| == 0 <==> st.Len() == 0
    ensures forall i :: 0 <= i < |ws| ==> 1 <= |ws[i]| <= st.readSize
    decreases st.Len()
  {
    match Next(st)
    case (None, _) => []
    case (Some(w), rest) => [w] + Windows(rest)
  }

  /** All windows laid end to end. */
  function Concat<T>(ws: seq<seq<T>>): seq<T> {
    if |ws| == 0 then [] else ws[0] + Concat(ws[1..])
  }

  /** One step of the iteration: a window, then the windows of the rest;
      and if the rest has windows too, the first window was a full one and
      exactly `chunk_size` elements were dropped. */
  lemma WindowsStep<T>(st: Chonks<T>)
    requires st.Valid() && st.Len() > 0
    ensures Windows(st) == [Next(st).0.value] + Windows(Next(st).1)
    ensures |Windows(Next(st).1)| > 0 ==> Next(st).1.pos == st.pos + st.chunkSize
  {
  }

  /** Fused: once `next` has returned `None`, further calls return `None` and
      leave the iterator as it is. */
  lemma {:induction false} FusedForever<T>(st: Chonks<T>, k: nat)
    requires st.Valid() && Next(st).0.None?
    ensures Advance(st, k) == st
    ensures Next(Advance(st, k)) == (None, st)
  {
    if k > 0 {
      FusedForever(st, k - 1);
    }
  }

  /** The `k`-th window of `Windows` is what the `k`-th call of `next` returns,
      and the call after the last window returns `None`: `|Windows(st)|` is the
      number of `Some`s repeated `next` yields. */
  lemma {:induction false} WindowsAreNexts<T>(st: Chonks<T>, k: nat)
    requires st.Valid()
    ensures k < |Windows(st)| ==> Next(Advance(st, k)).0 == Some(Windows(st)[k])
    ensures k >= |Windows(st)| ==> Next(Advance(st, k)).0.None?
    decreases k
  {
    var (w, rest) := Next(st);
    if w.None? {
      FusedForever(st, k);
    } else if k > 0 {
      WindowsAreNexts(rest, k - 1);
    }
  }

  /** Where the `k`-th call of `next` finds the iterator: `k` steps of
      `chunk_size` past the start while windows remain, and exhausted
      afterwards. */
  lemma {:induction false} AdvancePosition<T>(st: Chonks<T>, k: nat)
    requires st.Valid()
    ensures k < |Windows(st)| ==> Advance(st, k) == st.(pos := st.pos + Stride(k, st.chunkSize))
    ensures k >= |Windows(st)| ==> Advance(st, k) == st.Exhausted()
    decreases k
  {
    var (w, rest) := Next(st);
    if w.None? {
      FusedForever(st, k);
    } else if k > 0 {
      AdvancePosition(rest, k - 1);
      if k < |Windows(st)| {
        // a second window exists, so the first one was a full window
        assert rest.pos == st.pos + st.chunkSize;
      }
    }
  }

  /** Where the windows come from: window `i` is the piece of the original
      slice that starts `i * chunk_size` elements into `v`. */
  lemma WindowStart<T>(st: Chonks<T>, i: nat)
    requires st.Valid() && i < |Windows(st)|
    ensures st.pos + Stride(i, st.chunkSize) + |Windows(st)[i]| <= |st.s|
    ensures Windows(st)[i] == st.s[st.pos + Stride(i, st.chunkSize) ..][..|Windows(st)[i]|]
  {
    WindowsAreNexts(st, i);
    AdvancePosition(st, i);
  }

  /** How long the windows are: all but the last are `read_size` long, and
      the last one ends where the original slice ends. */
  lemma {:induction false} WindowLengths<T>(st: Chonks<T>)
    requires st.Valid()
    ensures forall i :: 0 <= i < |Windows(st)| - 1 ==> |Windows(st)[i]| == st.readSize
    ensures |Windows(st)| > 0 ==>
              st.pos + Stride(|Windows(st)| - 1, st.chunkSize) + |Windows(st)[|Windows(st)| - 1]| == |st.s|
    decreases st.Len()
  {
    var ws := Windows(st);
    var (w, rest) := Next(st);
    if w.Some? {
      WindowLengths(rest);
      var ws' := Windows(rest);
      assert ws == [w.value] + ws';
      if |ws'| > 0 {
        assert rest.pos == st.pos + st.chunkSize;
        assert st.pos + Stride(|ws| - 1, st.chunkSize) == rest.pos + Stride(|ws'| - 1, st.chunkSize);
        forall i | 0 < i < |ws| - 1
          ensures |ws[i]| == st.readSize
        {
          assert ws[i] == ws'[i - 1];
        }
      }
    }
  }

  /** Coverage: windows of at most `read_size` elements that reach from the
      start of `v` to its end number at least `v.len() / read_size`. */
  lemma {:induction false} WindowsCover<T>(st: Chonks<T>)
    requires st.Valid()
    ensures st.Len() <= |Windows(st)| * st.readSize
    decreases st.Len()
  {
    var (w, rest) := Next(st);
    if w.Some? {
      WindowsCover(rest);
      var n := |Windows(rest)|;
      assert |Windows(st)| == 1 + n;
      MulSucc(n, st.readSize);
    }
  }

  /** No element is skipped: element `j` of `v` lies in some window, the one
      starting `i * chunk_size` into `v`. */
  lemma {:induction false} ElementCovered<T>(st: Chonks<T>, j: nat)
    requires st.Valid() && j < st.Len()
    ensures exists i :: 0 <= i < |Windows(st)| &&
              Stride(i, st.chunkSize) <= j < Stride(i, st.chunkSize) + |Windows(st)[i]|
    decreases st.Len()
  {
    var (w, rest) := Next(st);
    WindowsStep(st);
    if j < |w.value| {
      assert Stride(0, st.chunkSize) <= j < Stride(0, st.chunkSize) + |Windows(st)[0]|;
    } else {
      // only a full window leaves elements behind it, and it dropped `chunk_size`
      ElementCovered(rest, j - st.chunkSize);
      var i :| 0 <= i < |Windows(rest)| &&
               Stride(i, st.chunkSize) <= j - st.chunkSize < Stride(i, st.chunkSize) + |Windows(rest)[i]|;
      assert Windows(st)[i + 1] == Windows(rest)[i];
      assert Stride(i + 1, st.chunkSize) == Stride(i, st.chunkSize) + st.chunkSize;
    }
  }

  /** Without read-ahead the windows are plain chunks: laid end to end they
      give back `v` exactly. */
  lemma {:induction false} ChunksRoundTrip<T>(st: Chonks<T>)
    requires st.Valid() && st.chunkSize == st.readSize
    ensures Concat(Windows(st)) == st.Remaining()
    decreases st.Len()
  {
    var (w, rest) := Next(st);
    if w.Some? {
      ChunksRoundTrip(rest);
      assert Windows(st) == [w.value] + Windows(rest);
      assert ([w.value] + Windows(rest))[1..] == Windows(rest);
      if st.Len() >= st.readSize {
        assert st.Remaining() == st.Remaining()[..st.readSize] + st.Remaining()[st.chunkSize..];
      }
    }
  }

  /** The `for` loop of the crate's test: pull windows with `next` until it
      returns `None`, collecting them and counting them as `enumerate` does. */
  method CollectWindows<T>(st: Chonks<T>) returns (ws: seq<seq<T>>, count: nat)
    requires st.Valid()
    ensures ws == Windows(st)
    ensures count == |ws| <= st.Len()
  {
    ws, count := [], 0;
    var it := st;
    var done := false;
    while !done
      invariant it.Valid()
      invariant it.s == st.s && it.chunkSize == st.chunkSize && it.readSize == st.readSize
      invariant ws + (if done then [] else Windows(it)) == Windows(st)
      invariant count == |ws|
      decreases (if done then 0 else 1) + it.Len()
    {
      var (w, rest) := Next(it);
      match w
      case None =>
        done := true;
      case Some(window) =>
        assert Windows(it) == [window] + Windows(rest);
        ws, count := ws + [window], count + 1;
        it := rest;
    }
  }
}
