# Chonks: a verified model of the windowed slice iterator

The crate `chonk` provides one type, `Chonks`. It is an iterator over a
borrowed slice that yields windows of up to `read_size` elements, and each
window starts `chunk_size` elements after the previous one. `read_size` is
`chunk_size + read_ahead`, so with read-ahead the windows overlap by
`read_ahead` elements. Without read-ahead the iterator is plain fixed-size
chunking. The last window is whatever is left, even if it is shorter.

This project models the iterator in Dafny and proves what its
implementation guarantees and what it does not.

- `rust_core.dfy` (module `RustCore`): the pieces of Rust's `core` the iterator uses. These are 64-bit `usize`, `Option`, `min`, `overflowing_mul` (with its wrap-around written out) and `checked_add`.
- `arith.dfy` (module `Arith`): `Stride(n, step)`, the offset reached after `n` steps, and small arithmetic lemmas about it.
- `chonks.dfy` (module `Chonk`): the iterator state and its operations `new`, `next`, `size_hint`, `count` and `nth`. A state keeps the original sequence `s` and the offset `pos` where the borrowed slice `v` starts, so `v` is `s[pos..]`.
- `iteration.dfy` (module `Iteration`): repeated `next`. It covers the state after `k` calls, the whole sequence of windows, and where each window starts and how long it is. It also proves fusedness, coverage, and the round trip of plain chunks. `CollectWindows` is the `for` loop of the crate's test.
- `exact_size.dfy` (module `ExactSize`): the `ExactSizeIterator`/`TrustedLen` promise that `size_hint` is the exact number of windows left. It also contains a closed-form window count that keeps that promise.
- `skip.dfy` (module `Skip`): `nth` compared with its standard meaning, "discard `n` windows, return the next", and an `nth` that keeps that meaning.
- `scenarios.dfy` (module `Scenarios`): the crate's test input (256 elements, `chunk_size` 32, `read_ahead` 4) and neighbouring inputs, in numbers.

All arithmetic is on unbounded integers. A state is valid when `|s|` fits a
`usize` and `1 <= chunk_size <= read_size`. The only `usize` overflow the
code guards against is in `nth`, and `NthRange` models it bit for bit.

Facts about the code that are easy to get wrong, each proved in the model:

- As long as `chunk_size + read_ahead` does not overflow, `new` cannot build an iterator with `read_size < chunk_size`, so windows never leave gaps between them. `read_ahead` is unsigned, so `read_size >= chunk_size` then always holds (`Chonk.New`). In a release build an overflowing sum wraps, and `read_size` can then be smaller.
- `nth(0)` returns the window `next()` returns, but it leaves the same state as `next()` only without read-ahead or on a short tail (`Skip.NthZeroIsNext`).
- `nth(1)` on the test input returns elements 36..72, not the second window 32..68 (`Scenarios.TestNthOne`).
- `count` is exact for every input only without read-ahead (`ExactSize.ExactIffNoReadAhead`). With read-ahead it is still exact on some inputs, including the crate's own test (`Scenarios.TestChonks`), but not on all of them (`ExactSize.HintUnderstates`).

## Model

| member | source | states |
|---|---|---|
| RustCore.OverflowingMul | src/lib.rs:72 | the flag is set exactly when the true product exceeds `usize::MAX`; the value agrees with the true product modulo 2^64, and is the true product when there is no overflow |
| RustCore.CheckedAdd | src/lib.rs:77-80 | `Some` exactly when the true sum fits a `usize`, and then it holds the true sum |
| RustCore.Min | src/lib.rs:78 | the result is at most both arguments and is one of them |
| Chonk.New | src/lib.rs:17-19 | `v` is the whole slice; `read_size - chunk_size` is `read_ahead`, so `chunk_size <= read_size`, with equality exactly when `read_ahead` is 0 |
| Chonk.Next | src/lib.rs:36-47 | `None` exactly when `v` is empty, and then the state is unchanged; each window is a non-empty prefix of `v` of at most `read_size` elements; `v` stays a suffix of the original, shrinks strictly, and skips nothing; the tail rule and the full-window rule (drop exactly `chunk_size`) |
| Chonk.SizeHint | src/lib.rs:51-62 | the upper bound equals the lower bound; 0 exactly for an empty `v`; 1 for a short `v`; in general the ceiling of `v.len() / read_size` |
| Chonk.Count | src/lib.rs:66-68 | the lower bound of `size_hint`, which is what `self.len()` returns: 0 exactly for an empty `v`, at most `v.len()`, and the ceiling of `v.len() / read_size` |
| Chonk.NthRange | src/lib.rs:72-80 | the overflow-guarded index arithmetic equals the unbounded one: `None` exactly when `n` strides of `read_size` reach the end of `v`, otherwise the range starts there, ends at `min(len, start + read_size)`, and lies inside `v` |
| Chonk.Nth | src/lib.rs:71-85 | `None` with `v` emptied exactly when `n * read_size >= v.len()`; otherwise the window is the original's elements from `n * read_size` to the saturated end, never out of bounds, between 1 and `read_size` long, and `v` becomes what follows it |
| Iteration.Advance | src/lib.rs:36-47 | repeated `next` keeps the state valid, keeps the sizes and the original, and only moves `v` forward |
| Iteration.Windows | src/lib.rs:36-47 | iteration terminates after at most `v.len()` windows; there are none exactly when `v` is empty; every window has between 1 and `read_size` elements |
| Iteration.WindowsStep | src/lib.rs:36-47 | the windows are the first window followed by the windows of the rest, and a second window exists only after a full first window that dropped `chunk_size` |
| Iteration.FusedForever | src/lib.rs:37-38 | once `next` returns `None`, every later call returns `None` and leaves the state alone (the `FusedIterator` promise at src/lib.rs:94) |
| Iteration.WindowsAreNexts | src/lib.rs:36-47 | the `k`-th window is what the `k`-th call of `next` returns, and every call after the last window returns `None` |
| Iteration.AdvancePosition | src/lib.rs:43-46 | after `k` calls of `next`, `v` starts `k * chunk_size` past the start while windows remain, and is empty afterwards |
| Iteration.WindowStart | src/lib.rs:43-46 | window `i` is the contiguous piece of the original that starts `i * chunk_size` into `v` |
| Iteration.WindowLengths | src/lib.rs:39-46 | every window but the last has exactly `read_size` elements, and the last ends at the end of the original |
| Iteration.WindowsCover | src/lib.rs:36-47 | the windows cover `v`: their number times `read_size` is at least `v.len()` |
| Iteration.ElementCovered | src/lib.rs:36-47 | no element is skipped: every element of `v` lies in some window, the one that starts a whole number of `chunk_size` steps before it |
| Iteration.ChunksRoundTrip | src/lib.rs:43-46 | without read-ahead, the windows laid end to end give back `v` exactly |
| Iteration.CollectWindows | src/lib.rs:116-119 | the loop collects exactly the windows repeated `next` yields, and its count is their number |
| ExactSize.ExactWithoutReadAhead | src/lib.rs:90-92 | without read-ahead, `size_hint` reports the exact number of windows left as both bounds, and `count` equals it |
| ExactSize.WindowsAreCeiling | src/lib.rs:43-46 | without read-ahead, the number of windows is the ceiling of `v.len() / read_size` |
| ExactSize.HintIsLowerBound | src/lib.rs:51-68 | the lower bound of `size_hint`, and so `count`, never exceed the number of windows left |
| ExactSize.HintUnderstates | src/lib.rs:57-61 | with read-ahead, a `v` exactly `read_size` long yields two windows, while `size_hint` and `count` report one |
| ExactSize.ExactIffNoReadAhead | src/lib.rs:90-92 | `count` equals the number of windows for every input slice if and only if `read_ahead` is 0 |
| ExactSize.FullStep | src/lib.rs:43-46 | a `chunk_size` step that leaves a full window removes one full window from the closed form and keeps its leftover |
| ExactSize.WindowCountStep | src/lib.rs:43-46 | a full window taken off the front lowers the closed-form count by one |
| ExactSize.WindowCountIsExact | src/lib.rs:36-47 | the closed-form count equals the number of windows repeated `next` yields |
| ExactSize.CorrectedSizeHint | src/lib.rs:51-62 | a `size_hint` whose two bounds are both exactly the number of windows left, for any read-ahead |
| ExactSize.TenElementsCounterexample | src/lib.rs:51-68 | ten elements with `chunk_size` 1 and `read_ahead` 1 give ten windows, but `size_hint` and `count` say five; the corrected hint says ten |
| Skip.NthZeroIsNext | src/lib.rs:71-85 | `nth(0)` returns the window `next` returns; it leaves the same state exactly when there is no read-ahead or `v` is shorter than `read_size` |
| Skip.NthIsJump | src/lib.rs:71-85 | without read-ahead, an `nth` that reads inside `v` is one `next` from `n` strides further on |
| Skip.NthWithoutReadAhead | src/lib.rs:71-85 | without read-ahead, `nth(n)` equals `n` discarded calls of `next` followed by one more, in window and state |
| Skip.NthStrideDiffers | src/lib.rs:72 | with read-ahead, an `nth` that reads a full window before the end of `v` leaves a different state than `n` discarded calls of `next` followed by one more |
| Skip.NthFixed | src/lib.rs:71-85 | the corrected `nth` equals `n` discarded calls of `next` followed by one more, for every `n` and every read-ahead |
| Scenarios.Buffer | src/lib.rs:108-112 | the test's buffer has 256 elements, and element `i` holds `i` |
| Scenarios.TestChonks | src/lib.rs:107-120 | the test's loop sees eight windows: seven of 36 elements, then the last 32 elements; `size_hint` and `count` are 8, which is exact here |
| Scenarios.TestChunksWithoutReadAhead | src/lib.rs:43-46 | with `read_ahead` 0 the same buffer falls into eight chunks of 32 that concatenate back to the buffer |
| Scenarios.TestOneWindow | src/lib.rs:39-42 | a `chunk_size` larger than the buffer gives the whole buffer as the only window, and `count` is 1 |
| Scenarios.TestEmpty | src/lib.rs:37-38 | an empty slice gives no window, and `count` is 0 |
| Scenarios.TestNthOne | src/lib.rs:71-85 | on the test's iterator, `nth(1)` returns elements 36 to 71, while discarding one `next` and calling it again returns elements 32 to 67, as the corrected `nth` does |

## Left out

- `chunk_size == 0`: excluded by the validity predicate. With `chunk_size` 0, once `v` holds at least `read_size` elements, `next` returns its first `read_size` elements forever without shrinking it. When `read_ahead` is also 0, `size_hint` divides by zero.
- Overflow of `chunk_size + read_ahead` in `new` (src/lib.rs:18): `New` requires the sum to fit a `usize`. In Rust the overflow is a debug panic or a silent release wrap.
- Chonk.New: requires `chunk_size >= 1`, which the Rust constructor does not check, for the reason given in the first item.
- The `#![feature(...)]` flags and the `TrustedRandomAccess`/`TrustedRandomAccessNoCoerce` impls (src/lib.rs:1-5, 96-100). They are markers with no body. The crate does not implement `__iterator_get_unchecked`.
- `Copy`, `Clone` and `Debug` (src/lib.rs:8, 22-30): Dafny datatypes already have value semantics.
- Lifetimes and borrowing: a borrowed slice is an offset into an immutable sequence.
- The `dbg!` output of the test (src/lib.rs:117-118): it prints and asserts nothing. The loop itself is `Iteration.CollectWindows`, and its numbers are `Scenarios.TestChonks`.
- Element values: `u8` elements are modelled as integers, since the iterator never looks at them.

## Findings

| source | as written | input that shows it | evidently intended | confidence | as-written member | corrected member |
|---|---|---|---|---|---|---|
| src/lib.rs:57-61 | `size_hint`, and `count` through it, divide `v.len()` by `read_size` | 10 elements, `chunk_size` 1, `read_ahead` 1: `next` yields 10 windows, while `size_hint` is `(5, Some(5))` and `count` is 5 | the exact number of windows, as the `ExactSizeIterator` and `TrustedLen` impls at src/lib.rs:90-92 promise and unsafe consumers of `TrustedLen` rely on | high; not executed | ExactSize.HintUnderstates, ExactSize.TenElementsCounterexample | ExactSize.CorrectedSizeHint |
| src/lib.rs:72 | `nth` skips `n * read_size` elements, and also drops the read-ahead after the window it returns | the test's buffer `0..256`, `chunk_size` 32, `read_ahead` 4: `nth(1)` returns elements 36..72, but discarding one `next` and calling it again returns 32..68 | `nth(n)` is `n` discarded calls of `next` followed by one more, the meaning `Iterator::nth` has in the standard library | high; not executed | Skip.NthStrideDiffers, Scenarios.TestNthOne | Skip.NthFixed |
