# HistoryBuffer model

A Dafny model of `HistoryBuffer<T, N>` from the `heapless` crate. It is a
fixed-capacity ring buffer that keeps the N most recently written values and
overwrites the oldest one once it is full. It does no heap allocation.

The buffer's state is:
- a backing array of N `MaybeUninit<T>` cells;
- a write cursor `write_at`;
- a `filled` flag.

Whether a cell is live is never recorded per cell. It follows from the cursor
and the flag. Before the buffer fills, the cells `[0, write_at)` are live. Once
it has filled, every cell is live.

In the model:
- The backing array is a `seq<Option<T>>` (`HistBuf.HistoryBuffer`). `Some(v)`
  is a live cell and `None` a dead one. N is the length of that sequence, and
  every operation keeps it unchanged.
- The operations decide what to do from the cursor and the flag only, as the
  source does. `HistBuf.Valid` states that this bookkeeping agrees with which
  cells are physically live.
- Reading a cell's value (`.value`) is a proof obligation that the cell is
  live. Discharging it shows that the source's unchecked reads in `recent` and
  `as_slice`, and its `drop_in_place` calls in `write` and `Drop`, touch only
  initialized cells. This holds when no destructor unwinds (see "Left out").
- Finalization (running `T`'s destructor) is an event. Every mutating operation
  returns a `Step`: the new state plus the values it finalized, in order.

Modules:
- `Options`: the option type.
- `HistBuf`: the state, its invariant and the operations.
- `HistBufOrder`: the chronological (oldest-to-newest) reading of the buffer,
  and the lemmas that connect `write`, the bulk extends and `Drop` to it.
- `HistBufScenarios`: the unit tests and doc examples, written out cell by
  cell.

## Model

| member | source | states |
|---|---|---|
| HistBuf.New | src/histbuf.rs:58-64 | `new()` satisfies the invariant with capacity N: every cell is dead, `len` is 0 and `as_slice` is empty |
| HistBuf.NewWith | src/histbuf.rs:90-96 | `new_with(t)` satisfies the invariant: `len` is N and every element of `as_slice` equals `t` |
| HistBuf.Clear | src/histbuf.rs:68-70 | `clear()` gives exactly the `new()` state of the same capacity (`len` 0, empty slice); dropping the old value finalizes its `len` live cells, each once |
| HistBuf.ClearWith | src/histbuf.rs:99-101 | `clear_with(t)` gives exactly the `new_with(t)` state of the same capacity (cursor 0, filled), so `len == N` with every element `t`; the old value's live cells are finalized, each once |
| HistBuf.Len | src/histbuf.rs:107-113 | `len() <= capacity()` always, and the live cells are exactly the first `len()` cells of the backing array (so `len` is N when filled and `write_at` otherwise) |
| HistBuf.AsSlice | src/histbuf.rs:176-178 | the slice has `len` elements, and element i is the value of live cell i, in physical order |
| HistBuf.Recent | src/histbuf.rs:162-172 | `recent()` is `None` exactly when `len() == 0`, which is exactly when `write_at == 0 && !filled`; any value it returns is held by a cell; a filled buffer of capacity 0 is excluded, because `capacity() - 1` underflows there |
| HistBuf.Write | src/histbuf.rs:123-135 | keeps the invariant; changes only the cell at the old cursor, which now holds `t`; finalizes the old value there exactly when that cell was live, which is exactly when `filled`; the cursor moves by one modulo N; `filled` never goes back to false and becomes true exactly when the cursor wraps to 0; `len` grows by one up to N; afterwards `recent()` is `Some(t)`, including when the cursor has just wrapped |
| HistBuf.Extend | src/histbuf.rs:181-190 | the left fold of `write` over the input keeps the invariant and the capacity; `len` becomes `min(len + |xs|, N)`; `filled` stays true once set |
| HistBuf.Drop | src/histbuf.rs:204-213 | `Drop` finalizes exactly the live cells: one value per cell in `[0, len)`, and every cell after those is dead, so nothing leaks and no uninitialized cell is finalized |
| HistBufOrder.SliceIsRotation | src/histbuf.rs:174-178 | the unordered physical slice holds the same values, as a multiset, as the oldest-to-newest history |
| HistBufOrder.WriteAppendsNewest | src/histbuf.rs:122-135 | before the buffer is full, `write(t)` appends `t` to the history and finalizes nothing; once it is full, `write(t)` evicts exactly the oldest value, and that value is the one finalized |
| HistBufOrder.WriteKeepsWindow | src/histbuf.rs:123-135 | after `write(t)` the history is the last N values of the old history followed by `t`; the values finalized followed by the new history are exactly the old history followed by `t` |
| HistBufOrder.RecentIsNewest | src/histbuf.rs:162-172 | `recent()` is the newest value of the history, or `None` when the history is empty |
| HistBufOrder.ExtendCons | src/histbuf.rs:186-188 | the left-fold equation: extending by `[x] + xs` writes `x` first and then extends the resulting state by `xs`, in both the final state and the finalized values |
| HistBufOrder.ExtendAppend | src/histbuf.rs:181-202 | an extend by `xs` followed by an extend by `ys` equals one extend by `xs + ys`, in both the final state and the finalized values |
| HistBufOrder.ExtendConservesHistory | src/histbuf.rs:137-148 | after an extend, every value that was live before or was written is either finalized or still live, exactly once and in write order; the values still live are the last N of them (not the last `len()`) |
| HistBufOrder.NewThenExtend | src/histbuf.rs:104-135 | from `new()`, after k writes, `len == min(k, N)`, the history is the last N values written, and `recent()` is the last value written, or `None` if k is 0 |
| HistBufOrder.LifetimeFinalizesEachOnce | src/histbuf.rs:204-213 | over a lifetime of `new()`, then any writes, then `Drop`, the values finalized are, as a multiset, exactly the values written: each is finalized once, none is missed and none is finalized twice (given destructors that do not unwind) |
| HistBufOrder.ExtendFromSlice | src/histbuf.rs:141-148 | the source's loop, one `write` per element in order, computes the same state and finalized values as the fold `Extend`; the values finalized followed by the new history are the old history followed by the input |
| HistBufScenarios.NewScenario | src/histbuf.rs:219-227 | at capacity 4, `new_with(1)` has `len` 4 and slice `[1,1,1,1]`; `new()` has an empty slice and `recent()` is `None` |
| HistBufScenarios.WriteOneFour | src/histbuf.rs:230-234 | at capacity 4, writing 1 then 4 to `new()` gives the physical slice `[1,4]`, and `recent()` is 4 |
| HistBufScenarios.WriteFiveSixTen | src/histbuf.rs:236-239 | then writing 5, 6 and 10 gives the physical slice `[10,4,5,6]`, and `recent()` is 10, read from cell 0 after the cursor has wrapped |
| HistBufScenarios.ExtendElevenTwelve | src/histbuf.rs:241-242 | then extending by `[11,12]` gives the physical slice `[10,11,12,6]` |
| HistBufScenarios.AsSliceScenario | src/histbuf.rs:271-280 | at capacity 4, extending `new()` by `[1,2,3,4,5]` gives the physical slice `[5,2,3,4]` |
| HistBufScenarios.ClearScenario | src/histbuf.rs:245-254 | `clear()` on `new_with(1)` gives an empty slice and finalizes the four ones; `clear_with(1)` on `new()` gives `[1,1,1,1]` and finalizes nothing |
| HistBufScenarios.RecentDocScenario | src/histbuf.rs:15-26 | at capacity 8, `recent()` starts as `None`; after writing 3 and 5 and then extending by `[4,4]` it is 4 |

## Left out

- `MaybeUninit`, raw pointers, `ptr::drop_in_place` and `slice::from_raw_parts` are not modelled as memory. A cell is an `Option`, and finalization is the list of values an operation returns.
- The `Extend<&T>` impl (src/histbuf.rs:192-202) clones each element and forwards to the `Extend<T>` impl. Cloning is the identity on model values, so both impls are `HistBuf.Extend`. The `IntoIterator` plumbing is replaced by a plain sequence.
- `capacity()` (src/histbuf.rs:118-120) is `HistBuf.Capacity`. That is a plain accessor with no contract of its own. That the capacity never changes is stated in the contract of every operation.
- `const fn` construction and the `INIT` constant (src/histbuf.rs:42, 58) have no behaviour beyond what `HistBuf.New` states.
- Finalization and `clone` are assumed not to panic; the model has no unwinding. An unwinding destructor at src/histbuf.rs:126 would leave `write` before line 128 with the buffer still filled and that cell still counted live, and `Drop` would then finalize it a second time. The exactly-once statements of `HistBuf.Drop` and `HistBufOrder.LifetimeFinalizesEachOnce` hold only for destructors that return normally.
- The `Copy`/`Clone` trait bounds are left out. So are the thread-safety concerns: the source synchronizes nothing.
- The rolling average and the printing loop in the type-level example (src/histbuf.rs:28-33) are caller code, not buffer logic.
- HistBuf.Write requires a capacity above 0. With N = 0 the source indexes `data[0]` and panics. It does not do nothing, so the model follows the code rather than treating the write as a no-op.
- HistBuf.Extend and HistBufOrder.ExtendFromSlice allow capacity 0 only with empty input, for the same reason.
- HistBuf.Recent excludes a filled buffer of capacity 0 (`new_with` at N = 0). There, the source computes `capacity() - 1` on a `usize` and panics.
- Integer width: `write_at` is a `nat`. It stays below N, so the source's `write_at += 1` can never overflow a `usize`, and no wrap-around needs modelling.
- The doc comment on `clear` (src/histbuf.rs:66-67) says every element is replaced by a default value. The code makes every cell dead, and the model follows the code.
- The doc comment on `extend_from_slice` (src/histbuf.rs:139-140) says that only the last `self.len()` elements are stored. The code stores the last N, and `HistBufOrder.ExtendConservesHistory` states that.
