/** A model of `HistoryBuffer<T, N>` (src/histbuf.rs): a fixed-capacity ring
    buffer that overwrites its oldest element once it is full.

    The backing array of `MaybeUninit<T>` cells is a sequence of optional
    values: `Some(v)` is a live (initialized) cell, `None` a dead one. The
    operations below never consult that distinction to decide what to do;
    like the source they decide from the write cursor and the `filled` flag
    alone. `Valid` states that the two views agree, and every read of a cell's
    value (`.value`) is a proof obligation that the cell is live, which is
    what makes the source's unchecked reads and `drop_in_place` calls sound.

    Finalization (running `T`'s destructor) is modelled as an event: each
    operation that finalizes values returns them, in order, in a `Step`. */
module HistBuf {

  import opened Options

  /** `data` is the backing array; its length is the capacity N, fixed for
      the lifetime of the buffer. `writeAt` is the next cell to be written. */
  datatype HistoryBuffer<T> = HistoryBuffer(data: seq<Option<T>>, writeAt: nat, filled: bool)

  /** The state after a mutating operation together with the values the
      operation finalized, in the order it finalized them. */
  datatype Step<T> = Step(buf: HistoryBuffer<T>, finalized: seq<T>)

  /** The representation invariant: the cursor is an index of the backing
      array (or 0 when there is no cell at all), and a cell is live exactly
      when the buffer has filled or the cell lies before the cursor. */
  predicate Valid<T>(b: HistoryBuffer<T>)
  {
    && (if |b.data| == 0 then b.writeAt == 0 else b.writeAt < |b.data|)
    && forall i | 0 <= i < |b.data| :: b.data[i].Some? <==> (b.filled || i < b.writeAt)
  }

  /** The values held by a run of cells that are all live. */
  function Values<T>(cells: seq<Option<T>>): (r: seq<T>)
    requires forall i | 0 <= i < |cells| :: cells[i].Some?
    ensures |r| == |cells|
    ensures forall i | 0 <= i < |r| :: cells[i] == Some(r[i])
  {
    seq(|cells|, i requires 0 <= i < |cells| => cells[i].value)
  }

  /** `capacity`: the length of the backing array. */
  function Capacity<T>(b: HistoryBuffer<T>): nat
  {
    |b.data|
  }

  /** `new`: every cell dead, cursor at 0, not filled. */
  function New<T>(n: nat): (r: HistoryBuffer<T>)
    ensures Valid(r)
    ensures Capacity(r) == n
    ensures Len(r) == 0
    ensures AsSlice(r) == []
    ensures forall i | 0 <= i < n :: r.data[i].None?
  {
    HistoryBuffer(seq(n, _ => None), 0, false)
  }

  /** `new_with`: every cell live and holding `t`, cursor at 0, filled. */
  function NewWith<T>(n: nat, t: T): (r: HistoryBuffer<T>)
    ensures Valid(r)
    ensures Capacity(r) == n
    ensures Len(r) == n
    ensures |AsSlice(r)| == n
    ensures forall i | 0 <= i < n :: AsSlice(r)[i] == t
  {
    HistoryBuffer(seq(n, _ => Some(t)), 0, true)
  }

  /** `len`: N once filled, otherwise the cursor. The live cells are exactly
      the first `len` cells of the backing array. */
  function Len<T>(b: HistoryBuffer<T>): (r: nat)
    requires Valid(b)
    ensures r <= Capacity(b)
    ensures forall i | 0 <= i < |b.data| :: b.data[i].Some? <==> i < r
  {
    if b.filled then |b.data| else b.writeAt
  }

  /** `as_slice`: the values of the first `len` cells, in physical order.
      Reading them is sound because exactly those cells are live. */
  function AsSlice<T>(b: HistoryBuffer<T>): (r: seq<T>)
    requires Valid(b)
    ensures |r| == Len(b)
    ensures forall i | 0 <= i < |r| :: b.data[i] == Some(r[i])
  {
    Values(b.data[..Len(b)])
  }

  /** `recent`: the element in the cell just before the cursor, wrapping to
      the last cell when the cursor is 0 and the buffer has filled. The
      source computes `capacity() - 1` in that case, which underflows when
      N is 0, so a filled buffer of capacity 0 is excluded. */
  function Recent<T>(b: HistoryBuffer<T>): (r: Option<T>)
    requires Valid(b)
    requires Capacity(b) > 0 || !b.filled
    ensures r.None? <==> Len(b) == 0
    ensures r.None? <==> b.writeAt == 0 && !b.filled
    ensures r.Some? ==> Some(r.value) in b.data
  {
    if b.writeAt == 0 then
      if b.filled then Some(b.data[|b.data| - 1].value) else None
    else
      Some(b.data[b.writeAt - 1].value)
  }

  /** `write`: finalize the cell under the cursor if the buffer has filled,
      store `t` there, advance the cursor and wrap it (setting `filled`)
      when it reaches N. The source indexes `data[write_at]`, which panics
      when N is 0, hence the requirement on the capacity. */
  function Write<T>(b: HistoryBuffer<T>, t: T): (r: Step<T>)
    requires Valid(b)
    requires Capacity(b) > 0
    ensures Valid(r.buf)
    ensures Capacity(r.buf) == Capacity(b)
    // only the cell under the old cursor changes, and it now holds t
    ensures r.buf.data[b.writeAt] == Some(t)
    ensures forall i | 0 <= i < |b.data| && i != b.writeAt :: r.buf.data[i] == b.data[i]
    // the overwritten cell is finalized exactly when it was live
    ensures b.data[b.writeAt].Some? ==> r.finalized == [b.data[b.writeAt].value]
    ensures b.data[b.writeAt].None? ==> r.finalized == []
    ensures |r.finalized| == 1 <==> b.filled
    // the cursor advances by one modulo N; filled is monotone and is set
    // exactly when the cursor wraps
    ensures r.buf.writeAt == (b.writeAt + 1) % Capacity(b)
    ensures r.buf.filled <==> b.filled || r.buf.writeAt == 0
    ensures Len(r.buf) == if Len(b) < Capacity(b) then Len(b) + 1 else Capacity(b)
    ensures Recent(r.buf) == Some(t)
  {
    AdvanceWraps(b.writeAt, |b.data|);
    var finalized := if b.filled then [b.data[b.writeAt].value] else [];
    var data := b.data[b.writeAt := Some(t)];
    if b.writeAt + 1 == |b.data| then
      Step(HistoryBuffer(data, 0, true), finalized)
    else
      Step(HistoryBuffer(data, b.writeAt + 1, b.filled), finalized)
  }

  /** Advancing a cursor `w < n` by one modulo `n` is `w + 1`, or 0 when
      that reaches `n`. */
  lemma AdvanceWraps(w: nat, n: nat)
    requires w < n
    ensures (w + 1) % n == if w + 1 == n then 0 else w + 1
  {
  }

  /** The `Extend<T>` impl: a left fold of `write` over the input, collecting
      the values finalized along the way; the last element is written last.
      The `Extend<&T>` impl clones each element and forwards here; cloning a
      value is the identity in the model, so both impls are this fold. */
  function Extend<T>(b: HistoryBuffer<T>, xs: seq<T>): (r: Step<T>)
    requires Valid(b)
    requires Capacity(b) > 0 || xs == []
    ensures Valid(r.buf)
    ensures Capacity(r.buf) == Capacity(b)
    ensures Len(r.buf) == if Len(b) + |xs| < Capacity(b) then Len(b) + |xs| else Capacity(b)
    ensures b.filled ==> r.buf.filled
    decreases |xs|
  {
    if xs == [] then
      Step(b, [])
    else
      var done := Extend(b, xs[..|xs| - 1]);
      var last := Write(done.buf, xs[|xs| - 1]);
      Step(last.buf, done.finalized + last.finalized)
  }

  /** `Drop`: finalizes the first `len` cells. These are exactly the live
      cells: every live cell is finalized once, and every cell left out is
      dead, so nothing leaks and nothing uninitialized is finalized. */
  function Drop<T>(b: HistoryBuffer<T>): (r: seq<T>)
    requires Valid(b)
    ensures |r| == Len(b)
    ensures forall i | 0 <= i < |b.data| :: if i < |r| then b.data[i] == Some(r[i]) else b.data[i].None?
  {
    AsSlice(b)
  }

  /** `clear`: replaces the buffer by a new one, dropping the old value. */
  function Clear<T>(b: HistoryBuffer<T>): (r: Step<T>)
    requires Valid(b)
    ensures Valid(r.buf)
    ensures Capacity(r.buf) == Capacity(b)
    ensures Len(r.buf) == 0 && AsSlice(r.buf) == []
    ensures r.buf == New(Capacity(b))
    ensures |r.finalized| == Len(b)
    ensures forall i | 0 <= i < |r.finalized| :: b.data[i] == Some(r.finalized[i])
  {
    Step(New(|b.data|), Drop(b))
  }

  /** `clear_with`: replaces the buffer by `new_with(t)`, dropping the old value. */
  function ClearWith<T>(b: HistoryBuffer<T>, t: T): (r: Step<T>)
    requires Valid(b)
    ensures Valid(r.buf)
    ensures Capacity(r.buf) == Capacity(b)
    ensures r.buf == NewWith(Capacity(b), t)
    ensures Len(r.buf) == Capacity(b)
    ensures forall i | 0 <= i < |AsSlice(r.buf)| :: AsSlice(r.buf)[i] == t
    ensures |r.finalized| == Len(b)
    ensures forall i | 0 <= i < |r.finalized| :: b.data[i] == Some(r.finalized[i])
  {
    Step(NewWith(|b.data|, t), Drop(b))
  }
}
