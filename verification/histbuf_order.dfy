/** The chronological reading of a `HistoryBuffer` and the properties that
    relate the single-element `write`, the bulk extends and the drop
    discipline to it.

    The physical slice is unordered; the chronological view lists the live
    values from oldest to newest. Before the buffer fills that is the live
    prefix; afterwards the oldest value sits under the cursor, so the view
    reads from the cursor to the end and then wraps to the start. */
module HistBufOrder {

  import opened Options
  import opened HistBuf

  /** The cells of the history, oldest first. */
  function ChronologicalCells<T>(b: HistoryBuffer<T>): seq<Option<T>>
    requires Valid(b)
  {
    if b.filled then b.data[b.writeAt..] + b.data[..b.writeAt] else b.data[..b.writeAt]
  }

  /** The live values, oldest first. */
  function Chronological<T>(b: HistoryBuffer<T>): (r: seq<T>)
    requires Valid(b)
    ensures |r| == Len(b)
  {
    Values(ChronologicalCells(b))
  }

  /** The last `n` elements of `s` (all of `s` when it is shorter). */
  function Window<T>(s: seq<T>, n: nat): (r: seq<T>)
    ensures |r| == if |s| < n then |s| else n
    ensures r == s[|s| - |r|..]
  {
    if |s| <= n then s else s[|s| - n..]
  }

  lemma ValuesAppend<T>(a: seq<Option<T>>, c: seq<Option<T>>)
    requires forall i | 0 <= i < |a| :: a[i].Some?
    requires forall i | 0 <= i < |c| :: c[i].Some?
    ensures Values(a + c) == Values(a) + Values(c)
  {
    assert forall i | 0 <= i < |a + c| :: (a + c)[i].Some?;
  }

  lemma ValuesSuffix<T>(a: seq<Option<T>>, k: nat)
    requires k <= |a|
    requires forall i | 0 <= i < |a| :: a[i].Some?
    ensures Values(a[k..]) == Values(a)[k..]
  {
  }

  /** The physical slice and the chronological view hold the same values:
      `as_slice` is a rotation of the history. */
  lemma {:induction false} SliceIsRotation<T>(b: HistoryBuffer<T>)
    requires Valid(b)
    ensures multiset(AsSlice(b)) == multiset(Chronological(b))
  {
    if b.filled {
      var w := b.writeAt;
      assert b.data[..Len(b)] == b.data[..w] + b.data[w..];
      ValuesAppend(b.data[..w], b.data[w..]);
      ValuesAppend(b.data[w..], b.data[..w]);
    }
  }

  /** `write` on a buffer that has not filled appends to the history. */
  lemma WriteAppendsWhenPartial<T>(b: HistoryBuffer<T>, t: T)
    requires Valid(b)
    requires Capacity(b) > 0
    requires !b.filled
    ensures Chronological(Write(b, t).buf) == Chronological(b) + [t]
    ensures Write(b, t).finalized == []
  {
    var r := Write(b, t);
    var w := b.writeAt;
    assert ChronologicalCells(r.buf) == ChronologicalCells(b) + [Some(t)];
    ValuesAppend(ChronologicalCells(b), [Some(t)]);
  }

  /** On a filled buffer, `write` moves the cell under the cursor (the
      oldest) out of the chronological cell order and appends the new cell. */
  lemma WriteRotatesCells<T>(b: HistoryBuffer<T>, t: T)
    requires Valid(b)
    requires Capacity(b) > 0
    requires b.filled
    ensures ChronologicalCells(Write(b, t).buf) == ChronologicalCells(b)[1..] + [Some(t)]
  {
    var d := Write(b, t).buf.data;
    var w := b.writeAt;
    assert d == b.data[w := Some(t)];
    assert d[..w] == b.data[..w];
    if w + 1 == |b.data| {
      assert d == b.data[..w] + [Some(t)];
    } else {
      assert d[w + 1..] == b.data[w + 1..];
      assert d[..w + 1] == b.data[..w] + [Some(t)];
      assert b.data[w..] == [b.data[w]] + b.data[w + 1..];
    }
  }

  /** `write` on a filled buffer drops the oldest value from the history
      and appends the new one. */
  lemma WriteRotatesWhenFilled<T>(b: HistoryBuffer<T>, t: T)
    requires Valid(b)
    requires Capacity(b) > 0
    requires b.filled
    ensures Chronological(Write(b, t).buf) == Chronological(b)[1..] + [t]
    ensures Write(b, t).finalized == [Chronological(b)[0]]
  {
    var cells := ChronologicalCells(b);
    assert cells[0] == b.data[b.writeAt];
    WriteRotatesCells(b, t);
    ValuesAppend(cells[1..], [Some(t)]);
    ValuesSuffix(cells, 1);
    assert Values([Some(t)]) == [t];
  }

  /** One `write` appends `t` to the history; when the buffer was already
      full it evicts exactly the oldest value, and that is the value
      finalized. */
  lemma {:induction false} WriteAppendsNewest<T>(b: HistoryBuffer<T>, t: T)
    requires Valid(b)
    requires Capacity(b) > 0
    ensures Len(b) < Capacity(b) ==>
      && Chronological(Write(b, t).buf) == Chronological(b) + [t]
      && Write(b, t).finalized == []
    ensures Len(b) == Capacity(b) ==>
      && Chronological(Write(b, t).buf) == Chronological(b)[1..] + [t]
      && Write(b, t).finalized == [Chronological(b)[0]]
  {
    if b.filled {
      WriteRotatesWhenFilled(b, t);
    } else {
      WriteAppendsWhenPartial(b, t);
    }
  }

  /** Appending to a sequence no longer than the window keeps it whole or
      drops its first element. */
  lemma WindowSnoc<T>(s: seq<T>, x: T, n: nat)
    requires 0 < n
    requires |s| <= n
    ensures Window(s + [x], n) == if |s| < n then s + [x] else s[1..] + [x]
  {
    if |s| == n {
      assert (s + [x])[1..] == s[1..] + [x];
    }
  }

  /** Taking the window before appending changes nothing. */
  lemma WindowOfWindow<T>(s: seq<T>, x: T, n: nat)
    requires n > 0
    ensures Window(Window(s, n) + [x], n) == Window(s + [x], n)
  {
    if |s| > n {
      assert (Window(s, n) + [x])[1..] == (s + [x])[|s| + 1 - n..];
    }
  }

  /** After `write(t)` the history is the window of the last N values, and
      the value finalized (if any) is the one that left the window. */
  lemma {:induction false} WriteKeepsWindow<T>(b: HistoryBuffer<T>, t: T)
    requires Valid(b)
    requires Capacity(b) > 0
    ensures Chronological(Write(b, t).buf) == Window(Chronological(b) + [t], Capacity(b))
    ensures Write(b, t).finalized + Chronological(Write(b, t).buf) == Chronological(b) + [t]
  {
    var c := Chronological(b);
    WriteAppendsNewest(b, t);
    WindowSnoc(c, t, Capacity(b));
    if Len(b) == Capacity(b) {
      assert [c[0]] + (c[1..] + [t]) == c + [t];
    }
  }

  /** `recent` is the newest value of the history. */
  lemma {:induction false} RecentIsNewest<T>(b: HistoryBuffer<T>)
    requires Valid(b)
    requires Capacity(b) > 0 || !b.filled
    ensures Recent(b) == if Len(b) == 0 then None else Some(Chronological(b)[Len(b) - 1])
  {
    if b.filled && b.writeAt > 0 {
      var w := b.writeAt;
      assert Chronological(b)[Len(b) - 1] == Values(b.data[..w])[w - 1];
    }
  }

  /** Extending by `xs + [x]` is extending by `xs` and then writing `x`. */
  lemma ExtendSnoc<T>(b: HistoryBuffer<T>, xs: seq<T>, x: T)
    requires Valid(b)
    requires Capacity(b) > 0
    ensures Extend(b, xs + [x]).buf == Write(Extend(b, xs).buf, x).buf
    ensures Extend(b, xs + [x]).finalized == Extend(b, xs).finalized + Write(Extend(b, xs).buf, x).finalized
  {
    assert (xs + [x])[..|xs|] == xs;
  }

  /** Bulk writes compose: extending by `xs` and then by `ys` is extending
      by `xs + ys`, so a `write` followed by an extend, or two extends in a
      row, is one fold over the concatenated input. */
  lemma {:induction false} ExtendAppend<T>(b: HistoryBuffer<T>, xs: seq<T>, ys: seq<T>)
    requires Valid(b)
    requires Capacity(b) > 0
    ensures Extend(b, xs + ys).buf == Extend(Extend(b, xs).buf, ys).buf
    ensures Extend(b, xs + ys).finalized == Extend(b, xs).finalized + Extend(Extend(b, xs).buf, ys).finalized
    decreases |ys|
  {
    if ys == [] {
      assert xs + ys == xs;
    } else {
      var zs := ys[..|ys| - 1];
      var y := ys[|ys| - 1];
      assert ys == zs + [y];
      assert xs + ys == (xs + zs) + [y];
      var mid := Extend(b, xs);
      var left := Extend(b, xs + zs);
      var right := Extend(mid.buf, zs);
      var last := Write(left.buf, y);
      ExtendAppend(b, xs, zs);
      assert left.buf == right.buf && left.finalized == mid.finalized + right.finalized;
      ExtendSnoc(b, xs + zs, y);
      ExtendSnoc(mid.buf, zs, y);
      assert Extend(b, xs + ys).finalized == (mid.finalized + right.finalized) + last.finalized;
      assert Extend(mid.buf, ys).finalized == right.finalized + last.finalized;
      RegroupAppend(Extend(b, xs + ys).finalized, left.finalized, mid.finalized, right.finalized, last.finalized);
    }
  }

  /** The bookkeeping step of the induction above, on plain sequences: the
      values finalized by the whole extend split as those of the first part
      followed by those of the rest. */
  lemma RegroupAppend<T>(whole: seq<T>, left: seq<T>, first: seq<T>, rest: seq<T>, last: seq<T>)
    requires left == first + rest
    requires whole == left + last
    ensures whole == first + (rest + last)
  {
  }

  /** The left-fold equation: extending by `[x] + xs` writes `x` first and
      then extends the resulting state by `xs`. */
  lemma {:induction false} ExtendCons<T>(b: HistoryBuffer<T>, x: T, xs: seq<T>)
    requires Valid(b)
    requires Capacity(b) > 0
    ensures Extend(b, [x] + xs).buf == Extend(Write(b, x).buf, xs).buf
    ensures Extend(b, [x] + xs).finalized == Write(b, x).finalized + Extend(Write(b, x).buf, xs).finalized
  {
    var first := Write(b, x);
    assert [x][..0] == [];
    assert [] + first.finalized == first.finalized;
    assert Extend(b, [x]) == Step(first.buf, first.finalized);
    ExtendAppend(b, [x], xs);
  }

  /** Every value that was live or was written is, after the extend, either
      finalized or still live, exactly once and in the order it was
      written; the values still live are the last N of them. */
  lemma {:induction false} ExtendConservesHistory<T>(b: HistoryBuffer<T>, xs: seq<T>)
    requires Valid(b)
    requires Capacity(b) > 0
    ensures Extend(b, xs).finalized + Chronological(Extend(b, xs).buf) == Chronological(b) + xs
    ensures Chronological(Extend(b, xs).buf) == Window(Chronological(b) + xs, Capacity(b))
    decreases |xs|
  {
    if xs != [] {
      var ys := xs[..|xs| - 1];
      var x := xs[|xs| - 1];
      assert xs == ys + [x];
      var c := Chronological(b);
      assert c + xs == (c + ys) + [x];
      ExtendConservesHistory(b, ys);
      var mid := Extend(b, ys);
      var last := Write(mid.buf, x);
      assert Extend(b, xs) == Step(last.buf, mid.finalized + last.finalized);
      WriteKeepsWindow(mid.buf, x);
      Regroup(mid.finalized, last.finalized, Chronological(last.buf), Chronological(mid.buf), c, ys, x);
      WindowOfWindow(c + ys, x, Capacity(b));
      var e := Extend(b, xs);
      assert e.buf == last.buf && e.finalized == mid.finalized + last.finalized;
    }
  }

  /** The bookkeeping step of the induction above, on plain sequences. */
  lemma Regroup<T>(done: seq<T>, now: seq<T>, live: seq<T>, before: seq<T>, c: seq<T>, ys: seq<T>, x: T)
    requires done + before == c + ys
    requires now + live == before + [x]
    ensures (done + now) + live == c + (ys + [x])
  {
    calc {
      (done + now) + live;
      done + (now + live);
      done + (before + [x]);
      (done + before) + [x];
      (c + ys) + [x];
      c + (ys + [x]);
    }
  }

  /** From `new`, after writing `xs` the buffer holds min(|xs|, N) values,
      the last N written, oldest first; `recent` is the last one written. */
  lemma {:induction false} NewThenExtend<T>(n: nat, xs: seq<T>)
    requires n > 0
    ensures Len(Extend(New(n), xs).buf) == if |xs| < n then |xs| else n
    ensures Chronological(Extend(New(n), xs).buf) == Window(xs, n)
    ensures Recent(Extend(New(n), xs).buf) == if xs == [] then None else Some(xs[|xs| - 1])
  {
    var b: HistoryBuffer<T> := New(n);
    assert Chronological(b) == [];
    ExtendConservesHistory(b, xs);
    assert Chronological(b) + xs == xs;
    var e := Extend(b, xs).buf;
    RecentIsNewest(e);
  }

  /** Over a whole lifetime (`new`, any writes, then drop) every written
      value is finalized exactly once: the multiset of finalized values
      equals the multiset of written values. */
  lemma {:induction false} LifetimeFinalizesEachOnce<T>(n: nat, xs: seq<T>)
    requires n > 0
    ensures multiset(Extend(New(n), xs).finalized + Drop(Extend(New(n), xs).buf)) == multiset(xs)
  {
    var b: HistoryBuffer<T> := New(n);
    var e := Extend(b, xs);
    ExtendConservesHistory(b, xs);
    assert Chronological(b) + xs == xs;
    SliceIsRotation(e.buf);
    assert multiset(e.finalized + Chronological(e.buf)) == multiset(xs);
  }

  /** `extend_from_slice`: the source's loop, one `write` per element in
      input order. Its result is the left fold `Extend`. */
  method ExtendFromSlice<T>(b: HistoryBuffer<T>, other: seq<T>) returns (r: HistoryBuffer<T>, finalized: seq<T>)
    requires Valid(b)
    requires Capacity(b) > 0 || other == []
    ensures Valid(r)
    ensures r == Extend(b, other).buf
    ensures finalized == Extend(b, other).finalized
    ensures finalized + Chronological(r) == Chronological(b) + other
  {
    r := b;
    finalized := [];
    if other == [] {
      return;
    }
    var i := 0;
    while i < |other|
      invariant 0 <= i <= |other|
      invariant Valid(r)
      invariant r == Extend(b, other[..i]).buf
      invariant finalized == Extend(b, other[..i]).finalized
    {
      assert other[..i + 1] == other[..i] + [other[i]];
      var s := Write(r, other[i]);
      ExtendSnoc(b, other[..i], other[i]);
      r := s.buf;
      finalized := finalized + s.finalized;
      i := i + 1;
    }
    assert other[..i] == other;
    ExtendConservesHistory(b, other);
  }
}
