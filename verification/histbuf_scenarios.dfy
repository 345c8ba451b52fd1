/** The physical-order scenarios of the source's unit tests and doc
    examples, on a buffer of capacity 4 (8 for the type-level example),
    stated as lemmas about the model. */
module HistBufScenarios {

  import opened Options
  import opened HistBuf
  import HistBufOrder

  /** `new_with(1)` holds four ones; `new()` holds nothing. */
  lemma NewScenario()
    ensures Len(NewWith(4, 1)) == 4
    ensures AsSlice(NewWith(4, 1)) == [1, 1, 1, 1]
    ensures AsSlice(New<int>(4)) == []
    ensures Recent(New<int>(4)) == None
  {
  }

  /** One concrete `write`: from `b`, writing `t` gives `b'`. */
  lemma WriteStep(b: HistoryBuffer<int>, t: int, b': HistoryBuffer<int>)
    requires Valid(b) && Capacity(b) > 0
    requires b' == (var d := b.data[b.writeAt := Some(t)];
      if b.writeAt + 1 == |b.data| then HistoryBuffer(d, 0, true) else HistoryBuffer(d, b.writeAt + 1, b.filled))
    ensures Write(b, t).buf == b'
  {
  }

  // The states of the source's `write` test, cell by cell.
  const W2: HistoryBuffer<int> := HistoryBuffer([Some(1), Some(4), None, None], 2, false)
  const W5: HistoryBuffer<int> := HistoryBuffer([Some(10), Some(4), Some(5), Some(6)], 1, true)
  const W7: HistoryBuffer<int> := HistoryBuffer([Some(10), Some(11), Some(12), Some(6)], 3, true)

  /** The source's `write` and `recent` tests, first part: writing 1 and 4
      to an empty buffer fills the first two cells in order. */
  lemma WriteOneFour()
    ensures Write(Write(New<int>(4), 1).buf, 4).buf == W2
    ensures AsSlice(W2) == [1, 4]
    ensures Recent(W2) == Some(4)
  {
    var b1 := HistoryBuffer([Some(1), None, None, None], 1, false);
    WriteStep(New<int>(4), 1, b1);
    WriteStep(b1, 4, W2);
  }

  /** Second part: writing 5, 6 and 10 fills the buffer, wraps the cursor
      and overwrites the oldest value, in cell 0; `recent` reads cell 0. */
  lemma WriteFiveSixTen()
    ensures Write(Write(Write(W2, 5).buf, 6).buf, 10).buf == W5
    ensures AsSlice(W5) == [10, 4, 5, 6]
    ensures Recent(W5) == Some(10)
  {
    var b3 := HistoryBuffer([Some(1), Some(4), Some(5), None], 3, false);
    var b4 := HistoryBuffer([Some(1), Some(4), Some(5), Some(6)], 0, true);
    WriteStep(W2, 5, b3);
    WriteStep(b3, 6, b4);
    WriteStep(b4, 10, W5);
  }

  const W6: HistoryBuffer<int> := HistoryBuffer([Some(10), Some(11), Some(5), Some(6)], 2, true)

  lemma ExtendEleven()
    ensures Extend(W5, [11]).buf == W6
  {
    WriteStep(W5, 11, W6);
    assert [11][..0] == [];
  }

  /** Third part: extending by 11 and 12 overwrites cells 1 and 2. */
  lemma ExtendElevenTwelve()
    ensures Extend(W5, [11, 12]).buf == W7
    ensures AsSlice(W7) == [10, 11, 12, 6]
  {
    ExtendEleven();
    WriteStep(W6, 12, W7);
    ExtendNext(W5, [11], 12, W6, W7);
    assert [11] + [12] == [11, 12];
  }

  /** One more element of a bulk write, from a known state. */
  lemma ExtendNext(b: HistoryBuffer<int>, xs: seq<int>, x: int, before: HistoryBuffer<int>, after: HistoryBuffer<int>)
    requires Valid(b) && Capacity(b) > 0
    requires Extend(b, xs).buf == before
    requires Write(before, x).buf == after
    ensures Extend(b, xs + [x]).buf == after
  {
    HistBufOrder.ExtendSnoc(b, xs, x);
  }

  // The states of the source's `as_slice` test after each element.
  const A1: HistoryBuffer<int> := HistoryBuffer([Some(1), None, None, None], 1, false)
  const A2: HistoryBuffer<int> := HistoryBuffer([Some(1), Some(2), None, None], 2, false)
  const A3: HistoryBuffer<int> := HistoryBuffer([Some(1), Some(2), Some(3), None], 3, false)
  const A4: HistoryBuffer<int> := HistoryBuffer([Some(1), Some(2), Some(3), Some(4)], 0, true)
  const A5: HistoryBuffer<int> := HistoryBuffer([Some(5), Some(2), Some(3), Some(4)], 1, true)

  lemma ExtendToA2()
    ensures Extend(New<int>(4), [1, 2]).buf == A2
  {
    WriteStep(New<int>(4), 1, A1);
    assert [1][..0] == [];
    WriteStep(A1, 2, A2);
    ExtendNext(New<int>(4), [1], 2, A1, A2);
    assert [1] + [2] == [1, 2];
  }

  lemma ExtendToA3()
    ensures Extend(New<int>(4), [1, 2, 3]).buf == A3
  {
    ExtendToA2();
    WriteStep(A2, 3, A3);
    ExtendNext(New<int>(4), [1, 2], 3, A2, A3);
    assert [1, 2] + [3] == [1, 2, 3];
  }

  lemma ExtendToA4()
    ensures Extend(New<int>(4), [1, 2, 3, 4]).buf == A4
  {
    ExtendToA3();
    WriteStep(A3, 4, A4);
    ExtendNext(New<int>(4), [1, 2, 3], 4, A3, A4);
    assert [1, 2, 3] + [4] == [1, 2, 3, 4];
  }

  /** The source's `as_slice` test: extending an empty buffer by 1..5
      leaves 5 in cell 0 and the oldest survivor, 2, in its original cell. */
  lemma AsSliceScenario()
    ensures Extend(New<int>(4), [1, 2, 3, 4, 5]).buf == A5
    ensures AsSlice(A5) == [5, 2, 3, 4]
  {
    ExtendToA4();
    WriteStep(A4, 5, A5);
    ExtendNext(New<int>(4), [1, 2, 3, 4], 5, A4, A5);
    assert [1, 2, 3, 4] + [5] == [1, 2, 3, 4, 5];
  }

  /** `clear` on a filled buffer empties it; `clear_with(1)` on an empty one
      fills every cell with 1. */
  lemma ClearScenario()
    ensures AsSlice(Clear(NewWith(4, 1)).buf) == []
    ensures Clear(NewWith(4, 1)).finalized == [1, 1, 1, 1]
    ensures AsSlice(ClearWith(New<int>(4), 1).buf) == [1, 1, 1, 1]
    ensures ClearWith(New<int>(4), 1).finalized == []
  {
  }

  /** The type-level documentation example: on capacity 8, writing 3 and 5
      and then extending by 4, 4 makes 4 the most recent value. */
  lemma RecentDocScenario()
    ensures Recent(New<int>(8)) == None
    ensures Recent(Extend(Write(Write(New<int>(8), 3).buf, 5).buf, [4, 4]).buf) == Some(4)
  {
  }
}
