/** A list that grows by one entry a time, each made from the list so far, the next number and a note. */
module Growing {
  import opened Sequences

  function Grow<R, N>(make: (seq<R>, int, N) -> R, rows: seq<R>, next: int, notes: seq<N>): (grown: seq<R>)
    ensures |grown| == |rows| + |notes|
  {
    if notes == [] then rows
    else
      var before := Grow(make, rows, next, notes[..|notes| - 1]);
      before + [make(before, next + |notes| - 1, notes[|notes| - 1])]
  }

  lemma GrowOne<R, N>(make: (seq<R>, int, N) -> R, rows: seq<R>, next: int, notes: seq<N>, note: N)
    ensures Grow(make, rows, next, notes + [note])
            == Grow(make, rows, next, notes) + [make(Grow(make, rows, next, notes), next + |notes|, note)]
  {
    SnocParts(notes, note);
  }

  /** Growing by more notes what has grown by some is growing by them all. */
  lemma {:induction false} GrowConcat<R, N>(make: (seq<R>, int, N) -> R, rows: seq<R>, next: int, first: seq<N>,
                                            second: seq<N>)
    ensures Grow(make, Grow(make, rows, next, first), next + |first|, second) == Grow(make, rows, next, first + second)
    decreases |second|
  {
    if second == [] {
      assert first + second == first;
    } else {
      var init, last := second[..|second| - 1], second[|second| - 1];
      GrowConcat(make, rows, next, first, init);
      ConcatSnoc(first, second);
      GrowOne(make, rows, next, first + init, last);
    }
  }
}
