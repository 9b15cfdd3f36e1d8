/** Evidence-index bands: a loop over the sorted list against a definition that does not sort. */
module Bands {
  import opened JsText
  import opened Sequences
  import opened Sorting

  datatype Band = Band(minIndex: real, band: string)

  // ---------------------------------------------------------------------------
  // Which band an index falls in, read off the unsorted list
  // ---------------------------------------------------------------------------

  /** Is `b`, listed after `a`, the better band for the index? */
  predicate Preferred(index: real, a: Band, b: Band) {
    if b.minIndex <= index then a.minIndex > index || b.minIndex >= a.minIndex
    else b.minIndex < a.minIndex && a.minIndex > index
  }

  function Pick(index: real, best: Option<Band>, b: Band): Option<Band> {
    if best.None? || Preferred(index, best.value, b) then Some(b) else best
  }

  function ChosenFrom(index: real, best: Option<Band>, bands: seq<Band>): Option<Band>
    decreases bands
  {
    if bands == [] then best else ChosenFrom(index, Pick(index, best, bands[0]), bands[1..])
  }

  function Chosen(index: real, bands: seq<Band>): Option<Band> {
    ChosenFrom(index, None, bands)
  }

  function BandName(index: real, bands: seq<Band>): string {
    var b := Chosen(index, bands);
    if b.None? then "Unbanded" else b.value.band
  }

  /** `b` has the greatest lower bound not above the index, or the lowest of all when every bound is above it. */
  predicate Fits(index: real, b: Band, bands: seq<Band>) {
    if b.minIndex <= index then forall o :: o in bands && o.minIndex <= index ==> o.minIndex <= b.minIndex
    else forall o :: o in bands ==> b.minIndex <= o.minIndex
  }

  lemma {:induction false} ChosenFromFits(index: real, best: Band, bands: seq<Band>)
    ensures ChosenFrom(index, Some(best), bands).Some?
    ensures Fits(index, ChosenFrom(index, Some(best), bands).value, [best] + bands)
    ensures ChosenFrom(index, Some(best), bands).value in [best] + bands
    decreases bands
  {
    if bands == [] {
    } else {
      var next := Pick(index, Some(best), bands[0]).value;
      ChosenFromFits(index, next, bands[1..]);
      var c := ChosenFrom(index, Some(next), bands[1..]).value;
      Cons(bands);
      forall o | o in [best] + bands
        ensures o == best || o == bands[0] || o in [next] + bands[1..]
      {
        assert o in [best] + ([bands[0]] + bands[1..]);
      }
      assert next in [next] + bands[1..];
      assert c in [best] + ([bands[0]] + bands[1..]);
    }
  }

  /** The chosen band is one of the list and fits the index; only an empty list has none. */
  lemma ChosenFits(index: real, bands: seq<Band>)
    ensures Chosen(index, bands).None? <==> bands == []
    ensures bands != [] ==> Chosen(index, bands).value in bands && Fits(index, Chosen(index, bands).value, bands)
  {
    if bands != [] {
      ChosenFromFits(index, bands[0], bands[1..]);
      Cons(bands);
    }
  }

  /** `i` is the place of the band an index falls in: the last of the greatest bounds not above it, if there are any. */
  predicate FallsIn(index: real, bands: seq<Band>, i: nat)
    requires i < |bands|
  {
    if exists j :: 0 <= j < |bands| && bands[j].minIndex <= index then
      && bands[i].minIndex <= index
      && forall j :: 0 <= j < |bands| && bands[j].minIndex <= index ==>
           bands[j].minIndex < bands[i].minIndex || (bands[j].minIndex == bands[i].minIndex && j <= i)
    else
      forall j :: 0 <= j < |bands| ==>
        bands[i].minIndex < bands[j].minIndex || (bands[i].minIndex == bands[j].minIndex && i <= j)
  }

  lemma ChosenSnoc(index: real, best: Option<Band>, bands: seq<Band>, b: Band)
    ensures ChosenFrom(index, best, bands + [b]) == Pick(index, ChosenFrom(index, best, bands), b)
    decreases bands
  {
    if bands == [] {
      assert [] + [b] == [b] && [b][1..] == [];
    } else {
      ChosenSnoc(index, Pick(index, best, bands[0]), bands[1..], b);
      assert (bands + [b])[1..] == bands[1..] + [b];
    }
  }

  lemma FallsInLater(index: real, bands: seq<Band>, b: Band, i: nat)
    requires i < |bands| && FallsIn(index, bands, i)
    ensures FallsIn(index, bands + [b], if Preferred(index, bands[i], b) then |bands| else i)
  {
    var more := bands + [b];
    assert more[|bands|] == b && forall j :: 0 <= j < |bands| ==> more[j] == bands[j];
    if j :| 0 <= j < |bands| && bands[j].minIndex <= index {
      assert more[j].minIndex <= index;
    }
  }

  lemma {:induction false} ChosenAt(index: real, bands: seq<Band>) returns (i: nat)
    requires bands != []
    ensures i < |bands| && Chosen(index, bands) == Some(bands[i]) && FallsIn(index, bands, i)
  {
    var n := |bands| - 1;
    Snoc(bands);
    ChosenSnoc(index, None, bands[..n], bands[n]);
    if n == 0 {
      i := 0;
      assert Chosen(index, bands[..0]) == None;
    } else {
      var k := ChosenAt(index, bands[..n]);
      FallsInLater(index, bands[..n], bands[n], k);
      i := if Preferred(index, bands[k], bands[n]) then n else k;
    }
  }

  /**
   * The name of the band: that of the last listed among the greatest bounds not above the index; when all are above
   * it, that of the first listed among the lowest; `Unbanded` when there is no band.
   */
  lemma BandNamed(index: real, bands: seq<Band>)
    ensures bands == [] ==> BandName(index, bands) == "Unbanded"
    ensures bands != [] ==>
              exists i :: 0 <= i < |bands| && FallsIn(index, bands, i) && BandName(index, bands) == bands[i].band
  {
    if bands != [] {
      var i := ChosenAt(index, bands);
    }
  }

  predicate DistinctBounds(bands: seq<Band>) {
    forall i, j :: 0 <= i < j < |bands| ==> bands[i].minIndex != bands[j].minIndex
  }

  lemma FitsOnce(index: real, bands: seq<Band>, a: Band, b: Band)
    requires DistinctBounds(bands) && a in bands && b in bands && Fits(index, a, bands) && Fits(index, b, bands)
    ensures a == b
  {
    assert a.minIndex == b.minIndex;
  }

  /** With distinct bounds the order in which the bands are listed does not matter. */
  lemma OrderOfBandsIrrelevant(index: real, bands: seq<Band>, listed: seq<Band>)
    requires DistinctBounds(bands) && multiset(bands) == multiset(listed)
    ensures BandName(index, bands) == BandName(index, listed)
  {
    if bands == [] {
      assert |multiset(listed)| == 0;
    } else {
      assert bands[0] in multiset(listed);
      ChosenFits(index, bands);
      ChosenFits(index, listed);
      var a, b := Chosen(index, bands).value, Chosen(index, listed).value;
      forall o: Band
        ensures o in bands <==> o in listed
      {
        assert o in bands <==> o in multiset(bands);
        assert o in listed <==> o in multiset(listed);
      }
      FitsOnce(index, bands, a, b);
    }
  }

  /** A higher index never lands in a band with a lower bound. */
  lemma ChosenMonotone(lower: real, higher: real, bands: seq<Band>)
    requires bands != [] && lower <= higher
    ensures Chosen(lower, bands).Some? && Chosen(higher, bands).Some?
    ensures Chosen(lower, bands).value.minIndex <= Chosen(higher, bands).value.minIndex
  {
    ChosenFits(lower, bands);
    ChosenFits(higher, bands);
  }

  // ---------------------------------------------------------------------------
  // The loop
  // ---------------------------------------------------------------------------

  predicate NotAbove(a: Band, b: Band) {
    a.minIndex <= b.minIndex
  }

  /** A stable sort by lower bound. */
  function Sorted(bands: seq<Band>): seq<Band> {
    Sort(bands, NotAbove)
  }

  /** The sort is a permutation in ascending order. */
  lemma SortAscending(bands: seq<Band>)
    ensures Ordered(Sorted(bands), NotAbove) && multiset(Sorted(bands)) == multiset(bands)
    ensures forall i, j :: 0 <= i < j < |bands| ==> Sorted(bands)[i].minIndex <= Sorted(bands)[j].minIndex
  {
    SortMembers(bands, NotAbove);
    SortOrdered(bands, NotAbove);
    forall i, j | 0 <= i < j < |bands|
      ensures Sorted(bands)[i].minIndex <= Sorted(bands)[j].minIndex
    {
      OrderedAt(Sorted(bands), NotAbove, i, j);
    }
  }

  lemma PickCommutes(index: real, best: Option<Band>, a: Band, b: Band)
    requires a.minIndex != b.minIndex
    ensures Pick(index, Pick(index, best, a), b) == Pick(index, Pick(index, best, b), a)
  {
  }

  lemma ChosenFromCons(index: real, best: Option<Band>, b: Band, rest: seq<Band>)
    ensures ChosenFrom(index, best, [b] + rest) == ChosenFrom(index, Pick(index, best, b), rest)
  {
    assert ([b] + rest)[1..] == rest;
  }

  lemma {:induction false} InsertKeepsChoice(index: real, best: Option<Band>, b: Band, sorted: seq<Band>)
    ensures ChosenFrom(index, best, Insert(b, sorted, NotAbove)) == ChosenFrom(index, Pick(index, best, b), sorted)
    decreases sorted
  {
    if sorted == [] || b.minIndex <= sorted[0].minIndex {
      ChosenFromCons(index, best, b, sorted);
    } else {
      ChosenFromCons(index, best, sorted[0], Insert(b, sorted[1..], NotAbove));
      InsertKeepsChoice(index, Pick(index, best, sorted[0]), b, sorted[1..]);
      PickCommutes(index, best, b, sorted[0]);
    }
  }

  lemma {:induction false} SortKeepsChoice(index: real, best: Option<Band>, bands: seq<Band>)
    ensures ChosenFrom(index, best, Sorted(bands)) == ChosenFrom(index, best, bands)
    decreases bands
  {
    if bands == [] {
    } else {
      InsertKeepsChoice(index, best, bands[0], Sorted(bands[1..]));
      SortKeepsChoice(index, Pick(index, best, bands[0]), bands[1..]);
    }
  }

  /** `bandForIndex`: the loop over the sorted bands finds the band the unsorted list determines. */
  method BandForIndex(index: real, bands: seq<Band>) returns (current: string)
    ensures current == BandName(index, bands)
  {
    var sorted := Sorted(bands);
    SortAscending(bands);
    SortKeepsChoice(index, None, bands);
    current := if sorted == [] then "Unbanded" else sorted[0].band;
    ghost var best := if sorted == [] then None else Some(sorted[0]);
    var i := 0;
    while i < |sorted|
      invariant 0 <= i <= |sorted|
      invariant current == if best.None? then "Unbanded" else best.value.band
      invariant i < |sorted| ==> Ordered(sorted[i..], NotAbove) && best.Some?
                                 && best.value.minIndex <= sorted[i].minIndex
      invariant ChosenFrom(index, best, sorted[i..]) == Chosen(index, bands)
    {
      var b := sorted[i];
      assert sorted[i..][1..] == sorted[i + 1..];
      best := Pick(index, best, b);
      if index >= b.minIndex {
        current := b.band;
      }
      i := i + 1;
    }
  }
}
