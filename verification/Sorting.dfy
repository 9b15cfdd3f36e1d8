/** Insertion sort by any order; what comes first among equals stays first. */
module Sorting {
  import opened Sequences

  function Insert<T>(p: T, s: seq<T>, le: (T, T) -> bool): (r: seq<T>)
    ensures |r| == |s| + 1
  {
    if s == [] || le(p, s[0]) then [p] + s else [s[0]] + Insert(p, s[1..], le)
  }

  function Sort<T>(s: seq<T>, le: (T, T) -> bool): (r: seq<T>)
    ensures |r| == |s|
  {
    if s == [] then [] else Insert(s[0], Sort(s[1..], le), le)
  }

  lemma {:induction false} InsertMembers<T>(p: T, s: seq<T>, le: (T, T) -> bool)
    ensures multiset(Insert(p, s, le)) == multiset{p} + multiset(s)
  {
    if s == [] || le(p, s[0]) {
    } else {
      InsertMembers(p, s[1..], le);
      Cons(s);
      assert multiset([s[0]] + s[1..]) == multiset{s[0]} + multiset(s[1..]);
    }
  }

  /** Sorting neither loses nor invents anything. */
  lemma {:induction false} SortMembers<T>(s: seq<T>, le: (T, T) -> bool)
    ensures multiset(Sort(s, le)) == multiset(s)
  {
    if s == [] {
    } else {
      SortMembers(s[1..], le);
      InsertMembers(s[0], Sort(s[1..], le), le);
      Cons(s);
      assert multiset([s[0]] + s[1..]) == multiset{s[0]} + multiset(s[1..]);
    }
  }

  ghost predicate TotalOrder<T(!new)>(le: (T, T) -> bool) {
    && (forall a, b :: le(a, b) || le(b, a))
    && forall a, b, c :: le(a, b) && le(b, c) ==> le(a, c)
  }

  /** Each element is in order with the next. */
  predicate Ordered<T>(s: seq<T>, le: (T, T) -> bool) {
    |s| <= 1 || (le(s[0], s[1]) && Ordered(s[1..], le))
  }

  lemma {:induction false} InsertOrdered<T(!new)>(p: T, s: seq<T>, le: (T, T) -> bool)
    requires TotalOrder(le) && Ordered(s, le)
    ensures Ordered(Insert(p, s, le), le)
    ensures Insert(p, s, le)[0] == p || (s != [] && Insert(p, s, le)[0] == s[0])
  {
    if s == [] || le(p, s[0]) {
      ConsParts(p, s);
    } else {
      InsertOrdered(p, s[1..], le);
      ConsParts(s[0], Insert(p, s[1..], le));
    }
  }

  /** The result is in order. */
  lemma {:induction false} SortOrdered<T(!new)>(s: seq<T>, le: (T, T) -> bool)
    requires TotalOrder(le)
    ensures Ordered(Sort(s, le), le)
  {
    if s == [] {
    } else {
      SortOrdered(s[1..], le);
      InsertOrdered(s[0], Sort(s[1..], le), le);
    }
  }

  /** In an ordered list the first element is in order with all. */
  lemma {:induction false} OrderedFirst<T(!new)>(s: seq<T>, le: (T, T) -> bool, i: nat)
    requires TotalOrder(le) && Ordered(s, le) && i < |s|
    ensures le(s[0], s[i])
  {
    if i == 0 {
      assert le(s[0], s[0]);
    } else {
      OrderedFirst(s[1..], le, i - 1);
    }
  }

  /** And so is any earlier element with any later one. */
  lemma {:induction false} OrderedAt<T(!new)>(s: seq<T>, le: (T, T) -> bool, i: nat, j: nat)
    requires TotalOrder(le) && Ordered(s, le) && i < j < |s|
    ensures le(s[i], s[j])
  {
    if i == 0 {
      OrderedFirst(s, le, j);
    } else {
      OrderedAt(s[1..], le, i - 1, j - 1);
    }
  }

  /** The elements picked out, in the order they are listed. */
  function Filter<T>(s: seq<T>, keep: T -> bool): seq<T> {
    if s == [] then [] else (if keep(s[0]) then [s[0]] else []) + Filter(s[1..], keep)
  }

  ghost predicate Peers<T(!new)>(keep: T -> bool, le: (T, T) -> bool) {
    forall a, b :: keep(a) && keep(b) ==> le(a, b)
  }

  lemma FilterCons<T>(x: T, s: seq<T>, keep: T -> bool)
    ensures Filter([x] + s, keep) == (if keep(x) then [x] else []) + Filter(s, keep)
  {
    ConsParts(x, s);
  }

  lemma EmptyCommutes<T>(a: seq<T>, b: seq<T>, c: seq<T>)
    requires a == [] || b == []
    ensures a + (b + c) == b + (a + c)
  {
    if a == [] {
      assert a + (b + c) == b + c && a + c == c;
    } else {
      assert b + (a + c) == a + c && b + c == c;
    }
  }

  lemma PeersInOrder<T(!new)>(a: T, b: T, keep: T -> bool, le: (T, T) -> bool)
    requires Peers(keep, le)
    ensures keep(a) && keep(b) ==> le(a, b)
  {
  }

  lemma {:induction false} InsertStable<T(!new)>(p: T, s: seq<T>, le: (T, T) -> bool, keep: T -> bool)
    requires Peers(keep, le)
    ensures Filter(Insert(p, s, le), keep) == (if keep(p) then [p] else []) + Filter(s, keep)
  {
    if s == [] || le(p, s[0]) {
      FilterCons(p, s, keep);
    } else {
      PeersInOrder(p, s[0], keep, le);
      InsertStable(p, s[1..], le, keep);
      FilterCons(s[0], Insert(p, s[1..], le), keep);
      EmptyCommutes(if keep(s[0]) then [s[0]] else [], if keep(p) then [p] else [], Filter(s[1..], keep));
    }
  }

  /** The sort is stable: equals keep the order they were listed in. */
  lemma {:induction false} SortStable<T(!new)>(s: seq<T>, le: (T, T) -> bool, keep: T -> bool)
    requires Peers(keep, le)
    ensures Filter(Sort(s, le), keep) == Filter(s, keep)
  {
    if s == [] {
    } else {
      SortStable(s[1..], le, keep);
      InsertStable(s[0], Sort(s[1..], le), le, keep);
    }
  }
}
