/** The proctor companion's heartbeat chain and its shutdown sequence. */
module Proctor {
  import opened JsText
  import opened HashChain
  import opened Sorting

  const BAR: CodeUnit := 0x7C

  /** A JavaScript integer that prints without an exponent. */
  type SequenceNo = n: int | 0 <= n < 0x20_0000_0000_0000

  datatype Event = Event(sequenceNo: SequenceNo, occurredAtIso: Text)

  // ---------------------------------------------------------------------------
  // The heartbeat chain
  // ---------------------------------------------------------------------------

  /** The template string as JavaScript puts it together. */
  function Template(previousHead: Option<Text>, e: Event): Text {
    Prefix([], previousHead) + ([BAR] + Decimal(e.sequenceNo) + [BAR] + e.occurredAtIso)
  }

  /** The digest of its UTF-8 encoding, in which a lone surrogate is no different from U+FFFD. */
  function ChainHead(h: Hash, previousHead: Option<Text>, e: Event): Text {
    h(ThroughUtf8(Template(previousHead, e)))
  }

  /** Everything hashed after the previous head: `|sequenceNo|occurredAt`. */
  function Body(e: Event): Text {
    [BAR] + Decimal(e.sequenceNo) + [BAR] + ThroughUtf8(e.occurredAtIso)
  }

  /** The event as its hash sees it. */
  function Seen(e: Event): Event {
    e.(occurredAtIso := ThroughUtf8(e.occurredAtIso))
  }

  predicate NotAfter(e: Event, f: Event) {
    e.sequenceNo <= f.sequenceNo
  }

  /** The stable sort by sequence number. */
  function Sorted(s: seq<Event>): seq<Event> {
    Sort(s, NotAfter)
  }

  function Bodies(s: seq<Event>): (r: seq<Text>)
    ensures |r| == |s| && forall i :: 0 <= i < |s| ==> r[i] == Body(s[i])
  {
    seq(|s|, i requires 0 <= i < |s| => Body(s[i]))
  }

  function AllSeen(s: seq<Event>): (r: seq<Event>)
    ensures |r| == |s| && forall i :: 0 <= i < |s| ==> r[i] == Seen(s[i])
  {
    seq(|s|, i requires 0 <= i < |s| => Seen(s[i]))
  }

  /** One link of the heartbeat chain is one link of the hash chain over bodies. */
  lemma LinkIsPayload(previousHead: Option<Text>, e: Event)
    requires previousHead.Some? ==> IsDigest(previousHead.value)
    ensures ThroughUtf8(Template(previousHead, e)) == Payload([], previousHead, Body(e))
  {
    var mid := [BAR] + Decimal(e.sequenceNo) + [BAR];
    DecimalReads(e.sequenceNo);
    ThroughUtf8After(mid, e.occurredAtIso);
    ThroughUtf8After(Prefix([], previousHead), mid + e.occurredAtIso);
  }

  /** The template in full: the previous head or nothing, a bar, the number, a bar, the timestamp. */
  lemma TemplateSpelled(previousHead: Option<Text>, e: Event)
    ensures Template(previousHead, e)
            == (if previousHead.Some? then previousHead.value else []) + Ascii("|") + Decimal(e.sequenceNo) + Ascii("|")
               + e.occurredAtIso
  {
    var start, d := Prefix([], previousHead), Decimal(e.sequenceNo);
    assert Ascii("|") == [BAR];
    assert start + ([BAR] + d + [BAR] + e.occurredAtIso) == start + [BAR] + d + [BAR] + e.occurredAtIso;
  }

  /** Does the chain of events reconstruct the claimed head? */
  method VerifyChain(h: Hash, events: seq<Event>, claimedHead: Text) returns (ok: bool)
    ensures ok <==> Head(h, [], Bodies(Sorted(events))) == Some(claimedHead)
  {
    var sorted := Sorted(events);
    var head: Option<Text> := None;
    for i := 0 to |sorted|
      invariant head == Head(h, [], Bodies(sorted[..i]))
    {
      HeadIsDigest(h, [], Bodies(sorted[..i]));
      LinkIsPayload(head, sorted[i]);
      head := Some(ChainHead(h, head, sorted[i]));
      assert Bodies(sorted[..i + 1])[..i] == Bodies(sorted[..i]);
    }
    assert sorted[..|sorted|] == sorted;
    ok := head == Some(claimedHead);
  }

  /** A body tells the number and the timestamp as the hash sees it, and nothing else. */
  lemma BodyDetermines(a: Event, b: Event)
    ensures Body(a) == Body(b) <==> Seen(a) == Seen(b)
  {
    if Body(a) == Body(b) {
      var da, db := Decimal(a.sequenceNo), Decimal(b.sequenceNo);
      var xa, xb := ThroughUtf8(a.occurredAtIso), ThroughUtf8(b.occurredAtIso);
      DecimalReads(a.sequenceNo);
      DecimalReads(b.sequenceNo);
      BodySplit(a);
      BodySplit(b);
      FirstBar(da, xa, db, xb);
    }
  }

  lemma BodySplit(e: Event)
    ensures Body(e)[1..] == Decimal(e.sequenceNo) + ([BAR] + ThroughUtf8(e.occurredAtIso))
  {
  }

  lemma FirstBar(d: Text, x: Text, e: Text, y: Text)
    requires AllDigits(d) && AllDigits(e)
    requires d + ([BAR] + x) == e + ([BAR] + y)
    ensures d == e && x == y
  {
    var s, t := d + ([BAR] + x), e + ([BAR] + y);
    assert s[|d|] == BAR && t[|e|] == BAR;
    assert forall i :: 0 <= i < |d| ==> s[i] == d[i] != BAR;
    assert forall i :: 0 <= i < |e| ==> t[i] == e[i] != BAR;
    assert |d| == |e|;
    assert s[..|d|] == d && t[..|e|] == e;
    assert s[|d| + 1..] == x && t[|e| + 1..] == y;
  }

  lemma BodiesSeparated(s: seq<Event>)
    ensures Separated([], BAR, Bodies(s))
  {
  }

  lemma BodyWellFormed(e: Event)
    ensures WellFormed(Body(e))
  {
    var mid := [BAR] + Decimal(e.sequenceNo) + [BAR];
    DecimalReads(e.sequenceNo);
    PlainIsWellFormed(mid);
    ThroughUtf8Exactly(e.occurredAtIso);
    WellFormedConcat(mid, ThroughUtf8(e.occurredAtIso));
  }

  /** The pair of texts two event lists with one head give away unless the hash sees the same events. */
  function Witness(h: Hash, a: seq<Event>, b: seq<Event>): (Text, Text)
    requires a != [] && b != []
  {
    FindCollision(h, [], Bodies(Sorted(a)), Bodies(Sorted(b)))
  }

  lemma WitnessWellFormed(h: Hash, a: seq<Event>, b: seq<Event>)
    requires a != [] && b != []
    ensures WellFormed(Witness(h, a, b).0) && WellFormed(Witness(h, a, b).1)
  {
    forall i | 0 <= i < |Sorted(a)|
      ensures WellFormed(Bodies(Sorted(a))[i])
    {
      BodyWellFormed(Sorted(a)[i]);
    }
    forall i | 0 <= i < |Sorted(b)|
      ensures WellFormed(Bodies(Sorted(b))[i])
    {
      BodyWellFormed(Sorted(b)[i]);
    }
    CollisionWellFormed(h, [], Bodies(Sorted(a)), Bodies(Sorted(b)));
  }

  /**
   * Two event lists that verify against one head are the same events in the same order, as far as their
   * UTF-8 encoding goes, or exhibit two distinct texts, also distinct in UTF-8, with one digest.
   */
  lemma HeadDeterminesEvents(h: Hash, a: seq<Event>, b: seq<Event>, head: Text)
    requires Head(h, [], Bodies(Sorted(a))) == Some(head)
    requires Head(h, [], Bodies(Sorted(b))) == Some(head)
    ensures a != [] && b != []
    ensures AllSeen(Sorted(a)) == AllSeen(Sorted(b)) ||
            (Collides(h, Witness(h, a, b)) && WellFormed(Witness(h, a, b).0) && WellFormed(Witness(h, a, b).1))
  {
    BodiesSeparated(Sorted(a));
    BodiesSeparated(Sorted(b));
    HeadDeterminesBodies(h, [], BAR, Bodies(Sorted(a)), Bodies(Sorted(b)));
    WitnessWellFormed(h, a, b);
    if Bodies(Sorted(a)) == Bodies(Sorted(b)) {
      BodiesDetermine(Sorted(a), Sorted(b));
    }
  }

  /** Bodies are equal exactly when the events look equal to the hash, so such lists always have one head. */
  lemma BodiesDetermine(a: seq<Event>, b: seq<Event>)
    ensures Bodies(a) == Bodies(b) <==> AllSeen(a) == AllSeen(b)
  {
    if Bodies(a) == Bodies(b) {
      assert |a| == |Bodies(a)| == |b|;
      forall i | 0 <= i < |a| ensures Seen(a[i]) == Seen(b[i]) {
        assert Bodies(a)[i] == Bodies(b)[i];
        BodyDetermines(a[i], b[i]);
      }
    }
    if AllSeen(a) == AllSeen(b) {
      assert |a| == |AllSeen(a)| == |b|;
      forall i | 0 <= i < |a| ensures Body(a[i]) == Body(b[i]) {
        assert AllSeen(a)[i] == AllSeen(b)[i];
        BodyDetermines(a[i], b[i]);
      }
    }
  }

  predicate TimesWellFormed(s: seq<Event>) {
    forall i :: 0 <= i < |s| ==> WellFormed(s[i].occurredAtIso)
  }

  /** On timestamps without lone surrogates what the hash sees is the events themselves. */
  lemma WellFormedSeen(a: seq<Event>)
    requires TimesWellFormed(a)
    ensures AllSeen(Sorted(a)) == Sorted(a)
  {
    var s := Sorted(a);
    SortedMembers(a);
    forall i | 0 <= i < |s| ensures Seen(s[i]) == s[i] {
      SameEvent(a, s, s[i]);
      ThroughUtf8Exactly(s[i].occurredAtIso);
    }
  }

  /** Two lists that differ in a lone surrogate only and that no head can tell apart. */
  lemma LoneSurrogatesUnseen(h: Hash)
    ensures var a, b := [Event(0, [0xD800])], [Event(0, [0xDC00])];
            a != b && Head(h, [], Bodies(Sorted(a))) == Head(h, [], Bodies(Sorted(b)))
  {
    var a, b := [Event(0, [0xD800])], [Event(0, [0xDC00])];
    assert a[0].occurredAtIso != b[0].occurredAtIso;
    assert Sort(a[1..], NotAfter) == [] && Sort(b[1..], NotAfter) == [];
    assert ThroughUtf8(a[0].occurredAtIso) == [0xFFFD] == ThroughUtf8(b[0].occurredAtIso);
    BodiesDetermine(Sorted(a), Sorted(b));
  }

  lemma SortedMembers(s: seq<Event>)
    ensures multiset(Sorted(s)) == multiset(s)
  {
    SortMembers(s, NotAfter);
  }

  lemma SortedOrdered(s: seq<Event>)
    ensures Ordered(Sorted(s), NotAfter)
  {
    SortOrdered(s, NotAfter);
  }

  /** Numbers never fall, and events of one number keep the order they came in. */
  lemma SortedRising(s: seq<Event>, number: SequenceNo)
    ensures |Sorted(s)| == |s|
    ensures forall i, j :: 0 <= i < j < |s| ==> Sorted(s)[i].sequenceNo <= Sorted(s)[j].sequenceNo
    ensures Filter(Sorted(s), (e: Event) => e.sequenceNo == number) == Filter(s, (e: Event) => e.sequenceNo == number)
  {
    SortedOrdered(s);
    forall i, j | 0 <= i < j < |s|
      ensures Sorted(s)[i].sequenceNo <= Sorted(s)[j].sequenceNo
    {
      OrderedAt(Sorted(s), NotAfter, i, j);
    }
    SortStable(s, NotAfter, (e: Event) => e.sequenceNo == number);
  }

  predicate DistinctNumbers(s: seq<Event>) {
    forall i, j :: 0 <= i < j < |s| ==> s[i].sequenceNo != s[j].sequenceNo
  }

  predicate NumberDetermines(s: seq<Event>) {
    forall i, j :: 0 <= i < |s| && 0 <= j < |s| && s[i].sequenceNo == s[j].sequenceNo ==> s[i] == s[j]
  }

  lemma DistinctDetermine(a: seq<Event>, e: Event, f: Event)
    requires DistinctNumbers(a) && e in a && f in a && e.sequenceNo == f.sequenceNo
    ensures e == f
  {
    var i :| 0 <= i < |a| && a[i] == e;
    var j :| 0 <= j < |a| && a[j] == f;
    assert i == j;
  }

  lemma SortedDetermine(a: seq<Event>)
    requires DistinctNumbers(a)
    ensures NumberDetermines(Sorted(a))
  {
    SortedMembers(a);
    var s := Sorted(a);
    forall i, j | 0 <= i < |s| && 0 <= j < |s| && s[i].sequenceNo == s[j].sequenceNo
      ensures s[i] == s[j]
    {
      SameEvent(a, s, s[i]);
      SameEvent(a, s, s[j]);
      DistinctDetermine(a, s[i], s[j]);
    }
  }

  /** With distinct sequence numbers the order events arrive in does not matter. */
  lemma ArrivalOrderIrrelevant(a: seq<Event>, b: seq<Event>)
    requires multiset(a) == multiset(b) && DistinctNumbers(a)
    ensures Sorted(a) == Sorted(b)
  {
    SortedMembers(a);
    SortedMembers(b);
    SortedOrdered(a);
    SortedOrdered(b);
    SortedDetermine(a);
    RisingDetermined(Sorted(a), Sorted(b));
  }

  lemma RisingHead(a: seq<Event>, e: Event)
    requires Ordered(a, NotAfter) && e in a
    ensures a[0].sequenceNo <= e.sequenceNo
  {
    var k :| 0 <= k < |a| && a[k] == e;
    OrderedFirst(a, NotAfter, k);
  }

  lemma MultisetTail(a: seq<Event>)
    requires a != []
    ensures multiset(a[1..]) == multiset(a) - multiset{a[0]}
  {
    assert a == [a[0]] + a[1..];
  }

  lemma SameEvent(a: seq<Event>, b: seq<Event>, e: Event)
    requires multiset(a) == multiset(b)
    ensures e in a <==> e in b
  {
    assert e in a <==> e in multiset(a);
    assert e in b <==> e in multiset(b);
  }

  lemma HeadsAgree(a: seq<Event>, b: seq<Event>)
    requires Ordered(a, NotAfter) && Ordered(b, NotAfter) && multiset(a) == multiset(b)
    requires NumberDetermines(a) && a != [] && b != []
    ensures a[0] == b[0]
  {
    SameEvent(a, b, a[0]);
    SameEvent(a, b, b[0]);
    RisingHead(a, b[0]);
    RisingHead(b, a[0]);
    var k :| 0 <= k < |a| && a[k] == b[0];
  }

  lemma {:induction false} RisingDetermined(a: seq<Event>, b: seq<Event>)
    requires Ordered(a, NotAfter) && Ordered(b, NotAfter) && multiset(a) == multiset(b)
    requires NumberDetermines(a)
    ensures a == b
  {
    assert |a| == |multiset(a)| == |multiset(b)| == |b|;
    if a == [] {
    } else {
      HeadsAgree(a, b);
      MultisetTail(a);
      MultisetTail(b);
      RisingDetermined(a[1..], b[1..]);
      assert a == [a[0]] + a[1..] && b == [b[0]] + b[1..];
    }
  }

  // ---------------------------------------------------------------------------
  // The shutdown sequence
  // ---------------------------------------------------------------------------

  datatype ShutdownStep =
    | FreezeMutations
    | FlushHeads
    | VerifyReceipt
    | RevokeTokens
    | StopWatchers
    | ClearEphemeral
    | RetainReceipt
    | Terminate

  const SHUTDOWN_SEQUENCE: seq<ShutdownStep> :=
    [FreezeMutations, FlushHeads, VerifyReceipt, RevokeTokens, StopWatchers, ClearEphemeral, RetainReceipt, Terminate]

  datatype StepResult = Next(step: ShutdownStep) | OrderError(attempted: ShutdownStep, expected: ShutdownStep)

  function NextShutdownStep(completed: seq<ShutdownStep>, attempted: ShutdownStep): StepResult {
    if |completed| >= |SHUTDOWN_SEQUENCE| then OrderError(attempted, Terminate)
    else
      var expected := SHUTDOWN_SEQUENCE[|completed|];
      if attempted != expected then OrderError(attempted, expected) else Next(expected)
  }

  /** Attempting `steps` one after another, recording each as completed, never fails. */
  predicate AllAccepted(completed: seq<ShutdownStep>, steps: seq<ShutdownStep>)
    decreases |steps|
  {
    steps == [] ||
    (NextShutdownStep(completed, steps[0]).Next? && AllAccepted(completed + [steps[0]], steps[1..]))
  }

  /** From a sequenced start, the accepted attempts are exactly the continuations of the fixed sequence. */
  lemma {:induction false} AcceptedRuns(completed: seq<ShutdownStep>, steps: seq<ShutdownStep>)
    requires completed <= SHUTDOWN_SEQUENCE
    ensures AllAccepted(completed, steps) <==> completed + steps <= SHUTDOWN_SEQUENCE
    decreases |steps|
  {
    if steps == [] {
      assert completed + steps == completed;
    } else {
      var next := completed + [steps[0]];
      assert next + steps[1..] == completed + steps;
      assert (completed + steps)[|completed|] == steps[0];
      if NextShutdownStep(completed, steps[0]).Next? {
        AcceptedRuns(next, steps[1..]);
      }
    }
  }

  /** The sequencer counts completed steps and does not look at them: seven of any kind allow `terminate`. */
  lemma TerminateExactly(completed: seq<ShutdownStep>)
    ensures NextShutdownStep(completed, Terminate).Next? <==> |completed| == 7
    ensures completed <= SHUTDOWN_SEQUENCE && |completed| == 7 ==>
              completed == SHUTDOWN_SEQUENCE[..7]
    ensures var wrong := seq(7, _ => StopWatchers);
            NextShutdownStep(wrong, Terminate) == Next(Terminate) && !(wrong <= SHUTDOWN_SEQUENCE)
  {
    var wrong := seq(7, _ => StopWatchers);
    assert wrong[0] != SHUTDOWN_SEQUENCE[0];
    if |completed| < 7 {
      assert SHUTDOWN_SEQUENCE[|completed|] != Terminate;
    }
  }

  lemma SequenceSpelled()
    ensures SHUTDOWN_SEQUENCE
            == [FreezeMutations, FlushHeads, VerifyReceipt, RevokeTokens, StopWatchers, ClearEphemeral, RetainReceipt,
                Terminate]
  {
  }

  /** Attempting steps from nothing goes through exactly for the beginnings of the fixed order. */
  lemma ShutdownOrder(steps: seq<ShutdownStep>)
    ensures AllAccepted([], steps) <==>
            steps <= [FreezeMutations, FlushHeads, VerifyReceipt, RevokeTokens, StopWatchers, ClearEphemeral,
                      RetainReceipt, Terminate]
  {
    SequenceSpelled();
    AcceptedRuns([], steps);
    assert [] + steps == steps;
  }

  /** A step that is refused is told the one expected, or `terminate` when there is none left. */
  lemma ShutdownRefusal(completed: seq<ShutdownStep>, attempted: ShutdownStep)
    ensures |completed| >= 8 ==> NextShutdownStep(completed, attempted) == OrderError(attempted, Terminate)
    ensures |completed| < 8 && attempted != SHUTDOWN_SEQUENCE[|completed|] ==>
              NextShutdownStep(completed, attempted) == OrderError(attempted, SHUTDOWN_SEQUENCE[|completed|])
    ensures |completed| < 8 && attempted == SHUTDOWN_SEQUENCE[|completed|] ==>
              NextShutdownStep(completed, attempted) == Next(attempted)
  {
  }
}
