/** The first-generation assessment session: its transition table and the exact words of a successful run. */
module StateMachines {
  import opened Sequences

  datatype State =
    | Created | DisclosurePending | Ready | InProgress | Paused | Submitted
    | UnderReview | ReviewFinalised | ReportIssued | Withdrawn | Expired | Invalidated

  datatype Event =
    | PresentDisclosure | AcknowledgeDisclosure | Start | Pause | Resume | Submit
    | BeginReview | FinaliseReview | IssueReport | Withdraw | Expire | Invalidate

  /** What `next` gives: the target state, or the error naming the state and the event. */
  datatype Outcome = Moved(to: State) | InvalidTransition(from: State, event: Event)

  const TERMINAL: set<State> := {ReportIssued, Withdrawn, Expired, Invalidated}

  function Next(s: State, e: Event): Outcome {
    match s
    case Created => (
      match e
      case PresentDisclosure => Moved(DisclosurePending)
      case Withdraw => Moved(Withdrawn)
      case Expire => Moved(Expired)
      case _ => InvalidTransition(s, e))
    case DisclosurePending => (
      match e
      case AcknowledgeDisclosure => Moved(Ready)
      case Withdraw => Moved(Withdrawn)
      case Expire => Moved(Expired)
      case _ => InvalidTransition(s, e))
    case Ready => (
      match e
      case Start => Moved(InProgress)
      case Withdraw => Moved(Withdrawn)
      case Expire => Moved(Expired)
      case _ => InvalidTransition(s, e))
    case InProgress => (
      match e
      case Pause => Moved(Paused)
      case Submit => Moved(Submitted)
      case Withdraw => Moved(Withdrawn)
      case Expire => Moved(Expired)
      case Invalidate => Moved(Invalidated)
      case _ => InvalidTransition(s, e))
    case Paused => (
      match e
      case Resume => Moved(InProgress)
      case Withdraw => Moved(Withdrawn)
      case Expire => Moved(Expired)
      case Invalidate => Moved(Invalidated)
      case _ => InvalidTransition(s, e))
    case Submitted => (
      match e
      case BeginReview => Moved(UnderReview)
      case Invalidate => Moved(Invalidated)
      case _ => InvalidTransition(s, e))
    case UnderReview => (
      match e
      case FinaliseReview => Moved(ReviewFinalised)
      case Invalidate => Moved(Invalidated)
      case _ => InvalidTransition(s, e))
    case ReviewFinalised => (
      match e
      case IssueReport => Moved(ReportIssued)
      case _ => InvalidTransition(s, e))
    case ReportIssued => InvalidTransition(s, e)
    case Withdrawn => InvalidTransition(s, e)
    case Expired => InvalidTransition(s, e)
    case Invalidated => InvalidTransition(s, e)
  }

  predicate Can(s: State, e: Event) {
    Next(s, e).Moved?
  }

  predicate IsTerminal(s: State) {
    s in TERMINAL
  }

  /** The listed terminal states are exactly the states nothing leaves. */
  lemma TerminalMeansStuck(s: State)
    ensures IsTerminal(s) <==> forall e: Event :: !Can(s, e)
  {
    if s != ReportIssued && s != Withdrawn && s != Expired && s != Invalidated {
      var way: Event;
      if s == Created {
        way := PresentDisclosure;
      } else if s == DisclosurePending {
        way := AcknowledgeDisclosure;
      } else if s == Ready {
        way := Start;
      } else if s == InProgress {
        way := Submit;
      } else if s == Paused {
        way := Resume;
      } else if s == Submitted {
        way := BeginReview;
      } else if s == UnderReview {
        way := FinaliseReview;
      } else {
        way := IssueReport;
      }
      assert Can(s, way);
    }
  }

  /** A run stops at the first event its state does not allow. */
  function Run(s: State, events: seq<Event>): Outcome
    decreases |events|
  {
    if events == [] then Moved(s)
    else
      var step := Next(s, events[0]);
      if step.Moved? then Run(step.to, events[1..]) else step
  }

  function Pauses(n: nat): seq<Event> {
    if n == 0 then [] else [Pause, Resume] + Pauses(n - 1)
  }

  const OPENING: seq<Event> := [PresentDisclosure, AcknowledgeDisclosure, Start]
  const CLOSING: seq<Event> := [Submit, BeginReview, FinaliseReview, IssueReport]

  /** The word of a successful session with `n` pauses. */
  function SuccessfulWord(n: nat): seq<Event> {
    OPENING + (Pauses(n) + CLOSING)
  }

  /** The states a successful run passes through after the session has started, with the events still to come. */
  function RestOfClosing(s: State): seq<Event> {
    match s
    case InProgress => CLOSING
    case Submitted => [BeginReview, FinaliseReview, IssueReport]
    case UnderReview => [FinaliseReview, IssueReport]
    case ReviewFinalised => [IssueReport]
    case _ => []
  }

  lemma AbsorbedRunsStay(s: State, events: seq<Event>)
    requires IsTerminal(s)
    ensures Run(s, events) == Moved(s) || Run(s, events).InvalidTransition?
    ensures Run(s, events).Moved? ==> events == []
  {
  }

  /** Once submitted, there is a single way to the report. */
  lemma {:induction false} AfterSubmission(s: State, events: seq<Event>)
    requires s in {Submitted, UnderReview, ReviewFinalised, ReportIssued}
    ensures Run(s, events) == Moved(ReportIssued) <==> events == RestOfClosing(s)
    decreases |events|
  {
    if events == [] {
    } else {
      Cons(events);
      var step := Next(s, events[0]);
      if step.Moved? {
        if IsTerminal(step.to) {
          AbsorbedRunsStay(step.to, events[1..]);
        } else {
          AfterSubmission(step.to, events[1..]);
        }
      }
    }
  }

  /** Where the only way on to the report leads before submission, pausing and submitting aside. */
  function Onward(s: State): Event {
    match s
    case Created => PresentDisclosure
    case DisclosurePending => AcknowledgeDisclosure
    case Ready => Start
    case _ => Resume
  }

  lemma OnlyWayOn(s: State, events: seq<Event>)
    requires s in {Created, DisclosurePending, Ready, Paused}
    requires Run(s, events) == Moved(ReportIssued)
    ensures events != [] && events == [Onward(s)] + events[1..]
    ensures Run(Next(s, Onward(s)).to, events[1..]) == Moved(ReportIssued)
  {
    Cons(events);
    if events[0] != Onward(s) {
      AbsorbedRunsStay(Next(s, events[0]).to, events[1..]);
    }
  }

  lemma {:induction false} FromInProgress(events: seq<Event>) returns (n: nat)
    requires Run(InProgress, events) == Moved(ReportIssued)
    ensures events == Pauses(n) + CLOSING
  {
    Cons(events);
    if events[0] == Submit {
      AfterSubmission(Submitted, events[1..]);
      n := 0;
      assert events == Pauses(0) + CLOSING;
    } else if events[0] == Pause {
      OnlyWayOn(Paused, events[1..]);
      var m := FromInProgress(events[1..][1..]);
      n := m + 1;
      OnePauseMore(m);
    } else {
      AbsorbedRunsStay(Next(InProgress, events[0]).to, events[1..]);
    }
  }

  lemma OnePauseMore(n: nat)
    ensures [Pause] + ([Resume] + (Pauses(n) + CLOSING)) == Pauses(n + 1) + CLOSING
  {
    assert [Pause] + ([Resume] + Pauses(n)) == Pauses(n + 1);
  }

  lemma FromCreated(events: seq<Event>) returns (n: nat)
    requires Run(Created, events) == Moved(ReportIssued)
    ensures events == SuccessfulWord(n)
  {
    OnlyWayOn(Created, events);
    OnlyWayOn(DisclosurePending, events[1..]);
    OnlyWayOn(Ready, events[1..][1..]);
    n := FromInProgress(events[1..][1..][1..]);
    WordUnfolds(n);
  }

  lemma WordUnfolds(n: nat)
    ensures SuccessfulWord(n) == [PresentDisclosure] + ([AcknowledgeDisclosure] + ([Start] + (Pauses(n) + CLOSING)))
  {
  }

  lemma RunCons(s: State, e: Event, rest: seq<Event>)
    requires Can(s, e)
    ensures Run(s, [e] + rest) == Run(Next(s, e).to, rest)
  {
    assert ([e] + rest)[1..] == rest;
  }

  lemma {:induction false} PausesReachTheReport(n: nat)
    ensures Run(InProgress, Pauses(n) + CLOSING) == Moved(ReportIssued)
  {
    if n == 0 {
      assert Pauses(0) + CLOSING == [Submit] + RestOfClosing(Submitted);
      RunCons(InProgress, Submit, RestOfClosing(Submitted));
      AfterSubmission(Submitted, RestOfClosing(Submitted));
    } else {
      var rest := Pauses(n - 1) + CLOSING;
      PausesReachTheReport(n - 1);
      OnePauseMore(n - 1);
      RunCons(InProgress, Pause, [Resume] + rest);
      RunCons(Paused, Resume, rest);
    }
  }

  lemma WordReachesTheReport(n: nat)
    ensures Run(Created, SuccessfulWord(n)) == Moved(ReportIssued)
  {
    var rest := Pauses(n) + CLOSING;
    PausesReachTheReport(n);
    WordUnfolds(n);
    RunCons(Created, PresentDisclosure, [AcknowledgeDisclosure] + ([Start] + rest));
    RunCons(DisclosurePending, AcknowledgeDisclosure, [Start] + rest);
    RunCons(Ready, Start, rest);
  }

  /** A run from `created` issues a report exactly when it is one of these words. */
  lemma SuccessfulRuns(events: seq<Event>)
    ensures Run(Created, events) == Moved(ReportIssued) <==> exists n: nat :: events == SuccessfulWord(n)
  {
    if Run(Created, events) == Moved(ReportIssued) {
      var n := FromCreated(events);
    }
    forall n: nat | events == SuccessfulWord(n)
      ensures Run(Created, events) == Moved(ReportIssued)
    {
      WordReachesTheReport(n);
    }
  }

  /**
   * No session gets past disclosure, except by being withdrawn or expiring, unless it was presented and
   * acknowledged.
   */
  lemma NothingWithoutAcknowledgement(events: seq<Event>)
    requires Run(Created, events).Moved?
    requires Run(Created, events).to !in {Created, DisclosurePending, Withdrawn, Expired}
    ensures |events| >= 2 && events[0] == PresentDisclosure && events[1] == AcknowledgeDisclosure
  {
    if events[0] != PresentDisclosure {
      AbsorbedRunsStay(Next(Created, events[0]).to, events[1..]);
    }
    var rest := events[1..];
    if rest != [] && rest[0] != AcknowledgeDisclosure {
      AbsorbedRunsStay(Next(DisclosurePending, rest[0]).to, rest[1..]);
    }
  }

  // ---------------------------------------------------------------------------
  // How else a run can end
  // ---------------------------------------------------------------------------

  lemma {:induction false} RunSnoc(s: State, events: seq<Event>, e: Event)
    ensures Run(s, events + [e])
            == if Run(s, events).Moved? then Next(Run(s, events).to, e) else Run(s, events)
    decreases |events|
  {
    if events == [] {
      assert [] + [e] == [e] && [e][1..] == [];
    } else {
      assert (events + [e])[1..] == events[1..] + [e];
      if Next(s, events[0]).Moved? {
        RunSnoc(Next(s, events[0]).to, events[1..], e);
      }
    }
  }

  /** The session has not been submitted, nor ended otherwise. */
  predicate Open(o: Outcome) {
    o.Moved? && o.to in {Created, DisclosurePending, Ready, InProgress, Paused}
  }

  /** The session has been started and its review is not finished, nor has it ended otherwise. */
  predicate UnderWay(o: Outcome) {
    o.Moved? && o.to in {InProgress, Paused, Submitted, UnderReview}
  }

  /**
   * A session is withdrawn, or expires, exactly by that event in a session not yet submitted, and is invalidated
   * exactly by that event in one started and not yet through its review.
   */
  lemma EndedRuns(events: seq<Event>, e: Event)
    ensures Run(Created, events + [e]) == Moved(Withdrawn) <==> e == Withdraw && Open(Run(Created, events))
    ensures Run(Created, events + [e]) == Moved(Expired) <==> e == Expire && Open(Run(Created, events))
    ensures Run(Created, events + [e]) == Moved(Invalidated) <==> e == Invalidate && UnderWay(Run(Created, events))
  {
    RunSnoc(Created, events, e);
  }

  /** A run fails at its first event that is not allowed, and names it with the state it was met in. */
  lemma {:induction false} FirstRefusal(s: State, events: seq<Event>) returns (k: nat)
    requires Run(s, events).InvalidTransition?
    ensures k < |events| && Run(s, events[..k]) == Moved(Run(s, events).from) && Run(s, events).event == events[k]
    ensures !Can(Run(s, events).from, events[k])
    decreases |events|
  {
    if !Can(s, events[0]) {
      k := 0;
    } else {
      var m := FirstRefusal(Next(s, events[0]).to, events[1..]);
      k := m + 1;
      assert events[..k][1..] == events[1..][..m];
    }
  }
}
