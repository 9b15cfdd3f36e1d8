/** The second-generation session lifecycle and the exact words of its successful runs. */
module SessionV2 {
  import opened Sequences

  datatype State =
    | Invited | Disclosed | Preflight | Ready | Active | PausedTech | Submitting | Submitted
    | Reviewing | Finalised | Expired | Withdrawn | SupportReview

  datatype Event =
    | Disclose | CompletePreflight | CheckIn | Start | PauseTech | Resume | BeginSubmit | ConfirmReceipt
    | BeginReview | Finalise | Expire | Withdraw | EscalateSupport | ResolveSupport

  datatype Outcome = Moved(to: State) | IllegalTransition(from: State, event: Event)

  /** `nextSessionState`: the legal moves, everything else is an error. */
  function Next(s: State, e: Event): Outcome {
    match s
    case Invited => (
      match e
      case Disclose => Moved(Disclosed)
      case Expire => Moved(Expired)
      case Withdraw => Moved(Withdrawn)
      case _ => IllegalTransition(s, e))
    case Disclosed => (
      match e
      case CompletePreflight => Moved(Preflight)
      case Expire => Moved(Expired)
      case Withdraw => Moved(Withdrawn)
      case _ => IllegalTransition(s, e))
    case Preflight => (
      match e
      case CheckIn => Moved(Ready)
      case Expire => Moved(Expired)
      case Withdraw => Moved(Withdrawn)
      case _ => IllegalTransition(s, e))
    case Ready => (
      match e
      case Start => Moved(Active)
      case Expire => Moved(Expired)
      case Withdraw => Moved(Withdrawn)
      case _ => IllegalTransition(s, e))
    case Active => (
      match e
      case PauseTech => Moved(PausedTech)
      case BeginSubmit => Moved(Submitting)
      case Withdraw => Moved(Withdrawn)
      case EscalateSupport => Moved(SupportReview)
      case _ => IllegalTransition(s, e))
    case PausedTech => (
      match e
      case Resume => Moved(Active)
      case EscalateSupport => Moved(SupportReview)
      case _ => IllegalTransition(s, e))
    case Submitting => (
      match e
      case ConfirmReceipt => Moved(Submitted)
      case EscalateSupport => Moved(SupportReview)
      case _ => IllegalTransition(s, e))
    case Submitted => if e == BeginReview then Moved(Reviewing) else IllegalTransition(s, e)
    case Reviewing => if e == Finalise then Moved(Finalised) else IllegalTransition(s, e)
    case SupportReview => if e == ResolveSupport then Moved(Active) else IllegalTransition(s, e)
    case Finalised => IllegalTransition(s, e)
    case Expired => IllegalTransition(s, e)
    case Withdrawn => IllegalTransition(s, e)
  }

  /** A run stops at the first illegal event. */
  function Run(s: State, events: seq<Event>): Outcome
    decreases |events|
  {
    if events == [] then Moved(s)
    else
      var step := Next(s, events[0]);
      if step.Moved? then Run(step.to, events[1..]) else step
  }

  /** The ways out of `active` that come back to it. */
  datatype Detour = TechPause | TechPauseToSupport | Support | SubmissionToSupport

  function Word(d: Detour): seq<Event> {
    match d
    case TechPause => [PauseTech, Resume]
    case TechPauseToSupport => [PauseTech, EscalateSupport, ResolveSupport]
    case Support => [EscalateSupport, ResolveSupport]
    case SubmissionToSupport => [BeginSubmit, EscalateSupport, ResolveSupport]
  }

  function Words(ds: seq<Detour>): seq<Event> {
    if ds == [] then [] else Word(ds[0]) + Words(ds[1..])
  }

  const CLOSING: seq<Event> := [BeginSubmit, ConfirmReceipt, BeginReview, Finalise]

  /** The fixed way in, any number of detours, the fixed way out. */
  function SuccessfulWord(ds: seq<Detour>): seq<Event> {
    [Disclose, CompletePreflight, CheckIn, Start] + (Words(ds) + CLOSING)
  }

  // --- every successful run is such a word ---

  predicate Final(s: State) {
    s in {Finalised, Expired, Withdrawn}
  }

  /** The final states are exactly those that nothing leaves. */
  lemma FinalMeansStuck(s: State)
    ensures Final(s) <==> forall e: Event :: !Next(s, e).Moved?
  {
    if !Final(s) {
      assert Next(s, if s == Active then Withdraw else Onward(s)).Moved?;
    }
  }

  lemma AbsorbedRunsStay(s: State, events: seq<Event>)
    requires Final(s)
    ensures Run(s, events).Moved? ==> events == [] && Run(s, events).to == s
  {
  }

  /** The single event that brings a session closer to its end, where there is one. */
  function Onward(s: State): Event {
    match s
    case Invited => Disclose
    case Disclosed => CompletePreflight
    case Preflight => CheckIn
    case Ready => Start
    case PausedTech => Resume
    case Submitting => ConfirmReceipt
    case Submitted => BeginReview
    case Reviewing => Finalise
    case _ => ResolveSupport
  }

  lemma OnlyWayOn(s: State, events: seq<Event>)
    requires s in {Invited, Disclosed, Preflight, Ready, Submitted, Reviewing, SupportReview}
    requires Run(s, events) == Moved(Finalised)
    ensures events != [] && events == [Onward(s)] + events[1..]
    ensures Run(Next(s, Onward(s)).to, events[1..]) == Moved(Finalised)
  {
    Cons(events);
    if events[0] != Onward(s) {
      AbsorbedRunsStay(Next(s, events[0]).to, events[1..]);
    }
  }

  /** From a state that may also call support, the run either goes on or takes the support detour. */
  lemma OnwardOrSupport(s: State, events: seq<Event>)
    requires s in {PausedTech, Submitting} && Run(s, events) == Moved(Finalised)
    ensures events != []
    ensures events[0] == EscalateSupport ==>
              |events| >= 2 && events == [EscalateSupport] + ([ResolveSupport] + events[2..])
              && Run(Active, events[2..]) == Moved(Finalised)
    ensures events[0] != EscalateSupport ==>
              events == [Onward(s)] + events[1..] && Run(Next(s, Onward(s)).to, events[1..]) == Moved(Finalised)
  {
    Cons(events);
    if events[0] == EscalateSupport {
      OnlyWayOn(SupportReview, events[1..]);
      assert events[1..][1..] == events[2..];
    }
  }

  lemma AfterReceipt(events: seq<Event>)
    requires Run(Submitted, events) == Moved(Finalised)
    ensures events == [BeginReview, Finalise]
  {
    OnlyWayOn(Submitted, events);
    OnlyWayOn(Reviewing, events[1..]);
    AbsorbedRunsStay(Finalised, events[1..][1..]);
  }

  lemma DetourFirst(d: Detour, ds: seq<Detour>)
    ensures Words([d] + ds) + CLOSING == Word(d) + (Words(ds) + CLOSING)
  {
    assert ([d] + ds)[1..] == ds;
  }

  /** What a successful run from `active` does first: close, or take one detour. */
  lemma FirstDetour(events: seq<Event>) returns (d: Detour)
    requires Run(Active, events) == Moved(Finalised) && events != CLOSING
    ensures |Word(d)| <= |events| && events == Word(d) + events[|Word(d)|..]
    ensures Run(Active, events[|Word(d)|..]) == Moved(Finalised)
  {
    Cons(events);
    var rest := events[1..];
    if events[0] == PauseTech {
      OnwardOrSupport(PausedTech, rest);
      if rest[0] == EscalateSupport {
        d := TechPauseToSupport;
        assert events[3..] == rest[2..];
      } else {
        d := TechPause;
        assert events[2..] == rest[1..];
      }
    } else if events[0] == EscalateSupport {
      OnlyWayOn(SupportReview, rest);
      d := Support;
      assert events[2..] == rest[1..];
    } else if events[0] == BeginSubmit {
      OnwardOrSupport(Submitting, rest);
      if rest[0] == EscalateSupport {
        d := SubmissionToSupport;
        assert events[3..] == rest[2..];
      } else {
        AfterReceipt(rest[1..]);
        assert false;
      }
    } else {
      AbsorbedRunsStay(Withdrawn, rest);
      assert false;
    }
  }

  lemma {:induction false} FromActive(events: seq<Event>) returns (ds: seq<Detour>)
    requires Run(Active, events) == Moved(Finalised)
    ensures events == Words(ds) + CLOSING
    decreases |events|
  {
    if events == CLOSING {
      ds := [];
      assert Words([]) + CLOSING == CLOSING;
    } else {
      var d := FirstDetour(events);
      var later := FromActive(events[|Word(d)|..]);
      ds := [d] + later;
      DetourFirst(d, later);
    }
  }

  lemma FromInvited(events: seq<Event>) returns (ds: seq<Detour>)
    requires Run(Invited, events) == Moved(Finalised)
    ensures events == SuccessfulWord(ds)
  {
    OnlyWayOn(Invited, events);
    OnlyWayOn(Disclosed, events[1..]);
    OnlyWayOn(Preflight, events[1..][1..]);
    OnlyWayOn(Ready, events[1..][1..][1..]);
    ds := FromActive(events[1..][1..][1..][1..]);
    WordUnfolds(Words(ds) + CLOSING);
  }

  lemma WordUnfolds(rest: seq<Event>)
    ensures [Disclose, CompletePreflight, CheckIn, Start] + rest
            == [Disclose] + ([CompletePreflight] + ([CheckIn] + ([Start] + rest)))
  {
  }

  // --- every such word is a successful run ---

  lemma RunCons(s: State, e: Event, rest: seq<Event>)
    requires Next(s, e).Moved?
    ensures Run(s, [e] + rest) == Run(Next(s, e).to, rest)
  {
    assert ([e] + rest)[1..] == rest;
  }

  lemma DetourReturns(d: Detour, rest: seq<Event>)
    ensures Run(Active, Word(d) + rest) == Run(Active, rest)
  {
    DetourSpelled(d, rest);
    if d == TechPause {
      RunCons(Active, PauseTech, [Resume] + rest);
      RunCons(PausedTech, Resume, rest);
    } else {
      RunCons(SupportReview, ResolveSupport, rest);
      if d == Support {
        RunCons(Active, EscalateSupport, [ResolveSupport] + rest);
      } else if d == TechPauseToSupport {
        RunCons(Active, PauseTech, [EscalateSupport] + ([ResolveSupport] + rest));
        RunCons(PausedTech, EscalateSupport, [ResolveSupport] + rest);
      } else {
        RunCons(Active, BeginSubmit, [EscalateSupport] + ([ResolveSupport] + rest));
        RunCons(Submitting, EscalateSupport, [ResolveSupport] + rest);
      }
    }
  }

  lemma DetourSpelled(d: Detour, rest: seq<Event>)
    ensures Word(d) + rest ==
            match d
            case TechPause => [PauseTech] + ([Resume] + rest)
            case TechPauseToSupport => [PauseTech] + ([EscalateSupport] + ([ResolveSupport] + rest))
            case Support => [EscalateSupport] + ([ResolveSupport] + rest)
            case SubmissionToSupport => [BeginSubmit] + ([EscalateSupport] + ([ResolveSupport] + rest))
  {
  }

  lemma ClosingFinalises()
    ensures Run(Active, CLOSING) == Moved(Finalised)
  {
    assert CLOSING == [BeginSubmit] + ([ConfirmReceipt] + ([BeginReview] + ([Finalise] + [])));
    RunCons(Active, BeginSubmit, [ConfirmReceipt] + ([BeginReview] + ([Finalise] + [])));
    RunCons(Submitting, ConfirmReceipt, [BeginReview] + ([Finalise] + []));
    RunCons(Submitted, BeginReview, [Finalise] + []);
    RunCons(Reviewing, Finalise, []);
  }

  lemma {:induction false} DetoursFinalise(ds: seq<Detour>)
    ensures Run(Active, Words(ds) + CLOSING) == Moved(Finalised)
  {
    if ds == [] {
      ClosingFinalises();
      assert Words([]) + CLOSING == CLOSING;
    } else {
      Cons(ds);
      DetourFirst(ds[0], ds[1..]);
      DetourReturns(ds[0], Words(ds[1..]) + CLOSING);
      DetoursFinalise(ds[1..]);
    }
  }

  lemma WordFinalises(ds: seq<Detour>)
    ensures Run(Invited, SuccessfulWord(ds)) == Moved(Finalised)
  {
    var rest := Words(ds) + CLOSING;
    DetoursFinalise(ds);
    WordUnfolds(rest);
    RunCons(Invited, Disclose, [CompletePreflight] + ([CheckIn] + ([Start] + rest)));
    RunCons(Disclosed, CompletePreflight, [CheckIn] + ([Start] + rest));
    RunCons(Preflight, CheckIn, [Start] + rest);
    RunCons(Ready, Start, rest);
  }

  /** A run from `invited` is finalised exactly when it is one of these words. */
  lemma SuccessfulRuns(events: seq<Event>)
    ensures Run(Invited, events) == Moved(Finalised) <==> exists ds: seq<Detour> :: events == SuccessfulWord(ds)
  {
    if Run(Invited, events) == Moved(Finalised) {
      var ds := FromInvited(events);
    }
    forall ds: seq<Detour> | events == SuccessfulWord(ds)
      ensures Run(Invited, events) == Moved(Finalised)
    {
      WordFinalises(ds);
    }
  }

  // --- a started session cannot expire ---

  predicate Started(s: State) {
    s !in {Invited, Disclosed, Preflight, Ready, Expired}
  }

  lemma {:induction false} StartedNeverExpires(s: State, events: seq<Event>)
    requires Started(s)
    ensures Run(s, events) != Moved(Expired)
    decreases |events|
  {
    if events == [] {
    } else {
      var step := Next(s, events[0]);
      if step.Moved? {
        StartedNeverExpires(step.to, events[1..]);
      }
    }
  }

  lemma {:induction false} RunConcat(s: State, first: seq<Event>, second: seq<Event>)
    requires Run(s, first).Moved?
    ensures Run(s, first + second) == Run(Run(s, first).to, second)
    decreases |first|
  {
    if first == [] {
      assert first + second == second;
    } else {
      RunConcat(Next(s, first[0]).to, first[1..], second);
      Cons(first);
      Regroup([first[0]], first[1..], second);
      RunCons(s, first[0], first[1..] + second);
    }
  }

  /** No run that has been through `active` ends in `expired`. */
  lemma ActiveNeverExpires(s: State, first: seq<Event>, second: seq<Event>)
    requires Run(s, first) == Moved(Active)
    ensures Run(s, first + second) != Moved(Expired)
  {
    RunConcat(s, first, second);
    StartedNeverExpires(Active, second);
  }

  // --- how else a run can end ---

  lemma {:induction false} RunSnoc(s: State, events: seq<Event>, e: Event)
    ensures Run(s, events + [e])
            == if Run(s, events).Moved? then Next(Run(s, events).to, e) else Run(s, events)
    decreases |events|
  {
    if events == [] {
      assert [] + [e] == [e] && [e][1..] == [];
    } else {
      assert (events + [e])[1..] == events[1..] + [e];
      if Next(s, events[0]).Moved? {
        RunSnoc(Next(s, events[0]).to, events[1..], e);
      }
    }
  }

  /**
   * A session is withdrawn exactly by that event up to and including `active`, but not while it is paused, and
   * expires exactly by that event before it is started.
   */
  lemma EndedRuns(events: seq<Event>, e: Event)
    ensures Run(Invited, events + [e]) == Moved(Withdrawn) <==>
            e == Withdraw && Run(Invited, events).Moved?
            && Run(Invited, events).to in {Invited, Disclosed, Preflight, Ready, Active}
    ensures Run(Invited, events + [e]) == Moved(Expired) <==>
            e == Expire && Run(Invited, events).Moved?
            && Run(Invited, events).to in {Invited, Disclosed, Preflight, Ready}
  {
    RunSnoc(Invited, events, e);
  }

  /** A run fails at its first event that is not allowed, and names it with the state it was met in. */
  lemma {:induction false} FirstRefusal(s: State, events: seq<Event>) returns (k: nat)
    requires Run(s, events).IllegalTransition?
    ensures k < |events| && Run(s, events[..k]) == Moved(Run(s, events).from) && Run(s, events).event == events[k]
    ensures !Next(Run(s, events).from, events[k]).Moved?
    decreases |events|
  {
    if !Next(s, events[0]).Moved? {
      k := 0;
    } else {
      var m := FirstRefusal(Next(s, events[0]).to, events[1..]);
      k := m + 1;
      assert events[..k][1..] == events[1..][..m];
    }
  }
}
