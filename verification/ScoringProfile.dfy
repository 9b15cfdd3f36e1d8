/** What an evidence profile says, read off the template and the assessments. */
module ScoringProfile {
  import opened JsText
  import opened Sequences
  import opened Bands
  import opened Scoring
  import opened ScoringIndex
  import opened ScoringReview

  // ---------------------------------------------------------------------------
  // One criterion
  // ---------------------------------------------------------------------------

  /** Two reviewers differ by the trigger or more. */
  predicate Apart(a: Assessment, trigger: real) {
    a.reviewer1.Some? && a.reviewer2.Some?
    && (a.reviewer1.value - a.reviewer2.value >= trigger || a.reviewer2.value - a.reviewer1.value >= trigger)
  }

  /** They do, and nobody has adjudicated. */
  predicate Disputed(a: Assessment, trigger: real) {
    a.adjudicated.None? && Apart(a, trigger)
  }

  predicate HasScore(a: Assessment, trigger: real) {
    a.adjudicated.Some? || ((a.reviewer1.Some? || a.reviewer2.Some?) && !Apart(a, trigger))
  }

  /** Some character of the note is not white space. */
  predicate HasNote(a: Assessment) {
    a.evidenceNote.Some? && exists k :: 0 <= k < |a.evidenceNote.value| && !IsSpace(a.evidenceNote.value[k])
  }

  /** The adjudicated score goes before the reviewers', of which the mean is taken. */
  predicate ScoreOf(a: Assessment, score: real) {
    if a.adjudicated.Some? then score == a.adjudicated.value
    else if a.reviewer1.Some? && a.reviewer2.Some? then 2.0 * score == a.reviewer1.value + a.reviewer2.value
    else Some(score) in {a.reviewer1, a.reviewer2}
  }

  /** The resolution of a criterion that nobody has assessed. */
  predicate NotAssessed(r: Resolution) {
    r.finalScore.None? && r.status == Unscored && !r.varianceFlag && !r.notePresent && !r.criticalConcern
  }

  /** The resolution of a criterion by its assessment. */
  predicate AssessedAs(r: Resolution, a: Assessment, controls: Controls) {
    && (r.finalScore.Some? <==> HasScore(a, controls.varianceTrigger))
    && (r.finalScore.Some? ==> ScoreOf(a, r.finalScore.value))
    && (r.status == Scored <==> HasScore(a, controls.varianceTrigger))
    && (r.status == AdjudicationRequired <==> Disputed(a, controls.varianceTrigger))
    && (r.varianceFlag <==> Apart(a, controls.varianceTrigger)
                            || (a.adjudicated.Some? && (a.reviewer1.None? || a.reviewer2.None?)
                                && controls.varianceTrigger <= 0.0))
    && (r.notePresent <==> HasNote(a))
    && (r.criticalConcern <==> r.critical && r.finalScore.Some? && r.finalScore.value <= controls.criticalThreshold)
  }

  predicate OfCriterion(r: Resolution, c: Criterion) {
    r.criterionId == c.id && r.dimension == c.dimension && r.weight == c.weight && r.critical == c.critical
  }

  /** The resolutions are those of the template's criteria, in order, each by the one assessment it has, if any. */
  predicate Resolves(rs: seq<Resolution>, criteria: seq<Criterion>, assessments: seq<Assessment>, controls: Controls) {
    && |rs| == |criteria|
    && (forall i :: 0 <= i < |rs| ==> OfCriterion(rs[i], criteria[i]))
    && (forall i, a :: 0 <= i < |rs| && a in assessments && a.criterionId == criteria[i].id ==>
          AssessedAs(rs[i], a, controls))
    && (forall i :: 0 <= i < |rs| && criteria[i].id !in Ids(assessments) ==> NotAssessed(rs[i]))
  }

  lemma NotedExactly(a: Assessment)
    ensures NotePresent(Some(a)) <==> HasNote(a)
  {
    if a.evidenceNote.Some? {
      TrimExactly(a.evidenceNote.value);
    }
  }

  lemma AssessedExactly(c: Criterion, byId: ById, a: Assessment, controls: Controls)
    requires c.id in byId && byId[c.id] == a
    ensures AssessedAs(ResolveCriterion(c, byId, controls), a, controls)
  {
    NotedExactly(a);
  }

  /** What distinct assessments are collected to. */
  lemma CollectedExactly(assessments: seq<Assessment>, a: Assessment)
    requires Distinct(assessments) && a in assessments
    ensures a.criterionId in Collect(assessments) && Collect(assessments)[a.criterionId] == a
  {
    CollectKeys(assessments);
    assert a.criterionId in Ids(assessments);
    OneAssessmentPerId(assessments, a, Collect(assessments)[a.criterionId]);
  }

  lemma CriteriaTell(template: Template, model: Model, assessments: seq<Assessment>, p: Profile)
    requires IsOutcome(template, model, assessments, Evaluated(p))
    ensures p.templateCode == template.code && p.frameworkVersion == template.frameworkVersion
    ensures Resolves(p.criteria, template.criteria, assessments, model.controls)
  {
    var byId := Collect(assessments);
    CollectKeys(assessments);
    ResolveAllLength(template.criteria, byId, model.controls);
    forall i | 0 <= i < |p.criteria|
      ensures p.criteria[i] == ResolveCriterion(template.criteria[i], byId, model.controls)
    {
      ResolveAllAt(template.criteria, byId, model.controls, i);
    }
    forall i, a | 0 <= i < |p.criteria| && a in assessments && a.criterionId == template.criteria[i].id
      ensures AssessedAs(p.criteria[i], a, model.controls)
    {
      CollectedExactly(assessments, a);
      AssessedExactly(template.criteria[i], byId, a, model.controls);
    }
  }

  // ---------------------------------------------------------------------------
  // The route
  // ---------------------------------------------------------------------------

  predicate SomeDisputed(assessments: seq<Assessment>, trigger: real) {
    exists a :: a in assessments && Disputed(a, trigger)
  }

  lemma {:induction false} RequiredWhenDisputed(rs: seq<Resolution>)
    ensures AdjudicationsRequired(rs) != [] <==> exists r :: r in rs && r.status == AdjudicationRequired
  {
    if rs == [] {
    } else {
      RequiredWhenDisputed(rs[1..]);
      Cons(rs);
      assert forall r :: r in rs <==> r == rs[0] || r in rs[1..];
    }
  }

  lemma DisputedFrom(rs: seq<Resolution>, criteria: seq<Criterion>, assessments: seq<Assessment>, controls: Controls,
                     i: nat)
    requires Resolves(rs, criteria, assessments, controls) && i < |rs| && rs[i].status == AdjudicationRequired
    ensures SomeDisputed(assessments, controls.varianceTrigger)
  {
    assert criteria[i].id in Ids(assessments);
    var a :| a in assessments && a.criterionId == criteria[i].id;
    assert AssessedAs(rs[i], a, controls);
  }

  lemma DisputedTo(rs: seq<Resolution>, criteria: seq<Criterion>, assessments: seq<Assessment>, controls: Controls,
                   a: Assessment)
    requires Resolves(rs, criteria, assessments, controls) && a in assessments && Disputed(a, controls.varianceTrigger)
    requires exists c :: c in criteria && c.id == a.criterionId
    ensures exists r :: r in rs && r.status == AdjudicationRequired
  {
    var c :| c in criteria && c.id == a.criterionId;
    var i :| 0 <= i < |criteria| && criteria[i] == c;
    assert AssessedAs(rs[i], a, controls);
    assert rs[i] in rs;
  }

  lemma DisputedResolution(template: Template, model: Model, assessments: seq<Assessment>, p: Profile)
    requires IsOutcome(template, model, assessments, Evaluated(p))
    ensures (exists r :: r in p.criteria && r.status == AdjudicationRequired) <==>
            SomeDisputed(assessments, model.controls.varianceTrigger)
  {
    CriteriaTell(template, model, assessments, p);
    if r :| r in p.criteria && r.status == AdjudicationRequired {
      var i: nat :| i < |p.criteria| && p.criteria[i] == r;
      DisputedFrom(p.criteria, template.criteria, assessments, model.controls, i);
    }
    if a :| a in assessments && Disputed(a, model.controls.varianceTrigger) {
      assert a.criterionId in Ids(assessments);
      DisputedTo(p.criteria, template.criteria, assessments, model.controls, a);
    }
  }

  /**
   * The route of any profile: adjudicate first exactly when two reviewers differ by the trigger with nobody having
   * adjudicated; otherwise ready for review exactly when both coverages reach their minimum.
   */
  lemma RouteExactly(template: Template, model: Model, assessments: seq<Assessment>, p: Profile)
    requires IsOutcome(template, model, assessments, Evaluated(p))
    ensures p.route == AdjudicateFirst <==> SomeDisputed(assessments, model.controls.varianceTrigger)
    ensures p.route == ReadyForHumanReview <==>
            !SomeDisputed(assessments, model.controls.varianceTrigger)
            && p.scoredCoverage >= model.controls.minimumScoredCoverage
            && p.noteCoverage >= model.controls.minimumNoteCoverage
  {
    DisputedResolution(template, model, assessments, p);
    RequiredWhenDisputed(p.criteria);
  }

  // ---------------------------------------------------------------------------
  // Sums and rounding
  // ---------------------------------------------------------------------------

  /** The weight of the resolutions picked out. */
  function WeightOf(rs: seq<Resolution>, keep: Resolution -> bool): real {
    if rs == [] then 0.0 else (if keep(rs[0]) then rs[0].weight else 0.0) + WeightOf(rs[1..], keep)
  }

  /** Their weighted scores, each moved from 1..5 to 0..1. */
  function ScoresOf(rs: seq<Resolution>, keep: Resolution -> bool): real {
    if rs == [] then 0.0
    else
      (if keep(rs[0]) && rs[0].finalScore.Some? then rs[0].weight * ((rs[0].finalScore.value - 1.0) / 4.0) else 0.0)
      + ScoresOf(rs[1..], keep)
  }

  predicate Every(r: Resolution) {
    true
  }

  predicate Given(r: Resolution) {
    r.finalScore.Some?
  }

  predicate Evidenced(r: Resolution) {
    r.finalScore.Some? && r.notePresent
  }

  function Of(name: string): Resolution -> bool {
    (r: Resolution) => r.dimension == name
  }

  function GivenOf(name: string): Resolution -> bool {
    (r: Resolution) => r.dimension == name && r.finalScore.Some?
  }

  /** `r` is `x` to the nearest ten-thousandth, halves going up. */
  predicate IsRounded(r: real, x: real) {
    var n := (r * 10000.0).Floor as real;
    r * 10000.0 == n && n - 0.5 <= x * 10000.0 < n + 0.5
  }

  /** `r` is the share of the whole, rounded, and zero when there is no whole. */
  predicate IsShare(r: real, part: real, whole: real) {
    if whole > 0.0 then IsRounded(r, part / whole) else r == 0.0
  }

  /** The same where nothing takes the place of zero. */
  predicate IsIndex(r: Option<real>, part: real, whole: real) {
    if whole > 0.0 then r.Some? && IsRounded(r.value, part / whole) else r.None?
  }

  lemma RoundRounds(x: real)
    ensures IsRounded(Round4(x), x)
  {
    var n := (x * 10000.0 + 0.5).Floor;
    assert Round4(x) == n as real / 10000.0;
  }

  lemma {:induction false} SumsExactly(rs: seq<Resolution>)
    ensures WeightOf(rs, Every) == TotalWeight(rs) && WeightOf(rs, Given) == ScoredWeight(rs)
    ensures WeightOf(rs, Evidenced) == NotedWeight(rs) && ScoresOf(rs, Given) == Achievement(rs)
  {
    if rs == [] {
    } else {
      SumsExactly(rs[1..]);
    }
  }

  lemma {:induction false} DimensionSums(rs: seq<Resolution>, name: string)
    ensures WeightOf(rs, Of(name)) == TotalWeight(InDimension(rs, name))
    ensures WeightOf(rs, GivenOf(name)) == ScoredWeight(InDimension(rs, name))
    ensures ScoresOf(rs, Of(name)) == Achievement(InDimension(rs, name))
  {
    if rs == [] {
    } else {
      DimensionSums(rs[1..], name);
      if rs[0].dimension == name {
        InDimensionCons(rs, name);
      } else {
        InDimensionSkips(rs, name);
      }
    }
  }

  lemma ShareIsShare(part: real, whole: real)
    ensures IsShare(Share(part, whole), part, whole)
  {
    if whole > 0.0 {
      RoundRounds(part / whole);
    }
  }

  lemma IndexIsIndex(rs: seq<Resolution>)
    ensures IsIndex(Index(rs), Achievement(rs), ScoredWeight(rs))
  {
    if ScoredWeight(rs) > 0.0 {
      RoundRounds(Achievement(rs) / ScoredWeight(rs));
    }
  }

  /** The coverages: the share of the weight that is scored, and of that the share with a note. */
  lemma CoverageTells(template: Template, model: Model, assessments: seq<Assessment>, p: Profile)
    requires IsOutcome(template, model, assessments, Evaluated(p))
    ensures IsShare(p.scoredCoverage, WeightOf(p.criteria, Given), WeightOf(p.criteria, Every))
    ensures IsShare(p.noteCoverage, WeightOf(p.criteria, Evidenced), WeightOf(p.criteria, Given))
  {
    SumsExactly(p.criteria);
    ShareIsShare(ScoredWeight(p.criteria), TotalWeight(p.criteria));
    ShareIsShare(NotedWeight(p.criteria), ScoredWeight(p.criteria));
  }

  /** The overall index is the weighted mean of the scores given, and its band the one that index falls in. */
  lemma OverallTells(template: Template, model: Model, assessments: seq<Assessment>, p: Profile)
    requires IsOutcome(template, model, assessments, Evaluated(p))
    ensures IsIndex(p.overallIndex, ScoresOf(p.criteria, Given), WeightOf(p.criteria, Given))
    ensures p.overallBand.Some? <==> p.overallIndex.Some?
    ensures p.overallIndex.Some? ==> p.overallBand.value == BandName(p.overallIndex.value, model.bands)
  {
    SumsExactly(p.criteria);
    IndexIsIndex(p.criteria);
  }

  /** A dimension's summary is made of the criteria that name it. */
  predicate Summarises(s: Summary, d: Dimension, rs: seq<Resolution>, bands: seq<Band>) {
    && s.key == d.key && s.name == d.name && s.weight == d.weight
    && IsRounded(s.totalWeight, WeightOf(rs, Of(d.name))) && IsRounded(s.scoredWeight, WeightOf(rs, GivenOf(d.name)))
    && IsIndex(s.achievementIndex, ScoresOf(rs, Of(d.name)), WeightOf(rs, GivenOf(d.name)))
    && s.band == if s.achievementIndex.None? then "Not assessed in this task"
                 else BandName(s.achievementIndex.value, bands)
  }

  lemma SummariseTells(d: Dimension, rs: seq<Resolution>, bands: seq<Band>)
    ensures Summarises(Summarise(d, rs, bands), d, rs, bands)
  {
    DimensionSums(rs, d.name);
    IndexIsIndex(InDimension(rs, d.name));
    RoundRounds(TotalWeight(InDimension(rs, d.name)));
    RoundRounds(ScoredWeight(InDimension(rs, d.name)));
  }

  lemma {:induction false} SummariesLength(dimensions: seq<Dimension>, rs: seq<Resolution>, bands: seq<Band>)
    ensures |Summaries(dimensions, rs, bands)| == |dimensions|
  {
    if dimensions == [] {
    } else {
      SummariesLength(dimensions[1..], rs, bands);
    }
  }

  lemma DimensionsTell(template: Template, model: Model, assessments: seq<Assessment>, p: Profile)
    requires IsOutcome(template, model, assessments, Evaluated(p))
    ensures |p.dimensions| == |model.dimensions|
    ensures forall i :: 0 <= i < |p.dimensions| ==>
              Summarises(p.dimensions[i], model.dimensions[i], p.criteria, model.bands)
  {
    SummariesLength(model.dimensions, p.criteria, model.bands);
    forall i | 0 <= i < |p.dimensions|
      ensures Summarises(p.dimensions[i], model.dimensions[i], p.criteria, model.bands)
    {
      SummariesAt(model.dimensions, p.criteria, model.bands, i);
      SummariseTells(model.dimensions[i], p.criteria, model.bands);
    }
  }

  // ---------------------------------------------------------------------------
  // The lists
  // ---------------------------------------------------------------------------

  /** Where in the list the resolutions picked out stand. */
  function Places(rs: seq<Resolution>, keep: Resolution -> bool): seq<nat> {
    if rs == [] then []
    else
      var n := |rs| - 1;
      Places(rs[..n], keep) + if keep(rs[n]) then [n] else []
  }

  /** All of them, in order. */
  lemma {:induction false} PlacesExactly(rs: seq<Resolution>, keep: Resolution -> bool)
    ensures forall k :: 0 <= k < |Places(rs, keep)| ==> Places(rs, keep)[k] < |rs| && keep(rs[Places(rs, keep)[k]])
    ensures forall k, m :: 0 <= k < m < |Places(rs, keep)| ==> Places(rs, keep)[k] < Places(rs, keep)[m]
    ensures forall i :: 0 <= i < |rs| && keep(rs[i]) ==> i in Places(rs, keep)
  {
    if rs == [] {
    } else {
      PlacesExactly(rs[..|rs| - 1], keep);
    }
  }

  predicate NeedsRuling(r: Resolution) {
    r.status == AdjudicationRequired
  }

  predicate RaisesConcern(r: Resolution) {
    r.criticalConcern && r.finalScore.Some?
  }

  lemma {:induction false} AdjudicationsSnoc(rs: seq<Resolution>, r: Resolution)
    ensures AdjudicationsRequired(rs + [r])
            == AdjudicationsRequired(rs) + if NeedsRuling(r) then [r.criterionId] else []
  {
    if rs == [] {
      assert [r][1..] == [];
      assert [] + [r] == [r];
    } else {
      AdjudicationsSnoc(rs[1..], r);
      DropConcat(rs, [r], 1);
      Regroup(if NeedsRuling(rs[0]) then [rs[0].criterionId] else [], AdjudicationsRequired(rs[1..]),
              if NeedsRuling(r) then [r.criterionId] else []);
    }
  }

  lemma {:induction false} ConcernsSnoc(rs: seq<Resolution>, r: Resolution)
    ensures Concerns(rs + [r])
            == Concerns(rs) + if RaisesConcern(r) then [Concern(r.criterionId, r.finalScore.value)] else []
  {
    if rs == [] {
      assert [r][1..] == [];
      assert [] + [r] == [r];
    } else {
      ConcernsSnoc(rs[1..], r);
      DropConcat(rs, [r], 1);
      var own := if RaisesConcern(rs[0]) then [Concern(rs[0].criterionId, rs[0].finalScore.value)] else [];
      Regroup(own, Concerns(rs[1..]), if RaisesConcern(r) then [Concern(r.criterionId, r.finalScore.value)] else []);
    }
  }

  lemma {:induction false} ListsByPlace(rs: seq<Resolution>)
    ensures |AdjudicationsRequired(rs)| == |Places(rs, NeedsRuling)| && |Concerns(rs)| == |Places(rs, RaisesConcern)|
    ensures forall k :: 0 <= k < |AdjudicationsRequired(rs)| ==>
              Places(rs, NeedsRuling)[k] < |rs|
              && AdjudicationsRequired(rs)[k] == rs[Places(rs, NeedsRuling)[k]].criterionId
    ensures forall k :: 0 <= k < |Concerns(rs)| ==>
              Places(rs, RaisesConcern)[k] < |rs| && rs[Places(rs, RaisesConcern)[k]].finalScore.Some?
              && Concerns(rs)[k] == Concern(rs[Places(rs, RaisesConcern)[k]].criterionId,
                                            rs[Places(rs, RaisesConcern)[k]].finalScore.value)
  {
    if rs == [] {
    } else {
      var n := |rs| - 1;
      ListsByPlace(rs[..n]);
      Snoc(rs);
      AdjudicationsSnoc(rs[..n], rs[n]);
      ConcernsSnoc(rs[..n], rs[n]);
      PlacesExactly(rs[..n], NeedsRuling);
      PlacesExactly(rs[..n], RaisesConcern);
    }
  }

  /** Both lists go through the criteria in their order. */
  lemma ListsTell(template: Template, model: Model, assessments: seq<Assessment>, p: Profile)
    requires IsOutcome(template, model, assessments, Evaluated(p))
    ensures var at := Places(p.criteria, NeedsRuling);
            |p.adjudicationsRequired| == |at| && forall k :: 0 <= k < |at| ==>
              at[k] < |p.criteria| && p.adjudicationsRequired[k] == p.criteria[at[k]].criterionId
    ensures var at := Places(p.criteria, RaisesConcern);
            |p.criticalConcerns| == |at| && forall k :: 0 <= k < |at| ==>
              at[k] < |p.criteria| && p.criteria[at[k]].finalScore.Some?
              && p.criticalConcerns[k] == Concern(p.criteria[at[k]].criterionId, p.criteria[at[k]].finalScore.value)
  {
    ListsByPlace(p.criteria);
  }

  // ---------------------------------------------------------------------------
  // How far coverage goes
  // ---------------------------------------------------------------------------

  predicate Positive(rs: seq<Resolution>) {
    forall i :: 0 <= i < |rs| ==> rs[i].weight > 0.0
  }

  /** None is picked out. */
  predicate NoneOf(rs: seq<Resolution>, keep: Resolution -> bool) {
    forall i :: 0 <= i < |rs| ==> !keep(rs[i])
  }

  /** All of those are picked out. */
  predicate AllOf(rs: seq<Resolution>, those: Resolution -> bool, keep: Resolution -> bool) {
    forall i :: 0 <= i < |rs| && those(rs[i]) ==> keep(rs[i])
  }

  /** What is picked out of the one list is picked out of the other at the same place. */
  predicate NoFewer(rs: seq<Resolution>, qs: seq<Resolution>, keep: Resolution -> bool) {
    |rs| == |qs| && forall i :: 0 <= i < |rs| && keep(rs[i]) ==> keep(qs[i])
  }

  /** No narrower choice weighs more. */
  lemma {:induction false} WeightMonotone(rs: seq<Resolution>, qs: seq<Resolution>, keep: Resolution -> bool,
                                          more: Resolution -> bool)
    requires |rs| == |qs| && Positive(rs)
    requires forall i :: 0 <= i < |rs| ==> qs[i].weight == rs[i].weight && (keep(rs[i]) ==> more(qs[i]))
    ensures 0.0 <= WeightOf(rs, keep) <= WeightOf(qs, more)
    ensures WeightOf(rs, keep) == WeightOf(qs, more) <==> forall i :: 0 <= i < |rs| ==> (keep(rs[i]) <==> more(qs[i]))
  {
    if rs == [] {
    } else {
      WeightMonotone(rs[1..], qs[1..], keep, more);
      assert rs[0].weight > 0.0;
      assert (forall i :: 0 <= i < |rs| ==> (keep(rs[i]) <==> more(qs[i]))) <==>
             (keep(rs[0]) <==> more(qs[0]))
             && forall i :: 0 <= i < |rs[1..]| ==> (keep(rs[1..][i]) <==> more(qs[1..][i]))
      by {
        Cons(rs);
        Cons(qs);
      }
    }
  }

  lemma RoundedEnds(r: real, x: real)
    requires IsRounded(r, x) && 0.0 <= x <= 1.0
    ensures 0.0 <= r <= 1.0
    ensures r == 0.0 <==> 20000.0 * x < 1.0
    ensures r == 1.0 <==> 20000.0 * x >= 19999.0
  {
    var n := (r * 10000.0).Floor;
    assert 0 <= n <= 10000;
    assert n < 1 ==> n == 0;
    assert n > 9999 ==> n == 10000;
  }

  lemma RoundedMonotone(r: real, x: real, s: real, y: real)
    requires IsRounded(r, x) && IsRounded(s, y) && x <= y
    ensures r <= s
  {
    var m, n := (r * 10000.0).Floor, (s * 10000.0).Floor;
    assert m as real - 0.5 < n as real + 0.5;
    assert m <= n;
  }

  /** A share is zero exactly below half a ten-thousandth of the whole, and one exactly that near to it. */
  lemma ShareEnds(r: real, part: real, whole: real)
    requires IsShare(r, part, whole) && 0.0 <= part <= whole && whole > 0.0
    ensures 0.0 <= r <= 1.0
    ensures r == 0.0 <==> 20000.0 * part < whole
    ensures r == 1.0 <==> 20000.0 * part >= 19999.0 * whole
  {
    QuotientBounds(part, whole);
    QuotientTimes(part, whole);
    RoundedEnds(r, part / whole);
    Magnified(part / whole, part, whole);
  }

  lemma Magnified(x: real, part: real, whole: real)
    requires part == x * whole && whole > 0.0
    ensures 20000.0 * x < 1.0 <==> 20000.0 * part < whole
    ensures 20000.0 * x < 19999.0 <==> 20000.0 * part < 19999.0 * whole
  {
    Against(x, whole, 1.0 / 20000.0);
    Against(x, whole, 19999.0 / 20000.0);
  }

  lemma Against(x: real, whole: real, y: real)
    requires whole > 0.0
    ensures x < y <==> x * whole < y * whole
  {
    if x < y {
      ScalePositive(y - x, whole);
    } else if y < x {
      ScalePositive(x - y, whole);
    }
  }

  lemma SharesMonotone(r: real, part: real, s: real, more: real, whole: real)
    requires IsShare(r, part, whole) && IsShare(s, more, whole) && part <= more
    ensures r <= s
  {
    if whole > 0.0 {
      QuotientMonotone(part, more, whole);
      RoundedMonotone(r, part / whole, s, more / whole);
    }
  }

  lemma {:induction false} PositiveWeights(criteria: seq<Criterion>, rs: seq<Resolution>)
    requires WeightsPositive(criteria) && |rs| == |criteria|
    requires forall i :: 0 <= i < |rs| ==> rs[i].weight == criteria[i].weight
    ensures Positive(rs)
  {
    if criteria == [] {
    } else {
      PositiveWeights(criteria[1..], rs[1..]);
      Cons(rs);
    }
  }

  predicate Nobody(r: Resolution) {
    false
  }

  lemma {:induction false} NothingWeighs(rs: seq<Resolution>)
    ensures WeightOf(rs, Nobody) == 0.0
  {
    if rs == [] {
    } else {
      NothingWeighs(rs[1..]);
    }
  }

  lemma PositivesOf(template: Template, model: Model, assessments: seq<Assessment>, p: Profile)
    requires IsOutcome(template, model, assessments, Evaluated(p)) && WeightsPositive(template.criteria)
    ensures Positive(p.criteria) && |p.criteria| == |template.criteria|
    ensures forall i :: 0 <= i < |p.criteria| ==> p.criteria[i].weight == template.criteria[i].weight
  {
    CriteriaTell(template, model, assessments, p);
    PositiveWeights(template.criteria, p.criteria);
  }

  /**
   * Coverage goes from 0, when nothing is scored, to 1, when everything is. It is 0 besides for what weighs less than
   * a twenty-thousandth of the whole, which rounding loses, and 1 for what leaves out as little.
   */
  lemma ScoredCoverageEnds(template: Template, model: Model, assessments: seq<Assessment>, p: Profile)
    requires IsOutcome(template, model, assessments, Evaluated(p))
    requires WeightsPositive(template.criteria) && template.criteria != []
    ensures 0.0 <= p.scoredCoverage <= 1.0
    ensures NoneOf(p.criteria, Given) ==> p.scoredCoverage == 0.0
    ensures AllOf(p.criteria, Every, Given) ==> p.scoredCoverage == 1.0
    ensures p.scoredCoverage == 0.0 <==> 20000.0 * WeightOf(p.criteria, Given) < WeightOf(p.criteria, Every)
    ensures p.scoredCoverage == 1.0 <==> 20000.0 * WeightOf(p.criteria, Given) >= 19999.0 * WeightOf(p.criteria, Every)
  {
    PositivesOf(template, model, assessments, p);
    CoverageTells(template, model, assessments, p);
    WeightMonotone(p.criteria, p.criteria, Given, Every);
    WeightMonotone(p.criteria, p.criteria, Nobody, Given);
    WeightMonotone(p.criteria, p.criteria, Nobody, Every);
    NothingWeighs(p.criteria);
    assert p.criteria[0].weight > 0.0;
    ShareEnds(p.scoredCoverage, WeightOf(p.criteria, Given), WeightOf(p.criteria, Every));
  }

  /** The same of the notes, among the criteria that are scored; zero when none is. */
  lemma NoteCoverageEnds(template: Template, model: Model, assessments: seq<Assessment>, p: Profile)
    requires IsOutcome(template, model, assessments, Evaluated(p)) && WeightsPositive(template.criteria)
    ensures 0.0 <= p.noteCoverage <= 1.0
    ensures NoneOf(p.criteria, Evidenced) ==> p.noteCoverage == 0.0
    ensures !NoneOf(p.criteria, Given) ==>
              && (AllOf(p.criteria, Given, Evidenced) ==> p.noteCoverage == 1.0)
              && (p.noteCoverage == 0.0 <==> 20000.0 * WeightOf(p.criteria, Evidenced) < WeightOf(p.criteria, Given))
              && (p.noteCoverage == 1.0 <==>
                    20000.0 * WeightOf(p.criteria, Evidenced) >= 19999.0 * WeightOf(p.criteria, Given))
  {
    PositivesOf(template, model, assessments, p);
    CoverageTells(template, model, assessments, p);
    WeightMonotone(p.criteria, p.criteria, Evidenced, Given);
    WeightMonotone(p.criteria, p.criteria, Nobody, Given);
    WeightMonotone(p.criteria, p.criteria, Nobody, Evidenced);
    NothingWeighs(p.criteria);
    if WeightOf(p.criteria, Given) > 0.0 {
      ShareEnds(p.noteCoverage, WeightOf(p.criteria, Evidenced), WeightOf(p.criteria, Given));
    }
  }

  /** More scored means no less covered; more noted, among the same that are scored, likewise. */
  lemma CoverageMonotone(template: Template, model: Model, before: seq<Assessment>, after: seq<Assessment>, p: Profile,
                         q: Profile)
    requires IsOutcome(template, model, before, Evaluated(p)) && IsOutcome(template, model, after, Evaluated(q))
    requires WeightsPositive(template.criteria)
    ensures |p.criteria| == |q.criteria|
    ensures NoFewer(p.criteria, q.criteria, Given) ==> p.scoredCoverage <= q.scoredCoverage
    ensures (&& NoFewer(p.criteria, q.criteria, Given) && NoFewer(q.criteria, p.criteria, Given)
             && NoFewer(p.criteria, q.criteria, Evidenced)) ==> p.noteCoverage <= q.noteCoverage
  {
    PositivesOf(template, model, before, p);
    PositivesOf(template, model, after, q);
    CoverageTells(template, model, before, p);
    CoverageTells(template, model, after, q);
    WeightMonotone(p.criteria, q.criteria, Every, Every);
    if NoFewer(p.criteria, q.criteria, Given) {
      WeightMonotone(p.criteria, q.criteria, Given, Given);
      SharesMonotone(p.scoredCoverage, WeightOf(p.criteria, Given), q.scoredCoverage, WeightOf(q.criteria, Given),
                     WeightOf(p.criteria, Every));
    }
    if NoFewer(p.criteria, q.criteria, Given) && NoFewer(q.criteria, p.criteria, Given)
       && NoFewer(p.criteria, q.criteria, Evidenced) {
      WeightMonotone(p.criteria, q.criteria, Given, Given);
      WeightMonotone(p.criteria, q.criteria, Evidenced, Evidenced);
      SharesMonotone(p.noteCoverage, WeightOf(p.criteria, Evidenced), q.noteCoverage, WeightOf(q.criteria, Evidenced),
                     WeightOf(p.criteria, Given));
    }
  }

  /** A scored criterion of little weight leaves the coverage at zero. */
  lemma LittleWeightUncovered(template: Template, model: Model, p: Profile)
    requires template.criteria == [Criterion("a", "d", 1.0, false), Criterion("b", "d", 0.00001, false)]
    requires IsOutcome(template, model, [Assessment("b", Some(5.0), None, None, None)], Evaluated(p))
    ensures |p.criteria| == 2 && p.criteria[1].finalScore == Some(5.0) && p.scoredCoverage == 0.0
  {
    var given := Assessment("b", Some(5.0), None, None, None);
    var assessments := [given];
    CriteriaTell(template, model, assessments, p);
    assert given in assessments && AssessedAs(p.criteria[1], given, model.controls);
    assert template.criteria[0].id !in Ids(assessments);
    WeightsOfTwo(p.criteria);
    assert WeightsPositive(template.criteria[1..]) by { assert template.criteria[1..][1..] == []; }
    ScoredCoverageEnds(template, model, assessments, p);
  }

  lemma WeightsOfTwo(rs: seq<Resolution>)
    requires |rs| == 2
    ensures WeightOf(rs, Every) == rs[0].weight + rs[1].weight
    ensures WeightOf(rs, Given)
            == (if Given(rs[0]) then rs[0].weight else 0.0) + if Given(rs[1]) then rs[1].weight else 0.0
  {
    var last := rs[1..];
    assert last[0] == rs[1] && last[1..] == [];
    assert WeightOf(last[1..], Every) == 0.0 && WeightOf(last[1..], Given) == 0.0;
    assert WeightOf(last, Every) == rs[1].weight;
  }
}
