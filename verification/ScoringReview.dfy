/** Adjudication settles what it is asked to, criticality steers nothing, and order does not matter. */
module ScoringReview {
  import opened JsText
  import opened Sequences
  import opened Scoring
  import opened ScoringIndex

  // ---------------------------------------------------------------------------
  // Supplying the adjudicated scores
  // ---------------------------------------------------------------------------

  /** `after` is `before` with an adjudicated score for each required id and nothing else changed. */
  predicate Adjudicated(before: ById, after: ById, required: seq<string>) {
    && before.Keys == after.Keys
    && forall id :: id in before ==>
         if id in required then
           after[id].adjudicated.Some? && after[id] == before[id].(adjudicated := after[id].adjudicated)
         else after[id] == before[id]
  }

  predicate NeedsAdjudication(byId: ById, id: string, controls: Controls) {
    Resolve(Lookup(byId, id), controls.varianceTrigger).status == AdjudicationRequired
  }

  /** The list names exactly the criteria that need adjudication. */
  lemma {:induction false} RequiredIds(criteria: seq<Criterion>, byId: ById, controls: Controls, id: string)
    ensures id in AdjudicationsRequired(ResolveAll(criteria, byId, controls)) <==>
            (exists c :: c in criteria && c.id == id) && NeedsAdjudication(byId, id, controls)
  {
    if criteria == [] {
    } else {
      ResolveAllHead(criteria, byId, controls);
      RequiredIds(criteria[1..], byId, controls, id);
      Cons(criteria);
      assert forall c :: c in criteria <==> c == criteria[0] || c in criteria[1..];
    }
  }

  /** What adjudication does to one resolution. */
  predicate SettledOne(c: Resolution, d: Resolution) {
    if c.status == AdjudicationRequired then
      && d.status == Scored && d.finalScore.Some?
      && d == c.(finalScore := d.finalScore, status := Scored, varianceFlag := true,
                  criticalConcern := d.criticalConcern)
    else d == c
  }

  predicate Settled(cs: seq<Resolution>, ds: seq<Resolution>) {
    |cs| == |ds| && (cs == [] || (SettledOne(cs[0], ds[0]) && Settled(cs[1..], ds[1..])))
  }

  /** Criterion by criterion: those that needed adjudication are scored, the others are as they were. */
  predicate EachSettled(cs: seq<Resolution>, ds: seq<Resolution>) {
    |cs| == |ds| && forall i :: 0 <= i < |cs| ==> SettledOne(cs[i], ds[i])
  }

  lemma ResolveSettles(c: Criterion, before: ById, after: ById, controls: Controls, required: seq<string>)
    requires Adjudicated(before, after, required)
    requires c.id in required <==> NeedsAdjudication(before, c.id, controls)
    ensures SettledOne(ResolveCriterion(c, before, controls), ResolveCriterion(c, after, controls))
  {
  }

  lemma {:induction false} ResolveAllSettles(criteria: seq<Criterion>, before: ById, after: ById, controls: Controls,
                                             required: seq<string>)
    requires Adjudicated(before, after, required)
    requires forall c :: c in criteria ==> (c.id in required <==> NeedsAdjudication(before, c.id, controls))
    ensures Settled(ResolveAll(criteria, before, controls), ResolveAll(criteria, after, controls))
  {
    if criteria == [] {
    } else {
      ResolveSettles(criteria[0], before, after, controls, required);
      ResolveAllSettles(criteria[1..], before, after, controls, required);
      ResolveAllHead(criteria, before, controls);
      ResolveAllHead(criteria, after, controls);
    }
  }

  lemma {:induction false} SettledSums(cs: seq<Resolution>, ds: seq<Resolution>)
    requires Settled(cs, ds) && WeightsNonNegative(cs)
    ensures AdjudicationsRequired(ds) == [] && TotalWeight(cs) == TotalWeight(ds)
    ensures ScoredWeight(cs) <= ScoredWeight(ds)
  {
    if cs == [] {
    } else {
      SettledSums(cs[1..], ds[1..]);
    }
  }

  predicate WeightsNonNegative(cs: seq<Resolution>) {
    cs == [] || (cs[0].weight >= 0.0 && WeightsNonNegative(cs[1..]))
  }

  lemma {:induction false} ResolvedWeights(criteria: seq<Criterion>, byId: ById, controls: Controls)
    requires WeightsPositive(criteria)
    ensures WeightsNonNegative(ResolveAll(criteria, byId, controls))
  {
    if criteria == [] {
    } else {
      ResolveAllHead(criteria, byId, controls);
      ResolvedWeights(criteria[1..], byId, controls);
    }
  }

  lemma {:induction false} SettledAt(cs: seq<Resolution>, ds: seq<Resolution>, i: nat)
    requires Settled(cs, ds) && i < |cs|
    ensures SettledOne(cs[i], ds[i])
  {
    if i == 0 {
    } else {
      SettledAt(cs[1..], ds[1..], i - 1);
    }
  }

  lemma ShareMonotone(part: real, more: real, whole: real)
    requires part <= more
    ensures Share(part, whole) <= Share(more, whole)
  {
    if whole > 0.0 {
      QuotientMonotone(part, more, whole);
      RoundMonotone(part / whole, more / whole);
    }
  }

  /**
   * Once every required adjudication is supplied nothing is left to adjudicate, every other criterion
   * stands as it was, and the scored coverage has not fallen.
   */
  lemma AdjudicationSettles(template: Template, model: Model, before: ById, after: ById)
    requires WeightsPositive(template.criteria)
    requires Adjudicated(before, after, ProfileOf(template, model, before).adjudicationsRequired)
    ensures ProfileOf(template, model, after).adjudicationsRequired == []
    ensures ProfileOf(template, model, after).route != AdjudicateFirst
    ensures ProfileOf(template, model, before).scoredCoverage <= ProfileOf(template, model, after).scoredCoverage
    ensures EachSettled(ProfileOf(template, model, before).criteria, ProfileOf(template, model, after).criteria)
  {
    var required := ProfileOf(template, model, before).adjudicationsRequired;
    var cs, ds := ResolveAll(template.criteria, before, model.controls),
                  ResolveAll(template.criteria, after, model.controls);
    forall c | c in template.criteria
      ensures c.id in required <==> NeedsAdjudication(before, c.id, model.controls)
    {
      RequiredIds(template.criteria, before, model.controls, c.id);
    }
    ResolveAllSettles(template.criteria, before, after, model.controls, required);
    ResolvedWeights(template.criteria, before, model.controls);
    SettledSums(cs, ds);
    ShareMonotone(ScoredWeight(cs), ScoredWeight(ds), TotalWeight(cs));
    forall i | 0 <= i < |cs|
      ensures SettledOne(cs[i], ds[i])
    {
      SettledAt(cs, ds, i);
    }
  }

  // ---------------------------------------------------------------------------
  // Critical criteria
  // ---------------------------------------------------------------------------

  /** The same criteria up to their critical flags. */
  predicate SameButCritical(criteria: seq<Criterion>, other: seq<Criterion>) {
    |criteria| == |other| &&
    (criteria == [] || (other[0] == criteria[0].(critical := other[0].critical)
                        && SameButCritical(criteria[1..], other[1..])))
  }

  /** A resolution with everything that concerns criticality blanked out. */
  function Blank(c: Resolution): Resolution {
    c.(critical := false, criticalConcern := false)
  }

  predicate SameBlanked(cs: seq<Resolution>, ds: seq<Resolution>) {
    |cs| == |ds| && (cs == [] || (Blank(cs[0]) == Blank(ds[0]) && SameBlanked(cs[1..], ds[1..])))
  }

  lemma {:induction false} ResolutionsBlankAlike(criteria: seq<Criterion>, other: seq<Criterion>, byId: ById,
                                                 controls: Controls, threshold: real)
    requires SameButCritical(criteria, other)
    ensures SameBlanked(ResolveAll(criteria, byId, controls),
                        ResolveAll(other, byId, controls.(criticalThreshold := threshold)))
  {
    if criteria == [] {
    } else {
      ResolutionsBlankAlike(criteria[1..], other[1..], byId, controls, threshold);
      ResolveAllHead(criteria, byId, controls);
      ResolveAllHead(other, byId, controls.(criticalThreshold := threshold));
    }
  }

  lemma {:induction false} BlankSums(cs: seq<Resolution>, ds: seq<Resolution>)
    requires SameBlanked(cs, ds)
    ensures TotalWeight(cs) == TotalWeight(ds) && ScoredWeight(cs) == ScoredWeight(ds)
    ensures NotedWeight(cs) == NotedWeight(ds) && Achievement(cs) == Achievement(ds)
    ensures AdjudicationsRequired(cs) == AdjudicationsRequired(ds)
  {
    if cs == [] {
    } else {
      BlankFields(cs[0], ds[0]);
      BlankSums(cs[1..], ds[1..]);
    }
  }

  lemma BlankFields(c: Resolution, d: Resolution)
    requires Blank(c) == Blank(d)
    ensures c.weight == d.weight && c.finalScore == d.finalScore && c.notePresent == d.notePresent
    ensures c.status == d.status && c.criterionId == d.criterionId && c.dimension == d.dimension
  {
    assert Blank(c).weight == c.weight && Blank(d).weight == d.weight;
  }

  lemma {:induction false} BlankInDimension(cs: seq<Resolution>, ds: seq<Resolution>, name: string)
    requires SameBlanked(cs, ds)
    ensures SameBlanked(InDimension(cs, name), InDimension(ds, name))
  {
    if cs == [] {
    } else {
      BlankFields(cs[0], ds[0]);
      BlankInDimension(cs[1..], ds[1..], name);
      if cs[0].dimension == name {
        InDimensionCons(cs, name);
        InDimensionCons(ds, name);
      } else {
        InDimensionSkips(cs, name);
        InDimensionSkips(ds, name);
      }
    }
  }

  lemma {:induction false} BlankSummaries(dimensions: seq<Dimension>, cs: seq<Resolution>, ds: seq<Resolution>,
                                          model: Model)
    requires SameBlanked(cs, ds)
    ensures Summaries(dimensions, cs, model.bands) == Summaries(dimensions, ds, model.bands)
  {
    if dimensions == [] {
    } else {
      BlankInDimension(cs, ds, dimensions[0].name);
      BlankSums(InDimension(cs, dimensions[0].name), InDimension(ds, dimensions[0].name));
      BlankSummaries(dimensions[1..], cs, ds, model);
    }
  }

  /**
   * Changing which criteria are critical, or how low a critical score must be, changes only the flags
   * and the concerns: no index, no band, no coverage, not the route.
   */
  lemma CriticalityDoesNotSteer(template: Template, other: Template, model: Model, threshold: real, byId: ById)
    requires SameButCritical(template.criteria, other.criteria)
    ensures var p := ProfileOf(template, model, byId);
            var q := ProfileOf(other, model.(controls := model.controls.(criticalThreshold := threshold)), byId);
            && SameBlanked(p.criteria, q.criteria)
            && p.dimensions == q.dimensions
            && p.overallIndex == q.overallIndex && p.overallBand == q.overallBand
            && p.scoredCoverage == q.scoredCoverage && p.noteCoverage == q.noteCoverage
            && p.adjudicationsRequired == q.adjudicationsRequired && p.route == q.route
  {
    var controls := model.controls.(criticalThreshold := threshold);
    var cs, ds := ResolveAll(template.criteria, byId, model.controls), ResolveAll(other.criteria, byId, controls);
    ResolutionsBlankAlike(template.criteria, other.criteria, byId, model.controls, threshold);
    BlankSums(cs, ds);
    BlankSummaries(model.dimensions, cs, ds, model);
  }

  /** The concerns are exactly the critical criteria scored at or below the threshold. */
  lemma {:induction false} ConcernsExactly(criteria: seq<Criterion>, byId: ById, controls: Controls, k: Concern)
    ensures k in Concerns(ResolveAll(criteria, byId, controls)) <==>
            exists c :: c in criteria && c.critical && c.id == k.criterionId
                        && k.finalScore <= controls.criticalThreshold
                        && Resolve(Lookup(byId, c.id), controls.varianceTrigger).finalScore == Some(k.finalScore)
  {
    if criteria == [] {
    } else {
      ResolveAllHead(criteria, byId, controls);
      ConcernsExactly(criteria[1..], byId, controls, k);
      Cons(criteria);
      assert forall c :: c in criteria <==> c == criteria[0] || c in criteria[1..];
    }
  }

  // ---------------------------------------------------------------------------
  // The order of the assessments
  // ---------------------------------------------------------------------------

  lemma {:induction false} CollectKeys(assessments: seq<Assessment>)
    ensures Collect(assessments).Keys == Ids(assessments)
    ensures forall id :: id in Collect(assessments) ==>
              Collect(assessments)[id] in assessments && Collect(assessments)[id].criterionId == id
  {
    if assessments == [] {
    } else {
      var before, last := assessments[..|assessments| - 1], assessments[|assessments| - 1];
      CollectKeys(before);
      Snoc(assessments);
      IdsSnoc(before, last);
    }
  }

  lemma InSame(p: seq<Assessment>, q: seq<Assessment>)
    requires multiset(p) == multiset(q)
    ensures |p| == |q| && forall a :: a in p <==> a in q
  {
    assert |multiset(p)| == |p| && |multiset(q)| == |q|;
    forall a: Assessment
      ensures a in p <==> a in q
    {
      assert a in p <==> a in multiset(p);
      assert a in q <==> a in multiset(q);
    }
  }

  /** Ids are distinct exactly when there are as many of them as assessments. */
  lemma {:induction false} DistinctCounts(assessments: seq<Assessment>)
    ensures |Ids(assessments)| <= |assessments|
    ensures Distinct(assessments) <==> |Ids(assessments)| == |assessments|
  {
    if assessments != [] {
      var before, last := assessments[..|assessments| - 1], assessments[|assessments| - 1];
      DistinctCounts(before);
      Snoc(assessments);
      IdsSnoc(before, last);
      if Distinct(before) {
        DistinctSnoc(before, last);
      }
    } else {
      assert Ids(assessments) == {};
    }
  }

  lemma OneAssessmentPerId(assessments: seq<Assessment>, a: Assessment, b: Assessment)
    requires Distinct(assessments) && a in assessments && b in assessments && a.criterionId == b.criterionId
    ensures a == b
  {
  }

  lemma OrderForgotten(p: seq<Assessment>, q: seq<Assessment>)
    requires multiset(p) == multiset(q)
    ensures Distinct(p) <==> Distinct(q)
    ensures Ids(p) == Ids(q)
    ensures Distinct(p) ==> Collect(p) == Collect(q)
  {
    InSame(p, q);
    assert Ids(p) == Ids(q);
    DistinctCounts(p);
    DistinctCounts(q);
    CollectKeys(p);
    CollectKeys(q);
    if Distinct(p) {
      forall id | id in Collect(p)
        ensures Collect(p)[id] == Collect(q)[id]
      {
        OneAssessmentPerId(p, Collect(p)[id], Collect(q)[id]);
      }
    }
  }

  /** Reordering the assessments changes neither which kind of outcome there is nor the profile. */
  lemma OrderIrrelevant(template: Template, model: Model, p: seq<Assessment>, q: seq<Assessment>, e: Evaluation,
                        f: Evaluation)
    requires multiset(p) == multiset(q)
    requires IsOutcome(template, model, p, e) && IsOutcome(template, model, q, f)
    ensures e.Duplicate? <==> f.Duplicate?
    ensures e.Unknown? <==> f.Unknown?
    ensures e.Evaluated? ==> e == f
  {
    OrderForgotten(p, q);
    if !e.Evaluated? {
      ErrorsAreFailures(template, p, e.id);
    }
    if !f.Evaluated? {
      ErrorsAreFailures(template, q, f.id);
    }
  }
}
