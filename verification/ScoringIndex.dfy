/** Where the evidence indices lie, and how they move when a score is raised. */
module ScoringIndex {
  import opened JsText
  import opened Bands
  import opened Scoring

  // ---------------------------------------------------------------------------
  // Rounding and quotients
  // ---------------------------------------------------------------------------

  lemma RoundMonotone(x: real, y: real)
    requires x <= y
    ensures Round4(x) <= Round4(y)
  {
    assert (x * 10000.0 + 0.5).Floor <= (y * 10000.0 + 0.5).Floor;
  }

  lemma RoundEnds()
    ensures Round4(0.0) == 0.0 && Round4(1.0) == 1.0
  {
  }

  lemma QuotientMonotone(p: real, q: real, w: real)
    requires w > 0.0 && p <= q
    ensures p / w <= q / w
  {
  }

  lemma QuotientBounds(p: real, w: real)
    requires 0.0 <= p <= w && w > 0.0
    ensures 0.0 <= p / w <= 1.0
  {
    QuotientMonotone(0.0, p, w);
    QuotientMonotone(p, w, w);
  }

  lemma QuotientTimes(p: real, w: real)
    requires w > 0.0
    ensures p == p / w * w
  {
  }

  // ---------------------------------------------------------------------------
  // Every index lies between zero and one
  // ---------------------------------------------------------------------------

  predicate OnScale(c: Resolution) {
    c.weight > 0.0 && (c.finalScore.Some? ==> 1.0 <= c.finalScore.value <= 5.0)
  }

  /** Positive weights, and scores on the anchored scale. */
  predicate AllOnScale(cs: seq<Resolution>) {
    cs == [] || (OnScale(cs[0]) && AllOnScale(cs[1..]))
  }

  lemma AchievedBounds(c: Resolution)
    requires OnScale(c)
    ensures 0.0 <= Achieved(c) <= Counted(c)
  {
    if c.finalScore.Some? {
      var x := Normalise(c.finalScore.value);
      assert 0.0 <= x <= 1.0 && Achieved(c) == c.weight * x;
      ScaledBounds(c.weight, x);
    }
  }

  lemma ScaledBounds(w: real, x: real)
    requires w > 0.0 && 0.0 <= x <= 1.0
    ensures 0.0 <= w * x <= w
  {
    assert 0.0 <= w * (1.0 - x);
  }

  lemma {:induction false} AchievementBounds(cs: seq<Resolution>)
    requires AllOnScale(cs)
    ensures 0.0 <= Achievement(cs) <= ScoredWeight(cs)
  {
    if cs == [] {
    } else {
      AchievedBounds(cs[0]);
      AchievementBounds(cs[1..]);
    }
  }

  lemma IndexInUnit(cs: seq<Resolution>)
    requires AllOnScale(cs) && Index(cs).Some?
    ensures 0.0 <= Index(cs).value <= 1.0
  {
    AchievementBounds(cs);
    var q := Achievement(cs) / ScoredWeight(cs);
    QuotientBounds(Achievement(cs), ScoredWeight(cs));
    RoundMonotone(0.0, q);
    RoundMonotone(q, 1.0);
    RoundEnds();
  }

  lemma {:induction false} InDimensionOnScale(cs: seq<Resolution>, name: string)
    requires AllOnScale(cs)
    ensures AllOnScale(InDimension(cs, name))
  {
    if cs == [] {
    } else {
      InDimensionOnScale(cs[1..], name);
      if cs[0].dimension == name {
        InDimensionCons(cs, name);
      } else {
        InDimensionSkips(cs, name);
      }
    }
  }

  lemma InDimensionCons(cs: seq<Resolution>, name: string)
    requires cs != [] && cs[0].dimension == name
    ensures InDimension(cs, name) != [] && InDimension(cs, name)[0] == cs[0]
    ensures InDimension(cs, name)[1..] == InDimension(cs[1..], name)
  {
  }

  // ---------------------------------------------------------------------------
  // The overall index lies between dimension indices
  // ---------------------------------------------------------------------------

  /** How far one resolution pulls an index above (or, with `up` false, below) the quotient `q`. */
  function Pull(c: Resolution, q: real, up: bool): real {
    if up then Achieved(c) - q * Counted(c) else q * Counted(c) - Achieved(c)
  }

  function Excess(cs: seq<Resolution>, q: real, up: bool): real {
    if cs == [] then 0.0 else Pull(cs[0], q, up) + Excess(cs[1..], q, up)
  }

  lemma {:induction false} ExcessIsDifference(cs: seq<Resolution>, q: real, up: bool)
    ensures Excess(cs, q, up) ==
            if up then Achievement(cs) - q * ScoredWeight(cs) else q * ScoredWeight(cs) - Achievement(cs)
  {
    if cs == [] {
    } else {
      ExcessIsDifference(cs[1..], q, up);
      Distribute(q, Counted(cs[0]), ScoredWeight(cs[1..]));
    }
  }

  lemma Distribute(q: real, x: real, y: real)
    ensures q * (x + y) == q * x + q * y
  {
  }

  function Others(cs: seq<Resolution>, name: string): (r: seq<Resolution>)
    ensures |r| <= |cs|
    ensures cs != [] && cs[0].dimension == name ==> |r| < |cs|
  {
    if cs == [] then []
    else (if cs[0].dimension == name then [] else [cs[0]]) + Others(cs[1..], name)
  }

  lemma OthersCons(cs: seq<Resolution>, name: string)
    requires cs != [] && cs[0].dimension != name
    ensures Others(cs, name) != [] && Others(cs, name)[0] == cs[0]
    ensures Others(cs, name)[1..] == Others(cs[1..], name)
  {
  }

  lemma InDimensionSkips(cs: seq<Resolution>, name: string)
    requires cs != [] && cs[0].dimension != name
    ensures InDimension(cs, name) == InDimension(cs[1..], name)
  {
  }

  lemma OthersSkips(cs: seq<Resolution>, name: string)
    requires cs != [] && cs[0].dimension == name
    ensures Others(cs, name) == Others(cs[1..], name)
  {
  }

  /** The sums split into one dimension and the rest. */
  lemma {:induction false} Partition(cs: seq<Resolution>, name: string, q: real, up: bool)
    ensures ScoredWeight(cs) == ScoredWeight(InDimension(cs, name)) + ScoredWeight(Others(cs, name))
    ensures Excess(cs, q, up) == Excess(InDimension(cs, name), q, up) + Excess(Others(cs, name), q, up)
  {
    if cs == [] {
    } else {
      Partition(cs[1..], name, q, up);
      if cs[0].dimension == name {
        InDimensionCons(cs, name);
        OthersSkips(cs, name);
      } else {
        OthersCons(cs, name);
        InDimensionSkips(cs, name);
      }
    }
  }

  lemma {:induction false} OthersOnScale(cs: seq<Resolution>, name: string)
    requires AllOnScale(cs)
    ensures AllOnScale(Others(cs, name))
  {
    if cs == [] {
    } else {
      OthersOnScale(cs[1..], name);
      if cs[0].dimension != name {
        OthersCons(cs, name);
      } else {
        OthersSkips(cs, name);
      }
    }
  }

  lemma {:induction false} DimensionAmongOthers(cs: seq<Resolution>, name: string, other: string)
    ensures InDimension(Others(cs, name), other) == if other == name then [] else InDimension(cs, other)
  {
    if cs == [] {
    } else {
      DimensionAmongOthers(cs[1..], name, other);
      if cs[0].dimension == name {
        OthersSkips(cs, name);
      } else {
        OthersCons(cs, name);
      }
    }
  }

  lemma {:induction false} NothingScoredNothingPulled(cs: seq<Resolution>, q: real, up: bool)
    requires AllOnScale(cs) && ScoredWeight(cs) <= 0.0
    ensures ScoredWeight(cs) == 0.0 && Excess(cs, q, up) == 0.0
  {
    if cs == [] {
    } else {
      AchievementBounds(cs[1..]);
      NothingScoredNothingPulled(cs[1..], q, up);
    }
  }

  /** Some dimension with scored criteria is pulled to the same side as the whole. */
  lemma {:induction false} SomeDimensionPulls(cs: seq<Resolution>, q: real, up: bool) returns (name: string)
    requires AllOnScale(cs) && ScoredWeight(cs) > 0.0 && Excess(cs, q, up) >= 0.0
    ensures ScoredWeight(InDimension(cs, name)) > 0.0 && Excess(InDimension(cs, name), q, up) >= 0.0
    decreases |cs|
  {
    name := cs[0].dimension;
    var own, rest := InDimension(cs, name), Others(cs, name);
    Partition(cs, name, q, up);
    InDimensionOnScale(cs, name);
    OthersOnScale(cs, name);
    if ScoredWeight(own) <= 0.0 || Excess(own, q, up) < 0.0 {
      if ScoredWeight(own) <= 0.0 {
        NothingScoredNothingPulled(own, q, up);
      }
      if ScoredWeight(rest) <= 0.0 {
        NothingScoredNothingPulled(rest, q, up);
      }
      var other := SomeDimensionPulls(rest, q, up);
      DimensionAmongOthers(cs, name, other);
      name := other;
    }
  }

  /** A scored dimension belongs to some criterion. */
  lemma {:induction false} ScoredDimensionExists(cs: seq<Resolution>, name: string) returns (i: nat)
    requires InDimension(cs, name) != []
    ensures i < |cs| && cs[i].dimension == name
  {
    if cs[0].dimension == name {
      i := 0;
    } else {
      var k := ScoredDimensionExists(cs[1..], name);
      i := k + 1;
    }
  }

  /** The dimension index on the side of the pull. */
  lemma IndexOnSide(cs: seq<Resolution>, q: real, up: bool)
    requires ScoredWeight(cs) > 0.0 && Excess(cs, q, up) >= 0.0
    ensures Index(cs).Some?
    ensures if up then Round4(q) <= Index(cs).value else Index(cs).value <= Round4(q)
  {
    ExcessIsDifference(cs, q, up);
    var a, w := Achievement(cs), ScoredWeight(cs);
    SideOfQuotient(a, w, q);
    if up {
      RoundMonotone(q, a / w);
    } else {
      RoundMonotone(a / w, q);
    }
  }

  lemma SideOfQuotient(a: real, w: real, q: real)
    requires w > 0.0
    ensures a - q * w >= 0.0 ==> q <= a / w
    ensures q * w - a >= 0.0 ==> a / w <= q
  {
    QuotientTimes(a, w);
    var r := a / w;
    if q > r {
      ScalePositive(q - r, w);
    } else if r > q {
      ScalePositive(r - q, w);
    }
  }

  lemma ScalePositive(d: real, w: real)
    requires d > 0.0 && w > 0.0
    ensures d * w > 0.0
  {
  }

  lemma OverallHasNoExcess(cs: seq<Resolution>, up: bool)
    requires ScoredWeight(cs) > 0.0
    ensures Excess(cs, Achievement(cs) / ScoredWeight(cs), up) == 0.0
  {
    ExcessIsDifference(cs, Achievement(cs) / ScoredWeight(cs), up);
    QuotientTimes(Achievement(cs), ScoredWeight(cs));
  }

  /** On one side (`up` or not), some dimension of the criteria has an index on that side of the overall one. */
  lemma DimensionOnSide(cs: seq<Resolution>, up: bool) returns (name: string)
    requires AllOnScale(cs) && Index(cs).Some?
    ensures InDimension(cs, name) != [] && Index(InDimension(cs, name)).Some?
    ensures if up then Index(cs).value <= Index(InDimension(cs, name)).value
            else Index(InDimension(cs, name)).value <= Index(cs).value
  {
    var q := Achievement(cs) / ScoredWeight(cs);
    OverallHasNoExcess(cs, up);
    name := SomeDimensionPulls(cs, q, up);
    IndexOnSide(InDimension(cs, name), q, up);
  }

  // ---------------------------------------------------------------------------
  // Raising a score
  // ---------------------------------------------------------------------------

  /** The same criteria scored, none lower than before. */
  predicate NoneLower(c: Resolution, d: Resolution) {
    && c.dimension == d.dimension && c.weight == d.weight && c.weight > 0.0
    && (c.finalScore.Some? <==> d.finalScore.Some?)
    && (c.finalScore.Some? ==> c.finalScore.value <= d.finalScore.value)
  }

  predicate Raised(cs: seq<Resolution>, ds: seq<Resolution>) {
    |cs| == |ds| && (cs == [] || (NoneLower(cs[0], ds[0]) && Raised(cs[1..], ds[1..])))
  }

  lemma AchievedRises(c: Resolution, d: Resolution)
    requires NoneLower(c, d)
    ensures Counted(c) == Counted(d) && Achieved(c) <= Achieved(d)
  {
    if c.finalScore.Some? {
      var x, y := Normalise(c.finalScore.value), Normalise(d.finalScore.value);
      assert Achieved(c) == c.weight * x && Achieved(d) == c.weight * y;
      ScaleMonotone(c.weight, x, y);
    }
  }

  lemma ScaleMonotone(w: real, x: real, y: real)
    requires w > 0.0 && x <= y
    ensures w * x <= w * y
  {
  }

  lemma {:induction false} RaisedSums(cs: seq<Resolution>, ds: seq<Resolution>)
    requires Raised(cs, ds)
    ensures ScoredWeight(cs) == ScoredWeight(ds) && Achievement(cs) <= Achievement(ds)
  {
    if cs == [] {
    } else {
      AchievedRises(cs[0], ds[0]);
      RaisedSums(cs[1..], ds[1..]);
    }
  }

  lemma {:induction false} RaisedInDimension(cs: seq<Resolution>, ds: seq<Resolution>, name: string)
    requires Raised(cs, ds)
    ensures Raised(InDimension(cs, name), InDimension(ds, name))
  {
    if cs == [] {
    } else {
      RaisedInDimension(cs[1..], ds[1..], name);
      if cs[0].dimension == name {
        InDimensionCons(cs, name);
        InDimensionCons(ds, name);
      } else {
        InDimensionSkips(cs, name);
        InDimensionSkips(ds, name);
      }
    }
  }

  /** An index is no lower afterwards, nor is the lower bound of its band. */
  predicate NoLower(before: Option<real>, after: Option<real>, bands: seq<Band>) {
    && (before.Some? <==> after.Some?)
    && (before.Some? ==>
          && before.value <= after.value
          && (bands != [] ==>
                && Chosen(before.value, bands).Some? && Chosen(after.value, bands).Some?
                && Chosen(before.value, bands).value.minIndex <= Chosen(after.value, bands).value.minIndex))
  }

  lemma RaisedIndex(cs: seq<Resolution>, ds: seq<Resolution>, bands: seq<Band>)
    requires Raised(cs, ds)
    ensures NoLower(Index(cs), Index(ds), bands)
  {
    RaisedSums(cs, ds);
    if ScoredWeight(cs) > 0.0 {
      QuotientMonotone(Achievement(cs), Achievement(ds), ScoredWeight(cs));
      RoundMonotone(Achievement(cs) / ScoredWeight(cs), Achievement(ds) / ScoredWeight(ds));
      if bands != [] {
        ChosenMonotone(Index(cs).value, Index(ds).value, bands);
      }
    }
  }

  // ---------------------------------------------------------------------------
  // What this says about profiles
  // ---------------------------------------------------------------------------

  /** Every score in an assessment is on the anchored scale. */
  predicate ScoresOnScale(a: Assessment) {
    && (a.reviewer1.Some? ==> 1.0 <= a.reviewer1.value <= 5.0)
    && (a.reviewer2.Some? ==> 1.0 <= a.reviewer2.value <= 5.0)
    && (a.adjudicated.Some? ==> 1.0 <= a.adjudicated.value <= 5.0)
  }

  predicate WeightsPositive(criteria: seq<Criterion>) {
    criteria == [] || (criteria[0].weight > 0.0 && WeightsPositive(criteria[1..]))
  }

  predicate Anchored(byId: ById) {
    forall id :: id in byId ==> ScoresOnScale(byId[id])
  }

  lemma ResolveOnScale(found: Option<Assessment>, trigger: real)
    requires found.Some? ==> ScoresOnScale(found.value)
    ensures var r := Resolve(found, trigger).finalScore;
            r.Some? ==> 1.0 <= r.value <= 5.0
  {
  }

  lemma ResolveAllHead(criteria: seq<Criterion>, byId: ById, controls: Controls)
    requires criteria != []
    ensures ResolveAll(criteria, byId, controls) != []
    ensures ResolveAll(criteria, byId, controls)[0] == ResolveCriterion(criteria[0], byId, controls)
    ensures ResolveAll(criteria, byId, controls)[1..] == ResolveAll(criteria[1..], byId, controls)
  {
  }

  lemma {:induction false} ResolveAllOnScale(criteria: seq<Criterion>, byId: ById, controls: Controls)
    requires WeightsPositive(criteria) && Anchored(byId)
    ensures AllOnScale(ResolveAll(criteria, byId, controls))
  {
    if criteria == [] {
    } else {
      ResolveAllHead(criteria, byId, controls);
      ResolveOnScale(Lookup(byId, criteria[0].id), controls.varianceTrigger);
      ResolveAllOnScale(criteria[1..], byId, controls);
    }
  }

  lemma {:induction false} ResolveAllAt(criteria: seq<Criterion>, byId: ById, controls: Controls, i: nat)
    requires i < |criteria|
    ensures |ResolveAll(criteria, byId, controls)| == |criteria|
    ensures ResolveAll(criteria, byId, controls)[i] == ResolveCriterion(criteria[i], byId, controls)
  {
    ResolveAllHead(criteria, byId, controls);
    if criteria[1..] == [] {
      assert ResolveAll(criteria[1..], byId, controls) == [];
    } else {
      ResolveAllAt(criteria[1..], byId, controls, if i == 0 then 0 else i - 1);
    }
  }

  lemma {:induction false} SummariesAt(dimensions: seq<Dimension>, cs: seq<Resolution>, bands: seq<Band>, i: nat)
    requires i < |dimensions|
    ensures |Summaries(dimensions, cs, bands)| == |dimensions|
    ensures Summaries(dimensions, cs, bands)[i] == Summarise(dimensions[i], cs, bands)
  {
    if dimensions[1..] == [] {
      assert Summaries(dimensions[1..], cs, bands) == [];
    } else {
      SummariesAt(dimensions[1..], cs, bands, if i == 0 then 0 else i - 1);
    }
  }

  predicate InUnit(index: Option<real>) {
    index.Some? ==> 0.0 <= index.value <= 1.0
  }

  lemma IndexInUnitOrNone(cs: seq<Resolution>)
    requires AllOnScale(cs)
    ensures InUnit(Index(cs))
  {
    if Index(cs).Some? {
      IndexInUnit(cs);
    }
  }

  /** Every index in a profile lies between zero and one. */
  lemma IndicesInUnit(template: Template, model: Model, byId: ById)
    requires WeightsPositive(template.criteria) && Anchored(byId)
    ensures InUnit(ProfileOf(template, model, byId).overallIndex)
    ensures forall s :: s in ProfileOf(template, model, byId).dimensions ==> InUnit(s.achievementIndex)
  {
    var cs := ResolveAll(template.criteria, byId, model.controls);
    ResolveAllOnScale(template.criteria, byId, model.controls);
    IndexInUnitOrNone(cs);
    SummariesInUnit(model.dimensions, cs, model.bands);
  }

  lemma {:induction false} SummariesInUnit(dimensions: seq<Dimension>, cs: seq<Resolution>, bands: seq<Band>)
    requires AllOnScale(cs)
    ensures forall s :: s in Summaries(dimensions, cs, bands) ==> InUnit(s.achievementIndex)
  {
    if dimensions == [] {
    } else {
      SummariesInUnit(dimensions[1..], cs, bands);
      InDimensionOnScale(cs, dimensions[0].name);
      IndexInUnitOrNone(InDimension(cs, dimensions[0].name));
    }
  }

  /** Every criterion's dimension is one the model names. */
  predicate DimensionsKnown(criteria: seq<Criterion>, dimensions: seq<Dimension>) {
    forall i :: 0 <= i < |criteria| ==> exists k :: 0 <= k < |dimensions| && dimensions[k].name == criteria[i].dimension
  }

  /** Dimension `k` has an index, above the overall one if `up`, else below. */
  predicate OnSide(p: Profile, k: nat, up: bool) {
    && p.overallIndex.Some? && k < |p.dimensions| && p.dimensions[k].achievementIndex.Some?
    && if up then p.overallIndex.value <= p.dimensions[k].achievementIndex.value
       else p.dimensions[k].achievementIndex.value <= p.overallIndex.value
  }

  /** On either side, the profile has a dimension whose index lies on that side of the overall index. */
  lemma ProfileDimensionOnSide(template: Template, model: Model, byId: ById, up: bool) returns (k: nat)
    requires WeightsPositive(template.criteria) && Anchored(byId)
    requires DimensionsKnown(template.criteria, model.dimensions)
    ensures ProfileOf(template, model, byId).overallIndex.Some? ==> OnSide(ProfileOf(template, model, byId), k, up)
  {
    var cs := ResolveAll(template.criteria, byId, model.controls);
    k := 0;
    if Index(cs).Some? {
      ResolveAllOnScale(template.criteria, byId, model.controls);
      var name := DimensionOnSide(cs, up);
      var i := ScoredDimensionExists(cs, name);
      ResolveAllLength(template.criteria, byId, model.controls);
      ResolveAllAt(template.criteria, byId, model.controls, i);
      k :| 0 <= k < |model.dimensions| && model.dimensions[k].name == template.criteria[i].dimension;
      SummariesAt(model.dimensions, cs, model.bands, k);
    }
  }

  lemma {:induction false} ResolveAllLength(criteria: seq<Criterion>, byId: ById, controls: Controls)
    ensures |ResolveAll(criteria, byId, controls)| == |criteria|
  {
    if criteria == [] {
    } else {
      ResolveAllLength(criteria[1..], byId, controls);
    }
  }

  /** The rounded overall index lies between the smallest and the largest rounded dimension index. */
  lemma OverallBetweenDimensions(template: Template, model: Model, byId: ById)
    returns (low: nat, high: nat)
    requires WeightsPositive(template.criteria) && Anchored(byId)
    requires DimensionsKnown(template.criteria, model.dimensions)
    ensures ProfileOf(template, model, byId).overallIndex.Some? ==>
              OnSide(ProfileOf(template, model, byId), low, false)
              && OnSide(ProfileOf(template, model, byId), high, true)
  {
    low := ProfileDimensionOnSide(template, model, byId, false);
    high := ProfileDimensionOnSide(template, model, byId, true);
  }

  /** The same criteria are scored, and none of them lower. */
  predicate ScoresRaised(criteria: seq<Criterion>, controls: Controls, before: ById, after: ById) {
    criteria == [] ||
    (NoneLower(ResolveCriterion(criteria[0], before, controls), ResolveCriterion(criteria[0], after, controls))
     && ScoresRaised(criteria[1..], controls, before, after))
  }

  lemma {:induction false} RaisedResolutions(criteria: seq<Criterion>, controls: Controls, before: ById, after: ById)
    requires ScoresRaised(criteria, controls, before, after)
    ensures Raised(ResolveAll(criteria, before, controls), ResolveAll(criteria, after, controls))
  {
    if criteria == [] {
    } else {
      RaisedResolutions(criteria[1..], controls, before, after);
      ResolveAllHead(criteria, before, controls);
      ResolveAllHead(criteria, after, controls);
    }
  }

  /** Each score that was given is still given and no lower. */
  predicate GivenNoLower(a: Option<real>, b: Option<real>) {
    (a.Some? <==> b.Some?) && (a.Some? ==> a.value <= b.value)
  }

  predicate AssessedNoLower(before: Option<Assessment>, after: Option<Assessment>, trigger: real) {
    && (before.Some? <==> after.Some?)
    && (before.Some? ==>
          && GivenNoLower(before.value.reviewer1, after.value.reviewer1)
          && GivenNoLower(before.value.reviewer2, after.value.reviewer2)
          && GivenNoLower(before.value.adjudicated, after.value.adjudicated))
    && Resolve(before, trigger).status == Resolve(after, trigger).status
  }

  /** Raising reviewers' scores, without moving a criterion in or out of adjudication, raises in the sense above. */
  lemma {:induction false} RaisedAssessments(criteria: seq<Criterion>, controls: Controls, before: ById, after: ById)
    requires WeightsPositive(criteria)
    requires forall c :: c in criteria ==>
               AssessedNoLower(Lookup(before, c.id), Lookup(after, c.id), controls.varianceTrigger)
    ensures ScoresRaised(criteria, controls, before, after)
  {
    if criteria == [] {
    } else {
      RaisedAssessments(criteria[1..], controls, before, after);
      ResolveNoLower(Lookup(before, criteria[0].id), Lookup(after, criteria[0].id), controls.varianceTrigger);
    }
  }

  lemma ResolveNoLower(before: Option<Assessment>, after: Option<Assessment>, trigger: real)
    requires AssessedNoLower(before, after, trigger)
    ensures GivenNoLower(Resolve(before, trigger).finalScore, Resolve(after, trigger).finalScore)
  {
  }

  /** Dimension by dimension, no index or band is lower. */
  predicate NoneLowered(before: seq<Summary>, after: seq<Summary>, bands: seq<Band>) {
    |before| == |after| && forall i :: 0 <= i < |before| ==>
      NoLower(before[i].achievementIndex, after[i].achievementIndex, bands)
  }

  /** Raising scores while the same criteria stay scored lowers no index and no band. */
  lemma RaisingNeverLowers(template: Template, model: Model, before: ById, after: ById)
    requires ScoresRaised(template.criteria, model.controls, before, after)
    ensures NoLower(ProfileOf(template, model, before).overallIndex, ProfileOf(template, model, after).overallIndex,
                    model.bands)
    ensures NoneLowered(ProfileOf(template, model, before).dimensions, ProfileOf(template, model, after).dimensions,
                        model.bands)
  {
    var cs, ds := ResolveAll(template.criteria, before, model.controls),
                  ResolveAll(template.criteria, after, model.controls);
    RaisedResolutions(template.criteria, model.controls, before, after);
    RaisedIndex(cs, ds, model.bands);
    RaisedSummaries(model.dimensions, cs, ds, model.bands);
  }

  lemma {:induction false} RaisedSummaries(dimensions: seq<Dimension>, cs: seq<Resolution>, ds: seq<Resolution>,
                                           bands: seq<Band>)
    requires Raised(cs, ds)
    ensures NoneLowered(Summaries(dimensions, cs, bands), Summaries(dimensions, ds, bands), bands)
  {
    if dimensions == [] {
    } else {
      var name := dimensions[0].name;
      RaisedInDimension(cs, ds, name);
      RaisedIndex(InDimension(cs, name), InDimension(ds, name), bands);
      RaisedSummaries(dimensions[1..], cs, ds, bands);
      NoneLoweredCons(Summarise(dimensions[0], cs, bands), Summarise(dimensions[0], ds, bands),
                      Summaries(dimensions[1..], cs, bands), Summaries(dimensions[1..], ds, bands), bands);
    }
  }

  lemma NoneLoweredCons(x: Summary, y: Summary, before: seq<Summary>, after: seq<Summary>, bands: seq<Band>)
    requires NoLower(x.achievementIndex, y.achievementIndex, bands) && NoneLowered(before, after, bands)
    ensures NoneLowered([x] + before, [y] + after, bands)
  {
  }
}
