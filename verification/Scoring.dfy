/** The scoring engine: resolving reviewer scores, weighted indices, coverage and the decision-support route. */
module Scoring {
  import opened JsText
  import opened Sequences
  import opened Bands

  datatype Criterion = Criterion(id: string, dimension: string, weight: real, critical: bool)

  datatype Assessment = Assessment(
    criterionId: string,
    reviewer1: Option<real>,
    reviewer2: Option<real>,
    adjudicated: Option<real>,
    evidenceNote: Option<Text>)

  datatype Controls = Controls(
    varianceTrigger: real,
    criticalThreshold: real,
    minimumScoredCoverage: real,
    minimumNoteCoverage: real)

  datatype Dimension = Dimension(key: string, name: string, weight: real)

  datatype Model = Model(controls: Controls, bands: seq<Band>, dimensions: seq<Dimension>)

  datatype Template = Template(code: string, frameworkVersion: string, criteria: seq<Criterion>)

  datatype Status = Scored | Unscored | AdjudicationRequired

  datatype Resolved = Resolved(finalScore: Option<real>, status: Status, varianceFlag: bool)

  datatype Resolution = Resolution(
    criterionId: string,
    dimension: string,
    weight: real,
    critical: bool,
    finalScore: Option<real>,
    status: Status,
    varianceFlag: bool,
    notePresent: bool,
    criticalConcern: bool)

  datatype Summary = Summary(
    key: string,
    name: string,
    weight: real,
    achievementIndex: Option<real>,
    band: string,
    scoredWeight: real,
    totalWeight: real)

  datatype Route = AdjudicateFirst | IncompleteEvidence | ReadyForHumanReview

  datatype Concern = Concern(criterionId: string, finalScore: real)

  datatype Profile = Profile(
    templateCode: string,
    frameworkVersion: string,
    criteria: seq<Resolution>,
    dimensions: seq<Summary>,
    overallIndex: Option<real>,
    overallBand: Option<string>,
    scoredCoverage: real,
    noteCoverage: real,
    criticalConcerns: seq<Concern>,
    adjudicationsRequired: seq<string>,
    route: Route)

  /** What `evaluate` returns or throws. */
  datatype Evaluation = Evaluated(profile: Profile) | Duplicate(id: string) | Unknown(id: string)

  /** `Math.round(n * 10_000) / 10_000`. */
  function Round4(n: real): real {
    (n * 10000.0 + 0.5).Floor as real / 10000.0
  }

  function Normalise(score: real): real {
    (score - 1.0) / 4.0
  }

  function Distance(a: real, b: real): real {
    if a < b then b - a else a - b
  }

  function Resolve(found: Option<Assessment>, trigger: real): Resolved {
    if found.None? then Resolved(None, Unscored, false)
    else
      var a := found.value;
      var both := a.reviewer1.Some? && a.reviewer2.Some?;
      if a.adjudicated.Some? then
        Resolved(a.adjudicated, Scored,
                 (if both then Distance(a.reviewer1.value, a.reviewer2.value) else 0.0) >= trigger)
      else if both then
        if Distance(a.reviewer1.value, a.reviewer2.value) >= trigger then Resolved(None, AdjudicationRequired, true)
        else Resolved(Some((a.reviewer1.value + a.reviewer2.value) / 2.0), Scored, false)
      else if a.reviewer1.Some? then Resolved(a.reviewer1, Scored, false)
      else if a.reviewer2.Some? then Resolved(a.reviewer2, Scored, false)
      else Resolved(None, Unscored, false)
  }

  predicate NotePresent(found: Option<Assessment>) {
    found.Some? && found.value.evidenceNote.Some? && Trim(found.value.evidenceNote.value) != []
  }

  type ById = map<string, Assessment>

  function Lookup(byId: ById, id: string): Option<Assessment> {
    if id in byId then Some(byId[id]) else None
  }

  function ResolveCriterion(c: Criterion, byId: ById, controls: Controls): Resolution {
    var r := Resolve(Lookup(byId, c.id), controls.varianceTrigger);
    Resolution(c.id, c.dimension, c.weight, c.critical, r.finalScore, r.status, r.varianceFlag,
               NotePresent(Lookup(byId, c.id)),
               c.critical && r.finalScore.Some? && r.finalScore.value <= controls.criticalThreshold)
  }

  function ResolveAll(criteria: seq<Criterion>, byId: ById, controls: Controls): seq<Resolution> {
    if criteria == [] then []
    else [ResolveCriterion(criteria[0], byId, controls)] + ResolveAll(criteria[1..], byId, controls)
  }

  // --- sums over resolutions ---

  function TotalWeight(cs: seq<Resolution>): real {
    if cs == [] then 0.0 else cs[0].weight + TotalWeight(cs[1..])
  }

  /** The weight a resolution contributes to the index. */
  function Counted(c: Resolution): real {
    if c.finalScore.Some? then c.weight else 0.0
  }

  function ScoredWeight(cs: seq<Resolution>): real {
    if cs == [] then 0.0 else Counted(cs[0]) + ScoredWeight(cs[1..])
  }

  function NotedWeight(cs: seq<Resolution>): real {
    if cs == [] then 0.0
    else (if cs[0].notePresent then Counted(cs[0]) else 0.0) + NotedWeight(cs[1..])
  }

  /** The weighted normalised score of one resolution. */
  function Achieved(c: Resolution): real {
    if c.finalScore.Some? then c.weight * Normalise(c.finalScore.value) else 0.0
  }

  function Achievement(cs: seq<Resolution>): real {
    if cs == [] then 0.0 else Achieved(cs[0]) + Achievement(cs[1..])
  }

  /** The index of a group of criteria: null when nothing in it is scored. */
  function Index(cs: seq<Resolution>): Option<real> {
    if ScoredWeight(cs) > 0.0 then Some(Round4(Achievement(cs) / ScoredWeight(cs))) else None
  }

  function InDimension(cs: seq<Resolution>, name: string): seq<Resolution> {
    if cs == [] then []
    else (if cs[0].dimension == name then [cs[0]] else []) + InDimension(cs[1..], name)
  }

  function Summarise(d: Dimension, cs: seq<Resolution>, bands: seq<Band>): Summary {
    var own := InDimension(cs, d.name);
    var index := Index(own);
    Summary(d.key, d.name, d.weight, index,
            if index.None? then "Not assessed in this task" else BandName(index.value, bands),
            Round4(ScoredWeight(own)), Round4(TotalWeight(own)))
  }

  function Summaries(dimensions: seq<Dimension>, cs: seq<Resolution>, bands: seq<Band>): seq<Summary> {
    if dimensions == [] then [] else [Summarise(dimensions[0], cs, bands)] + Summaries(dimensions[1..], cs, bands)
  }

  function Share(part: real, whole: real): real {
    if whole > 0.0 then Round4(part / whole) else 0.0
  }

  function Concerns(cs: seq<Resolution>): seq<Concern> {
    if cs == [] then []
    else
      (if cs[0].criticalConcern && cs[0].finalScore.Some? then [Concern(cs[0].criterionId, cs[0].finalScore.value)]
       else [])
      + Concerns(cs[1..])
  }

  function AdjudicationsRequired(cs: seq<Resolution>): seq<string> {
    if cs == [] then []
    else (if cs[0].status == AdjudicationRequired then [cs[0].criterionId] else []) + AdjudicationsRequired(cs[1..])
  }

  function RouteFor(adjudications: seq<string>, scored: real, noted: real, controls: Controls): Route {
    if |adjudications| > 0 then AdjudicateFirst
    else if scored < controls.minimumScoredCoverage || noted < controls.minimumNoteCoverage then IncompleteEvidence
    else ReadyForHumanReview
  }

  function ProfileOf(template: Template, model: Model, byId: ById): Profile {
    var cs := ResolveAll(template.criteria, byId, model.controls);
    var scored := Share(ScoredWeight(cs), TotalWeight(cs));
    var noted := Share(NotedWeight(cs), ScoredWeight(cs));
    var overall := Index(cs);
    Profile(template.code, template.frameworkVersion, cs, Summaries(model.dimensions, cs, model.bands), overall,
            if overall.None? then None else Some(BandName(overall.value, model.bands)),
            scored, noted, Concerns(cs), AdjudicationsRequired(cs),
            RouteFor(AdjudicationsRequired(cs), scored, noted, model.controls))
  }

  // ---------------------------------------------------------------------------
  // The order of the assessments
  // ---------------------------------------------------------------------------

  function Ids(assessments: seq<Assessment>): set<string> {
    set a | a in assessments :: a.criterionId
  }

  function Known(template: Template): set<string> {
    set c | c in template.criteria :: c.id
  }

  /** The assessments by criterion, a later one replacing an earlier one. */
  function Collect(assessments: seq<Assessment>): ById {
    if assessments == [] then map[]
    else
      var last := assessments[|assessments| - 1];
      Collect(assessments[..|assessments| - 1])[last.criterionId := last]
  }

  predicate Distinct(assessments: seq<Assessment>) {
    forall i, j :: 0 <= i < j < |assessments| ==> assessments[i].criterionId != assessments[j].criterionId
  }

  /** `id` is the first to come up a second time. */
  predicate FirstRepeated(assessments: seq<Assessment>, id: string) {
    exists j :: 0 < j < |assessments| && Distinct(assessments[..j]) && assessments[j].criterionId == id
                && id in Ids(assessments[..j])
  }

  /** `id` is the first of distinct assessments that the template does not know. */
  predicate FirstUnknown(template: Template, assessments: seq<Assessment>, id: string) {
    exists j :: 0 <= j < |assessments| && Ids(assessments[..j]) <= Known(template)
                && assessments[j].criterionId == id && id !in Known(template)
  }

  /** What comes of evaluating the assessments: a profile, or the first offender. */
  predicate IsOutcome(template: Template, model: Model, assessments: seq<Assessment>, e: Evaluation) {
    match e
    case Evaluated(p) =>
      Distinct(assessments) && Ids(assessments) <= Known(template)
      && p == ProfileOf(template, model, Collect(assessments))
    case Duplicate(id) => FirstRepeated(assessments, id)
    case Unknown(id) => Distinct(assessments) && FirstUnknown(template, assessments, id)
  }

  /** The first loop of `evaluate`: the assessments by criterion, or the first criterion that comes up twice. */
  method FillById(assessments: seq<Assessment>) returns (byId: ById, repeated: Option<string>)
    ensures repeated.Some? ==> FirstRepeated(assessments, repeated.value)
    ensures repeated.None? ==> Distinct(assessments) && byId == Collect(assessments)
  {
    byId := map[];
    var i := 0;
    while i < |assessments|
      invariant 0 <= i <= |assessments|
      invariant Distinct(assessments[..i]) && byId == Collect(assessments[..i]) && byId.Keys == Ids(assessments[..i])
    {
      var a := assessments[i];
      if a.criterionId in byId {
        RepeatFound(assessments, i);
        return byId, Some(a.criterionId);
      }
      TakeNext(assessments, i);
      IdsSnoc(assessments[..i], a);
      DistinctSnoc(assessments[..i], a);
      byId := byId[a.criterionId := a];
      i := i + 1;
    }
    TakeAll(assessments);
    return byId, None;
  }

  /** The second loop: the keys, in the order they were put in, against the template's criteria. */
  method CheckKnown(template: Template, assessments: seq<Assessment>) returns (unknown: Option<string>)
    ensures unknown.Some? ==> FirstUnknown(template, assessments, unknown.value)
    ensures unknown.None? ==> Ids(assessments) <= Known(template)
  {
    var knownIds := set c | c in template.criteria :: c.id;
    var i := 0;
    while i < |assessments|
      invariant 0 <= i <= |assessments|
      invariant Ids(assessments[..i]) <= knownIds
    {
      if assessments[i].criterionId !in knownIds {
        UnknownFound(template, assessments, i);
        return Some(assessments[i].criterionId);
      }
      TakeNext(assessments, i);
      IdsSnoc(assessments[..i], assessments[i]);
      i := i + 1;
    }
    TakeAll(assessments);
    return None;
  }

  /**
   * `evaluate`. The outcome is a profile exactly when no criterion is assessed twice and all are known;
   * otherwise the error names the first offender, duplicates before unknown ones.
   */
  method Evaluate(template: Template, model: Model, assessments: seq<Assessment>) returns (e: Evaluation)
    ensures IsOutcome(template, model, assessments, e)
  {
    var byId, repeated := FillById(assessments);
    if repeated.Some? {
      return Duplicate(repeated.value);
    }
    var unknown := CheckKnown(template, assessments);
    if unknown.Some? {
      return Unknown(unknown.value);
    }
    return Evaluated(ProfileOf(template, model, byId));
  }

  lemma IdsSnoc(before: seq<Assessment>, a: Assessment)
    ensures Ids(before + [a]) == Ids(before) + {a.criterionId}
  {
    assert a in before + [a];
    forall o | o in before
      ensures o in before + [a]
    {
    }
  }

  lemma DistinctSnoc(before: seq<Assessment>, a: Assessment)
    requires Distinct(before)
    ensures Distinct(before + [a]) <==> a.criterionId !in Ids(before)
  {
    if a.criterionId in Ids(before) {
      var o :| o in before && o.criterionId == a.criterionId;
      var i :| 0 <= i < |before| && before[i] == o;
      assert (before + [a])[i].criterionId == (before + [a])[|before|].criterionId;
    } else {
      forall i | 0 <= i < |before|
        ensures before[i].criterionId != a.criterionId
      {
        assert before[i] in before;
      }
    }
  }

  lemma RepeatFound(assessments: seq<Assessment>, i: nat)
    requires i < |assessments| && Distinct(assessments[..i]) && assessments[i].criterionId in Ids(assessments[..i])
    ensures FirstRepeated(assessments, assessments[i].criterionId)
  {
  }

  lemma UnknownFound(template: Template, assessments: seq<Assessment>, i: nat)
    requires i < |assessments| && Ids(assessments[..i]) <= Known(template)
    requires assessments[i].criterionId !in Known(template)
    ensures FirstUnknown(template, assessments, assessments[i].criterionId)
  {
  }

  /** The three outcomes exclude each other: each error means what its success condition lacks. */
  lemma ErrorsAreFailures(template: Template, assessments: seq<Assessment>, id: string)
    ensures FirstRepeated(assessments, id) ==> !Distinct(assessments)
    ensures FirstUnknown(template, assessments, id) ==> !(Ids(assessments) <= Known(template))
  {
    if FirstRepeated(assessments, id) {
      var j :| 0 < j < |assessments| && Distinct(assessments[..j]) && assessments[j].criterionId == id
               && id in Ids(assessments[..j]);
      var o :| o in assessments[..j] && o.criterionId == id;
      var k :| 0 <= k < j && assessments[k] == o;
    }
    if FirstUnknown(template, assessments, id) {
      var j :| 0 <= j < |assessments| && Ids(assessments[..j]) <= Known(template)
               && assessments[j].criterionId == id && id !in Known(template);
      assert assessments[j] in assessments;
    }
  }
}
