/** The bundle of capture evidence and what it takes to be closed. */
module Evidence {
  import opened Identity
  import opened Options
  import P = Provenance
  import R = Retry

  type Instant = int

  // ---------------------------------------------------------------- records

  datatype SchedulePolicy = SchedulePolicy(retry: R.Policy)

  datatype CaptureCampaign = CaptureCampaign(universeRefs: seq<string>)

  datatype CaptureRun = CaptureRun(campaignId: string, policyId: string)

  datatype ListObligation = ListObligation(
    runId: string, universeRef: string, subject: string, requirementId: string, partition: string)

  datatype SourceRequest = SourceRequest(subjectRefs: seq<string>, requirementIds: seq<string>, partition: string)

  datatype WorkItem = WorkItem(campaignId: string, requestId: string, policyId: string)

  datatype Binding = Binding(obligationId: string, workItemId: string)

  datatype RawObject = RawObject

  datatype SourceVintage = SourceVintage(requestId: string, rawObjectId: string)

  datatype TerminalState = Success | Unchanged | Unavailable | SkippedByPolicy | Failed

  datatype ObligationResult = ObligationResult(
    obligationId: string, state: TerminalState, finalAttemptId: Option<string>)

  datatype Observation = Observation(
    semanticType: string, semanticVersion: string, subject: string,
    validFrom: Instant, validTo: Option<Instant>, knowableAt: Instant,
    vintageId: string, payload: string, isRestatement: bool, supersedes: Option<string>)

  datatype Applicability = Applicable | NotApplicable | NotYetKnowable

  datatype AssessmentTarget = OfObservation(id: string) | OfObligation(id: string)

  datatype Assessment = Assessment(
    target: AssessmentTarget, hasConfidence: bool, applicability: Applicability, cutoff: Instant)

  datatype Bundle = Bundle(
    policies: seq<Record<SchedulePolicy>>,
    campaigns: seq<Record<CaptureCampaign>>,
    runs: seq<Record<CaptureRun>>,
    obligations: seq<Record<ListObligation>>,
    requests: seq<Record<SourceRequest>>,
    workItems: seq<Record<WorkItem>>,
    bindings: seq<Record<Binding>>,
    attempts: seq<R.Attempt>,
    attemptResults: seq<R.AttemptResult>,
    rawObjects: seq<Record<RawObject>>,
    vintages: seq<Record<SourceVintage>>,
    results: seq<Record<ObligationResult>>,
    observations: seq<Record<Observation>>,
    assessments: seq<Record<Assessment>>,
    provenance: P.Graph)

  /** What the validators of the parts have already established when the bundle is validated. */
  ghost predicate Typed(b: Bundle) {
    && (forall p :: p in b.policies ==> p.data.retry.Valid())
    && (forall x :: x in b.attemptResults ==> x.data.Valid())
    && (forall r :: r in b.results ==> (r.data.state == SkippedByPolicy <==> r.data.finalAttemptId.None?))
    && (forall o :: o in b.observations ==>
          && (o.data.isRestatement <==> o.data.supersedes.Some?)
          && o.data.supersedes != Some(o.id))
    && P.WellFormed(b.provenance)
  }

  // ---------------------------------------------------------------- the indexes

  datatype Tables = Tables(
    policies: map<string, Record<SchedulePolicy>>,
    campaigns: map<string, Record<CaptureCampaign>>,
    runs: map<string, Record<CaptureRun>>,
    obligations: map<string, Record<ListObligation>>,
    requests: map<string, Record<SourceRequest>>,
    workItems: map<string, Record<WorkItem>>,
    attempts: map<string, R.Attempt>,
    rawObjects: map<string, Record<RawObject>>,
    vintages: map<string, Record<SourceVintage>>,
    observations: map<string, Record<Observation>>)

  ghost predicate AllDistinct(b: Bundle) {
    && DistinctIds(b.policies) && DistinctIds(b.campaigns) && DistinctIds(b.runs) && DistinctIds(b.obligations)
    && DistinctIds(b.requests) && DistinctIds(b.workItems) && DistinctIds(b.bindings) && DistinctIds(b.attempts)
    && DistinctIds(b.attemptResults) && DistinctIds(b.rawObjects) && DistinctIds(b.vintages)
    && DistinctIds(b.results) && DistinctIds(b.observations) && DistinctIds(b.assessments)
  }

  function TablesOf(b: Bundle): Tables {
    Tables(Table(b.policies), Table(b.campaigns), Table(b.runs), Table(b.obligations), Table(b.requests),
           Table(b.workItems), Table(b.attempts), Table(b.rawObjects), Table(b.vintages), Table(b.observations))
  }

  // ---------------------------------------------------------------- references

  predicate RunClosed(run: CaptureRun, t: Tables) {
    run.campaignId in t.campaigns && run.policyId in t.policies
  }

  predicate ObligationClosed(o: ListObligation, t: Tables) {
    && o.runId in t.runs
    && t.runs[o.runId].data.campaignId in t.campaigns
    && o.universeRef in t.campaigns[t.runs[o.runId].data.campaignId].data.universeRefs
  }

  predicate WorkItemClosed(w: WorkItem, t: Tables) {
    w.campaignId in t.campaigns && w.requestId in t.requests && w.policyId in t.policies
  }

  predicate RunsClosed(b: Bundle, t: Tables) {
    forall x :: x in b.runs ==> RunClosed(x.data, t)
  }

  predicate ObligationsClosed(b: Bundle, t: Tables) {
    forall x :: x in b.obligations ==> ObligationClosed(x.data, t)
  }

  predicate WorkItemsClosed(b: Bundle, t: Tables) {
    forall x :: x in b.workItems ==> WorkItemClosed(x.data, t)
  }

  /** The dictionary of results by obligation, later results replacing earlier ones. */
  function ResultByObligation(results: seq<Record<ObligationResult>>): (r: map<string, Record<ObligationResult>>)
    ensures forall k :: k in r ==> r[k] in results && r[k].data.obligationId == k
  {
    if results == [] then map[]
    else
      var last := results[|results| - 1];
      ResultByObligation(results[..|results| - 1])[last.data.obligationId := last]
  }

  lemma {:induction false} HasResultOf(results: seq<Record<ObligationResult>>, r: Record<ObligationResult>)
    requires r in results
    ensures r.data.obligationId in ResultByObligation(results)
  {
    var init, last := results[..|results| - 1], results[|results| - 1];
    if r != last {
      assert results == init + [last];
      HasResultOf(init, r);
    }
  }

  predicate OneResultPerObligation(results: seq<Record<ObligationResult>>) {
    results == []
    || (results[|results| - 1].data.obligationId !in ResultByObligation(results[..|results| - 1])
        && OneResultPerObligation(results[..|results| - 1]))
  }

  lemma {:induction false} OneResultPrefix(results: seq<Record<ObligationResult>>, j: nat)
    requires OneResultPerObligation(results) && j <= |results|
    ensures OneResultPerObligation(results[..j])
  {
    if j < |results| {
      OneResultPrefix(results[..|results| - 1], j);
      assert results[..|results| - 1][..j] == results[..j];
    } else {
      assert results[..j] == results;
    }
  }

  /** No two results are for one obligation. */
  lemma {:induction false} OneResultMeaning(results: seq<Record<ObligationResult>>)
    ensures OneResultPerObligation(results) <==>
            forall i, j :: 0 <= i < j < |results| ==> results[i].data.obligationId != results[j].data.obligationId
  {
    if results != [] {
      var init, last := results[..|results| - 1], results[|results| - 1];
      OneResultMeaning(init);
      assert forall i :: 0 <= i < |init| ==> init[i] == results[i];
      if last.data.obligationId in ResultByObligation(init) {
        var i :| 0 <= i < |init| && init[i] == ResultByObligation(init)[last.data.obligationId];
        assert results[i].data.obligationId == results[|results| - 1].data.obligationId;
      } else {
        forall i | 0 <= i < |init|
          ensures results[i].data.obligationId != last.data.obligationId
        {
          HasResultOf(init, init[i]);
        }
      }
    }
  }

  /** Every obligation has exactly one persisted result. */
  predicate ResultsTotal(b: Bundle, t: Tables) {
    OneResultPerObligation(b.results) && ResultByObligation(b.results).Keys == t.obligations.Keys
  }

  /** In plain words: every result is of a known obligation, no two of the same, and none is missing. */
  lemma ResultsTotalMeaning(b: Bundle, t: Tables)
    ensures ResultsTotal(b, t) <==>
            && (forall i, j :: 0 <= i < j < |b.results| ==>
                  b.results[i].data.obligationId != b.results[j].data.obligationId)
            && (forall r :: r in b.results ==> r.data.obligationId in t.obligations)
            && (forall o :: o in t.obligations ==> exists r :: r in b.results && r.data.obligationId == o)
  {
    var keys := ResultByObligation(b.results).Keys;
    OneResultMeaning(b.results);
    forall o
      ensures o in keys <==> exists r :: r in b.results && r.data.obligationId == o
    {
      forall r | r in b.results && r.data.obligationId == o
        ensures o in keys
      {
        HasResultOf(b.results, r);
      }
    }
    assert keys == t.obligations.Keys <==> forall o :: o in keys <==> o in t.obligations;
  }

  function SkippedIds(results: seq<Record<ObligationResult>>): set<string> {
    set r | r in results && r.data.state == SkippedByPolicy :: r.data.obligationId
  }

  /** The work item serves the obligation: same campaign and policy, and a request that covers it. */
  predicate Serves(work: WorkItem, obligation: ListObligation, t: Tables)
    requires obligation.runId in t.runs && work.requestId in t.requests
  {
    var run, request := t.runs[obligation.runId].data, t.requests[work.requestId].data;
    && run.campaignId == work.campaignId && run.policyId == work.policyId
    && obligation.subject in request.subjectRefs
    && obligation.requirementId in request.requirementIds
    && obligation.partition == request.partition
  }

  predicate BindingClosed(binding: Binding, t: Tables, skipped: set<string>) {
    && binding.obligationId in t.obligations && binding.workItemId in t.workItems
    && binding.obligationId !in skipped
    && t.obligations[binding.obligationId].data.runId in t.runs
    && t.workItems[binding.workItemId].data.requestId in t.requests
    && Serves(t.workItems[binding.workItemId].data, t.obligations[binding.obligationId].data, t)
  }

  /** The dictionary of bound work items, later bindings replacing earlier ones. */
  function BoundWork(bindings: seq<Record<Binding>>): (r: map<string, string>)
  {
    if bindings == [] then map[]
    else
      var last := bindings[|bindings| - 1];
      BoundWork(bindings[..|bindings| - 1])[last.data.obligationId := last.data.workItemId]
  }

  predicate DistinctlyBound(bindings: seq<Record<Binding>>) {
    bindings == []
    || (bindings[|bindings| - 1].data.obligationId !in BoundWork(bindings[..|bindings| - 1])
        && DistinctlyBound(bindings[..|bindings| - 1]))
  }

  lemma {:induction false} BoundPrefix(bindings: seq<Record<Binding>>, j: nat)
    requires DistinctlyBound(bindings) && j <= |bindings|
    ensures DistinctlyBound(bindings[..j])
  {
    if j < |bindings| {
      BoundPrefix(bindings[..|bindings| - 1], j);
      assert bindings[..|bindings| - 1][..j] == bindings[..j];
    } else {
      assert bindings[..j] == bindings;
    }
  }

  lemma {:induction false} BoundBy(bindings: seq<Record<Binding>>, obligation: string) returns (x: Record<Binding>)
    requires obligation in BoundWork(bindings)
    ensures x in bindings && x.data == Binding(obligation, BoundWork(bindings)[obligation])
  {
    x := bindings[|bindings| - 1];
    if x.data.obligationId != obligation {
      x := BoundBy(bindings[..|bindings| - 1], obligation);
    }
  }

  lemma {:induction false} HasBindingOf(bindings: seq<Record<Binding>>, x: Record<Binding>)
    requires x in bindings
    ensures x.data.obligationId in BoundWork(bindings)
  {
    var init, last := bindings[..|bindings| - 1], bindings[|bindings| - 1];
    if x != last {
      assert bindings == init + [last];
      HasBindingOf(init, x);
    }
  }

  /** No two bindings are for one obligation. */
  lemma {:induction false} DistinctlyBoundMeaning(bindings: seq<Record<Binding>>)
    ensures DistinctlyBound(bindings) <==>
            forall i, j :: 0 <= i < j < |bindings| ==> bindings[i].data.obligationId != bindings[j].data.obligationId
  {
    if bindings != [] {
      var init, last := bindings[..|bindings| - 1], bindings[|bindings| - 1];
      DistinctlyBoundMeaning(init);
      assert forall i :: 0 <= i < |init| ==> init[i] == bindings[i];
      if last.data.obligationId in BoundWork(init) {
        var x := BoundBy(init, last.data.obligationId);
        var i :| 0 <= i < |init| && init[i] == x;
        assert bindings[i].data.obligationId == bindings[|bindings| - 1].data.obligationId;
      } else {
        forall i | 0 <= i < |init|
          ensures bindings[i].data.obligationId != last.data.obligationId
        {
          HasBindingOf(init, init[i]);
        }
      }
    }
  }

  /** Every obligation that was not skipped is bound to exactly one work item that serves it. */
  predicate BindingsTotal(b: Bundle, t: Tables) {
    && (forall x :: x in b.bindings ==> BindingClosed(x.data, t, SkippedIds(b.results)))
    && DistinctlyBound(b.bindings)
    && BoundWork(b.bindings).Keys == t.obligations.Keys - SkippedIds(b.results)
  }

  /** In plain words: no two bindings are of the same obligation, and the obligations bound are those not
      skipped. */
  lemma BindingsTotalMeaning(b: Bundle, t: Tables)
    ensures BindingsTotal(b, t) <==>
            && (forall x :: x in b.bindings ==> BindingClosed(x.data, t, SkippedIds(b.results)))
            && (forall i, j :: 0 <= i < j < |b.bindings| ==>
                  b.bindings[i].data.obligationId != b.bindings[j].data.obligationId)
            && (forall o :: o in t.obligations && o !in SkippedIds(b.results) ==>
                  exists x :: x in b.bindings && x.data.obligationId == o)
  {
    DistinctlyBoundMeaning(b.bindings);
    forall o
      ensures o in BoundWork(b.bindings) <==> exists x :: x in b.bindings && x.data.obligationId == o
    {
      if o in BoundWork(b.bindings) {
        var x := BoundBy(b.bindings, o);
      }
      forall x | x in b.bindings && x.data.obligationId == o
        ensures o in BoundWork(b.bindings)
      {
        HasBindingOf(b.bindings, x);
      }
    }
    assert BoundWork(b.bindings).Keys == t.obligations.Keys - SkippedIds(b.results) <==>
           forall o :: o in BoundWork(b.bindings) <==> o in t.obligations && o !in SkippedIds(b.results);
  }

  // ---------------------------------------------------------------- attempts

  /** The attempts of one work item, in bundle order. */
  function AttemptsOf(attempts: seq<R.Attempt>, work: string): (r: seq<R.Attempt>)
    ensures forall i :: 0 <= i < |r| ==> r[i] in attempts && r[i].data.workItemId == work
  {
    if attempts == [] then []
    else
      var init, last := attempts[..|attempts| - 1], attempts[|attempts| - 1];
      AttemptsOf(init, work) + if last.data.workItemId == work then [last] else []
  }

  lemma {:induction false} AttemptsOfAll(attempts: seq<R.Attempt>, work: string, a: R.Attempt)
    requires a in attempts && a.data.workItemId == work
    ensures a in AttemptsOf(attempts, work)
  {
    var init, last := attempts[..|attempts| - 1], attempts[|attempts| - 1];
    if a != last {
      assert attempts == init + [last];
      AttemptsOfAll(init, work, a);
    }
  }

  ghost predicate AttemptsClosed(b: Bundle, t: Tables) {
    && (forall a :: a in b.attempts ==> a.data.workItemId in t.workItems)
    && (forall w :: w in t.workItems ==> AttemptsOf(b.attempts, w) != [])
  }

  /** The dictionary of results by attempt, later results replacing earlier ones. */
  function ResultByAttempt(results: seq<R.AttemptResult>): (r: map<string, R.AttemptResult>)
    ensures forall k :: k in r ==> r[k] in results && r[k].data.attemptId == k
  {
    if results == [] then map[]
    else
      var last := results[|results| - 1];
      ResultByAttempt(results[..|results| - 1])[last.data.attemptId := last]
  }

  predicate OneResultEach(results: seq<R.AttemptResult>) {
    results == []
    || (results[|results| - 1].data.attemptId !in ResultByAttempt(results[..|results| - 1])
        && OneResultEach(results[..|results| - 1]))
  }

  lemma {:induction false} OneResultEachPrefix(results: seq<R.AttemptResult>, j: nat)
    requires OneResultEach(results) && j <= |results|
    ensures OneResultEach(results[..j])
  {
    if j < |results| {
      OneResultEachPrefix(results[..|results| - 1], j);
      assert results[..|results| - 1][..j] == results[..j];
    } else {
      assert results[..j] == results;
    }
  }

  lemma {:induction false} OnlyResult(results: seq<R.AttemptResult>, x: R.AttemptResult)
    requires OneResultEach(results) && x in results
    ensures x.data.attemptId in ResultByAttempt(results) && ResultByAttempt(results)[x.data.attemptId] == x
  {
    var init, last := results[..|results| - 1], results[|results| - 1];
    if x != last {
      assert results == init + [last];
      OnlyResult(init, x);
    }
  }

  lemma {:induction false} HasResultFor(results: seq<R.AttemptResult>, x: R.AttemptResult)
    requires x in results
    ensures x.data.attemptId in ResultByAttempt(results)
  {
    var init, last := results[..|results| - 1], results[|results| - 1];
    if x != last {
      assert results == init + [last];
      HasResultFor(init, x);
    }
  }

  /** No two results are of one attempt. */
  lemma {:induction false} OneResultEachMeaning(results: seq<R.AttemptResult>)
    ensures OneResultEach(results) <==>
            forall i, j :: 0 <= i < j < |results| ==> results[i].data.attemptId != results[j].data.attemptId
  {
    if results != [] {
      var init, last := results[..|results| - 1], results[|results| - 1];
      OneResultEachMeaning(init);
      assert forall i :: 0 <= i < |init| ==> init[i] == results[i];
      if last.data.attemptId in ResultByAttempt(init) {
        var i :| 0 <= i < |init| && init[i] == ResultByAttempt(init)[last.data.attemptId];
        assert results[i].data.attemptId == results[|results| - 1].data.attemptId;
      } else {
        forall i | 0 <= i < |init|
          ensures results[i].data.attemptId != last.data.attemptId
        {
          HasResultFor(init, init[i]);
        }
      }
    }
  }

  predicate Timely(x: R.Completion, t: Tables) {
    x.attemptId in t.attempts && t.attempts[x.attemptId].data.startedAt <= x.completedAt
  }

  /** Every attempt has exactly one result, and none precedes its dispatch. */
  predicate AttemptResultsTotal(b: Bundle, t: Tables) {
    && (forall x :: x in b.attemptResults ==> Timely(x.data, t))
    && OneResultEach(b.attemptResults)
    && ResultByAttempt(b.attemptResults).Keys == t.attempts.Keys
  }

  /** In plain words: every result is of a known attempt and not before its dispatch, no two of the same,
      and none is missing. */
  lemma AttemptResultsTotalMeaning(b: Bundle, t: Tables)
    ensures AttemptResultsTotal(b, t) <==>
            && (forall x :: x in b.attemptResults ==> Timely(x.data, t))
            && (forall i, j :: 0 <= i < j < |b.attemptResults| ==>
                  b.attemptResults[i].data.attemptId != b.attemptResults[j].data.attemptId)
            && (forall a :: a in t.attempts ==> exists x :: x in b.attemptResults && x.data.attemptId == a)
  {
    OneResultEachMeaning(b.attemptResults);
    if forall x :: x in b.attemptResults ==> Timely(x.data, t) {
      AttemptsCovered(b.attemptResults, t);
    }
  }

  lemma AttemptsCovered(results: seq<R.AttemptResult>, t: Tables)
    requires forall x :: x in results ==> Timely(x.data, t)
    ensures ResultByAttempt(results).Keys == t.attempts.Keys <==>
            forall a :: a in t.attempts ==> exists x :: x in results && x.data.attemptId == a
  {
    var keys := ResultByAttempt(results).Keys;
    forall a
      ensures a in keys <==> exists x :: x in results && x.data.attemptId == a
    {
      forall x | x in results && x.data.attemptId == a
        ensures a in keys
      {
        HasResultFor(results, x);
      }
    }
    assert keys <= t.attempts.Keys;
    assert keys == t.attempts.Keys <==> forall a :: a in t.attempts ==> a in keys;
  }

  predicate VintageClosed(v: SourceVintage, t: Tables) {
    v.requestId in t.requests && v.rawObjectId in t.rawObjects
  }

  predicate VintagesClosed(b: Bundle, t: Tables) {
    forall x :: x in b.vintages ==> VintageClosed(x.data, t)
  }

  /** The attempts of every work item, taken as a bag, are a complete run of its retry policy. */
  ghost predicate RetriesDisciplined(b: Bundle, t: Tables)
  {
    forall w :: w in t.workItems ==>
      && t.workItems[w].data.policyId in t.policies
      && (forall a :: a in AttemptsOf(b.attempts, w) ==> a.id in ResultByAttempt(b.attemptResults))
      && R.Disciplined(t.policies[t.workItems[w].data.policyId].data.retry, AttemptsOf(b.attempts, w),
                       ResultByAttempt(b.attemptResults))
  }

  function VintageOf(x: R.Completion): Option<string> {
    if x.vintageId.Some? then x.vintageId else x.reusedVintageId
  }

  predicate ResultVintageClosed(x: R.Completion, t: Tables) {
    VintageOf(x).Some? ==>
      var v := VintageOf(x).value;
      && v in t.vintages
      && x.attemptId in t.attempts
      && t.attempts[x.attemptId].data.workItemId in t.workItems
      && t.vintages[v].data.requestId == t.workItems[t.attempts[x.attemptId].data.workItemId].data.requestId
  }

  predicate ResultVintagesClosed(b: Bundle, t: Tables) {
    forall x :: x in b.attemptResults ==> ResultVintageClosed(x.data, t)
  }

  /** The terminal state that carries the name of an outcome, if one does. */
  function StateOf(outcome: R.Outcome): Option<TerminalState> {
    match outcome
    case Success => Some(TerminalState.Success)
    case Unchanged => Some(TerminalState.Unchanged)
    case Unavailable => Some(TerminalState.Unavailable)
    case Failed => Some(TerminalState.Failed)
    case _ => None
  }

  /** A result that names an attempt names the last attempt of its bound work item, and its state. */
  ghost predicate FinalAttemptsAgree(b: Bundle, t: Tables)
  {
    forall r :: r in b.results && r.data.finalAttemptId.Some? ==>
      var final := r.data.finalAttemptId.value;
      && final in t.attempts && final in ResultByAttempt(b.attemptResults)
      && r.data.obligationId in BoundWork(b.bindings)
      && t.attempts[final].data.workItemId == BoundWork(b.bindings)[r.data.obligationId]
      && t.attempts[final].data.number == |AttemptsOf(b.attempts, BoundWork(b.bindings)[r.data.obligationId])|
      && StateOf(ResultByAttempt(b.attemptResults)[final].data.outcome) == Some(r.data.state)
  }

  // ---------------------------------------------------------------- observations

  predicate SameCoordinate(o: Observation, p: Observation) {
    o.semanticType == p.semanticType && o.semanticVersion == p.semanticVersion && o.subject == p.subject
    && o.validFrom == p.validFrom
  }

  predicate Restates(o: Observation, p: Observation) {
    SameCoordinate(o, p) && o.knowableAt > p.knowableAt && o.payload != p.payload
  }

  predicate ObservationClosed(o: Observation, t: Tables) {
    && o.vintageId in t.vintages
    && (o.supersedes.Some? ==>
          o.supersedes.value in t.observations && Restates(o, t.observations[o.supersedes.value].data))
  }

  predicate ObservationsClosed(b: Bundle, t: Tables) {
    forall x :: x in b.observations ==> ObservationClosed(x.data, t)
  }

  predicate AssessmentClosed(a: Assessment, t: Tables) {
    match a.target
    case OfObligation(id) => id in t.obligations
    case OfObservation(id) =>
      && id in t.observations
      && (t.observations[id].data.knowableAt > a.cutoff ==>
            a.applicability == NotYetKnowable && !a.hasConfidence)
  }

  predicate AssessmentsClosed(b: Bundle, t: Tables) {
    forall x :: x in b.assessments ==> AssessmentClosed(x.data, t)
  }

  // ---------------------------------------------------------------- provenance

  /** The records of one kind entered under their ids, replacing what was there. */
  function Enter<T>(before: map<string, P.NodeKind>, records: seq<Record<T>>, kind: P.NodeKind)
    : map<string, P.NodeKind>
  {
    if records == [] then before
    else Enter(before, records[..|records| - 1], kind)[records[|records| - 1].id := kind]
  }

  /** The dictionary of required nodes. */
  function RequiredNodes(b: Bundle): map<string, P.NodeKind> {
    var plans := Enter(Enter(Enter(map[], b.campaigns, P.NodeKind.Campaign), b.runs, P.NodeKind.Run),
                       b.obligations, P.NodeKind.ListObligation);
    var work := Enter(Enter(plans, b.requests, P.NodeKind.SourceRequest), b.workItems, P.NodeKind.WorkItem);
    var fetched := Enter(Enter(work, b.attempts, P.NodeKind.FetchAttempt),
                         b.attemptResults, P.NodeKind.FetchAttemptResult);
    var archived := Enter(Enter(fetched, b.rawObjects, P.NodeKind.RawObject), b.vintages, P.NodeKind.SourceVintage);
    Enter(Enter(archived, b.observations, P.NodeKind.NormalizedObservation),
          b.assessments, P.NodeKind.ConfidenceAssessment)
  }

  ghost function IdsOf<T>(records: seq<Record<T>>): set<string> {
    set x | x in records :: x.id
  }

  lemma {:induction false} EnterMeaning<T>(before: map<string, P.NodeKind>, records: seq<Record<T>>, kind: P.NodeKind,
                                           id: string)
    ensures id in Enter(before, records, kind) <==> id in before || id in IdsOf(records)
    ensures id in IdsOf(records) ==> Enter(before, records, kind)[id] == kind
    ensures id in before && id !in IdsOf(records) ==> Enter(before, records, kind)[id] == before[id]
  {
    if records != [] {
      var init, last := records[..|records| - 1], records[|records| - 1];
      EnterMeaning(before, init, kind, id);
      assert records == init + [last];
      assert IdsOf(records) == IdsOf(init) + {last.id};
    }
  }

  /** What a core record of the bundle requires under its id. Should kinds share an id, the one listed
      first here wins, as it is entered last. */
  ghost function CoreKind(b: Bundle, id: string): Option<P.NodeKind> {
    if id in IdsOf(b.assessments) then Some(P.NodeKind.ConfidenceAssessment)
    else if id in IdsOf(b.observations) then Some(P.NodeKind.NormalizedObservation)
    else if id in IdsOf(b.vintages) then Some(P.NodeKind.SourceVintage)
    else if id in IdsOf(b.rawObjects) then Some(P.NodeKind.RawObject)
    else if id in IdsOf(b.attemptResults) then Some(P.NodeKind.FetchAttemptResult)
    else if id in IdsOf(b.attempts) then Some(P.NodeKind.FetchAttempt)
    else if id in IdsOf(b.workItems) then Some(P.NodeKind.WorkItem)
    else if id in IdsOf(b.requests) then Some(P.NodeKind.SourceRequest)
    else if id in IdsOf(b.obligations) then Some(P.NodeKind.ListObligation)
    else if id in IdsOf(b.runs) then Some(P.NodeKind.Run)
    else if id in IdsOf(b.campaigns) then Some(P.NodeKind.Campaign)
    else None
  }

  /** The dictionary of required nodes holds the ids of exactly the core records, with their kinds. */
  lemma RequiredMeaning(b: Bundle, id: string)
    ensures id in RequiredNodes(b) <==> CoreKind(b, id).Some?
    ensures id in RequiredNodes(b) ==> RequiredNodes(b)[id] == CoreKind(b, id).value
  {
    var m1 := Enter(map[], b.campaigns, P.NodeKind.Campaign);
    var m2 := Enter(m1, b.runs, P.NodeKind.Run);
    var m3 := Enter(m2, b.obligations, P.NodeKind.ListObligation);
    var m4 := Enter(m3, b.requests, P.NodeKind.SourceRequest);
    var m5 := Enter(m4, b.workItems, P.NodeKind.WorkItem);
    var m6 := Enter(m5, b.attempts, P.NodeKind.FetchAttempt);
    var m7 := Enter(m6, b.attemptResults, P.NodeKind.FetchAttemptResult);
    var m8 := Enter(m7, b.rawObjects, P.NodeKind.RawObject);
    var m9 := Enter(m8, b.vintages, P.NodeKind.SourceVintage);
    var m10 := Enter(m9, b.observations, P.NodeKind.NormalizedObservation);
    EnterMeaning(map[], b.campaigns, P.NodeKind.Campaign, id);
    EnterMeaning(m1, b.runs, P.NodeKind.Run, id);
    EnterMeaning(m2, b.obligations, P.NodeKind.ListObligation, id);
    EnterMeaning(m3, b.requests, P.NodeKind.SourceRequest, id);
    EnterMeaning(m4, b.workItems, P.NodeKind.WorkItem, id);
    EnterMeaning(m5, b.attempts, P.NodeKind.FetchAttempt, id);
    EnterMeaning(m6, b.attemptResults, P.NodeKind.FetchAttemptResult, id);
    EnterMeaning(m7, b.rawObjects, P.NodeKind.RawObject, id);
    EnterMeaning(m8, b.vintages, P.NodeKind.SourceVintage, id);
    EnterMeaning(m9, b.observations, P.NodeKind.NormalizedObservation, id);
    EnterMeaning(m10, b.assessments, P.NodeKind.ConfidenceAssessment, id);
  }

  /** The dictionary of the nodes that are there; with unique ids it holds every node. */
  function KindsOf(nodes: seq<P.Node>): map<string, P.NodeKind> {
    if nodes == [] then map[]
    else KindsOf(nodes[..|nodes| - 1])[nodes[|nodes| - 1].nodeId := nodes[|nodes| - 1].kind]
  }

  lemma {:induction false} KindsAreNodes(nodes: seq<P.Node>, id: string)
    requires P.DistinctNodeIds(nodes)
    ensures forall kind :: P.Node(id, kind) in nodes <==> id in KindsOf(nodes) && KindsOf(nodes)[id] == kind
  {
    if nodes != [] {
      var init, last := nodes[..|nodes| - 1], nodes[|nodes| - 1];
      assert nodes == init + [last];
      KindsAreNodes(init, id);
      forall kind
        ensures P.Node(id, kind) in init ==> id != last.nodeId
      {
        if P.Node(id, kind) in init {
          var i :| 0 <= i < |init| && init[i] == P.Node(id, kind);
          assert nodes[i].nodeId != nodes[|nodes| - 1].nodeId;
        }
      }
    }
  }

  function Entered(edges: seq<P.Edge>): set<string> {
    set e | e in edges :: e.toId
  }

  /** A required node is there with its kind, and linked unless it is a campaign. */
  predicate NodeLinked(id: string, kind: P.NodeKind, g: P.Graph) {
    && id in KindsOf(g.nodes) && KindsOf(g.nodes)[id] == kind
    && (kind != P.NodeKind.Campaign ==> id in Entered(g.edges))
  }

  predicate NodesLinked(g: P.Graph, required: map<string, P.NodeKind>) {
    forall id :: id in required ==> NodeLinked(id, required[id], g)
  }

  type Triples = set<(string, P.EdgeKind, string)>

  function TriplesOf(g: P.Graph): Triples {
    set e | e in g.edges :: (e.fromId, e.kind, e.toId)
  }

  predicate RunEdge(x: Record<CaptureRun>, edges: Triples) {
    (x.data.campaignId, P.EdgeKind.Contains, x.id) in edges
  }

  predicate ObligationEdge(x: Record<ListObligation>, edges: Triples) {
    (x.data.runId, P.EdgeKind.Requires, x.id) in edges
  }

  predicate BindingEdge(x: Binding, edges: Triples) {
    (x.obligationId, P.EdgeKind.SatisfiedBy, x.workItemId) in edges
  }

  predicate WorkItemEdges(x: Record<WorkItem>, edges: Triples) {
    && (x.data.campaignId, P.EdgeKind.Contains, x.data.requestId) in edges
    && (x.data.requestId, P.EdgeKind.Dispatches, x.id) in edges
  }

  predicate VintageEdge(x: Record<SourceVintage>, edges: Triples) {
    (x.id, P.EdgeKind.ArchivesAs, x.data.rawObjectId) in edges
  }

  predicate ObservationEdge(x: Record<Observation>, edges: Triples) {
    (x.data.vintageId, P.EdgeKind.NormalizedAs, x.id) in edges
  }

  predicate AttemptEdge(a: R.Attempt, edges: Triples) {
    (a.data.workItemId, P.EdgeKind.AttemptedBy, a.id) in edges
  }

  /** The edges that the records themselves force. */
  predicate RecordEdges(b: Bundle, edges: Triples) {
    && (forall x :: x in b.runs ==> RunEdge(x, edges))
    && (forall x :: x in b.obligations ==> ObligationEdge(x, edges))
    && (forall x :: x in b.bindings ==> BindingEdge(x.data, edges))
    && (forall x :: x in b.workItems ==> WorkItemEdges(x, edges))
    && (forall x :: x in b.vintages ==> VintageEdge(x, edges))
    && (forall x :: x in b.observations ==> ObservationEdge(x, edges))
  }

  predicate CompletionEdges(x: R.AttemptResult, edges: Triples) {
    && (x.data.attemptId, P.EdgeKind.Completes, x.id) in edges
    && (x.data.vintageId.Some? ==> (x.id, P.EdgeKind.Observed, x.data.vintageId.value) in edges)
    && (x.data.reusedVintageId.Some? ==> (x.id, P.EdgeKind.Reuses, x.data.reusedVintageId.value) in edges)
  }

  predicate AttemptEdges(b: Bundle, edges: Triples) {
    && (forall a :: a in b.attempts ==> AttemptEdge(a, edges))
    && (forall x :: x in b.attemptResults ==> CompletionEdges(x, edges))
  }

  // ---------------------------------------------------------------- acceptance

  /** The bundles the interface accepts. */
  ghost predicate Closed(b: Bundle) {
    && AllDistinct(b)
    && RunsClosed(b, TablesOf(b)) && ObligationsClosed(b, TablesOf(b)) && WorkItemsClosed(b, TablesOf(b))
    && ResultsTotal(b, TablesOf(b))
    && BindingsTotal(b, TablesOf(b))
    && AttemptsClosed(b, TablesOf(b)) && AttemptResultsTotal(b, TablesOf(b)) && VintagesClosed(b, TablesOf(b))
    && RetriesDisciplined(b, TablesOf(b))
    && ResultVintagesClosed(b, TablesOf(b)) && FinalAttemptsAgree(b, TablesOf(b))
    && ObservationsClosed(b, TablesOf(b)) && AssessmentsClosed(b, TablesOf(b))
    && NodesLinked(b.provenance, RequiredNodes(b))
    && RecordEdges(b, TriplesOf(b.provenance)) && AttemptEdges(b, TriplesOf(b.provenance))
  }

  lemma DisciplinedAt(b: Bundle, t: Tables, w: string)
    requires RetriesDisciplined(b, t) && w in t.workItems
    ensures t.workItems[w].data.policyId in t.policies
    ensures forall a :: a in AttemptsOf(b.attempts, w) ==> a.id in ResultByAttempt(b.attemptResults)
    ensures R.Disciplined(t.policies[t.workItems[w].data.policyId].data.retry, AttemptsOf(b.attempts, w),
                          ResultByAttempt(b.attemptResults))
  {
  }
}
