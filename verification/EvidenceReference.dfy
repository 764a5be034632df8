/** Closed bundles once more, on the records' fields alone: no tables, no dictionaries, no shared checks. */
module EvidenceReference {
  import opened Evidence
  import opened Identity
  import opened Options
  import opened Ordering
  import P = Provenance
  import R = Retry

  // ---------------------------------------------------------------- the rules

  ghost predicate PairwiseIds<T>(records: seq<Record<T>>) {
    forall i, j :: 0 <= i < j < |records| ==> records[i].id != records[j].id
  }

  ghost predicate IdRules(b: Bundle) {
    && PairwiseIds(b.policies) && PairwiseIds(b.campaigns) && PairwiseIds(b.runs) && PairwiseIds(b.obligations)
    && PairwiseIds(b.requests) && PairwiseIds(b.workItems) && PairwiseIds(b.bindings) && PairwiseIds(b.attempts)
    && PairwiseIds(b.attemptResults) && PairwiseIds(b.rawObjects) && PairwiseIds(b.vintages)
    && PairwiseIds(b.results) && PairwiseIds(b.observations) && PairwiseIds(b.assessments)
  }

  ghost predicate Has<T>(records: seq<Record<T>>, id: string) {
    exists x :: x in records && x.id == id
  }

  /** A run belongs to a campaign and follows a schedule policy. */
  ghost predicate RunRule(b: Bundle, x: CaptureRun) {
    && Has(b.campaigns, x.campaignId)
    && Has(b.policies, x.policyId)
  }

  /** An obligation belongs to a run and lies in a universe of the run's campaign. */
  ghost predicate ObligationRule(b: Bundle, x: ListObligation) {
    exists r, c :: r in b.runs && c in b.campaigns && r.id == x.runId && c.id == r.data.campaignId
                   && x.universeRef in c.data.universeRefs
  }

  ghost predicate WorkItemRule(b: Bundle, x: WorkItem) {
    && Has(b.campaigns, x.campaignId)
    && Has(b.requests, x.requestId)
    && Has(b.policies, x.policyId)
  }

  ghost predicate Answered(b: Bundle, obligation: string) {
    exists r :: r in b.results && r.data.obligationId == obligation
  }

  /** Results and obligations answer one another one to one. */
  ghost predicate ResultRules(b: Bundle) {
    && (forall i, j :: 0 <= i < j < |b.results| ==> b.results[i].data.obligationId != b.results[j].data.obligationId)
    && (forall r {:trigger Has(b.obligations, r.data.obligationId)} ::
          r in b.results ==> Has(b.obligations, r.data.obligationId))
    && (forall o {:trigger Answered(b, o.id)} :: o in b.obligations ==> Answered(b, o.id))
  }

  ghost predicate Skipped(b: Bundle, obligation: string) {
    exists r :: r in b.results && r.data.obligationId == obligation && r.data.state == SkippedByPolicy
  }

  /** The records behind a binding. */
  ghost predicate Joins(b: Bundle, x: Binding, o: Record<ListObligation>, w: Record<WorkItem>, r: Record<CaptureRun>,
                        q: Record<SourceRequest>) {
    && o in b.obligations && w in b.workItems && r in b.runs && q in b.requests
    && o.id == x.obligationId && w.id == x.workItemId && r.id == o.data.runId && q.id == w.data.requestId
  }

  /** The work is of the obligation's campaign and policy, and its request covers the obligation. */
  predicate Covers(o: ListObligation, w: WorkItem, r: CaptureRun, q: SourceRequest) {
    && r.campaignId == w.campaignId && r.policyId == w.policyId
    && o.subject in q.subjectRefs && o.requirementId in q.requirementIds && o.partition == q.partition
  }

  /** A binding joins an obligation that is not skipped with work that covers it. */
  ghost predicate BindingRule(b: Bundle, x: Binding) {
    && !Skipped(b, x.obligationId)
    && exists o, w, r, q :: Joins(b, x, o, w, r, q) && Covers(o.data, w.data, r.data, q.data)
  }

  ghost predicate Bound(b: Bundle, obligation: string) {
    exists x :: x in b.bindings && x.data.obligationId == obligation
  }

  ghost predicate BindingRules(b: Bundle) {
    && (forall x {:trigger BindingRule(b, x.data)} :: x in b.bindings ==> BindingRule(b, x.data))
    && (forall i, j :: 0 <= i < j < |b.bindings| ==> b.bindings[i].data.obligationId != b.bindings[j].data.obligationId)
    && (forall o {:trigger Bound(b, o.id)} :: o in b.obligations ==> Skipped(b, o.id) || Bound(b, o.id))
  }

  ghost predicate Attempted(b: Bundle, w: string) {
    exists a :: a in b.attempts && a.data.workItemId == w
  }

  ghost predicate AttemptRules(b: Bundle) {
    && (forall a {:trigger Has(b.workItems, a.data.workItemId)} ::
          a in b.attempts ==> Has(b.workItems, a.data.workItemId))
    && (forall w {:trigger Attempted(b, w.id)} :: w in b.workItems ==> Attempted(b, w.id))
  }

  ghost predicate DispatchedBefore(b: Bundle, x: R.Completion) {
    exists a :: a in b.attempts && a.id == x.attemptId && a.data.startedAt <= x.completedAt
  }

  ghost predicate Completed(b: Bundle, attempt: string) {
    exists x :: x in b.attemptResults && x.data.attemptId == attempt
  }

  /** Attempts and their results answer one another one to one, and no result precedes its dispatch. */
  ghost predicate CompletionRules(b: Bundle) {
    && (forall i, j :: 0 <= i < j < |b.attemptResults| ==>
          b.attemptResults[i].data.attemptId != b.attemptResults[j].data.attemptId)
    && (forall x {:trigger DispatchedBefore(b, x.data)} :: x in b.attemptResults ==> DispatchedBefore(b, x.data))
    && (forall a {:trigger Completed(b, a.id)} :: a in b.attempts ==> Completed(b, a.id))
  }

  ghost predicate VintageRule(b: Bundle, x: SourceVintage) {
    && Has(b.requests, x.requestId)
    && Has(b.rawObjects, x.rawObjectId)
  }

  /** The records behind what an attempt observed or reused. */
  ghost predicate Produces(b: Bundle, x: R.Completion, id: string, v: Record<SourceVintage>, a: R.Attempt,
                           w: Record<WorkItem>) {
    && v in b.vintages && a in b.attempts && w in b.workItems
    && v.id == id && a.id == x.attemptId && w.id == a.data.workItemId
  }

  ghost predicate ProductOf(b: Bundle, x: R.Completion, id: string) {
    exists v, a, w :: Produces(b, x, id, v, a, w) && v.data.requestId == w.data.requestId
  }

  /** What an attempt observed, or else reused, is a vintage of the request its work item dispatched. */
  ghost predicate ProductRule(b: Bundle, x: R.Completion) {
    && (x.vintageId.Some? ==> ProductOf(b, x, x.vintageId.value))
    && (x.vintageId.None? && x.reusedVintageId.Some? ==> ProductOf(b, x, x.reusedVintageId.value))
  }

  /** The attempts of a work item, in some order. */
  ghost predicate TraceOf(b: Bundle, w: string, trace: seq<R.Attempt>) {
    forall a :: a in trace <==> a in b.attempts && a.data.workItemId == w
  }

  /** The attempt came to an outcome that ends the work, or else to one that may be retried. */
  ghost predicate CameTo(b: Bundle, policy: R.Policy, a: R.Attempt, last: bool) {
    exists x :: x in b.attemptResults && x.data.attemptId == a.id
                && if last then x.data.outcome in policy.terminal
                   else x.data.outcome in policy.retryable && x.data.outcome !in policy.terminal
  }

  ghost predicate Obeys(b: Bundle, policy: R.Policy, trace: seq<R.Attempt>) {
    && 1 <= |trace| <= policy.maxAttempts
    && (forall i :: 0 <= i < |trace| ==> trace[i].data.number == i + 1)
    && (forall i :: 0 <= i < |trace| ==> CameTo(b, policy, trace[i], i == |trace| - 1))
  }

  /** The attempts of a work item are numbered from one within the budget of its policy, all but the last
      may be retried and the last ends the work. */
  ghost predicate RetryRule(b: Bundle, w: Record<WorkItem>) {
    exists p, trace ::
      p in b.policies && p.id == w.data.policyId && TraceOf(b, w.id, trace) && Obeys(b, p.data.retry, trace)
  }

  /** The outcome and the terminal state go by one name. */
  predicate SameName(outcome: R.Outcome, state: TerminalState) {
    || (outcome.Success? && state.Success?) || (outcome.Unchanged? && state.Unchanged?)
    || (outcome.Unavailable? && state.Unavailable?) || (outcome.Failed? && state.Failed?)
  }

  /** No attempt of its work item is numbered higher. */
  ghost predicate LastOfWork(b: Bundle, a: R.Attempt) {
    forall a' :: a' in b.attempts && a'.data.workItemId == a.data.workItemId ==> a'.data.number <= a.data.number
  }

  ghost predicate EndsWith(b: Bundle, r: ObligationResult, x: Record<Binding>, a: R.Attempt, c: R.AttemptResult)
    requires r.finalAttemptId.Some?
  {
    && x in b.bindings && x.data.obligationId == r.obligationId
    && a in b.attempts && a.id == r.finalAttemptId.value && a.data.workItemId == x.data.workItemId
    && c in b.attemptResults && c.data.attemptId == a.id
  }

  /** A result that names an attempt names the one numbered last of the work item that serves its
      obligation, and ends in the state that attempt came to. */
  ghost predicate FinalRule(b: Bundle, r: ObligationResult) {
    r.finalAttemptId.Some? ==>
      exists x, a, c :: EndsWith(b, r, x, a, c) && LastOfWork(b, a) && SameName(c.data.outcome, r.state)
  }

  /** An observation is read from a vintage; one that supersedes another restates it, later and differently. */
  ghost predicate ObservationRule(b: Bundle, x: Observation) {
    && Has(b.vintages, x.vintageId)
    && (x.supersedes.Some? ==>
          exists o ::
            && o in b.observations && o.id == x.supersedes.value
            && x.semanticType == o.data.semanticType && x.semanticVersion == o.data.semanticVersion
            && x.subject == o.data.subject && x.validFrom == o.data.validFrom
            && x.knowableAt > o.data.knowableAt && x.payload != o.data.payload)
  }

  /** What was not knowable by the cutoff is marked so and not scored. */
  ghost predicate AssessmentRule(b: Bundle, x: Assessment) {
    match x.target
    case OfObligation(id) => Has(b.obligations, id)
    case OfObservation(id) =>
      exists o ::
        && o in b.observations && o.id == id
        && (o.data.knowableAt <= x.cutoff || (x.applicability == NotYetKnowable && !x.hasConfidence))
  }

  // ---------------------------------------------------------------- the rules of the graph

  ghost predicate Linked(g: P.Graph, from: string, kind: P.EdgeKind, to: string) {
    exists e :: e in g.edges && e.fromId == from && e.kind == kind && e.toId == to
  }

  ghost predicate Bears(b: Bundle, id: string, kind: P.NodeKind) {
    match kind
    case Campaign => Has(b.campaigns, id)
    case Run => Has(b.runs, id)
    case ListObligation => Has(b.obligations, id)
    case SourceRequest => Has(b.requests, id)
    case WorkItem => Has(b.workItems, id)
    case FetchAttempt => Has(b.attempts, id)
    case FetchAttemptResult => Has(b.attemptResults, id)
    case RawObject => Has(b.rawObjects, id)
    case SourceVintage => Has(b.vintages, id)
    case NormalizedObservation => Has(b.observations, id)
    case ConfidenceAssessment => Has(b.assessments, id)
    case _ => false
  }

  /** The place of a kind among the records entered. */
  function Place(kind: P.NodeKind): nat {
    match kind
    case Campaign => 1
    case Run => 2
    case ListObligation => 3
    case SourceRequest => 4
    case WorkItem => 5
    case FetchAttempt => 6
    case FetchAttemptResult => 7
    case RawObject => 8
    case SourceVintage => 9
    case NormalizedObservation => 10
    case ConfidenceAssessment => 11
    case Snapshot => 12
    case FactorInput => 13
    case MartOutput => 14
  }

  /** The id stands for a record of this kind and for none entered later. */
  ghost predicate StandsFor(b: Bundle, id: string, kind: P.NodeKind) {
    Bears(b, id, kind) && forall k :: Bears(b, id, k) ==> Place(k) <= Place(kind)
  }

  ghost predicate HasNode(g: P.Graph, id: string, kind: P.NodeKind) {
    && P.Node(id, kind) in g.nodes
    && (kind != P.NodeKind.Campaign ==> exists e :: e in g.edges && e.toId == id)
  }

  /** Every core record has its node, which an edge enters unless it is a campaign. */
  ghost predicate NodeRules(b: Bundle) {
    forall id, kind :: StandsFor(b, id, kind) ==> HasNode(b.provenance, id, kind)
  }

  ghost predicate EdgeRules(b: Bundle) {
    var g := b.provenance;
    && (forall x :: x in b.runs ==> Linked(g, x.data.campaignId, P.EdgeKind.Contains, x.id))
    && (forall x :: x in b.obligations ==> Linked(g, x.data.runId, P.EdgeKind.Requires, x.id))
    && (forall x :: x in b.bindings ==> Linked(g, x.data.obligationId, P.EdgeKind.SatisfiedBy, x.data.workItemId))
    && (forall x :: x in b.workItems ==> Linked(g, x.data.campaignId, P.EdgeKind.Contains, x.data.requestId))
    && (forall x :: x in b.workItems ==> Linked(g, x.data.requestId, P.EdgeKind.Dispatches, x.id))
    && (forall x :: x in b.attempts ==> Linked(g, x.data.workItemId, P.EdgeKind.AttemptedBy, x.id))
    && (forall x :: x in b.attemptResults ==> Linked(g, x.data.attemptId, P.EdgeKind.Completes, x.id))
    && (forall x :: x in b.attemptResults && x.data.vintageId.Some? ==>
          Linked(g, x.id, P.EdgeKind.Observed, x.data.vintageId.value))
    && (forall x :: x in b.attemptResults && x.data.reusedVintageId.Some? ==>
          Linked(g, x.id, P.EdgeKind.Reuses, x.data.reusedVintageId.value))
    && (forall x :: x in b.vintages ==> Linked(g, x.id, P.EdgeKind.ArchivesAs, x.data.rawObjectId))
    && (forall x :: x in b.observations ==> Linked(g, x.data.vintageId, P.EdgeKind.NormalizedAs, x.id))
  }

  // ---------------------------------------------------------------- all rules

  ghost predicate RecordRules(b: Bundle) {
    && (forall x {:trigger RunRule(b, x.data)} :: x in b.runs ==> RunRule(b, x.data))
    && (forall x {:trigger ObligationRule(b, x.data)} :: x in b.obligations ==> ObligationRule(b, x.data))
    && (forall x {:trigger WorkItemRule(b, x.data)} :: x in b.workItems ==> WorkItemRule(b, x.data))
    && (forall x {:trigger VintageRule(b, x.data)} :: x in b.vintages ==> VintageRule(b, x.data))
  }

  ghost predicate RetryRules(b: Bundle) {
    forall w {:trigger RetryRule(b, w)} :: w in b.workItems ==> RetryRule(b, w)
  }

  ghost predicate FinalRules(b: Bundle) {
    forall r {:trigger FinalRule(b, r.data)} :: r in b.results ==> FinalRule(b, r.data)
  }

  ghost predicate ReadingRules(b: Bundle) {
    && (forall x {:trigger ProductRule(b, x.data)} :: x in b.attemptResults ==> ProductRule(b, x.data))
    && (forall x {:trigger ObservationRule(b, x.data)} :: x in b.observations ==> ObservationRule(b, x.data))
    && (forall x {:trigger AssessmentRule(b, x.data)} :: x in b.assessments ==> AssessmentRule(b, x.data))
  }

  datatype Subject =
    | Ids | Records | Results | Bindings | Attempts | Completions | Retries | FinalAttempts | Readings | Nodes | Edges

  ghost predicate Rule(b: Bundle, subject: Subject) {
    match subject
    case Ids => IdRules(b)
    case Records => RecordRules(b)
    case Results => ResultRules(b)
    case Bindings => BindingRules(b)
    case Attempts => AttemptRules(b)
    case Completions => CompletionRules(b)
    case Retries => RetryRules(b)
    case FinalAttempts => FinalRules(b)
    case Readings => ReadingRules(b)
    case Nodes => NodeRules(b)
    case Edges => EdgeRules(b)
  }

  ghost predicate Rules(b: Bundle) {
    forall subject :: Rule(b, subject)
  }

  // ---------------------------------------------------------------- looking up in tables

  lemma Lookup<T>(records: seq<Record<T>>, id: string)
    requires DistinctIds(records)
    ensures id in Table(records) <==> Has(records, id)
    ensures forall x :: x in records && x.id == id ==> Table(records)[id] == x
    ensures id in Table(records) ==> Table(records)[id] in records && Table(records)[id].id == id
  {
    forall x | x in records && x.id == id
      ensures id in Table(records) && Table(records)[id] == x
    {
      TableKeepsAll(records, x);
    }
  }

  lemma IdMeaning(b: Bundle)
    ensures AllDistinct(b) <==> IdRules(b)
  {
    DistinctIdsMeaning(b.policies);
    DistinctIdsMeaning(b.campaigns);
    DistinctIdsMeaning(b.runs);
    DistinctIdsMeaning(b.obligations);
    DistinctIdsMeaning(b.requests);
    DistinctIdsMeaning(b.workItems);
    DistinctIdsMeaning(b.bindings);
    DistinctIdsMeaning(b.attempts);
    DistinctIdsMeaning(b.attemptResults);
    DistinctIdsMeaning(b.rawObjects);
    DistinctIdsMeaning(b.vintages);
    DistinctIdsMeaning(b.results);
    DistinctIdsMeaning(b.observations);
    DistinctIdsMeaning(b.assessments);
  }

  // ---------------------------------------------------------------- rule by rule

  lemma RunMeaning(b: Bundle, x: CaptureRun)
    requires AllDistinct(b)
    ensures RunClosed(x, TablesOf(b)) <==> RunRule(b, x)
  {
    Lookup(b.campaigns, x.campaignId);
    Lookup(b.policies, x.policyId);
  }

  lemma ObligationMeaning(b: Bundle, x: ListObligation)
    requires AllDistinct(b)
    ensures ObligationClosed(x, TablesOf(b)) <==> ObligationRule(b, x)
  {
    Lookup(b.runs, x.runId);
    if ObligationClosed(x, TablesOf(b)) {
      var r := Table(b.runs)[x.runId];
      Lookup(b.campaigns, r.data.campaignId);
      assert r in b.runs && Table(b.campaigns)[r.data.campaignId] in b.campaigns;
    }
    if ObligationRule(b, x) {
      var r, c :| r in b.runs && c in b.campaigns && r.id == x.runId && c.id == r.data.campaignId
                  && x.universeRef in c.data.universeRefs;
      Lookup(b.campaigns, r.data.campaignId);
    }
  }

  lemma WorkItemMeaning(b: Bundle, x: WorkItem)
    requires AllDistinct(b)
    ensures WorkItemClosed(x, TablesOf(b)) <==> WorkItemRule(b, x)
  {
    Lookup(b.campaigns, x.campaignId);
    Lookup(b.requests, x.requestId);
    Lookup(b.policies, x.policyId);
  }

  lemma VintageMeaning(b: Bundle, x: SourceVintage)
    requires AllDistinct(b)
    ensures VintageClosed(x, TablesOf(b)) <==> VintageRule(b, x)
  {
    Lookup(b.requests, x.requestId);
    Lookup(b.rawObjects, x.rawObjectId);
  }

  lemma ObservationMeaning(b: Bundle, x: Observation)
    requires AllDistinct(b)
    ensures ObservationClosed(x, TablesOf(b)) <==> ObservationRule(b, x)
  {
    Lookup(b.vintages, x.vintageId);
    if x.supersedes.Some? {
      Lookup(b.observations, x.supersedes.value);
    }
  }

  lemma AssessmentMeaning(b: Bundle, x: Assessment)
    requires AllDistinct(b)
    ensures AssessmentClosed(x, TablesOf(b)) <==> AssessmentRule(b, x)
  {
    match x.target
    case OfObligation(id) => Lookup(b.obligations, id);
    case OfObservation(id) => Lookup(b.observations, id);
  }

  lemma ResultsMeaning(b: Bundle)
    requires AllDistinct(b)
    ensures ResultsTotal(b, TablesOf(b)) <==> ResultRules(b)
  {
    if ResultsTotal(b, TablesOf(b)) {
      ResultsFollow(b);
    }
    if ResultRules(b) {
      ResultsHold(b);
    }
  }

  lemma ResultsFollow(b: Bundle)
    requires AllDistinct(b) && ResultsTotal(b, TablesOf(b))
    ensures ResultRules(b)
  {
    OneResultMeaning(b.results);
    forall r | r in b.results
      ensures Has(b.obligations, r.data.obligationId)
    {
      HasResultOf(b.results, r);
      Lookup(b.obligations, r.data.obligationId);
    }
    forall o | o in b.obligations
      ensures Answered(b, o.id)
    {
      TableKeepsAll(b.obligations, o);
      assert ResultByObligation(b.results)[o.id] in b.results;
    }
  }

  lemma ResultsHold(b: Bundle)
    requires AllDistinct(b) && ResultRules(b)
    ensures ResultsTotal(b, TablesOf(b))
  {
    var keys, obligations := ResultByObligation(b.results).Keys, TablesOf(b).obligations;
    OneResultMeaning(b.results);
    forall id
      ensures id in keys <==> id in obligations
    {
      Lookup(b.obligations, id);
      if id in keys {
        assert Has(b.obligations, ResultByObligation(b.results)[id].data.obligationId);
      }
      if id in obligations {
        assert Answered(b, obligations[id].id);
        var r :| r in b.results && r.data.obligationId == id;
        HasResultOf(b.results, r);
      }
    }
  }

  lemma SkippedMeaning(b: Bundle, id: string)
    ensures id in SkippedIds(b.results) <==> Skipped(b, id)
  {
  }

  lemma JoinedTables(b: Bundle, x: Binding, o: Record<ListObligation>, w: Record<WorkItem>, r: Record<CaptureRun>,
                     q: Record<SourceRequest>)
    requires AllDistinct(b) && Joins(b, x, o, w, r, q)
    ensures var t := TablesOf(b);
            && x.obligationId in t.obligations && t.obligations[x.obligationId] == o
            && x.workItemId in t.workItems && t.workItems[x.workItemId] == w
            && o.data.runId in t.runs && t.runs[o.data.runId] == r
            && w.data.requestId in t.requests && t.requests[w.data.requestId] == q
  {
    Lookup(b.obligations, x.obligationId);
    Lookup(b.workItems, x.workItemId);
    Lookup(b.runs, o.data.runId);
    Lookup(b.requests, w.data.requestId);
  }

  lemma TablesJoin(b: Bundle, x: Binding)
    requires AllDistinct(b)
    requires var t := TablesOf(b);
             && x.obligationId in t.obligations && x.workItemId in t.workItems
             && t.obligations[x.obligationId].data.runId in t.runs
             && t.workItems[x.workItemId].data.requestId in t.requests
    ensures var t := TablesOf(b);
            var o, w := t.obligations[x.obligationId], t.workItems[x.workItemId];
            Joins(b, x, o, w, t.runs[o.data.runId], t.requests[w.data.requestId])
  {
    var t := TablesOf(b);
    Lookup(b.obligations, x.obligationId);
    Lookup(b.workItems, x.workItemId);
    Lookup(b.runs, t.obligations[x.obligationId].data.runId);
    Lookup(b.requests, t.workItems[x.workItemId].data.requestId);
  }

  lemma BindingMeaning(b: Bundle, x: Binding)
    requires AllDistinct(b)
    ensures BindingClosed(x, TablesOf(b), SkippedIds(b.results)) <==> BindingRule(b, x)
  {
    SkippedMeaning(b, x.obligationId);
    if BindingClosed(x, TablesOf(b), SkippedIds(b.results)) {
      BindingFollows(b, x);
    }
    if BindingRule(b, x) {
      var o, w, r, q :| Joins(b, x, o, w, r, q) && Covers(o.data, w.data, r.data, q.data);
      JoinedTables(b, x, o, w, r, q);
      BindingHolds(x, TablesOf(b), SkippedIds(b.results), o, w, r, q);
    }
  }

  lemma BindingHolds(x: Binding, t: Tables, skipped: set<string>, o: Record<ListObligation>, w: Record<WorkItem>,
                     r: Record<CaptureRun>, q: Record<SourceRequest>)
    requires x.obligationId in t.obligations && t.obligations[x.obligationId] == o
    requires x.workItemId in t.workItems && t.workItems[x.workItemId] == w
    requires o.data.runId in t.runs && t.runs[o.data.runId] == r
    requires w.data.requestId in t.requests && t.requests[w.data.requestId] == q
    requires Covers(o.data, w.data, r.data, q.data) && x.obligationId !in skipped
    ensures BindingClosed(x, t, skipped)
  {
  }

  lemma BindingFollows(b: Bundle, x: Binding)
    requires AllDistinct(b) && BindingClosed(x, TablesOf(b), SkippedIds(b.results))
    ensures BindingRule(b, x)
  {
    var t := TablesOf(b);
    TablesJoin(b, x);
    SkippedMeaning(b, x.obligationId);
    var o, w := t.obligations[x.obligationId], t.workItems[x.workItemId];
    assert Covers(o.data, w.data, t.runs[o.data.runId].data, t.requests[w.data.requestId].data);
  }

  lemma BindingsMeaning(b: Bundle)
    requires AllDistinct(b)
    ensures BindingsTotal(b, TablesOf(b)) <==> BindingRules(b)
  {
    if BindingsTotal(b, TablesOf(b)) {
      BindingsFollow(b);
    }
    if BindingRules(b) {
      BindingsHold(b);
    }
  }

  lemma BindingsFollow(b: Bundle)
    requires AllDistinct(b) && BindingsTotal(b, TablesOf(b))
    ensures BindingRules(b)
  {
    DistinctlyBoundMeaning(b.bindings);
    forall x | x in b.bindings
      ensures BindingRule(b, x.data)
    {
      BindingMeaning(b, x.data);
    }
    forall o | o in b.obligations
      ensures Skipped(b, o.id) || Bound(b, o.id)
    {
      SkippedMeaning(b, o.id);
      TableKeepsAll(b.obligations, o);
      if o.id in BoundWork(b.bindings) {
        var x := BoundBy(b.bindings, o.id);
      }
    }
  }

  /** The obligations bound are the ones not skipped. */
  ghost predicate BoundUnlessSkipped(b: Bundle) {
    forall o {:trigger Bound(b, o.id)} :: o in b.obligations ==> Skipped(b, o.id) || Bound(b, o.id)
  }

  lemma BindingsHold(b: Bundle)
    requires AllDistinct(b) && BindingRules(b)
    ensures BindingsTotal(b, TablesOf(b))
  {
    DistinctlyBoundMeaning(b.bindings);
    forall x | x in b.bindings
      ensures BindingClosed(x.data, TablesOf(b), SkippedIds(b.results))
    {
      assert BindingRule(b, x.data);
      BindingMeaning(b, x.data);
    }
    assert BoundUnlessSkipped(b);
    BoundKeys(b);
  }

  lemma BoundKeys(b: Bundle)
    requires AllDistinct(b) && BoundUnlessSkipped(b)
    requires forall x :: x in b.bindings ==> BindingClosed(x.data, TablesOf(b), SkippedIds(b.results))
    ensures BoundWork(b.bindings).Keys == TablesOf(b).obligations.Keys - SkippedIds(b.results)
  {
    var obligations := TablesOf(b).obligations;
    forall id
      ensures id in BoundWork(b.bindings) <==> id in obligations && id !in SkippedIds(b.results)
    {
      if id in BoundWork(b.bindings) {
        var x := BoundBy(b.bindings, id);
        assert BindingClosed(x.data, TablesOf(b), SkippedIds(b.results));
      }
      if id in obligations && id !in SkippedIds(b.results) {
        Lookup(b.obligations, id);
        SkippedMeaning(b, id);
        assert Bound(b, obligations[id].id);
        var x :| x in b.bindings && x.data.obligationId == id;
        HasBindingOf(b.bindings, x);
      }
    }
  }

  lemma AttemptedMeaning(b: Bundle, w: string)
    ensures AttemptsOf(b.attempts, w) != [] <==> Attempted(b, w)
  {
    if Attempted(b, w) {
      var a :| a in b.attempts && a.data.workItemId == w;
      AttemptsOfAll(b.attempts, w, a);
    }
    if AttemptsOf(b.attempts, w) != [] {
      assert AttemptsOf(b.attempts, w)[0] in b.attempts;
    }
  }

  lemma AttemptsMeaning(b: Bundle)
    requires AllDistinct(b)
    ensures AttemptsClosed(b, TablesOf(b)) <==> AttemptRules(b)
  {
    if AttemptsClosed(b, TablesOf(b)) {
      AttemptsFollow(b);
    }
    if AttemptRules(b) {
      AttemptsHold(b);
    }
  }

  lemma AttemptsFollow(b: Bundle)
    requires AllDistinct(b) && AttemptsClosed(b, TablesOf(b))
    ensures AttemptRules(b)
  {
    forall a | a in b.attempts
      ensures Has(b.workItems, a.data.workItemId)
    {
      Lookup(b.workItems, a.data.workItemId);
    }
    forall w | w in b.workItems
      ensures Attempted(b, w.id)
    {
      TableKeepsAll(b.workItems, w);
      AttemptedMeaning(b, w.id);
    }
  }

  lemma AttemptsHold(b: Bundle)
    requires AllDistinct(b) && AttemptRules(b)
    ensures AttemptsClosed(b, TablesOf(b))
  {
    var workItems := TablesOf(b).workItems;
    forall a | a in b.attempts
      ensures a.data.workItemId in workItems
    {
      assert Has(b.workItems, a.data.workItemId);
      Lookup(b.workItems, a.data.workItemId);
    }
    forall w | w in workItems
      ensures AttemptsOf(b.attempts, w) != []
    {
      Lookup(b.workItems, w);
      assert Attempted(b, workItems[w].id);
      AttemptedMeaning(b, w);
    }
  }

  lemma TimelyMeaning(b: Bundle, x: R.Completion)
    requires AllDistinct(b)
    ensures Timely(x, TablesOf(b)) <==> DispatchedBefore(b, x)
  {
    Lookup(b.attempts, x.attemptId);
  }

  lemma CompletionsMeaning(b: Bundle)
    requires AllDistinct(b)
    ensures AttemptResultsTotal(b, TablesOf(b)) <==> CompletionRules(b)
  {
    if AttemptResultsTotal(b, TablesOf(b)) {
      CompletionsFollow(b);
    }
    if CompletionRules(b) {
      CompletionsHold(b);
    }
  }

  lemma CompletionsFollow(b: Bundle)
    requires AllDistinct(b) && AttemptResultsTotal(b, TablesOf(b))
    ensures CompletionRules(b)
  {
    OneResultEachMeaning(b.attemptResults);
    forall x | x in b.attemptResults
      ensures DispatchedBefore(b, x.data)
    {
      TimelyMeaning(b, x.data);
    }
    forall a | a in b.attempts
      ensures Completed(b, a.id)
    {
      TableKeepsAll(b.attempts, a);
      assert ResultByAttempt(b.attemptResults)[a.id] in b.attemptResults;
    }
  }

  lemma CompletionsHold(b: Bundle)
    requires AllDistinct(b) && CompletionRules(b)
    ensures AttemptResultsTotal(b, TablesOf(b))
  {
    var keys, attempts := ResultByAttempt(b.attemptResults).Keys, TablesOf(b).attempts;
    OneResultEachMeaning(b.attemptResults);
    forall x | x in b.attemptResults
      ensures Timely(x.data, TablesOf(b))
    {
      assert DispatchedBefore(b, x.data);
      TimelyMeaning(b, x.data);
    }
    forall id
      ensures id in keys <==> id in attempts
    {
      if id in keys {
        assert Timely(ResultByAttempt(b.attemptResults)[id].data, TablesOf(b));
      }
      if id in attempts {
        Lookup(b.attempts, id);
        assert Completed(b, attempts[id].id);
        var x :| x in b.attemptResults && x.data.attemptId == id;
        HasResultFor(b.attemptResults, x);
      }
    }
  }

  lemma ProductMeaning(b: Bundle, x: R.Completion)
    requires AllDistinct(b)
    ensures ResultVintageClosed(x, TablesOf(b)) <==> ProductRule(b, x)
  {
    if VintageOf(x).Some? {
      if ResultVintageClosed(x, TablesOf(b)) {
        ProductFollows(b, x);
      }
      if ProductOf(b, x, VintageOf(x).value) {
        ProductHolds(b, x);
      }
    }
  }

  lemma ProductFollows(b: Bundle, x: R.Completion)
    requires AllDistinct(b) && VintageOf(x).Some? && ResultVintageClosed(x, TablesOf(b))
    ensures ProductOf(b, x, VintageOf(x).value)
  {
    var t, id := TablesOf(b), VintageOf(x).value;
    Lookup(b.vintages, id);
    Lookup(b.attempts, x.attemptId);
    var a := t.attempts[x.attemptId];
    Lookup(b.workItems, a.data.workItemId);
    assert Produces(b, x, id, t.vintages[id], a, t.workItems[a.data.workItemId]);
  }

  lemma ProductHolds(b: Bundle, x: R.Completion)
    requires AllDistinct(b) && VintageOf(x).Some? && ProductOf(b, x, VintageOf(x).value)
    ensures ResultVintageClosed(x, TablesOf(b))
  {
    var id := VintageOf(x).value;
    var v, a, w :| Produces(b, x, id, v, a, w) && v.data.requestId == w.data.requestId;
    Lookup(b.vintages, id);
    Lookup(b.attempts, x.attemptId);
    Lookup(b.workItems, a.data.workItemId);
  }

  // ---------------------------------------------------------------- retries

  lemma {:induction false} AttemptsOfDistinct(attempts: seq<R.Attempt>, w: string)
    requires DistinctIds(attempts)
    ensures Distinct(AttemptsOf(attempts, w))
  {
    if attempts != [] {
      var init, last := attempts[..|attempts| - 1], attempts[|attempts| - 1];
      AttemptsOfDistinct(init, w);
      if last in AttemptsOf(init, w) {
        TableKeepsAll(init, last);
      }
    }
  }

  lemma AttemptsOfMembers(b: Bundle, w: string)
    ensures forall a :: a in AttemptsOf(b.attempts, w) <==> a in b.attempts && a.data.workItemId == w
  {
    forall a | a in b.attempts && a.data.workItemId == w
      ensures a in AttemptsOf(b.attempts, w)
    {
      AttemptsOfAll(b.attempts, w, a);
    }
  }

  lemma ResultOf(b: Bundle, x: R.AttemptResult)
    requires OneResultEach(b.attemptResults) && x in b.attemptResults
    ensures x.data.attemptId in ResultByAttempt(b.attemptResults)
    ensures ResultByAttempt(b.attemptResults)[x.data.attemptId] == x
  {
    OnlyResult(b.attemptResults, x);
  }

  lemma DisciplineOfTrace(b: Bundle, policy: R.Policy, w: string, trace: seq<R.Attempt>)
    requires AllDistinct(b) && OneResultEach(b.attemptResults)
    requires TraceOf(b, w, trace) && Obeys(b, policy, trace)
    requires forall a :: a in AttemptsOf(b.attempts, w) ==> a.id in ResultByAttempt(b.attemptResults)
    ensures R.Disciplined(policy, AttemptsOf(b.attempts, w), ResultByAttempt(b.attemptResults))
  {
    var results := ResultByAttempt(b.attemptResults);
    AttemptsOfMembers(b, w);
    AttemptsOfDistinct(b.attempts, w);
    assert Distinct(trace) by {
      assert forall i, j :: 0 <= i < j < |trace| ==> trace[i].data.number != trace[j].data.number;
    }
    DistinctSameMembers(trace, AttemptsOf(b.attempts, w));
    forall i | 0 <= i < |trace|
      ensures var outcome := results[trace[i].id].data.outcome;
              if i == |trace| - 1 then outcome in policy.terminal
              else outcome !in policy.terminal && outcome in policy.retryable
    {
      assert CameTo(b, policy, trace[i], i == |trace| - 1);
      var x :| x in b.attemptResults && x.data.attemptId == trace[i].id
               && if i == |trace| - 1 then x.data.outcome in policy.terminal
                  else x.data.outcome in policy.retryable && x.data.outcome !in policy.terminal;
      ResultOf(b, x);
    }
    assert R.LastOnlyTerminal(policy, trace, results);
    R.RunShape(policy, 1, trace, results);
    assert R.CompleteRun(policy, trace, results);
  }

  lemma TraceOfDiscipline(b: Bundle, policy: R.Policy, w: string) returns (trace: seq<R.Attempt>)
    requires forall a :: a in AttemptsOf(b.attempts, w) ==> a.id in ResultByAttempt(b.attemptResults)
    requires R.Disciplined(policy, AttemptsOf(b.attempts, w), ResultByAttempt(b.attemptResults))
    ensures TraceOf(b, w, trace) && Obeys(b, policy, trace)
  {
    var attempts, results := AttemptsOf(b.attempts, w), ResultByAttempt(b.attemptResults);
    trace := R.SortedByNumber(attempts);
    MultisetMembers(attempts, trace);
    AttemptsOfMembers(b, w);
    R.DisciplineMeaning(policy, attempts, results);
    forall i | 0 <= i < |trace|
      ensures CameTo(b, policy, trace[i], i == |trace| - 1)
    {
      assert results[trace[i].id] in b.attemptResults;
    }
  }

  /** What the retry checks ask of one work item. */
  ghost predicate DisciplinedIn(b: Bundle, t: Tables, w: string)
    requires w in t.workItems
  {
    && t.workItems[w].data.policyId in t.policies
    && (forall a :: a in AttemptsOf(b.attempts, w) ==> a.id in ResultByAttempt(b.attemptResults))
    && R.Disciplined(t.policies[t.workItems[w].data.policyId].data.retry, AttemptsOf(b.attempts, w),
                     ResultByAttempt(b.attemptResults))
  }

  lemma RetryMeaning(b: Bundle, w: Record<WorkItem>)
    requires AllDistinct(b) && AttemptResultsTotal(b, TablesOf(b)) && w in b.workItems
    ensures w.id in TablesOf(b).workItems && TablesOf(b).workItems[w.id] == w
    ensures DisciplinedIn(b, TablesOf(b), w.id) <==> RetryRule(b, w)
  {
    Lookup(b.workItems, w.id);
    Lookup(b.policies, w.data.policyId);
    AllCompleted(b, w.id);
    if DisciplinedIn(b, TablesOf(b), w.id) {
      var trace := TraceOfDiscipline(b, TablesOf(b).policies[w.data.policyId].data.retry, w.id);
    }
    if RetryRule(b, w) {
      var p, trace :|
        p in b.policies && p.id == w.data.policyId && TraceOf(b, w.id, trace) && Obeys(b, p.data.retry, trace);
      DisciplineOfTrace(b, p.data.retry, w.id, trace);
    }
  }

  lemma AllCompleted(b: Bundle, w: string)
    requires AllDistinct(b) && AttemptResultsTotal(b, TablesOf(b))
    ensures forall a :: a in AttemptsOf(b.attempts, w) ==> a.id in ResultByAttempt(b.attemptResults)
  {
    forall a | a in AttemptsOf(b.attempts, w)
      ensures a.id in ResultByAttempt(b.attemptResults)
    {
      TableKeepsAll(b.attempts, a);
    }
  }

  lemma RetriesMeaning(b: Bundle)
    requires AllDistinct(b) && AttemptResultsTotal(b, TablesOf(b))
    ensures RetriesDisciplined(b, TablesOf(b)) <==> RetryRules(b)
  {
    if RetriesDisciplined(b, TablesOf(b)) {
      forall w | w in b.workItems
        ensures RetryRule(b, w)
      {
        TableKeepsAll(b.workItems, w);
        assert DisciplinedIn(b, TablesOf(b), w.id);
        RetryMeaning(b, w);
      }
    }
    if RetryRules(b) {
      RetriesHold(b);
    }
  }

  lemma RetriesHold(b: Bundle)
    requires AllDistinct(b) && AttemptResultsTotal(b, TablesOf(b)) && RetryRules(b)
    ensures RetriesDisciplined(b, TablesOf(b))
  {
    forall id | id in TablesOf(b).workItems
      ensures DisciplinedIn(b, TablesOf(b), id)
    {
      Lookup(b.workItems, id);
      assert RetryRule(b, TablesOf(b).workItems[id]);
      RetryMeaning(b, TablesOf(b).workItems[id]);
    }
  }

  // ---------------------------------------------------------------- final attempts

  /** In a disciplined work item the number of attempts belongs to the attempt numbered highest. */
  lemma LastMeaning(b: Bundle, policy: R.Policy, a: R.Attempt)
    requires a in b.attempts
    requires forall x :: x in AttemptsOf(b.attempts, a.data.workItemId) ==> x.id in ResultByAttempt(b.attemptResults)
    requires R.Disciplined(policy, AttemptsOf(b.attempts, a.data.workItemId), ResultByAttempt(b.attemptResults))
    ensures a.data.number == |AttemptsOf(b.attempts, a.data.workItemId)| <==> LastOfWork(b, a)
  {
    var attempts, results := AttemptsOf(b.attempts, a.data.workItemId), ResultByAttempt(b.attemptResults);
    var counting := R.SortedByNumber(attempts);
    R.DisciplineMeaning(policy, attempts, results);
    MultisetMembers(attempts, counting);
    AttemptsOfMembers(b, a.data.workItemId);
    assert a in counting;
    assert forall x :: x in counting ==> 1 <= x.data.number <= |counting|;
    var last := counting[|counting| - 1];
    assert last in attempts && last.data.number == |counting|;
  }

  /** What the checks ask of one result that names a final attempt. */
  ghost predicate FinalAgrees(b: Bundle, t: Tables, r: ObligationResult)
    requires r.finalAttemptId.Some?
  {
    var final := r.finalAttemptId.value;
    && final in t.attempts && final in ResultByAttempt(b.attemptResults)
    && r.obligationId in BoundWork(b.bindings)
    && t.attempts[final].data.workItemId == BoundWork(b.bindings)[r.obligationId]
    && t.attempts[final].data.number == |AttemptsOf(b.attempts, BoundWork(b.bindings)[r.obligationId])|
    && StateOf(ResultByAttempt(b.attemptResults)[final].data.outcome) == Some(r.state)
  }

  lemma StateMeaning(outcome: R.Outcome, state: TerminalState)
    ensures StateOf(outcome) == Some(state) <==> SameName(outcome, state)
  {
  }

  lemma DisciplinedWork(b: Bundle, a: R.Attempt) returns (policy: R.Policy)
    requires AllDistinct(b) && AttemptsClosed(b, TablesOf(b)) && RetriesDisciplined(b, TablesOf(b)) && a in b.attempts
    ensures forall x :: x in AttemptsOf(b.attempts, a.data.workItemId) ==> x.id in ResultByAttempt(b.attemptResults)
    ensures R.Disciplined(policy, AttemptsOf(b.attempts, a.data.workItemId), ResultByAttempt(b.attemptResults))
  {
    var t, w := TablesOf(b), a.data.workItemId;
    DisciplinedAt(b, t, w);
    policy := t.policies[t.workItems[w].data.policyId].data.retry;
  }

  lemma {:induction false} BoundIs(bindings: seq<Record<Binding>>, x: Record<Binding>)
    requires DistinctlyBound(bindings) && x in bindings
    ensures x.data.obligationId in BoundWork(bindings)
    ensures BoundWork(bindings)[x.data.obligationId] == x.data.workItemId
  {
    var init, last := bindings[..|bindings| - 1], bindings[|bindings| - 1];
    if x != last {
      assert bindings == init + [last];
      BoundIs(init, x);
    }
  }

  ghost predicate SoFarClosed(b: Bundle) {
    && AllDistinct(b) && BindingsTotal(b, TablesOf(b)) && AttemptsClosed(b, TablesOf(b))
    && AttemptResultsTotal(b, TablesOf(b)) && RetriesDisciplined(b, TablesOf(b))
  }

  lemma FinalFollows(b: Bundle, r: ObligationResult)
    requires SoFarClosed(b) && r.finalAttemptId.Some? && FinalAgrees(b, TablesOf(b), r)
    ensures FinalRule(b, r)
  {
    var final := r.finalAttemptId.value;
    Lookup(b.attempts, final);
    var a, c := TablesOf(b).attempts[final], ResultByAttempt(b.attemptResults)[final];
    var x := BoundBy(b.bindings, r.obligationId);
    var policy := DisciplinedWork(b, a);
    LastMeaning(b, policy, a);
    StateMeaning(c.data.outcome, r.state);
    assert EndsWith(b, r, x, a, c) && LastOfWork(b, a) && SameName(c.data.outcome, r.state);
  }

  lemma FinalHolds(b: Bundle, r: ObligationResult)
    requires SoFarClosed(b) && r.finalAttemptId.Some? && FinalRule(b, r)
    ensures FinalAgrees(b, TablesOf(b), r)
  {
    var x, a, c :| EndsWith(b, r, x, a, c) && LastOfWork(b, a) && SameName(c.data.outcome, r.state);
    Lookup(b.attempts, a.id);
    ResultOf(b, c);
    BoundIs(b.bindings, x);
    var policy := DisciplinedWork(b, a);
    LastMeaning(b, policy, a);
    StateMeaning(c.data.outcome, r.state);
  }

  lemma FinalMeaning(b: Bundle)
    requires SoFarClosed(b)
    ensures FinalAttemptsAgree(b, TablesOf(b)) <==> FinalRules(b)
  {
    forall r | r in b.results && r.data.finalAttemptId.Some?
      ensures FinalAgrees(b, TablesOf(b), r.data) <==> FinalRule(b, r.data)
    {
      if FinalAgrees(b, TablesOf(b), r.data) {
        FinalFollows(b, r.data);
      }
      if FinalRule(b, r.data) {
        FinalHolds(b, r.data);
      }
    }
    assert FinalAttemptsAgree(b, TablesOf(b)) <==>
           forall r :: r in b.results && r.data.finalAttemptId.Some? ==> FinalAgrees(b, TablesOf(b), r.data);
  }

  // ---------------------------------------------------------------- nodes and edges

  lemma LinkedMeaning(g: P.Graph, from: string, kind: P.EdgeKind, to: string)
    ensures (from, kind, to) in TriplesOf(g) <==> Linked(g, from, kind, to)
  {
    if Linked(g, from, kind, to) {
      var e :| e in g.edges && e.fromId == from && e.kind == kind && e.toId == to;
      assert (e.fromId, e.kind, e.toId) in TriplesOf(g);
    }
  }

  lemma EdgesMeaning(b: Bundle)
    ensures RecordEdges(b, TriplesOf(b.provenance)) && AttemptEdges(b, TriplesOf(b.provenance)) <==> EdgeRules(b)
  {
    forall from, kind, to
      ensures (from, kind, to) in TriplesOf(b.provenance) <==> Linked(b.provenance, from, kind, to)
    {
      LinkedMeaning(b.provenance, from, kind, to);
    }
  }

  lemma NodeMeaning(g: P.Graph, id: string, kind: P.NodeKind)
    requires P.DistinctNodeIds(g.nodes)
    ensures NodeLinked(id, kind, g) <==> HasNode(g, id, kind)
  {
    KindsAreNodes(g.nodes, id);
  }

  lemma BearsMeaning(b: Bundle, id: string, kind: P.NodeKind)
    ensures CoreKind(b, id) == Some(kind) ==> Bears(b, id, kind)
    ensures Bears(b, id, kind) ==> CoreKind(b, id).Some? && Place(kind) <= Place(CoreKind(b, id).value)
  {
  }

  lemma StandsForMeaning(b: Bundle, id: string, kind: P.NodeKind)
    ensures StandsFor(b, id, kind) <==> CoreKind(b, id) == Some(kind)
  {
    forall k
      ensures CoreKind(b, id) == Some(k) ==> Bears(b, id, k)
      ensures Bears(b, id, k) ==> CoreKind(b, id).Some? && Place(k) <= Place(CoreKind(b, id).value)
    {
      BearsMeaning(b, id, k);
    }
    PlacesDiffer();
  }

  lemma PlacesDiffer()
    ensures forall k, k' :: Place(k) == Place(k') ==> k == k'
  {
  }

  lemma NodesMeaning(b: Bundle)
    requires P.DistinctNodeIds(b.provenance.nodes)
    ensures NodesLinked(b.provenance, RequiredNodes(b)) <==> NodeRules(b)
  {
    var g, required := b.provenance, RequiredNodes(b);
    forall id, kind
      ensures NodeLinked(id, kind, g) <==> HasNode(g, id, kind)
      ensures id in required && required[id] == kind <==> StandsFor(b, id, kind)
    {
      NodeMeaning(g, id, kind);
      RequiredMeaning(b, id);
      StandsForMeaning(b, id, kind);
    }
  }

  // ---------------------------------------------------------------- the theorem

  ghost predicate RecordsClosed(b: Bundle) {
    && RunsClosed(b, TablesOf(b)) && ObligationsClosed(b, TablesOf(b)) && WorkItemsClosed(b, TablesOf(b))
    && VintagesClosed(b, TablesOf(b))
  }

  lemma RecordsMeaning(b: Bundle)
    requires AllDistinct(b)
    ensures RecordsClosed(b) <==> RecordRules(b)
  {
    forall x | x in b.runs ensures RunClosed(x.data, TablesOf(b)) <==> RunRule(b, x.data) {
      RunMeaning(b, x.data);
    }
    forall x | x in b.obligations ensures ObligationClosed(x.data, TablesOf(b)) <==> ObligationRule(b, x.data) {
      ObligationMeaning(b, x.data);
    }
    forall x | x in b.workItems ensures WorkItemClosed(x.data, TablesOf(b)) <==> WorkItemRule(b, x.data) {
      WorkItemMeaning(b, x.data);
    }
    forall x | x in b.vintages ensures VintageClosed(x.data, TablesOf(b)) <==> VintageRule(b, x.data) {
      VintageMeaning(b, x.data);
    }
  }

  ghost predicate ReadingsClosed(b: Bundle) {
    && ResultVintagesClosed(b, TablesOf(b)) && ObservationsClosed(b, TablesOf(b)) && AssessmentsClosed(b, TablesOf(b))
  }

  lemma ReadingsMeaning(b: Bundle)
    requires AllDistinct(b)
    ensures ReadingsClosed(b) <==> ReadingRules(b)
  {
    forall x | x in b.attemptResults ensures ResultVintageClosed(x.data, TablesOf(b)) <==> ProductRule(b, x.data) {
      ProductMeaning(b, x.data);
    }
    forall x | x in b.observations ensures ObservationClosed(x.data, TablesOf(b)) <==> ObservationRule(b, x.data) {
      ObservationMeaning(b, x.data);
    }
    forall x | x in b.assessments ensures AssessmentClosed(x.data, TablesOf(b)) <==> AssessmentRule(b, x.data) {
      AssessmentMeaning(b, x.data);
    }
  }

  lemma AllIdsFollow(b: Bundle)
    requires Typed(b) && Closed(b)
    ensures IdRules(b)
  {
    IdMeaning(b);
  }

  lemma AllRecordsFollow(b: Bundle)
    requires Typed(b) && Closed(b)
    ensures RecordRules(b)
  {
    RecordsMeaning(b);
  }

  lemma AllResultsFollow(b: Bundle)
    requires Typed(b) && Closed(b)
    ensures ResultRules(b)
  {
    ResultsMeaning(b);
  }

  lemma AllBindingsFollow(b: Bundle)
    requires Typed(b) && Closed(b)
    ensures BindingRules(b)
  {
    BindingsMeaning(b);
  }

  lemma AllAttemptsFollow(b: Bundle)
    requires Typed(b) && Closed(b)
    ensures AttemptRules(b)
  {
    AttemptsMeaning(b);
  }

  lemma AllCompletionsFollow(b: Bundle)
    requires Typed(b) && Closed(b)
    ensures CompletionRules(b)
  {
    CompletionsMeaning(b);
  }

  lemma AllRetriesFollow(b: Bundle)
    requires Typed(b) && Closed(b)
    ensures RetryRules(b)
  {
    RetriesMeaning(b);
  }

  lemma AllFinalAttemptsFollow(b: Bundle)
    requires Typed(b) && Closed(b)
    ensures FinalRules(b)
  {
    FinalMeaning(b);
  }

  lemma AllReadingsFollow(b: Bundle)
    requires Typed(b) && Closed(b)
    ensures ReadingRules(b)
  {
    ReadingsMeaning(b);
  }

  lemma AllNodesFollow(b: Bundle)
    requires Typed(b) && Closed(b)
    ensures NodeRules(b)
  {
    NodesMeaning(b);
  }

  lemma AllEdgesFollow(b: Bundle)
    requires Typed(b) && Closed(b)
    ensures EdgeRules(b)
  {
    EdgesMeaning(b);
  }

  lemma RecordsObey(b: Bundle, subject: Subject)
    requires Typed(b) && Closed(b)
    requires subject.Ids? || subject.Records? || subject.Results? || subject.Bindings?
    ensures Rule(b, subject)
  {
    match subject
    case Ids => AllIdsFollow(b);
    case Records => AllRecordsFollow(b);
    case Results => AllResultsFollow(b);
    case Bindings => AllBindingsFollow(b);
  }

  lemma WorkObeys(b: Bundle, subject: Subject)
    requires Typed(b) && Closed(b)
    requires subject.Attempts? || subject.Completions? || subject.Retries? || subject.FinalAttempts?
    ensures Rule(b, subject)
  {
    match subject
    case Attempts => AllAttemptsFollow(b);
    case Completions => AllCompletionsFollow(b);
    case Retries => AllRetriesFollow(b);
    case FinalAttempts => AllFinalAttemptsFollow(b);
  }

  lemma GraphObeys(b: Bundle, subject: Subject)
    requires Typed(b) && Closed(b)
    requires subject.Readings? || subject.Nodes? || subject.Edges?
    ensures Rule(b, subject)
  {
    match subject
    case Readings => AllReadingsFollow(b);
    case Nodes => AllNodesFollow(b);
    case Edges => AllEdgesFollow(b);
  }

  lemma IdsObeyed(b: Bundle)
    requires Rules(b)
    ensures AllDistinct(b)
  {
    assert Rule(b, Ids);
    IdMeaning(b);
  }

  lemma RecordsObeyed(b: Bundle)
    requires Rules(b)
    ensures AllDistinct(b) && RecordsClosed(b)
  {
    assert Rule(b, Records);
    IdsObeyed(b);
    RecordsMeaning(b);
  }

  lemma AnswersObeyed(b: Bundle)
    requires Rules(b)
    ensures AllDistinct(b) && ResultsTotal(b, TablesOf(b)) && BindingsTotal(b, TablesOf(b))
  {
    assert Rule(b, Results) && Rule(b, Bindings);
    IdsObeyed(b);
    ResultsMeaning(b);
    BindingsMeaning(b);
  }

  lemma AttemptsObeyed(b: Bundle)
    requires Rules(b)
    ensures AllDistinct(b) && AttemptsClosed(b, TablesOf(b)) && AttemptResultsTotal(b, TablesOf(b))
  {
    IdsObeyed(b);
    assert Rule(b, Attempts);
    AttemptsMeaning(b);
    assert Rule(b, Completions);
    CompletionsMeaning(b);
  }

  lemma RetriesObeyed(b: Bundle)
    requires Rules(b)
    ensures AllDistinct(b) && RetriesDisciplined(b, TablesOf(b))
  {
    AttemptsObeyed(b);
    assert Rule(b, Retries);
    RetriesMeaning(b);
  }

  lemma FinalsObeyed(b: Bundle)
    requires Rules(b)
    ensures SoFarClosed(b) && FinalAttemptsAgree(b, TablesOf(b))
  {
    AnswersObeyed(b);
    AttemptsObeyed(b);
    RetriesObeyed(b);
    assert Rule(b, FinalAttempts);
    FinalMeaning(b);
  }

  lemma ReadingsObeyed(b: Bundle)
    requires Rules(b)
    ensures AllDistinct(b) && ReadingsClosed(b)
  {
    IdsObeyed(b);
    assert Rule(b, Readings);
    ReadingsMeaning(b);
  }

  lemma GraphObeyed(b: Bundle)
    requires Typed(b) && Rules(b)
    ensures NodesLinked(b.provenance, RequiredNodes(b))
    ensures RecordEdges(b, TriplesOf(b.provenance)) && AttemptEdges(b, TriplesOf(b.provenance))
  {
    assert Rule(b, Nodes) && Rule(b, Edges);
    NodesMeaning(b);
    EdgesMeaning(b);
  }

  lemma ObeyingIsClosed(b: Bundle)
    requires Typed(b) && Rules(b)
    ensures Closed(b)
  {
    RecordsObeyed(b);
    AnswersObeyed(b);
    FinalsObeyed(b);
    ReadingsObeyed(b);
    GraphObeyed(b);
  }

  /** The bundles the validator accepts are the ones that obey the rules. */
  lemma ClosedExactlyWhen(b: Bundle)
    requires Typed(b)
    ensures Closed(b) <==> Rules(b)
  {
    if Closed(b) {
      forall subject
        ensures Rule(b, subject)
      {
        match subject
        case Ids | Records | Results | Bindings => RecordsObey(b, subject);
        case Attempts | Completions | Retries | FinalAttempts => WorkObeys(b, subject);
        case Readings | Nodes | Edges => GraphObeys(b, subject);
      }
    }
    if Rules(b) {
      ObeyingIsClosed(b);
    }
  }
}
