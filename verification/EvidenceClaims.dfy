/** What acceptance of a bundle guarantees about tracing, retries and restatements. */
module EvidenceClaims {
  import opened Evidence
  import opened Identity
  import opened Options
  import opened Ordering
  import P = Provenance
  import R = Retry

  // ---------------------------------------------------------------- traceability

  lemma EdgeReaches(g: P.Graph, from: string, kind: P.EdgeKind, to: string)
    requires (from, kind, to) in TriplesOf(g)
    ensures P.Reaches(P.ArcsOf(g.edges), from, to)
  {
    var e :| e in g.edges && e.fromId == from && e.kind == kind && e.toId == to;
    assert (from, to) in P.ArcsOf(g.edges);
    P.ArcReaches(P.ArcsOf(g.edges), from, to);
  }

  lemma Extend(g: P.Graph, a: string, from: string, kind: P.EdgeKind, to: string)
    requires P.Reaches(P.ArcsOf(g.edges), a, from) && (from, kind, to) in TriplesOf(g)
    ensures P.Reaches(P.ArcsOf(g.edges), a, to)
  {
    EdgeReaches(g, from, kind, to);
    P.ReachesTransitive(P.ArcsOf(g.edges), a, from, to);
  }

  /** The records that connect a satisfied obligation to its bytes. */
  datatype Lineage = Lineage(
    campaign: string, run: Record<CaptureRun>, obligation: Record<ListObligation>, work: string,
    attempt: R.Attempt, completion: R.AttemptResult, vintage: Record<SourceVintage>)

  /** The lineage consists of records of the bundle that point at one another. */
  ghost predicate LineageOf(b: Bundle, r: Record<ObligationResult>, l: Lineage) {
    && l.run in b.runs && l.obligation in b.obligations && l.attempt in b.attempts
    && l.completion in b.attemptResults && l.vintage in b.vintages
    && (exists c :: c in b.campaigns && c.id == l.campaign)
    && l.run.data.campaignId == l.campaign
    && l.obligation.id == r.data.obligationId && l.obligation.data.runId == l.run.id
    && (exists x :: x in b.bindings && x.data == Binding(l.obligation.id, l.work))
    && r.data.finalAttemptId == Some(l.attempt.id) && l.attempt.data.workItemId == l.work
    && l.completion.data.attemptId == l.attempt.id
    && VintageOf(l.completion.data) == Some(l.vintage.id)
    && (exists raw :: raw in b.rawObjects && raw.id == l.vintage.data.rawObjectId)
  }

  /** Every entry of a table is a record of the bundle under its own id. */
  ghost predicate Consistent(b: Bundle, t: Tables) {
    && (forall k :: k in t.campaigns ==> t.campaigns[k] in b.campaigns && t.campaigns[k].id == k)
    && (forall k :: k in t.runs ==> t.runs[k] in b.runs && t.runs[k].id == k)
    && (forall k :: k in t.obligations ==> t.obligations[k] in b.obligations && t.obligations[k].id == k)
    && (forall k :: k in t.attempts ==> t.attempts[k] in b.attempts && t.attempts[k].id == k)
    && (forall k :: k in t.vintages ==> t.vintages[k] in b.vintages && t.vintages[k].id == k)
    && (forall k :: k in t.rawObjects ==> t.rawObjects[k] in b.rawObjects && t.rawObjects[k].id == k)
  }

  lemma TablesConsistent(b: Bundle)
    ensures Consistent(b, TablesOf(b))
  {
  }

  /** What the final attempt of a result says, read off the bundle's own checks. */
  lemma FinalAttempt(b: Bundle, t: Tables, r: Record<ObligationResult>)
    returns (work: string, attempt: R.Attempt, completion: R.AttemptResult)
    requires Consistent(b, t)
    requires FinalAttemptsAgree(b, t)
    requires r in b.results && r.data.finalAttemptId.Some?
    ensures attempt in b.attempts && r.data.finalAttemptId == Some(attempt.id) && attempt.data.workItemId == work
    ensures completion in b.attemptResults && completion.data.attemptId == attempt.id
    ensures StateOf(completion.data.outcome) == Some(r.data.state)
    ensures exists x :: x in b.bindings && x.data == Binding(r.data.obligationId, work)
  {
    work := BoundWork(b.bindings)[r.data.obligationId];
    attempt := t.attempts[r.data.finalAttemptId.value];
    completion := ResultByAttempt(b.attemptResults)[attempt.id];
    var x := BoundBy(b.bindings, r.data.obligationId);
  }

  /** An obligation that ended in success or unchanged has such a lineage. */
  lemma LineageExists(b: Bundle, t: Tables, r: Record<ObligationResult>) returns (l: Lineage)
    requires Consistent(b, t)
    requires RunsClosed(b, t) && ObligationsClosed(b, t) && VintagesClosed(b, t)
    requires ResultVintagesClosed(b, t) && FinalAttemptsAgree(b, t)
    requires forall x :: x in b.attemptResults ==> x.data.Valid()
    requires r in b.results && r.data.obligationId in t.obligations && r.data.finalAttemptId.Some?
    requires r.data.state in {TerminalState.Success, TerminalState.Unchanged}
    ensures LineageOf(b, r, l)
  {
    var work, attempt, completion := FinalAttempt(b, t, r);
    assert completion.data.Valid();
    var obligation := t.obligations[r.data.obligationId];
    assert obligation in b.obligations;
    var run := t.runs[obligation.data.runId];
    assert run in b.runs;
    var campaign := t.campaigns[run.data.campaignId];
    var vintage := t.vintages[VintageOf(completion.data).value];
    assert vintage in b.vintages;
    var raw := t.rawObjects[vintage.data.rawObjectId];
    l := Lineage(campaign.id, run, obligation, work, attempt, completion, vintage);
    assert campaign in b.campaigns && raw in b.rawObjects && raw.id == vintage.data.rawObjectId;
  }

  lemma LineageReaches(b: Bundle, r: Record<ObligationResult>, l: Lineage)
    requires RecordEdges(b, TriplesOf(b.provenance)) && AttemptEdges(b, TriplesOf(b.provenance))
    requires LineageOf(b, r, l)
    ensures P.Reaches(P.ArcsOf(b.provenance.edges), l.campaign, l.vintage.id)
    ensures P.Reaches(P.ArcsOf(b.provenance.edges), l.campaign, l.vintage.data.rawObjectId)
    ensures forall o :: o in b.observations && o.data.vintageId == l.vintage.id ==>
              P.Reaches(P.ArcsOf(b.provenance.edges), l.campaign, o.id)
  {
    var g := b.provenance;
    EdgeReaches(g, l.campaign, P.EdgeKind.Contains, l.run.id);
    Extend(g, l.campaign, l.run.id, P.EdgeKind.Requires, l.obligation.id);
    assert (l.obligation.id, P.EdgeKind.SatisfiedBy, l.work) in TriplesOf(g) by {
      var binding :| binding in b.bindings && binding.data == Binding(l.obligation.id, l.work);
    }
    Extend(g, l.campaign, l.obligation.id, P.EdgeKind.SatisfiedBy, l.work);
    Extend(g, l.campaign, l.work, P.EdgeKind.AttemptedBy, l.attempt.id);
    assert CompletionEdges(l.completion, TriplesOf(g));
    Extend(g, l.campaign, l.attempt.id, P.EdgeKind.Completes, l.completion.id);
    if l.completion.data.vintageId.Some? {
      Extend(g, l.campaign, l.completion.id, P.EdgeKind.Observed, l.vintage.id);
    } else {
      Extend(g, l.campaign, l.completion.id, P.EdgeKind.Reuses, l.vintage.id);
    }
    Extend(g, l.campaign, l.vintage.id, P.EdgeKind.ArchivesAs, l.vintage.data.rawObjectId);
    forall o | o in b.observations && o.data.vintageId == l.vintage.id
      ensures P.Reaches(P.ArcsOf(g.edges), l.campaign, o.id)
    {
      Extend(g, l.campaign, l.vintage.id, P.EdgeKind.NormalizedAs, o.id);
    }
  }

  /** What a lineage means for traces: the bytes lie forward of the campaign and the campaign backward
      of the bytes, never the other way round, and everything read from the vintage is forward too. */
  ghost predicate Traced(b: Bundle, l: Lineage) {
    var raw := l.vintage.data.rawObjectId;
    && P.Reaches(P.Direction(b.provenance, false), l.campaign, raw)
    && P.Reaches(P.Direction(b.provenance, true), raw, l.campaign)
    && !P.Reaches(P.Direction(b.provenance, false), raw, l.campaign)
    && forall o :: o in b.observations && o.data.vintageId == l.vintage.id ==>
         P.Reaches(P.Direction(b.provenance, false), l.campaign, o.id)
  }

  lemma LineageTraced(b: Bundle, r: Record<ObligationResult>, l: Lineage)
    requires P.WellFormed(b.provenance)
    requires RecordEdges(b, TriplesOf(b.provenance)) && AttemptEdges(b, TriplesOf(b.provenance))
    requires LineageOf(b, r, l)
    ensures Traced(b, l)
  {
    LineageReaches(b, r, l);
    P.ForwardIffReverse(b.provenance, l.campaign, l.vintage.data.rawObjectId);
    P.TracesAreAntisymmetric(b.provenance, l.campaign, l.vintage.data.rawObjectId, false);
  }

  /** End-to-end traceability: in an accepted bundle every obligation that ended in success or
      unchanged leads, record by record, to archived bytes that the graph traces to its campaign. */
  lemma EverySuccessTracesToRawBytes(b: Bundle, r: Record<ObligationResult>)
    requires Typed(b) && Closed(b)
    requires r in b.results && r.data.state in {TerminalState.Success, TerminalState.Unchanged}
    ensures exists l :: LineageOf(b, r, l) && Traced(b, l)
  {
    TablesConsistent(b);
    HasResultOf(b.results, r);
    var l := LineageExists(b, TablesOf(b), r);
    LineageTraced(b, r, l);
  }

  /** A vintage of the bundle behind an observation, and its bytes ahead of the vintage. */
  ghost predicate ReadFrom(b: Bundle, o: Record<Observation>, v: Record<SourceVintage>) {
    && v in b.vintages && v.id == o.data.vintageId
    && (exists raw :: raw in b.rawObjects && raw.id == v.data.rawObjectId)
    && P.Reaches(P.Direction(b.provenance, true), o.id, v.id)
    && P.Reaches(P.Direction(b.provenance, false), v.id, v.data.rawObjectId)
  }

  /** Outputs trace as well: in an accepted bundle every observation has a vintage in its reverse trace
      whose forward trace holds archived bytes. */
  lemma EveryObservationTracesToRawBytes(b: Bundle, o: Record<Observation>)
    requires Typed(b) && Closed(b) && o in b.observations
    ensures exists v :: ReadFrom(b, o, v)
  {
    TablesConsistent(b);
    var v := ObservedVintage(b, TablesOf(b), o);
    P.ForwardIffReverse(b.provenance, v.id, o.id);
    assert ReadFrom(b, o, v);
  }

  lemma ObservedVintage(b: Bundle, t: Tables, o: Record<Observation>) returns (v: Record<SourceVintage>)
    requires Consistent(b, t) && ObservationsClosed(b, t) && VintagesClosed(b, t)
    requires RecordEdges(b, TriplesOf(b.provenance)) && o in b.observations
    ensures v in b.vintages && v.id == o.data.vintageId
    ensures exists raw :: raw in b.rawObjects && raw.id == v.data.rawObjectId
    ensures P.Reaches(P.ArcsOf(b.provenance.edges), v.id, o.id)
    ensures P.Reaches(P.ArcsOf(b.provenance.edges), v.id, v.data.rawObjectId)
  {
    assert ObservationClosed(o.data, t);
    v := t.vintages[o.data.vintageId];
    assert VintageClosed(v.data, t);
    assert t.rawObjects[v.data.rawObjectId] in b.rawObjects;
    assert ObservationEdge(o, TriplesOf(b.provenance)) && VintageEdge(v, TriplesOf(b.provenance));
    EdgeReaches(b.provenance, v.id, P.EdgeKind.NormalizedAs, o.id);
    EdgeReaches(b.provenance, v.id, P.EdgeKind.ArchivesAs, v.data.rawObjectId);
  }

  // ---------------------------------------------------------------- roots

  /** `root` lies at or behind a node, and no edge enters it. */
  ghost predicate RootOf(g: P.Graph, root: string, id: string) {
    && (root == id || P.Reaches(P.Direction(g, true), id, root))
    && forall e :: e in g.edges ==> e.toId != root
  }

  /** A root of the core records is a campaign of the bundle or a node that stands for none of them. */
  ghost predicate ProperRoot(b: Bundle, root: string) {
    CoreKind(b, root).None? || root in IdsOf(b.campaigns)
  }

  /** Nothing hangs in the air: behind every core record of an accepted bundle, or at it, there is a proper
      root. */
  lemma EveryRecordHasARoot(b: Bundle, id: string)
    requires Typed(b) && Closed(b) && CoreKind(b, id).Some?
    ensures exists root :: RootOf(b.provenance, root, id) && ProperRoot(b, root)
  {
    var root := RootAmong(b, id);
  }

  lemma RootAmong(b: Bundle, id: string) returns (root: string)
    requires P.WellFormed(b.provenance) && NodesLinked(b.provenance, RequiredNodes(b)) && CoreKind(b, id).Some?
    ensures RootOf(b.provenance, root, id) && ProperRoot(b, root)
  {
    RequiredMeaning(b, id);
    assert NodeLinked(id, RequiredNodes(b)[id], b.provenance);
    root := RootIn(b.provenance, id);
    if CoreKind(b, root).Some? {
      RequiredMeaning(b, root);
      RootIsCampaign(b.provenance, RequiredNodes(b), root);
      CampaignKind(b, root);
    }
  }

  lemma CampaignKind(b: Bundle, id: string)
    requires CoreKind(b, id) == Some(P.NodeKind.Campaign)
    ensures id in IdsOf(b.campaigns)
  {
  }

  lemma RootIsCampaign(g: P.Graph, required: map<string, P.NodeKind>, root: string)
    requires NodesLinked(g, required) && root in required && forall e :: e in g.edges ==> e.toId != root
    ensures required[root] == P.NodeKind.Campaign
  {
    assert NodeLinked(root, required[root], g);
  }

  lemma RootIn(g: P.Graph, id: string) returns (root: string)
    requires P.WellFormed(g) && id in KindsOf(g.nodes)
    ensures RootOf(g, root, id)
  {
    KindsAreNodes(g.nodes, id);
    var node := P.Node(id, KindsOf(g.nodes)[id]);
    assert node in g.nodes && node.nodeId == id;
    var arcs := P.ArcsOf(g.edges);
    assert Elements([id]) <= P.IdsOf(g.nodes);
    root := P.RootBehind(arcs, P.IdsOf(g.nodes), [id]);
    P.ForwardIffReverse(g, root, id);
    forall e | e in g.edges
      ensures e.toId != root
    {
      assert (e.fromId, e.toId) in arcs;
    }
  }

  // ---------------------------------------------------------------- retries

  /** The work item is one complete run of its frozen policy: between one and `maxAttempts` attempts,
      numbered from one, all but the last retryable and the last terminal, each with one result only
      and no earlier than its dispatch. */
  ghost predicate RanItsPolicy(b: Bundle, work: Record<WorkItem>, policy: R.Policy) {
    var attempts, byAttempt := AttemptsOf(b.attempts, work.id), ResultByAttempt(b.attemptResults);
    && (forall a :: a in attempts ==> a.id in byAttempt && a.data.startedAt <= byAttempt[a.id].data.completedAt)
    && (forall x :: x in b.attemptResults ==> x.data.attemptId in byAttempt && byAttempt[x.data.attemptId] == x)
    && 1 <= |attempts| <= policy.maxAttempts <= 20
    && (forall a :: a in R.SortedByNumber(attempts) ==> a.id in byAttempt)
    && R.InOrder(policy, R.SortedByNumber(attempts), byAttempt)
  }

  lemma CompletionsAreTimely(b: Bundle, attempts: seq<R.Attempt>)
    requires AttemptResultsTotal(b, TablesOf(b)) && DistinctIds(b.attempts)
    requires forall i :: 0 <= i < |attempts| ==> attempts[i] in b.attempts
    ensures var byAttempt := ResultByAttempt(b.attemptResults);
            forall a :: a in attempts ==> a.id in byAttempt && a.data.startedAt <= byAttempt[a.id].data.completedAt
  {
    var byAttempt := ResultByAttempt(b.attemptResults);
    forall a | a in attempts
      ensures a.id in byAttempt && a.data.startedAt <= byAttempt[a.id].data.completedAt
    {
      TableKeepsAll(b.attempts, a);
      assert Timely(byAttempt[a.id].data, TablesOf(b));
    }
  }

  lemma OneResultOnly(results: seq<R.AttemptResult>)
    requires OneResultEach(results)
    ensures forall x :: x in results ==>
              x.data.attemptId in ResultByAttempt(results) && ResultByAttempt(results)[x.data.attemptId] == x
  {
    forall x | x in results
      ensures x.data.attemptId in ResultByAttempt(results) && ResultByAttempt(results)[x.data.attemptId] == x
    {
      OnlyResult(results, x);
    }
  }

  function PolicyOf(b: Bundle, work: Record<WorkItem>): R.Policy
    requires work.data.policyId in Table(b.policies)
  {
    Table(b.policies)[work.data.policyId].data.retry
  }

  lemma DisciplinedRun(b: Bundle, work: Record<WorkItem>, policy: R.Policy)
    requires policy.Valid()
    requires forall a :: a in AttemptsOf(b.attempts, work.id) ==> a.id in ResultByAttempt(b.attemptResults)
    requires R.Disciplined(policy, AttemptsOf(b.attempts, work.id), ResultByAttempt(b.attemptResults))
    requires AttemptResultsTotal(b, TablesOf(b)) && DistinctIds(b.attempts)
    ensures RanItsPolicy(b, work, policy)
  {
    var attempts, byAttempt := AttemptsOf(b.attempts, work.id), ResultByAttempt(b.attemptResults);
    R.DisciplineMeaning(policy, attempts, byAttempt);
    MultisetMembers(attempts, R.SortedByNumber(attempts));
    CompletionsAreTimely(b, attempts);
    OneResultOnly(b.attemptResults);
  }

  lemma PolicyIsValid(b: Bundle, work: Record<WorkItem>)
    requires Typed(b) && work.data.policyId in Table(b.policies)
    ensures PolicyOf(b, work).Valid()
  {
    assert Table(b.policies)[work.data.policyId] in b.policies;
  }

  /** Every work item of an accepted bundle ran its policy to completion. */
  lemma EveryWorkItemRanItsPolicy(b: Bundle, work: Record<WorkItem>)
    requires Typed(b) && Closed(b) && work in b.workItems
    ensures work.data.policyId in Table(b.policies) && RanItsPolicy(b, work, PolicyOf(b, work))
  {
    TableKeepsAll(b.workItems, work);
    DisciplinedAt(b, TablesOf(b), work.id);
    PolicyIsValid(b, work);
    DisciplinedRun(b, work, PolicyOf(b, work));
  }

  // ---------------------------------------------------------------- restatements

  /** `chain` follows `supersedes` among the observations. */
  ghost predicate Supersession(observations: seq<Record<Observation>>, chain: seq<Record<Observation>>) {
    && (forall i :: 0 <= i < |chain| ==> chain[i] in observations)
    && (forall i :: 0 <= i < |chain| - 1 ==> chain[i].data.supersedes == Some(chain[i + 1].id))
  }

  /** Each observation restates, at a later time, everything behind it in the chain. */
  ghost predicate Descends(chain: seq<Record<Observation>>) {
    forall i, j :: 0 <= i < j < |chain| ==>
      chain[j].data.knowableAt < chain[i].data.knowableAt && SameCoordinate(chain[i].data, chain[j].data)
  }

  /** Every named predecessor is present and properly restated. */
  ghost predicate PredecessorsPresent(observations: seq<Record<Observation>>) {
    && DistinctIds(observations)
    && forall o :: o in observations && o.data.supersedes.Some? ==>
         o.data.supersedes.value in Table(observations)
         && Restates(o.data, Table(observations)[o.data.supersedes.value].data)
  }

  lemma {:induction false} DescendsAlong(observations: seq<Record<Observation>>, chain: seq<Record<Observation>>)
    requires PredecessorsPresent(observations) && Supersession(observations, chain)
    ensures Descends(chain)
  {
    if |chain| >= 2 {
      var rest := chain[1..];
      assert forall i :: 0 <= i < |rest| ==> rest[i] == chain[i + 1];
      DescendsAlong(observations, rest);
      assert chain[0] in observations && chain[1] in observations;
      TableKeepsAll(observations, chain[1]);
      assert Restates(chain[0].data, rest[0].data);
      forall i, j | 0 <= i < j < |chain|
        ensures chain[j].data.knowableAt < chain[i].data.knowableAt && SameCoordinate(chain[i].data, chain[j].data)
      {
        assert chain[j] == rest[j - 1];
        if i > 0 {
          assert chain[i] == rest[i - 1];
        }
      }
    }
  }

  lemma DescentIsShort(observations: seq<Record<Observation>>, chain: seq<Record<Observation>>)
    requires Supersession(observations, chain) && Descends(chain)
    ensures |chain| <= |Elements(observations)|
  {
    assert Distinct(chain);
    DistinctWithin(chain, Elements(observations));
  }

  lemma {:induction false} WalkEnds(observations: seq<Record<Observation>>, walked: seq<Record<Observation>>)
    returns (chain: seq<Record<Observation>>)
    requires PredecessorsPresent(observations) && walked != [] && Supersession(observations, walked)
    ensures Supersession(observations, chain) && walked <= chain
    ensures chain[|chain| - 1].data.supersedes.None?
    decreases |Elements(observations)| - |walked|
  {
    var last := walked[|walked| - 1];
    if last.data.supersedes.None? {
      chain := walked;
    } else {
      assert last in observations;
      var longer := walked + [Table(observations)[last.data.supersedes.value]];
      assert Supersession(observations, longer);
      DescendsAlong(observations, longer);
      DescentIsShort(observations, longer);
      chain := WalkEnds(observations, longer);
    }
  }

  /** `supersedes` is well founded: every chain of restatements strictly falls in knowable time at one
      semantic coordinate and is no longer than there are observations, and from every observation the
      walk back ends at one that supersedes nothing. */
  ghost predicate WellFounded(observations: seq<Record<Observation>>) {
    && (forall chain: seq<Record<Observation>> :: Supersession(observations, chain) ==>
          Descends(chain) && |chain| <= |Elements(observations)|)
    && (forall o :: o in observations ==> exists chain: seq<Record<Observation>> ::
          && Supersession(observations, chain) && chain != [] && chain[0] == o
          && !chain[|chain| - 1].data.isRestatement)
  }

  lemma PredecessorsMakeWellFounded(observations: seq<Record<Observation>>)
    requires PredecessorsPresent(observations)
    requires forall o :: o in observations ==> (o.data.isRestatement <==> o.data.supersedes.Some?)
    ensures WellFounded(observations)
  {
    forall chain | Supersession(observations, chain)
      ensures Descends(chain) && |chain| <= |Elements(observations)|
    {
      DescendsAlong(observations, chain);
      DescentIsShort(observations, chain);
    }
    forall o | o in observations
      ensures exists chain: seq<Record<Observation>> ::
        && Supersession(observations, chain) && chain != [] && chain[0] == o
        && !chain[|chain| - 1].data.isRestatement
    {
      var chain := WalkEnds(observations, [o]);
      assert chain[|chain| - 1] in observations;
    }
  }

  lemma RestatementsChecked(b: Bundle)
    requires Typed(b) && DistinctIds(b.observations) && ObservationsClosed(b, TablesOf(b))
    ensures WellFounded(b.observations)
  {
    assert TablesOf(b).observations == Table(b.observations);
    PredecessorsMakeWellFounded(b.observations);
  }

  /** In an accepted bundle restatements cannot run in circles or into the void. */
  lemma RestatementsAreWellFounded(b: Bundle)
    requires Typed(b) && Closed(b)
    ensures WellFounded(b.observations)
  {
    RestatementsChecked(b);
  }

  // ---------------------------------------------------------------- nothing is scored before it is knowable

  /** Every assessment is of a record of the bundle, and one of an observation that was knowable only after
      the cutoff says so and carries no confidence. */
  lemma NothingIsScoredEarly(b: Bundle, a: Record<Assessment>)
    requires Typed(b) && Closed(b) && a in b.assessments
    ensures a.data.target.OfObligation? ==> exists o :: o in b.obligations && o.id == a.data.target.id
    ensures a.data.target.OfObservation? ==> exists o :: o in b.observations && o.id == a.data.target.id
    ensures forall o :: o in b.observations && a.data.target == OfObservation(o.id) && o.data.knowableAt > a.data.cutoff
              ==> a.data.applicability == NotYetKnowable && !a.data.hasConfidence
  {
    assert AssessmentClosed(a.data, TablesOf(b));
    NotScoredEarly(b, a.data);
  }

  lemma NotScoredEarly(b: Bundle, a: Assessment)
    requires DistinctIds(b.observations) && AssessmentClosed(a, TablesOf(b))
    ensures a.target.OfObligation? ==> exists o :: o in b.obligations && o.id == a.target.id
    ensures a.target.OfObservation? ==> exists o :: o in b.observations && o.id == a.target.id
    ensures forall o :: o in b.observations && a.target == OfObservation(o.id) && o.data.knowableAt > a.cutoff
              ==> a.applicability == NotYetKnowable && !a.hasConfidence
  {
    forall o | o in b.observations && a.target == OfObservation(o.id)
      ensures TablesOf(b).observations[o.id] == o
    {
      TableKeepsAll(b.observations, o);
    }
  }
}
