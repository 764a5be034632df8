/** An accepted bundle for any fifteen ids: one obligation, served at the second attempt after a transport
    error, read once and restated once, with the reading scored and its restatement not yet knowable. What is
    proved of accepted bundles is about something. */
module EvidenceSample {
  import opened Evidence
  import opened Identity
  import opened Options
  import opened Ordering
  import P = Provenance
  import R = Retry

  const COUNT := 15

  const POLICY := R.Policy(3, [R.TransportError], [R.Success, R.Unchanged, R.Unavailable, R.Failed])

  const KINDS: seq<P.NodeKind> := [
    P.NodeKind.Campaign, P.NodeKind.Run, P.NodeKind.SourceRequest, P.NodeKind.ListObligation, P.NodeKind.WorkItem,
    P.NodeKind.FetchAttempt, P.NodeKind.FetchAttempt, P.NodeKind.FetchAttemptResult, P.NodeKind.FetchAttemptResult,
    P.NodeKind.SourceVintage, P.NodeKind.RawObject, P.NodeKind.NormalizedObservation, P.NodeKind.NormalizedObservation,
    P.NodeKind.ConfidenceAssessment, P.NodeKind.ConfidenceAssessment]

  /** Edges by the places of their ends; every edge but the last enters the next place. */
  const FROM: seq<nat> := [0, 0, 1, 2, 4, 4, 5, 6, 8, 9, 9, 9, 11, 12, 3]
  const KIND: seq<P.EdgeKind> := [
    P.EdgeKind.Contains, P.EdgeKind.Contains, P.EdgeKind.Requires, P.EdgeKind.Dispatches,
    P.EdgeKind.AttemptedBy, P.EdgeKind.AttemptedBy, P.EdgeKind.Completes, P.EdgeKind.Completes,
    P.EdgeKind.Observed, P.EdgeKind.ArchivesAs, P.EdgeKind.NormalizedAs, P.EdgeKind.NormalizedAs,
    P.EdgeKind.AssessedBy, P.EdgeKind.AssessedBy, P.EdgeKind.SatisfiedBy]
  const TO: seq<nat> := [1, 2, 3, 4, 5, 6, 7, 8, 9, 10, 11, 12, 13, 14, 4]

  lemma Places(k: nat)
    requires k < COUNT
    ensures |KINDS| == |FROM| == |KIND| == |TO| == COUNT && FROM[k] < TO[k] < COUNT
    ensures k < 14 ==> TO[k] == k + 1
  {
  }

  ghost predicate Ids(id: seq<string>) {
    |id| == COUNT && Distinct(id)
  }

  function Nodes(id: seq<string>): seq<P.Node>
    requires |id| == COUNT
  {
    seq(COUNT, i requires 0 <= i < COUNT => P.Node(id[i], KINDS[i]))
  }

  function Edges(id: seq<string>): seq<P.Edge>
    requires |id| == COUNT
  {
    seq(COUNT, k requires 0 <= k < COUNT => Places(k); P.Edge(id[k], id[FROM[k]], KIND[k], id[TO[k]], 0))
  }

  function Attempts(id: seq<string>): seq<R.Attempt>
    requires |id| == COUNT
  {
    [Record(id[5], "", R.Dispatch(id[4], 1, 10)), Record(id[6], "", R.Dispatch(id[4], 2, 20))]
  }

  function Completions(id: seq<string>): seq<R.AttemptResult>
    requires |id| == COUNT
  {
    [Record(id[7], "", R.Completion(id[5], 11, R.TransportError, None, None)),
     Record(id[8], "", R.Completion(id[6], 21, R.Success, Some(id[9]), None))]
  }

  function Observations(id: seq<string>): seq<Record<Observation>>
    requires |id| == COUNT
  {
    [Record(id[11], "", Observation("", "", "", 0, None, 30, id[9], "old", false, None)),
     Record(id[12], "", Observation("", "", "", 0, None, 40, id[9], "new", true, Some(id[11])))]
  }

  function Assessments(id: seq<string>): seq<Record<Assessment>>
    requires |id| == COUNT
  {
    [Record(id[13], "", Assessment(OfObservation(id[11]), true, Applicable, 30)),
     Record(id[14], "", Assessment(OfObservation(id[12]), false, NotYetKnowable, 30))]
  }

  function Sample(id: seq<string>): Bundle
    requires |id| == COUNT
  {
    Bundle(
      [Record(id[0], "", SchedulePolicy(POLICY))],
      [Record(id[0], "", CaptureCampaign([""]))],
      [Record(id[1], "", CaptureRun(id[0], id[0]))],
      [Record(id[3], "", ListObligation(id[1], "", "", "", ""))],
      [Record(id[2], "", SourceRequest([""], [""], ""))],
      [Record(id[4], "", WorkItem(id[0], id[2], id[0]))],
      [Record(id[0], "", Binding(id[3], id[4]))],
      Attempts(id),
      Completions(id),
      [Record(id[10], "", RawObject)],
      [Record(id[9], "", SourceVintage(id[2], id[10]))],
      [Record(id[0], "", ObligationResult(id[3], TerminalState.Success, Some(id[6])))],
      Observations(id),
      Assessments(id),
      P.Graph(Nodes(id), Edges(id)))
  }

  // ---------------------------------------------------------------- short tables

  lemma One<T>(x: Record<T>)
    ensures Table([x]) == map[x.id := x] && DistinctIds([x])
  {
    assert [x][..0] == [];
  }

  lemma Two<T>(x: Record<T>, y: Record<T>)
    requires x.id != y.id
    ensures Table([x, y]) == map[x.id := x, y.id := y] && DistinctIds([x, y])
  {
    One(x);
    assert [x, y][..1] == [x];
  }

  lemma AttemptsOfTwo(x: R.Attempt, y: R.Attempt, work: string)
    requires x.data.workItemId == work && y.data.workItemId == work
    ensures AttemptsOf([x, y], work) == [x, y]
  {
    assert [x, y][..1] == [x] && [x][..0] == [];
    assert AttemptsOf([x], work) == AttemptsOf([], work) + [x];
    assert AttemptsOf([x, y], work) == AttemptsOf([x], work) + [y];
  }

  lemma ResultsOfTwo(x: R.AttemptResult, y: R.AttemptResult)
    requires x.data.attemptId != y.data.attemptId
    ensures ResultByAttempt([x, y]) == map[x.data.attemptId := x, y.data.attemptId := y] && OneResultEach([x, y])
  {
    assert [x, y][..1] == [x] && [x][..0] == [];
    assert ResultByAttempt([x]) == map[x.data.attemptId := x];
  }

  /** The tables of the sample. */
  ghost predicate Tabled(b: Bundle, t: Tables)
    requires |b.policies| == |b.campaigns| == |b.runs| == |b.obligations| == |b.requests| == |b.workItems| == 1
    requires |b.attempts| == |b.observations| == 2 && |b.rawObjects| == |b.vintages| == 1
  {
    && t.policies == map[b.policies[0].id := b.policies[0]]
    && t.campaigns == map[b.campaigns[0].id := b.campaigns[0]]
    && t.runs == map[b.runs[0].id := b.runs[0]]
    && t.obligations == map[b.obligations[0].id := b.obligations[0]]
    && t.requests == map[b.requests[0].id := b.requests[0]]
    && t.workItems == map[b.workItems[0].id := b.workItems[0]]
    && t.attempts == map[b.attempts[0].id := b.attempts[0], b.attempts[1].id := b.attempts[1]]
    && t.rawObjects == map[b.rawObjects[0].id := b.rawObjects[0]]
    && t.vintages == map[b.vintages[0].id := b.vintages[0]]
    && t.observations == map[b.observations[0].id := b.observations[0], b.observations[1].id := b.observations[1]]
  }

  lemma SampleTables(id: seq<string>)
    requires Ids(id)
    ensures AllDistinct(Sample(id)) && Tabled(Sample(id), TablesOf(Sample(id)))
  {
    var b := Sample(id);
    One(b.policies[0]);
    One(b.campaigns[0]);
    One(b.runs[0]);
    One(b.obligations[0]);
    One(b.requests[0]);
    One(b.workItems[0]);
    One(b.bindings[0]);
    One(b.rawObjects[0]);
    One(b.vintages[0]);
    One(b.results[0]);
    Two(b.attempts[0], b.attempts[1]);
    Two(b.attemptResults[0], b.attemptResults[1]);
    Two(b.observations[0], b.observations[1]);
    Two(b.assessments[0], b.assessments[1]);
  }

  // ---------------------------------------------------------------- the checks, one by one

  lemma SampleReferences(id: seq<string>, t: Tables)
    requires Ids(id) && Tabled(Sample(id), t)
    ensures var b := Sample(id);
            && RunsClosed(b, t) && ObligationsClosed(b, t) && WorkItemsClosed(b, t) && VintagesClosed(b, t)
  {
  }

  lemma SampleReadings(id: seq<string>, t: Tables)
    requires Ids(id) && Tabled(Sample(id), t)
    ensures ObservationsClosed(Sample(id), t) && AssessmentsClosed(Sample(id), t)
  {
    assert "old" != "new" by {
      assert "old"[0] != "new"[0];
    }
    var o := Observations(id);
    assert ObservationClosed(o[0].data, t) && ObservationClosed(o[1].data, t);
    var a := Assessments(id);
    assert AssessmentClosed(a[0].data, t) && AssessmentClosed(a[1].data, t);
  }

  lemma SampleBound(id: seq<string>)
    requires Ids(id)
    ensures BoundWork(Sample(id).bindings) == map[id[3] := id[4]] && DistinctlyBound(Sample(id).bindings)
  {
    assert Sample(id).bindings[..0] == [];
  }

  lemma SampleServed(id: seq<string>, t: Tables)
    requires Ids(id) && Tabled(Sample(id), t)
    ensures ResultsTotal(Sample(id), t) && BindingsTotal(Sample(id), t)
  {
    var b := Sample(id);
    assert b.results[..0] == [];
    assert ResultByObligation(b.results) == map[id[3] := b.results[0]];
    SampleBound(id);
    assert SkippedIds(b.results) == {};
    assert BindingClosed(b.bindings[0].data, t, {});
  }

  lemma SampleGrouped(id: seq<string>, t: Tables)
    requires Ids(id) && Tabled(Sample(id), t)
    ensures AttemptsClosed(Sample(id), t)
  {
    var a := Attempts(id);
    AttemptsOfTwo(a[0], a[1], id[4]);
  }

  lemma SampleCompleted(id: seq<string>, t: Tables)
    requires Ids(id) && Tabled(Sample(id), t)
    ensures AttemptResultsTotal(Sample(id), t)
  {
    var x := Completions(id);
    ResultsOfTwo(x[0], x[1]);
    assert Timely(x[0].data, t) && Timely(x[1].data, t);
  }

  lemma SampleProduce(id: seq<string>, t: Tables)
    requires Ids(id) && Tabled(Sample(id), t)
    ensures ResultVintagesClosed(Sample(id), t)
  {
    var x := Completions(id);
    assert ResultVintageClosed(x[0].data, t) && ResultVintageClosed(x[1].data, t);
  }

  lemma TwoStepRun(policy: R.Policy, trace: seq<R.Attempt>, results: R.Outcomes)
    requires |trace| == 2 && trace[0].id in results && trace[1].id in results && policy.maxAttempts >= 2
    requires trace[0].data.number == 1 && trace[1].data.number == 2
    requires results[trace[0].id].data.outcome !in policy.terminal
    requires results[trace[0].id].data.outcome in policy.retryable
    requires results[trace[1].id].data.outcome in policy.terminal
    ensures R.Disciplined(policy, trace, results)
  {
    assert R.LastOnlyTerminal(policy, trace, results);
    R.RunShape(policy, 1, trace, results);
    assert R.CompleteRun(policy, trace, results);
  }

  lemma SampleRuns(id: seq<string>)
    requires Ids(id)
    ensures AttemptsOf(Attempts(id), id[4]) == Attempts(id)
    ensures ResultByAttempt(Completions(id)) == map[id[5] := Completions(id)[0], id[6] := Completions(id)[1]]
    ensures R.Disciplined(POLICY, Attempts(id), ResultByAttempt(Completions(id)))
  {
    var a, x := Attempts(id), Completions(id);
    AttemptsOfTwo(a[0], a[1], id[4]);
    ResultsOfTwo(x[0], x[1]);
    TwoStepRun(POLICY, a, ResultByAttempt(x));
  }

  lemma SampleRetries(id: seq<string>, t: Tables)
    requires Ids(id) && Tabled(Sample(id), t)
    ensures RetriesDisciplined(Sample(id), t)
  {
    SampleRuns(id);
  }

  lemma SampleOutcome(id: seq<string>, t: Tables)
    requires Ids(id) && Tabled(Sample(id), t)
    ensures FinalAttemptsAgree(Sample(id), t)
  {
    SampleRuns(id);
    SampleBound(id);
  }

  lemma SampleValid(id: seq<string>)
    requires |id| == COUNT
    ensures POLICY.Valid()
    ensures forall x :: x in Completions(id) ==> x.data.Valid()
  {
    assert forall x :: x in Completions(id) ==> x == Completions(id)[0] || x == Completions(id)[1];
  }

  lemma SampleTyped(id: seq<string>)
    requires Ids(id) && P.WellFormed(Sample(id).provenance)
    ensures Typed(Sample(id))
  {
    SampleValid(id);
    TypedWhen(Sample(id));
  }

  lemma TypedWhen(b: Bundle)
    requires |b.policies| == |b.results| == 1 && |b.observations| == 2 && P.WellFormed(b.provenance)
    requires b.policies[0].data.retry.Valid() && forall x :: x in b.attemptResults ==> x.data.Valid()
    requires b.results[0].data.state != SkippedByPolicy && b.results[0].data.finalAttemptId.Some?
    requires forall i :: 0 <= i < 2 ==>
               && (b.observations[i].data.isRestatement <==> b.observations[i].data.supersedes.Some?)
               && b.observations[i].data.supersedes != Some(b.observations[i].id)
    ensures Typed(b)
  {
  }

  // ---------------------------------------------------------------- the graph

  lemma SampleArc(id: seq<string>, e: P.Edge) returns (k: nat)
    requires |id| == COUNT && e in Edges(id)
    ensures k < COUNT && FROM[k] < TO[k] < COUNT && e.fromId == id[FROM[k]] && e.toId == id[TO[k]]
  {
    k :| 0 <= k < COUNT && Edges(id)[k] == e;
    Places(k);
  }

  lemma SampleAcyclic(id: seq<string>)
    requires Ids(id)
    ensures P.Acyclic(P.ArcsOf(Edges(id)))
  {
    var arcs := P.ArcsOf(Edges(id));
    forall i, u | 0 <= i < COUNT && (u, id[i]) in arcs
      ensures u in id[..i]
    {
      var e :| e in Edges(id) && (e.fromId, e.toId) == (u, id[i]);
      var k := SampleArc(id, e);
      assert id[..i][FROM[k]] == u;
    }
    forall a | a in arcs
      ensures a.1 in id
    {
      var e :| e in Edges(id) && (e.fromId, e.toId) == a;
      var k := SampleArc(id, e);
    }
    P.TopologicalAcyclic(arcs, id);
  }

  lemma SampleGraph(id: seq<string>)
    requires Ids(id)
    ensures P.WellFormed(P.Graph(Nodes(id), Edges(id)))
  {
    var nodes := Nodes(id);
    forall e | e in Edges(id)
      ensures e.fromId in P.IdsOf(nodes) && e.toId in P.IdsOf(nodes)
    {
      var k := SampleArc(id, e);
      assert nodes[FROM[k]] in nodes && nodes[TO[k]] in nodes;
    }
    SampleAcyclic(id);
  }

  lemma EdgeAt(id: seq<string>, k: nat)
    requires Ids(id) && k < COUNT
    ensures FROM[k] < COUNT && TO[k] < COUNT
    ensures (id[FROM[k]], KIND[k], id[TO[k]]) in TriplesOf(Sample(id).provenance)
    ensures id[TO[k]] in Entered(Edges(id))
  {
    Places(k);
    assert Edges(id)[k] in Edges(id);
  }

  lemma SampleEdges(id: seq<string>)
    requires Ids(id)
    ensures RecordEdges(Sample(id), TriplesOf(Sample(id).provenance))
    ensures AttemptEdges(Sample(id), TriplesOf(Sample(id).provenance))
  {
    forall k | 0 <= k < COUNT
      ensures FROM[k] < COUNT && TO[k] < COUNT
      ensures (id[FROM[k]], KIND[k], id[TO[k]]) in TriplesOf(Sample(id).provenance)
    {
      EdgeAt(id, k);
    }
    EdgesServe(id, TriplesOf(Sample(id).provenance));
  }

  lemma EdgesServe(id: seq<string>, edges: Triples)
    requires Ids(id)
    requires forall k :: 0 <= k < COUNT ==>
               FROM[k] < COUNT && TO[k] < COUNT && (id[FROM[k]], KIND[k], id[TO[k]]) in edges
    ensures RecordEdges(Sample(id), edges) && AttemptEdges(Sample(id), edges)
  {
    assert FROM[0] == 0 && FROM[1] == 0 && FROM[2] == 1 && FROM[3] == 2 && FROM[4] == 4 && FROM[5] == 4;
    assert FROM[6] == 5 && FROM[7] == 6 && FROM[8] == 8 && FROM[9] == 9 && FROM[10] == 9 && FROM[11] == 9;
    assert FROM[14] == 3;
    assert CompletionEdges(Completions(id)[0], edges) && CompletionEdges(Completions(id)[1], edges);
  }

  // ---------------------------------------------------------------- the nodes

  ghost predicate Placed(id: seq<string>, required: map<string, P.NodeKind>)
    requires |id| == COUNT
  {
    forall x :: x in required ==> exists i :: 0 <= i < COUNT && id[i] == x && KINDS[i] == required[x]
  }

  lemma EnterOne<T>(id: seq<string>, before: map<string, P.NodeKind>, x: Record<T>, kind: P.NodeKind, i: nat)
    requires |id| == COUNT && Placed(id, before) && i < COUNT && id[i] == x.id && KINDS[i] == kind
    ensures Placed(id, Enter(before, [x], kind))
  {
    assert [x][..0] == [];
  }

  lemma EnterTwo<T>(id: seq<string>, before: map<string, P.NodeKind>, x: Record<T>, y: Record<T>,
                    kind: P.NodeKind, i: nat)
    requires |id| == COUNT && Placed(id, before) && i + 1 < COUNT
    requires id[i] == x.id && KINDS[i] == kind && id[i + 1] == y.id && KINDS[i + 1] == kind
    ensures Placed(id, Enter(before, [x, y], kind))
  {
    EnterOne(id, before, x, kind, i);
    assert [x, y][..1] == [x];
  }

  lemma SampleRequired(id: seq<string>)
    requires Ids(id)
    ensures Placed(id, RequiredNodes(Sample(id)))
  {
    var b := Sample(id);
    EnterOne(id, map[], b.campaigns[0], P.NodeKind.Campaign, 0);
    var m1 := Enter(map[], b.campaigns, P.NodeKind.Campaign);
    EnterOne(id, m1, b.runs[0], P.NodeKind.Run, 1);
    var m2 := Enter(m1, b.runs, P.NodeKind.Run);
    EnterOne(id, m2, b.obligations[0], P.NodeKind.ListObligation, 3);
    var m3 := Enter(m2, b.obligations, P.NodeKind.ListObligation);
    EnterOne(id, m3, b.requests[0], P.NodeKind.SourceRequest, 2);
    var m4 := Enter(m3, b.requests, P.NodeKind.SourceRequest);
    EnterOne(id, m4, b.workItems[0], P.NodeKind.WorkItem, 4);
    var m5 := Enter(m4, b.workItems, P.NodeKind.WorkItem);
    EnterTwo(id, m5, b.attempts[0], b.attempts[1], P.NodeKind.FetchAttempt, 5);
    var m6 := Enter(m5, b.attempts, P.NodeKind.FetchAttempt);
    EnterTwo(id, m6, b.attemptResults[0], b.attemptResults[1], P.NodeKind.FetchAttemptResult, 7);
    var m7 := Enter(m6, b.attemptResults, P.NodeKind.FetchAttemptResult);
    EnterOne(id, m7, b.rawObjects[0], P.NodeKind.RawObject, 10);
    var m8 := Enter(m7, b.rawObjects, P.NodeKind.RawObject);
    EnterOne(id, m8, b.vintages[0], P.NodeKind.SourceVintage, 9);
    var m9 := Enter(m8, b.vintages, P.NodeKind.SourceVintage);
    EnterTwo(id, m9, b.observations[0], b.observations[1], P.NodeKind.NormalizedObservation, 11);
    var m10 := Enter(m9, b.observations, P.NodeKind.NormalizedObservation);
    EnterTwo(id, m10, b.assessments[0], b.assessments[1], P.NodeKind.ConfidenceAssessment, 13);
  }

  lemma SampleNodes(id: seq<string>)
    requires Ids(id)
    ensures NodesLinked(Sample(id).provenance, RequiredNodes(Sample(id)))
  {
    var g, required := P.Graph(Nodes(id), Edges(id)), RequiredNodes(Sample(id));
    SampleRequired(id);
    SampleGraph(id);
    forall x | x in required
      ensures NodeLinked(x, required[x], g)
    {
      var i :| 0 <= i < COUNT && id[i] == x && KINDS[i] == required[x];
      assert g.nodes[i] in g.nodes;
      KindsAreNodes(g.nodes, x);
      if i > 0 {
        EdgeAt(id, i - 1);
        Places(i - 1);
      }
    }
  }

  // ---------------------------------------------------------------- acceptance

  lemma Accepted(b: Bundle, t: Tables)
    requires TablesOf(b) == t && AllDistinct(b)
    requires RunsClosed(b, t) && ObligationsClosed(b, t) && WorkItemsClosed(b, t) && VintagesClosed(b, t)
    requires ResultsTotal(b, t) && BindingsTotal(b, t) && AttemptsClosed(b, t) && AttemptResultsTotal(b, t)
    requires RetriesDisciplined(b, t) && ResultVintagesClosed(b, t) && FinalAttemptsAgree(b, t)
    requires ObservationsClosed(b, t) && AssessmentsClosed(b, t)
    requires NodesLinked(b.provenance, RequiredNodes(b))
    requires RecordEdges(b, TriplesOf(b.provenance)) && AttemptEdges(b, TriplesOf(b.provenance))
    ensures Closed(b)
  {
  }

  /** The sample scores an observation that was just knowable at the cutoff. */
  lemma SampleIsScored(id: seq<string>)
    requires |id| == COUNT
    ensures exists o, a ::
              && o in Sample(id).observations && a in Sample(id).assessments && a.data.target == OfObservation(o.id)
              && a.data.cutoff == o.data.knowableAt && a.data.applicability == Applicable && a.data.hasConfidence
  {
    var o, a := Observations(id)[0], Assessments(id)[0];
    assert o in Sample(id).observations && a in Sample(id).assessments;
  }

  /** The sample is accepted, whatever the ids. */
  lemma SampleIsAccepted(id: seq<string>)
    requires Ids(id)
    ensures Typed(Sample(id)) && Closed(Sample(id))
  {
    var b := Sample(id);
    var t := TablesOf(b);
    SampleGraph(id);
    SampleTyped(id);
    SampleTables(id);
    SampleReferences(id, t);
    SampleReadings(id, t);
    SampleServed(id, t);
    SampleGrouped(id, t);
    SampleCompleted(id, t);
    SampleProduce(id, t);
    SampleRetries(id, t);
    SampleOutcome(id, t);
    SampleNodes(id);
    SampleEdges(id);
    Accepted(b, t);
  }
}
