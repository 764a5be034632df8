/** The bundle validator as it runs: dictionaries filled record by record, checks in source order. */
module EvidenceValidator {
  import opened Evidence
  import opened Identity
  import opened Options
  import P = Provenance
  import R = Retry

  /** A check of one record after the other, until one fails. */
  method Every<T>(records: seq<T>, holds: T -> bool) returns (ok: bool)
    ensures ok <==> forall x :: x in records ==> holds(x)
  {
    for k := 0 to |records|
      invariant forall i :: 0 <= i < k ==> holds(records[i])
    {
      if !holds(records[k]) {
        return false;
      }
    }
    return true;
  }

  /** All identity indexes; the bundle is refused at the first collision. */
  method IndexAll(b: Bundle) returns (r: Option<Tables>)
    ensures r.Some? <==> AllDistinct(b)
    ensures r.Some? ==> r.value == TablesOf(b)
  {
    var policies := Index(b.policies);
    var campaigns := Index(b.campaigns);
    var runs := Index(b.runs);
    var obligations := Index(b.obligations);
    var requests := Index(b.requests);
    var workItems := Index(b.workItems);
    var bindings := Index(b.bindings);
    var attempts := Index(b.attempts);
    var attemptResults := Index(b.attemptResults);
    var rawObjects := Index(b.rawObjects);
    var vintages := Index(b.vintages);
    var results := Index(b.results);
    var observations := Index(b.observations);
    var assessments := Index(b.assessments);
    if policies.Indexed? && campaigns.Indexed? && runs.Indexed? && obligations.Indexed? && requests.Indexed?
       && workItems.Indexed? && bindings.Indexed? && attempts.Indexed? && attemptResults.Indexed?
       && rawObjects.Indexed? && vintages.Indexed? && results.Indexed? && observations.Indexed?
       && assessments.Indexed? {
      return Some(Tables(policies.table, campaigns.table, runs.table, obligations.table, requests.table,
                         workItems.table, attempts.table, rawObjects.table, vintages.table, observations.table));
    }
    return None;
  }

  lemma RepeatedResult(results: seq<Record<ObligationResult>>, k: nat)
    requires k < |results| && results[k].data.obligationId in ResultByObligation(results[..k])
    ensures !OneResultPerObligation(results)
  {
    assert results[..k + 1][..k] == results[..k];
    if OneResultPerObligation(results) {
      OneResultPrefix(results, k + 1);
    }
  }

  lemma RepeatedBinding(bindings: seq<Record<Binding>>, k: nat)
    requires k < |bindings| && bindings[k].data.obligationId in BoundWork(bindings[..k])
    ensures !DistinctlyBound(bindings)
  {
    assert bindings[..k + 1][..k] == bindings[..k];
    if DistinctlyBound(bindings) {
      BoundPrefix(bindings, k + 1);
    }
  }

  lemma RepeatedCompletion(results: seq<R.AttemptResult>, k: nat)
    requires k < |results| && results[k].data.attemptId in ResultByAttempt(results[..k])
    ensures !OneResultEach(results)
  {
    assert results[..k + 1][..k] == results[..k];
    if OneResultEach(results) {
      OneResultEachPrefix(results, k + 1);
    }
  }

  /** One persisted result per obligation. */
  method CollectResults(b: Bundle, t: Tables) returns (ok: bool)
    ensures ok <==> ResultsTotal(b, t)
  {
    var byObligation: map<string, Record<ObligationResult>> := map[];
    for k := 0 to |b.results|
      invariant OneResultPerObligation(b.results[..k])
      invariant byObligation == ResultByObligation(b.results[..k])
      invariant byObligation.Keys <= t.obligations.Keys
    {
      var r := b.results[k];
      assert b.results[..k + 1][..k] == b.results[..k];
      if r.data.obligationId !in t.obligations {
        HasResultOf(b.results, r);
        return false;
      }
      if r.data.obligationId in byObligation {
        RepeatedResult(b.results, k);
        return false;
      }
      byObligation := byObligation[r.data.obligationId := r];
    }
    assert b.results[..|b.results|] == b.results;
    ok := byObligation.Keys == t.obligations.Keys;
  }

  /** The bindings read so far, closed and of distinct obligations, and the dictionary of them. */
  ghost predicate BoundUpTo(bindings: seq<Record<Binding>>, t: Tables, skipped: set<string>, k: nat,
                            bound: map<string, string>)
    requires k <= |bindings|
  {
    && (forall i :: 0 <= i < k ==> BindingClosed(bindings[i].data, t, skipped))
    && DistinctlyBound(bindings[..k])
    && bound == BoundWork(bindings[..k])
  }

  lemma OneMoreBound(bindings: seq<Record<Binding>>, t: Tables, skipped: set<string>, k: nat,
                     bound: map<string, string>)
    requires k < |bindings| && BoundUpTo(bindings, t, skipped, k, bound)
    requires BindingClosed(bindings[k].data, t, skipped) && bindings[k].data.obligationId !in bound
    ensures BoundUpTo(bindings, t, skipped, k + 1, bound[bindings[k].data.obligationId := bindings[k].data.workItemId])
  {
    assert bindings[..k + 1][..k] == bindings[..k];
  }

  lemma AllBound(b: Bundle, t: Tables, bound: map<string, string>)
    requires BoundUpTo(b.bindings, t, SkippedIds(b.results), |b.bindings|, bound)
    ensures bound == BoundWork(b.bindings)
    ensures BindingsTotal(b, t) <==> bound.Keys == t.obligations.Keys - SkippedIds(b.results)
  {
    assert b.bindings[..|b.bindings|] == b.bindings;
  }

  lemma BadBinding(b: Bundle, t: Tables, k: nat, bound: map<string, string>)
    requires k < |b.bindings| && BoundUpTo(b.bindings, t, SkippedIds(b.results), k, bound)
    requires !BindingClosed(b.bindings[k].data, t, SkippedIds(b.results)) || b.bindings[k].data.obligationId in bound
    ensures !BindingsTotal(b, t)
  {
    if b.bindings[k].data.obligationId in bound {
      RepeatedBinding(b.bindings, k);
    }
  }

  /** One serving work item per obligation that was not skipped. */
  method CollectBindings(b: Bundle, t: Tables) returns (ok: bool, bound: map<string, string>)
    ensures ok <==> BindingsTotal(b, t)
    ensures ok ==> bound == BoundWork(b.bindings)
  {
    var skipped := SkippedIds(b.results);
    bound := map[];
    for k := 0 to |b.bindings|
      invariant BoundUpTo(b.bindings, t, skipped, k, bound)
    {
      var x := b.bindings[k].data;
      if !BindingClosed(x, t, skipped) || x.obligationId in bound {
        BadBinding(b, t, k, bound);
        return false, bound;
      }
      OneMoreBound(b.bindings, t, skipped, k, bound);
      bound := bound[x.obligationId := x.workItemId];
    }
    AllBound(b, t, bound);
    ok := bound.Keys == t.obligations.Keys - skipped;
  }

  /** The dictionary of attempts by work item that reading in order leaves behind. */
  function Grouped(read: seq<R.Attempt>): (byWork: map<string, seq<R.Attempt>>) {
    if read == [] then map[]
    else
      var a, init := read[|read| - 1], Grouped(read[..|read| - 1]);
      var w := a.data.workItemId;
      init[w := (if w in init then init[w] else []) + [a]]
  }

  lemma {:induction false} GroupedMeaning(read: seq<R.Attempt>, w: string)
    ensures var byWork := Grouped(read);
            if w in byWork then byWork[w] == AttemptsOf(read, w) && byWork[w] != [] else AttemptsOf(read, w) == []
  {
    if read != [] {
      GroupedMeaning(read[..|read| - 1], w);
    }
  }

  /** Attempts grouped by work item, in bundle order. */
  method GroupAttempts(b: Bundle, t: Tables) returns (ok: bool, byWork: map<string, seq<R.Attempt>>)
    ensures ok <==> AttemptsClosed(b, t)
    ensures ok ==> byWork == Grouped(b.attempts) && byWork.Keys == t.workItems.Keys
  {
    byWork := map[];
    for k := 0 to |b.attempts|
      invariant forall i :: 0 <= i < k ==> b.attempts[i].data.workItemId in t.workItems
      invariant byWork == Grouped(b.attempts[..k])
    {
      var a := b.attempts[k];
      var w := a.data.workItemId;
      if w !in t.workItems {
        return false, byWork;
      }
      assert b.attempts[..k + 1][..k] == b.attempts[..k];
      byWork := byWork[w := (if w in byWork then byWork[w] else []) + [a]];
    }
    assert b.attempts[..|b.attempts|] == b.attempts;
    ok := byWork.Keys == t.workItems.Keys;
    KeysAreWorkItems(b, t);
  }

  lemma KeysAreWorkItems(b: Bundle, t: Tables)
    requires forall i :: 0 <= i < |b.attempts| ==> b.attempts[i].data.workItemId in t.workItems
    ensures Grouped(b.attempts).Keys == t.workItems.Keys <==> AttemptsClosed(b, t)
  {
    var keys := Grouped(b.attempts).Keys;
    forall w
      ensures w in keys <==> AttemptsOf(b.attempts, w) != []
      ensures w in keys ==> w in t.workItems
    {
      GroupedMeaning(b.attempts, w);
      if w in keys {
        assert AttemptsOf(b.attempts, w)[0] in b.attempts;
      }
    }
  }

  /** The results read so far, one per attempt and timely, and the dictionary of them. */
  ghost predicate CompletedUpTo(results: seq<R.AttemptResult>, t: Tables, k: nat,
                                byAttempt: map<string, R.AttemptResult>)
    requires k <= |results|
  {
    && (forall i :: 0 <= i < k ==> Timely(results[i].data, t))
    && OneResultEach(results[..k])
    && byAttempt == ResultByAttempt(results[..k])
  }

  /** A result the dictionary may take. */
  predicate Completes(x: R.Completion, t: Tables, byAttempt: map<string, R.AttemptResult>) {
    Timely(x, t) && x.attemptId !in byAttempt
  }

  lemma OneMoreCompleted(results: seq<R.AttemptResult>, t: Tables, k: nat, byAttempt: map<string, R.AttemptResult>)
    requires k < |results| && CompletedUpTo(results, t, k, byAttempt) && Completes(results[k].data, t, byAttempt)
    ensures CompletedUpTo(results, t, k + 1, byAttempt[results[k].data.attemptId := results[k]])
  {
    assert results[..k + 1][..k] == results[..k];
  }

  lemma AllCompleted(b: Bundle, t: Tables, byAttempt: map<string, R.AttemptResult>)
    requires CompletedUpTo(b.attemptResults, t, |b.attemptResults|, byAttempt)
    ensures byAttempt == ResultByAttempt(b.attemptResults)
    ensures AttemptResultsTotal(b, t) <==> byAttempt.Keys == t.attempts.Keys
  {
    assert b.attemptResults[..|b.attemptResults|] == b.attemptResults;
  }

  lemma BadCompletion(b: Bundle, t: Tables, k: nat, byAttempt: map<string, R.AttemptResult>)
    requires k < |b.attemptResults| && CompletedUpTo(b.attemptResults, t, k, byAttempt)
    requires !Completes(b.attemptResults[k].data, t, byAttempt)
    ensures !AttemptResultsTotal(b, t)
  {
    if Timely(b.attemptResults[k].data, t) {
      RepeatedCompletion(b.attemptResults, k);
    }
  }

  /** One result per attempt, none before its dispatch. */
  method CollectCompletions(b: Bundle, t: Tables) returns (ok: bool, byAttempt: map<string, R.AttemptResult>)
    ensures ok <==> AttemptResultsTotal(b, t)
    ensures ok ==> byAttempt == ResultByAttempt(b.attemptResults)
  {
    byAttempt := map[];
    for k := 0 to |b.attemptResults|
      invariant CompletedUpTo(b.attemptResults, t, k, byAttempt)
    {
      var x := b.attemptResults[k];
      if !Completes(x.data, t, byAttempt) {
        BadCompletion(b, t, k, byAttempt);
        return false, byAttempt;
      }
      OneMoreCompleted(b.attemptResults, t, k, byAttempt);
      byAttempt := byAttempt[x.data.attemptId := x];
    }
    AllCompleted(b, t, byAttempt);
    ok := byAttempt.Keys == t.attempts.Keys;
  }

  /** `last` is where the attempts of its work item ended. */
  ghost predicate EndsAt(attempts: seq<R.Attempt>, last: R.Attempt) {
    last in attempts && last.data.number == |attempts|
  }

  /** The work items settled so far, each with the attempt it ended at. */
  ghost predicate Settled(b: Bundle, t: Tables, byAttempt: map<string, R.AttemptResult>,
                          terminal: map<string, R.Attempt>) {
    forall w :: w in terminal ==>
      && EndsAt(AttemptsOf(b.attempts, w), terminal[w])
      && w in t.workItems && t.workItems[w].data.policyId in t.policies
      && (forall a :: a in AttemptsOf(b.attempts, w) ==> a.id in byAttempt)
      && R.Disciplined(t.policies[t.workItems[w].data.policyId].data.retry, AttemptsOf(b.attempts, w), byAttempt)
  }

  /** Every work item has the attempt it ended at. */
  ghost predicate AllEnded(b: Bundle, t: Tables, terminal: map<string, R.Attempt>) {
    && terminal.Keys == t.workItems.Keys
    && (forall w :: w in terminal ==> EndsAt(AttemptsOf(b.attempts, w), terminal[w]))
  }

  lemma SettledAll(b: Bundle, t: Tables, byAttempt: map<string, R.AttemptResult>, terminal: map<string, R.Attempt>)
    requires byAttempt == ResultByAttempt(b.attemptResults)
    requires Settled(b, t, byAttempt, terminal) && terminal.Keys == t.workItems.Keys
    ensures RetriesDisciplined(b, t) && AllEnded(b, t, terminal)
  {
  }

  lemma Unsettled(b: Bundle, t: Tables, byAttempt: map<string, R.AttemptResult>, w: string)
    requires byAttempt == ResultByAttempt(b.attemptResults)
    requires w in t.workItems && t.workItems[w].data.policyId in t.policies
    requires forall a :: a in AttemptsOf(b.attempts, w) ==> a.id in byAttempt
    requires !R.Disciplined(t.policies[t.workItems[w].data.policyId].data.retry, AttemptsOf(b.attempts, w), byAttempt)
    ensures !RetriesDisciplined(b, t)
  {
  }

  /** What the retry checks find in place: grouped attempts, completed attempts, known policies. */
  ghost predicate RetryInputs(b: Bundle, t: Tables, byWork: map<string, seq<R.Attempt>>,
                              byAttempt: map<string, R.AttemptResult>) {
    && byAttempt == ResultByAttempt(b.attemptResults)
    && byWork == Grouped(b.attempts) && byWork.Keys == t.workItems.Keys
    && (forall w :: w in t.workItems ==> t.workItems[w].data.policyId in t.policies)
    && (forall a :: a in b.attempts ==> a.id in byAttempt)
  }

  /** The verdict on one work item. */
  method SettleOne(b: Bundle, t: Tables, w: string, byWork: map<string, seq<R.Attempt>>,
                   byAttempt: map<string, R.AttemptResult>, terminal: map<string, R.Attempt>)
    returns (verdict: R.Verdict)
    requires RetryInputs(b, t, byWork, byAttempt) && w in t.workItems
    requires Settled(b, t, byAttempt, terminal)
    ensures verdict.Terminal? ==> Settled(b, t, byAttempt, terminal[w := verdict.attempt])
    ensures verdict.Rejected? ==> !RetriesDisciplined(b, t)
  {
    GroupedMeaning(b.attempts, w);
    verdict := R.CheckAttempts(t.policies[t.workItems[w].data.policyId].data.retry, byWork[w], byAttempt);
    if verdict.Rejected? {
      Unsettled(b, t, byAttempt, w);
    } else {
      SettledMore(b, t, byAttempt, terminal, w, verdict.attempt);
    }
  }

  lemma SettledMore(b: Bundle, t: Tables, byAttempt: map<string, R.AttemptResult>, terminal: map<string, R.Attempt>,
                    w: string, last: R.Attempt)
    requires Settled(b, t, byAttempt, terminal)
    requires EndsAt(AttemptsOf(b.attempts, w), last) && w in t.workItems && t.workItems[w].data.policyId in t.policies
    requires forall a :: a in AttemptsOf(b.attempts, w) ==> a.id in byAttempt
    requires R.Disciplined(t.policies[t.workItems[w].data.policyId].data.retry, AttemptsOf(b.attempts, w), byAttempt)
    ensures Settled(b, t, byAttempt, terminal[w := last])
  {
  }

  /** The retry discipline of every work item; the terminal attempt of each is kept. */
  method CheckRetries(b: Bundle, t: Tables, byWork: map<string, seq<R.Attempt>>,
                      byAttempt: map<string, R.AttemptResult>)
    returns (ok: bool, terminal: map<string, R.Attempt>)
    requires RetryInputs(b, t, byWork, byAttempt)
    ensures ok <==> RetriesDisciplined(b, t)
    ensures ok ==> AllEnded(b, t, terminal)
  {
    terminal := map[];
    var rest := t.workItems.Keys;
    while rest != {}
      invariant terminal.Keys == t.workItems.Keys - rest
      invariant rest <= t.workItems.Keys
      invariant Settled(b, t, byAttempt, terminal)
      decreases rest
    {
      var w :| w in rest;
      var verdict := SettleOne(b, t, w, byWork, byAttempt, terminal);
      if verdict.Rejected? {
        return false, terminal;
      }
      terminal := terminal[w := verdict.attempt];
      rest := rest - {w};
    }
    SettledAll(b, t, byAttempt, terminal);
    return true, terminal;
  }

  lemma EndIs(b: Bundle, t: Tables, w: string, a: R.Attempt, a': R.Attempt)
    requires RetriesDisciplined(b, t) && w in t.workItems
    requires EndsAt(AttemptsOf(b.attempts, w), a) && EndsAt(AttemptsOf(b.attempts, w), a')
    ensures a == a'
  {
    DisciplinedAt(b, t, w);
    R.DisciplinedEnd(t.policies[t.workItems[w].data.policyId].data.retry, AttemptsOf(b.attempts, w),
                     ResultByAttempt(b.attemptResults), a, a');
  }

  predicate FinalAgrees(r: ObligationResult, t: Tables, bound: map<string, string>,
                        terminal: map<string, R.Attempt>, byAttempt: map<string, R.AttemptResult>) {
    r.finalAttemptId.Some? ==>
      && r.finalAttemptId.value in t.attempts
      && r.obligationId in bound && bound[r.obligationId] in terminal
      && t.attempts[r.finalAttemptId.value] == terminal[bound[r.obligationId]]
      && r.finalAttemptId.value in byAttempt
      && StateOf(byAttempt[r.finalAttemptId.value].data.outcome) == Some(r.state)
  }

  lemma FinalAgreement(b: Bundle, t: Tables, bound: map<string, string>, terminal: map<string, R.Attempt>,
                       r: Record<ObligationResult>)
    requires bound == BoundWork(b.bindings)
    requires RetriesDisciplined(b, t)
    requires AllEnded(b, t, terminal)
    requires forall o :: o in bound ==> bound[o] in t.workItems
    requires forall k :: k in t.attempts ==> t.attempts[k] in b.attempts
    requires r.data.finalAttemptId.Some?
    ensures FinalAgrees(r.data, t, bound, terminal, ResultByAttempt(b.attemptResults)) <==>
            var final := r.data.finalAttemptId.value;
            && final in t.attempts && final in ResultByAttempt(b.attemptResults)
            && r.data.obligationId in BoundWork(b.bindings)
            && t.attempts[final].data.workItemId == BoundWork(b.bindings)[r.data.obligationId]
            && t.attempts[final].data.number == |AttemptsOf(b.attempts, BoundWork(b.bindings)[r.data.obligationId])|
            && StateOf(ResultByAttempt(b.attemptResults)[final].data.outcome) == Some(r.data.state)
  {
    var final := r.data.finalAttemptId.value;
    if final in t.attempts && r.data.obligationId in bound {
      var a, w := t.attempts[final], bound[r.data.obligationId];
      if a.data.workItemId == w && a.data.number == |AttemptsOf(b.attempts, w)| {
        AttemptsOfAll(b.attempts, w, a);
        EndIs(b, t, w, a, terminal[w]);
      }
    }
  }

  /** Each result that names an attempt names the terminal one of its work item, with its outcome. */
  method CheckFinalAttempts(b: Bundle, t: Tables, bound: map<string, string>, terminal: map<string, R.Attempt>,
                            byAttempt: map<string, R.AttemptResult>) returns (ok: bool)
    requires bound == BoundWork(b.bindings)
    requires RetriesDisciplined(b, t) && byAttempt == ResultByAttempt(b.attemptResults)
    requires AllEnded(b, t, terminal)
    requires forall o :: o in bound ==> bound[o] in t.workItems
    requires forall k :: k in t.attempts ==> t.attempts[k] in b.attempts
    ensures ok <==> FinalAttemptsAgree(b, t)
  {
    ok := Every(b.results, (r: Record<ObligationResult>) => FinalAgrees(r.data, t, bound, terminal, byAttempt));
    forall r | r in b.results && r.data.finalAttemptId.Some? {
      FinalAgreement(b, t, bound, terminal, r);
    }
  }

  ghost predicate AttemptEvidence(b: Bundle, t: Tables) {
    && AttemptsClosed(b, t) && AttemptResultsTotal(b, t) && VintagesClosed(b, t)
    && RetriesDisciplined(b, t) && ResultVintagesClosed(b, t) && FinalAttemptsAgree(b, t)
  }

  /** What the second half of the validator needs from the indexes and the bindings. */
  ghost predicate Indexed(b: Bundle, t: Tables, bound: map<string, string>) {
    && (forall a :: a in b.attempts ==> a.id in t.attempts)
    && (forall k :: k in t.attempts ==> t.attempts[k] in b.attempts)
    && (forall w :: w in t.workItems ==> t.workItems[w].data.policyId in t.policies)
    && (forall o :: o in bound ==> bound[o] in t.workItems)
  }

  lemma IndexesHold(b: Bundle, t: Tables, bound: map<string, string>)
    requires t == TablesOf(b)
    requires WorkItemsClosed(b, t) && BindingsTotal(b, t) && bound == BoundWork(b.bindings)
    ensures Indexed(b, t, bound)
  {
    forall a | a in b.attempts
      ensures a.id in t.attempts
    {
      var i :| 0 <= i < |b.attempts| && b.attempts[i] == a;
      TableHasAll(b.attempts, i);
    }
    forall o | o in bound
      ensures bound[o] in t.workItems
    {
      var x := BoundBy(b.bindings, o);
      assert BindingClosed(x.data, t, SkippedIds(b.results));
    }
  }

  lemma RetryInputsHold(b: Bundle, t: Tables, bound: map<string, string>, byWork: map<string, seq<R.Attempt>>,
                        byAttempt: map<string, R.AttemptResult>)
    requires Indexed(b, t, bound) && AttemptResultsTotal(b, t)
    requires byWork == Grouped(b.attempts) && byWork.Keys == t.workItems.Keys
    requires byAttempt == ResultByAttempt(b.attemptResults)
    ensures RetryInputs(b, t, byWork, byAttempt)
  {
  }

  /** What the attempts come to: their discipline, what they produced, and the results that name them. */
  method CheckOutcomes(b: Bundle, t: Tables, bound: map<string, string>, byWork: map<string, seq<R.Attempt>>,
                       byAttempt: map<string, R.AttemptResult>) returns (ok: bool)
    requires RetryInputs(b, t, byWork, byAttempt) && bound == BoundWork(b.bindings)
    requires forall o :: o in bound ==> bound[o] in t.workItems
    requires forall k :: k in t.attempts ==> t.attempts[k] in b.attempts
    ensures ok <==> RetriesDisciplined(b, t) && ResultVintagesClosed(b, t) && FinalAttemptsAgree(b, t)
  {
    var disciplined, terminal := CheckRetries(b, t, byWork, byAttempt);
    if !disciplined {
      return false;
    }
    var produced := Every(b.attemptResults, (x: R.AttemptResult) => ResultVintageClosed(x.data, t));
    if !produced {
      return false;
    }
    ok := CheckFinalAttempts(b, t, bound, terminal, byAttempt);
  }

  /** The second half of the validator: attempts, their results and what they produced. */
  method CheckAttemptEvidence(b: Bundle, t: Tables, bound: map<string, string>)
    returns (ok: bool, byAttempt: map<string, R.AttemptResult>)
    requires Indexed(b, t, bound) && bound == BoundWork(b.bindings)
    ensures ok <==> AttemptEvidence(b, t)
    ensures ok ==> byAttempt == ResultByAttempt(b.attemptResults)
  {
    byAttempt := map[];
    var grouped, byWork := GroupAttempts(b, t);
    if !grouped {
      return false, byAttempt;
    }
    var complete;
    complete, byAttempt := CollectCompletions(b, t);
    if !complete {
      return false, byAttempt;
    }
    var known := Every(b.vintages, (v: Record<SourceVintage>) => VintageClosed(v.data, t));
    if !known {
      return false, byAttempt;
    }
    RetryInputsHold(b, t, bound, byWork, byAttempt);
    ok := CheckOutcomes(b, t, bound, byWork, byAttempt);
  }

  // ---------------------------------------------------------------- provenance

  /** The records of one kind, entered among the required nodes. */
  method Require<T>(before: map<string, P.NodeKind>, records: seq<Record<T>>, kind: P.NodeKind)
    returns (required: map<string, P.NodeKind>)
    ensures required == Enter(before, records, kind)
  {
    required := before;
    for k := 0 to |records|
      invariant required == Enter(before, records[..k], kind)
    {
      assert records[..k + 1][..k] == records[..k];
      required := required[records[k].id := kind];
    }
    assert records[..|records|] == records;
  }

  method CollectRequired(b: Bundle) returns (required: map<string, P.NodeKind>)
    ensures required == RequiredNodes(b)
  {
    required := Require(map[], b.campaigns, P.NodeKind.Campaign);
    required := Require(required, b.runs, P.NodeKind.Run);
    required := Require(required, b.obligations, P.NodeKind.ListObligation);
    required := Require(required, b.requests, P.NodeKind.SourceRequest);
    required := Require(required, b.workItems, P.NodeKind.WorkItem);
    required := Require(required, b.attempts, P.NodeKind.FetchAttempt);
    required := Require(required, b.attemptResults, P.NodeKind.FetchAttemptResult);
    required := Require(required, b.rawObjects, P.NodeKind.RawObject);
    required := Require(required, b.vintages, P.NodeKind.SourceVintage);
    required := Require(required, b.observations, P.NodeKind.NormalizedObservation);
    required := Require(required, b.assessments, P.NodeKind.ConfidenceAssessment);
  }

  method CollectKinds(nodes: seq<P.Node>) returns (actual: map<string, P.NodeKind>)
    ensures actual == KindsOf(nodes)
  {
    actual := map[];
    for k := 0 to |nodes|
      invariant actual == KindsOf(nodes[..k])
    {
      assert nodes[..k + 1][..k] == nodes[..k];
      actual := actual[nodes[k].nodeId := nodes[k].kind];
    }
    assert nodes[..|nodes|] == nodes;
  }

  method CollectEntered(edges: seq<P.Edge>) returns (entered: set<string>)
    ensures entered == Entered(edges)
  {
    entered := {};
    for k := 0 to |edges|
      invariant entered == Entered(edges[..k])
    {
      assert edges[..k + 1] == edges[..k] + [edges[k]];
      entered := entered + {edges[k].toId};
    }
    assert edges[..|edges|] == edges;
  }

  /** Nodes missing, nodes of another kind, nodes that no edge enters: there may be none of each. */
  method CheckNodes(g: P.Graph, required: map<string, P.NodeKind>) returns (ok: bool)
    ensures ok <==> NodesLinked(g, required)
  {
    var actual := CollectKinds(g.nodes);
    var missing := required.Keys - actual.Keys;
    if missing != {} {
      var id :| id in missing;
      assert !NodeLinked(id, required[id], g);
      return false;
    }
    var mismatched := set id | id in required && id in actual && actual[id] != required[id];
    if mismatched != {} {
      var id :| id in mismatched;
      assert !NodeLinked(id, required[id], g);
      return false;
    }
    var entered := CollectEntered(g.edges);
    var nonRoots := set id | id in required && required[id] != P.NodeKind.Campaign;
    var disconnected := nonRoots - entered;
    if disconnected != {} {
      var id :| id in disconnected;
      assert !NodeLinked(id, required[id], g);
      return false;
    }
    forall id | id in required
      ensures NodeLinked(id, required[id], g)
    {
      assert id !in missing && id !in mismatched && id !in disconnected;
    }
    return true;
  }

  /** Each bound obligation has the edge to its work item. */
  method CheckBound(bound: map<string, string>, edges: Triples) returns (ok: bool)
    ensures ok <==> forall o :: o in bound ==> (o, P.EdgeKind.SatisfiedBy, bound[o]) in edges
  {
    var rest := bound.Keys;
    while rest != {}
      invariant rest <= bound.Keys
      invariant forall o :: o in bound && o !in rest ==> (o, P.EdgeKind.SatisfiedBy, bound[o]) in edges
      decreases rest
    {
      var o :| o in rest;
      if (o, P.EdgeKind.SatisfiedBy, bound[o]) !in edges {
        return false;
      }
      rest := rest - {o};
    }
    return true;
  }

  lemma BoundEdges(b: Bundle, edges: Triples)
    requires DistinctlyBound(b.bindings)
    ensures (forall o :: o in BoundWork(b.bindings) ==> (o, P.EdgeKind.SatisfiedBy, BoundWork(b.bindings)[o]) in edges)
            <==> forall x :: x in b.bindings ==> BindingEdge(x.data, edges)
  {
    var bound := BoundWork(b.bindings);
    forall x | x in b.bindings
      ensures x.data.obligationId in bound && bound[x.data.obligationId] == x.data.workItemId
    {
      HasBindingOf(b.bindings, x);
      var y := BoundBy(b.bindings, x.data.obligationId);
      DistinctlyBoundMeaning(b.bindings);
    }
    forall o | o in bound
      ensures exists x :: x in b.bindings && x.data == Binding(o, bound[o])
    {
      var x := BoundBy(b.bindings, o);
    }
  }

  /** An attempt and its result, linked. */
  predicate AttemptLinked(a: R.Attempt, byAttempt: map<string, R.AttemptResult>, edges: Triples) {
    && AttemptEdge(a, edges)
    && a.id in byAttempt && CompletionEdges(byAttempt[a.id], edges)
  }

  lemma AttemptsLinked(b: Bundle, t: Tables, edges: Triples)
    requires AttemptResultsTotal(b, t)
    requires forall a :: a in b.attempts ==> a.id in t.attempts
    requires forall k :: k in t.attempts ==> t.attempts[k] in b.attempts && t.attempts[k].id == k
    ensures (forall a :: a in b.attempts ==> AttemptLinked(a, ResultByAttempt(b.attemptResults), edges))
            <==> AttemptEdges(b, edges)
  {
    var byAttempt := ResultByAttempt(b.attemptResults);
    forall x | x in b.attemptResults
      ensures x.data.attemptId in t.attempts && byAttempt[x.data.attemptId] == x
    {
      OnlyResult(b.attemptResults, x);
      assert Timely(x.data, t);
    }
    forall a | a in b.attempts
      ensures a.id in byAttempt && byAttempt[a.id] in b.attemptResults
    {
    }
    if forall a :: a in b.attempts ==> AttemptLinked(a, byAttempt, edges) {
      forall x | x in b.attemptResults
        ensures CompletionEdges(x, edges)
      {
        assert AttemptLinked(t.attempts[x.data.attemptId], byAttempt, edges);
      }
    }
  }

  /** The edges that the records force, kind by kind. */
  method CheckEdges(b: Bundle, t: Tables, bound: map<string, string>, byAttempt: map<string, R.AttemptResult>)
    returns (ok: bool)
    requires bound == BoundWork(b.bindings) && DistinctlyBound(b.bindings)
    requires byAttempt == ResultByAttempt(b.attemptResults) && AttemptResultsTotal(b, t)
    requires forall a :: a in b.attempts ==> a.id in t.attempts
    requires forall k :: k in t.attempts ==> t.attempts[k] in b.attempts && t.attempts[k].id == k
    ensures ok <==> RecordEdges(b, TriplesOf(b.provenance)) && AttemptEdges(b, TriplesOf(b.provenance))
  {
    var edges := TriplesOf(b.provenance);
    BoundEdges(b, edges);
    AttemptsLinked(b, t, edges);
    var runs := Every(b.runs, (x: Record<CaptureRun>) => RunEdge(x, edges));
    if !runs {
      return false;
    }
    var obligations := Every(b.obligations, (x: Record<ListObligation>) => ObligationEdge(x, edges));
    if !obligations {
      return false;
    }
    var satisfied := CheckBound(bound, edges);
    if !satisfied {
      return false;
    }
    var dispatched := Every(b.workItems, (x: Record<WorkItem>) => WorkItemEdges(x, edges));
    if !dispatched {
      return false;
    }
    var attempted := Every(b.attempts, (a: R.Attempt) => AttemptLinked(a, byAttempt, edges));
    if !attempted {
      return false;
    }
    var archived := Every(b.vintages, (x: Record<SourceVintage>) => VintageEdge(x, edges));
    if !archived {
      return false;
    }
    ok := Every(b.observations, (x: Record<Observation>) => ObservationEdge(x, edges));
  }

  /** The reference checks ahead of the dictionaries. */
  method CheckReferences(b: Bundle, t: Tables) returns (ok: bool)
    ensures ok <==> RunsClosed(b, t) && ObligationsClosed(b, t) && WorkItemsClosed(b, t)
  {
    ok := Every(b.runs, (x: Record<CaptureRun>) => RunClosed(x.data, t));
    if ok {
      ok := Every(b.obligations, (x: Record<ListObligation>) => ObligationClosed(x.data, t));
    }
    if ok {
      ok := Every(b.workItems, (x: Record<WorkItem>) => WorkItemClosed(x.data, t));
    }
  }

  /** Observations and assessments. */
  method CheckReadings(b: Bundle, t: Tables) returns (ok: bool)
    ensures ok <==> ObservationsClosed(b, t) && AssessmentsClosed(b, t)
  {
    ok := Every(b.observations, (x: Record<Observation>) => ObservationClosed(x.data, t));
    if ok {
      ok := Every(b.assessments, (x: Record<Assessment>) => AssessmentClosed(x.data, t));
    }
  }

  /** Nodes first, then edges. */
  method CheckProvenance(b: Bundle, t: Tables, bound: map<string, string>, byAttempt: map<string, R.AttemptResult>)
    returns (ok: bool)
    requires bound == BoundWork(b.bindings) && DistinctlyBound(b.bindings)
    requires byAttempt == ResultByAttempt(b.attemptResults) && AttemptResultsTotal(b, t)
    requires forall a :: a in b.attempts ==> a.id in t.attempts
    requires forall k :: k in t.attempts ==> t.attempts[k] in b.attempts && t.attempts[k].id == k
    ensures ok <==> && NodesLinked(b.provenance, RequiredNodes(b))
                    && RecordEdges(b, TriplesOf(b.provenance)) && AttemptEdges(b, TriplesOf(b.provenance))
  {
    var required := CollectRequired(b);
    ok := CheckNodes(b.provenance, required);
    if ok {
      ok := CheckEdges(b, t, bound, byAttempt);
    }
  }

  /** The validator accepts exactly the closed bundles. */
  method ValidateClosedBundle(b: Bundle) returns (ok: bool)
    ensures ok <==> Closed(b)
  {
    var indexed := IndexAll(b);
    if indexed.None? {
      return false;
    }
    var t := indexed.value;
    var referred := CheckReferences(b, t);
    if !referred {
      return false;
    }
    var total := CollectResults(b, t);
    if !total {
      return false;
    }
    var served, bound := CollectBindings(b, t);
    if !served {
      return false;
    }
    IndexesHold(b, t, bound);
    var attempted, byAttempt := CheckAttemptEvidence(b, t, bound);
    if !attempted {
      return false;
    }
    var read := CheckReadings(b, t);
    if !read {
      return false;
    }
    ok := CheckProvenance(b, t, bound, byAttempt);
  }
}
