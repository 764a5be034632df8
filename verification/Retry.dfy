/** The retry discipline of one work item: a step machine over dispatches, and the validator's check
    that a bag of attempts is one of its complete runs. */
module Retry {
  import opened Identity
  import opened Options
  import opened Ordering

  type Instant = int

  datatype Outcome =
    | RateLimited | TransportError | ServerError | Interrupted
    | Success | Unchanged | Unavailable | Failed

  datatype Policy = Policy(maxAttempts: nat, retryable: seq<Outcome>, terminal: seq<Outcome>)
  {
    /** The policy's own validator. The two lists need not cover every outcome. */
    ghost predicate Valid() {
      && 1 <= maxAttempts <= 20
      && retryable != [] && Distinct(retryable)
      && terminal != [] && Distinct(terminal)
      && (forall o :: o in retryable ==> o !in terminal)
      && Outcome.Success in terminal && Unchanged in terminal && Unavailable in terminal && Failed in terminal
    }
  }

  datatype Dispatch = Dispatch(workItemId: string, number: nat, startedAt: Instant)

  datatype Completion = Completion(
    attemptId: string, completedAt: Instant, outcome: Outcome,
    vintageId: Option<string>, reusedVintageId: Option<string>)
  {
    /** A success creates one vintage, an unchanged answer reuses one, anything else names none. */
    predicate Valid() {
      match outcome
      case Success => vintageId.Some? && reusedVintageId.None?
      case Unchanged => vintageId.None? && reusedVintageId.Some?
      case _ => vintageId.None? && reusedVintageId.None?
    }
  }

  type Attempt = Record<Dispatch>

  type AttemptResult = Record<Completion>

  // ---------------------------------------------------------------- the step machine

  /** Between dispatches the machine waits to issue attempt `next`; a terminal outcome finishes it. */
  datatype State = Ready(next: nat) | Finished(attempts: nat)

  /** One dispatch and its outcome; `None` when the discipline forbids it. */
  function Step(policy: Policy, s: State, number: nat, outcome: Outcome): Option<State> {
    match s
    case Finished(_) => None
    case Ready(next) =>
      if number != next || next > policy.maxAttempts then None
      else if outcome in policy.terminal then Some(Finished(next))
      else if outcome in policy.retryable then Some(Ready(next + 1))
      else None
  }

  type Outcomes = map<string, AttemptResult>

  /** The state after a sequence of dispatches, if all of them are allowed. */
  function Run(policy: Policy, s: State, trace: seq<Attempt>, results: Outcomes): Option<State>
    requires forall a :: a in trace ==> a.id in results
    decreases |trace|
  {
    if trace == [] then Some(s)
    else
      match Step(policy, s, trace[0].data.number, results[trace[0].id].data.outcome)
      case None => None
      case Some(s') => Run(policy, s', trace[1..], results)
  }

  predicate CompleteRun(policy: Policy, trace: seq<Attempt>, results: Outcomes)
    requires forall a :: a in trace ==> a.id in results
  {
    Run(policy, Ready(1), trace, results) == Some(Finished(|trace|))
  }

  /** The attempts, in some order, are a complete run of the machine. */
  ghost predicate Disciplined(policy: Policy, attempts: seq<Attempt>, results: Outcomes)
    requires forall a :: a in attempts ==> a.id in results
  {
    exists trace: seq<Attempt> ::
      multiset(trace) == multiset(attempts)
      && (forall a :: a in trace ==> a.id in results)
      && CompleteRun(policy, trace, results)
  }

  // ---------------------------------------------------------------- the validator's checks

  predicate ByNumber(a: Attempt, b: Attempt) {
    a.data.number < b.data.number
  }

  /** What the loop over the sorted attempts establishes. */
  ghost predicate Contiguous(trace: seq<Attempt>) {
    forall i :: 0 <= i < |trace| ==> trace[i].data.number == i + 1
  }

  ghost predicate LastOnlyTerminal(policy: Policy, trace: seq<Attempt>, results: Outcomes)
    requires forall a :: a in trace ==> a.id in results
  {
    forall i :: 0 <= i < |trace| ==>
      var outcome := results[trace[i].id].data.outcome;
      if i == |trace| - 1 then outcome in policy.terminal
      else outcome !in policy.terminal && outcome in policy.retryable
  }

  /** The first dispatch peeled off a sequence in which only the last outcome is terminal. */
  lemma LastOnlyTerminalStep(policy: Policy, trace: seq<Attempt>, results: Outcomes)
    requires forall a :: a in trace ==> a.id in results
    requires |trace| >= 2
    ensures var outcome := results[trace[0].id].data.outcome;
            LastOnlyTerminal(policy, trace, results) <==>
            outcome !in policy.terminal && outcome in policy.retryable && LastOnlyTerminal(policy, trace[1..], results)
  {
    var rest := trace[1..];
    assert forall i :: 0 <= i < |rest| ==> rest[i] == trace[i + 1];
    assert forall i :: 0 < i < |trace| ==> trace[i] == rest[i - 1];
  }

  /** The machine written out: from attempt `next` on, a run completes exactly when numbers count up
      within the budget, all outcomes but the last are retryable and the last is terminal. */
  lemma {:induction false} RunShape(policy: Policy, next: nat, trace: seq<Attempt>, results: Outcomes)
    requires forall a :: a in trace ==> a.id in results
    requires next >= 1
    ensures Run(policy, Ready(next), trace, results) == Some(Finished(next + |trace| - 1)) <==>
            && trace != []
            && (forall i :: 0 <= i < |trace| ==> trace[i].data.number == next + i)
            && next + |trace| - 1 <= policy.maxAttempts
            && LastOnlyTerminal(policy, trace, results)
    decreases |trace|
  {
    if trace == [] {
    } else if |trace| == 1 {
      var after := Step(policy, Ready(next), trace[0].data.number, results[trace[0].id].data.outcome);
      assert after.Some? ==> Run(policy, after.value, trace[1..], results) == after;
    } else {
      var rest := trace[1..];
      LastOnlyTerminalStep(policy, trace, results);
      if results[trace[0].id].data.outcome in policy.terminal {
        assert Step(policy, Finished(next), rest[0].data.number, results[rest[0].id].data.outcome) == None;
      } else {
        RunShape(policy, next + 1, rest, results);
        assert (forall i :: 0 <= i < |trace| ==> trace[i].data.number == next + i) <==>
               trace[0].data.number == next
               && (forall i :: 0 <= i < |rest| ==> rest[i].data.number == next + 1 + i) by {
          assert forall i :: 0 < i < |trace| ==> trace[i] == rest[i - 1];
        }
      }
    }
  }

  function SortedByNumber(attempts: seq<Attempt>): (r: seq<Attempt>)
    ensures multiset(r) == multiset(attempts) && Sorted(ByNumber, r)
    ensures forall i :: 0 <= i < |r| ==> r[i] in attempts
  {
    var r := Sort(ByNumber, attempts);
    MultisetMembers(attempts, r);
    assert forall i :: 0 <= i < |r| ==> r[i] in r;
    r
  }

  lemma GreatestLast(sorted: seq<Attempt>, counting: seq<Attempt>)
    requires sorted != [] && |sorted| == |counting|
    requires forall a :: a in sorted <==> a in counting
    requires Sorted(ByNumber, sorted) && Contiguous(counting)
    ensures sorted[|sorted| - 1] == counting[|counting| - 1]
  {
    var last := |sorted| - 1;
    assert counting[last] in sorted;
    var i :| 0 <= i < |sorted| && sorted[i] == counting[last];
    assert i == last || !ByNumber(sorted[last], sorted[i]);
    assert sorted[last] in counting;
  }

  /** A sequence sorted by number whose bag can count 1, 2, 3, ... does count so. */
  lemma {:induction false} SortedCounts(sorted: seq<Attempt>, counting: seq<Attempt>)
    requires multiset(sorted) == multiset(counting)
    requires Sorted(ByNumber, sorted) && Contiguous(counting)
    ensures sorted == counting
  {
    MultisetMembers(sorted, counting);
    if sorted != [] {
      var last := |sorted| - 1;
      GreatestLast(sorted, counting);
      DropLast(sorted, counting);
      SortedCounts(sorted[..last], counting[..last]);
      assert sorted == sorted[..last] + [sorted[last]] && counting == counting[..last] + [counting[last]];
    }
  }

  /** Unordered attempts are disciplined exactly when their arrangement by number is a complete run. */
  lemma DisciplinedWhenSorted(policy: Policy, attempts: seq<Attempt>, results: Outcomes)
    requires forall a :: a in attempts ==> a.id in results
    ensures Disciplined(policy, attempts, results) <==>
            CompleteRun(policy, SortedByNumber(attempts), results)
  {
    if Disciplined(policy, attempts, results) {
      var trace: seq<Attempt> :|
        multiset(trace) == multiset(attempts)
        && (forall a :: a in trace ==> a.id in results)
        && CompleteRun(policy, trace, results);
      RunIsSorted(policy, trace, attempts, results);
    }
  }

  lemma RunIsSorted(policy: Policy, trace: seq<Attempt>, attempts: seq<Attempt>, results: Outcomes)
    requires multiset(trace) == multiset(attempts) && forall a :: a in trace ==> a.id in results
    requires CompleteRun(policy, trace, results)
    ensures SortedByNumber(attempts) == trace
  {
    RunShape(policy, 1, trace, results);
    assert Contiguous(trace);
    SortedCounts(SortedByNumber(attempts), trace);
  }

  /** Numbers 1..k within the budget, every outcome but the last retryable and the last terminal. */
  ghost predicate InOrder(policy: Policy, trace: seq<Attempt>, results: Outcomes)
    requires forall a :: a in trace ==> a.id in results
  {
    trace != [] && Contiguous(trace) && |trace| <= policy.maxAttempts && LastOnlyTerminal(policy, trace, results)
  }

  /** What a disciplined bag of attempts looks like once sorted. */
  lemma DisciplineMeaning(policy: Policy, attempts: seq<Attempt>, results: Outcomes)
    requires forall a :: a in attempts ==> a.id in results
    ensures Disciplined(policy, attempts, results) <==> InOrder(policy, SortedByNumber(attempts), results)
  {
    DisciplinedWhenSorted(policy, attempts, results);
    RunShape(policy, 1, SortedByNumber(attempts), results);
  }

  /** The attempt numbered last is unique. */
  lemma DisciplinedEnd(policy: Policy, attempts: seq<Attempt>, results: Outcomes, a: Attempt, a': Attempt)
    requires forall x :: x in attempts ==> x.id in results
    requires Disciplined(policy, attempts, results)
    requires a in attempts && a' in attempts && a.data.number == a'.data.number
    ensures a == a'
  {
    DisciplineMeaning(policy, attempts, results);
    NumbersTell(SortedByNumber(attempts), attempts, a, a');
  }

  lemma NumbersTell(counting: seq<Attempt>, attempts: seq<Attempt>, a: Attempt, a': Attempt)
    requires multiset(counting) == multiset(attempts) && Contiguous(counting)
    requires a in attempts && a' in attempts && a.data.number == a'.data.number
    ensures a == a'
  {
    MultisetMembers(counting, attempts);
    assert a in counting && a' in counting;
  }

  datatype Failure = NotContiguous | OverBudget | AfterTerminal | NotRetryable | Unfinished

  datatype Verdict = Terminal(attempt: Attempt) | Rejected(failure: Failure)

  /** The validator's pass over the sorted attempts of one work item. */
  method CheckOrdered(policy: Policy, ordered: seq<Attempt>, results: Outcomes) returns (v: Verdict)
    requires ordered != [] && forall a :: a in ordered ==> a.id in results
    ensures v.Terminal? <==> InOrder(policy, ordered, results)
    ensures v.Terminal? ==> v.attempt == ordered[|ordered| - 1]
    ensures v == Rejected(OverBudget) <==> Contiguous(ordered) && |ordered| > policy.maxAttempts
  {
    if exists i :: 0 <= i < |ordered| && ordered[i].data.number != i + 1 {
      return Rejected(NotContiguous);
    }
    if |ordered| > policy.maxAttempts {
      return Rejected(OverBudget);
    }
    for index := 0 to |ordered|
      invariant forall i :: 0 <= i < index ==>
        var outcome := results[ordered[i].id].data.outcome;
        (outcome in policy.terminal ==> i == |ordered| - 1)
        && (outcome !in policy.terminal ==> outcome in policy.retryable)
    {
      var outcome := results[ordered[index].id].data.outcome;
      var isTerminal := outcome in policy.terminal;
      if isTerminal && index != |ordered| - 1 {
        return Rejected(AfterTerminal);
      }
      if !isTerminal && outcome !in policy.retryable {
        return Rejected(NotRetryable);
      }
    }
    var final := ordered[|ordered| - 1];
    if results[final.id].data.outcome !in policy.terminal {
      return Rejected(Unfinished);
    }
    return Terminal(final);
  }

  /** The validator's verdict on the unordered attempts of one work item. */
  method CheckAttempts(policy: Policy, attempts: seq<Attempt>, results: Outcomes) returns (v: Verdict)
    requires attempts != [] && forall a :: a in attempts ==> a.id in results
    ensures v.Terminal? <==> Disciplined(policy, attempts, results)
    ensures v.Terminal? ==> v.attempt in attempts && v.attempt.data.number == |attempts|
  {
    DisciplineMeaning(policy, attempts, results);
    MultisetMembers(attempts, SortedByNumber(attempts));
    v := CheckOrdered(policy, SortedByNumber(attempts), results);
  }
}
