# A verified model of the truealpha contracts

truealpha claims that every output traces back to raw bytes, that research scope never shrinks
silently, and that content ids, page cursors, download tickets and point-in-time reads can be relied
on. These files model the code those claims rest on and prove them. `dafny verify dfyconfig.toml`
checks everything.

| files | what they model |
|---|---|
| `Provenance`, `Retry`, `Identity`, `Evidence`, `EvidenceValidator`, `EvidenceReference`, `EvidenceClaims`, `EvidenceSample` | the DataHub evidence chain: graph validator and traces, retry discipline, the closed bundle, its rules on record fields alone, what acceptance guarantees, and a bundle that is accepted |
| `Catalog`, `CatalogReference`, `CatalogSample` | the Research Catalog, the relation between successive revisions, that relation on record fields alone, and a chain of them that is accepted |
| `CanonicalJson`, `CanonicalReader`, `CanonicalAscii`, `ContentIdentity` | the canonical printer, a reader of its texts, and the ids computed over them |
| `DecimalText`, `DecimalReference`, `Digits` | decimal comparison and the yield percent, on digit strings, and the tokens by how they are put together |
| `CivilDate`, `FiscalPeriod`, `FiscalReference`, `MarketCalendar` | fiscal-period tags, the tags by how they are put together, and the session calendar |
| `Keyset`, `Documents`, `Pagination` | the document store as a machine of atomic statements |
| `Vintages`, `StrategyInputs` | point-in-time reads of the strategy gateway |
| `Ordering`, `Options` | shared: orders, sorting and optional values |

How the source appears here:

- Loops and methods that change state are methods with invariants, proved against functions and
  predicates; what the source promises is proved about those. Expressions are functions.
- A raised exception or a returned error is a value (`Raised`, `Err`, `Violation`, `LookAhead`, ...).
- SHA-256 is a parameter. Lemmas that need it ask that it be injective, nothing else.
- Each SQL statement is one atomic step; the clock and fresh ids are parameters of the step. A run is
  any sequence of committed statements, so it covers every interleaving of callers, and the clock may
  even step back.
- Instants are integers, dates are day numbers where only their order matters.

## Where the code departs from its documentation

The model follows the code. For each point the lemma named says exactly when the promise holds.

- `compareDecimalStrings` is documented as an exact comparison of tokens. It orders `-0` below `0`;
  this is the only exception (`DecimalText.CompareExact`, `DecimalText.MinusZeroIsBelowZero`), and it
  is why the bounds `[0, 1]` refuse `-0` and `-0.0`.
- `copyWithout` builds its copy by property assignment, so a member named `__proto__` is lost. A content
  id binds everything but that member (`ContentIdentity.IdBindsAllButProto`, `ContentIdentity.ProtoIsNotBound`).
- `count_market_sessions_between` raises instead of counting when the interval is not empty and ends on
  the last day the calendar has (`MarketCalendar.CountSessions`).
- `encode_annual` raises for every date of year 1, and with a filing label outside 1000..9999 it writes a
  tag that `parse_annual` does not accept (`FiscalPeriod.ParseUndoesEncode`).
- `parse_annual` accepts tags that `encode_annual` never writes: with one trailing line feed
  (`FiscalPeriod.LineFeedGoesUnnoticed`), with a label in other digits than ASCII or below 1000, or with a
  start other than the one the end implies. `FiscalPeriod.EncodeUndoesParse` says exactly which tags come back.
- `parse_annual` is documented to return nothing for a tag it cannot parse. It raises for one that matches the
  pattern while its start or end is no date, such as 30 February (`FiscalPeriod.ParseRaisesExactlyWhen`).
- `issuer_inputs_from_rows` depends on the order of its rows when a key has both a row without a period
  and rows with one and these disagree (`StrategyInputs.OrderIsIrrelevantExactlyWhen`,
  `StrategyInputs.MixedRowsDependOnOrder`). On rows in the order of the query the row without a period
  answers, not the latest period (`StrategyInputs.ScalarAnswersFirst`).

## Model

| member | source | states |
|---|---|---|
| Provenance.CountDegrees | common/contracts/src/truealpha_contracts/datahub.py:793-798 | the two dictionaries hold the successor sets and in-degrees of the graph with parallel edges collapsed |
| Provenance.Decrement | common/contracts/src/truealpha_contracts/datahub.py:804-807 | every target loses exactly one predecessor, and the queue stays the duplicate-free list of unvisited nodes of in-degree zero |
| Provenance.VisitNext | common/contracts/src/truealpha_contracts/datahub.py:801-807 | one turn of the loop visits the head of the queue and keeps the visiting order topological, the in-degrees exact and the queue the frontier |
| Provenance.VisitAll | common/contracts/src/truealpha_contracts/datahub.py:793-809 | Kahn's loop ends and visits every node if and only if no node reaches itself |
| Provenance.VisitStep | common/contracts/src/truealpha_contracts/datahub.py:801-807 | the head of the queue is an unvisited node all of whose predecessors are visited, and none of its successors is visited or queued |
| Provenance.VisitOutcome | common/contracts/src/truealpha_contracts/datahub.py:808-809 | an empty queue means a complete topological order when the graph has no cycle and an incomplete one when it has |
| Provenance.BackwardWalk | common/contracts/src/truealpha_contracts/datahub.py:808-809 | when each unvisited node has an unvisited predecessor there is a cycle |
| Provenance.TopologicalAcyclic | common/contracts/src/truealpha_contracts/datahub.py:801-809 | a topological order of all nodes excludes cycles |
| Provenance.RootBehind | common/contracts/src/truealpha_contracts/datahub.py:801-809 | in a graph without cycles every node has behind it, or is, a node without predecessors |
| Provenance.Check | common/contracts/src/truealpha_contracts/datahub.py:784-809 | the checks pass exactly for graphs with nodes, unique ids, closed edges and no cycle; the cycle error is raised exactly when only acyclicity fails |
| Provenance.ValidateClosedGraph | common/contracts/src/truealpha_contracts/datahub.py:782-812 | accepts exactly the well-formed graphs and stores a permutation of nodes and edges, still well-formed, in which the ids ascend as texts |
| Provenance.SameUpToOrder | common/contracts/src/truealpha_contracts/datahub.py:784-812 | acceptance and the arcs do not depend on the order of the tuples |
| Provenance.Adjacency | common/contracts/src/truealpha_contracts/datahub.py:824-827 | the adjacency dictionary is the successor function of the arcs, or of the arcs turned round |
| Provenance.Expand | common/contracts/src/truealpha_contracts/datahub.py:832-835 | exactly the targets not yet reached are marked and appended to the queue |
| Provenance.Search | common/contracts/src/truealpha_contracts/datahub.py:828-835 | the breadth-first loop ends with exactly the nodes reachable by a non-empty path |
| Provenance.Reachable | common/contracts/src/truealpha_contracts/datahub.py:820-836 | a trace raises exactly for a missing start node; otherwise it is the ascending list of exactly the nodes reachable by a non-empty path |
| Provenance.ForwardIffReverse | common/contracts/src/truealpha_contracts/datahub.py:814-827 | b is in the forward trace of a if and only if a is in the reverse trace of b |
| Provenance.TracesAreAntisymmetric | common/contracts/src/truealpha_contracts/datahub.py:808-836 | on an accepted graph no trace holds its own start, and no two nodes trace to each other |
| Retry.RunShape | common/contracts/src/truealpha_contracts/datahub.py:1099-1112 | the step machine of dispatches completes exactly when numbers count up within the budget, earlier outcomes are retryable and the last is terminal |
| Retry.SortedCounts | common/contracts/src/truealpha_contracts/datahub.py:1098-1100 | sorting by number recovers the one order that counts 1, 2, 3, ... |
| Retry.DisciplinedWhenSorted | common/contracts/src/truealpha_contracts/datahub.py:1098-1112 | unordered attempts are, in some order, a complete run of the machine exactly when their arrangement by number is one |
| Retry.DisciplineMeaning | common/contracts/src/truealpha_contracts/datahub.py:1099-1112 | and that is what the loop over the sorted attempts checks |
| Retry.DisciplinedEnd | common/contracts/src/truealpha_contracts/datahub.py:1113 | a number identifies an attempt, so the terminal attempt is unique |
| Retry.CheckOrdered | common/contracts/src/truealpha_contracts/datahub.py:1099-1113 | the loop over the sorted attempts accepts exactly what is in order and keeps the last attempt; the budget error comes exactly for a contiguous run that is too long |
| Retry.CheckAttempts | common/contracts/src/truealpha_contracts/datahub.py:1094-1113 | accepts the unordered attempts of a work item if and only if they are a complete run of the retry machine, and keeps the attempt with the greatest number |
| Identity.IdentifyIsContentAddressing | common/contracts/src/truealpha_contracts/common.py:61-92 | a stamped id is the prefix, a colon and the hash of the content; ids agree exactly when contents do, a stamped record presented again is accepted unchanged, and only an empty or right id and hash are |
| Identity.WhatIsRefused | common/contracts/src/truealpha_contracts/common.py:61-135 | a supplied hash is refused exactly when it is neither empty nor right, an id likewise; a wrong hash is told first, or a wrong id first where the id covers the natural key |
| Identity.GrainSeparatesIdentityFromContent | common/contracts/src/truealpha_contracts/common.py:107-135 | with an id over the natural key only, ids agree exactly when keys do and hashes exactly when contents do, each hash taken of the right thing |
| Identity.Index | common/contracts/src/truealpha_contracts/datahub.py:1280-1291 | indexing succeeds exactly when no id repeats, and names the conflicting or duplicate pair otherwise |
| Identity.TableKeepsAll | common/contracts/src/truealpha_contracts/datahub.py:1280-1291 | in a successful index every record is found under its id |
| EvidenceValidator.IndexAll | common/contracts/src/truealpha_contracts/datahub.py:992-1005 | the fourteen indexes are built exactly when no kind of record repeats an id |
| EvidenceValidator.CollectResults | common/contracts/src/truealpha_contracts/datahub.py:1025-1033 | accepts exactly when every obligation has exactly one result and every result an obligation; in plain words in Evidence.ResultsTotalMeaning |
| Evidence.ResultsTotalMeaning | common/contracts/src/truealpha_contracts/datahub.py:1025-1033 | no two results are of one obligation, every result is of a known one, and no obligation lacks one |
| EvidenceValidator.CollectBindings | common/contracts/src/truealpha_contracts/datahub.py:1034-1065 | accepts exactly when every obligation not skipped binds one work item of its campaign and policy whose request covers it, and keeps the dictionary of bindings; in plain words in Evidence.BindingsTotalMeaning |
| Evidence.BindingsTotalMeaning | common/contracts/src/truealpha_contracts/datahub.py:1040-1065 | no two bindings are of one obligation, each is closed, and the bound obligations are those not skipped |
| EvidenceValidator.GroupAttempts | common/contracts/src/truealpha_contracts/datahub.py:1067-1073 | attempts are grouped by work item in order, exactly when each names a work item and each work item has one |
| EvidenceValidator.CollectCompletions | common/contracts/src/truealpha_contracts/datahub.py:1075-1086 | accepts exactly when each attempt has exactly one result, not before its dispatch |
| Evidence.AttemptResultsTotalMeaning | common/contracts/src/truealpha_contracts/datahub.py:1075-1086 | no two results are of one attempt, each is of a known attempt and not before its dispatch, and no attempt lacks one |
| EvidenceValidator.CheckRetries | common/contracts/src/truealpha_contracts/datahub.py:1094-1113 | accepts exactly when the attempts of every work item are a complete run of its policy, and keeps the terminal attempt of each |
| EvidenceValidator.CheckFinalAttempts | common/contracts/src/truealpha_contracts/datahub.py:1127-1135 | accepts exactly when each named final attempt is the terminal one of the bound work item and agrees with the terminal state |
| EvidenceValidator.CheckAttemptEvidence | common/contracts/src/truealpha_contracts/datahub.py:1067-1135 | the attempt half of the validator accepts exactly the bundles whose attempts, results and vintages are closed |
| EvidenceValidator.CheckReferences | common/contracts/src/truealpha_contracts/datahub.py:1007-1023 | runs, obligations and work items are checked one by one and accepted exactly when all their references are closed |
| EvidenceValidator.CheckReadings | common/contracts/src/truealpha_contracts/datahub.py:1137-1167 | observations and assessments are accepted exactly when all are closed; what that means for restatements and for future knowledge is in EvidenceReference.ClosedExactlyWhen and EvidenceClaims.NothingIsScoredEarly |
| EvidenceValidator.CollectRequired | common/contracts/src/truealpha_contracts/datahub.py:1169-1183 | the dictionary of required nodes, filled record by record; what it then holds is Evidence.RequiredMeaning |
| Evidence.RequiredMeaning | common/contracts/src/truealpha_contracts/datahub.py:1169-1183 | the dictionary holds exactly the ids of the core records, each with the kind of its record, the kind entered last where kinds share an id |
| Evidence.KindsAreNodes | common/contracts/src/truealpha_contracts/datahub.py:1184-1194 | with unique node ids the dictionary of actual nodes holds exactly the nodes of the graph |
| EvidenceValidator.CheckNodes | common/contracts/src/truealpha_contracts/datahub.py:1184-1201 | the sets of missing, mismatched and unlinked nodes are all empty exactly when every required node is there with its kind and, unless a campaign, entered by an edge |
| EvidenceValidator.CheckEdges | common/contracts/src/truealpha_contracts/datahub.py:1202-1267 | kind by kind, with the dictionaries of bindings and results, the edges are accepted exactly when every edge that a record forces is there |
| EvidenceValidator.ValidateClosedBundle | common/contracts/src/truealpha_contracts/datahub.py:990-1268 | the validator, with its dictionaries filled step by step, accepts exactly the closed bundles, which are those of EvidenceReference.ClosedExactlyWhen |
| EvidenceReference.ClosedExactlyWhen | common/contracts/src/truealpha_contracts/datahub.py:990-1268 | a bundle is closed if and only if it obeys the rules stated on the fields of its records alone: who must name whom, one result and one binding each, attempts that run their policy, final attempts, restatements, assessments, nodes and edges |
| EvidenceReference.BindingMeaning | common/contracts/src/truealpha_contracts/datahub.py:1040-1060 | a binding is closed exactly when its obligation was not skipped and work of the campaign and policy of its run covers it by subject, requirement and partition |
| EvidenceReference.RetryMeaning | common/contracts/src/truealpha_contracts/datahub.py:1094-1113 | a work item is disciplined exactly when some arrangement of its attempts counts from one within the budget, every outcome but the last retryable and the last terminal |
| EvidenceReference.FinalMeaning | common/contracts/src/truealpha_contracts/datahub.py:1127-1135 | final attempts agree exactly when each named one is numbered highest in the work item bound to its obligation and its outcome goes by the name of the state |
| EvidenceReference.NodesMeaning | common/contracts/src/truealpha_contracts/datahub.py:1169-1201 | the required nodes are there and linked exactly when every core record has a node of its kind which, unless it is a campaign, an edge enters |
| EvidenceReference.EdgesMeaning | common/contracts/src/truealpha_contracts/datahub.py:1202-1267 | the edges forced are one per run, obligation, binding, attempt, result, vintage and observation, two per work item, and one for what a result observed or reused |
| EvidenceClaims.LineageExists | common/contracts/src/truealpha_contracts/datahub.py:1088-1135 | a result in success or unchanged has a run, obligation, work item, attempt, attempt result, vintage and raw object that name one another |
| EvidenceClaims.EverySuccessTracesToRawBytes | common/contracts/src/truealpha_contracts/datahub.py:1127-1260 | in an accepted bundle every obligation that ended in success or unchanged has a raw object in the forward trace of its campaign, the campaign lies in the reverse trace of the raw object, through run, obligation, work item, attempt, result and vintage |
| EvidenceClaims.EveryObservationTracesToRawBytes | common/contracts/src/truealpha_contracts/datahub.py:1137-1139 | in an accepted bundle every observation has a vintage in its reverse trace whose forward trace holds a raw object of the bundle |
| EvidenceClaims.EveryRecordHasARoot | common/contracts/src/truealpha_contracts/datahub.py:1195-1201 | behind every core record of an accepted bundle, or at it, lies a node that no edge enters, and it is a campaign of the bundle or stands for none of its core records |
| EvidenceClaims.EveryWorkItemRanItsPolicy | common/contracts/src/truealpha_contracts/datahub.py:1067-1113 | in an accepted bundle every work item has 1..max_attempts attempts, at most 20, numbered from one, earlier ones retryable, the last terminal, each with one result that does not precede it |
| EvidenceClaims.RestatementsAreWellFounded | common/contracts/src/truealpha_contracts/datahub.py:1137-1153 | supersession strictly decreases the knowable time, keeps type, version, subject and valid_from, and ends at an observation that is not a restatement |
| EvidenceClaims.NothingIsScoredEarly | common/contracts/src/truealpha_contracts/datahub.py:1155-1167 | every assessment is of a record of the bundle, and one of an observation knowable only after the cutoff is marked not yet knowable and carries no confidence |
| EvidenceSample.SampleIsAccepted | common/contracts/src/truealpha_contracts/datahub.py:969-1268 | for any distinct ids a bundle with a retried success, a restatement, a scored assessment and one of knowledge still to come is accepted, so what is proved of accepted bundles is about something |
| EvidenceSample.SampleIsScored | common/contracts/src/truealpha_contracts/datahub.py:1155-1167 | the accepted bundle scores an observation that became knowable exactly at the cutoff |
| Catalog.ListLoss | common/contracts/src/truealpha_contracts/catalog.py:681-720 | each list of a diff is the ascending enumeration of one change set |
| Catalog.TuplesCompareAsSets | common/contracts/src/truealpha_contracts/catalog.py:742-762 | on sorted duplicate-free claim tuples the tuple comparison is equality of the change sets |
| Catalog.CheckClaim | common/contracts/src/truealpha_contracts/catalog.py:735-763 | a claim draws no blocker exactly when it binds predecessor and both visions and its tuples are the detected ones |
| Catalog.ClaimBlockers | common/contracts/src/truealpha_contracts/catalog.py:704-763 | no blocker exactly when nothing is lost, no claim is carried and the vision is kept, or a claim enumerates exactly what is lost |
| Catalog.DiffCatalogs | common/contracts/src/truealpha_contracts/catalog.py:675-788 | the diff lists exactly what is lost and added, and is accepted exactly for an allowed transition; on record fields in CatalogReference.ListsMeaning and CatalogReference.AcceptedExactlyWhen |
| CatalogReference.WeakenedAliasMeaning | common/contracts/src/truealpha_contracts/catalog.py:652-701 | an alias is found weakened if and only if entries under it fall from required to anything else or from optional to not applicable |
| CatalogReference.WeakenedKeyMeaning | common/contracts/src/truealpha_contracts/catalog.py:652-701 | the same for question keys |
| CatalogReference.ListsMeaning | common/contracts/src/truealpha_contracts/catalog.py:675-720 | the lists of the diff ascend and name exactly the records, floor members and minimums that are gone or lower and the aliases and keys that are weaker |
| CatalogReference.AcceptedExactlyWhen | common/contracts/src/truealpha_contracts/catalog.py:704-788 | a transition is accepted if and only if it is a later revision of its exact predecessor that loses nothing, carries no claim and keeps the vision, or loses something and carries a claim that binds predecessor and both visions and lists exactly what is lost |
| Catalog.WeakenedEntryIsRemoved | common/contracts/src/truealpha_contracts/catalog.py:659-701 | an entry weakened under its alias is also removed under its content-addressed id |
| Catalog.WeakenedQuestionIsRemoved | common/contracts/src/truealpha_contracts/catalog.py:659-701 | the same for a question weakened under its key |
| Catalog.UnclaimedKeepsVerbatim | common/contracts/src/truealpha_contracts/catalog.py:724-730 | an accepted transition without a claim keeps every entry and question record for record |
| Catalog.LossClaimAndVisionCoincide | common/contracts/src/truealpha_contracts/catalog.py:724-763 | in an accepted transition scope is lost, a claim is carried and the vision is revised together or not at all |
| Catalog.LossIsAlwaysClaimed | common/contracts/src/truealpha_contracts/catalog.py:791-800 | along any chain of accepted transitions, every entry, question, floor member, minimum and universe missing or lower at the end was enumerated by the claims on the way |
| Catalog.WeakenedEntryIsClaimed | common/contracts/src/truealpha_contracts/catalog.py:659-800 | an alias weaker at the end of a chain than at its start belonged to an entry that a claim on the way enumerated |
| Catalog.WeakenedQuestionIsClaimed | common/contracts/src/truealpha_contracts/catalog.py:659-800 | a question key weaker at the end of a chain than at its start belonged to a question that a claim on the way enumerated |
| Catalog.UnclaimedChainsOnlyGrow | common/contracts/src/truealpha_contracts/catalog.py:791-800 | without claims entries, questions and both required sets only grow, no minimum falls, universe and vision stay |
| Catalog.NoCycleOfCatalogs | common/contracts/src/truealpha_contracts/catalog.py:718-722 | no catalog id occurs twice in a chain |
| Catalog.QuestionFloorHolds | common/contracts/src/truealpha_contracts/catalog.py:529-617 | along an unclaimed chain the last catalog still answers as many questions as the floor of the first demanded |
| CatalogSample.SampleIsAChain | common/contracts/src/truealpha_contracts/catalog.py:498-800 | under any hash three valid catalogs form an accepted chain, the second adding nothing and the third lowering a minimum under a claim, so what is proved of chains is about something |
| CanonicalJson.SortedKeys | apps/app-web/src/contracts/issue58.ts:213 | sorting members makes the keys ascend and keeps the members |
| CanonicalJson.EscapeCancel | apps/app-web/src/contracts/issue58.ts:198-202 | the escapes of string units form a prefix code (section 7 of RFC 8259) |
| CanonicalJson.QuoteCancel | apps/app-web/src/contracts/issue58.ts:198-202 | a quoted string ends where it says: text after it and the string are both recovered |
| CanonicalJson.PrintCancel | apps/app-web/src/contracts/issue58.ts:204-215 | the printed form is self-delimiting: equal texts with separators after them have equal values and equal rests |
| CanonicalJson.SamePrints | apps/app-web/src/contracts/issue58.ts:204-215 | values that are equal up to member order and the sign of zero print the same |
| CanonicalJson.CanonicalTextIsTheValue | apps/app-web/src/contracts/issue58.ts:204-215 | two values print the same text if and only if they are equal as values; that the text denotes the value is CanonicalReader.CanonicalTextDenotes |
| CanonicalReader.CanonicalTextDenotes | apps/app-web/src/contracts/issue58.ts:198-215 | read by the grammar of JSON alone, the text of a value gives an equal value, with the keys of every object ascending by code units, and nothing is left over |
| CanonicalReader.NumberReads | apps/app-web/src/contracts/issue58.ts:206-210 | a number prints as an optional minus and the digits of its magnitude without superfluous zeros, zero without a sign |
| CanonicalReader.UnitReads | apps/app-web/src/contracts/issue58.ts:198-202 | a code unit prints as itself where it is printable, as a short escape where there is one, and as four lower-case hexadecimal digits of its value otherwise (section 7 of RFC 8259) |
| CanonicalAscii.CanonicalTextIsPlain | apps/app-web/src/contracts/issue58.ts:198-220 | the canonical text is printable ASCII whatever the strings hold, so its bytes are its characters |
| CanonicalJson.ValuesEqualMeaning | apps/app-web/src/contracts/issue58.ts:83-85 | the validators' equality throws exactly on a non-finite number and is equality of values otherwise |
| ContentIdentity.CopyWithout | apps/app-web/src/contracts/issue58.ts:223-230 | the copy holds exactly the members that are not excluded and are not named `__proto__`, in order |
| ContentIdentity.AcceptedExactlyWhen | apps/app-web/src/contracts/issue58.ts:223-248 | an object is accepted under an id if and only if it holds that id and a hash as texts, the hash is the digest of the canonical text of the rest, and the id is the prefix, a colon and the hash |
| ContentIdentity.AcceptedIdIsContent | apps/app-web/src/contracts/issue58.ts:232-248 | two accepted objects carry the same id exactly when their hashed content is equal as values |
| ContentIdentity.OnlyTheContentFitsItsId | apps/app-web/src/contracts/issue58.ts:232-248 | under the id and hash of an accepted object exactly the objects with equal finite content are accepted |
| ContentIdentity.IdBindsAllButProto | apps/app-web/src/contracts/issue58.ts:223-248 | two accepted objects with one id agree outside the identity fields exactly when their `__proto__` members agree |
| ContentIdentity.ProtoIsNotBound | apps/app-web/src/contracts/issue58.ts:223-230 | a `__proto__` member added to an accepted object leaves it accepted under the same id |
| ContentIdentity.StampedIsAccepted | apps/app-web/src/contracts/issue58.ts:232-248 | any finite content, stamped with its hash and id, is accepted |
| DecimalText.CompareExact | apps/app-web/src/contracts/strategyRun.ts:324-352 | the comparison has the sign of the exact difference if and only if the tokens are not two zeros of which just one has a minus sign |
| DecimalText.MinusZeroIsBelowZero | apps/app-web/src/contracts/strategyRun.ts:337 | the exception: `-0` compares below `0` |
| DecimalText.StrippedCompareExact | apps/app-web/src/contracts/strategyRun.ts:339-351 | comparing stripped digit strings by length and then by character is comparing the numbers they denote |
| DecimalText.TotalPreorder | apps/app-web/src/contracts/strategyRun.ts:324-352 | outside signed zeros the comparison is a total preorder |
| DecimalReference.TokenMeaning | apps/app-web/src/contracts/strategyRun.ts:29 | the tokens are exactly an optional sign, digits and an optional point with digits, at least one digit in all |
| DecimalReference.ScaledMeaning | apps/app-web/src/contracts/strategyRun.ts:319-324 | what a token denotes is its digits read as one number, the point moved back over the fraction, with its sign |
| DecimalText.BoundedAcceptsExactly | apps/app-web/src/contracts/strategyRun.ts:354-373 | with bounds [0, 1] exactly the tokens in range that are no signed zero are accepted |
| DecimalText.HundredthsCut | apps/app-web/src/client/format.ts:112-115 | shifting and cutting digits yields the greatest whole number of hundredths of a percent not above the magnitude |
| DecimalText.PercentIsTheCutValue | apps/app-web/src/client/format.ts:108-119 | a plain decimal prints as its value times 100 cut toward zero to two decimals, spelled without superfluous zeros and never as a negative zero; any other text prints as nothing |
| DecimalReference.PercentMeaning | apps/app-web/src/client/format.ts:99-119 | a text prints as nothing exactly when it is no plain decimal between white space; otherwise as the greatest number of hundredths of a percent in its magnitude, a point before the last two digits, a minus when the value has one and the number is not zero |
| CivilDate.OrdinalOrder | common/contracts/src/truealpha_contracts/fiscal_period.py:49-52 | date order is day-number order, so the span of a period is well defined |
| CivilDate.NextDayIsNext | common/contracts/src/truealpha_contracts/fiscal_period.py:74 | the start of a period is the day number after the prior end |
| FiscalPeriod.EncodedSpan | common/contracts/src/truealpha_contracts/fiscal_period.py:67-74 | an encoded period spans 364 days, or 365 when a leap day falls in it, also for ends on 29 February |
| FiscalPeriod.TagMatches | common/contracts/src/truealpha_contracts/fiscal_period.py:35-37 | a tag of kind FY matches the pattern exactly when its label has four digits, of whatever script |
| FiscalPeriod.ParseUndoesEncode | common/contracts/src/truealpha_contracts/fiscal_period.py:59-94 | encoding raises exactly in year 1; parsing an encoded tag gives the period back, with the same end and start, exactly when the label lies in 1000..9999 and nothing otherwise |
| FiscalPeriod.EncodeUndoesParse | common/contracts/src/truealpha_contracts/fiscal_period.py:59-94 | encoding the period of a tag that parses gives the tag back exactly when it does not end in a line feed, its label is in ASCII digits and at least 1000, the end is not in year 1 and the start is the one the end implies |
| FiscalPeriod.LineFeedGoesUnnoticed | common/contracts/src/truealpha_contracts/fiscal_period.py:35-37 | one line feed added at the end of a tag makes no difference to the parser |
| FiscalPeriod.ParseRaisesExactlyWhen | common/contracts/src/truealpha_contracts/fiscal_period.py:78-94 | the parser raises exactly on a tag that matches the pattern and whose start or end names no date |
| FiscalReference.PatternMeaning | common/contracts/src/truealpha_contracts/fiscal_period.py:35-37 | the pattern matches exactly the texts put together from a four-digit label, a kind and two dates |
| FiscalReference.ParseMeaning | common/contracts/src/truealpha_contracts/fiscal_period.py:78-94 | a tag parses to a period exactly when it is put together from parts of kind FY that name its filing year, start and end, at least 350 days apart, give or take one line feed at the end |
| FiscalReference.EndOfMeaning | apps/data-engine/src/data_engine/strategy_backtest_gateway.py:65-90 | the end that stands for a tag is that of its period when it parses, else the date in its last part when there are four, else 31 December of the year it names when it has no colon, else the first day of year one |
| FiscalReference.TagBeforeMeaning | apps/data-engine/src/data_engine/strategy_backtest_gateway.py:65-90 | tags compare by year, month and day of that end, then as texts by code point |
| FiscalPeriod.TagsAreTotal | apps/data-engine/src/data_engine/strategy_backtest_gateway.py:65-90 | the comparison key orders all tags totally, without ties between distinct tags |
| FiscalPeriod.EncodedTagsOrderByEnd | apps/data-engine/src/data_engine/strategy_backtest_gateway.py:65-77 | encoded tags are ordered by end date, and at one end date by filing year |
| MarketCalendar.PreviousSession | common/contracts/src/truealpha_contracts/calendar.py:76-81 | the backward loop ends, for any holiday set, at the newest session on or strictly before the day; it overflows exactly when there is none |
| MarketCalendar.FirstWeekOf2000 | common/contracts/src/truealpha_contracts/calendar.py:71-74 | 1 and 2 January 2000, a Saturday and a Sunday, are no sessions, and the five days after them are |
| MarketCalendar.WeeksRepeat | common/contracts/src/truealpha_contracts/calendar.py:71-74 | every day trades as the same weekday does, unless it is a holiday |
| MarketCalendar.HolidaysRunOut | common/contracts/src/truealpha_contracts/calendar.py:71-81 | for any finite holiday set every search from later than seven days per holiday finds a session |
| MarketCalendar.DayBounds | common/contracts/src/truealpha_contracts/calendar.py:76-97 | the first and last day of the model are those of Python's calendar, where date arithmetic overflows |
| MarketCalendar.CountSessions | common/contracts/src/truealpha_contracts/calendar.py:84-97 | the count is the cardinality of the sessions in (start, end]; it overflows exactly when the interval is not empty and ends on the last day |
| MarketCalendar.CountsAdd | common/contracts/src/truealpha_contracts/calendar.py:84-97 | counts of adjacent intervals add up |
| MarketCalendar.NothingSinceNewest | common/contracts/src/truealpha_contracts/calendar.py:76-97 | no session lies between a day and the newest session up to it |
| MarketCalendar.SettledSession | common/contracts/src/truealpha_contracts/calendar.py:100-114 | the result is the greatest session whose 16:00 close is at or before the cutoff, and there is none when it overflows |
| MarketCalendar.SettledUnique | common/contracts/src/truealpha_contracts/calendar.py:100-114 | a cutoff has one settled session |
| MarketCalendar.SettlementIsMonotone | common/contracts/src/truealpha_contracts/calendar.py:84-114 | a later cutoff never settles an earlier session, also where the local clock runs back in the repeated hour, and the sessions counted in between are exactly those that closed in between |
| Keyset.ClampListLimit | apps/app-web/src/server/documents.ts:85-96 | refuses exactly non-integers; otherwise the limit in force is the nearest number in 1..200, or 50 when absent |
| Keyset.KeyOrder | apps/app-web/src/server/documents.ts:254-257 | the row comparison on (created_at, document_id) is a strict total order |
| Keyset.PageUnique | apps/app-web/src/server/documents.ts:244-265 | live rows, limit and cursor determine the page and its next cursor |
| Keyset.PageExists | apps/app-web/src/server/documents.ts:244-265 | every set of live rows, limit and cursor has a page |
| Keyset.PageInOrder | apps/app-web/src/server/documents.ts:244-265 | a page holds live rows below the cursor, newest first and by falling id at one instant |
| Documents.Repository.ListDocuments | apps/app-web/src/server/documents.ts:227-268 | the page of the live documents of the history: it descends, lies below the cursor, holds at most the limit, leaves out only smaller rows and only when full, and names its last row as next cursor exactly when full |
| Documents.Repository.InsertRevisionRow | apps/app-web/src/server/documents.ts:608-651 | the guarded insert succeeds exactly for a document that is there without tombstone and a new revision id, and touches nothing else |
| Documents.Repository.CreateDocument | apps/app-web/src/server/documents.ts:314-347 | document and first revision are inserted both or neither: both exactly when no earlier statement inserted either id; the history grows by both statements or by none |
| Documents.Repository.AppendRevision | apps/app-web/src/server/documents.ts:349-378 | succeeds exactly when an earlier statement inserted the document, none tombstoned it and none inserted the revision id; otherwise nothing changes |
| Documents.Repository.TombstoneDocument | apps/app-web/src/server/documents.ts:380-425 | inserts the tombstone exactly when an earlier statement inserted the document and none tombstoned it, or returns the one that is there |
| Documents.Repository.IssueDownloadTicket | apps/app-web/src/server/documents.ts:427-473 | succeeds exactly when the lifetime is positive, an earlier statement inserted the revision for that document, none tombstoned the document and none issued that ticket id |
| Documents.Repository.RedeemDownloadTicket | apps/app-web/src/server/documents.ts:475-497 | the one update that redeems; it succeeds exactly when the history entitles it: issued, in its lifetime, never redeemed, document not tombstoned |
| Documents.StatementGrows | apps/app-web/src/server/documents.ts:380-651 | every statement only adds rows, but for the first redemption of a ticket |
| Documents.StatementFreezes | apps/app-web/src/server/documents.ts:436-497 | no statement adds a revision or ticket of a tombstoned document or redeems one |
| Documents.RunsExtend | apps/app-web/src/server/documents.ts:380-651 | both hold between any two moments of any run |
| Documents.RunsAreConsistent | apps/app-web/src/server/documents.ts:427-528 | in every reachable state tickets name a revision of their own document and were redeemed, if at all, before expiry |
| Documents.RedeemedAtMostOnce | apps/app-web/src/server/documents.ts:486-497 | after a redemption every further one of that ticket is not found, over every interleaving |
| Documents.TombstonedAtMostOnce | apps/app-web/src/server/documents.ts:386-424 | after a tombstone every further attempt finds that same row |
| Documents.NothingAfterTombstone | apps/app-web/src/server/documents.ts:446-497 | after its tombstone a document receives no revision and no ticket and none of its tickets is redeemed |
| Documents.TombstoneFreezes | apps/app-web/src/server/documents.ts:380-425 | a tombstone is never undone and the rows of its document never change again |
| Documents.TicketWasIssued | apps/app-web/src/server/documents.ts:441-455 | every ticket row was issued by an earlier statement with the document, revision and expiry it has |
| Documents.DocumentsNow | apps/app-web/src/server/documents.ts:332-343 | a document row is there exactly when an earlier statement inserted it |
| Documents.DocumentRow | apps/app-web/src/server/documents.ts:332-343 | a document row bears the instant of that insert, at every later moment |
| Documents.RevisionsNow | apps/app-web/src/server/documents.ts:608-651 | a revision row is there exactly when an earlier statement inserted it |
| Documents.RevisionRow | apps/app-web/src/server/documents.ts:608-651 | a revision row stays for the document and artifact it was inserted for, at every later moment |
| Documents.RedeemedNow | apps/app-web/src/server/documents.ts:486-497 | a ticket row is marked redeemed exactly when an earlier redemption of it succeeded |
| Documents.TombstonedNow | apps/app-web/src/server/documents.ts:386-392 | a tombstone row is there exactly when an earlier statement inserted it |
| Documents.TicketsNow | apps/app-web/src/server/documents.ts:441-455 | a ticket row is there exactly when an earlier statement issued it |
| Documents.CreatesExactlyWhen | apps/app-web/src/server/documents.ts:332-343 | a document is inserted if and only if no earlier statement inserted its id |
| Documents.RevisesExactlyWhen | apps/app-web/src/server/documents.ts:608-651 | a revision is inserted if and only if an earlier statement inserted its document, none tombstoned it and none inserted that revision id; which refusal comes otherwise |
| Documents.TombstonesExactlyWhen | apps/app-web/src/server/documents.ts:380-425 | a tombstone is inserted if and only if an earlier statement inserted its document and none tombstoned it |
| Documents.IssuesExactlyWhen | apps/app-web/src/server/documents.ts:427-473 | a ticket is issued if and only if its lifetime is positive, an earlier statement inserted the revision for that document, none tombstoned it and none issued that ticket id |
| Documents.RedeemsExactlyWhen | apps/app-web/src/server/documents.ts:475-497 | a redemption succeeds if and only if the ticket was issued before, its lifetime is not over, no earlier redemption of it succeeded and no earlier statement tombstoned its document |
| Documents.RedemptionIsEarned | apps/app-web/src/server/documents.ts:497-528 | the revision handed out exists, is the one issued, belongs to the ticket's document, and the document is live |
| Pagination.ListsDescending | apps/app-web/src/server/documents.ts:227-268 | with anything happening between pages, the pages together list in strictly descending order, without duplicates |
| Pagination.LiveThroughoutIsListed | apps/app-web/src/server/documents.ts:227-268 | a complete traversal lists every document that is live from its first request to its last |
| Pagination.ListedWasLive | apps/app-web/src/server/documents.ts:249-253 | whatever is listed was live when its page was served |
| Pagination.QuietTraversalIsExact | apps/app-web/src/server/documents.ts:227-268 | with nothing happening in between, exactly the live documents are listed, once each, in descending order, for every mix of limits |
| Pagination.TraversalEnds | apps/app-web/src/server/documents.ts:261-264 | the limits of all pages but the last add up to no more than the documents that exist, so a traversal ends |
| Pagination.FollowingListsEverything | apps/app-web/src/server/documents.ts:227-268 | following the cursor from none with any one limit reaches an end, and has listed each live document exactly once, newest first |
| Pagination.ServedInRun | apps/app-web/src/server/documents.ts:244-265 | a page served from a history is a page of every run that continues it, so the pages of the repository make traversals |
| Pagination.LiveByHistory | apps/app-web/src/server/documents.ts:249-253 | a key is live exactly when an earlier statement inserted its document at its instant and none tombstoned it |
| Vintages.WinnersAreDetermined | apps/data-engine/src/data_engine/strategy_backtest_gateway.py:147-156 | under the table's unique index the winner query, with its order, has one answer |
| Vintages.WinnersExactlyWhen | apps/data-engine/src/data_engine/strategy_backtest_gateway.py:147-156 | the answers of the query are the rows of the cutoff that no row of their input beats by knowable and then by recorded instant, one for each input that has rows, by issuer, key and period, the row without a period last |
| Vintages.WinnersExist | apps/data-engine/src/data_engine/strategy_backtest_gateway.py:147-156 | the query has an answer on every table |
| Vintages.MaxKnowableIsMaximum | apps/data-engine/src/data_engine/strategy_backtest_gateway.py:167-170 | the filtered aggregate is the maximum of the instants of that input's rows |
| Vintages.WinnerHasMaximum | apps/data-engine/src/data_engine/strategy_backtest_gateway.py:122-172 | an input has a winner exactly when it has rows, and the winner's instant is their maximum |
| Vintages.VintagesAgreeWithWinners | apps/data-engine/src/data_engine/strategy_backtest_gateway.py:158-176 | an issuer is listed exactly when both inputs have a winner, with the instants of those winners, however ties fall |
| StrategyInputs.IssuerInputs | apps/data-engine/src/data_engine/strategy_backtest_gateway.py:202-262 | the loop raises at the first row knowable after the cutoff, exactly when there is one; otherwise it returns one input per issuer in order, each key with its answer and its series |
| StrategyInputs.AnswerComesFromRows | apps/data-engine/src/data_engine/strategy_backtest_gateway.py:215-231 | a key is answered exactly when it has rows, and by what one of those rows says |
| StrategyInputs.SeriesComesFromRows | apps/data-engine/src/data_engine/strategy_backtest_gateway.py:226-228 | a series has exactly the periods of the rows of its key, each with what one of those rows says |
| StrategyInputs.InputsSayWhatRowsSay | apps/data-engine/src/data_engine/strategy_backtest_gateway.py:215-262 | every answer returned has the value, the confidence and the knowable instant of one row of its issuer and key, and every entry of a series those of one row of its period |
| StrategyInputs.RowsAreInInputs | apps/data-engine/src/data_engine/strategy_backtest_gateway.py:215-262 | every row has an input of its issuer with an answer for its key and an entry for its period |
| StrategyInputs.NothingFromTheFuture | apps/data-engine/src/data_engine/strategy_backtest_gateway.py:219-222 | inputs returned under a cutoff hold nothing knowable after it |
| StrategyInputs.OrderIsIrrelevantExactlyWhen | apps/data-engine/src/data_engine/strategy_backtest_gateway.py:215-231 | for rows unique by issuer, key and period every permutation gives the same answers if and only if no row without a period contradicts the latest period of its key |
| StrategyInputs.UnmixedIsSettled | apps/data-engine/src/data_engine/strategy_backtest_gateway.py:223-231 | keys that do not mix rows with and without a period meet that condition |
| StrategyInputs.MixedRowsDependOnOrder | apps/data-engine/src/data_engine/strategy_backtest_gateway.py:223-231 | two rows of one key, one without a period, that answer differently in the two orders |
| StrategyInputs.LatestPeriodAnswers | apps/data-engine/src/data_engine/strategy_backtest_gateway.py:229-231 | the row of the latest period answers for a periodic key |
| StrategyInputs.InputsIgnoreOrder | apps/data-engine/src/data_engine/strategy_backtest_gateway.py:215-262 | the returned lists of inputs are equal for rows with the same members |
| StrategyInputs.SnapshotIsContent | apps/data-engine/src/data_engine/strategy_backtest_gateway.py:265-279 | two sets of rows have the same snapshot id exactly when they hold the same bag of tuples |
| StrategyInputs.SnapshotHashesSortedTuples | apps/data-engine/src/data_engine/strategy_backtest_gateway.py:265-279 | the id is the text strategy-snapshot, a colon and the hash of the tuples in ascending order |
| StrategyInputs.SingleRowSnapshots | apps/data-engine/src/data_engine/strategy_backtest_gateway.py:275-278 | two rows alone share an id exactly when they agree in issuer, key, value, confidence and period, a missing period counting as the empty text |
| StrategyInputs.SnapshotIgnoresOrder | apps/data-engine/src/data_engine/strategy_backtest_gateway.py:275-278 | the snapshot id does not depend on the order of the rows |
| StrategyInputs.WinnersAreUnique | apps/data-engine/src/data_engine/strategy_backtest_gateway.py:147-156 | what the winner query returns is unique by issuer, key and period |
| StrategyInputs.ReadsAgree | apps/data-engine/src/data_engine/strategy_backtest_gateway.py:178-190 | two reads of one table at one cutoff are the same rows in the same order, and give the same inputs and the same snapshot id |
| StrategyInputs.ScalarAnswersFirst | apps/data-engine/src/data_engine/strategy_backtest_gateway.py:147-231 | on the rows of the query a key with a winner without a period is answered with that winner's value, confidence and knowable instant |
| StrategyInputs.LatestAnswersOtherwise | apps/data-engine/src/data_engine/strategy_backtest_gateway.py:147-231 | a key whose winners all have periods is answered with the value, confidence and knowable instant of the winner of its latest period |

## Left out

- CanonicalJson.CanonicalTextIsTheValue: numbers are safe integers, negative zero and the non-finite ones; how JavaScript prints other doubles is not part of this model.
- CanonicalJson.SortedKeys: keys compare by UTF-16 code unit, as the TypeScript does; where Python's order by code point differs is not part of this model.
- Which characters outside ASCII are decimal digits, and what Python's general date parser accepts, are parameters (`FiscalPeriod.Library`); ASCII digits behave as written.
- MarketCalendar.SettledSession: the cutoff is given as market-local date and minute; the time-zone lookup is not part of this model, and neither is the list of holidays, which is any finite set.
- Keyset.KeyOrder: document ids compare by code point, and so do the issuers, keys and periods that order the winner query; a database collation that orders them otherwise would have to be total, which is all the proofs use.
- Documents.Repository.ListDocuments: the text form and validation of the cursor are left out; the cursor is the key itself, to the microsecond.
- Documents.Repository.RedeemDownloadTicket: the read of the object's bytes after the update is left out, and so are object storage and the artifact's hash, length and type.
- Documents.Repository.TombstoneDocument: tenants, owners and row-level security are left out; all rows belong to one owner, so a conflicting row is always visible.
- Documents.Repository.IssueDownloadTicket: `make_interval` overflowing for an enormous number of minutes is left out.
- Identity.GrainSeparatesIdentityFromContent: ids of natural keys are not recomputed inside a bundle; the bundle model takes ids as given, unique per kind.
- EvidenceClaims.EverySuccessTracesToRawBytes: the records' own validators are assumed to have run (`Typed`); of those the model keeps the ones the bundle's claims need.
- EvidenceValidator.ValidateClosedBundle: which of several errors is reported, and its text, is left out.
- Catalog.DiffCatalogs: the manifests' own validators are a predicate (`Valid`), not a procedure; levels before and after in the weakening records and the text of the blockers are left out.
- Vintages.VintagesAgreeWithWinners: the two queries are modelled as what they return; how the database evaluates them is left out.
- StrategyInputs.IssuerInputs: `measure_for_input_key`, which wraps each value with its unit, and the insertion order of the dictionaries are left out.
- StrategyInputs.SnapshotIsContent: a missing period and an empty one, and rows that differ only in when they became knowable, share an id in the code; the tuples leave the difference out as the code does.
- `combine_snapshot_ids` and the run-level snapshot id.
- Recapture predicates and plans, confidence components and scores, the registry of evidence-graph versions.
- Schema validation, cross-contract bindings and reference pairs of the release manifest.
- Access decisions, universes, environment contracts, React components, HTTP, MCP and Dagster wiring, command-line tools.
