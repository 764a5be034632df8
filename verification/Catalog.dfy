/** The Research Catalog and the relation between successive revisions that forbids silent loss of scope. */
module Catalog {
  import opened Identity
  import opened Options
  import opened Ordering

  type Instant = int

  datatype Level = NotApplicable | Optional | Required

  function Strength(level: Level): nat {
    match level
    case NotApplicable => 0
    case Optional => 1
    case Required => 2
  }

  // ---------------------------------------------------------------- records

  datatype EntryContent = EntryContent(
    alias: string, level: Level, targetKind: string, universe: string, templateId: string, frozenAt: Instant,
    questionIds: seq<string>, approvedAt: Instant, rest: string)

  datatype QuestionContent = QuestionContent(
    key: string, toolKind: string, aliases: seq<string>, level: Level, approvedAt: Instant, rest: string)

  /** The scope floor; its minimums are a dictionary from dimension to count. */
  datatype FloorContent = FloorContent(
    universe: string, minimums: map<string, nat>, requiredEntryIds: seq<string>, requiredQuestionIds: seq<string>,
    approvedAt: Instant)

  datatype ClaimContent = ClaimContent(
    predecessorId: string, previousVision: string, narrowedVision: string,
    removedEntryIds: seq<string>, removedQuestionIds: seq<string>,
    removedFloorEntryIds: seq<string>, removedFloorQuestionIds: seq<string>,
    weakenedAliases: seq<string>, weakenedKeys: seq<string>, decreasedDimensions: seq<string>,
    universeSubstitution: bool, rationale: string, approvedAt: Instant)

  type Entry = Record<EntryContent>
  type Question = Record<QuestionContent>
  type Floor = Record<FloorContent>
  type Claim = Record<ClaimContent>

  datatype ManifestContent = ManifestContent(
    version: string, vision: string, predecessorId: Option<string>, floor: Floor,
    entries: seq<Entry>, questions: seq<Question>, claim: Option<Claim>,
    approvedAt: Instant, createdAt: Instant, effectiveAt: Instant)

  type Manifest = Record<ManifestContent>

  /** Everything that is content-addressed, as one type for one hash. */
  datatype Payload =
    | OfEntry(entry: EntryContent) | OfQuestion(question: QuestionContent) | OfFloor(floor: FloorContent)
    | OfClaim(claim: ClaimContent) | OfManifest(manifest: ManifestContent)

  type Hash = Payload -> string

  predicate Addressed<T>(hash: Hash, prefix: string, r: Record<T>, payload: Payload) {
    r.hash == hash(payload) && r.id == Address(prefix, r.hash)
  }

  const DIMENSIONS := {"issuers", "funds", "themes", "analysts", "scenarios", "screens", "rankings",
                       "strategies", "canonical_questions"}

  // ---------------------------------------------------------------- validity of the parts

  ghost predicate ValidEntry(hash: Hash, e: Entry) {
    Addressed(hash, "catalog-entry", e, OfEntry(e.data)) && Ascending(TextLess, e.data.questionIds)
  }

  ghost predicate ValidQuestion(hash: Hash, q: Question) {
    Addressed(hash, "canonical-question", q, OfQuestion(q.data)) && Ascending(TextLess, q.data.aliases)
  }

  ghost predicate ValidFloor(hash: Hash, f: Floor) {
    && Addressed(hash, "research-scope-floor", f, OfFloor(f.data))
    && f.data.minimums.Keys == DIMENSIONS
    && (forall d :: d in f.data.minimums ==> f.data.minimums[d] >= 1)
    && f.data.requiredEntryIds != [] && Ascending(TextLess, f.data.requiredEntryIds)
    && f.data.requiredQuestionIds != [] && Ascending(TextLess, f.data.requiredQuestionIds)
    && f.data.minimums["canonical_questions"] <= |f.data.requiredQuestionIds|
  }

  /** Every tuple of a claim is stored sorted and without duplicates. */
  ghost predicate SortedClaim(c: ClaimContent) {
    && Ascending(TextLess, c.removedEntryIds) && Ascending(TextLess, c.removedQuestionIds)
    && Ascending(TextLess, c.removedFloorEntryIds) && Ascending(TextLess, c.removedFloorQuestionIds)
    && Ascending(TextLess, c.weakenedAliases) && Ascending(TextLess, c.weakenedKeys)
    && Ascending(TextLess, c.decreasedDimensions)
  }

  ghost predicate ValidClaim(hash: Hash, c: Claim) {
    && Addressed(hash, "narrowed-research-claim", c, OfClaim(c.data))
    && SortedClaim(c.data)
    && c.data.previousVision != c.data.narrowedVision
    && (c.data.removedEntryIds != [] || c.data.removedQuestionIds != [] || c.data.removedFloorEntryIds != []
        || c.data.removedFloorQuestionIds != [] || c.data.weakenedAliases != [] || c.data.weakenedKeys != []
        || c.data.decreasedDimensions != [] || c.data.universeSubstitution)
  }

  // ---------------------------------------------------------------- the manifest

  function EntryIds(m: Manifest): set<string> {
    set e | e in m.data.entries :: e.id
  }

  function QuestionIds(m: Manifest): set<string> {
    set q | q in m.data.questions :: q.id
  }

  function FloorEntryIds(m: Manifest): set<string> {
    set id | id in m.data.floor.data.requiredEntryIds
  }

  function FloorQuestionIds(m: Manifest): set<string> {
    set id | id in m.data.floor.data.requiredQuestionIds
  }

  ghost predicate AliasesDistinct(entries: seq<Entry>) {
    forall e, e' :: e in entries && e' in entries && e.data.alias == e'.data.alias ==> e == e'
  }

  ghost predicate KeysDistinct(questions: seq<Question>) {
    forall q, q' :: q in questions && q' in questions && q.data.key == q'.data.key ==> q == q'
  }

  /** Entries and questions point at each other consistently. */
  ghost predicate Bound(m: Manifest) {
    && (forall q, a :: q in m.data.questions && a in q.data.aliases ==>
          exists e :: e in m.data.entries && e.data.alias == a && e.data.targetKind == q.data.toolKind)
    && (forall e, id :: e in m.data.entries && id in e.data.questionIds ==>
          exists q :: q in m.data.questions && q.id == id && e.data.alias in q.data.aliases)
  }

  ghost predicate FloorMet(m: Manifest) {
    && (forall id :: id in m.data.floor.data.requiredEntryIds ==>
          exists e :: e in m.data.entries && e.id == id && e.data.level == Required)
    && (forall id :: id in m.data.floor.data.requiredQuestionIds ==>
          exists q :: q in m.data.questions && q.id == id && q.data.level == Required)
  }

  ghost predicate ClaimBound(m: Manifest) {
    m.data.claim.Some? ==>
      && m.data.predecessorId == Some(m.data.claim.value.data.predecessorId)
      && m.data.claim.value.data.narrowedVision == m.data.vision
      && m.data.claim.value.data.approvedAt <= m.data.createdAt
  }

  ghost predicate NothingPostdated(m: Manifest) {
    && m.data.approvedAt <= m.data.createdAt <= m.data.effectiveAt
    && m.data.floor.data.approvedAt <= m.data.createdAt
    && (forall e :: e in m.data.entries ==>
          e.data.approvedAt <= m.data.createdAt && e.data.frozenAt <= m.data.createdAt)
    && (forall q :: q in m.data.questions ==> q.data.approvedAt <= m.data.createdAt)
  }

  /** What the manifest validator and the validators of its parts establish. */
  ghost predicate Valid(hash: Hash, m: Manifest) {
    && Addressed(hash, "research-catalog", m, OfManifest(m.data))
    && m.data.entries != [] && (forall e :: e in m.data.entries ==> ValidEntry(hash, e))
    && m.data.questions != [] && (forall q :: q in m.data.questions ==> ValidQuestion(hash, q))
    && ValidFloor(hash, m.data.floor)
    && (m.data.claim.Some? ==> ValidClaim(hash, m.data.claim.value))
    && AliasesDistinct(m.data.entries) && KeysDistinct(m.data.questions)
    && (forall e, e' :: e in m.data.entries && e' in m.data.entries && e.data.templateId == e'.data.templateId ==>
          e == e')
    && (forall e :: e in m.data.entries ==> e.data.universe == m.data.floor.data.universe)
    && Bound(m) && FloorMet(m) && ClaimBound(m) && NothingPostdated(m)
  }

  // ---------------------------------------------------------------- what changed

  /** Levels by coordinate, as the two dictionaries the comparison builds. */
  function EntryLevels(entries: seq<Entry>): (r: map<string, Level>) {
    if entries == [] then map[]
    else EntryLevels(entries[..|entries| - 1])[entries[|entries| - 1].data.alias := entries[|entries| - 1].data.level]
  }

  function QuestionLevels(questions: seq<Question>): (r: map<string, Level>) {
    if questions == [] then map[]
    else
      QuestionLevels(questions[..|questions| - 1])
        [questions[|questions| - 1].data.key := questions[|questions| - 1].data.level]
  }

  /** Coordinates present on both sides whose requirement became weaker. */
  function Weakenings(previous: map<string, Level>, candidate: map<string, Level>): set<string> {
    set k | k in previous && k in candidate && Strength(candidate[k]) < Strength(previous[k])
  }

  /** Dimensions whose minimum fell. */
  function Decreases(previous: map<string, nat>, candidate: map<string, nat>): set<string>
    requires previous.Keys <= candidate.Keys
  {
    set d | d in previous && candidate[d] < previous[d]
  }

  /** The scope that a transition takes away, dimension by dimension. */
  datatype Loss = Loss(
    entries: set<string>, questions: set<string>, floorEntries: set<string>, floorQuestions: set<string>,
    weakenedAliases: set<string>, weakenedKeys: set<string>, dimensions: set<string>, universe: bool)

  const NO_LOSS := Loss({}, {}, {}, {}, {}, {}, {}, false)

  predicate Nothing(l: Loss) {
    l == NO_LOSS
  }

  function LossOf(p: Manifest, c: Manifest): Loss
    requires p.data.floor.data.minimums.Keys <= c.data.floor.data.minimums.Keys
  {
    Loss(EntryIds(p) - EntryIds(c), QuestionIds(p) - QuestionIds(c),
         FloorEntryIds(p) - FloorEntryIds(c), FloorQuestionIds(p) - FloorQuestionIds(c),
         Weakenings(EntryLevels(p.data.entries), EntryLevels(c.data.entries)),
         Weakenings(QuestionLevels(p.data.questions), QuestionLevels(c.data.questions)),
         Decreases(p.data.floor.data.minimums, c.data.floor.data.minimums),
         p.data.floor.data.universe != c.data.floor.data.universe)
  }

  /** What a claim enumerates. */
  function Claimed(c: ClaimContent): Loss {
    Loss(Elements(c.removedEntryIds), Elements(c.removedQuestionIds),
         Elements(c.removedFloorEntryIds), Elements(c.removedFloorQuestionIds),
         Elements(c.weakenedAliases), Elements(c.weakenedKeys),
         Elements(c.decreasedDimensions), c.universeSubstitution)
  }

  ghost predicate Comparable(p: Manifest, c: Manifest) {
    p.data.floor.data.minimums.Keys == DIMENSIONS && c.data.floor.data.minimums.Keys == DIMENSIONS
  }

  /** The transitions the contract allows: a later revision bound to its exact predecessor that either
      loses nothing and keeps the vision, or carries a claim that enumerates exactly what it loses. */
  ghost predicate Accepted(p: Manifest, c: Manifest)
    requires Comparable(p, c)
  {
    && c.data.predecessorId == Some(p.id)
    && p.data.createdAt < c.data.createdAt && p.data.effectiveAt <= c.data.effectiveAt
    && ClaimFits(p, c, LossOf(p, c))
  }

  ghost predicate ClaimFits(p: Manifest, c: Manifest, loss: Loss) {
    if Nothing(loss) then
      c.data.claim.None? && c.data.vision == p.data.vision
    else
      && c.data.claim.Some?
      && var claim := c.data.claim.value.data;
         && claim.predecessorId == p.id
         && claim.previousVision == p.data.vision && claim.narrowedVision == c.data.vision
         && Claimed(claim) == loss
  }

  // ---------------------------------------------------------------- the comparison as it runs

  datatype Blocker =
    | NotExactPredecessor | NotLater | ClaimOnAdditive | VisionChangedOnAdditive | UnclaimedReduction
    | ClaimWrongPredecessor | ClaimWrongPreviousVision | ClaimWrongNarrowedVision | ClaimNotExact

  datatype Diff = Diff(
    addedEntryIds: seq<string>, addedQuestionIds: seq<string>,
    removedEntryIds: seq<string>, removedQuestionIds: seq<string>,
    removedFloorEntryIds: seq<string>, removedFloorQuestionIds: seq<string>,
    weakenedAliases: seq<string>, weakenedKeys: seq<string>, decreasedDimensions: seq<string>,
    universeSubstituted: bool, blockers: seq<Blocker>)

  /** The lists of a diff, sorted, are the sets of the loss. */
  ghost predicate Lists(d: Diff, loss: Loss) {
    && Ascending(TextLess, d.removedEntryIds) && Elements(d.removedEntryIds) == loss.entries
    && Ascending(TextLess, d.removedQuestionIds) && Elements(d.removedQuestionIds) == loss.questions
    && Ascending(TextLess, d.removedFloorEntryIds) && Elements(d.removedFloorEntryIds) == loss.floorEntries
    && Ascending(TextLess, d.removedFloorQuestionIds) && Elements(d.removedFloorQuestionIds) == loss.floorQuestions
    && Ascending(TextLess, d.weakenedAliases) && Elements(d.weakenedAliases) == loss.weakenedAliases
    && Ascending(TextLess, d.weakenedKeys) && Elements(d.weakenedKeys) == loss.weakenedKeys
    && Ascending(TextLess, d.decreasedDimensions) && Elements(d.decreasedDimensions) == loss.dimensions
    && d.universeSubstituted == loss.universe
  }

  /** The tuple comparison of the claim with the detected changes. */
  predicate SameTuples(claim: ClaimContent, d: Diff) {
    && claim.removedEntryIds == d.removedEntryIds && claim.removedQuestionIds == d.removedQuestionIds
    && claim.removedFloorEntryIds == d.removedFloorEntryIds
    && claim.removedFloorQuestionIds == d.removedFloorQuestionIds
    && claim.weakenedAliases == d.weakenedAliases && claim.weakenedKeys == d.weakenedKeys
    && claim.decreasedDimensions == d.decreasedDimensions
    && claim.universeSubstitution == d.universeSubstituted
  }

  lemma SameTuple(a: seq<string>, b: seq<string>)
    requires Ascending(TextLess, a) && Ascending(TextLess, b)
    ensures a == b <==> Elements(a) == Elements(b)
  {
    TextOrder();
    if Elements(a) == Elements(b) {
      AscendingUnique(TextLess, a, b);
    }
  }

  /** On tuples stored sorted and without duplicates, comparing tuples is comparing sets of changes. */
  lemma TuplesCompareAsSets(claim: ClaimContent, d: Diff, loss: Loss)
    requires SortedClaim(claim) && Lists(d, loss)
    ensures SameTuples(claim, d) <==> Claimed(claim) == loss
  {
    SameTuple(claim.removedEntryIds, d.removedEntryIds);
    SameTuple(claim.removedQuestionIds, d.removedQuestionIds);
    SameTuple(claim.removedFloorEntryIds, d.removedFloorEntryIds);
    SameTuple(claim.removedFloorQuestionIds, d.removedFloorQuestionIds);
    SameTuple(claim.weakenedAliases, d.weakenedAliases);
    SameTuple(claim.weakenedKeys, d.weakenedKeys);
    SameTuple(claim.decreasedDimensions, d.decreasedDimensions);
  }

  lemma NothingListed(d: Diff, loss: Loss)
    requires Lists(d, loss)
    ensures Nothing(loss) <==>
            d.removedEntryIds == [] && d.removedQuestionIds == [] && d.removedFloorEntryIds == []
            && d.removedFloorQuestionIds == [] && d.weakenedAliases == [] && d.weakenedKeys == []
            && d.decreasedDimensions == [] && !d.universeSubstituted
  {
    EmptyList(d.removedEntryIds);
    EmptyList(d.removedQuestionIds);
    EmptyList(d.removedFloorEntryIds);
    EmptyList(d.removedFloorQuestionIds);
    EmptyList(d.weakenedAliases);
    EmptyList(d.weakenedKeys);
    EmptyList(d.decreasedDimensions);
  }

  lemma EmptyList(s: seq<string>)
    ensures s == [] <==> Elements(s) == {}
  {
    if s != [] {
      assert s[0] in Elements(s);
    }
  }

  method ListLoss(loss: Loss, addedEntries: set<string>, addedQuestions: set<string>) returns (d: Diff)
    ensures Lists(d, loss) && d.blockers == []
    ensures Elements(d.addedEntryIds) == addedEntries && Elements(d.addedQuestionIds) == addedQuestions
  {
    var a := SortedStrings(addedEntries);
    var b := SortedStrings(addedQuestions);
    var e := SortedStrings(loss.entries);
    var q := SortedStrings(loss.questions);
    var fe := SortedStrings(loss.floorEntries);
    var fq := SortedStrings(loss.floorQuestions);
    var wa := SortedStrings(loss.weakenedAliases);
    var wk := SortedStrings(loss.weakenedKeys);
    var dims := SortedStrings(loss.dimensions);
    d := Diff(a, b, e, q, fe, fq, wa, wk, dims, loss.universe, []);
  }

  /** The checks of a claim against the detected changes. */
  method CheckClaim(p: Manifest, c: Manifest, claim: ClaimContent, d: Diff) returns (blockers: seq<Blocker>)
    ensures blockers == [] <==>
            claim.predecessorId == p.id && claim.previousVision == p.data.vision
            && claim.narrowedVision == c.data.vision && SameTuples(claim, d)
    ensures UnclaimedReduction !in blockers
  {
    blockers := [];
    if claim.predecessorId != p.id {
      blockers := blockers + [ClaimWrongPredecessor];
    }
    if claim.previousVision != p.data.vision {
      blockers := blockers + [ClaimWrongPreviousVision];
    }
    if claim.narrowedVision != c.data.vision {
      blockers := blockers + [ClaimWrongNarrowedVision];
    }
    if !SameTuples(claim, d) {
      blockers := blockers + [ClaimNotExact];
    }
  }

  /** What a reduction, or the lack of one, demands of the claim. */
  method ClaimBlockers(p: Manifest, c: Manifest, d: Diff, ghost loss: Loss) returns (more: seq<Blocker>)
    requires Lists(d, loss)
    requires c.data.claim.Some? ==> SortedClaim(c.data.claim.value.data)
    ensures more == [] <==> ClaimFits(p, c, loss)
    ensures UnclaimedReduction in more <==> !Nothing(loss) && c.data.claim.None?
  {
    var changed := d.removedEntryIds != [] || d.removedQuestionIds != [] || d.removedFloorEntryIds != []
                   || d.removedFloorQuestionIds != [] || d.weakenedAliases != [] || d.weakenedKeys != []
                   || d.decreasedDimensions != [] || d.universeSubstituted;
    NothingListed(d, loss);
    more := [];
    if !changed {
      if c.data.claim.Some? {
        more := more + [ClaimOnAdditive];
      }
      if c.data.vision != p.data.vision {
        more := more + [VisionChangedOnAdditive];
      }
    } else if c.data.claim.None? {
      more := [UnclaimedReduction];
    } else {
      TuplesCompareAsSets(c.data.claim.value.data, d, loss);
      more := CheckClaim(p, c, c.data.claim.value.data, d);
    }
  }

  /** The comparison: it lists exactly what is lost, and reports no blocker exactly when the
      transition is allowed. */
  method DiffCatalogs(p: Manifest, c: Manifest) returns (d: Diff)
    requires Comparable(p, c)
    requires c.data.claim.Some? ==> SortedClaim(c.data.claim.value.data)
    ensures Lists(d, LossOf(p, c))
    ensures Elements(d.addedEntryIds) == EntryIds(c) - EntryIds(p)
    ensures Elements(d.addedQuestionIds) == QuestionIds(c) - QuestionIds(p)
    ensures d.blockers == [] <==> Accepted(p, c)
    ensures UnclaimedReduction in d.blockers <==> !Nothing(LossOf(p, c)) && c.data.claim.None?
  {
    d := ListLoss(LossOf(p, c), EntryIds(c) - EntryIds(p), QuestionIds(c) - QuestionIds(p));
    var blockers: seq<Blocker> := [];
    if c.data.predecessorId != Some(p.id) {
      blockers := blockers + [NotExactPredecessor];
    }
    if c.data.createdAt <= p.data.createdAt || c.data.effectiveAt < p.data.effectiveAt {
      blockers := blockers + [NotLater];
    }
    var more := ClaimBlockers(p, c, d, LossOf(p, c));
    d := d.(blockers := blockers + more);
  }

  // ---------------------------------------------------------------- one transition

  lemma {:induction false} LevelOfEntry(entries: seq<Entry>, e: Entry)
    requires AliasesDistinct(entries) && e in entries
    ensures e.data.alias in EntryLevels(entries) && EntryLevels(entries)[e.data.alias] == e.data.level
  {
    var init, last := entries[..|entries| - 1], entries[|entries| - 1];
    assert entries == init + [last];
    if e != last {
      LevelOfEntry(init, e);
    }
  }

  lemma {:induction false} EntryOfLevel(entries: seq<Entry>, alias: string) returns (e: Entry)
    requires alias in EntryLevels(entries)
    ensures e in entries && e.data.alias == alias && e.data.level == EntryLevels(entries)[alias]
  {
    e := entries[|entries| - 1];
    if e.data.alias != alias {
      e := EntryOfLevel(entries[..|entries| - 1], alias);
    }
  }

  lemma {:induction false} LevelOfQuestion(questions: seq<Question>, q: Question)
    requires KeysDistinct(questions) && q in questions
    ensures q.data.key in QuestionLevels(questions) && QuestionLevels(questions)[q.data.key] == q.data.level
  {
    var init, last := questions[..|questions| - 1], questions[|questions| - 1];
    assert questions == init + [last];
    if q != last {
      LevelOfQuestion(init, q);
    }
  }

  lemma {:induction false} QuestionOfLevel(questions: seq<Question>, key: string) returns (q: Question)
    requires key in QuestionLevels(questions)
    ensures q in questions && q.data.key == key && q.data.level == QuestionLevels(questions)[key]
  {
    q := questions[|questions| - 1];
    if q.data.key != key {
      q := QuestionOfLevel(questions[..|questions| - 1], key);
    }
  }

  lemma SameEntry(hash: Hash, e: Entry, e': Entry)
    requires Injective(hash) && ValidEntry(hash, e) && ValidEntry(hash, e') && e.id == e'.id
    ensures e == e'
  {
    AddressInjective("catalog-entry", e.hash, e'.hash);
    assert OfEntry(e.data) == OfEntry(e'.data);
  }

  lemma SameQuestion(hash: Hash, q: Question, q': Question)
    requires Injective(hash) && ValidQuestion(hash, q) && ValidQuestion(hash, q') && q.id == q'.id
    ensures q == q'
  {
    AddressInjective("canonical-question", q.hash, q'.hash);
    assert OfQuestion(q.data) == OfQuestion(q'.data);
  }

  /** An entry weakened under its alias is also an entry removed: its content address went away. */
  lemma WeakenedEntryIsRemoved(hash: Hash, p: Manifest, c: Manifest, alias: string)
    requires Injective(hash) && Valid(hash, p) && Valid(hash, c)
    requires alias in LossOf(p, c).weakenedAliases
    ensures exists e :: e in p.data.entries && e.data.alias == alias && e.id in LossOf(p, c).entries
  {
    var e := EntryOfLevel(p.data.entries, alias);
    var e' := EntryOfLevel(c.data.entries, alias);
    assert e.id in EntryIds(p);
    if e.id in EntryIds(c) {
      var same :| same in c.data.entries && same.id == e.id;
      SameEntry(hash, e, same);
    }
  }

  lemma WeakenedQuestionIsRemoved(hash: Hash, p: Manifest, c: Manifest, key: string)
    requires Injective(hash) && Valid(hash, p) && Valid(hash, c)
    requires key in LossOf(p, c).weakenedKeys
    ensures exists q :: q in p.data.questions && q.data.key == key && q.id in LossOf(p, c).questions
  {
    var q := QuestionOfLevel(p.data.questions, key);
    var q' := QuestionOfLevel(c.data.questions, key);
    assert q.id in QuestionIds(p);
    if q.id in QuestionIds(c) {
      var same :| same in c.data.questions && same.id == q.id;
      SameQuestion(hash, q, same);
    }
  }

  /** A transition accepted without a claim keeps every entry and every question of its predecessor,
      record for record. */
  lemma UnclaimedKeepsVerbatim(hash: Hash, p: Manifest, c: Manifest)
    requires Injective(hash) && Valid(hash, p) && Valid(hash, c)
    requires Accepted(p, c) && c.data.claim.None?
    ensures forall e :: e in p.data.entries ==> e in c.data.entries
    ensures forall q :: q in p.data.questions ==> q in c.data.questions
  {
    forall e | e in p.data.entries
      ensures e in c.data.entries
    {
      assert e.id in EntryIds(p) && e.id !in LossOf(p, c).entries;
      var same :| same in c.data.entries && same.id == e.id;
      SameEntry(hash, e, same);
    }
    forall q | q in p.data.questions
      ensures q in c.data.questions
    {
      assert q.id in QuestionIds(p) && q.id !in LossOf(p, c).questions;
      var same :| same in c.data.questions && same.id == q.id;
      SameQuestion(hash, q, same);
    }
  }

  /** In an accepted transition three things happen together or not at all: scope is lost, a claim is
      carried, the vision is revised. */
  lemma LossClaimAndVisionCoincide(hash: Hash, p: Manifest, c: Manifest)
    requires Valid(hash, p) && Valid(hash, c) && Accepted(p, c)
    ensures Nothing(LossOf(p, c)) <==> c.data.claim.None?
    ensures c.data.claim.None? <==> c.data.vision == p.data.vision
  {
  }

  // ---------------------------------------------------------------- chains

  /** Successive catalogs, each accepted after the one before. */
  ghost predicate Chain(hash: Hash, cs: seq<Manifest>) {
    && cs != []
    && (forall i :: 0 <= i < |cs| ==> Valid(hash, cs[i]))
    && (forall i :: 0 <= i < |cs| - 1 ==> Accepted(cs[i], cs[i + 1]))
  }

  /** The union of what the claims on the way enumerated. */
  ghost function ClaimedOn(cs: seq<Manifest>): Loss {
    if |cs| <= 1 then NO_LOSS
    else Both(ClaimedOn(cs[..|cs| - 1]), ClaimOf(cs[|cs| - 1]))
  }

  function Both(a: Loss, b: Loss): Loss {
    Loss(a.entries + b.entries, a.questions + b.questions,
         a.floorEntries + b.floorEntries, a.floorQuestions + b.floorQuestions,
         a.weakenedAliases + b.weakenedAliases, a.weakenedKeys + b.weakenedKeys,
         a.dimensions + b.dimensions, a.universe || b.universe)
  }

  /** `a` is contained in `b`, dimension by dimension, as far as identities and minimums go. */
  predicate Within(a: Loss, b: Loss) {
    && a.entries <= b.entries && a.questions <= b.questions
    && a.floorEntries <= b.floorEntries && a.floorQuestions <= b.floorQuestions
    && a.dimensions <= b.dimensions && (a.universe ==> b.universe)
  }

  function ClaimOf(c: Manifest): Loss {
    if c.data.claim.None? then NO_LOSS else Claimed(c.data.claim.value.data)
  }

  /** What the chain arguments need of one transition. */
  ghost predicate Step(p: Manifest, c: Manifest) {
    Comparable(p, c) && p.data.createdAt < c.data.createdAt && LossOf(p, c) == ClaimOf(c)
  }

  ghost predicate Steps(cs: seq<Manifest>) {
    forall i :: 0 <= i < |cs| - 1 ==> Step(cs[i], cs[i + 1])
  }

  lemma AcceptedIsStep(hash: Hash, p: Manifest, c: Manifest)
    requires Valid(hash, p) && Valid(hash, c) && Accepted(p, c)
    ensures Step(p, c)
  {
  }

  lemma ChainSteps(hash: Hash, cs: seq<Manifest>)
    requires Chain(hash, cs)
    ensures Steps(cs) && Comparable(cs[0], cs[|cs| - 1])
  {
    forall i | 0 <= i < |cs| - 1
      ensures Step(cs[i], cs[i + 1])
    {
      AcceptedIsStep(hash, cs[i], cs[i + 1]);
    }
  }

  /** What is missing at the end was lost before the last step or in it. */
  lemma LossComposes(a: Manifest, b: Manifest, c: Manifest)
    requires Comparable(a, b) && Comparable(b, c)
    ensures Within(LossOf(a, c), Both(LossOf(a, b), LossOf(b, c)))
  {
  }

  lemma WithinBoth(a: Loss, b: Loss, c: Loss, d: Loss)
    requires Within(a, Both(b, c)) && Within(b, d)
    ensures Within(a, Both(d, c))
  {
  }

  lemma {:induction false} StepsAreClaimed(cs: seq<Manifest>)
    requires cs != [] && Steps(cs) && Comparable(cs[0], cs[|cs| - 1])
    ensures Within(LossOf(cs[0], cs[|cs| - 1]), ClaimedOn(cs))
  {
    if |cs| >= 2 {
      var before, last := cs[..|cs| - 1], |cs| - 1;
      assert Step(cs[last - 1], cs[last]);
      assert forall i :: 0 <= i < |before| ==> before[i] == cs[i];
      StepsAreClaimed(before);
      LossComposes(cs[0], cs[last - 1], cs[last]);
      WithinBoth(LossOf(cs[0], cs[last]), LossOf(cs[0], cs[last - 1]), ClaimOf(cs[last]), ClaimedOn(before));
    }
  }

  /** No silent loss: whatever the last catalog of a chain lacks against the first, a claim on the way
      enumerated. */
  lemma LossIsAlwaysClaimed(hash: Hash, cs: seq<Manifest>)
    requires Chain(hash, cs)
    ensures Comparable(cs[0], cs[|cs| - 1])
    ensures Within(LossOf(cs[0], cs[|cs| - 1]), ClaimedOn(cs))
  {
    ChainSteps(hash, cs);
    StepsAreClaimed(cs);
  }

  /** Nor does a requirement weaken silently: an alias weaker at the end of a chain than at its start
      belonged to an entry that a claim on the way enumerated. */
  lemma WeakenedEntryIsClaimed(hash: Hash, cs: seq<Manifest>, alias: string)
    requires Injective(hash) && Chain(hash, cs)
    requires Comparable(cs[0], cs[|cs| - 1]) && alias in LossOf(cs[0], cs[|cs| - 1]).weakenedAliases
    ensures exists e :: e in cs[0].data.entries && e.data.alias == alias && e.id in ClaimedOn(cs).entries
  {
    LossIsAlwaysClaimed(hash, cs);
    WeakenedEntryIsRemoved(hash, cs[0], cs[|cs| - 1], alias);
  }

  /** The same for the keys of questions. */
  lemma WeakenedQuestionIsClaimed(hash: Hash, cs: seq<Manifest>, key: string)
    requires Injective(hash) && Chain(hash, cs)
    requires Comparable(cs[0], cs[|cs| - 1]) && key in LossOf(cs[0], cs[|cs| - 1]).weakenedKeys
    ensures exists q :: q in cs[0].data.questions && q.data.key == key && q.id in ClaimedOn(cs).questions
  {
    LossIsAlwaysClaimed(hash, cs);
    WeakenedQuestionIsRemoved(hash, cs[0], cs[|cs| - 1], key);
  }

  /** What an unclaimed chain preserves. */
  ghost predicate Grew(a: Manifest, b: Manifest)
    requires Comparable(a, b)
  {
    && (forall e :: e in a.data.entries ==> e in b.data.entries)
    && (forall q :: q in a.data.questions ==> q in b.data.questions)
    && FloorEntryIds(a) <= FloorEntryIds(b) && FloorQuestionIds(a) <= FloorQuestionIds(b)
    && (forall d :: d in DIMENSIONS ==> a.data.floor.data.minimums[d] <= b.data.floor.data.minimums[d])
    && a.data.floor.data.universe == b.data.floor.data.universe
    && a.data.vision == b.data.vision
  }

  lemma NothingTakenAway(a: set<string>, b: set<string>)
    requires a - b == {}
    ensures a <= b
  {
    forall x | x in a
      ensures x in b
    {
      assert x !in a - b;
    }
  }

  lemma UnclaimedStepGrows(hash: Hash, p: Manifest, c: Manifest)
    requires Injective(hash) && Valid(hash, p) && Valid(hash, c) && Accepted(p, c) && c.data.claim.None?
    ensures Grew(p, c)
  {
    UnclaimedKeepsVerbatim(hash, p, c);
    var loss := LossOf(p, c);
    assert Nothing(loss);
    forall d | d in DIMENSIONS
      ensures p.data.floor.data.minimums[d] <= c.data.floor.data.minimums[d]
    {
      assert d !in loss.dimensions;
    }
    NothingTakenAway(FloorEntryIds(p), FloorEntryIds(c));
    NothingTakenAway(FloorQuestionIds(p), FloorQuestionIds(c));
  }

  lemma GrewTransitive(a: Manifest, b: Manifest, c: Manifest)
    requires Comparable(a, b) && Comparable(b, c) && Grew(a, b) && Grew(b, c)
    ensures Grew(a, c)
  {
  }

  ghost predicate Growing(cs: seq<Manifest>) {
    forall i :: 0 <= i < |cs| - 1 ==> Comparable(cs[i], cs[i + 1]) && Grew(cs[i], cs[i + 1])
  }

  lemma {:induction false} GrowingComposes(cs: seq<Manifest>)
    requires cs != [] && Growing(cs) && Comparable(cs[0], cs[|cs| - 1])
    ensures Grew(cs[0], cs[|cs| - 1])
  {
    if |cs| >= 2 {
      var before, last := cs[..|cs| - 1], |cs| - 1;
      assert Comparable(cs[last - 1], cs[last]) && Grew(cs[last - 1], cs[last]);
      assert forall i :: 0 <= i < |before| ==> before[i] == cs[i];
      GrowingComposes(before);
      GrewTransitive(cs[0], cs[last - 1], cs[last]);
    }
  }

  lemma UnclaimedChainGrowing(hash: Hash, cs: seq<Manifest>)
    requires Injective(hash) && Chain(hash, cs)
    requires forall i :: 1 <= i < |cs| ==> cs[i].data.claim.None?
    ensures Growing(cs)
  {
    forall i | 0 <= i < |cs| - 1
      ensures Comparable(cs[i], cs[i + 1]) && Grew(cs[i], cs[i + 1])
    {
      AcceptedIsStep(hash, cs[i], cs[i + 1]);
      UnclaimedStepGrows(hash, cs[i], cs[i + 1]);
    }
  }

  /** Without a claim on the way scope only grows: entries, questions and both required sets are kept
      record for record, no minimum falls, universe and vision never change. */
  lemma UnclaimedChainsOnlyGrow(hash: Hash, cs: seq<Manifest>)
    requires Injective(hash) && Chain(hash, cs)
    requires forall i :: 1 <= i < |cs| ==> cs[i].data.claim.None?
    ensures Comparable(cs[0], cs[|cs| - 1]) && Grew(cs[0], cs[|cs| - 1])
  {
    ChainSteps(hash, cs);
    UnclaimedChainGrowing(hash, cs);
    GrowingComposes(cs);
  }

  lemma {:induction false} CreationIncreases(cs: seq<Manifest>, i: nat, j: nat)
    requires Steps(cs) && i < j < |cs|
    ensures cs[i].data.createdAt < cs[j].data.createdAt
    decreases j
  {
    assert Step(cs[j - 1], cs[j]);
    if i < j - 1 {
      CreationIncreases(cs, i, j - 1);
    }
  }

  lemma SameManifest(hash: Hash, m: Manifest, m': Manifest)
    requires Injective(hash) && Valid(hash, m) && Valid(hash, m') && m.id == m'.id
    ensures m == m'
  {
    AddressInjective("research-catalog", m.hash, m'.hash);
    assert OfManifest(m.data) == OfManifest(m'.data);
  }

  /** Revisions cannot run in a circle: no catalog id occurs twice in a chain. */
  lemma NoCycleOfCatalogs(hash: Hash, cs: seq<Manifest>, i: nat, j: nat)
    requires Injective(hash) && Chain(hash, cs) && i < j < |cs|
    ensures cs[i].id != cs[j].id
  {
    ChainSteps(hash, cs);
    CreationIncreases(cs, i, j);
    if cs[i].id == cs[j].id {
      SameManifest(hash, cs[i], cs[j]);
    }
  }

  /** Every catalog answers at least as many questions as its floor demands; along an unclaimed chain
      also as many as the floor of the first one did. */
  lemma QuestionFloorHolds(hash: Hash, cs: seq<Manifest>)
    requires Injective(hash) && Chain(hash, cs)
    requires forall i :: 1 <= i < |cs| ==> cs[i].data.claim.None?
    ensures cs[0].data.floor.data.minimums.Keys == DIMENSIONS
    ensures cs[0].data.floor.data.minimums["canonical_questions"] <= |QuestionIds(cs[|cs| - 1])|
  {
    UnclaimedChainsOnlyGrow(hash, cs);
    var first, last := cs[0], cs[|cs| - 1];
    var required := last.data.floor.data.requiredQuestionIds;
    assert Valid(hash, last);
    TextOrder();
    assert Distinct(required);
    forall id | id in required
      ensures id in QuestionIds(last)
    {
    }
    DistinctWithin(required, QuestionIds(last));
  }
}
