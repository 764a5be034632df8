/** The comparison of catalogs once more, on the records' fields alone. */
module CatalogReference {
  import opened Catalog
  import opened Identity
  import opened Options
  import opened Ordering

  /** A requirement weakened: required before and not any more, or optional before and not applicable now. */
  predicate Weaker(before: Level, after: Level) {
    (before == Required && after != Required) || (before == Optional && after == NotApplicable)
  }

  // ---------------------------------------------------------------- what is lost, on fields

  ghost predicate EntryGone(p: Manifest, c: Manifest, id: string) {
    && (exists e :: e in p.data.entries && e.id == id)
    && (forall e :: e in c.data.entries ==> e.id != id)
  }

  ghost predicate QuestionGone(p: Manifest, c: Manifest, id: string) {
    && (exists q :: q in p.data.questions && q.id == id)
    && (forall q :: q in c.data.questions ==> q.id != id)
  }

  ghost predicate AliasWeaker(p: Manifest, c: Manifest, alias: string) {
    exists e, e' :: e in p.data.entries && e' in c.data.entries && e.data.alias == alias && e'.data.alias == alias
                    && Weaker(e.data.level, e'.data.level)
  }

  ghost predicate KeyWeaker(p: Manifest, c: Manifest, key: string) {
    exists q, q' :: q in p.data.questions && q' in c.data.questions && q.data.key == key && q'.data.key == key
                    && Weaker(q.data.level, q'.data.level)
  }

  predicate MinimumLower(p: Manifest, c: Manifest, d: string) {
    && d in p.data.floor.data.minimums && d in c.data.floor.data.minimums
    && c.data.floor.data.minimums[d] < p.data.floor.data.minimums[d]
  }

  // ---------------------------------------------------------------- it is what the comparison finds

  lemma WeakerMeaning(before: Level, after: Level)
    ensures Strength(after) < Strength(before) <==> Weaker(before, after)
  {
  }

  /** An alias is found weakened exactly when the entries under it say so. */
  lemma WeakenedAliasMeaning(p: Manifest, c: Manifest, alias: string)
    requires Comparable(p, c) && AliasesDistinct(p.data.entries) && AliasesDistinct(c.data.entries)
    ensures alias in LossOf(p, c).weakenedAliases <==> AliasWeaker(p, c, alias)
  {
    if alias in LossOf(p, c).weakenedAliases {
      var e := EntryOfLevel(p.data.entries, alias);
      var e' := EntryOfLevel(c.data.entries, alias);
      WeakerMeaning(e.data.level, e'.data.level);
    }
    forall e, e' | e in p.data.entries && e' in c.data.entries && e.data.alias == alias && e'.data.alias == alias
                   && Weaker(e.data.level, e'.data.level)
      ensures alias in LossOf(p, c).weakenedAliases
    {
      LevelOfEntry(p.data.entries, e);
      LevelOfEntry(c.data.entries, e');
      WeakerMeaning(e.data.level, e'.data.level);
    }
  }

  /** A question key is found weakened exactly when the questions under it say so. */
  lemma WeakenedKeyMeaning(p: Manifest, c: Manifest, key: string)
    requires Comparable(p, c) && KeysDistinct(p.data.questions) && KeysDistinct(c.data.questions)
    ensures key in LossOf(p, c).weakenedKeys <==> KeyWeaker(p, c, key)
  {
    if key in LossOf(p, c).weakenedKeys {
      var q := QuestionOfLevel(p.data.questions, key);
      var q' := QuestionOfLevel(c.data.questions, key);
      WeakerMeaning(q.data.level, q'.data.level);
    }
    forall q, q' | q in p.data.questions && q' in c.data.questions && q.data.key == key && q'.data.key == key
                   && Weaker(q.data.level, q'.data.level)
      ensures key in LossOf(p, c).weakenedKeys
    {
      LevelOfQuestion(p.data.questions, q);
      LevelOfQuestion(c.data.questions, q');
      WeakerMeaning(q.data.level, q'.data.level);
    }
  }

  /** The other losses: records and floor members gone, minimums lower, another universe. */
  lemma LossMeaning(p: Manifest, c: Manifest, x: string)
    requires Comparable(p, c)
    ensures x in LossOf(p, c).entries <==> EntryGone(p, c, x)
    ensures x in LossOf(p, c).questions <==> QuestionGone(p, c, x)
    ensures x in LossOf(p, c).floorEntries <==>
            x in p.data.floor.data.requiredEntryIds && x !in c.data.floor.data.requiredEntryIds
    ensures x in LossOf(p, c).floorQuestions <==>
            x in p.data.floor.data.requiredQuestionIds && x !in c.data.floor.data.requiredQuestionIds
    ensures x in LossOf(p, c).dimensions <==> MinimumLower(p, c, x)
    ensures LossOf(p, c).universe <==> p.data.floor.data.universe != c.data.floor.data.universe
  {
  }

  // ---------------------------------------------------------------- acceptance, on fields

  /** Something is lost. */
  ghost predicate Narrows(p: Manifest, c: Manifest) {
    || (exists id :: EntryGone(p, c, id)) || (exists id :: QuestionGone(p, c, id))
    || (exists id :: id in p.data.floor.data.requiredEntryIds && id !in c.data.floor.data.requiredEntryIds)
    || (exists id :: id in p.data.floor.data.requiredQuestionIds && id !in c.data.floor.data.requiredQuestionIds)
    || (exists alias :: AliasWeaker(p, c, alias)) || (exists key :: KeyWeaker(p, c, key))
    || (exists d :: MinimumLower(p, c, d))
    || p.data.floor.data.universe != c.data.floor.data.universe
  }

  /** The claim lists exactly what is lost. */
  ghost predicate Enumerates(claim: ClaimContent, p: Manifest, c: Manifest) {
    && (forall x :: x in claim.removedEntryIds <==> EntryGone(p, c, x))
    && (forall x :: x in claim.removedQuestionIds <==> QuestionGone(p, c, x))
    && (forall x :: x in claim.removedFloorEntryIds <==>
          x in p.data.floor.data.requiredEntryIds && x !in c.data.floor.data.requiredEntryIds)
    && (forall x :: x in claim.removedFloorQuestionIds <==>
          x in p.data.floor.data.requiredQuestionIds && x !in c.data.floor.data.requiredQuestionIds)
    && (forall x :: x in claim.weakenedAliases <==> AliasWeaker(p, c, x))
    && (forall x :: x in claim.weakenedKeys <==> KeyWeaker(p, c, x))
    && (forall x :: x in claim.decreasedDimensions <==> MinimumLower(p, c, x))
    && (claim.universeSubstitution <==> p.data.floor.data.universe != c.data.floor.data.universe)
  }

  lemma NarrowsMeaning(p: Manifest, c: Manifest)
    requires Comparable(p, c) && AliasesDistinct(p.data.entries) && AliasesDistinct(c.data.entries)
    requires KeysDistinct(p.data.questions) && KeysDistinct(c.data.questions)
    ensures Nothing(LossOf(p, c)) <==> !Narrows(p, c)
  {
    var loss := LossOf(p, c);
    forall x
      ensures x in loss.entries <==> EntryGone(p, c, x)
      ensures x in loss.questions <==> QuestionGone(p, c, x)
      ensures x in loss.floorEntries <==>
              x in p.data.floor.data.requiredEntryIds && x !in c.data.floor.data.requiredEntryIds
      ensures x in loss.floorQuestions <==>
              x in p.data.floor.data.requiredQuestionIds && x !in c.data.floor.data.requiredQuestionIds
      ensures x in loss.dimensions <==> MinimumLower(p, c, x)
      ensures x in loss.weakenedAliases <==> AliasWeaker(p, c, x)
      ensures x in loss.weakenedKeys <==> KeyWeaker(p, c, x)
    {
      LossMeaning(p, c, x);
      WeakenedAliasMeaning(p, c, x);
      WeakenedKeyMeaning(p, c, x);
    }
  }

  lemma EnumeratesMeaning(claim: ClaimContent, p: Manifest, c: Manifest)
    requires Comparable(p, c) && AliasesDistinct(p.data.entries) && AliasesDistinct(c.data.entries)
    requires KeysDistinct(p.data.questions) && KeysDistinct(c.data.questions)
    ensures Claimed(claim) == LossOf(p, c) <==> Enumerates(claim, p, c)
  {
    var loss, claimed := LossOf(p, c), Claimed(claim);
    forall x
      ensures x in loss.entries <==> EntryGone(p, c, x)
      ensures x in loss.questions <==> QuestionGone(p, c, x)
      ensures x in loss.floorEntries <==>
              x in p.data.floor.data.requiredEntryIds && x !in c.data.floor.data.requiredEntryIds
      ensures x in loss.floorQuestions <==>
              x in p.data.floor.data.requiredQuestionIds && x !in c.data.floor.data.requiredQuestionIds
      ensures x in loss.dimensions <==> MinimumLower(p, c, x)
      ensures x in loss.weakenedAliases <==> AliasWeaker(p, c, x)
      ensures x in loss.weakenedKeys <==> KeyWeaker(p, c, x)
    {
      LossMeaning(p, c, x);
      WeakenedAliasMeaning(p, c, x);
      WeakenedKeyMeaning(p, c, x);
    }
    SameSets(claimed, loss);
  }

  lemma SameSets(a: Loss, b: Loss)
    ensures a == b <==>
            && (forall x :: x in a.entries <==> x in b.entries) && (forall x :: x in a.questions <==> x in b.questions)
            && (forall x :: x in a.floorEntries <==> x in b.floorEntries)
            && (forall x :: x in a.floorQuestions <==> x in b.floorQuestions)
            && (forall x :: x in a.weakenedAliases <==> x in b.weakenedAliases)
            && (forall x :: x in a.weakenedKeys <==> x in b.weakenedKeys)
            && (forall x :: x in a.dimensions <==> x in b.dimensions) && (a.universe <==> b.universe)
  {
  }

  /** The lists of the diff ascend and name exactly what is lost. */
  ghost predicate Reports(d: Diff, p: Manifest, c: Manifest) {
    && Ascending(TextLess, d.removedEntryIds) && Ascending(TextLess, d.removedQuestionIds)
    && Ascending(TextLess, d.removedFloorEntryIds) && Ascending(TextLess, d.removedFloorQuestionIds)
    && Ascending(TextLess, d.weakenedAliases) && Ascending(TextLess, d.weakenedKeys)
    && Ascending(TextLess, d.decreasedDimensions)
    && (forall x :: x in d.removedEntryIds <==> EntryGone(p, c, x))
    && (forall x :: x in d.removedQuestionIds <==> QuestionGone(p, c, x))
    && (forall x :: x in d.removedFloorEntryIds <==>
          x in p.data.floor.data.requiredEntryIds && x !in c.data.floor.data.requiredEntryIds)
    && (forall x :: x in d.removedFloorQuestionIds <==>
          x in p.data.floor.data.requiredQuestionIds && x !in c.data.floor.data.requiredQuestionIds)
    && (forall x :: x in d.weakenedAliases <==> AliasWeaker(p, c, x))
    && (forall x :: x in d.weakenedKeys <==> KeyWeaker(p, c, x))
    && (forall x :: x in d.decreasedDimensions <==> MinimumLower(p, c, x))
    && (d.universeSubstituted <==> p.data.floor.data.universe != c.data.floor.data.universe)
  }

  /** What the comparison lists is what is lost. */
  lemma ListsMeaning(d: Diff, p: Manifest, c: Manifest)
    requires Comparable(p, c) && AliasesDistinct(p.data.entries) && AliasesDistinct(c.data.entries)
    requires KeysDistinct(p.data.questions) && KeysDistinct(c.data.questions)
    requires Lists(d, LossOf(p, c))
    ensures Reports(d, p, c)
  {
    forall x
      ensures x in d.removedEntryIds <==> EntryGone(p, c, x)
      ensures x in d.removedQuestionIds <==> QuestionGone(p, c, x)
      ensures x in d.removedFloorEntryIds <==>
              x in p.data.floor.data.requiredEntryIds && x !in c.data.floor.data.requiredEntryIds
      ensures x in d.removedFloorQuestionIds <==>
              x in p.data.floor.data.requiredQuestionIds && x !in c.data.floor.data.requiredQuestionIds
      ensures x in d.weakenedAliases <==> AliasWeaker(p, c, x)
      ensures x in d.weakenedKeys <==> KeyWeaker(p, c, x)
      ensures x in d.decreasedDimensions <==> MinimumLower(p, c, x)
    {
      ListedAt(d, LossOf(p, c), x);
      LossMeaning(p, c, x);
      WeakenedAliasMeaning(p, c, x);
      WeakenedKeyMeaning(p, c, x);
    }
  }

  lemma ListedAt(d: Diff, loss: Loss, x: string)
    requires Lists(d, loss)
    ensures x in d.removedEntryIds <==> x in loss.entries
    ensures x in d.removedQuestionIds <==> x in loss.questions
    ensures x in d.removedFloorEntryIds <==> x in loss.floorEntries
    ensures x in d.removedFloorQuestionIds <==> x in loss.floorQuestions
    ensures x in d.weakenedAliases <==> x in loss.weakenedAliases
    ensures x in d.weakenedKeys <==> x in loss.weakenedKeys
    ensures x in d.decreasedDimensions <==> x in loss.dimensions
  {
    assert x in Elements(d.removedEntryIds) <==> x in d.removedEntryIds;
    assert x in Elements(d.removedQuestionIds) <==> x in d.removedQuestionIds;
    assert x in Elements(d.removedFloorEntryIds) <==> x in d.removedFloorEntryIds;
    assert x in Elements(d.removedFloorQuestionIds) <==> x in d.removedFloorQuestionIds;
    assert x in Elements(d.weakenedAliases) <==> x in d.weakenedAliases;
    assert x in Elements(d.weakenedKeys) <==> x in d.weakenedKeys;
    assert x in Elements(d.decreasedDimensions) <==> x in d.decreasedDimensions;
  }

  /** A transition is accepted exactly when it is a later revision of its exact predecessor that either loses
      nothing, carries no claim and keeps the vision, or loses something and carries a claim that binds the
      predecessor and both visions and lists exactly what is lost. */
  lemma AcceptedExactlyWhen(hash: Hash, p: Manifest, c: Manifest)
    requires Valid(hash, p) && Valid(hash, c)
    ensures Comparable(p, c)
    ensures Accepted(p, c) <==>
            && c.data.predecessorId == Some(p.id)
            && c.data.createdAt > p.data.createdAt && c.data.effectiveAt >= p.data.effectiveAt
            && (if Narrows(p, c) then
                  && c.data.claim.Some?
                  && c.data.claim.value.data.predecessorId == p.id
                  && c.data.claim.value.data.previousVision == p.data.vision
                  && c.data.claim.value.data.narrowedVision == c.data.vision
                  && Enumerates(c.data.claim.value.data, p, c)
                else
                  c.data.claim.None? && c.data.vision == p.data.vision)
  {
    NarrowsMeaning(p, c);
    if c.data.claim.Some? {
      EnumeratesMeaning(c.data.claim.value.data, p, c);
    }
  }
}
