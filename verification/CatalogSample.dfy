/** A chain of accepted catalogs under any hash: a second revision that adds nothing, and a third that
    lowers a minimum under a claim. What is proved of chains is about something. */
module CatalogSample {
  import opened Catalog
  import opened Identity
  import opened Options
  import opened Ordering

  function QuestionOf(hash: Hash): Question {
    var data := QuestionContent("key", "tool", ["alias"], Required, 0, "");
    var digest := hash(OfQuestion(data));
    Record(Address("canonical-question", digest), digest, data)
  }

  function EntryOf(hash: Hash): Entry {
    var data := EntryContent("alias", Required, "tool", "universe", "template", 0, [QuestionOf(hash).id], 0, "");
    var digest := hash(OfEntry(data));
    Record(Address("catalog-entry", digest), digest, data)
  }

  /** The floor asks for one of each, and for so many issuers. */
  function FloorOf(hash: Hash, issuers: nat): Floor {
    var minimums := map d | d in DIMENSIONS :: if d == "issuers" then issuers else 1;
    var data := FloorContent("universe", minimums, [EntryOf(hash).id], [QuestionOf(hash).id], 0);
    var digest := hash(OfFloor(data));
    Record(Address("research-scope-floor", digest), digest, data)
  }

  function ManifestOf(hash: Hash, vision: string, predecessor: Option<string>, issuers: nat, claim: Option<Claim>,
                      at: Instant): Manifest
  {
    var data := ManifestContent("version", vision, predecessor, FloorOf(hash, issuers), [EntryOf(hash)],
                                [QuestionOf(hash)], claim, 0, at, at);
    var digest := hash(OfManifest(data));
    Record(Address("research-catalog", digest), digest, data)
  }

  function First(hash: Hash): Manifest {
    ManifestOf(hash, "wide", None, 2, None, 1)
  }

  function Second(hash: Hash): Manifest {
    ManifestOf(hash, "wide", Some(First(hash).id), 2, None, 2)
  }

  function ClaimFor(hash: Hash): Claim {
    var data := ClaimContent(Second(hash).id, "wide", "narrow", [], [], [], [], [], [], ["issuers"], false, "", 3);
    var digest := hash(OfClaim(data));
    Record(Address("narrowed-research-claim", digest), digest, data)
  }

  function Third(hash: Hash): Manifest {
    ManifestOf(hash, "narrow", Some(Second(hash).id), 1, Some(ClaimFor(hash)), 3)
  }

  // ---------------------------------------------------------------- every catalog is valid

  lemma SampleFloor(hash: Hash, issuers: nat)
    requires issuers >= 1
    ensures ValidFloor(hash, FloorOf(hash, issuers))
  {
  }

  lemma SampleClaim(hash: Hash)
    ensures ValidClaim(hash, ClaimFor(hash))
  {
    assert "wide"[0] != "narrow"[0];
  }

  lemma SampleBinds(hash: Hash, m: Manifest)
    requires m.data.entries == [EntryOf(hash)] && m.data.questions == [QuestionOf(hash)]
    requires m.data.floor.data.requiredEntryIds == [EntryOf(hash).id]
    requires m.data.floor.data.requiredQuestionIds == [QuestionOf(hash).id]
    ensures Bound(m) && FloorMet(m)
  {
    assert m.data.entries[0] in m.data.entries && m.data.questions[0] in m.data.questions;
    assert QuestionOf(hash).data.aliases[0] in QuestionOf(hash).data.aliases;
  }

  lemma SampleManifest(hash: Hash, vision: string, predecessor: Option<string>, issuers: nat, claim: Option<Claim>,
                       at: Instant)
    requires issuers >= 1 && at >= 0
    requires claim.Some? ==> ValidClaim(hash, claim.value) && predecessor == Some(claim.value.data.predecessorId)
                             && claim.value.data.narrowedVision == vision && claim.value.data.approvedAt <= at
    ensures Valid(hash, ManifestOf(hash, vision, predecessor, issuers, claim, at))
  {
    var m := ManifestOf(hash, vision, predecessor, issuers, claim, at);
    SampleFloor(hash, issuers);
    SampleBinds(hash, m);
  }

  // ---------------------------------------------------------------- every step is accepted

  /** Two of these catalogs differ in the minimum of issuers only. */
  lemma SampleLoss(hash: Hash, p: Manifest, c: Manifest, before: nat, after: nat)
    requires p.data.entries == c.data.entries == [EntryOf(hash)]
    requires p.data.questions == c.data.questions == [QuestionOf(hash)]
    requires p.data.floor == FloorOf(hash, before) && c.data.floor == FloorOf(hash, after)
    ensures Comparable(p, c)
    ensures LossOf(p, c) == NO_LOSS.(dimensions := if after < before then {"issuers"} else {})
  {
    var levels := EntryLevels([EntryOf(hash)]);
    var keys := QuestionLevels([QuestionOf(hash)]);
    assert Weakenings(levels, levels) == {} && Weakenings(keys, keys) == {};
    assert "issuers" in DIMENSIONS;
  }

  lemma SampleSteps(hash: Hash)
    ensures Comparable(First(hash), Second(hash)) && Accepted(First(hash), Second(hash))
    ensures Comparable(Second(hash), Third(hash)) && Accepted(Second(hash), Third(hash))
  {
    SampleLoss(hash, First(hash), Second(hash), 2, 2);
    SampleLoss(hash, Second(hash), Third(hash), 2, 1);
    assert Claimed(ClaimFor(hash).data).dimensions == {"issuers"};
  }

  function Samples(hash: Hash): seq<Manifest> {
    [First(hash), Second(hash), Third(hash)]
  }

  lemma SampleValid(hash: Hash, i: nat)
    requires i < 3
    ensures Valid(hash, Samples(hash)[i])
  {
    if i == 0 {
      SampleManifest(hash, "wide", None, 2, None, 1);
    } else if i == 1 {
      SampleManifest(hash, "wide", Some(First(hash).id), 2, None, 2);
    } else {
      SampleClaim(hash);
      SampleManifest(hash, "narrow", Some(Second(hash).id), 1, Some(ClaimFor(hash)), 3);
    }
  }

  lemma SampleStep(hash: Hash, i: nat)
    requires i < 2
    ensures Comparable(Samples(hash)[i], Samples(hash)[i + 1]) && Accepted(Samples(hash)[i], Samples(hash)[i + 1])
  {
    SampleSteps(hash);
  }

  /** The three catalogs are a chain, whatever the hash. */
  lemma SampleIsAChain(hash: Hash)
    ensures Chain(hash, Samples(hash))
  {
    forall i | 0 <= i < 3
      ensures Valid(hash, Samples(hash)[i])
    {
      SampleValid(hash, i);
    }
    forall i | 0 <= i < 2
      ensures Comparable(Samples(hash)[i], Samples(hash)[i + 1])
      ensures Accepted(Samples(hash)[i], Samples(hash)[i + 1])
    {
      SampleStep(hash, i);
    }
  }
}
