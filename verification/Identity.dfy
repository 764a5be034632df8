/** Content addresses, and the index every closed bundle builds over its identified records. */
module Identity {

  /** A record as the contracts see it: a logical id, the hash of its complete content, its fields. */
  datatype Record<+T> = Record(id: string, hash: string, data: T)

  // ---------------------------------------------------------------- content addresses

  /** SHA-256 over canonical JSON is not looked into: any injective function of the payload will do. */
  ghost predicate Injective<P(!new)>(hash: P -> string) {
    forall a, b :: hash(a) == hash(b) ==> a == b
  }

  datatype Stamp = Stamped(id: string, hash: string) | HashMismatch | IdMismatch

  function Address(prefix: string, digest: string): string {
    prefix + ":" + digest
  }

  /** The id is the hash of the whole content under a prefix; what the caller supplies must be empty
      or exactly that, the hash being compared first. */
  function Identify<P>(hash: P -> string, prefix: string, payload: P, suppliedId: string, suppliedHash: string): Stamp {
    var expectedHash := hash(payload);
    var expectedId := Address(prefix, expectedHash);
    if suppliedHash != "" && suppliedHash != expectedHash then HashMismatch
    else if suppliedId != "" && suppliedId != expectedId then IdMismatch
    else Stamped(expectedId, expectedHash)
  }

  /** The id hashes the natural key only, the hash covers everything; the id is compared first. */
  function IdentifyByGrain<K, P>(grainHash: K -> string, contentHash: P -> string, prefix: string,
                                 grain: K, payload: P, suppliedId: string, suppliedHash: string): Stamp {
    var expectedId := Address(prefix, grainHash(grain));
    var expectedHash := contentHash(payload);
    if suppliedId != "" && suppliedId != expectedId then IdMismatch
    else if suppliedHash != "" && suppliedHash != expectedHash then HashMismatch
    else Stamped(expectedId, expectedHash)
  }

  /** Under one prefix an address determines its digest. */
  lemma AddressInjective(prefix: string, digest: string, digest': string)
    requires Address(prefix, digest) == Address(prefix, digest')
    ensures digest == digest'
  {
    var n := |prefix| + 1;
    assert Address(prefix, digest)[n..] == digest && Address(prefix, digest')[n..] == digest';
  }

  /** Two stamped models of one kind carry the same id exactly when they have the same content, the hash of it
      under the prefix; a stamped model presented again is accepted unchanged. */
  lemma IdentifyIsContentAddressing<P(!new)>(hash: P -> string, prefix: string, a: P, b: P,
                                             idA: string, hashA: string, idB: string, hashB: string)
    requires Injective(hash)
    requires Identify(hash, prefix, a, idA, hashA).Stamped? && Identify(hash, prefix, b, idB, hashB).Stamped?
    ensures var s, t := Identify(hash, prefix, a, idA, hashA), Identify(hash, prefix, b, idB, hashB);
            && (s.id == t.id <==> a == b)
            && Identify(hash, prefix, a, s.id, s.hash) == s
            && (a != b ==> !Identify(hash, prefix, b, s.id, hashB).Stamped?)
            && s.id == prefix + ":" + hash(a) && s.hash == hash(a)
            && hashA in {"", s.hash} && idA in {"", s.id}
  {
    var s, t := Identify(hash, prefix, a, idA, hashA), Identify(hash, prefix, b, idB, hashB);
    if s.id == t.id {
      AddressInjective(prefix, hash(a), hash(b));
    }
    if a != b {
      assert s.id != "" && s.id != t.id;
    }
  }

  /** A wrong hash is told first here, a wrong id first with a natural key; what is right or not supplied is
      never refused. */
  lemma WhatIsRefused<P(!new)>(hash: P -> string, prefix: string, p: P, id: string, supplied: string)
    ensures Identify(hash, prefix, p, id, supplied) == HashMismatch <==> supplied !in {"", hash(p)}
    ensures Identify(hash, prefix, p, id, supplied) == IdMismatch <==>
            supplied in {"", hash(p)} && id !in {"", prefix + ":" + hash(p)}
    ensures forall grainHash: P -> string, k ::
              var r := IdentifyByGrain(grainHash, hash, prefix, k, p, id, supplied);
              && (r == IdMismatch <==> id !in {"", prefix + ":" + grainHash(k)})
              && (r == HashMismatch <==>
                    id in {"", prefix + ":" + grainHash(k)} && supplied !in {"", hash(p)})
  {
    assert forall d :: Address(prefix, d) == prefix + ":" + d;
  }

  /** With a natural key, equal ids mean equal keys only: a changed record under an unchanged key keeps
      its id and is told apart by its hash. */
  lemma GrainSeparatesIdentityFromContent<K(!new), P(!new)>(
      grainHash: K -> string, contentHash: P -> string, prefix: string, k: K, p: P, k': K, p': P)
    requires Injective(grainHash) && Injective(contentHash)
    ensures var s := IdentifyByGrain(grainHash, contentHash, prefix, k, p, "", "");
            var t := IdentifyByGrain(grainHash, contentHash, prefix, k', p', "", "");
            && s.Stamped? && t.Stamped?
            && (s.id == t.id <==> k == k')
            && (s.hash == t.hash <==> p == p')
            && s.id == prefix + ":" + grainHash(k) && s.hash == contentHash(p)
  {
    var s := IdentifyByGrain(grainHash, contentHash, prefix, k, p, "", "");
    var t := IdentifyByGrain(grainHash, contentHash, prefix, k', p', "", "");
    if s.id == t.id {
      AddressInjective(prefix, grainHash(k), grainHash(k'));
    }
  }

  // ---------------------------------------------------------------- the index of a bundle

  /** The dictionary that reading the records in order leaves behind. */
  function Table<T>(values: seq<Record<T>>): (table: map<string, Record<T>>)
    ensures forall k :: k in table ==> table[k] in values && table[k].id == k
  {
    if values == [] then map[]
    else
      var last := values[|values| - 1];
      Table(values[..|values| - 1])[last.id := last]
  }

  lemma {:induction false} TableHasAll<T>(values: seq<Record<T>>, i: nat)
    requires i < |values|
    ensures values[i].id in Table(values)
  {
    var init := values[..|values| - 1];
    if i < |init| {
      TableHasAll(init, i);
      assert init[i] == values[i];
    }
  }

  /** No id repeats: reading in order, every id is new to the dictionary. */
  predicate DistinctIds<T>(values: seq<Record<T>>) {
    values == []
    || (values[|values| - 1].id !in Table(values[..|values| - 1]) && DistinctIds(values[..|values| - 1]))
  }

  lemma {:induction false} DistinctIdsMeaning<T>(values: seq<Record<T>>)
    ensures DistinctIds(values) <==> forall i, j :: 0 <= i < j < |values| ==> values[i].id != values[j].id
  {
    if values != [] {
      var init, last := values[..|values| - 1], values[|values| - 1];
      DistinctIdsMeaning(init);
      assert forall i :: 0 <= i < |init| ==> init[i] == values[i];
      if last.id in Table(init) {
        var i :| 0 <= i < |init| && init[i] == Table(init)[last.id];
        assert values[i].id == values[|values| - 1].id;
      } else {
        forall i | 0 <= i < |init|
          ensures values[i].id != last.id
        {
          TableHasAll(init, i);
        }
      }
    }
  }

  lemma {:induction false} DistinctIdsPrefix<T>(values: seq<Record<T>>, j: nat)
    requires DistinctIds(values) && j <= |values|
    ensures DistinctIds(values[..j])
  {
    if j < |values| {
      var init := values[..|values| - 1];
      DistinctIdsPrefix(init, j);
      assert init[..j] == values[..j];
    } else {
      assert values[..j] == values;
    }
  }

  /** When no id repeats, no record was overwritten. */
  lemma {:induction false} TableKeepsAll<T>(values: seq<Record<T>>, v: Record<T>)
    requires DistinctIds(values) && v in values
    ensures v.id in Table(values) && Table(values)[v.id] == v
  {
    var init, last := values[..|values| - 1], values[|values| - 1];
    if v != last {
      assert values == init + [last];
      TableKeepsAll(init, v);
    }
  }

  /** The first record whose id came before decides: other content is a conflict, the same content a
      plain duplicate. */
  datatype IndexResult<T> = Indexed(table: map<string, Record<T>>) | Conflict(id: string) | Duplicate(id: string)

  /** `r` reports the first collision in the tuple. */
  ghost predicate Collides<T>(values: seq<Record<T>>, r: IndexResult<T>)
    requires !r.Indexed?
  {
    exists i, j ::
      && 0 <= i < j < |values|
      && DistinctIds(values[..j])
      && values[i].id == values[j].id == r.id
      && (r.Conflict? <==> values[i].hash != values[j].hash)
  }

  lemma NotDistinct<T>(values: seq<Record<T>>, j: nat)
    requires j < |values| && values[j].id in Table(values[..j])
    ensures !DistinctIds(values)
  {
    assert values[..j + 1][..j] == values[..j];
    if DistinctIds(values) {
      DistinctIdsPrefix(values, j + 1);
    }
  }

  lemma CollisionFound<T>(values: seq<Record<T>>, j: nat)
    requires j < |values| && DistinctIds(values[..j]) && values[j].id in Table(values[..j])
    ensures var existing := Table(values[..j])[values[j].id];
            Collides(values, if existing.hash != values[j].hash then Conflict(values[j].id)
                             else Duplicate(values[j].id))
  {
    var prefix := values[..j];
    var i :| 0 <= i < |prefix| && prefix[i] == Table(prefix)[values[j].id];
    assert values[i] == prefix[i];
  }

  method Index<T>(values: seq<Record<T>>) returns (r: IndexResult<T>)
    ensures r.Indexed? <==> DistinctIds(values)
    ensures r.Indexed? ==> r.table == Table(values)
    ensures !r.Indexed? ==> Collides(values, r)
  {
    var index: map<string, Record<T>> := map[];
    for j := 0 to |values|
      invariant DistinctIds(values[..j])
      invariant index == Table(values[..j])
    {
      var value := values[j];
      if value.id in index {
        NotDistinct(values, j);
        CollisionFound(values, j);
        var existing := index[value.id];
        return if existing.hash != value.hash then Conflict(value.id) else Duplicate(value.id);
      }
      assert values[..j + 1][..j] == values[..j];
      index := index[value.id := value];
    }
    assert values[..|values|] == values;
    return Indexed(index);
  }
}
