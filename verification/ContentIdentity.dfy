/** Content ids checked over canonical JSON: what an accepted id says about the object that carries it. */
module ContentIdentity {
  import opened CanonicalJson

  /** The hash of a canonical text, with nothing assumed but that it separates texts. */
  type Digest = string -> Text

  ghost predicate Separates(digest: Digest) {
    forall s, t :: digest(s) == digest(t) ==> s == t
  }

  /** The property name whose assignment sets the prototype instead of creating a property. */
  const PROTO: Text := [0x5f, 0x5f, 0x70, 0x72, 0x6f, 0x74, 0x6f, 0x5f, 0x5f]

  const COLON: Unit := 0x3a

  /** The members kept by a filter on keys, in order. */
  function Keep(members: seq<Member>, dropped: set<Text>): (r: seq<Member>)
    ensures forall i :: 0 <= i < |r| ==> r[i] in members && r[i].key !in dropped
  {
    if members == [] then []
    else
      var init, last := Keep(members[..|members| - 1], dropped), members[|members| - 1];
      if last.key in dropped then init else init + [last]
  }

  lemma {:induction false} KeepAll(members: seq<Member>, dropped: set<Text>, m: Member)
    requires m in members && m.key !in dropped
    ensures m in Keep(members, dropped)
  {
    var init, last := members[..|members| - 1], members[|members| - 1];
    if m != last {
      assert members == init + [last];
      KeepAll(init, dropped, m);
    }
  }

  lemma {:induction false} KeepUnique(members: seq<Member>, dropped: set<Text>)
    requires UniqueKeys(members)
    ensures UniqueKeys(Keep(members, dropped))
  {
    if members != [] {
      var init, last := members[..|members| - 1], members[|members| - 1];
      KeepUnique(init, dropped);
      forall i | 0 <= i < |Keep(init, dropped)|
        ensures Keep(init, dropped)[i].key != last.key
      {
        assert Keep(init, dropped)[i] in init;
      }
    }
  }

  /** Copying property by property loses a property named `__proto__` as well as the excluded ones. */
  method CopyWithout(members: seq<Member>, excluded: set<Text>) returns (result: seq<Member>)
    requires UniqueKeys(members)
    ensures result == Keep(members, excluded + {PROTO})
  {
    result := [];
    for k := 0 to |members|
      invariant result == Keep(members[..k], excluded + {PROTO})
    {
      var m := members[k];
      assert members[..k + 1][..k] == members[..k];
      if m.key !in excluded {
        if m.key != PROTO {
          result := result + [m];
        }
      }
    }
    assert members[..|members|] == members;
  }

  /** The value of a property, if the object has it. */
  function Property(members: seq<Member>, key: Text): Outcome<Json> {
    if members == [] then Thrown
    else if members[|members| - 1].key == key then Returned(members[|members| - 1].value)
    else Property(members[..|members| - 1], key)
  }

  function Content(members: seq<Member>, idField: Text, hashField: Text, excluded: set<Text>): seq<Member> {
    Keep(members, {idField, hashField} + excluded + {PROTO})
  }

  function Address(prefix: Text, hash: Text): Text {
    prefix + [COLON] + hash
  }

  datatype Verdict = Accepted(id: Text) | Refused

  /** The identity check: both fields are strings, the hash is the digest of the canonical content,
      the id is that hash under its prefix. */
  function AssertIdentity(digest: Digest, members: seq<Member>, idField: Text, hashField: Text, prefix: Text,
                          excluded: set<Text>): Verdict {
    match (Property(members, idField), Property(members, hashField))
    case (Returned(Str(id)), Returned(Str(hash))) =>
      (match Canonical(Obj(Content(members, idField, hashField, excluded)))
       case Thrown => Refused
       case Returned(text) =>
         if hash == digest(text) && id == Address(prefix, digest(text)) then Accepted(id) else Refused)
    case _ => Refused
  }

  ghost predicate ProperObject(members: seq<Member>) {
    WellFormed(Obj(members))
  }

  lemma ContentIsProper(members: seq<Member>, idField: Text, hashField: Text, excluded: set<Text>)
    requires ProperObject(members)
    ensures ProperObject(Content(members, idField, hashField, excluded))
  {
    KeepUnique(members, {idField, hashField} + excluded + {PROTO});
  }

  lemma AcceptedId(digest: Digest, members: seq<Member>, idField: Text, hashField: Text, prefix: Text,
                   excluded: set<Text>)
    requires AssertIdentity(digest, members, idField, hashField, prefix, excluded).Accepted?
    ensures Finite(Obj(Content(members, idField, hashField, excluded)))
    ensures AssertIdentity(digest, members, idField, hashField, prefix, excluded).id
            == Address(prefix, digest(Print(Obj(Content(members, idField, hashField, excluded)))))
  {
  }

  /** Two accepted objects carry the same id exactly when their content is equal as values. */
  lemma AcceptedIdIsContent(digest: Digest, a: seq<Member>, b: seq<Member>, idField: Text, hashField: Text,
                            prefix: Text, excluded: set<Text>)
    requires Separates(digest) && ProperObject(a) && ProperObject(b)
    requires AssertIdentity(digest, a, idField, hashField, prefix, excluded).Accepted?
    requires AssertIdentity(digest, b, idField, hashField, prefix, excluded).Accepted?
    ensures AssertIdentity(digest, a, idField, hashField, prefix, excluded)
            == AssertIdentity(digest, b, idField, hashField, prefix, excluded)
            <==> SameValue(Obj(Content(a, idField, hashField, excluded)), Obj(Content(b, idField, hashField, excluded)))
  {
    AcceptedId(digest, a, idField, hashField, prefix, excluded);
    AcceptedId(digest, b, idField, hashField, prefix, excluded);
    ContentIsProper(a, idField, hashField, excluded);
    ContentIsProper(b, idField, hashField, excluded);
    var u, v := Obj(Content(a, idField, hashField, excluded)), Obj(Content(b, idField, hashField, excluded));
    CanonicalTextIsTheValue(u, v);
    var s, t := digest(Print(u)), digest(Print(v));
    assert Address(prefix, s)[|prefix| + 1..] == s && Address(prefix, t)[|prefix| + 1..] == t;
  }

  /** An object that carries the id and hash of an accepted one is accepted exactly when its own
      content, free of non-finite numbers, is equal to the accepted content. */
  lemma OnlyTheContentFitsItsId(digest: Digest, a: seq<Member>, b: seq<Member>, idField: Text, hashField: Text,
                                prefix: Text, excluded: set<Text>)
    requires Separates(digest) && ProperObject(a) && ProperObject(b)
    requires AssertIdentity(digest, a, idField, hashField, prefix, excluded).Accepted?
    requires Property(b, idField) == Property(a, idField) && Property(b, hashField) == Property(a, hashField)
    ensures AssertIdentity(digest, b, idField, hashField, prefix, excluded).Accepted? <==>
            Finite(Obj(Content(b, idField, hashField, excluded)))
            && SameValue(Obj(Content(a, idField, hashField, excluded)), Obj(Content(b, idField, hashField, excluded)))
  {
    var u, v := Obj(Content(a, idField, hashField, excluded)), Obj(Content(b, idField, hashField, excluded));
    AcceptedId(digest, a, idField, hashField, prefix, excluded);
    ContentIsProper(a, idField, hashField, excluded);
    ContentIsProper(b, idField, hashField, excluded);
    if Finite(v) {
      CanonicalTextIsTheValue(u, v);
    }
  }

  // ---------------------------------------------------------------- acceptance, in plain words

  lemma {:induction false} PropertyMeaning(members: seq<Member>, key: Text, v: Json)
    requires UniqueKeys(members)
    ensures Property(members, key) == Returned(v) <==> Member(key, v) in members
  {
    if members != [] {
      var init, last := members[..|members| - 1], members[|members| - 1];
      assert members == init + [last];
      PropertyMeaning(init, key, v);
      if Member(key, v) in init {
        var i :| 0 <= i < |init| && init[i] == Member(key, v);
        assert members[i].key != last.key;
      }
    }
  }

  /** The object without its id, its hash, the excluded properties and `__proto__`, in some order. */
  ghost predicate ContentOf(content: seq<Member>, members: seq<Member>, idField: Text, hashField: Text,
                            excluded: set<Text>) {
    && UniqueKeys(content)
    && forall m :: m in content <==>
         && m in members && m.key != idField && m.key != hashField && m.key !in excluded
         && m.key != [95, 95, 112, 114, 111, 116, 111, 95, 95]
  }

  /** The hash is the digest of the content's canonical text and the id is it under the prefix and a colon. */
  ghost predicate Bears(digest: Digest, content: seq<Member>, prefix: Text, id: Text, hash: Text) {
    Finite(Obj(content)) && hash == digest(Print(Obj(content))) && id == prefix + [58] + hash
  }

  lemma ContentMeaning(members: seq<Member>, idField: Text, hashField: Text, excluded: set<Text>)
    requires UniqueKeys(members)
    ensures ContentOf(Content(members, idField, hashField, excluded), members, idField, hashField, excluded)
  {
    var dropped := {idField, hashField} + excluded + {PROTO};
    KeepUnique(members, dropped);
    forall m
      ensures m in Keep(members, dropped) <==> m in members && m.key !in dropped
    {
      KeepMeaning(members, dropped, m);
    }
  }

  lemma SameMembersSameText(a: seq<Member>, b: seq<Member>)
    requires ProperObject(a) && UniqueKeys(b) && Finite(Obj(a)) && forall m :: m in a <==> m in b
    ensures Finite(Obj(b)) && Print(Obj(a)) == Print(Obj(b))
  {
    forall m, n | m in a && n in b && m.key == n.key
      ensures SameValue(m.value, n.value)
    {
      UniqueKeysAreDistinct(b);
      SameItself(m.value);
    }
    assert SameValue(Obj(a), Obj(b));
    SamePrints(Obj(a), Obj(b));
  }

  lemma SameItself(v: Json)
    requires WellFormed(v)
    ensures SameValue(v, v)
  {
    match v
    case Arr(items) =>
      forall i | 0 <= i < |items|
        ensures SameValue(items[i], items[i])
      {
        SameItself(items[i]);
      }
    case Obj(members) =>
      UniqueKeysAreDistinct(members);
      forall m | m in members
        ensures SameValue(m.value, m.value)
      {
        SameItself(m.value);
      }
    case _ =>
  }

  /** An object is accepted under an id exactly when its own id and hash are texts that its content bears. */
  lemma AcceptedExactlyWhen(digest: Digest, members: seq<Member>, idField: Text, hashField: Text, prefix: Text,
                            excluded: set<Text>, id: Text)
    requires ProperObject(members)
    ensures AssertIdentity(digest, members, idField, hashField, prefix, excluded) == Accepted(id) <==>
            exists content, hash ::
              && Member(idField, Str(id)) in members && Member(hashField, Str(hash)) in members
              && ContentOf(content, members, idField, hashField, excluded) && Bears(digest, content, prefix, id, hash)
  {
    var own := Content(members, idField, hashField, excluded);
    ContentMeaning(members, idField, hashField, excluded);
    ContentIsProper(members, idField, hashField, excluded);
    if AssertIdentity(digest, members, idField, hashField, prefix, excluded) == Accepted(id) {
      var hash := digest(Print(Obj(own)));
      PropertyMeaning(members, idField, Str(id));
      PropertyMeaning(members, hashField, Str(hash));
      assert Bears(digest, own, prefix, id, hash);
    }
    if exists content, hash ::
         && Member(idField, Str(id)) in members && Member(hashField, Str(hash)) in members
         && ContentOf(content, members, idField, hashField, excluded) && Bears(digest, content, prefix, id, hash)
    {
      var content, hash :|
        && Member(idField, Str(id)) in members && Member(hashField, Str(hash)) in members
        && ContentOf(content, members, idField, hashField, excluded) && Bears(digest, content, prefix, id, hash);
      PropertyMeaning(members, idField, Str(id));
      PropertyMeaning(members, hashField, Str(hash));
      SameMembersSameText(content, own);
    }
  }

  // ---------------------------------------------------------------- what the id does not bind

  /** Everything outside the identity fields and the excluded ones. */
  function Outside(members: seq<Member>, idField: Text, hashField: Text, excluded: set<Text>): seq<Member> {
    Keep(members, {idField, hashField} + excluded)
  }

  function ProtoOf(members: seq<Member>): (r: seq<Member>) {
    if members == [] then []
    else if members[|members| - 1].key == PROTO then [members[|members| - 1]]
    else ProtoOf(members[..|members| - 1])
  }

  lemma {:induction false} ProtoMeaning(members: seq<Member>, m: Member)
    requires UniqueKeys(members)
    ensures m in ProtoOf(members) <==> m in members && m.key == PROTO
  {
    if members != [] {
      var init, last := members[..|members| - 1], members[|members| - 1];
      assert members == init + [last];
      ProtoMeaning(init, m);
      if m in init {
        var i :| 0 <= i < |init| && init[i] == m;
        assert members[i].key != last.key;
      }
    }
  }

  lemma KeepMeaning(members: seq<Member>, dropped: set<Text>, m: Member)
    ensures m in Keep(members, dropped) <==> m in members && m.key !in dropped
  {
    if m in members && m.key !in dropped {
      KeepAll(members, dropped, m);
    }
  }

  /** The outside is the content plus the `__proto__` member, if there is one. */
  lemma OutsideSplits(members: seq<Member>, idField: Text, hashField: Text, excluded: set<Text>, m: Member)
    requires UniqueKeys(members) && PROTO !in {idField, hashField} + excluded
    ensures m in Content(members, idField, hashField, excluded) ==> m.key != PROTO
    ensures m in ProtoOf(members) ==> m.key == PROTO
    ensures m in Outside(members, idField, hashField, excluded) <==>
            m in Content(members, idField, hashField, excluded) || m in ProtoOf(members)
  {
    ProtoMeaning(members, m);
    KeepMeaning(members, {idField, hashField} + excluded, m);
    KeepMeaning(members, {idField, hashField} + excluded + {PROTO}, m);
  }

  /** Objects split into two parts by key are equal exactly when both parts are. */
  lemma EqualByParts(a: seq<Member>, a1: seq<Member>, a2: seq<Member>, b: seq<Member>, b1: seq<Member>, b2: seq<Member>)
    requires forall m :: m in a <==> m in a1 || m in a2
    requires forall m :: m in b <==> m in b1 || m in b2
    requires forall m :: m in a1 || m in b1 ==> m.key != PROTO
    requires forall m :: m in a2 || m in b2 ==> m.key == PROTO
    ensures SameValue(Obj(a), Obj(b)) <==> SameValue(Obj(a1), Obj(b1)) && SameValue(Obj(a2), Obj(b2))
  {
    assert Keys(a) == Keys(a1) + Keys(a2) && Keys(b) == Keys(b1) + Keys(b2);
    assert PROTO !in Keys(a1) && PROTO !in Keys(b1);
    assert Keys(a2) <= {PROTO} && Keys(b2) <= {PROTO};
    assert Keys(a) == Keys(b) <==> Keys(a1) == Keys(b1) && Keys(a2) == Keys(b2) by {
      assert Keys(a1) == Keys(a) - {PROTO} && Keys(b1) == Keys(b) - {PROTO};
      assert Keys(a2) == Keys(a) * {PROTO} && Keys(b2) == Keys(b) * {PROTO};
    }
  }

  lemma OutsideParts(members: seq<Member>, idField: Text, hashField: Text, excluded: set<Text>)
    requires UniqueKeys(members) && PROTO !in {idField, hashField} + excluded
    ensures forall m :: m in Outside(members, idField, hashField, excluded) <==>
                        m in Content(members, idField, hashField, excluded) || m in ProtoOf(members)
    ensures forall m :: m in Content(members, idField, hashField, excluded) ==> m.key != PROTO
    ensures forall m :: m in ProtoOf(members) ==> m.key == PROTO
  {
    forall m: Member
      ensures m in Content(members, idField, hashField, excluded) ==> m.key != PROTO
      ensures m in ProtoOf(members) ==> m.key == PROTO
      ensures m in Outside(members, idField, hashField, excluded) <==>
              m in Content(members, idField, hashField, excluded) || m in ProtoOf(members)
    {
      OutsideSplits(members, idField, hashField, excluded, m);
    }
  }

  lemma OutsideEqualByParts(a: seq<Member>, b: seq<Member>, idField: Text, hashField: Text, excluded: set<Text>)
    requires UniqueKeys(a) && UniqueKeys(b) && PROTO !in {idField, hashField} + excluded
    ensures SameValue(Obj(Outside(a, idField, hashField, excluded)), Obj(Outside(b, idField, hashField, excluded)))
            <==>
            && SameValue(Obj(Content(a, idField, hashField, excluded)), Obj(Content(b, idField, hashField, excluded)))
            && SameValue(Obj(ProtoOf(a)), Obj(ProtoOf(b)))
  {
    OutsideParts(a, idField, hashField, excluded);
    OutsideParts(b, idField, hashField, excluded);
    EqualByParts(Outside(a, idField, hashField, excluded), Content(a, idField, hashField, excluded), ProtoOf(a),
                 Outside(b, idField, hashField, excluded), Content(b, idField, hashField, excluded), ProtoOf(b));
  }

  /** Exactly what an id leaves open: two accepted objects with one id agree on everything outside the
      identity fields if and only if they agree on their `__proto__` members. */
  lemma IdBindsAllButProto(digest: Digest, a: seq<Member>, b: seq<Member>, idField: Text, hashField: Text,
                           prefix: Text, excluded: set<Text>)
    requires Separates(digest) && ProperObject(a) && ProperObject(b)
    requires PROTO !in {idField, hashField} + excluded
    requires AssertIdentity(digest, a, idField, hashField, prefix, excluded).Accepted?
    requires AssertIdentity(digest, a, idField, hashField, prefix, excluded)
             == AssertIdentity(digest, b, idField, hashField, prefix, excluded)
    ensures SameValue(Obj(Outside(a, idField, hashField, excluded)), Obj(Outside(b, idField, hashField, excluded)))
            <==> SameValue(Obj(ProtoOf(a)), Obj(ProtoOf(b)))
  {
    AcceptedIdIsContent(digest, a, b, idField, hashField, prefix, excluded);
    OutsideEqualByParts(a, b, idField, hashField, excluded);
  }

  lemma Appended(a: seq<Member>, m: Member, key: Text, dropped: set<Text>)
    ensures Keep(a + [m], dropped) == if m.key in dropped then Keep(a, dropped) else Keep(a, dropped) + [m]
    ensures Property(a + [m], key) == if m.key == key then Returned(m.value) else Property(a, key)
  {
    assert (a + [m])[..|a + [m]| - 1] == a;
  }

  lemma ExtendedIsProper(a: seq<Member>, z: Member)
    requires ProperObject(a) && WellFormed(z.value) && z.key !in Keys(a)
    ensures ProperObject(a + [z])
  {
    forall i | 0 <= i < |a|
      ensures a[i].key != z.key
    {
      assert a[i].key in Keys(a);
    }
    assert forall m :: m in a + [z] ==> m in a || m == z;
  }

  lemma OtherKeys(kept: seq<Member>, a: seq<Member>, z: Member)
    requires forall i :: 0 <= i < |kept| ==> kept[i] in a
    requires z.key !in Keys(a)
    ensures !SameValue(Obj(kept), Obj(kept + [z]))
  {
    forall m | m in kept
      ensures m.key != z.key
    {
      assert m.key in Keys(a);
    }
    assert z in kept + [z] && z.key in Keys(kept + [z]) && z.key !in Keys(kept);
  }

  /** It does happen: any accepted object without a `__proto__` property stays accepted, under the same
      id, when one is added, whatever its value. */
  lemma ProtoIsNotBound(digest: Digest, a: seq<Member>, v: Json, idField: Text, hashField: Text, prefix: Text,
                        excluded: set<Text>)
    requires ProperObject(a) && WellFormed(v) && PROTO !in Keys(a)
    requires PROTO !in {idField, hashField} + excluded
    requires AssertIdentity(digest, a, idField, hashField, prefix, excluded).Accepted?
    ensures var b := a + [Member(PROTO, v)];
            && ProperObject(b)
            && AssertIdentity(digest, b, idField, hashField, prefix, excluded)
               == AssertIdentity(digest, a, idField, hashField, prefix, excluded)
            && !SameValue(Obj(Outside(a, idField, hashField, excluded)), Obj(Outside(b, idField, hashField, excluded)))
  {
    var z := Member(PROTO, v);
    Appended(a, z, idField, {idField, hashField} + excluded + {PROTO});
    Appended(a, z, hashField, {idField, hashField} + excluded);
    ExtendedIsProper(a, z);
    OtherKeys(Outside(a, idField, hashField, excluded), a, z);
  }

  /** Objects that are accepted are easy to come by: any finite content is, once stamped. */
  lemma StampedIsAccepted(digest: Digest, content: seq<Member>, idField: Text, hashField: Text, prefix: Text,
                          excluded: set<Text>)
    requires idField != hashField && Finite(Obj(content))
    requires forall m :: m in content ==> m.key !in {idField, hashField} + excluded + {PROTO}
    ensures var hash := digest(Print(Obj(content)));
            AssertIdentity(digest,
                           content + [Member(idField, Str(Address(prefix, hash)))] + [Member(hashField, Str(hash))],
                           idField, hashField, prefix, excluded)
            == Accepted(Address(prefix, hash))
  {
    var hash := digest(Print(Obj(content)));
    var x, y := Member(idField, Str(Address(prefix, hash))), Member(hashField, Str(hash));
    var dropped := {idField, hashField} + excluded + {PROTO};
    Appended(content, x, idField, dropped);
    Appended(content + [x], y, idField, dropped);
    Appended(content + [x], y, hashField, dropped);
    NothingDropped(content, dropped);
  }

  lemma {:induction false} NothingDropped(members: seq<Member>, dropped: set<Text>)
    requires forall m :: m in members ==> m.key !in dropped
    ensures Keep(members, dropped) == members
  {
    if members != [] {
      NothingDropped(members[..|members| - 1], dropped);
    }
  }
}
