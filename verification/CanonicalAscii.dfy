/** The canonical text is printable ASCII, whatever the strings inside hold. */
module CanonicalAscii {
  import opened CanonicalJson

  predicate Plain(s: string) {
    forall c :: c in s ==> ' ' <= c <= '~'
  }

  lemma Join(a: string, b: string)
    requires Plain(a) && Plain(b)
    ensures Plain(a + b)
  {
  }

  lemma EscapeIsPlain(u: Unit)
    ensures Plain(Escape(u))
  {
  }

  lemma {:induction false} EscapesArePlain(t: Text)
    ensures Plain(EscapeAll(t))
  {
    if t != [] {
      EscapeIsPlain(t[0]);
      EscapesArePlain(t[1..]);
      Join(Escape(t[0]), EscapeAll(t[1..]));
    }
  }

  lemma QuotesArePlain(t: Text)
    ensures Plain(Quote(t))
  {
    EscapesArePlain(t);
    Join("\"", EscapeAll(t));
  }

  /** The canonical text needs no further encoding: its bytes are its characters. */
  lemma {:induction false} CanonicalTextIsPlain(v: Json)
    requires Finite(v)
    ensures Plain(Print(v))
    decreases v, 0
  {
    match v
    case Str(t) =>
      QuotesArePlain(t);
    case Arr(items) =>
      ItemsArePlain(items);
      Join("[", PrintItems(items));
    case Obj(members) =>
      MembersArePlain(Sorted(members), v);
      Join("{", PrintMembers(Sorted(members), v));
    case _ =>
      ScalarsArePlain(v);
  }

  lemma ScalarsArePlain(v: Json)
    requires Finite(v) && !v.Str? && !v.Arr? && !v.Obj?
    ensures Plain(Print(v))
  {
  }

  lemma {:induction false} ItemsArePlain(items: seq<Json>)
    requires forall x :: x in items ==> Finite(x)
    ensures Plain(PrintItems(items))
    decreases items, 0
  {
    if items != [] {
      CanonicalTextIsPlain(items[0]);
      if |items| > 1 {
        ItemsArePlain(items[1..]);
        Join(Print(items[0]) + ",", PrintItems(items[1..]));
      }
    }
  }

  lemma {:induction false} MemberIsPlain(m: Member)
    requires Finite(m.value)
    ensures Plain(PrintMember(m))
    decreases m.value, 1
  {
    QuotesArePlain(m.key);
    CanonicalTextIsPlain(m.value);
    Join(Quote(m.key) + ":", Print(m.value));
  }

  lemma {:induction false} MembersArePlain(members: seq<Member>, owner: Json)
    requires forall i :: 0 <= i < |members| ==> Finite(members[i].value) && members[i].value < owner
    ensures Plain(PrintMembers(members, owner))
    decreases owner, 0, |members|
  {
    if members != [] {
      MemberIsPlain(members[0]);
      if |members| > 1 {
        MembersArePlain(members[1..], owner);
        Join(PrintMember(members[0]) + ",", PrintMembers(members[1..], owner));
      }
    }
  }
}
