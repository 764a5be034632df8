/** The canonical JSON printer, and why a content id built on it binds the content. */
module CanonicalJson {
  import opened Digits
  import opened Ordering

  /** A UTF-16 code unit and the strings made of them, lone surrogates included. */
  type Unit = u: int | 0 <= u < 0x1_0000

  type Text = seq<Unit>

  /** The integers that a double holds exactly. */
  type SafeInteger = i: int | -9007199254740991 <= i <= 9007199254740991

  datatype Number = Integer(value: SafeInteger) | NegativeZero | NonFinite

  datatype Json =
    | Null
    | Bool(truth: bool)
    | Num(number: Number)
    | Str(text: Text)
    | Arr(items: seq<Json>)
    | Obj(members: seq<Member>)

  datatype Member = Member(key: Text, value: Json)

  /** Property names are unique at every level, as in any object value. */
  ghost predicate WellFormed(v: Json) {
    match v
    case Arr(items) => forall x :: x in items ==> WellFormed(x)
    case Obj(members) => UniqueKeys(members) && forall m :: m in members ==> WellFormed(m.value)
    case _ => true
  }

  ghost predicate UniqueKeys(members: seq<Member>) {
    forall i, j :: 0 <= i < j < |members| ==> members[i].key != members[j].key
  }

  /** No infinity and no NaN anywhere inside. */
  predicate Finite(v: Json) {
    match v
    case Num(n) => n != NonFinite
    case Arr(items) => forall x :: x in items ==> Finite(x)
    case Obj(members) => forall m :: m in members ==> Finite(m.value)
    case _ => true
  }

  // ---------------------------------------------------------------- the printer

  predicate UnitLess(a: Unit, b: Unit) {
    a < b
  }

  predicate KeyLess(a: Text, b: Text) {
    Lex(UnitLess, a, b)
  }

  predicate MemberLess(a: Member, b: Member) {
    KeyLess(a.key, b.key)
  }

  lemma MemberOrder()
    ensures StrictWeak(MemberLess)
  {
    forall x: Member, y: Member, z: Member
      ensures !MemberLess(x, x)
      ensures MemberLess(x, z) ==> MemberLess(x, y) || MemberLess(y, z)
      ensures MemberLess(x, y) && MemberLess(y, z) ==> MemberLess(x, z)
    {
      LexOrder(UnitLess, x.key, y.key, z.key);
    }
  }

  function Sorted(members: seq<Member>): (r: seq<Member>)
    ensures multiset(r) == multiset(members)
    ensures forall i :: 0 <= i < |r| ==> r[i] in members
  {
    MemberOrder();
    var r := Sort(MemberLess, members);
    MultisetMembers(members, r);
    assert forall i :: 0 <= i < |r| ==> r[i] in r;
    r
  }

  function HexDigit(d: nat): char
    requires d < 16
  {
    if d < 10 then ('0' as int + d) as char else ('a' as int + (d - 10)) as char
  }

  function Hex4(u: Unit): string {
    [HexDigit(u / 16 / 16 / 16), HexDigit(u / 16 / 16 % 16), HexDigit(u / 16 % 16), HexDigit(u % 16)]
  }

  /** One code unit inside a string literal: the short escapes, `\u` for the other control characters
      and for everything from U+007F on, the character itself otherwise. */
  function Escape(u: Unit): string {
    if u == 0x22 then "\\\""
    else if u == 0x5c then "\\\\"
    else if u == 0x08 then "\\b"
    else if u == 0x09 then "\\t"
    else if u == 0x0a then "\\n"
    else if u == 0x0c then "\\f"
    else if u == 0x0d then "\\r"
    else if u < 0x20 || u >= 0x7f then "\\u" + Hex4(u)
    else [u as char]
  }

  function EscapeAll(t: Text): string {
    if t == [] then "" else Escape(t[0]) + EscapeAll(t[1..])
  }

  function Quote(t: Text): string {
    "\"" + EscapeAll(t) + "\""
  }

  function NumberText(n: Number): string
    requires n != NonFinite
  {
    match n
    case NegativeZero => "0"
    case Integer(i) => IntegerText(i)
  }

  function IntegerText(i: int): string {
    if i < 0 then "-" + Decimal(-i) else Decimal(i)
  }

  function Print(v: Json): string
    requires Finite(v)
    decreases v, 0
  {
    match v
    case Null => "null"
    case Bool(b) => if b then "true" else "false"
    case Num(n) => NumberText(n)
    case Str(t) => Quote(t)
    case Arr(items) => "[" + PrintItems(items) + "]"
    case Obj(members) => "{" + PrintMembers(Sorted(members), v) + "}"
  }

  function PrintItems(items: seq<Json>): string
    requires forall x :: x in items ==> Finite(x)
    decreases items, 0
  {
    if items == [] then ""
    else if |items| == 1 then Print(items[0])
    else Print(items[0]) + "," + PrintItems(items[1..])
  }

  function PrintMember(m: Member): string
    requires Finite(m.value)
    decreases m.value, 1
  {
    Quote(m.key) + ":" + Print(m.value)
  }

  function PrintMembers(members: seq<Member>, ghost owner: Json): string
    requires forall i :: 0 <= i < |members| ==> Finite(members[i].value) && members[i].value < owner
    decreases owner, 0, |members|
  {
    if members == [] then ""
    else if |members| == 1 then PrintMember(members[0])
    else PrintMember(members[0]) + "," + PrintMembers(members[1..], owner)
  }

  datatype Outcome<+T> = Returned(value: T) | Thrown

  /** The printer refuses a value that holds a non-finite number. */
  function Canonical(v: Json): Outcome<string> {
    if Finite(v) then Returned(Print(v)) else Thrown
  }

  /** Equality as the validators decide it. */
  function ValuesEqual(a: Json, b: Json): Outcome<bool> {
    match (Canonical(a), Canonical(b))
    case (Returned(s), Returned(t)) => Returned(s == t)
    case _ => Thrown
  }

  // ---------------------------------------------------------------- equality of values

  function Keys(members: seq<Member>): set<Text> {
    set m | m in members :: m.key
  }

  predicate SameNumber(m: Number, n: Number) {
    match (m, n)
    case (NonFinite, _) => n == NonFinite
    case (_, NonFinite) => false
    case (NegativeZero, Integer(j)) => j == 0
    case (Integer(i), NegativeZero) => i == 0
    case _ => m == n
  }

  /** Equal as values: member order does not matter, nor the sign of zero. */
  ghost predicate SameValue(a: Json, b: Json) {
    match (a, b)
    case (Num(m), Num(n)) => SameNumber(m, n)
    case (Arr(xs), Arr(ys)) => |xs| == |ys| && forall i :: 0 <= i < |xs| ==> SameValue(xs[i], ys[i])
    case (Obj(ms), Obj(ns)) =>
      Keys(ms) == Keys(ns) && forall m, n :: m in ms && n in ns && m.key == n.key ==> SameValue(m.value, n.value)
    case _ => a == b
  }

  ghost predicate SameMembers(ms: seq<Member>, ns: seq<Member>) {
    |ms| == |ns| && forall i :: 0 <= i < |ms| ==> ms[i].key == ns[i].key && SameValue(ms[i].value, ns[i].value)
  }

  function KeySeq(members: seq<Member>): seq<Text> {
    seq(|members|, i requires 0 <= i < |members| => members[i].key)
  }

  lemma KeyOrder()
    ensures StrictTotal(UnitLess) && StrictTotal(KeyLess)
  {
    forall x: Text, y: Text, z: Text
      ensures !KeyLess(x, x)
      ensures x != y ==> KeyLess(x, y) || KeyLess(y, x)
      ensures KeyLess(x, z) ==> KeyLess(x, y) || KeyLess(y, z)
      ensures KeyLess(x, y) && KeyLess(y, z) ==> KeyLess(x, z)
    {
      LexOrder(UnitLess, x, y, z);
    }
  }

  lemma UniqueKeysAreDistinct(members: seq<Member>)
    requires UniqueKeys(members)
    ensures Distinct(members)
    ensures forall m, n :: m in members && n in members && m.key == n.key ==> m == n
  {
  }

  /** After sorting, the keys ascend and are the same keys. */
  lemma SortedKeys(members: seq<Member>)
    requires UniqueKeys(members)
    ensures Ascending(KeyLess, KeySeq(Sorted(members)))
    ensures Elements(KeySeq(Sorted(members))) == Keys(members)
    ensures forall m :: m in members <==> m in Sorted(members)
  {
    var sorted := Sorted(members);
    MemberOrder();
    MultisetMembers(members, sorted);
    UniqueKeysAreDistinct(members);
    DistinctPermutation(members, sorted);
    forall i, j | 0 <= i < j < |sorted|
      ensures KeyLess(sorted[i].key, sorted[j].key)
    {
      assert !MemberLess(sorted[j], sorted[i]);
      assert sorted[i] in members && sorted[j] in members;
      KeyOrder();
    }
    var keys := KeySeq(sorted);
    forall k
      ensures k in Elements(keys) <==> k in Keys(members)
    {
      if k in Elements(keys) {
        var i :| 0 <= i < |keys| && keys[i] == k;
        assert sorted[i] in members && sorted[i].key == k;
      }
      if k in Keys(members) {
        var m :| m in members && m.key == k;
        var i :| 0 <= i < |sorted| && sorted[i] == m;
        assert keys[i] == k;
      }
    }
  }

  lemma EqualObjectsSorted(ms: seq<Member>, ns: seq<Member>)
    requires UniqueKeys(ms) && UniqueKeys(ns) && SameValue(Obj(ms), Obj(ns))
    ensures SameMembers(Sorted(ms), Sorted(ns))
  {
    var s, t := Sorted(ms), Sorted(ns);
    SortedKeys(ms);
    SortedKeys(ns);
    KeyOrder();
    AscendingUnique(KeyLess, KeySeq(s), KeySeq(t));
    assert |s| == |KeySeq(s)| && |t| == |KeySeq(t)|;
    forall i | 0 <= i < |s|
      ensures s[i].key == t[i].key && SameValue(s[i].value, t[i].value)
    {
      assert KeySeq(s)[i] == KeySeq(t)[i];
      assert s[i] in ms && t[i] in ns;
    }
  }

  lemma SortedEqualObjects(ms: seq<Member>, ns: seq<Member>)
    requires UniqueKeys(ms) && UniqueKeys(ns) && SameMembers(Sorted(ms), Sorted(ns))
    ensures SameValue(Obj(ms), Obj(ns))
  {
    var s, t := Sorted(ms), Sorted(ns);
    SortedKeys(ms);
    SortedKeys(ns);
    assert KeySeq(s) == KeySeq(t);
    forall m, n | m in ms && n in ns && m.key == n.key
      ensures SameValue(m.value, n.value)
    {
      assert m in s;
      var i :| 0 <= i < |s| && s[i] == m;
      PairedMember(s, t, n, i);
      UniqueKeysAreDistinct(ns);
    }
  }

  lemma PairedMember(s: seq<Member>, t: seq<Member>, n: Member, i: nat)
    requires SameMembers(s, t) && i < |s|
    ensures SameValue(s[i].value, t[i].value) && t[i].key == s[i].key && t[i] in t
  {
  }

  /** Objects are equal exactly when their sorted member lists agree position by position. */
  lemma ObjectsCompareSorted(ms: seq<Member>, ns: seq<Member>)
    requires UniqueKeys(ms) && UniqueKeys(ns)
    ensures SameValue(Obj(ms), Obj(ns)) <==> SameMembers(Sorted(ms), Sorted(ns))
  {
    if SameValue(Obj(ms), Obj(ns)) {
      EqualObjectsSorted(ms, ns);
    }
    if SameMembers(Sorted(ms), Sorted(ns)) {
      SortedEqualObjects(ms, ns);
    }
  }

  // ---------------------------------------------------------------- equal values print alike

  lemma {:induction false} SamePrints(a: Json, b: Json)
    requires WellFormed(a) && WellFormed(b) && Finite(a) && Finite(b) && SameValue(a, b)
    ensures Print(a) == Print(b)
    decreases a, 0
  {
    match (a, b) {
      case (Arr(xs), Arr(ys)) => SamePrintsItems(xs, ys);
      case (Obj(ms), Obj(ns)) =>
        ObjectsCompareSorted(ms, ns);
        SamePrintsMembers(Sorted(ms), Sorted(ns), a, b);
      case _ =>
    }
  }

  lemma {:induction false} SamePrintsItems(xs: seq<Json>, ys: seq<Json>)
    requires |xs| == |ys|
    requires forall i :: 0 <= i < |xs| ==>
      WellFormed(xs[i]) && WellFormed(ys[i]) && Finite(xs[i]) && Finite(ys[i]) && SameValue(xs[i], ys[i])
    ensures PrintItems(xs) == PrintItems(ys)
    decreases xs, 0
  {
    if xs != [] {
      SamePrints(xs[0], ys[0]);
      SamePrintsItems(xs[1..], ys[1..]);
    }
  }

  lemma {:induction false} SamePrintsMembers(ms: seq<Member>, ns: seq<Member>, a: Json, b: Json)
    requires forall i :: 0 <= i < |ms| ==> Finite(ms[i].value) && WellFormed(ms[i].value) && ms[i].value < a
    requires forall i :: 0 <= i < |ns| ==> Finite(ns[i].value) && WellFormed(ns[i].value) && ns[i].value < b
    requires SameMembers(ms, ns)
    ensures PrintMembers(ms, a) == PrintMembers(ns, b)
    decreases a, 0, |ms|
  {
    if ms != [] {
      SamePrints(ms[0].value, ns[0].value);
      SamePrintsMembers(ms[1..], ns[1..], a, b);
    }
  }

  // ---------------------------------------------------------------- the printer is self-delimiting

  /** What may follow a printed value. */
  predicate Delimited(x: string) {
    x == "" || x[0] == ',' || x[0] == ']' || x[0] == '}'
  }

  lemma Cancel(p: string, x: string, y: string)
    requires p + x == p + y
    ensures x == y
  {
    assert (p + x)[|p|..] == x && (p + y)[|p|..] == y;
  }

  function DigitPrefix(s: string): string {
    if s == "" || !IsDigit(s[0]) then "" else [s[0]] + DigitPrefix(s[1..])
  }

  lemma {:induction false} DigitPrefixOf(a: string, x: string)
    requires AllDigits(a) && (x == "" || !IsDigit(x[0]))
    ensures DigitPrefix(a + x) == a
  {
    if a == "" {
      assert a + x == x;
    } else {
      assert (a + x)[1..] == a[1..] + x;
      DigitPrefixOf(a[1..], x);
    }
  }

  lemma DecimalCancel(m: nat, n: nat, x: string, y: string)
    requires Decimal(m) + x == Decimal(n) + y && Delimited(x) && Delimited(y)
    ensures m == n && x == y
  {
    var a, b := Decimal(m), Decimal(n);
    DigitPrefixOf(a, x);
    DigitPrefixOf(b, y);
    DecimalInjective(m, n);
    Cancel(a, x, y);
  }

  lemma SignTells(i: int, x: string)
    ensures IntegerText(i) != "" && (IntegerText(i) + x)[0] == IntegerText(i)[0]
    ensures IntegerText(i)[0] == '-' <==> i < 0
    ensures i >= 0 ==> IsDigit(IntegerText(i)[0])
  {
    if i >= 0 {
      assert IsDigit(Decimal(i)[0]);
    }
  }

  lemma NegativeText(i: int, x: string)
    requires i < 0
    ensures IntegerText(i) + x == "-" + (Decimal(-i) + x)
  {
  }

  lemma IntegerCancel(i: int, j: int, x: string, y: string)
    requires IntegerText(i) + x == IntegerText(j) + y && Delimited(x) && Delimited(y)
    ensures i == j && x == y
  {
    SignTells(i, x);
    SignTells(j, y);
    assert i < 0 <==> j < 0;
    if i < 0 {
      NegativeText(i, x);
      NegativeText(j, y);
      Cancel("-", Decimal(-i) + x, Decimal(-j) + y);
      DecimalCancel(-i, -j, x, y);
    } else {
      DecimalCancel(i, j, x, y);
    }
  }

  function NumberValue(n: Number): int
    requires n != NonFinite
  {
    match n
    case NegativeZero => 0
    case Integer(i) => i
  }

  lemma NumberSpelling(n: Number)
    requires n != NonFinite
    ensures NumberText(n) == IntegerText(NumberValue(n))
  {
  }

  lemma NumberCancel(m: Number, n: Number, x: string, y: string)
    requires m != NonFinite && n != NonFinite
    requires NumberText(m) + x == NumberText(n) + y && Delimited(x) && Delimited(y)
    ensures SameNumber(m, n) && x == y
  {
    NumberSpelling(m);
    NumberSpelling(n);
    IntegerCancel(NumberValue(m), NumberValue(n), x, y);
  }

  lemma HexInjective(d: nat, e: nat)
    requires d < 16 && e < 16 && HexDigit(d) == HexDigit(e)
    ensures d == e
  {
  }

  lemma Hex4Injective(u: Unit, v: Unit)
    requires Hex4(u) == Hex4(v)
    ensures u == v
  {
    var s, t := Hex4(u), Hex4(v);
    assert s[0] == t[0] && s[1] == t[1] && s[2] == t[2] && s[3] == t[3];
    HexInjective(u / 16 / 16 / 16, v / 16 / 16 / 16);
    HexInjective(u / 16 / 16 % 16, v / 16 / 16 % 16);
    HexInjective(u / 16 % 16, v / 16 % 16);
    HexInjective(u % 16, v % 16);
    Quotient(u / 16 / 16, v / 16 / 16);
    Quotient(u / 16, v / 16);
    Quotient(u, v);
  }

  lemma Quotient(m: nat, n: nat)
    requires m / 16 == n / 16 && m % 16 == n % 16
    ensures m == n
  {
  }

  /** How an escape looks from the outside. */
  lemma EscapeShape(u: Unit)
    ensures Escape(u) != "" && Escape(u)[0] != '"'
    ensures Escape(u)[0] != '\\' ==> |Escape(u)| == 1 && Escape(u)[0] as int == u
    ensures Escape(u)[0] == '\\' ==> |Escape(u)| >= 2
    ensures Escape(u)[0] == '\\' && Escape(u)[1] == 'u' ==> Escape(u) == "\\u" + Hex4(u)
    ensures Escape(u)[0] == '\\' && Escape(u)[1] != 'u' ==>
              |Escape(u)| == 2 && u == match Escape(u)[1]
                                       case 'b' => 0x08
                                       case 't' => 0x09
                                       case 'n' => 0x0a
                                       case 'f' => 0x0c
                                       case 'r' => 0x0d
                                       case '"' => 0x22
                                       case _ => 0x5c
  {
  }

  /** Escapes form a prefix code. */
  lemma EscapeCancel(u: Unit, v: Unit, x: string, y: string)
    requires Escape(u) + x == Escape(v) + y
    ensures u == v && x == y
  {
    EscapeShape(u);
    EscapeShape(v);
    var s, e, f := Escape(u) + x, Escape(u), Escape(v);
    assert s[0] == e[0] && s[0] == f[0];
    if e[0] == '\\' {
      assert s[1] == e[1] && s[1] == f[1];
      if e[1] == 'u' {
        assert s[2..6] == Hex4(u) && s[2..6] == Hex4(v);
        Hex4Injective(u, v);
      }
    }
    Cancel(e, x, y);
  }

  /** The rest of a string literal: escapes, the closing quote, what follows. */
  function Literal(t: Text, x: string): string {
    EscapeAll(t) + ("\"" + x)
  }

  lemma Assoc(a: string, b: string, c: string)
    ensures (a + b) + c == a + (b + c)
  {
  }

  lemma EscapeStart(u: Unit)
    ensures Escape(u) != "" && Escape(u)[0] != '"'
  {
    EscapeShape(u);
  }

  lemma LiteralStep(t: Text, x: string)
    requires t != []
    ensures Literal(t, x) == Escape(t[0]) + Literal(t[1..], x)
  {
    Assoc(Escape(t[0]), EscapeAll(t[1..]), "\"" + x);
  }

  lemma LiteralShape(t: Text, x: string)
    ensures Literal(t, x) != "" && (t == [] <==> Literal(t, x)[0] == '"')
    ensures t == [] ==> Literal(t, x) == "\"" + x
    ensures t != [] ==> Literal(t, x) == Escape(t[0]) + Literal(t[1..], x)
  {
    if t != [] {
      EscapeStart(t[0]);
      LiteralStep(t, x);
    }
  }

  lemma {:induction false} LiteralCancel(s: Text, t: Text, x: string, y: string)
    requires Literal(s, x) == Literal(t, y)
    ensures s == t && x == y
  {
    LiteralShape(s, x);
    LiteralShape(t, y);
    if s == [] {
      Cancel("\"", x, y);
    } else {
      EscapeCancel(s[0], t[0], Literal(s[1..], x), Literal(t[1..], y));
      LiteralCancel(s[1..], t[1..], x, y);
      assert s == [s[0]] + s[1..] && t == [t[0]] + t[1..];
    }
  }

  lemma QuoteText(t: Text, x: string)
    ensures Quote(t) + x == "\"" + Literal(t, x)
  {
    Assoc("\"", EscapeAll(t) + "\"", x);
    Assoc(EscapeAll(t), "\"", x);
  }

  lemma QuoteCancel(s: Text, t: Text, x: string, y: string)
    requires Quote(s) + x == Quote(t) + y
    ensures s == t && x == y
  {
    QuoteText(s, x);
    QuoteText(t, y);
    Cancel("\"", Literal(s, x), Literal(t, y));
    LiteralCancel(s, t, x, y);
  }

  /** The first character of a printed value tells its kind. */
  lemma PrintStart(v: Json)
    requires Finite(v)
    ensures Print(v) != ""
    ensures var c := Print(v)[0];
            && (v.Null? <==> c == 'n')
            && (v.Bool? <==> c == 't' || c == 'f') && (v.Bool? && v.truth <==> c == 't')
            && (v.Num? <==> c == '-' || IsDigit(c))
            && (v.Str? <==> c == '"') && (v.Arr? <==> c == '[') && (v.Obj? <==> c == '{')
    ensures !Delimited(Print(v))
  {
    if v.Num? {
      NumberSpelling(v.number);
      SignTells(NumberValue(v.number), "");
    }
  }

  /** What follows the first of several printed parts, up to and after the closing bracket. */
  function Tail(rest: string, more: bool, close: char, x: string): string {
    if more then "," + (rest + ([close] + x)) else [close] + x
  }

  lemma TailCancel(r: string, more: bool, r': string, more': bool, close: char, x: string, y: string)
    requires close == ']' || close == '}'
    requires Tail(r, more, close, x) == Tail(r', more', close, y)
    ensures more == more'
    ensures !more ==> x == y
    ensures more ==> r + ([close] + x) == r' + ([close] + y)
  {
    assert Tail(r, more, close, x)[0] == if more then ',' else close;
    assert Tail(r', more', close, y)[0] == if more' then ',' else close;
    if more {
      Cancel(",", r + ([close] + x), r' + ([close] + y));
    } else {
      Cancel([close], x, y);
    }
  }

  predicate SameKind(a: Json, b: Json) {
    match a
    case Null => b.Null?
    case Bool(t) => b.Bool? && b.truth == t
    case Num(_) => b.Num?
    case Str(_) => b.Str?
    case Arr(_) => b.Arr?
    case Obj(_) => b.Obj?
  }

  lemma SameStart(a: Json, b: Json, x: string, y: string)
    requires Finite(a) && Finite(b) && Print(a) + x == Print(b) + y
    ensures SameKind(a, b)
  {
    PrintStart(a);
    PrintStart(b);
    assert (Print(a) + x)[0] == Print(a)[0] && (Print(b) + y)[0] == Print(b)[0];
  }

  lemma BracketText(v: Json, x: string)
    requires Finite(v)
    ensures v.Arr? ==> Print(v) + x == "[" + (PrintItems(v.items) + ("]" + x))
    ensures v.Obj? ==> Print(v) + x == "{" + (PrintMembers(Sorted(v.members), v) + ("}" + x))
  {
  }

  /** The printed form is self-delimiting: what is printed and what follows are both recovered. */
  lemma {:induction false} PrintCancel(a: Json, b: Json, x: string, y: string)
    requires WellFormed(a) && WellFormed(b) && Finite(a) && Finite(b)
    requires Print(a) + x == Print(b) + y && Delimited(x) && Delimited(y)
    ensures SameValue(a, b) && x == y
    decreases a, 2
  {
    SameStart(a, b, x, y);
    match a {
      case Arr(_) => ArrCancel(a, b, x, y);
      case Obj(_) => ObjCancel(a, b, x, y);
      case _ => ScalarCancel(a, b, x, y);
    }
  }

  lemma ScalarCancel(a: Json, b: Json, x: string, y: string)
    requires !a.Arr? && !a.Obj? && SameKind(a, b) && Finite(a) && Finite(b)
    requires Print(a) + x == Print(b) + y && Delimited(x) && Delimited(y)
    ensures SameValue(a, b) && x == y
  {
    if a.Num? {
      NumberCancel(a.number, b.number, x, y);
    } else if a.Str? {
      QuoteCancel(a.text, b.text, x, y);
    } else if a.Null? || a.Bool? {
      Cancel(Print(a), x, y);
    }
  }

  lemma {:induction false} ArrCancel(a: Json, b: Json, x: string, y: string)
    requires a.Arr? && b.Arr? && WellFormed(a) && WellFormed(b) && Finite(a) && Finite(b)
    requires Print(a) + x == Print(b) + y
    ensures SameValue(a, b) && x == y
    decreases a, 1
  {
    BracketText(a, x);
    BracketText(b, y);
    Cancel("[", PrintItems(a.items) + ("]" + x), PrintItems(b.items) + ("]" + y));
    ItemsCancel(a.items, b.items, x, y);
  }

  lemma {:induction false} ObjCancel(a: Json, b: Json, x: string, y: string)
    requires a.Obj? && b.Obj? && WellFormed(a) && WellFormed(b) && Finite(a) && Finite(b)
    requires Print(a) + x == Print(b) + y
    ensures SameValue(a, b) && x == y
    decreases a, 1
  {
    var s, t := Sorted(a.members), Sorted(b.members);
    BracketText(a, x);
    BracketText(b, y);
    Cancel("{", PrintMembers(s, a) + ("}" + x), PrintMembers(t, b) + ("}" + y));
    MembersCancel(s, t, a, b, x, y);
    ObjectsCompareSorted(a.members, b.members);
  }

  lemma TailAfter(first: string, rest: string, close: char, x: string)
    ensures first + ([close] + x) == first + Tail("", false, close, x)
    ensures (first + "," + rest) + ([close] + x) == first + Tail(rest, true, close, x)
  {
    assert (first + "," + rest) + ([close] + x) == first + ("," + (rest + ([close] + x)));
  }

  lemma ItemsText(items: seq<Json>, x: string)
    requires forall v :: v in items ==> Finite(v)
    ensures items == [] ==> PrintItems(items) + ("]" + x) == "]" + x
    ensures items != [] ==> PrintItems(items) + ("]" + x)
                            == Print(items[0]) + Tail(PrintItems(items[1..]), |items| > 1, ']', x)
    ensures items == [] <==> (PrintItems(items) + ("]" + x))[0] == ']'
  {
    assert "]" == [']'];
    if items != [] {
      PrintStart(items[0]);
      TailAfter(Print(items[0]), PrintItems(items[1..]), ']', x);
    }
  }

  lemma SameItemsStep(xs: seq<Json>, ys: seq<Json>)
    requires xs != [] && |xs| == |ys| && SameValue(xs[0], ys[0])
    requires forall i :: 0 <= i < |xs[1..]| ==> SameValue(xs[1..][i], ys[1..][i])
    ensures forall i :: 0 <= i < |xs| ==> SameValue(xs[i], ys[i])
  {
    assert forall i :: 1 <= i < |xs| ==> xs[i] == xs[1..][i - 1] && ys[i] == ys[1..][i - 1];
  }

  lemma {:induction false} ItemsCancel(xs: seq<Json>, ys: seq<Json>, x: string, y: string)
    requires forall v :: v in xs ==> WellFormed(v) && Finite(v)
    requires forall v :: v in ys ==> WellFormed(v) && Finite(v)
    requires PrintItems(xs) + ("]" + x) == PrintItems(ys) + ("]" + y)
    ensures |xs| == |ys| && (forall i :: 0 <= i < |xs| ==> SameValue(xs[i], ys[i])) && x == y
    decreases xs, 0
  {
    ItemsText(xs, x);
    ItemsText(ys, y);
    if xs == [] {
      Cancel("]", x, y);
    } else {
      var r, r' := PrintItems(xs[1..]), PrintItems(ys[1..]);
      PrintCancel(xs[0], ys[0], Tail(r, |xs| > 1, ']', x), Tail(r', |ys| > 1, ']', y));
      TailCancel(r, |xs| > 1, r', |ys| > 1, ']', x, y);
      if |xs| > 1 {
        ItemsCancel(xs[1..], ys[1..], x, y);
        SameItemsStep(xs, ys);
      }
    }
  }

  lemma MembersText(members: seq<Member>, owner: Json, x: string)
    requires forall i :: 0 <= i < |members| ==> Finite(members[i].value) && members[i].value < owner
    ensures members == [] ==> PrintMembers(members, owner) + ("}" + x) == "}" + x
    ensures members != [] ==>
              PrintMembers(members, owner) + ("}" + x)
              == Quote(members[0].key)
                 + (":" + (Print(members[0].value)
                           + Tail(PrintMembers(members[1..], owner), |members| > 1, '}', x)))
    ensures members == [] <==> (PrintMembers(members, owner) + ("}" + x))[0] == '}'
  {
    assert "}" == ['}'];
    if members != [] {
      var rest := PrintMembers(members[1..], owner);
      TailAfter(PrintMember(members[0]), rest, '}', x);
      AfterColon(Quote(members[0].key), Print(members[0].value), Tail(rest, |members| > 1, '}', x));
    }
  }

  lemma AfterColon(key: string, value: string, rest: string)
    ensures (key + ":" + value) + rest == key + (":" + (value + rest))
  {
  }

  /** The text of a member list from its first key on. */
  function FromFirst(members: seq<Member>, owner: Json, x: string): string
    requires members != [] && forall i :: 0 <= i < |members| ==> Finite(members[i].value) && members[i].value < owner
  {
    Print(members[0].value) + Tail(PrintMembers(members[1..], owner), |members| > 1, '}', x)
  }

  lemma FirstKeysCancel(ms: seq<Member>, ns: seq<Member>, a: Json, b: Json, x: string, y: string)
    requires forall i :: 0 <= i < |ms| ==> Finite(ms[i].value) && ms[i].value < a
    requires forall i :: 0 <= i < |ns| ==> Finite(ns[i].value) && ns[i].value < b
    requires PrintMembers(ms, a) + ("}" + x) == PrintMembers(ns, b) + ("}" + y)
    ensures ms == [] <==> ns == []
    ensures ms == [] ==> x == y
    ensures ms != [] ==> ms[0].key == ns[0].key && FromFirst(ms, a, x) == FromFirst(ns, b, y)
  {
    MembersText(ms, a, x);
    MembersText(ns, b, y);
    if ms == [] {
      Cancel("}", x, y);
    } else {
      QuoteCancel(ms[0].key, ns[0].key, ":" + FromFirst(ms, a, x), ":" + FromFirst(ns, b, y));
      Cancel(":", FromFirst(ms, a, x), FromFirst(ns, b, y));
    }
  }

  lemma SameMembersStep(ms: seq<Member>, ns: seq<Member>)
    requires ms != [] && ns != [] && ms[0].key == ns[0].key && SameValue(ms[0].value, ns[0].value)
    requires SameMembers(ms[1..], ns[1..])
    ensures SameMembers(ms, ns)
  {
    assert forall i :: 1 <= i < |ms| ==> ms[i] == ms[1..][i - 1];
    assert forall i :: 1 <= i < |ns| ==> ns[i] == ns[1..][i - 1];
  }

  lemma {:induction false} MembersCancel(ms: seq<Member>, ns: seq<Member>, a: Json, b: Json, x: string, y: string)
    requires forall i :: 0 <= i < |ms| ==> Finite(ms[i].value) && WellFormed(ms[i].value) && ms[i].value < a
    requires forall i :: 0 <= i < |ns| ==> Finite(ns[i].value) && WellFormed(ns[i].value) && ns[i].value < b
    requires PrintMembers(ms, a) + ("}" + x) == PrintMembers(ns, b) + ("}" + y)
    ensures SameMembers(ms, ns) && x == y
    decreases a, 0, |ms|
  {
    FirstKeysCancel(ms, ns, a, b, x, y);
    if ms != [] {
      var r, r' := PrintMembers(ms[1..], a), PrintMembers(ns[1..], b);
      var u, v := Tail(r, |ms| > 1, '}', x), Tail(r', |ns| > 1, '}', y);
      PrintCancel(ms[0].value, ns[0].value, u, v);
      TailCancel(r, |ms| > 1, r', |ns| > 1, '}', x, y);
      if |ms| > 1 {
        MembersCancel(ms[1..], ns[1..], a, b, x, y);
      }
      SameMembersStep(ms, ns);
    }
  }

  /** The printer is injective up to member order and the sign of zero: two values print the same text
      exactly when they are equal as values. */
  lemma CanonicalTextIsTheValue(a: Json, b: Json)
    requires WellFormed(a) && WellFormed(b) && Finite(a) && Finite(b)
    ensures Print(a) == Print(b) <==> SameValue(a, b)
  {
    if SameValue(a, b) {
      SamePrints(a, b);
    }
    if Print(a) == Print(b) {
      assert Print(a) + "" == Print(a) && Print(b) + "" == Print(b);
      PrintCancel(a, b, "", "");
    }
  }

  /** The validators' equality throws on a non-finite number and is equality of values otherwise. */
  lemma ValuesEqualMeaning(a: Json, b: Json)
    requires WellFormed(a) && WellFormed(b)
    ensures ValuesEqual(a, b) == if Finite(a) && Finite(b) then Returned(SameValue(a, b)) else Thrown
  {
    if Finite(a) && Finite(b) {
      CanonicalTextIsTheValue(a, b);
    }
  }
}
