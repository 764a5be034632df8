/** A reader of canonical texts, written from the grammar of JSON alone, and what it makes of a printed value:
    the value, with its keys in order, and nothing left over. */
module CanonicalReader {
  import opened CanonicalJson
  import opened Digits
  import opened Ordering

  datatype Read<+T> = Found(value: T, rest: string) | Failed

  // ---------------------------------------------------------------- the reader

  function LeadingDigits(s: string): (d: string)
    ensures AllDigits(d) && |d| <= |s|
  {
    if s == "" || !IsDigit(s[0]) then "" else [s[0]] + LeadingDigits(s[1..])
  }

  /** An optional minus and digits without superfluous zeros; zero has no sign. */
  function ReadNumber(s: string): (r: Read<Number>)
    ensures r.Found? ==> |r.rest| < |s|
  {
    var negative := s != "" && s[0] == '-';
    var unsigned := if negative then s[1..] else s;
    var d := LeadingDigits(unsigned);
    var magnitude: int := Value(d);
    if d == "" || (|d| > 1 && d[0] == '0') || magnitude > 9007199254740991 || (negative && magnitude == 0) then Failed
    else Found(Integer(if negative then -magnitude else magnitude), unsigned[|d|..])
  }

  predicate IsHex(c: char) {
    '0' <= c <= '9' || 'a' <= c <= 'f'
  }

  function HexValue(c: char): (d: nat)
    requires IsHex(c)
    ensures d < 16
  {
    if c <= '9' then c as int - '0' as int else 10 + (c as int - 'a' as int)
  }

  /** One code unit: a printable character, a short escape, or four hexadecimal digits for the rest. */
  function ReadUnit(s: string): (r: Read<Unit>)
    ensures r.Found? ==> |r.rest| < |s|
  {
    if s == "" then Failed
    else if s[0] != '\\' then
      if ' ' <= s[0] <= '~' && s[0] != '"' then Found(s[0] as int, s[1..]) else Failed
    else if |s| < 2 then Failed
    else
      match s[1]
      case '"' => Found(34, s[2..])
      case '\\' => Found(92, s[2..])
      case 'b' => Found(8, s[2..])
      case 't' => Found(9, s[2..])
      case 'n' => Found(10, s[2..])
      case 'f' => Found(12, s[2..])
      case 'r' => Found(13, s[2..])
      case 'u' => ReadHex(s)
      case _ => Failed
  }

  function ReadHex(s: string): (r: Read<Unit>)
    requires |s| >= 2
    ensures r.Found? ==> |r.rest| < |s|
  {
    if |s| < 6 || !(IsHex(s[2]) && IsHex(s[3]) && IsHex(s[4]) && IsHex(s[5])) then Failed
    else
      var u := 4096 * HexValue(s[2]) + 256 * HexValue(s[3]) + 16 * HexValue(s[4]) + HexValue(s[5]);
      if 32 <= u < 127 || u in {8, 9, 10, 12, 13} then Failed else Found(u, s[6..])
  }

  /** A string after its opening quote. */
  function ReadText(s: string): (r: Read<Text>)
    ensures r.Found? ==> |r.rest| < |s|
    decreases |s|
  {
    if s == "" then Failed
    else if s[0] == '"' then Found([], s[1..])
    else
      match ReadUnit(s)
      case Failed => Failed
      case Found(u, rest) =>
        match ReadText(rest)
        case Failed => Failed
        case Found(t, rest') => Found([u] + t, rest')
  }

  function ReadWord(s: string, word: string, v: Json): (r: Read<Json>)
    requires word != ""
    ensures r.Found? ==> |r.rest| < |s|
  {
    if |word| <= |s| && s[..|word|] == word then Found(v, s[|word|..]) else Failed
  }

  function ReadValue(s: string): (r: Read<Json>)
    ensures r.Found? ==> |r.rest| < |s|
    decreases |s|, 0
  {
    if s == "" then Failed
    else if s[0] == 'n' then ReadWord(s, "null", Null)
    else if s[0] == 't' then ReadWord(s, "true", Bool(true))
    else if s[0] == 'f' then ReadWord(s, "false", Bool(false))
    else if s[0] == '"' then
      match ReadText(s[1..])
      case Failed => Failed
      case Found(t, rest) => Found(Str(t), rest)
    else if s[0] == '[' then
      if |s| > 1 && s[1] == ']' then Found(Arr([]), s[2..])
      else
        match ReadItems(s[1..])
        case Failed => Failed
        case Found(items, rest) => Found(Arr(items), rest)
    else if s[0] == '{' then
      if |s| > 1 && s[1] == '}' then Found(Obj([]), s[2..])
      else
        match ReadMembers(s[1..])
        case Failed => Failed
        case Found(members, rest) => Found(Obj(members), rest)
    else
      match ReadNumber(s)
      case Failed => Failed
      case Found(n, rest) => Found(Num(n), rest)
  }

  /** One item or more, separated by commas, and the closing bracket. */
  function ReadItems(s: string): (r: Read<seq<Json>>)
    ensures r.Found? ==> |r.rest| < |s|
    decreases |s|, 1
  {
    match ReadValue(s)
    case Failed => Failed
    case Found(v, rest) =>
      if rest != "" && rest[0] == ']' then Found([v], rest[1..])
      else if rest != "" && rest[0] == ',' then
        match ReadItems(rest[1..])
        case Failed => Failed
        case Found(items, rest') => Found([v] + items, rest')
      else Failed
  }

  /** A quoted key, a colon and a value. */
  function ReadMember(s: string): (r: Read<Member>)
    ensures r.Found? ==> |r.rest| < |s|
    decreases |s|, 1
  {
    if s == "" || s[0] != '"' then Failed
    else
      match ReadText(s[1..])
      case Failed => Failed
      case Found(key, rest) =>
        if rest == "" || rest[0] != ':' then Failed
        else
          match ReadValue(rest[1..])
          case Failed => Failed
          case Found(v, rest') => Found(Member(key, v), rest')
  }

  /** One member or more, separated by commas, and the closing brace. */
  function ReadMembers(s: string): (r: Read<seq<Member>>)
    ensures r.Found? ==> |r.rest| < |s|
    decreases |s|, 2
  {
    match ReadMember(s)
    case Failed => Failed
    case Found(m, rest) =>
      if rest != "" && rest[0] == '}' then Found([m], rest[1..])
      else if rest != "" && rest[0] == ',' then
        match ReadMembers(rest[1..])
        case Failed => Failed
        case Found(members, rest') => Found([m] + members, rest')
      else Failed
  }

  /** The first key has the smaller code unit where the two first differ, or ends there. */
  ghost predicate Before(a: Text, b: Text) {
    exists k: nat :: k <= |a| && k < |b| && a[..k] == b[..k] && (k == |a| || a[k] < b[k])
  }

  /** The keys of every object inside ascend. */
  ghost predicate KeysInOrder(v: Json) {
    match v
    case Arr(items) => forall x :: x in items ==> KeysInOrder(x)
    case Obj(members) =>
      && (forall i, j :: 0 <= i < j < |members| ==> Before(members[i].key, members[j].key))
      && (forall m :: m in members ==> KeysInOrder(m.value))
    case _ => true
  }

  // ---------------------------------------------------------------- scalars

  lemma {:induction false} LeadingDigitsOf(d: string, x: string)
    requires AllDigits(d) && (x == "" || !IsDigit(x[0]))
    ensures LeadingDigits(d + x) == d
  {
    if d == "" {
      assert d + x == x;
    } else {
      assert (d + x)[1..] == d[1..] + x;
      LeadingDigitsOf(d[1..], x);
    }
  }

  /** A printed number is read as the number: its sign, its digits without superfluous zeros, its value. */
  lemma NumberReads(n: Number, x: string)
    requires n != NonFinite && Delimited(x)
    ensures ReadNumber(NumberText(n) + x) == Found(Integer(NumberValue(n)), x)
  {
    var i := NumberValue(n);
    var m := if i < 0 then -i else i;
    var d := Decimal(m);
    NumberSpelling(n);
    SignTells(i, x);
    DecimalValue(m);
    LeadingDigitsOf(d, x);
    if i < 0 {
      NegativeText(i, x);
      assert (NumberText(n) + x)[1..] == d + x;
    } else {
      assert NumberText(n) + x == d + x;
    }
    assert (d + x)[|d|..] == x;
  }

  lemma HexReads(d: nat)
    requires d < 16
    ensures IsHex(HexDigit(d)) && HexValue(HexDigit(d)) == d
  {
  }

  lemma HexPlaces(u: nat)
    ensures 4096 * (u / 16 / 16 / 16) + 256 * (u / 16 / 16 % 16) + 16 * (u / 16 % 16) + u % 16 == u
  {
  }

  lemma Hex4Reads(u: Unit, x: string)
    requires !(32 <= u < 127) && u !in {8, 9, 10, 12, 13}
    ensures ReadHex("\\u" + Hex4(u) + x) == Found(u, x)
  {
    var s := "\\u" + Hex4(u) + x;
    HexReads(u / 16 / 16 / 16);
    HexReads(u / 16 / 16 % 16);
    HexReads(u / 16 % 16);
    HexReads(u % 16);
    HexPlaces(u);
    assert s[2..6] == Hex4(u) && s[6..] == x;
    assert s[2] == Hex4(u)[0] && s[3] == Hex4(u)[1] && s[4] == Hex4(u)[2] && s[5] == Hex4(u)[3];
  }

  /** The spelling of a code unit is read as the unit. */
  lemma UnitReads(u: Unit, x: string)
    ensures ReadUnit(Escape(u) + x) == Found(u, x)
    ensures (Escape(u) + x)[0] != '"'
  {
    var e := Escape(u);
    var s := e + x;
    assert s[|e|..] == x && s[0] == e[0] && (|e| > 1 ==> s[1] == e[1]);
    if e == "\\u" + Hex4(u) {
      Hex4Reads(u, x);
    }
  }

  lemma {:induction false} LiteralReads(t: Text, x: string)
    ensures ReadText(Literal(t, x)) == Found(t, x)
  {
    LiteralShape(t, x);
    if t != [] {
      UnitReads(t[0], Literal(t[1..], x));
      LiteralReads(t[1..], x);
      assert [t[0]] + t[1..] == t;
    }
  }

  lemma ScalarReads(v: Json, x: string)
    requires Finite(v) && !v.Arr? && !v.Obj? && Delimited(x)
    ensures ReadValue(Print(v) + x) == Found(if v.Num? then Num(Integer(NumberValue(v.number))) else v, x)
  {
    var s := Print(v) + x;
    PrintStart(v);
    assert s[0] == Print(v)[0];
    match v
    case Null => assert s[..4] == "null" && s[4..] == x;
    case Bool(b) =>
      assert s[..|Print(v)|] == Print(v) && s[|Print(v)|..] == x;
    case Num(n) => NumberReads(n, x);
    case Str(t) =>
      QuoteText(t, x);
      LiteralReads(t, x);
      assert s[1..] == Literal(t, x);
  }

  // ---------------------------------------------------------------- arrays and objects

  /** Reading finds the value, in order, and stops where it ends. */
  ghost predicate ReadsAs(r: Read<Json>, v: Json, x: string) {
    r.Found? && r.rest == x && SameValue(r.value, v) && KeysInOrder(r.value)
  }

  ghost predicate ItemsReadAs(r: Read<seq<Json>>, items: seq<Json>, x: string) {
    && r.Found? && r.rest == x && |r.value| == |items|
    && forall i :: 0 <= i < |items| ==> SameValue(r.value[i], items[i]) && KeysInOrder(r.value[i])
  }

  ghost predicate MembersReadAs(r: Read<seq<Member>>, members: seq<Member>, x: string) {
    && r.Found? && r.rest == x && SameMembers(r.value, members)
    && forall i :: 0 <= i < |r.value| ==> KeysInOrder(r.value[i].value)
  }

  lemma {:induction false} ValueReads(v: Json, x: string)
    requires WellFormed(v) && Finite(v) && Delimited(x)
    ensures ReadsAs(ReadValue(Print(v) + x), v, x)
    decreases v, 2
  {
    match v
    case Arr(_) => ArrayReads(v, x);
    case Obj(_) => ObjectReads(v, x);
    case _ => ScalarReads(v, x);
  }

  lemma {:induction false} ArrayReads(v: Json, x: string)
    requires v.Arr? && WellFormed(v) && Finite(v)
    ensures ReadsAs(ReadValue(Print(v) + x), v, x)
    decreases v, 1
  {
    var s, inner := Print(v) + x, PrintItems(v.items) + ("]" + x);
    BracketText(v, x);
    ItemsText(v.items, x);
    assert s[0] == '[' && s[1..] == inner && s[1] == inner[0];
    if v.items == [] {
      assert s[2..] == x;
    } else {
      ItemsRead(v.items, x);
      assert ReadValue(s) == Found(Arr(ReadItems(inner).value), x);
    }
  }

  lemma TailStart(rest: string, more: bool, close: char, x: string)
    ensures Tail(rest, more, close, x) != ""
    ensures Tail(rest, more, close, x)[0] == if more then ',' else close
    ensures Tail(rest, more, close, x)[1..] == if more then rest + ([close] + x) else x
  {
  }

  lemma {:induction false} ItemsRead(items: seq<Json>, x: string)
    requires items != [] && forall v :: v in items ==> WellFormed(v) && Finite(v)
    ensures ItemsReadAs(ReadItems(PrintItems(items) + ("]" + x)), items, x)
    decreases items, 0
  {
    var rest := PrintItems(items[1..]);
    var tail := Tail(rest, |items| > 1, ']', x);
    ItemsText(items, x);
    TailStart(rest, |items| > 1, ']', x);
    ValueReads(items[0], tail);
    if |items| > 1 {
      assert "]" == [']'];
      ItemsRead(items[1..], x);
      assert forall i :: 1 <= i < |items| ==> items[i] == items[1..][i - 1];
    }
  }

  lemma {:induction false} ObjectReads(v: Json, x: string)
    requires v.Obj? && WellFormed(v) && Finite(v)
    ensures ReadsAs(ReadValue(Print(v) + x), v, x)
    decreases v, 1
  {
    var sorted := CanonicalJson.Sorted(v.members);
    var s, inner := Print(v) + x, PrintMembers(sorted, v) + ("}" + x);
    BracketText(v, x);
    MembersText(sorted, v, x);
    assert s == "{" + inner;
    if sorted == [] {
      assert inner == "}" + x;
      EmptyObjectReads(x);
      ObjectFound([], v);
    } else {
      MembersRead(sorted, v, x);
      BraceReads(inner, ReadMembers(inner));
      ObjectFound(ReadMembers(inner).value, v);
    }
  }

  lemma EmptyObjectReads(x: string)
    ensures ReadValue("{" + ("}" + x)) == Found(Obj([]), x)
  {
    var s := "{" + ("}" + x);
    assert s[0] == '{' && s[1] == '}' && s[2..] == x;
  }

  lemma BraceReads(inner: string, r: Read<seq<Member>>)
    requires inner != "" && inner[0] != '}' && ReadMembers(inner) == r && r.Found?
    ensures ReadValue("{" + inner) == Found(Obj(r.value), r.rest)
  {
    var s := "{" + inner;
    assert s[0] == '{' && s[1] == inner[0] && s[1..] == inner;
  }

  lemma ObjectFound(read: seq<Member>, v: Json)
    requires v.Obj? && UniqueKeys(v.members) && SameMembers(read, CanonicalJson.Sorted(v.members))
    requires forall i :: 0 <= i < |read| ==> KeysInOrder(read[i].value)
    ensures SameValue(Obj(read), v) && KeysInOrder(Obj(read))
  {
    MembersFound(read, v.members);
  }

  /** Members that agree with the sorted ones make the same object, with its keys in order. */
  lemma MembersFound(read: seq<Member>, members: seq<Member>)
    requires UniqueKeys(members) && SameMembers(read, CanonicalJson.Sorted(members))
    ensures SameValue(Obj(read), Obj(members))
    ensures forall i, j :: 0 <= i < j < |read| ==> Before(read[i].key, read[j].key)
  {
    var sorted := CanonicalJson.Sorted(members);
    SortedKeys(members);
    assert KeySeq(read) == KeySeq(sorted);
    forall i, j | 0 <= i < j < |read|
      ensures Before(read[i].key, read[j].key)
    {
      assert KeySeq(sorted)[i] == read[i].key && KeySeq(sorted)[j] == read[j].key;
      BeforeMeaning(read[i].key, read[j].key);
    }
    KeysRead(read, sorted);
    forall m, n | m in read && n in members && m.key == n.key
      ensures SameValue(m.value, n.value)
    {
      var i :| 0 <= i < |read| && read[i] == m;
      assert sorted[i] in members && sorted[i].key == n.key;
      UniqueKeysAreDistinct(members);
    }
  }

  lemma KeysRead(read: seq<Member>, sorted: seq<Member>)
    requires KeySeq(read) == KeySeq(sorted)
    ensures Keys(read) == Elements(KeySeq(sorted))
  {
    forall k
      ensures k in Keys(read) <==> k in Elements(KeySeq(read))
    {
      if k in Keys(read) {
        var m :| m in read && m.key == k;
        var i :| 0 <= i < |read| && read[i] == m;
        assert KeySeq(read)[i] == k;
      }
      if k in KeySeq(read) {
        var i :| 0 <= i < |read| && KeySeq(read)[i] == k;
        assert read[i] in read && read[i].key == k;
      }
    }
  }

  lemma BeforeMeaning(a: Text, b: Text)
    ensures KeyLess(a, b) <==> Before(a, b)
  {
    LexMeaning(UnitLess, a, b);
    forall k: nat
      ensures DecidedAt(UnitLess, a, b, k) <==>
              k <= |a| && k < |b| && a[..k] == b[..k] && (k == |a| || a[k] < b[k])
    {
    }
  }

  lemma {:induction false} MemberReads(m: Member, x: string)
    requires WellFormed(m.value) && Finite(m.value) && Delimited(x)
    ensures var r := ReadMember(Quote(m.key) + (":" + (Print(m.value) + x)));
            r.Found? && r.rest == x && r.value.key == m.key
            && SameValue(r.value.value, m.value) && KeysInOrder(r.value.value)
    decreases m.value, 3
  {
    var after := ":" + (Print(m.value) + x);
    var s := Quote(m.key) + after;
    QuoteText(m.key, after);
    LiteralReads(m.key, after);
    assert s[0] == '"' && s[1..] == Literal(m.key, after);
    assert after[1..] == Print(m.value) + x;
    ValueReads(m.value, x);
  }

  lemma JoinMembers(m: Member, read: seq<Member>, members: seq<Member>)
    requires members != [] && m.key == members[0].key && SameValue(m.value, members[0].value) && KeysInOrder(m.value)
    requires SameMembers(read, members[1..]) && forall i :: 0 <= i < |read| ==> KeysInOrder(read[i].value)
    ensures SameMembers([m] + read, members)
    ensures forall i :: 0 <= i < |[m] + read| ==> KeysInOrder(([m] + read)[i].value)
  {
    assert ([m] + read)[1..] == read;
    SameMembersStep([m] + read, members);
  }

  lemma {:induction false} MembersRead(members: seq<Member>, owner: Json, x: string)
    requires members != []
    requires forall i :: 0 <= i < |members| ==>
               Finite(members[i].value) && WellFormed(members[i].value) && members[i].value < owner
    ensures MembersReadAs(ReadMembers(PrintMembers(members, owner) + ("}" + x)), members, x)
    decreases owner, 0, |members|
  {
    var rest := PrintMembers(members[1..], owner);
    var tail := Tail(rest, |members| > 1, '}', x);
    var text := PrintMembers(members, owner) + ("}" + x);
    MembersText(members, owner, x);
    TailStart(rest, |members| > 1, '}', x);
    MemberReads(members[0], tail);
    var m := ReadMember(text).value;
    if |members| > 1 {
      assert "}" == ['}'];
      MembersRead(members[1..], owner, x);
      var read := ReadMembers(tail[1..]).value;
      assert ReadMembers(text) == Found([m] + read, x);
      JoinMembers(m, read, members);
    } else {
      assert ReadMembers(text) == Found([m], x);
    }
  }

  // ---------------------------------------------------------------- the theorem

  /** The canonical text denotes the value: read from the grammar alone it gives an equal value whose keys
      ascend by code units, and nothing is left over. */
  lemma CanonicalTextDenotes(v: Json)
    requires WellFormed(v) && Finite(v)
    ensures var r := ReadValue(Print(v));
            r.Found? && r.rest == "" && SameValue(r.value, v) && KeysInOrder(r.value)
  {
    assert Print(v) + "" == Print(v);
    ValueReads(v, "");
  }
}
