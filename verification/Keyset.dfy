/** Keyset pages: a bounded descending window below a cursor. */
module Keyset {

  import opened Options
  import opened Ordering

  const DEFAULT_LIST_LIMIT := 50
  const MAX_LIST_LIMIT := 200

  /** The `limit` of a query: absent, a real number, or NaN or an infinity. */
  datatype Limit = Absent | Number(value: real) | NotFinite

  /** The limit in force; none when the query is refused. */
  function ClampListLimit(limit: Limit): (r: Option<nat>)
    ensures r.None? <==> limit.NotFinite? || (limit.Number? && limit.value.Floor as real != limit.value)
    ensures r.Some? ==> 1 <= r.value <= 200
    ensures r.Some? && limit.Number? ==>
              forall n: int :: 1 <= n <= 200 ==>
                Distance(limit.value.Floor, r.value) <= Distance(limit.value.Floor, n)
    ensures limit.Absent? ==> r == Some(50)
  {
    match limit
    case Absent => Some(DEFAULT_LIST_LIMIT)
    case NotFinite => None
    case Number(value) =>
      if value.Floor as real != value then None
      else
        var raised := if 1 < value.Floor then value.Floor else 1;
        Some(if raised < MAX_LIST_LIMIT then raised else MAX_LIST_LIMIT)
  }

  function Distance(a: int, b: int): nat {
    if a < b then b - a else a - b
  }

  // ---------------------------------------------------------------- keys

  /** The sort key of a document row, to the microsecond. */
  datatype Key = Key(createdAt: int, documentId: string)

  predicate KeyLess(a: Key, b: Key) {
    a.createdAt < b.createdAt || (a.createdAt == b.createdAt && TextLess(a.documentId, b.documentId))
  }

  predicate KeyGreater(a: Key, b: Key) {
    KeyLess(b, a)
  }

  lemma KeyOrder()
    ensures StrictTotal(KeyLess) && StrictTotal(KeyGreater)
  {
    TextOrder();
  }

  // ---------------------------------------------------------------- pages

  datatype Page = Page(documents: seq<Key>, nextBefore: Option<Key>)

  datatype Listing = Found(page: Page) | Invalid

  function Below(live: set<Key>, before: Option<Key>): set<Key> {
    set k | k in live && (before.None? || KeyLess(k, before.value))
  }

  /** Everything left out of the page lies below everything on it, and is left out only by the limit. */
  ghost predicate Cut(available: set<Key>, limit: nat, documents: seq<Key>) {
    forall k :: k in available && k !in documents ==>
                  |documents| == limit && forall d :: d in documents ==> KeyLess(k, d)
  }

  ghost predicate IsPage(live: set<Key>, limit: nat, before: Option<Key>, page: Page) {
    && Ascending(KeyGreater, page.documents)
    && Elements(page.documents) <= Below(live, before)
    && |page.documents| <= limit
    && Cut(Below(live, before), limit, page.documents)
    && page.nextBefore == (if |page.documents| == limit && page.documents != []
                           then Some(page.documents[|page.documents| - 1]) else None)
  }

  /** A page in plain words: by creation, newest first, then by document id, falling, and below the cursor. */
  lemma PageInOrder(live: set<Key>, limit: nat, before: Option<Key>, page: Page, i: nat)
    requires IsPage(live, limit, before, page) && i < |page.documents|
    ensures page.documents[i] in live
    ensures before.Some? ==>
              page.documents[i].createdAt < before.value.createdAt
              || (page.documents[i].createdAt == before.value.createdAt
                  && TextLess(page.documents[i].documentId, before.value.documentId))
    ensures forall j :: i < j < |page.documents| ==>
              page.documents[j].createdAt < page.documents[i].createdAt
              || (page.documents[j].createdAt == page.documents[i].createdAt
                  && TextLess(page.documents[j].documentId, page.documents[i].documentId))
  {
    assert page.documents[i] in Elements(page.documents);
  }

  lemma PrefixIsPage(live: set<Key>, limit: nat, before: Option<Key>, rows: seq<Key>, page: seq<Key>)
    requires Ascending(KeyGreater, rows) && Elements(rows) == Below(live, before)
    requires page == rows[..if |rows| < limit then |rows| else limit]
    ensures IsPage(live, limit, before,
                   Page(page, if |page| == limit && page != [] then Some(page[|page| - 1]) else None))
  {
    forall k | k in Below(live, before) && k !in page
      ensures |page| == limit && forall d :: d in page ==> KeyLess(k, d)
    {
      assert k in Elements(rows);
      var i :| 0 <= i < |rows| && rows[i] == k;
      assert i >= |page|;
    }
  }

  /** The rows, the limit and the cursor determine the page. */
  lemma PageUnique(live: set<Key>, limit: nat, before: Option<Key>, p: Page, q: Page)
    requires IsPage(live, limit, before, p) && IsPage(live, limit, before, q)
    ensures p == q
  {
    KeyOrder();
    AscendingSize(KeyGreater, p.documents);
    AscendingSize(KeyGreater, q.documents);
    var ps, qs := Elements(p.documents), Elements(q.documents);
    OneIncludesTheOther(live, limit, before, p, q);
    if ps <= qs {
      NoSmallerPage(live, limit, before, p, q);
    } else {
      NoSmallerPage(live, limit, before, q, p);
    }
    AscendingUnique(KeyGreater, p.documents, q.documents);
  }

  lemma PageExists(live: set<Key>, limit: nat, before: Option<Key>) returns (page: Page)
    ensures IsPage(live, limit, before, page)
  {
    KeyOrder();
    var rows := ArrangementExists(KeyGreater, Below(live, before));
    var documents := rows[..if |rows| < limit then |rows| else limit];
    page := Page(documents, if |documents| == limit && documents != [] then Some(documents[|documents| - 1]) else None);
    PrefixIsPage(live, limit, before, rows, documents);
  }

  lemma LeftOutIsLess(live: set<Key>, limit: nat, before: Option<Key>, p: Page, x: Key, y: Key)
    requires IsPage(live, limit, before, p)
    requires x in p.documents && y !in p.documents && y in Below(live, before)
    ensures KeyLess(y, x) && !KeyLess(x, y)
  {
    KeyOrder();
  }

  lemma OneIncludesTheOther(live: set<Key>, limit: nat, before: Option<Key>, p: Page, q: Page)
    requires IsPage(live, limit, before, p) && IsPage(live, limit, before, q)
    ensures Elements(p.documents) <= Elements(q.documents) || Elements(q.documents) <= Elements(p.documents)
  {
    if x :| x in Elements(p.documents) && x !in Elements(q.documents) {
      if y :| y in Elements(q.documents) && y !in Elements(p.documents) {
        LeftOutIsLess(live, limit, before, p, x, y);
        LeftOutIsLess(live, limit, before, q, y, x);
      }
    }
  }

  lemma NoSmallerPage(live: set<Key>, limit: nat, before: Option<Key>, p: Page, q: Page)
    requires IsPage(live, limit, before, p) && IsPage(live, limit, before, q)
    requires Elements(p.documents) <= Elements(q.documents)
    ensures Elements(p.documents) == Elements(q.documents)
  {
    KeyOrder();
    AscendingSize(KeyGreater, p.documents);
    AscendingSize(KeyGreater, q.documents);
    SubsetSize(Elements(p.documents), Elements(q.documents));
    assert (exists y :: y in Elements(q.documents) && y !in Elements(p.documents)) ==> |p.documents| == limit;
  }
}
