/** Following `nextBefore` from page to page while other callers create and tombstone documents. */
module Pagination {

  import opened Options
  import opened Ordering
  import opened Keyset
  import opened Documents

  /** One request of a traversal: after how many statements of the run it was served, its limit in
      force and its answer. */
  datatype Visit = Visit(at: nat, limit: nat, page: Page)

  function Before(visits: seq<Visit>, i: nat): Option<Key>
    requires i <= |visits|
  {
    if i == 0 then None else visits[i - 1].page.nextBefore
  }

  /** What is live after `n` statements of a run. */
  function LiveAt(run: seq<Statement>, n: nat): set<Key> {
    if n <= |run| then LiveKeys(After(run[..n])) else {}
  }

  /** Request `i` comes no earlier than the one before it and carries on from its cursor. */
  ghost predicate Continues(run: seq<Statement>, visits: seq<Visit>, i: nat)
    requires i < |visits|
  {
    var v := visits[i];
    && v.at <= |run| && 1 <= v.limit
    && (i > 0 ==> visits[i - 1].at <= v.at && visits[i - 1].page.nextBefore.Some?)
    && IsPage(LiveAt(run, v.at), v.limit, Before(visits, i), v.page)
  }

  /** What is live, by the history: inserted before, under the instant of the insert, and not tombstoned. */
  lemma LiveByHistory(run: seq<Statement>, n: nat, key: Key)
    requires n <= |run|
    ensures key in LiveAt(run, n) <==>
            && (exists m :: 0 <= m < n && Creates(run, m, key.documentId) && run[m].now == key.createdAt)
            && (forall m :: 0 <= m < n ==> !Tombstones(run, m, key.documentId))
  {
    DocumentsNow(run, n, key.documentId);
    TombstonedNow(run, n, key.documentId);
    forall m | 0 <= m < n && Creates(run, m, key.documentId)
      ensures After(run[..n]).documents[key.documentId] == Document(run[m].now)
    {
      DocumentRow(run, m, n, key.documentId);
    }
  }

  /** A page the repository served belongs to the run its history became part of. */
  lemma ServedInRun(history: seq<Statement>, run: seq<Statement>)
    requires history <= run
    ensures LiveAt(run, |history|) == LiveKeys(After(history))
  {
    assert run[..|history|] == history;
  }

  /** A traversal starts without a cursor and follows each cursor it is given. */
  ghost predicate IsTraversal(run: seq<Statement>, visits: seq<Visit>) {
    forall i :: 0 <= i < |visits| ==> Continues(run, visits, i)
  }

  /** It ends with the page that names no next one. */
  predicate Complete(visits: seq<Visit>) {
    visits != [] && visits[|visits| - 1].page.nextBefore.None?
  }

  /** What the pages show, one after the other. */
  function Listed(visits: seq<Visit>): seq<Key> {
    if visits == [] then [] else Listed(visits[..|visits| - 1]) + visits[|visits| - 1].page.documents
  }

  lemma Earlier(run: seq<Statement>, visits: seq<Visit>)
    requires visits != [] && IsTraversal(run, visits)
    ensures IsTraversal(run, visits[..|visits| - 1])
    ensures Continues(run, visits, |visits| - 1)
    ensures Before(visits, |visits| - 1) == Before(visits[..|visits| - 1], |visits| - 1)
  {
    var init := visits[..|visits| - 1];
    forall i | 0 <= i < |init|
      ensures Continues(run, init, i)
    {
      assert Continues(run, visits, i);
    }
  }

  // ---------------------------------------------------------------- no duplicates

  /** The listing so far never falls below the cursor. */
  ghost predicate AtOrAbove(cursor: Option<Key>, listed: seq<Key>) {
    cursor.Some? ==> forall k :: k in listed ==> k == cursor.value || KeyLess(cursor.value, k)
  }

  lemma PageKeepsOrder(live: set<Key>, limit: nat, before: Option<Key>, page: Page, listed: seq<Key>)
    requires IsPage(live, limit, before, page)
    requires Ascending(KeyGreater, listed) && AtOrAbove(before, listed) && (before.None? ==> listed == [])
    ensures Ascending(KeyGreater, listed + page.documents)
    ensures AtOrAbove(page.nextBefore, listed + page.documents)
  {
    KeyOrder();
    assert forall k :: k in page.documents ==> k in Elements(page.documents);
    forall a, b | a in listed && b in page.documents
      ensures KeyGreater(a, b)
    {
      assert b in Below(live, before);
    }
    if page.nextBefore.Some? {
      var last := page.nextBefore.value;
      forall k | k in listed + page.documents
        ensures k == last || KeyLess(last, k)
      {
        if k in listed {
          assert last in page.documents;
          assert KeyGreater(k, last);
        } else {
          var i :| 0 <= i < |page.documents| && page.documents[i] == k;
          assert i < |page.documents| - 1 ==> KeyGreater(k, last);
        }
      }
    }
  }

  /** Whatever happens between the pages, the pages together list in strictly descending order, so no
      document is listed twice. */
  lemma {:induction false} ListsDescending(run: seq<Statement>, visits: seq<Visit>)
    requires IsTraversal(run, visits)
    ensures Ascending(KeyGreater, Listed(visits)) && Distinct(Listed(visits))
    ensures AtOrAbove(Before(visits, |visits|), Listed(visits))
  {
    KeyOrder();
    if visits != [] {
      var init, last := visits[..|visits| - 1], visits[|visits| - 1];
      Earlier(run, visits);
      ListsDescending(run, init);
      PageKeepsOrder(LiveAt(run, last.at), last.limit, Before(init, |init|), last.page, Listed(init));
    }
  }

  // ---------------------------------------------------------------- no gaps

  /** Tombstones are final and rows do not change: live at both ends is live in between. */
  lemma LiveInBetween(run: seq<Statement>, i: nat, j: nat, k: nat, key: Key)
    requires i <= j <= k <= |run|
    requires key in LiveAt(run, i) && key in LiveAt(run, k)
    ensures key in LiveAt(run, j)
  {
    RunsExtend(run, i, j);
    RunsExtend(run, j, k);
  }

  lemma {:induction false} VisitsAdvance(run: seq<Statement>, visits: seq<Visit>, i: nat)
    requires IsTraversal(run, visits) && i < |visits|
    ensures visits[0].at <= visits[i].at <= |run|
  {
    assert Continues(run, visits, i);
    if i > 0 {
      VisitsAdvance(run, visits, i - 1);
    }
  }

  lemma CutCovers(live: set<Key>, limit: nat, before: Option<Key>, page: Page, key: Key)
    requires IsPage(live, limit, before, page) && limit >= 1
    requires key in Below(live, before) && key !in page.documents
    ensures page.nextBefore.Some? && KeyLess(key, page.nextBefore.value)
  {
  }

  lemma {:induction false} ListedOrAhead(run: seq<Statement>, visits: seq<Visit>, end: nat, key: Key)
    requires visits != [] && IsTraversal(run, visits) && visits[|visits| - 1].at <= end <= |run|
    requires key in LiveAt(run, visits[0].at) && key in LiveAt(run, end)
    ensures key in Listed(visits)
            || (Before(visits, |visits|).Some? && KeyLess(key, Before(visits, |visits|).value))
  {
    var n := |visits| - 1;
    var init, last := visits[..n], visits[n];
    Earlier(run, visits);
    if n > 0 {
      ListedOrAhead(run, init, end, key);
    }
    if key !in Listed(init) && key !in last.page.documents {
      VisitsAdvance(run, visits, n);
      LiveInBetween(run, visits[0].at, last.at, end, key);
      CutCovers(LiveAt(run, last.at), last.limit, Before(visits, n), last.page, key);
    }
  }

  /** A complete traversal lists every document that is live from its first request to its last. */
  lemma LiveThroughoutIsListed(run: seq<Statement>, visits: seq<Visit>, key: Key)
    requires IsTraversal(run, visits) && Complete(visits)
    requires key in LiveAt(run, visits[0].at)
    requires key in LiveAt(run, visits[|visits| - 1].at)
    ensures key in Listed(visits)
  {
    VisitsAdvance(run, visits, |visits| - 1);
    ListedOrAhead(run, visits, visits[|visits| - 1].at, key);
  }

  /** Whatever is listed was live when its page was served. */
  lemma {:induction false} ListedWasLive(run: seq<Statement>, visits: seq<Visit>, key: Key)
    requires IsTraversal(run, visits) && key in Listed(visits)
    ensures exists i :: 0 <= i < |visits| && key in LiveAt(run, visits[i].at)
  {
    var n := |visits| - 1;
    Earlier(run, visits);
    if key in visits[n].page.documents {
      assert key in Elements(visits[n].page.documents);
    } else {
      ListedWasLive(run, visits[..n], key);
      var i :| 0 <= i < n && key in LiveAt(run, visits[..n][i].at);
      assert visits[..n][i] == visits[i];
    }
  }

  ghost predicate Quiet(visits: seq<Visit>) {
    forall i :: 0 <= i < |visits| ==> visits[i].at == visits[0].at
  }

  lemma ListedWhenQuiet(run: seq<Statement>, visits: seq<Visit>, key: Key)
    requires IsTraversal(run, visits) && Complete(visits) && Quiet(visits)
    ensures key in Listed(visits) <==> key in LiveAt(run, visits[0].at)
  {
    if key in Listed(visits) {
      ListedWasLive(run, visits, key);
    }
    if key in LiveAt(run, visits[0].at) {
      LiveThroughoutIsListed(run, visits, key);
    }
  }

  /** With nothing happening in between, a complete traversal lists exactly the live documents, each
      once, in descending order. */
  lemma QuietTraversalIsExact(run: seq<Statement>, visits: seq<Visit>)
    requires IsTraversal(run, visits) && Complete(visits) && Quiet(visits)
    ensures Ascending(KeyGreater, Listed(visits)) && Distinct(Listed(visits))
    ensures Elements(Listed(visits)) == LiveAt(run, visits[0].at)
  {
    ListsDescending(run, visits);
    forall key
      ensures key in Elements(Listed(visits)) <==> key in LiveAt(run, visits[0].at)
    {
      ListedWhenQuiet(run, visits, key);
    }
  }

  // ---------------------------------------------------------------- termination

  function AllKeys(t: Tables): set<Key> {
    set d | d in t.documents :: Key(t.documents[d].createdAt, d)
  }

  function Limits(visits: seq<Visit>): nat {
    if visits == [] then 0 else Limits(visits[..|visits| - 1]) + visits[|visits| - 1].limit
  }

  /** Every page that names a next one is full. */
  lemma {:induction false} FullPages(run: seq<Statement>, visits: seq<Visit>)
    requires IsTraversal(run, visits) && Before(visits, |visits|).Some?
    ensures |Listed(visits)| == Limits(visits) >= |visits|
  {
    if visits != [] {
      Earlier(run, visits);
      if |visits| > 1 {
        FullPages(run, visits[..|visits| - 1]);
      }
    }
  }

  /** A traversal ends: the limits of its full pages never add up to more than the documents that exist,
      so it makes at most one request more than there are documents. */
  lemma TraversalEnds(run: seq<Statement>, visits: seq<Visit>)
    requires visits != [] && IsTraversal(run, visits)
    ensures Limits(visits[..|visits| - 1]) <= |AllKeys(After(run))|
    ensures |visits| <= |AllKeys(After(run))| + 1
  {
    var init := visits[..|visits| - 1];
    Earlier(run, visits);
    if init != [] {
      FullPages(run, init);
      ListsDescending(run, init);
      forall key | key in Listed(init)
        ensures key in AllKeys(After(run))
      {
        ListedWasLive(run, init, key);
        var i :| 0 <= i < |init| && key in LiveAt(run, init[i].at);
        RunsExtend(run, init[i].at, |run|);
        assert run[..|run|] == run;
      }
      DistinctWithin(Listed(init), AllKeys(After(run)));
    }
  }

  ghost predicate AllAt(visits: seq<Visit>, at: nat, limit: nat) {
    forall i :: 0 <= i < |visits| ==> visits[i].at == at && visits[i].limit == limit
  }

  /** One more request carries a traversal on. */
  lemma OneMore(run: seq<Statement>, visits: seq<Visit>, at: nat, limit: nat) returns (more: seq<Visit>)
    requires IsTraversal(run, visits) && at <= |run| && limit >= 1 && AllAt(visits, at, limit)
    requires visits != [] ==> Before(visits, |visits|).Some?
    ensures |more| == |visits| + 1 && IsTraversal(run, more) && AllAt(more, at, limit)
  {
    var page := PageExists(LiveAt(run, at), limit, Before(visits, |visits|));
    more := visits + [Visit(at, limit, page)];
    forall i | 0 <= i < |more|
      ensures Continues(run, more, i)
    {
      assert i < |visits| ==> Continues(run, visits, i);
      assert Before(more, i) == Before(visits, i);
    }
  }

  lemma {:induction false} FollowToTheEnd(run: seq<Statement>, visits: seq<Visit>, at: nat, limit: nat)
    returns (all: seq<Visit>)
    requires IsTraversal(run, visits) && at <= |run| && limit >= 1 && AllAt(visits, at, limit)
    ensures IsTraversal(run, all) && Complete(all) && AllAt(all, at, limit)
    decreases |AllKeys(After(run))| + 1 - |visits|
  {
    if Complete(visits) {
      all := visits;
    } else {
      var more := OneMore(run, visits, at, limit);
      TraversalEnds(run, more);
      all := FollowToTheEnd(run, more, at, limit);
    }
  }

  /** Following the cursor from none, with any one limit, ends, and has listed each live document exactly
      once, newest first. */
  lemma FollowingListsEverything(run: seq<Statement>, at: nat, limit: nat) returns (visits: seq<Visit>)
    requires at <= |run| && limit >= 1
    ensures IsTraversal(run, visits) && Complete(visits) && AllAt(visits, at, limit)
    ensures Ascending(KeyGreater, Listed(visits)) && Distinct(Listed(visits))
    ensures Elements(Listed(visits)) == LiveAt(run, at)
  {
    visits := FollowToTheEnd(run, [], at, limit);
    QuietTraversalIsExact(run, visits);
  }
}
