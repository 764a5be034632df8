/** Sorting by a caller-supplied order, as Python's `sorted` and JavaScript's `Array.sort` do it,
    and the lexicographic order of text. */
module Ordering {

  /** What a comparison must satisfy for sorting by it to make sense; ties are allowed. */
  ghost predicate StrictWeak<T(!new)>(less: (T, T) -> bool) {
    && (forall x :: !less(x, x))
    && (forall x, y, z :: less(x, z) ==> less(x, y) || less(y, z))
    && (forall x, y, z :: less(x, y) && less(y, z) ==> less(x, z))
  }

  /** A strict weak order without ties between distinct values. */
  ghost predicate StrictTotal<T(!new)>(less: (T, T) -> bool) {
    && StrictWeak(less)
    && (forall x, y :: x != y ==> less(x, y) || less(y, x))
  }

  ghost predicate Sorted<T>(less: (T, T) -> bool, s: seq<T>) {
    forall i, j :: 0 <= i < j < |s| ==> !less(s[j], s[i])
  }

  /** Strictly increasing: sorted and without duplicates. */
  ghost predicate Ascending<T>(less: (T, T) -> bool, s: seq<T>) {
    forall i, j :: 0 <= i < j < |s| ==> less(s[i], s[j])
  }

  ghost predicate Distinct<T>(s: seq<T>) {
    forall i, j :: 0 <= i < j < |s| ==> s[i] != s[j]
  }

  function Elements<T(==)>(s: seq<T>): set<T> {
    set x | x in s
  }

  lemma ElementsOf<T>(x: T, s: seq<T>)
    ensures Elements([x] + s) == {x} + Elements(s)
    ensures Elements(s + [x]) == Elements(s) + {x}
    ensures Elements([x]) == {x}
  {
  }

  // ---------------------------------------------------------------- sorting

  function Insert<T(!new)>(less: (T, T) -> bool, x: T, s: seq<T>): (r: seq<T>)
    ensures multiset(r) == multiset(s) + multiset{x}
  {
    if s == [] then [x]
    else if less(s[0], x) then
      assert s == [s[0]] + s[1..];
      [s[0]] + Insert(less, x, s[1..])
    else
      [x] + s
  }

  lemma {:induction false} InsertSorted<T(!new)>(less: (T, T) -> bool, x: T, s: seq<T>)
    requires StrictWeak(less)
    requires Sorted(less, s)
    ensures Sorted(less, Insert(less, x, s))
  {
    if s != [] {
      if less(s[0], x) {
        var rest := Insert(less, x, s[1..]);
        InsertSorted(less, x, s[1..]);
        forall y | y in rest
          ensures !less(y, s[0])
        {
          assert y in multiset(rest);
          assert y == x || y in s[1..];
        }
      } else {
        forall k | 0 <= k < |s|
          ensures !less(s[k], x)
        {
          assert k == 0 || !less(s[k], s[0]);
        }
      }
    }
  }

  /** The elements of `s` in ascending order. */
  function Sort<T(!new)>(less: (T, T) -> bool, s: seq<T>): (r: seq<T>)
    requires StrictWeak(less)
    ensures multiset(r) == multiset(s)
    ensures Sorted(less, r)
  {
    if s == [] then []
    else
      assert s == [s[0]] + s[1..];
      InsertSorted(less, s[0], Sort(less, s[1..]));
      Insert(less, s[0], Sort(less, s[1..]))
  }

  lemma MultisetMembers<T>(a: seq<T>, b: seq<T>)
    requires multiset(a) == multiset(b)
    ensures |a| == |b|
    ensures forall x :: x in a <==> x in b
  {
    assert |multiset(a)| == |a| && |multiset(b)| == |b|;
    forall x
      ensures x in a <==> x in b
    {
      assert x in a <==> x in multiset(a);
    }
  }

  lemma DistinctPermutation<T>(a: seq<T>, b: seq<T>)
    requires multiset(a) == multiset(b)
    requires Distinct(a)
    ensures Distinct(b)
  {
    forall i, j | 0 <= i < j < |b|
      ensures b[i] != b[j]
    {
      if b[i] == b[j] {
        assert b == b[..j] + [b[j]] + b[j + 1..];
        assert b[i] in b[..j];
        assert multiset(b)[b[i]] >= 2;
        DistinctMultiplicity(a, b[i]);
      }
    }
  }

  lemma DistinctMultiplicity<T>(a: seq<T>, x: T)
    requires Distinct(a)
    ensures multiset(a)[x] <= 1
  {
    if a != [] {
      assert a == [a[0]] + a[1..];
      DistinctMultiplicity(a[1..], x);
      assert a[0] !in a[1..];
    }
  }

  lemma DistinctSameMembers<T(!new)>(a: seq<T>, b: seq<T>)
    requires Distinct(a) && Distinct(b)
    requires forall x :: x in a <==> x in b
    ensures multiset(a) == multiset(b)
  {
    forall x
      ensures multiset(a)[x] == multiset(b)[x]
    {
      DistinctMultiplicity(a, x);
      DistinctMultiplicity(b, x);
      assert x in a <==> x in multiset(a);
      assert x in b <==> x in multiset(b);
    }
  }

  lemma DropFirst<T>(a: seq<T>, b: seq<T>)
    requires a != [] && b != [] && multiset(a) == multiset(b) && a[0] == b[0]
    ensures multiset(a[1..]) == multiset(b[1..])
  {
    assert a == [a[0]] + a[1..] && b == [b[0]] + b[1..];
    assert multiset(a[1..]) == multiset(a) - multiset{a[0]};
    assert multiset(b[1..]) == multiset(b) - multiset{b[0]};
  }

  lemma DropLast<T>(a: seq<T>, b: seq<T>)
    requires a != [] && b != [] && multiset(a) == multiset(b) && a[|a| - 1] == b[|b| - 1]
    ensures multiset(a[..|a| - 1]) == multiset(b[..|b| - 1])
  {
    assert a == a[..|a| - 1] + [a[|a| - 1]] && b == b[..|b| - 1] + [b[|b| - 1]];
    assert multiset(a[..|a| - 1]) == multiset(a) - multiset{a[|a| - 1]};
    assert multiset(b[..|b| - 1]) == multiset(b) - multiset{b[|b| - 1]};
  }

  lemma SameFirst<T(!new)>(less: (T, T) -> bool, a: seq<T>, b: seq<T>)
    requires StrictTotal(less)
    requires a != [] && |a| == |b| && forall x :: x in a <==> x in b
    requires Sorted(less, a) && Sorted(less, b)
    ensures a[0] == b[0]
  {
    assert a[0] in b && b[0] in a;
  }

  /** A sorted arrangement is unique when the order has no ties. */
  lemma {:induction false} SortedUnique<T(!new)>(less: (T, T) -> bool, a: seq<T>, b: seq<T>)
    requires StrictTotal(less)
    requires multiset(a) == multiset(b)
    requires Sorted(less, a) && Sorted(less, b)
    ensures a == b
  {
    MultisetMembers(a, b);
    if a != [] {
      SameFirst(less, a, b);
      DropFirst(a, b);
      SortedUnique(less, a[1..], b[1..]);
      assert a == [a[0]] + a[1..] && b == [b[0]] + b[1..];
    }
  }

  /** Sorting forgets the order in which the elements came. */
  lemma SortPermutation<T(!new)>(less: (T, T) -> bool, a: seq<T>, b: seq<T>)
    requires StrictTotal(less)
    requires multiset(a) == multiset(b)
    ensures Sort(less, a) == Sort(less, b)
  {
    SortedUnique(less, Sort(less, a), Sort(less, b));
  }

  lemma SortDistinct<T(!new)>(less: (T, T) -> bool, s: seq<T>)
    requires StrictTotal(less) && Distinct(s)
    ensures Ascending(less, Sort(less, s)) && Distinct(Sort(less, s))
    ensures |Sort(less, s)| == |s| && Elements(Sort(less, s)) == Elements(s)
  {
    MultisetMembers(s, Sort(less, s));
    DistinctPermutation(s, Sort(less, s));
  }

  /** An ascending enumeration is determined by the set it enumerates. */
  lemma {:induction false} AscendingUnique<T(!new)>(less: (T, T) -> bool, a: seq<T>, b: seq<T>)
    requires StrictTotal(less)
    requires Ascending(less, a) && Ascending(less, b)
    requires Elements(a) == Elements(b)
    ensures a == b
  {
    assert a != [] ==> a[0] in Elements(b);
    assert b != [] ==> b[0] in Elements(a);
    if a != [] {
      assert a[0] == b[0];
      forall x
        ensures x in Elements(a[1..]) <==> x in Elements(a) && x != a[0]
      {
        assert a == [a[0]] + a[1..];
      }
      forall x
        ensures x in Elements(b[1..]) <==> x in Elements(b) && x != b[0]
      {
        assert b == [b[0]] + b[1..];
      }
      AscendingUnique(less, a[1..], b[1..]);
    }
  }

  lemma AscendingSize<T(!new)>(less: (T, T) -> bool, s: seq<T>)
    requires StrictTotal(less) && Ascending(less, s)
    ensures Distinct(s) && |Elements(s)| == |s|
  {
    DistinctSize(s);
  }

  lemma {:induction false} DistinctSize<T>(s: seq<T>)
    requires Distinct(s)
    ensures |Elements(s)| == |s|
  {
    if s != [] {
      var init, last := s[..|s| - 1], s[|s| - 1];
      DistinctSize(init);
      assert s == init + [last];
      ElementsOf(last, init);
      assert last !in init;
      assert last !in Elements(init);
    }
  }

  lemma {:induction false} SizeTellsDistinct<T>(s: seq<T>)
    ensures |Elements(s)| <= |s|
    ensures |Elements(s)| == |s| <==> Distinct(s)
  {
    if s != [] {
      var init, last := s[..|s| - 1], s[|s| - 1];
      SizeTellsDistinct(init);
      assert s == init + [last];
      ElementsOf(last, init);
      assert last in init <==> last in Elements(init);
      if last in init {
        var i :| 0 <= i < |init| && init[i] == last;
        assert s[i] == s[|s| - 1];
      }
    }
  }

  /** A sequence without duplicates is no longer than a set that holds its elements. */
  lemma DistinctWithin<T>(s: seq<T>, bound: set<T>)
    requires Distinct(s)
    requires forall x :: x in s ==> x in bound
    ensures |s| <= |bound|
  {
    DistinctSize(s);
    SubsetSize(Elements(s), bound);
  }

  lemma SubsetSize<T>(a: set<T>, b: set<T>)
    requires a <= b
    ensures |a| <= |b|
    ensures |a| == |b| ==> a == b
  {
    assert b == a + (b - a);
  }

  // ---------------------------------------------------------------- the greatest element

  ghost predicate IsGreatest<T(!new)>(less: (T, T) -> bool, s: set<T>, x: T) {
    x in s && forall y :: y in s && y != x ==> less(y, x)
  }

  lemma GreatestOfTwo<T(!new)>(less: (T, T) -> bool, s: set<T>, best: T, x: T)
    requires StrictTotal(less) && IsGreatest(less, s, best) && x !in s
    ensures IsGreatest(less, s + {x}, if less(best, x) then x else best)
  {
  }

  lemma {:induction false} GreatestExists<T(!new)>(less: (T, T) -> bool, s: set<T>)
    requires StrictTotal(less) && s != {}
    ensures exists x :: IsGreatest(less, s, x)
    decreases |s|
  {
    var x :| x in s;
    var rest := s - {x};
    assert s == rest + {x};
    if rest == {} {
      assert IsGreatest(less, s, x);
    } else {
      GreatestExists(less, rest);
      var best :| IsGreatest(less, rest, best);
      GreatestOfTwo(less, rest, best, x);
    }
  }

  ghost function Greatest<T(!new)>(less: (T, T) -> bool, s: set<T>): (x: T)
    requires StrictTotal(less) && s != {}
    ensures IsGreatest(less, s, x)
  {
    GreatestExists(less, s);
    var x :| IsGreatest(less, s, x);
    x
  }

  lemma GreatestUnique<T(!new)>(less: (T, T) -> bool, s: set<T>, x: T, y: T)
    requires StrictTotal(less) && IsGreatest(less, s, x) && IsGreatest(less, s, y)
    ensures x == y
  {
  }

  /** The maximum of a set, found element by element. */
  method Max<T(==,!new)>(less: (T, T) -> bool, s: set<T>) returns (best: T)
    requires StrictTotal(less) && s != {}
    ensures IsGreatest(less, s, best)
  {
    best :| best in s;
    var rest := s - {best};
    assert s - rest == {best};
    while rest != {}
      invariant rest <= s
      invariant IsGreatest(less, s - rest, best)
      decreases |rest|
    {
      var x :| x in rest;
      GreatestOfTwo(less, s - rest, best, x);
      if less(best, x) {
        best := x;
      }
      assert s - (rest - {x}) == (s - rest) + {x};
      rest := rest - {x};
    }
    assert s - rest == s;
  }

  // ---------------------------------------------------------------- lexicographic order

  /** Compare element by element, a proper prefix first. */
  predicate Lex<T(==)>(less: (T, T) -> bool, a: seq<T>, b: seq<T>) {
    b != [] && (a == [] || less(a[0], b[0]) || (a[0] == b[0] && Lex(less, a[1..], b[1..])))
  }

  lemma {:induction false} LexIrreflexive<T(!new)>(less: (T, T) -> bool, a: seq<T>)
    requires StrictTotal(less)
    ensures !Lex(less, a, a)
  {
    if a != [] {
      LexIrreflexive(less, a[1..]);
    }
  }

  lemma {:induction false} LexConnected<T(!new)>(less: (T, T) -> bool, a: seq<T>, b: seq<T>)
    requires StrictTotal(less) && a != b
    ensures Lex(less, a, b) || Lex(less, b, a)
  {
    if a != [] && b != [] && a[0] == b[0] {
      assert a == [a[0]] + a[1..] && b == [b[0]] + b[1..];
      LexConnected(less, a[1..], b[1..]);
    }
  }

  lemma {:induction false} LexTransitive<T(!new)>(less: (T, T) -> bool, a: seq<T>, b: seq<T>, c: seq<T>)
    requires StrictTotal(less) && Lex(less, a, b) && Lex(less, b, c)
    ensures Lex(less, a, c)
  {
    if a != [] && a[0] == b[0] && b[0] == c[0] {
      LexTransitive(less, a[1..], b[1..], c[1..]);
    }
  }

  lemma LexOrder<T(!new)>(less: (T, T) -> bool, a: seq<T>, b: seq<T>, c: seq<T>)
    requires StrictTotal(less)
    ensures !Lex(less, a, a)
    ensures a != b ==> Lex(less, a, b) || Lex(less, b, a)
    ensures Lex(less, a, b) && Lex(less, b, c) ==> Lex(less, a, c)
    ensures Lex(less, a, c) ==> Lex(less, a, b) || Lex(less, b, c)
  {
    LexIrreflexive(less, a);
    if a != b {
      LexConnected(less, a, b);
    }
    if Lex(less, a, b) && Lex(less, b, c) {
      LexTransitive(less, a, b, c);
    }
    if Lex(less, b, a) && Lex(less, a, c) {
      LexTransitive(less, b, a, c);
    }
  }

  /** The first place where two sequences differ decides, and a proper prefix comes first. */
  ghost predicate DecidedAt<T>(less: (T, T) -> bool, a: seq<T>, b: seq<T>, k: nat) {
    k <= |a| && k < |b| && a[..k] == b[..k] && (k == |a| || less(a[k], b[k]))
  }

  lemma LexMeaning<T(!new)>(less: (T, T) -> bool, a: seq<T>, b: seq<T>)
    ensures Lex(less, a, b) <==> exists k: nat :: DecidedAt(less, a, b, k)
  {
    if Lex(less, a, b) {
      LexDecides(less, a, b);
    }
    forall k: nat | DecidedAt(less, a, b, k)
      ensures Lex(less, a, b)
    {
      DecidedMeansLex(less, a, b, k);
    }
  }

  lemma {:induction false} LexDecides<T(!new)>(less: (T, T) -> bool, a: seq<T>, b: seq<T>)
    requires Lex(less, a, b)
    ensures exists k: nat :: DecidedAt(less, a, b, k)
  {
    if a == [] || less(a[0], b[0]) {
      assert DecidedAt(less, a, b, 0);
    } else {
      LexDecides(less, a[1..], b[1..]);
      var k: nat :| DecidedAt(less, a[1..], b[1..], k);
      assert a == [a[0]] + a[1..] && b == [b[0]] + b[1..];
      assert a[..k + 1] == [a[0]] + a[1..][..k] && b[..k + 1] == [b[0]] + b[1..][..k];
      assert DecidedAt(less, a, b, k + 1);
    }
  }

  lemma {:induction false} DecidedMeansLex<T(!new)>(less: (T, T) -> bool, a: seq<T>, b: seq<T>, k: nat)
    requires DecidedAt(less, a, b, k)
    ensures Lex(less, a, b)
    decreases k
  {
    if k > 0 {
      assert a[0] == a[..k][0] && b[0] == b[..k][0];
      assert a[1..][..k - 1] == a[..k][1..] && b[1..][..k - 1] == b[..k][1..];
      DecidedMeansLex(less, a[1..], b[1..], k - 1);
    }
  }

  predicate CharLess(a: char, b: char) {
    a < b
  }

  /** The order of strings by code point. */
  predicate TextLess(a: string, b: string) {
    Lex(CharLess, a, b)
  }

  /** In plain words: at the first place where they differ the smaller character, or the end. */
  lemma TextLessMeaning(a: string, b: string)
    ensures TextLess(a, b) <==>
            exists k: nat :: k <= |a| && k < |b| && a[..k] == b[..k] && (k == |a| || a[k] < b[k])
  {
    LexMeaning(CharLess, a, b);
    forall k: nat
      ensures DecidedAt(CharLess, a, b, k) <==>
              k <= |a| && k < |b| && a[..k] == b[..k] && (k == |a| || a[k] < b[k])
    {
    }
  }

  lemma TextOrder()
    ensures StrictTotal(TextLess)
  {
    forall x, y, z
      ensures !TextLess(x, x)
      ensures x != y ==> TextLess(x, y) || TextLess(y, x)
      ensures TextLess(x, y) && TextLess(y, z) ==> TextLess(x, z)
      ensures TextLess(x, z) ==> TextLess(x, y) || TextLess(y, z)
    {
      LexOrder(CharLess, x, y, z);
    }
  }

  lemma {:induction false} EnumerationExists<T>(s: set<T>) returns (r: seq<T>)
    ensures Distinct(r) && Elements(r) == s
    decreases |s|
  {
    if s == {} {
      r := [];
    } else {
      var x :| x in s;
      var rest := EnumerationExists(s - {x});
      assert x !in Elements(rest);
      assert x !in rest;
      ElementsOf(x, rest);
      r := rest + [x];
    }
  }

  lemma ArrangementExists<T(!new)>(less: (T, T) -> bool, s: set<T>) returns (r: seq<T>)
    requires StrictTotal(less)
    ensures Ascending(less, r) && Elements(r) == s
  {
    var listed := EnumerationExists(s);
    SortDistinct(less, listed);
    r := Sort(less, listed);
  }

  /** A set, enumerated in order. */
  method Arrange<T(==,!new)>(less: (T, T) -> bool, s: set<T>) returns (r: seq<T>)
    requires StrictTotal(less)
    ensures Ascending(less, r) && Elements(r) == s && Distinct(r)
  {
    var rest, listed := s, [];
    while rest != {}
      invariant Distinct(listed)
      invariant Elements(listed) + rest == s && Elements(listed) !! rest
      decreases |rest|
    {
      var x :| x in rest;
      assert forall y :: y in listed ==> y in Elements(listed);
      listed := listed + [x];
      rest := rest - {x};
    }
    SortDistinct(less, listed);
    r := Sort(less, listed);
  }

  /** Python's `sorted` of a set of strings. */
  method SortedStrings(s: set<string>) returns (r: seq<string>)
    ensures Ascending(TextLess, r) && Elements(r) == s && Distinct(r)
  {
    TextOrder();
    r := Arrange(TextLess, s);
  }
}
