/** Sorting a finite set, as `sorted` does, and the order of texts. */
module Sorting {

  ghost predicate TotalOrder<T(!new)>(before: (T, T) -> bool) {
    && (forall a, b :: before(a, b) ==> !before(b, a))
    && (forall a, b :: a != b ==> before(a, b) || before(b, a))
    && (forall a, b, c :: before(a, b) && before(b, c) ==> before(a, c))
  }

  ghost predicate Ascending<T>(xs: seq<T>, before: (T, T) -> bool) {
    forall i, j :: 0 <= i < j < |xs| ==> before(xs[i], xs[j])
  }

  function Insert<T(==, !new)>(xs: seq<T>, x: T, before: (T, T) -> bool): (r: seq<T>)
    requires TotalOrder(before) && Ascending(xs, before) && x !in xs
    ensures Ascending(r, before) && forall y :: y in r <==> y == x || y in xs
  {
    if xs == [] then [x]
    else if before(x, xs[0]) then
      AscendingCons(x, xs, before);
      [x] + xs
    else
      var rest := Insert(xs[1..], x, before);
      assert before(xs[0], x) && forall k :: 0 <= k < |xs[1..]| ==> before(xs[0], xs[1..][k]);
      assert xs == [xs[0]] + xs[1..];
      FirstOfAll(xs[0], rest, before);
      [xs[0]] + rest
  }

  lemma FirstOfAll<T(!new)>(x: T, xs: seq<T>, before: (T, T) -> bool)
    requires Ascending(xs, before) && forall y :: y in xs ==> before(x, y)
    ensures Ascending([x] + xs, before)
  {
    assert forall k :: 0 <= k < |xs| ==> xs[k] in xs;
  }

  lemma AscendingCons<T(!new)>(x: T, xs: seq<T>, before: (T, T) -> bool)
    requires TotalOrder(before) && Ascending(xs, before) && xs != [] && before(x, xs[0])
    ensures Ascending([x] + xs, before)
  {
    forall y | y in xs ensures before(x, y) {
      var k :| 0 <= k < |xs| && xs[k] == y;
      if k > 0 { assert before(xs[0], xs[k]); }
    }
    FirstOfAll(x, xs, before);
  }

  /** An order leaves one list with given elements. */
  lemma {:induction false} OneAscending<T(!new)>(xs: seq<T>, ys: seq<T>, before: (T, T) -> bool)
    requires forall a, b :: before(a, b) ==> !before(b, a)
    requires Ascending(xs, before) && Ascending(ys, before) && forall x :: x in xs <==> x in ys
    ensures xs == ys
  {
    assert (xs != [] ==> xs[0] in xs) && (ys != [] ==> ys[0] in ys);
    if xs != [] {
      SameFirst(xs, ys, before);
      RestIsOthers(xs, before);
      RestIsOthers(ys, before);
      OneAscending(xs[1..], ys[1..], before);
    }
  }

  lemma RestIsOthers<T(!new)>(xs: seq<T>, before: (T, T) -> bool)
    requires forall a, b :: before(a, b) ==> !before(b, a)
    requires Ascending(xs, before) && xs != []
    ensures xs == [xs[0]] + xs[1..] && forall x :: x in xs[1..] <==> x in xs && x != xs[0]
  {
    forall x | x in xs[1..] ensures before(xs[0], x) {
      var k :| 0 <= k < |xs[1..]| && xs[1..][k] == x;
      assert xs[k + 1] == x;
    }
    assert xs == [xs[0]] + xs[1..];
  }

  lemma SameFirst<T(!new)>(xs: seq<T>, ys: seq<T>, before: (T, T) -> bool)
    requires forall a, b :: before(a, b) ==> !before(b, a)
    requires Ascending(xs, before) && Ascending(ys, before)
    requires xs != [] && ys != [] && xs[0] in ys && ys[0] in xs
    ensures xs[0] == ys[0]
  {
    var i :| 0 <= i < |ys| && ys[i] == xs[0];
    var j :| 0 <= j < |xs| && xs[j] == ys[0];
    assert i > 0 ==> before(ys[0], ys[i]);
    assert j > 0 ==> before(xs[0], xs[j]);
  }

  /** The elements of the set, each once, in ascending order. */
  method Sort<T(==, !new)>(s: set<T>, before: (T, T) -> bool) returns (sorted: seq<T>)
    requires TotalOrder(before)
    ensures Ascending(sorted, before) && forall x :: x in sorted <==> x in s
  {
    sorted := [];
    var rest := s;
    while rest != {}
      invariant rest <= s && Ascending(sorted, before)
      invariant forall x :: x in sorted <==> x in s - rest
    {
      var x :| x in rest;
      sorted := Insert(sorted, x, before);
      rest := rest - {x};
    }
  }

  // ---- Texts ----

  /** The order of texts by their characters' code points. */
  predicate TextBefore(a: string, b: string) {
    b != "" && (a == "" || a[0] < b[0] || (a[0] == b[0] && TextBefore(a[1..], b[1..])))
  }

  lemma {:induction false} TextsAreOrdered(a: string, b: string)
    ensures TextBefore(a, b) ==> !TextBefore(b, a)
    ensures a != b ==> TextBefore(a, b) || TextBefore(b, a)
  {
    if a != "" && b != "" && a[0] == b[0] {
      TextsAreOrdered(a[1..], b[1..]);
      if a[1..] == b[1..] { assert a == [a[0]] + a[1..] && b == [b[0]] + b[1..]; }
    }
  }

  lemma {:induction false} TextOrderChains(a: string, b: string, c: string)
    requires TextBefore(a, b) && TextBefore(b, c)
    ensures TextBefore(a, c)
  {
    if a != "" && a[0] == b[0] == c[0] { TextOrderChains(a[1..], b[1..], c[1..]); }
  }

  lemma TextOrderIsTotal()
    ensures TotalOrder(TextBefore)
  {
    forall a, b {
      TextsAreOrdered(a, b);
    }
    forall a, b, c | TextBefore(a, b) && TextBefore(b, c) {
      TextOrderChains(a, b, c);
    }
  }

  method SortTexts(s: set<string>) returns (sorted: seq<string>)
    ensures Ascending(sorted, TextBefore) && forall x :: x in sorted <==> x in s
  {
    TextOrderIsTotal();
    sorted := Sort(s, TextBefore);
  }
}
