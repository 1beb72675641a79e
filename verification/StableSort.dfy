/** The stable sort of the standard library, by any total order. */
module StableSort {
  import opened Collections
  ghost predicate TotalOrder<T(!new)>(le: (T, T) -> bool) {
    && (forall a, b :: le(a, b) || le(b, a))
    && (forall a, b, c :: le(a, b) && le(b, c) ==> le(a, c))
  }

  ghost predicate Sorted<T>(xs: seq<T>, le: (T, T) -> bool) {
    forall i, j :: 0 <= i < j < |xs| ==> le(xs[i], xs[j])
  }

  function Insert<T>(x: T, xs: seq<T>, le: (T, T) -> bool): seq<T> {
    if xs == [] || le(x, xs[0]) then [x] + xs else [xs[0]] + Insert(x, xs[1..], le)
  }

  function Sort<T>(xs: seq<T>, le: (T, T) -> bool): seq<T> {
    if xs == [] then [] else Insert(xs[0], Sort(xs[1..], le), le)
  }

  lemma {:induction false} InsertContents<T>(x: T, xs: seq<T>, le: (T, T) -> bool)
    ensures multiset(Insert(x, xs, le)) == multiset(xs) + multiset{x}
  {
    if xs != [] && !le(x, xs[0]) {
      InsertContents(x, xs[1..], le);
      assert xs == [xs[0]] + xs[1..];
    }
  }

  lemma {:induction false} InsertSorts<T(!new)>(x: T, xs: seq<T>, le: (T, T) -> bool)
    requires TotalOrder(le) && Sorted(xs, le)
    ensures Sorted(Insert(x, xs, le), le)
  {
    if xs != [] {
      var rest := xs[1..];
      assert Sorted(rest, le);
      if le(x, xs[0]) {
        forall y | y in xs ensures le(x, y) {
          HeadIsLeast(xs, y, le);
          assert le(x, xs[0]) && le(xs[0], y);
        }
        SortedCons(x, xs, le);
      } else {
        InsertSorts(x, rest, le);
        InsertContents(x, rest, le);
        assert le(xs[0], x);
        forall y | y in Insert(x, rest, le) ensures le(xs[0], y) {
          assert y in multiset(Insert(x, rest, le));
          if y in rest {
            HeadIsLeast(xs, y, le);
          }
        }
        hide TotalOrder, Insert;
        SortedCons(xs[0], Insert(x, rest, le), le);
      }
    }
  }

  lemma HeadIsLeast<T(!new)>(xs: seq<T>, y: T, le: (T, T) -> bool)
    requires TotalOrder(le) && Sorted(xs, le) && y in xs
    ensures le(xs[0], y)
  {
    var i :| 0 <= i < |xs| && xs[i] == y;
    assert i == 0 ==> le(y, y);
  }

  lemma SortedCons<T>(x: T, xs: seq<T>, le: (T, T) -> bool)
    requires Sorted(xs, le) && forall y :: y in xs ==> le(x, y)
    ensures Sorted([x] + xs, le)
  {
    var all := [x] + xs;
    forall i, j | 0 <= i < j < |all| ensures le(all[i], all[j]) {
      assert all[j] == xs[j - 1] && xs[j - 1] in xs;
      if i > 0 {
        assert all[i] == xs[i - 1];
      }
    }
  }

  lemma {:induction false} Sorts<T(!new)>(xs: seq<T>, le: (T, T) -> bool)
    requires TotalOrder(le)
    ensures Sorted(Sort(xs, le), le)
    ensures multiset(Sort(xs, le)) == multiset(xs)
  {
    if xs != [] {
      Sorts(xs[1..], le);
      hide Sorted, TotalOrder;
      InsertSorts(xs[0], Sort(xs[1..], le), le);
      InsertContents(xs[0], Sort(xs[1..], le), le);
      assert xs == [xs[0]] + xs[1..];
    }
  }

  /** The members that stand at the same place in the order as `x`. */
  function Like<T>(xs: seq<T>, x: T, le: (T, T) -> bool): seq<T> {
    if xs == [] then []
    else (if le(xs[0], x) && le(x, xs[0]) then [xs[0]] else []) + Like(xs[1..], x, le)
  }

  lemma {:induction false} InsertIsStable<T(!new)>(y: T, xs: seq<T>, x: T, le: (T, T) -> bool)
    requires TotalOrder(le)
    ensures Like(Insert(y, xs, le), x, le) == Like([y] + xs, x, le)
  {
    assert ([y] + xs)[1..] == xs;
    if xs != [] && !le(y, xs[0]) {
      var rest := xs[1..];
      InsertIsStable(y, rest, x, le);
      assert ([y] + rest)[1..] == rest;
      assert ([xs[0]] + Insert(y, rest, le))[1..] == Insert(y, rest, le);
      assert le(xs[0], y);
    }
  }

  /** Sorting is stable: members at the same place in the order keep the order they had. */
  lemma {:induction false} SortIsStable<T(!new)>(xs: seq<T>, x: T, le: (T, T) -> bool)
    requires TotalOrder(le)
    ensures Like(Sort(xs, le), x, le) == Like(xs, x, le)
  {
    if xs != [] {
      SortIsStable(xs[1..], x, le);
      InsertIsStable(xs[0], Sort(xs[1..], le), x, le);
      hide TotalOrder, Insert;
      assert ([xs[0]] + Sort(xs[1..], le))[1..] == Sort(xs[1..], le);
    }
  }

  lemma SameMembers<T>(a: seq<T>, b: seq<T>)
    requires multiset(a) == multiset(b)
    ensures forall x :: x in a <==> x in b
    ensures |a| == |b|
  {
    forall x ensures x in a <==> x in b {
      assert x in multiset(a) <==> x in multiset(b);
    }
    assert |multiset(a)| == |multiset(b)|;
  }

  lemma {:induction false} InsertKeepsDistinct<T>(x: T, xs: seq<T>, le: (T, T) -> bool)
    requires Distinct(xs) && x !in xs
    ensures Distinct(Insert(x, xs, le))
    ensures forall y :: y in Insert(x, xs, le) <==> y == x || y in xs
  {
    if xs != [] && !le(x, xs[0]) {
      InsertKeepsDistinct(x, xs[1..], le);
      assert xs == [xs[0]] + xs[1..];
      assert xs[0] !in xs[1..];
    }
  }

  lemma {:induction false} SortKeepsDistinct<T>(xs: seq<T>, le: (T, T) -> bool)
    requires Distinct(xs)
    ensures Distinct(Sort(xs, le))
    ensures forall y :: y in Sort(xs, le) <==> y in xs
  {
    if xs != [] {
      SortKeepsDistinct(xs[1..], le);
      assert xs == [xs[0]] + xs[1..] && xs[0] !in xs[1..];
      InsertKeepsDistinct(xs[0], Sort(xs[1..], le), le);
    }
  }
}
