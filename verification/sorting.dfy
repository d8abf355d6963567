/** Sorting by a strict order.

    The source sorts with `Array.prototype.sort`, which is stable. Stability
    is modelled by tagging every element with its input position and letting
    the position break the remaining ties, which turns the comparison into a
    strict total order; a stable sort is then the unique ascending
    arrangement (`SortedUnique`). */
module Sorting {

  /** `lt` behaves as a strict total order on the elements of `s`. */
  ghost predicate StrictTotalOn<T>(lt: (T, T) -> bool, s: seq<T>) {
    && (forall a :: a in s ==> !lt(a, a))
    && (forall a, b, c :: a in s && b in s && c in s && lt(a, b) && lt(b, c) ==> lt(a, c))
    && (forall a, b :: a in s && b in s && a != b ==> lt(a, b) || lt(b, a))
  }

  predicate SortedBy<T>(s: seq<T>, lt: (T, T) -> bool) {
    forall i, j :: 0 <= i < j < |s| ==> lt(s[i], s[j])
  }

  predicate Distinct<T(==)>(s: seq<T>) {
    forall i, j :: 0 <= i < j < |s| ==> s[i] != s[j]
  }

  lemma StrictTotalOnSub<T>(lt: (T, T) -> bool, s: seq<T>, t: seq<T>)
    requires StrictTotalOn(lt, s)
    requires forall x :: x in t ==> x in s
    ensures StrictTotalOn(lt, t)
  {
  }

  /** Elements of a sequence whose multiset is that of `b` plus `x` are `x` or in `b`. */
  lemma MembersOf<T>(a: seq<T>, b: seq<T>, x: T)
    requires multiset(a) == multiset(b) + multiset{x}
    ensures forall y :: y in a ==> y == x || y in b
  {
    forall y | y in a ensures y == x || y in b {
      assert y in multiset(a);
    }
  }

  /** An element below everything in a sorted sequence may be put in front of it. */
  lemma ConsSorted<T>(y: T, t: seq<T>, lt: (T, T) -> bool)
    requires SortedBy(t, lt)
    requires forall z :: z in t ==> lt(y, z)
    ensures SortedBy([y] + t, lt)
  {
    var r := [y] + t;
    forall i, j | 0 <= i < j < |r| ensures lt(r[i], r[j]) {
      if i == 0 {
        assert r[j] == t[j - 1] && r[j] in t;
      } else {
        assert r[i] == t[i - 1] && r[j] == t[j - 1];
      }
    }
  }

  /** Places `x` before the first element it precedes. */
  function Insert<T>(x: T, s: seq<T>, lt: (T, T) -> bool): (r: seq<T>)
    requires SortedBy(s, lt) && x !in s
    requires StrictTotalOn(lt, [x] + s)
    ensures multiset(r) == multiset(s) + multiset{x}
    ensures SortedBy(r, lt)
  {
    if s == [] then [x]
    else if lt(x, s[0]) then
      InsertFront(x, s, lt);
      [x] + s
    else
      assert s[0] in [x] + s && x in [x] + s;
      StrictTotalOnSub(lt, [x] + s, [x] + s[1..]);
      var t := Insert(x, s[1..], lt);
      InsertBehind(x, s, t, lt);
      [s[0]] + t
  }

  /** An element below the head of a sorted sequence goes in front of it. */
  lemma InsertFront<T>(x: T, s: seq<T>, lt: (T, T) -> bool)
    requires SortedBy(s, lt) && s != [] && lt(x, s[0])
    requires StrictTotalOn(lt, [x] + s)
    ensures SortedBy([x] + s, lt)
  {
    forall z | z in s ensures lt(x, z) {
      var j :| 0 <= j < |s| && s[j] == z;
      if j > 0 {
        assert lt(s[0], s[j]);
        assert x in [x] + s && s[0] in [x] + s && s[j] in [x] + s;
      }
    }
    ConsSorted(x, s, lt);
  }

  /** An element not below the head of a sorted sequence is inserted into
      its tail, behind the head. */
  lemma InsertBehind<T>(x: T, s: seq<T>, t: seq<T>, lt: (T, T) -> bool)
    requires SortedBy(s, lt) && s != [] && x !in s && !lt(x, s[0])
    requires StrictTotalOn(lt, [x] + s)
    requires multiset(t) == multiset(s[1..]) + multiset{x} && SortedBy(t, lt)
    ensures multiset([s[0]] + t) == multiset(s) + multiset{x}
    ensures SortedBy([s[0]] + t, lt)
  {
    assert s[0] in [x] + s && x in [x] + s;
    assert lt(s[0], x);
    MembersOf(t, s[1..], x);
    forall z | z in t ensures lt(s[0], z) {
      if z != x {
        var j :| 0 <= j < |s[1..]| && s[1..][j] == z;
        assert s[j + 1] == z;
      }
    }
    ConsSorted(s[0], t, lt);
    assert s == [s[0]] + s[1..];
  }

  /** Insertion sort. */
  function Sort<T>(s: seq<T>, lt: (T, T) -> bool): (r: seq<T>)
    requires Distinct(s) && StrictTotalOn(lt, s)
    ensures multiset(r) == multiset(s)
    ensures SortedBy(r, lt)
  {
    if s == [] then []
    else
      assert s == [s[0]] + s[1..];
      StrictTotalOnSub(lt, s, s[1..]);
      var t := Sort(s[1..], lt);
      assert s[0] !in s[1..];
      assert s[0] !in t by {
        assert s[0] !in multiset(s[1..]);
      }
      assert forall y :: y in t ==> y in s[1..] by {
        forall y | y in t ensures y in s[1..] {
          assert y in multiset(t);
        }
      }
      StrictTotalOnSub(lt, s, [s[0]] + t);
      Insert(s[0], t, lt)
  }

  /** The head of a sorted sequence precedes every other element. */
  lemma HeadIsLeast<T>(a: seq<T>, y: T, lt: (T, T) -> bool)
    requires SortedBy(a, lt) && y in a && y != a[0]
    ensures lt(a[0], y)
  {
    var i :| 0 <= i < |a| && a[i] == y;
  }

  /** Two ascending arrangements of the same collection start alike. */
  lemma HeadsAgree<T>(a: seq<T>, b: seq<T>, lt: (T, T) -> bool)
    requires multiset(a) == multiset(b) && a != []
    requires SortedBy(a, lt) && SortedBy(b, lt)
    requires StrictTotalOn(lt, a)
    ensures b != [] && a[0] == b[0]
  {
    assert a[0] in multiset(b);
    assert b[0] in multiset(a);
    if a[0] != b[0] {
      HeadIsLeast(a, b[0], lt);
      HeadIsLeast(b, a[0], lt);
      assert false;
    }
  }

  /** There is exactly one ascending arrangement of a collection under a
      strict total order. */
  lemma {:induction false} SortedUnique<T>(a: seq<T>, b: seq<T>, lt: (T, T) -> bool)
    requires multiset(a) == multiset(b)
    requires SortedBy(a, lt) && SortedBy(b, lt)
    requires StrictTotalOn(lt, a)
    ensures a == b
    decreases |a|
  {
    if a == [] {
      assert |b| == |multiset(b)| == 0;
    } else {
      HeadsAgree(a, b, lt);
      assert a == [a[0]] + a[1..] && b == [b[0]] + b[1..];
      SameTails(a, b);
      StrictTotalOnSub(lt, a, a[1..]);
      SortedUnique(a[1..], b[1..], lt);
    }
  }

  /** Removing the same head from two arrangements of the same elements
      leaves arrangements of the same elements. */
  lemma SameTails<T>(a: seq<T>, b: seq<T>)
    requires a != [] && b != [] && a[0] == b[0] && multiset(a) == multiset(b)
    ensures multiset(a[1..]) == multiset(b[1..])
  {
    assert a == [a[0]] + a[1..] && b == [b[0]] + b[1..];
    assert multiset(a) == multiset{a[0]} + multiset(a[1..]);
    assert multiset(b) == multiset{b[0]} + multiset(b[1..]);
    forall x ensures multiset(a[1..])[x] == multiset(b[1..])[x] {
      assert multiset(a)[x] == multiset(b)[x];
    }
  }
}
