/** Python's `sorted` as a stable insertion sort under a strict comparison `lt`,
    with the facts that make it THE sorted permutation of its input. */
module Sorting {

  /** `lt` is a strict order: irreflexive and transitive. */
  ghost predicate StrictOrder<T(!new)>(lt: (T, T) -> bool)
  {
    && (forall a :: !lt(a, a))
    && (forall a, b, c :: lt(a, b) && lt(b, c) ==> lt(a, c))
  }

  /** No element of `s` is smaller than an element before it. */
  predicate SortedBy<T>(s: seq<T>, lt: (T, T) -> bool)
  {
    forall i, j :: 0 <= i < j < |s| ==> !lt(s[j], s[i])
  }

  /** Any two distinct elements of `s` compare one way or the other. */
  predicate TotalOn<T(==)>(s: seq<T>, lt: (T, T) -> bool)
  {
    forall i, j :: 0 <= i < |s| && 0 <= j < |s| && s[i] != s[j] ==> lt(s[i], s[j]) || lt(s[j], s[i])
  }

  /** Puts `x` just before the first element of `s` that is strictly greater,
      hence after every element it ties with. */
  function Insert<T>(x: T, s: seq<T>, lt: (T, T) -> bool): (r: seq<T>)
    ensures multiset(r) == multiset(s) + multiset{x}
    ensures |r| == |s| + 1
  {
    if s == [] then [x]
    else if lt(x, s[0]) then [x] + s
    else
      assert s == [s[0]] + s[1..];
      [s[0]] + Insert(x, s[1..], lt)
  }

  /** `sorted(s)`: the elements are inserted in input order, so ties keep their
      input order (a stable sort). */
  function Sort<T>(s: seq<T>, lt: (T, T) -> bool): (r: seq<T>)
    ensures multiset(r) == multiset(s)
    ensures |r| == |s|
  {
    if s == [] then []
    else
      assert s == s[..|s| - 1] + [s[|s| - 1]];
      Insert(s[|s| - 1], Sort(s[..|s| - 1], lt), lt)
  }

  /** No element of `s` is below `b`. */
  predicate NoneBelow<T>(s: seq<T>, b: T, lt: (T, T) -> bool)
  {
    forall i :: 0 <= i < |s| ==> !lt(s[i], b)
  }

  lemma {:induction false} InsertNoneBelow<T>(x: T, s: seq<T>, b: T, lt: (T, T) -> bool)
    requires NoneBelow(s, b, lt) && !lt(x, b)
    ensures NoneBelow(Insert(x, s, lt), b, lt)
  {
    if s != [] && !lt(x, s[0]) {
      InsertNoneBelow(x, s[1..], b, lt);
      var t := Insert(x, s[1..], lt);
      assert Insert(x, s, lt) == [s[0]] + t;
    }
  }

  lemma {:induction false} InsertSorted<T(!new)>(x: T, s: seq<T>, lt: (T, T) -> bool)
    requires StrictOrder(lt)
    requires SortedBy(s, lt)
    ensures SortedBy(Insert(x, s, lt), lt)
  {
    if s != [] && !lt(x, s[0]) {
      InsertSorted(x, s[1..], lt);
      var t := Insert(x, s[1..], lt);
      assert NoneBelow(s[1..], s[0], lt);
      InsertNoneBelow(x, s[1..], s[0], lt);
      var r := [s[0]] + t;
      assert Insert(x, s, lt) == r;
      forall i, j | 0 <= i < j < |r|
        ensures !lt(r[j], r[i])
      {
        if i > 0 {
          assert r[i] == t[i - 1] && r[j] == t[j - 1];
        } else {
          assert r[j] == t[j - 1];
        }
      }
    } else if s != [] {
      PrependSmaller(x, s, lt);
    }
  }

  lemma PrependSmaller<T(!new)>(x: T, s: seq<T>, lt: (T, T) -> bool)
    requires StrictOrder(lt)
    requires SortedBy(s, lt) && s != [] && lt(x, s[0])
    ensures SortedBy([x] + s, lt)
  {
    forall j | 0 <= j < |s|
      ensures !lt(s[j], x)
    {
      var y, h := s[j], s[0];
      assert !lt(y, h);
    }
  }

  lemma {:induction false} SortSorted<T(!new)>(s: seq<T>, lt: (T, T) -> bool)
    requires StrictOrder(lt)
    ensures SortedBy(Sort(s, lt), lt)
  {
    if s != [] {
      SortSorted(s[..|s| - 1], lt);
      InsertSorted(s[|s| - 1], Sort(s[..|s| - 1], lt), lt);
    }
  }

  lemma {:induction false} SortedHeadsEqual<T>(a: seq<T>, b: seq<T>, lt: (T, T) -> bool)
    requires a != [] && multiset(a) == multiset(b)
    requires SortedBy(a, lt) && SortedBy(b, lt)
    requires TotalOn(a, lt)
    ensures b != [] && a[0] == b[0]
  {
    assert a[0] in multiset(b);
    var k :| 0 <= k < |b| && b[k] == a[0];
    assert b[0] in multiset(a);
    var m :| 0 <= m < |a| && a[m] == b[0];
    var x, y := a[0], a[m];
    assert m == 0 || !lt(y, x);
    assert k == 0 || !lt(x, y);
    assert x == y || lt(x, y) || lt(y, x);
  }

  lemma TailMultiset<T>(a: seq<T>, b: seq<T>)
    requires a != [] && b != [] && a[0] == b[0] && multiset(a) == multiset(b)
    ensures multiset(a[1..]) == multiset(b[1..])
  {
    assert a == [a[0]] + a[1..];
    assert b == [b[0]] + b[1..];
    calc {
      multiset(a[1..]);
      multiset(a) - multiset{a[0]};
      multiset(b) - multiset{b[0]};
      multiset(b[1..]);
    }
  }

  /** Two sorted arrangements of the same elements coincide when the comparison
      is total on them: whatever algorithm Python's `sorted` uses, its result is
      `Sort`. */
  lemma {:induction false} SortedPermutationUnique<T>(a: seq<T>, b: seq<T>, lt: (T, T) -> bool)
    requires multiset(a) == multiset(b)
    requires SortedBy(a, lt) && SortedBy(b, lt)
    requires TotalOn(a, lt)
    ensures a == b
  {
    if a == [] {
      assert |b| == |multiset(b)| == 0;
    } else {
      SortedHeadsEqual(a, b, lt);
      TailMultiset(a, b);
      assert SortedBy(a[1..], lt) && SortedBy(b[1..], lt) && TotalOn(a[1..], lt);
      SortedPermutationUnique(a[1..], b[1..], lt);
      assert a == [a[0]] + a[1..];
      assert b == [b[0]] + b[1..];
    }
  }
}
