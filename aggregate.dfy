/** The aggregators that collapse the rows of one subject into one cell:
    `uniq`, `sort_and_deduplicate`, `concat_vals` and `concat_vals_unique`. */
module Aggregation {
  import opened Common
  import opened Values
  import opened Sorting

  /** `a > b` in Python 2; the comparison `sorted(..., reverse=True)` sorts by. */
  predicate Greater(a: Value, b: Value) { Less(b, a) }

  lemma GreaterIsStrictOrder()
    ensures StrictOrder(Greater)
  {
    forall a { LessIrreflexive(a); }
    forall a, b, c | Greater(a, b) && Greater(b, c) ensures Greater(a, c) { LessTransitive(c, b, a); }
  }

  /** No element is greater than one before it. */
  predicate NonIncreasing(s: seq<Value>)
  {
    forall i, j :: 0 <= i < j < |s| ==> !Less(s[i], s[j])
  }

  /** Every element is strictly smaller than every element before it. */
  predicate StrictlyDecreasing(s: seq<Value>)
  {
    forall i, j :: 0 <= i < j < |s| ==> Less(s[j], s[i])
  }

  /** `sorted(l, reverse=True)`. */
  function SortDescending(l: seq<Value>): (r: seq<Value>)
    ensures multiset(r) == multiset(l)
    ensures NonIncreasing(r)
  {
    var r := Sort(l, Greater);
    GreaterIsStrictOrder();
    SortSorted(l, Greater);
    assert SortedBy(r, Greater);
    r
  }

  /** What the generator `uniq` yields: its input without adjacent repeats. */
  function Dedup(s: seq<Value>): seq<Value>
  {
    if |s| <= 1 then s
    else if s[|s| - 1] == s[|s| - 2] then Dedup(s[..|s| - 1])
    else Dedup(s[..|s| - 1]) + [s[|s| - 1]]
  }

  /** `uniq`: `last` starts as a fresh sentinel that equals no item, and each
      item equal to the previous one is skipped. */
  method Uniq(lst: seq<Value>) returns (r: seq<Value>)
    ensures r == Dedup(lst)
  {
    r := [];
    var last: Option<Value> := None;
    for i := 0 to |lst|
      invariant r == Dedup(lst[..i])
      invariant last == if i == 0 then None else Some(lst[i - 1])
    {
      assert lst[..i + 1][..i] == lst[..i];
      var item := lst[i];
      if last == Some(item) {
        continue;
      }
      r := r + [item];
      last := Some(item);
    }
    assert lst[..|lst|] == lst;
  }

  lemma {:induction false} DedupShape(s: seq<Value>)
    ensures |Dedup(s)| <= |s|
    ensures s != [] ==> Dedup(s) != [] && Dedup(s)[|Dedup(s)| - 1] == s[|s| - 1]
    ensures forall v :: v in Dedup(s) <==> v in s
  {
    if |s| > 1 {
      var p := s[..|s| - 1];
      DedupShape(p);
      assert s == p + [s[|s| - 1]];
      assert s[|s| - 2] == p[|p| - 1];
    }
  }

  /** On a non-increasing input, dropping adjacent repeats leaves a strictly
      decreasing sequence (so no value occurs twice) with the same values. */
  lemma {:induction false} DedupOfSorted(s: seq<Value>)
    requires NonIncreasing(s)
    ensures StrictlyDecreasing(Dedup(s))
    ensures forall v :: v in Dedup(s) <==> v in s
  {
    DedupShape(s);
    if |s| > 1 {
      var p := s[..|s| - 1];
      var x := s[|s| - 1];
      assert NonIncreasing(p);
      DedupOfSorted(p);
      DedupShape(p);
      if x != s[|s| - 2] {
        var d := Dedup(p);
        LessTotal(x, s[|s| - 2]);
        assert Less(x, s[|s| - 2]);
        forall i | 0 <= i < |d|
          ensures Less(x, d[i])
        {
          assert d[i] in p;
          var k :| 0 <= k < |p| && p[k] == d[i];
          if k < |p| - 1 {
            LessTotal(p[k], s[|s| - 2]);
            if p[k] != s[|s| - 2] {
              assert Less(s[|s| - 2], p[k]);
              LessTransitive(x, s[|s| - 2], p[k]);
            }
          }
        }
        assert Dedup(s) == d + [x];
      }
    }
  }

  /** `sort_and_deduplicate`: the distinct values of `l`, largest first. */
  function SortAndDeduplicate(l: seq<Value>): (r: seq<Value>)
    ensures StrictlyDecreasing(r)
    ensures forall v :: v in r <==> v in l
  {
    var sorted := SortDescending(l);
    DedupOfSorted(sorted);
    forall v ensures v in sorted <==> v in l {
      assert v in multiset(sorted) <==> v in multiset(l);
    }
    Dedup(sorted)
  }

  /** The filter of `concat_vals_unique`: a list, or a non-null value, that has
      a length and a non-zero one. Strings and lists qualify when non-empty;
      numbers have no length and `None` is null, so neither does. */
  predicate IsSized(v: Value)
  {
    match v
    case Str(s) => |s| > 0
    case List(xs) => |xs| > 0
    case _ => false
  }

  function FilterSized(x: seq<Value>): (r: seq<Value>)
    ensures forall v :: v in r <==> v in x && IsSized(v)
  {
    if x == [] then []
    else (if IsSized(x[0]) then [x[0]] else []) + FilterSized(x[1..])
  }

  /** The distinct values `concat_vals_unique` keeps. */
  function SizedValues(x: seq<Value>): set<Value>
  {
    set i | 0 <= i < |x| && IsSized(x[i]) :: x[i]
  }

  /** The set of the values of `s`. */
  function Elements(s: seq<Value>): set<Value>
  {
    set v | v in s
  }

  /** A strictly decreasing sequence holds as many distinct values as elements. */
  lemma {:induction false} StrictlyDecreasingDistinct(s: seq<Value>)
    requires StrictlyDecreasing(s)
    ensures |Elements(s)| == |s|
  {
    if s != [] {
      var t := s[1..];
      StrictlyDecreasingDistinct(t);
      assert s == [s[0]] + t;
      assert Elements(s) == {s[0]} + Elements(t);
      if s[0] in t {
        var i :| 0 <= i < |t| && t[i] == s[0];
        assert Less(s[i + 1], s[0]);
        LessIrreflexive(s[0]);
      }
    }
  }

  lemma SizedValuesMembers(x: seq<Value>)
    ensures forall v :: v in SizedValues(x) <==> v in x && IsSized(v)
  {
    forall v | v in x && IsSized(v)
      ensures v in SizedValues(x)
    {
      var i :| 0 <= i < |x| && x[i] == v;
    }
  }

  /** Sorting and dropping repeats leaves each kept value exactly once. */
  lemma DistinctSized(x: seq<Value>)
    ensures var d := SortAndDeduplicate(FilterSized(x));
            && |d| == |SizedValues(x)|
            && forall v :: v in d <==> v in SizedValues(x)
  {
    var d := SortAndDeduplicate(FilterSized(x));
    SizedValuesMembers(x);
    StrictlyDecreasingDistinct(d);
    assert Elements(d) == SizedValues(x);
  }

  /** `concat_vals_unique`: keep the non-empty strings and lists, sort them
      descending, drop repeats; give the value itself when one remains, `None`
      when none does, and otherwise the list of the distinct values, largest
      first. */
  function ConcatValsUnique(x: seq<Value>): (r: Value)
    ensures |SizedValues(x)| == 0 ==> r == Null
    ensures |SizedValues(x)| == 1 ==> r in SizedValues(x)
    ensures |SizedValues(x)| >= 2 ==>
              && r.List? && |r.items| == |SizedValues(x)|
              && StrictlyDecreasing(r.items)
              && forall v :: v in r.items <==> v in SizedValues(x)
  {
    var d := SortAndDeduplicate(FilterSized(x));
    DistinctSized(x);
    if |d| == 1 then d[0]
    else if |d| == 0 then Null
    else List(d)
  }

  /** `concat_vals`: the first value when all values are equal (one distinct
      value); else `None` when no value is a non-empty string or list; else all
      values, in their order, repeats kept. */
  function ConcatVals(x: seq<Value>): (r: Value)
    ensures x != [] && (forall i :: 0 <= i < |x| ==> x[i] == x[0]) ==> r == x[0]
    ensures !(x != [] && forall i :: 0 <= i < |x| ==> x[i] == x[0]) ==>
              r == if forall i :: 0 <= i < |x| ==> !IsSized(x[i]) then Null else List(x)
  {
    OneDistinctValue(x);
    var f := FilterSized(x);
    assert |f| > 0 ==> f[0] in f;
    if |SortAndDeduplicate(x)| == 1 then x[0]
    else if |f| == 0 then Null
    else List(x)
  }

  /** There is one distinct value exactly when the input is non-empty and
      constant. */
  lemma OneDistinctValue(x: seq<Value>)
    ensures |SortAndDeduplicate(x)| == 1 <==> x != [] && forall i :: 0 <= i < |x| ==> x[i] == x[0]
  {
    var d := SortAndDeduplicate(x);
    if x != [] && forall i :: 0 <= i < |x| ==> x[i] == x[0] {
      assert x[0] in d;
      if |d| != 1 {
        assert d[0] in x && d[1] in x;
        assert Less(d[1], d[0]);
        LessIrreflexive(d[0]);
      }
    }
    if |d| == 1 {
      assert d[0] in x;
      forall i | 0 <= i < |x| ensures x[i] == x[0] {
        assert x[i] in d && x[0] in d;
      }
    }
  }

  /** Numbers and nulls have no length, so `concat_vals_unique` drops them all:
      a cell made only of numbers (say `[1, 1, None, 2]`) collapses to `None`. */
  lemma NumbersCollapseUnique(x: seq<Value>)
    requires forall i :: 0 <= i < |x| ==> x[i].Null? || x[i].Num?
    ensures ConcatValsUnique(x) == Null
  {
    SizedValuesMembers(x);
    assert SizedValues(x) == {};
  }

  /** `concat_vals` keeps a constant cell, but two different numbers collapse
      to `None`. */
  lemma NumbersCollapse(x: seq<Value>)
    requires forall i :: 0 <= i < |x| ==> x[i].Null? || x[i].Num?
    ensures x != [] && (forall i :: 0 <= i < |x| ==> x[i] == x[0]) ==> ConcatVals(x) == x[0]
    ensures (exists i :: 0 <= i < |x| && x[i] != x[0]) ==> ConcatVals(x) == Null
  {
  }
}
