/** The small list utilities around the merge: ordering one list by another,
    moving columns to the front, finding columns by name, the field order of
    the CSV writers, and the character filter applied to dates. */
module ColumnUtils {
  import opened Common
  import opened Text
  import opened Sorting
  import opened Values

  // ---- sort_list_a_given_list_b ----

  /** `b.index(x)`: the first position of `x` in `b`, or `|b|` when absent. */
  function Pos<T(==)>(b: seq<T>, x: T): (i: nat)
    ensures i <= |b|
    ensures i < |b| <==> x in b
    ensures i < |b| ==> b[i] == x
    ensures forall j :: 0 <= j < i ==> b[j] != x
  {
    if b == [] then 0
    else if b[0] == x then 0
    else 1 + Pos(b[1..], x)
  }

  /** The key comparison of `sorted(a, key=lambda x: b.index(x))`. */
  function ByPosition<T(==)>(b: seq<T>): (T, T) -> bool
  {
    (x: T, y: T) => Pos(b, x) < Pos(b, y)
  }

  lemma ByPositionStrict<T(!new)>(b: seq<T>)
    ensures StrictOrder(ByPosition(b))
  {
  }

  /** `sort_list_a_given_list_b`: the keys are all computed before sorting, so
      an element of `a` missing from `b` raises `ValueError`; otherwise the
      elements of `a` are arranged by their first position in `b`. */
  function SortGivenList<T(==, !new)>(a: seq<T>, b: seq<T>): (r: Result<seq<T>>)
    ensures r.Err? <==> exists x :: x in a && x !in b
    ensures r.Err? ==> r.error == NotInList
    ensures r.Ok? ==> multiset(r.value) == multiset(a)
    ensures r.Ok? ==> forall i, j :: 0 <= i < j < |r.value| ==> Pos(b, r.value[i]) <= Pos(b, r.value[j])
  {
    if exists x :: x in a && x !in b then Err(NotInList)
    else
      ByPositionStrict(b);
      SortSorted(a, ByPosition(b));
      Ok(Sort(a, ByPosition(b)))
  }

  /** The result is the only arrangement of `a` that follows the order of `b`,
      so it does not depend on the sorting algorithm. */
  lemma SortGivenListUnique<T(!new)>(a: seq<T>, b: seq<T>, s: seq<T>)
    requires SortGivenList(a, b).Ok?
    requires multiset(s) == multiset(a)
    requires forall i, j :: 0 <= i < j < |s| ==> Pos(b, s[i]) <= Pos(b, s[j])
    ensures s == SortGivenList(a, b).value
  {
    var r := SortGivenList(a, b).value;
    forall i, j | 0 <= i < |r| && 0 <= j < |r| && r[i] != r[j]
      ensures ByPosition(b)(r[i], r[j]) || ByPosition(b)(r[j], r[i])
    {
      assert r[i] in multiset(a) && r[j] in multiset(a);
    }
    SortedPermutationUnique(r, s, ByPosition(b));
  }

  // ---- reorder_cols_df ----

  /** `list.remove(x)`: drops the first occurrence of `x`. */
  function RemoveFirst<T(==)>(s: seq<T>, x: T): (r: seq<T>)
    requires x in s
    ensures multiset(r) == multiset(s) - multiset{x}
  {
    var i := Pos(s, x);
    assert s == s[..i] + [x] + s[i + 1..];
    s[..i] + s[i + 1..]
  }

  /** Removes each of `cols` in turn; a name no longer present raises
      `ValueError`. */
  function RemoveEach<T(==)>(s: seq<T>, cols: seq<T>): Result<seq<T>>
  {
    if cols == [] then Ok(s)
    else if cols[0] !in s then Err(NotInList)
    else RemoveEach(RemoveFirst(s, cols[0]), cols[1..])
  }

  /** Removing succeeds exactly when `s` holds every name of `cols` at least
      as often as `cols` does, and leaves the rest. */
  lemma {:induction false} RemoveEachSpec<T>(s: seq<T>, cols: seq<T>)
    ensures RemoveEach(s, cols).Ok? <==> multiset(cols) <= multiset(s)
    ensures RemoveEach(s, cols).Ok? ==> multiset(RemoveEach(s, cols).value) == multiset(s) - multiset(cols)
    ensures RemoveEach(s, cols).Err? ==> RemoveEach(s, cols).error == NotInList
  {
    if cols != [] {
      var x, rest := cols[0], cols[1..];
      assert cols == [x] + rest;
      assert multiset(cols) == multiset(rest) + multiset{x};
      if x in s {
        var s' := RemoveFirst(s, x);
        assert RemoveEach(s, cols) == RemoveEach(s', rest);
        RemoveEachSpec(s', rest);
        TakeOne(multiset(rest), multiset(s), x);
      } else {
        assert multiset(s)[x] == 0 < multiset(cols)[x];
      }
    }
  }

  lemma TakeOne<T>(a: multiset<T>, b: multiset<T>, x: T)
    requires x in b
    ensures a <= b - multiset{x} <==> a + multiset{x} <= b
    ensures (b - multiset{x}) - a == b - (a + multiset{x})
  {
  }

  /** `cols + cols_without`: the chosen columns first, then the others. */
  function Reordered<T(==)>(columns: seq<T>, cols: seq<T>): Result<seq<T>>
  {
    match RemoveEach(columns, cols)
    case Err(e) => Err(e)
    case Ok(rest) => Ok(cols + rest)
  }

  /** Reordering raises exactly when a chosen column is missing (or chosen
      more often than present); otherwise the result starts with the chosen
      columns and is a rearrangement of all the columns. */
  lemma ReorderedSpec<T>(columns: seq<T>, cols: seq<T>)
    ensures Reordered(columns, cols).Ok? <==> multiset(cols) <= multiset(columns)
    ensures Reordered(columns, cols).Err? ==> Reordered(columns, cols).error == NotInList
    ensures Reordered(columns, cols).Ok? ==>
              var r := Reordered(columns, cols).value;
              r[..|cols|] == cols && multiset(r) == multiset(columns)
  {
    RemoveEachSpec(columns, cols);
    if Reordered(columns, cols).Ok? {
      var r := Reordered(columns, cols).value;
      assert r[..|cols|] == cols;
    }
  }

  /** `reorder_cols_df` on the column list: the list of the other columns is
      shrunk in place, one `remove` per chosen column. */
  method ReorderColumns<T(==)>(columns: seq<T>, cols: seq<T>) returns (r: Result<seq<T>>)
    ensures r == Reordered(columns, cols)
  {
    var without := columns;
    for i := 0 to |cols|
      invariant RemoveEach(columns, cols) == RemoveEach(without, cols[i..])
    {
      assert cols[i..] == [cols[i]] + cols[i + 1..];
      if cols[i] !in without {
        return Err(NotInList);
      }
      without := RemoveFirst(without, cols[i]);
    }
    assert cols[|cols|..] == [];
    r := Ok(cols + without);
  }

  // ---- find_columns_matching ----

  /** `L` is one string or a list of strings. */
  datatype Patterns = OneString(s: string) | StringList(items: seq<string>)

  /** `[l.lower() for l in L]`, a single string taken as a one-item list. */
  function LoweredPatterns(pats: Patterns): (r: seq<string>)
    ensures |r| == |PatternList(pats)|
    ensures forall i :: 0 <= i < |r| ==> NoUpper(r[i]) && SameUpToCase(r[i], PatternList(pats)[i])
  {
    var l := PatternList(pats);
    seq(|l|, i requires 0 <= i < |l| => Lower(l[i]))
  }

  /** The patterns as a list. */
  function PatternList(pats: Patterns): seq<string>
  {
    if pats.OneString? then [pats.s] else pats.items
  }

  predicate NoUpper(s: string) { forall j :: 0 <= j < |s| ==> !IsUpper(s[j]) }

  /** `a` and `b` spell the same text once case is ignored. */
  predicate SameUpToCase(a: string, b: string)
  {
    |a| == |b| && forall j :: 0 <= j < |a| ==> LowerChar(a[j]) == LowerChar(b[j])
  }

  /** The test on one column: some pattern occurs in (or, with `startswith`,
      begins) the lower-cased column name. */
  predicate ColumnMatches(col: string, lowered: seq<string>, startswith: bool)
  {
    if startswith then exists s :: s in lowered && StartsWith(Lower(col), s)
    else exists s :: s in lowered && Contains(Lower(col), s)
  }

  /** The columns that match, in column order, repeats kept. */
  function MatchingColumns(columns: seq<string>, lowered: seq<string>, startswith: bool): (r: seq<string>)
    ensures forall c :: c in r <==> c in columns && ColumnMatches(c, lowered, startswith)
    ensures |r| <= |columns|
  {
    if columns == [] then []
    else
      var init, last := columns[..|columns| - 1], columns[|columns| - 1];
      assert columns == init + [last];
      MatchingColumns(init, lowered, startswith) + (if ColumnMatches(last, lowered, startswith) then [last] else [])
  }

  /** `find_columns_matching`: the matching columns are appended one by one. */
  method FindColumnsMatching(columns: seq<string>, pats: Patterns, startswith: bool) returns (r: seq<string>)
    ensures r == MatchingColumns(columns, LoweredPatterns(pats), startswith)
  {
    var lowered := LoweredPatterns(pats);
    r := [];
    for i := 0 to |columns|
      invariant r == MatchingColumns(columns[..i], lowered, startswith)
    {
      assert columns[..i + 1][..i] == columns[..i];
      if ColumnMatches(columns[i], lowered, startswith) {
        r := r + [columns[i]];
      }
    }
    assert columns[..|columns|] == columns;
  }

  lemma {:induction false} LowerIdempotent(s: string)
    ensures Lower(Lower(s)) == Lower(s)
  {
    var l := Lower(s);
    assert forall i :: 0 <= i < |s| ==> LowerChar(l[i]) == l[i];
  }

  /** The search ignores case: a column and a pattern match exactly when they
      do after both are lower-cased. */
  lemma MatchIgnoresCase(col: string, p: string, startswith: bool)
    ensures ColumnMatches(col, LoweredPatterns(OneString(p)), startswith) <==>
            ColumnMatches(Lower(col), LoweredPatterns(OneString(Lower(p))), startswith)
  {
    LowerIdempotent(col);
    LowerIdempotent(p);
    assert LoweredPatterns(OneString(p)) == [Lower(p)];
    assert LoweredPatterns(OneString(Lower(p))) == [Lower(p)];
  }

  /** A column found with `startswith` is also found without it. */
  lemma PrefixMatchIsMatch(columns: seq<string>, lowered: seq<string>)
    ensures forall c :: c in MatchingColumns(columns, lowered, true) ==> c in MatchingColumns(columns, lowered, false)
  {
    forall c | c in MatchingColumns(columns, lowered, true)
      ensures ColumnMatches(c, lowered, false)
    {
      var s :| s in lowered && StartsWith(Lower(c), s);
      assert Contains(Lower(c), s);
    }
  }

  // ---- the CSV field order ----

  /** `sorted` on strings. */
  function SortStrings(keys: seq<string>): (r: seq<string>)
    ensures multiset(r) == multiset(keys)
  {
    Sort(keys, StrLess)
  }

  lemma SortStringsSorted(keys: seq<string>)
    ensures SortedBy(SortStrings(keys), StrLess)
  {
    StrLessStrict();
    SortSorted(keys, StrLess);
  }

  lemma StrLessStrict()
    ensures StrictOrder(StrLess)
  {
    forall s { StrLessIrreflexive(s); }
    forall s, t, u | StrLess(s, t) && StrLess(t, u) ensures StrLess(s, u) { StrLessTransitive(s, t, u); }
  }

  /** The keys not in `check`, in order. */
  function NotListed(keys: seq<string>, check: seq<string>): (r: seq<string>)
    ensures |r| <= |keys|
  {
    if keys == [] then []
    else
      var init, last := keys[..|keys| - 1], keys[|keys| - 1];
      assert keys == init + [last];
      NotListed(init, check) + (if last in check then [] else [last])
  }

  lemma {:induction false} NotListedMembers(keys: seq<string>, check: seq<string>)
    ensures forall k :: k in NotListed(keys, check) <==> k in keys && k !in check
  {
    if keys != [] {
      var init, last := keys[..|keys| - 1], keys[|keys| - 1];
      assert keys == init + [last];
      NotListedMembers(init, check);
    }
  }

  lemma NotListedStep(keys: seq<string>, i: nat, check: seq<string>)
    requires i < |keys|
    ensures NotListed(keys[..i + 1], check) ==
            NotListed(keys[..i], check) + (if keys[i] in check then [] else [keys[i]])
    ensures check + NotListed(keys[..i + 1], check) ==
            check + NotListed(keys[..i], check) + (if keys[i] in check then [] else [keys[i]])
  {
    assert keys[..i + 1][..i] == keys[..i];
  }

  /** The field order the CSV writers use: the given fields first, then every
      other key in alphabetical order. */
  function FieldOrder(fields: seq<string>, keys: seq<string>): seq<string>
  {
    fields + NotListed(SortStrings(keys), fields)
  }

  lemma {:induction false} NotListedNothing(keys: seq<string>, check: seq<string>)
    requires forall k :: k in keys ==> k in check
    ensures NotListed(keys, check) == []
  {
    if keys != [] {
      NotListedNothing(keys[..|keys| - 1], check);
    }
  }

  lemma {:induction false} NotListedSorted(keys: seq<string>, check: seq<string>)
    requires SortedBy(keys, StrLess)
    ensures SortedBy(NotListed(keys, check), StrLess)
  {
    if keys != [] {
      var init, last := keys[..|keys| - 1], keys[|keys| - 1];
      NotListedSorted(init, check);
      NotListedMembers(init, check);
      var r := NotListed(keys, check);
      var a := NotListed(init, check);
      forall i, j | 0 <= i < j < |r|
        ensures !StrLess(r[j], r[i])
      {
        if j >= |a| {
          assert r[i] in init;
          var k :| 0 <= k < |init| && init[k] == r[i];
          assert keys[k] == r[i] && keys[|keys| - 1] == r[j];
        } else {
          assert r[i] == a[i] && r[j] == a[j];
        }
      }
    }
  }

  /** The given fields stay first and unchanged; every key is listed; nothing
      else is; and the added fields are new and in alphabetical order. */
  lemma FieldOrderSpec(fields: seq<string>, keys: seq<string>)
    ensures var r := FieldOrder(fields, keys);
            && r[..|fields|] == fields
            && (forall k :: k in keys ==> k in r)
            && (forall f :: f in r ==> f in fields || f in keys)
            && (forall f :: f in r[|fields|..] ==> f !in fields)
            && SortedBy(r[|fields|..], StrLess)
  {
    var sorted := SortStrings(keys);
    var r := FieldOrder(fields, keys);
    assert r[|fields|..] == NotListed(sorted, fields);
    SortStringsSorted(keys);
    NotListedSorted(sorted, fields);
    NotListedMembers(sorted, fields);
    forall k | k in keys ensures k in r {
      assert k in multiset(sorted);
    }
    forall f | f in r ensures f in fields || f in keys {
      if f !in fields {
        assert f in multiset(sorted);
      }
    }
  }

  /** Computing the order again from its own result adds nothing. */
  lemma FieldOrderIdempotent(fields: seq<string>, keys: seq<string>)
    ensures FieldOrder(FieldOrder(fields, keys), keys) == FieldOrder(fields, keys)
  {
    var r := FieldOrder(fields, keys);
    FieldOrderSpec(fields, keys);
    forall k | k in SortStrings(keys) ensures k in r {
      assert k in multiset(keys);
    }
    NotListedNothing(SortStrings(keys), r);
  }

  /** The caller's `fields_order` list, which both CSV writers extend in
      place. */
  class FieldList {
    var items: seq<string>

    constructor(items: seq<string>)
      ensures this.items == items
    {
      this.items := items;
    }

    /** The loop of `save_df_as_csv` over `sorted(d.columns)`: the fields
        present before the loop (the set `fields_order_check`, a snapshot) are
        the ones checked against. */
    method AddMissing(keys: seq<string>)
      modifies this
      ensures items == FieldOrder(old(items), keys)
    {
      var check := items;
      var sorted := SortStrings(keys);
      for i := 0 to |sorted|
        invariant items == check + NotListed(sorted[..i], check)
      {
        NotListedStep(sorted, i, check);
        if sorted[i] !in check {
          items := items + [sorted[i]];
        }
        assert items == check + NotListed(sorted[..i + 1], check);
      }
      assert sorted[..|sorted|] == sorted;
    }

    /** The loop of `save_dict_as_csv`: the keys of the first record are
        added; with no record, `dvals[0]` raises `IndexError` before anything
        is added. */
    method AddMissingFromRecords(records: seq<seq<string>>) returns (err: Option<Error>)
      modifies this
      ensures records == [] ==> err == Some(IndexOutOfRange) && items == old(items)
      ensures records != [] ==> err == None && items == FieldOrder(old(items), records[0])
    {
      if records == [] {
        return Some(IndexOutOfRange);
      }
      AddMissing(records[0]);
      err := None;
    }
  }

  // ---- date_cleanchar ----

  /** `[\d/-:\s]`: the range `/`..`:` (the slash, the digits and the colon)
      and whitespace; the dash is not in the class. */
  predicate IsDateChar(c: char)
  {
    '/' <= c <= ':' || IsSpace(c)
  }

  predicate AllDateChars(s: string)
  {
    forall i :: 0 <= i < |s| ==> IsDateChar(s[i])
  }

  /** The length of the run of date characters `s` starts with. */
  function RunLength(s: string): (n: nat)
    ensures n <= |s|
    ensures AllDateChars(s[..n])
    ensures n < |s| ==> !IsDateChar(s[n])
  {
    if s == [] || !IsDateChar(s[0]) then 0 else 1 + RunLength(s[1..])
  }

  /** `re.findall('[\d/-:\s]+', s)`: the maximal runs of date characters, left
      to right. */
  function DateRuns(s: string): (runs: seq<string>)
    ensures forall i :: 0 <= i < |runs| ==> runs[i] != [] && AllDateChars(runs[i])
    decreases |s|
  {
    if s == [] then []
    else if !IsDateChar(s[0]) then DateRuns(s[1..])
    else
      var n := RunLength(s);
      [s[..n]] + DateRuns(s[n..])
  }

  /** `'-'.join(runs)`. */
  function JoinDash(runs: seq<string>): string
  {
    if runs == [] then []
    else if |runs| == 1 then runs[0]
    else runs[0] + ['-'] + JoinDash(runs[1..])
  }

  /** `date_cleanchar` on a string: lower-case it, keep the runs of date
      characters joined by dashes, or give `None` when there is none. */
  function DateCleanChar(s: string): (r: Option<string>)
    ensures r.Some? ==> var j := r.value;
              && j != []
              && (forall i :: 0 <= i < |j| ==> IsDateChar(j[i]) || j[i] == '-')
              && IsDateChar(j[0]) && IsDateChar(j[|j| - 1])
    ensures r.Some? ==> DateRuns(r.value) == DateRuns(Lower(s))
  {
    var runs := DateRuns(Lower(s));
    if runs == [] then None
    else
      JoinDashShape(runs);
      DateRunsOfJoin(runs);
      Some(JoinDash(runs))
  }

  /** There are no runs exactly when there is no date character. */
  lemma {:induction false} DateRunsEmpty(s: string)
    ensures DateRuns(s) == [] <==> forall i :: 0 <= i < |s| ==> !IsDateChar(s[i])
    decreases |s|
  {
    if s != [] && !IsDateChar(s[0]) {
      DateRunsEmpty(s[1..]);
      assert forall i :: 1 <= i < |s| ==> s[i] == s[1..][i - 1];
    }
  }

  /** Lower-casing changes no character into or out of the date class. */
  lemma LowerKeepsDateChars(s: string)
    ensures forall i :: 0 <= i < |s| ==> (IsDateChar(Lower(s)[i]) <==> IsDateChar(s[i]))
  {
  }

  /** `None` exactly when the string holds no digit, `/`, `:` or whitespace. */
  lemma DateCleanCharNone(s: string)
    ensures DateCleanChar(s).None? <==> forall i :: 0 <= i < |s| ==> !IsDateChar(s[i])
  {
    DateRunsEmpty(Lower(s));
    LowerKeepsDateChars(s);
  }

  /** The joined result holds only date characters and the dashes between
      runs, never two dashes in a row, and neither starts nor ends with one. */
  lemma {:induction false} JoinDashShape(runs: seq<string>)
    requires runs != []
    requires forall i :: 0 <= i < |runs| ==> runs[i] != [] && AllDateChars(runs[i])
    ensures var j := JoinDash(runs);
            && j != []
            && (forall i :: 0 <= i < |j| ==> IsDateChar(j[i]) || j[i] == '-')
            && IsDateChar(j[0]) && IsDateChar(j[|j| - 1])
            && (forall i :: 0 <= i < |j| - 1 ==> IsDateChar(j[i]) || IsDateChar(j[i + 1]))
  {
    if |runs| > 1 {
      JoinDashShape(runs[1..]);
      var a, t := runs[0], JoinDash(runs[1..]);
      var j := a + ['-'] + t;
      assert JoinDash(runs) == j;
      forall i | 0 <= i < |j| - 1
        ensures IsDateChar(j[i]) || IsDateChar(j[i + 1])
      {
        if i < |a| - 1 {
          assert j[i] == a[i];
        } else if i == |a| - 1 {
          assert j[i] == a[|a| - 1];
        } else if i == |a| {
          assert j[i + 1] == t[0];
        } else {
          assert j[i] == t[i - |a| - 1] && j[i + 1] == t[i - |a|];
        }
      }
      forall i | 0 <= i < |j|
        ensures IsDateChar(j[i]) || j[i] == '-'
      {
        if i < |a| {
          assert j[i] == a[i];
        } else if i > |a| {
          assert j[i] == t[i - |a| - 1];
        }
      }
      assert j[|j| - 1] == t[|t| - 1];
    }
  }

  /** A run of date characters followed by a dash is read back as that run. */
  lemma RunThenDash(a: string, rest: string)
    requires a != [] && AllDateChars(a)
    ensures DateRuns(a + ['-'] + rest) == [a] + DateRuns(rest)
  {
    var s := a + ['-'] + rest;
    assert s == a + (['-'] + rest);
    assert RunLength(s) == |a| by {
      RunLengthOfRun(a, ['-'] + rest);
    }
    assert s[..|a|] == a;
    assert s[|a|..] == ['-'] + rest;
    assert (['-'] + rest)[1..] == rest;
  }

  lemma {:induction false} RunLengthOfRun(a: string, rest: string)
    requires AllDateChars(a)
    requires rest == [] || !IsDateChar(rest[0])
    ensures RunLength(a + rest) == |a|
  {
    if a != [] {
      assert (a + rest)[1..] == a[1..] + rest;
      RunLengthOfRun(a[1..], rest);
    } else {
      assert a + rest == rest;
    }
  }

  /** Finding the runs of the joined runs gives the runs back. */
  lemma {:induction false} DateRunsOfJoin(runs: seq<string>)
    requires forall i :: 0 <= i < |runs| ==> runs[i] != [] && AllDateChars(runs[i])
    ensures DateRuns(JoinDash(runs)) == runs
  {
    if |runs| == 1 {
      var a := runs[0];
      RunLengthOfRun(a, []);
      assert a + [] == a;
      assert a[..|a|] == a && a[|a|..] == [];
    } else if |runs| > 1 {
      DateRunsOfJoin(runs[1..]);
      RunThenDash(runs[0], JoinDash(runs[1..]));
      assert runs == [runs[0]] + runs[1..];
    }
  }

  /** `date_cleanchar` is idempotent on strings: cleaning a cleaned date
      gives it back. */
  lemma DateCleanCharIdempotent(s: string)
    requires DateCleanChar(s).Some?
    ensures DateCleanChar(DateCleanChar(s).value) == DateCleanChar(s)
  {
    var runs := DateRuns(Lower(s));
    var j := JoinDash(runs);
    JoinDashShape(runs);
    assert Lower(j) == j by {
      assert forall i :: 0 <= i < |j| ==> !IsUpper(j[i]);
    }
    DateRunsOfJoin(runs);
  }
}
