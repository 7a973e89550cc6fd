/** The last steps of `merge_two_df` before the tables are joined: the
    `keep_nulls` policy applied to the merge mapping, and `df_remap_names`,
    which renames the second table's subjects to their partners' names. */
module MergeRemap {
  import opened Common
  import opened MergeMapping

  /** The `keep_nulls` argument: Python's `True`, `False`, or an integer. */
  datatype KeepNulls = KeepTrue | KeepFalse | KeepInt(n: int)

  /** Python truthiness of `keep_nulls` (`if keep_nulls:`). */
  predicate Truthy(keep: KeepNulls)
  {
    keep.KeepTrue? || (keep.KeepInt? && keep.n != 0)
  }

  // ---- the keep_nulls policy on the mapping ----

  /** `dmerge.loc[dmerge[col].isnull(), col] = dmerge[col+'2']`: a pair with no
      left name takes its right name on the left. No pair is lost, right names
      and existing left names are kept, and every pair naming a right subject
      then has a left name. */
  function RecopyLeft(pairs: seq<Pair>): (r: seq<Pair>)
    ensures |r| == |pairs|
    ensures forall i :: 0 <= i < |pairs| ==> r[i].right == pairs[i].right
    ensures forall i :: 0 <= i < |pairs| && pairs[i].left.Some? ==> r[i].left == pairs[i].left
    ensures forall i :: 0 <= i < |pairs| && pairs[i].right.Some? ==> r[i].left.Some?
  {
    seq(|pairs|, i requires 0 <= i < |pairs| =>
      if pairs[i].left.None? then Pair(pairs[i].right, pairs[i].right) else pairs[i])
  }

  /** `dmerge.loc[dmerge[col].isnull(), col+'2'] = dmerge[col]`, as written:
      the mask tests the left column again, so the right column is only ever
      overwritten on pairs whose left name is missing, and then with null.
      Pairs with a left name are untouched, and afterwards no pair has a right
      name without a left one. */
  function RecopyRightAsWritten(pairs: seq<Pair>): (r: seq<Pair>)
    ensures |r| == |pairs|
    ensures forall i :: 0 <= i < |pairs| && pairs[i].left.Some? ==> r[i] == pairs[i]
    ensures forall i :: 0 <= i < |pairs| && r[i].right.Some? ==> r[i].left.Some?
  {
    seq(|pairs|, i requires 0 <= i < |pairs| =>
      if pairs[i].left.None? then Pair(pairs[i].left, pairs[i].left) else pairs[i])
  }

  /** The column subsets `dropna` looks at. */
  datatype Subset = BothColumns | RightColumn | LeftColumn

  predicate HasNull(p: Pair, sub: Subset)
  {
    match sub
    case BothColumns => p.left.None? || p.right.None?
    case RightColumn => p.right.None?
    case LeftColumn => p.left.None?
  }

  /** `dropna(how='any', subset=...)`: the pairs with a null in the subset are
      dropped, the others kept in order. */
  function DropNulls(pairs: seq<Pair>, sub: Subset): (r: seq<Pair>)
    ensures forall p :: p in r <==> p in pairs && !HasNull(p, sub)
    ensures |r| <= |pairs|
  {
    if pairs == [] then []
    else
      var last := pairs[|pairs| - 1];
      assert pairs == pairs[..|pairs| - 1] + [last];
      DropNulls(pairs[..|pairs| - 1], sub) + (if HasNull(last, sub) then [] else [last])
  }

  /** `dropna` keeps every pair it does not drop as often as it occurred. */
  lemma {:induction false} DropNullsCounts(pairs: seq<Pair>, sub: Subset, p: Pair)
    ensures multiset(DropNulls(pairs, sub))[p] == if HasNull(p, sub) then 0 else multiset(pairs)[p]
  {
    if pairs != [] {
      var init, last := pairs[..|pairs| - 1], pairs[|pairs| - 1];
      assert pairs == init + [last];
      DropNullsCounts(init, sub, p);
      assert multiset(pairs) == multiset(init) + multiset{last};
      assert multiset(DropNulls(pairs, sub)) ==
             multiset(DropNulls(init, sub)) + multiset(if HasNull(last, sub) then [] else [last]);
    }
  }

  /** The `keep_nulls` branch of `merge_two_df`: `True` recopies missing
      names, `False` keeps only complete pairs, `1` only pairs with a right
      name, `2` only pairs with a left name, and any other value leaves the
      mapping as it is. */
  function ApplyKeepNulls(pairs: seq<Pair>, keep: KeepNulls): (r: seq<Pair>)
    ensures |r| <= |pairs|
    ensures keep.KeepTrue? ==> |r| == |pairs|
    ensures keep.KeepTrue? ==> forall i :: 0 <= i < |pairs| ==>
              r[i].right == pairs[i].right && (pairs[i].left.Some? ==> r[i].left == pairs[i].left)
    ensures !keep.KeepTrue? ==> forall p :: p in r ==> p in pairs
  {
    match keep
    case KeepTrue => RecopyRightAsWritten(RecopyLeft(pairs))
    case KeepFalse => DropNulls(pairs, BothColumns)
    case KeepInt(n) =>
      if n == 1 then DropNulls(pairs, RightColumn)
      else if n == 2 then DropNulls(pairs, LeftColumn)
      else pairs
  }

  /** With `keep_nulls=True` no pair is lost, and every pair that names a
      subject on either side ends up with a left name: its own, or the right
      one copied over. */
  lemma KeepTrueFillsLeft(pairs: seq<Pair>)
    requires forall p :: p in pairs ==> p.left.Some? || p.right.Some?
    ensures |ApplyKeepNulls(pairs, KeepTrue)| == |pairs|
    ensures forall i :: 0 <= i < |pairs| ==>
              var q := ApplyKeepNulls(pairs, KeepTrue)[i];
              q.left.Some? && q.right == pairs[i].right &&
              q.left == (if pairs[i].left.Some? then pairs[i].left else pairs[i].right)
  {
    var filled := RecopyLeft(pairs);
    forall i | 0 <= i < |pairs|
      ensures filled[i].left.Some?
    {
      assert pairs[i] in pairs;
    }
  }

  /** The second recopy, as written, never changes anything: once the first
      has run, a pair without a left name has no right name either. So pairs
      whose right name is missing keep it missing. */
  lemma SecondRecopyIsDead(pairs: seq<Pair>)
    ensures RecopyRightAsWritten(RecopyLeft(pairs)) == RecopyLeft(pairs)
    ensures forall i :: 0 <= i < |pairs| && pairs[i].left.Some? && pairs[i].right.None? ==>
              ApplyKeepNulls(pairs, KeepTrue)[i].right.None?
  {
    var filled := RecopyLeft(pairs);
    var twice := RecopyRightAsWritten(filled);
    forall i | 0 <= i < |pairs|
      ensures twice[i] == filled[i]
    {
    }
  }

  /** What each other setting keeps: `False` only complete pairs, `1` only
      pairs with a right name, `2` only pairs with a left name; all of them
      keep exactly the pairs of the mapping that pass. */
  lemma KeepSubsets(pairs: seq<Pair>, keep: KeepNulls, p: Pair)
    requires !keep.KeepTrue?
    ensures keep.KeepFalse? ==>
              (p in ApplyKeepNulls(pairs, keep) <==> p in pairs && p.left.Some? && p.right.Some?)
    ensures keep == KeepInt(1) ==>
              (p in ApplyKeepNulls(pairs, keep) <==> p in pairs && p.right.Some?)
    ensures keep == KeepInt(2) ==>
              (p in ApplyKeepNulls(pairs, keep) <==> p in pairs && p.left.Some?)
    ensures keep.KeepInt? && keep.n != 1 && keep.n != 2 ==> ApplyKeepNulls(pairs, keep) == pairs
  {
  }

  // ---- df_remap_names ----

  /** `dfremap.set_index(col2)[col].to_dict()`: right name to left name, a
      later pair overriding an earlier one with the same right name. */
  function RemapTable(pairs: seq<Pair>): (r: map<Option<string>, Option<string>>)
    ensures forall p :: p in pairs ==> p.right in r
    ensures forall k :: k in r ==> Pair(r[k], k) in pairs
  {
    if pairs == [] then map[]
    else
      var last := pairs[|pairs| - 1];
      assert pairs == pairs[..|pairs| - 1] + [last];
      RemapTable(pairs[..|pairs| - 1])[last.right := last.left]
  }

  /** The new name of one subject. When `keep_nulls` is truthy this is
      `Series.map`: a name missing from the table becomes null. Otherwise it
      is `replace_nonnull_df`: `repmap[x]` raises `KeyError` on a missing
      name, and a null replacement keeps the name. */
  function Replace(x: string, table: map<Option<string>, Option<string>>, keep: KeepNulls): (r: Result<Option<string>>)
    ensures r.Err? <==> !Truthy(keep) && Some(x) !in table
    ensures r.Err? ==> r.error == MissingKey(x)
    ensures r.Ok? && !Truthy(keep) ==> r.value.Some?
    ensures r.Ok? && r.value.Some? ==> (Some(x) in table && table[Some(x)] == r.value) || r.value == Some(x)
    ensures r.Ok? && Some(x) !in table ==> r.value.None?
    ensures Some(x) in table && table[Some(x)].Some? ==> r == Ok(table[Some(x)])
    ensures Truthy(keep) ==> r == Ok(if Some(x) in table then table[Some(x)] else None)
    ensures !Truthy(keep) && Some(x) in table && table[Some(x)].None? ==> r == Ok(Some(x))
  {
    if Truthy(keep) then Ok(if Some(x) in table then table[Some(x)] else None)
    else if Some(x) !in table then Err(MissingKey(x))
    else
      var replacement := table[Some(x)];
      Ok(if replacement.None? then Some(x) else replacement)
  }

  /** `df_remap_names` on the name column of the second table: every name is
      replaced in order, and the first `KeyError` ends it. */
  function RemapNames(names: seq<string>, table: map<Option<string>, Option<string>>, keep: KeepNulls): (r: Result<seq<Option<string>>>)
    ensures r.Ok? ==> |r.value| == |names|
    ensures r.Ok? ==> forall i :: 0 <= i < |names| ==> Replace(names[i], table, keep) == Ok(r.value[i])
    ensures r.Err? ==>
              exists i :: 0 <= i < |names| && Replace(names[i], table, keep) == Err(r.error) &&
                (forall j :: 0 <= j < i ==> Replace(names[j], table, keep).Ok?)
  {
    if names == [] then Ok([])
    else
      match Replace(names[0], table, keep)
      case Err(e) => Err(e)
      case Ok(y) =>
        match RemapNames(names[1..], table, keep)
        case Err(e) =>
          assert forall j :: 1 <= j < |names| ==> names[j] == names[1..][j - 1];
          Err(e)
        case Ok(ys) => Ok([y] + ys)
  }

  /** The remapping raises exactly when some name has no entry in the table
      and `keep_nulls` is falsy. */
  lemma {:induction false} RemapNamesRaises(names: seq<string>, table: map<Option<string>, Option<string>>, keep: KeepNulls)
    ensures RemapNames(names, table, keep).Err? <==>
              !Truthy(keep) && exists i :: 0 <= i < |names| && Some(names[i]) !in table
  {
    var r := RemapNames(names, table, keep);
    if r.Ok? {
      forall i | 0 <= i < |names| ensures Truthy(keep) || Some(names[i]) in table {
        assert Replace(names[i], table, keep).Ok?;
      }
    }
  }

  /** Renaming the second table's subjects with the mapping after the
      `keep_nulls` policy, as `merge_two_df` does before the final join. */
  function RemapSecond(names: seq<string>, dmerge: seq<Pair>, keep: KeepNulls): Result<seq<Option<string>>>
  {
    RemapNames(names, RemapTable(ApplyKeepNulls(dmerge, keep)), keep)
  }

  /** `x` is paired with a left name somewhere in the mapping. */
  ghost predicate Matched(dmerge: seq<Pair>, x: string)
  {
    exists p :: p in dmerge && p.left.Some? && p.right == Some(x)
  }

  /** With `keep_nulls=True` every subject of the second table keeps a name:
      the left name of a pair it is in, or its own name when its only pairs
      have no left name. Nothing raises. */
  lemma KeepAllRemap(names: seq<string>, dmerge: seq<Pair>)
    requires forall x :: x in names ==> x in RightsOf(dmerge)
    ensures RemapSecond(names, dmerge, KeepTrue).Ok?
    ensures forall i :: 0 <= i < |names| ==>
              var y := RemapSecond(names, dmerge, KeepTrue).value[i];
              y.Some? && (Pair(y, Some(names[i])) in dmerge || (y == Some(names[i]) && Pair(None, Some(names[i])) in dmerge))
  {
    var kept := ApplyKeepNulls(dmerge, KeepTrue);
    var filled := RecopyLeft(dmerge);
    SecondRecopyIsDead(dmerge);
    var table := RemapTable(kept);
    var r := RemapSecond(names, dmerge, KeepTrue);
    forall i | 0 <= i < |names|
      ensures var y := r.value[i];
              y.Some? && (Pair(y, Some(names[i])) in dmerge || (y == Some(names[i]) && Pair(None, Some(names[i])) in dmerge))
    {
      var x := names[i];
      assert x in names;
      var k :| 0 <= k < |dmerge| && dmerge[k].right.Some? && dmerge[k].right.value == x;
      assert filled[k] in kept;
      assert Some(x) in table;
      var q := Pair(table[Some(x)], Some(x));
      var m :| 0 <= m < |filled| && filled[m] == q;
      assert dmerge[m] in dmerge;
    }
  }

  /** With `keep_nulls` set to `1`, `2` or any other non-zero integer, a subject
      takes the left name of a pair it is in, or becomes null; an unmatched
      subject always becomes null. Nothing raises. */
  lemma KeepIntRemap(names: seq<string>, dmerge: seq<Pair>, n: int)
    requires n != 0
    ensures RemapSecond(names, dmerge, KeepInt(n)).Ok?
    ensures forall i :: 0 <= i < |names| ==>
              var y := RemapSecond(names, dmerge, KeepInt(n)).value[i];
              y.None? || Pair(y, Some(names[i])) in dmerge
    ensures forall i :: 0 <= i < |names| && !Matched(dmerge, names[i]) ==>
              RemapSecond(names, dmerge, KeepInt(n)).value[i].None?
  {
    var kept := ApplyKeepNulls(dmerge, KeepInt(n));
    var table := RemapTable(kept);
    var r := RemapSecond(names, dmerge, KeepInt(n));
    forall i | 0 <= i < |names|
      ensures var y := r.value[i];
              (y.None? || Pair(y, Some(names[i])) in dmerge) &&
              (!Matched(dmerge, names[i]) ==> y.None?)
    {
      var x := names[i];
      if Some(x) in table {
        var q := Pair(table[Some(x)], Some(x));
        assert q in kept;
        KeepSubsets(dmerge, KeepInt(n), q);
      }
    }
  }

  /** `keep_nulls` set to `1`, `2` or another non-zero integer keeps the
      matched subjects: on a mapping where no matched right name also sits in
      a pair without a left name (as `merge_two_df` builds it, see
      NoNullPairForMatched), every matched subject takes the left name of a
      pair it is in, and never becomes null. */
  lemma KeepIntKeepsMatched(names: seq<string>, dmerge: seq<Pair>, n: int)
    requires n != 0
    requires forall x :: Matched(dmerge, x) ==> Pair(None, Some(x)) !in dmerge
    ensures RemapSecond(names, dmerge, KeepInt(n)).Ok?
    ensures forall i :: 0 <= i < |names| && Matched(dmerge, names[i]) ==>
              var y := RemapSecond(names, dmerge, KeepInt(n)).value[i];
              y.Some? && Pair(y, Some(names[i])) in dmerge
  {
    KeepIntRemap(names, dmerge, n);
    var kept := ApplyKeepNulls(dmerge, KeepInt(n));
    var table := RemapTable(kept);
    var r := RemapSecond(names, dmerge, KeepInt(n));
    forall i | 0 <= i < |names| && Matched(dmerge, names[i])
      ensures r.value[i].Some? && Pair(r.value[i], Some(names[i])) in dmerge
    {
      var x := names[i];
      var p :| p in dmerge && p.left.Some? && p.right == Some(x);
      KeepSubsets(dmerge, KeepInt(n), p);
      assert Some(x) in table;
      var q := Pair(table[Some(x)], Some(x));
      KeepSubsets(dmerge, KeepInt(n), q);
      assert Replace(x, table, KeepInt(n)) == Ok(r.value[i]);
    }
  }

  /** The mapping `merge_two_df` builds meets that condition: the loop pairs
      all have a left name, and a missing pair `(None, x)` is only added for a
      right name no loop pair uses. */
  lemma NoNullPairForMatched(m: seq<Pair>, missing: seq<Pair>, names2: seq<string>)
    requires forall i :: 0 <= i < |m| ==> m[i].left.Some?
    requires IsMissingFor(missing, Unused(names2, m))
    ensures forall x :: Matched(m + missing, x) ==> Pair(None, Some(x)) !in m + missing
  {
    forall x | Matched(m + missing, x)
      ensures Pair(None, Some(x)) !in m + missing
    {
      var p :| p in m + missing && p.left.Some? && p.right == Some(x);
      var j :| 0 <= j < |m| && m[j] == p;
      assert x in RightsOf(m);
      CountRightPositive(missing, x);
    }
  }

  /** The loop pairs of the mapping all have a left name. */
  lemma {:induction false} MappedLeftsSome(names1: seq<string>, names2: seq<string>, mt: Matcher)
    requires Mapped(names1, names2, mt).Ok?
    ensures var m := Mapped(names1, names2, mt).value;
            forall i :: 0 <= i < |m| ==> m[i].left.Some?
  {
    if names1 != [] {
      var p := names1[..|names1| - 1];
      MappedLeftsSome(p, names2, mt);
      RowPairsLeft(names1[|names1| - 1], names2, mt);
    }
  }

  /** With `keep_nulls=False` the remapping succeeds exactly when every
      subject of the second table is matched, and then each subject takes the
      left name of a pair it is in. */
  lemma KeepFalseRemap(names: seq<string>, dmerge: seq<Pair>)
    ensures RemapSecond(names, dmerge, KeepFalse).Ok? <==>
              forall i :: 0 <= i < |names| ==> Matched(dmerge, names[i])
    ensures RemapSecond(names, dmerge, KeepFalse).Ok? ==>
              forall i :: 0 <= i < |names| ==>
                Pair(RemapSecond(names, dmerge, KeepFalse).value[i], Some(names[i])) in dmerge
  {
    var kept := ApplyKeepNulls(dmerge, KeepFalse);
    var table := RemapTable(kept);
    RemapNamesRaises(names, table, KeepFalse);
    forall i | 0 <= i < |names|
      ensures Some(names[i]) in table <==> Matched(dmerge, names[i])
    {
      var x := names[i];
      if Some(x) in table {
        var q := Pair(table[Some(x)], Some(x));
        KeepSubsets(dmerge, KeepFalse, q);
      }
      if Matched(dmerge, x) {
        var p :| p in dmerge && p.left.Some? && p.right == Some(x);
        KeepSubsets(dmerge, KeepFalse, p);
      }
    }
    var r := RemapSecond(names, dmerge, KeepFalse);
    if r.Ok? {
      forall i | 0 <= i < |names|
        ensures Pair(r.value[i], Some(names[i])) in dmerge
      {
        var x := names[i];
        assert Replace(x, table, KeepFalse) == Ok(r.value[i]);
        var q := Pair(table[Some(x)], Some(x));
        KeepSubsets(dmerge, KeepFalse, q);
      }
    }
  }

  /** As written, `keep_nulls=False` makes the merge raise `KeyError` on the
      first subject of the second table that found no partner, although the
      setting is documented as keeping only the matched subjects. */
  lemma AsWrittenUnmatchedRaises(names: seq<string>, dmerge: seq<Pair>, i: nat)
    requires i < |names| && !Matched(dmerge, names[i])
    ensures RemapSecond(names, dmerge, KeepFalse).Err?
    ensures exists x :: x in names && !Matched(dmerge, x) &&
              RemapSecond(names, dmerge, KeepFalse) == Err(MissingKey(x))
  {
    KeepFalseRemap(names, dmerge);
    var table := RemapTable(ApplyKeepNulls(dmerge, KeepFalse));
    var r := RemapSecond(names, dmerge, KeepFalse);
    var k :| 0 <= k < |names| && Replace(names[k], table, KeepFalse) == Err(r.error);
    var x := names[k];
    if Matched(dmerge, x) {
      var p :| p in dmerge && p.left.Some? && p.right == Some(x);
      KeepSubsets(dmerge, KeepFalse, p);
    }
  }

  /** The documented intent of `keep_nulls=False` ("only the ones that match
      both databases"): a subject with an entry takes it (keeping its own name
      on a null entry, as `replace_nonnull_df` does), and a subject with no
      entry gets no name instead of raising, as `Series.map` gives it for the
      other settings. */
  function ReplaceMatchedOnly(x: string, table: map<Option<string>, Option<string>>): (y: Option<string>)
    ensures Some(x) !in table ==> y.None?
    ensures y.Some? ==> Some(x) in table && (table[Some(x)] == y || table[Some(x)].None?)
    ensures Some(x) in table ==> y.Some?
  {
    if Some(x) !in table then None
    else if table[Some(x)].Some? then table[Some(x)]
    else Some(x)
  }

  /** `df_remap_names` with that replacement when `keep_nulls` is falsy. */
  function RemapNamesCorrected(names: seq<string>, table: map<Option<string>, Option<string>>, keep: KeepNulls): (r: Result<seq<Option<string>>>)
    ensures !Truthy(keep) ==> r.Ok? && |r.value| == |names|
    ensures !Truthy(keep) ==> forall i :: 0 <= i < |names| && Some(names[i]) !in table ==> r.value[i].None?
    ensures !Truthy(keep) ==> forall i :: 0 <= i < |names| && Some(names[i]) in table && table[Some(names[i])].Some? ==>
              r.value[i] == table[Some(names[i])]
    ensures !Truthy(keep) ==> forall i :: 0 <= i < |names| && Some(names[i]) in table && table[Some(names[i])].None? ==>
              r.value[i] == Some(names[i])
    ensures Truthy(keep) ==> r == RemapNames(names, table, keep)
  {
    if Truthy(keep) then RemapNames(names, table, keep)
    else Ok(seq(|names|, i requires 0 <= i < |names| => ReplaceMatchedOnly(names[i], table)))
  }

  function RemapSecondCorrected(names: seq<string>, dmerge: seq<Pair>, keep: KeepNulls): Result<seq<Option<string>>>
  {
    RemapNamesCorrected(names, RemapTable(ApplyKeepNulls(dmerge, keep)), keep)
  }

  /** With the correction, `keep_nulls=False` never raises `KeyError`: a
      matched subject takes the left name of a pair it is in, and an unmatched
      one gets no name (null), as `Series.map` gives it for `keep_nulls=1`
      or `2`. */
  lemma CorrectedKeepFalseRemap(names: seq<string>, dmerge: seq<Pair>)
    ensures RemapSecondCorrected(names, dmerge, KeepFalse).Ok?
    ensures forall i :: 0 <= i < |names| && Matched(dmerge, names[i]) ==>
              var y := RemapSecondCorrected(names, dmerge, KeepFalse).value[i];
              y.Some? && Pair(y, Some(names[i])) in dmerge
    ensures forall i :: 0 <= i < |names| && !Matched(dmerge, names[i]) ==>
              RemapSecondCorrected(names, dmerge, KeepFalse).value[i].None?
  {
    var kept := ApplyKeepNulls(dmerge, KeepFalse);
    var table := RemapTable(kept);
    var r := RemapSecondCorrected(names, dmerge, KeepFalse);
    forall i | 0 <= i < |names|
      ensures var y := r.value[i];
              (Matched(dmerge, names[i]) ==> y.Some? && Pair(y, Some(names[i])) in dmerge) &&
              (!Matched(dmerge, names[i]) ==> y.None?)
    {
      var x := names[i];
      if Some(x) in table {
        var q := Pair(table[Some(x)], Some(x));
        KeepSubsets(dmerge, KeepFalse, q);
      } else if Matched(dmerge, x) {
        var p :| p in dmerge && p.left.Some? && p.right == Some(x);
        KeepSubsets(dmerge, KeepFalse, p);
      }
    }
  }
}
