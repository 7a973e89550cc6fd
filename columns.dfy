/** The column bookkeeping of `merge_two_df`: prefixing the non-key columns
    (`prependcols`), renaming the columns both tables share with `a.` and `b.`,
    and the audit columns `<col>_alt<N>_orig` and `<col>_alt<N>_orig2` that keep
    the original names after the merge. */
module MergeColumns {
  import opened Common
  import opened Text
  import opened Frames

  // ---- prefixing and conflict renaming ----

  /** The columns both tables hold, the key column apart. */
  function Conflicts(cols1: seq<string>, cols2: seq<string>, key: string): set<string>
  {
    (set c | c in cols1 && c in cols2) - {key}
  }

  /** `{c: prefix + c for c in names}`. */
  function PrefixMap(names: set<string>, prefix: string): map<string, string>
  {
    map c | c in names :: prefix + c
  }

  /** `{c: prefix + c for c in df.columns.drop(key)}`. */
  function PrependMap(cols: seq<string>, prefix: string, key: string): map<string, string>
  {
    map c | c in cols && c != key :: prefix + c
  }

  /** The columns of one table after `prependcols`: every column but the key
      takes the prefix; a table without the key column raises `KeyError`. */
  function Prepended(cols: seq<string>, prefix: string, key: string): Result<seq<string>>
  {
    if key !in cols then Err(MissingKey(key)) else Ok(Renamed(cols, PrependMap(cols, prefix, key)))
  }

  /** The columns of both tables once prefixed (when `prependcols` holds two
      prefixes) and once the shared columns are renamed. */
  function PreparedColumns(cols1: seq<string>, cols2: seq<string>, key: string, prepend: seq<string>)
    : Result<(seq<string>, seq<string>)>
  {
    var p1 := if |prepend| == 2 then Prepended(cols1, prepend[0], key) else Ok(cols1);
    var p2 := if |prepend| == 2 then Prepended(cols2, prepend[1], key) else Ok(cols2);
    if p1.Err? then Err(p1.error)
    else if p2.Err? then Err(p2.error)
    else
      var conflicts := Conflicts(p1.value, p2.value, key);
      Ok((Renamed(p1.value, PrefixMap(conflicts, "a.")), Renamed(p2.value, PrefixMap(conflicts, "b."))))
  }

  /** Prefix the non-key columns of `df` in place. */
  method PrependColumns(df: Frame, prefix: string, key: string) returns (err: Option<Error>)
    modifies df
    ensures var r := Prepended(old(df.columns), prefix, key);
            && (r.Err? ==> err == Some(r.error) && df.columns == old(df.columns))
            && (r.Ok? ==> err == None && df.columns == r.value)
  {
    if key !in df.columns {
      return Some(MissingKey(key));
    }
    df.Rename(PrependMap(df.columns, prefix, key));
    err := None;
  }

  /** The column preparation of `merge_two_df` on its two tables, in place. */
  method PrepareColumns(df1: Frame, df2: Frame, key: string, prepend: seq<string>) returns (err: Option<Error>)
    requires df1 != df2
    modifies df1, df2
    ensures var r := PreparedColumns(old(df1.columns), old(df2.columns), key, prepend);
            && (r.Err? ==> err == Some(r.error))
            && (r.Ok? ==> err == None && df1.columns == r.value.0 && df2.columns == r.value.1)
  {
    if |prepend| == 2 {
      err := PrependColumns(df1, prepend[0], key);
      if err.Some? {
        return;
      }
      err := PrependColumns(df2, prepend[1], key);
      if err.Some? {
        return;
      }
    }
    var conflicts := Conflicts(df1.columns, df2.columns, key);
    if |conflicts| > 0 {
      df1.Rename(PrefixMap(conflicts, "a."));
      df2.Rename(PrefixMap(conflicts, "b."));
    } else {
      RenamedNothing(df1.columns, PrefixMap(conflicts, "a."));
      RenamedNothing(df2.columns, PrefixMap(conflicts, "b."));
    }
    err := None;
  }

  lemma PrefixedHead(prefix: string, c: string)
    requires prefix != []
    ensures (prefix + c)[0] == prefix[0]
  {
  }

  /** A column renamed by a prefix map takes the prefix exactly when the map
      names it. */
  lemma RenamedAt(cols: seq<string>, names: set<string>, prefix: string, i: int)
    requires 0 <= i < |cols|
    ensures Renamed(cols, PrefixMap(names, prefix))[i] == if cols[i] in names then prefix + cols[i] else cols[i]
  {
  }

  /** A name that starts with a two-character prefix. */
  lemma PrefixedStartsWith(prefix: string, c: string)
    ensures StartsWith(prefix + c, prefix)
  {
    StartsWithIsPrefix(prefix + c, prefix);
  }

  /** When no column of the first table starts with `b.` and none of the
      second starts with `a.`, the renaming leaves the key as the only shared
      column. */
  lemma ConflictsResolved(cols1: seq<string>, cols2: seq<string>, key: string)
    requires forall c :: c in cols1 ==> !StartsWith(c, "b.")
    requires forall c :: c in cols2 ==> !StartsWith(c, "a.")
    ensures var conflicts := Conflicts(cols1, cols2, key);
            var r1 := Renamed(cols1, PrefixMap(conflicts, "a."));
            var r2 := Renamed(cols2, PrefixMap(conflicts, "b."));
            forall x :: x in r1 && x in r2 ==> x == key
  {
    var conflicts := Conflicts(cols1, cols2, key);
    var r1 := Renamed(cols1, PrefixMap(conflicts, "a."));
    var r2 := Renamed(cols2, PrefixMap(conflicts, "b."));
    forall x | x in r1 && x in r2
      ensures x == key
    {
      var i :| 0 <= i < |r1| && r1[i] == x;
      var j :| 0 <= j < |r2| && r2[j] == x;
      var c, d := cols1[i], cols2[j];
      assert c in cols1 && d in cols2;
      RenamedAt(cols1, conflicts, "a.", i);
      RenamedAt(cols2, conflicts, "b.", j);
      RenamedNamesDiffer(c, d, c in conflicts, d in conflicts);
    }
  }

  /** `a.c` is never `b.d`; `a.c` is never a name not starting with `a.`; and
      `b.d` is never a name not starting with `b.`. */
  lemma RenamedNamesDiffer(c: string, d: string, renameC: bool, renameD: bool)
    requires !StartsWith(c, "b.") && !StartsWith(d, "a.")
    ensures (if renameC then "a." + c else c) == (if renameD then "b." + d else d) ==> !renameC && !renameD
  {
    PrefixedHead("a.", c);
    PrefixedHead("b.", d);
    PrefixedStartsWith("a.", c);
    PrefixedStartsWith("b.", d);
  }

  /** The renaming can itself create a shared column: when the first table
      already holds `b.x` next to a shared `x`, it keeps `b.x` while the second
      table's `x` becomes `b.x`. */
  lemma RenameCanCollide(cols1: seq<string>, cols2: seq<string>, key: string, x: string)
    requires x in cols1 && x in cols2 && x != key
    requires "b." + x in cols1 && "b." + x !in cols2
    ensures var conflicts := Conflicts(cols1, cols2, key);
            "b." + x in Renamed(cols1, PrefixMap(conflicts, "a.")) && "b." + x in Renamed(cols2, PrefixMap(conflicts, "b."))
  {
    var conflicts := Conflicts(cols1, cols2, key);
    var i :| 0 <= i < |cols1| && cols1[i] == "b." + x;
    var j :| 0 <= j < |cols2| && cols2[j] == x;
    RenamedAt(cols1, conflicts, "a.", i);
    RenamedAt(cols2, conflicts, "b.", j);
    assert Renamed(cols1, PrefixMap(conflicts, "a."))[i] == "b." + x;
    assert Renamed(cols2, PrefixMap(conflicts, "b."))[j] == "b." + x;
  }

  /** With two prefixes that differ in their first character, prefixing
      leaves no shared column but the key, so nothing is renamed after it. */
  lemma PrependAvoidsConflicts(cols1: seq<string>, cols2: seq<string>, key: string, p1: string, p2: string)
    requires p1 != [] && p2 != [] && p1[0] != p2[0]
    ensures Conflicts(Renamed(cols1, PrependMap(cols1, p1, key)), Renamed(cols2, PrependMap(cols2, p2, key)), key) == {}
  {
    var r1 := Renamed(cols1, PrependMap(cols1, p1, key));
    var r2 := Renamed(cols2, PrependMap(cols2, p2, key));
    forall x | x in r1 && x in r2 && x != key
      ensures false
    {
      var i :| 0 <= i < |r1| && r1[i] == x;
      var j :| 0 <= j < |r2| && r2[j] == x;
      var c, d := cols1[i], cols2[j];
      assert c in cols1 && d in cols2;
      assert c != key && d != key;
      assert x == p1 + c && x == p2 + d;
      PrefixedHead(p1, c);
      PrefixedHead(p2, d);
    }
  }

  // ---- the audit columns ----

  /** `<col>_alt<N>`. */
  function AltName(col: string, n: nat): string
  {
    col + "_alt" + NatToString(n)
  }

  /** How the free number is searched for: the code as written tests for
      `<col>_alt<N>`, a name it never creates; the corrected search tests the
      two names it is about to insert. */
  datatype Probe = AsWritten | Corrected

  predicate AltFree(cols: seq<string>, col: string, n: nat, probe: Probe)
  {
    match probe
    case AsWritten => AltName(col, n) !in cols
    case Corrected => AltName(col, n) + "_orig" !in cols && AltName(col, n) + "_orig2" !in cols
  }

  /** The first free number above `x` and at most 1000 (`range(1000)` gives
      `N = x + 1` for `x` from 0 to 999, and the loop stops at the first free
      one); `None` when no number up to 1000 is free. */
  function FirstFreeAlt(cols: seq<string>, col: string, x: nat, probe: Probe): (r: Option<nat>)
    ensures r.Some? ==> x < r.value <= 1000 && AltFree(cols, col, r.value, probe)
    ensures r.Some? ==> forall m :: x < m < r.value ==> !AltFree(cols, col, m, probe)
    ensures r.None? ==> forall m :: x < m <= 1000 ==> !AltFree(cols, col, m, probe)
    decreases 1000 - x
  {
    if x >= 1000 then None
    else if AltFree(cols, col, x + 1, probe) then Some(x + 1)
    else FirstFreeAlt(cols, col, x + 1, probe)
  }

  /** The columns after the audit step: `<col>_alt<N>_orig` is inserted at
      position 1 and `<col>_alt<N>_orig2` at position 2, then `<col>_orig` and
      `<col>_orig2` are deleted; an inserted name already present raises, and
      when no number is free nothing changes. */
  function AltColumns(cols: seq<string>, col: string, probe: Probe): Result<seq<string>>
    requires col + "_orig" in cols && col + "_orig2" in cols
  {
    match FirstFreeAlt(cols, col, 0, probe)
    case None => Ok(cols)
    case Some(n) =>
      var o, o2 := AltName(col, n) + "_orig", AltName(col, n) + "_orig2";
      if o in cols then Err(DuplicateColumn(o))
      else
        var c1 := Inserted(cols, 1, o);
        if o2 in c1 then Err(DuplicateColumn(o2))
        else Ok(Without(Without(Inserted(c1, 2, o2), col + "_orig"), col + "_orig2"))
  }

  /** The loop of the audit step over `range(1000)`, changing `dfinal` in
      place. */
  method AddAltColumns(dfinal: Frame, col: string, probe: Probe) returns (err: Option<Error>)
    requires col + "_orig" in dfinal.columns && col + "_orig2" in dfinal.columns
    modifies dfinal
    ensures var r := AltColumns(old(dfinal.columns), col, probe);
            && (r.Err? ==> err == Some(r.error))
            && (r.Ok? ==> err == None && dfinal.columns == r.value)
  {
    for x := 0 to 1000
      invariant dfinal.columns == old(dfinal.columns)
      invariant FirstFreeAlt(dfinal.columns, col, x, probe) == FirstFreeAlt(dfinal.columns, col, 0, probe)
    {
      var n := x + 1;
      var free := match probe
        case AsWritten => AltName(col, n) !in dfinal.columns
        case Corrected => AltName(col, n) + "_orig" !in dfinal.columns && AltName(col, n) + "_orig2" !in dfinal.columns;
      if free {
        err := dfinal.Insert(1, AltName(col, n) + "_orig");
        if err.Some? {
          return;
        }
        err := dfinal.Insert(2, AltName(col, n) + "_orig2");
        if err.Some? {
          return;
        }
        AltNotOrig(col, n, "_orig");
        AltNotOrig(col, n, "_orig2");
        var e1 := dfinal.Delete(col + "_orig");
        var e2 := dfinal.Delete(col + "_orig2");
        assert e1.None? && e2.None?;
        return None;
      }
    }
    err := None;
  }

  /** An audit name is never one of the two columns it replaces: they differ
      right after `<col>_`. */
  lemma AltNotOrig(col: string, n: nat, suffix: string)
    ensures AltName(col, n) + suffix != col + "_orig"
    ensures AltName(col, n) + suffix != col + "_orig2"
  {
    var a := AltName(col, n) + suffix;
    assert a[|col| + 1] == 'a';
    assert (col + "_orig")[|col| + 1] == 'o';
    assert (col + "_orig2")[|col| + 1] == 'o';
  }

  /** As written, the search never gets past 1 on a table that has no column
      `<col>_alt1` (and the code never makes one); a table that went through
      an earlier merge already holds `<col>_alt1_orig`, so inserting it again
      raises. */
  lemma AsWrittenChainedMergeRaises(cols: seq<string>, col: string)
    requires col + "_orig" in cols && col + "_orig2" in cols
    requires AltName(col, 1) !in cols && AltName(col, 1) + "_orig" in cols
    ensures AltColumns(cols, col, AsWritten) == Err(DuplicateColumn(AltName(col, 1) + "_orig"))
  {
  }

  /** The corrected search never raises: it inserts the two audit names for the
      first free number, which are new, and removes `<col>_orig` and
      `<col>_orig2`; when all 1000 numbers are taken nothing changes. */
  lemma CorrectedAltColumnsFresh(cols: seq<string>, col: string)
    requires col + "_orig" in cols && col + "_orig2" in cols
    ensures AltColumns(cols, col, Corrected).Ok?
    ensures match FirstFreeAlt(cols, col, 0, Corrected)
            case None => AltColumns(cols, col, Corrected).value == cols
            case Some(n) =>
              var r := AltColumns(cols, col, Corrected).value;
              && AltName(col, n) + "_orig" in r && AltName(col, n) + "_orig2" in r
              && col + "_orig" !in r && col + "_orig2" !in r
  {
    match FirstFreeAlt(cols, col, 0, Corrected)
    case None =>
    case Some(n) =>
      var o, o2 := AltName(col, n) + "_orig", AltName(col, n) + "_orig2";
      assert |o2| != |o|;
      AltNotOrig(col, n, "_orig");
      AltNotOrig(col, n, "_orig2");
  }

  /** The corrected search skips the numbers earlier merges used: a table
      holding the audit columns of 1 to `k`, and not those of `k + 1`, gets
      number `k + 1`. */
  lemma {:induction false} CorrectedNextNumber(cols: seq<string>, col: string, k: nat, x: nat)
    requires x <= k < 1000
    requires forall m :: 1 <= m <= k ==> AltName(col, m) + "_orig" in cols
    requires !(AltName(col, k + 1) + "_orig" in cols) && !(AltName(col, k + 1) + "_orig2" in cols)
    ensures FirstFreeAlt(cols, col, x, Corrected) == Some(k + 1)
    decreases k - x
  {
    if x < k {
      CorrectedNextNumber(cols, col, k, x + 1);
    }
  }
}
