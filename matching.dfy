/** The merge mapping of `merge_two_df`: every distinct name of the first table
    is paired with the names of the second table it is judged to be, the names
    of the second table nobody took are added against `None`, and a sanity check
    demands that the mapping be one-to-one. */
module MergeMapping {
  import opened Common
  import opened Text
  import opened NameCleanup
  import opened WordDistance

  /** One row of the mapping: a name of the first table (or `None`) and a name
      of the second table (or `None`). */
  datatype Pair = Pair(left: Option<string>, right: Option<string>)

  /** The arguments of the mapping. `nlev` is the external normalized
      Levenshtein distance, `fixAccents` is `replace_buggy_accents`, `decode`
      and `translit` are the two foreign steps of `cleanup_name`. */
  datatype MatchConfig = MatchConfig(
    distThreshold: real,
    wordsThreshold: real,
    mode: int,
    nlev: (string, string) -> real,
    fixAccents: string -> string,
    decode: string -> string,
    translit: string -> string)

  /** Both thresholds at or below zero: names are compared by equality only. */
  predicate IsExactMode(cfg: MatchConfig)
  {
    cfg.distThreshold <= 0.0 && cfg.wordsThreshold <= 0.0
  }

  /** No name occurs twice. */
  predicate Distinct(names: seq<string>)
  {
    forall i, j :: 0 <= i < j < |names| ==> names[i] != names[j]
  }

  /** `Series.unique()`: the distinct values in order of first appearance. */
  function Unique(col: seq<string>): (r: seq<string>)
    ensures Distinct(r)
    ensures forall x :: x in r <==> x in col
  {
    if col == [] then []
    else
      var p := Unique(col[..|col| - 1]);
      var x := col[|col| - 1];
      assert col == col[..|col| - 1] + [x];
      if x in p then p else p + [x]
  }

  // ---- comparing two names ----

  /** `cleanup_name(replace_buggy_accents(c))` with the default arguments. */
  function CleanKey(c: string, cfg: MatchConfig): string
  {
    CleanupName(cfg.fixAccents(c), cfg.decode, cfg.translit, true, true)
  }

  /** The word comparison of the second test: `partial=False`, `dist` the
      character threshold, no minimum length. */
  function WordsTestOf(cfg: MatchConfig): WordTest
  {
    WordTest(false, cfg.distThreshold, 0, cfg.nlev)
  }

  /** Whether the cleaned names `name1` and `name2` are judged the same: the
      character test (distance at most `dist_threshold`) and the word test
      (normalized word distance at most `dist_words_threshold`) are combined by
      `or` in mode 0 and by `and` in mode 1; no other mode accepts. The word
      distance raises a division by zero when neither name has a word. */
  function SimilarKeys(name1: string, name2: string, cfg: MatchConfig): Result<bool>
  {
    var testsim1 := cfg.nlev(name1, name2) <= cfg.distThreshold;
    match JaccardWordsSplit(name1, name2, WordsTestOf(cfg), Normalized)
    case Err(e) => Err(e)
    case Ok(d) =>
      var testsim2 := d <= cfg.wordsThreshold;
      Ok((cfg.mode == 0 && (testsim1 || testsim2)) || (cfg.mode == 1 && testsim1 && testsim2))
  }

  /** Whether a left name `c` accepts a right name `cd`: both are cleaned, then
      compared. */
  function Similar(c: string, cd: string, cfg: MatchConfig): Result<bool>
  {
    SimilarKeys(CleanKey(c, cfg), CleanKey(cd, cfg), cfg)
  }

  /** The comparison raises exactly when neither cleaned name splits into a
      non-empty word, and then it raises a division by zero. */
  lemma SimilarKeysRaise(name1: string, name2: string, cfg: MatchConfig)
    ensures SimilarKeys(name1, name2, cfg).Err? <==>
              NonEmptyWords(SplitWords(name1)) == [] && NonEmptyWords(SplitWords(name2)) == []
    ensures SimilarKeys(name1, name2, cfg).Err? ==> SimilarKeys(name1, name2, cfg).error == ZeroDivision
  {
    var w1 := NonEmptyWords(SplitWords(name1));
    var w2 := NonEmptyWords(SplitWords(name2));
    assert |w1| + |w2| == 0 <==> w1 == [] && w2 == [];
  }

  /** Two names that both clean to the empty text (say "?" and "!") make the
      fuzzy comparison raise. */
  lemma EmptyCleanNamesRaise(c: string, cd: string, cfg: MatchConfig)
    requires CleanKey(c, cfg) == "" && CleanKey(cd, cfg) == ""
    ensures Similar(c, cd, cfg) == Err(ZeroDivision)
  {
    assert SplitWords("") == [""];
    assert NonEmptyWords([""]) == [];
    SimilarKeysRaise("", "", cfg);
  }

  /** Mode 0 accepts when either test passes, mode 1 when both do, and no
      other mode ever accepts. */
  lemma SimilarKeysModes(name1: string, name2: string, cfg: MatchConfig)
    requires SimilarKeys(name1, name2, cfg).Ok?
    ensures var testsim1 := cfg.nlev(name1, name2) <= cfg.distThreshold;
            var testsim2 := JaccardWordsSplit(name1, name2, WordsTestOf(cfg), Normalized).value <= cfg.wordsThreshold;
            && (cfg.mode == 0 ==> (SimilarKeys(name1, name2, cfg).value <==> testsim1 || testsim2))
            && (cfg.mode == 1 ==> (SimilarKeys(name1, name2, cfg).value <==> testsim1 && testsim2))
            && (cfg.mode != 0 && cfg.mode != 1 ==> !SimilarKeys(name1, name2, cfg).value)
  {
  }

  /** How the loop compares names: by equality only (`exact`), or by `sim`,
      which accepts, rejects or raises. */
  datatype Matcher = Matcher(exact: bool, sim: (string, string) -> Result<bool>)

  /** The comparison `merge_two_df` makes with its arguments. */
  function MatcherOf(cfg: MatchConfig): Matcher
  {
    Matcher(IsExactMode(cfg), (c, cd) => Similar(c, cd, cfg))
  }

  /** A non-empty right name the left name accepts. */
  predicate Accepted(c: string, cd: string, mt: Matcher)
  {
    cd != "" && mt.sim(c, cd) == Ok(true)
  }

  /** The right names of `names2` that `c` accepts, in their order. */
  function AcceptedIn(c: string, names2: seq<string>, mt: Matcher): (r: seq<string>)
    ensures forall x :: x in r <==> x in names2 && Accepted(c, x, mt)
  {
    if names2 == [] then []
    else
      var last := names2[|names2| - 1];
      assert names2 == names2[..|names2| - 1] + [last];
      AcceptedIn(c, names2[..|names2| - 1], mt) + (if Accepted(c, last, mt) then [last] else [])
  }

  // ---- the mapping loop ----

  /** The inner loop of the fuzzy mode, over the right names in order: empty
      names are skipped, an accepted name is kept, and the first comparison
      that raises stops everything. */
  function Candidates(c: string, names2: seq<string>, mt: Matcher): Result<seq<string>>
  {
    if names2 == [] then Ok([])
    else
      match Candidates(c, names2[..|names2| - 1], mt)
      case Err(e) => Err(e)
      case Ok(acc) =>
        var cd := names2[|names2| - 1];
        if cd == "" then Ok(acc)
        else
          match mt.sim(c, cd)
          case Err(e) => Err(e)
          case Ok(b) => Ok(if b then acc + [cd] else acc)
  }

  /** The fuzzy scan yields exactly the accepted names, in order, unless it
      raises. */
  lemma {:induction false} CandidatesSpec(c: string, names2: seq<string>, mt: Matcher)
    ensures Candidates(c, names2, mt).Ok? ==> Candidates(c, names2, mt).value == AcceptedIn(c, names2, mt)
  {
    if names2 != [] {
      var p := names2[..|names2| - 1];
      CandidatesSpec(c, p, mt);
    }
  }

  /** The fuzzy scan raises exactly when the comparison of `c` with some
      non-empty right name raises. */
  lemma {:induction false} CandidatesRaise(c: string, names2: seq<string>, mt: Matcher)
    ensures Candidates(c, names2, mt).Err? <==>
              exists i :: 0 <= i < |names2| && names2[i] != "" && mt.sim(c, names2[i]).Err?
  {
    if names2 != [] {
      var k := |names2| - 1;
      var p := names2[..k];
      CandidatesRaise(c, p, mt);
      if Candidates(c, p, mt).Err? {
        var i :| 0 <= i < |p| && p[i] != "" && mt.sim(c, p[i]).Err?;
        assert names2[i] == p[i];
      } else if names2[k] != "" && mt.sim(c, names2[k]).Err? {
        assert Candidates(c, names2, mt).Err?;
      } else {
        assert Candidates(c, names2, mt).Ok?;
        forall i | 0 <= i < k
          ensures !(names2[i] != "" && mt.sim(c, names2[i]).Err?)
        {
          assert p[i] == names2[i];
        }
      }
    }
  }

  /** One pair `(c, cd)` per accepted name. */
  function PairsWith(c: string, cds: seq<string>): (r: seq<Pair>)
    ensures |r| == |cds|
    ensures forall i :: 0 <= i < |cds| ==> r[i] == Pair(Some(c), Some(cds[i]))
  {
    if cds == [] then [] else [Pair(Some(c), Some(cds[0]))] + PairsWith(c, cds[1..])
  }

  /** The pairs the loop adds for one left name `c`: in exact mode `(c, c)`
      when `c` is a right name and `(c, None)` otherwise; in fuzzy mode one
      pair per accepted right name, or `(c, None)` when there is none. */
  function RowPairs(c: string, names2: seq<string>, mt: Matcher): Result<seq<Pair>>
  {
    if mt.exact then
      Ok([Pair(Some(c), if c in names2 then Some(c) else None)])
    else
      match Candidates(c, names2, mt)
      case Err(e) => Err(e)
      case Ok(cds) => Ok(if cds == [] then [Pair(Some(c), None)] else PairsWith(c, cds))
  }

  /** The pairs of the loop over the left names, in order; the first exception
      raised stops it. */
  function Mapped(names1: seq<string>, names2: seq<string>, mt: Matcher): Result<seq<Pair>>
  {
    if names1 == [] then Ok([])
    else
      match Mapped(names1[..|names1| - 1], names2, mt)
      case Err(e) => Err(e)
      case Ok(acc) =>
        match RowPairs(names1[|names1| - 1], names2, mt)
        case Err(e) => Err(e)
        case Ok(row) => Ok(acc + row)
  }

  /** Once the scan of a prefix of the right names has raised, the whole scan
      raises the same exception. */
  lemma {:induction false} CandidatesErrPersists(c: string, names2: seq<string>, j: nat, mt: Matcher)
    requires j <= |names2| && Candidates(c, names2[..j], mt).Err?
    ensures Candidates(c, names2, mt) == Candidates(c, names2[..j], mt)
    decreases |names2| - j
  {
    if j < |names2| {
      assert names2[..j + 1][..j] == names2[..j];
      CandidatesErrPersists(c, names2, j + 1, mt);
    } else {
      assert names2[..j] == names2;
    }
  }

  /** Once the loop over a prefix of the left names has raised, the whole loop
      raises the same exception. */
  lemma {:induction false} MappedErrPersists(names1: seq<string>, names2: seq<string>, i: nat, mt: Matcher)
    requires i <= |names1| && Mapped(names1[..i], names2, mt).Err?
    ensures Mapped(names1, names2, mt) == Mapped(names1[..i], names2, mt)
    decreases |names1| - i
  {
    if i < |names1| {
      assert names1[..i + 1][..i] == names1[..i];
      MappedErrPersists(names1, names2, i + 1, mt);
    } else {
      assert names1[..i] == names1;
    }
  }

  /** The fuzzy inner loop for one left name: it appends `(c, cd)` for every
      right name the comparison accepts, stops at the first comparison that
      raises, and appends `(c, None)` when it appended nothing. */
  method MatchRow(c: string, names2: seq<string>, mt: Matcher) returns (r: Result<seq<Pair>>)
    requires !mt.exact
    ensures r == RowPairs(c, names2, mt)
  {
    var row: seq<Pair> := [];
    var found := false;
    ghost var cds: seq<string> := [];
    for j := 0 to |names2|
      invariant Candidates(c, names2[..j], mt) == Ok(cds)
      invariant row == PairsWith(c, cds)
      invariant found <==> cds != []
    {
      assert names2[..j + 1][..j] == names2[..j];
      var cd := names2[j];
      if cd == "" {
        continue;
      }
      var accept := mt.sim(c, cd);
      if accept.Err? {
        CandidatesErrPersists(c, names2, j + 1, mt);
        assert Candidates(c, names2, mt) == Err(accept.error);
        return Err(accept.error);
      }
      if accept.value {
        assert PairsWith(c, cds + [cd]) == PairsWith(c, cds) + [Pair(Some(c), Some(cd))];
        row := row + [Pair(Some(c), Some(cd))];
        cds := cds + [cd];
        found := true;
      }
    }
    assert names2[..|names2|] == names2;
    assert Candidates(c, names2, mt) == Ok(cds);
    if !found {
      row := row + [Pair(Some(c), None)];
      assert row == [Pair(Some(c), None)];
    }
    r := Ok(row);
  }

  /** The loop of `merge_two_df` over the left names, appending to `dmerge`. */
  method BuildMapping(names1: seq<string>, names2: seq<string>, mt: Matcher) returns (r: Result<seq<Pair>>)
    ensures r == Mapped(names1, names2, mt)
  {
    var dmerge: seq<Pair> := [];
    for i := 0 to |names1|
      invariant Mapped(names1[..i], names2, mt) == Ok(dmerge)
    {
      assert names1[..i + 1][..i] == names1[..i];
      var c := names1[i];
      if mt.exact {
        var found := false;
        if c in names2 {
          dmerge := dmerge + [Pair(Some(c), Some(c))];
          found := true;
        }
        if !found {
          dmerge := dmerge + [Pair(Some(c), None)];
        }
      } else {
        var row := MatchRow(c, names2, mt);
        if row.Err? {
          MappedErrPersists(names1, names2, i + 1, mt);
          return Err(row.error);
        }
        dmerge := dmerge + row.value;
      }
    }
    assert names1[..|names1|] == names1;
    r := Ok(dmerge);
  }

  // ---- counting the names of a mapping ----

  /** How many pairs have `n` on the right. */
  function CountRight(pairs: seq<Pair>, n: string): nat
  {
    if pairs == [] then 0
    else CountRight(pairs[..|pairs| - 1], n) + (if pairs[|pairs| - 1].right == Some(n) then 1 else 0)
  }

  /** How many pairs have `n` on the left. */
  function CountLeft(pairs: seq<Pair>, n: string): nat
  {
    if pairs == [] then 0
    else CountLeft(pairs[..|pairs| - 1], n) + (if pairs[|pairs| - 1].left == Some(n) then 1 else 0)
  }

  lemma {:induction false} CountConcat(a: seq<Pair>, b: seq<Pair>, n: string)
    ensures CountRight(a + b, n) == CountRight(a, n) + CountRight(b, n)
    ensures CountLeft(a + b, n) == CountLeft(a, n) + CountLeft(b, n)
  {
    if b != [] {
      var b' := b[..|b| - 1];
      var ab := a + b;
      assert ab[..|ab| - 1] == a + b';
      assert ab[|ab| - 1] == b[|b| - 1];
      CountConcat(a, b', n);
    } else {
      assert a + b == a;
    }
  }

  /** A name counted on the right occurs on the right of some pair. */
  lemma {:induction false} CountRightPositive(pairs: seq<Pair>, n: string)
    ensures CountRight(pairs, n) > 0 <==> exists i :: 0 <= i < |pairs| && pairs[i].right == Some(n)
  {
    if pairs != [] {
      var p := pairs[..|pairs| - 1];
      CountRightPositive(p, n);
      if exists i :: 0 <= i < |pairs| && pairs[i].right == Some(n) {
        var i :| 0 <= i < |pairs| && pairs[i].right == Some(n);
        if i < |p| {
          assert p[i] == pairs[i];
        }
      }
      if exists i :: 0 <= i < |p| && p[i].right == Some(n) {
        var i :| 0 <= i < |p| && p[i].right == Some(n);
        assert pairs[i] == p[i];
      }
    }
  }

  // ---- the names nobody took ----

  /** The right names used by some pair. */
  function RightsOf(pairs: seq<Pair>): set<string>
  {
    set i | 0 <= i < |pairs| && pairs[i].right.Some? :: pairs[i].right.value
  }

  /** `set(list_names2) - set(y for _, y in dmerge if y is not None)`. */
  function Unused(names2: seq<string>, pairs: seq<Pair>): set<string>
  {
    (set x | x in names2) - RightsOf(pairs)
  }

  lemma RightsOfCount(pairs: seq<Pair>, n: string)
    ensures n in RightsOf(pairs) <==> CountRight(pairs, n) > 0
  {
    CountRightPositive(pairs, n);
    if CountRight(pairs, n) > 0 {
      var i :| 0 <= i < |pairs| && pairs[i].right == Some(n);
      assert pairs[i].right.value == n;
    }
  }

  /** `missing` holds one `(None, x)` pair for each unused right name, and
      nothing else. */
  ghost predicate IsMissingFor(missing: seq<Pair>, unused: set<string>)
  {
    && (forall i :: 0 <= i < |missing| ==> missing[i].left.None? && missing[i].right.Some?)
    && (forall x :: CountRight(missing, x) == if x in unused then 1 else 0)
  }

  /** `[(None, x) for x in list(unused)]`: the order in which a set is listed
      is Python's own, so any order is allowed here. */
  method MissingPairs(unused: set<string>) returns (missing: seq<Pair>)
    ensures IsMissingFor(missing, unused)
  {
    missing := [];
    var rest := unused;
    while rest != {}
      invariant rest <= unused
      invariant forall i :: 0 <= i < |missing| ==> missing[i].left.None? && missing[i].right.Some?
      invariant forall x :: CountRight(missing, x) == if x in unused - rest then 1 else 0
      decreases rest
    {
      var x :| x in rest;
      var next := missing + [Pair(None, Some(x))];
      assert next[..|next| - 1] == missing;
      missing := next;
      rest := rest - {x};
    }
  }

  /** The missing pairs hold no left name. */
  lemma {:induction false} NoLeftInMissing(missing: seq<Pair>, n: string)
    requires forall i :: 0 <= i < |missing| ==> missing[i].left.None?
    ensures CountLeft(missing, n) == 0
  {
    if missing != [] {
      NoLeftInMissing(missing[..|missing| - 1], n);
    }
  }

  // ---- the sanity check ----

  /** The first name of `names` on the right of more than one pair. */
  function FirstRightConflict(names: seq<string>, pairs: seq<Pair>): (r: Option<string>)
  {
    if names == [] then None
    else if CountRight(pairs, names[0]) > 1 then Some(names[0])
    else FirstRightConflict(names[1..], pairs)
  }

  /** The first name of `names` on the left of more than one pair. */
  function FirstLeftConflict(names: seq<string>, pairs: seq<Pair>): (r: Option<string>)
  {
    if names == [] then None
    else if CountLeft(pairs, names[0]) > 1 then Some(names[0])
    else FirstLeftConflict(names[1..], pairs)
  }

  /** The sanity check: the right names in their order, then the left names in
      theirs; the first name in more than one pair raises. */
  function SanityCheck(pairs: seq<Pair>, names1: seq<string>, names2: seq<string>): (r: Result<seq<Pair>>)
    ensures r.Ok? ==> r.value == pairs
    ensures r.Err? ==>
              && r.error.Conflict?
              && ((r.error.subject in names2 && CountRight(pairs, r.error.subject) > 1) ||
                  (r.error.subject in names1 && CountLeft(pairs, r.error.subject) > 1))
  {
    FirstRightConflictSpec(names2, pairs);
    FirstLeftConflictSpec(names1, pairs);
    match FirstRightConflict(names2, pairs)
    case Some(n) => Err(Conflict(n))
    case None =>
      match FirstLeftConflict(names1, pairs)
      case Some(n) => Err(Conflict(n))
      case None => Ok(pairs)
  }

  /** The first right conflict is a name in more than one pair, and there is
      none exactly when every name is in at most one. */
  lemma {:induction false} FirstRightConflictSpec(names: seq<string>, pairs: seq<Pair>)
    ensures FirstRightConflict(names, pairs).Some? ==>
              FirstRightConflict(names, pairs).value in names && CountRight(pairs, FirstRightConflict(names, pairs).value) > 1
    ensures FirstRightConflict(names, pairs).None? <==> forall n :: n in names ==> CountRight(pairs, n) <= 1
  {
    if names != [] {
      FirstRightConflictSpec(names[1..], pairs);
      assert names == [names[0]] + names[1..];
    }
  }

  /** The left-name counterpart of `FirstRightConflictSpec`. */
  lemma {:induction false} FirstLeftConflictSpec(names: seq<string>, pairs: seq<Pair>)
    ensures FirstLeftConflict(names, pairs).Some? ==>
              FirstLeftConflict(names, pairs).value in names && CountLeft(pairs, FirstLeftConflict(names, pairs).value) > 1
    ensures FirstLeftConflict(names, pairs).None? <==> forall n :: n in names ==> CountLeft(pairs, n) <= 1
  {
    if names != [] {
      FirstLeftConflictSpec(names[1..], pairs);
      assert names == [names[0]] + names[1..];
    }
  }

  /** Each name is on its side of at most one pair. */
  ghost predicate OneToOne(pairs: seq<Pair>, names1: seq<string>, names2: seq<string>)
  {
    && (forall n :: n in names2 ==> CountRight(pairs, n) <= 1)
    && (forall n :: n in names1 ==> CountLeft(pairs, n) <= 1)
  }

  /** The sanity check passes exactly on a one-to-one mapping, and when it
      raises it names a subject that is in more than one pair. */
  lemma SanityCheckSpec(pairs: seq<Pair>, names1: seq<string>, names2: seq<string>)
    ensures SanityCheck(pairs, names1, names2).Ok? <==> OneToOne(pairs, names1, names2)
    ensures SanityCheck(pairs, names1, names2).Ok? ==> SanityCheck(pairs, names1, names2).value == pairs
    ensures SanityCheck(pairs, names1, names2).Err? ==>
              exists n :: SanityCheck(pairs, names1, names2) == Err(Conflict(n)) &&
                ((n in names2 && CountRight(pairs, n) > 1) || (n in names1 && CountLeft(pairs, n) > 1))
  {
    FirstRightConflictSpec(names2, pairs);
    FirstLeftConflictSpec(names1, pairs);
  }

  /** The check is skipped with `skip_sanity`. */
  function Checked(pairs: seq<Pair>, names1: seq<string>, names2: seq<string>, skipSanity: bool): Result<seq<Pair>>
  {
    if skipSanity then Ok(pairs) else SanityCheck(pairs, names1, names2)
  }

  /** The mapping part of `merge_two_df` (`returnmerged=False`): the name
      columns of both tables, after their own preparation, give the list of
      pairs, or the exception raised. */
  method MergeTwoMapping(col1: seq<string>, col2: seq<string>, cfg: MatchConfig, skipSanity: bool)
    returns (r: Result<seq<Pair>>)
    ensures var m := Mapped(Unique(col1), Unique(col2), MatcherOf(cfg));
            m.Err? ==> r == Err(m.error)
    ensures var m := Mapped(Unique(col1), Unique(col2), MatcherOf(cfg));
            m.Ok? ==> exists missing ::
              && IsMissingFor(missing, Unused(Unique(col2), m.value))
              && r == Checked(m.value + missing, Unique(col1), Unique(col2), skipSanity)
  {
    var names1 := Unique(col1);
    var names2 := Unique(col2);
    var dmerge := BuildMapping(names1, names2, MatcherOf(cfg));
    if dmerge.Err? {
      return Err(dmerge.error);
    }
    var missing := MissingPairs(Unused(names2, dmerge.value));
    var all := dmerge.value + missing;
    if !skipSanity {
      var n := FirstRightConflict(names2, all);
      if n.Some? {
        return Err(Conflict(n.value));
      }
      n := FirstLeftConflict(names1, all);
      if n.Some? {
        return Err(Conflict(n.value));
      }
    }
    r := Ok(all);
  }

  // ---- what the mapping promises ----

  /** Every left name is on the left of at least one of its row's pairs, and
      no row pair has another left name. */
  lemma RowPairsLeft(c: string, names2: seq<string>, mt: Matcher)
    requires RowPairs(c, names2, mt).Ok?
    ensures var row := RowPairs(c, names2, mt).value;
            row != [] && forall i :: 0 <= i < |row| ==> row[i].left == Some(c)
  {
  }

  /** In fuzzy mode a left name is paired with every right name it accepts,
      in their order, or with `None` alone when it accepts none. */
  lemma FuzzyRow(c: string, names2: seq<string>, mt: Matcher)
    requires !mt.exact && RowPairs(c, names2, mt).Ok?
    ensures var row := RowPairs(c, names2, mt).value;
            var acc := AcceptedIn(c, names2, mt);
            row == if acc == [] then [Pair(Some(c), None)] else PairsWith(c, acc)
  {
    CandidatesSpec(c, names2, mt);
  }

  /** In exact mode nothing can raise and each left name gives exactly one
      pair: `(c, c)` when `c` is a right name, `(c, None)` otherwise. */
  lemma {:induction false} ExactMapping(names1: seq<string>, names2: seq<string>, mt: Matcher)
    requires mt.exact
    ensures Mapped(names1, names2, mt).Ok?
    ensures var m := Mapped(names1, names2, mt).value;
            && |m| == |names1|
            && forall i :: 0 <= i < |names1| ==>
                 m[i] == Pair(Some(names1[i]), if names1[i] in names2 then Some(names1[i]) else None)
  {
    if names1 != [] {
      var p := names1[..|names1| - 1];
      ExactMapping(p, names2, mt);
      forall i | 0 <= i < |p| ensures names1[i] == p[i] { }
    }
  }

  /** With a mode other than 0 or 1 nothing is ever matched. */
  lemma {:induction false} OtherModeMatchesNothing(names1: seq<string>, names2: seq<string>, cfg: MatchConfig)
    requires !IsExactMode(cfg) && cfg.mode != 0 && cfg.mode != 1
    requires Mapped(names1, names2, MatcherOf(cfg)).Ok?
    ensures var m := Mapped(names1, names2, MatcherOf(cfg)).value;
            forall i :: 0 <= i < |m| ==> m[i].right == None
  {
    if names1 != [] {
      var mt := MatcherOf(cfg);
      var p := names1[..|names1| - 1];
      var c := names1[|names1| - 1];
      OtherModeMatchesNothing(p, names2, cfg);
      CandidatesSpec(c, names2, mt);
      var acc := AcceptedIn(c, names2, mt);
      if acc != [] {
        assert acc[0] in acc;
        assert mt.sim(c, acc[0]) == Similar(c, acc[0], cfg);
        SimilarKeysModes(CleanKey(c, cfg), CleanKey(acc[0], cfg), cfg);
      }
    }
  }

  /** Every left name is on the left of some pair of the loop's result. */
  lemma {:induction false} LeftNamesCovered(names1: seq<string>, names2: seq<string>, mt: Matcher)
    requires Mapped(names1, names2, mt).Ok?
    ensures forall n :: n in names1 ==> CountLeft(Mapped(names1, names2, mt).value, n) >= 1
  {
    if names1 != [] {
      var p := names1[..|names1| - 1];
      var c := names1[|names1| - 1];
      var acc := Mapped(p, names2, mt).value;
      var row := RowPairs(c, names2, mt).value;
      LeftNamesCovered(p, names2, mt);
      RowPairsLeft(c, names2, mt);
      forall n | n in names1
        ensures CountLeft(acc + row, n) >= 1
      {
        CountConcat(acc, row, n);
        if n == c {
          CountConcat(row[..|row| - 1], [row[|row| - 1]], n);
          assert row[..|row| - 1] + [row[|row| - 1]] == row;
          assert [row[|row| - 1]][..0] == [];
        } else {
          assert n in p;
        }
      }
    }
  }

  /** Every right name is on the right of some pair once the missing pairs are
      added, and an unused one on exactly one. */
  lemma RightNamesCovered(pairs: seq<Pair>, missing: seq<Pair>, names2: seq<string>)
    requires IsMissingFor(missing, Unused(names2, pairs))
    ensures forall n :: n in names2 ==> CountRight(pairs + missing, n) >= 1
    ensures forall n :: n in Unused(names2, pairs) ==> CountRight(pairs + missing, n) == 1
  {
    forall n | n in names2
      ensures CountRight(pairs + missing, n) >= 1
      ensures n in Unused(names2, pairs) ==> CountRight(pairs + missing, n) == 1
    {
      CountConcat(pairs, missing, n);
      RightsOfCount(pairs, n);
    }
  }

  /** When the sanity check passes, every left name is on the left of exactly
      one pair and every right name on the right of exactly one: the mapping is
      a one-to-one pairing of the names, with `None` for the unpaired. */
  lemma CheckedIsBijection(names1: seq<string>, names2: seq<string>, mt: Matcher, missing: seq<Pair>)
    requires Mapped(names1, names2, mt).Ok?
    requires var m := Mapped(names1, names2, mt).value;
             IsMissingFor(missing, Unused(names2, m)) && SanityCheck(m + missing, names1, names2).Ok?
    ensures var all := Mapped(names1, names2, mt).value + missing;
            && (forall n :: n in names1 ==> CountLeft(all, n) == 1)
            && (forall n :: n in names2 ==> CountRight(all, n) == 1)
  {
    var m := Mapped(names1, names2, mt).value;
    var all := m + missing;
    SanityCheckSpec(all, names1, names2);
    RightNamesCovered(m, missing, names2);
    LeftNamesCovered(names1, names2, mt);
    forall n | n in names1
      ensures CountLeft(all, n) >= 1
    {
      CountConcat(m, missing, n);
    }
  }

  /** In exact mode a right name is on the right of at most one loop pair (the
      one of the left name equal to it), and a left name on the left of one. */
  lemma {:induction false} ExactCounts(names1: seq<string>, names2: seq<string>, mt: Matcher, n: string)
    requires mt.exact && Distinct(names1)
    ensures Mapped(names1, names2, mt).Ok?
    ensures CountRight(Mapped(names1, names2, mt).value, n) == if n in names1 && n in names2 then 1 else 0
    ensures CountLeft(Mapped(names1, names2, mt).value, n) == if n in names1 then 1 else 0
  {
    ExactMapping(names1, names2, mt);
    if names1 != [] {
      var p := names1[..|names1| - 1];
      var c := names1[|names1| - 1];
      ExactCounts(p, names2, mt, n);
      ExactMapping(p, names2, mt);
      assert names1 == p + [c];
      var m := Mapped(names1, names2, mt).value;
      assert m[..|m| - 1] == Mapped(p, names2, mt).value;
      assert c !in p;
    }
  }

  /** In exact mode, with the distinct names `unique()` gives, the sanity
      check always passes. */
  lemma ExactPassesSanity(names1: seq<string>, names2: seq<string>, mt: Matcher, missing: seq<Pair>)
    requires mt.exact && Distinct(names1)
    requires Mapped(names1, names2, mt).Ok?
    requires IsMissingFor(missing, Unused(names2, Mapped(names1, names2, mt).value))
    ensures SanityCheck(Mapped(names1, names2, mt).value + missing, names1, names2).Ok?
  {
    var m := Mapped(names1, names2, mt).value;
    var all := m + missing;
    forall n | n in names2
      ensures CountRight(all, n) <= 1
    {
      ExactCounts(names1, names2, mt, n);
      CountConcat(m, missing, n);
      RightsOfCount(m, n);
    }
    forall n | n in names1
      ensures CountLeft(all, n) <= 1
    {
      ExactCounts(names1, names2, mt, n);
      CountConcat(m, missing, n);
      NoLeftInMissing(missing, n);
    }
    SanityCheckSpec(all, names1, names2);
  }

  /** Merging a table with itself in exact mode pairs every name with itself
      and leaves no right name unused. */
  lemma SelfMergeExact(names: seq<string>, mt: Matcher)
    requires mt.exact
    ensures var m := Mapped(names, names, mt);
            && m.Ok?
            && (forall i :: 0 <= i < |m.value| ==> m.value[i].left.Some? && m.value[i].right == m.value[i].left)
            && Unused(names, m.value) == {}
  {
    ExactMapping(names, names, mt);
    var m := Mapped(names, names, mt).value;
    forall x | x in names
      ensures x in RightsOf(m)
    {
      var i :| 0 <= i < |names| && names[i] == x;
      assert m[i].right.value == x;
    }
  }

  /** In fuzzy mode a pair of two names is in the mapping exactly when the
      left name is a left name, the right name is a non-empty right name, and
      the comparison accepts them. */
  lemma {:induction false} FuzzyMappingPairs(names1: seq<string>, names2: seq<string>, mt: Matcher, c: string, cd: string)
    requires !mt.exact && Mapped(names1, names2, mt).Ok?
    ensures Pair(Some(c), Some(cd)) in Mapped(names1, names2, mt).value <==>
              c in names1 && cd in names2 && Accepted(c, cd, mt)
  {
    if names1 != [] {
      var p, c0 := names1[..|names1| - 1], names1[|names1| - 1];
      assert names1 == p + [c0];
      FuzzyMappingPairs(p, names2, mt, c, cd);
      CandidatesSpec(c0, names2, mt);
      var acc := Mapped(p, names2, mt).value;
      var row := RowPairs(c0, names2, mt).value;
      var cds := AcceptedIn(c0, names2, mt);
      assert Mapped(names1, names2, mt).value == acc + row;
      if Pair(Some(c), Some(cd)) in row {
        var k :| 0 <= k < |row| && row[k] == Pair(Some(c), Some(cd));
      }
      if c == c0 && cd in names2 && Accepted(c, cd, mt) {
        var k :| 0 <= k < |cds| && cds[k] == cd;
        assert row[k] == Pair(Some(c), Some(cd));
      }
    }
  }

  /** The comparison `merge_two_df` uses accepts a non-empty right name
      exactly when the cleaned names pass the combined similarity test. */
  lemma MatcherOfAccepts(cfg: MatchConfig, c: string, cd: string)
    ensures Accepted(c, cd, MatcherOf(cfg)) <==> cd != "" && Similar(c, cd, cfg) == Ok(true)
  {
  }

  /** With both thresholds at or below 0, `merge_two_df` gives each left name
      `c` the pair `(c, c)` when it is a right name and `(c, None)` otherwise,
      and nothing raises. */
  lemma ExactThresholdsMapping(names1: seq<string>, names2: seq<string>, cfg: MatchConfig)
    requires IsExactMode(cfg)
    ensures Mapped(names1, names2, MatcherOf(cfg)).Ok?
    ensures var m := Mapped(names1, names2, MatcherOf(cfg)).value;
            && |m| == |names1|
            && forall i :: 0 <= i < |names1| ==>
                 m[i] == Pair(Some(names1[i]), if names1[i] in names2 then Some(names1[i]) else None)
  {
    ExactMapping(names1, names2, MatcherOf(cfg));
  }

  /** With a positive threshold, a pair of two names is in the mapping of
      `merge_two_df` exactly when the cleaned names pass the combined
      similarity test. */
  lemma FuzzyThresholdsMapping(names1: seq<string>, names2: seq<string>, cfg: MatchConfig, c: string, cd: string)
    requires !IsExactMode(cfg) && Mapped(names1, names2, MatcherOf(cfg)).Ok?
    ensures Pair(Some(c), Some(cd)) in Mapped(names1, names2, MatcherOf(cfg)).value <==>
              c in names1 && cd in names2 && cd != "" && Similar(c, cd, cfg) == Ok(true)
  {
    FuzzyMappingPairs(names1, names2, MatcherOf(cfg), c, cd);
    MatcherOfAccepts(cfg, c, cd);
  }
}
