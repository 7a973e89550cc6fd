# Fuzzy table merge: a Dafny model of `aux_funcs.py`

This project models the name-matching and merge-bookkeeping core of
`csg_fileutil_libs/aux_funcs.py`. That is a toolkit for record linkage between two
tables that identify the same subjects by slightly different names. The
core is `merge_two_df`. It cleans each name, compares every name of the first
table with the names of the second (exactly, or with a character-distance test
and a word-distance test), builds the mapping of pairs, and checks that the
mapping is one-to-one. It then applies the `keep_nulls` policy, remaps the
second table's names, resolves column-name collisions and records the
original names in numbered audit columns. Beside it are the small helpers the
merge and its callers use.

The model has one Dafny module per part of the core:

- `Common`: `Option`, `Result`, and the exceptions the code can raise.
- `Text`: the ASCII character classes, `lower()`, `strip()`, `startswith` and
  `in` on strings.
- `Sorting` and `Values`: a stable insertion sort, and Python 2's total order
  on the cell values the aggregators meet (`None`, numbers, lists, strings).
- `WordDistance`: `distance_jaccard_words` (a method with its two nested loops,
  proved against a specification function) and `distance_jaccard_words_split`.
- `NameCleanup`: `cleanup_name`.
- `MergeMapping`: the mapping loop, the missing pairs and the sanity check of
  `merge_two_df`.
- `Frames`: the column list of a pandas table, as a class with `insert`,
  `del` and `rename`.
- `MergeColumns`: the column-collision renaming and the `_alt<N>` audit
  columns of `merge_two_df`.
- `MergeRemap`: the `keep_nulls` branch and `df_remap_names`.
- `Aggregation`: `uniq`, `sort_and_deduplicate`, `concat_vals` and
  `concat_vals_unique`.
- `ColumnUtils`: `sort_list_a_given_list_b`, `reorder_cols_df`,
  `find_columns_matching`, the field ordering of `save_dict_as_csv` and
  `save_df_as_csv` (a class whose field list grows in place), and
  `date_cleanchar`.

The foreign steps are function parameters:
- the normalized Levenshtein distance;
- `replace_buggy_accents`;
- the byte decoding and `unidecode` transliteration of `cleanup_name`.

Exceptions are the `Err` side of a `Result`.

## Model

| member | source | states |
|---|---|---|
| WordDistance.NonEmptyWords | csg_fileutil_libs/aux_funcs.py:115-116 | `filter(None, …)` keeps at most as many words as it was given |
| WordDistance.NonEmptyWordsMultiset | csg_fileutil_libs/aux_funcs.py:115-116 | the kept words are exactly the input words with every empty string removed, each as often as it occurred |
| WordDistance.FirstMatchSpec | csg_fileutil_libs/aux_funcs.py:121-125 | the inner scan finds the first pool word that matches, and no earlier pool word matches; when it finds none, no pool word matches |
| WordDistance.ScanForMatch | csg_fileutil_libs/aux_funcs.py:121-129 | the inner loop with its `break` returns that first matching index |
| WordDistance.RemoveAtMultiset | csg_fileutil_libs/aux_funcs.py:128 | `del seq2_c[skey]` removes exactly one occurrence of the matched word from the pool |
| WordDistance.DistanceJaccardWords | csg_fileutil_libs/aux_funcs.py:108-141 | the two nested loops compute the greedy distance: the equal count, the count of different words, or the normalized distance, which raises a division by zero when both lists are empty |
| WordDistance.MatchCountBounds | csg_fileutil_libs/aux_funcs.py:119-129 | the greedy match count is at most the length of either list |
| WordDistance.JaccardWordsRange | csg_fileutil_libs/aux_funcs.py:130-141 | the equal count is at most the word count of either list; the count of different words is between 0 and the total; the normalized form raises exactly when both lists hold no word, and otherwise lies in [0, 1] |
| WordDistance.ExactMatchIsEquality | csg_fileutil_libs/aux_funcs.py:124-126 | with no partial matching, no fuzzy distance and no minimum length, two words match exactly when they are equal |
| WordDistance.ExactMatchesIntersection | csg_fileutil_libs/aux_funcs.py:119-129 | in exact mode the greedy count equals the size of the multiset intersection of the two word lists |
| WordDistance.ExactOrderInsensitive | csg_fileutil_libs/aux_funcs.py:108-141 | in exact mode the distance does not depend on the order of the words in either list |
| WordDistance.IdenticalWordLists | csg_fileutil_libs/aux_funcs.py:108-141 | a word list compared with itself has every word equal, no different word, and normalized distance 0 (a division by zero when it is empty) |
| WordDistance.ShortWordsNeverMatch | csg_fileutil_libs/aux_funcs.py:122-123 | with `minlength` set, a word shorter than it never matches: the count is bounded by the long words of each list |
| WordDistance.DeadWeightKeepsDistancePositive | csg_fileutil_libs/aux_funcs.py:108-141 | a word shorter than `minlength` is dead weight: it still counts in the total, so the normalized distance stays strictly above 0 |
| WordDistance.SplitWordsProperties | csg_fileutil_libs/aux_funcs.py:143-151 | splitting on runs of whitespace, `_`, `,`, `.` and `/` gives pieces free of separators that, joined, are the text with its separators removed; its non-empty pieces are exactly the maximal runs of word characters, so `-` never splits a word |
| WordDistance.JaccardWordsSplitRuns | csg_fileutil_libs/aux_funcs.py:143-151 | the word distance of two texts is the word distance of their maximal word runs: the empty pieces `re.split` leaves change nothing |
| NameCleanup.MaskNonletters | csg_fileutil_libs/aux_funcs.py:221 | every character that is not an ASCII letter, digit or `-` becomes a space, and the others are kept in place |
| NameCleanup.ReplaceAbsent | csg_fileutil_libs/aux_funcs.py:221 | `str.replace` of a pattern that does not occur leaves the text unchanged |
| NameCleanup.SquashNoRepeat | csg_fileutil_libs/aux_funcs.py:221 | after `\s+` → space and `\-+` → `-`, no two whitespace characters and no two dashes are adjacent |
| NameCleanup.CleanupName | csg_fileutil_libs/aux_funcs.py:216-222 | with both options on, the result has only lower-case letters, digits, `-` and single inner spaces, and no space at either end, whatever the decoder and transliterator do |
| NameCleanup.CleanNonlettersUnchanged | csg_fileutil_libs/aux_funcs.py:220-221 | the non-letter clean-up leaves a text of that shape unchanged |
| NameCleanup.CleanupNameOfClean | csg_fileutil_libs/aux_funcs.py:216-222 | a name already of that shape is returned unchanged when decoding and transliteration fix ASCII text |
| NameCleanup.CleanupNameIdempotent | csg_fileutil_libs/aux_funcs.py:216-222 | cleaning a cleaned name gives it back |
| MergeMapping.Unique | csg_fileutil_libs/aux_funcs.py:313-314 | `unique()` gives distinct names, and exactly the names of the column |
| MergeMapping.SimilarKeysRaise | csg_fileutil_libs/aux_funcs.py:333-335 | the fuzzy comparison raises exactly when neither cleaned name splits into a non-empty word, and then it is a division by zero |
| MergeMapping.EmptyCleanNamesRaise | csg_fileutil_libs/aux_funcs.py:329-335 | two names that both clean to the empty text make the comparison raise |
| MergeMapping.SimilarKeysModes | csg_fileutil_libs/aux_funcs.py:333-337 | mode 0 accepts when either test passes, mode 1 when both pass, and any other mode never accepts |
| MergeMapping.MatcherOfAccepts | csg_fileutil_libs/aux_funcs.py:326-337 | the comparison `merge_two_df` uses accepts a pair exactly when the right name is non-empty and the cleaned names pass the mode's tests |
| MergeMapping.ExactThresholdsMapping | csg_fileutil_libs/aux_funcs.py:319-323 | with both thresholds at or below 0 the loop compares by equality: nothing raises, and each left name `c` gives `(c, c)` when it is a right name and `(c, None)` otherwise |
| MergeMapping.FuzzyThresholdsMapping | csg_fileutil_libs/aux_funcs.py:324-337 | with a threshold above 0, when the loop does not raise, `(c, cd)` is a pair exactly when `c` is a left name, `cd` a non-empty right name, and the cleaned names pass the mode's distance tests |
| MergeMapping.FuzzyMappingPairs | csg_fileutil_libs/aux_funcs.py:324-341 | for any comparison in fuzzy mode, the complete pairs of the mapping are exactly the accepted pairs of a left and a right name |
| MergeMapping.CandidatesSpec | csg_fileutil_libs/aux_funcs.py:325-339 | when the scan of the second table does not raise, the names a left name is paired with are exactly the non-empty right names it accepts, in their order |
| MergeMapping.CandidatesRaise | csg_fileutil_libs/aux_funcs.py:325-335 | the scan raises exactly when some non-empty right name makes the comparison raise |
| MergeMapping.MatchRow | csg_fileutil_libs/aux_funcs.py:317-341 | the fuzzy inner loop gives one left name's pairs, or `(c, None)` when nothing matched, or the exception raised |
| MergeMapping.BuildMapping | csg_fileutil_libs/aux_funcs.py:317-341 | the outer loop gives the mapping of all left names in order, or the first exception |
| MergeMapping.MissingPairs | csg_fileutil_libs/aux_funcs.py:343-344 | the missing pairs are `(None, x)` once for each right name never taken, and nothing else |
| MergeMapping.SanityCheckSpec | csg_fileutil_libs/aux_funcs.py:348-358 | the sanity check passes exactly when every name is on its side of at most one pair; when it raises, it names a subject with two or more pairs |
| MergeMapping.SanityCheck | csg_fileutil_libs/aux_funcs.py:348-358 | when the check passes it returns the mapping unchanged; when it raises, the subject it names is on its side of two or more pairs |
| MergeMapping.MergeTwoMapping | csg_fileutil_libs/aux_funcs.py:312-358 | the mapping part of `merge_two_df` returns the loop's pairs plus the missing pairs, checked unless `skip_sanity`, or the exception raised |
| MergeMapping.RowPairsLeft | csg_fileutil_libs/aux_funcs.py:339-341 | each left name gives at least one pair, and all its pairs carry it on the left |
| MergeMapping.FuzzyRow | csg_fileutil_libs/aux_funcs.py:324-341 | in fuzzy mode a left name is paired with every right name it accepts, not only the first, or with `None` alone |
| MergeMapping.ExactMapping | csg_fileutil_libs/aux_funcs.py:317-341 | in exact mode nothing raises, and each left name gives exactly `(c, c)` when it is a right name and `(c, None)` otherwise |
| MergeMapping.OtherModeMatchesNothing | csg_fileutil_libs/aux_funcs.py:335 | with a fuzzy threshold and a mode other than 0 or 1, every left name is paired with `None` |
| MergeMapping.LeftNamesCovered | csg_fileutil_libs/aux_funcs.py:317-341 | every left name is on the left of some pair |
| MergeMapping.RightNamesCovered | csg_fileutil_libs/aux_funcs.py:343-344 | after the missing pairs are added, every right name is on the right of some pair, and an unused one of exactly one |
| MergeMapping.CheckedIsBijection | csg_fileutil_libs/aux_funcs.py:343-358 | when the sanity check passes, each left name and each right name is in exactly one pair |
| MergeMapping.ExactCounts | csg_fileutil_libs/aux_funcs.py:319-323 | in exact mode a left name has one pair, and a right name has one pair if it is also a left name and none otherwise |
| MergeMapping.ExactPassesSanity | csg_fileutil_libs/aux_funcs.py:319-358 | in exact mode, on the distinct names `unique()` gives, the sanity check always passes |
| MergeMapping.SelfMergeExact | csg_fileutil_libs/aux_funcs.py:312-344 | merging a table with itself in exact mode pairs every name with itself and leaves no right name unused |
| Frames.Frame.Insert | csg_fileutil_libs/aux_funcs.py:423-424 | `insert` puts a new column at the given position and keeps the others in order; a name already present raises and changes nothing |
| Frames.Frame.Delete | csg_fileutil_libs/aux_funcs.py:427-428 | `del` removes the column, and a missing column raises `KeyError` |
| Frames.Frame.Rename | csg_fileutil_libs/aux_funcs.py:298-299 | `rename` renames the mapped columns in place and keeps the rest |
| Frames.RenamedNothing | csg_fileutil_libs/aux_funcs.py:298-299 | renaming with a mapping that names no column changes nothing |
| MergeColumns.PrependColumns | csg_fileutil_libs/aux_funcs.py:284-292 | the `prependcols` renaming prefixes every column except the key |
| MergeColumns.PrepareColumns | csg_fileutil_libs/aux_funcs.py:284-299 | both tables get the `prependcols` renaming, then the `a.`/`b.` renaming of their common non-key columns |
| MergeColumns.ConflictsResolved | csg_fileutil_libs/aux_funcs.py:294-299 | when no first-table column starts with `b.` and no second-table column starts with `a.`, the renamed tables share no column but the key |
| MergeColumns.RenamedNamesDiffer | csg_fileutil_libs/aux_funcs.py:298-299 | under the same condition, a renamed name of one table never equals a name of the other |
| MergeColumns.RenameCanCollide | csg_fileutil_libs/aux_funcs.py:294-299 | without that condition the renaming can leave a shared column: `x` and `b.x` in the first table and `x` in the second |
| MergeColumns.PrependAvoidsConflicts | csg_fileutil_libs/aux_funcs.py:284-299 | two prefixes with different first characters leave no shared column but the key |
| MergeColumns.FirstFreeAlt | csg_fileutil_libs/aux_funcs.py:419-421 | the number found is within `1..1000`, passes the probe, and is the first that does; `None` means no number up to 1000 passes |
| MergeColumns.AddAltColumns | csg_fileutil_libs/aux_funcs.py:419-431 | the audit loop turns `_orig` and `_orig2` into `_alt<N>_orig` and `_alt<N>_orig2` at positions 1 and 2, or raises as `insert` does |
| MergeColumns.AltNotOrig | csg_fileutil_libs/aux_funcs.py:419-428 | an audit column is never one of the two backup columns it replaces |
| MergeColumns.AsWrittenChainedMergeRaises | csg_fileutil_libs/aux_funcs.py:419-424 | as written, a table that already holds `<col>_alt1_orig` and no `<col>_alt1` makes the `insert` raise |
| MergeColumns.CorrectedAltColumnsFresh | csg_fileutil_libs/aux_funcs.py:419-431 | with the probe on the inserted names, the loop never raises and its new columns are fresh |
| MergeColumns.CorrectedNextNumber | csg_fileutil_libs/aux_funcs.py:419-421 | after `k` chained merges the corrected probe takes number `k + 1` |
| MergeRemap.RecopyLeft | csg_fileutil_libs/aux_funcs.py:367 | no pair is lost, right names are unchanged, a left name that was present is kept, and every pair with a right name ends with a left name |
| MergeRemap.RecopyRightAsWritten | csg_fileutil_libs/aux_funcs.py:368 | no pair is lost, a pair with a left name is unchanged, and every pair with a right name then has a left name |
| MergeRemap.SecondRecopyIsDead | csg_fileutil_libs/aux_funcs.py:367-368 | the second recopy, as written, changes nothing, so a pair with no right name keeps `None` on the right |
| MergeRemap.DropNullsCounts | csg_fileutil_libs/aux_funcs.py:369-374 | `dropna` keeps each pair without a null in the subset as often as it occurred, and no other |
| MergeRemap.KeepTrueFillsLeft | csg_fileutil_libs/aux_funcs.py:365-368 | with `keep_nulls=True` no pair is lost, and every pair then has a left name |
| MergeRemap.KeepSubsets | csg_fileutil_libs/aux_funcs.py:369-374 | `False` keeps the complete pairs, `1` those with a right name, `2` those with a left name, and any other integer keeps all |
| MergeRemap.ApplyKeepNulls | csg_fileutil_libs/aux_funcs.py:365-374 | the branch never adds pairs: `True` keeps the length, the right names and every present left name; the other settings keep only pairs of the mapping |
| MergeRemap.RemapTable | csg_fileutil_libs/aux_funcs.py:518 | every right value of the mapping is a key of the dictionary, and each key maps to the left value of a pair it is in |
| MergeRemap.Replace | csg_fileutil_libs/aux_funcs.py:515-525 | a truthy `keep_nulls` maps a name to its entry or to null; otherwise a name without an entry raises `KeyError`, a non-null entry replaces the name, and a null entry keeps the name |
| MergeRemap.RemapNames | csg_fileutil_libs/aux_funcs.py:513-526 | the column is replaced name by name, or the first `KeyError` is raised |
| MergeRemap.RemapNamesRaises | csg_fileutil_libs/aux_funcs.py:513-526 | the remapping raises exactly when `keep_nulls` is falsy and some name has no entry |
| MergeRemap.KeepAllRemap | csg_fileutil_libs/aux_funcs.py:365-376 | with `keep_nulls=True`, every subject of the second table keeps a name: its partner, or its own name when it has none |
| MergeRemap.KeepIntRemap | csg_fileutil_libs/aux_funcs.py:365-376 | with a non-zero integer nothing raises, a subject becomes null or a partner, and an unmatched subject becomes null |
| MergeRemap.KeepIntKeepsMatched | csg_fileutil_libs/aux_funcs.py:365-376 | with a non-zero integer, when no matched subject also has a `(None, x)` pair, every matched subject becomes one of its partners and never null |
| MergeRemap.NoNullPairForMatched | csg_fileutil_libs/aux_funcs.py:343-344 | the missing pairs never hold a subject some left name matched, so a matched subject has no `(None, x)` pair |
| MergeRemap.MappedLeftsSome | csg_fileutil_libs/aux_funcs.py:317-341 | every pair the loop builds has a left name |
| MergeRemap.KeepFalseRemap | csg_fileutil_libs/aux_funcs.py:365-376 | with `keep_nulls=False` the remapping succeeds exactly when every subject is matched, and each then becomes its partner |
| MergeRemap.AsWrittenUnmatchedRaises | csg_fileutil_libs/aux_funcs.py:513-526 | as written, one unmatched subject of the second table makes `keep_nulls=False` raise `KeyError` |
| MergeRemap.RemapNamesCorrected | csg_fileutil_libs/aux_funcs.py:513-526 | with the correction a falsy `keep_nulls` never raises: a name without an entry gets no name, a non-null entry replaces the name, and a null entry keeps it |
| MergeRemap.CorrectedKeepFalseRemap | csg_fileutil_libs/aux_funcs.py:513-526 | with the correction, `keep_nulls=False` never raises: a matched subject becomes one of its partners, and an unmatched one gets no name |
| Aggregation.Uniq | csg_fileutil_libs/aux_funcs.py:476-483 | the generator loop drops each item equal to the one before it |
| Aggregation.DedupOfSorted | csg_fileutil_libs/aux_funcs.py:476-488 | on a descending sorted list, `uniq` gives a strictly descending list of exactly the same values |
| Aggregation.SortAndDeduplicate | csg_fileutil_libs/aux_funcs.py:485-488 | the result is strictly descending and holds exactly the values of the input |
| Aggregation.ConcatValsUnique | csg_fileutil_libs/aux_funcs.py:461-474 | no non-empty string or list gives `None`, one distinct such value gives that value, and several give the list of them |
| Aggregation.DistinctSized | csg_fileutil_libs/aux_funcs.py:461-474 | the list built has one entry per distinct non-empty string or list |
| Aggregation.ConcatVals | csg_fileutil_libs/aux_funcs.py:446-459 | a non-empty list of equal values collapses to that value; otherwise a list holding no non-empty string or list gives `None`, and any other list is returned whole |
| Aggregation.OneDistinctValue | csg_fileutil_libs/aux_funcs.py:446-452 | `sort_and_deduplicate` has length 1 exactly when the list is non-empty and all its values are equal |
| Aggregation.NumbersCollapseUnique | csg_fileutil_libs/aux_funcs.py:461-474 | a column of numbers and nulls aggregates to `None` under `concat_vals_unique` |
| Aggregation.NumbersCollapse | csg_fileutil_libs/aux_funcs.py:446-459 | under `concat_vals` such a column keeps its value when constant and becomes `None` otherwise |
| Sorting.SortSorted | csg_fileutil_libs/aux_funcs.py:487 | the sort orders its input by any strict order |
| Sorting.SortedPermutationUnique | csg_fileutil_libs/aux_funcs.py:487 | under a total strict order there is only one ordered permutation of a list |
| Values.LessTotal | csg_fileutil_libs/aux_funcs.py:487 | Python 2's order on the cell values is total: of two different values one is smaller |
| Values.LessTransitive | csg_fileutil_libs/aux_funcs.py:487 | that order is transitive |
| ColumnUtils.SortGivenList | csg_fileutil_libs/aux_funcs.py:182-183 | raises `ValueError` exactly when some item is absent from the reference list; otherwise returns a permutation ordered by first position in it |
| ColumnUtils.SortGivenListUnique | csg_fileutil_libs/aux_funcs.py:182-183 | any permutation of the items ordered by position in the reference list is the result: the order is unique |
| ColumnUtils.ReorderColumns | csg_fileutil_libs/aux_funcs.py:506-511 | the `remove` loop gives the requested columns followed by the remaining ones, or raises `ValueError` |
| ColumnUtils.RemoveEachSpec | csg_fileutil_libs/aux_funcs.py:509-510 | the removals succeed exactly when every requested column is present as often as requested, and then remove just those occurrences |
| ColumnUtils.ReorderedSpec | csg_fileutil_libs/aux_funcs.py:506-511 | the reordering succeeds under the same condition, starts with the requested columns and is a permutation of the table's columns |
| ColumnUtils.LoweredPatterns | csg_fileutil_libs/aux_funcs.py:496-498 | one pattern or a list of them gives one lowered pattern per given pattern, free of upper case and equal to it once case is ignored |
| ColumnUtils.FindColumnsMatching | csg_fileutil_libs/aux_funcs.py:494-504 | the loop returns, in table order, the columns whose lowered name contains (or starts with) one of the lowered patterns |
| ColumnUtils.MatchingColumns | csg_fileutil_libs/aux_funcs.py:494-504 | a column is in the result exactly when it matches |
| ColumnUtils.MatchIgnoresCase | csg_fileutil_libs/aux_funcs.py:497-501 | for a single pattern, the match does not depend on the case of the pattern or of the column name |
| ColumnUtils.PrefixMatchIsMatch | csg_fileutil_libs/aux_funcs.py:500-501 | a column that matches by prefix also matches by containment |
| ColumnUtils.FieldList.AddMissing | csg_fileutil_libs/aux_funcs.py:89-95 | the loop appends, in sorted order, each column not in the field list given, and nothing else |
| ColumnUtils.FieldList.AddMissingFromRecords | csg_fileutil_libs/aux_funcs.py:55-66 | the fields of the first record are added the same way, and no record raises `IndexError` |
| ColumnUtils.FieldOrderSpec | csg_fileutil_libs/aux_funcs.py:62-66 | the given order is kept as a prefix, every key appears, nothing else is added, and the added fields are new and sorted |
| ColumnUtils.FieldOrderIdempotent | csg_fileutil_libs/aux_funcs.py:89-95 | completing an already completed field list changes nothing |
| ColumnUtils.DateCleanCharNone | csg_fileutil_libs/aux_funcs.py:719-729 | the result is `None` exactly when the text holds no date character |
| ColumnUtils.DateCleanChar | csg_fileutil_libs/aux_funcs.py:719-729 | a result other than `None` is non-empty, holds only date characters and `-`, and starts and ends with a date character, and its date runs are exactly those of the lower-cased input |
| ColumnUtils.JoinDashShape | csg_fileutil_libs/aux_funcs.py:719-729 | joining runs of date characters with `-` gives a non-empty text of date characters and dashes that starts and ends with a date character |
| ColumnUtils.DateRunsOfJoin | csg_fileutil_libs/aux_funcs.py:722-724 | the date runs of a joined result are the runs it was joined from |
| ColumnUtils.DateCleanCharIdempotent | csg_fileutil_libs/aux_funcs.py:719-729 | cleaning a date that did not give `None` a second time gives the same text |
| ColumnUtils.LowerKeepsDateChars | csg_fileutil_libs/aux_funcs.py:721-722 | lower-casing keeps exactly the date characters |

## Left out

- File I/O: opening, writing and sorting the rows of the CSV files, and `recwalk`'s directory walk.
- pandas plumbing that holds no logic of the core: `dropna` on rows, `pd.merge`, `groupby`, `combine_first`, `fillna`, `astype`, the multi-column `keycol` path and its datetime conversion.
- The normalized Levenshtein distance, `replace_buggy_accents`, byte decoding and `unidecode` are function parameters; `tqdm` is left out.
- `date_clean`, `date_fr2en` and `convert_to_datetype` rely on dateutil parsing and are left out.
- `cleanup_name_customregex`, `df_to_unicode`, `disambiguate_names`, `compute_best_diag`, `remove_strings_from_df` and `concat_strings` are not part of this model.
- `keep_lastname_only` and the `df_literal_eval` extraction of the first name of a list-valued cell are not modelled: the names reach the mapping as given.
- Floating-point values are exact reals; NaN is `None`.
- `Text.Lower`, `Text.Strip` and the `\s`/`\d` classes are ASCII only: `re.UNICODE` and non-ASCII case folding are not modelled. A custom `wordsplit_pattern` is not modelled.
- Python set and dictionary order: the order of the missing pairs and of `d.values()` is left unspecified; MissingPairs only states which pairs it returns.
- `ColumnUtils.DateCleanChar` models string input only; non-string values are returned unchanged by the code.
- MergeColumns.AltColumns, MergeColumns.AddAltColumns: require the two backup columns `_orig` and `_orig2`, which `merge_two_df` always creates first.
- NameCleanup.CleanupName: with `normalize=False` or `clean_nonletters=False` the function is modelled, but the shape of its result is not stated.
- MergeMapping.MatchRow, MergeMapping.BuildMapping: take an abstract comparison (`Matcher`), which `MatcherOf` instantiates with the one `merge_two_df` uses; ExactThresholdsMapping and FuzzyThresholdsMapping state the mapping for that comparison.
- ColumnUtils.ReorderColumns: the order of the columns left after the requested ones is not stated, only that they are the rest of the table's columns.
- ColumnUtils.FieldList.AddMissingFromRecords: models the list form of `save_dict_as_csv`; the dict form's first record depends on dictionary order.
- `concat_vals_unique` drops numbers, because the code keeps only values with a length; the model follows the code, although the general description of the helper reads as if any non-null value were kept.
- Values with no mapping: the code raises `KeyError` when `keep_nulls=False`; the model keeps that behaviour as written and, as the corrected half of the second finding, stops the `KeyError` and gives such a name null, as `Series.map` does for `keep_nulls=1` or `2`.
- What the merged table then holds is not modelled: the outer `pd.merge` keeps every subject of the first table, and `df_concatenate_all_but` fills null names with `''`, so the remapped names are the only part of the merge this model states.

## Findings

| source | as written | input that shows it | evidently intended | confidence | as-written member | corrected member |
|---|---|---|---|---|---|---|
| csg_fileutil_libs/aux_funcs.py:419-424 | the free-number probe tests `<col>_alt<N>`, but the loop inserts `<col>_alt<N>_orig` and `<col>_alt<N>_orig2`, so the probe never sees the columns it creates | a merged table that already holds `name_alt1_orig` (from an earlier merge) and no `name_alt1`: `insert` raises `ValueError` on the duplicate column | probe the inserted names, so a chained merge takes the next free number | high, not executed | MergeColumns.AsWrittenChainedMergeRaises | MergeColumns.CorrectedAltColumnsFresh |
| csg_fileutil_libs/aux_funcs.py:520-525 | with `keep_nulls=False`, the mapping first drops every pair with a null, then `replace_nonnull_df` indexes the dictionary with each name of the second table, so an unmatched name raises `KeyError` | second table names `["b"]`, mapping `[("a", None), (None, "b")]`, `keep_nulls=False` | the `KeyError` stops, and an unmatched second-table name gets null, as `Series.map` gives it for `keep_nulls=1` or `2` | medium, not executed | MergeRemap.AsWrittenUnmatchedRaises | MergeRemap.CorrectedKeepFalseRemap |
