/** `distance_jaccard_words` and `distance_jaccard_words_split`: a greedy,
    first-fit matching of the words of one list against the words of another. */
module WordDistance {
  import opened Common
  import opened Text

  /** The `norm` argument: `None` gives the number of matched words, `False`
      the number of unmatched words, `True` the normalized distance. */
  datatype Norm = CountEqual | CountDifferent | Normalized

  /** How two words are compared. `nlev` is the normalized Levenshtein distance
      of the external `distance` module, left uninterpreted. */
  datatype WordTest = WordTest(partial: bool, dist: real, minlength: int, nlev: (string, string) -> real)

  /** The comparison of plain equality only: `partial=False, dist=0, minlength=0`. */
  predicate IsExact(t: WordTest) { !t.partial && t.dist == 0.0 && t.minlength == 0 }

  /** `filter(None, words)`: the empty strings are dropped. */
  function NonEmptyWords(words: seq<string>): (r: seq<string>)
    ensures |r| <= |words|
  {
    if words == [] then []
    else (if words[0] != "" then [words[0]] else []) + NonEmptyWords(words[1..])
  }

  /** A word shorter than a non-zero `minlength` is skipped; otherwise the words
      match when equal, when one starts with the other (`partial`), or when
      their character distance is at most a non-zero `dist`. */
  predicate WordsMatch(s1: string, s2: string, t: WordTest)
  {
    && !(t.minlength != 0 && (|s1| < t.minlength || |s2| < t.minlength))
    && (|| s1 == s2
        || (t.partial && (StartsWith(s1, s2) || StartsWith(s2, s1)))
        || (t.dist != 0.0 && t.nlev(s1, s2) <= t.dist))
  }

  /** The position of the first word of `pool`, from position `k` on, that `s1` matches. */
  function FirstMatchFrom(s1: string, pool: seq<string>, k: nat, t: WordTest): (r: Option<nat>)
    ensures r.Some? ==> k <= r.value < |pool|
    decreases |pool| - k
  {
    if k >= |pool| then None
    else if WordsMatch(s1, pool[k], t) then Some(k)
    else FirstMatchFrom(s1, pool, k + 1, t)
  }

  /** The position of the first word of `pool` that `s1` matches. */
  function FirstMatch(s1: string, pool: seq<string>, t: WordTest): (r: Option<nat>)
    ensures r.Some? ==> r.value < |pool|
  {
    FirstMatchFrom(s1, pool, 0, t)
  }

  /** The scan finds a matching position, and none before it; or it finds none
      because no position from `k` on matches. */
  lemma {:induction false} FirstMatchFromSpec(s1: string, pool: seq<string>, k: nat, t: WordTest)
    ensures var r := FirstMatchFrom(s1, pool, k, t);
            && (r.Some? ==> k <= r.value < |pool| && WordsMatch(s1, pool[r.value], t))
            && (r.Some? ==> forall i :: k <= i < r.value ==> !WordsMatch(s1, pool[i], t))
            && (r.None? ==> forall i :: k <= i < |pool| ==> !WordsMatch(s1, pool[i], t))
    decreases |pool| - k
  {
    if k < |pool| && !WordsMatch(s1, pool[k], t) {
      FirstMatchFromSpec(s1, pool, k + 1, t);
    }
  }

  lemma FirstMatchSpec(s1: string, pool: seq<string>, t: WordTest)
    ensures var r := FirstMatch(s1, pool, t);
            && (r.Some? ==> r.value < |pool| && WordsMatch(s1, pool[r.value], t))
            && (r.Some? ==> forall i :: 0 <= i < r.value ==> !WordsMatch(s1, pool[i], t))
            && (r.None? ==> forall i :: 0 <= i < |pool| ==> !WordsMatch(s1, pool[i], t))
  {
    FirstMatchFromSpec(s1, pool, 0, t);
  }

  function RemoveAt(pool: seq<string>, j: nat): (r: seq<string>)
    requires j < |pool|
    ensures |r| == |pool| - 1
  {
    pool[..j] + pool[j + 1..]
  }

  /** Deleting the matched word removes one occurrence of it and nothing else. */
  lemma RemoveAtMultiset(pool: seq<string>, j: nat)
    requires j < |pool|
    ensures multiset(RemoveAt(pool, j)) == multiset(pool) - multiset{pool[j]}
  {
    assert pool == pool[..j] + [pool[j]] + pool[j + 1..];
  }

  /** The number of matches the scan finds: each word of `words`, in order, takes
      the first still-unused word of `pool` it matches, which is then used up. */
  function GreedyMatches(words: seq<string>, pool: seq<string>, t: WordTest): nat
  {
    if words == [] then 0
    else match FirstMatch(words[0], pool, t)
      case None => GreedyMatches(words[1..], pool, t)
      case Some(j) => 1 + GreedyMatches(words[1..], RemoveAt(pool, j), t)
  }

  /** The two counters of `distance_jaccard_words`: the matches `eq` and the
      number `total` of words in both filtered lists. */
  datatype Tally = Tally(eq: nat, total: nat)

  function Counts(seq1: seq<string>, seq2: seq<string>, t: WordTest): Tally
  {
    var w1 := NonEmptyWords(seq1);
    var w2 := NonEmptyWords(seq2);
    Tally(GreedyMatches(w1, w2, t), |w1| + |w2|)
  }

  /** The final step of `distance_jaccard_words`, from its two counters. */
  function Outcome(c: Tally, norm: Norm): Result<real>
  {
    match norm
    case CountEqual => Ok(c.eq as real)
    case CountDifferent => Ok((c.total - 2 * c.eq) as real)
    case Normalized =>
      if c.total == 0 then Err(ZeroDivision) else Ok(1.0 - (2 * c.eq) as real / c.total as real)
  }

  /** The value `distance_jaccard_words` returns, or the exception it raises. */
  function JaccardWords(seq1: seq<string>, seq2: seq<string>, t: WordTest, norm: Norm): Result<real>
  {
    Outcome(Counts(seq1, seq2, t), norm)
  }

  /** The inner scan of `distance_jaccard_words`: the first position of `pool`
      whose word `s1` matches, skipping words too short to compare. */
  method ScanForMatch(s1: string, pool: seq<string>, t: WordTest) returns (found: Option<nat>)
    ensures found == FirstMatch(s1, pool, t)
  {
    var skey := 0;
    while skey < |pool|
      invariant 0 <= skey <= |pool|
      invariant FirstMatchFrom(s1, pool, skey, t) == FirstMatch(s1, pool, t)
    {
      var s2 := pool[skey];
      if t.minlength != 0 && (|s1| < t.minlength || |s2| < t.minlength) {
        skey := skey + 1;
        continue;
      }
      if s1 == s2 || (t.partial && (StartsWith(s1, s2) || StartsWith(s2, s1))) ||
         (t.dist != 0.0 && t.nlev(s1, s2) <= t.dist) {
        return Some(skey);
      }
      skey := skey + 1;
    }
    return None;
  }

  /** `distance_jaccard_words`: for each word of the first list, scan the
      remaining words of the second, and on the first match count it and delete
      the matched word. */
  method DistanceJaccardWords(seq1: seq<string>, seq2: seq<string>, t: WordTest, norm: Norm)
    returns (r: Result<real>)
    ensures r == JaccardWords(seq1, seq2, t, norm)
  {
    var seq1c := NonEmptyWords(seq1);
    var seq2c := NonEmptyWords(seq2);
    var countTotal := |seq1c| + |seq2c|;
    var countEq := 0;
    for i := 0 to |seq1c|
      invariant countEq + GreedyMatches(seq1c[i..], seq2c, t) == GreedyMatches(seq1c, NonEmptyWords(seq2), t)
    {
      assert seq1c[i..][0] == seq1c[i] && seq1c[i..][1..] == seq1c[i + 1..];
      var found := ScanForMatch(seq1c[i], seq2c, t);
      if found.Some? {
        countEq := countEq + 1;
        seq2c := RemoveAt(seq2c, found.value);
      }
    }
    assert Counts(seq1, seq2, t) == Tally(countEq, countTotal);
    match norm
    case CountEqual =>
      r := Ok(countEq as real);
    case CountDifferent =>
      countEq := countEq * 2;
      r := Ok((countTotal - countEq) as real);
    case Normalized =>
      countEq := countEq * 2;
      if countTotal == 0 {
        r := Err(ZeroDivision);
      } else {
        r := Ok(1.0 - countEq as real / countTotal as real);
      }
  }

  /** Each match uses one word of each list, so the count is bounded by both. */
  lemma {:induction false} MatchCountBounds(words: seq<string>, pool: seq<string>, t: WordTest)
    ensures GreedyMatches(words, pool, t) <= |words|
    ensures GreedyMatches(words, pool, t) <= |pool|
  {
    if words != [] {
      match FirstMatch(words[0], pool, t)
      case None => MatchCountBounds(words[1..], pool, t);
      case Some(j) => MatchCountBounds(words[1..], RemoveAt(pool, j), t);
    }
  }

  lemma OutcomeRange(c: Tally, n1: nat, n2: nat, norm: Norm)
    requires c.eq <= n1 && c.eq <= n2 && c.total == n1 + n2
    ensures var r := Outcome(c, norm);
            && (norm == CountEqual ==> r.Ok? && 0.0 <= r.value && r.value <= n1 as real && r.value <= n2 as real)
            && (norm == CountDifferent ==> r.Ok? && 0.0 <= r.value <= (n1 + n2) as real)
            && (norm == Normalized ==> (r == Err(ZeroDivision) <==> n1 + n2 == 0))
            && (norm == Normalized && r.Ok? ==> 0.0 <= r.value <= 1.0)
  {
    if norm == Normalized && n1 + n2 > 0 {
      DivAtMostOne((2 * c.eq) as real, (n1 + n2) as real);
    }
  }

  lemma DivAtMostOne(a: real, b: real)
    requires 0.0 <= a <= b && b > 0.0
    ensures 0.0 <= a / b <= 1.0
  {
    assert a / b * b == a;
  }

  lemma DivSelf(a: real)
    requires a > 0.0
    ensures a / a == 1.0
  {
  }

  lemma DivBelowOne(a: real, b: real)
    requires 0.0 <= a < b
    ensures a / b < 1.0
  {
    assert a / b * b == a;
  }

  /** The three return modes: the match count lies between 0 and the smaller
      filtered list, the mismatch count is non-negative, and the normalized
      distance lies in [0, 1] or raises a division by zero exactly when both
      filtered lists are empty. */
  lemma JaccardWordsRange(seq1: seq<string>, seq2: seq<string>, t: WordTest, norm: Norm)
    ensures var r := JaccardWords(seq1, seq2, t, norm);
            var n1, n2 := |NonEmptyWords(seq1)|, |NonEmptyWords(seq2)|;
            && (norm == CountEqual ==> r.Ok? && 0.0 <= r.value && r.value <= n1 as real && r.value <= n2 as real)
            && (norm == CountDifferent ==> r.Ok? && 0.0 <= r.value <= (n1 + n2) as real)
            && (norm == Normalized ==> (r == Err(ZeroDivision) <==> n1 + n2 == 0))
            && (norm == Normalized && r.Ok? ==> 0.0 <= r.value <= 1.0)
  {
    var w1, w2 := NonEmptyWords(seq1), NonEmptyWords(seq2);
    MatchCountBounds(w1, w2, t);
    OutcomeRange(Counts(seq1, seq2, t), |w1|, |w2|, norm);
  }

  lemma ExactMatchIsEquality(s1: string, s2: string, t: WordTest)
    requires IsExact(t)
    ensures WordsMatch(s1, s2, t) <==> s1 == s2
  {
  }

  lemma ExactFirstMatch(x: string, pool: seq<string>, t: WordTest)
    requires IsExact(t)
    ensures FirstMatch(x, pool, t).Some? <==> x in pool
    ensures FirstMatch(x, pool, t).Some? ==> pool[FirstMatch(x, pool, t).value] == x
  {
    FirstMatchSpec(x, pool, t);
    if x in pool {
      var i :| 0 <= i < |pool| && pool[i] == x;
      assert WordsMatch(x, pool[i], t);
    }
  }

  lemma IntersectionTake(x: string, A: multiset<string>, B: multiset<string>)
    requires x in B
    ensures |(multiset{x} + A) * B| == 1 + |A * (B - multiset{x})|
  {
    var lhs := (multiset{x} + A) * B;
    var rhs := multiset{x} + A * (B - multiset{x});
    forall y ensures lhs[y] == rhs[y] {
      if y == x {
        assert B[x] >= 1;
      }
    }
    assert lhs == rhs;
  }

  lemma IntersectionSkip(x: string, A: multiset<string>, B: multiset<string>)
    requires x !in B
    ensures (multiset{x} + A) * B == A * B
  {
    forall y ensures ((multiset{x} + A) * B)[y] == (A * B)[y] {
    }
  }

  /** In exact mode the greedy scan finds as many matches as the two word lists
      have in common, counted with multiplicity. */
  lemma {:induction false} ExactMatchesIntersection(words: seq<string>, pool: seq<string>, t: WordTest)
    requires IsExact(t)
    ensures GreedyMatches(words, pool, t) == |multiset(words) * multiset(pool)|
  {
    if words == [] {
      assert multiset(words) * multiset(pool) == multiset{};
    } else {
      var x, rest := words[0], words[1..];
      assert words == [x] + rest;
      assert multiset(words) == multiset{x} + multiset(rest);
      ExactFirstMatch(x, pool, t);
      match FirstMatch(x, pool, t)
      case None =>
        ExactMatchesIntersection(rest, pool, t);
        IntersectionSkip(x, multiset(rest), multiset(pool));
      case Some(j) =>
        ExactMatchesIntersection(rest, RemoveAt(pool, j), t);
        RemoveAtMultiset(pool, j);
        IntersectionTake(x, multiset(rest), multiset(pool));
    }
  }

  /** `filter(None, ...)` removes every empty word and keeps every other one,
      as often as it occurs. */
  lemma {:induction false} NonEmptyWordsMultiset(words: seq<string>)
    ensures multiset(NonEmptyWords(words)) == multiset(words)["" := 0]
  {
    if words != [] {
      var x, rest := words[0], words[1..];
      NonEmptyWordsMultiset(rest);
      assert words == [x] + rest;
      var head: seq<string> := if x != "" then [x] else [];
      assert NonEmptyWords(words) == head + NonEmptyWords(rest);
      var lhs, rhs := multiset(NonEmptyWords(words)), multiset(words)["" := 0];
      forall y ensures lhs[y] == rhs[y] {
        assert lhs[y] == multiset(head)[y] + multiset(rest)["" := 0][y];
        assert multiset(words)[y] == multiset{x}[y] + multiset(rest)[y];
      }
      assert lhs == rhs;
    }
  }

  lemma {:induction false} ExactCountsAgree(seq1: seq<string>, seq1': seq<string>, seq2: seq<string>, seq2': seq<string>, t: WordTest)
    requires IsExact(t)
    requires multiset(seq1) == multiset(seq1') && multiset(seq2) == multiset(seq2')
    ensures Counts(seq1, seq2, t) == Counts(seq1', seq2', t)
  {
    var w1, w1', w2, w2' := NonEmptyWords(seq1), NonEmptyWords(seq1'), NonEmptyWords(seq2), NonEmptyWords(seq2');
    NonEmptyWordsMultiset(seq1); NonEmptyWordsMultiset(seq1');
    NonEmptyWordsMultiset(seq2); NonEmptyWordsMultiset(seq2');
    ExactMatchesIntersection(w1, w2, t);
    ExactMatchesIntersection(w1', w2', t);
    assert |w1| == |multiset(w1)| == |multiset(w1')| == |w1'|;
    assert |w2| == |multiset(w2)| == |multiset(w2')| == |w2'|;
  }

  /** In exact mode the result depends only on which words occur and how often,
      not on their order. */
  lemma {:induction false} ExactOrderInsensitive(seq1: seq<string>, seq1': seq<string>, seq2: seq<string>, seq2': seq<string>,
                              t: WordTest, norm: Norm)
    requires IsExact(t)
    requires multiset(seq1) == multiset(seq1') && multiset(seq2) == multiset(seq2')
    ensures JaccardWords(seq1, seq2, t, norm) == JaccardWords(seq1', seq2', t, norm)
  {
    ExactCountsAgree(seq1, seq1', seq2, seq2', t);
  }

  lemma {:induction false} ExactSelfMatches(words: seq<string>, t: WordTest)
    requires IsExact(t)
    ensures Counts(words, words, t) == Tally(|NonEmptyWords(words)|, 2 * |NonEmptyWords(words)|)
  {
    var w := NonEmptyWords(words);
    ExactMatchesIntersection(w, w, t);
    assert multiset(w) * multiset(w) == multiset(w);
  }

  /** A list compared with itself in exact mode: every word is matched, no word
      is left over, and the normalized distance is 0 (a division by zero when
      the list has no non-empty word). */
  lemma {:induction false} IdenticalWordLists(words: seq<string>, t: WordTest)
    requires IsExact(t)
    ensures JaccardWords(words, words, t, CountEqual) == Ok(|NonEmptyWords(words)| as real)
    ensures JaccardWords(words, words, t, CountDifferent) == Ok(0.0)
    ensures JaccardWords(words, words, t, Normalized) ==
              if NonEmptyWords(words) == [] then Err(ZeroDivision) else Ok(0.0)
  {
    ExactSelfMatches(words, t);
    OutcomeOfSelf(|NonEmptyWords(words)|);
  }

  /** The counters of a list of `n` words matched entirely against itself. */
  lemma OutcomeOfSelf(n: nat)
    ensures Outcome(Tally(n, 2 * n), CountEqual) == Ok(n as real)
    ensures Outcome(Tally(n, 2 * n), CountDifferent) == Ok(0.0)
    ensures Outcome(Tally(n, 2 * n), Normalized) == if n == 0 then Err(ZeroDivision) else Ok(0.0)
  {
    if n != 0 {
      DivSelf((2 * n) as real);
    }
  }

  /** The words of `words` that are long enough to be compared. */
  function CountLong(words: seq<string>, minlength: int): (n: nat)
    ensures n <= |words|
  {
    if words == [] then 0
    else (if |words[0]| >= minlength then 1 else 0) + CountLong(words[1..], minlength)
  }

  lemma {:induction false} CountLongConcat(a: seq<string>, b: seq<string>, minlength: int)
    ensures CountLong(a + b, minlength) == CountLong(a, minlength) + CountLong(b, minlength)
  {
    if a == [] {
      assert a + b == b;
    } else {
      CountLongConcat(a[1..], b, minlength);
      assert (a + b)[0] == a[0];
      assert (a + b)[1..] == a[1..] + b;
      assert CountLong(a + b, minlength) == (if |a[0]| >= minlength then 1 else 0) + CountLong(a[1..] + b, minlength);
    }
  }

  lemma {:induction false} CountLongShort(words: seq<string>, minlength: int, k: nat)
    requires k < |words| && |words[k]| < minlength
    ensures CountLong(words, minlength) < |words|
  {
    if k > 0 { CountLongShort(words[1..], minlength, k - 1); }
  }

  /** With a non-zero `minlength`, a word shorter than it is never matched: the
      count is bounded by the long-enough words of each list. */
  lemma {:induction false} ShortWordsNeverMatch(words: seq<string>, pool: seq<string>, t: WordTest)
    requires t.minlength != 0
    ensures GreedyMatches(words, pool, t) <= CountLong(words, t.minlength)
    ensures GreedyMatches(words, pool, t) <= CountLong(pool, t.minlength)
  {
    if words != [] {
      match FirstMatch(words[0], pool, t)
      case None => ShortWordsNeverMatch(words[1..], pool, t);
      case Some(j) =>
        ShortWordsNeverMatch(words[1..], RemoveAt(pool, j), t);
        FirstMatchSpec(words[0], pool, t);
        assert pool == pool[..j] + ([pool[j]] + pool[j + 1..]);
        CountLongConcat(pool[..j], [pool[j]] + pool[j + 1..], t.minlength);
        CountLongConcat([pool[j]], pool[j + 1..], t.minlength);
        CountLongConcat(pool[..j], pool[j + 1..], t.minlength);
    }
  }

  /** A word too short to compare still counts in the total, so it is dead
      weight: the normalized distance cannot reach 0. */
  lemma {:induction false} DeadWeightKeepsDistancePositive(seq1: seq<string>, seq2: seq<string>, t: WordTest, w: string)
    requires t.minlength != 0 && w != "" && |w| < t.minlength
    requires w in seq1 || w in seq2
    ensures JaccardWords(seq1, seq2, t, Normalized).Ok?
    ensures JaccardWords(seq1, seq2, t, Normalized).value > 0.0
  {
    DeadWeightCounts(seq1, seq2, t, w);
    PositiveDistance(Counts(seq1, seq2, t));
  }

  lemma {:induction false} DeadWeightCounts(seq1: seq<string>, seq2: seq<string>, t: WordTest, w: string)
    requires t.minlength != 0 && w != "" && |w| < t.minlength
    requires w in seq1 || w in seq2
    ensures 2 * Counts(seq1, seq2, t).eq < Counts(seq1, seq2, t).total
  {
    var w1, w2 := NonEmptyWords(seq1), NonEmptyWords(seq2);
    ShortWordsNeverMatch(w1, w2, t);
    MatchCountBounds(w1, w2, t);
    if w in seq1 {
      ShortWordKept(seq1, w, t.minlength);
    } else {
      ShortWordKept(seq2, w, t.minlength);
    }
  }

  /** A non-empty short word survives the filtering, so not every kept word is
      long enough to compare. */
  lemma ShortWordKept(words: seq<string>, w: string, minlength: int)
    requires w in words && w != "" && |w| < minlength
    ensures CountLong(NonEmptyWords(words), minlength) < |NonEmptyWords(words)|
  {
    var kept := NonEmptyWords(words);
    NonEmptyWordsMultiset(words);
    assert w in multiset(kept);
    var k :| 0 <= k < |kept| && kept[k] == w;
    CountLongShort(kept, minlength, k);
  }

  lemma PositiveDistance(c: Tally)
    requires 2 * c.eq < c.total
    ensures Outcome(c, Normalized).Ok? && Outcome(c, Normalized).value > 0.0
  {
    DivBelowOne((2 * c.eq) as real, c.total as real);
  }

  // ---- distance_jaccard_words_split ----

  /** The separator classes of the default pattern `\s+|_+|,+|\.+|/+`: a run of
      one class is one separator; `-` is a word character. */
  function SeparatorClass(c: char): nat
  {
    if IsSpace(c) then 1
    else if c == '_' then 2
    else if c == ',' then 3
    else if c == '.' then 4
    else if c == '/' then 5
    else 0
  }

  /** `re.split` with the default pattern, continued from the piece `cur` being
      built and the class `prev` of the separator run just read (0 after a word
      character). */
  function SplitFrom(s: string, cur: string, prev: nat): seq<string>
  {
    if s == [] then [cur]
    else
      var k := SeparatorClass(s[0]);
      if k == 0 then SplitFrom(s[1..], cur + [s[0]], 0)
      else if k == prev then SplitFrom(s[1..], cur, k)
      else [cur] + SplitFrom(s[1..], "", k)
  }

  function SplitWords(s: string): seq<string>
  {
    SplitFrom(s, "", 0)
  }

  /** `distance_jaccard_words_split` with the default word pattern. */
  function JaccardWordsSplit(s1: string, s2: string, t: WordTest, norm: Norm): Result<real>
  {
    JaccardWords(SplitWords(s1), SplitWords(s2), t, norm)
  }

  function Flatten(pieces: seq<string>): string
  {
    if pieces == [] then "" else pieces[0] + Flatten(pieces[1..])
  }

  /** The word characters of `s`, separators removed. */
  function WordChars(s: string): (r: string)
    ensures forall i :: 0 <= i < |r| ==> SeparatorClass(r[i]) == 0
  {
    if s == [] then ""
    else (if SeparatorClass(s[0]) == 0 then [s[0]] else "") + WordChars(s[1..])
  }

  lemma {:induction false} SplitFromKeepsWordChars(s: string, cur: string, prev: nat)
    ensures Flatten(SplitFrom(s, cur, prev)) == cur + WordChars(s)
  {
    if s == [] {
      assert Flatten([cur]) == cur + Flatten([]);
    } else {
      var k := SeparatorClass(s[0]);
      var w := WordChars(s[1..]);
      if k == 0 {
        SplitFromKeepsWordChars(s[1..], cur + [s[0]], 0);
        assert WordChars(s) == [s[0]] + w;
        assert cur + [s[0]] + w == cur + ([s[0]] + w);
      } else if k == prev {
        SplitFromKeepsWordChars(s[1..], cur, k);
        assert WordChars(s) == w;
      } else {
        SplitFromKeepsWordChars(s[1..], "", k);
        var rest := SplitFrom(s[1..], "", k);
        assert WordChars(s) == w;
        assert ([cur] + rest)[1..] == rest;
        assert Flatten([cur] + rest) == cur + Flatten(rest);
        assert "" + w == w;
      }
    }
  }

  lemma {:induction false} SplitFromPiecesAreWords(s: string, cur: string, prev: nat)
    requires forall i :: 0 <= i < |cur| ==> SeparatorClass(cur[i]) == 0
    ensures forall p, i :: p in SplitFrom(s, cur, prev) && 0 <= i < |p| ==> SeparatorClass(p[i]) == 0
  {
    if s != [] {
      var k := SeparatorClass(s[0]);
      if k == 0 {
        SplitFromPiecesAreWords(s[1..], cur + [s[0]], 0);
      } else if k == prev {
        SplitFromPiecesAreWords(s[1..], cur, k);
      } else {
        SplitFromPiecesAreWords(s[1..], "", k);
      }
    }
  }

  /** The number of word characters `s` starts with. */
  function LeadingWord(s: string): (n: nat)
    ensures n <= |s|
  {
    if s == [] || SeparatorClass(s[0]) != 0 then 0 else 1 + LeadingWord(s[1..])
  }

  /** The maximal runs of word characters of `s`, in order: the words a split
      on every run of separators yields, whatever the separators are. */
  function WordRuns(s: string): seq<string>
    decreases |s|
  {
    if s == [] then []
    else if SeparatorClass(s[0]) != 0 then WordRuns(s[1..])
    else
      var n := LeadingWord(s);
      [s[..n]] + WordRuns(s[n..])
  }

  lemma {:induction false} LeadingWordConcat(w: string, s: string)
    requires forall i :: 0 <= i < |w| ==> SeparatorClass(w[i]) == 0
    requires s == [] || SeparatorClass(s[0]) != 0
    ensures LeadingWord(w + s) == |w|
  {
    if w != [] {
      LeadingWordConcat(w[1..], s);
      assert (w + s)[1..] == w[1..] + s;
    } else {
      assert w + s == s;
    }
  }

  /** A run of word characters followed by a separator (or by nothing) is one
      run of its own. */
  lemma WordRunsConcat(w: string, s: string)
    requires w != [] && forall i :: 0 <= i < |w| ==> SeparatorClass(w[i]) == 0
    requires s == [] || SeparatorClass(s[0]) != 0
    ensures WordRuns(w + s) == [w] + WordRuns(s)
  {
    LeadingWordConcat(w, s);
    assert (w + s)[..|w|] == w;
    assert (w + s)[|w|..] == s;
  }

  /** After the empty pieces are dropped, the split continued from `cur` gives
      the word runs of `cur + s`. */
  lemma {:induction false} SplitFromRuns(s: string, cur: string, prev: nat)
    requires forall i :: 0 <= i < |cur| ==> SeparatorClass(cur[i]) == 0
    requires prev != 0 ==> cur == ""
    ensures NonEmptyWords(SplitFrom(s, cur, prev)) == WordRuns(cur + s)
    decreases |s|
  {
    if s == [] {
      assert cur + s == cur;
      if cur != "" {
        WordRunsConcat(cur, "");
        assert cur + "" == cur;
      }
    } else if SeparatorClass(s[0]) == 0 {
      var cur' := cur + [s[0]];
      assert forall i :: 0 <= i < |cur'| ==> SeparatorClass(cur'[i]) == 0;
      SplitFromRuns(s[1..], cur', 0);
      WordStep(s, cur, prev);
    } else {
      SplitFromRuns(s[1..], "", SeparatorClass(s[0]));
      assert "" + s[1..] == s[1..];
      SeparatorStep(s, cur, prev);
    }
  }

  /** One word character read: it joins the piece being built. */
  lemma WordStep(s: string, cur: string, prev: nat)
    requires s != [] && SeparatorClass(s[0]) == 0
    requires NonEmptyWords(SplitFrom(s[1..], cur + [s[0]], 0)) == WordRuns(cur + [s[0]] + s[1..])
    ensures NonEmptyWords(SplitFrom(s, cur, prev)) == WordRuns(cur + s)
  {
    assert cur + [s[0]] + s[1..] == cur + s;
  }

  /** One separator read: it either continues a separator run or closes the
      piece `cur`, and in both cases only the word runs after it are left. */
  lemma SeparatorStep(s: string, cur: string, prev: nat)
    requires forall i :: 0 <= i < |cur| ==> SeparatorClass(cur[i]) == 0
    requires prev != 0 ==> cur == ""
    requires s != [] && SeparatorClass(s[0]) != 0
    requires NonEmptyWords(SplitFrom(s[1..], "", SeparatorClass(s[0]))) == WordRuns(s[1..])
    ensures NonEmptyWords(SplitFrom(s, cur, prev)) == WordRuns(cur + s)
  {
    var k := SeparatorClass(s[0]);
    var rest := SplitFrom(s[1..], "", k);
    if k == prev {
      assert cur + s == s;
    } else {
      assert SplitFrom(s, cur, prev) == [cur] + rest;
      assert ([cur] + rest)[1..] == rest;
      if cur != "" {
        WordRunsConcat(cur, s);
      } else {
        assert cur + s == s;
      }
    }
  }

  /** Splitting neither loses nor invents word characters: no piece holds a
      separator, the pieces put back together are the input without its
      separators, and the non-empty pieces are exactly the maximal runs of word
      characters (so `-`, a word character, never splits a word). */
  lemma SplitWordsProperties(s: string)
    ensures forall p, i :: p in SplitWords(s) && 0 <= i < |p| ==> SeparatorClass(p[i]) == 0
    ensures Flatten(SplitWords(s)) == WordChars(s)
    ensures NonEmptyWords(SplitWords(s)) == WordRuns(s)
  {
    SplitFromPiecesAreWords(s, "", 0);
    SplitFromKeepsWordChars(s, "", 0);
    SplitFromRuns(s, "", 0);
    assert "" + s == s;
  }

  lemma {:induction false} NonEmptyWordsIdempotent(words: seq<string>)
    ensures NonEmptyWords(NonEmptyWords(words)) == NonEmptyWords(words)
  {
    if words != [] {
      NonEmptyWordsIdempotent(words[1..]);
      var rest := NonEmptyWords(words[1..]);
      if words[0] != "" {
        assert ([words[0]] + rest)[1..] == rest;
      } else {
        assert [] + rest == rest;
      }
    }
  }

  /** The word distance only looks at the non-empty words. */
  lemma CountsOfNonEmpty(seq1: seq<string>, seq2: seq<string>, t: WordTest)
    ensures Counts(seq1, seq2, t) == Counts(NonEmptyWords(seq1), NonEmptyWords(seq2), t)
  {
    NonEmptyWordsIdempotent(seq1);
    NonEmptyWordsIdempotent(seq2);
  }

  /** `distance_jaccard_words_split` is the word distance of the maximal word
      runs of the two texts: the empty pieces `re.split` leaves around
      separators count for nothing. */
  lemma JaccardWordsSplitRuns(s1: string, s2: string, t: WordTest, norm: Norm)
    ensures JaccardWordsSplit(s1, s2, t, norm) == JaccardWords(WordRuns(s1), WordRuns(s2), t, norm)
  {
    var w1, w2 := SplitWords(s1), SplitWords(s2);
    SplitWordsProperties(s1);
    SplitWordsProperties(s2);
    CountsOfNonEmpty(w1, w2, t);
    assert Counts(w1, w2, t) == Counts(WordRuns(s1), WordRuns(s2), t) by {
      CountsOfNonEmpty(WordRuns(s1), WordRuns(s2), t);
    }
  }
}
