/** `cleanup_name`: the name normaliser applied to both sides of a merge
    before they are compared. The decoding and the transliteration it starts
    with are external and are taken as parameters. */
module NameCleanup {
  import opened Text

  /** `s.replace(c, d)` for single characters. */
  function ReplaceChar(s: string, c: char, d: char): (r: string)
    ensures |r| == |s|
    ensures forall i :: 0 <= i < |s| ==> r[i] == (if s[i] == c then d else s[i])
  {
    if s == [] then [] else [if s[0] == c then d else s[0]] + ReplaceChar(s[1..], c, d)
  }

  /** `s.replace(pat, rep)`: non-overlapping occurrences, from left to right. */
  function Replace(s: string, pat: string, rep: string): string
    requires pat != []
    decreases |s|
  {
    if s == [] then s
    else if |pat| <= |s| && StartsWith(s, pat) then rep + Replace(s[|pat|..], pat, rep)
    else [s[0]] + Replace(s[1..], pat, rep)
  }

  /** Replacing a pattern that does not occur changes nothing. */
  lemma {:induction false} ReplaceAbsent(s: string, pat: string, rep: string)
    requires pat != [] && !Contains(s, pat)
    ensures Replace(s, pat, rep) == s
    decreases |s|
  {
    if s != [] {
      ReplaceAbsent(s[1..], pat, rep);
      assert s == [s[0]] + s[1..];
    }
  }

  lemma ReplaceAbsentChar(s: string, c: char, rep: string)
    requires c !in s
    ensures Replace(s, [c], rep) == s
  {
    ContainsChar(s, c);
    ReplaceAbsent(s, [c], rep);
  }

  /** The characters `[a-zA-Z0-9\-]` keep; every other one becomes a space. */
  predicate IsNameChar(c: char) { IsUpper(c) || IsLowerLetter(c) || IsDigit(c) || c == '-' }

  /** `re.sub('[^a-zA-Z0-9\-]', ' ', s)`. */
  function MaskNonletters(s: string): (r: string)
    ensures |r| == |s|
    ensures forall i :: 0 <= i < |s| ==> r[i] == (if IsNameChar(s[i]) then s[i] else ' ')
  {
    if s == [] then [] else [if IsNameChar(s[0]) then s[0] else ' '] + MaskNonletters(s[1..])
  }

  /** The two run patterns: `\s+` (replaced by one space) and `\-+` (replaced
      by one dash). */
  datatype RunClass = Whitespace | Dashes

  predicate InRun(c: char, k: RunClass)
  {
    match k
    case Whitespace => IsSpace(c)
    case Dashes => c == '-'
  }

  function RunChar(k: RunClass): char
  {
    match k
    case Whitespace => ' '
    case Dashes => '-'
  }

  /** `re.sub` of a run pattern, continued after a character that was
      (`inRun`) or was not part of a run. */
  function SquashFrom(s: string, k: RunClass, inRun: bool): string
  {
    if s == [] then []
    else if InRun(s[0], k) then
      (if inRun then [] else [RunChar(k)]) + SquashFrom(s[1..], k, true)
    else [s[0]] + SquashFrom(s[1..], k, false)
  }

  function Squash(s: string, k: RunClass): string
  {
    SquashFrom(s, k, false)
  }

  /** No two neighbouring characters of `s` both belong to a run of class `k`. */
  predicate NoRepeat(s: string, k: RunClass)
  {
    forall i :: 0 <= i < |s| - 1 ==> !(InRun(s[i], k) && InRun(s[i + 1], k))
  }

  /** The alphabet of a cleaned name: `[a-z0-9 -]`. */
  predicate IsCleanChar(c: char) { IsLowerLetter(c) || IsDigit(c) || c == '-' || c == ' ' }

  predicate AllClean(s: string)
  {
    forall i :: 0 <= i < |s| ==> IsCleanChar(s[i])
  }

  /** The shape `cleanup_name` promises with its defaults. */
  predicate CleanShape(s: string)
  {
    && AllClean(s)
    && (s == [] || (s[0] != ' ' && s[|s| - 1] != ' '))
    && NoRepeat(s, Whitespace)
    && NoRepeat(s, Dashes)
  }

  /** The `clean_nonletters` step: mask, squash whitespace runs, squash dash
      runs, strip, delete `\r`, `\n` and `\t`, turn commas into spaces, turn
      double spaces into single ones, strip again. */
  function CleanNonletters(s: string): string
  {
    var squashed := Strip(Squash(Squash(MaskNonletters(s), Whitespace), Dashes));
    var deleted := Replace(Replace(Replace(squashed, "\r", ""), "\n", ""), "\t", "");
    Strip(Replace(Replace(deleted, ",", " "), "  ", " "))
  }

  /** `cleanup_name(s, encoding, normalize, clean_nonletters)`: `decode` is
      `s.decode(encoding)` and `translit` is `_unidecode`. With both options
      on, the result is over `[a-z0-9 -]`, has no space at either end, no two
      neighbouring spaces and no two neighbouring dashes, whatever the decoder
      and transliterator do. */
  function CleanupName(s: string, decode: string -> string, translit: string -> string,
                       normalize: bool, cleanNonletters: bool): (r: string)
    ensures normalize && cleanNonletters ==> CleanShape(r)
  {
    var t := translit(ReplaceChar(decode(s), '^', ' '));
    var n := if normalize then Strip(Lower(t)) else t;
    if cleanNonletters then
      if normalize then
        NormalizedNoUpper(t);
        CleanNonlettersShape(n);
        CleanNonletters(n)
      else CleanNonletters(n)
    else n
  }

  // ---- squashing runs ----

  /** After squashing, no two neighbours belong to a run, and a squash that
      continues a run does not start with a run character. */
  lemma {:induction false} SquashNoRepeat(s: string, k: RunClass, inRun: bool)
    ensures NoRepeat(SquashFrom(s, k, inRun), k)
    ensures inRun && SquashFrom(s, k, inRun) != [] ==> !InRun(SquashFrom(s, k, inRun)[0], k)
  {
    if s != [] {
      var inHead := InRun(s[0], k);
      SquashNoRepeat(s[1..], k, inHead);
    }
  }

  /** Squashing keeps the alphabet `[a-z0-9 -]`. */
  lemma {:induction false} SquashAllClean(s: string, k: RunClass, inRun: bool)
    requires AllClean(s)
    ensures AllClean(SquashFrom(s, k, inRun))
  {
    if s != [] {
      SquashAllClean(s[1..], k, InRun(s[0], k));
    }
  }

  /** Squashing dashes never brings two whitespace characters together, and
      outside a run it leaves the first character in place. */
  lemma {:induction false} SquashDashesKeepsSpacesApart(s: string, inRun: bool)
    requires NoRepeat(s, Whitespace)
    ensures NoRepeat(SquashFrom(s, Dashes, inRun), Whitespace)
    ensures !inRun && s != [] ==> SquashFrom(s, Dashes, inRun) != [] && SquashFrom(s, Dashes, inRun)[0] == s[0]
  {
    if s != [] {
      var rest := SquashFrom(s[1..], Dashes, s[0] == '-');
      SquashDashesKeepsSpacesApart(s[1..], s[0] == '-');
      if s[0] != '-' && |s| > 1 {
        assert !(IsSpace(s[0]) && IsSpace(s[1]));
      }
    }
  }

  /** A text that already has single run characters only is left unchanged. */
  lemma {:induction false} SquashUnchanged(s: string, k: RunClass, inRun: bool)
    requires NoRepeat(s, k)
    requires forall i :: 0 <= i < |s| && InRun(s[i], k) ==> s[i] == RunChar(k)
    requires inRun && s != [] ==> !InRun(s[0], k)
    ensures SquashFrom(s, k, inRun) == s
  {
    if s != [] {
      SquashUnchanged(s[1..], k, InRun(s[0], k));
      assert s == [s[0]] + s[1..];
    }
  }

  /** A slice keeps the alphabet and the absence of neighbouring run characters. */
  lemma SliceKeepsShape(r: string, s: string, j: int)
    requires IsSliceAt(r, s, j)
    ensures AllClean(s) ==> AllClean(r)
    ensures NoRepeat(s, Whitespace) ==> NoRepeat(r, Whitespace)
    ensures NoRepeat(s, Dashes) ==> NoRepeat(r, Dashes)
  {
    assert forall i :: 0 <= i < |r| ==> r[i] == s[j + i];
  }

  lemma NoDoubleSpace(s: string)
    requires NoRepeat(s, Whitespace)
    ensures !Contains(s, "  ")
    decreases |s|
  {
    if s != [] {
      SliceKeepsShape(s[1..], s, 1);
      NoDoubleSpace(s[1..]);
      if |s| > 1 {
        assert !(s[0] == ' ' && s[1] == ' ');
        assert StartsWith(s, "  ") ==> s[0] == ' ' && StartsWith(s[1..], " ");
        assert StartsWith(s[1..], " ") ==> s[1] == ' ';
      } else {
        assert !StartsWith(s[1..], " ");
      }
    }
  }

  // ---- the shape of a cleaned name ----

  /** The squashed and stripped text, before the final replacements, already
      has the clean shape when its input had no upper-case letter. */
  lemma SquashedShape(s: string)
    requires forall i :: 0 <= i < |s| ==> !IsUpper(s[i])
    ensures CleanShape(Strip(Squash(Squash(MaskNonletters(s), Whitespace), Dashes)))
  {
    var m := MaskNonletters(s);
    var a := Squash(m, Whitespace);
    var b := Squash(a, Dashes);
    var r := Strip(b);
    assert AllClean(m);
    SquashAllClean(m, Whitespace, false);
    SquashNoRepeat(m, Whitespace, false);
    SquashAllClean(a, Dashes, false);
    SquashNoRepeat(a, Dashes, false);
    SquashDashesKeepsSpacesApart(a, false);
    StripIsSlice(b);
    SliceKeepsShape(r, b, LeadingSpaces(b));
    StripNoOuterSpace(b);
  }

  /** The replacements and the final strip of `clean_nonletters` change
      nothing on a text of the clean shape. */
  lemma TailUnchanged(s: string)
    requires CleanShape(s)
    ensures Strip(Replace(Replace(Replace(Replace(Replace(s, "\r", ""), "\n", ""), "\t", ""), ",", " "), "  ", " ")) == s
  {
    ReplaceAbsentChar(s, '\r', "");
    ReplaceAbsentChar(s, '\n', "");
    ReplaceAbsentChar(s, '\t', "");
    ReplaceAbsentChar(s, ',', " ");
    NoDoubleSpace(s);
    ReplaceAbsent(s, "  ", " ");
    StripUnchanged(s);
  }

  /** Lower-casing and stripping leaves no upper-case letter. */
  lemma NormalizedNoUpper(t: string)
    ensures var n := Strip(Lower(t)); forall i :: 0 <= i < |n| ==> !IsUpper(n[i])
  {
    var l := Lower(t);
    var n := Strip(l);
    StripIsSlice(l);
    forall i | 0 <= i < |n| ensures !IsUpper(n[i]) {
      assert n[i] == l[LeadingSpaces(l) + i];
    }
  }

  /** `clean_nonletters` on a text with no upper-case letter gives the clean
      shape. */
  lemma CleanNonlettersShape(n: string)
    requires forall i :: 0 <= i < |n| ==> !IsUpper(n[i])
    ensures CleanShape(CleanNonletters(n))
  {
    SquashedShape(n);
    TailUnchanged(Strip(Squash(Squash(MaskNonletters(n), Whitespace), Dashes)));
  }

  // ---- idempotence ----

  /** `clean_nonletters` leaves a text of the clean shape unchanged. */
  lemma CleanNonlettersUnchanged(s: string)
    requires CleanShape(s)
    ensures CleanNonletters(s) == s
  {
    assert MaskNonletters(s) == s;
    SquashUnchanged(s, Whitespace, false);
    SquashUnchanged(s, Dashes, false);
    StripUnchanged(s);
    TailUnchanged(s);
  }

  /** `f` returns every ASCII text unchanged. */
  ghost predicate FixesAscii(f: string -> string)
  {
    forall x :: IsAscii(x) ==> f(x) == x
  }

  /** Text over `[a-z0-9 -]` is ASCII, has no caret and no upper-case letter. */
  lemma CleanTextUnchanged(r: string)
    requires AllClean(r)
    ensures IsAscii(r)
    ensures ReplaceChar(r, '^', ' ') == r
    ensures Lower(r) == r
  {
  }

  /** A name of the clean shape is its own clean-up. */
  lemma CleanupNameOfClean(r: string, decode: string -> string, translit: string -> string)
    requires CleanShape(r) && FixesAscii(decode) && FixesAscii(translit)
    ensures CleanupName(r, decode, translit, true, true) == r
  {
    CleanTextUnchanged(r);
    var d := decode(r);
    assert d == r;
    var t := translit(ReplaceChar(d, '^', ' '));
    assert t == r;
    StripUnchanged(r);
    CleanNonlettersUnchanged(r);
  }

  /** Cleaning a cleaned name again returns it unchanged, provided decoding and
      transliteration leave ASCII text alone (latin-1 decoding and `unidecode`
      both do). */
  lemma CleanupNameIdempotent(s: string, decode: string -> string, translit: string -> string)
    requires FixesAscii(decode) && FixesAscii(translit)
    ensures var r := CleanupName(s, decode, translit, true, true);
            CleanupName(r, decode, translit, true, true) == r
  {
    CleanupNameOfClean(CleanupName(s, decode, translit, true, true), decode, translit);
  }
}
