/** Character classes and string helpers shared by the name and word utilities.
    Only ASCII behaviour is modelled (see README). */
module Text {

  predicate IsUpper(c: char) { 'A' <= c <= 'Z' }
  predicate IsLowerLetter(c: char) { 'a' <= c <= 'z' }
  predicate IsDigit(c: char) { '0' <= c <= '9' }

  /** Python 2's `\s` and `str.strip()` whitespace: space, \t, \n, \v, \f, \r. */
  predicate IsSpace(c: char) { c == ' ' || 9 <= c as int <= 13 }

  predicate IsAscii(s: string) { forall i :: 0 <= i < |s| ==> s[i] as int < 128 }

  function LowerChar(c: char): (r: char)
    ensures !IsUpper(r)
    ensures IsUpper(c) ==> r as int == c as int + 32
    ensures !IsUpper(c) ==> r == c
  {
    if IsUpper(c) then (c as int + 32) as char else c
  }

  /** `str.lower()` on ASCII text. */
  function Lower(s: string): (r: string)
    ensures |r| == |s|
    ensures forall i :: 0 <= i < |s| ==> r[i] == LowerChar(s[i])
  {
    if s == [] then [] else [LowerChar(s[0])] + Lower(s[1..])
  }

  /** The number of whitespace characters `s` starts with. */
  function LeadingSpaces(s: string): (n: nat)
    ensures n <= |s|
  {
    if s != [] && IsSpace(s[0]) then 1 + LeadingSpaces(s[1..]) else 0
  }

  /** The number of whitespace characters `s` ends with. */
  function TrailingSpaces(s: string): (n: nat)
    ensures n <= |s|
  {
    if s != [] && IsSpace(s[|s| - 1]) then 1 + TrailingSpaces(s[..|s| - 1]) else 0
  }

  /** The leading count covers whitespace only and stops at a non-space. */
  lemma {:induction false} LeadingSpacesSpec(s: string)
    ensures forall i :: 0 <= i < LeadingSpaces(s) ==> IsSpace(s[i])
    ensures LeadingSpaces(s) < |s| ==> !IsSpace(s[LeadingSpaces(s)])
  {
    if s != [] && IsSpace(s[0]) {
      LeadingSpacesSpec(s[1..]);
    }
  }

  /** The trailing count covers whitespace only and stops at a non-space. */
  lemma {:induction false} TrailingSpacesSpec(s: string)
    ensures forall i :: |s| - TrailingSpaces(s) <= i < |s| ==> IsSpace(s[i])
    ensures TrailingSpaces(s) < |s| ==> !IsSpace(s[|s| - TrailingSpaces(s) - 1])
  {
    if s != [] && IsSpace(s[|s| - 1]) {
      TrailingSpacesSpec(s[..|s| - 1]);
    }
  }

  /** `str.strip()`: the slice between the leading and the trailing whitespace. */
  function Strip(s: string): string
  {
    var rest := s[LeadingSpaces(s)..];
    rest[..|rest| - TrailingSpaces(rest)]
  }

  /** `r` is the slice of `s` that starts at `k`. */
  predicate IsSliceAt(r: string, s: string, k: int)
  {
    0 <= k && k + |r| <= |s| && r == s[k..k + |r|]
  }

  /** What `str.strip()` keeps is the slice of the input that starts after its
      leading whitespace. */
  lemma StripIsSlice(s: string)
    ensures IsSliceAt(Strip(s), s, LeadingSpaces(s))
  {
    var k := LeadingSpaces(s);
    var rest := s[k..];
    assert Strip(s) == rest[..|rest| - TrailingSpaces(rest)] == s[k..k + |Strip(s)|];
  }

  /** `str.strip()` leaves no whitespace at either end. */
  lemma StripNoOuterSpace(s: string)
    ensures var r := Strip(s);
            r == [] || (!IsSpace(r[0]) && !IsSpace(r[|r| - 1]))
  {
    var k := LeadingSpaces(s);
    var rest := s[k..];
    var m := TrailingSpaces(rest);
    var r := Strip(s);
    LeadingSpacesSpec(s);
    TrailingSpacesSpec(rest);
    if r != [] {
      assert r[0] == rest[0] == s[k];
      assert r[|r| - 1] == rest[|rest| - m - 1];
    }
  }

  /** `str.strip()` cuts only whitespace, on either side of the slice it keeps. */
  lemma StripCutsOnlySpace(s: string)
    ensures forall i :: 0 <= i < LeadingSpaces(s) ==> IsSpace(s[i])
    ensures forall i :: LeadingSpaces(s) + |Strip(s)| <= i < |s| ==> IsSpace(s[i])
  {
    var k := LeadingSpaces(s);
    var rest := s[k..];
    var m := TrailingSpaces(rest);
    LeadingSpacesSpec(s);
    TrailingSpacesSpec(rest);
    assert |Strip(s)| == |rest| - m;
    forall i | k + |Strip(s)| <= i < |s|
      ensures IsSpace(s[i])
    {
      assert s[i] == rest[i - k];
    }
  }

  /** Stripping text that has no whitespace at either end leaves it unchanged. */
  lemma StripUnchanged(s: string)
    requires s == [] || (!IsSpace(s[0]) && !IsSpace(s[|s| - 1]))
    ensures Strip(s) == s
  {
  }

  /** `s.startswith(p)`. */
  predicate StartsWith(s: string, p: string)
  {
    p == [] || (s != [] && s[0] == p[0] && StartsWith(s[1..], p[1..]))
  }

  /** `s.startswith(p)` holds exactly when `p` is a prefix of `s`. */
  lemma {:induction false} StartsWithIsPrefix(s: string, p: string)
    ensures StartsWith(s, p) <==> p <= s
  {
    if p != [] && s != [] {
      StartsWithIsPrefix(s[1..], p[1..]);
      assert p == [p[0]] + p[1..] && s == [s[0]] + s[1..];
    }
  }

  /** `sub in s` for strings. */
  predicate Contains(s: string, sub: string)
  {
    StartsWith(s, sub) || (s != [] && Contains(s[1..], sub))
  }

  /** A one-character string occurs in `s` exactly when that character does. */
  lemma {:induction false} ContainsChar(s: string, c: char)
    ensures Contains(s, [c]) <==> c in s
  {
    if s != [] {
      ContainsChar(s[1..], c);
      assert [c][1..] == [] && StartsWith(s[1..], []);
      assert StartsWith(s, [c]) <==> s[0] == c;
      assert s == [s[0]] + s[1..];
    }
  }

  function DigitChar(d: nat): (c: char)
    requires d < 10
    ensures IsDigit(c)
  {
    ('0' as int + d) as char
  }

  /** `'%i' % n` for a natural number. */
  function NatToString(n: nat): (r: string)
    ensures r != []
    ensures forall i :: 0 <= i < |r| ==> IsDigit(r[i])
  {
    if n < 10 then [DigitChar(n)] else NatToString(n / 10) + [DigitChar(n % 10)]
  }
}
