/** Cell values of a table and Python 2's built-in ordering of them, which is
    what `sorted` uses when rows are collapsed. */
module Values {

  /** A cell: `None`, a number (int or float, as an exact real), a string, or a
      list of cells. */
  datatype Value = Null | Num(x: real) | Str(s: string) | List(items: seq<Value>)

  /** Python 2 orders values of different kinds by kind: `None` first, then
      numbers, then the other types by type name (`list` before `str`). */
  function Rank(v: Value): nat
  {
    match v
    case Null => 0
    case Num(_) => 1
    case List(_) => 2
    case Str(_) => 3
  }

  /** Lexicographic order of strings by character code. */
  predicate StrLess(s: string, t: string)
  {
    if s == [] then t != []
    else if t == [] then false
    else if s[0] == t[0] then StrLess(s[1..], t[1..])
    else s[0] < t[0]
  }

  /** `a < b` in Python 2. */
  predicate Less(a: Value, b: Value)
    decreases a
  {
    if Rank(a) != Rank(b) then Rank(a) < Rank(b)
    else match a
      case Null => false
      case Num(x) => x < b.x
      case Str(s) => StrLess(s, b.s)
      case List(xs) => SeqLess(xs, b.items)
  }

  /** Lists compare at their first differing position; a proper prefix is smaller. */
  predicate SeqLess(xs: seq<Value>, ys: seq<Value>)
    decreases xs
  {
    if xs == [] then ys != []
    else if ys == [] then false
    else if xs[0] == ys[0] then SeqLess(xs[1..], ys[1..])
    else Less(xs[0], ys[0])
  }

  lemma {:induction false} StrLessIrreflexive(s: string)
    ensures !StrLess(s, s)
  {
    if s != [] { StrLessIrreflexive(s[1..]); }
  }

  lemma {:induction false} StrLessTransitive(s: string, t: string, u: string)
    requires StrLess(s, t) && StrLess(t, u)
    ensures StrLess(s, u)
  {
    if s != [] && t != [] && u != [] && s[0] == t[0] && t[0] == u[0] {
      StrLessTransitive(s[1..], t[1..], u[1..]);
    }
  }

  lemma {:induction false} StrLessTotal(s: string, t: string)
    ensures s == t || StrLess(s, t) || StrLess(t, s)
  {
    if s != [] && t != [] && s[0] == t[0] {
      StrLessTotal(s[1..], t[1..]);
      if s[1..] == t[1..] {
        assert s == [s[0]] + s[1..] && t == [t[0]] + t[1..];
      }
    }
  }

  lemma {:induction false} LessIrreflexive(a: Value)
    ensures !Less(a, a)
    decreases a
  {
    match a
    case Null =>
    case Num(_) =>
    case Str(s) => StrLessIrreflexive(s);
    case List(xs) => SeqLessIrreflexive(xs);
  }

  lemma {:induction false} SeqLessIrreflexive(xs: seq<Value>)
    ensures !SeqLess(xs, xs)
    decreases xs
  {
    if xs != [] { SeqLessIrreflexive(xs[1..]); }
  }

  lemma {:induction false} LessTransitive(a: Value, b: Value, c: Value)
    requires Less(a, b) && Less(b, c)
    ensures Less(a, c)
    decreases a
  {
    if Rank(a) == Rank(b) == Rank(c) {
      match a
      case Null =>
      case Num(_) =>
      case Str(s) => StrLessTransitive(s, b.s, c.s);
      case List(xs) => SeqLessTransitive(xs, b.items, c.items);
    }
  }

  lemma {:induction false} SeqLessTransitive(xs: seq<Value>, ys: seq<Value>, zs: seq<Value>)
    requires SeqLess(xs, ys) && SeqLess(ys, zs)
    ensures SeqLess(xs, zs)
    decreases xs
  {
    if xs != [] && ys != [] && zs != [] {
      if xs[0] == ys[0] && ys[0] == zs[0] {
        SeqLessTransitive(xs[1..], ys[1..], zs[1..]);
      } else if xs[0] != ys[0] && ys[0] != zs[0] {
        LessTransitive(xs[0], ys[0], zs[0]);
        if xs[0] == zs[0] {
          LessIrreflexive(xs[0]);
        }
      }
    }
  }

  lemma {:induction false} LessTotal(a: Value, b: Value)
    ensures a == b || Less(a, b) || Less(b, a)
    decreases a
  {
    if Rank(a) == Rank(b) {
      match a
      case Null =>
      case Num(_) =>
      case Str(s) => StrLessTotal(s, b.s);
      case List(xs) => SeqLessTotal(xs, b.items);
    }
  }

  lemma {:induction false} SeqLessTotal(xs: seq<Value>, ys: seq<Value>)
    ensures xs == ys || SeqLess(xs, ys) || SeqLess(ys, xs)
    decreases xs
  {
    if xs != [] && ys != [] {
      if xs[0] == ys[0] {
        SeqLessTotal(xs[1..], ys[1..]);
        if xs[1..] == ys[1..] {
          assert xs == [xs[0]] + xs[1..] && ys == [ys[0]] + ys[1..];
        }
      } else {
        LessTotal(xs[0], ys[0]);
      }
    }
  }
}
