/** The string operations the scraper and the merger rely on. */
module Strings {

  /** The characters Python's `\s` matches in a `str` pattern (those for which `str.isspace()` holds). */
  const Whitespace: set<char> := {
    ' ', '\t', '\n', '\r', '\U{0B}', '\U{0C}', '\U{1C}', '\U{1D}', '\U{1E}', '\U{1F}',
    '\U{85}', '\U{A0}', '\U{1680}', '\U{2000}', '\U{2001}', '\U{2002}', '\U{2003}',
    '\U{2004}', '\U{2005}', '\U{2006}', '\U{2007}', '\U{2008}', '\U{2009}', '\U{200A}',
    '\U{2028}', '\U{2029}', '\U{202F}', '\U{205F}', '\U{3000}'
  }

  /**
   * `re.sub('[...]', '', s)` for a character class: every character of `drop`
   * disappears and every other character keeps its multiplicity.
   */
  function Remove(s: string, drop: set<char>): (r: string)
    ensures |r| <= |s|
    ensures forall c | c in drop :: c !in r
    ensures forall c | c !in drop :: multiset(r)[c] == multiset(s)[c]
  {
    if s == [] then []
    else
      var rest := Remove(s[1..], drop);
      assert s == [s[0]] + s[1..];
      if s[0] in drop then rest else [s[0]] + rest
  }

  lemma {:induction false} RemoveIdempotent(s: string, drop: set<char>)
    ensures Remove(Remove(s, drop), drop) == Remove(s, drop)
  {
    if s != [] {
      RemoveIdempotent(s[1..], drop);
      if s[0] !in drop {
        assert Remove(s, drop)[1..] == Remove(s[1..], drop);
      }
    }
  }

  /** Python's `t in s` for strings: `t` occurs in `s` as a contiguous block. */
  predicate Contains(s: string, t: string) {
    exists i | 0 <= i <= |s| - |t| :: OccursAt(s, t, i)
  }

  predicate OccursAt(s: string, t: string, i: int)
    requires 0 <= i <= |s| - |t|
  {
    s[i..i + |t|] == t
  }

  /** Python's `s.endswith(t)`. */
  predicate EndsWith(s: string, t: string) {
    |t| <= |s| && s[|s| - |t|..] == t
  }

  /**
   * Python's `s.replace('_x', t)`: every occurrence of `_x`, found left to
   * right without overlap, becomes `t`.
   */
  function ReplaceX(s: string, t: string): string {
    if |s| < 2 then s
    else if s[0] == '_' && s[1] == 'x' then t + ReplaceX(s[2..], t)
    else [s[0]] + ReplaceX(s[1..], t)
  }

  /** Text free of `_x` does not start with it, and its tail is free of it too. */
  lemma NoMarkTail(s: string)
    requires s != [] && !Contains(s, "_x")
    ensures !Contains(s[1..], "_x")
    ensures |s| >= 2 ==> !(s[0] == '_' && s[1] == 'x')
  {
    forall i | 0 <= i <= |s[1..]| - 2 ensures !OccursAt(s[1..], "_x", i) {
      assert !OccursAt(s, "_x", i + 1);
      assert s[1..][i..i + 2] == s[i + 1..i + 3];
    }
    if |s| >= 2 {
      assert !OccursAt(s, "_x", 0);
      assert s[0..2] == [s[0], s[1]];
    }
  }

  lemma {:induction false} ReplaceXOfSuffixed(s: string, t: string)
    requires !Contains(s, "_x")
    ensures ReplaceX(s + "_x", t) == s + t
  {
    if s == [] {
      assert s + "_x" == "_x";
      assert ReplaceX("_x", t) == t + ReplaceX("", t);
    } else {
      assert (s + "_x")[1..] == s[1..] + "_x";
      NoMarkTail(s);
      ReplaceXOfSuffixed(s[1..], t);
      assert s + t == [s[0]] + (s[1..] + t);
    }
  }

  /** Python's `a < b` on strings: lexicographic by code point. */
  predicate Less(a: string, b: string) {
    if b == [] then false
    else if a == [] then true
    else a[0] < b[0] || (a[0] == b[0] && Less(a[1..], b[1..]))
  }

  lemma {:induction false} LessIrreflexive(a: string)
    ensures !Less(a, a)
  {
    if a != [] { LessIrreflexive(a[1..]); }
  }

  lemma {:induction false} LessTransitive(a: string, b: string, c: string)
    requires Less(a, b) && Less(b, c)
    ensures Less(a, c)
  {
    if a != [] && a[0] == b[0] && b[0] == c[0] {
      LessTransitive(a[1..], b[1..], c[1..]);
    }
  }

  lemma {:induction false} LessTotal(a: string, b: string)
    requires a != b
    ensures Less(a, b) || Less(b, a)
  {
    if a != [] && b != [] && a[0] == b[0] {
      assert a == [a[0]] + a[1..] && b == [b[0]] + b[1..];
      LessTotal(a[1..], b[1..]);
    }
  }
}
