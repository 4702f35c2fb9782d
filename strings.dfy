/** The string operations of Python that the pipeline relies on: `str.replace`,
    `str.split` / `str.join`, `str.upper`, `str.count`, `in`, `str(int)` and
    the code-point ordering `sorted` uses on strings. Case mapping is ASCII only. */
module Strings {

  predicate StartsWith(s: string, p: string) {
    |p| <= |s| && s[..|p|] == p
  }

  /** `p in s` for strings. */
  predicate Contains(s: string, p: string)
    decreases |s|
  {
    StartsWith(s, p) || (s != [] && Contains(s[1..], p))
  }

  /** `s.replace(pat, rep)`: every non-overlapping occurrence, scanned left to right. */
  function ReplaceAll(s: string, pat: string, rep: string): (r: string)
    requires pat != []
    ensures |pat| == 1 && pat[0] !in rep ==> pat[0] !in r
    ensures pat[0] !in s ==> r == s
    decreases |s|
  {
    if s == [] then []
    else if StartsWith(s, pat) then rep + ReplaceAll(s[|pat|..], pat, rep)
    else [s[0]] + ReplaceAll(s[1..], pat, rep)
  }

  /** Replacing is compositional at a point where no occurrence can straddle the cut. */
  lemma {:induction false} ReplaceAllPrefixChar(c: char, s: string, pat: string, rep: string)
    requires pat != [] && c != pat[0]
    ensures ReplaceAll([c] + s, pat, rep) == [c] + ReplaceAll(s, pat, rep)
  {
    var t := [c] + s;
    assert t[1..] == s;
    assert !StartsWith(t, pat) by { if |pat| <= |t| { assert t[..|pat|][0] == c; } }
  }

  lemma {:induction false} ReplaceAllPrefixPat(s: string, pat: string, rep: string)
    requires pat != []
    ensures ReplaceAll(pat + s, pat, rep) == rep + ReplaceAll(s, pat, rep)
  {
    var t := pat + s;
    assert t[..|pat|] == pat;
    assert t[|pat|..] == s;
  }

  /** Some character of `u` differs from `p` at the same index, before either ends. */
  predicate Mismatch(u: string, p: string) {
    exists k :: 0 <= k < |u| && k < |p| && u[k] != p[k]
  }

  /** No occurrence of `pat` can start inside `w`, whatever follows `w`. */
  predicate Blocks(w: string, pat: string)
    requires pat != []
  {
    forall i :: 0 <= i < |w| && w[i] == pat[0] ==> Mismatch(w[i..], pat)
  }

  lemma MismatchExtends(u: string, s: string, p: string)
    requires Mismatch(u, p)
    ensures !StartsWith(u + s, p)
  {
    var k :| 0 <= k < |u| && k < |p| && u[k] != p[k];
    var t := u + s;
    assert t[k] == u[k];
    if |p| <= |t| { assert t[..|p|][k] == t[k]; }
  }

  lemma BlocksTail(w: string, pat: string)
    requires pat != [] && w != [] && Blocks(w, pat)
    ensures Blocks(w[1..], pat)
  {
    forall i | 0 <= i < |w[1..]| && w[1..][i] == pat[0] ensures Mismatch(w[1..][i..], pat) {
      assert w[1..][i..] == w[i + 1..];
      assert w[i + 1] == pat[0];
    }
  }

  lemma BlocksHead(w: string, s: string, pat: string)
    requires pat != [] && w != [] && Blocks(w, pat)
    ensures !StartsWith(w + s, pat)
  {
    var t := w + s;
    if w[0] == pat[0] {
      assert w[0..] == w;
      MismatchExtends(w, s, pat);
    } else if |pat| <= |t| {
      assert t[..|pat|][0] == w[0];
    }
  }

  lemma ReplaceAllSkipHead(t: string, pat: string, rep: string)
    requires pat != [] && t != [] && !StartsWith(t, pat)
    ensures ReplaceAll(t, pat, rep) == [t[0]] + ReplaceAll(t[1..], pat, rep)
  {
  }

  lemma Assoc(a: string, b: string, c: string)
    ensures a + b + c == a + (b + c)
  {
  }

  lemma ConsAssoc(c: char, a: string, b: string)
    ensures [c] + (a + b) == [c] + a + b
  {
  }

  /** One character of a word passes through `replace` when no occurrence starts at it. */
  lemma ReplaceAllStep(w: string, s: string, pat: string, rep: string)
    requires pat != [] && w != [] && !StartsWith(w + s, pat)
    requires ReplaceAll(w[1..] + s, pat, rep) == w[1..] + ReplaceAll(s, pat, rep)
    ensures ReplaceAll(w + s, pat, rep) == w + ReplaceAll(s, pat, rep)
  {
    var t := w + s;
    assert t[0] == w[0] && t[1..] == w[1..] + s;
    ReplaceAllSkipHead(t, pat, rep);
    assert w == [w[0]] + w[1..];
    ConsAssoc(w[0], w[1..], ReplaceAll(s, pat, rep));
  }

  /** A word that blocks the pattern passes through `replace` unchanged. */
  lemma {:induction false} ReplaceAllBlocked(w: string, s: string, pat: string, rep: string)
    requires pat != [] && Blocks(w, pat)
    ensures ReplaceAll(w + s, pat, rep) == w + ReplaceAll(s, pat, rep)
    decreases |w|
  {
    if w == [] {
      assert w + s == s;
    } else {
      BlocksHead(w, s, pat);
      BlocksTail(w, pat);
      ReplaceAllBlocked(w[1..], s, pat, rep);
      ReplaceAllStep(w, s, pat, rep);
    }
  }

  function UpperChar(c: char): char {
    if 'a' <= c <= 'z' then (c as int - 32) as char else c
  }

  function LowerChar(c: char): char {
    if 'A' <= c <= 'Z' then (c as int + 32) as char else c
  }

  /** `s.upper()`, ASCII letters only. */
  function Upper(s: string): (r: string)
    ensures |r| == |s|
    ensures forall i :: 0 <= i < |s| ==> r[i] == UpperChar(s[i])
    decreases |s|
  {
    if s == [] then [] else [UpperChar(s[0])] + Upper(s[1..])
  }

  lemma {:induction false} UpperAppend(a: string, b: string)
    ensures Upper(a + b) == Upper(a) + Upper(b)
  {
    if a == [] {
      assert a + b == b;
    } else {
      assert (a + b)[0] == a[0];
      assert (a + b)[1..] == a[1..] + b;
      UpperAppend(a[1..], b);
      ConsAssoc(UpperChar(a[0]), Upper(a[1..]), Upper(b));
    }
  }

  /** `s.count(c)` for a one-character argument. */
  function Count(s: string, c: char): (n: nat)
    ensures n <= |s|
    ensures n == 0 <==> c !in s
    decreases |s|
  {
    if s == [] then 0 else (if s[0] == c then 1 else 0) + Count(s[1..], c)
  }

  lemma {:induction false} CountAppend(a: string, b: string, c: char)
    ensures Count(a + b, c) == Count(a, c) + Count(b, c)
  {
    if a == [] {
      assert a + b == b;
    } else {
      assert (a + b)[0] == a[0];
      assert (a + b)[1..] == a[1..] + b;
      CountAppend(a[1..], b, c);
    }
  }

  /** Index of the first occurrence of `c` in `s`. */
  function IndexOf(s: string, c: char): (i: nat)
    requires c in s
    ensures i < |s| && s[i] == c && c !in s[..i]
    decreases |s|
  {
    if s[0] == c then 0
    else
      var j := IndexOf(s[1..], c);
      assert s[..j + 1] == [s[0]] + s[1..][..j];
      j + 1
  }

  /** `s.split(sep)` with a one-character separator. */
  function Split(s: string, sep: char): (parts: seq<string>)
    ensures |parts| >= 1
    ensures forall i :: 0 <= i < |parts| ==> sep !in parts[i]
    decreases |s|
  {
    if sep !in s then [s]
    else
      var i := IndexOf(s, sep);
      [s[..i]] + Split(s[i + 1..], sep)
  }

  /** `sep.join(parts)`. */
  function Join(parts: seq<string>, sep: string): string
    decreases |parts|
  {
    if parts == [] then []
    else if |parts| == 1 then parts[0]
    else parts[0] + sep + Join(parts[1..], sep)
  }

  lemma JoinCons(a: string, rest: seq<string>, sep: string)
    requires |rest| >= 1
    ensures Join([a] + rest, sep) == a + sep + Join(rest, sep)
  {
    var parts := [a] + rest;
    assert parts[0] == a && parts[1..] == rest;
  }

  lemma Join3(a: string, b: string, c: string, sep: string)
    ensures Join([a, b, c], sep) == a + sep + b + sep + c
  {
    assert Join([c], sep) == c;
    JoinCons(b, [c], sep);
    assert [b] + [c] == [b, c];
    JoinCons(a, [b, c], sep);
    assert [a] + [b, c] == [a, b, c];
    assert a + sep + (b + sep + c) == a + sep + b + sep + c;
  }

  /** Joining the pieces of a split gives the string back. */
  lemma {:induction false} JoinSplit(s: string, sep: char)
    ensures Join(Split(s, sep), [sep]) == s
    decreases |s|
  {
    if sep in s {
      var i := IndexOf(s, sep);
      var rest := Split(s[i + 1..], sep);
      assert Split(s, sep) == [s[..i]] + rest;
      JoinCons(s[..i], rest, [sep]);
      JoinSplit(s[i + 1..], sep);
      assert s == s[..i] + [sep] + s[i + 1..];
    } else {
      assert Split(s, sep) == [s];
    }
  }

  lemma {:induction false} IndexOfAfter(a: string, c: char, b: string)
    requires c !in a
    ensures IndexOf(a + [c] + b, c) == |a|
    decreases |a|
  {
    if a != [] {
      assert (a + [c] + b)[1..] == a[1..] + [c] + b;
      IndexOfAfter(a[1..], c, b);
    }
  }

  /** Splitting at the first separator. */
  lemma SplitCons(a: string, sep: char, b: string)
    requires sep !in a
    ensures Split(a + [sep] + b, sep) == [a] + Split(b, sep)
  {
    var s := a + [sep] + b;
    assert s[|a|] == sep;
    IndexOfAfter(a, sep, b);
    assert s[..|a|] == a;
    assert s[|a| + 1..] == b;
  }

  /** Splitting a join of separator-free pieces gives the pieces back. */
  lemma {:induction false} SplitJoin(parts: seq<string>, sep: char)
    requires |parts| >= 1
    requires forall i :: 0 <= i < |parts| ==> sep !in parts[i]
    ensures Split(Join(parts, [sep]), sep) == parts
    decreases |parts|
  {
    if |parts| > 1 {
      JoinCons(parts[0], parts[1..], [sep]);
      assert [parts[0]] + parts[1..] == parts;
      SplitCons(parts[0], sep, Join(parts[1..], [sep]));
      SplitJoin(parts[1..], sep);
    } else {
      assert Join(parts, [sep]) == parts[0];
    }
  }

  function DigitChar(d: nat): (c: char)
    requires d < 10
  {
    ('0' as int + d) as char
  }

  predicate IsDigit(c: char) {
    '0' <= c <= '9'
  }

  /** `str(n)` for a non-negative integer. */
  function NatToString(n: nat): (r: string)
    ensures |r| >= 1
    ensures forall i :: 0 <= i < |r| ==> IsDigit(r[i])
    decreases n
  {
    if n < 10 then [DigitChar(n)] else NatToString(n / 10) + [DigitChar(n % 10)]
  }

  /** `int(s)` for a string of decimal digits. */
  function ParseNat(s: string): nat
    requires forall i :: 0 <= i < |s| ==> IsDigit(s[i])
    decreases |s|
  {
    if s == [] then 0
    else
      var last := s[|s| - 1];
      assert IsDigit(last);
      ParseNat(s[..|s| - 1]) * 10 + (last as int - '0' as int)
  }

  /** `int(str(n)) == n`. */
  lemma {:induction false} ParseNatToString(n: nat)
    ensures ParseNat(NatToString(n)) == n
    decreases n
  {
    var r := NatToString(n);
    if n >= 10 {
      ParseNatToString(n / 10);
      assert r[..|r| - 1] == NatToString(n / 10);
    }
  }

  /** `str(n)` is injective. */
  lemma NatToStringInjective(m: nat, n: nat)
    requires NatToString(m) == NatToString(n)
    ensures m == n
  {
    ParseNatToString(m);
    ParseNatToString(n);
  }

  /** Three-way comparison of strings by code point (`<` on Python `str`). */
  function Cmp(a: string, b: string): (c: int)
    ensures -1 <= c <= 1
    decreases |a|
  {
    if a == [] && b == [] then 0
    else if a == [] then -1
    else if b == [] then 1
    else if a[0] < b[0] then -1
    else if a[0] > b[0] then 1
    else Cmp(a[1..], b[1..])
  }

  lemma {:induction false} CmpAntisymmetric(a: string, b: string)
    ensures Cmp(a, b) == -Cmp(b, a)
    decreases |a|
  {
    if a != [] && b != [] && a[0] == b[0] {
      CmpAntisymmetric(a[1..], b[1..]);
    }
  }

  lemma {:induction false} CmpZero(a: string, b: string)
    ensures Cmp(a, b) == 0 <==> a == b
    decreases |a|
  {
    if a != [] && b != [] && a[0] == b[0] {
      CmpZero(a[1..], b[1..]);
      assert a == [a[0]] + a[1..];
      assert b == [b[0]] + b[1..];
    }
  }

  lemma {:induction false} CmpTransitive(a: string, b: string, c: string)
    requires Cmp(a, b) <= 0 && Cmp(b, c) <= 0
    ensures Cmp(a, c) <= 0
    decreases |a|
  {
    if a != [] && b != [] && c != [] && a[0] == b[0] == c[0] {
      CmpTransitive(a[1..], b[1..], c[1..]);
    }
  }

  lemma CmpStrictTransitive(a: string, b: string, c: string)
    requires Cmp(a, b) < 0 && Cmp(b, c) <= 0
    ensures Cmp(a, c) < 0
  {
    CmpTransitive(a, b, c);
    CmpZero(a, c);
    if a == c {
      CmpAntisymmetric(b, c);
    }
  }
}
