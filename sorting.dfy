/** Ordering of table rows and of value sets.

    `SortBy` is pandas' multi-column `sort_values`: a stable sort on a key made
    of typed cells, each column ascending or descending, missing cells last
    (`na_position="last"`). `SortedUniqueStrings` and `SortedUniqueInts` are
    `sorted(set(xs))`. */
module Sorting {
  import opened Wrappers
  import Strings

  /** The value of one sort column in one row. */
  datatype Cell = Text(text: Option<string>) | Real(number: Option<real>) | Int(integer: Option<int>)

  /** One sort column with its direction. */
  datatype Column = Asc(cell: Cell) | Desc(cell: Cell)

  type Key = seq<Column>

  function Sign(x: real): int {
    if x < 0.0 then -1 else if x > 0.0 then 1 else 0
  }

  function IntSign(x: int): int {
    if x < 0 then -1 else if x > 0 then 1 else 0
  }

  function CellKind(c: Cell): int {
    match c
    case Text(_) => 0
    case Real(_) => 1
    case Int(_) => 2
  }

  predicate Missing(c: Cell) {
    match c
    case Text(v) => v.None?
    case Real(v) => v.None?
    case Int(v) => v.None?
  }

  /** Ascending comparison of two present values of the same kind. */
  function ValueCmp(a: Cell, b: Cell): int
    requires CellKind(a) == CellKind(b) && !Missing(a) && !Missing(b)
  {
    match a
    case Text(x) => Strings.Cmp(x.value, b.text.value)
    case Real(x) => Sign(x.value - b.number.value)
    case Int(x) => IntSign(x.value - b.integer.value)
  }

  /** Comparison of two cells of one column; a missing cell sorts after every present one. */
  function CellCmp(a: Cell, b: Cell, descending: bool): int {
    if CellKind(a) != CellKind(b) then IntSign(CellKind(a) - CellKind(b))
    else if Missing(a) && Missing(b) then 0
    else if Missing(a) then 1
    else if Missing(b) then -1
    else if descending then -ValueCmp(a, b)
    else ValueCmp(a, b)
  }

  function ColumnCmp(a: Column, b: Column): int {
    if a.Asc? && b.Desc? then -1
    else if a.Desc? && b.Asc? then 1
    else CellCmp(a.cell, b.cell, a.Desc?)
  }

  /** Lexicographic comparison of two keys, column by column. */
  function KeyCmp(a: Key, b: Key): int
    decreases |a|
  {
    if a == [] && b == [] then 0
    else if a == [] then -1
    else if b == [] then 1
    else if ColumnCmp(a[0], b[0]) != 0 then ColumnCmp(a[0], b[0])
    else KeyCmp(a[1..], b[1..])
  }

  lemma ValueCmpProperties(a: Cell, b: Cell, c: Cell)
    requires CellKind(a) == CellKind(b) == CellKind(c)
    requires !Missing(a) && !Missing(b) && !Missing(c)
    ensures ValueCmp(a, b) == -ValueCmp(b, a)
    ensures ValueCmp(a, a) == 0
    ensures ValueCmp(a, b) <= 0 && ValueCmp(b, c) <= 0 ==> ValueCmp(a, c) <= 0
    ensures ValueCmp(a, b) >= 0 && ValueCmp(b, c) >= 0 ==> ValueCmp(a, c) >= 0
  {
    if a.Text? {
      Strings.CmpAntisymmetric(a.text.value, b.text.value);
      Strings.CmpZero(a.text.value, a.text.value);
      if ValueCmp(a, b) <= 0 && ValueCmp(b, c) <= 0 {
        Strings.CmpTransitive(a.text.value, b.text.value, c.text.value);
      }
      if ValueCmp(a, b) >= 0 && ValueCmp(b, c) >= 0 {
        Strings.CmpAntisymmetric(b.text.value, c.text.value);
        Strings.CmpAntisymmetric(a.text.value, c.text.value);
        Strings.CmpTransitive(c.text.value, b.text.value, a.text.value);
      }
    }
  }

  lemma ColumnCmpProperties(a: Column, b: Column, c: Column)
    ensures ColumnCmp(a, b) == -ColumnCmp(b, a)
    ensures ColumnCmp(a, a) == 0
    ensures ColumnCmp(a, b) <= 0 && ColumnCmp(b, c) <= 0 ==> ColumnCmp(a, c) <= 0
    ensures ColumnCmp(a, b) == 0 && ColumnCmp(b, c) == 0 ==> ColumnCmp(a, c) == 0
  {
    if CellKind(a.cell) == CellKind(b.cell) == CellKind(c.cell)
      && !Missing(a.cell) && !Missing(b.cell) && !Missing(c.cell)
    {
      ValueCmpProperties(a.cell, b.cell, c.cell);
    }
    if CellKind(a.cell) == CellKind(b.cell) && !Missing(a.cell) && !Missing(b.cell) {
      ValueCmpProperties(a.cell, b.cell, b.cell);
    }
    if !Missing(a.cell) {
      ValueCmpProperties(a.cell, a.cell, a.cell);
    }
  }

  lemma {:induction false} KeyCmpAntisymmetric(a: Key, b: Key)
    ensures KeyCmp(a, b) == -KeyCmp(b, a)
    decreases |a|
  {
    if a != [] && b != [] {
      ColumnCmpProperties(a[0], b[0], b[0]);
      KeyCmpAntisymmetric(a[1..], b[1..]);
    }
  }

  lemma {:induction false} KeyCmpReflexive(a: Key)
    ensures KeyCmp(a, a) == 0
    decreases |a|
  {
    if a != [] {
      ColumnCmpProperties(a[0], a[0], a[0]);
      KeyCmpReflexive(a[1..]);
    }
  }

  lemma {:induction false} KeyCmpTransitive(a: Key, b: Key, c: Key)
    requires KeyCmp(a, b) <= 0 && KeyCmp(b, c) <= 0
    ensures KeyCmp(a, c) <= 0
    ensures KeyCmp(a, b) == 0 && KeyCmp(b, c) == 0 ==> KeyCmp(a, c) == 0
    decreases |a|
  {
    if a != [] && b != [] && c != [] {
      ColumnCmpProperties(a[0], b[0], c[0]);
      ColumnCmpProperties(b[0], a[0], c[0]);
      ColumnCmpProperties(a[0], c[0], b[0]);
      ColumnCmpProperties(c[0], b[0], a[0]);
      ColumnCmpProperties(b[0], c[0], a[0]);
      if ColumnCmp(a[0], b[0]) == 0 && ColumnCmp(b[0], c[0]) == 0 {
        KeyCmpTransitive(a[1..], b[1..], c[1..]);
      }
    }
  }

  ghost predicate SortedBy<T>(s: seq<T>, key: T -> Key) {
    forall i, j :: 0 <= i < j < |s| ==> KeyCmp(key(s[i]), key(s[j])) <= 0
  }

  /** Places `x` before the first element whose key is not smaller than its own. */
  function Insert<T>(x: T, s: seq<T>, key: T -> Key): (r: seq<T>)
    ensures |r| == |s| + 1
    decreases |s|
  {
    if s == [] then [x]
    else if KeyCmp(key(x), key(s[0])) <= 0 then [x] + s
    else [s[0]] + Insert(x, s[1..], key)
  }

  lemma {:induction false} InsertPermutes<T>(x: T, s: seq<T>, key: T -> Key)
    ensures multiset(Insert(x, s, key)) == multiset(s) + multiset{x}
    decreases |s|
  {
    if s != [] && KeyCmp(key(x), key(s[0])) > 0 {
      InsertPermutes(x, s[1..], key);
      assert s == [s[0]] + s[1..];
    }
  }

  /** Every key in `s` is at least `k`. */
  ghost predicate BoundedBelow<T>(k: Key, s: seq<T>, key: T -> Key) {
    forall j :: 0 <= j < |s| ==> KeyCmp(k, key(s[j])) <= 0
  }

  lemma {:induction false} InsertBoundedBelow<T>(k: Key, x: T, s: seq<T>, key: T -> Key)
    requires BoundedBelow(k, s, key) && KeyCmp(k, key(x)) <= 0
    ensures BoundedBelow(k, Insert(x, s, key), key)
    decreases |s|
  {
    if s != [] && KeyCmp(key(x), key(s[0])) > 0 {
      InsertBoundedBelow(k, x, s[1..], key);
      var r := Insert(x, s, key);
      forall j | 0 <= j < |r| ensures KeyCmp(k, key(r[j])) <= 0 {
        if j > 0 { assert r[j] == Insert(x, s[1..], key)[j - 1]; }
      }
    }
  }

  lemma SortedCons<T>(a: T, t: seq<T>, key: T -> Key)
    requires SortedBy(t, key) && BoundedBelow(key(a), t, key)
    ensures SortedBy([a] + t, key)
  {
    var r := [a] + t;
    forall i, j | 0 <= i < j < |r| ensures KeyCmp(key(r[i]), key(r[j])) <= 0 {
      assert r[j] == t[j - 1];
      if i > 0 { assert r[i] == t[i - 1]; }
    }
  }

  lemma SortedHead<T>(s: seq<T>, key: T -> Key)
    requires SortedBy(s, key) && s != []
    ensures SortedBy(s[1..], key) && BoundedBelow(key(s[0]), s[1..], key)
  {
    forall j | 0 <= j < |s[1..]| ensures KeyCmp(key(s[0]), key(s[1..][j])) <= 0 {
      assert s[1..][j] == s[j + 1];
    }
  }

  lemma {:induction false} InsertSorted<T>(x: T, s: seq<T>, key: T -> Key)
    requires SortedBy(s, key)
    ensures SortedBy(Insert(x, s, key), key)
    decreases |s|
  {
    if s == [] {
    } else if KeyCmp(key(x), key(s[0])) <= 0 {
      SortedHead(s, key);
      assert BoundedBelow(key(x), s, key) by {
        forall j | 0 <= j < |s| ensures KeyCmp(key(x), key(s[j])) <= 0 {
          if j > 0 {
            assert s[j] == s[1..][j - 1];
            KeyCmpTransitive(key(x), key(s[0]), key(s[j]));
          }
        }
      }
      SortedCons(x, s, key);
    } else {
      SortedHead(s, key);
      InsertSorted(x, s[1..], key);
      KeyCmpAntisymmetric(key(x), key(s[0]));
      InsertBoundedBelow(key(s[0]), x, s[1..], key);
      SortedCons(s[0], Insert(x, s[1..], key), key);
    }
  }

  /** pandas `sort_values` on several columns: a stable sort by `key`. */
  function SortBy<T>(xs: seq<T>, key: T -> Key): (r: seq<T>)
    ensures |r| == |xs|
    decreases |xs|
  {
    if xs == [] then [] else Insert(xs[0], SortBy(xs[1..], key), key)
  }

  /** The sort returns the same rows, in key order. */
  lemma {:induction false} SortByCorrect<T>(xs: seq<T>, key: T -> Key)
    ensures multiset(SortBy(xs, key)) == multiset(xs)
    ensures SortedBy(SortBy(xs, key), key)
    decreases |xs|
  {
    if xs != [] {
      SortByCorrect(xs[1..], key);
      InsertPermutes(xs[0], SortBy(xs[1..], key), key);
      InsertSorted(xs[0], SortBy(xs[1..], key), key);
      assert xs == [xs[0]] + xs[1..];
    }
  }

  /** The rows whose key compares equal to `k`, in their order. */
  function Ties<T>(s: seq<T>, key: T -> Key, k: Key): (r: seq<T>)
    ensures |r| <= |s|
    decreases |s|
  {
    if s == [] then []
    else (if KeyCmp(key(s[0]), k) == 0 then [s[0]] else []) + Ties(s[1..], key, k)
  }

  /** A row that sorts strictly after another cannot tie with the same key as it. */
  lemma TiesExclusive(a: Key, b: Key, k: Key)
    requires KeyCmp(a, b) > 0
    ensures !(KeyCmp(a, k) == 0 && KeyCmp(b, k) == 0)
  {
    if KeyCmp(a, k) == 0 && KeyCmp(b, k) == 0 {
      KeyCmpAntisymmetric(k, b);
      KeyCmpTransitive(a, k, b);
    }
  }

  lemma TiesCons<T>(a: T, t: seq<T>, key: T -> Key, k: Key)
    ensures Ties([a] + t, key, k) == (if KeyCmp(key(a), k) == 0 then [a] else []) + Ties(t, key, k)
  {
    assert ([a] + t)[1..] == t;
  }

  lemma {:induction false} InsertTies<T>(x: T, s: seq<T>, key: T -> Key, k: Key)
    ensures Ties(Insert(x, s, key), key, k)
         == (if KeyCmp(key(x), k) == 0 then [x] else []) + Ties(s, key, k)
    decreases |s|
  {
    if s == [] {
      TiesCons(x, s, key, k);
    } else if KeyCmp(key(x), key(s[0])) <= 0 {
      TiesCons(x, s, key, k);
    } else {
      var t := Insert(x, s[1..], key);
      assert Insert(x, s, key) == [s[0]] + t;
      TiesCons(s[0], t, key, k);
      InsertTies(x, s[1..], key, k);
      TiesCons(s[0], s[1..], key, k);
      assert [s[0]] + s[1..] == s;
      TiesExclusive(key(x), key(s[0]), k);
    }
  }

  /** The sort is stable: rows that tie keep their input order. */
  lemma {:induction false} SortByStable<T>(xs: seq<T>, key: T -> Key, k: Key)
    ensures Ties(SortBy(xs, key), key, k) == Ties(xs, key, k)
    decreases |xs|
  {
    if xs != [] {
      SortByStable(xs[1..], key, k);
      InsertTies(xs[0], SortBy(xs[1..], key), key, k);
    }
  }

  /** No two elements of `s` share a value of `f`. */
  ghost predicate DistinctBy<T, K>(s: seq<T>, f: T -> K) {
    forall i, j :: 0 <= i < j < |s| ==> f(s[i]) != f(s[j])
  }

  lemma {:induction false} InsertDistinctBy<T, K>(x: T, s: seq<T>, key: T -> Key, f: T -> K)
    requires DistinctBy(s, f) && forall y :: y in s ==> f(y) != f(x)
    ensures DistinctBy(Insert(x, s, key), f)
    decreases |s|
  {
    if s != [] && KeyCmp(key(x), key(s[0])) > 0 {
      var t := Insert(x, s[1..], key);
      assert DistinctBy(s[1..], f) by {
        forall i, j | 0 <= i < j < |s[1..]| ensures f(s[1..][i]) != f(s[1..][j]) {
          assert s[1..][i] == s[i + 1] && s[1..][j] == s[j + 1];
        }
      }
      InsertDistinctBy(x, s[1..], key, f);
      InsertPermutes(x, s[1..], key);
      forall y | y in t ensures f(y) != f(s[0]) {
        assert y in multiset(t);
        if y != x {
          assert y in s[1..];
          var k :| 0 <= k < |s[1..]| && s[1..][k] == y;
          assert s[k + 1] == y;
        }
      }
      var r := [s[0]] + t;
      forall i, j | 0 <= i < j < |r| ensures f(r[i]) != f(r[j]) {
        assert r[j] == t[j - 1];
        assert r[j] in t;
        if i > 0 { assert r[i] == t[i - 1]; }
      }
    } else if s != [] {
      var r := [x] + s;
      forall i, j | 0 <= i < j < |r| ensures f(r[i]) != f(r[j]) {
        assert r[j] == s[j - 1];
        assert r[j] in s;
        if i > 0 { assert r[i] == s[i - 1]; }
      }
    }
  }

  /** Sorting keeps a column that was duplicate-free duplicate-free. */
  lemma {:induction false} SortByDistinctBy<T, K>(xs: seq<T>, key: T -> Key, f: T -> K)
    requires DistinctBy(xs, f)
    ensures DistinctBy(SortBy(xs, key), f)
    decreases |xs|
  {
    if xs != [] {
      assert DistinctBy(xs[1..], f) by {
        forall i, j | 0 <= i < j < |xs[1..]| ensures f(xs[1..][i]) != f(xs[1..][j]) {
          assert xs[1..][i] == xs[i + 1] && xs[1..][j] == xs[j + 1];
        }
      }
      SortByDistinctBy(xs[1..], key, f);
      SortByCorrect(xs[1..], key);
      forall y | y in SortBy(xs[1..], key) ensures f(y) != f(xs[0]) {
        assert y in multiset(SortBy(xs[1..], key));
        var k :| 0 <= k < |xs[1..]| && xs[1..][k] == y;
        assert xs[k + 1] == y;
      }
      InsertDistinctBy(xs[0], SortBy(xs[1..], key), key, f);
    }
  }

  // ---------------------------------------------------------------------------
  // sorted(set(xs)) for strings and integers

  ghost predicate StrictlySortedStrings(s: seq<string>) {
    forall i, j :: 0 <= i < j < |s| ==> Strings.Cmp(s[i], s[j]) < 0
  }

  function InsertUniqueString(x: string, s: seq<string>): (r: seq<string>)
    requires StrictlySortedStrings(s)
    ensures StrictlySortedStrings(r)
    ensures forall y :: y in r <==> y in s || y == x
    decreases |s|
  {
    if s == [] then [x]
    else if x == s[0] then s
    else if Strings.Cmp(x, s[0]) < 0 then
      assert forall j :: 0 <= j < |s| ==> Strings.Cmp(x, s[j]) < 0 by {
        forall j | 0 <= j < |s| ensures Strings.Cmp(x, s[j]) < 0 {
          if j > 0 { Strings.CmpStrictTransitive(x, s[0], s[j]); }
        }
      }
      StrictLeadString(x, s);
      [x] + s
    else
      var t := InsertUniqueString(x, s[1..]);
      Strings.CmpAntisymmetric(x, s[0]);
      Strings.CmpZero(x, s[0]);
      assert forall j :: 0 <= j < |t| ==> Strings.Cmp(s[0], t[j]) < 0 by {
        forall j | 0 <= j < |t| ensures Strings.Cmp(s[0], t[j]) < 0 {
          if t[j] != x {
            assert t[j] in s[1..];
            var k :| 0 <= k < |s[1..]| && s[1..][k] == t[j];
            assert s[k + 1] == t[j];
          }
        }
      }
      StrictLeadString(s[0], t);
      [s[0]] + t
  }

  lemma StrictLeadString(x: string, s: seq<string>)
    requires StrictlySortedStrings(s)
    requires forall j :: 0 <= j < |s| ==> Strings.Cmp(x, s[j]) < 0
    ensures StrictlySortedStrings([x] + s)
  {
    var r := [x] + s;
    forall i, j | 0 <= i < j < |r| ensures Strings.Cmp(r[i], r[j]) < 0 {
      if i > 0 { assert r[i] == s[i - 1] && r[j] == s[j - 1]; }
      else { assert r[j] == s[j - 1]; }
    }
  }

  /** `sorted(set(xs))` for strings: strictly increasing, holding exactly the values of `xs`. */
  function SortedUniqueStrings(xs: seq<string>): (r: seq<string>)
    ensures StrictlySortedStrings(r)
    ensures forall y :: y in r <==> y in xs
    decreases |xs|
  {
    if xs == [] then []
    else
      var t := SortedUniqueStrings(xs[1..]);
      assert xs == [xs[0]] + xs[1..];
      InsertUniqueString(xs[0], t)
  }

  /** The head of a strictly increasing sequence precedes every later element. */
  lemma StrictHead(a: seq<string>)
    requires StrictlySortedStrings(a) && a != []
    ensures StrictlySortedStrings(a[1..])
    ensures forall y :: y in a[1..] ==> Strings.Cmp(a[0], y) < 0 && y != a[0]
    ensures forall y :: y in a ==> y == a[0] || y in a[1..]
  {
    forall y | y in a[1..] ensures Strings.Cmp(a[0], y) < 0 && y != a[0] {
      var k :| 0 <= k < |a[1..]| && a[1..][k] == y;
      assert a[k + 1] == y;
      Strings.CmpZero(a[0], y);
    }
    assert a == [a[0]] + a[1..];
  }

  lemma SameElementsEmpty<T>(a: seq<T>, b: seq<T>)
    requires forall y :: y in a <==> y in b
    ensures a == [] <==> b == []
  {
    if a != [] { assert a[0] in b; }
    if b != [] { assert b[0] in a; }
  }

  /** Two strictly increasing sequences with the same values are equal, so
      `sorted(set(xs))` depends only on the set. */
  lemma {:induction false} StrictlySortedStringsUnique(a: seq<string>, b: seq<string>)
    requires StrictlySortedStrings(a) && StrictlySortedStrings(b)
    requires forall y :: y in a <==> y in b
    ensures a == b
    decreases |a|
  {
    SameElementsEmpty(a, b);
    if a != [] && b != [] {
      StrictHead(a);
      StrictHead(b);
      assert a[0] in b && b[0] in a;
      if a[0] != b[0] {
        Strings.CmpAntisymmetric(a[0], b[0]);
        assert false;
      }
      StrictlySortedStringsUnique(a[1..], b[1..]);
      assert a == [a[0]] + a[1..] && b == [b[0]] + b[1..];
    }
  }

  ghost predicate StrictlySortedInts(s: seq<int>) {
    forall i, j :: 0 <= i < j < |s| ==> s[i] < s[j]
  }

  function InsertUniqueInt(x: int, s: seq<int>): (r: seq<int>)
    requires StrictlySortedInts(s)
    ensures StrictlySortedInts(r)
    ensures forall y :: y in r <==> y in s || y == x
    decreases |s|
  {
    if s == [] then [x]
    else if x == s[0] then s
    else if x < s[0] then
      StrictLeadInt(x, s);
      [x] + s
    else
      var t := InsertUniqueInt(x, s[1..]);
      assert forall j :: 0 <= j < |t| ==> s[0] < t[j] by {
        forall j | 0 <= j < |t| ensures s[0] < t[j] {
          if t[j] != x {
            assert t[j] in s[1..];
            var k :| 0 <= k < |s[1..]| && s[1..][k] == t[j];
            assert s[k + 1] == t[j];
          }
        }
      }
      StrictLeadInt(s[0], t);
      [s[0]] + t
  }

  lemma StrictLeadInt(x: int, s: seq<int>)
    requires StrictlySortedInts(s)
    requires forall j :: 0 <= j < |s| ==> x < s[j]
    ensures StrictlySortedInts([x] + s)
  {
    var r := [x] + s;
    forall i, j | 0 <= i < j < |r| ensures r[i] < r[j] {
      if i > 0 { assert r[i] == s[i - 1] && r[j] == s[j - 1]; }
      else { assert r[j] == s[j - 1]; }
    }
  }

  /** `sorted(set(xs))` for integers. */
  function SortedUniqueInts(xs: seq<int>): (r: seq<int>)
    ensures StrictlySortedInts(r)
    ensures forall y :: y in r <==> y in xs
    decreases |xs|
  {
    if xs == [] then []
    else
      var t := SortedUniqueInts(xs[1..]);
      assert xs == [xs[0]] + xs[1..];
      InsertUniqueInt(xs[0], t)
  }
}
