/** The collection and string helpers of `simsi_transfer/utils/utils.py`.

    `transfer.py` and `processing_functions.py` carry their own copies of
    `remove_nan_values` and `get_unique_else_nan`; they are the same code and
    are modelled once, here. */
module Utils {
  import opened Wrappers
  import opened Strings
  import Sorting
  import opened Peptides

  /** `[v for v in xs if pd.notnull(v)]`: the present values, in their order. */
  function RemoveNanValues<T>(xs: seq<Option<T>>): (r: seq<T>)
    ensures |r| <= |xs|
    ensures forall i :: 0 <= i < |xs| && xs[i].Some? ==> xs[i].value in r
    ensures forall v :: v in r ==> Some(v) in xs
    decreases |xs|
  {
    if xs == [] then []
    else
      var rest := RemoveNanValues(xs[1..]);
      assert forall i :: 1 <= i < |xs| ==> xs[i] == xs[1..][i - 1];
      if xs[0].Some? then [xs[0].value] + rest else rest
  }

  /** Filtering distributes over concatenation, so the kept values stay in input order. */
  lemma {:induction false} RemoveNanValuesAppend<T>(a: seq<Option<T>>, b: seq<Option<T>>)
    ensures RemoveNanValues(a + b) == RemoveNanValues(a) + RemoveNanValues(b)
    decreases |a|
  {
    if a == [] {
      assert a + b == b;
    } else {
      assert (a + b)[0] == a[0];
      assert (a + b)[1..] == a[1..] + b;
      RemoveNanValuesAppend(a[1..], b);
    }
  }

  /** A list without missing values comes back unchanged. */
  lemma {:induction false} RemoveNanValuesPresent<T>(vs: seq<T>)
    ensures RemoveNanValues(Present(vs)) == vs
    decreases |vs|
  {
    if vs != [] {
      assert Present(vs)[1..] == Present(vs[1..]);
      RemoveNanValuesPresent(vs[1..]);
    }
  }

  /** The sum of a list of reals. */
  function Sum(vs: seq<real>): real {
    if vs == [] then 0.0 else vs[0] + Sum(vs[1..])
  }

  lemma {:induction false} SumConstant(vs: seq<real>, v: real)
    requires forall i :: 0 <= i < |vs| ==> vs[i] == v
    ensures Sum(vs) == |vs| as real * v
    decreases |vs|
  {
    if vs != [] {
      SumConstant(vs[1..], v);
    }
  }
  /** Dividing a multiple of `v` by its positive factor gives `v` back. */
  lemma MulDivCancel(n: real, v: real)
    requires n > 0.0
    ensures (n * v) / n == v
  {
    var q := (n * v) / n;
    assert q * n == n * v;
    assert n * (q - v) == 0.0;
  }


  function Present<T>(vs: seq<T>): (r: seq<Option<T>>)
    ensures |r| == |vs|
    ensures forall i :: 0 <= i < |vs| ==> r[i] == Some(vs[i])
  {
    seq(|vs|, i requires 0 <= i < |vs| => Some(vs[i]))
  }

  predicate NoDuplicates<T(==,!new)>(s: seq<T>) {
    forall i, j :: 0 <= i < j < |s| ==> s[i] != s[j]
  }

  /** The elements of `xs` once each, in order of first occurrence. The
      iteration order of a Python `set` is not part of the model; this order
      stands for it. */
  function Distinct<T(==,!new)>(xs: seq<T>): (r: seq<T>)
    ensures NoDuplicates(r)
    ensures forall v :: v in r <==> v in xs
    decreases |xs|
  {
    if xs == [] then []
    else
      var init := xs[..|xs| - 1];
      var rest := Distinct(init);
      assert forall v :: v in xs <==> v in init || v == xs[|xs| - 1] by {
        assert xs == init + [xs[|xs| - 1]];
      }
      if xs[|xs| - 1] in rest then rest else rest + [xs[|xs| - 1]]
  }

  /** The first distinct element of a list is its first element. */
  lemma {:induction false} DistinctHead<T(!new)>(xs: seq<T>)
    requires xs != []
    ensures Distinct(xs) != [] && Distinct(xs)[0] == xs[0]
    decreases |xs|
  {
    var init := xs[..|xs| - 1];
    if init != [] {
      DistinctHead(init);
      assert init[0] == xs[0];
    }
  }

  /** The present values start with the first present value. */
  lemma {:induction false} RemoveNanValuesFirst<T>(xs: seq<Option<T>>, k: int)
    requires 0 <= k < |xs| && xs[k].Some? && forall j :: 0 <= j < k ==> xs[j].None?
    ensures RemoveNanValues(xs) != [] && RemoveNanValues(xs)[0] == xs[k].value
    decreases k
  {
    if k > 0 {
      assert forall j :: 0 <= j < k - 1 ==> xs[1..][j] == xs[j + 1];
      RemoveNanValuesFirst(xs[1..], k - 1);
    }
  }

  /** `remove_nan_values(set(xs))`: the distinct present values. */
  function DistinctValues<T(==,!new)>(xs: seq<Option<T>>): (r: seq<T>)
    ensures NoDuplicates(r)
    ensures forall v :: v in r <==> Some(v) in xs
  {
    Distinct(RemoveNanValues(xs))
  }

  /** With sets iterated in order of first occurrence, the first distinct
      present value is the first present value. */
  lemma DistinctValuesFirst<T(!new)>(xs: seq<Option<T>>, k: int)
    requires 0 <= k < |xs| && xs[k].Some? && forall j :: 0 <= j < k ==> xs[j].None?
    ensures DistinctValues(xs) != [] && DistinctValues(xs)[0] == xs[k].value
  {
    RemoveNanValuesFirst(xs, k);
    DistinctHead(RemoveNanValues(xs));
  }

  /** The present values of `xs` are exactly `v`. */
  ghost predicate OnlyValue<T(!new)>(xs: seq<Option<T>>, v: T) {
    Some(v) in xs && forall w :: Some(w) in xs ==> w == v
  }

  /** A duplicate-free list holds one element exactly when all its elements equal one value. */
  lemma SingleDistinct<T(!new)>(x: seq<T>, v: T)
    requires NoDuplicates(x)
    ensures (|x| == 1 && x[0] == v) <==> (v in x && forall w :: w in x ==> w == v)
  {
    if v in x && (forall w :: w in x ==> w == v) && |x| >= 2 {
      assert x[0] in x && x[1] in x;
    }
  }

  lemma DistinctValuesSingle<T(!new)>(xs: seq<Option<T>>)
    ensures forall v :: (|DistinctValues(xs)| == 1 && DistinctValues(xs)[0] == v) <==> OnlyValue(xs, v)
  {
    var x := DistinctValues(xs);
    forall v ensures (|x| == 1 && x[0] == v) <==> OnlyValue(xs, v) {
      SingleDistinct(x, v);
    }
  }

  /** `get_unique_else_nan`: the single distinct present value, or NaN. */
  function GetUniqueElseNan<T(==,!new)>(xs: seq<Option<T>>): (r: Option<T>)
    ensures forall v :: r == Some(v) <==> OnlyValue(xs, v)
  {
    DistinctValuesSingle(xs);
    var x := DistinctValues(xs);
    if |x| == 1 then Some(x[0]) else None
  }

  function SemicolonSplit(s: string): seq<string> {
    Split(s, ';')
  }

  /** All `f(x)` for `x` in `lst`, concatenated. */
  function Flatten(lst: seq<string>, f: string -> seq<string>): (r: seq<string>)
    ensures forall y :: y in r <==> exists x :: x in lst && y in f(x)
    decreases |lst|
  {
    if lst == [] then []
    else
      assert forall x :: x in lst <==> x == lst[0] || x in lst[1..];
      f(lst[0]) + Flatten(lst[1..], f)
  }

  /** `apply_and_flatten`: `sorted` of the set of all `f(x)`. */
  function ApplyAndFlatten(lst: seq<string>, f: string -> seq<string>): (r: seq<string>)
    ensures Sorting.StrictlySortedStrings(r)
    ensures forall y :: y in r <==> exists x :: x in lst && y in f(x)
  {
    Sorting.SortedUniqueStrings(Flatten(lst, f))
  }

  /** `csv_list_unique`: NaN when nothing is present, the single distinct value
      unsplit, otherwise the sorted union of the `;`-separated parts. */
  function CsvListUnique(xs: seq<Option<string>>): (r: Option<string>)
    ensures r == None <==> forall v :: Some(v) !in xs
    ensures forall v :: OnlyValue(xs, v) ==> r == Some(v)
  {
    DistinctValuesSingle(xs);
    var x := DistinctValues(xs);
    if |x| == 1 then Some(x[0])
    else if |x| == 0 then None
    else Some(Join(ApplyAndFlatten(x, SemicolonSplit), ";"))
  }

  /** With two or more distinct values, the result splits back into the sorted,
      duplicate-free parts of all values. */
  lemma CsvListUniqueParts(xs: seq<Option<string>>)
    requires |DistinctValues(xs)| >= 2
    ensures CsvListUnique(xs).Some?
    ensures Sorting.StrictlySortedStrings(Split(CsvListUnique(xs).value, ';'))
    ensures forall p :: p in Split(CsvListUnique(xs).value, ';') <==>
      exists v :: Some(v) in xs && p in Split(v, ';')
  {
    var x := DistinctValues(xs);
    var parts := ApplyAndFlatten(x, SemicolonSplit);
    assert x[0] in x;
    var p0 := Split(x[0], ';')[0];
    assert p0 in SemicolonSplit(x[0]);
    assert p0 in parts;
    forall i | 0 <= i < |parts| ensures ';' !in parts[i] {
      assert parts[i] in parts;
      var v :| v in x && parts[i] in SemicolonSplit(v);
    }
    SplitJoin(parts, ';');
    forall p | p in parts ensures exists v :: Some(v) in xs && p in Split(v, ';') {
      var v :| v in x && p in SemicolonSplit(v);
    }
    forall p | exists v :: Some(v) in xs && p in Split(v, ';') ensures p in parts {
      var v :| Some(v) in xs && p in Split(v, ';');
      assert v in x && p in SemicolonSplit(v);
    }
  }

  /** `remove_modifications` of `utils.py`: deletes the phospho annotations, and
      unless `phosphoOnly` also the acetyl and oxidation annotations and the underscores. */
  function RemoveModifications(s: string, phosphoOnly: bool): (r: string)
    ensures !phosphoOnly ==> '_' !in r
    ensures '(' !in s && ('_' !in s || phosphoOnly) ==> r == s
  {
    var raw := ReplaceAll(s, PHOSPHO, "");
    if phosphoOnly then raw
    else ReplaceAll(ReplaceAll(ReplaceAll(raw, ACETYL, ""), OXIDATION, ""), "_", "")
  }

  predicate LetterResidues(ts: seq<Token>) {
    forall i :: 0 <= i < |ts| && ts[i].Residue? ==> IsResidueLetter(ts[i].aa)
  }

  /** Deleting one annotation's text from a rendering deletes that token. */
  lemma DropRender(ts: seq<Token>, t: Token)
    requires !t.Residue? && LetterResidues(ts)
    ensures ReplaceAll(Render(ts), Text(t), "") == Render(Drop(ts, t))
    ensures LetterResidues(Drop(ts, t))
    ensures Residues(Drop(ts, t)) == Residues(ts)
  {
    ReplaceRender(ts, t);
    DropResidues(ts, t);
    var d := Drop(ts, t);
    forall i | 0 <= i < |d| && d[i].Residue? ensures IsResidueLetter(d[i].aa) {
      assert d[i] in ts;
      var k :| 0 <= k < |ts| && ts[k] == d[i];
    }
  }

  /** On a MaxQuant modified sequence, removing the phospho annotations only
      leaves the rendering of the sequence without its phospho tokens, and full
      removal leaves the bare residues. */
  lemma RemoveModificationsRender(ts: seq<Token>)
    requires LetterResidues(ts)
    ensures RemoveModifications(Render(ts), true) == Render(Drop(ts, Phospho))
    ensures RemoveModifications(Render(ts), false) == Residues(ts)
  {
    DropRender(ts, Phospho);
    var d1 := Drop(ts, Phospho);
    DropRender(d1, Acetyl);
    var d2 := Drop(d1, Acetyl);
    DropRender(d2, Oxidation);
    var d3 := Drop(d2, Oxidation);
    DropRender(d3, Terminus);
    var d4 := Drop(d3, Terminus);
    assert Text(Terminus) == "_";
    forall u | u in d4 ensures u.Residue? {
      assert u in d3 && u in d2 && u in d1;
    }
    RenderBare(d4);
  }
}
