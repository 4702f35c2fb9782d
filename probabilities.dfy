/** `calculate_average_probabilities` of `simsi_transfer/transfer.py`: the
    phospho-site probabilities of the members of a cluster, averaged per
    position and written back into the sequence. */
module Probabilities {
  import opened Wrappers
  import opened Strings
  import opened Utils
  import opened ProbText
  import Sorting
  import opened Consensus

  /** A `dict` from a position in the bare sequence to a probability. */
  type Dict = map<nat, real>

  ghost predicate NumbersAtOdd(parts: seq<string>) {
    forall i :: 0 <= i < |parts| && i % 2 == 1 ==> IsNumber(parts[i])
  }

  lemma NumbersAtOddDrop(parts: seq<string>, k: nat)
    requires NumbersAtOdd(parts) && k <= |parts| && k % 2 == 0
    ensures NumbersAtOdd(parts[k..])
  {
    forall i | 0 <= i < |parts[k..]| && i % 2 == 1 ensures IsNumber(parts[k..][i]) {
      assert parts[k..][i] == parts[i + k];
    }
  }

  /** The dictionary built from the pieces of a split, added to `acc`, the
      text before the first piece being `start` long: each group is keyed by
      the length of all text before it, a later group overriding an earlier one. */
  function PartsDict(parts: seq<string>, start: nat, acc: Dict): Dict
    requires NumbersAtOdd(parts)
    decreases |parts|
  {
    if |parts| < 2 then acc
    else
      var s := start + |parts[0]|;
      NumbersAtOddDrop(parts, 2);
      PartsDict(parts[2..], s, acc[s := NumberValue(parts[1])])
  }

  /** The keys `PartsDict` sets, appended to `acc` in the order they are set. */
  function PartsKeys(parts: seq<string>, start: nat, acc: seq<nat>): seq<nat>
    requires NumbersAtOdd(parts)
    decreases |parts|
  {
    if |parts| < 2 then acc
    else
      var s := start + |parts[0]|;
      NumbersAtOddDrop(parts, 2);
      PartsKeys(parts[2..], s, acc + [s])
  }

  lemma {:induction false} PartsKeysDict(parts: seq<string>, start: nat, acc: seq<nat>, accd: Dict)
    requires NumbersAtOdd(parts)
    requires forall k :: k in acc <==> k in accd
    ensures forall k :: k in PartsKeys(parts, start, acc) <==> k in PartsDict(parts, start, accd)
    decreases |parts|
  {
    if |parts| >= 2 {
      var s := start + |parts[0]|;
      NumbersAtOddDrop(parts, 2);
      PartsKeysDict(parts[2..], s, acc + [s], accd[s := NumberValue(parts[1])]);
    }
  }

  lemma {:induction false} PartsDictNonNegative(parts: seq<string>, start: nat, acc: Dict)
    requires NumbersAtOdd(parts)
    requires forall k :: k in acc ==> acc[k] >= 0.0
    ensures forall k :: k in PartsDict(parts, start, acc) ==> PartsDict(parts, start, acc)[k] >= 0.0
    decreases |parts|
  {
    if |parts| >= 2 {
      NumbersAtOddDrop(parts, 2);
      var s := start + |parts[0]|;
      PartsDictNonNegative(parts[2..], s, acc[s := NumberValue(parts[1])]);
    }
  }

  function ProbDict(probstring: string): Dict {
    PartsDict(SplitProbabilities(probstring), 0, map[])
  }

  function ProbKeys(probstring: string): (ks: seq<nat>)
    ensures forall k :: k in ks <==> k in ProbDict(probstring)
  {
    PartsKeysDict(SplitProbabilities(probstring), 0, [], map[]);
    PartsKeys(SplitProbabilities(probstring), 0, [])
  }

  /** The pieces the loop has still to visit at `listpos`. */
  function Pending(parts: seq<string>, listpos: nat): seq<string>
    requires listpos <= |parts|
  {
    if listpos % 2 == 1 && listpos < |parts| then parts[listpos + 1..] else parts[listpos..]
  }

  lemma PendingNumbers(parts: seq<string>, listpos: nat)
    requires NumbersAtOdd(parts) && listpos <= |parts|
    ensures NumbersAtOdd(Pending(parts, listpos))
  {
    if listpos % 2 == 1 && listpos < |parts| {
      NumbersAtOddDrop(parts, listpos + 1);
    } else if listpos % 2 == 0 {
      NumbersAtOddDrop(parts, listpos);
    } else {
      assert Pending(parts, listpos) == [];
    }
  }

  /** At an even position followed by a group, the loop records one entry. */
  lemma EntryStep(parts: seq<string>, listpos: nat, start: nat, probdict: Dict, found: seq<nat>)
    requires NumbersAtOdd(parts) && listpos % 2 == 0 && listpos + 1 < |parts|
    ensures NumbersAtOdd(Pending(parts, listpos)) && NumbersAtOdd(Pending(parts, listpos + 1))
    ensures var s := start + |parts[listpos]|;
      PartsDict(Pending(parts, listpos), start, probdict) ==
        PartsDict(Pending(parts, listpos + 1), s, probdict[s := NumberValue(parts[listpos + 1])]) &&
      PartsKeys(Pending(parts, listpos), start, found) == PartsKeys(Pending(parts, listpos + 1), s, found + [s])
  {
    PendingNumbers(parts, listpos);
    PendingNumbers(parts, listpos + 1);
    var rest := parts[listpos..];
    assert Pending(parts, listpos) == rest;
    assert rest[2..] == Pending(parts, listpos + 1);
    assert rest[0] == parts[listpos] && rest[1] == parts[listpos + 1];
  }

  /** Every other position leaves the dictionary as it is. */
  lemma SkipStep(parts: seq<string>, listpos: nat, start: nat, probdict: Dict, found: seq<nat>)
    requires NumbersAtOdd(parts) && listpos < |parts| && (listpos % 2 == 1 || listpos + 1 == |parts|)
    ensures NumbersAtOdd(Pending(parts, listpos)) && NumbersAtOdd(Pending(parts, listpos + 1))
    ensures PartsDict(Pending(parts, listpos), start, probdict) == PartsDict(Pending(parts, listpos + 1), start, probdict)
    ensures PartsKeys(Pending(parts, listpos), start, found) == PartsKeys(Pending(parts, listpos + 1), start, found)
  {
    PendingNumbers(parts, listpos);
    PendingNumbers(parts, listpos + 1);
    if listpos % 2 == 0 {
      assert |Pending(parts, listpos)| == 1;
      assert Pending(parts, listpos + 1) == [];
    }
  }

  /** The inner loop of `calculate_average_probabilities`: the probability
      dictionary of one string, and its keys in the order they are set. */
  method ProbabilityDict(probstring: string) returns (probdict: Dict, found: seq<nat>)
    ensures probdict == ProbDict(probstring)
    ensures found == ProbKeys(probstring)
  {
    var probsplit := SplitProbabilities(probstring);
    var start: nat := 0;
    probdict := map[];
    found := [];
    var listpos := 0;
    PendingNumbers(probsplit, 0);
    assert Pending(probsplit, 0) == probsplit;
    while listpos < |probsplit|
      invariant 0 <= listpos <= |probsplit|
      invariant NumbersAtOdd(Pending(probsplit, listpos))
      invariant PartsDict(Pending(probsplit, listpos), start, probdict) == ProbDict(probstring)
      invariant PartsKeys(Pending(probsplit, listpos), start, found) == ProbKeys(probstring)
    {
      if listpos % 2 == 0 && listpos + 1 != |probsplit| {
        EntryStep(probsplit, listpos, start, probdict, found);
        start := start + |probsplit[listpos]|;
        probdict := probdict[start := NumberValue(probsplit[listpos + 1])];
        found := found + [start];
      } else {
        SkipStep(probsplit, listpos, start, probdict, found);
      }
      listpos := listpos + 1;
    }
    PendingNumbers(probsplit, listpos);
    assert Pending(probsplit, listpos) == [];
  }

  // ---------------------------------------------------------------------------
  // Summing the dictionaries

  function Get(d: Dict, k: nat): real {
    if k in d then d[k] else 0.0
  }

  /** `Counter(a) + Counter(b)`: the keys whose sum is positive, with that sum. */
  function CounterAdd(a: Dict, b: Dict): Dict {
    map k | k in a.Keys + b.Keys && Get(a, k) + Get(b, k) > 0.0 :: Get(a, k) + Get(b, k)
  }

  /** `functools.reduce(operator.add, map(Counter, ds))`. */
  function Reduce(ds: seq<Dict>): Dict
    requires |ds| >= 1
  {
    if |ds| == 1 then ds[0] else CounterAdd(Reduce(ds[..|ds| - 1]), ds[|ds| - 1])
  }

  /** The sum over all dictionaries of the value at `k`, absent counting as 0. */
  function Total(ds: seq<Dict>, k: nat): real {
    if ds == [] then 0.0 else Total(ds[..|ds| - 1], k) + Get(ds[|ds| - 1], k)
  }

  ghost predicate NonNegative(ds: seq<Dict>) {
    forall i, k :: 0 <= i < |ds| && k in ds[i] ==> ds[i][k] >= 0.0
  }

  lemma {:induction false} TotalNonNegative(ds: seq<Dict>, k: nat)
    requires NonNegative(ds)
    ensures Total(ds, k) >= 0.0
  {
    if ds != [] {
      TotalNonNegative(ds[..|ds| - 1], k);
    }
  }

  /** Summing two or more non-negative dictionaries keeps exactly the keys with
      a positive total, each with its total. */
  lemma {:induction false} ReduceTotal(ds: seq<Dict>)
    requires |ds| >= 2 && NonNegative(ds)
    ensures forall k :: k in Reduce(ds) <==> Total(ds, k) > 0.0
    ensures forall k :: k in Reduce(ds) ==> Reduce(ds)[k] == Total(ds, k)
    decreases |ds|
  {
    var init := ds[..|ds| - 1];
    assert NonNegative(init);
    if |ds| == 2 {
      forall k ensures Total(init, k) == Get(ds[0], k) {
        assert init[..0] == [];
      }
    } else {
      ReduceTotal(init);
      forall k ensures Get(Reduce(init), k) == Total(init, k) {
        TotalNonNegative(init, k);
      }
    }
  }

  lemma {:induction false} ReduceKeys(ds: seq<Dict>)
    requires |ds| >= 1
    ensures forall k :: k in Reduce(ds) ==> exists i :: 0 <= i < |ds| && k in ds[i]
    decreases |ds|
  {
    if |ds| > 1 {
      var init := ds[..|ds| - 1];
      ReduceKeys(init);
      forall k | k in Reduce(ds) ensures exists i :: 0 <= i < |ds| && k in ds[i] {
        if k in Reduce(init) {
          var i :| 0 <= i < |init| && k in init[i];
          assert ds[i] == init[i];
        } else {
          assert k in ds[|ds| - 1];
        }
      }
    }
  }

  function Dicts(probs: seq<string>): (ds: seq<Dict>)
    ensures |ds| == |probs|
    ensures forall i :: 0 <= i < |probs| ==> ds[i] == ProbDict(probs[i])
  {
    seq(|probs|, i requires 0 <= i < |probs| => ProbDict(probs[i]))
  }

  lemma DictsNonNegative(probs: seq<string>)
    ensures NonNegative(Dicts(probs))
  {
    forall i | 0 <= i < |probs| ensures forall k :: k in ProbDict(probs[i]) ==> ProbDict(probs[i])[k] >= 0.0 {
      PartsDictNonNegative(SplitProbabilities(probs[i]), 0, map[]);
    }
  }

  /** The keys of all dictionaries, in the order the loops meet them. */
  function AllKeys(probs: seq<string>): (ks: seq<nat>)
    ensures forall k :: k in ks <==> exists i :: 0 <= i < |probs| && k in ProbDict(probs[i])
  {
    if probs == [] then []
    else
      var init := probs[..|probs| - 1];
      var rest := AllKeys(init);
      assert forall i :: 0 <= i < |init| ==> init[i] == probs[i];
      rest + ProbKeys(probs[|probs| - 1])
  }

  ghost predicate Ascending(ks: seq<nat>) {
    forall i, j :: 0 <= i < j < |ks| ==> ks[i] < ks[j]
  }

  /** The members of `s` that are keys of `res`, in the order of `s`. */
  function KeysIn(s: seq<int>, res: Dict): (ks: seq<nat>)
    requires Sorting.StrictlySortedInts(s)
    ensures Ascending(ks)
    ensures forall k: nat :: k in ks <==> k in s && k in res
  {
    if s == [] then []
    else
      var rest := KeysIn(s[1..], res);
      if s[0] >= 0 && (s[0] as nat) in res then
        var r := [s[0] as nat] + rest;
        forall i, j | 0 <= i < j < |r| ensures r[i] < r[j] {
          if i == 0 {
            assert r[j] == rest[j - 1] && rest[j - 1] in s[1..];
            var m :| 0 <= m < |s[1..]| && s[1..][m] == r[j];
            assert s[0] < s[m + 1];
          } else {
            assert r[i] == rest[i - 1] && r[j] == rest[j - 1];
          }
        }
        r
      else rest
  }

  /** `sorted(res)`, given a list holding every key. */
  function SortedKeys(res: Dict, candidates: seq<nat>): (ks: seq<nat>)
    requires forall k :: k in res ==> k in candidates
    ensures Ascending(ks)
    ensures forall k :: k in ks <==> k in res
  {
    KeysIn(Sorting.SortedUniqueInts(candidates), res)
  }

  lemma ResultKeys(probs: seq<string>)
    requires |probs| >= 1
    ensures forall k :: k in Reduce(Dicts(probs)) ==> k in AllKeys(probs)
  {
    ReduceKeys(Dicts(probs));
  }

  /** The pairs of position and formatted average, in ascending position. */
  function Entries(res: Dict, ks: seq<nat>, tots: nat, fmt: real -> string): (es: seq<(nat, string)>)
    requires forall k :: k in ks ==> k in res
    requires tots > 0
    ensures |es| == |ks|
    ensures forall i :: 0 <= i < |ks| ==> es[i] == (ks[i], fmt(res[ks[i]] / tots as real))
  {
    seq(|ks|, i requires 0 <= i < |ks| => (ks[i], fmt(res[ks[i]] / tots as real)))
  }

  /** The averaged entries of a list of probability strings. */
  function Averaged(probs: seq<string>, fmt: real -> string): seq<(nat, string)>
    requires |probs| >= 1
  {
    var res := Reduce(Dicts(probs));
    ResultKeys(probs);
    Entries(res, SortedKeys(res, AllKeys(probs)), |probs|, fmt)
  }

  /** The entries are the positions with a positive total, ascending, each with
      the formatted mean over all strings. */
  lemma AveragedEntries(probs: seq<string>, fmt: real -> string)
    requires |probs| >= 2
    ensures var es := Averaged(probs, fmt);
      (forall i, j :: 0 <= i < j < |es| ==> es[i].0 < es[j].0) &&
      (forall k :: (exists i :: 0 <= i < |es| && es[i].0 == k) <==> Total(Dicts(probs), k) > 0.0) &&
      forall i :: 0 <= i < |es| ==> es[i].1 == fmt(Total(Dicts(probs), es[i].0) / |probs| as real)
  {
    var ds := Dicts(probs);
    DictsNonNegative(probs);
    ReduceTotal(ds);
    var res := Reduce(ds);
    ResultKeys(probs);
    var ks := SortedKeys(res, AllKeys(probs));
    assert Averaged(probs, fmt) == Entries(res, ks, |probs|, fmt);
    EntriesTotals(res, ks, |probs|, fmt, ds);
  }

  /** The entries over the ascending keys of the summed dictionary list the
      positions with a positive total, each with its formatted mean. */
  lemma EntriesTotals(res: Dict, ks: seq<nat>, n: nat, fmt: real -> string, ds: seq<Dict>)
    requires n > 0 && Ascending(ks)
    requires forall k :: k in ks <==> k in res
    requires forall k :: k in res <==> Total(ds, k) > 0.0
    requires forall k :: k in res ==> res[k] == Total(ds, k)
    ensures var es := Entries(res, ks, n, fmt);
      (forall i, j :: 0 <= i < j < |es| ==> es[i].0 < es[j].0) &&
      (forall k :: (exists i :: 0 <= i < |es| && es[i].0 == k) <==> Total(ds, k) > 0.0) &&
      forall i :: 0 <= i < |es| ==> es[i].1 == fmt(Total(ds, es[i].0) / n as real)
  {
    var es := Entries(res, ks, n, fmt);
    forall k ensures (exists i :: 0 <= i < |es| && es[i].0 == k) <==> k in ks {
      if k in ks {
        var i :| 0 <= i < |ks| && ks[i] == k;
        assert es[i].0 == k;
      }
    }
    forall i | 0 <= i < |es| ensures es[i].1 == fmt(Total(ds, es[i].0) / n as real) {
      assert ks[i] in ks;
    }
  }

  // ---------------------------------------------------------------------------
  // Writing the averages back

  /** `s[:k] + f'({text})' + s[k:]`, the slices clamped as Python clamps them. */
  function InsertAt(s: string, k: nat, text: string): string {
    var c := if k <= |s| then k else |s|;
    s[..c] + "(" + text + ")" + s[c..]
  }

  /** The loop over the entries in reverse: the first `i` entries, last first. */
  function InsertDescending(s: string, es: seq<(nat, string)>, i: nat): string
    requires i <= |es|
    decreases i
  {
    if i == 0 then s else InsertDescending(InsertAt(s, es[i - 1].0, es[i - 1].1), es, i - 1)
  }

  /** `calculate_average_probabilities`. */
  function AverageProbabilities(xs: seq<Option<string>>, fmt: real -> string): (r: Option<string>)
    ensures r == None <==>
      (forall v :: Some(v) !in xs) || (|DistinctValues(xs)| >= 2 && !Agree(xs, Probabilities))
    ensures forall v :: OnlyValue(xs, v) ==> r == Some(v)
  {
    match CheckAmbiguity(xs, Probabilities)
    case Missing => None
    case Single(v) => Some(v)
    case Isomers(vs, _) =>
      var probs := RemoveNanValues(xs);
      assert vs[0] in DistinctValues(xs);
      var es := Averaged(probs, fmt);
      Some(InsertDescending(Strip(probs[0], Long), es, |es|))
  }

  lemma DictsSnoc(probs: seq<string>, n: nat)
    requires n < |probs|
    ensures Dicts(probs[..n + 1]) == Dicts(probs[..n]) + [ProbDict(probs[n])]
    ensures AllKeys(probs[..n + 1]) == AllKeys(probs[..n]) + ProbKeys(probs[n])
  {
    assert probs[..n + 1][..n] == probs[..n];
  }

  /** The outer loop: one dictionary per string, and all their keys. */
  method CollectDicts(probs: seq<string>) returns (dictlist: seq<Dict>, keys: seq<nat>)
    ensures dictlist == Dicts(probs)
    ensures keys == AllKeys(probs)
  {
    dictlist := [];
    keys := [];
    var n := 0;
    while n < |probs|
      invariant 0 <= n <= |probs|
      invariant dictlist == Dicts(probs[..n])
      invariant keys == AllKeys(probs[..n])
    {
      var probdict, found := ProbabilityDict(probs[n]);
      DictsSnoc(probs, n);
      dictlist := dictlist + [probdict];
      keys := keys + found;
      n := n + 1;
    }
    assert probs[..n] == probs;
  }

  /** The last loop: the averages written into the sequence from the last
      position to the first, so that earlier positions keep their offsets. */
  method InsertAverages(pureseq: string, sorted: seq<nat>, resdict: Dict, tots: nat, fmt: real -> string)
    returns (r: string)
    requires forall k :: k in sorted ==> k in resdict
    requires tots > 0
    ensures r == InsertDescending(pureseq, Entries(resdict, sorted, tots, fmt), |sorted|)
  {
    ghost var es := Entries(resdict, sorted, tots, fmt);
    r := pureseq;
    var i := |sorted|;
    while i > 0
      invariant 0 <= i <= |sorted|
      invariant InsertDescending(r, es, i) == InsertDescending(pureseq, es, |sorted|)
    {
      var key := sorted[i - 1];
      r := InsertAt(r, key, fmt(resdict[key] / tots as real));
      i := i - 1;
    }
  }

  /** `calculate_average_probabilities` as the source computes it: one
      dictionary per string, their sum, then the averages inserted from the
      last position to the first. `fmt` stands for `str(round(x, 3))`. */
  method CalculateAverageProbabilities(xs: seq<Option<string>>, fmt: real -> string) returns (r: Option<string>)
    ensures r == AverageProbabilities(xs, fmt)
  {
    var amb := CheckAmbiguity(xs, Probabilities);
    if amb.Missing? {
      return None;
    }
    if amb.Single? {
      return Some(amb.value);
    }
    var probs := RemoveNanValues(xs);
    assert amb.sequences[0] in DistinctValues(xs);
    var pureseq := Strip(probs[0], Long);
    var tots := |probs|;
    var dictlist, keys := CollectDicts(probs);
    var resdict := Reduce(dictlist);
    ResultKeys(probs);
    var sorted := SortedKeys(resdict, keys);
    var s := InsertAverages(pureseq, sorted, resdict, tots, fmt);
    return Some(s);
  }

  // ---------------------------------------------------------------------------
  // Probability strings as token lists

  /** `re.split` of a rendering, read off its tokens. */
  function Segments(ts: seq<PToken>, cur: string): (parts: seq<string>)
    requires GoodTokens(ts, Long)
    ensures |parts| >= 1
    ensures NumbersAtOdd(parts)
    decreases |ts|
  {
    if ts == [] then [cur]
    else
      assert GoodToken(ts[0], Long);
      assert GoodTokens(ts[1..], Long) by {
        forall i | 0 <= i < |ts[1..]| ensures GoodToken(ts[1..][i], Long) {
          assert ts[1..][i] == ts[i + 1];
        }
      }
      match ts[0]
      case Plain(c) => Segments(ts[1..], cur + [c])
      case Number(g) =>
        var rest := Segments(ts[1..], "");
        var r := [cur, g] + rest;
        assert forall i :: 2 <= i < |r| ==> r[i] == rest[i - 2];
        r
  }

  lemma GoodTokensTail(ts: seq<PToken>, p: Pattern)
    requires ts != [] && GoodTokens(ts, p)
    ensures GoodToken(ts[0], p) && GoodTokens(ts[1..], p)
  {
    forall i | 0 <= i < |ts[1..]| ensures GoodToken(ts[1..][i], p) {
      assert ts[1..][i] == ts[i + 1];
    }
  }

  lemma {:induction false} SplitRender(ts: seq<PToken>, cur: string)
    requires GoodTokens(ts, Long)
    ensures SplitFrom(PRender(ts), cur) == Segments(ts, cur)
    decreases |ts|
  {
    if ts != [] {
      GoodTokensTail(ts, Long);
      var rest := PRender(ts[1..]);
      PRenderCons(ts[0], ts[1..]);
      assert ts == [ts[0]] + ts[1..];
      match ts[0]
      case Plain(c) =>
        var s := [c] + rest;
        assert s[0] == c && s[1..] == rest;
        SplitRender(ts[1..], cur + [c]);
      case Number(g) =>
        var s := "(" + g + ")" + rest;
        MatchNumber(g, rest, Long);
        assert s[|g| + 2..] == rest;
        assert s[1..|g| + 1] == g;
        SplitRender(ts[1..], "");
    }
  }

  /** The positions a token list assigns its numbers to, added to `acc`: the
      count of plain characters before each, a later number overriding an
      earlier one. */
  function TokenDict(ts: seq<PToken>, pos: nat, acc: Dict): Dict
    requires GoodTokens(ts, Long)
    decreases |ts|
  {
    if ts == [] then acc
    else
      GoodTokensTail(ts, Long);
      match ts[0]
      case Plain(_) => TokenDict(ts[1..], pos + 1, acc)
      case Number(g) => TokenDict(ts[1..], pos, acc[pos := NumberValue(g)])
  }

  lemma {:induction false} SegmentsDict(ts: seq<PToken>, cur: string, start: nat, acc: Dict)
    requires GoodTokens(ts, Long)
    ensures PartsDict(Segments(ts, cur), start, acc) == TokenDict(ts, start + |cur|, acc)
    decreases |ts|
  {
    if ts != [] {
      GoodTokensTail(ts, Long);
      match ts[0]
      case Plain(c) =>
        SegmentsDict(ts[1..], cur + [c], start, acc);
      case Number(g) =>
        var parts := Segments(ts, cur);
        assert parts[2..] == Segments(ts[1..], "");
        SegmentsDict(ts[1..], "", start + |cur|, acc[start + |cur| := NumberValue(g)]);
    }
  }

  /** The dictionary of a rendered probability string is the one its tokens
      give: each number keyed by the count of sequence letters before it. */
  lemma ProbDictRender(ts: seq<PToken>)
    requires GoodTokens(ts, Long)
    ensures ProbDict(PRender(ts)) == TokenDict(ts, 0, map[])
  {
    SplitRender(ts, "");
    SegmentsDict(ts, "", 0, map[]);
  }

  lemma {:induction false} TokenDictBound(ts: seq<PToken>, pos: nat, acc: Dict)
    requires GoodTokens(ts, Long)
    ensures forall k :: k in TokenDict(ts, pos, acc) ==> k in acc || pos <= k <= pos + |Plains(ts)|
    decreases |ts|
  {
    if ts != [] {
      GoodTokensTail(ts, Long);
      match ts[0]
      case Plain(_) => TokenDictBound(ts[1..], pos + 1, acc);
      case Number(g) => TokenDictBound(ts[1..], pos, acc[pos := NumberValue(g)]);
    }
  }

  lemma PlainsPrefix(ts: seq<PToken>, i: nat)
    requires 1 <= i <= |ts|
    ensures |Plains(ts[..i])| == (if ts[0].Plain? then 1 else 0) + |Plains(ts[1..][..i - 1])|
  {
    assert ts[..i] == [ts[0]] + ts[1..][..i - 1];
    PlainsAppend([ts[0]], ts[1..][..i - 1]);
    assert Plains([ts[0]]) == (if ts[0].Plain? then [ts[0].c] else []) + Plains([]);
  }

  /** Some number of `ts` has `k - pos` letters in front of it. */
  ghost predicate NumberAt(ts: seq<PToken>, pos: nat, k: int) {
    exists i :: 0 <= i < |ts| && ts[i].Number? && k == pos + |Plains(ts[..i])|
  }

  lemma NumberAtCons(ts: seq<PToken>, pos: nat, k: int)
    requires ts != []
    ensures NumberAt(ts, pos, k) <==>
      (ts[0].Number? && k == pos) || NumberAt(ts[1..], pos + (if ts[0].Plain? then 1 else 0), k)
  {
    var step := if ts[0].Plain? then 1 else 0;
    assert Plains(ts[..0]) == [];
    if NumberAt(ts[1..], pos + step, k) {
      var j :| 0 <= j < |ts[1..]| && ts[1..][j].Number? && k == pos + step + |Plains(ts[1..][..j])|;
      PlainsPrefix(ts, j + 1);
      assert ts[j + 1].Number? && k == pos + |Plains(ts[..j + 1])|;
    }
    if NumberAt(ts, pos, k) {
      var i :| 0 <= i < |ts| && ts[i].Number? && k == pos + |Plains(ts[..i])|;
      if i > 0 {
        PlainsPrefix(ts, i);
        assert ts[1..][i - 1].Number? && k == pos + step + |Plains(ts[1..][..i - 1])|;
      }
    }
  }

  /** The keys of a token list's dictionary are exactly the letter counts in
      front of its numbers. */
  lemma {:induction false} TokenDictKeys(ts: seq<PToken>, pos: nat, acc: Dict)
    requires GoodTokens(ts, Long)
    ensures forall k :: k in TokenDict(ts, pos, acc) <==> k in acc || NumberAt(ts, pos, k)
    decreases |ts|
  {
    if ts != [] {
      GoodTokensTail(ts, Long);
      var step := if ts[0].Plain? then 1 else 0;
      var acc' := if ts[0].Plain? then acc else acc[pos := NumberValue(ts[0].text)];
      TokenDictKeys(ts[1..], pos + step, acc');
      assert TokenDict(ts, pos, acc) == TokenDict(ts[1..], pos + step, acc');
      forall k ensures k in TokenDict(ts, pos, acc) <==> k in acc || NumberAt(ts, pos, k) {
        NumberAtCons(ts, pos, k);
      }
    }
  }

  // ---------------------------------------------------------------------------
  // The round trip

  function Plainify(s: string): (ts: seq<PToken>)
    ensures |ts| == |s|
    ensures forall i :: 0 <= i < |s| ==> ts[i] == Plain(s[i])
  {
    seq(|s|, i requires 0 <= i < |s| => Plain(s[i]))
  }

  lemma {:induction false} PlainifyRender(s: string)
    ensures PRender(Plainify(s)) == s
    ensures Plains(Plainify(s)) == s
    decreases |s|
  {
    if s != [] {
      assert Plainify(s)[1..] == Plainify(s[1..]);
      PlainifyRender(s[1..]);
    }
  }

  lemma PlainifyGood(s: string, p: Pattern)
    requires '(' !in s
    ensures GoodTokens(Plainify(s), p)
  {
  }

  lemma GoodTokensAppend(a: seq<PToken>, b: seq<PToken>, p: Pattern)
    requires GoodTokens(a, p) && GoodTokens(b, p)
    ensures GoodTokens(a + b, p)
  {
    forall i | 0 <= i < |a + b| ensures GoodToken((a + b)[i], p) {
      if i < |a| { assert (a + b)[i] == a[i]; } else { assert (a + b)[i] == b[i - |a|]; }
    }
  }

  lemma InsertedTail(pure: string, k: nat, kp: nat, t: string, tail: seq<PToken>)
    requires '(' !in pure && k <= kp <= |pure| && IsNumber(t)
    requires GoodTokens(tail, Long) && Plains(tail) == pure[kp..]
    ensures var tail' := [Number(t)] + Plainify(pure[k..kp]) + tail;
      GoodTokens(tail', Long) && Plains(tail') == pure[k..]
  {
    var mid := Plainify(pure[k..kp]);
    PlainifyRender(pure[k..kp]);
    PlainifyGood(pure[k..kp], Long);
    GoodTokensAppend([Number(t)], mid, Long);
    GoodTokensAppend([Number(t)] + mid, tail, Long);
    PlainsAppend([Number(t)] + mid, tail);
    PlainsAppend([Number(t)], mid);
    assert Plains([Number(t)]) == [] + Plains([]);
    assert pure[k..kp] + pure[kp..] == pure[k..];
  }

  lemma InsertedRender(mid: string, t: string, tail: seq<PToken>)
    ensures PRender([Number(t)] + Plainify(mid) + tail) == "(" + t + ")" + (mid + PRender(tail))
  {
    var m := Plainify(mid);
    var x := "(" + t + ")";
    PlainifyRender(mid);
    PRenderAppend([Number(t)] + m, tail);
    PRenderAppend([Number(t)], m);
    PRenderCons(Number(t), []);
    assert [Number(t)] + [] == [Number(t)];
    assert PRender([Number(t)]) == x + [];
    assert x + [] == x;
    Assoc(x, mid, PRender(tail));
  }

  lemma InsertedText(pure: string, k: nat, kp: nat, t: string, rest: string, s: string)
    requires k <= kp <= |pure|
    requires s == pure[..kp] + rest
    ensures InsertAt(s, k, t) == pure[..k] + ("(" + t + ")" + (pure[k..kp] + rest))
  {
    assert s[..k] == pure[..k];
    assert s[k..] == pure[k..kp] + rest;
  }

  /** A plain prefix in front of a token list. */
  lemma PrefixTokens(p: string, tail: seq<PToken>)
    requires '(' !in p && GoodTokens(tail, Long)
    ensures var all := Plainify(p) + tail;
      GoodTokens(all, Long) && PRender(all) == p + PRender(tail) && Plains(all) == p + Plains(tail)
  {
    var head := Plainify(p);
    PlainifyRender(p);
    PlainifyGood(p, Long);
    GoodTokensAppend(head, tail, Long);
    PRenderAppend(head, tail);
    PlainsAppend(head, tail);
  }

  /** Once every number is in, stripping them leaves the plain sequence. */
  lemma InsertBase(pure: string, kp: nat, tail: seq<PToken>, s: string)
    requires '(' !in pure && kp <= |pure|
    requires GoodTokens(tail, Long) && Plains(tail) == pure[kp..]
    requires s == pure[..kp] + PRender(tail)
    ensures Strip(s, Long) == pure
  {
    var all := Plainify(pure[..kp]) + tail;
    PrefixTokens(pure[..kp], tail);
    assert pure[..kp] + pure[kp..] == pure;
    StripRender(all, Long);
  }

  lemma {:induction false} InsertInvariant(pure: string, es: seq<(nat, string)>, i: nat, kp: nat, tail: seq<PToken>, s: string)
    requires '(' !in pure
    requires i <= |es| && kp <= |pure|
    requires forall j :: 0 <= j < i ==> es[j].0 <= kp && IsNumber(es[j].1)
    requires forall j, l :: 0 <= j < l < |es| ==> es[j].0 < es[l].0
    requires GoodTokens(tail, Long) && Plains(tail) == pure[kp..]
    requires s == pure[..kp] + PRender(tail)
    ensures Strip(InsertDescending(s, es, i), Long) == pure
    decreases i
  {
    if i == 0 {
      InsertBase(pure, kp, tail, s);
    } else {
      var k, t := es[i - 1].0, es[i - 1].1;
      InsertedTail(pure, k, kp, t, tail);
      InsertedRender(pure[k..kp], t, tail);
      InsertedText(pure, k, kp, t, PRender(tail), s);
      var tail' := [Number(t)] + Plainify(pure[k..kp]) + tail;
      var s' := InsertAt(s, k, t);
      assert s' == pure[..k] + PRender(tail');
      assert forall j :: 0 <= j < i - 1 ==> es[j].0 <= k && IsNumber(es[j].1);
      InsertInvariant(pure, es, i - 1, k, tail', s');
      assert InsertDescending(s, es, i) == InsertDescending(s', es, i - 1);
    }
  }

  /** Inserting numbers at ascending positions within a plain sequence, last
      first, and stripping them again gives the sequence back. */
  lemma InsertRoundTrip(pure: string, es: seq<(nat, string)>)
    requires '(' !in pure
    requires forall j :: 0 <= j < |es| ==> es[j].0 <= |pure| && IsNumber(es[j].1)
    requires forall j, l :: 0 <= j < l < |es| ==> es[j].0 < es[l].0
    ensures Strip(InsertDescending(pure, es, |es|), Long) == pure
  {
    assert PRender([]) == [] && Plains([]) == [];
    assert pure[..|pure|] + PRender([]) == pure;
    assert pure[|pure|..] == Plains([]);
    InsertInvariant(pure, es, |es|, |pure|, [], pure);
  }

  /** The probability strings of a cluster: renderings of good token lists
      over one and the same sequence. */
  ghost predicate SameSequence(xs: seq<Option<string>>, ts: seq<seq<PToken>>) {
    |xs| >= 1 && |ts| == |xs| &&
    forall i :: 0 <= i < |xs| ==>
      GoodTokens(ts[i], Short) && xs[i] == Some(PRender(ts[i])) && Plains(ts[i]) == Plains(ts[0])
  }

  lemma ShortIsLong(ts: seq<PToken>)
    requires GoodTokens(ts, Short)
    ensures GoodTokens(ts, Long)
  {
    forall i | 0 <= i < |ts| ensures GoodToken(ts[i], Long) {
      assert GoodToken(ts[i], Short);
    }
  }

  lemma SameSequenceAgree(xs: seq<Option<string>>, ts: seq<seq<PToken>>)
    requires SameSequence(xs, ts)
    ensures Agree(xs, Probabilities)
  {
    forall v, w | Some(v) in xs && Some(w) in xs
      ensures CompareForm(v, Probabilities) == CompareForm(w, Probabilities)
    {
      var i :| 0 <= i < |xs| && xs[i] == Some(v);
      var j :| 0 <= j < |xs| && xs[j] == Some(w);
      StripRender(ts[i], Short);
      StripRender(ts[j], Short);
    }
  }

  lemma SameSequenceKeys(xs: seq<Option<string>>, ts: seq<seq<PToken>>)
    requires SameSequence(xs, ts)
    ensures forall k :: k in Reduce(Dicts(RemoveNanValues(xs))) ==> k <= |Plains(ts[0])|
  {
    var probs := RemoveNanValues(xs);
    assert xs[0] in xs;
    ReduceKeys(Dicts(probs));
    forall k | k in Reduce(Dicts(probs)) ensures k <= |Plains(ts[0])| {
      var i :| 0 <= i < |probs| && k in Dicts(probs)[i];
      assert probs[i] in probs;
      var j :| 0 <= j < |xs| && xs[j] == Some(probs[i]);
      ShortIsLong(ts[j]);
      ProbDictRender(ts[j]);
      TokenDictBound(ts[j], 0, map[]);
    }
  }

  /** For the probability strings of one sequence, the result is always
      present, and removing its numbers gives that sequence back, provided
      the formatting yields numbers the expression recognises. */
  lemma AverageRoundTrip(xs: seq<Option<string>>, ts: seq<seq<PToken>>, fmt: real -> string)
    requires SameSequence(xs, ts)
    requires forall x: real :: IsNumber(fmt(x))
    ensures AverageProbabilities(xs, fmt).Some?
    ensures Strip(AverageProbabilities(xs, fmt).value, Long) == Plains(ts[0])
  {
    SameSequenceAgree(xs, ts);
    assert xs[0] in xs;
    var amb := CheckAmbiguity(xs, Probabilities);
    if amb.Single? {
      ShortIsLong(ts[0]);
      StripRender(ts[0], Long);
      assert xs[0] == Some(amb.value);
    } else {
      var probs := RemoveNanValues(xs);
      assert amb.sequences[0] in DistinctValues(xs);
      assert amb.sequences[1] in DistinctValues(xs);
      assert |probs| >= 2 by {
        var a, b := amb.sequences[0], amb.sequences[1];
        assert a != b;
        assert a in probs && b in probs;
        var ia :| 0 <= ia < |probs| && probs[ia] == a;
        var ib :| 0 <= ib < |probs| && probs[ib] == b;
        assert ia != ib;
      }
      AveragedRoundTrip(xs, ts, fmt);
    }
  }

  /** The averaging branch: the numbers go back into the first string's
      sequence at positions within it, so stripping them recovers it. */
  lemma AveragedRoundTrip(xs: seq<Option<string>>, ts: seq<seq<PToken>>, fmt: real -> string)
    requires SameSequence(xs, ts)
    requires forall x: real :: IsNumber(fmt(x))
    requires |RemoveNanValues(xs)| >= 2
    ensures var probs := RemoveNanValues(xs);
      var es := Averaged(probs, fmt);
      Strip(InsertDescending(Strip(probs[0], Long), es, |es|), Long) == Plains(ts[0])
  {
    var probs := RemoveNanValues(xs);
    assert probs[0] in probs;
    var j :| 0 <= j < |xs| && xs[j] == Some(probs[0]);
    ShortIsLong(ts[j]);
    StripRender(ts[j], Long);
    var pure := Plains(ts[0]);
    assert '(' !in pure by {
      ShortIsLong(ts[0]);
      PlainsNoParen(ts[0]);
    }
    SameSequenceKeys(xs, ts);
    AveragedEntries(probs, fmt);
    var es := Averaged(probs, fmt);
    InsertRoundTrip(pure, es);
  }

  lemma {:induction false} PlainsNoParen(ts: seq<PToken>)
    requires GoodTokens(ts, Long)
    ensures '(' !in Plains(ts)
    decreases |ts|
  {
    if ts != [] {
      GoodTokensTail(ts, Long);
      PlainsNoParen(ts[1..]);
    }
  }
}
