/** The per-cluster modified-sequence consensus of `simsi_transfer/transfer.py`:
    the ambiguity check, the position annotation of phospho isomers, the
    consensus itself and the majority vote. */
module Consensus {
  import opened Wrappers
  import opened Strings
  import opened Peptides
  import opened Utils
  import Sorting
  import ProbText

  /** `re.sub(PHOSPHO_REGEX, lambda m: m.group(1).lower(), s)`: every phospho
      site written as its lower-case residue. */
  function LowerPhospho(s: string): string {
    SubSites(s, LowerSite)
  }

  datatype CheckType = Sequences | Probabilities

  /** The outcome of `check_ambiguity`: `(nan, nan)`, `(value, nan)` or the
      distinct values with their lowered forms. */
  datatype Ambiguity = Missing | Single(value: string) | Isomers(sequences: seq<string>, lowered: seq<string>)

  /** The form two values must share to be compared as the same peptide: the
      upper-cased lowered text, or the text without probability annotations. */
  function CompareForm(v: string, checktype: CheckType): string {
    match checktype
    case Sequences => Upper(LowerPhospho(v))
    case Probabilities => ProbText.Strip(v, ProbText.Short)
  }

  /** All present values share their compare form. */
  ghost predicate Agree(xs: seq<Option<string>>, checktype: CheckType) {
    forall v, w :: Some(v) in xs && Some(w) in xs ==> CompareForm(v, checktype) == CompareForm(w, checktype)
  }

  function LowerAll(vs: seq<string>): (r: seq<string>)
    ensures |r| == |vs|
    ensures forall i :: 0 <= i < |vs| ==> r[i] == LowerPhospho(vs[i])
  {
    seq(|vs|, i requires 0 <= i < |vs| => LowerPhospho(vs[i]))
  }

  function CompareForms(vs: seq<string>, checktype: CheckType): (r: seq<string>)
    ensures |r| == |vs|
    ensures forall i :: 0 <= i < |vs| ==> r[i] == CompareForm(vs[i], checktype)
  {
    seq(|vs|, i requires 0 <= i < |vs| => CompareForm(vs[i], checktype))
  }

  /** A non-empty list has one distinct element exactly when all its elements are equal. */
  lemma OneDistinct(ys: seq<string>)
    requires ys != []
    ensures |Distinct(ys)| == 1 <==> forall i, j :: 0 <= i < |ys| && 0 <= j < |ys| ==> ys[i] == ys[j]
  {
    var d := Distinct(ys);
    assert ys[0] in d;
    SingleDistinct(d, ys[0]);
    if forall i, j :: 0 <= i < |ys| && 0 <= j < |ys| ==> ys[i] == ys[j] {
      forall w | w in d ensures w == ys[0] {
        var i :| 0 <= i < |ys| && ys[i] == w;
      }
    } else {
      var i, j :| 0 <= i < |ys| && 0 <= j < |ys| && ys[i] != ys[j];
      assert ys[i] in d && ys[j] in d;
    }
  }

  lemma FormsOfAgreeing(xs: seq<Option<string>>, checktype: CheckType)
    requires Agree(xs, checktype)
    ensures var fs := CompareForms(DistinctValues(xs), checktype);
      forall i, j :: 0 <= i < |fs| && 0 <= j < |fs| ==> fs[i] == fs[j]
  {
    var vs := DistinctValues(xs);
    var fs := CompareForms(vs, checktype);
    forall i, j | 0 <= i < |fs| && 0 <= j < |fs| ensures fs[i] == fs[j] {
      assert vs[i] in vs && vs[j] in vs;
      assert Some(vs[i]) in xs && Some(vs[j]) in xs;
    }
  }

  lemma AgreeOfForms(xs: seq<Option<string>>, checktype: CheckType)
    requires var fs := CompareForms(DistinctValues(xs), checktype);
      forall i, j :: 0 <= i < |fs| && 0 <= j < |fs| ==> fs[i] == fs[j]
    ensures Agree(xs, checktype)
  {
    var vs := DistinctValues(xs);
    var fs := CompareForms(vs, checktype);
    forall v, w | Some(v) in xs && Some(w) in xs
      ensures CompareForm(v, checktype) == CompareForm(w, checktype)
    {
      assert v in vs && w in vs;
      var i :| 0 <= i < |vs| && vs[i] == v;
      var j :| 0 <= j < |vs| && vs[j] == w;
      assert fs[i] == fs[j];
    }
  }

  lemma AgreeForms(xs: seq<Option<string>>, checktype: CheckType)
    requires DistinctValues(xs) != []
    ensures |Distinct(CompareForms(DistinctValues(xs), checktype))| == 1 <==> Agree(xs, checktype)
  {
    var fs := CompareForms(DistinctValues(xs), checktype);
    OneDistinct(fs);
    if Agree(xs, checktype) {
      FormsOfAgreeing(xs, checktype);
    } else if forall i, j :: 0 <= i < |fs| && 0 <= j < |fs| ==> fs[i] == fs[j] {
      AgreeOfForms(xs, checktype);
    }
  }

  /** `check_ambiguity`. */
  function CheckAmbiguity(xs: seq<Option<string>>, checktype: CheckType): (r: Ambiguity)
    ensures r == Missing <==>
      (forall v :: Some(v) !in xs) || (|DistinctValues(xs)| >= 2 && !Agree(xs, checktype))
    ensures forall v :: r == Single(v) <==> OnlyValue(xs, v)
    ensures r.Isomers? ==>
      |DistinctValues(xs)| >= 2 && Agree(xs, checktype) &&
      r.sequences == DistinctValues(xs) && r.lowered == LowerAll(r.sequences)
  {
    DistinctValuesSingle(xs);
    var vs := DistinctValues(xs);
    if |vs| == 0 then
      assert forall v :: v !in vs;
      Missing
    else if |vs| == 1 then
      assert vs[0] in vs;
      Single(vs[0])
    else
      AgreeForms(xs, checktype);
      assert vs[0] in vs;
      if |Distinct(CompareForms(vs, checktype))| != 1 then Missing
      else Isomers(vs, LowerAll(vs))
  }

  // ---------------------------------------------------------------------------
  // The position annotation

  /** The 1-based offsets of the lower-case `s`, `t` and `y` in `s`. */
  function SiteOffsets(s: string): (r: seq<int>)
    ensures forall p :: p in r <==> exists k :: 0 <= k < |s| && IsSiteChar(s[k]) && p == k + 1
    decreases |s|
  {
    if s == [] then []
    else
      var init := s[..|s| - 1];
      var rest := SiteOffsets(init);
      assert forall k :: 0 <= k < |init| ==> init[k] == s[k];
      rest + (if IsSiteChar(s[|s| - 1]) then [|s|] else [])
  }

  function AllSiteOffsets(ls: seq<string>): (r: seq<int>)
    ensures forall p :: p in r <==> exists i :: 0 <= i < |ls| && p in SiteOffsets(ls[i])
    decreases |ls|
  {
    if ls == [] then []
    else
      var rest := AllSiteOffsets(ls[1..]);
      assert forall i :: 1 <= i < |ls| ==> ls[i] == ls[1..][i - 1];
      SiteOffsets(ls[0]) + rest
  }

  /** Sorted union of the site offsets of all lowered sequences. */
  function SitePositions(ls: seq<string>): (r: seq<int>)
    ensures Sorting.StrictlySortedInts(r)
    ensures forall p :: p in r <==>
      exists i, k :: 0 <= i < |ls| && 0 <= k < |ls[i]| && IsSiteChar(ls[i][k]) && p == k + 1
    ensures forall i :: 0 <= i < |r| ==> r[i] >= 1
  {
    var r := Sorting.SortedUniqueInts(AllSiteOffsets(ls));
    assert forall p :: p in r <==> exists i :: 0 <= i < |ls| && p in SiteOffsets(ls[i]);
    assert forall i :: 0 <= i < |r| ==> r[i] >= 1 by {
      forall i | 0 <= i < |r| ensures r[i] >= 1 {
        assert r[i] in r;
      }
    }
    r
  }

  function PositionText(p: int): string {
    "p" + (if p >= 0 then NatToString(p) else "-" + NatToString(-p))
  }

  function PositionTexts(ps: seq<int>): (r: seq<string>)
    ensures |r| == |ps|
    ensures forall i :: 0 <= i < |ps| ==> r[i] == PositionText(ps[i])
  {
    seq(|ps|, i requires 0 <= i < |ps| => PositionText(ps[i]))
  }

  /** Reads one `p<k>` entry of the position list back as `k`. */
  function ReadPosition(f: string): Option<int> {
    if |f| >= 2 && f[0] == 'p' && forall i :: 1 <= i < |f| ==> IsDigit(f[i]) then
      var d := f[1..];
      assert forall i :: 0 <= i < |d| ==> IsDigit(d[i]) by {
        forall i | 0 <= i < |d| ensures IsDigit(d[i]) {
          assert d[i] == f[i + 1];
        }
      }
      Some(ParseNat(d))
    else None
  }

  lemma PositionTextChars(p: int)
    ensures '/' !in PositionText(p) && '.' !in PositionText(p) && PositionText(p) != []
  {
  }

  lemma ReadPositionText(p: int)
    requires p >= 0
    ensures ReadPosition(PositionText(p)) == Some(p)
  {
    var f := PositionText(p);
    assert f == "p" + NatToString(p);
    assert f[1..] == NatToString(p);
    ParseNatToString(p);
  }

  /** `"/".join(f'p{x}' for x in positions)`: it holds no `.`, it is empty
      exactly when there are no positions, and otherwise it splits on `/` into
      one `p<k>` entry per position, in order. */
  function PositionsText(ps: seq<int>): (r: string)
    ensures '.' !in r
    ensures r == [] <==> ps == []
    ensures ps != [] ==> Split(r, '/') == PositionTexts(ps)
  {
    var parts := PositionTexts(ps);
    assert forall i :: 0 <= i < |parts| ==> '/' !in parts[i] && '.' !in parts[i] && parts[i] != [] by {
      forall i | 0 <= i < |parts| ensures '/' !in parts[i] && '.' !in parts[i] && parts[i] != [] {
        PositionTextChars(ps[i]);
      }
    }
    JoinNoChar(parts, "/", '.');
    PositionsSplit(parts);
    Join(parts, "/")
  }

  lemma PositionsSplit(parts: seq<string>)
    requires forall i :: 0 <= i < |parts| ==> '/' !in parts[i] && parts[i] != []
    ensures Join(parts, "/") == [] <==> parts == []
    ensures parts != [] ==> Split(Join(parts, "/"), '/') == parts
  {
    if parts != [] {
      SplitJoin(parts, '/');
      if |parts| > 1 {
        JoinCons(parts[0], parts[1..], "/");
        assert [parts[0]] + parts[1..] == parts;
      }
    }
  }

  lemma {:induction false} JoinNoChar(parts: seq<string>, sep: string, c: char)
    requires c !in sep
    requires forall i :: 0 <= i < |parts| ==> c !in parts[i]
    ensures c !in Join(parts, sep)
    decreases |parts|
  {
    if |parts| > 1 {
      JoinNoChar(parts[1..], sep, c);
    }
  }

  /** `f"{head}.{num_mods}.{positions}"`: after `head`, the number of sites
      of the first lowered sequence and the sorted site positions of all of
      them. */
  function Annotation(head: string, lowered: seq<string>): (r: string)
    requires |lowered| >= 1
    ensures StartsWith(r, head + ".")
    ensures '.' !in head ==>
      Split(r, '.') == [head, NatToString(CountSites(lowered[0])), PositionsText(SitePositions(lowered))]
  {
    var b, c := NatToString(CountSites(lowered[0])), PositionsText(SitePositions(lowered));
    FieldsHead(head, b, c);
    assert '.' !in b by {
      assert forall i :: 0 <= i < |b| ==> b[i] != '.';
    }
    Join3(head, b, c, ".");
    if '.' !in head then
      SplitJoin([head, b, c], '.');
      head + "." + b + "." + c
    else head + "." + b + "." + c
  }

  lemma FieldsHead(a: string, b: string, c: string)
    ensures StartsWith(a + "." + b + "." + c, a + ".")
  {
    var pre := a + ".";
    assert a + "." + b + "." + c == pre + (b + "." + c);
    assert (pre + (b + "." + c))[..|pre|] == pre;
  }

  /** `generate_modified_sequence_annotation` as `transfer.py` writes it: the
      head is the first sequence after `transfer.py`'s own
      `remove_modifications`, which deletes each phosphorylated residue
      together with its annotation. */
  function GenerateModifiedSequenceAnnotation(sequences: seq<string>, lowered: seq<string>): (r: string)
    requires |sequences| >= 1 && |lowered| >= 1
    ensures StartsWith(r, RemoveModificationsAsWritten(sequences[0], true) + ".")
    ensures '.' !in RemoveModificationsAsWritten(sequences[0], true) ==> |Split(r, '.')| == 3
  {
    Annotation(RemoveModificationsAsWritten(sequences[0], true), lowered)
  }

  /** The annotation splits on `.` into its three fields whenever the head
      holds no `.`: the head, the site count of the first lowered sequence,
      which reads back as that number, and the `/`-separated positions, each
      reading back as its sorted site position (the field is empty when there
      are none). */
  lemma AnnotationDecode(sequences: seq<string>, lowered: seq<string>)
    requires |sequences| >= 1 && |lowered| >= 1
    requires '.' !in RemoveModificationsAsWritten(sequences[0], true)
    ensures var f := Split(GenerateModifiedSequenceAnnotation(sequences, lowered), '.');
      var ps := SitePositions(lowered);
      |f| == 3 && f[0] == RemoveModificationsAsWritten(sequences[0], true) &&
      f[1] == NatToString(CountSites(lowered[0])) && ParseNat(f[1]) == CountSites(lowered[0]) &&
      (f[2] == [] <==> ps == []) &&
      (ps != [] ==>
        |Split(f[2], '/')| == |ps| &&
        forall i :: 0 <= i < |ps| ==> ReadPosition(Split(f[2], '/')[i]) == Some(ps[i]))
  {
    var ps := SitePositions(lowered);
    ParseNatToString(CountSites(lowered[0]));
    forall i | 0 <= i < |ps| ensures ReadPosition(PositionText(ps[i])) == Some(ps[i]) {
      ReadPositionText(ps[i]);
    }
  }

  /** For a well-formed MaxQuant sequence, the head is its rendering with every
      phosphorylated residue deleted. */
  lemma AnnotationHead(ts: seq<Token>, sequences: seq<string>, lowered: seq<string>)
    requires WellFormed(ts) && |sequences| >= 1 && |lowered| >= 1 && sequences[0] == Render(ts)
    ensures StartsWith(GenerateModifiedSequenceAnnotation(sequences, lowered), RenderSites(ts, Erase) + ".")
  {
    AsWrittenDropsSites(ts);
  }

  /** `get_consensus_modified_sequence`. */
  function GetConsensusModifiedSequence(xs: seq<Option<string>>): (r: Option<string>)
    ensures r == None <==>
      (forall v :: Some(v) !in xs) || (|DistinctValues(xs)| >= 2 && !Agree(xs, Sequences))
    ensures forall v :: OnlyValue(xs, v) ==> r == Some(v)
    ensures r.Some? && |DistinctValues(xs)| >= 2 ==>
      r.value == GenerateModifiedSequenceAnnotation(DistinctValues(xs), LowerAll(DistinctValues(xs)))
  {
    DistinctValuesSingle(xs);
    match CheckAmbiguity(xs, Sequences)
    case Missing => None
    case Single(v) => Some(v)
    case Isomers(vs, ls) => Some(GenerateModifiedSequenceAnnotation(vs, ls))
  }

  // ---------------------------------------------------------------------------
  // Consensus of well-formed MaxQuant sequences

  /** Every entry of the column is the rendering of a well-formed token list. */
  ghost predicate Rendered(xs: seq<Option<string>>, ts: seq<seq<Token>>) {
    |ts| == |xs| &&
    forall i :: 0 <= i < |xs| ==> WellFormed(ts[i]) && xs[i] == Some(Render(ts[i]))
  }

  lemma CompareFormRender(ts: seq<Token>)
    requires WellFormed(ts)
    ensures CompareForm(Render(ts), Sequences) == Upper(Lowered(ts))
  {
    SubSitesRender(ts, LowerSite);
  }

  /** Two identified sequences agree exactly when they differ only in where the
      phospho groups sit. */
  lemma AgreeRendered(xs: seq<Option<string>>, ts: seq<seq<Token>>)
    requires Rendered(xs, ts)
    ensures Agree(xs, Sequences) <==>
      forall i, j :: 0 <= i < |ts| && 0 <= j < |ts| ==> Drop(ts[i], Phospho) == Drop(ts[j], Phospho)
  {
    forall i, j | 0 <= i < |ts| && 0 <= j < |ts|
      ensures CompareForm(Render(ts[i]), Sequences) == CompareForm(Render(ts[j]), Sequences)
        <==> Drop(ts[i], Phospho) == Drop(ts[j], Phospho)
    {
      CompareFormRender(ts[i]);
      CompareFormRender(ts[j]);
      IsomerTest(ts[i], ts[j]);
    }
    if Agree(xs, Sequences) {
      forall i, j | 0 <= i < |ts| && 0 <= j < |ts| ensures Drop(ts[i], Phospho) == Drop(ts[j], Phospho) {
        assert xs[i] in xs && xs[j] in xs;
      }
    } else {
      var v, w :| Some(v) in xs && Some(w) in xs && CompareForm(v, Sequences) != CompareForm(w, Sequences);
      var i :| 0 <= i < |xs| && xs[i] == Some(v);
      var j :| 0 <= j < |xs| && xs[j] == Some(w);
    }
  }

  lemma WellFormedLetters(ts: seq<Token>)
    requires WellFormed(ts)
    ensures LetterResidues(ts)
  {
  }

  /** For a cluster of identified MaxQuant sequences, a consensus exists exactly
      when the members are phospho isomers of one another. */
  lemma ConsensusOfIsomers(xs: seq<Option<string>>, ts: seq<seq<Token>>)
    requires Rendered(xs, ts) && |xs| >= 1
    ensures GetConsensusModifiedSequence(xs).Some? <==>
      forall i, j :: 0 <= i < |ts| && 0 <= j < |ts| ==> Drop(ts[i], Phospho) == Drop(ts[j], Phospho)
  {
    AgreeRendered(xs, ts);
    assert xs[0] in xs;
  }

  /** The annotation of isomers starts with the first present value of the
      column after the as-written removal: which isomer is listed first decides
      the head. */
  lemma IsomerAnnotationHead(xs: seq<Option<string>>, k: int)
    requires |DistinctValues(xs)| >= 2 && GetConsensusModifiedSequence(xs).Some?
    requires 0 <= k < |xs| && xs[k].Some? && forall j :: 0 <= j < k ==> xs[j].None?
    ensures StartsWith(GetConsensusModifiedSequence(xs).value, RemoveModificationsAsWritten(xs[k].value, true) + ".")
  {
    DistinctValuesFirst(xs, k);
  }

  /** For a cluster of MaxQuant sequences with several isomers, the annotation
      starts with the first one's rendering with its phosphorylated residues
      deleted. */
  lemma ConsensusPrefix(xs: seq<Option<string>>, ts: seq<seq<Token>>)
    requires Rendered(xs, ts)
    requires |DistinctValues(xs)| >= 2 && GetConsensusModifiedSequence(xs).Some?
    ensures StartsWith(GetConsensusModifiedSequence(xs).value, RenderSites(ts[0], Erase) + ".")
  {
    var d := DistinctValues(xs);
    assert d[0] in d;
    IsomerAnnotationHead(xs, 0);
    AsWrittenDropsSites(ts[0]);
  }

  // ---------------------------------------------------------------------------
  // The majority vote

  function Occurrences(vs: seq<string>, v: string): nat {
    multiset(vs)[v]
  }

  /** The value among the first `n` entries of `all` that occurs most often in
      `all`, the earliest one on ties. */
  function Leader(all: seq<string>, n: nat): (r: string)
    requires 1 <= n <= |all|
    ensures r in all[..n]
    ensures forall i :: 0 <= i < n ==> Occurrences(all, all[i]) <= Occurrences(all, r)
    ensures exists j :: 0 <= j < n && all[j] == r && forall i :: 0 <= i < j ==> Occurrences(all, all[i]) < Occurrences(all, r)
  {
    if n == 1 then all[0]
    else
      var b := Leader(all, n - 1);
      assert all[..n] == all[..n - 1] + [all[n - 1]];
      if Occurrences(all, all[n - 1]) > Occurrences(all, b) then all[n - 1] else b
  }

  /** `collections.Counter(vs).most_common(1)[0][0]`: the most frequent value;
      the counter keeps first-occurrence order and sorts stably, so on a tie the
      value seen first wins. */
  function MostCommon(vs: seq<string>): (r: string)
    requires vs != []
    ensures r in vs
    ensures forall w :: w in vs ==> Occurrences(vs, w) <= Occurrences(vs, r)
    ensures exists j :: 0 <= j < |vs| && vs[j] == r && forall i :: 0 <= i < j ==> Occurrences(vs, vs[i]) < Occurrences(vs, r)
  {
    assert vs[..|vs|] == vs;
    Leader(vs, |vs|)
  }

  /** `get_modified_sequence_decision`. */
  function GetModifiedSequenceDecision(xs: seq<Option<string>>): (r: Option<string>)
    ensures r == None <==>
      (forall v :: Some(v) !in xs) || (|DistinctValues(xs)| >= 2 && !Agree(xs, Sequences))
    ensures forall v :: OnlyValue(xs, v) ==> r == Some(v)
    ensures r.Some? ==> Some(r.value) in xs
  {
    match CheckAmbiguity(xs, Sequences)
    case Missing => None
    case Single(v) => Some(v)
    case Isomers(vs, ls) =>
      var present := RemoveNanValues(xs);
      assert vs[0] in vs;
      Some(MostCommon(present))
  }

  /** The vote returns a present value that occurs at least as often as any
      other, and no value seen before it occurs as often. */
  lemma DecisionIsMajority(xs: seq<Option<string>>)
    requires |DistinctValues(xs)| >= 2 && Agree(xs, Sequences)
    ensures GetModifiedSequenceDecision(xs).Some?
    ensures var r := GetModifiedSequenceDecision(xs).value;
      var vs := RemoveNanValues(xs);
      (forall w :: w in vs ==> Occurrences(vs, w) <= Occurrences(vs, r)) &&
      exists j :: 0 <= j < |vs| && vs[j] == r && forall i :: 0 <= i < j ==> Occurrences(vs, vs[i]) < Occurrences(vs, r)
  {
    var d := DistinctValues(xs);
    assert d[0] in d && d[1] in d && d[0] != d[1];
    assert Some(d[0]) in xs && Some(d[1]) in xs;
    assert forall v :: !OnlyValue(xs, v);
    var amb := CheckAmbiguity(xs, Sequences);
    assert amb.Isomers?;
    var present := RemoveNanValues(xs);
    assert d[0] in present;
    assert GetModifiedSequenceDecision(xs) == Some(MostCommon(present));
  }

  // ---------------------------------------------------------------------------
  // `remove_modifications` of `transfer.py` as written

  function Erase(c: char): string {
    []
  }

  /** `remove_modifications` of `transfer.py`: its first step substitutes the
      whole match of `PHOSPHO_REGEX`, residue included. */
  function RemoveModificationsAsWritten(s: string, phosphoOnly: bool): string {
    var raw := SubSites(s, Erase);
    if phosphoOnly then raw
    else ReplaceAll(ReplaceAll(ReplaceAll(raw, ACETYL, ""), OXIDATION, ""), "_", "")
  }

  /** As written, the phospho-only removal deletes every phosphorylated residue. */
  lemma AsWrittenDropsSites(ts: seq<Token>)
    requires WellFormed(ts)
    ensures RemoveModificationsAsWritten(Render(ts), true) == RenderSites(ts, Erase)
  {
    SubSitesRender(ts, Erase);
  }

  lemma RenderSitesSite(aa: char, rest: seq<Token>, f: char -> string)
    ensures RenderSites([Residue(aa), Phospho] + rest, f) == f(aa) + RenderSites(rest, f)
  {
    assert ([Residue(aa), Phospho] + rest)[2..] == rest;
  }

  lemma RenderSitesPlain(t: Token, rest: seq<Token>, f: char -> string)
    requires !t.Residue? || rest == [] || !rest[0].Phospho?
    ensures RenderSites([t] + rest, f) == Text(t) + RenderSites(rest, f)
  {
    assert ([t] + rest)[1..] == rest;
  }

  /** As written, the phospho-free form of `_X(ph)Y_` is `_Y_`. */
  lemma AsWrittenFirstIsomer(x: char, y: char)
    requires IsResidueLetter(x) && IsAcceptor(x) && IsResidueLetter(y)
    ensures RemoveModificationsAsWritten(Render([Terminus, Residue(x), Phospho, Residue(y), Terminus]), true) == ['_', y, '_']
  {
    var a := [Terminus, Residue(x), Phospho, Residue(y), Terminus];
    AsWrittenDropsSites(a);
    RenderSitesPlain(Terminus, [], Erase);
    RenderSitesPlain(Residue(y), [Terminus], Erase);
    RenderSitesSite(x, [Residue(y), Terminus], Erase);
    assert a == [Terminus] + ([Residue(x), Phospho] + [Residue(y), Terminus]);
    RenderSitesPlain(Terminus, [Residue(x), Phospho] + [Residue(y), Terminus], Erase);
  }

  /** As written, the phospho-free form of `_XY(ph)_` is `_X_`. */
  lemma AsWrittenSecondIsomer(x: char, y: char)
    requires IsResidueLetter(x) && IsResidueLetter(y) && IsAcceptor(y)
    ensures RemoveModificationsAsWritten(Render([Terminus, Residue(x), Residue(y), Phospho, Terminus]), true) == ['_', x, '_']
  {
    var b := [Terminus, Residue(x), Residue(y), Phospho, Terminus];
    AsWrittenDropsSites(b);
    RenderSitesPlain(Terminus, [], Erase);
    RenderSitesSite(y, [Terminus], Erase);
    RenderSitesPlain(Residue(x), [Residue(y), Phospho] + [Terminus], Erase);
    assert b == [Terminus] + ([Residue(x)] + ([Residue(y), Phospho] + [Terminus]));
    RenderSitesPlain(Terminus, [Residue(x)] + ([Residue(y), Phospho] + [Terminus]), Erase);
  }

  lemma DropCons(u: Token, rest: seq<Token>, t: Token)
    ensures Drop([u] + rest, t) == (if u == t then [] else [u]) + Drop(rest, t)
  {
    assert ([u] + rest)[1..] == rest;
  }

  lemma RenderTwoResidues(x: char, y: char)
    ensures Render([Terminus, Residue(x), Residue(y), Terminus]) == ['_', x, y, '_']
  {
    RenderCons(Terminus, []);
    RenderCons(Residue(y), [Terminus]);
    RenderCons(Residue(x), [Residue(y), Terminus]);
    RenderCons(Terminus, [Residue(x), Residue(y), Terminus]);
  }

  /** Dropping the phospho token of `_X(ph)Y_` leaves `_XY_`. */
  lemma DropFirstIsomer(x: char, y: char)
    ensures Drop([Terminus, Residue(x), Phospho, Residue(y), Terminus], Phospho)
      == [Terminus, Residue(x), Residue(y), Terminus]
  {
    var e: seq<Token> := [];
    var t4 := [Terminus] + e;
    var t3 := [Residue(y)] + t4;
    var t2 := [Phospho] + t3;
    var t1 := [Residue(x)] + t2;
    var t0 := [Terminus] + t1;
    DropCons(Terminus, e, Phospho);
    DropCons(Residue(y), t4, Phospho);
    DropCons(Phospho, t3, Phospho);
    DropCons(Residue(x), t2, Phospho);
    DropCons(Terminus, t1, Phospho);
    assert Drop(t0, Phospho) == [Terminus] + ([Residue(x)] + ([Residue(y)] + ([Terminus] + e)));
    assert t0 == [Terminus, Residue(x), Phospho, Residue(y), Terminus];
  }

  /** Dropping the phospho token of `_XY(ph)_` leaves `_XY_`. */
  lemma DropSecondIsomer(x: char, y: char)
    ensures Drop([Terminus, Residue(x), Residue(y), Phospho, Terminus], Phospho)
      == [Terminus, Residue(x), Residue(y), Terminus]
  {
    var e: seq<Token> := [];
    var t4 := [Terminus] + e;
    var t3 := [Phospho] + t4;
    var t2 := [Residue(y)] + t3;
    var t1 := [Residue(x)] + t2;
    var t0 := [Terminus] + t1;
    assert Drop(t0, Phospho) == [Terminus] + ([Residue(x)] + ([Residue(y)] + ([Terminus] + e))) by {
      DropCons(Terminus, e, Phospho);
      DropCons(Phospho, t4, Phospho);
      DropCons(Residue(y), t3, Phospho);
      DropCons(Residue(x), t2, Phospho);
      DropCons(Terminus, t1, Phospho);
    }
    assert t0 == [Terminus, Residue(x), Residue(y), Phospho, Terminus];
  }

  /** The corrected removal maps `_X(ph)Y_` to `_XY_`. */
  lemma CorrectedFirstIsomer(x: char, y: char)
    requires IsResidueLetter(x) && IsResidueLetter(y)
    ensures RemoveModifications(Render([Terminus, Residue(x), Phospho, Residue(y), Terminus]), true) == ['_', x, y, '_']
  {
    RemoveModificationsRender([Terminus, Residue(x), Phospho, Residue(y), Terminus]);
    DropFirstIsomer(x, y);
    RenderTwoResidues(x, y);
  }

  /** The corrected removal maps `_XY(ph)_` to `_XY_`. */
  lemma CorrectedSecondIsomer(x: char, y: char)
    requires IsResidueLetter(x) && IsResidueLetter(y)
    ensures RemoveModifications(Render([Terminus, Residue(x), Residue(y), Phospho, Terminus]), true) == ['_', x, y, '_']
  {
    RemoveModificationsRender([Terminus, Residue(x), Residue(y), Phospho, Terminus]);
    DropSecondIsomer(x, y);
    RenderTwoResidues(x, y);
  }

  // ---------------------------------------------------------------------------
  // The annotation head as evidently intended

  lemma RenderedPair(a: seq<Token>, b: seq<Token>)
    requires WellFormed(a) && WellFormed(b)
    ensures Rendered([Some(Render(a)), Some(Render(b))], [a, b])
  {
    var xs, ts := [Some(Render(a)), Some(Render(b))], [a, b];
    forall i | 0 <= i < |xs| ensures WellFormed(ts[i]) && xs[i] == Some(Render(ts[i])) {
      if i == 0 {
        assert ts[i] == a;
      } else {
        assert ts[i] == b;
      }
    }
  }

  lemma TwoDistinctValues(xs: seq<Option<string>>, v: string, w: string)
    requires v != w && Some(v) in xs && Some(w) in xs
    ensures |DistinctValues(xs)| >= 2
  {
    var d := DistinctValues(xs);
    assert v in d && w in d;
  }

  lemma PairDrops(a: seq<Token>, b: seq<Token>)
    requires Drop(a, Phospho) == Drop(b, Phospho)
    ensures var ts := [a, b];
      forall i, j :: 0 <= i < |ts| && 0 <= j < |ts| ==> Drop(ts[i], Phospho) == Drop(ts[j], Phospho)
  {
    var ts := [a, b];
    forall i, j | 0 <= i < |ts| && 0 <= j < |ts| ensures Drop(ts[i], Phospho) == Drop(ts[j], Phospho) {
      if i == 0 {
        assert ts[i] == a;
      } else {
        assert ts[i] == b;
      }
      if j == 0 {
        assert ts[j] == a;
      } else {
        assert ts[j] == b;
      }
    }
  }

  /** A cluster holding two differently rendered phospho isomers, in that
      order, has a consensus annotation. */
  lemma IsomerPair(a: seq<Token>, b: seq<Token>)
    requires WellFormed(a) && WellFormed(b) && Render(a) != Render(b)
    requires Drop(a, Phospho) == Drop(b, Phospho)
    ensures var xs := [Some(Render(a)), Some(Render(b))];
      Rendered(xs, [a, b]) && |DistinctValues(xs)| >= 2 && GetConsensusModifiedSequence(xs).Some?
  {
    var xs, ts := [Some(Render(a)), Some(Render(b))], [a, b];
    RenderedPair(a, b);
    assert |DistinctValues(xs)| >= 2 by {
      assert xs[0] == Some(Render(a)) && xs[1] == Some(Render(b));
      TwoDistinctValues(xs, Render(a), Render(b));
    }
    PairDrops(a, b);
    ConsensusOfIsomers(xs, ts);
  }

  lemma IsomerTokens(x: char, y: char)
    requires IsResidueLetter(x) && IsAcceptor(x) && IsResidueLetter(y) && IsAcceptor(y)
    ensures WellFormed([Terminus, Residue(x), Phospho, Residue(y), Terminus])
    ensures WellFormed([Terminus, Residue(x), Residue(y), Phospho, Terminus])
  {
  }

  /** As written, the annotation of two isomers starts with the first one's
      rendering with its phosphorylated residues deleted. */
  lemma PairHead(a: seq<Token>, b: seq<Token>)
    requires WellFormed(a) && WellFormed(b) && Drop(a, Phospho) == Drop(b, Phospho)
    requires RemoveModificationsAsWritten(Render(a), true) != RemoveModificationsAsWritten(Render(b), true)
    ensures var r := GetConsensusModifiedSequence([Some(Render(a)), Some(Render(b))]);
      r.Some? && StartsWith(r.value, RemoveModificationsAsWritten(Render(a), true) + ".")
  {
    IsomerPair(a, b);
    ConsensusPrefix([Some(Render(a)), Some(Render(b))], [a, b]);
    AsWrittenDropsSites(a);
  }

  /** As written, the annotation of the isomers `_X(ph)Y_` and `_XY(ph)_`
      depends on their order: it starts with `_Y_` when the first comes first
      and with `_X_` otherwise. */
  lemma AsWrittenOrderDependent(x: char, y: char)
    requires IsResidueLetter(x) && IsAcceptor(x) && IsResidueLetter(y) && IsAcceptor(y) && x != y
    ensures var a := Render([Terminus, Residue(x), Phospho, Residue(y), Terminus]);
      var b := Render([Terminus, Residue(x), Residue(y), Phospho, Terminus]);
      GetConsensusModifiedSequence([Some(a), Some(b)]).Some? &&
      StartsWith(GetConsensusModifiedSequence([Some(a), Some(b)]).value, ['_', y, '_', '.']) &&
      GetConsensusModifiedSequence([Some(b), Some(a)]).Some? &&
      StartsWith(GetConsensusModifiedSequence([Some(b), Some(a)]).value, ['_', x, '_', '.'])
  {
    var ta := [Terminus, Residue(x), Phospho, Residue(y), Terminus];
    var tb := [Terminus, Residue(x), Residue(y), Phospho, Terminus];
    assert RemoveModificationsAsWritten(Render(ta), true) == ['_', y, '_'] by {
      AsWrittenFirstIsomer(x, y);
    }
    assert RemoveModificationsAsWritten(Render(tb), true) == ['_', x, '_'] by {
      AsWrittenSecondIsomer(x, y);
    }
    assert WellFormed(ta) && WellFormed(tb) by {
      IsomerTokens(x, y);
    }
    assert Drop(ta, Phospho) == Drop(tb, Phospho) by {
      DropFirstIsomer(x, y);
      DropSecondIsomer(x, y);
    }
    assert ['_', y, '_'] + "." == ['_', y, '_', '.'];
    assert ['_', x, '_'] + "." == ['_', x, '_', '.'];
    PairHead(ta, tb);
    PairHead(tb, ta);
  }

  /** The annotation as evidently intended: its head drops only the phospho
      annotations of the first sequence, as `utils.remove_modifications` does. */
  function CorrectedAnnotation(sequences: seq<string>, lowered: seq<string>): (r: string)
    requires |sequences| >= 1 && |lowered| >= 1
    ensures StartsWith(r, RemoveModifications(sequences[0], true) + ".")
  {
    Annotation(RemoveModifications(sequences[0], true), lowered)
  }

  /** `get_consensus_modified_sequence` with the corrected annotation: NaN in
      the same cases, and a single value unchanged. */
  function CorrectedConsensusModifiedSequence(xs: seq<Option<string>>): (r: Option<string>)
    ensures r.None? <==> GetConsensusModifiedSequence(xs).None?
    ensures forall v :: OnlyValue(xs, v) ==> r == Some(v)
  {
    DistinctValuesSingle(xs);
    match CheckAmbiguity(xs, Sequences)
    case Missing => None
    case Single(v) => Some(v)
    case Isomers(vs, ls) => Some(CorrectedAnnotation(vs, ls))
  }

  /** With the corrected head, the annotation of isomers starts with the
      sequence without its phospho groups, which is the same whichever member
      comes first. */
  lemma CorrectedConsensusPrefix(xs: seq<Option<string>>, ts: seq<seq<Token>>)
    requires Rendered(xs, ts)
    requires |DistinctValues(xs)| >= 2 && CorrectedConsensusModifiedSequence(xs).Some?
    ensures forall j :: 0 <= j < |ts| ==>
      StartsWith(CorrectedConsensusModifiedSequence(xs).value, Render(Drop(ts[j], Phospho)) + ".")
  {
    AgreeRendered(xs, ts);
    var r := CheckAmbiguity(xs, Sequences);
    assert r.Isomers?;
    var v := DistinctValues(xs)[0];
    assert v in DistinctValues(xs);
    var k :| 0 <= k < |xs| && xs[k] == Some(v);
    WellFormedLetters(ts[k]);
    RemoveModificationsRender(ts[k]);
    assert Agree(xs, Sequences);
  }

  /** With the corrected head, the annotation of two isomers starts with
      their shared phospho-free rendering, in either order. */
  lemma CorrectedPairHead(a: seq<Token>, b: seq<Token>)
    requires WellFormed(a) && WellFormed(b) && Drop(a, Phospho) == Drop(b, Phospho)
    requires Render(a) != Render(b)
    ensures var r := CorrectedConsensusModifiedSequence([Some(Render(a)), Some(Render(b))]);
      r.Some? && StartsWith(r.value, Render(Drop(a, Phospho)) + ".")
  {
    IsomerPair(a, b);
    CorrectedConsensusPrefix([Some(Render(a)), Some(Render(b))], [a, b]);
    assert [a, b][0] == a;
  }

  /** With the corrected head, both orders of `_X(ph)Y_` and `_XY(ph)_` give
      an annotation starting with `_XY_`. */
  lemma CorrectedOrderIndependent(x: char, y: char)
    requires IsResidueLetter(x) && IsAcceptor(x) && IsResidueLetter(y) && IsAcceptor(y) && x != y
    ensures var a := Render([Terminus, Residue(x), Phospho, Residue(y), Terminus]);
      var b := Render([Terminus, Residue(x), Residue(y), Phospho, Terminus]);
      CorrectedConsensusModifiedSequence([Some(a), Some(b)]).Some? &&
      StartsWith(CorrectedConsensusModifiedSequence([Some(a), Some(b)]).value, ['_', x, y, '_', '.']) &&
      CorrectedConsensusModifiedSequence([Some(b), Some(a)]).Some? &&
      StartsWith(CorrectedConsensusModifiedSequence([Some(b), Some(a)]).value, ['_', x, y, '_', '.'])
  {
    var ta := [Terminus, Residue(x), Phospho, Residue(y), Terminus];
    var tb := [Terminus, Residue(x), Residue(y), Phospho, Terminus];
    assert Render(ta) != Render(tb) by {
      AsWrittenFirstIsomer(x, y);
      AsWrittenSecondIsomer(x, y);
    }
    assert WellFormed(ta) && WellFormed(tb) by {
      IsomerTokens(x, y);
    }
    assert Drop(ta, Phospho) == Drop(tb, Phospho) == [Terminus, Residue(x), Residue(y), Terminus] by {
      DropFirstIsomer(x, y);
      DropSecondIsomer(x, y);
    }
    assert Render([Terminus, Residue(x), Residue(y), Terminus]) == ['_', x, y, '_'] by {
      RenderTwoResidues(x, y);
    }
    assert ['_', x, y, '_'] + "." == ['_', x, y, '_', '.'];
    CorrectedPairHead(ta, tb);
    CorrectedPairHead(tb, ta);
  }
}
