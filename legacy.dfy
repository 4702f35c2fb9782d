/** The older variants kept in `simsi_transfer/processing_functions.py`: the
    identity transfer that accepts a cluster only when its identified scans
    carry exactly one modified sequence, the ambiguity flags without
    precedence, the evidence assignment without retention time calibration,
    and `remove_unidentified_scans`. */
module Legacy {
  import opened Wrappers
  import opened Utils
  import opened Sorting
  import P = Processing
  import T = Transfer
  import E = Evidence

  // ---------------------------------------------------------------------------
  // transfer

  /** The first `grpdf`: the one distinct present modified sequence of
      cluster `c`, taken with `get_single_item`; none when the cluster has no
      identified scan or more than one modified sequence. */
  function Representative(table: seq<T.Scan>, c: int): (r: Option<string>)
    ensures forall v :: r == Some(v) <==> OnlyValue(T.ClusterColumn(table, c, T.ModSeqOf), v)
  {
    var xs := T.ClusterColumn(table, c, T.ModSeqOf);
    var elements := DistinctValues(xs);
    DistinctValuesSingle(xs);
    if |elements| == 1 then
      assert P.GetSingleItem(elements).value in elements;
      Some(P.GetSingleItem(elements).value)
    else None
  }

  /** A scan after the merge with the first `grpdf` and the two `.loc`
      assignments: an identified scan becomes `d`; any other takes the
      representative as its modified sequence, and `t` when there is one. */
  function Stamped(table: seq<T.Scan>, s: T.Scan): T.Scan {
    if T.Identified(s) then s.(identification := Some('d'))
    else
      var rep := Representative(table, s.clusterID);
      s.(identification := if rep.Some? then Some('t') else None, id := s.id.(modifiedSequence := rep))
  }

  function StampAll(table: seq<T.Scan>): (out: seq<T.Scan>)
    ensures |out| == |table|
    ensures forall i :: 0 <= i < |table| ==> out[i] == Stamped(table, table[i])
  {
    seq(|table|, i requires 0 <= i < |table| => Stamped(table, table[i]))
  }

  /** `get_main_object(set(x))` over one column of cluster `c`. */
  function ClusterMain<V(==, !new)>(table: seq<T.Scan>, c: int, f: T.Scan -> Option<V>): (r: Option<V>)
    ensures forall v :: r == Some(v) <==> OnlyValue(T.ClusterColumn(table, c, f), v)
  {
    var xs := T.ClusterColumn(table, c, f);
    P.GetMainObjectOfSet(xs);
    P.GetMainObject(Distinct(xs))
  }

  function ModificationsOf(s: T.Scan): Option<string> { s.id.modifications }
  function ProteinsOf(s: T.Scan): Option<string> { s.id.proteins }
  function GeneNamesOf(s: T.Scan): Option<string> { s.id.geneNames }
  function ProteinNamesOf(s: T.Scan): Option<string> { s.id.proteinNames }
  function ChargeOf(s: T.Scan): Option<int> { s.id.charge }
  function MzOf(s: T.Scan): Option<real> { s.id.mz }
  function MassOf(s: T.Scan): Option<real> { s.id.mass }
  function MissedCleavagesOf(s: T.Scan): Option<int> { s.id.missedCleavages }
  function LengthOf(s: T.Scan): Option<int> { s.id.length }
  function ReverseOf(s: T.Scan): Option<string> { s.id.reverse }

  /** The eleven columns of `replacement_dict`, each reduced over cluster `c`
      with `get_main_object(set(x))`; the modified sequence and the
      probabilities stay those of `own`. */
  function MainColumns(table: seq<T.Scan>, c: int, own: T.Identity): T.Identity {
    own.(
      sequence := ClusterMain(table, c, T.RawSeqOf),
      modifications := ClusterMain(table, c, ModificationsOf),
      proteins := ClusterMain(table, c, ProteinsOf),
      geneNames := ClusterMain(table, c, GeneNamesOf),
      proteinNames := ClusterMain(table, c, ProteinNamesOf),
      charge := ClusterMain(table, c, ChargeOf),
      mz := ClusterMain(table, c, MzOf),
      mass := ClusterMain(table, c, MassOf),
      missedCleavages := ClusterMain(table, c, MissedCleavagesOf),
      length := ClusterMain(table, c, LengthOf),
      reverse := ClusterMain(table, c, ReverseOf))
  }

  /** The same columns, NaN. */
  function NoColumns(own: T.Identity): T.Identity {
    own.(sequence := None, modifications := None, proteins := None, geneNames := None,
      proteinNames := None, charge := None, mz := None, mass := None, missedCleavages := None,
      length := None, reverse := None)
  }

  /** A stamped scan after the second `grpdf` (clusters whose modified
      sequence reduces to NaN are dropped), the merge on clusterID and
      identification, and the copy into the rows flagged `t`. */
  function Completed(stamped: seq<T.Scan>, s: T.Scan): T.Scan {
    if s.identification == Some('t') then
      if ClusterMain(stamped, s.clusterID, T.ModSeqOf).Some? then s.(id := MainColumns(stamped, s.clusterID, s.id))
      else s.(id := NoColumns(s.id))
    else s
  }

  function CompleteAll(stamped: seq<T.Scan>): (out: seq<T.Scan>)
    ensures |out| == |stamped|
    ensures forall i :: 0 <= i < |stamped| ==> out[i] == Completed(stamped, stamped[i])
  {
    seq(|stamped|, i requires 0 <= i < |stamped| => Completed(stamped, stamped[i]))
  }

  function TransferAll(table: seq<T.Scan>): (out: seq<T.Scan>)
    ensures |out| == |table|
  {
    CompleteAll(StampAll(table))
  }

  /** The legacy `transfer`: the scans are stamped from the table as it was,
      then the rows flagged `t` are completed from the stamped table. */
  method Transfer(rows: array<T.Scan>)
    modifies rows
    ensures rows[..] == TransferAll(old(rows[..]))
  {
    StampRows(rows);
    CompleteRows(rows);
  }

  /** The first loop: every row stamped from the table as it was. */
  method StampRows(rows: array<T.Scan>)
    modifies rows
    ensures rows[..] == StampAll(old(rows[..]))
  {
    var table := rows[..];
    ghost var stamped := StampAll(table);
    var i := 0;
    while i < rows.Length
      invariant 0 <= i <= rows.Length
      invariant rows[..i] == stamped[..i] && rows[i..] == table[i..]
    {
      assert rows[i] == table[i..][0];
      rows[i] := Stamped(table, rows[i]);
      assert rows[..i + 1] == rows[..i] + [rows[i]];
      i := i + 1;
    }
    assert rows[..] == rows[..rows.Length];
  }

  /** The second loop: the rows flagged `t` completed from a copy of the stamped table. */
  method CompleteRows(rows: array<T.Scan>)
    modifies rows
    ensures rows[..] == CompleteAll(old(rows[..]))
  {
    var snapshot := rows[..];
    ghost var completed := CompleteAll(snapshot);
    var i := 0;
    while i < rows.Length
      invariant 0 <= i <= rows.Length
      invariant rows[..i] == completed[..i] && rows[i..] == snapshot[i..]
    {
      assert rows[i] == snapshot[i..][0];
      rows[i] := Completed(snapshot, rows[i]);
      assert rows[..i + 1] == rows[..i] + [rows[i]];
      i := i + 1;
    }
    assert rows[..] == rows[..rows.Length];
  }

  /** Two tables that agree on the cluster and on one column, row by row,
      give every cluster the same values of that column. */
  lemma {:induction false} ClusterColumnKept<V(!new)>(a: seq<T.Scan>, b: seq<T.Scan>, c: int, f: T.Scan -> Option<V>)
    requires |a| == |b|
    requires forall i :: 0 <= i < |a| ==> a[i].clusterID == b[i].clusterID && f(a[i]) == f(b[i])
    ensures T.ClusterColumn(a, c, f) == T.ClusterColumn(b, c, f)
    decreases |a|
  {
    if a != [] {
      assert forall i :: 0 <= i < |a[1..]| ==> a[1..][i] == a[i + 1] && b[1..][i] == b[i + 1];
      ClusterColumnKept(a[1..], b[1..], c, f);
    }
  }

  /** Stamping keeps the cluster and every column but the modified sequence;
      the modified sequence of a scan without one becomes the representative. */
  lemma StampedRow(table: seq<T.Scan>, k: int)
    requires 0 <= k < |table|
    ensures var st := StampAll(table)[k];
      st.clusterID == table[k].clusterID &&
      st.id == table[k].id.(modifiedSequence := st.id.modifiedSequence) &&
      (T.Identified(table[k]) ==> st.id.modifiedSequence == table[k].id.modifiedSequence) &&
      (!T.Identified(table[k]) ==> st.id.modifiedSequence == Representative(table, table[k].clusterID))
  {
  }

  lemma StampedRows(table: seq<T.Scan>)
    ensures forall k :: 0 <= k < |table| ==>
      StampAll(table)[k].clusterID == table[k].clusterID &&
      StampAll(table)[k].id == table[k].id.(modifiedSequence := StampAll(table)[k].id.modifiedSequence)
  {
    forall k | 0 <= k < |table|
      ensures StampAll(table)[k].clusterID == table[k].clusterID &&
        StampAll(table)[k].id == table[k].id.(modifiedSequence := StampAll(table)[k].id.modifiedSequence)
    {
      StampedRow(table, k);
    }
  }

  /** Stamping touches neither the cluster nor the copied columns. */
  lemma StampedMainColumns(table: seq<T.Scan>, c: int, own: T.Identity)
    ensures MainColumns(StampAll(table), c, own) == MainColumns(table, c, own)
  {
    var st := StampAll(table);
    StampedRows(table);
    ClusterColumnKept(st, table, c, T.RawSeqOf);
    ClusterColumnKept(st, table, c, ModificationsOf);
    ClusterColumnKept(st, table, c, ProteinsOf);
    ClusterColumnKept(st, table, c, GeneNamesOf);
    ClusterColumnKept(st, table, c, ProteinNamesOf);
    ClusterColumnKept(st, table, c, ChargeOf);
    ClusterColumnKept(st, table, c, MzOf);
    ClusterColumnKept(st, table, c, MassOf);
    ClusterColumnKept(st, table, c, MissedCleavagesOf);
    ClusterColumnKept(st, table, c, LengthOf);
    ClusterColumnKept(st, table, c, ReverseOf);
  }

  /** The second groupby keeps exactly the clusters the first one accepted:
      in the stamped table the modified sequences of a cluster reduce to its
      representative. */
  lemma StampedRepresentative(table: seq<T.Scan>, c: int)
    ensures ClusterMain(StampAll(table), c, T.ModSeqOf) == Representative(table, c)
  {
    if Representative(table, c).Some? {
      StampedUnique(table, c);
    } else {
      StampedAmbiguous(table, c);
    }
  }

  /** A representative found among the identified rows stays the only
      sequence of the cluster once the other rows are stamped with it. */
  lemma StampedUnique(table: seq<T.Scan>, c: int)
    requires Representative(table, c).Some?
    ensures ClusterMain(StampAll(table), c, T.ModSeqOf) == Representative(table, c)
  {
    var st := StampAll(table);
    var ys := T.ClusterColumn(st, c, T.ModSeqOf);
    var v := Representative(table, c).value;
    var j :| 0 <= j < |table| && table[j].clusterID == c && T.ModSeqOf(table[j]) == Some(v);
    StampedRow(table, j);
    assert st[j].clusterID == c && T.ModSeqOf(st[j]) == Some(v);
    forall w | Some(w) in ys ensures w == v {
      var k :| 0 <= k < |st| && st[k].clusterID == c && T.ModSeqOf(st[k]) == Some(w);
      StampedRow(table, k);
      if T.Identified(table[k]) {
        assert table[k].clusterID == c && T.ModSeqOf(table[k]) == Some(w);
      }
    }
    assert OnlyValue(ys, v);
  }

  /** Without a representative no row is stamped, so the cluster keeps the
      same set of sequences and still has none. */
  lemma StampedAmbiguous(table: seq<T.Scan>, c: int)
    requires Representative(table, c).None?
    ensures ClusterMain(StampAll(table), c, T.ModSeqOf).None?
  {
    var st := StampAll(table);
    var xs := T.ClusterColumn(table, c, T.ModSeqOf);
    var ys := T.ClusterColumn(st, c, T.ModSeqOf);
    forall w ensures Some(w) in ys <==> Some(w) in xs {
      if Some(w) in ys {
        var k :| 0 <= k < |st| && st[k].clusterID == c && T.ModSeqOf(st[k]) == Some(w);
        StampedRow(table, k);
        assert table[k].clusterID == c && T.ModSeqOf(table[k]) == Some(w);
      }
      if Some(w) in xs {
        var k :| 0 <= k < |table| && table[k].clusterID == c && T.ModSeqOf(table[k]) == Some(w);
        StampedRow(table, k);
        assert st[k].clusterID == c && T.ModSeqOf(st[k]) == Some(w);
      }
    }
    if ClusterMain(st, c, T.ModSeqOf).Some? {
      assert OnlyValue(xs, ClusterMain(st, c, T.ModSeqOf).value);
    }
  }

  /** One row out per row in: an identified scan becomes `d` and keeps its
      columns; an unidentified scan becomes `t` exactly when the identified
      scans of its cluster carry a single modified sequence, and then takes
      that sequence and every copied column reduced over the whole cluster;
      every other scan has no identification and keeps its columns. */
  lemma TransferRules(table: seq<T.Scan>, i: int)
    requires 0 <= i < |table|
    ensures var out := TransferAll(table)[i]; var s := table[i]; var c := s.clusterID;
      var rep := Representative(table, c);
      (out.identification == Some('d') <==> T.Identified(s)) &&
      (out.identification == Some('t') <==> !T.Identified(s) && rep.Some?) &&
      (out.identification.None? <==> !T.Identified(s) && rep.None?) &&
      (out.identification != Some('t') ==> out.id == s.id) &&
      (out.identification == Some('t') ==> out.id == MainColumns(table, c, s.id).(modifiedSequence := rep)) &&
      out == s.(identification := out.identification, id := out.id)
  {
    var st := StampAll(table);
    var s := table[i];
    var c := s.clusterID;
    if !T.Identified(s) && Representative(table, c).Some? {
      StampedRepresentative(table, c);
      StampedMainColumns(table, c, st[i].id);
    }
  }

  lemma ClusterModSeqsColumn(table: seq<T.Scan>, c: int, w: string)
    ensures Some(w) in T.ClusterModSeqs(table, c) <==> Some(w) in T.ClusterColumn(table, c, T.ModSeqOf)
  {
    var ids := T.ClusterIdentities(table, c);
    var xs := T.ClusterModSeqs(table, c);
    if Some(w) in xs {
      var k :| 0 <= k < |xs| && xs[k] == Some(w);
      assert ids[k] in ids;
      var j :| 0 <= j < |table| && table[j].clusterID == c && T.Identified(table[j]) && table[j].id == ids[k];
      assert T.ModSeqOf(table[j]) == Some(w);
    }
    if Some(w) in T.ClusterColumn(table, c, T.ModSeqOf) {
      var j :| 0 <= j < |table| && table[j].clusterID == c && T.ModSeqOf(table[j]) == Some(w);
      assert T.Identified(table[j]);
      assert table[j].id in ids;
      var k :| 0 <= k < |ids| && ids[k] == table[j].id;
      assert xs[k] == Some(w);
    }
  }

  /** The legacy rule is the stricter one: both variants mark the same scans
      `d`, and a scan the legacy `transfer` marks `t` is marked `t` by
      `simsi_transfer/transfer.py` as well, with the same modified sequence,
      whether that resolves clusters by consensus or by majority vote. */
  lemma StricterThanTransfer(table: seq<T.Scan>, decision: bool, fmt: real -> string, i: int)
    requires 0 <= i < |table|
    ensures TransferAll(table)[i].identification == Some('d') <==>
      T.TransferAll(table, decision, fmt)[i].identification == Some('d')
    ensures TransferAll(table)[i].identification == Some('t') ==>
      T.TransferAll(table, decision, fmt)[i].identification == Some('t') &&
      T.TransferAll(table, decision, fmt)[i].id.modifiedSequence == TransferAll(table)[i].id.modifiedSequence
  {
    TransferRules(table, i);
    T.TransferRules(table, decision, fmt, i);
    var c := table[i].clusterID;
    var rep := Representative(table, c);
    if TransferAll(table)[i].identification == Some('t') {
      var v := rep.value;
      forall w ensures Some(w) in T.ClusterModSeqs(table, c) <==> Some(w) in T.ClusterColumn(table, c, T.ModSeqOf) {
        ClusterModSeqsColumn(table, c, w);
      }
      assert OnlyValue(T.ClusterModSeqs(table, c), v);
      T.TransferUnique(table, decision, fmt, i, v);
    }
  }

  // ---------------------------------------------------------------------------
  // flag_ambiguous_clusters

  /** `group_dataframe` after its filter: the clusters in which column `f`
      holds two or more distinct present values. */
  function Ambiguous(table: seq<T.Scan>, f: T.Scan -> Option<string>): (cs: set<int>)
    ensures forall i :: 0 <= i < |table| ==>
      (table[i].clusterID in cs <==> T.TwoOrMore(T.ClusterColumn(table, table[i].clusterID, f)))
  {
    set j | 0 <= j < |table| && T.TwoOrMore(T.ClusterColumn(table, table[j].clusterID, f)) :: table[j].clusterID
  }

  /** The first merge: `mod_ambiguous` for the scans of the flagged clusters. */
  function ModFlagged(mods: set<int>, s: T.Scan): T.Scan {
    s.(modAmbiguous := s.clusterID in mods)
  }

  /** The second merge: `raw_ambiguous` for the scans of the flagged clusters. */
  function RawFlagged(raws: set<int>, s: T.Scan): T.Scan {
    s.(rawAmbiguous := s.clusterID in raws)
  }

  function FlagAll(table: seq<T.Scan>): (out: seq<T.Scan>)
    ensures |out| == |table|
  {
    var mods := Ambiguous(table, T.ModSeqOf);
    var raws := Ambiguous(table, T.RawSeqOf);
    seq(|table|, i requires 0 <= i < |table| => RawFlagged(raws, ModFlagged(mods, table[i])))
  }

  /** The first merge, in place. */
  method MarkModAmbiguous(rows: array<T.Scan>, mods: set<int>)
    modifies rows
    ensures forall j :: 0 <= j < rows.Length ==> rows[j] == ModFlagged(mods, old(rows[j]))
  {
    var i := 0;
    while i < rows.Length
      invariant 0 <= i <= rows.Length
      invariant forall j :: 0 <= j < i ==> rows[j] == ModFlagged(mods, old(rows[j]))
      invariant forall j :: i <= j < rows.Length ==> rows[j] == old(rows[j])
    {
      rows[i] := ModFlagged(mods, rows[i]);
      i := i + 1;
    }
  }

  /** The second merge, in place. */
  method MarkRawAmbiguous(rows: array<T.Scan>, raws: set<int>)
    modifies rows
    ensures forall j :: 0 <= j < rows.Length ==> rows[j] == RawFlagged(raws, old(rows[j]))
  {
    var i := 0;
    while i < rows.Length
      invariant 0 <= i <= rows.Length
      invariant forall j :: 0 <= j < i ==> rows[j] == RawFlagged(raws, old(rows[j]))
      invariant forall j :: i <= j < rows.Length ==> rows[j] == old(rows[j])
    {
      rows[i] := RawFlagged(raws, rows[i]);
      i := i + 1;
    }
  }

  /** The legacy `flag_ambiguous_clusters`: both groupbys count on the table
      as it was, the two merges follow one another, and neither flag clears
      the other. */
  method FlagAmbiguousClusters(rows: array<T.Scan>)
    modifies rows
    ensures rows[..] == FlagAll(old(rows[..]))
  {
    var table := rows[..];
    var mods := Ambiguous(table, T.ModSeqOf);
    var raws := Ambiguous(table, T.RawSeqOf);
    MarkModAmbiguous(rows, mods);
    MarkRawAmbiguous(rows, raws);
    assert forall j :: 0 <= j < rows.Length ==> rows[j] == FlagAll(table)[j];
  }

  /** A scan is raw-ambiguous exactly when two scans of its cluster have
      different sequences and mod-ambiguous exactly when two have different
      modified sequences, so both flags can be set; nothing else changes.
      `simsi_transfer/transfer.py` sets the same raw flag and the mod flag
      only where the raw one is not set. */
  lemma FlagRules(table: seq<T.Scan>, i: int)
    requires 0 <= i < |table|
    ensures var out := FlagAll(table)[i]; var c := table[i].clusterID;
      (out.rawAmbiguous <==> T.Disagree(table, c, T.RawSeqOf)) &&
      (out.modAmbiguous <==> T.Disagree(table, c, T.ModSeqOf)) &&
      out == table[i].(modAmbiguous := out.modAmbiguous, rawAmbiguous := out.rawAmbiguous)
    ensures T.FlagAll(table)[i].rawAmbiguous == FlagAll(table)[i].rawAmbiguous
    ensures T.FlagAll(table)[i].modAmbiguous == (FlagAll(table)[i].modAmbiguous && !FlagAll(table)[i].rawAmbiguous)
  {
    T.TwoOrMoreColumn(table, table[i].clusterID, T.RawSeqOf);
    T.TwoOrMoreColumn(table, table[i].clusterID, T.ModSeqOf);
  }

  // ---------------------------------------------------------------------------
  // remove_unidentified_scans

  /** A scan of the summary with the summary_ID it is numbered with. */
  datatype Numbered = Numbered(summaryID: nat, scan: T.Scan)

  /** The scans with an identification, in table order. */
  function Identifieds(table: seq<T.Scan>): (r: seq<T.Scan>)
    ensures |r| <= |table|
    ensures forall s :: s in r <==> s in table && s.identification.Some?
    decreases |table|
  {
    if table == [] then []
    else
      var init := table[..|table| - 1];
      var last := table[|table| - 1];
      assert table == init + [last];
      Identifieds(init) + (if last.identification.Some? then [last] else [])
  }

  /** Only an all-identified table passes whole. */
  lemma {:induction false} IdentifiedsAll(table: seq<T.Scan>)
    ensures Identifieds(table) == table <==> forall i :: 0 <= i < |table| ==> table[i].identification.Some?
    decreases |table|
  {
    if table != [] {
      var init := table[..|table| - 1];
      var last := table[|table| - 1];
      assert table == init + [last];
      IdentifiedsAll(init);
      if Identifieds(table) == table {
        assert |Identifieds(init)| <= |init|;
        assert last.identification.Some?;
        assert Identifieds(table) == Identifieds(init) + [last];
        assert Identifieds(init) == init;
      }
      if forall i :: 0 <= i < |table| ==> table[i].identification.Some? {
        assert forall i :: 0 <= i < |init| ==> init[i] == table[i];
        assert Identifieds(init) == init;
      }
    }
  }

  /** `remove_unidentified_scans`: the identified scans, numbered 0, 1, ...
      in table order. */
  method RemoveUnidentifiedScans(summary: seq<T.Scan>) returns (r: seq<Numbered>)
    ensures |r| == |Identifieds(summary)|
    ensures forall k :: 0 <= k < |r| ==> r[k] == Numbered(k, Identifieds(summary)[k])
  {
    r := [];
    var i := 0;
    while i < |summary|
      invariant 0 <= i <= |summary|
      invariant |r| == |Identifieds(summary[..i])|
      invariant forall k :: 0 <= k < |r| ==> r[k] == Numbered(k, Identifieds(summary[..i])[k])
    {
      assert summary[..i + 1][..i] == summary[..i];
      if summary[i].identification.Some? {
        r := r + [Numbered(|r|, summary[i])];
      }
      i := i + 1;
    }
    assert summary[..i] == summary;
  }

  // ---------------------------------------------------------------------------
  // assign_evidence_feature

  /** `evidence[merge_columns]`: the legacy merge does not carry the
      retention time calibration. */
  function Selected(evidence: seq<E.EvidenceRow>): (r: seq<E.EvidenceRow>)
    ensures |r| == |evidence|
    ensures forall i :: 0 <= i < |evidence| ==> r[i] == evidence[i].(feature := evidence[i].feature.(rtCalibration := None))
  {
    seq(|evidence|, i requires 0 <= i < |evidence| => evidence[i].(feature := evidence[i].feature.(rtCalibration := None)))
  }

  /** The merge key: modified sequence, raw file and charge; pandas pairs
      missing keys with missing keys. */
  predicate SameKey(s: E.Psm, e: E.EvidenceRow) {
    s.cols.modifiedSequence == e.modifiedSequence && s.rawFile == e.rawFile && s.charge == e.charge
  }

  /** The scan's retention time lies in the evidence row's calibrated window,
      with no calibration applied; a missing value fails every comparison. */
  predicate InWindow(p: E.Psm) {
    var f := p.feature;
    p.retentionTime.Some? && f.calibratedRTStart.Some? && f.calibratedRTFinish.Some? &&
    f.calibratedRTStart.value <= p.retentionTime.value <= f.calibratedRTFinish.value
  }

  function TypedRow(p: E.Psm): E.Psm {
    if InWindow(p) then p.(newType := Some(E.MULTI_MSMS))
    else p.(newType := Some(E.MSMS), feature := E.Cleared(p.feature))
  }

  /** A scan is MULTI-MSMS exactly when it lies in the window; an MSMS scan
      loses the evidence row's Type and calibrated retention times; nothing
      else changes. The legacy window is the calibrated one of
      `simsi_transfer/evidence.py` with a calibration of zero. */
  lemma TypedRowRules(p: E.Psm)
    ensures E.Typed(TypedRow(p))
    ensures TypedRow(p).newType == Some(E.MULTI_MSMS) <==> InWindow(p)
    ensures TypedRow(p).newType == Some(E.MULTI_MSMS) ==> TypedRow(p) == p.(newType := Some(E.MULTI_MSMS))
    ensures TypedRow(p).newType == Some(E.MSMS) ==> TypedRow(p) == p.(newType := Some(E.MSMS), feature := E.Cleared(p.feature))
    ensures p.feature.rtCalibration == Some(0.0) ==> TypedRow(p) == E.TypedRow(p)
  {
  }

  /** The `new_type` assignments and the clearing `.loc`, row by row in place. */
  method AssignEvidenceType(summary: array<E.Psm>)
    modifies summary
    ensures forall i :: 0 <= i < summary.Length ==> summary[i] == TypedRow(old(summary[i]))
  {
    var i := 0;
    while i < summary.Length
      invariant 0 <= i <= summary.Length
      invariant forall j :: 0 <= j < i ==> summary[j] == TypedRow(old(summary[j]))
      invariant forall j :: i <= j < summary.Length ==> summary[j] == old(summary[j])
    {
      summary[i] := TypedRow(summary[i]);
      i := i + 1;
    }
  }

  /** Rows whose retention time calibration is 0 are typed as the current
      version types them. */
  lemma TypedRowsCalibrated(rows: seq<E.Psm>)
    ensures forall i :: 0 <= i < |rows| && rows[i].feature.rtCalibration == Some(0.0) ==>
      TypedRow(rows[i]) == E.TypedRow(rows[i])
  {
    forall i | 0 <= i < |rows| && rows[i].feature.rtCalibration == Some(0.0) {
      TypedRowRules(rows[i]);
    }
  }

  function TypedRows(rows: seq<E.Psm>): (r: seq<E.Psm>)
    ensures |r| == |rows|
    ensures forall i :: 0 <= i < |rows| ==> r[i] == TypedRow(rows[i])
    ensures (forall i :: 0 <= i < |rows| ==> rows[i].feature.rtCalibration == Some(0.0)) ==> r == E.TypedRows(rows)
  {
    TypedRowsCalibrated(rows);
    seq(|rows|, i requires 0 <= i < |rows| => TypedRow(rows[i]))
  }

  predicate IsMulti(p: E.Psm) {
    p.newType == Some(E.MULTI_MSMS)
  }

  /** The number of rows with summary_ID `k`. */
  function CountId(rows: seq<E.Psm>, k: nat): (n: nat)
    ensures n <= |rows|
  {
    if rows == [] then 0 else (if rows[0].summaryID == k then 1 else 0) + CountId(rows[1..], k)
  }

  lemma {:induction false} CountIdAppend(a: seq<E.Psm>, b: seq<E.Psm>, k: nat)
    ensures CountId(a + b, k) == CountId(a, k) + CountId(b, k)
    decreases |a|
  {
    if a == [] {
      assert a + b == b;
    } else {
      assert (a + b)[0] == a[0] && (a + b)[1..] == a[1..] + b;
      CountIdAppend(a[1..], b, k);
    }
  }

  lemma CountIdSnoc(a: seq<E.Psm>, x: E.Psm, k: nat)
    ensures CountId(a + [x], k) == CountId(a, k) + (if x.summaryID == k then 1 else 0)
  {
    CountIdAppend(a, [x], k);
    assert [x][1..] == [];
  }

  lemma {:induction false} CountIdIds(rows: seq<E.Psm>, k: nat)
    ensures CountId(rows, k) == 0 <==> k !in E.Ids(rows)
    decreases |rows|
  {
    if rows != [] {
      E.IdsCons(rows);
      CountIdIds(rows[1..], k);
    }
  }

  lemma {:induction false} CountIdInsert(x: E.Psm, s: seq<E.Psm>, key: E.Psm -> Key, k: nat)
    ensures CountId(Insert(x, s, key), k) == CountId(s, k) + (if x.summaryID == k then 1 else 0)
    decreases |s|
  {
    if s == [] {
      CountIdSnoc([], x, k);
      assert [] + [x] == [x];
    } else if KeyCmp(key(x), key(s[0])) <= 0 {
      assert ([x] + s)[1..] == s;
    } else {
      CountIdInsert(x, s[1..], key, k);
      assert ([s[0]] + Insert(x, s[1..], key))[1..] == Insert(x, s[1..], key);
    }
  }

  /** Sorting moves rows but keeps how many carry each summary_ID. */
  lemma {:induction false} CountIdSortBy(xs: seq<E.Psm>, key: E.Psm -> Key, k: nat)
    ensures CountId(SortBy(xs, key), k) == CountId(xs, k)
    decreases |xs|
  {
    if xs != [] {
      CountIdSortBy(xs[1..], key, k);
      CountIdInsert(xs[0], SortBy(xs[1..], key), key, k);
    }
  }

  lemma SortByMembers(xs: seq<E.Psm>, key: E.Psm -> Key)
    ensures forall x :: x in SortBy(xs, key) <==> x in xs
    ensures E.Ids(SortBy(xs, key)) == E.Ids(xs)
  {
    SortByCorrect(xs, key);
    assert forall x :: x in SortBy(xs, key) <==> x in multiset(SortBy(xs, key));
  }

  /** The summary_IDs that have a MULTI-MSMS row. */
  function MultiIds(rows: seq<E.Psm>): set<nat> {
    set x | x in rows && IsMulti(x) :: x.summaryID
  }

  /** Every row that is not MULTI-MSMS is the only row with its summary_ID. */
  ghost predicate OthersOnce(rows: seq<E.Psm>) {
    forall x :: x in rows && !IsMulti(x) ==> CountId(rows, x.summaryID) == 1
  }

  /** The first filter: every MULTI-MSMS row, and any other row only when no
      earlier row of the table has its summary_ID. A summary_ID without a
      MULTI-MSMS row keeps exactly one row. */
  function KeepFirstOther(rows: seq<E.Psm>): (r: seq<E.Psm>)
    ensures E.Ids(r) == E.Ids(rows)
    ensures forall x :: x in r ==> x in rows
    ensures forall k :: k !in MultiIds(r) ==> CountId(r, k) <= 1
    decreases |rows|
  {
    if rows == [] then []
    else
      var init := rows[..|rows| - 1];
      var last := rows[|rows| - 1];
      var r := KeepFirstOther(init);
      assert rows == init + [last];
      E.IdsSnoc(init, last);
      if IsMulti(last) || last.summaryID !in E.Ids(init) then
        E.IdsSnoc(r, last);
        forall k ensures CountId(r + [last], k) == CountId(r, k) + (if last.summaryID == k then 1 else 0) {
          CountIdSnoc(r, last, k);
        }
        CountIdIds(r, last.summaryID);
        assert forall x :: x in r ==> x in r + [last];
        assert last in r + [last];
        r + [last]
      else r
  }

  /** The second filter: every MULTI-MSMS row, and any other row only when no
      other row of `all` has its summary_ID. */
  function KeepUnrepeated(rows: seq<E.Psm>, all: seq<E.Psm>): (r: seq<E.Psm>)
    ensures forall x :: x in r <==> x in rows && (IsMulti(x) || CountId(all, x.summaryID) == 1)
    ensures forall k :: CountId(r, k) <= CountId(rows, k)
    decreases |rows|
  {
    if rows == [] then []
    else
      var rest := KeepUnrepeated(rows[1..], all);
      assert rows == [rows[0]] + rows[1..];
      if IsMulti(rows[0]) || CountId(all, rows[0].summaryID) == 1 then
        assert ([rows[0]] + rest)[1..] == rest;
        [rows[0]] + rest
      else rest
  }

  /** After the first filter the second loses no summary_ID, and leaves every
      row that is not MULTI-MSMS alone with its summary_ID. */
  lemma UnrepeatedIds(u: seq<E.Psm>)
    requires forall k :: k !in MultiIds(u) ==> CountId(u, k) <= 1
    ensures E.Ids(KeepUnrepeated(u, u)) == E.Ids(u)
    ensures OthersOnce(KeepUnrepeated(u, u))
  {
    var t := KeepUnrepeated(u, u);
    forall k | k in E.Ids(u) ensures k in E.Ids(t) {
      var x :| x in u && x.summaryID == k;
      if k in MultiIds(u) {
        var y :| y in u && IsMulti(y) && y.summaryID == k;
        assert y in t;
      } else {
        CountIdIds(u, k);
        assert x in t;
      }
    }
    forall x | x in t && !IsMulti(x) ensures CountId(t, x.summaryID) == 1 {
      CountIdIds(t, x.summaryID);
    }
  }

  lemma SortedOthersOnce(t: seq<E.Psm>, key: E.Psm -> Key)
    requires OthersOnce(t)
    ensures OthersOnce(SortBy(t, key))
  {
    SortByMembers(t, key);
    forall x | x in SortBy(t, key) && !IsMulti(x) ensures CountId(SortBy(t, key), x.summaryID) == 1 {
      CountIdSortBy(t, key, x.summaryID);
    }
  }

  /** The third filter: every row that is not MULTI-MSMS, and a MULTI-MSMS
      row only when no earlier row has its summary_ID. */
  function KeepFirstMulti(rows: seq<E.Psm>): (r: seq<E.Psm>)
    ensures E.Ids(r) == E.Ids(rows)
    ensures forall x :: x in r ==> x in rows
    decreases |rows|
  {
    if rows == [] then []
    else
      var init := rows[..|rows| - 1];
      var last := rows[|rows| - 1];
      var r := KeepFirstMulti(init);
      assert rows == init + [last];
      E.IdsSnoc(init, last);
      if !IsMulti(last) || last.summaryID !in E.Ids(init) then
        E.IdsSnoc(r, last);
        r + [last]
      else r
  }

  /** When every other row is alone with its summary_ID, the third filter
      leaves one row per summary_ID. */
  lemma {:induction false} KeepFirstMultiDistinct(rows: seq<E.Psm>)
    requires OthersOnce(rows)
    ensures E.DistinctIds(KeepFirstMulti(rows))
    decreases |rows|
  {
    if rows != [] {
      var init := rows[..|rows| - 1];
      var last := rows[|rows| - 1];
      assert rows == init + [last];
      forall k ensures CountId(rows, k) == CountId(init, k) + (if last.summaryID == k then 1 else 0) {
        CountIdSnoc(init, last, k);
      }
      forall x | x in init && !IsMulti(x) ensures CountId(init, x.summaryID) == 1 {
        CountIdIds(init, x.summaryID);
      }
      KeepFirstMultiDistinct(init);
      var r := KeepFirstMulti(init);
      if !IsMulti(last) || last.summaryID !in E.Ids(init) {
        if !IsMulti(last) {
          CountIdIds(init, last.summaryID);
        }
        E.DistinctIdsSnoc(r, last);
      }
    }
  }

  /** The order of the first sort: `new_type` descending. */
  function TypeKey(p: E.Psm): Key {
    [Desc(Text(p.newType))]
  }

  /** The order of the second sort: calibrated retention time ascending,
      missing values last. */
  function RtKey(p: E.Psm): Key {
    [Asc(Real(p.feature.calibratedRT))]
  }

  /** The two sorts and three filters: one row per summary_ID, and none lost. */
  function Filtered(typed: seq<E.Psm>): (r: seq<E.Psm>)
    ensures E.DistinctIds(r) && E.Ids(r) == E.Ids(typed)
  {
    var sorted := SortBy(typed, TypeKey);
    SortByMembers(typed, TypeKey);
    var u := KeepFirstOther(sorted);
    var t := KeepUnrepeated(u, u);
    UnrepeatedIds(u);
    var s := SortBy(t, RtKey);
    SortByMembers(t, RtKey);
    SortedOthersOnce(t, RtKey);
    KeepFirstMultiDistinct(s);
    KeepFirstMulti(s)
  }

  /** The rows of the legacy `assign_evidence_feature` before its checks:
      merged, typed, filtered and their evidence_IDs filled. */
  function FeatureRows(summary: seq<E.Psm>, evidence: seq<E.EvidenceRow>): (r: Result<seq<E.Psm>>)
    ensures r.Ok? ==> E.DistinctIds(r.value) && E.Ids(r.value) == E.Ids(summary)
    ensures r.Err? ==> r.error.ValueError?
  {
    var merged := E.LeftJoin(summary, Selected(evidence), SameKey);
    var typed := TypedRows(merged);
    E.SameIds(typed, merged);
    var kept := Filtered(typed);
    var filled := E.FillIds(kept);
    if filled.Ok? then
      E.SameIds(filled.value, kept);
      filled
    else filled
  }

  /** The legacy `assign_evidence_feature`: the checks of row count and of
      unique summary_IDs, then the rows sorted by sequence and modified
      sequence. */
  function AssignEvidenceFeature(summary: seq<E.Psm>, evidence: seq<E.EvidenceRow>): (r: Result<seq<E.Psm>>)
    ensures r.Ok? ==> |r.value| == |summary| && E.DistinctIds(r.value) && E.Ids(r.value) == E.Ids(summary)
    ensures r.Ok? ==> SortedBy(r.value, E.SequenceKey)
    ensures var f := FeatureRows(summary, evidence);
      r.Ok? ==> f.Ok? && forall x :: x in r.value <==> x in f.value
    ensures r.Err? ==> r.error.ValueError?
  {
    var filled := FeatureRows(summary, evidence);
    if filled.Err? then Err(filled.error)
    else if |filled.value| != |summary| then
      Err(ValueError("Number of summary entries changed during evidence feature assembly!"))
    else if !E.DistinctIds(filled.value) then Err(ValueError("Some summary_IDs were detected multiple times!"))
    else
      var rows := filled.value;
      var sorted := SortBy(rows, E.SequenceKey);
      SortByCorrect(rows, E.SequenceKey);
      assert DistinctBy(rows, (p: E.Psm) => p.summaryID);
      SortByDistinctBy(rows, E.SequenceKey, (p: E.Psm) => p.summaryID);
      SortByMembers(rows, E.SequenceKey);
      Ok(sorted)
  }

  /** The unique-summary_ID check never fails, and the row-count check fails
      exactly when the summary repeats a summary_ID: the call succeeds
      exactly when the summary_IDs are distinct and some kept row has an
      evidence_ID. */
  lemma AssignEvidenceFeatureOutcome(summary: seq<E.Psm>, evidence: seq<E.EvidenceRow>)
    ensures FeatureRows(summary, evidence).Ok? ==> E.DistinctIds(FeatureRows(summary, evidence).value)
    ensures AssignEvidenceFeature(summary, evidence).Ok? <==>
      E.DistinctIds(summary) && FeatureRows(summary, evidence).Ok?
  {
    var filled := FeatureRows(summary, evidence);
    E.IdsCount(summary);
    if filled.Ok? {
      E.IdsCount(filled.value);
    }
  }
}
