/** The cluster-wise identity transfer of `simsi_transfer/transfer.py`: the
    summary table is a sequence of scans, each in one MaRaCluster cluster;
    `transfer` aggregates the identified scans of each cluster and stamps
    every scan as directly identified (`d`), transferred (`t`) or neither, and
    `flag_ambiguous_clusters` marks clusters whose members disagree. */
module Transfer {
  import opened Wrappers
  import opened Utils
  import opened Consensus
  import opened Probabilities

  /** The columns `transfer` aggregates per cluster, NaN as `None`. */
  datatype Identity = Identity(
    sequence: Option<string>,
    modifications: Option<string>,
    probabilities: Option<string>,
    proteins: Option<string>,
    geneNames: Option<string>,
    proteinNames: Option<string>,
    charge: Option<int>,
    mz: Option<real>,
    mass: Option<real>,
    missedCleavages: Option<int>,
    length: Option<int>,
    reverse: Option<string>,
    modifiedSequence: Option<string>)

  /** One row of the summary table. */
  datatype Scan = Scan(
    rawFile: string,
    scanNumber: int,
    clusterID: int,
    id: Identity,
    identification: Option<char>,
    modAmbiguous: bool,
    rawAmbiguous: bool)

  predicate Identified(s: Scan) {
    s.id.modifiedSequence.Some?
  }

  function Column<T>(ids: seq<Identity>, f: Identity -> T): (c: seq<T>)
    ensures |c| == |ids|
    ensures forall i :: 0 <= i < |ids| ==> c[i] == f(ids[i])
  {
    seq(|ids|, i requires 0 <= i < |ids| => f(ids[i]))
  }

  /** The identities of the identified scans of cluster `c`, in table order. */
  function ClusterIdentities(table: seq<Scan>, c: int): (ids: seq<Identity>)
    ensures forall x :: x in ids <==>
      exists j :: 0 <= j < |table| && table[j].clusterID == c && Identified(table[j]) && table[j].id == x
    decreases |table|
  {
    if table == [] then []
    else
      var rest := ClusterIdentities(table[1..], c);
      assert forall j :: 1 <= j < |table| ==> table[j] == table[1..][j - 1];
      if table[0].clusterID == c && Identified(table[0]) then [table[0].id] + rest else rest
  }

  /** pandas `mean`: the mean of the present values, NaN when there are none. */
  function Mean(xs: seq<Option<real>>): (r: Option<real>)
    ensures r.Some? <==> exists v :: Some(v) in xs
  {
    var vs := RemoveNanValues(xs);
    if |vs| == 0 then
      assert forall v :: Some(v) !in xs by {
        forall v | Some(v) in xs ensures v in vs { }
      }
      None
    else
      assert Some(vs[0]) in xs;
      Some(Sum(vs) / |vs| as real)
  }

  /** When the present values agree, the mean is that value. */
  lemma MeanConstant(xs: seq<Option<real>>, v: real)
    requires OnlyValue(xs, v)
    ensures Mean(xs) == Some(v)
  {
    var vs := RemoveNanValues(xs);
    assert v in vs;
    forall i | 0 <= i < |vs| ensures vs[i] == v {
      assert vs[i] in vs;
    }
    SumConstant(vs, v);
    var n := |vs| as real;
    assert n > 0.0;
    assert Sum(vs) == n * v;
    MulDivCancel(n, v);
    assert Mean(xs) == Some(Sum(vs) / n);
  }

  function SequenceOf(x: Identity): Option<string> { x.sequence }
  function ModificationsOf(x: Identity): Option<string> { x.modifications }
  function ProbabilitiesOf(x: Identity): Option<string> { x.probabilities }
  function ProteinsOf(x: Identity): Option<string> { x.proteins }
  function GeneNamesOf(x: Identity): Option<string> { x.geneNames }
  function ProteinNamesOf(x: Identity): Option<string> { x.proteinNames }
  function ChargeOf(x: Identity): Option<int> { x.charge }
  function MzOf(x: Identity): Option<real> { x.mz }
  function MassOf(x: Identity): Option<real> { x.mass }
  function MissedCleavagesOf(x: Identity): Option<int> { x.missedCleavages }
  function LengthOf(x: Identity): Option<int> { x.length }
  function ReverseOf(x: Identity): Option<string> { x.reverse }
  function ModifiedSequenceOf(x: Identity): Option<string> { x.modifiedSequence }

  /** The `agg_funcs` of `transfer` applied to the identified scans of one
      cluster; `decision` selects the majority vote for the modified sequence.
      The modified sequence is NaN exactly when nothing is present or two
      present values are not phospho isomers; a single value is kept; the vote
      picks a present value, and otherwise isomers get their annotation. */
  function Aggregate(ids: seq<Identity>, decision: bool, fmt: real -> string): (r: Identity)
    ensures var ms := Column(ids, ModifiedSequenceOf);
      (r.modifiedSequence == None <==>
        (forall v :: Some(v) !in ms) || (|DistinctValues(ms)| >= 2 && !Agree(ms, Sequences))) &&
      (forall v :: OnlyValue(ms, v) ==> r.modifiedSequence == Some(v)) &&
      (decision && r.modifiedSequence.Some? ==> Some(r.modifiedSequence.value) in ms) &&
      (!decision && r.modifiedSequence.Some? && |DistinctValues(ms)| >= 2 ==>
        r.modifiedSequence.value == GenerateModifiedSequenceAnnotation(DistinctValues(ms), LowerAll(DistinctValues(ms))))
  {
    var modseqs := Column(ids, ModifiedSequenceOf);
    Identity(
      sequence := GetUniqueElseNan(Column(ids, SequenceOf)),
      modifications := GetUniqueElseNan(Column(ids, ModificationsOf)),
      probabilities := AverageProbabilities(Column(ids, ProbabilitiesOf), fmt),
      proteins := GetUniqueElseNan(Column(ids, ProteinsOf)),
      geneNames := GetUniqueElseNan(Column(ids, GeneNamesOf)),
      proteinNames := GetUniqueElseNan(Column(ids, ProteinNamesOf)),
      charge := GetUniqueElseNan(Column(ids, ChargeOf)),
      mz := Mean(Column(ids, MzOf)),
      mass := Mean(Column(ids, MassOf)),
      missedCleavages := GetUniqueElseNan(Column(ids, MissedCleavagesOf)),
      length := GetUniqueElseNan(Column(ids, LengthOf)),
      reverse := GetUniqueElseNan(Column(ids, ReverseOf)),
      modifiedSequence :=
        if decision then GetModifiedSequenceDecision(modseqs) else GetConsensusModifiedSequence(modseqs))
  }

  /** The other aggregated columns: each `get_unique_else_nan` column is v
      exactly when v is its only present value; `m/z` and `Mass` are NaN
      exactly when no value is present and equal v when v is the only one; the
      probabilities are NaN exactly when none is present or two disagree once
      their numbers are stripped, and a single string is kept. */
  lemma AggregateColumns(ids: seq<Identity>, decision: bool, fmt: real -> string)
    ensures var r := Aggregate(ids, decision, fmt);
      (forall v :: r.sequence == Some(v) <==> OnlyValue(Column(ids, SequenceOf), v)) &&
      (forall v :: r.modifications == Some(v) <==> OnlyValue(Column(ids, ModificationsOf), v)) &&
      (forall v :: r.proteins == Some(v) <==> OnlyValue(Column(ids, ProteinsOf), v)) &&
      (forall v :: r.geneNames == Some(v) <==> OnlyValue(Column(ids, GeneNamesOf), v)) &&
      (forall v :: r.proteinNames == Some(v) <==> OnlyValue(Column(ids, ProteinNamesOf), v)) &&
      (forall v :: r.charge == Some(v) <==> OnlyValue(Column(ids, ChargeOf), v)) &&
      (forall v :: r.missedCleavages == Some(v) <==> OnlyValue(Column(ids, MissedCleavagesOf), v)) &&
      (forall v :: r.length == Some(v) <==> OnlyValue(Column(ids, LengthOf), v)) &&
      (forall v :: r.reverse == Some(v) <==> OnlyValue(Column(ids, ReverseOf), v)) &&
      (r.mz.Some? <==> exists v :: Some(v) in Column(ids, MzOf)) &&
      (forall v :: OnlyValue(Column(ids, MzOf), v) ==> r.mz == Some(v)) &&
      (r.mass.Some? <==> exists v :: Some(v) in Column(ids, MassOf)) &&
      (forall v :: OnlyValue(Column(ids, MassOf), v) ==> r.mass == Some(v)) &&
      (r.probabilities == None <==>
        (forall v :: Some(v) !in Column(ids, ProbabilitiesOf)) ||
        (|DistinctValues(Column(ids, ProbabilitiesOf))| >= 2 && !Agree(Column(ids, ProbabilitiesOf), Probabilities))) &&
      (forall v :: OnlyValue(Column(ids, ProbabilitiesOf), v) ==> r.probabilities == Some(v))
  {
    forall v | OnlyValue(Column(ids, MzOf), v) ensures Aggregate(ids, decision, fmt).mz == Some(v) {
      MeanConstant(Column(ids, MzOf), v);
    }
    forall v | OnlyValue(Column(ids, MassOf), v) ensures Aggregate(ids, decision, fmt).mass == Some(v) {
      MeanConstant(Column(ids, MassOf), v);
    }
  }

  /** The clusters holding at least one identified scan. */
  function IdentifiedClusters(table: seq<Scan>): set<int> {
    set j | 0 <= j < |table| && Identified(table[j]) :: table[j].clusterID
  }

  /** `cluster_info_df`: the aggregate of every cluster with an identified scan. */
  function ClusterInfo(table: seq<Scan>, decision: bool, fmt: real -> string): map<int, Identity> {
    map c | c in IdentifiedClusters(table) :: Aggregate(ClusterIdentities(table, c), decision, fmt)
  }

  /** The merge and the two `.loc` assignments for one scan. */
  function TransferRow(info: map<int, Identity>, s: Scan): Scan {
    if Identified(s) then s.(identification := Some('d'))
    else if s.clusterID in info && info[s.clusterID].modifiedSequence.Some? then
      s.(identification := Some('t'), id := info[s.clusterID])
    else s.(identification := None)
  }

  function TransferAll(table: seq<Scan>, decision: bool, fmt: real -> string): (out: seq<Scan>)
    ensures |out| == |table|
  {
    var info := ClusterInfo(table, decision, fmt);
    seq(|table|, i requires 0 <= i < |table| => TransferRow(info, table[i]))
  }

  /** `transfer`: the cluster table is computed from the table as it was, then
      every scan is stamped in place. */
  method Transfer(rows: array<Scan>, decision: bool, fmt: real -> string)
    modifies rows
    ensures rows[..] == TransferAll(old(rows[..]), decision, fmt)
  {
    var table := rows[..];
    var info := ClusterInfo(table, decision, fmt);
    var i := 0;
    while i < rows.Length
      invariant 0 <= i <= rows.Length
      invariant forall j :: 0 <= j < i ==> rows[j] == TransferRow(info, table[j])
      invariant forall j :: i <= j < rows.Length ==> rows[j] == table[j]
    {
      rows[i] := TransferRow(info, rows[i]);
      i := i + 1;
    }
  }

  /** The aggregate a scan's cluster gets, whether or not it has identified scans. */
  function ClusterAggregate(table: seq<Scan>, c: int, decision: bool, fmt: real -> string): Identity {
    Aggregate(ClusterIdentities(table, c), decision, fmt)
  }

  lemma IdentifiedCluster(table: seq<Scan>, c: int)
    ensures ClusterIdentities(table, c) != [] ==> c in IdentifiedClusters(table)
  {
    var ids := ClusterIdentities(table, c);
    if ids != [] {
      assert ids[0] in ids;
      var j :| 0 <= j < |table| && table[j].clusterID == c && Identified(table[j]) && table[j].id == ids[0];
    }
  }

  /** One row out per row in: an identified scan becomes `d` and keeps its own
      columns; an unidentified scan becomes `t` and takes every aggregated
      column exactly when its cluster's consensus modified sequence exists;
      every other scan has no identification and keeps its columns; nothing
      but the identification and the aggregated columns changes. */
  lemma TransferRules(table: seq<Scan>, decision: bool, fmt: real -> string, i: int)
    requires 0 <= i < |table|
    ensures var out := TransferAll(table, decision, fmt)[i];
      var cons := ClusterAggregate(table, table[i].clusterID, decision, fmt);
      (out.identification == Some('d') <==> Identified(table[i])) &&
      (out.identification == Some('t') <==> !Identified(table[i]) && cons.modifiedSequence.Some?) &&
      (out.identification.None? <==> !Identified(table[i]) && cons.modifiedSequence.None?) &&
      (out.identification == Some('d') ==> out.id == table[i].id) &&
      (out.identification == Some('t') ==> out.id == cons) &&
      (out.identification.None? ==> out.id == table[i].id) &&
      out == table[i].(identification := out.identification, id := out.id)
  {
    var c := table[i].clusterID;
    var info := ClusterInfo(table, decision, fmt);
    var cons := ClusterAggregate(table, c, decision, fmt);
    IdentifiedCluster(table, c);
    if c !in info {
      assert Column(ClusterIdentities(table, c), ModifiedSequenceOf) == [];
    }
    TransferRowRules(info, table[i], cons);
  }

  /** The stamping of one scan whose cluster aggregates to `cons`; a cluster
      missing from the table of aggregates has no consensus. */
  lemma TransferRowRules(info: map<int, Identity>, s: Scan, cons: Identity)
    requires s.clusterID in info ==> info[s.clusterID] == cons
    requires s.clusterID !in info ==> cons.modifiedSequence.None?
    ensures var out := TransferRow(info, s);
      (out.identification == Some('d') <==> Identified(s)) &&
      (out.identification == Some('t') <==> !Identified(s) && cons.modifiedSequence.Some?) &&
      (out.identification.None? <==> !Identified(s) && cons.modifiedSequence.None?) &&
      (out.identification == Some('d') ==> out.id == s.id) &&
      (out.identification == Some('t') ==> out.id == cons) &&
      (out.identification.None? ==> out.id == s.id) &&
      out == s.(identification := out.identification, id := out.id)
  {
  }

  /** The modified sequences of the identified scans of a cluster. */
  function ClusterModSeqs(table: seq<Scan>, c: int): seq<Option<string>> {
    Column(ClusterIdentities(table, c), ModifiedSequenceOf)
  }

  lemma ClusterModSeqsPresent(table: seq<Scan>, c: int, v: string)
    requires Some(v) in ClusterModSeqs(table, c)
    ensures exists j :: 0 <= j < |table| && table[j].clusterID == c && table[j].id.modifiedSequence == Some(v)
  {
    var ids := ClusterIdentities(table, c);
    var k :| 0 <= k < |ids| && ClusterModSeqs(table, c)[k] == Some(v);
    assert ids[k] in ids;
  }

  /** A consensus is transferred only from a cluster whose identified scans
      agree up to the placement of phospho groups. */
  lemma TransferredClusterAgrees(table: seq<Scan>, fmt: real -> string, i: int)
    requires 0 <= i < |table|
    requires TransferAll(table, false, fmt)[i].identification == Some('t')
    ensures var xs := ClusterModSeqs(table, table[i].clusterID);
      (exists v :: Some(v) in xs) && Agree(xs, Sequences)
  {
    TransferRules(table, false, fmt, i);
    var xs := ClusterModSeqs(table, table[i].clusterID);
    if |DistinctValues(xs)| < 2 {
      assert DistinctValues(xs) != [] by {
        var v :| Some(v) in xs;
        assert v in DistinctValues(xs);
      }
      DistinctValuesSingle(xs);
      assert OnlyValue(xs, DistinctValues(xs)[0]);
    }
  }

  /** With the majority vote, the transferred modified sequence is one that an
      identified scan of the same cluster carries. */
  lemma TransferredDecisionFromCluster(table: seq<Scan>, fmt: real -> string, i: int)
    requires 0 <= i < |table|
    requires TransferAll(table, true, fmt)[i].identification == Some('t')
    ensures var v := TransferAll(table, true, fmt)[i].id.modifiedSequence;
      exists j :: 0 <= j < |table| && table[j].clusterID == table[i].clusterID && table[j].id.modifiedSequence == v
  {
    TransferRules(table, true, fmt, i);
    var v := TransferAll(table, true, fmt)[i].id.modifiedSequence.value;
    ClusterModSeqsPresent(table, table[i].clusterID, v);
  }

  /** When the identified scans of a cluster carry a single modified sequence,
      every unidentified scan of the cluster receives exactly that sequence. */
  lemma TransferUnique(table: seq<Scan>, decision: bool, fmt: real -> string, i: int, v: string)
    requires 0 <= i < |table| && !Identified(table[i])
    requires OnlyValue(ClusterModSeqs(table, table[i].clusterID), v)
    ensures TransferAll(table, decision, fmt)[i].identification == Some('t')
    ensures TransferAll(table, decision, fmt)[i].id.modifiedSequence == Some(v)
  {
    TransferRules(table, decision, fmt, i);
  }

  // ---------------------------------------------------------------------------
  // Ambiguous clusters

  /** A column of every scan of cluster `c`, identified or not. */
  function ClusterColumn<T(==, !new)>(table: seq<Scan>, c: int, f: Scan -> Option<T>): (xs: seq<Option<T>>)
    ensures forall x :: x in xs <==> exists j :: 0 <= j < |table| && table[j].clusterID == c && f(table[j]) == x
    decreases |table|
  {
    if table == [] then []
    else
      var rest := ClusterColumn(table[1..], c, f);
      assert forall j :: 1 <= j < |table| ==> table[j] == table[1..][j - 1];
      if table[0].clusterID == c then [f(table[0])] + rest else rest
  }

  /** `nunique(dropna=True) >= 2`. */
  predicate TwoOrMore(xs: seq<Option<string>>) {
    |DistinctValues(xs)| >= 2
  }

  lemma TwoOrMoreMeans(xs: seq<Option<string>>)
    ensures TwoOrMore(xs) <==> exists v, w :: v != w && Some(v) in xs && Some(w) in xs
  {
    var d := DistinctValues(xs);
    if |d| >= 2 {
      assert d[0] != d[1] && d[0] in d && d[1] in d;
    }
    if exists v, w :: v != w && Some(v) in xs && Some(w) in xs {
      var v, w :| v != w && Some(v) in xs && Some(w) in xs;
      assert v in d && w in d;
      var a :| 0 <= a < |d| && d[a] == v;
      var b :| 0 <= b < |d| && d[b] == w;
      assert a != b;
    }
  }

  function ModSeqOf(s: Scan): Option<string> {
    s.id.modifiedSequence
  }

  function RawSeqOf(s: Scan): Option<string> {
    s.id.sequence
  }

  /** The flags of one scan: `raw_ambiguous` when its cluster holds two raw
      sequences, `mod_ambiguous` when it holds two modified sequences and is
      not raw-ambiguous. */
  function FlagRow(table: seq<Scan>, s: Scan): Scan {
    var raw := TwoOrMore(ClusterColumn(table, s.clusterID, RawSeqOf));
    var mods := TwoOrMore(ClusterColumn(table, s.clusterID, ModSeqOf));
    s.(modAmbiguous := mods && !raw, rawAmbiguous := raw)
  }

  function FlagAll(table: seq<Scan>): (out: seq<Scan>)
    ensures |out| == |table|
  {
    seq(|table|, i requires 0 <= i < |table| => FlagRow(table, table[i]))
  }

  /** `flag_ambiguous_clusters`: the two merges and the clearing `.loc`. */
  method FlagAmbiguousClusters(rows: array<Scan>)
    modifies rows
    ensures rows[..] == FlagAll(old(rows[..]))
  {
    // The merges compute both flag columns from the whole table first; the
    // loop then writes them row by row.
    var flagged := FlagAll(rows[..]);
    var i := 0;
    while i < rows.Length
      invariant 0 <= i <= rows.Length
      invariant forall j :: 0 <= j < i ==> rows[j] == flagged[j]
    {
      rows[i] := flagged[i];
      i := i + 1;
    }
  }

  /** Two scans of the same cluster carry different present values. */
  ghost predicate Disagree(table: seq<Scan>, c: int, f: Scan -> Option<string>) {
    exists j, k :: 0 <= j < |table| && 0 <= k < |table| &&
      table[j].clusterID == c && table[k].clusterID == c &&
      f(table[j]).Some? && f(table[k]).Some? && f(table[j]) != f(table[k])
  }

  lemma TwoOrMoreColumn(table: seq<Scan>, c: int, f: Scan -> Option<string>)
    ensures TwoOrMore(ClusterColumn(table, c, f)) <==> Disagree(table, c, f)
  {
    var xs := ClusterColumn(table, c, f);
    TwoOrMoreMeans(xs);
    if Disagree(table, c, f) {
      var j, k :| 0 <= j < |table| && 0 <= k < |table| &&
        table[j].clusterID == c && table[k].clusterID == c &&
        f(table[j]).Some? && f(table[k]).Some? && f(table[j]) != f(table[k]);
      assert f(table[j]) in xs && f(table[k]) in xs;
    }
  }

  /** A scan is raw-ambiguous exactly when two scans of its cluster have
      different sequences, mod-ambiguous exactly when two have different
      modified sequences and it is not raw-ambiguous; the two flags are never
      set together, and nothing else changes. */
  lemma FlagRules(table: seq<Scan>, i: int)
    requires 0 <= i < |table|
    ensures var out := FlagAll(table)[i]; var c := table[i].clusterID;
      (out.rawAmbiguous <==> Disagree(table, c, RawSeqOf)) &&
      (out.modAmbiguous <==> Disagree(table, c, ModSeqOf) && !Disagree(table, c, RawSeqOf)) &&
      !(out.modAmbiguous && out.rawAmbiguous) &&
      out == table[i].(modAmbiguous := out.modAmbiguous, rawAmbiguous := out.rawAmbiguous)
  {
    TwoOrMoreColumn(table, table[i].clusterID, RawSeqOf);
    TwoOrMoreColumn(table, table[i].clusterID, ModSeqOf);
  }
}
