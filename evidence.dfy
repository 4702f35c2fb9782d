/** Evidence assembly of `simsi_transfer/evidence.py`: every identified or
    transferred MS2 scan is tied to a precursor feature (an evidence row of
    MaxQuant, or a feature of allPeptides.txt found by m/z and scan range),
    and the scans of one feature are folded into one row of the new
    evidence table. */
module Evidence {
  import opened Wrappers
  import opened Strings
  import opened Utils
  import opened Sorting

  const MULTI_MSMS: string := "MULTI-MSMS"
  const MSMS: string := "MSMS"

  /** The m/z tolerance `match_precursor` uses by default, in ppm. */
  const PPM_TOL: real := 20.0

  /** The columns of a scan that this module only carries to the evidence
      table. The reporter columns are one sequence per kind, channel `i` at
      index `i - 1`. */
  datatype ScanColumns = ScanColumns(
    scanID: nat,
    sequence: Option<string>,
    modifiedSequence: Option<string>,
    modifications: Option<string>,
    length: Option<int>,
    missedCleavages: Option<int>,
    proteins: Option<string>,
    geneNames: Option<string>,
    proteinNames: Option<string>,
    mass: Option<real>,
    massError: Option<real>,
    pep: Option<real>,
    score: Option<real>,
    deltaScore: Option<real>,
    reporters: seq<Option<real>>,
    corrected: seq<Option<real>>,
    reverse: Option<string>,
    identification: Option<char>,
    fraction: Option<int>,
    experiment: Option<string>)

  /** The columns a scan takes from the evidence row it is merged with; all
      `None` when there is none. */
  datatype Feature = Feature(
    leadingProteins: Option<string>,
    evType: Option<string>,
    calibratedRT: Option<real>,
    calibratedRTStart: Option<real>,
    calibratedRTFinish: Option<real>,
    rtCalibration: Option<real>,
    intensity: Option<real>)

  const NO_FEATURE := Feature(None, None, None, None, None, None, None)

  /** One row of the summary table merged with evidence.txt, with the
      `new_type` column this module fills in. */
  datatype Psm = Psm(
    summaryID: nat,
    rawFile: string,
    charge: Option<int>,
    mz: Option<real>,
    msScanNumber: Option<int>,
    retentionTime: Option<real>,
    cols: ScanColumns,
    evidenceID: Option<int>,
    feature: Feature,
    newType: Option<string>)

  // ---------------------------------------------------------------------------
  // assign_evidence_type

  /** The scan's retention time lies in the evidence row's calibrated window
      moved back by the calibration; a missing value fails every comparison,
      as NaN does. */
  predicate InRtWindow(p: Psm) {
    var f := p.feature;
    p.retentionTime.Some? && f.calibratedRTStart.Some? &&
    f.calibratedRTFinish.Some? && f.rtCalibration.Some? &&
    f.calibratedRTStart.value - f.rtCalibration.value <= p.retentionTime.value &&
    p.retentionTime.value <= f.calibratedRTFinish.value - f.rtCalibration.value
  }

  /** The evidence row's Type and calibrated retention times removed. */
  function Cleared(f: Feature): Feature {
    f.(evType := None, calibratedRT := None, calibratedRTStart := None, calibratedRTFinish := None)
  }

  /** The row after `assign_evidence_type`. */
  function TypedRow(p: Psm): Psm {
    if InRtWindow(p) then p.(newType := Some(MULTI_MSMS))
    else p.(newType := Some(MSMS), feature := Cleared(p.feature))
  }

  /** `new_type` is one of the two scan types. */
  predicate Typed(p: Psm) {
    p.newType == Some(MULTI_MSMS) || p.newType == Some(MSMS)
  }

  /** A scan is MULTI-MSMS exactly when it lies in its precursor's window;
      an MSMS scan loses the evidence row's Type and calibrated retention
      times; nothing else changes. */
  lemma TypedRowRules(p: Psm)
    ensures Typed(TypedRow(p))
    ensures TypedRow(p).newType == Some(MULTI_MSMS) <==> InRtWindow(p)
    ensures TypedRow(p).newType == Some(MULTI_MSMS) ==> TypedRow(p) == p.(newType := Some(MULTI_MSMS))
    ensures TypedRow(p).newType == Some(MSMS) ==>
      var f := TypedRow(p).feature;
      f.evType.None? && f.calibratedRT.None? && f.calibratedRTStart.None? && f.calibratedRTFinish.None?
    ensures TypedRow(p).(newType := p.newType, feature := p.feature) == p
    ensures TypedRow(p).feature.(evType := p.feature.evType, calibratedRT := p.feature.calibratedRT,
      calibratedRTStart := p.feature.calibratedRTStart, calibratedRTFinish := p.feature.calibratedRTFinish) == p.feature
  {
  }

  /** `assign_evidence_type`, column by column over the table in place. */
  method AssignEvidenceType(summary: array<Psm>)
    modifies summary
    ensures forall i :: 0 <= i < summary.Length ==> summary[i] == TypedRow(old(summary[i]))
  {
    var i := 0;
    while i < summary.Length
      invariant 0 <= i <= summary.Length
      invariant forall j :: 0 <= j < i ==> summary[j] == TypedRow(old(summary[j]))
      invariant forall j :: i <= j < summary.Length ==> summary[j] == old(summary[j])
    {
      summary[i] := TypedRow(summary[i]);
      i := i + 1;
    }
  }

  function TypedRows(rows: seq<Psm>): (r: seq<Psm>)
    ensures |r| == |rows|
    ensures forall i :: 0 <= i < |rows| ==> r[i] == TypedRow(rows[i])
  {
    seq(|rows|, i requires 0 <= i < |rows| => TypedRow(rows[i]))
  }

  // ---------------------------------------------------------------------------
  // get_ppm_diff, match_precursor, match_precursor_grouped

  /** One feature of allPeptides.txt. */
  datatype Precursor = Precursor(
    rawFile: string,
    charge: int,
    mz: real,
    minScan: int,
    maxScan: int,
    intensity: Option<real>)

  function Abs(x: real): real {
    if x < 0.0 then -x else x
  }

  /** `get_ppm_diff`: the distance of `mz2` from `mz1` in parts per million of
      `mz1`; `None` where the division leaves the reals (infinity or NaN). */
  function PpmDiff(mz1: real, mz2: real): (d: Option<real>)
    ensures d.None? <==> mz1 == 0.0
  {
    if mz1 == 0.0 then None else Some(Abs(mz1 - mz2) / mz1 * 1000000.0)
  }

  /** `get_ppm_diff(mz1, mz2) < tol`; comparisons with infinity or NaN fail. */
  predicate PpmBelow(mz1: real, mz2: real, tol: real) {
    var d := PpmDiff(mz1, mz2);
    d.Some? && d.value < tol
  }

  /** For a positive `mz1` the tolerance is a bound on the absolute m/z distance. */
  lemma PpmBelowDistance(mz1: real, mz2: real, tol: real)
    requires mz1 > 0.0
    ensures PpmBelow(mz1, mz2, tol) <==> Abs(mz1 - mz2) * 1000000.0 < tol * mz1
    ensures PpmDiff(mz1, mz2).value >= 0.0
    ensures PpmDiff(mz1, mz1) == Some(0.0)
  {
    var a := Abs(mz1 - mz2);
    assert a / mz1 * 1000000.0 == (a * 1000000.0) / mz1;
    assert (a * 1000000.0) / mz1 < tol <==> a * 1000000.0 < tol * mz1;
  }

  /** The filter of `match_precursor`: close enough in m/z, and the scan's MS1
      scan inside the feature's scan range. */
  predicate Matches(scan: Psm, p: Precursor, tol: real) {
    scan.mz.Some? && scan.msScanNumber.Some? &&
    PpmBelow(p.mz, scan.mz.value, tol) &&
    p.minScan <= scan.msScanNumber.value <= p.maxScan
  }

  /** The new type and precursor intensity `match_precursor` returns. */
  datatype PrecursorMatch = PrecursorMatch(newType: string, intensity: Option<real>)

  /** `match_precursor`: MULTI-MSMS with the intensity of the first matching
      feature in table order, or MSMS with no intensity. */
  function MatchPrecursor(scan: Psm, features: seq<Precursor>, tol: real): (r: PrecursorMatch)
    ensures r.newType == MULTI_MSMS <==> exists i :: 0 <= i < |features| && Matches(scan, features[i], tol)
    ensures r.newType == MULTI_MSMS || r == PrecursorMatch(MSMS, None)
    ensures r.newType == MULTI_MSMS ==>
      exists i :: 0 <= i < |features| && Matches(scan, features[i], tol) &&
        r.intensity == features[i].intensity &&
        forall j :: 0 <= j < i ==> !Matches(scan, features[j], tol)
    decreases |features|
  {
    if features == [] then PrecursorMatch(MSMS, None)
    else if Matches(scan, features[0], tol) then PrecursorMatch(MULTI_MSMS, features[0].intensity)
    else
      var r := MatchPrecursor(scan, features[1..], tol);
      assert forall i :: 1 <= i < |features| ==> features[i] == features[1..][i - 1];
      if r.newType == MULTI_MSMS then
        var i :| 0 <= i < |features[1..]| && Matches(scan, features[1..][i], tol) &&
          r.intensity == features[1..][i].intensity &&
          forall j :: 0 <= j < i ==> !Matches(scan, features[1..][j], tol);
        assert forall j :: 1 <= j < i + 1 ==> !Matches(scan, features[j], tol);
        r
      else r
  }

  type GroupKey = (string, int)

  function KeyOf(p: Precursor): GroupKey {
    (p.rawFile, p.charge)
  }

  /** The features of one (raw file, charge) group, in table order. */
  function InGroup(ps: seq<Precursor>, k: GroupKey): (r: seq<Precursor>)
    ensures forall x :: x in r <==> x in ps && KeyOf(x) == k
    decreases |ps|
  {
    if ps == [] then []
    else
      assert forall x :: x in ps <==> x == ps[0] || x in ps[1..] by {
        assert ps == [ps[0]] + ps[1..];
      }
      (if KeyOf(ps[0]) == k then [ps[0]] else []) + InGroup(ps[1..], k)
  }

  /** `{group: df for group, df in allpeptides.groupby(["Raw file", "Charge"])}`. */
  function GroupFeatures(ps: seq<Precursor>): (m: map<GroupKey, seq<Precursor>>)
    ensures forall k :: k in m <==> exists x :: x in ps && KeyOf(x) == k
    ensures forall k :: k in m ==> m[k] == InGroup(ps, k) && m[k] != []
  {
    var keys := set x | x in ps :: KeyOf(x);
    var m := map k | k in keys :: InGroup(ps, k);
    assert forall k :: k in m ==> m[k] != [] by {
      forall k | k in m ensures m[k] != [] {
        var x :| x in ps && KeyOf(x) == k;
        assert x in m[k];
      }
    }
    m
  }

  /** `match_precursor_grouped` with the default tolerance: a scan whose
      (raw file, charge) has no group, or has no charge, stays MSMS. */
  function MatchPrecursorGrouped(scan: Psm, groups: map<GroupKey, seq<Precursor>>): PrecursorMatch {
    if scan.charge.None? || (scan.rawFile, scan.charge.value) !in groups then PrecursorMatch(MSMS, None)
    else MatchPrecursor(scan, groups[(scan.rawFile, scan.charge.value)], PPM_TOL)
  }

  /** Grouping only narrows the search: a scan becomes MULTI-MSMS exactly when
      a feature of its own raw file and charge matches it, and then takes the
      intensity of the first such feature in table order. */
  lemma MatchPrecursorGroupedRule(scan: Psm, ps: seq<Precursor>)
    ensures var r := MatchPrecursorGrouped(scan, GroupFeatures(ps));
      r.newType == MULTI_MSMS <==>
        exists x :: x in ps && Some(x.charge) == scan.charge && x.rawFile == scan.rawFile && Matches(scan, x, PPM_TOL)
    ensures var r := MatchPrecursorGrouped(scan, GroupFeatures(ps));
      r.newType == MULTI_MSMS || r == PrecursorMatch(MSMS, None)
    ensures scan.charge.Some? ==>
      MatchPrecursorGrouped(scan, GroupFeatures(ps)) ==
      MatchPrecursor(scan, InGroup(ps, (scan.rawFile, scan.charge.value)), PPM_TOL)
  {
    var m := GroupFeatures(ps);
    if scan.charge.Some? {
      var k := (scan.rawFile, scan.charge.value);
      var g := InGroup(ps, k);
      var r := MatchPrecursor(scan, g, PPM_TOL);
      if r.newType == MULTI_MSMS {
        var i :| 0 <= i < |g| && Matches(scan, g[i], PPM_TOL);
        assert g[i] in g;
      }
      if exists x :: x in ps && Some(x.charge) == scan.charge && x.rawFile == scan.rawFile && Matches(scan, x, PPM_TOL) {
        var x :| x in ps && Some(x.charge) == scan.charge && x.rawFile == scan.rawFile && Matches(scan, x, PPM_TOL);
        assert x in g;
        var i :| 0 <= i < |g| && g[i] == x;
      }
    }
  }

  // ---------------------------------------------------------------------------
  // assign_missing_precursors

  /** The row after `assign_missing_precursors`: only an MSMS scan is looked
      up in allPeptides.txt, and only its type and intensity change. */
  function WithPrecursor(p: Psm, groups: map<GroupKey, seq<Precursor>>): Psm {
    if p.newType == Some(MSMS) then
      var m := MatchPrecursorGrouped(p, groups);
      p.(newType := Some(m.newType), feature := p.feature.(intensity := m.intensity))
    else p
  }

  /** A scan that was already MULTI-MSMS keeps its values; an MSMS scan
      becomes MULTI-MSMS, with the first matching feature's intensity, exactly
      when a feature of its raw file and charge matches it, and otherwise
      stays MSMS with no intensity. */
  lemma WithPrecursorRules(p: Psm, ps: seq<Precursor>)
    ensures p.newType != Some(MSMS) ==> WithPrecursor(p, GroupFeatures(ps)) == p
    ensures p.newType == Some(MSMS) ==>
      var q := WithPrecursor(p, GroupFeatures(ps));
      Typed(q) && q.(newType := p.newType, feature := p.feature) == p &&
      q.feature.(intensity := p.feature.intensity) == p.feature &&
      (q.newType == Some(MULTI_MSMS) <==>
        exists x :: x in ps && Some(x.charge) == p.charge && x.rawFile == p.rawFile && Matches(p, x, PPM_TOL))
    ensures p.newType == Some(MSMS) && WithPrecursor(p, GroupFeatures(ps)).newType == Some(MSMS) ==>
      WithPrecursor(p, GroupFeatures(ps)).feature.intensity.None?
  {
    MatchPrecursorGroupedRule(p, ps);
  }

  /** `assign_missing_precursors`, over the table in place. */
  method AssignMissingPrecursors(summary: array<Psm>, allpeptides: seq<Precursor>)
    modifies summary
    ensures forall i :: 0 <= i < summary.Length ==>
      summary[i] == WithPrecursor(old(summary[i]), GroupFeatures(allpeptides))
  {
    var groups := GroupFeatures(allpeptides);
    var i := 0;
    while i < summary.Length
      invariant 0 <= i <= summary.Length
      invariant forall j :: 0 <= j < i ==> summary[j] == WithPrecursor(old(summary[j]), groups)
      invariant forall j :: i <= j < summary.Length ==> summary[j] == old(summary[j])
    {
      if summary[i].newType == Some(MSMS) {
        var m := MatchPrecursorGrouped(summary[i], groups);
        summary[i] := summary[i].(newType := Some(m.newType), feature := summary[i].feature.(intensity := m.intensity));
      }
      i := i + 1;
    }
  }

  function WithPrecursors(rows: seq<Psm>, allpeptides: seq<Precursor>): (r: seq<Psm>)
    ensures |r| == |rows|
    ensures forall i :: 0 <= i < |rows| ==> r[i] == WithPrecursor(rows[i], GroupFeatures(allpeptides))
  {
    var groups := GroupFeatures(allpeptides);
    seq(|rows|, i requires 0 <= i < |rows| => WithPrecursor(rows[i], groups))
  }

  // ---------------------------------------------------------------------------
  // remove_duplicate_msms

  /** The summary_IDs occurring in a table. */
  function Ids(rows: seq<Psm>): set<nat> {
    set x | x in rows :: x.summaryID
  }

  predicate DistinctIds(rows: seq<Psm>) {
    forall i, j :: 0 <= i < j < |rows| ==> rows[i].summaryID != rows[j].summaryID
  }

  lemma IdsCons(rows: seq<Psm>)
    requires rows != []
    ensures Ids(rows) == {rows[0].summaryID} + Ids(rows[1..])
  {
    assert rows == [rows[0]] + rows[1..];
  }

  lemma DistinctIdsCons(rows: seq<Psm>)
    requires rows != []
    ensures DistinctIds(rows) <==> DistinctIds(rows[1..]) && rows[0].summaryID !in Ids(rows[1..])
  {
    var t := rows[1..];
    if DistinctIds(rows) {
      forall i, j | 0 <= i < j < |t| ensures t[i].summaryID != t[j].summaryID {
        assert t[i] == rows[i + 1] && t[j] == rows[j + 1];
      }
      forall x | x in t ensures x.summaryID != rows[0].summaryID {
        var k :| 0 <= k < |t| && t[k] == x;
        assert rows[k + 1] == x;
      }
    }
    if DistinctIds(t) && rows[0].summaryID !in Ids(t) {
      forall i, j | 0 <= i < j < |rows| ensures rows[i].summaryID != rows[j].summaryID {
        assert rows[j] == t[j - 1];
        assert rows[j] in t;
        if i > 0 { assert rows[i] == t[i - 1]; }
      }
    }
  }

  /** A duplicate-free table has one row per summary_ID, and only then. */
  lemma {:induction false} IdsCount(rows: seq<Psm>)
    ensures |Ids(rows)| <= |rows|
    ensures DistinctIds(rows) <==> |Ids(rows)| == |rows|
    decreases |rows|
  {
    if rows != [] {
      IdsCount(rows[1..]);
      IdsCons(rows);
      DistinctIdsCons(rows);
    }
  }

  /** Two tables whose rows carry the same summary_IDs position by position. */
  lemma SameIds(a: seq<Psm>, b: seq<Psm>)
    requires |a| == |b| && forall i :: 0 <= i < |a| ==> a[i].summaryID == b[i].summaryID
    ensures Ids(a) == Ids(b)
    ensures DistinctIds(a) <==> DistinctIds(b)
  {
    forall k | k in Ids(a) ensures k in Ids(b) {
      var x :| x in a && x.summaryID == k;
      var i :| 0 <= i < |a| && a[i] == x;
      assert b[i] in b;
    }
    forall k | k in Ids(b) ensures k in Ids(a) {
      var x :| x in b && x.summaryID == k;
      var i :| 0 <= i < |b| && b[i] == x;
      assert a[i] in a;
    }
  }

  /** `x` is the first row of `rows` with its summary_ID. */
  ghost predicate FirstWithId(rows: seq<Psm>, x: Psm) {
    exists i :: 0 <= i < |rows| && rows[i] == x && forall j :: 0 <= j < i ==> rows[j].summaryID != x.summaryID
  }

  lemma IdsSnoc(init: seq<Psm>, last: Psm)
    ensures Ids(init + [last]) == Ids(init) + {last.summaryID}
  {
    assert forall x :: x in init + [last] <==> x in init || x == last;
  }

  lemma DistinctIdsSnoc(r: seq<Psm>, last: Psm)
    requires DistinctIds(r) && last.summaryID !in Ids(r)
    ensures DistinctIds(r + [last])
  {
    var r' := r + [last];
    forall i, j | 0 <= i < j < |r'| ensures r'[i].summaryID != r'[j].summaryID {
      assert r'[i] == r[i] && r[i] in r;
    }
  }

  lemma FirstWithIdSnoc(init: seq<Psm>, last: Psm)
    ensures forall x :: FirstWithId(init, x) ==> FirstWithId(init + [last], x)
    ensures last.summaryID !in Ids(init) ==> FirstWithId(init + [last], last)
  {
    var rows := init + [last];
    forall x | FirstWithId(init, x) ensures FirstWithId(rows, x) {
      var i :| 0 <= i < |init| && init[i] == x && forall j :: 0 <= j < i ==> init[j].summaryID != x.summaryID;
      assert rows[i] == x;
    }
    if last.summaryID !in Ids(init) {
      forall j | 0 <= j < |init| ensures rows[j].summaryID != last.summaryID {
        assert rows[j] == init[j] && init[j] in init;
      }
      assert rows[|init|] == last;
    }
  }

  /** `drop_duplicates(subset=["summary_ID"], keep="first")`: the first row of
      every summary_ID, in table order. */
  function DropDuplicateIds(rows: seq<Psm>): (r: seq<Psm>)
    ensures DistinctIds(r)
    ensures Ids(r) == Ids(rows)
    ensures forall x :: x in r ==> FirstWithId(rows, x)
    decreases |rows|
  {
    if rows == [] then []
    else
      var init := rows[..|rows| - 1];
      var last := rows[|rows| - 1];
      var r := DropDuplicateIds(init);
      assert rows == init + [last];
      IdsSnoc(init, last);
      FirstWithIdSnoc(init, last);
      if last.summaryID in Ids(init) then r
      else
        DistinctIdsSnoc(r, last);
        IdsSnoc(r, last);
        r + [last]
  }

  /** The order `remove_duplicate_msms` sorts by: MULTI-MSMS before MSMS
      (descending text), then the earliest calibrated retention time, missing
      values last. */
  function DuplicateKey(p: Psm): Key {
    [Desc(Text(p.newType)), Asc(Real(p.feature.calibratedRT))]
  }

  /** `remove_duplicate_msms`: one row per summary_ID, the first in key order. */
  function RemoveDuplicateMsms(rows: seq<Psm>): (r: seq<Psm>)
    ensures DistinctIds(r)
    ensures Ids(r) == Ids(rows)
    ensures forall x :: x in r ==> x in rows
  {
    var sorted := SortBy(rows, DuplicateKey);
    SortByCorrect(rows, DuplicateKey);
    assert forall x :: x in sorted <==> x in rows by {
      forall x ensures x in sorted <==> x in rows {
        assert x in sorted <==> x in multiset(sorted);
      }
    }
    var r := DropDuplicateIds(sorted);
    forall x | x in r ensures x in rows {
      assert FirstWithId(sorted, x);
    }
    r
  }

  /** The row kept for a summary_ID comes first in key order among all rows
      with that summary_ID. */
  lemma RemoveDuplicateMsmsKeepsFirst(rows: seq<Psm>, x: Psm, q: Psm)
    requires x in RemoveDuplicateMsms(rows) && q in rows && q.summaryID == x.summaryID
    ensures KeyCmp(DuplicateKey(x), DuplicateKey(q)) <= 0
  {
    var sorted := SortBy(rows, DuplicateKey);
    SortByCorrect(rows, DuplicateKey);
    assert FirstWithId(sorted, x);
    var i :| 0 <= i < |sorted| && sorted[i] == x && forall j :: 0 <= j < i ==> sorted[j].summaryID != x.summaryID;
    assert q in multiset(sorted);
    var j :| 0 <= j < |sorted| && sorted[j] == q;
    assert i <= j;
    KeyCmpReflexive(DuplicateKey(x));
  }

  /** Where two typed rows differ in what `remove_duplicate_msms` prefers,
      the preferred one sorts strictly first. */
  lemma DuplicateKeyOrder(x: Psm, q: Psm)
    requires Typed(x) && Typed(q)
    ensures x.newType == Some(MSMS) && q.newType == Some(MULTI_MSMS) ==>
      KeyCmp(DuplicateKey(x), DuplicateKey(q)) == 1
    ensures var c, d := x.feature.calibratedRT, q.feature.calibratedRT;
      x.newType == q.newType && d.Some? && (c.None? || c.value > d.value) ==>
      KeyCmp(DuplicateKey(x), DuplicateKey(q)) == 1
  {
    var a := DuplicateKey(x);
    var b := DuplicateKey(q);
    assert a[1..] == [a[1]] && b[1..] == [b[1]];
    assert a[1..][1..] == [] && b[1..][1..] == [];
    if x.newType == Some(MSMS) && q.newType == Some(MULTI_MSMS) {
      assert MSMS[1..] == "SMS" && MULTI_MSMS[1..] == "ULTI-MSMS";
      assert Cmp(MSMS, MULTI_MSMS) == Cmp("SMS", "ULTI-MSMS") == -1;
      assert ColumnCmp(a[0], b[0]) == 1;
    }
    if x.newType == q.newType {
      CmpZero(x.newType.value, q.newType.value);
      assert ColumnCmp(a[0], b[0]) == 0;
    }
  }

  /** `remove_duplicate_msms` prefers a MULTI-MSMS row, and among rows of the
      same type the lowest calibrated retention time. */
  lemma RemoveDuplicateMsmsPrefers(rows: seq<Psm>, x: Psm, q: Psm)
    requires x in RemoveDuplicateMsms(rows) && q in rows && q.summaryID == x.summaryID
    requires Typed(x) && Typed(q)
    ensures q.newType == Some(MULTI_MSMS) ==> x.newType == Some(MULTI_MSMS)
    ensures var c, d := x.feature.calibratedRT, q.feature.calibratedRT;
      x.newType == q.newType && d.Some? ==> c.Some? && c.value <= d.value
  {
    RemoveDuplicateMsmsKeepsFirst(rows, x, q);
    DuplicateKeyOrder(x, q);
  }

  // ---------------------------------------------------------------------------
  // fill_missing_evidence_ids

  function EvidenceIdColumn(rows: seq<Psm>): (c: seq<Option<int>>)
    ensures |c| == |rows| && forall i :: 0 <= i < |rows| ==> c[i] == rows[i].evidenceID
  {
    seq(|rows|, i requires 0 <= i < |rows| => rows[i].evidenceID)
  }

  /** pandas `max` of an integer column: the largest present value, NaN when
      there is none. */
  function MaxInt(xs: seq<Option<int>>): (m: Option<int>)
    ensures m.None? <==> forall i :: 0 <= i < |xs| ==> xs[i].None?
    ensures m.Some? ==> m in xs
    ensures m.Some? ==> forall i :: 0 <= i < |xs| && xs[i].Some? ==> xs[i].value <= m.value
    decreases |xs|
  {
    if xs == [] then None
    else
      var rest := MaxInt(xs[1..]);
      assert forall i :: 1 <= i < |xs| ==> xs[i] == xs[1..][i - 1];
      assert rest.Some? ==> rest in xs by {
        if rest.Some? { assert rest in xs[1..]; }
      }
      if xs[0].None? then rest
      else if rest.None? || xs[0].value >= rest.value then xs[0]
      else rest
  }

  /** The number of rows without an evidence_ID. */
  function MissingCount(rows: seq<Psm>): (n: nat)
    ensures n <= |rows|
  {
    if rows == [] then 0
    else MissingCount(rows[..|rows| - 1]) + (if rows[|rows| - 1].evidenceID.None? then 1 else 0)
  }

  lemma MissingCountSnoc(rows: seq<Psm>, i: nat)
    requires i < |rows|
    ensures MissingCount(rows[..i + 1]) == MissingCount(rows[..i]) + (if rows[i].evidenceID.None? then 1 else 0)
  {
    assert rows[..i + 1][..i] == rows[..i];
  }

  lemma {:induction false} MissingCountGrows(rows: seq<Psm>, i: nat, j: nat)
    requires i < j <= |rows|
    ensures MissingCount(rows[..i]) + (if rows[i].evidenceID.None? then 1 else 0) <= MissingCount(rows[..j])
    decreases j - i
  {
    MissingCountSnoc(rows, i);
    if j > i + 1 {
      MissingCountGrows(rows, i + 1, j);
    }
  }

  /** Row `i` once the rows without an evidence_ID have been numbered from
      `next` on, in table order. */
  function FilledRow(rows: seq<Psm>, next: int, i: nat): Psm
    requires i < |rows|
  {
    if rows[i].evidenceID.None? then rows[i].(evidenceID := Some(next + MissingCount(rows[..i])))
    else rows[i]
  }

  function FilledIds(rows: seq<Psm>, next: int): (r: seq<Psm>)
    ensures |r| == |rows|
    ensures forall i :: 0 <= i < |rows| ==> r[i] == FilledRow(rows, next, i)
  {
    seq(|rows|, i requires 0 <= i < |rows| => FilledRow(rows, next, i))
  }

  /** Numbering from above every present id: every row ends with an id,
      present ids stay, and the new ids are consecutive, distinct from each
      other and from every id of the table. */
  lemma FilledIdsRules(rows: seq<Psm>, next: int)
    requires forall i :: 0 <= i < |rows| && rows[i].evidenceID.Some? ==> rows[i].evidenceID.value < next
    ensures forall i :: 0 <= i < |rows| ==> FilledIds(rows, next)[i].evidenceID.Some?
    ensures forall i :: 0 <= i < |rows| && rows[i].evidenceID.Some? ==> FilledIds(rows, next)[i] == rows[i]
    ensures forall i :: 0 <= i < |rows| ==> FilledIds(rows, next)[i].(evidenceID := rows[i].evidenceID) == rows[i]
    ensures forall i :: 0 <= i < |rows| && rows[i].evidenceID.None? ==>
      next <= FilledIds(rows, next)[i].evidenceID.value < next + MissingCount(rows)
    ensures forall i, j :: 0 <= i < |rows| && 0 <= j < |rows| && i != j && rows[i].evidenceID.None? ==>
      FilledIds(rows, next)[i].evidenceID != FilledIds(rows, next)[j].evidenceID
  {
    var r := FilledIds(rows, next);
    forall i | 0 <= i < |rows| && rows[i].evidenceID.None?
      ensures next <= r[i].evidenceID.value < next + MissingCount(rows)
    {
      MissingCountGrows(rows, i, |rows|);
      assert rows[..|rows|] == rows;
    }
    forall i, j | 0 <= i < |rows| && 0 <= j < |rows| && i != j && rows[i].evidenceID.None?
      ensures r[i].evidenceID != r[j].evidenceID
    {
      if rows[j].evidenceID.None? {
        if i < j { MissingCountGrows(rows, i, j); } else { MissingCountGrows(rows, j, i); }
      }
    }
  }

  /** `fill_missing_evidence_ids` as a value: the ids start one above the
      largest present id; with no present id, `int(NaN)` raises. */
  function FillIds(rows: seq<Psm>): (r: Result<seq<Psm>>)
    ensures r.Err? <==> forall i :: 0 <= i < |rows| ==> rows[i].evidenceID.None?
    ensures r.Err? ==> r.error.ValueError?
    ensures r.Ok? ==> |r.value| == |rows| && forall i :: 0 <= i < |rows| ==> r.value[i].summaryID == rows[i].summaryID
  {
    var m := MaxInt(EvidenceIdColumn(rows));
    if m.None? then Err(ValueError("cannot convert float NaN to integer"))
    else Ok(FilledIds(rows, m.value + 1))
  }

  /** The new ids lie above every present id and are unique among all ids. */
  lemma FillIdsRules(rows: seq<Psm>)
    requires FillIds(rows).Ok?
    ensures forall i :: 0 <= i < |rows| ==> FillIds(rows).value[i].evidenceID.Some?
    ensures forall i :: 0 <= i < |rows| && rows[i].evidenceID.Some? ==> FillIds(rows).value[i] == rows[i]
    ensures forall i :: 0 <= i < |rows| ==> FillIds(rows).value[i].(evidenceID := rows[i].evidenceID) == rows[i]
    ensures forall i, j :: 0 <= i < |rows| && 0 <= j < |rows| && rows[i].evidenceID.None? && rows[j].evidenceID.Some? ==>
      FillIds(rows).value[i].evidenceID.value > rows[j].evidenceID.value
    ensures forall i, j :: 0 <= i < |rows| && 0 <= j < |rows| && i != j && rows[i].evidenceID.None? ==>
      FillIds(rows).value[i].evidenceID != FillIds(rows).value[j].evidenceID
  {
    var m := MaxInt(EvidenceIdColumn(rows));
    var next := m.value + 1;
    assert forall i :: 0 <= i < |rows| && rows[i].evidenceID.Some? ==> rows[i].evidenceID.value < next;
    assert FillIds(rows).value == FilledIds(rows, next);
    FilledIdsRules(rows, next);
  }

  /** `fill_missing_evidence_ids`, numbering the rows in place. */
  method FillMissingEvidenceIds(summary: array<Psm>) returns (err: Option<PyError>)
    modifies summary
    ensures FillIds(old(summary[..])).Err? ==>
      err == Some(FillIds(old(summary[..])).error) && summary[..] == old(summary[..])
    ensures FillIds(old(summary[..])).Ok? ==>
      err.None? && summary[..] == FillIds(old(summary[..])).value
  {
    var m := MaxInt(EvidenceIdColumn(summary[..]));
    if m.None? {
      return Some(ValueError("cannot convert float NaN to integer"));
    }
    NumberMissing(summary, m.value + 1);
    err := None;
  }

  /** The loop of `fill_missing_evidence_ids`: the rows without an id get
      `next`, `next + 1`, ... in table order. */
  method NumberMissing(summary: array<Psm>, next: int)
    modifies summary
    ensures summary[..] == FilledIds(old(summary[..]), next)
  {
    ghost var rows := summary[..];
    var i := 0;
    var k := next;
    while i < summary.Length
      invariant 0 <= i <= summary.Length
      invariant k == next + MissingCount(rows[..i])
      invariant forall j :: 0 <= j < i ==> summary[j] == FilledRow(rows, next, j)
      invariant forall j :: i <= j < summary.Length ==> summary[j] == rows[j]
    {
      MissingCountSnoc(rows, i);
      var row := summary[i];
      if row.evidenceID.None? {
        row := row.(evidenceID := Some(k));
        k := k + 1;
      }
      assert row == FilledRow(rows, next, i);
      summary[i] := row;
      i := i + 1;
    }
    assert forall j :: 0 <= j < summary.Length ==> summary[..][j] == FilledIds(rows, next)[j];
  }

  // ---------------------------------------------------------------------------
  // Merging with evidence.txt and assign_evidence_feature

  /** One row of evidence.txt, with the evidence_ID `build_evidence` numbers it with. */
  datatype EvidenceRow = EvidenceRow(
    sequence: Option<string>,
    modifiedSequence: Option<string>,
    rawFile: string,
    charge: Option<int>,
    feature: Feature,
    evidenceID: Option<int>)

  /** The evidence rows `on` pairs with scan `s`, in table order. */
  function Matching(s: Psm, evidence: seq<EvidenceRow>, on: (Psm, EvidenceRow) -> bool): (r: seq<EvidenceRow>)
    ensures forall e :: e in r <==> e in evidence && on(s, e)
    decreases |evidence|
  {
    if evidence == [] then []
    else
      assert forall e :: e in evidence <==> e == evidence[0] || e in evidence[1..] by {
        assert evidence == [evidence[0]] + evidence[1..];
      }
      (if on(s, evidence[0]) then [evidence[0]] else []) + Matching(s, evidence[1..], on)
  }

  /** The rows a left join makes of one scan: one per matching evidence row,
      in table order, or the scan alone with empty evidence columns. */
  function JoinRow(s: Psm, evidence: seq<EvidenceRow>, on: (Psm, EvidenceRow) -> bool): (r: seq<Psm>)
    ensures r != [] && Ids(r) == {s.summaryID}
  {
    var ms := Matching(s, evidence, on);
    var r := if ms == [] then [s.(evidenceID := None, feature := NO_FEATURE)]
      else seq(|ms|, i requires 0 <= i < |ms| => s.(evidenceID := ms[i].evidenceID, feature := ms[i].feature));
    assert r[0] in r;
    r
  }

  lemma IdsAppend(a: seq<Psm>, b: seq<Psm>)
    ensures Ids(a + b) == Ids(a) + Ids(b)
  {
    assert forall x :: x in a + b <==> x in a || x in b;
  }

  /** `pd.merge(summary, evidence, how="left")` on the key `on`: every scan is
      kept, so the joined table has exactly the summary_IDs of the summary. */
  function LeftJoin(summary: seq<Psm>, evidence: seq<EvidenceRow>, on: (Psm, EvidenceRow) -> bool): (r: seq<Psm>)
    ensures Ids(r) == Ids(summary)
    ensures |r| >= |summary|
    decreases |summary|
  {
    if summary == [] then []
    else
      var a := JoinRow(summary[0], evidence, on);
      var b := LeftJoin(summary[1..], evidence, on);
      IdsAppend(a, b);
      IdsCons(summary);
      a + b
  }

  /** When every scan matches at most one evidence row, the join keeps one row
      per scan, in place, and changes only its evidence columns. */
  lemma {:induction false} LeftJoinOneToOne(summary: seq<Psm>, evidence: seq<EvidenceRow>, on: (Psm, EvidenceRow) -> bool)
    requires forall i :: 0 <= i < |summary| ==> |Matching(summary[i], evidence, on)| <= 1
    ensures |LeftJoin(summary, evidence, on)| == |summary|
    ensures forall i :: 0 <= i < |summary| ==>
      LeftJoin(summary, evidence, on)[i].(evidenceID := summary[i].evidenceID, feature := summary[i].feature) == summary[i]
    decreases |summary|
  {
    if summary != [] {
      assert forall i :: 1 <= i < |summary| ==> summary[1..][i - 1] == summary[i];
      LeftJoinOneToOne(summary[1..], evidence, on);
    }
  }

  /** The rows of `assign_evidence_feature` before its checks: merged, typed,
      one per summary_ID, precursors looked up and evidence_IDs filled. */
  function FeatureRows(summary: seq<Psm>, evidence: seq<EvidenceRow>, allpeptides: seq<Precursor>,
                       on: (Psm, EvidenceRow) -> bool): (r: Result<seq<Psm>>)
    ensures r.Ok? ==> DistinctIds(r.value) && Ids(r.value) == Ids(summary)
    ensures r.Err? ==> r.error.ValueError?
  {
    var merged := LeftJoin(summary, evidence, on);
    var typed := TypedRows(merged);
    var deduped := RemoveDuplicateMsms(typed);
    var looked := WithPrecursors(deduped, allpeptides);
    SameIds(typed, merged);
    SameIds(looked, deduped);
    var filled := FillIds(looked);
    if filled.Ok? then
      SameIds(filled.value, looked);
      filled
    else filled
  }

  /** Every row that leaves the filling of evidence_IDs has one. */
  lemma FeatureRowsNumbered(summary: seq<Psm>, evidence: seq<EvidenceRow>, allpeptides: seq<Precursor>,
                            on: (Psm, EvidenceRow) -> bool)
    ensures var r := FeatureRows(summary, evidence, allpeptides, on);
      r.Ok? ==> forall p :: p in r.value ==> p.evidenceID.Some?
  {
    var looked := WithPrecursors(RemoveDuplicateMsms(TypedRows(LeftJoin(summary, evidence, on))), allpeptides);
    if FillIds(looked).Ok? {
      FillIdsRules(looked);
    }
  }

  /** The order `assign_evidence_feature` returns its rows in. */
  function SequenceKey(p: Psm): Key {
    [Asc(Text(p.cols.sequence)), Asc(Text(p.cols.modifiedSequence))]
  }

  /** `assign_evidence_feature`, with `merge_summary_with_evidence` as a left
      join on `on`: the checks of row count and of unique summary_IDs, then the
      rows sorted by sequence and modified sequence. */
  function AssignEvidenceFeature(summary: seq<Psm>, evidence: seq<EvidenceRow>, allpeptides: seq<Precursor>,
                                 on: (Psm, EvidenceRow) -> bool): (r: Result<seq<Psm>>)
    ensures r.Ok? ==> |r.value| == |summary| && DistinctIds(r.value) && Ids(r.value) == Ids(summary)
    ensures r.Ok? ==> SortedBy(r.value, SequenceKey)
    ensures var f := FeatureRows(summary, evidence, allpeptides, on);
      r.Ok? ==> f.Ok? && forall x :: x in r.value <==> x in f.value
    ensures r.Err? ==> r.error.ValueError?
  {
    var filled := FeatureRows(summary, evidence, allpeptides, on);
    if filled.Err? then Err(filled.error)
    else if |filled.value| != |summary| then
      Err(ValueError("Number of summary entries changed during evidence feature assembly!"))
    else if !DistinctIds(filled.value) then Err(ValueError("Some summary_IDs were detected multiple times!"))
    else
      var rows := filled.value;
      var sorted := SortBy(rows, SequenceKey);
      SortByCorrect(rows, SequenceKey);
      assert DistinctBy(rows, (p: Psm) => p.summaryID);
      SortByDistinctBy(rows, SequenceKey, (p: Psm) => p.summaryID);
      assert forall x :: x in sorted <==> x in rows by {
        forall x ensures x in sorted <==> x in rows {
          assert x in sorted <==> x in multiset(sorted);
        }
      }
      Ok(sorted)
  }

  /** The unique-summary_ID check of `assign_evidence_feature` never fails,
      and the row-count check fails exactly when the summary repeats a
      summary_ID: the call succeeds exactly when the summary_IDs are distinct
      and the filling of evidence_IDs succeeds. */
  lemma AssignEvidenceFeatureOutcome(summary: seq<Psm>, evidence: seq<EvidenceRow>, allpeptides: seq<Precursor>,
                                     on: (Psm, EvidenceRow) -> bool)
    ensures FeatureRows(summary, evidence, allpeptides, on).Ok? ==>
      DistinctIds(FeatureRows(summary, evidence, allpeptides, on).value)
    ensures AssignEvidenceFeature(summary, evidence, allpeptides, on).Ok? <==>
      DistinctIds(summary) && FeatureRows(summary, evidence, allpeptides, on).Ok?
  {
    var filled := FeatureRows(summary, evidence, allpeptides, on);
    IdsCount(summary);
    if filled.Ok? {
      IdsCount(filled.value);
    }
  }

  // ---------------------------------------------------------------------------
  // calculate_evidence_columns

  /** The `first` columns of an evidence row. */
  datatype Firsts = Firsts(
    sequence: Option<string>,
    modifications: Option<string>,
    modifiedSequence: Option<string>,
    geneNames: Option<string>,
    proteinNames: Option<string>,
    evType: Option<string>,
    mz: Option<real>,
    mass: Option<real>,
    retentionTime: Option<real>,
    reverse: Option<string>)

  /** The columns reduced by min, max, sum, size and count. */
  datatype Reduced = Reduced(
    massError: Option<real>,
    pep: Option<real>,
    score: Option<real>,
    deltaScore: Option<real>,
    msmsCount: nat,
    intensity: real,
    corrected: seq<real>,
    reporters: seq<real>,
    reporterCounts: seq<nat>,
    transferredCount: Option<nat>)

  /** The `;`-joined columns after `csv_unique`. */
  datatype Lists = Lists(
    proteins: string,
    leadingProteins: string,
    allScanNumbers: string,
    scanNumber: string,
    summaryIDs: string)

  /** The columns the sentinel, the integer casts and the contaminant flag
      rewrite. */
  datatype Meta = Meta(
    length: Option<int>,
    missedCleavages: Option<int>,
    fraction: Option<int>,
    experiment: Option<string>,
    charge: Option<int>,
    contaminant: string)

  /** One row of the evidence table built from the scans of one evidence_ID. */
  datatype EvidenceRecord = EvidenceRecord(
    id: int,
    rawFile: string,
    firsts: Firsts,
    reduced: Reduced,
    lists: Lists,
    meta: Meta)

  /** The text, real and integer columns the reducers read. */
  datatype TextCol = SequenceCol | ModificationsCol | ModifiedSequenceCol | GeneNamesCol | ProteinNamesCol
    | NewTypeCol | ReverseCol | ExperimentCol | ProteinsCol | LeadingProteinsCol
  datatype RealCol = MzCol | MassCol | RetentionTimeCol | MassErrorCol | PepCol | ScoreCol | DeltaScoreCol | IntensityCol
  datatype IntCol = LengthCol | MissedCleavagesCol | FractionCol | ChargeCol

  function TextValue(p: Psm, c: TextCol): Option<string> {
    match c
    case SequenceCol => p.cols.sequence
    case ModificationsCol => p.cols.modifications
    case ModifiedSequenceCol => p.cols.modifiedSequence
    case GeneNamesCol => p.cols.geneNames
    case ProteinNamesCol => p.cols.proteinNames
    case NewTypeCol => p.newType
    case ReverseCol => p.cols.reverse
    case ExperimentCol => p.cols.experiment
    case ProteinsCol => p.cols.proteins
    case LeadingProteinsCol => p.feature.leadingProteins
  }

  function RealValue(p: Psm, c: RealCol): Option<real> {
    match c
    case MzCol => p.mz
    case MassCol => p.cols.mass
    case RetentionTimeCol => p.retentionTime
    case MassErrorCol => p.cols.massError
    case PepCol => p.cols.pep
    case ScoreCol => p.cols.score
    case DeltaScoreCol => p.cols.deltaScore
    case IntensityCol => p.feature.intensity
  }

  function IntValue(p: Psm, c: IntCol): Option<int> {
    match c
    case LengthCol => p.cols.length
    case MissedCleavagesCol => p.cols.missedCleavages
    case FractionCol => p.cols.fraction
    case ChargeCol => p.charge
  }

  function TextColumn(g: seq<Psm>, c: TextCol): (xs: seq<Option<string>>)
    ensures |xs| == |g| && forall i :: 0 <= i < |g| ==> xs[i] == TextValue(g[i], c)
  {
    seq(|g|, i requires 0 <= i < |g| => TextValue(g[i], c))
  }

  function RealColumn(g: seq<Psm>, c: RealCol): (xs: seq<Option<real>>)
    ensures |xs| == |g| && forall i :: 0 <= i < |g| ==> xs[i] == RealValue(g[i], c)
  {
    seq(|g|, i requires 0 <= i < |g| => RealValue(g[i], c))
  }

  function IntColumn(g: seq<Psm>, c: IntCol): (xs: seq<Option<int>>)
    ensures |xs| == |g| && forall i :: 0 <= i < |g| ==> xs[i] == IntValue(g[i], c)
  {
    seq(|g|, i requires 0 <= i < |g| => IntValue(g[i], c))
  }

  function IdentificationColumn(g: seq<Psm>): (xs: seq<Option<char>>)
    ensures |xs| == |g| && forall i :: 0 <= i < |g| ==> xs[i] == g[i].cols.identification
  {
    seq(|g|, i requires 0 <= i < |g| => g[i].cols.identification)
  }

  /** The `first` reducer on a text column: the value of the first scan
      of the group that has one. */
  function FirstText(g: seq<Psm>, c: TextCol): (r: Option<string>)
    ensures r.None? <==> forall i :: 0 <= i < |g| ==> TextValue(g[i], c).None?
    ensures r.Some? ==> exists i :: 0 <= i < |g| && TextValue(g[i], c) == r && forall j :: 0 <= j < i ==> TextValue(g[j], c).None?
  {
    var xs := TextColumn(g, c);
    var r := FirstPresent(xs);
    if r.Some? then
      var i :| 0 <= i < |xs| && xs[i] == r && forall j :: 0 <= j < i ==> xs[j].None?;
      r
    else r
  }

  /** The `first` reducer on a real column. */
  function FirstReal(g: seq<Psm>, c: RealCol): (r: Option<real>)
    ensures r.None? <==> forall i :: 0 <= i < |g| ==> RealValue(g[i], c).None?
    ensures r.Some? ==> exists i :: 0 <= i < |g| && RealValue(g[i], c) == r && forall j :: 0 <= j < i ==> RealValue(g[j], c).None?
  {
    var xs := RealColumn(g, c);
    var r := FirstPresent(xs);
    if r.Some? then
      var i :| 0 <= i < |xs| && xs[i] == r && forall j :: 0 <= j < i ==> xs[j].None?;
      r
    else r
  }

  /** The `first` reducer on an integer column. */
  function FirstInt(g: seq<Psm>, c: IntCol): (r: Option<int>)
    ensures r.None? <==> forall i :: 0 <= i < |g| ==> IntValue(g[i], c).None?
    ensures r.Some? ==> exists i :: 0 <= i < |g| && IntValue(g[i], c) == r && forall j :: 0 <= j < i ==> IntValue(g[j], c).None?
  {
    var xs := IntColumn(g, c);
    var r := FirstPresent(xs);
    if r.Some? then
      var i :| 0 <= i < |xs| && xs[i] == r && forall j :: 0 <= j < i ==> xs[j].None?;
      r
    else r
  }

  /** A text column after `astype(str) + ";"`. */
  function TextCells(g: seq<Psm>, c: TextCol): (xs: seq<string>)
    ensures |xs| == |g| && forall i :: 0 <= i < |g| ==> xs[i] == TextCell(TextValue(g[i], c))
  {
    seq(|g|, i requires 0 <= i < |g| => TextCell(TextValue(g[i], c)))
  }

  /** The scanID or the summary_ID column after `astype(str) + ";"`. */
  function IdCells(g: seq<Psm>, scan: bool): (xs: seq<string>)
    ensures |xs| == |g| && forall i :: 0 <= i < |g| ==> xs[i] == IdCell(if scan then g[i].cols.scanID else g[i].summaryID)
  {
    seq(|g|, i requires 0 <= i < |g| => IdCell(if scan then g[i].cols.scanID else g[i].summaryID))
  }

  /** pandas `first` in a group: the first present value. */
  function FirstPresent<T(==)>(xs: seq<Option<T>>): (r: Option<T>)
    ensures r.None? <==> forall i :: 0 <= i < |xs| ==> xs[i].None?
    ensures r.Some? ==> exists i :: 0 <= i < |xs| && xs[i] == r && forall j :: 0 <= j < i ==> xs[j].None?
    decreases |xs|
  {
    if xs == [] then None
    else if xs[0].Some? then xs[0]
    else
      var r := FirstPresent(xs[1..]);
      assert forall i :: 1 <= i < |xs| ==> xs[i] == xs[1..][i - 1];
      if r.Some? then
        var i :| 0 <= i < |xs[1..]| && xs[1..][i] == r && forall j :: 0 <= j < i ==> xs[1..][j].None?;
        assert xs[i + 1] == r;
        r
      else r
  }

  /** pandas `min` in a group: the least present value, NaN when none. */
  function MinPresent(xs: seq<Option<real>>): (r: Option<real>)
    ensures r.None? <==> forall i :: 0 <= i < |xs| ==> xs[i].None?
    ensures r.Some? ==> r in xs && forall i :: 0 <= i < |xs| && xs[i].Some? ==> r.value <= xs[i].value
    decreases |xs|
  {
    if xs == [] then None
    else
      var rest := MinPresent(xs[1..]);
      assert forall i :: 1 <= i < |xs| ==> xs[i] == xs[1..][i - 1];
      assert rest.Some? ==> rest in xs by {
        if rest.Some? { assert rest in xs[1..]; }
      }
      if xs[0].None? then rest
      else if rest.None? || xs[0].value <= rest.value then xs[0]
      else rest
  }

  /** pandas `max` in a group: the greatest present value, NaN when none. */
  function MaxPresent(xs: seq<Option<real>>): (r: Option<real>)
    ensures r.None? <==> forall i :: 0 <= i < |xs| ==> xs[i].None?
    ensures r.Some? ==> r in xs && forall i :: 0 <= i < |xs| && xs[i].Some? ==> xs[i].value <= r.value
    decreases |xs|
  {
    if xs == [] then None
    else
      var rest := MaxPresent(xs[1..]);
      assert forall i :: 1 <= i < |xs| ==> xs[i] == xs[1..][i - 1];
      assert rest.Some? ==> rest in xs by {
        if rest.Some? { assert rest in xs[1..]; }
      }
      if xs[0].None? then rest
      else if rest.None? || xs[0].value >= rest.value then xs[0]
      else rest
  }

  /** pandas `sum` in a group: the sum of the present values, 0 when none. */
  function SumPresent(xs: seq<Option<real>>): real {
    Sum(RemoveNanValues(xs))
  }

  /** `replace({0: np.nan})` on a reporter column. */
  function ZeroToNull(xs: seq<Option<real>>): (r: seq<Option<real>>)
    ensures |r| == |xs|
    ensures forall i :: 0 <= i < |xs| ==> (r[i].None? <==> xs[i].None? || xs[i] == Some(0.0))
    ensures forall i :: 0 <= i < |xs| && r[i].Some? ==> r[i] == xs[i]
  {
    seq(|xs|, i requires 0 <= i < |xs| => if xs[i] == Some(0.0) then None else xs[i])
  }

  /** Turning zeros into NaN does not change a sum. */
  lemma {:induction false} ZeroToNullSum(xs: seq<Option<real>>)
    ensures SumPresent(ZeroToNull(xs)) == SumPresent(xs)
    decreases |xs|
  {
    if xs != [] {
      ZeroToNullSum(xs[1..]);
      assert ZeroToNull(xs)[1..] == ZeroToNull(xs[1..]);
    }
  }

  /** The number of present values: pandas `count`. */
  function CountPresent<T>(xs: seq<Option<T>>): nat {
    |RemoveNanValues(xs)|
  }

  /** The number of entries of `xs` equal to `v`. */
  function Occurrences<T(==)>(xs: seq<T>, v: T): (n: nat)
    ensures n <= |xs|
    decreases |xs|
  {
    if xs == [] then 0 else (if xs[0] == v then 1 else 0) + Occurrences(xs[1..], v)
  }

  /** pandas `count`: the entries that are not NaN. */
  lemma {:induction false} CountPresentRule<T>(xs: seq<Option<T>>)
    ensures CountPresent(xs) == |xs| - Occurrences(xs, None)
    decreases |xs|
  {
    if xs != [] {
      CountPresentRule(xs[1..]);
    }
  }

  /** pandas `count` after zeros became NaN: the present, non-zero values. */
  lemma {:induction false} ReporterCount(xs: seq<Option<real>>)
    ensures CountPresent(ZeroToNull(xs)) == |xs| - Occurrences(xs, None) - Occurrences(xs, Some(0.0))
    decreases |xs|
  {
    if xs != [] {
      ReporterCount(xs[1..]);
      assert ZeroToNull(xs)[1..] == ZeroToNull(xs[1..]);
    }
  }

  /** `str(x) + ";"` for a text column; NaN prints as `nan`. */
  function TextCell(x: Option<string>): string {
    (match x case Some(t) => t case None => "nan") + ";"
  }

  /** pandas `sum` of a text column: concatenation in group order. */
  function Concat(xs: seq<string>): string
    decreases |xs|
  {
    if xs == [] then [] else xs[0] + Concat(xs[1..])
  }

  /** The identification column summed: the present letters, concatenated. */
  function Letters(xs: seq<Option<char>>): string
    decreases |xs|
  {
    if xs == [] then []
    else (match xs[0] case Some(c) => [c] case None => []) + Letters(xs[1..])
  }

  /** `Transferred spectra count`: the sum of the identification letters,
      then `str.count("t")`; a group without any letter sums to `0`, which is
      not a string, and counts as NaN. */
  function TransferredCount(xs: seq<Option<char>>): Option<nat> {
    var letters := Letters(xs);
    if letters == [] then None else Some(Count(letters, 't'))
  }

  /** The count is the number of scans of the group marked `t`, and missing
      only when no scan carries an identification. */
  lemma {:induction false} TransferredCountRule(xs: seq<Option<char>>)
    ensures TransferredCount(xs).None? <==> Occurrences(xs, None) == |xs|
    ensures TransferredCount(xs).Some? ==> TransferredCount(xs).value == Occurrences(xs, Some('t'))
    decreases |xs|
  {
    if xs != [] {
      TransferredCountRule(xs[1..]);
      var head := match xs[0] case Some(c) => [c] case None => [];
      CountAppend(head, Letters(xs[1..]), 't');
      assert Letters(xs[1..]) == [] ==> Count(Letters(xs[1..]), 't') == Occurrences(xs[1..], Some('t')) by {
        LettersEmpty(xs[1..]);
      }
    }
  }

  lemma {:induction false} LettersEmpty(xs: seq<Option<char>>)
    ensures Letters(xs) == [] <==> Occurrences(xs, None) == |xs|
    ensures Letters(xs) == [] ==> Occurrences(xs, Some('t')) == 0
    decreases |xs|
  {
    if xs != [] {
      LettersEmpty(xs[1..]);
    }
  }

  /** Reporter channel `c` (counted from 0) of a scan, plain or corrected; a
      channel the scan does not carry reads as NaN. */
  function Reporter(p: Psm, c: nat, corrected: bool): Option<real> {
    var xs := if corrected then p.cols.corrected else p.cols.reporters;
    if c < |xs| then xs[c] else None
  }

  /** The values of one reporter channel in a group. */
  function Channel(g: seq<Psm>, c: nat, corrected: bool): (xs: seq<Option<real>>)
    ensures |xs| == |g| && forall i :: 0 <= i < |g| ==> xs[i] == Reporter(g[i], c, corrected)
  {
    seq(|g|, i requires 0 <= i < |g| => Reporter(g[i], c, corrected))
  }

  /** Zero reporter intensities, plain and corrected, become NaN. */
  function NullZeros(p: Psm): Psm {
    p.(cols := p.cols.(reporters := ZeroToNull(p.cols.reporters), corrected := ZeroToNull(p.cols.corrected)))
  }

  function NullZerosAll(rows: seq<Psm>): (r: seq<Psm>)
    ensures |r| == |rows| && forall i :: 0 <= i < |rows| ==> r[i] == NullZeros(rows[i])
  {
    seq(|rows|, i requires 0 <= i < |rows| => NullZeros(rows[i]))
  }

  /** The order the scans are grouped in: sequence, modified sequence, raw
      file and charge. */
  function SummaryOrder(p: Psm): Key {
    [Asc(Text(p.cols.sequence)), Asc(Text(p.cols.modifiedSequence)), Asc(Text(Some(p.rawFile))), Asc(Int(p.charge))]
  }

  /** The summary as `calculate_evidence_columns` groups it. */
  function Prepared(summary: seq<Psm>): (r: seq<Psm>)
    ensures |r| == |summary|
  {
    SortBy(NullZerosAll(summary), SummaryOrder)
  }

  /** The groups of `groupby("evidence_ID")`, in ascending order; a scan
      without an id is in none. */
  function EvidenceIds(rows: seq<Psm>): (ks: seq<int>)
    ensures StrictlySortedInts(ks)
    ensures forall k :: k in ks <==> exists p :: p in rows && p.evidenceID == Some(k)
  {
    var ks := SortedUniqueInts(RemoveNanValues(EvidenceIdColumn(rows)));
    assert forall k :: k in ks ==> exists p :: p in rows && p.evidenceID == Some(k) by {
      forall k | k in ks ensures exists p :: p in rows && p.evidenceID == Some(k) {
        var i :| 0 <= i < |rows| && EvidenceIdColumn(rows)[i] == Some(k);
        assert rows[i] in rows;
      }
    }
    assert forall p :: p in rows && p.evidenceID.Some? ==> p.evidenceID.value in ks by {
      forall p | p in rows && p.evidenceID.Some? ensures p.evidenceID.value in ks {
        var i :| 0 <= i < |rows| && rows[i] == p;
        assert EvidenceIdColumn(rows)[i] == p.evidenceID;
      }
    }
    ks
  }

  /** The scans of one evidence id, in table order. */
  function GroupOf(rows: seq<Psm>, k: int): (g: seq<Psm>)
    ensures forall p :: p in g <==> p in rows && p.evidenceID == Some(k)
    ensures |g| <= |rows|
    decreases |rows|
  {
    if rows == [] then []
    else
      var rest := GroupOf(rows[1..], k);
      assert forall p :: p in rows <==> p == rows[0] || p in rows[1..];
      if rows[0].evidenceID == Some(k) then [rows[0]] + rest else rest
  }

  function FirstsOf(g: seq<Psm>): Firsts {
    Firsts(
      FirstText(g, SequenceCol),
      FirstText(g, ModificationsCol),
      FirstText(g, ModifiedSequenceCol),
      FirstText(g, GeneNamesCol),
      FirstText(g, ProteinNamesCol),
      FirstText(g, NewTypeCol),
      FirstReal(g, MzCol),
      FirstReal(g, MassCol),
      FirstReal(g, RetentionTimeCol),
      FirstText(g, ReverseCol))
  }

  function ReducedOf(g: seq<Psm>, plex: nat): (r: Reduced)
    ensures |r.corrected| == |r.reporters| == |r.reporterCounts| == plex
  {
    Reduced(
      MinPresent(RealColumn(g, MassErrorCol)),
      MinPresent(RealColumn(g, PepCol)),
      MaxPresent(RealColumn(g, ScoreCol)),
      MaxPresent(RealColumn(g, DeltaScoreCol)),
      |g|,
      SumPresent(RealColumn(g, IntensityCol)),
      seq(plex, c requires 0 <= c < plex => SumPresent(Channel(g, c, true))),
      seq(plex, c requires 0 <= c < plex => SumPresent(Channel(g, c, false))),
      seq(plex, c requires 0 <= c < plex => CountPresent(Channel(g, c, false))),
      TransferredCount(IdentificationColumn(g)))
  }

  /** A number column turned into text with `;` appended. */
  function IdCell(n: nat): string {
    NatToString(n) + ";"
  }

  function ListsOf(g: seq<Psm>, csvUnique: string -> string): Lists
    requires g != []
  {
    Lists(
      csvUnique(Concat(TextCells(g, ProteinsCol))),
      csvUnique(Concat(TextCells(g, LeadingProteinsCol))),
      csvUnique(Concat(IdCells(g, true))),
      csvUnique(IdCell(g[0].cols.scanID)),
      csvUnique(Concat(IdCells(g, false))))
  }

  function MetaOf(g: seq<Psm>): Meta {
    Meta(
      FirstInt(g, LengthCol),
      FirstInt(g, MissedCleavagesCol),
      FirstInt(g, FractionCol),
      FirstText(g, ExperimentCol),
      FirstInt(g, ChargeCol),
      "")
  }

  /** The evidence row `agg` builds from the scans `g` of evidence id `k`. */
  function Aggregate(g: seq<Psm>, k: int, plex: nat, csvUnique: string -> string): EvidenceRecord
    requires g != []
  {
    EvidenceRecord(k, g[0].rawFile, FirstsOf(g), ReducedOf(g, plex), ListsOf(g, csvUnique), MetaOf(g))
  }

  /** The min and max reducers keep their pandas meaning: the least PEP and
      mass error and the greatest scores over the present values, NaN only
      when no scan of the group has one. */
  lemma ExtremaRules(g: seq<Psm>, plex: nat)
    ensures var e := ReducedOf(g, plex);
      forall i :: 0 <= i < |g| && g[i].cols.pep.Some? ==> e.pep.Some? && e.pep.value <= g[i].cols.pep.value
    ensures var e := ReducedOf(g, plex);
      e.pep.Some? ==> exists i :: 0 <= i < |g| && g[i].cols.pep == e.pep
    ensures var e := ReducedOf(g, plex);
      forall i :: 0 <= i < |g| && g[i].cols.massError.Some? ==> e.massError.Some? && e.massError.value <= g[i].cols.massError.value
    ensures var e := ReducedOf(g, plex);
      forall i :: 0 <= i < |g| && g[i].cols.score.Some? ==> e.score.Some? && g[i].cols.score.value <= e.score.value
    ensures var e := ReducedOf(g, plex);
      e.score.Some? ==> exists i :: 0 <= i < |g| && g[i].cols.score == e.score
    ensures var e := ReducedOf(g, plex);
      forall i :: 0 <= i < |g| && g[i].cols.deltaScore.Some? ==> e.deltaScore.Some? && g[i].cols.deltaScore.value <= e.deltaScore.value
  {
    MinColumnRules(g, PepCol);
    MinColumnRules(g, MassErrorCol);
    MaxColumnRules(g, ScoreCol);
    MaxColumnRules(g, DeltaScoreCol);
    assert forall i :: 0 <= i < |g| ==>
      RealValue(g[i], PepCol) == g[i].cols.pep && RealValue(g[i], MassErrorCol) == g[i].cols.massError &&
      RealValue(g[i], ScoreCol) == g[i].cols.score && RealValue(g[i], DeltaScoreCol) == g[i].cols.deltaScore;
  }

  /** `min` over a column: below every present value and taken by some row. */
  lemma MinColumnRules(g: seq<Psm>, c: RealCol)
    ensures var m := MinPresent(RealColumn(g, c));
      (forall i :: 0 <= i < |g| && RealValue(g[i], c).Some? ==> m.Some? && m.value <= RealValue(g[i], c).value) &&
      (m.Some? ==> exists i :: 0 <= i < |g| && RealValue(g[i], c) == m)
  {
    var xs := RealColumn(g, c);
    var m := MinPresent(xs);
    if m.Some? {
      var i :| 0 <= i < |xs| && xs[i] == m;
      assert RealValue(g[i], c) == m;
    }
  }

  /** `max` over a column: above every present value and taken by some row. */
  lemma MaxColumnRules(g: seq<Psm>, c: RealCol)
    ensures var m := MaxPresent(RealColumn(g, c));
      (forall i :: 0 <= i < |g| && RealValue(g[i], c).Some? ==> m.Some? && RealValue(g[i], c).value <= m.value) &&
      (m.Some? ==> exists i :: 0 <= i < |g| && RealValue(g[i], c) == m)
  {
    var xs := RealColumn(g, c);
    var m := MaxPresent(xs);
    if m.Some? {
      var i :| 0 <= i < |xs| && xs[i] == m;
      assert RealValue(g[i], c) == m;
    }
  }

  /** The counting reducers: the group size, the number of present non-zero
      reporter values per channel, and the number of transferred scans. */
  lemma CountRules(g: seq<Psm>, plex: nat)
    ensures ReducedOf(g, plex).msmsCount == |g|
    ensures forall c :: 0 <= c < plex ==> ReducedOf(g, plex).reporterCounts[c] == |g| - Occurrences(Channel(g, c, false), None)
    ensures var ids := IdentificationColumn(g);
      ReducedOf(g, plex).transferredCount.None? <==> Occurrences(ids, None) == |g|
    ensures var ids := IdentificationColumn(g);
      ReducedOf(g, plex).transferredCount.Some? ==> ReducedOf(g, plex).transferredCount.value == Occurrences(ids, Some('t'))
  {
    var e := ReducedOf(g, plex);
    forall c | 0 <= c < plex
      ensures e.reporterCounts[c] == |g| - Occurrences(Channel(g, c, false), None)
    {
      assert e.reporterCounts[c] == CountPresent(Channel(g, c, false));
      CountPresentRule(Channel(g, c, false));
    }
    TransferredCountRule(IdentificationColumn(g));
  }

  /** Zeros turned into NaN leave the summed reporter intensities as they
      were, channel by channel. */
  lemma NullZerosSum(g: seq<Psm>, c: nat)
    ensures SumPresent(Channel(NullZerosAll(g), c, true)) == SumPresent(Channel(g, c, true))
    ensures SumPresent(Channel(NullZerosAll(g), c, false)) == SumPresent(Channel(g, c, false))
  {
    var z := NullZerosAll(g);
    assert Channel(z, c, true) == ZeroToNull(Channel(g, c, true));
    assert Channel(z, c, false) == ZeroToNull(Channel(g, c, false));
    ZeroToNullSum(Channel(g, c, true));
    ZeroToNullSum(Channel(g, c, false));
  }

  /** One evidence row per evidence id, in ascending id order. */
  function AggregateAll(rows: seq<Psm>, plex: nat, csvUnique: string -> string): (r: seq<EvidenceRecord>)
    ensures |r| == |EvidenceIds(rows)|
    ensures forall i :: 0 <= i < |r| ==> r[i].id == EvidenceIds(rows)[i]
  {
    var ks := EvidenceIds(rows);
    seq(|ks|, i requires 0 <= i < |ks| =>
      var g := GroupOf(rows, ks[i]);
      assert ks[i] in ks;
      var p :| p in rows && p.evidenceID == Some(ks[i]);
      assert p in g;
      Aggregate(g, ks[i], plex, csvUnique))
  }

  // The in-place completion after `agg`: the sentinel for rows without
  // metadata and the contaminant flag.

  const UNKNOWN: string := "UNKNOWN"
  const CONTAMINANT_TAG: string := "CON__"

  /** An evidence row after the Fraction/Experiment sentinel and the
      contaminant flag. */
  function Completed(e: EvidenceRecord): EvidenceRecord {
    var m := if e.meta.fraction.None? then e.meta.(fraction := Some(-1), experiment := Some(UNKNOWN)) else e.meta;
    e.(meta := m.(contaminant := if Contains(e.lists.proteins, CONTAMINANT_TAG) then "+" else ""))
  }

  /** A row without Fraction gets Fraction -1 and Experiment UNKNOWN, other
      rows keep both; the contaminant flag is `+` exactly when Proteins
      holds `CON__`; no other column changes. */
  lemma CompletedRules(e: EvidenceRecord)
    ensures Completed(e).meta.fraction.Some?
    ensures e.meta.fraction.None? ==> Completed(e).meta.fraction == Some(-1) && Completed(e).meta.experiment == Some(UNKNOWN)
    ensures e.meta.fraction.Some? ==> Completed(e).meta.fraction == e.meta.fraction && Completed(e).meta.experiment == e.meta.experiment
    ensures Completed(e).meta.contaminant == "+" <==> Contains(e.lists.proteins, CONTAMINANT_TAG)
    ensures Completed(e).meta.contaminant in {"+", ""}
    ensures Completed(e).(meta := e.meta) == e
    ensures Completed(e).meta.(fraction := e.meta.fraction, experiment := e.meta.experiment, contaminant := e.meta.contaminant) == e.meta
  {
  }

  /** The sentinel and the contaminant flag, written into the table in place. */
  method CompleteEvidence(evidence: array<EvidenceRecord>)
    modifies evidence
    ensures forall i :: 0 <= i < evidence.Length ==> evidence[i] == Completed(old(evidence[i]))
  {
    for i := 0 to evidence.Length
      invariant forall j :: 0 <= j < i ==> evidence[j] == Completed(old(evidence[j]))
      invariant forall j :: i <= j < evidence.Length ==> evidence[j] == old(evidence[j])
    {
      evidence[i] := Completed(evidence[i]);
    }
  }

  function CompletedAll(es: seq<EvidenceRecord>): (r: seq<EvidenceRecord>)
    ensures |r| == |es| && forall i :: 0 <= i < |es| ==> r[i] == Completed(es[i])
  {
    seq(|es|, i requires 0 <= i < |es| => Completed(es[i]))
  }

  /** `astype("int8")` of an integer: two's-complement wrap-around. */
  function Int8(x: int): (r: int)
    ensures -128 <= r < 128
    ensures (r - x) % 256 == 0
    ensures -128 <= x < 128 ==> r == x
  {
    (x + 128) % 256 - 128
  }

  /** The int8 cast of a column; NaN cannot be cast and raises. */
  function CastInt8(x: Option<int>): Result<int> {
    match x
    case None => Err(ValueError("Cannot convert non-finite values (NA or inf) to integer"))
    case Some(v) => Ok(Int8(v))
  }

  /** `astype` of Length, Missed cleavages, Fraction and Charge on one row. */
  function CastRecord(e: EvidenceRecord): (r: Result<EvidenceRecord>)
    ensures r.Ok? <==> e.meta.length.Some? && e.meta.missedCleavages.Some? && e.meta.fraction.Some? && e.meta.charge.Some?
    ensures r.Err? ==> r.error.ValueError?
    ensures r.Ok? ==> r.value == e.(meta := e.meta.(length := Some(Int8(e.meta.length.value)),
      missedCleavages := Some(Int8(e.meta.missedCleavages.value)), fraction := Some(Int8(e.meta.fraction.value)),
      charge := Some(Int8(e.meta.charge.value))))
  {
    var m := e.meta;
    match (CastInt8(m.length), CastInt8(m.missedCleavages), CastInt8(m.fraction), CastInt8(m.charge))
    case (Ok(l), Ok(c), Ok(f), Ok(z)) =>
      Ok(e.(meta := m.(length := Some(l), missedCleavages := Some(c), fraction := Some(f), charge := Some(z))))
    case (Err(x), _, _, _) => Err(x)
    case (_, Err(x), _, _) => Err(x)
    case (_, _, Err(x), _) => Err(x)
    case (_, _, _, Err(x)) => Err(x)
  }

  /** The cast of the whole table: the first row that cannot be cast raises. */
  function CastAll(es: seq<EvidenceRecord>): (r: Result<seq<EvidenceRecord>>)
    ensures r.Ok? <==> forall i :: 0 <= i < |es| ==> CastRecord(es[i]).Ok?
    ensures r.Err? ==> r.error.ValueError?
    ensures r.Ok? ==> |r.value| == |es| && forall i :: 0 <= i < |es| ==> Ok(r.value[i]) == CastRecord(es[i])
    decreases |es|
  {
    if es == [] then Ok([])
    else
      match CastRecord(es[0])
      case Err(x) => Err(x)
      case Ok(e) =>
        match CastAll(es[1..])
        case Err(x) => Err(x)
        case Ok(rest) => Ok([e] + rest)
  }

  /** The final order of the evidence table. */
  function RecordKey(e: EvidenceRecord): Key {
    [Asc(Text(e.firsts.sequence)), Asc(Text(e.firsts.modifiedSequence)), Asc(Text(Some(e.rawFile))), Asc(Int(e.meta.charge))]
  }

  /** `calculate_evidence_columns` as a value: aggregate, complete, cast and
      sort. */
  function EvidenceColumns(summary: seq<Psm>, plex: nat, csvUnique: string -> string): (r: Result<seq<EvidenceRecord>>)
  {
    match CastAll(CompletedRows(summary, plex, csvUnique))
    case Err(x) => Err(x)
    case Ok(cast) => Ok(SortBy(cast, RecordKey))
  }

  /** `calculate_evidence_columns`: the aggregated table is completed in
      place, then cast and sorted. */
  method CalculateEvidenceColumns(summary: seq<Psm>, plex: nat, csvUnique: string -> string)
    returns (r: Result<seq<EvidenceRecord>>)
    ensures r == EvidenceColumns(summary, plex, csvUnique)
  {
    var rows := Prepared(summary);
    var aggregated := AggregateAll(rows, plex, csvUnique);
    var evidence := new EvidenceRecord[|aggregated|](i requires 0 <= i < |aggregated| => aggregated[i]);
    CompleteEvidence(evidence);
    assert evidence[..] == CompletedRows(summary, plex, csvUnique);
    var cast := CastAll(evidence[..]);
    if cast.Err? {
      return Err(cast.error);
    }
    r := Ok(SortBy(cast.value, RecordKey));
  }

  // Properties of the whole evidence table.

  /** The prepared scans are the input scans with their zero reporter
      intensities nulled, in another order. */
  lemma PreparedMembers(summary: seq<Psm>)
    ensures forall q :: q in Prepared(summary) <==> exists s :: s in summary && q == NullZeros(s)
  {
    var z := NullZerosAll(summary);
    SortByCorrect(z, SummaryOrder);
    forall q ensures q in Prepared(summary) <==> exists s :: s in summary && q == NullZeros(s) {
      assert q in Prepared(summary) <==> q in multiset(z);
      if q in z {
        var i :| 0 <= i < |z| && z[i] == q;
        assert summary[i] in summary;
      }
      if exists s :: s in summary && q == NullZeros(s) {
        var s :| s in summary && q == NullZeros(s);
        var i :| 0 <= i < |summary| && summary[i] == s;
        assert z[i] == q;
      }
    }
  }

  /** Every scan of evidence id `k` in the summary lacks column `c`. */
  predicate Lacks(summary: seq<Psm>, k: int, c: IntCol) {
    forall s :: s in summary && s.evidenceID == Some(k) ==> IntValue(s, c).None?
  }

  /** An aggregated `first` integer column is NaN exactly when every scan of
      the evidence id lacks it. */
  lemma FirstIntOfGroup(summary: seq<Psm>, k: int, c: IntCol)
    ensures FirstInt(GroupOf(Prepared(summary), k), c).None? <==> Lacks(summary, k, c)
  {
    if Lacks(summary, k, c) {
      LackingGroup(summary, k, c);
    } else {
      PresentInGroup(summary, k, c);
    }
  }

  lemma LackingGroup(summary: seq<Psm>, k: int, c: IntCol)
    requires Lacks(summary, k, c)
    ensures FirstInt(GroupOf(Prepared(summary), k), c).None?
  {
    var g := GroupOf(Prepared(summary), k);
    PreparedMembers(summary);
    forall i | 0 <= i < |g| ensures IntValue(g[i], c).None? {
      assert g[i] in g;
      var s :| s in summary && g[i] == NullZeros(s);
    }
  }

  lemma PresentInGroup(summary: seq<Psm>, k: int, c: IntCol)
    requires !Lacks(summary, k, c)
    ensures FirstInt(GroupOf(Prepared(summary), k), c).Some?
  {
    var g := GroupOf(Prepared(summary), k);
    PreparedMembers(summary);
    var s :| s in summary && s.evidenceID == Some(k) && IntValue(s, c).Some?;
    assert NullZeros(s) in g;
    var i :| 0 <= i < |g| && g[i] == NullZeros(s);
  }

  function RecordId(e: EvidenceRecord): int {
    e.id
  }

  /** The rows `astype` is applied to. */
  function CompletedRows(summary: seq<Psm>, plex: nat, csvUnique: string -> string): (r: seq<EvidenceRecord>)
    ensures |r| == |EvidenceIds(Prepared(summary))|
    ensures forall i :: 0 <= i < |r| ==> r[i].id == EvidenceIds(Prepared(summary))[i]
  {
    CompletedAll(AggregateAll(Prepared(summary), plex, csvUnique))
  }

  /** The evidence_IDs present among some scans. */
  function EvidenceIdSet(rows: seq<Psm>): set<int> {
    set p | p in rows && p.evidenceID.Some? :: p.evidenceID.value
  }

  /** The ids of an evidence table. */
  function RecordIds(es: seq<EvidenceRecord>): set<int> {
    set e | e in es :: e.id
  }

  /** The evidence ids of the prepared scans are those of the summary. */
  lemma EvidenceIdsPrepared(summary: seq<Psm>)
    ensures forall k :: k in EvidenceIds(Prepared(summary)) <==> k in EvidenceIdSet(summary)
  {
    PreparedMembers(summary);
    forall k | k in EvidenceIdSet(summary)
      ensures k in EvidenceIds(Prepared(summary))
    {
      var s :| s in summary && s.evidenceID.Some? && s.evidenceID.value == k;
      assert NullZeros(s) in Prepared(summary);
    }
    forall k | k in EvidenceIds(Prepared(summary))
      ensures k in EvidenceIdSet(summary)
    {
      var q :| q in Prepared(summary) && q.evidenceID == Some(k);
      var s :| s in summary && q == NullZeros(s);
    }
  }

  /** Casting and sorting rows with strictly ascending ids gives a sorted
      table with exactly those ids, each once. */
  lemma CastSortedIds(c: seq<EvidenceRecord>, ks: seq<int>)
    requires |c| == |ks| && StrictlySortedInts(ks)
    requires forall i :: 0 <= i < |c| ==> c[i].id == ks[i]
    ensures CastAll(c).Ok? ==> var r := SortBy(CastAll(c).value, RecordKey);
      SortedBy(r, RecordKey) && DistinctBy(r, RecordId) && forall k :: k in RecordIds(r) <==> k in ks
  {
    if CastAll(c).Ok? {
      var cast := CastAll(c).value;
      assert forall i :: 0 <= i < |cast| ==> cast[i].id == ks[i];
      assert DistinctBy(cast, RecordId);
      SortByDistinctBy(cast, RecordKey, RecordId);
      SortByCorrect(cast, RecordKey);
      var r := SortBy(cast, RecordKey);
      forall k ensures k in RecordIds(r) <==> k in ks {
        if k in RecordIds(r) {
          var e :| e in r && e.id == k;
          assert e in multiset(cast);
        }
        if k in ks {
          var i :| 0 <= i < |ks| && ks[i] == k;
          assert cast[i] in multiset(r);
        }
      }
    }
  }

  /** The table has one row per evidence id of the summary and no other,
      and it is sorted by sequence, modified sequence, raw file and charge. */
  lemma EvidenceColumnsRows(summary: seq<Psm>, plex: nat, csvUnique: string -> string)
    ensures var r := EvidenceColumns(summary, plex, csvUnique);
      r.Ok? ==> SortedBy(r.value, RecordKey) && DistinctBy(r.value, RecordId)
    ensures var r := EvidenceColumns(summary, plex, csvUnique);
      r.Ok? ==> RecordIds(r.value) == EvidenceIdSet(summary)
  {
    var c := CompletedRows(summary, plex, csvUnique);
    var ks := EvidenceIds(Prepared(summary));
    var r := EvidenceColumns(summary, plex, csvUnique);
    if r.Ok? {
      assert CastAll(c).Ok? && r.value == SortBy(CastAll(c).value, RecordKey);
      CastSortedIds(c, ks);
      assert forall k :: k in RecordIds(r.value) <==> k in ks;
      EvidenceIdsPrepared(summary);
    }
  }

  /** The integer columns of a row `astype` is applied to: the first present
      value of the scans of its evidence id, and the Fraction sentinel. */
  lemma CompletedRowMeta(summary: seq<Psm>, plex: nat, csvUnique: string -> string, i: nat)
    requires i < |EvidenceIds(Prepared(summary))|
    ensures var e := CompletedRows(summary, plex, csvUnique)[i];
      var g := GroupOf(Prepared(summary), EvidenceIds(Prepared(summary))[i]);
      e.meta.length == FirstInt(g, LengthCol) && e.meta.missedCleavages == FirstInt(g, MissedCleavagesCol) &&
      e.meta.charge == FirstInt(g, ChargeCol) && e.meta.fraction.Some?
  {
    var a := AggregateAll(Prepared(summary), plex, csvUnique);
    assert a[i].meta == MetaOf(GroupOf(Prepared(summary), EvidenceIds(Prepared(summary))[i]));
  }

  lemma CastRowFails(summary: seq<Psm>, plex: nat, csvUnique: string -> string, i: nat)
    requires i < |EvidenceIds(Prepared(summary))|
    ensures CastRecord(CompletedRows(summary, plex, csvUnique)[i]).Err? <==> UncastableId(summary, EvidenceIds(Prepared(summary))[i])
  {
    var k := EvidenceIds(Prepared(summary))[i];
    CompletedRowMeta(summary, plex, csvUnique, i);
    FirstIntOfGroup(summary, k, LengthCol);
    FirstIntOfGroup(summary, k, MissedCleavagesCol);
    FirstIntOfGroup(summary, k, ChargeCol);
  }

  /** Some evidence id has no scan with a Length, none with a Missed
      cleavages or none with a Charge. */
  predicate Uncastable(summary: seq<Psm>) {
    exists s :: s in summary && s.evidenceID.Some? && UncastableId(summary, s.evidenceID.value)
  }

  predicate UncastableId(summary: seq<Psm>, k: int) {
    Lacks(summary, k, LengthCol) || Lacks(summary, k, MissedCleavagesCol) || Lacks(summary, k, ChargeCol)
  }

  lemma CastAllFails(c: seq<EvidenceRecord>)
    ensures CastAll(c).Err? <==> exists i :: 0 <= i < |c| && CastRecord(c[i]).Err?
  {
  }

  lemma CompletedRowsFail(summary: seq<Psm>, plex: nat, csvUnique: string -> string)
    ensures CastAll(CompletedRows(summary, plex, csvUnique)).Err? <==> Uncastable(summary)
  {
    if CastAll(CompletedRows(summary, plex, csvUnique)).Err? {
      FailingRowUncastable(summary, plex, csvUnique);
    }
    if Uncastable(summary) {
      UncastableRowFails(summary, plex, csvUnique);
    }
  }

  lemma FailingRowUncastable(summary: seq<Psm>, plex: nat, csvUnique: string -> string)
    requires CastAll(CompletedRows(summary, plex, csvUnique)).Err?
    ensures Uncastable(summary)
  {
    var c := CompletedRows(summary, plex, csvUnique);
    var ks := EvidenceIds(Prepared(summary));
    CastAllFails(c);
    EvidenceIdsPrepared(summary);
    var i :| 0 <= i < |c| && CastRecord(c[i]).Err?;
    CastRowFails(summary, plex, csvUnique, i);
    assert ks[i] in ks;
    var s :| s in summary && s.evidenceID == Some(ks[i]);
  }

  lemma UncastableRowFails(summary: seq<Psm>, plex: nat, csvUnique: string -> string)
    requires Uncastable(summary)
    ensures CastAll(CompletedRows(summary, plex, csvUnique)).Err?
  {
    var c := CompletedRows(summary, plex, csvUnique);
    var ks := EvidenceIds(Prepared(summary));
    CastAllFails(c);
    EvidenceIdsPrepared(summary);
    var s :| s in summary && s.evidenceID.Some? && UncastableId(summary, s.evidenceID.value);
    assert s.evidenceID.value in ks;
    var i :| 0 <= i < |ks| && ks[i] == s.evidenceID.value;
    CastRowFails(summary, plex, csvUnique, i);
  }

  /** The casts raise exactly when some evidence id has no scan with a
      Length, none with a Missed cleavages, or none with a Charge; the
      Fraction sentinel keeps the Fraction cast from raising. */
  lemma EvidenceColumnsFails(summary: seq<Psm>, plex: nat, csvUnique: string -> string)
    ensures EvidenceColumns(summary, plex, csvUnique).Err? <==> Uncastable(summary)
    ensures EvidenceColumns(summary, plex, csvUnique).Err? ==> EvidenceColumns(summary, plex, csvUnique).error.ValueError?
  {
    CompletedRowsFail(summary, plex, csvUnique);
  }

  /** A scan of evidence id 1 as the unit test of `calculate_evidence_columns`
      builds it, with two reporter channels; the columns the two scans share
      are fixed here. */
  function ExampleScan(summaryID: nat, scanID: nat, length: int, missed: int, proteins: string, leading: string,
                       gene: string, name: string, massError: Option<real>, rt: real, pep: real, score: real,
                       delta: real, intensity: real, reporter1: real, reporter2: real, corrected1: real,
                       corrected2: real, newType: string, identification: char): Psm
  {
    var cols := ScanColumns(scanID, Some("AAA"), Some("MOD_AAA"), Some("mod1"), Some(length), Some(missed),
      Some(proteins), Some(gene), Some(name), Some(1000.0), massError, Some(pep), Some(score), Some(delta),
      [Some(reporter1), Some(reporter2)], [Some(corrected1), Some(corrected2)], Some(""), Some(identification),
      Some(1), Some("Exp1"));
    Psm(summaryID, "file1", Some(2), Some(123.45), None, Some(rt), cols, Some(1),
      NO_FEATURE.(leadingProteins := Some(leading), intensity := Some(intensity)), Some(newType))
  }

  /** The two scans of evidence id 1 in the unit test, in table order. */
  function ExampleGroup(): seq<Psm> {
    [ExampleScan(1, 101, 10, 1, "ProteinA;ProteinC", "LeadA", "GeneA", "NameA", Some(1.5), 50.0, 0.01, 50.0, 5.0,
       100.0, 10.0, 5.0, 8.0, 4.0, "TypeA", 't'),
     ExampleScan(3, 103, 12, 0, "ProteinC", "LeadC;LeadA", "GeneC", "NameC", None, 70.0, 0.03, 70.0, 7.0,
       200.0, 20.0, 10.0, 18.0, 9.0, "TypeC", 'd')]
  }

  lemma ExampleIntensity()
    ensures ReducedOf(ExampleGroup(), 2).intensity == 300.0
  {
    assert RealColumn(ExampleGroup(), IntensityCol) == [Some(100.0), Some(200.0)];
    assert RemoveNanValues([Some(100.0), Some(200.0)]) == [100.0, 200.0];
  }

  lemma ExampleCorrected()
    ensures ReducedOf(ExampleGroup(), 2).corrected[0] == 26.0
  {
    assert Channel(ExampleGroup(), 0, true) == [Some(8.0), Some(18.0)];
    assert RemoveNanValues([Some(8.0), Some(18.0)]) == [8.0, 18.0];
  }

  lemma ExampleCount()
    ensures ReducedOf(ExampleGroup(), 2).reporterCounts[0] == 2
  {
    assert Channel(ExampleGroup(), 0, false) == [Some(10.0), Some(20.0)];
    assert RemoveNanValues([Some(10.0), Some(20.0)]) == [10.0, 20.0];
  }

  lemma ExampleTransferred()
    ensures ReducedOf(ExampleGroup(), 2).transferredCount == Some(1)
    ensures ReducedOf(ExampleGroup(), 2).massError == Some(1.5)
    ensures ReducedOf(ExampleGroup(), 2).msmsCount == 2
  {
    assert IdentificationColumn(ExampleGroup()) == [Some('t'), Some('d')];
    assert Letters([Some('t'), Some('d')]) == "td";
    assert RealColumn(ExampleGroup(), MassErrorCol) == [Some(1.5), None];
  }

  /** The evidence row of id 1 in the unit test: intensity 100 + 200,
      corrected reporter 8 + 18, two non-null reporter values, one
      transferred scan, the smaller present mass error, two scans, and
      summary ids 1 and 3 joined before `csv_unique`. */
  lemma AggregateExample()
    ensures var e := ReducedOf(ExampleGroup(), 2);
      e.intensity == 300.0 && e.corrected[0] == 26.0 && e.reporterCounts[0] == 2 &&
      e.transferredCount == Some(1) && e.massError == Some(1.5) && e.msmsCount == 2
    ensures Concat(IdCells(ExampleGroup(), false)) == "1;3;"
  {
    ExampleIntensity();
    ExampleCorrected();
    ExampleCount();
    ExampleTransferred();
    ExampleSummaryIds();
  }

  /** The summed Proteins cells of evidence id 1 are the text the unit
      test's `csv_unique` receives. */
  lemma ExampleProteinCells()
    ensures Concat(TextCells(ExampleGroup(), ProteinsCol)) == "ProteinA;ProteinC;ProteinC;"
  {
    var g := ExampleGroup();
    assert TextCells(g, ProteinsCol) == ["ProteinA;ProteinC;", "ProteinC;"] by {
      assert TextValue(g[0], ProteinsCol) == Some("ProteinA;ProteinC");
      assert TextValue(g[1], ProteinsCol) == Some("ProteinC");
      assert TextCell(Some("ProteinA;ProteinC")) == "ProteinA;ProteinC;";
      assert TextCell(Some("ProteinC")) == "ProteinC;";
    }
    assert Concat(["ProteinC;"]) == "ProteinC;";
  }

  /** The summed Leading proteins cells of evidence id 1. */
  lemma ExampleLeadingCells()
    ensures Concat(TextCells(ExampleGroup(), LeadingProteinsCol)) == "LeadA;LeadC;LeadA;"
  {
    var g := ExampleGroup();
    assert TextCells(g, LeadingProteinsCol) == ["LeadA;", "LeadC;LeadA;"] by {
      assert TextValue(g[0], LeadingProteinsCol) == Some("LeadA");
      assert TextValue(g[1], LeadingProteinsCol) == Some("LeadC;LeadA");
      assert TextCell(Some("LeadA")) == "LeadA;";
      assert TextCell(Some("LeadC;LeadA")) == "LeadC;LeadA;";
    }
    assert Concat(["LeadC;LeadA;"]) == "LeadC;LeadA;";
  }

  /** Whatever `csv_unique` is, if it maps the three summed cells of evidence
      id 1 to the values the unit test expects, the evidence row carries
      Proteins `ProteinA;ProteinC`, Leading proteins `LeadA;LeadC` and
      summary_ID `1;3`, with Fraction 1. */
  lemma ExampleLists(csvUnique: string -> string)
    requires csvUnique("ProteinA;ProteinC;ProteinC;") == "ProteinA;ProteinC"
    requires csvUnique("LeadA;LeadC;LeadA;") == "LeadA;LeadC"
    requires csvUnique("1;3;") == "1;3"
    ensures var e := Aggregate(ExampleGroup(), 1, 2, csvUnique);
      e.lists.proteins == "ProteinA;ProteinC" && e.lists.leadingProteins == "LeadA;LeadC" &&
      e.lists.summaryIDs == "1;3" && e.meta.fraction == Some(1)
  {
    ExampleProteinCells();
    ExampleLeadingCells();
    ExampleSummaryIds();
    assert IntColumn(ExampleGroup(), FractionCol)[0] == Some(1);
  }

  lemma ExampleSummaryIds()
    ensures Concat(IdCells(ExampleGroup(), false)) == "1;3;"
  {
    var g := ExampleGroup();
    assert IdCell(1) == "1;" && IdCell(3) == "3;";
    assert IdCells(g, false)[0] == "1;" && IdCells(g, false)[1] == "3;";
    assert IdCells(g, false) == ["1;", "3;"];
    assert Concat(["3;"]) == "3;";
  }

  // ---------------------------------------------------------------------------
  // build_evidence and build_evidence_grouped

  /** The order `build_evidence` numbers the evidence rows in. */
  function EvidenceKey(e: EvidenceRow): Key {
    [Asc(Text(e.sequence)), Asc(Text(e.modifiedSequence)), Asc(Text(Some(e.rawFile))), Asc(Real(e.feature.calibratedRTStart))]
  }

  /** The evidence rows whose Type is not MSMS; a missing Type is kept. */
  function NotMsms(evidence: seq<EvidenceRow>): (r: seq<EvidenceRow>)
    ensures forall e :: e in r <==> e in evidence && e.feature.evType != Some(MSMS)
    decreases |evidence|
  {
    if evidence == [] then []
    else
      assert forall e :: e in evidence <==> e == evidence[0] || e in evidence[1..];
      (if evidence[0].feature.evType != Some(MSMS) then [evidence[0]] else []) + NotMsms(evidence[1..])
  }

  /** The evidence table `build_evidence` merges with: the rows not of Type
      MSMS, sorted, with evidence_ID the row position. */
  function PrepareEvidence(evidence: seq<EvidenceRow>): (r: seq<EvidenceRow>)
    ensures forall i :: 0 <= i < |r| ==> r[i].evidenceID == Some(i)
  {
    var sorted := SortBy(NotMsms(evidence), EvidenceKey);
    seq(|sorted|, i requires 0 <= i < |sorted| => sorted[i].(evidenceID := Some(i)))
  }

  /** Every numbered evidence row is an evidence row not of Type MSMS. */
  lemma PrepareEvidenceKeeps(evidence: seq<EvidenceRow>)
    ensures var r := PrepareEvidence(evidence);
      forall i :: 0 <= i < |r| ==> r[i].feature.evType != Some(MSMS) && r[i].(evidenceID := None) in Unnumbered(evidence)
  {
    var kept := NotMsms(evidence);
    var sorted := SortBy(kept, EvidenceKey);
    var r := PrepareEvidence(evidence);
    SortByCorrect(kept, EvidenceKey);
    forall i | 0 <= i < |r| ensures r[i].feature.evType != Some(MSMS) && r[i].(evidenceID := None) in Unnumbered(evidence) {
      assert sorted[i] in multiset(kept);
      UnnumberedHas(evidence, sorted[i]);
      assert r[i].(evidenceID := None) == sorted[i].(evidenceID := None);
    }
  }

  /** Every evidence row not of Type MSMS is numbered, with its position. */
  lemma PrepareEvidenceNumbers(evidence: seq<EvidenceRow>)
    ensures |PrepareEvidence(evidence)| == |NotMsms(evidence)|
    ensures var r := PrepareEvidence(evidence);
      forall e :: e in evidence && e.feature.evType != Some(MSMS) ==> exists i :: 0 <= i < |r| && r[i] == e.(evidenceID := Some(i))
  {
    var kept := NotMsms(evidence);
    var sorted := SortBy(kept, EvidenceKey);
    var r := PrepareEvidence(evidence);
    SortByCorrect(kept, EvidenceKey);
    forall e | e in evidence && e.feature.evType != Some(MSMS) ensures exists i :: 0 <= i < |r| && r[i] == e.(evidenceID := Some(i)) {
      assert e in multiset(sorted);
      var i :| 0 <= i < |sorted| && sorted[i] == e;
      assert r[i] == e.(evidenceID := Some(i));
    }
  }

  /** The numbering follows sequence, modified sequence, raw file and
      calibrated retention time start. */
  lemma PrepareEvidenceSorted(evidence: seq<EvidenceRow>)
    ensures SortedBy(PrepareEvidence(evidence), EvidenceKey)
  {
    var sorted := SortBy(NotMsms(evidence), EvidenceKey);
    SortByCorrect(NotMsms(evidence), EvidenceKey);
    var r := PrepareEvidence(evidence);
    assert forall i :: 0 <= i < |r| ==> EvidenceKey(r[i]) == EvidenceKey(sorted[i]);
  }

  /** The evidence rows with their evidence_ID left empty. */
  function Unnumbered(evidence: seq<EvidenceRow>): (r: seq<EvidenceRow>)
    ensures |r| == |evidence| && forall i :: 0 <= i < |r| ==> r[i] == evidence[i].(evidenceID := None)
  {
    seq(|evidence|, i requires 0 <= i < |evidence| => evidence[i].(evidenceID := None))
  }

  lemma UnnumberedHas(evidence: seq<EvidenceRow>, e: EvidenceRow)
    requires e in evidence
    ensures e.(evidenceID := None) in Unnumbered(evidence)
  {
    var i :| 0 <= i < |evidence| && evidence[i] == e;
    assert Unnumbered(evidence)[i] == e.(evidenceID := None);
  }

  /** `build_evidence`: number the evidence rows, assign each scan its
      evidence row, and fold the scans of each evidence_ID into one row. */
  function BuildEvidence(summary: seq<Psm>, evidence: seq<EvidenceRow>, allpeptides: seq<Precursor>, plex: nat,
                         on: (Psm, EvidenceRow) -> bool, csvUnique: string -> string): (r: Result<seq<EvidenceRecord>>)
    ensures r.Err? ==> r.error.ValueError?
  {
    match AssignEvidenceFeature(summary, PrepareEvidence(evidence), allpeptides, on)
    case Err(x) => Err(x)
    case Ok(rows) =>
      EvidenceColumnsFails(rows, plex, csvUnique);
      EvidenceColumns(rows, plex, csvUnique)
  }

  /** A built table has one row per evidence_ID of the scans, each id once,
      in sequence, modified sequence, raw file and charge order. */
  lemma BuildEvidenceRows(summary: seq<Psm>, evidence: seq<EvidenceRow>, allpeptides: seq<Precursor>, plex: nat,
                          on: (Psm, EvidenceRow) -> bool, csvUnique: string -> string)
    ensures var r := BuildEvidence(summary, evidence, allpeptides, plex, on, csvUnique);
      r.Ok? ==> SortedBy(r.value, RecordKey) && DistinctBy(r.value, RecordId)
    ensures var r := BuildEvidence(summary, evidence, allpeptides, plex, on, csvUnique);
      var a := AssignEvidenceFeature(summary, PrepareEvidence(evidence), allpeptides, on);
      r.Ok? ==> a.Ok? && RecordIds(r.value) == EvidenceIdSet(a.value)
  {
    var a := AssignEvidenceFeature(summary, PrepareEvidence(evidence), allpeptides, on);
    if a.Ok? {
      EvidenceColumnsRows(a.value, plex, csvUnique);
    }
  }

  /** Every scan of the summary reaches the evidence columns with an
      evidence_ID, so none is dropped by the grouping. */
  lemma BuildEvidenceAssigns(summary: seq<Psm>, evidence: seq<EvidenceRow>, allpeptides: seq<Precursor>,
                             on: (Psm, EvidenceRow) -> bool)
    ensures var a := AssignEvidenceFeature(summary, PrepareEvidence(evidence), allpeptides, on);
      a.Ok? ==> Ids(a.value) == Ids(summary) && |a.value| == |summary| && forall p :: p in a.value ==> p.evidenceID.Some?
  {
    FeatureRowsNumbered(summary, PrepareEvidence(evidence), allpeptides, on);
  }

  /** The raw files `groupby("Raw file")` visits, in sorted order. */
  function RawFiles(summary: seq<Psm>): (fs: seq<string>)
    ensures StrictlySortedStrings(fs)
    ensures forall f :: f in fs <==> exists p :: p in summary && p.rawFile == f
  {
    var names := seq(|summary|, i requires 0 <= i < |summary| => summary[i].rawFile);
    assert forall f :: (exists p :: p in summary && p.rawFile == f) ==> f in names by {
      forall f | exists p :: p in summary && p.rawFile == f ensures f in names {
        var p :| p in summary && p.rawFile == f;
        var i :| 0 <= i < |summary| && summary[i] == p;
        assert names[i] == f;
      }
    }
    SortedUniqueStrings(names)
  }

  /** The scans of one raw file, in table order. */
  function SummaryOf(summary: seq<Psm>, f: string): (g: seq<Psm>)
    ensures forall p :: p in g <==> p in summary && p.rawFile == f
    decreases |summary|
  {
    if summary == [] then []
    else
      assert forall p :: p in summary <==> p == summary[0] || p in summary[1..];
      (if summary[0].rawFile == f then [summary[0]] else []) + SummaryOf(summary[1..], f)
  }

  /** The evidence rows of one raw file, in table order. */
  function EvidenceOf(evidence: seq<EvidenceRow>, f: string): (g: seq<EvidenceRow>)
    ensures forall e :: e in g <==> e in evidence && e.rawFile == f
    decreases |evidence|
  {
    if evidence == [] then []
    else
      assert forall e :: e in evidence <==> e == evidence[0] || e in evidence[1..];
      (if evidence[0].rawFile == f then [evidence[0]] else []) + EvidenceOf(evidence[1..], f)
  }

  /** The allPeptides features of one raw file, in table order. */
  function PrecursorsOf(allpeptides: seq<Precursor>, f: string): (g: seq<Precursor>)
    ensures forall q :: q in g <==> q in allpeptides && q.rawFile == f
    decreases |allpeptides|
  {
    if allpeptides == [] then []
    else
      assert forall q :: q in allpeptides <==> q == allpeptides[0] || q in allpeptides[1..];
      (if allpeptides[0].rawFile == f then [allpeptides[0]] else []) + PrecursorsOf(allpeptides[1..], f)
  }

  /** A raw file is built only when evidence.txt and allPeptides.txt both
      have rows for it. */
  predicate Buildable(evidence: seq<EvidenceRow>, allpeptides: seq<Precursor>, f: string) {
    (exists e :: e in evidence && e.rawFile == f) && (exists q :: q in allpeptides && q.rawFile == f)
  }

  /** The files of `files` that are built, in order. */
  function KeptFiles(files: seq<string>, evidence: seq<EvidenceRow>, allpeptides: seq<Precursor>): (r: seq<string>)
    ensures forall f :: f in r <==> f in files && Buildable(evidence, allpeptides, f)
    ensures |r| <= |files|
    decreases |files|
  {
    if files == [] then []
    else
      var init := files[..|files| - 1];
      var last := files[|files| - 1];
      assert forall f :: f in files <==> f in init || f == last by {
        assert files == init + [last];
      }
      KeptFiles(init, evidence, allpeptides) + (if Buildable(evidence, allpeptides, last) then [last] else [])
  }

  /** The evidence table built for one raw file. */
  function BuildFile(summary: seq<Psm>, evidence: seq<EvidenceRow>, allpeptides: seq<Precursor>, plex: nat,
                     on: (Psm, EvidenceRow) -> bool, csvUnique: string -> string, f: string): Result<seq<EvidenceRecord>>
  {
    BuildEvidence(SummaryOf(summary, f), EvidenceOf(evidence, f), PrecursorsOf(allpeptides, f), plex, on, csvUnique)
  }

  /** `build_evidence` as the loop calls it, one raw file at a time. */
  function Builder(summary: seq<Psm>, evidence: seq<EvidenceRow>, allpeptides: seq<Precursor>, plex: nat,
                   on: (Psm, EvidenceRow) -> bool, csvUnique: string -> string): string -> Result<seq<EvidenceRecord>>
  {
    f => BuildFile(summary, evidence, allpeptides, plex, on, csvUnique, f)
  }

  /** The per-file tables of the loop over `files`; the first file whose
      build raises ends the loop with that error. */
  function BuiltFiles(build: string -> Result<seq<EvidenceRecord>>, evidence: seq<EvidenceRow>, allpeptides: seq<Precursor>,
                      files: seq<string>): (r: Result<seq<seq<EvidenceRecord>>>)
    decreases |files|
  {
    if files == [] then Ok([])
    else
      var last := files[|files| - 1];
      match BuiltFiles(build, evidence, allpeptides, files[..|files| - 1])
      case Err(x) => Err(x)
      case Ok(parts) =>
        if !Buildable(evidence, allpeptides, last) then Ok(parts)
        else
          match build(last)
          case Err(x) => Err(x)
          case Ok(t) => Ok(parts + [t])
  }

  /** `pd.concat(..., ignore_index=True)`. */
  function Concatenated(parts: seq<seq<EvidenceRecord>>): (r: seq<EvidenceRecord>)
    decreases |parts|
  {
    if parts == [] then [] else Concatenated(parts[..|parts| - 1]) + parts[|parts| - 1]
  }

  /** The loop over `files` followed by `pd.concat`; with no file to
      build, `pd.concat([])` raises. */
  function ConcatBuilt(build: string -> Result<seq<EvidenceRecord>>, evidence: seq<EvidenceRow>, allpeptides: seq<Precursor>,
                       files: seq<string>): (r: Result<seq<EvidenceRecord>>)
  {
    match BuiltFiles(build, evidence, allpeptides, files)
    case Err(x) => Err(x)
    case Ok(parts) => if parts == [] then Err(ValueError("No objects to concatenate")) else Ok(Concatenated(parts))
  }

  /** `build_evidence_grouped` on one thread, as a value. */
  function EvidenceGrouped(summary: seq<Psm>, evidence: seq<EvidenceRow>, allpeptides: seq<Precursor>, plex: nat,
                           on: (Psm, EvidenceRow) -> bool, csvUnique: string -> string): (r: Result<seq<EvidenceRecord>>)
  {
    ConcatBuilt(Builder(summary, evidence, allpeptides, plex, on, csvUnique), evidence, allpeptides, RawFiles(summary))
  }

  /** When no build raises, the loop yields one table per raw file that all
      three inputs share, in file order, each built from that file's rows
      alone. */
  lemma {:induction false} BuiltFilesRules(build: string -> Result<seq<EvidenceRecord>>, evidence: seq<EvidenceRow>,
                                           allpeptides: seq<Precursor>, files: seq<string>)
    ensures var r := BuiltFiles(build, evidence, allpeptides, files);
      var kept := KeptFiles(files, evidence, allpeptides);
      r.Ok? ==> (|r.value| == |kept| && forall j :: 0 <= j < |kept| ==> build(kept[j]) == Ok(r.value[j]))
    ensures BuiltFiles(build, evidence, allpeptides, files).Err? <==>
      exists f :: f in KeptFiles(files, evidence, allpeptides) && build(f).Err?
    ensures BuiltFiles(build, evidence, allpeptides, files).Err? ==>
      exists f :: f in KeptFiles(files, evidence, allpeptides) && build(f) == Err(BuiltFiles(build, evidence, allpeptides, files).error)
    decreases |files|
  {
    if files != [] {
      var init := files[..|files| - 1];
      var last := files[|files| - 1];
      BuiltFilesRules(build, evidence, allpeptides, init);
      assert KeptFiles(files, evidence, allpeptides) ==
        KeptFiles(init, evidence, allpeptides) + (if Buildable(evidence, allpeptides, last) then [last] else []);
    }
  }

  /** The grouped build fails when no file is shared by all three inputs,
      and otherwise fails exactly when the build of a shared file fails; a
      result is the per-file tables concatenated in file order. */
  lemma ConcatBuiltRules(build: string -> Result<seq<EvidenceRecord>>, evidence: seq<EvidenceRow>, allpeptides: seq<Precursor>,
                         files: seq<string>)
    ensures (forall f :: f in files ==> !Buildable(evidence, allpeptides, f)) ==>
      ConcatBuilt(build, evidence, allpeptides, files) == Err(ValueError("No objects to concatenate"))
    ensures var kept := KeptFiles(files, evidence, allpeptides);
      ConcatBuilt(build, evidence, allpeptides, files).Ok? <==> kept != [] && forall f :: f in kept ==> build(f).Ok?
    ensures var kept := KeptFiles(files, evidence, allpeptides);
      var r := ConcatBuilt(build, evidence, allpeptides, files);
      r.Ok? ==> exists parts: seq<seq<EvidenceRecord>> ::
        (|parts| == |kept| && r.value == Concatenated(parts) && forall j :: 0 <= j < |kept| ==> build(kept[j]) == Ok(parts[j]))
  {
    var kept := KeptFiles(files, evidence, allpeptides);
    BuiltFilesRules(build, evidence, allpeptides, files);
    if kept != [] {
      assert kept[0] in kept;
    }
  }

  /** `build_evidence_grouped` on one thread: the loop over the raw files of
      the summary, skipping those evidence.txt or allPeptides.txt lacks. */
  method BuildEvidenceGrouped(summary: seq<Psm>, evidence: seq<EvidenceRow>, allpeptides: seq<Precursor>, plex: nat,
                              on: (Psm, EvidenceRow) -> bool, csvUnique: string -> string)
    returns (r: Result<seq<EvidenceRecord>>)
    ensures r == EvidenceGrouped(summary, evidence, allpeptides, plex, on, csvUnique)
  {
    var build := Builder(summary, evidence, allpeptides, plex, on, csvUnique);
    var files := RawFiles(summary);
    var evidences: seq<seq<EvidenceRecord>> := [];
    var i := 0;
    while i < |files|
      invariant 0 <= i <= |files|
      invariant BuiltFiles(build, evidence, allpeptides, files[..i]) == Ok(evidences)
    {
      var f := files[i];
      BuiltFilesStep(build, evidence, allpeptides, files, i, evidences);
      if !(exists e :: e in evidence && e.rawFile == f) {
        i := i + 1;
        continue;
      }
      if !(exists q :: q in allpeptides && q.rawFile == f) {
        i := i + 1;
        continue;
      }
      var built := BuildEvidence(SummaryOf(summary, f), EvidenceOf(evidence, f), PrecursorsOf(allpeptides, f), plex, on, csvUnique);
      assert built == build(f);
      if built.Err? {
        BuiltFilesErr(build, evidence, allpeptides, files, i + 1);
        return Err(built.error);
      }
      evidences := evidences + [built.value];
      i := i + 1;
    }
    assert files[..i] == files;
    if evidences == [] {
      return Err(ValueError("No objects to concatenate"));
    }
    r := Ok(Concatenated(evidences));
  }

  /** One more file of the loop: skipped, built, or the error it raises. */
  lemma BuiltFilesStep(build: string -> Result<seq<EvidenceRecord>>, evidence: seq<EvidenceRow>, allpeptides: seq<Precursor>,
                       files: seq<string>, i: nat, parts: seq<seq<EvidenceRecord>>)
    requires i < |files|
    requires BuiltFiles(build, evidence, allpeptides, files[..i]) == Ok(parts)
    ensures var f := files[i];
      var next := BuiltFiles(build, evidence, allpeptides, files[..i + 1]);
      next == if !Buildable(evidence, allpeptides, f) then Ok(parts)
        else if build(f).Err? then Err(build(f).error) else Ok(parts + [build(f).value])
  {
    assert files[..i + 1][..i] == files[..i];
  }

  /** An error in the loop survives the files after it. */
  lemma {:induction false} BuiltFilesErr(build: string -> Result<seq<EvidenceRecord>>, evidence: seq<EvidenceRow>,
                                         allpeptides: seq<Precursor>, files: seq<string>, i: nat)
    requires i <= |files|
    requires BuiltFiles(build, evidence, allpeptides, files[..i]).Err?
    ensures BuiltFiles(build, evidence, allpeptides, files) == BuiltFiles(build, evidence, allpeptides, files[..i])
    decreases |files| - i
  {
    if i < |files| {
      assert files[..i + 1][..i] == files[..i];
      BuiltFilesErr(build, evidence, allpeptides, files, i + 1);
    } else {
      assert files[..i] == files;
    }
  }
}
