# SIMSI-Transfer identity transfer and evidence assembly, in Dafny

SIMSI-Transfer clusters the MS2 spectra of several TMT runs with MaRaCluster.
It then hands the peptide identification of a cluster's identified scans to
the cluster's unidentified scans, and rebuilds MaxQuant's `evidence.txt` from
the enlarged scan table. This project models the core of that pipeline and
proves what each step promises.

Tables are sequences of typed rows. A missing pandas value (NaN) is an
`Option` that is `None`. Peptide strings are `seq<char>`. m/z values,
probabilities and intensities are `real`.

The modules follow the source files:

- `Consensus` models `simsi_transfer/transfer.py` for one cluster:
  - the ambiguity check;
  - the isomer annotation `<seq>.<N>.<positions>`, built as `transfer.py`
    builds it, with its own `remove_modifications` that deletes each
    phosphorylated residue along with its annotation;
  - the majority decision;
  - a corrected annotation beside it, which keeps the residues, and the
    order dependence that separates the two.
- `Probabilities` models `calculate_average_probabilities`, with its two loops
  as methods. `ProbText` supplies the two regular expressions it uses.
- `Transfer` models `transfer` and `flag_ambiguous_clusters` of
  `transfer.py`. Both are methods that update an `array` of scans in place.
- `Evidence` models `simsi_transfer/evidence.py`:
  - the retention-time window;
  - precursor matching;
  - removal of duplicate MS2 scans;
  - numbering of evidence ids;
  - the per-evidence reducer table;
  - the per-raw-file build loop.
- `Utils` models `simsi_transfer/utils/utils.py`.
- `Processing` models the string helpers of
  `simsi_transfer/processing_functions.py`.
- `Legacy` models the older `transfer`, `flag_ambiguous_clusters`,
  `assign_evidence_feature` and `remove_unidentified_scans` kept in
  `processing_functions.py`.
- `Peptides` is a token model of MaxQuant modified sequences, used to state
  round trips:
  - `_` for a terminus;
  - a residue letter;
  - `(Phospho (STY))`, `(Acetyl (Protein N-term))` and `(Oxidation (M))`.
- `Strings` and `Sorting` model the Python string operations and pandas
  `sort_values`. `Wrappers` holds `Option` and `Result`.

Python exceptions are `Err` values of a `Result`. They carry the exception
class: `ValueError`, `IndexError` or `TypeError`.

Three facts the proofs bring out about the source:

- The `summary_ID` uniqueness check of `assign_evidence_feature` can never
  fail once duplicates have been removed.
  - For `evidence.py` this is `Evidence.AssignEvidenceFeatureOutcome`.
  - For the older version it is `Legacy.AssignEvidenceFeatureOutcome`.
  - The row-count check fails exactly when the input already repeats a
    `summary_ID`.
- `build_evidence_grouped` numbers evidence rows from 0 within each raw
  file, so evidence ids are unique per raw file, not across the
  concatenated table.
- In the older `assign_evidence_feature`, the second filter
  (`keep=False`) removes nothing that the first filter (`keep='first'`)
  left duplicated among the non-MULTI-MSMS rows. `Legacy.UnrepeatedIds` proves this.

Where the project's own description and its code disagree, the model
follows the code:

- `groupby(...).agg('sum')` over an all-NaN group gives 0, not NaN.
- The version of `transfer.py` modelled here has no PEP filter.
- The positions in the isomer annotation are 1-based offsets into the
  lower-cased modified sequence. That string still holds the `_` and the other
  annotation text.

## Model

| member | source | states |
|---|---|---|
| Utils.RemoveNanValues | simsi_transfer/utils/utils.py:55-61 | keeps exactly the present values: every present input is in the result and every result value was present |
| Utils.RemoveNanValuesAppend | simsi_transfer/utils/utils.py:55-61 | removal distributes over concatenation, so input order is kept |
| Utils.RemoveNanValuesPresent | simsi_transfer/utils/utils.py:55-61 | a list with no NaN comes back unchanged |
| Utils.Distinct | simsi_transfer/utils/utils.py:49 | `set(...)` as a duplicate-free list with the same members |
| Utils.DistinctValues | simsi_transfer/utils/utils.py:49 | `remove_nan_values(set(x))`: duplicate-free, and holds v exactly when Some(v) is an input |
| Utils.DistinctValuesSingle | simsi_transfer/utils/utils.py:49-52 | one distinct present value v exactly when v is the only present value |
| Utils.DistinctValuesFirst | simsi_transfer/utils/utils.py:49 | the first distinct value is the first present input |
| Utils.GetUniqueElseNan | simsi_transfer/utils/utils.py:43-52 | returns v exactly when v is the only present value, otherwise NaN (empty and all-NaN inputs included) |
| Utils.Flatten | simsi_transfer/utils/utils.py:40 | its members are exactly the f(x) over the inputs |
| Utils.ApplyAndFlatten | simsi_transfer/utils/utils.py:38-40 | strictly sorted, and its members are exactly the union of f(x) over the inputs |
| Utils.CsvListUnique | simsi_transfer/utils/utils.py:8-18 | NaN exactly when every input is NaN; the single distinct value comes back unsplit |
| Utils.CsvListUniqueParts | simsi_transfer/utils/utils.py:8-18 | with two or more distinct values, the result's `;`-fields are strictly sorted and are exactly the fields of the inputs |
| Utils.SumConstant | simsi_transfer/transfer.py:45-46 | the sum of n equal values v is n * v (used by the mean) |
| Utils.RemoveModifications | simsi_transfer/utils/utils.py:64-71 | the full removal leaves no `_`; a string without annotations is unchanged |
| Utils.DropRender | simsi_transfer/utils/utils.py:65 | deleting one annotation's text from a rendered sequence drops exactly that token and keeps the residues |
| Utils.RemoveModificationsRender | simsi_transfer/utils/utils.py:64-71 | phospho-only removal renders the sequence without its phospho tokens; the full removal gives the bare residues |
| Peptides.Drop | simsi_transfer/utils/utils.py:65 | the tokens without one annotation: none of it remains and every other token stays |
| Peptides.ReplaceRender | simsi_transfer/utils/utils.py:65-69 | `str.replace` of an annotation's text on a rendered sequence renders the tokens without that annotation |
| Peptides.DropResidues | simsi_transfer/utils/utils.py:65-69 | deleting an annotation keeps the residues and every residue token |
| Peptides.SubSitesRender | simsi_transfer/transfer.py:81 | the `PHOSPHO_REGEX` substitution rewrites exactly the phosphorylated residues of a rendered sequence |
| Peptides.UpperLowered | simsi_transfer/transfer.py:81-83 | upper-casing the lowered form equals upper-casing the sequence without its phospho annotations |
| Peptides.UpperRenderInjective | simsi_transfer/transfer.py:83-84 | phospho-free sequences with equal upper-cased renderings are equal |
| Peptides.IsomerTest | simsi_transfer/transfer.py:81-85 | two sequences pass the `sequences` check exactly when they are equal once their phospho annotations are dropped |
| Peptides.CountSitesLowered | simsi_transfer/transfer.py:154 | the `[sty]` count of the lowered form is the number of phospho sites |
| Consensus.LowerAll | simsi_transfer/transfer.py:81 | each sequence with its phospho residues lower-cased and the annotation deleted |
| Consensus.CompareForms | simsi_transfer/transfer.py:81-90 | the comparison form of each value, for both check types |
| Consensus.OneDistinct | simsi_transfer/transfer.py:84 | a set of forms has one element exactly when all forms are equal |
| Consensus.AgreeForms | simsi_transfer/transfer.py:83-90 | one distinct comparison form exactly when all present values agree |
| Consensus.FormsOfAgreeing | simsi_transfer/transfer.py:83-90 | agreeing values have equal comparison forms |
| Consensus.AgreeOfForms | simsi_transfer/transfer.py:83-90 | equal comparison forms mean the values agree |
| Consensus.CompareFormRender | simsi_transfer/transfer.py:81-83 | the comparison form of a rendered sequence is the upper-cased form with phospho residues lowered |
| Consensus.CheckAmbiguity | simsi_transfer/transfer.py:74-91 | (nan, nan) exactly when nothing is present or two values disagree; a single value exactly when it is the only present value; otherwise the distinct values and their lowered forms |
| Consensus.SiteOffsets | simsi_transfer/transfer.py:155 | the 1-based offsets of `s`, `t` and `y` in a lowered sequence |
| Consensus.AllSiteOffsets | simsi_transfer/transfer.py:155 | the union of those offsets over all lowered sequences |
| Consensus.SitePositions | simsi_transfer/transfer.py:155-156 | strictly ascending, and exactly the union of the site offsets |
| Consensus.PositionsText | simsi_transfer/transfer.py:157 | holds no `.`, is empty exactly when there are no positions, and splits on `/` into one `p<k>` entry per position, in order |
| Consensus.ReadPositionText | simsi_transfer/transfer.py:157 | each `p<k>` entry reads back as the position k |
| Consensus.JoinNoChar | simsi_transfer/transfer.py:157 | joining parts that lack a character never introduces it |
| Consensus.GenerateModifiedSequenceAnnotation | simsi_transfer/transfer.py:152-165 | starts with the first sequence after `transfer.py`'s own phospho removal and a `.`; has three `.`-fields when that head holds no `.` |
| Consensus.AnnotationDecode | simsi_transfer/transfer.py:152-165 | the three `.`-fields are the as-written head, the site count of the first lowered sequence (which parses back), and a position list that is empty exactly when there are no sites and whose `/`-entries read back as the sorted site positions |
| Consensus.AnnotationHead | simsi_transfer/transfer.py:158-165 | for a rendered first sequence, the head is that sequence with every phosphorylated residue deleted together with its annotation |
| Consensus.GetConsensusModifiedSequence | simsi_transfer/transfer.py:128-137 | NaN exactly when nothing is present or two values disagree; a single value comes back unchanged; with several isomers, the annotation of the distinct values |
| Consensus.AgreeRendered | simsi_transfer/transfer.py:81-85 | well-formed sequences agree exactly when they are equal once their phospho sites are dropped |
| Consensus.ConsensusOfIsomers | simsi_transfer/transfer.py:128-137 | the consensus exists exactly when all sequences are phospho isomers of one another |
| Consensus.IsomerAnnotationHead | simsi_transfer/transfer.py:136-165 | for several isomers, the consensus starts with the first present value after the as-written removal |
| Consensus.ConsensusPrefix | simsi_transfer/transfer.py:136-165 | for several rendered isomers, the consensus starts with the first member's residues minus its phosphorylated ones |
| Consensus.Leader | simsi_transfer/transfer.py:149 | a most frequent element of a prefix, the first of its count |
| Consensus.MostCommon | simsi_transfer/transfer.py:149 | `Counter.most_common(1)`: a value of maximal count; earlier values have strictly smaller counts |
| Consensus.GetModifiedSequenceDecision | simsi_transfer/transfer.py:140-149 | NaN exactly when nothing is present or two values disagree; a single value is kept; any result is one of the inputs |
| Consensus.DecisionIsMajority | simsi_transfer/transfer.py:148-149 | for isomers, the decision has maximal frequency among the present values, and ties go to the first in input order |
| Consensus.AsWrittenDropsSites | simsi_transfer/transfer.py:162-165 | as written, the phospho-only removal deletes each phosphorylated residue together with its annotation |
| Consensus.AsWrittenFirstIsomer | simsi_transfer/transfer.py:163 | as written, `_X(Phospho (STY))Y_` loses X |
| Consensus.AsWrittenSecondIsomer | simsi_transfer/transfer.py:163 | as written, `_XY(Phospho (STY))_` loses Y |
| Consensus.CorrectedFirstIsomer | simsi_transfer/utils/utils.py:65-67 | the corrected removal keeps both residues of the first isomer |
| Consensus.CorrectedSecondIsomer | simsi_transfer/utils/utils.py:65-67 | the corrected removal keeps both residues of the second isomer |
| Consensus.IsomerPair | simsi_transfer/transfer.py:128-137 | two rendered isomers of one peptide have two distinct values and a consensus |
| Consensus.PairHead | simsi_transfer/transfer.py:136-165 | the consensus of a pair starts with the first member's as-written head |
| Consensus.AsWrittenOrderDependent | simsi_transfer/transfer.py:136-165 | as written, `_X(Phospho (STY))Y_` then `_XY(Phospho (STY))_` gives the head `_Y_`, and the reverse order gives `_X_` |
| Consensus.CorrectedAnnotation | simsi_transfer/utils/utils.py:64-71 | the corrected annotation starts with the first sequence minus only its phospho annotations and a `.` |
| Consensus.CorrectedConsensusModifiedSequence | simsi_transfer/transfer.py:128-137 | NaN exactly when the as-written consensus is NaN; a single value comes back unchanged |
| Consensus.CorrectedConsensusPrefix | simsi_transfer/utils/utils.py:64-71 | for several rendered isomers, the corrected consensus starts with the phospho-free rendering shared by every member |
| Consensus.CorrectedPairHead | simsi_transfer/utils/utils.py:64-71 | the corrected consensus of a pair starts with its shared phospho-free rendering |
| Consensus.CorrectedOrderIndependent | simsi_transfer/utils/utils.py:64-71 | corrected, both orders of the pair give the head `_XY_` |
| ProbText.DigitRun | simsi_transfer/transfer.py:105 | the length of the leading run of digits |
| ProbText.MatchAt | simsi_transfer/transfer.py:87 | a match of either probability pattern starts with `(` and spans at least three characters |
| ProbText.SplitProbabilities | simsi_transfer/transfer.py:110 | `re.split` with one group: an odd number of parts, and every odd part is a number |
| ProbText.NumberValue | simsi_transfer/transfer.py:116 | `float` of a probability is never negative |
| ProbText.MatchNumber | simsi_transfer/transfer.py:105 | a bracketed number is matched whole |
| ProbText.StripNumber | simsi_transfer/transfer.py:106 | a bracketed number at the front is removed whole |
| ProbText.StripRender | simsi_transfer/transfer.py:106 | `re.sub(pattern, '', s)` removes exactly the bracketed numbers and keeps the sequence |
| Probabilities.ProbabilityDict | simsi_transfer/transfer.py:110-117 | the inner loop builds the position-to-probability dictionary of one string and its keys in insertion order |
| Probabilities.ProbKeys | simsi_transfer/transfer.py:113-116 | the keys the inner loop records are exactly the dictionary's keys |
| Probabilities.PartsKeysDict | simsi_transfer/transfer.py:113-116 | the collected keys are exactly the dictionary's keys |
| Probabilities.PartsDictNonNegative | simsi_transfer/transfer.py:116 | every probability read is non-negative |
| Probabilities.DictsNonNegative | simsi_transfer/transfer.py:116 | every dictionary of the list holds non-negative probabilities |
| Probabilities.AllKeys | simsi_transfer/transfer.py:108-117 | exactly the positions found in some string |
| Probabilities.ReduceTotal | simsi_transfer/transfer.py:118 | the `Counter` sum holds a position exactly when its total is positive, with that total as its value |
| Probabilities.ReduceKeys | simsi_transfer/transfer.py:118 | every position of the sum comes from some member |
| Probabilities.CollectDicts | simsi_transfer/transfer.py:108-117 | the outer loop collects one dictionary per string and every key seen |
| Probabilities.KeysIn | simsi_transfer/transfer.py:119 | `sorted(...)` of the result's keys: ascending, and exactly the keys present |
| Probabilities.SortedKeys | simsi_transfer/transfer.py:119 | the result's keys in ascending order |
| Probabilities.ResultKeys | simsi_transfer/transfer.py:118-119 | every key of the sum is among the keys seen |
| Probabilities.Entries | simsi_transfer/transfer.py:119 | each kept position with `round(total / tots, 3)` |
| Probabilities.EntriesTotals | simsi_transfer/transfer.py:119 | over ascending keys of the summed dictionary, positions ascend, appear exactly when their total is positive, and carry the total divided by the count |
| Probabilities.AveragedEntries | simsi_transfer/transfer.py:118-119 | positions ascend; a position appears exactly when its total is positive; each value is the total divided by the member count |
| Probabilities.InsertAverages | simsi_transfer/transfer.py:120-121 | the reversed insertion loop builds exactly `InsertDescending` of the entries |
| Probabilities.AverageProbabilities | simsi_transfer/transfer.py:94-125 | NaN exactly when nothing is present or the stripped strings differ; a single string comes back unchanged |
| Probabilities.CalculateAverageProbabilities | simsi_transfer/transfer.py:94-125 | the two loops return exactly `AverageProbabilities` of the input |
| Probabilities.SplitRender | simsi_transfer/transfer.py:110 | splitting a rendered probability string gives its plain segments and numbers in order |
| Probabilities.SegmentsDict | simsi_transfer/transfer.py:110-116 | walking the split parts accumulates the same dictionary as walking the tokens |
| Probabilities.ProbDictRender | simsi_transfer/transfer.py:110-116 | the dictionary of a rendered string is the one its tokens define |
| Probabilities.TokenDictKeys | simsi_transfer/transfer.py:114-116 | a key is present exactly when a number follows that many sequence characters |
| Probabilities.TokenDictBound | simsi_transfer/transfer.py:115 | every key lies within the sequence length |
| Probabilities.InsertRoundTrip | simsi_transfer/transfer.py:120-121 | inserting numbers at ascending positions in descending order, then stripping them, gives back the bare sequence |
| Probabilities.InsertInvariant | simsi_transfer/transfer.py:120-121 | the invariant of the insertion loop |
| Probabilities.SameSequenceAgree | simsi_transfer/transfer.py:86-90 | strings over the same bare sequence pass the `probabilities` ambiguity check |
| Probabilities.SameSequenceKeys | simsi_transfer/transfer.py:115-119 | every averaged position lies within that sequence |
| Probabilities.AverageRoundTrip | simsi_transfer/transfer.py:94-125 | strings over one bare sequence average to a string whose stripped form is that sequence |
| Probabilities.AveragedRoundTrip | simsi_transfer/transfer.py:103-125 | the same for two or more present strings |
| Transfer.ClusterIdentities | simsi_transfer/transfer.py:55 | the identity columns of exactly the identified scans of a cluster |
| Transfer.Aggregate | simsi_transfer/transfer.py:37-53 | the modified-sequence column is NaN exactly when the reducer gives NaN; a single value is kept; with the decision it is one of the cluster's values; without it, two or more distinct values give their annotation |
| Transfer.AggregateColumns | simsi_transfer/transfer.py:37-53 | each `get_unique_else_nan` column holds v exactly when v is its only present value; m/z and Mass are present exactly when some value is, and equal it when it is the only one; the probabilities are NaN exactly when none is present, and a single one is kept |
| Transfer.Mean | simsi_transfer/transfer.py:45-46 | `'mean'` skips NaN and is NaN exactly when nothing is present |
| Transfer.MeanConstant | simsi_transfer/transfer.py:45-46 | the mean of copies of one value is that value |
| Transfer.Transfer | simsi_transfer/transfer.py:55-70 | the in-place procedure leaves exactly `TransferAll` of the old rows |
| Transfer.IdentifiedCluster | simsi_transfer/transfer.py:55 | a cluster with an identified scan is among the grouped clusters |
| Transfer.TransferRules | simsi_transfer/transfer.py:55-70 | `d` exactly for identified rows, which keep their identity; `t` exactly for unidentified rows of a cluster with a consensus, which take the consensus columns; NaN otherwise, with the identity kept; every other field of the row is unchanged |
| Transfer.ClusterModSeqsPresent | simsi_transfer/transfer.py:55 | every modified sequence of a cluster comes from one of its rows |
| Transfer.TransferredClusterAgrees | simsi_transfer/transfer.py:53-59 | without the decision, a `t` row's cluster has a present modified sequence and all its sequences agree |
| Transfer.TransferredDecisionFromCluster | simsi_transfer/transfer.py:51-59 | with the decision, a `t` row's sequence is one found in its cluster |
| Transfer.TransferUnique | simsi_transfer/transfer.py:55-68 | a cluster with one modified sequence transfers that sequence |
| Transfer.ClusterColumn | simsi_transfer/transfer.py:203 | the column values of exactly the rows of one cluster |
| Transfer.TwoOrMoreMeans | simsi_transfer/transfer.py:203-206 | `nunique >= 2` exactly when two different values are present |
| Transfer.FlagAmbiguousClusters | simsi_transfer/transfer.py:194-226 | the in-place procedure leaves exactly `FlagAll` of the old rows |
| Transfer.TwoOrMoreColumn | simsi_transfer/transfer.py:203-217 | a cluster counts as ambiguous exactly when two of its rows carry different values |
| Transfer.FlagRules | simsi_transfer/transfer.py:203-226 | raw flag exactly for raw-ambiguous clusters; mod flag exactly for mod-ambiguous clusters that are not raw-ambiguous; never both; every other field, raw file and scan number included, is unchanged |
| Evidence.TypedRowRules | simsi_transfer/evidence.py:17-37 | MULTI-MSMS exactly inside the calibrated window, where the row is otherwise unchanged; MSMS outside, with Type and the calibrated columns cleared |
| Evidence.AssignEvidenceType | simsi_transfer/evidence.py:13-38 | every row of the array is replaced by its typed row |
| Evidence.TypedRows | simsi_transfer/evidence.py:17-37 | the typed table, row by row |
| Evidence.PpmDiff | simsi_transfer/evidence.py:72-73 | undefined exactly when the first m/z is zero |
| Evidence.PpmBelowDistance | simsi_transfer/evidence.py:72-73 | below tolerance exactly when \|mz1 - mz2\| * 10^6 < tol * mz1; the difference is non-negative and zero for equal values |
| Evidence.MatchPrecursor | simsi_transfer/evidence.py:87-97 | MULTI-MSMS exactly when some feature is within 20 ppm and its scan range holds the MS scan, with the intensity of the first such feature in table order; otherwise (MSMS, NaN) |
| Evidence.InGroup | simsi_transfer/evidence.py:48-50 | the features of one (raw file, charge) group |
| Evidence.GroupFeatures | simsi_transfer/evidence.py:47-50 | a key is present exactly when some feature has it, and maps to its non-empty group |
| Evidence.MatchPrecursorGroupedRule | simsi_transfer/evidence.py:76-97 | MULTI-MSMS exactly when a feature of the same raw file and charge matches; a scan without a group stays (MSMS, NaN) |
| Evidence.WithPrecursorRules | simsi_transfer/evidence.py:52-61 | only MSMS rows change, and only their type and intensity; MULTI-MSMS exactly when a precursor matches |
| Evidence.AssignMissingPrecursors | simsi_transfer/evidence.py:41-69 | every row of the array is replaced by its row with precursor |
| Evidence.WithPrecursors | simsi_transfer/evidence.py:52-61 | the table with precursors, row by row |
| Evidence.IdsCount | simsi_transfer/evidence.py:144 | `nunique() == len` exactly when the summary ids are distinct |
| Evidence.SameIds | simsi_transfer/evidence.py:138-145 | tables with the same id column have the same ids and the same distinctness |
| Evidence.DropDuplicateIds | simsi_transfer/evidence.py:108 | `drop_duplicates(keep='first')`: distinct ids, the same id set, and each kept row is the first with its id |
| Evidence.RemoveDuplicateMsms | simsi_transfer/evidence.py:100-109 | one row per summary id, the same id set, only input rows |
| Evidence.RemoveDuplicateMsmsKeepsFirst | simsi_transfer/evidence.py:105-108 | the kept row sorts no later than any row with its id |
| Evidence.DuplicateKeyOrder | simsi_transfer/evidence.py:105-107 | MULTI-MSMS sorts before MSMS; within a type, a lower calibrated time sorts first and NaN sorts last |
| Evidence.RemoveDuplicateMsmsPrefers | simsi_transfer/evidence.py:100-109 | MULTI-MSMS is preferred, then the lowest calibrated retention time |
| Evidence.MaxInt | simsi_transfer/evidence.py:118 | `max()` skipping NaN: NaN exactly when nothing is present, otherwise a present maximum |
| Evidence.MissingCount | simsi_transfer/evidence.py:119 | the number of missing ids |
| Evidence.MissingCountGrows | simsi_transfer/evidence.py:121 | missing ids receive strictly increasing numbers in table order |
| Evidence.FilledIds | simsi_transfer/evidence.py:116-121 | `range(start, end)` assigned to the missing rows, one per row |
| Evidence.FilledIdsRules | simsi_transfer/evidence.py:116-121 | every row gets an id; existing ids are unchanged; new ids are consecutive from `next` and differ from every existing id |
| Evidence.FillIds | simsi_transfer/evidence.py:112-123 | fails with ValueError exactly when every id is missing (`int(NaN)`); otherwise keeps the length and the summary ids |
| Evidence.FillIdsRules | simsi_transfer/evidence.py:116-122 | every id is filled; existing rows are unchanged; new ids exceed every existing id and are pairwise distinct |
| Evidence.FillMissingEvidenceIds | simsi_transfer/evidence.py:112-123 | the in-place procedure leaves `FillIds` of the old table, or the table unchanged with the error |
| Evidence.NumberMissing | simsi_transfer/evidence.py:121 | the numbering loop leaves exactly `FilledIds` of the old table |
| Evidence.Matching | simsi_transfer/evidence.py:132 | the evidence rows a scan joins with |
| Evidence.JoinRow | simsi_transfer/evidence.py:132 | a left join keeps every scan at least once, under its own id |
| Evidence.LeftJoin | simsi_transfer/evidence.py:132 | the left join keeps the id set and loses no row |
| Evidence.LeftJoinOneToOne | simsi_transfer/evidence.py:132 | with at most one match per scan, one output row per scan that differs only in its evidence columns |
| Evidence.FeatureRows | simsi_transfer/evidence.py:130-145 | the merged, typed, de-duplicated, matched and numbered table has distinct ids and the input's id set |
| Evidence.FeatureRowsNumbered | simsi_transfer/evidence.py:136 | every row then has an evidence id |
| Evidence.AssignEvidenceFeature | simsi_transfer/evidence.py:126-151 | success keeps the row count and distinct ids, holds exactly the rows of that table, and is sorted by sequence and modified sequence; failure is a ValueError |
| Evidence.AssignEvidenceFeatureOutcome | simsi_transfer/evidence.py:138-145 | the numbered rows always have distinct ids, so it succeeds exactly when the input summary ids are distinct and the ids could be filled |
| Evidence.FirstPresent | simsi_transfer/evidence.py:177-213 | `'first'` skips NaN: NaN exactly when all are NaN, otherwise the first present value |
| Evidence.FirstText | simsi_transfer/evidence.py:179-206 | the first present value of a text column |
| Evidence.FirstReal | simsi_transfer/evidence.py:212-219 | the first present value of a real column |
| Evidence.FirstInt | simsi_transfer/evidence.py:182-211 | the first present value of an integer column |
| Evidence.MinPresent | simsi_transfer/evidence.py:214-220 | `'min'` skips NaN: a present value no greater than any other |
| Evidence.MaxPresent | simsi_transfer/evidence.py:230-233 | `'max'` skips NaN: a present value no smaller than any other |
| Evidence.ZeroToNull | simsi_transfer/evidence.py:157-159 | zeros and NaN become NaN; every other value is kept |
| Evidence.ZeroToNullSum | simsi_transfer/evidence.py:157-159 | turning zeros into NaN leaves every sum unchanged |
| Evidence.CountPresentRule | simsi_transfer/evidence.py:249-254 | `'count'` is the group size minus the NaN entries |
| Evidence.ReporterCount | simsi_transfer/evidence.py:157-159 | after zero-to-NaN, a reporter count excludes both NaN and zero intensities |
| Evidence.TransferredCountRule | simsi_transfer/evidence.py:259-276 | the concatenated identification letters are NaN exactly when every value is NaN; otherwise their `t` count is the number of `t` rows |
| Evidence.LettersEmpty | simsi_transfer/evidence.py:259-261 | the letter sum is empty exactly when every identification is NaN |
| Evidence.NullZerosAll | simsi_transfer/evidence.py:159 | zeros become NaN in every reporter column of every row |
| Evidence.Prepared | simsi_transfer/evidence.py:157-162 | zero-to-NaN followed by the stable sort keeps the row count |
| Evidence.PreparedMembers | simsi_transfer/evidence.py:157-162 | the prepared rows are exactly the zero-to-NaN forms of the summary rows |
| Evidence.EvidenceIds | simsi_transfer/evidence.py:171 | the group keys, strictly ascending, exactly the present evidence ids |
| Evidence.GroupOf | simsi_transfer/evidence.py:171 | the rows of one evidence id |
| Evidence.ReducedOf | simsi_transfer/evidence.py:214-261 | one count and one sum per reporter channel |
| Evidence.ExtremaRules | simsi_transfer/evidence.py:214-233 | PEP and mass error take a present minimum; Score and Delta score take a present maximum |
| Evidence.MinColumnRules | simsi_transfer/evidence.py:214-220 | the minimum of a column is a present value below every present value |
| Evidence.MaxColumnRules | simsi_transfer/evidence.py:230-233 | the maximum of a column is a present value above every present value |
| Evidence.CountRules | simsi_transfer/evidence.py:221-261 | MS/MS count is the group size; reporter counts exclude NaN; the transferred count is the number of `t` rows |
| Evidence.NullZerosSum | simsi_transfer/evidence.py:157-159 | the channel sums are the same with or without zero-to-NaN |
| Evidence.AggregateAll | simsi_transfer/evidence.py:171-263 | one record per evidence id, in ascending id order |
| Evidence.CompletedRules | simsi_transfer/evidence.py:283-303 | Fraction NaN becomes -1 with Experiment `UNKNOWN`; contaminant is `+` exactly when Proteins contains `CON__`, otherwise empty; nothing else changes |
| Evidence.CompleteEvidence | simsi_transfer/evidence.py:283-303 | every record of the array is replaced by its completed record |
| Evidence.CompletedAll | simsi_transfer/evidence.py:283-303 | the completed table, record by record |
| Evidence.Int8 | simsi_transfer/evidence.py:291-299 | `int8` wraps modulo 256 into [-128, 128) and keeps values already in range |
| Evidence.CastRecord | simsi_transfer/evidence.py:291-299 | the cast succeeds exactly when Length, Missed cleavages, Fraction and Charge are present, and wraps each of them |
| Evidence.CastAll | simsi_transfer/evidence.py:291-299 | the table cast succeeds exactly when every record casts |
| Evidence.CompletedRows | simsi_transfer/evidence.py:171-303 | one completed record per evidence id, in ascending order |
| Evidence.EvidenceIdsPrepared | simsi_transfer/evidence.py:157-171 | the group keys are exactly the evidence ids of the summary |
| Evidence.CompletedRowMeta | simsi_transfer/evidence.py:182-290 | each record takes its group's first Length, Missed cleavages and Charge, and always has a Fraction |
| Evidence.FirstIntOfGroup | simsi_transfer/evidence.py:182-211 | a group's first integer is NaN exactly when every scan with that evidence id lacks it |
| Evidence.CastRowFails | simsi_transfer/evidence.py:291-299 | a record fails the cast exactly when its group lacks one of the cast columns |
| Evidence.CastAllFails | simsi_transfer/evidence.py:291-299 | the table cast fails exactly when some record fails |
| Evidence.CompletedRowsFail | simsi_transfer/evidence.py:291-299 | the cast fails exactly when some evidence id lacks Length, Missed cleavages or Charge in all its scans |
| Evidence.CastSortedIds | simsi_transfer/evidence.py:305-307 | the final sort keeps the ids distinct and the same set |
| Evidence.EvidenceColumnsRows | simsi_transfer/evidence.py:154-308 | the result is sorted by sequence, modified sequence, raw file and charge, has one record per evidence id, and its ids are exactly the summary's ids |
| Evidence.EvidenceColumnsFails | simsi_transfer/evidence.py:291-299 | fails, with a ValueError, exactly when some evidence id cannot be cast |
| Evidence.CalculateEvidenceColumns | simsi_transfer/evidence.py:154-308 | the procedure returns exactly `EvidenceColumns` of the summary |
| Evidence.ExampleIntensity | tests/unit_tests/test_evidence.py:94 | the test group sums to Intensity 300 |
| Evidence.ExampleCorrected | tests/unit_tests/test_evidence.py:99 | corrected reporter 1 sums to 26 |
| Evidence.ExampleCount | tests/unit_tests/test_evidence.py:100 | reporter count 1 is 2 |
| Evidence.ExampleTransferred | tests/unit_tests/test_evidence.py:98 | the transferred count is 1 |
| Evidence.AggregateExample | tests/unit_tests/test_evidence.py:94-101 | the test's expected values together for its two-scan group, summary ids `1;3;` before `csv_unique` |
| Evidence.ExampleProteinCells | tests/unit_tests/test_evidence.py:26 | the group's Proteins cells concatenate to `ProteinA;ProteinC;ProteinC;` |
| Evidence.ExampleLeadingCells | tests/unit_tests/test_evidence.py:27 | the group's Leading proteins cells concatenate to `LeadA;LeadC;LeadA;` |
| Evidence.ExampleLists | tests/unit_tests/test_evidence.py:96-101 | given `csv_unique` as the test uses it, the aggregate has Proteins `ProteinA;ProteinC`, Leading proteins `LeadA;LeadC` and summary ids `1;3` |
| Evidence.ExampleSummaryIds | tests/unit_tests/test_evidence.py:101 | the concatenated summary ids of the test group |
| Evidence.NotMsms | simsi_transfer/evidence.py:374 | exactly the evidence rows whose Type is not MSMS |
| Evidence.PrepareEvidence | simsi_transfer/evidence.py:374-383 | row i gets evidence id i |
| Evidence.PrepareEvidenceKeeps | simsi_transfer/evidence.py:374-383 | every numbered row is a non-MSMS input row |
| Evidence.PrepareEvidenceNumbers | simsi_transfer/evidence.py:374-383 | every non-MSMS row is numbered exactly once |
| Evidence.PrepareEvidenceSorted | simsi_transfer/evidence.py:375-382 | sorted by sequence, modified sequence, raw file and calibrated start |
| Evidence.Unnumbered | simsi_transfer/evidence.py:383 | the rows before numbering |
| Evidence.BuildEvidence | simsi_transfer/evidence.py:371-386 | any failure is a ValueError |
| Evidence.BuildEvidenceRows | simsi_transfer/evidence.py:371-386 | sorted, one record per evidence id, ids exactly those of the assigned summary |
| Evidence.BuildEvidenceAssigns | simsi_transfer/evidence.py:383-384 | every assigned scan receives an evidence id, and all scans are kept |
| Evidence.RawFiles | simsi_transfer/evidence.py:332 | `groupby("Raw file")` visits each raw file once, in sorted order |
| Evidence.SummaryOf | simsi_transfer/evidence.py:332 | the scans of one raw file |
| Evidence.EvidenceOf | simsi_transfer/evidence.py:333 | the evidence rows of one raw file |
| Evidence.PrecursorsOf | simsi_transfer/evidence.py:334 | the features of one raw file |
| Evidence.KeptFiles | simsi_transfer/evidence.py:348-354 | the raw files not skipped: exactly those present in both evidence and allPeptides |
| Evidence.BuiltFilesRules | simsi_transfer/evidence.py:347-363 | success gives one built table per kept file, in order; the loop fails exactly when some kept file fails |
| Evidence.ConcatBuiltRules | simsi_transfer/evidence.py:368 | `pd.concat` of nothing raises; otherwise the result is the concatenation of the kept files' tables |
| Evidence.BuiltFilesStep | simsi_transfer/evidence.py:348-363 | one loop step skips, fails or appends |
| Evidence.BuiltFilesErr | simsi_transfer/evidence.py:363 | the first error ends the loop |
| Evidence.BuildEvidenceGrouped | simsi_transfer/evidence.py:311-368 | the sequential loop returns exactly `EvidenceGrouped`: the concatenated `build_evidence` of each kept raw file, or its first error |
| Processing.LastIndex | simsi_transfer/processing_functions.py:26-33 | the last separator's position, or -1 when there is none |
| Processing.StripDirectories | simsi_transfer/processing_functions.py:30-34 | with a directory part the result holds no separator and is shorter; otherwise it is unchanged |
| Processing.RemoveIgnoreCase | simsi_transfer/processing_functions.py:35 | deleting a pattern case-insensitively leaves only characters of the input |
| Processing.PurgeMrcFiles | simsi_transfer/processing_functions.py:19-36 | the loop returns the purged name |
| Processing.PurgedNameSeparator | simsi_transfer/processing_functions.py:30-35 | a separator survives only when the name starts with its only one |
| Processing.RemoveIgnoreCaseSkip | simsi_transfer/processing_functions.py:35 | for a pattern starting with `.`, a leading part without `.` is kept |
| Processing.RemoveExtension | simsi_transfer/processing_functions.py:35 | `name.MZML` loses its extension whatever its case |
| Processing.StripDirectoriesAt | simsi_transfer/processing_functions.py:30-34 | every directory prefix is removed |
| Processing.PurgedNameOfPath | simsi_transfer/processing_functions.py:19-36 | `dir/name.ext` becomes `name` |
| Processing.PlatformSeparator | simsi_transfer/processing_functions.py:26-28 | (corrected) the backslash exactly for platform names starting with `win` |
| Processing.DarwinAsWritten | simsi_transfer/processing_functions.py:27-28 | as written, `darwin` selects the backslash and a POSIX path keeps its directories |
| Processing.PlatformSeparatorStrips | simsi_transfer/processing_functions.py:26-36 | with the corrected test, a path on macOS is stripped to its file name |
| Processing.NonParenRun | simsi_transfer/processing_functions.py:46 | the leading run without parentheses |
| Processing.GroupAt | simsi_transfer/processing_functions.py:46 | a match of `\([^()]+\)` starts with `(` and spans at least three characters |
| Processing.RemoveGroups | simsi_transfer/processing_functions.py:49 | one `re.sub` pass never lengthens the string |
| Processing.RemoveGroupsShrinks | simsi_transfer/processing_functions.py:47-51 | a pass shortens the string exactly when a group is present, and otherwise changes nothing |
| Processing.RemoveAllGroups | simsi_transfer/processing_functions.py:47-51 | the loop ends with no innermost group left |
| Processing.RemoveAllGroupsStep | simsi_transfer/processing_functions.py:47-51 | one more pass does not change the final result |
| Processing.Unmark | simsi_transfer/processing_functions.py:55-57 | `p([STY])` to the residue leaves only characters of the input |
| Processing.Purged | simsi_transfer/processing_functions.py:45-58 | the purged sequence holds no `_` |
| Processing.PurgeModifiedSequence | simsi_transfer/processing_functions.py:39-62 | strings are purged; NaN gives NaN; another number raises ValueError; another type raises TypeError |
| Processing.HalfPass | simsi_transfer/processing_functions.py:49 | the first pass removes the inner brackets of each annotation |
| Processing.BarePass | simsi_transfer/processing_functions.py:49 | the second pass removes what remains of each annotation |
| Processing.BareUnderscores | simsi_transfer/processing_functions.py:52-54 | deleting `_` then leaves exactly the residues |
| Processing.PurgedRender | simsi_transfer/processing_functions.py:39-58 | a rendered modified sequence purges to its bare residues |
| Processing.CleanModifiedSequence | simsi_transfer/processing_functions.py:65-91 | succeeds exactly for strings and NaN; NaN gives NaN; other input raises ValueError |
| Processing.DropWellFormed | simsi_transfer/processing_functions.py:77-82 | deleting any annotation other than phospho keeps the sequence well formed |
| Processing.CoreWellFormed | simsi_transfer/processing_functions.py:74-82 | after the deletions only residues and phospho sites remain |
| Processing.CleanRender | simsi_transfer/processing_functions.py:65-87 | a rendered sequence cleans to its residues, with `pX` for each phosphorylated X |
| Processing.CountPhos | simsi_transfer/processing_functions.py:265-268 | a count exactly for strings |
| Processing.DropCountPhospho | simsi_transfer/processing_functions.py:77-82 | deleting other annotations keeps the phospho count |
| Processing.CountMarks | simsi_transfer/processing_functions.py:267 | the `p` count of a cleaned site rendering is its phospho count |
| Processing.CountPhosClean | simsi_transfer/processing_functions.py:265-268 | `count_phos` of a cleaned sequence is its number of phospho sites |
| Processing.Collect | simsi_transfer/processing_functions.py:209-213 | the list loop succeeds exactly when every element does, keeping order and length; otherwise it fails with the first error |
| Processing.CollectFirstError | simsi_transfer/processing_functions.py:209-213 | the first failing element's error is the result |
| Processing.SubstituteValue | simsi_transfer/processing_functions.py:191-217 | NaN gives NaN; a number raises ValueError; a string gives a string; a list maps element-wise, keeps its length, and fails exactly when an element fails |
| Processing.SubstituteModifications | simsi_transfer/processing_functions.py:191-217 | the recursive procedure returns exactly `SubstituteValue` of the input |
| Processing.ReplaceSitePass | simsi_transfer/processing_functions.py:198-206 | each pass rewrites exactly its own marked residue |
| Processing.SubstitutedSites | simsi_transfer/processing_functions.py:197-207 | `pS`, `pT` and `pY` become `1`, `2` and `3`, and nothing else changes |
| Processing.SubstituteClean | simsi_transfer/processing_functions.py:65-91 | a cleaned sequence substitutes to its residues with a digit per phospho site |
| Processing.GetSingleItem | simsi_transfer/processing_functions.py:103-113 | the element when the length is 1; otherwise IndexError |
| Processing.GetMainObject | simsi_transfer/processing_functions.py:252-262 | v exactly when the present values are exactly [v]; otherwise NaN |
| Processing.RemoveNanValuesUnique | simsi_transfer/processing_functions.py:94-100 | removing NaN from a duplicate-free list keeps it duplicate-free |
| Processing.GetMainObjectOfSet | simsi_transfer/processing_functions.py:158 | `get_main_object(set(x))` equals `get_unique_else_nan(x)` |
| Legacy.Representative | simsi_transfer/processing_functions.py:132-137 | `get_single_item` of the cluster's unique sequences: v exactly when v is its only modified sequence |
| Legacy.StampAll | simsi_transfer/processing_functions.py:139-141 | each row stamped from its own cluster |
| Legacy.ClusterMain | simsi_transfer/processing_functions.py:156-158 | `get_main_object(set(x))` of a cluster column: v exactly when v is its only present value |
| Legacy.CompleteAll | simsi_transfer/processing_functions.py:156-172 | each stamped row completed from its own cluster |
| Legacy.Transfer | simsi_transfer/processing_functions.py:116-173 | the in-place procedure leaves exactly `TransferAll` of the old rows |
| Legacy.StampRows | simsi_transfer/processing_functions.py:139-141 | the first loop leaves exactly the stamped rows |
| Legacy.CompleteRows | simsi_transfer/processing_functions.py:156-172 | the second loop leaves exactly the completed rows |
| Legacy.StampedRow | simsi_transfer/processing_functions.py:139-141 | `d` rows keep their sequence; unidentified rows take the representative; nothing else changes |
| Legacy.StampedMainColumns | simsi_transfer/processing_functions.py:156-158 | stamping changes no other column of a cluster |
| Legacy.StampedRepresentative | simsi_transfer/processing_functions.py:156-159 | after stamping, a cluster has one modified sequence exactly when it had a representative |
| Legacy.TransferRules | simsi_transfer/processing_functions.py:116-173 | `d` exactly for identified rows, which keep their identity; `t` exactly for unidentified rows of a cluster with one sequence, which take the cluster's unique columns; NaN otherwise |
| Legacy.StricterThanTransfer | simsi_transfer/processing_functions.py:132-141 | the same `d` rows as `transfer.py`, and every legacy `t` is also a `t` there, with the same sequence |
| Legacy.Ambiguous | simsi_transfer/processing_functions.py:229-245 | the clusters with at least two distinct values |
| Legacy.MarkModAmbiguous | simsi_transfer/processing_functions.py:237 | every row of the array carries the mod flag of its cluster |
| Legacy.MarkRawAmbiguous | simsi_transfer/processing_functions.py:248 | every row of the array carries the raw flag of its cluster |
| Legacy.FlagAmbiguousClusters | simsi_transfer/processing_functions.py:220-249 | the in-place procedure leaves exactly `FlagAll` of the old rows |
| Legacy.FlagRules | simsi_transfer/processing_functions.py:220-249 | both flags are set independently, with no precedence; the raw flag agrees with `transfer.py`, whose mod flag is this one without the raw ones |
| Legacy.Identifieds | simsi_transfer/processing_functions.py:434 | exactly the rows with an identification |
| Legacy.IdentifiedsAll | simsi_transfer/processing_functions.py:434 | nothing is removed exactly when every row is identified |
| Legacy.RemoveUnidentifiedScans | simsi_transfer/processing_functions.py:433-436 | the identified rows, numbered 0..n-1 in order |
| Legacy.Selected | simsi_transfer/processing_functions.py:309-311 | the evidence row without a retention time calibration |
| Legacy.TypedRowRules | simsi_transfer/processing_functions.py:316-324 | MULTI-MSMS exactly inside the uncalibrated window; MSMS rows lose Type and the calibrated columns; equal to the current version at calibration 0 |
| Legacy.AssignEvidenceType | simsi_transfer/processing_functions.py:316-324 | every row of the array is replaced by its typed row |
| Legacy.TypedRows | simsi_transfer/processing_functions.py:316-324 | the typed table, row by row; with every calibration 0 it is the table `evidence.py` types |
| Legacy.CountIdAppend | simsi_transfer/processing_functions.py:329 | the count of an id is additive over concatenation |
| Legacy.CountIdIds | simsi_transfer/processing_functions.py:329 | an id has count 0 exactly when it is absent |
| Legacy.CountIdSortBy | simsi_transfer/processing_functions.py:326 | sorting keeps the count of every id |
| Legacy.SortByMembers | simsi_transfer/processing_functions.py:326-333 | sorting keeps the rows and the ids |
| Legacy.KeepFirstOther | simsi_transfer/processing_functions.py:327-329 | the first filter keeps the ids and leaves at most one non-MULTI-MSMS row per id |
| Legacy.KeepUnrepeated | simsi_transfer/processing_functions.py:330-332 | the second filter keeps MULTI-MSMS rows and rows whose id occurs once |
| Legacy.UnrepeatedIds | simsi_transfer/processing_functions.py:327-332 | after the first filter, the second removes no id |
| Legacy.SortedOthersOnce | simsi_transfer/processing_functions.py:333 | sorting keeps the non-MULTI-MSMS rows unique |
| Legacy.KeepFirstMulti | simsi_transfer/processing_functions.py:334-336 | the third filter keeps every id and only input rows |
| Legacy.KeepFirstMultiDistinct | simsi_transfer/processing_functions.py:334-336 | after the third filter all ids are distinct |
| Legacy.Filtered | simsi_transfer/processing_functions.py:326-336 | the three filters leave distinct ids and the same id set |
| Legacy.FeatureRows | simsi_transfer/processing_functions.py:312-340 | the merged, typed, filtered and numbered table has distinct ids and the input's id set |
| Legacy.AssignEvidenceFeature | simsi_transfer/processing_functions.py:307-353 | success keeps the row count and distinct ids, and is sorted by sequence and modified sequence; failure is a ValueError |
| Legacy.AssignEvidenceFeatureOutcome | simsi_transfer/processing_functions.py:342-348 | the filtered rows always have distinct ids, so it succeeds exactly when the input summary ids are distinct |
| Sorting.SortByCorrect | simsi_transfer/evidence.py:105-107 | `sort_values` returns a permutation sorted by the key |
| Sorting.SortByStable | simsi_transfer/evidence.py:105-107 | rows with equal keys keep their order |
| Sorting.SortByDistinctBy | simsi_transfer/evidence.py:305-307 | sorting keeps a column's values distinct |
| Sorting.KeyCmpTransitive | simsi_transfer/evidence.py:105-107 | the multi-column order, with NaN last, is transitive |
| Sorting.KeyCmpAntisymmetric | simsi_transfer/evidence.py:105-107 | the multi-column order is antisymmetric |
| Sorting.KeyCmpReflexive | simsi_transfer/evidence.py:105-107 | every key compares equal to itself |
| Sorting.SortedUniqueStrings | simsi_transfer/utils/utils.py:40 | `sorted(set(...))` of strings: strictly ascending, the same members |
| Sorting.StrictlySortedStringsUnique | simsi_transfer/utils/utils.py:40 | that list is determined by its members |
| Sorting.SortedUniqueInts | simsi_transfer/transfer.py:155-156 | `sorted(list(set))` of positions: strictly ascending, the same members |
| Strings.ReplaceAll | simsi_transfer/utils/utils.py:65-70 | `str.replace` of a single character by text without it leaves no such character |
| Strings.ReplaceAllBlocked | simsi_transfer/utils/utils.py:65-70 | text that cannot start a match is copied unchanged |
| Strings.Upper | simsi_transfer/transfer.py:83 | `str.upper` character by character, keeping the length |
| Strings.Count | simsi_transfer/processing_functions.py:267 | `str.count` of a character is zero exactly when the character is absent |
| Strings.Split | simsi_transfer/utils/utils.py:17 | `str.split` gives at least one field, and no field holds the separator |
| Strings.JoinSplit | simsi_transfer/utils/utils.py:17-18 | joining the `;`-split fields gives back the string |
| Strings.SplitJoin | simsi_transfer/utils/utils.py:17-18 | splitting joined fields without `;` gives back the fields |
| Strings.ParseNatToString | simsi_transfer/transfer.py:159 | the site count written in decimal reads back |
| Strings.NatToStringInjective | simsi_transfer/transfer.py:159 | different site counts are written differently |
| Strings.CmpAntisymmetric | simsi_transfer/utils/utils.py:40 | swapping the strings negates their order |
| Strings.CmpZero | simsi_transfer/utils/utils.py:40 | Python string order is zero exactly for equal strings |
| Strings.CmpTransitive | simsi_transfer/utils/utils.py:40 | Python string order is transitive |

## Left out

- `round(v, 3)` and the formatting of floats into text are the function
  parameter `fmt`. The probability averages are proved in terms of `fmt`. The
  concrete string `'S(0.184)S(0.494)S(0.322)PPPRK'` expected by
  tests/unit_tests/test_transfer.py:12 depends on that rounding and is not
  stated.
- Peptides.CountSitesLowered: is stated only for sequences without acetyl
  or oxidation annotations. The `[sty]` search at transfer.py:154-155 also
  counts the lower-case letters of `(Acetyl (Protein N-term))` and
  `(Oxidation (M))`, which the model computes as written but does not
  relate to the number of phospho sites.
- Consensus.AnnotationDecode: requires that the head holds no `.`. MaxQuant
  modified sequences contain none; with one, splitting on `.` would not give
  back three fields.
- Probabilities.AverageRoundTrip: assumes that `fmt` yields text the
  probability pattern matches. Python's `str(float)` can produce exponent
  forms, such as `1e-05`, that the pattern does not match.
- `utils.csv_unique`, called at evidence.py:272, is not defined in the
  `utils.py` modelled here. It is the function parameter `csvUnique`.
- `merge_summary_with_evidence` is the parameter `on`, a predicate on a scan
  and an evidence row, followed by a left join. `merging_functions.py` is not
  part of this model.
- NaN join keys are left out. pandas merges NaN keys as equal; the model
  leaves this to `on`.
- `sort_values` uses quicksort by default, so ties can come out in any order.
  The model sorts stably, which is one of the orders pandas may produce.
- Python `set` iteration order is modelled as first-occurrence order. This
  affects `check_ambiguity`, `get_unique_else_nan` and the first sequence the
  annotation is built from.
- Upper and lower case mapping covers ASCII letters only.
- `build_evidence_grouped` with more than one thread (the JobPool branch) is
  left out; only the sequential loop is modelled.
- File I/O is left out, and so are the `logger` calls and the warnings about
  skipped raw files.
- The `int32` cast of `MS/MS scan number` is left out. That column stays the
  text produced by `csv_unique`.
- The `int8` casts are modelled as wrap-around, and NaN raises ValueError. A
  non-integral float is not modelled, since these columns hold integers.
- The drop of the `Type` column after `assign_evidence_feature` is left out,
  along with the `pd.set_option` display settings. Neither changes a value the
  model tracks.
- The older `assign_evidence_feature` first selects ten evidence columns
  (processing_functions.py:309-311). The model keeps the whole feature record,
  with calibration cleared.
- The `mask` argument of both `transfer` functions is left out. It only
  renames the identification column.
- Only the modified-sequence and identification columns of `transfer` are
  followed in detail. The other aggregated columns are carried as one
  identity record.
- `count_clustering_parameters` and `generate_summary_file` of
  `processing_functions.py` are left out. They only log statistics and call
  merges.
- The older `calculate_evidence_columns` and `build_evidence` of
  `processing_functions.py` are left out. The `evidence.py` versions are
  modelled.
- Reporter-ion extraction, MaRaCluster and the command line are left out.
- Floating-point ppm and mean arithmetic is real arithmetic.

## Findings

| source | as written | input that shows it | evidently intended | confidence | as-written member | corrected member |
|---|---|---|---|---|---|---|
| simsi_transfer/transfer.py:162-165 | `remove_modifications` substitutes the whole match of `PHOSPHO_REGEX` by `''`, which deletes the phosphorylated residue along with its annotation, so the isomer annotation's head depends on which isomer comes first | the cluster `_S(Phospho (STY))T_`, `_ST(Phospho (STY))_` gives the head `_T_`; the reverse order gives `_S_` | delete only `(Phospho (STY))`, as `utils.remove_modifications` does, giving `_ST_` in both orders | not executed | Consensus.AsWrittenOrderDependent | Consensus.CorrectedOrderIndependent |
| simsi_transfer/processing_functions.py:27 | `"win" in platform` is also true for `darwin`, so macOS uses the backslash separator | `purge_mrc_files("dir/name.mzML")` on `darwin` gives `dir/name` | the backslash only on Windows, so the result is `name` | not executed | Processing.DarwinAsWritten | Processing.PlatformSeparatorStrips |
