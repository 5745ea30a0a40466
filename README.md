# TTD parser core: a verified model

This project models the data transformations of the Therapeutic Target
Database (TTD) parser in Dafny and proves what they compute. The parser turns
the TTD flat files into BioThings documents. The parts modelled are:

- **Accession extraction** (`get_uniprot_ac`). This scans the target file
  row by row. A `TARGETID` row opens a record. A `UNIPROID` row normalises
  the accession field and yields the record.
- **UniProt resolution bookkeeping.** This covers four steps:
  - flattening and de-duplicating the accessions into one submission each (`get_tasks`);
  - cutting the jobs into batches of ten;
  - classifying each decoded reply of the id-mapping service;
  - the aggregation in `UniprotMapping.run_async_tasks`: keep-first
    de-duplication of `(kb, ac)` pairs, attribution of each pair to the last
    target whose accession value contains it, grouping by target id, and
    duplicate-free kb lists.
- **Record scanners** `get_target_info` and `mapping_drug_id`, which update
  a current-record dict across rows and yield it at block boundaries.
- **String helpers of the loaders.** These are:
  - `cleanup_icds`, with the icd9/icd11 pairing and the first-wins
    icd11→mondo selection;
  - the `INDICATI` slicing of the drug-disease and target-disease loaders;
  - the `_id` of a drug-target interaction, the MOA filter, and keep-first
    de-duplication by `_id`;
  - the biomarker name/symbol split at the last `(`;
  - the IC50/Ki/EC50 activity parse.
- **`merge_dicts`**, which gives one document per `_id` in ascending `_id`
  order.
- **The trial-status ranking** of `higher_trial_status_selection.py`.

Python exceptions become `Err` values of a `Result` datatype. The `Err`
case is used where the source would raise: a `KeyError` on a missing key,
an `IndexError` from `split(...)[1]`, and a `TypeError` from indexing
`None` or hashing a list. Python dicts are association lists
`seq<(K, V)>`; `Common.Keys`, `Common.Get` and `Common.Put` keep insertion
order, as Python dicts do. Each row scanner has two parts:
- a specification function, a left fold over the rows;
- a method with a `while` loop, whose invariant ties the loop state to the
  fold of the rows read so far.

The class `Resolution.MappedKbs` keeps the source's mutable field
`uniprot_ac_kb` as a `seq` that its methods append to.

Files:
- `common.dfy`: `Option`/`Result`, flattening, keep-first de-duplication, association lists.
- `strings.dfy`: Python `strip`, `split`, `lower`, `replace`.
- `accessions.dfy`: `get_uniprot_ac`.
- `resolution.dfy`: `get_tasks`, batching, reply classification, `MappedKbs`.
- `aggregation.dfy`: the aggregation of `run_async_tasks`.
- `targets.dfy`: `get_target_info`.
- `drugids.dfy`: `mapping_drug_id`.
- `icd.dfy`: `cleanup_icds`, the icd11→mondo selection, and `INDICATI` slicing.
- `loaders.dfy`: the drug-target `_id`, the MOA filter, and de-duplication.
- `biomarkers.dfy`: the biomarker split and the activity parse.
- `merge.dfy`: `merge_dicts`.
- `trialstatus.dfy`: the trial-status ranking.

Where the code and its documentation disagree, the model follows the code:

- **The parenthesis rule of `get_uniprot_ac`.** A field with `(` that is not
  split is meant to keep the text before the `(`. The loop at
  TTD_parser.py:46-48 iterates over the characters of that text, so the
  stored value is the stripped *last character* (`Accessions.ParenRule`).
  When the text before `(` is empty, nothing is stored.
- **Operator precedence at TTD_parser.py:41.** The "no `(`" test guards only
  the `-` case, so `;` or `/` split the field even when `(` is present
  (`Accessions.Normalise`).
- **Connection errors.** `asyncio.gather` at TTD_parser.py:138 is outside
  the `try`. A failed request therefore ends the whole run rather than
  skipping the batch (`Resolution.HarvestRequestFailure`). Likewise, a reply
  without `messages` and without `results` raises a `KeyError` that the
  inner `except IndexError` does not catch, and that also ends the run. So
  does a `messages` reply without `url` (TTD_parser.py:143), and a first hit
  without `from`, `to` or `primaryAccession` (TTD_parser.py:147-148). The
  submissions are gathered at TTD_parser.py:85 with no `try` at all, so one
  failed submission ends the run as well.
- **When `run_async_tasks` raises.** `get_tasks` reads the records of
  `get_uniprot_ac` while the generator runs (TTD_parser.py:64-66). A record
  without `uniprot_ac` therefore raises its `KeyError` before any later row is
  scanned, even when a later row would make the scan fail
  (`Aggregation.LazyScan`, `Aggregation.EarlyKeyError`).
- **`cleanup_icds`** uses `split(":")[1]`, which is the text between the
  first and the second `:`, not everything after the first `:`.
- **Unattributed pairs.** Pairs whose accession no target holds are grouped
  under the key `None`.
- **`merge_dicts`.** `value.update(value)` at TTD_parser.py:773 is a no-op.
  The `association` key therefore ends with the value of the last document
  of the group, and every other key with the value of the first.
- **The PubChem subject.** The `elif` at TTD_parser.py:363-366 tests `x in d
  and x not in d`, which is never true. The subject of a drug without ChEBI
  id is always `ttd_drug_id:<id>`.
- **Lists in `set()`.** An icd11 value that is a list would be put into a
  tuple inside `set(...)` at TTD_parser.py:316, which raises `TypeError`
  (`Icd.RowPairs`).

## Model

| member | source | states |
|---|---|---|
| Strings.Strip | TTD_parser.py:43 | `str.strip()`: the result has no surrounding whitespace, is a slice of the input, and keeps only characters of the input |
| Strings.SplitPieces | TTD_parser.py:42 | `re.split` on a character class gives one more piece than there are delimiters, and no piece holds a delimiter |
| Strings.SplitJoin | TTD_parser.py:285 | splitting a comma-joined list of comma-free items gives the items back |
| Strings.SplitInterleave | TTD_parser.py:42 | splitting delimiter-free pieces joined by any delimiters of the class gives the pieces back |
| Strings.InterleaveSplit | TTD_parser.py:42 | the pieces of a split, put back together with the delimiters that separated them, give the original text |
| Accessions.StripAll | TTD_parser.py:43 | the trimmed list has the same length, and each item is the stripped original |
| Accessions.Normalise | TTD_parser.py:40-50 | a field with `;`, `/`, or `-` without `(` becomes a list; one with `(` that does not split stores at most one character, or nothing when `(` comes first; any other field is stored verbatim |
| Accessions.SplitRule | TTD_parser.py:40-44 | a splitting field gives one trimmed part per delimiter plus one, each free of `;`, `/` and `-` |
| Accessions.SplitItems | TTD_parser.py:40-44 | the stored list is exactly the trimmed pieces between the `; / -` characters, and those pieces with their delimiters rebuild the field |
| Accessions.SplitRoundTrip | TTD_parser.py:40-44 | any splitting field built from delimiter-free accessions and `; / -` characters is stored as the list of those accessions, trimmed |
| Accessions.ParenRule | TTD_parser.py:45-48 | for `a + "(" + b` that does not split, the stored value is the stripped last character of `a`, and nothing when `a` is empty |
| Accessions.VerbatimRule | TTD_parser.py:49-50 | a field with none of `; / - (` is stored unchanged |
| Accessions.SplitExample | TTD_parser.py:40-44 | `"P1; P2"` becomes `["P1", "P2"]` |
| Accessions.ParenExample | TTD_parser.py:41-48 | `"P1-P2 (x)"` is not split (the `-` rule needs no `(`) and stores `""`, the stripped last character of `"P1-P2 "` |
| Accessions.CurrentIsLatestTarget | TTD_parser.py:37-38 | after any prefix of rows, the open record belongs to the most recent `TARGETID` row, and there is none before one |
| Accessions.ScanStep | TTD_parser.py:36-53 | a non-`UNIPROID` row yields nothing; a `UNIPROID` row yields exactly one record carrying the latest target id and the normalised field; before any `TARGETID` it raises |
| Accessions.GetUniprotAc | TTD_parser.py:26-53 | the loop yields exactly the records of the row fold, or the same error |
| Accessions.ScanErrSticks | TTD_parser.py:36-48 | once a row raises, later rows do not change the outcome |
| Aggregation.LazyScanSpec | TTD_parser.py:26-75 | reading the records while the scan runs fails iff the scan fails or a record lacks `uniprot_ac`; a scan error surfaces only if no earlier record lacked it; a scan that succeeds gives the `KeyError` at the first record without it, as `get_tasks` does |
| Aggregation.LazyErrSticks | TTD_parser.py:36-66 | once the lazy reading raises, later rows do not change the outcome |
| Aggregation.ReadAccessions | TTD_parser.py:62-66 | the loop of `get_tasks` over the generator raises exactly the lazy reading's exception, and otherwise receives all scanned records, each with `uniprot_ac` |
| Aggregation.EarlyKeyError | TTD_parser.py:36-66 | on `TARGETID T1`, `UNIPROID (x`, then a short row, the scan alone fails at row 2 but the run raises the `KeyError` of record 0 first |
| Resolution.GetTasks | TTD_parser.py:62-75 | the submissions are duplicate-free and their set is exactly the flattened accessions; a record without accession raises `KeyError` at the first such record |
| Resolution.AllAccessionsStep | TTD_parser.py:65-70 | a record adds its list items, or its single value, to the accession set |
| Resolution.BatchesSpec | TTD_parser.py:134-135 | the batches concatenate to the task list, each holds 1 to 10 tasks, all but the last hold exactly 10, and there are ceil(n/10) of them |
| Resolution.SliceBatches | TTD_parser.py:134-135 | the slicing loop computes those batches |
| Resolution.Classify | TTD_parser.py:141-152 | a reply contributes a pair iff it has no `messages`, a non-empty `results`, and a first hit with `from`, `to` and `primaryAccession`; the pair is `(results[0].to.primaryAccession, results[0].from)`; it raises `KeyError` iff it has `messages` but no `url`, or no `messages` and either no `results` or a first hit missing one of those keys |
| Resolution.MappedPairsAppend | TTD_parser.py:137-152 | the pairs of two reply runs are the pairs of each, in order |
| Resolution.HarvestClean | TTD_parser.py:137-152 | without failures, the harvest is exactly the mapped pairs of all replies in order |
| Resolution.HarvestRequestFailure | TTD_parser.py:137-138 | a failed request in batch k stops the run, keeping exactly the pairs of the batches before it |
| Resolution.HarvestSource | TTD_parser.py:146-150 | every harvested pair comes from a reply that maps to it, and there are at most as many pairs as replies |
| Resolution.MappedKbs.GetMappedKbs | TTD_parser.py:133-154 | `uniprot_ac_kb` grows by exactly the harvest of all batches, the job ids are unchanged, and the result reports whether the run was aborted |
| Resolution.MappedKbs.CollectBatch | TTD_parser.py:139-152 | one batch appends exactly its mapped pairs to `uniprot_ac_kb` |
| Common.KeepFirstSpec | TTD_parser.py:186-192 | keep-first de-duplication keeps the same set of keys, without repeats, and each kept item is the first one with its key |
| Common.DedupBy | TTD_parser.py:394-400 | the loop with a seen-set computes keep-first de-duplication |
| Common.UniqueElems | TTD_parser.py:186-192 | de-duplicating pairs on the whole pair gives a duplicate-free list with the same elements |
| Aggregation.AcTableErr | TTD_parser.py:195 | the `{target: accession}` comprehension raises iff some record has no accession, at the first such record |
| Aggregation.AcTableKeys | TTD_parser.py:195 | the table has one entry per distinct target id |
| Aggregation.AcTableLast | TTD_parser.py:195 | a target's entry is the accession of its last record |
| Aggregation.AcTableErrSticks | TTD_parser.py:195 | once a record raises, later records do not change the outcome |
| Aggregation.BuildAcTable | TTD_parser.py:194-195 | the loop builds that table |
| Aggregation.OwnerSpec | TTD_parser.py:197-200 | a pair's owner is the last table entry whose value holds the accession (list membership, or substring for a string); it is `None` iff no entry holds it |
| Aggregation.Attribute | TTD_parser.py:197-200 | each pair is tagged with its owner, in order |
| Aggregation.KbsForElems | TTD_parser.py:202-204 | the kbs gathered under a key are exactly those of the pairs attributed to it |
| Aggregation.GroupedKeys | TTD_parser.py:202-204 | the group keys are distinct |
| Aggregation.GroupedGet | TTD_parser.py:202-204 | each key maps to its attributed kbs, and absent keys have none |
| Aggregation.Group | TTD_parser.py:202-204 | the grouping loop builds the `defaultdict(list)` |
| Aggregation.Finalise | TTD_parser.py:206-209 | one output per group, with the group's key and a duplicate-free kb list equal to the group's kbs as a set |
| Aggregation.Aggregate | TTD_parser.py:185-209 | output target ids are distinct; each output's kb list is non-empty, duplicate-free and equal to the kbs attributed to its target; every fetched pair's owner has an output; the table's `KeyError` is propagated |
| Aggregation.Submissions | TTD_parser.py:73-86 | the gathered submissions give one reply per task, in order, iff no submission raises |
| Aggregation.RunAsyncTasks | TTD_parser.py:173-210 | the run raises the lazy reading's exception when there is one, the `KeyError` at the first record without accession when the scan succeeds, and a submission error iff some submission raises; otherwise the tasks are the distinct accessions, the fetched pairs are the harvest of the batched replies, the run succeeds iff the fetch raises nothing, and the output is an aggregation of the pairs |
| Targets.TargetScanInvariant | TTD_parser.py:229-242 | one record is yielded per blank row; the open record belongs to the latest `TARGETID`; every record carries its target's kb list exactly when the target was resolved |
| Targets.TargetScanStep | TTD_parser.py:230-242 | a blank row yields the current record (possibly `None`), and other rows yield nothing |
| Targets.GetTargetInfo | TTD_parser.py:213-242 | the loop yields exactly the records of the row fold, or the same error |
| Targets.TargetErrSticks | TTD_parser.py:236-239 | once a row raises, later rows do not change the outcome |
| DrugIds.PubchemValue | TTD_parser.py:262-266 | a field with `;` becomes a list of one more item than there are `;`, and any other field is kept verbatim |
| DrugIds.PubchemRoundTrip | TTD_parser.py:262-266 | two or more `;`-free ids joined by `;` are stored as the list of those ids, trimmed |
| DrugIds.PubchemWellBuilt | TTD_parser.py:264 | the list items are trimmed and free of `;` |
| DrugIds.ChebiWellBuilt | TTD_parser.py:268 | the ChEBI id taken between the first and second `:` holds no `:` |
| DrugIds.DrugScanInvariant | TTD_parser.py:258-271 | the open record belongs to the latest `TTDDRUID`, and every yielded record is well built |
| DrugIds.DrugUpdateKeeps | TTD_parser.py:260-268 | a `TTDDRUID` row opens a fresh record; other rows keep the drug id |
| DrugIds.DrugScanStep | TTD_parser.py:259-271 | a blank row changes nothing; another row yields the updated record when there is one |
| DrugIds.MappingDrugId | TTD_parser.py:245-271 | the loop yields exactly the records of the row fold, or the same error |
| DrugIds.DrugErrSticks | TTD_parser.py:260-268 | once a row raises, later rows do not change the outcome |
| Icd.CleanupIcdsNone | TTD_parser.py:282 | the result is `None` iff the field is `"."` or lacks the prefix; with a `:`-terminated prefix it never raises |
| Icd.CleanupIcdsOne | TTD_parser.py:283-288 | `prefix + padding + code` gives the code |
| Icd.CleanupIcdsMany | TTD_parser.py:283-286 | `prefix + padding + comma-joined codes` gives the list of codes |
| Icd.RowPairs | TTD_parser.py:307-316 | pairs are produced only when both fields are truthy; a list icd11 raises `TypeError` |
| Icd.RowPairsItems | TTD_parser.py:309-314 | one pair per icd9 item, each under the row's icd11 code |
| Icd.FirstMondoIndex | TTD_parser.py:322-325 | an icd11 gets a mondo id iff one of its pairs has a mapped icd9, and then it is the id of its first such pair |
| Icd.FirstMondoSnoc | TTD_parser.py:323-325 | a later pair changes nothing for an icd11 that is already mapped |
| Icd.SelectMondo | TTD_parser.py:322-325 | the loop's dict holds exactly the mapped icd11 codes, each with its first-wins mondo id |
| Icd.ParseDrugIndicationRoundTrip | TTD_parser.py:436-439 | for `"name [ICD-11: code] status"`, the slicing gives back the code, the name and the lower-cased status |
| Icd.IndicationIcd | TTD_parser.py:437 | the icd11 slice is the code |
| Icd.IndicationDisease | TTD_parser.py:438 | the disease slice is the name |
| Icd.IndicationStatus | TTD_parser.py:439 | the status slice is the stripped status text |
| Icd.ParseTargetIndicationRoundTrip | TTD_parser.py:550-556 | the target-disease slicing gives back the code and the name, with the status from the tab-split field |
| Icd.ParseIndicationErrors | TTD_parser.py:437-439 | a field without `:`, or without `]`, raises `IndexError` |
| Loaders.TargetRecords | TTD_parser.py:344 | the target table raises iff some yielded record is `None`, and otherwise keeps the records in order |
| Common.LastWithSpec | TTD_parser.py:344-345 | lookup in a dict built by comprehension (targets and drugs here, resolved kbs at TTD_parser.py:227) finds the last record with that id, and nothing iff none has it |
| Loaders.IdPartOf | TTD_parser.py:376 | `split(':')[1]` of `prefix:value` is the value up to its own first `:` |
| Loaders.InteractionOfErr | TTD_parser.py:350-376 | building an interaction raises iff the target is resolved with an empty kb list |
| Loaders.SubjectIdPart | TTD_parser.py:360-376 | the subject id always has a part after `:` |
| Loaders.ObjectIdPart | TTD_parser.py:350-358 | the object id raises only for an empty kb list, and otherwise has a part after `:` |
| Loaders.InteractionIdChebi | TTD_parser.py:350-376 | a ChEBI drug and a resolved target give `_id` = `chebi + "_interacts_with_" + kb[0]` |
| Loaders.InteractionIdUnknown | TTD_parser.py:350-376 | unknown drug and target give `_id` = `drugId + "_interacts_with_" + targetId` |
| Loaders.InteractionsKept | TTD_parser.py:380-384 | exactly the rows whose MOA is not `"."` produce interactions, in order |
| Loaders.InteractionsErrSticks | TTD_parser.py:349-376 | once a row raises, later rows do not change the outcome |
| Loaders.LoadDrugTarget | TTD_parser.py:349-400 | the loader's output is keep-first de-duplication by `_id` of the MOA-filtered interactions, or the first error |
| Loaders.LoadDrugTargetUnique | TTD_parser.py:394-400 | no two output documents share an `_id` |
| Loaders.LoadDrugTargetFirst | TTD_parser.py:380-400 | every output has a MOA other than `"."` and is the first document with its `_id` |
| Loaders.LoadDrugTargetCovers | TTD_parser.py:380-400 | every kept row's `_id` appears in the output |
| Biomarkers.SplitLastParen | TTD_parser.py:660 | the pattern matches iff there is a `(`, and it splits the name at the last `(` |
| Biomarkers.SplitLastParenAt | TTD_parser.py:660 | for `a + "(" + b` with no `(` in `b`, the groups are `a + "("` and `b` |
| Biomarkers.SingleMarkerRoundTrip | TTD_parser.py:661-666 | `"name (symbol)"` gives back the name and the symbol |
| Biomarkers.SingleMarkerPlain | TTD_parser.py:667-668 | a name without `(` has its spaces replaced by `_`, and has no symbol |
| Biomarkers.ItemNames | TTD_parser.py:673-680 | one name per list item, in order |
| Biomarkers.ItemSymbolsEmpty | TTD_parser.py:673-677 | the symbol list is empty iff no item has a `(` |
| Biomarkers.ParseBiomarker | TTD_parser.py:660-680 | a single name gets a symbol iff it has a `(`; a comma list is split, trimmed and parsed item by item |
| Biomarkers.ParseMarkerList | TTD_parser.py:670-680 | the loop computes the list marker, which has a `symbol` key iff some item has a `(` |
| Biomarkers.KeywordOf | TTD_parser.py:727 | the alternation matches `IC50`, `Ki` or `EC50` as a prefix, trying them in that order |
| Biomarkers.Activity | TTD_parser.py:727-729 | a match gives a lower-cased keyword and a value without spaces |
| Biomarkers.ActivityRoundTrip | TTD_parser.py:727-729 | `keyword + whitespace + value` gives the lower-cased keyword and the value |
| Biomarkers.ActivityNoMatch | TTD_parser.py:727-731 | without a keyword followed by whitespace there is no match |
| Merge.LessTransitive | TTD_parser.py:764 | the `_id` order (Python string comparison) is transitive |
| Merge.LessTotal | TTD_parser.py:764 | the `_id` order is total |
| Merge.SortByIdSpec | TTD_parser.py:764 | sorting by `_id` gives a sorted list that keeps each `_id`'s documents in their original order (a stable sort) |
| Merge.MergeFromIds | TTD_parser.py:765-782 | the merged documents have strictly ascending `_id`s and cover exactly the `_id`s of the input |
| Merge.MergeFromFields | TTD_parser.py:767-780 | each merged document is the key-by-key merge of its group's documents in order |
| Merge.MergedKeys | TTD_parser.py:768-778 | a merged document has each key of its group once |
| Merge.MergedValue | TTD_parser.py:770-778 | `association` takes its value from the last document that has it, and any other key from the first |
| Merge.MergeDicts | TTD_parser.py:756-782 | the nested loops compute the merge of the sorted documents |
| Merge.MergeGroup | TTD_parser.py:765-780 | one group spans the run of equal `_id`s, and its document is their merge |
| Merge.MergeDoc | TTD_parser.py:769-778 | the field loop computes the key-by-key merge |
| Merge.MergeDictsSpec | TTD_parser.py:756-782 | one document per distinct `_id`, in ascending `_id` order, each the merge of that `_id`'s documents in chain order |
| Merge.MergedDocValue | TTD_parser.py:767-782 | in each output document, `association` comes from the last document of the `_id` and any other key from the first |
| TrialStatus.FirstIndex | higher_trial_status_selection.py:43 | `list.index`: the first position of the status, and none iff it is not listed |
| TrialStatus.RankStep | higher_trial_status_selection.py:46-50 | one update records the higher of the old and new index, changes no other key, and keeps keys distinct |
| TrialStatus.EntryStep | higher_trial_status_selection.py:42-44 | an entry whose status is not listed changes nothing |
| TrialStatus.RankPresent | higher_trial_status_selection.py:39-50 | a key is recorded iff one of its entries has a listed status |
| TrialStatus.RankUpper | higher_trial_status_selection.py:42-50 | a key's recorded index is at least the index of each of its entries |
| TrialStatus.RankAttained | higher_trial_status_selection.py:42-50 | a key's recorded index is the index of one of its entries |
| TrialStatus.RankSpec | higher_trial_status_selection.py:39-50 | each key's recorded index is the maximum over its entries, and keys are distinct |
| TrialStatus.RankBounded | higher_trial_status_selection.py:43 | every recorded index is a position of the status list |
| TrialStatus.StatusNames | higher_trial_status_selection.py:54-56 | every output value is a member of the status list, under the same key |
| TrialStatus.HigherStatus | higher_trial_status_selection.py:35-56 | the script's loops compute the maxima of the specification, and `new_dict` names them |
| TrialStatus.ApplyDict | higher_trial_status_selection.py:40-50 | processing one dict extends the ranking by its entries |
| TrialStatus.ApplyTrialPos | higher_trial_status_selection.py:46-50 | re-applying every `trial_pos` entry changes only the current key |
| TrialStatus.OtherKeyNoop | higher_trial_status_selection.py:46-50 | re-applying another key's `trial_pos` value leaves its maximum unchanged |
| TrialStatus.TracksStep | higher_trial_status_selection.py:44-50 | `trial_pos` stays within the recorded maxima after one update |
| TrialStatus.RankStepNoop | higher_trial_status_selection.py:47 | an index no higher than the recorded one leaves the ranking unchanged |
| TrialStatus.NameStatuses | higher_trial_status_selection.py:54-56 | the naming loop computes `status_lst[v]` per key |
| TrialStatus.DrugLstRank | higher_trial_status_selection.py:28-50 | for the script's `drug_lst`: D00GOV→11, D00DYI→2, D00PMB→9 |
| TrialStatus.DrugLstResult | higher_trial_status_selection.py:28-56 | for the script's `drug_lst`: D00GOV→Approved, D00DYI→Patented, D00PMB→Phase 3 |

## Left out

- Network and concurrency are not modelled: the aiohttp sessions, `asyncio.create_task`/`gather`/`run`, the 300 s timeout, the `sleep(5)`, and job polling. The id-mapping service and the job submission are function parameters. Each reply is an abstract `Reply` value; a request that fails is the `RequestFailed` reply.
- A results body that `response.json()` cannot decode is not modelled: every reply that is read is a decoded body, a caught connection error, or a failed request.
- Python `set` iteration order (`set(ac_l)`, `list(set(...))`) is not modelled. The model emits first-occurrence order, and contracts state set equality and absence of duplicates.
- Order of replies from concurrent requests: replies are taken in submission order.
- Aliasing is not modelled. The scanners yield the same dict object and later mutate it; the model yields snapshots. The shared `subject_node` of `load_drug_target_act` is also left out, and only its activity parse is modelled.
- `tabfile_feeder`, `pandas.read_excel` and `os.path.exists` are not modelled: rows arrive as already-split `seq<string>` after the header.
- `biothings_client.querymany` is not modelled: the icd9→mondo table is a parameter of `Icd.SelectMondo`.
- `print` diagnostics and file I/O with hard-coded paths in the ranking script are not modelled.
- Regular expressions are modelled by their effect on the inputs used here. `[;/-]` is a split on a character set; the biomarker pattern is a split at the last `(`; `(IC50|Ki|EC50)\s+(.+)` is a keyword prefix, whitespace, and the rest. `.` not matching a newline is not modelled.
- `str.lower()` is modelled for ASCII letters only: non-ASCII case mapping is not modelled. Whitespace for `strip()` and `\s` is Python's set of whitespace characters.
- The rest of each loader is not modelled: building the BioThings documents around the `_id` (predicates, node types), the `__`-separated `_id` regrouping of the disease loaders, the mondo lookups, and the `chain` orchestration of `load_data`. Of each, only the string slicing, the `_id`, the filter and the de-duplication are modelled.
- Loaders.LoadDrugTarget: the per-document node payloads are not modelled. The `_id`, the MOA, the trial status and the MOA filter are modelled; the object and subject node contents copied from the target and drug records are not.
- Merge.MergeDicts: document fields are generic values. `merged_docs` is modelled as the ordered list of its values. Python string comparison is modelled as lexicographic comparison of characters.
