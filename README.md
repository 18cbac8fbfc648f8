# fusion_split_finder in Dafny

This project models the core of `fusion_split_finder.py`. The script compares the BUSCO
`full_table.tsv` files of a reference and a query genome. It classifies each query chromosome
as `ancestral`, `split` or `fusion` by majority vote over shared single-copy marker genes
(BUSCOs).

- `util.dfy` — module `Util`: `Option`, `Result` (a value or the exception raised) and `Distinct`.
- `busco_table.dfy` — module `BuscoTable`: `parse_table`.
  - Only `Complete` rows become anchors. They fill the marker dict (ID → chromosome, start,
    stop) and the chromosome dict (chromosome → IDs in row order, keys in insertion order).
  - `Duplicated` rows only make their chromosome known.
  - Chromosomes known but holding no Complete marker are returned as the warned list.
  - A line with a missing column (IndexError) or a coordinate that `int()` refuses
    (ValueError) stops the parse with the error of the first such line.
  - `ParseTable` is the imperative loop. It is proved equal to `Parse`, a definition over
    the lines, and the lemmas state what `Parse` means.
- `majority.dfy` — module `Majority`: `list.count`, "a most frequent element" (`IsMode`),
  the largest count (`MaxCount`) and the threshold test.
  - `min_proportion` is an exact fraction `Ratio(num, den)`.
  - `count / total > num / den` is computed as `count * den > num * total`.
- `fusion_split.dfy` — module `FusionSplit`: `find_fusions_and_splits`.
  - For each source chromosome it collects the target chromosomes of its markers
    (`Destinations`) and takes a most frequent one.
  - It flags the chromosome when that one's share is not strictly greater than
    `min_proportion`.
  - The method picks any mode (`:|`), like Python's `max(set(l), key=l.count)`, whose
    choice depends on set iteration order. Its result is nevertheless proved equal to
    `Classification`, which only uses `MaxCount`.
  - An empty destination list makes `max()` raise; the model returns
    `Failure(EmptyDestinations(chr))` for the first such chromosome.
- `assignment.dfy` — module `Assignment`: `assign_chromosomes` without the file writes.
  - Rows come one per query chromosome, in key order.
  - Precedence: `split` if the chromosome is in the split list, else `fusion` if it is in the
    fusion list, else `ancestral` with a most frequent reference chromosome, its count and
    the number of markers found.
  - The split list holds reference chromosome names, but the test compares query names
    against it (line 51, line 62). The model keeps this as written;
    `Finder.SplitNeedsReferenceName` states the consequence.
- `finder.dfy` — module `Finder`: the entry point's chain parse → classify twice → assign.
  - It also holds a worked fusion example: reference A(m1,m2,m3), B(m4,m5); query X(m1..m5);
    min_proportion 0.9.
  - The example is given as token lines and followed through the whole run.

Behaviour of the code that the model keeps as written:
- A chromosome is flagged when its top share is `<= min_proportion` (line 43), so ancestral
  means strictly greater.
- A chromosome with no destination makes `max()` of an empty set raise ValueError
  (lines 41 and 58); nothing is skipped.
- The split test compares query chromosome names with the reference names held in the split
  list (lines 51 and 62).

## Model

| member | source | states |
|---|---|---|
| `BuscoTable.ReadLine` | fusion_split_finder.py:11-26 | a line raises exactly when it is malformed (fewer than 2 columns; a Complete row without 5 columns or with a non-integer coordinate; a Duplicated row without 3 columns); comments and other statuses contribute nothing; anchors only from `Complete`, known chromosomes from `Duplicated` |
| `BuscoTable.Entries` | fusion_split_finder.py:10-26 | all lines are read when none is malformed, one entry per line; otherwise the error is that of the FIRST malformed line, every earlier line being well-formed |
| `BuscoTable.Dedup` | fusion_split_finder.py:21-26 | the "append unless present" list holds exactly the elements seen, each once |
| `BuscoTable.DedupFirstOccurrence` | fusion_split_finder.py:21-26 | the list keeps first-occurrence order: an element placed before another first occurs in the input before the other does |
| `BuscoTable.DedupRun` | fusion_split_finder.py:21-22 | rows all on one chromosome make a list holding that chromosome alone |
| `BuscoTable.TableOf` | fusion_split_finder.py:14-22 | the chromosome dict's key list has no repeats, names exactly the dict's keys, and every key has at least one marker |
| `BuscoTable.Parse` | fusion_split_finder.py:6-30 | a successful parse lists exactly the keys of the chromosome dict |
| `BuscoTable.ParseTable` | fusion_split_finder.py:6-30 | the imperative parse (line loop, then warning loop) returns exactly `Parse(lines)`: the table or the first line's exception |
| `BuscoTable.AddEntry` | fusion_split_finder.py:14-26 | one row's update of the marker dict, the chromosome dict, its key order and the known-chromosome list agrees with the definitions on one more entry |
| `BuscoTable.CompleteRowStep` | fusion_split_finder.py:14-22 | a Complete row stores its locus under its ID, appends its ID under its chromosome (creating the key, and extending the key order, when new) and adds its chromosome to `all_chr_list` when absent |
| `BuscoTable.DuplicatedRowStep` | fusion_split_finder.py:23-26 | a Duplicated row leaves both dicts and the key order unchanged and adds its chromosome to `all_chr_list` when absent |
| `BuscoTable.IgnoredStep` | fusion_split_finder.py:11-14 | a comment or a row of another status changes nothing |
| `BuscoTable.ListedIdsAreCompleteRows` | fusion_split_finder.py:14-20 | an ID is listed under chromosome `c` exactly when some line is a Complete row for it on `c` |
| `BuscoTable.IdsOnComplete` | fusion_split_finder.py:17-20 | the ID of every Complete entry on `c` is listed under `c` |
| `BuscoTable.MarkerMap` | fusion_split_finder.py:16 | the marker dict over the entries; the last Complete row's locus is the one stored under its ID |
| `BuscoTable.IdsOn` | fusion_split_finder.py:17-20 | the IDs appended under one chromosome, at most one per row |
| `BuscoTable.CompleteChrs` | fusion_split_finder.py:14-22 | the chromosomes of the Complete rows in row order, repeats kept, at most one per row; deduplicated, they are the order in which the chromosome dict gains its keys |
| `BuscoTable.SeenChrs` | fusion_split_finder.py:21-26 | the chromosomes named by Complete and Duplicated rows in row order, repeats kept, at most one per row; deduplicated, they are `all_chr_list` |
| `BuscoTable.ChrsOf` | fusion_split_finder.py:21-26 | the chromosome a row adds to `all_chr_list`: exactly the one a Complete or Duplicated row names, none for other rows |
| `BuscoTable.Chr2Busco` | fusion_split_finder.py:17-20 | the chromosome dict over the entries; every key has a non-empty ID list |
| `BuscoTable.Unanchored` | fusion_split_finder.py:27-29 | the chromosomes warned about are seen chromosomes that are not keys, no more of them than seen |
| `BuscoTable.WarnUnanchored` | fusion_split_finder.py:27-29 | the warning loop returns exactly `Unanchored` of the seen list and the chromosome dict |
| `BuscoTable.EntriesAllRead` | fusion_split_finder.py:10-26 | when every line reads, the parse reads all of them and the entries are exactly the lines' readings |
| `BuscoTable.EntriesSnoc` | fusion_split_finder.py:14-26 | reading one more entry changes the marker dict, the chromosome lists and the chromosome dict as lines 14-26 do |
| `BuscoTable.Chr2BuscoSnoc` | fusion_split_finder.py:17-20 | one more Complete row appends its ID under its chromosome, creating the key when new; other entries change nothing |
| `BuscoTable.Chr2BuscoSnocComplete` | fusion_split_finder.py:17-20 | a Complete row appends its ID under its chromosome, creating the key when new |
| `BuscoTable.Chr2BuscoSnocOther` | fusion_split_finder.py:23-26 | any other row leaves the chromosome dict unchanged |
| `BuscoTable.IdsOnSnoc` | fusion_split_finder.py:17-20 | one more row adds its ID to its own chromosome's list only, at the end |
| `BuscoTable.IdsOnSound` | fusion_split_finder.py:17-20 | every ID listed on `c` is the ID of a Complete entry on `c` |
| `BuscoTable.IdsOnEmpty` | fusion_split_finder.py:17-20 | a chromosome has listed IDs exactly when some Complete row lies on it |
| `BuscoTable.IdsOnAppend` | fusion_split_finder.py:17-20 | the IDs listed per chromosome keep input row order: more rows only append |
| `BuscoTable.MarkersAreLastCompleteRows` | fusion_split_finder.py:14-16 | the marker dict holds exactly the IDs of Complete rows, each with the locus of the LAST Complete row carrying it |
| `BuscoTable.MarkerMapLast` | fusion_split_finder.py:16 | the same property over entries: an ID is stored iff some Complete entry carries it, and with the last one's locus |
| `BuscoTable.MarkerMapKeys` | fusion_split_finder.py:16 | an ID is a key of the marker dict iff some Complete entry carries it |
| `BuscoTable.MarkerMapLastRow` | fusion_split_finder.py:16 | a stored ID holds the locus of the last Complete entry carrying it |
| `BuscoTable.WarnedAreDuplicatedOnly` | fusion_split_finder.py:21-29 | the warned chromosomes are exactly those named by a Duplicated row and by no Complete row, each once |
| `BuscoTable.WarnedEntries` | fusion_split_finder.py:21-29 | the same property over entries: warned iff some Duplicated entry names the chromosome and no Complete entry does, each once |
| `BuscoTable.UnanchoredMembers` | fusion_split_finder.py:27-29 | the warning loop reports exactly the seen chromosomes that are not keys, without repeats |
| `BuscoTable.CompleteChrsMembers` | fusion_split_finder.py:14-22 | a chromosome is recorded from Complete rows iff some Complete row lies on it |
| `BuscoTable.SeenChrsMembers` | fusion_split_finder.py:21-26 | a chromosome is known iff some Complete or Duplicated row names it |
| `BuscoTable.OnlyCompleteRowsAddMarkers` | fusion_split_finder.py:11-26 | appending a comment, a Duplicated row or a row of another status leaves the marker dict, the chromosome dict and its key order unchanged |
| `BuscoTable.RepeatedIdDisagreement` | fusion_split_finder.py:16-20 | an ID with Complete rows on c1 then c2 is listed under both chromosomes while the marker dict keeps only the c2 locus: the two dicts can disagree |
| `BuscoTable.SameIdOnTwoChrs` | fusion_split_finder.py:16-20 | for ANY two Complete rows sharing an ID on different chromosomes, both chromosomes list the ID and the marker dict holds only the second locus |
| `BuscoTable.DedupSnoc` | fusion_split_finder.py:21-26 | appending to the known list adds an element only when it is not yet present |
| `BuscoTable.FirstMalformedLine` | fusion_split_finder.py:12-15 | when all earlier lines read and line `i` does not, the parse raises that line's error |
| `Majority.Count` | fusion_split_finder.py:41-42 | `list.count`: positive exactly when the element occurs |
| `Majority.IsMode` | fusion_split_finder.py:41 | an element `max(set(l), key=l.count)` may return: present, and counted at least as often as any other |
| `Majority.MaxCount` | fusion_split_finder.py:41-42 | the count of a most frequent element: 0 only for the empty list, never above the length |
| `Majority.Exceeds` | fusion_split_finder.py:42-43 | the test `count/total > min_proportion`, cross-multiplied; a share of at most 1 can exceed only a threshold below 1 |
| `Majority.MaxCountOf` | fusion_split_finder.py:41 | the result bounds the count of every candidate and is attained by one of them |
| `Majority.CountAtMostLength` | fusion_split_finder.py:42 | a count never exceeds the list length |
| `Majority.ModeExists` | fusion_split_finder.py:41 | a non-empty list has a most frequent element, with count `MaxCount` |
| `Majority.ModeCount` | fusion_split_finder.py:41-42 | every most frequent element has count `MaxCount`, between 1 and the length: the tie-break of `max` does not change the count |
| `Majority.ExceedsIsQuotientComparison` | fusion_split_finder.py:42-43 | the cross-multiplied test is exactly `count/total > num/den` over the reals |
| `FusionSplit.Destinations` | fusion_split_finder.py:35-40 | there is at most one destination per source marker |
| `FusionSplit.CollectDestinations` | fusion_split_finder.py:35-40 | the inner loop returns exactly `Destinations`, skipping markers missing from the target |
| `FusionSplit.DestinationsMembers` | fusion_split_finder.py:35-40 | a chromosome is a destination iff some source marker lies on it in the target |
| `FusionSplit.DestinationsAppend` | fusion_split_finder.py:35-40 | destinations follow the source order: those of a concatenation are concatenated |
| `FusionSplit.DestinationsDropMissing` | fusion_split_finder.py:37-40 | there is one destination per marker exactly when no marker is missing from the target |
| `FusionSplit.Flagged` | fusion_split_finder.py:43-44 | a chromosome is flagged when its top share is not strictly above `min_proportion`; with a threshold of 1 or more every chromosome is flagged |
| `FusionSplit.Classification` | fusion_split_finder.py:32-45 | the list find_fusions_and_splits returns, or the error it raises; the list is never longer than the key list |
| `FusionSplit.FindFusionsAndSplits` | fusion_split_finder.py:32-45 | the loop over source keys, which takes any mode, returns exactly `Classification` |
| `FusionSplit.ClassificationStep` | fusion_split_finder.py:33-45 | one more key raises when it has no destination, else is appended exactly when flagged; earlier keys' result is kept |
| `FusionSplit.FailurePersists` | fusion_split_finder.py:41 | once a key raises, the whole call raises that error |
| `FusionSplit.ClassificationFails` | fusion_split_finder.py:41 | the call raises iff some source chromosome has no destination, and the error names the first one in key order |
| `FusionSplit.ClassificationFailsFirst` | fusion_split_finder.py:41 | a failed call names the first key without destinations |
| `FusionSplit.ClassificationSucceeds` | fusion_split_finder.py:41 | a successful call saw a destination for every key |
| `FusionSplit.ClassificationMembers` | fusion_split_finder.py:33-45 | a successful result holds a source chromosome iff it is a key whose top share is not above `min_proportion`; it is a subsequence of the key order, without repeats |
| `FusionSplit.FlaggedMembers` | fusion_split_finder.py:33-45 | a successful result holds a chromosome iff it is a key and flagged |
| `FusionSplit.FlaggedSubsequence` | fusion_split_finder.py:33-45 | a successful result is a subsequence of the key order |
| `FusionSplit.FlaggedDistinct` | fusion_split_finder.py:33-45 | distinct keys give a result without repeats |
| `FusionSplit.FlagIgnoresTieBreak` | fusion_split_finder.py:41-44 | for EVERY mode `top`, a chromosome is in the result iff `count(top)/len <= min_proportion`: tie-breaking does not matter |
| `FusionSplit.UnanimousNotFlagged` | fusion_split_finder.py:41-44 | a chromosome whose found markers all lie on one target chromosome is not flagged when `min_proportion < 1` |
| `FusionSplit.UnanimousExceeds` | fusion_split_finder.py:42-43 | a non-empty list of one repeated chromosome exceeds any threshold below 1 |
| `FusionSplit.FullShareExceeds` | fusion_split_finder.py:42-43 | a share of n out of n exceeds any threshold below 1 |
| `FusionSplit.UnanimousCount` | fusion_split_finder.py:41-42 | a list of copies of `y` counts `y` as many times as it is long |
| `Assignment.StatusFor` | fusion_split_finder.py:51-65 | the status a query chromosome may get: split before fusion before ancestral, an ancestral one naming a mode, its count and the total |
| `Assignment.Assigned` | fusion_split_finder.py:50-65 | the rows succeed exactly when no voted chromosome lacks destinations, fail naming the first that does, and are an assignment on success |
| `Assignment.AssignChromosomes` | fusion_split_finder.py:47-65 | one row per query key in key order, with the split > fusion > ancestral precedence and an ancestral row naming a mode, its count and the total; or the error of the first voted chromosome without destinations |
| `Assignment.AncestralBounds` | fusion_split_finder.py:58-60 | an ancestral row's assigned count is `MaxCount` of its destinations, with 1 <= assigned <= total, so the proportion lies in (0, 1] |
| `Assignment.AssignmentUpToTieBreak` | fusion_split_finder.py:58-59 | two valid outputs for the same input agree on every status and count; only the reference chromosome named by an ancestral row may differ |
| `Assignment.UnanimousRow` | fusion_split_finder.py:52-60 | a voted chromosome whose markers all map to one reference chromosome `y` is `Ancestral(y, n, n)` |
| `Finder.FusionSplitFinder` | fusion_split_finder.py:80-86 | parse both tables, classify reference→query (split) and query→reference (fusion), assign; the first step that raises decides the error |
| `Finder.SplitNeedsReferenceName` | fusion_split_finder.py:51-63 | a query chromosome reported `split` bears the name of a reference chromosome that the reference→query vote flagged |
| `Finder.FusionScenarioNoSplit` | fusion_split_finder.py:82 | in the fusion example neither reference chromosome is split |
| `Finder.FusionScenarioFused` | fusion_split_finder.py:84 | in the fusion example X is fused: its top share 3/5 is not above 0.9 |
| `Finder.FusionScenarioFlagged` | fusion_split_finder.py:35-44 | X's markers go to A, A, A, B, B: a top share of 3/5, not above 0.9, so X is flagged |
| `Finder.FusionScenarioRow` | fusion_split_finder.py:64-65 | in the fusion example the only valid assignment is the single row `X fusion` |
| `Finder.CompleteLine` | fusion_split_finder.py:12-16 | a five-field Complete row with integer coordinates reads as the anchor it describes |
| `Finder.ReferenceTable` | fusion_split_finder.py:6-30 | the example's reference lines parse to dicts A → [m1, m2, m3], B → [m4, m5], with no warning |
| `Finder.QueryTable` | fusion_split_finder.py:6-30 | the example's query lines parse to the dict X → [m1, ..., m5], with no warning |
| `Finder.FusionScenarioAssigned` | fusion_split_finder.py:50-65 | in the fusion example assign_chromosomes can only return the row `X fusion` |
| `Finder.FusionScenarioOutcome` | fusion_split_finder.py:80-86 | from the example's token lines, the whole run's only outcome is the single row `X fusion` |
| `Finder.FusionScenarioReaches` | fusion_split_finder.py:80-86 | from the example's token lines, the run reaches assign_chromosomes with no split and X fused, and its outcome is whatever that call returns |

## Left out

- File reading and writing, the header row, and every `print` (warnings and summaries).
  Warnings are the returned `warned` list, and the assignment file is the returned rows.
- `argparse` and the command-line defaults. The entry point's calls are kept as `Finder.FusionSplitFinder`.
- Whitespace splitting and `int()` parsing. A line arrives as tokens, each carrying the
  integer `int()` would read from it, or none.
- Floating point: `min_proportion` is an exact fraction and the comparison is exact.
  Float rounding at the boundary is not modelled.
- `Assignment.AssignChromosomes`: a row holds the two counts, not the `prop_BUSCOs` float
  column.
- `Assignment.AssignChromosomes`: when line 58 raises, the rows already written to the file
  are not modelled; the result is only the error.
- Python's set iteration order in `max(set(...))`. The methods choose any mode, and the
  specifications hold for every choice.
- Parameters that the source passes but never reads are not in the signatures:
  - `find_fusions_and_splits`: the source marker dict and the target chromosome dict;
  - `assign_chromosomes`: the query marker dict and the reference chromosome dict.
