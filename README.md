# gpd_annotate: read-to-transcript annotation, modelled in Dafny

`pyutil/gpd_annotate.py` assigns each read of a GPD file to its best-matching
reference transcript and writes one tab-separated report line per assigned
read. This project models its single-threaded run in Dafny and proves
properties of that model. The run has five parts:

- **Reference index** (`records.dfy`, `grouping.dfy`, `driver.dfy`). The
  reference lines are counted from 1. Each parsed record carries its line
  number as payload and is appended to the list of its chromosome (`txome`).
- **Read buckets** (`text.dfy`, `driver.dfy`).
  - The read lines are counted from 1.
  - The chromosome is the group of the pattern `[^\t]*\t[^\t]*\t([^\t]+)`.
    This is the run of non-tab characters after the second tab, and it must
    not be empty.
  - `[line, z]` is appended to that chromosome's bucket (`chroms`).
  - A line the pattern does not match ends the run. The model returns
    `Failure(NoChromosomeField(z))` for it.
- **Candidate selection** (`annotate.dfy`, `ranking.dfy`). This is
  `annotate_line`:
  - Pre-filter the transcripts of the read's chromosome by range overlap.
  - Score each one in single-exon or multi-exon mode.
  - Keep the ones whose exon overlap is true.
  - Take the first element of a stable sort on the key
    `(full, subset, econsec, ecnt, min(osize/read_len, osize/tx_len))`,
    larger first.
- **Batch formatting** (`report.dfy`). In `do_buffer`, every buffered read
  that gets a result becomes one 15-column line ending in a newline.
- **Dispatch** (`driver.dfy`).
  - Every bucket whose chromosome the reference knows is processed against
    the one-entry index `{chrom: txome[chrom]}`.
  - Each result is wrapped in a `Queue`.
  - The lines of all results are written in submission order.

The GPD library is not part of this model. Its operations are fields of the
`Library` datatype (`records.dfy`):

- `parse` stands for `GPD(line)`.
- `overlaps`, `exonOverlap` and `overlapSize` stand for the range and exon
  comparisons.
- `length` and `rangeString` stand for the length and the range text.

These are arbitrary total functions. Every result proved here holds for any
choice of them. `exonOverlap` receives the exact threshold arguments the code
passes, as a `Thresholds` value: `SingleExon(100, 0.5)` or
`MultiExon(10, 0.0, 0.8, false)`.

Each loop, loop turn or driver of the source is a method proved equal to a
function:

| method | function |
|---|---|
| `BuildIndex` | `Index` |
| `BucketReads` | `Bucketing` |
| `AnnotateLine` | `Annotation` |
| `ScoreTranscript` | `Score` |
| `DoBuffer` | `FormatBatch` |
| `Dispatch` | `Assemble` |
| `WriteResults` | `Drain` |
| `Run` | `Pipeline` |

The lemmas state the source's promises about those functions.

Two properties of the code that are easy to miss:

- **Ranking depends on candidate order.** The stable sort picks the earliest
  of the candidates with equal keys (`Ranking.TiesGoToFirst`), so reordering
  the candidates can change the pick. Only the key of the pick is the same
  for every order (`Ranking.PickKeyOrderIndependent`). Candidates keep the
  order of the reference list, so a tie goes to the transcript listed first
  (`Annotate.AnnotationEarliest`).
- **Bucket key versus parsed chromosome.** A read is bucketed by its third
  column, but `annotate_line` looks up the chromosome of the parsed record.
  The bucket is processed against a one-entry index, so a read whose two
  chromosomes differ gets no line. `Driver.RestrictedIndex` states this.

## Model

| member | source | states |
|---|---|---|
| Driver.BuildIndex | pyutil/gpd_annotate.py:46-55 | The reference loop (count, parse, tag with the count, create the chromosome's list on first sight, append) ends with exactly the index `Index`. |
| Driver.IndexByReferenceLine | pyutil/gpd_annotate.py:46-55 | A chromosome has a list exactly when some reference line is on it. Reference line i, numbered i+1, is in its own chromosome's list and in no other. Every entry is the parse of the line its payload names. Every list keeps reference input order. |
| Grouping.GroupByAppend | pyutil/gpd_annotate.py:52-55 | Appending one entry extends only its own key's list, creating the list if absent; every other list is unchanged. |
| Grouping.GroupKeys | pyutil/gpd_annotate.py:73-74 | A key has a list exactly when some input element has that key. |
| Grouping.GroupMembership | pyutil/gpd_annotate.py:75 | Element i, numbered i+1, lies in the list of its own key and in no other list. |
| Grouping.GroupEntries | pyutil/gpd_annotate.py:75 | Every list entry is an input element tagged with its own 1-based position and carries the list's key. |
| Grouping.GroupOrder | pyutil/gpd_annotate.py:68-75 | Within every list the line numbers strictly increase (input order). |
| Grouping.FirstSeen | pyutil/gpd_annotate.py:73-74 | The dictionary's key order: exactly the keys seen, each once. |
| Text.ThirdFieldIsThirdColumn | pyutil/gpd_annotate.py:70-71 | The pattern matches exactly when the line has at least three tab-separated fields and the third is non-empty; the group is that third field. |
| Text.TabIndex | pyutil/gpd_annotate.py:70 | The first tab at or after a position (or the end): no tab before it, a tab at it. |
| Driver.FirstUnmatched | pyutil/gpd_annotate.py:68-71 | Every read line before the returned index matches the pattern, and the line at the index (if any) does not. |
| Driver.BucketReads | pyutil/gpd_annotate.py:65-75 | The read loop ends with exactly `Bucketing`: the fault naming the first unmatched line, or the buckets and their key order. |
| Driver.BucketingFails | pyutil/gpd_annotate.py:70-71 | Reading fails exactly when some line does not match, and the fault carries the 1-based number of the first such line. |
| Driver.BucketsByThirdColumn | pyutil/gpd_annotate.py:68-75 | After a successful read every line matched and is in exactly one bucket: the one of its third column, as `[line, z]` with z its line number. |
| Driver.BucketEntries | pyutil/gpd_annotate.py:68-75 | Every bucket entry is a read line tagged with its own line number and whose third column is the bucket's key; line numbers strictly increase within a bucket. |
| Driver.BucketOrder | pyutil/gpd_annotate.py:73-74 | The dictionary's key order lists every bucket exactly once. |
| Annotate.OverlappingMembers | pyutil/gpd_annotate.py:142 | The pre-filter keeps exactly the listed transcripts whose range overlaps the read's. |
| Annotate.ScoreModes | pyutil/gpd_annotate.py:146-163 | Single-exon mode applies when the transcript or the read has one exon. It calls `exon_overlap` with `single_minover=100, single_frac=0.5` and gives full=False, subset=False, econsec=1. Otherwise `exon_overlap` gets `multi_minover=10, multi_endfrac=0, multi_midfrac=0.8, multi_consec=False` and full, subset and econsec come from the overlap. A transcript is kept exactly when the overlap is true. |
| Annotate.ScoreTranscript | pyutil/gpd_annotate.py:146-163 | One loop turn with its `full`/`subset`/`econsec` flags yields exactly the entry `Score` describes. |
| Annotate.OverlappingInOrder | pyutil/gpd_annotate.py:142 | The pre-filter keeps list order: the transcripts kept before the k-th kept one are exactly those kept from the part of the list before its position. |
| Annotate.CandidatesScored | pyutil/gpd_annotate.py:143-163 | Every candidate is the entry of a pre-filtered transcript whose exon overlap is true, and every such transcript contributes its entry. There is no candidate exactly when every exon overlap is false. |
| Annotate.CandidatesInOrder | pyutil/gpd_annotate.py:145-163 | Candidates keep the order of the pre-filtered list: the entries before the k-th are exactly those built from the transcripts before its own. |
| Annotate.CandidatePosition | pyutil/gpd_annotate.py:142-163 | The k-th candidate's transcript has a position in the reference list, and every transcript before that position that overlaps and passes the exon overlap has its entry among the first k candidates. |
| Annotate.AnnotationNone | pyutil/gpd_annotate.py:139-166 | `annotate_line` gives None exactly when the chromosome is not indexed, or no transcript overlaps, or every overlapping transcript fails `exon_overlap`. |
| Annotate.AnnotationBest | pyutil/gpd_annotate.py:139-166 | A result is the entry of a transcript listed for the read's chromosome that overlaps the read. It is a candidate that no candidate beats on the key, and it beats every candidate before it. |
| Annotate.AnnotationUnbeaten | pyutil/gpd_annotate.py:139-166 | No transcript listed for the read's chromosome that overlaps the read and passes the exon overlap has an entry that beats the result on the key. |
| Annotate.AnnotationEarliest | pyutil/gpd_annotate.py:139-166 | Ties go to the earliest transcript of the reference list: the result's transcript sits at a position before which every overlapping transcript that passes the exon overlap is beaten by the result. |
| Annotate.AnnotateLine | pyutil/gpd_annotate.py:139-166 | The loop over the pre-filtered transcripts and the sort return exactly `Annotation`. |
| Ranking.KeyOrder | pyutil/gpd_annotate.py:165 | The five-part key is a strict weak order: irreflexive, asymmetric, negatively transitive. Neither of two candidates beats the other exactly when their keys are equal. |
| Ranking.Insert | pyutil/gpd_annotate.py:165 | Inserting into a sorted list gives a sorted list with one more occurrence of the element. |
| Ranking.StableSort | pyutil/gpd_annotate.py:165 | `sorted` on the key returns a permutation of the candidates in which no element is beaten by a later one. |
| Ranking.BestIndex | pyutil/gpd_annotate.py:165-166 | The first candidate that no candidate beats: it beats every earlier candidate. |
| Ranking.SortHeadIsEarliestBest | pyutil/gpd_annotate.py:165-166 | `bests[0]` is the earliest candidate that no candidate beats (ties go to the one met first). |
| Ranking.PickKeyOrderIndependent | pyutil/gpd_annotate.py:165-166 | For any reordering of the same candidates the pick has the same key. |
| Ranking.TiesGoToFirst | pyutil/gpd_annotate.py:165 | Of two candidates with equal keys the sort keeps the first one first, in either order. |
| Text.SplitJoin | pyutil/gpd_annotate.py:134-136 | Splitting the tab-joined fields gives back the fields when none holds a tab. |
| Text.JoinSplit | pyutil/gpd_annotate.py:134-136 | Joining the tab-separated fields of a line gives back the line. |
| Text.NatToStringValue | pyutil/gpd_annotate.py:134-136 | `str(n)` for n >= 0 reads back as n and has no leading zero (its first digit is `0` only for 0), so it is the canonical decimal form. |
| Text.IntToString | pyutil/gpd_annotate.py:134-136 | `str(n)` is non-empty and has no tab or newline, so a number never splits a column. |
| Report.FormatLineColumns | pyutil/gpd_annotate.py:125-136 | An output line ends in a newline. When the names and range strings hold no tab, it has exactly 15 columns. Column 1 is the read's line number, column 5 is `full` iff the full flag is set (else `partial`), and column 15 is the transcript's reference line number. |
| Report.FormatBatchLines | pyutil/gpd_annotate.py:117-137 | A batch has at most one line per buffered read. Every line is the formatted result of a buffered read whose `annotate_line` result is not None. |
| Report.FormatBatchConcat | pyutil/gpd_annotate.py:119-137 | Lines come out in buffer order and each read contributes independently: the batch of `b1 + b2` is the batch of `b1` followed by that of `b2`. |
| Report.FormatBatchSplit | pyutil/gpd_annotate.py:119-137 | The batch is the batch of the reads before read i, then read i's own lines (its formatted annotation, or nothing when it has none), then the batch of the reads after it. |
| Report.FormatBatchEmits | pyutil/gpd_annotate.py:119-137 | Every buffered read whose `annotate_line` result is not None emits its formatted line into the batch. |
| Report.DoBuffer | pyutil/gpd_annotate.py:117-137 | The loop over the buffer (parse, annotate, skip on None, append the line) returns exactly `FormatBatch`. |
| Driver.Queue.Get | pyutil/gpd_annotate.py:102-106 | `Queue(v).get()` is `v`. |
| Driver.RestrictedIndex | pyutil/gpd_annotate.py:89 | Against the one-entry index a read on that chromosome gets the same result as against the full index, and any other read gets None. |
| Grouping.ConcatMapAppend | pyutil/gpd_annotate.py:96-98 | The joined results of a concatenation are the joined results of each part, in order. |
| Driver.Dispatch | pyutil/gpd_annotate.py:83-98 | For any key order listing only buckets, the dispatch loop and the write loop produce exactly `Assemble`: the batches of the known chromosomes in submission order. |
| Driver.WriteResults | pyutil/gpd_annotate.py:96-98 | Writing every line of every result in turn gives the results' values one after the other. |
| Driver.AssembleSplit | pyutil/gpd_annotate.py:83-98 | The output is the output of the chromosomes submitted before the i-th, then the i-th chromosome's own batch (nothing when the reference lacks it), then the output of those submitted after it. |
| Driver.AssembleInSubmissionOrder | pyutil/gpd_annotate.py:83-98 | Submitting `o1` then `o2` writes the lines of `o1` then those of `o2`, with no re-sorting by line number. |
| Driver.UnknownChromosomeIgnored | pyutil/gpd_annotate.py:83-84 | A bucket whose chromosome the reference lacks never affects the output, whatever it holds. |
| Driver.Run | pyutil/gpd_annotate.py:46-98 | The single-threaded run produces exactly `Pipeline`: the fault of the first unmatched read line, or the assembled output. |

## Left out

- GPD parsing and the library behind it are not part of this model. `parse`
  is total, so records that would make `GPD(line)` raise are not modelled.
- The range and exon primitives are opaque fields of `Library`. Nothing is
  assumed about what `exon_overlap` computes beyond being a function of the
  read, the transcript and the thresholds.
- File and gzip opening, standard input and output, and `of.write` are not
  modelled. The input files are sequences of lines, and the output is the
  sequence of written lines.
- `multiprocessing.Pool`, `apply_async`, the lock and the `do_out` progress
  counter are not modelled. Only the single-threaded path (one worker) is.
  The results list keeps submission order in both paths.
- The library's `gpd.value('chrom')`, which keys the reference index, is
  taken to equal `get_range().chr`, which `annotate_line` looks up
  (`Driver.ChromOf` is that range field). The GPD library that would
  guarantee this is not part of this model.
- Progress messages on standard error, argument parsing (`do_inputs`) and
  `external_cmd` are not modelled.
- Ranking.Fraction: the fifth sort key uses exact rationals, not
  double-precision division. Two fractions that round to the same double
  may rank differently here.
- Ranking.Fraction: read and transcript lengths are positive by type
  (`Positive`), so the division by zero the code would raise on a zero
  length is excluded.
- Driver.Bucketing: the dictionary's key order is modelled as insertion
  order. Under Python 2, which the script targets, it is hash order.
  `Driver.Dispatch` and `Driver.AssembleInSubmissionOrder` hold for any order
  of the keys. Only the concrete order `Driver.Run` feeds them is insertion
  order.
