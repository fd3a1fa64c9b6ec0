# ForgeQL core: a verified model

ForgeQL answers structured queries over indexed source trees and applies edits to them.  This
project models the parts of `forgeql-core` whose correctness is an argument rather than a
lookup, and proves what they promise.  `dafny verify dfyconfig.toml` checks everything.

Code that changes state step by step is modelled as classes, loops and in-place arrays, and
each such method is proved equal to a specification function on values; the theorems are then
lemmas about those functions, over every input, every run or every interleaving.

| module | models |
|---|---|
| `JobRegistry` | the background job pool: its critical sections, and a step machine in which they interleave freely |
| `FreshnessGate` | the stamp/hash/re-index protocol that runs before a command reads indexed files, against a writer who may rewrite any file at any instant |
| `Predicates`, `Like`, `RowOrder`, `Sorting`, `Pipeline`, `FileGroups` | the clause pipeline: predicates, `LIKE`, ORDER BY, the top-K shortcut, GROUP BY, paging, and limiting by whole files |
| `LineBudget` | the per-session line budget and its halving recovery |
| `UndoSnapshot`, `ShowMore`, `Ring` | the UNDO and SHOW MORE codecs and the slot ring both keep |
| `NodeId`, `DirectoryRev` | node handles, their line offsets, and directory revisions |
| `Template`, `Substitution` | command templates: resolving one, and sequential against simultaneous replacement |
| `CivilDate`, `LogLine` | the timestamps of the query log, as fields and as text |
| `Text`, `Wrappers` | what is used of Rust's strings and options |

## What is assumed

- The regex engine and the glob matcher are uninterpreted, except that `.{N,}`, where it
  compiles, finds N consecutive characters other than newlines.  The field table (`canonical`,
  `stamp_default`) is a parameter.
- A file's stamp moves with every rewrite.  The source names the one exception itself: a rewrite
  that keeps both size and mtime (`crates/forgeql-core/src/engine.rs:751-754`).  Re-indexing a
  file may do anything to that file's entry and to the rows, and may fail, but leaves the
  content ids of other files alone.  What a command names is any function of the index whose
  results stay within a finite set of files.
- Job bodies return.  The budget's two clocks advance together.
- Hashes are given 32-byte sequences.  Whether two different files share a hash is not modelled.

## Where the code and its documentation differ

The model follows the code in each case.

- *ORDER BY is not total on every row set.*  The comparator's documentation calls it total on
  distinct rows (`crates/forgeql-core/src/filter.rs:954-960`).  It is antisymmetric, and Equal
  does mean equal tie-break keys, but transitivity depends on how rows answer the ORDER BY field:
  9 < 10 as numbers while "10" < "5x" < "9" as text.
  `RowOrder.TransitiveExactlyWhenHomogeneous` gives the exact condition on the mix of row shapes.
  Asking that every row have a number or have neither number nor text is not enough: ascending,
  a bare 10 sorts before a row without the field, which sorts before a 5 that also reads as
  "5" (`RowOrder.AbsentBetweenNumbersCycle`).  On the row types as they are, an open field's
  number is parsed from its own text, and the numbers a row stores have no text: `line`, `usages`
  and `count` of symbol rows (`crates/forgeql-core/src/filter/impls.rs:58-67`), and `size`,
  `depth`, `added` and the like of file, diff and outline rows, which have no open fields.
  Numbers with and without text, or with empty text, therefore meet on one field only where an
  enrichment column of symbol rows has one of those three names.  Elsewhere the only mixture
  that breaks the order is numbers with text that is not a number
  (`RowOrder.FieldsOfOneKind`).  The condition is about mixtures of rows: particular rows
  of a mixture that breaks the order in general can still be ordered, and
  `Pipeline.ApplyOrdering` asks only that the comparator be total on the rows at hand.
- *`LIKE` literals.*  `like_pattern_literals` says its runs appear verbatim in every matching
  value (`crates/forgeql-core/src/filter.rs:719-723`).  The matcher folds ASCII case, so that is
  true of exactly the patterns without ASCII letters (`Like.RunsOccurVerbatimExactly`); for the
  others the folded runs appear in the folded text (`Like.PrefilterDropsNoMatch`).  `like_match`
  also folds the ASCII letters of text that is not all ASCII.
- *The `.{N,}` shortcut* counts bytes and does not compile the pattern.  It and the evaluator
  agree on a row for every N exactly when the value is single-line ASCII
  (`Predicates.ShortcutIsExactOnAptValues`).  They also part where the pattern does not compile:
  `.{+5,}` parses as a length and may not.
- *The rate of budget recovery* is bounded exactly when the base is below 2^31 or the ceiling
  is 0: the shift is clamped at 31, so a larger base pays on every idle command.
- *The ceiling* is described as a hard cap, but a fresh tracker starts at `initial` unclamped;
  the balance stays under the ceiling over every run exactly when `initial` does.
- *Zero-line rewards* return the delta of the call before them.  Reported deltas therefore sum
  to the change of the balance, plus what such rewards repeat, plus what a reload trims from a
  balance above the ceiling (`LineBudget.DeltasTelescope`, `LineBudget.ZeroRewardRepeatsDelta`).
- *Template names.*  "Longest first" keeps `$t` from clobbering `$target` where `target` is an
  identifier parameter (`Substitution.LongerIdentifierWins`); a text parameter's name is no
  protection (`Substitution.TextNameIsClobbered`).  Sequential replacement can also read an
  argument as part of another placeholder.  For names of identifier characters it does so, for
  some accepted arguments, exactly when a `$` that nothing spliced earlier replaces is followed,
  up to the next `$`, by a proper beginning of some identifier's name, and something spliced
  before that identifier stands at the next `$` (`Substitution.SimultaneousExactlyWhenNoJoin`).
  For other names without `$` it does exactly when arguments no longer than the longest name
  bring it about (`Substitution.SimultaneousExactlyWhenNeverMisread`).
- *Cut-off SHOW MORE buffers.*  The reader is said never to yield a stray empty line from a
  partially written file (`crates/forgeql-core/src/showmore.rs:212-213`).  It yields one, where
  the output has no empty line, exactly when the cut falls at the beginning of a line that is
  not itself empty (`ShowMore.TornBufferStraysExactly`): "a" and "b" cut after the first line
  read as "a" and an empty line.
- *The log's year* is narrowed to 32 bits, so printed dates are exact before
  4294967296-01-01 and wrong from then on.  As text the timestamps sort by time only up to year
  9999, since the next year has five digits (`LogLine.LogSortsExactlyBelow`).
- *A directory revision* is said to move when membership changes
  (`crates/forgeql-core/src/node_id.rs:200-204`).  It moves exactly when the fingerprints in
  which the two memberships differ do not cancel (`DirectoryRev.RevMovesExactly`).

## Model

| member | source | states |
|---|---|---|
| JobRegistry.Registry.constructor | crates/forgeql-core/src/jobs.rs:200-212 | an empty registry, its cap raised to at least 1 |
| JobRegistry.Registry.Evict | crates/forgeql-core/src/jobs.rs:165-187 | drops finished records, oldest first, until at most 256 remain or none is finished |
| JobRegistry.Registry.Accept | crates/forgeql-core/src/jobs.rs:238-258 | the critical section of a submission: the next id, a queued record last in order and queue, then eviction |
| JobRegistry.Registry.Pump | crates/forgeql-core/src/jobs.rs:267-285 | hands queued jobs to workers while a slot is free, in order, skipping what has no record or no body |
| JobRegistry.Registry.Complete | crates/forgeql-core/src/jobs.rs:355-369 | records outcome and output and frees one slot, for a known id only |
| JobRegistry.Registry.List | crates/forgeql-core/src/jobs.rs:346-353 | the retained jobs in the order kept |
| JobRegistry.PoolIsSafe | crates/forgeql-core/src/jobs.rs:234-285 | under every interleaving: `running` is the number of running records and at most the cap the pool was made with, the queue is exactly the queued records, starts followed by the queue are the submission order, and a waiting job with a free slot implies a pump still owed |
| JobRegistry.InvariantHolds | crates/forgeql-core/src/jobs.rs:234-373 | the invariant tying records, queue, workers, outcomes and history holds after every schedule |
| JobRegistry.PumpTakesOldest | crates/forgeql-core/src/jobs.rs:267-285 | both skip branches of the pump are unreachable: it starts exactly the oldest min(queue, free slots) jobs |
| JobRegistry.EvictionDropsOldestFinished | crates/forgeql-core/src/jobs.rs:163-187 | eviction removes exactly the first finished records of its order, no more than the excess, and keeps the order of the rest |
| JobRegistry.OldestSubmissionsAreEvicted | crates/forgeql-core/src/jobs.rs:163-187 | on every schedule, what a submission evicts had ended and was submitted before every ended job that stays |
| JobRegistry.RetentionIsBounded | crates/forgeql-core/src/jobs.rs:163-187 | on every schedule, after a submission at most 256 jobs are retained unless none of them has ended |
| JobRegistry.ListShowsRetained | crates/forgeql-core/src/jobs.rs:344-353 | on every schedule the list shows exactly the retained jobs, in submission order, under the names they were submitted with |
| JobRegistry.EveryStepWorks | crates/forgeql-core/src/jobs.rs:259-285 | without submissions each pump or completion does one unit of owed + 2(queued + running), so that many steps end all work |
| JobRegistry.NeverStuck | crates/forgeql-core/src/jobs.rs:259-285 | while work remains a step is possible, and once none does every submitted job has ended |
| JobRegistry.TerminalIsFinal | crates/forgeql-core/src/jobs.rs:355-373 | an ended job keeps its outcome for ever and its record unchanged while retained |
| JobRegistry.WaitTellsTheTruth | crates/forgeql-core/src/jobs.rs:321-342 | "unknown" for a submitted id means it had ended; a terminal answer is the outcome reported; any other answer means the deadline passed |
| FreshnessGate.Engine.EnsureFileFresh | crates/forgeql-core/src/engine.rs:800-843 | stamp, hash and verdict for one file, each look at the disk one instant later |
| FreshnessGate.Engine.RestoreStale | crates/forgeql-core/src/engine.rs:844-877 | re-index, stamp, then verify by a second hash; refuse unless it matched |
| FreshnessGate.Engine.EnsureFilesFresh | crates/forgeql-core/src/engine.rs:757-793 | passes repeat until one re-indexes nothing; re-indexed files come back on refusal too |
| FreshnessGate.GateIsSound | crates/forgeql-core/src/engine.rs:757-793 | the gate ends; admitted, every file the final index names was re-indexed in this call or vouched for in the last pass, since whose start the index is unchanged; the list has no duplicates and each file on it passed a verifying hash; no other content id changed but the refused file's; a refused file was hashed in the call and did not match the index as it now stands |
| FreshnessGate.QuietGateServes | crates/forgeql-core/src/engine.rs:757-793 | with the writer away and a re-indexer that works: the command is let through, exactly the stale files it names (or comes to name) are re-indexed, and every indexed file the final index names matches its bytes |
| FreshnessGate.FileGateIsSound | crates/forgeql-core/src/engine.rs:800-877 | with the writer stepping anywhere: a stamp equal to the file's current one still vouches for the bytes on disk; re-indexed means stale before and verified after; a refusal stamps nothing |
| FreshnessGate.FileVerdictExactly | crates/forgeql-core/src/engine.rs:800-877 | unchanged exactly when the stamp stands, there is nothing to compare or the bytes match; otherwise re-indexed exactly when the bytes match the new index at the second hash, and refused if not, telling whether the re-indexer failed |
| FreshnessGate.FileStampsExactly | crates/forgeql-core/src/engine.rs:820-876 | what is stamped: the stamp read just before the hash that matched, and nothing else |
| FreshnessGate.SecondLookIsAStat | crates/forgeql-core/src/engine.rs:807-811 | a file checked once and left alone costs the next command one stat and no hash |
| FreshnessGate.OnlyVerifiedIsStamped | crates/forgeql-core/src/engine.rs:820-831 | stamps change only at a path whose hash matched, never on Unknown |
| FreshnessGate.WriterKeepsSound | crates/forgeql-core/src/engine.rs:800-877 | an external rewrite cannot make a kept stamp lie |
| FreshnessGate.MutationKeepsSound | crates/forgeql-core/src/engine.rs:844-852 | nor can re-indexing files that have moved, in any way at all |
| FreshnessGate.StampAfterHashWouldLie | crates/forgeql-core/src/engine.rs:847-852 | stamping after the hash instead would let a stamp vouch for bytes no hash saw |
| FreshnessGate.GateKeepsItsPromise | crates/forgeql-core/src/engine.rs:762-793 | the same promise from the middle of the fixpoint loop, for every set of files already re-indexed |
| FreshnessGate.PassIsSound | crates/forgeql-core/src/engine.rs:770-788 | one pass keeps the stamp invariant and every earlier verification, and a pass that re-indexed nothing vouched for every name |
| Like.LikeMatch | crates/forgeql-core/src/filter.rs:688-714 | the table decides whether the text can be cut into one piece for each pattern character: any for `%`, one character for `_`, and otherwise the character itself or the other case of the same ASCII letter |
| Like.AcceptsIffMeans | crates/forgeql-core/src/filter.rs:697-713 | the table's recurrence is equivalent to that declarative reading of `%` and `_` |
| Like.FoldedMeansAnyCase | crates/forgeql-core/src/filter.rs:689-690 | matching the folded strings is matching the strings as written, but for the case of ASCII letters |
| Like.PlainPatternMatchesItself | crates/forgeql-core/src/filter.rs:688-714 | a pattern without wildcards matches exactly the texts that differ from it in case only |
| Like.LikePatternLiterals | crates/forgeql-core/src/filter.rs:725-741 | the maximal runs between wildcards, in order |
| Like.PrefilterDropsNoMatch | crates/forgeql-core/src/filter.rs:716-741 | in every accepted text the folded runs occur in order and without overlap |
| Like.PrefilterIsExact | crates/forgeql-core/src/filter.rs:716-741 | for `%…%` patterns without `_` that is also sufficient |
| Like.RunsOccurVerbatimExactly | crates/forgeql-core/src/filter.rs:716-741 | the runs occur as written in every accepted text if and only if the pattern holds no ASCII letter |
| Like.LetterlessRunsOccur | crates/forgeql-core/src/filter.rs:716-741 | without letters they occur as written, in order and without overlap |
| Like.LetterRunCanMiss | crates/forgeql-core/src/filter.rs:719-723 | so not for `A%` |
| Predicates.EvalPredicate | crates/forgeql-core/src/filter.rs:753-764 | a row passes exactly when it satisfies the predicate: it has a number that compares so, or reads as a text that equals, is like, or matches, defaults and the `unknown` kind included |
| Predicates.EvalMeans | crates/forgeql-core/src/filter.rs:797-929 | the evaluator's definition is that meaning |
| Predicates.ApplyWherePredicates | crates/forgeql-core/src/filter.rs:1336-1407 | a row is kept, in its place, exactly when it satisfies every predicate, `.{N,}` being read as a length in bytes |
| Predicates.ApplyOne | crates/forgeql-core/src/filter.rs:1340-1405 | one predicate of the batch filter: shortcut, compiled once, invalid pattern, or evaluator |
| Predicates.BatchMeans | crates/forgeql-core/src/filter.rs:1340-1405 | what one predicate of the batch filter keeps, in those terms |
| Predicates.ShortcutIsExactOnAptValues | crates/forgeql-core/src/filter.rs:1303-1336 | batch filter and evaluator agree on a row about `.{N,}` for every N if and only if its value is single-line ASCII or missing |
| Predicates.LengthDecidesExactlyOn | crates/forgeql-core/src/filter.rs:1306-1310 | byte length decides every `.{N,}` on a value if and only if it is single-line ASCII |
| Predicates.OnlyDotBraceIsRead | crates/forgeql-core/src/filter.rs:1089-1099 | exactly the patterns of braces around a number take the shortcut, with that number |
| Predicates.WhereKeepsPassingRows | crates/forgeql-core/src/filter.rs:1336-1407 | on single-line ASCII values the WHERE stage keeps exactly the rows that pass every predicate |
| Predicates.ShortcutMiscountsNonAscii | crates/forgeql-core/src/filter.rs:1347-1356 | a row named "é" passes `name MATCHES '.{2,}'` in the batch filter and fails it in the evaluator |
| Predicates.WhereIgnoresOrder | crates/forgeql-core/src/filter.rs:1333-1336 | the WHERE stage is idempotent and independent of predicate order and repetition |
| Predicates.PatternsSplitRowsWithValue | crates/forgeql-core/src/filter.rs:861-896 | LIKE/NOT LIKE, and MATCHES/NOT MATCHES for a valid pattern, share out exactly the rows that have a value |
| RowOrder.TransitiveExactlyWhenHomogeneous | crates/forgeql-core/src/filter.rs:973-1033 | the comparator is transitive on a set of row shapes if and only if the set avoids the mixtures that form cycles |
| RowOrder.FieldsOfOneKind | crates/forgeql-core/src/filter/impls.rs:58-67 | on an open field that means exactly: no row with a number beside a row with text that is not one; on a stored number it always holds |
| RowOrder.OrderIsTotal | crates/forgeql-core/src/filter.rs:954-1058 | on such rows it is a total preorder, and tells deduplicated rows apart |
| RowOrder.OrderMeans | crates/forgeql-core/src/filter.rs:973-1058 | the comparator puts a row no later than another exactly when their numbers are in the direction asked for, else a bare number comes before a missing value, else their texts are in that direction, and ties go by name, line, path and kind in dictionary order, ascending |
| Text.CmpStrMeans | crates/forgeql-core/src/filter.rs:1037-1057 | string comparison is dictionary order |
| RowOrder.OrderFlips | crates/forgeql-core/src/filter.rs:973-1058 | swapping the rows reverses the answer, for every mix |
| RowOrder.EqualRowsShareTieKey | crates/forgeql-core/src/filter.rs:954-960 | Equal means equal name, line, path and kind, for every mix |
| RowOrder.NumbersAndTextCycle | crates/forgeql-core/src/filter.rs:1006-1028 | numbers mixed with text make a cycle |
| RowOrder.EmptyTextCycle | crates/forgeql-core/src/filter.rs:996-1028 | a number without text beside an empty string, or one with empty text beside a missing value, makes a cycle through the tie-break |
| RowOrder.AbsentBetweenNumbersCycle | crates/forgeql-core/src/filter.rs:996-1005 | ascending, a missing value between a number without text and one with text makes a cycle |
| Sorting.SelectNth | crates/forgeql-core/src/filter.rs:1083 | in-place selection: a rearrangement in which nothing up to position k sorts after anything beyond |
| Sorting.Partition | crates/forgeql-core/src/filter.rs:1083 | one partition round of the selection, in place |
| Sorting.CollectTopK | crates/forgeql-core/src/filter.rs:1070-1087 | the best k in order, completable to a sorted rearrangement of the input; the head of the full sort when the comparator tells elements apart |
| Sorting.SortedIsUnique | crates/forgeql-core/src/filter.rs:954-960 | a comparator that tells elements apart leaves one sorted arrangement |
| Pipeline.ApplyOrdering | crates/forgeql-core/src/filter.rs:1456-1500 | wherever the comparator is total on the rows at hand: the sorting path cuts the requested page of the sorted rows; the top-K path returns the head of a sorted arrangement, the very same page on deduplicated rows; every row of a sorted page may stand before every later one in the sense of `RowOrder.OrderMeans`, and without sorting the rows keep their order; the count is the number of rows that came in |
| Pipeline.ApplyClauses | crates/forgeql-core/src/filter.rs:1272-1301 | page and total of the whole pipeline: the total is the number of surviving rows, the page the requested cut of them in order |
| Pipeline.SurvivingMeans | crates/forgeql-core/src/filter.rs:1272-1301 | stage by stage: globs and WHERE look at the rows as they come, GROUP BY counts what those keep, and HAVING looks at the groups and their counts |
| Pipeline.ApplyGlobs | crates/forgeql-core/src/filter.rs:1277-1285 | IN and EXCLUDE keep exactly the rows with a path inside the glob and with none under an excluded one |
| Pipeline.ApplyHaving | crates/forgeql-core/src/filter.rs:1293-1297 | HAVING keeps exactly the rows that satisfy every predicate |
| Pipeline.PagesConcatenateToAnswer | crates/forgeql-core/src/filter.rs:1481-1499 | cuts at OFFSET 0, L, 2L, … of the ordered rows concatenate to all of them |
| Pipeline.ReadPages | crates/forgeql-core/src/filter.rs:1272-1301 | on deduplicated rows, the pages the pipeline returns at OFFSET 0, L, 2L, … with LIMIT L, top-K path included, concatenate to the unpaged answer |
| Pipeline.SurvivingIgnoresPaging | crates/forgeql-core/src/filter.rs:1461-1465 | every page reports the same total: the surviving rows do not depend on LIMIT and OFFSET |
| Pipeline.PagesArePrefix | crates/forgeql-core/src/filter.rs:1487-1497 | the first n pages are the first n·L rows |
| Pipeline.ApplyGroupBy | crates/forgeql-core/src/filter.rs:1411-1450 | one row for each value the rows read as for the field, missing read as empty: the first row with that value, in order of first appearance, with the number of rows that read so |
| Pipeline.GroupedByValue | crates/forgeql-core/src/filter.rs:1425-1449 | the specification of GROUP BY groups by that value |
| Pipeline.CountKeys | crates/forgeql-core/src/filter.rs:1428-1435 | the first pass counts every key |
| Pipeline.GroupsAreFirstRows | crates/forgeql-core/src/filter.rs:1436-1449 | one row per key in order of first appearance, the first with that key, carrying its multiplicity |
| Pipeline.GroupCountsAddUp | crates/forgeql-core/src/filter.rs:1409-1450 | the `count` fields of the grouped rows add up to the rows that went in |
| FileGroups.TakeFileGroups | crates/forgeql-core/src/filter.rs:1229-1270 | the rows rendered, and whether and why files were withheld |
| FileGroups.GroupByFile | crates/forgeql-core/src/filter.rs:1235-1245 | groups in order of first appearance, each holding its file's rows in order |
| FileGroups.ResponseShowsWholeFiles | crates/forgeql-core/src/filter.rs:1206-1270 | a run of whole consecutive files from `offset`, under the ceiling unless it is one file, the longest such run within `limit`; `withheld` is None exactly when nothing was left out, and names the bound otherwise |
| FileGroups.GroupsPartitionRows | crates/forgeql-core/src/filter.rs:1208-1212 | a row is in the group of its file and in no other |
| FileGroups.GroupsKeepEveryRow | crates/forgeql-core/src/filter.rs:1237-1245 | the groups hold every row, each once |
| FileGroups.ResponsesContinue | crates/forgeql-core/src/filter.rs:1214-1216 | the response at the offset where the last stopped goes on where it stopped: together they are one longer run of whole files |
| FileGroups.FollowingShowsEveryRow | crates/forgeql-core/src/filter.rs:1206-1270 | asking on until nothing is withheld renders every row exactly once, file by file |
| LineBudget.BudgetState.constructor | crates/forgeql-core/src/budget.rs:129-140 | a fresh tracker |
| LineBudget.BudgetState.Load | crates/forgeql-core/src/budget.rs:169-204 | a restored tracker: fresh if missing or expired, otherwise clamped, with its window rebuilt |
| LineBudget.BudgetState.Save | crates/forgeql-core/src/budget.rs:219-238 | what is persisted |
| LineBudget.BudgetState.ResetDelta | crates/forgeql-core/src/budget.rs:211-213 | clears the delta and nothing else |
| LineBudget.BudgetState.Deduct | crates/forgeql-core/src/budget.rs:241-262 | drains by a read or recovers by an idle command; the snapshot carries the change |
| LineBudget.BudgetState.RewardMutation | crates/forgeql-core/src/budget.rs:272-289 | credits written lines up to the ceiling; zero lines change nothing |
| LineBudget.BudgetState.TryRecover | crates/forgeql-core/src/budget.rs:319-349 | one halving recovery, opening a new window when the old one is over |
| LineBudget.RecoveryIsRateBounded | crates/forgeql-core/src/budget.rs:319-349 | over every run, credit is within two bases for each window spanned plus one if and only if the base is below 2^31 or the ceiling is 0 |
| LineBudget.CreditWithinBound | crates/forgeql-core/src/budget.rs:315-349 | below 2^31 the bound holds, strictly for a positive base |
| LineBudget.OneWindowCredit | crates/forgeql-core/src/budget.rs:315-341 | within one window credit is at most base + base/2 + base/4 + … |
| LineBudget.IdlePaysExactly | crates/forgeql-core/src/budget.rs:319-349 | one idle command, exactly: nothing at the ceiling, the full base in a new window, the base halved once for each payment before it within one, cut at the ceiling |
| LineBudget.ShiftedIsQuotient | crates/forgeql-core/src/budget.rs:332 | the shift is the whole quotient by a power of two |
| LineBudget.WindowPaysInFull | crates/forgeql-core/src/budget.rs:315-349 | the bound on a window is met: with room under the ceiling, idling in it pays base, base/2, base/4 and so on |
| LineBudget.DrainBreaksBound | crates/forgeql-core/src/budget.rs:332 | from 2^31 on, draining and idling within one second breaks it |
| LineBudget.CeilingHolds | crates/forgeql-core/src/budget.rs:315-318 | the balance stays under the ceiling over every run if and only if `initial` is |
| LineBudget.BalanceIsConserved | crates/forgeql-core/src/budget.rs:241-289 | over every run within its bounds the balance is what it was, less the lines read, plus the lines written, plus what idle commands paid |
| LineBudget.BoundsCut | crates/forgeql-core/src/budget.rs:249-278 | beyond those bounds a read empties the balance and a reward fills it; neither touches the window |
| LineBudget.ReloadGrantsNothing | crates/forgeql-core/src/budget.rs:165-204 | saving and reloading before expiry resumes the same window and can only lower the balance |
| LineBudget.ExpiredReloadIsFresh | crates/forgeql-core/src/budget.rs:169-184 | past its deadline, or without its file, a tracker starts afresh |
| LineBudget.ReportedDeltaIsChange | crates/forgeql-core/src/budget.rs:272-288 | a reported delta is the call's own change unless it is a zero-line reward after a non-zero delta |
| LineBudget.DeltasTelescope | crates/forgeql-core/src/budget.rs:241-289 | over every run the reported deltas sum to the change of the balance, what zero-line rewards repeated and what reloads trimmed |
| LineBudget.ReloadsTrimNothing | crates/forgeql-core/src/budget.rs:165-204 | reloads before expiry trim nothing while `initial` and the balance are under the ceiling |
| LineBudget.ZeroRewardRepeatsDelta | crates/forgeql-core/src/budget.rs:273-275 | one zero-line reward can double the reported drop |
| UndoSnapshot.Encode | crates/forgeql-core/src/undo.rs:92-104 | header and records of the files inside the worktree, in order |
| UndoSnapshot.InsideIsWhole | crates/forgeql-core/src/undo.rs:95-104 | the files saved are exactly those inside the worktree, each as often as it was given, with its bytes |
| UndoSnapshot.Sanitise | crates/forgeql-core/src/undo.rs:92 | line breaks and tabs of the op become spaces and nothing else changes |
| UndoSnapshot.InsideSplits | crates/forgeql-core/src/undo.rs:95-104 | in the order given |
| UndoSnapshot.ReadSnapshot | crates/forgeql-core/src/undo.rs:123-159 | the decoder: no snapshot without the marker |
| UndoSnapshot.ReadRecords | crates/forgeql-core/src/undo.rs:133-157 | the cursor loop reads records until one is malformed or cut |
| UndoSnapshot.ReadRecord | crates/forgeql-core/src/undo.rs:136-156 | one record at the cursor, or stop |
| UndoSnapshot.SnapshotRoundTrips | crates/forgeql-core/src/undo.rs:82-160 | decoding an encoding returns the sanitised op and the same files, for arbitrary bytes |
| UndoSnapshot.TruncatedSnapshotIsPrefix | crates/forgeql-core/src/undo.rs:133-159 | any truncation that keeps the header decodes to exactly the files still whole |
| UndoSnapshot.WriteSnapshot | crates/forgeql-core/src/undo.rs:82-107 | an empty map writes nothing; otherwise the ring rotates and slot 0 holds what the write left, whole, cut short or missing |
| UndoSnapshot.UndoReadsHistory | crates/forgeql-core/src/undo.rs:7-10 | after any run, slot n of ten decodes to what the n-th most recent non-empty mutation saved, to the files still whole where its write was cut after the header, and to nothing otherwise |
| Ring.SlotFiles.Rotate | crates/forgeql-core/src/undo.rs:65-73 | slot by slot from the top, every slot moves up one and slot 0 is free |
| Ring.SlotFiles.Write | crates/forgeql-core/src/undo.rs:90-106 | rotate, then write slot 0, which may be left cut short or missing |
| Ring.RingIsHistory | crates/forgeql-core/src/undo.rs:63-73 | slot n holds what the n-th most recent write left, for every run and slot |
| ShowMore.HeadAndTailPartition | crates/forgeql-core/src/showmore.rs:103-121 | `HEAD k` and `TAIL n-k` partition the buffer with original line numbers |
| ShowMore.RangeShowsItsLines | crates/forgeql-core/src/showmore.rs:109-120 | a range shows exactly the lines numbered in it, wherever its ends lie |
| ShowMore.WindowShows | crates/forgeql-core/src/showmore.rs:103-121 | what each selection shows, in order, each line with its number in the whole output |
| ShowMore.WriteBuffer | crates/forgeql-core/src/showmore.rs:137-160 | rotates the ring and stores header and lines in slot 0 |
| ShowMore.SafeName | crates/forgeql-core/src/showmore.rs:149 | line breaks of the label become spaces and nothing else changes |
| ShowMore.ReadBuffer | crates/forgeql-core/src/showmore.rs:193-220 | slot n parsed, or none |
| ShowMore.Finalize | crates/forgeql-core/src/showmore.rs:242-279 | at or under the cap the text is unchanged and the ring untouched; over it the whole output is stored and a window with a hint returned |
| ShowMore.BufferRoundTrips | crates/forgeql-core/src/showmore.rs:137-220 | a stored buffer is read back: direction, name and every line |
| ShowMore.TornBufferIsPrefix | crates/forgeql-core/src/showmore.rs:200-219 | a buffer cut short after its header reads as lines that join to exactly what was kept; the last of them is empty exactly when the cut falls at the beginning of a line |
| ShowMore.TornBufferStraysExactly | crates/forgeql-core/src/showmore.rs:212-214 | it yields an empty line where the output has none if and only if the cut falls at the beginning of a line that is not itself empty |
| ShowMore.StrayAfterFirstLine | crates/forgeql-core/src/showmore.rs:212-214 | "a" and "b" cut after "a" read with a stray empty line; "a" and an empty line do not |
| ShowMore.BufferedOutputIsWhole | crates/forgeql-core/src/showmore.rs:232-258 | the stored lines joined by newlines are the rendered text, character for character |
| ShowMore.InlineOpensWithWindow | crates/forgeql-core/src/showmore.rs:259-274 | the inline text is exactly the first or last `cap` lines of the output and one more line, a hint that names the first and last line shown |
| ShowMore.ShowMoreReadsHistory | crates/forgeql-core/src/showmore.rs:165-220 | slot n of five holds what is left of the n-th most recent output over its cap, and reads back the whole of it where it could be written |
| NodeId.ShortestPrefixLen | crates/forgeql-core/src/node_id.rs:45-58 | the loop returns the length the specification finds |
| NodeId.AnyCollision | crates/forgeql-core/src/node_id.rs:49-51 | whether another hash of the set shares a prefix |
| NodeId.PrefixLenIsLeastUnambiguous | crates/forgeql-core/src/node_id.rs:37-58 | no other hash shares the chosen prefix, and every shorter even length from 12 is shared |
| NodeId.SegmentIdsArePrefixFree | crates/forgeql-core/src/node_id.rs:37-79 | segment ids of different hashes of one set are prefix-free, even at different lengths |
| NodeId.NodeIdIsInjective | crates/forgeql-core/src/node_id.rs:81-90 | a handle determines its file and its ordinal |
| NodeId.OrdinalRoundTrips | crates/forgeql-core/src/node_id.rs:106-116 | `ordinal_of` inverts the printed ordinal |
| NodeId.HandleLayout | crates/forgeql-core/src/node_id.rs:81-90 | `n`, the hexadecimal prefix, a dot, and the ordinal in at least four digits |
| NodeId.OffsetRoundTrips | crates/forgeql-core/src/node_id.rs:215-255 | `base(n)`, `base(n-m)` and `base` split back into base and offsets |
| NodeId.HandlesAcceptedExactly | crates/forgeql-core/src/node_id.rs:215-261 | a handle is accepted exactly when it has one of the three shapes, with offsets from 1 on and not inverted |
| NodeId.OffsetsParseExactly | crates/forgeql-core/src/node_id.rs:257-261 | an offset is exactly a 32-bit numeral, whitespace around it aside |
| NodeId.TrimMeans | crates/forgeql-core/src/node_id.rs:258 | trimming takes the whitespace at both ends and nothing else |
| NodeId.AcceptedOffsetStaysInside | crates/forgeql-core/src/node_id.rs:223-294 | an accepted offset is 1-based and ordered, and resolves exactly when it ends inside the node, to lines inside it; without an offset it is the whole node |
| NodeId.SurfacedBlockSplits | crates/forgeql-core/src/node_id.rs:125-142 | a block member's surfaced handle splits into its block's handle and its line in it |
| NodeId.BareHandles | crates/forgeql-core/src/node_id.rs:106-141 | a handle without an ordinal has none to read, and a node in no block is shown under its own handle |
| DirectoryRev.RevIgnoresOrder | crates/forgeql-core/src/node_id.rs:198-209 | a directory revision depends on the members only, not on their order |
| DirectoryRev.RevMovesExactly | crates/forgeql-core/src/node_id.rs:198-209 | two memberships have the same revision if and only if the fingerprints of the paths that are in one and not in the other cancel |
| DirectoryRev.AddMovesRev | crates/forgeql-core/src/node_id.rs:198-209 | adding or removing a file moves it unless its fingerprint is zero |
| DirectoryRev.FoldingTwiceRemoves | crates/forgeql-core/src/node_id.rs:198-209 | folding a member again takes it out |
| DirectoryRev.RenameMovesRev | crates/forgeql-core/src/node_id.rs:200-204 | a rename moves the revision exactly when the fingerprints differ |
| Template.ResolveTemplate | crates/forgeql-core/src/config.rs:356-403 | the loop computes the resolution: count check, splices in order, the first bad argument refused |
| Template.RefusedExactlyWhen | crates/forgeql-core/src/config.rs:362-387 | refused if and only if the count is wrong or an identifier argument is not one |
| Template.RefusalNamesCulprit | crates/forgeql-core/src/config.rs:362-387 | a refusal tells the two counts, or an identifier parameter and its bad argument |
| Substitution.SimultaneousExactlyWhenNeverMisread | crates/forgeql-core/src/config.rs:369-388 | for all names without `$`: sequential replacement is one simultaneous leftmost-longest substitution for all arguments, if and only if no arguments as short as the names make a splice read a placeholder that the template does not hold; there are finitely many to look at |
| Substitution.SimultaneousExactlyWhenNoJoin | crates/forgeql-core/src/config.rs:369-388 | for identifier names that is a test on template and parameters alone: nowhere can a placeholder come together from template text and the argument of a parameter spliced before |
| Substitution.NoJoinSuffices | crates/forgeql-core/src/config.rs:369-388 | one half for every name without `$` |
| Substitution.MisreadNeedsArguments | crates/forgeql-core/src/config.rs:369-388 | where something can be misread, accepted arguments that show two different results |
| Substitution.ResolvedIsSimultaneous | crates/forgeql-core/src/config.rs:369-388 | for templates whose `$` are separated, and any names at all, it is simultaneous |
| Substitution.SortedFirstIsLongest | crates/forgeql-core/src/config.rs:370-372 | the first name that fits in splicing order is the longest, the first declared among equals |
| Substitution.LongestHit | crates/forgeql-core/src/config.rs:370-372 | the longest declared name at a place, or none |
| Substitution.NestedPlaceholderIsReadAgain | crates/forgeql-core/src/config.rs:388 | `$$ab` with parameters `ab` and `x` is a join: "y" instead of "$x" |
| Substitution.TextNameIsClobbered | crates/forgeql-core/src/config.rs:370 | an identifier's name is replaced inside a longer text parameter's |
| Substitution.LongerIdentifierWins | crates/forgeql-core/src/config.rs:370-372 | an identifier's name is not replaced inside the longer name of another identifier |
| Template.CommandIgnoresTextArguments | crates/forgeql-core/src/config.rs:352-355 | the command, and whether the call is refused, do not depend on any text argument |
| Template.StdinIsTextArguments | crates/forgeql-core/src/config.rs:393-401 | standard input is the text arguments in declared order joined by newlines, whatever they hold, and absent when there are none; arguments of one line each are read back from it |
| CivilDate.DatetimeIsExact | crates/forgeql-core/src/query_logger.rs:163-191 | the printed fields are a valid Gregorian date and time that counts back to the same second, for every second whose year fits 32 bits and for no other |
| CivilDate.DatetimeInvertsCalendar | crates/forgeql-core/src/query_logger.rs:163-191 | every valid date from 1970 on is found again from its second |
| CivilDate.DatetimeAscends | crates/forgeql-core/src/query_logger.rs:174-191 | later seconds have lexicographically later fields |
| LogLine.LogSortsExactlyBelow | crates/forgeql-core/src/query_logger.rs:153-161 | the printed timestamps sort by time among the seconds before a bound if and only if the bound is at most 10000-01-01 00:00:00 |
| LogLine.TextAscends | crates/forgeql-core/src/query_logger.rs:160 | below year 10000 the text orders dates as their fields do |
| CivilDate.DateOfDay | crates/forgeql-core/src/query_logger.rs:179-188 | the date found for a day is the one the calendar counts to |

## Left out

- HTTP, MCP, CLI, REPL, authentication and log transports: input and output without a deep invariant.
- Language plugins and the macro expanders: they depend on grammars that are not part of this model.
- The field table's contents, the compact renderer, the coach's hints, and the refusal messages of the filter: finite data and wording.
- Columnar storage, mutation planning and the commit gate: not part of this model; only the pipeline they feed is.
- Files, clocks and threads: a slot ring is a map from slot to contents, time is whole seconds, and each critical section is one atomic step.  A write of slot 0 may be cut short or leave no file; a failed rename within the rotation and a vanished session are not modelled.
- Sorting by a comparator that is not total on the rows at hand: `sort_by` and `select_nth_unstable_by` promise nothing there, so `Pipeline.ApplyClauses` asks for totality on the surviving rows; `RowOrder.OrderIsTotal` gives a condition on their shapes under which they have it.
- Regex and glob semantics, SHA-256, Unicode normalisation, and paths or ops that are not UTF-8.
- Machine words: sums of lines in the budget, and the sum of lengths in the UNDO reader, are unbounded here; a snapshot whose declared lengths overflow 64 bits is read as too long.
- JobRegistry.WaitTellsTheTruth: models what a waiter answers each time it holds the lock, not the condition variable that wakes it.
- JobRegistry.PoolIsSafe: job cost, elapsed time, job bodies that panic and threads that fail to spawn in a way other than an immediate failed completion are not modelled.
- FreshnessGate.GateIsSound: the promise is for an instant of the call, since the writer may move a file again before the command reads it.
- LineBudget.RecoveryIsRateBounded: time is in whole seconds and windows are longer than none; a zero-length window has no bound.  A reload after idle expiry grants a fresh budget, and a reboot restarts the monotonic clock; both are outside the runs it speaks of.
- UndoSnapshot.SnapshotRoundTrips: lengths fit a machine word, as lengths of buffers in memory do.
- NodeId.NodeIdIsInjective: ordinals are the 32-bit values the source's type allows.
- Substitution.SimultaneousExactlyWhenNeverMisread: says nothing of a parameter whose name holds a `$`, whose placeholder can overlap another one; for those only `Substitution.ResolvedIsSimultaneous` speaks.
- Predicates.ShortcutIsExactOnAptValues: speaks of the lengths whose patterns compile, and needs the one for the value's own length to.
- ShowMore.TornBufferIsPrefix: for cuts between characters and after the header; a cut inside a character makes the read an I/O error, and a cut header may still parse with a smaller line count.
