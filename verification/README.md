# Verified models of the repository's state machines, readers and gates

This project models the parts of the repository that keep state, read free text or decide a
gate, and proves what each of them promises over all inputs or all runs. It verifies with
`dafny verify dfyconfig.toml`.

| module | models | flavour |
|---|---|---|
| `AnswerGenerator` | crash and resume of the question answering run: two tables saved one after the other, an id counter rebuilt from one of them | a class over the two tables, against step functions |
| `ManifestBaseline` | the asymmetric comparison of two face manifests, and chains of accepted steps | loops against a declarative step relation |
| `TableSplitter` | the code-span-aware splitter of a markdown row | a loop, against a printer |
| `Regex`, `CoordinateScanner` | the two coordinate patterns under a backtracking-regex semantics | functions and lemmas |
| `AcceptanceStatus` | which status word a cell carries | functions and lemmas |
| `MatrixTable` | finding and reading the judgement table and the auxiliary tables of a matrix | loops against functions on the list of lines |
| `AcceptanceReport` | the coordinate index of a report, the judgement of its own entries, the summary's coverage | loops against predicates |
| `AcceptanceJudge` | the whole judgement of one matrix against one report at one head | a class for rows whose findings grow, loops, and the meaning of an empty result |
| `SseReaders` | the three Go readers of server-sent events | loops against payload functions |
| `NamingRegistry` | the registry loader and the repository check | loops against predicates |
| `WorkerLimit` | the named, process-wide limiter | interleaved steps of any number of calls |
| `SigningKey` | first-writer-wins creation of the desktop signing key | interleaved steps of any number of processes |
| `ChainParser` | first-success and pipeline parsers | loops against functions on parser trees |
| `SharedDocuments` | the pipeline parser over document objects that stages may keep | a class for documents, the loop with its update in place |
| `TicketOwnership` | extraction of the paths a face ticket declares | loops against functions, and a renderer |
| `ReviewMatching` | the decision and item matching of a demo chapter | loops |
| `ChunkPaging` | the paging loop of the material check | an endless loop with an exit test |
| `ListenRetry` | the retry loop of the server's listener, in 64-bit arithmetic | a counted loop |
| `Wrappers`, `Texts`, `Numbers`, `Sorting` | an absent value, trimming, a minimum, sorting a set | shared definitions |

## How findings and errors are modelled

Texts of messages are not modelled; a finding, complaint or regression is a constructor that
carries the values the text is built from, and the contracts of the methods that collect
findings say exactly which ones come out (`f in findings <==> ...`) and in which order, not
only when the list is empty. Readers of free text that have no state (Unicode tables, JSON decoding, the
patterns for a test name, a head or a ticket) are parameters, so each theorem holds for
whatever they are.

## Results that are not what one would expect

* `scripts/lingdoc_manifest_baseline.py:42-46` says that a `done` face may release paths.
  The code at lines 225-233 reports every path that left the union, whoever released it; the
  model follows the code, `DoneFaceMayNotRelease` shows a finished face that is reported for
  nothing else, and `ShrinkingIsUnowning` proves that the per-face test adds nothing to the
  union test.
* The comparison looks faces up by issue, but the loader
  (`scripts/lingdoc_parallel_surfaces.py:2424-2435`) only checks that names are unique.
  `SharedIssuesExactly` says when a clean comparison still protects every face: exactly when
  the last face listed under each issue is the most advanced one.
* The processed set of the answer generator is not updated during a run, so a new query id
  that is listed twice can be answered twice (`RepeatedQueryExample`). A finished run keeps
  query ids unique exactly when no new one is answered in two positions
  (`UniqueExactlyWithoutRepeats`), and every run does, whatever the replies and wherever it is
  killed, exactly when no new one is listed twice (`UniqueForAllRepliesExactly`).
* For the same reason kills and restarts are not always invisible: `KillsDoNotMatterExactly`
  says that a work killed any number of times ends up as an unkilled one exactly when no new
  query id is answered in two positions of the list.
* `SplitUndoesPrint` gives the exact condition for reading a printed row back: besides
  trimmed cells with an even number of backticks, a row printed without padding must not have
  an inner cell that ends in a backslash; the last cell may hold any number of backticks.
  `RunTogetherExample` shows two rows that do not read back.
* `IdempotentExactly` and `SecondReadingDiffers`: normalising a status twice differs from
  normalising once exactly for a text that carries no known word and in which, once the pairs
  of stars are gone, two stars are separated by backticks alone.
* `SessionReadersAgreeExactly`: the two session readers differ exactly when a payload that
  missed its event type is overwritten or left over; `DefaultTypeExample` is such a stream.
* None of the three readers follows the dispatch rule of section 9.2.6 of the WHATWG HTML
  Standard on every stream: they keep the last data line of a block where the rule joins them,
  drop an empty one, and the session readers keep a space behind the colon and one of them
  ignores the default type. `KnowledgeFollowsRuleExactly`, `AgentFollowsRuleExactly` and
  `ContinueFollowsRuleExactly` say on which streams each of them does follow it.
* `SomebodyCanSucceedExactly` and `NobodyRepairs`: a key file shorter than 32 bytes is never
  repaired by any process. `SmoothFailuresExactly`: even when nothing goes wrong, a process
  fails exactly when its first or second read falls between another one's create and write.
* `EmptyPipelineForgetsInput` and `SplicingNeedsAStage`: splicing a nested pipeline into the
  outer one is right exactly when the nested one is not empty.
* `CrlfTicketHasNoSection`: in a ticket with CRLF line ends no heading is found, except one
  that is the last line and has no line end.
* `DelaysDoubleExactly` and `SomeDelayOverflows`: past 2^63 some delay comes out negative.
* `FileRatchetIsImplied`: with a registry that loads, the file part of the ratchet test never
  fires. The identifier part does: `IdentifierGrowthExactly` says that it fires exactly when
  the random fixtures outside the rigs outnumber the legacy identifiers inside them.
* `OnlyFailNeedsNothing`: the rows that draw no finding under any report are exactly the
  well-formed `FAIL` rows.

## Model

| member | source | states |
|---|---|---|
| `AnswerGenerator.Directory.GenerateAnswers` | dataset/qa_dataset.py:237-282 | the nested loops end with the disk state, the liveness and the calls that the step functions define; from saved tables that fit together this is what the replies spell out: the run ends by itself if and only if no new position meets a fatal reply or lacks its saves, and otherwise ends at the first such position, having asked up to it and stored the answers before it |
| `AnswerGenerator.RunKeeps` | dataset/qa_dataset.py:250-280 | one run, killed anywhere, keeps answer ids exactly 1..n and every pair's aid among them and distinct, and loses nothing that could be resolved before |
| `AnswerGenerator.AnyRunsKeep` | dataset/qa_dataset.py:237-282 | the same over any sequence of runs, each with its own queries and kill point; the resolved question and answer list only grows at its end |
| `AnswerGenerator.AnyRunsPairOnce` | dataset/qa_dataset.py:254-264 | with query ids distinct within each run, each query id is in at most one saved pair after any sequence of runs |
| `AnswerGenerator.RunPairsOnce` | dataset/qa_dataset.py:254-269 | one run, killed anywhere, keeps query ids unique when no query without a saved pair is listed twice |
| `AnswerGenerator.CallsBounded` | dataset/qa_dataset.py:255-282 | a run that lists each new question once asks it at most max_retries + 1 times, and never one that has a saved pair |
| `AnswerGenerator.RunIsSpelledOut` | dataset/qa_dataset.py:254-282 | the same of the step functions, for every list of queries, replies by position and attempt, retry limit and number of saves |
| `AnswerGenerator.FirstAnswerExactly` | dataset/qa_dataset.py:256-272 | a position adds a text if and only if the first reply within the limit that is no retryable error is that answer |
| `AnswerGenerator.FinishedRunStores` | dataset/qa_dataset.py:254-282 | a run that ends by itself adds, in query order, exactly the new questions whose first non-retryable reply is an answer, with that answer |
| `AnswerGenerator.KilledRunStores` | dataset/qa_dataset.py:250-282 | killed between any two saves or ended by an error, a run has stored what was there before and then a beginning of what the whole run would add |
| `AnswerGenerator.KilledRunsKeepTheWork` | dataset/qa_dataset.py:237-282 | with no query answered in two positions, what is saved and what is still to be added make up the same rows after any number of killed runs |
| `AnswerGenerator.KillsDoNotMatterExactly` | dataset/qa_dataset.py:237-282 | killed any number of times behind any numbers of saves and started once more, a run that would end by itself ends and leaves what it would have left alone, if and only if no query without a saved pair is answered in two positions |
| `AnswerGenerator.KillBehind` | dataset/qa_dataset.py:259-280 | for every number of first queries there is a number of saves behind which a run that would end by itself is killed with the files as those queries leave them |
| `AnswerGenerator.AnsweredTwiceDiffers` | dataset/qa_dataset.py:240-264 | killed behind the first of two answers to one query id and started again, the work never stores the second |
| `AnswerGenerator.UniqueExactlyWithoutRepeats` | dataset/qa_dataset.py:240-264 | a finished run keeps query ids unique if and only if no query id without a saved pair is answered in two positions of the list |
| `AnswerGenerator.UniqueForAllRepliesExactly` | dataset/qa_dataset.py:240-264 | query ids stay unique for all replies and kill points if and only if no query id without a saved pair is listed twice |
| `AnswerGenerator.ListedTwiceIsPairedTwice` | dataset/qa_dataset.py:254-264 | a new query id listed twice gets two pairs when every call answers |
| `AnswerGenerator.RepeatedQueryExample` | dataset/qa_dataset.py:254-280 | a concrete list with a repeated id: two pairs when both calls answer, one when the first fails without a retry |
| `ManifestBaseline.CompareFace` | scripts/lingdoc_manifest_baseline.py:160-218 | the reports about one baseline face are exactly those the three kinds of report mean |
| `ManifestBaseline.ComparePerFace` | scripts/lingdoc_manifest_baseline.py:159-218 | the loop over sorted issues reports exactly the per-face moves, in issue order |
| `ManifestBaseline.CompareFaces` | scripts/lingdoc_manifest_baseline.py:122-235 | a regression is reported if and only if it is one of the four kinds; nothing is reported if and only if every face persists, no status goes back and every backed path is still owned |
| `ManifestBaseline.ByIssueIsLast` | scripts/lingdoc_manifest_baseline.py:139-140 | of several faces under one issue the last one listed is compared |
| `ManifestBaseline.CleanMeansForward` | scripts/lingdoc_manifest_baseline.py:148-235 | a list of exactly the reportable moves is empty if and only if the step goes forward |
| `ManifestBaseline.ShrinkingIsUnowning` | scripts/lingdoc_manifest_baseline.py:206-233 | the path-set-shrunk test never rejects anything that the union test accepts |
| `ManifestBaseline.DoneFaceMayNotRelease` | scripts/lingdoc_manifest_baseline.py:206-233 | a face that was and stays done and drops paths nobody takes over draws exactly one report, the one about the union |
| `ManifestBaseline.StepsCompose` | scripts/lingdoc_manifest_baseline.py:122-235 | two clean steps make one clean step under the union of their exempt sets |
| `ManifestBaseline.ChainComposes` | scripts/lingdoc_manifest_baseline.py:122-235 | along any chain of clean steps the first manifest against the last is clean once all exempt sets used are exempt |
| `ManifestBaseline.ChainKeepsProgress` | scripts/lingdoc_manifest_baseline.py:129-233 | under one fixed exempt set, between any two points of a chain no face vanishes, done stays done, claimed stays claimed or done, backed paths stay owned |
| `ManifestBaseline.UnbackedClaims` | scripts/lingdoc_manifest_baseline.py:303-322 | the loops collect exactly the paths that some face claims as a file and no tracked file backs; a directory claim is never among them |
| `ManifestBaseline.RecomputedExemptionsCompose` | scripts/lingdoc_manifest_baseline.py:303-322 | with the exempt set recomputed at every step, backed paths stay owned along the chain when tracked files only grow and a path keeps its kind |
| `ManifestBaseline.SharedIssuesExactly` | scripts/lingdoc_manifest_baseline.py:139-140 | a clean comparison protects every face if and only if the last face under each issue is the most advanced one there |
| `ManifestBaseline.ReopeningGoesUnseen` | scripts/lingdoc_manifest_baseline.py:139-197 | otherwise a hidden face can be reopened without any report |
| `TableSplitter.SplitCells` | scripts/lingdoc_acceptance_judge.py:157-191 | the loop with its buffer and code flag computes the cells of the recursive reading |
| `TableSplitter.BodyReadsBack` | scripts/lingdoc_acceptance_judge.py:171-191 | a printed body whose inner boundaries close reads back to its cells |
| `TableSplitter.BodyCount` | scripts/lingdoc_acceptance_judge.py:171-191 | a printed body never reads as more cells, and reads as many only when every inner boundary closes |
| `TableSplitter.SplitUndoesPrint` | scripts/lingdoc_acceptance_judge.py:157-191 | splitting a printed row, with white space around it, gives its cells back if and only if they are trimmed and every inner boundary closes |
| `TableSplitter.RunTogetherExample` | scripts/lingdoc_acceptance_judge.py:171-191 | two concrete printed rows of two cells that read as one: a cell that ends in a backslash without padding, and a cell with one backtick |
| `Regex.GuardedMatch` | scripts/lingdoc_acceptance_judge.py:108-109 | what a backtracking engine finds for a core between two zero-width tests is the longest end that passes both |
| `CoordinateScanner.CoreEnds` | scripts/lingdoc_acceptance_judge.py:100-109 | the ends the engine tries for the core are exactly the coordinates of the grammar, longest first |
| `CoordinateScanner.CoordinateIsWritten` | scripts/lingdoc_acceptance_judge.py:96-109 | a stretch of text is a coordinate if and only if it is `US`, `TD`, `IMPL` or `AC`, a dash and groups of digits behind a dot or a dash each |
| `CoordinateScanner.LongestIsUnfollowed` | scripts/lingdoc_acceptance_judge.py:102-109 | no digit follows the longest coordinate, so the lookahead never forces backtracking |
| `CoordinateScanner.JudgeReadsLongest` | scripts/lingdoc_acceptance_judge.py:102-109 | the judge's pattern matches at a place if and only if no letter or digit stands before, and then exactly the longest coordinate there |
| `CoordinateScanner.SummaryReadsLongestBounded` | scripts/lingdoc_acceptance_summary.py:66 | the summary's pattern matches exactly the longest coordinate that ends at a word boundary, where none precedes |
| `CoordinateScanner.SummaryWithinJudge` | scripts/lingdoc_acceptance_summary.py:66 | every summary match is a prefix of the judge's match at the same start |
| `CoordinateScanner.ScannersAgreeExactly` | scripts/lingdoc_acceptance_summary.py:66 | the two patterns agree at a place if and only if no word character touches the coordinate |
| `Regex.FindAllFindsEach` | scripts/lingdoc_acceptance_judge.py:482 | when matches are not empty and do not overlap, searching on after each match finds every place that matches |
| `CoordinateScanner.CoordinatesAreSparse` | scripts/lingdoc_acceptance_judge.py:102-109 | matches of either coordinate pattern are such: none starts inside another |
| `CoordinateScanner.WholeTextScans` | scripts/lingdoc_acceptance_judge.py:102-109 | over a whole text the judge finds exactly the longest coordinates with no ASCII letter or digit before them, and every summary find is a prefix of a judge find |
| `AcceptanceStatus.LongestIsRead` | scripts/lingdoc_acceptance_status.py:232-250 | the longest spelling that a text carries decides the word |
| `AcceptanceStatus.UnknownIsKept` | scripts/lingdoc_acceptance_status.py:204-207 | the result is a known word if and only if the text carries a spelling; any other text comes back bare |
| `AcceptanceStatus.ReadingIsSpelledOut` | scripts/lingdoc_acceptance_status.py:231-251 | which of the nine words is read, by the literal spelling that begins the folded text and is followed by no letter, digit or underscore; any other text comes back bare |
| `AcceptanceStatus.StarsGoInPairs` | scripts/lingdoc_acceptance_status.py:231 | the leftmost pair of stars goes, then the next one behind it |
| `AcceptanceStatus.PartByPart` | scripts/lingdoc_acceptance_status.py:231-232 | folding and the removal of backticks go part by part |
| `AcceptanceStatus.DecoratedWordIsRead` | scripts/lingdoc_acceptance_status.py:231-251 | a known word between stars, backticks and white space is read as the word |
| `AcceptanceStatus.WordsAreFixed` | scripts/lingdoc_acceptance_status.py:230-250 | every known word is read as itself |
| `AcceptanceStatus.IdempotentExactly` | scripts/lingdoc_acceptance_status.py:230-251 | a second reading changes nothing if and only if the text carries a word or, once its pairs of stars are gone, no two stars are separated by backticks alone |
| `AcceptanceStatus.SecondReadingDiffers` | scripts/lingdoc_acceptance_status.py:230-251 | a concrete text for which it does change |
| `MatrixTable.JudgementTable` | scripts/lingdoc_acceptance_judge.py:194-219 | the loop returns the block below the first header without its rulers, or nothing when no line is a header |
| `MatrixTable.FirstHeaderIsFirst` | scripts/lingdoc_acceptance_judge.py:203-214 | the header line is the first table line with both columns |
| `MatrixTable.BlockEndIsFirst` | scripts/lingdoc_acceptance_judge.py:205-208 | the table ends at the first line that is no table line |
| `MatrixTable.RowsAreLines` | scripts/lingdoc_acceptance_judge.py:215-216 | a cell list is a row if and only if it is read from a line of the block that is no ruler |
| `MatrixTable.WrittenTableIsRead` | scripts/lingdoc_acceptance_judge.py:194-219 | a written table is read back from any document in which no earlier table line holds both titles and no table line follows, without its ruler |
| `MatrixTable.TableLineExactly` | scripts/lingdoc_acceptance_judge.py:204-205 | a line belongs to a table if and only if a pipe starts it behind white space |
| `MatrixTable.AuxiliaryCoordinates` | scripts/lingdoc_acceptance_judge.py:222-251 | the set holds exactly the counting coordinates recorded below an auxiliary header of the same block |
| `MatrixTable.WrittenAuxiliaryIsRead` | scripts/lingdoc_acceptance_judge.py:234-250 | a written table records the first cells of its rows if and only if its titles include the two auxiliary ones and not the coordinate |
| `MatrixTable.Column` | scripts/lingdoc_acceptance_judge.py:277-282 | the first column with the title after markup is removed, or -1 when there is none |
| `MatrixTable.ColumnIndex` | scripts/lingdoc_acceptance_judge.py:277-282 | the loop finds that column |
| `MatrixTable.MarkupIsRemoved` | scripts/lingdoc_acceptance_judge.py:280 | stars and backticks go from everywhere in a title, and nothing else does |
| `MatrixTable.ParseRows` | scripts/lingdoc_acceptance_judge.py:285-314 | every row is kept in order, and each of its six fields is the cell under the first column with its literal title, empty when the row is shorter or the column is absent; the coordinate and the delivery class are stripped, the status is normalised |
| `AcceptanceReport.ReportCoordinates` | scripts/lingdoc_acceptance_judge.py:463-493 | a coordinate is passed if and only if a pass-shaped entry names it, deferred if and only if a deferred entry of either list does, and registered under the first entry that names it |
| `AcceptanceReport.PassedExactly` | scripts/lingdoc_acceptance_judge.py:482-489 | a coordinate is passed if and only if the id of an entry holds it as a longest coordinate with no letter or digit before, and its status says pass or passed in any case |
| `AcceptanceReport.DeferredExactly` | scripts/lingdoc_acceptance_judge.py:482-486 | the same for a deferral in one of the three status fields |
| `AcceptanceReport.JudgeReportEntry` | scripts/lingdoc_acceptance_judge.py:526-562 | exactly the findings that the entry's shape deserves, each once and in the order of the tests |
| `AcceptanceReport.EntryFindingsExactly` | scripts/lingdoc_acceptance_judge.py:526-562 | which findings an entry deserves, by the literal names of its fields: a deferral in one of three status fields, its condition and ticket by the order of their fields, a pass in any case, the evidence, the reason and the unblock |
| `AcceptanceReport.JudgeReport` | scripts/lingdoc_acceptance_judge.py:505-523 | exactly the findings of both lists, each with its list and position, in that order and within an entry in the order of its tests |
| `AcceptanceReport.ReportFindingsExactly` | scripts/lingdoc_acceptance_judge.py:505-523 | an entry of either list draws exactly the findings it deserves under the report's own ticket |
| `AcceptanceReport.ReportCleanExactly` | scripts/lingdoc_acceptance_judge.py:505-562 | no finding if and only if both lists hold objects only and every entry is covered |
| `AcceptanceReport.CoveredCoordinates` | scripts/lingdoc_acceptance_summary.py:87-100 | exactly what the summary's pattern finds in pass-shaped entries |
| `AcceptanceReport.CoveredWithinPassed` | scripts/lingdoc_acceptance_summary.py:87-100 | whatever the summary counts as covered is the start of a coordinate the judge counts as passed |
| `AcceptanceJudge.Row.Note` | scripts/lingdoc_acceptance_judge.py:140-154 | a finding is added behind the earlier ones if and only if its condition holds, and none is lost |
| `AcceptanceJudge.JudgePassRow` | scripts/lingdoc_acceptance_judge.py:412-427 | the pass findings added are exactly those the row deserves, in the order of the tests |
| `AcceptanceJudge.JudgeNotRunRow` | scripts/lingdoc_acceptance_judge.py:430-446 | the not-run findings added are exactly those the index tells, in the order of the tests |
| `AcceptanceJudge.JudgeDeferredRow` | scripts/lingdoc_acceptance_judge.py:449-460 | the deferral findings added are exactly those the row deserves, in the order of the tests |
| `AcceptanceJudge.JudgeRow` | scripts/lingdoc_acceptance_judge.py:385-409 | a row ends with exactly the findings it deserves by the report itself, not only by the index |
| `AcceptanceJudge.RowFindingsExactly` | scripts/lingdoc_acceptance_judge.py:385-460 | by literals: which rows are refused for their coordinate, their `IMPL` word, a status that is none of the four or a delivery class that is none of the three; when the evidence is not bound, no recorded head in any case being a beginning of the judged one; in which cell a deferral's condition and ticket are looked for |
| `AcceptanceJudge.OnlyFailNeedsNothing` | scripts/lingdoc_acceptance_judge.py:385-409 | a row draws no finding of the judgement under any report or none if and only if it is a well-formed FAIL row |
| `AcceptanceJudge.JudgeRows` | scripts/lingdoc_acceptance_judge.py:594-600 | exactly the findings of all rows under their row numbers, row by row, and exactly the coordinates that have a row |
| `AcceptanceJudge.CrossCheck` | scripts/lingdoc_acceptance_judge.py:602-604 | one finding for each passed coordinate without a row and no other, in sorted order |
| `AcceptanceJudge.TotalFindingExactly` | scripts/lingdoc_acceptance_judge.py:587-593 | the declared total is found wrong if and only if it is not the number of rows with a coordinate of a word but `IMPL` |
| `AcceptanceJudge.Judge` | scripts/lingdoc_acceptance_judge.py:570-617 | the findings are exactly the faults of citation, report, table, total, rows and coverage, listed in that order and within a row or entry in the order of its tests; the summary counts the rows by status and delivery class; with a matrix and a report there are no findings if and only if both are accepted |
| `AcceptanceJudge.FindingsAreDetermined` | scripts/lingdoc_acceptance_judge.py:570-604 | the faults and their order leave exactly one list of findings, without duplicates |
| `AcceptanceJudge.AcceptedCountsAddUp` | scripts/lingdoc_acceptance_judge.py:606-617 | in an accepted matrix the four status counts of the summary add up to the declared total |
| `AcceptanceJudge.SummaryExactly` | scripts/lingdoc_acceptance_judge.py:606-617 | the summary counts the rows that claim each of the four statuses and each of the three delivery classes |
| `AcceptanceJudge.RowBackedExactly` | scripts/lingdoc_acceptance_judge.py:385-460 | given a clean report a row deserves no finding if and only if it is a well-formed point whose status is backed by evidence at the judged head and by an entry that stands up by itself |
| `AcceptanceJudge.NothingFoundExactly` | scripts/lingdoc_acceptance_judge.py:570-604 | nothing is at fault if and only if the rules are cited, the report is clean, every row is backed, the rows number the declared total and every passed coordinate has a main or auxiliary row |
| `SseReaders.KnowledgeQAStream` | client/session.go:309-357 | the frames of the payloads are delivered up to the first one that does not decode, on which the callback fails, or that is an error frame with done, and that one says how the call ends; without such a one all are delivered and the call ends as the stream does |
| `SseReaders.ContinueStream` | client/session.go:396-434 | the same for the reader that waits for the event type and carries stale buffers |
| `SseReaders.ProcessAgentSSEStream` | client/agent.go:134-177 | the same for the agent reader with trimmed data lines |
| `SseReaders.DeliverHandsOver` | client/session.go:319-337 | the same of handing over a list of payloads after any number of frames |
| `SseReaders.PayloadsAgree` | client/session.go:313-337 | the waiting reader never dispatches more, and the same list if and only if nothing is lost |
| `SseReaders.SessionReadersAgreeExactly` | client/session.go:309-349 | both session readers make the same callbacks and end the same way under every handler if and only if nothing is lost |
| `SseReaders.MessageStreamsAgree` | client/session.go:396-428 | on streams whose data blocks end with event type message the two readers are interchangeable |
| `SseReaders.KnowledgeFollowsRuleExactly` | client/session.go:309-349 | the payloads are the data of all events that the dispatch rule of section 9.2.6 of the WHATWG HTML Standard gives if and only if every finished block with data has one data line, not empty, without a space behind its colon |
| `SseReaders.AgentFollowsRuleExactly` | client/agent.go:134-171 | the same for the agent reader if and only if the value of that one data line is not empty and has no white space at its ends |
| `SseReaders.ContinueFollowsRuleExactly` | client/session.go:396-428 | the same for the waiting reader if and only if moreover nothing is lost |
| `SseReaders.ContinueKeepsMessages` | client/session.go:396-428 | on streams whose blocks say their type, the waiting reader hands over exactly the data of the events that the rule gives the type message |
| `SseReaders.ReaderAndRule` | client/session.go:313-349 | from any line on, for any way of reading a data line, a reader never hands over more than the rule dispatches, and the same exactly on plain blocks |
| `SseReaders.DefaultTypeExample` | client/session.go:401-403 | one data line without an event line: an event of type message under the rule, handed over by one session reader, lost in the other |
| `SseReaders.SpacedValueExample` | client/session.go:347-349 | a space behind the colon is handed over, where the rule drops it |
| `SseReaders.EventFieldLine` | client/session.go:423-425 | a line sets the event type if and only if its field is `event` and it has a colon, and the rule reads the same type less one space |
| `SseReaders.LinesAreCut` | client/agent.go:134-141 | a text is cut behind every newline, less a carriage return, and a rest without one is a line when it is not empty |
| `SseReaders.StreamIsDelivered` | client/agent.go:134-171 | printed blocks come out as their trimmed payloads, in order, before whatever follows |
| `SseReaders.PrintedStreamIsRead` | client/agent.go:134-171 | the agent reader hands over exactly those payloads and drops an unterminated last block |
| `SseReaders.ConcatenationIsReadInTurn` | client/agent.go:134-177 | reading a complete stream with another behind it is reading one, then the other |
| `NamingRegistry.CheckRecords` | scripts/lingdoc_naming_registry.py:3002-3006 | accepted if and only if every record is well formed; otherwise the first bad record is refused for its first bad field |
| `NamingRegistry.FileRecordExactly` | scripts/lingdoc_naming_registry.py:2868-2914 | which file records are accepted, by literal rules, tickets, batches, path segments and phrases |
| `NamingRegistry.IdentifierRecordExactly` | scripts/lingdoc_naming_registry.py:2927-2964 | which identifier records are accepted, by the letters before the digit, the scope, the path, the rigs and the fixtures |
| `NamingRegistry.CheckDuplicates` | scripts/lingdoc_naming_registry.py:3008-3029 | accepted if and only if paths, knowledge and definition sites are distinct; otherwise the first repeated value is named |
| `NamingRegistry.ValidateRecords` | scripts/lingdoc_naming_registry.py:2996-3064 | accepts exactly the registries that are well formed, without duplicates, with each legacy segment exactly as long as the baseline, and names the first thing wrong with any other |
| `NamingRegistry.ScanFileDefects` | scripts/lingdoc_naming_registry.py:2664-2676 | the scan collects exactly the code files that break a rule, each with the rules it breaks in the order of the rule table |
| `NamingRegistry.FileDefectsExactly` | scripts/lingdoc_naming_registry.py:2581-2618 | a file is listed under a rule if and only if its path breaks it, or a definition with a work number for the body rule, and the rule is none of the three from which the rigs are exempt when the file lies in one |
| `NamingRegistry.ScanIdentifierDefinitions` | scripts/lingdoc_naming_registry.py:2777-2795 | the scan collects exactly the numbered definition sites |
| `NamingRegistry.CheckFiles` | scripts/lingdoc_naming_registry.py:3099-3120 | exactly the file complaints that are due for the last record of each path, kind by kind and sorted by path |
| `NamingRegistry.ByPathIsLast` | scripts/lingdoc_naming_registry.py:3096-3099 | of several records under one path the last one is checked |
| `NamingRegistry.CheckSites` | scripts/lingdoc_naming_registry.py:3122-3131 | exactly the sites that only one side knows, sorted |
| `NamingRegistry.CheckGrowth` | scripts/lingdoc_naming_registry.py:3135-3152 | a growth complaint, with its count, if and only if a segment exceeds the baseline |
| `NamingRegistry.CheckRepository` | scripts/lingdoc_naming_registry.py:3080-3154 | exactly the complaints that are due, in their order, and none if and only if repository and registry agree, also for records that were not loaded |
| `NamingRegistry.DebtIsExact` | scripts/lingdoc_naming_registry.py:2996-3154 | both validators together: the breaking files are exactly the legacy entries and number the baseline, and live numbered identifiers equal the declared ones |
| `NamingRegistry.PaidOffMeansClean` | scripts/lingdoc_naming_registry.py:2996-3154 | with no file left in the baseline no file breaks a rule and every numbered identifier lies in a rig |
| `NamingRegistry.FileRatchetIsImplied` | scripts/lingdoc_naming_registry.py:3133-3138 | with a registry that loads the file growth test adds nothing |
| `NamingRegistry.IdentifierGrowthExactly` | scripts/lingdoc_naming_registry.py:3140-3152 | with a registry that loads and declares exactly the live identifiers, a scope is said to have grown if and only if its random fixtures outside the rigs outnumber its legacy identifiers inside them |
| `NamingRegistry.StrayFixtureIsCounted` | scripts/lingdoc_naming_registry.py:3140-3148 | a registry of one random fixture outside the rigs loads, and the check says that a segment grew |
| `WorkerLimit.ExecutionKeepsInvariant` | docreader/parser/concurrency.py:12-39 | every interleaving keeps the lock, phase, permit and log invariants |
| `WorkerLimit.PermitsAndHoldersMakeFirstBound` | docreader/parser/concurrency.py:12-18 | for every registered name free permits plus holders equal the first positive bound requested, and holders never exceed it |
| `WorkerLimit.UnthrottledExactly` | docreader/parser/concurrency.py:29-31 | under every schedule a running body runs outside a limiter if and only if the request its call made was not positive |
| `WorkerLimit.BodiesWithinFirstBound` | docreader/parser/concurrency.py:22-39 | bodies requested with a positive bound under one name and running at once never exceed the first positive bound under it |
| `WorkerLimit.NonPositiveRunsAtOnce` | docreader/parser/concurrency.py:29-31 | a request that is not positive runs in one step, whoever holds, and touches no limiter |
| `WorkerLimit.AcquireExactly` | docreader/parser/concurrency.py:33-35 | a waiting call enters if and only if its limiter is held by fewer calls than the first bound |
| `WorkerLimit.UndisturbedCallEnters` | docreader/parser/concurrency.py:12-35 | a call with a positive bound that nobody disturbs reaches its body when the lock is free and its name is new or not exhausted |
| `WorkerLimit.LogGrowsByOwnRequest` | docreader/parser/concurrency.py:12-13 | the log holds the requests of the calls in the order in which they took the free lock |
| `WorkerLimit.NoReleaseTooMany` | docreader/parser/concurrency.py:35-39 | no release is one too many, whether the body returned or raised, and a release gives up exactly one holder |
| `WorkerLimit.FreeLimiterAdmits` | docreader/parser/concurrency.py:35 | a waiting call gets in when nobody holds its limiter |
| `WorkerLimit.LaterRequestsChangeNothing` | docreader/parser/concurrency.py:13-18 | a name keeps its limiter and its bound whatever is requested later |
| `WorkerLimit.SomeCallCanStep` | docreader/parser/concurrency.py:12-39 | while a call is unfinished some call can take a step that is no new request |
| `SigningKey.ContentIsFinal` | cmd/desktop/signing_key.go:31-49 | once the key file has content no interleaving changes it |
| `SigningKey.SuccessesAgree` | cmd/desktop/signing_key.go:26-57 | all processes that succeed end with the same key, which is the file's content and at least 32 bytes |
| `SigningKey.NobodyRepairs` | cmd/desktop/signing_key.go:38-56 | a short file whose creator is gone stays as it is and every process fails on it |
| `SigningKey.ErrorEndsTheProcess` | cmd/desktop/signing_key.go:38-53 | a fault, a write cut short or a failing close ends the process in failure for good, and what was written stays |
| `SigningKey.SomebodyCanSucceedExactly` | cmd/desktop/signing_key.go:26-57 | some interleaving lets a process succeed if and only if the directory starts without a key file or with one of at least 32 bytes |
| `SigningKey.SmoothFailuresExactly` | cmd/desktop/signing_key.go:31-56 | from a directory without a key file and without faults, a process that has ended failed if and only if one of its reads met the file between another process's create and its write |
| `SigningKey.SoloRun` | cmd/desktop/signing_key.go:31-57 | a process alone without faults keeps the key that is there or stores its own |
| `ChainParser.ParseFirst` | docreader/parser/chain_parser.py:48-72 | the loop returns the first valid document, passing over exceptions and empty documents |
| `ChainParser.FirstIsSpelledOut` | docreader/parser/chain_parser.py:58-72 | the outcome is that of the first part that neither raises nor gives a document without text, and an empty document without such a part |
| `ChainParser.ParsePipeline` | docreader/parser/chain_parser.py:122-151 | the loop ends with the last stage's text and the right-biased merge of all stages, or with the exception that broke the chain |
| `SharedDocuments.ParseInPlace` | docreader/parser/chain_parser.py:134-151 | over document objects that stages may keep and share, the loop hands over the object of the last stage with what the value pipeline gives, and every other object stays as it was |
| `SharedDocuments.AgainTheSame` | docreader/parser/chain_parser.py:148-151 | run again after that update, whichever stages hand the updated object out, the pipeline gives the same document |
| `ChainParser.FirstOfAppend` | docreader/parser/chain_parser.py:58-72 | trying two lists in a row is trying the second when the first gives nothing |
| `ChainParser.MergedAppend` | docreader/parser/chain_parser.py:136-151 | the merge of two runs of stages is the merge of their merges |
| `ChainParser.PipelineAppend` | docreader/parser/chain_parser.py:138-151 | a pipeline of two non-empty parts is the second part run on the first part's result |
| `ChainParser.FlattenKeepsMeaning` | docreader/parser/chain_parser.py:48-151 | flattening nested parsers at every depth keeps content, images, metadata and exceptions on every input |
| `ChainParser.FlattenIsFlat` | docreader/parser/chain_parser.py:48-151 | what flattening leaves has no first-success parser directly in another one and no pipeline with stages directly in a pipeline, at any depth |
| `ChainParser.SplicingNeedsAStage` | docreader/parser/chain_parser.py:136-151 | splicing a nested pipeline in is right for every input if and only if it is not empty |
| `ChainParser.EmptyPipelineForgetsInput` | docreader/parser/chain_parser.py:138-144 | an empty nested pipeline replaces the input by an empty document |
| `TicketOwnership.DeclarationTokens` | scripts/lingdoc_ticket_ownership.py:212-225 | the nested loops collect the distinct tokens of the section's list items |
| `TicketOwnership.CollectKeepsFirstOccurrences` | scripts/lingdoc_ticket_ownership.py:217-225 | the collected list holds each non-empty stripped token once, in the order of first occurrence |
| `TicketOwnership.ExtractDeclaredPaths` | scripts/lingdoc_ticket_ownership.py:228-239 | no section gives nothing; otherwise exactly those declared tokens that look like paths, in their order |
| `TicketOwnership.RenderedSectionParsesBack` | scripts/lingdoc_ticket_ownership.py:109-136 | a rendered section parses back to exactly those of its distinct tokens that look like paths, in first-occurrence order, whatever precedes the heading or follows the next one |
| `TicketOwnership.RenderedPathsParseBack` | scripts/lingdoc_ticket_ownership.py:109-136 | a rendered section of tokens that all look like paths parses back to the tokens themselves, each once, in first-occurrence order |
| `TicketOwnership.PathTokenExactly` | scripts/lingdoc_ticket_ownership.py:187-209 | a token is a path if and only if it is one word, no option and no address, and with a slash a relative path of named segments, without one a name with a known extension |
| `TicketOwnership.DottedNames` | scripts/lingdoc_ticket_ownership.py:127-129 | `a.go` is a path and `Request.Body` is none |
| `TicketOwnership.HeadingExactly` | scripts/lingdoc_ticket_ownership.py:109-113 | a line is the ownership heading if and only if it is one to six marks, one of the four names in any case and a note in parentheses at most, with blanks around each |
| `TicketOwnership.NextHeadingExactly` | scripts/lingdoc_ticket_ownership.py:136 | a line ends the section if and only if one to six marks begin it and white space follows, be it the newline |
| `TicketOwnership.ListItemExactly` | scripts/lingdoc_ticket_ownership.py:120 | a line is a list item if and only if it is a bullet between blanks with text behind it |
| `TicketOwnership.TokensExactly` | scripts/lingdoc_ticket_ownership.py:125 | tokens are the non-empty texts between two backticks, read from the left |
| `TicketOwnership.PiecesExactly` | scripts/lingdoc_ticket_ownership.py:217 | a section is cut into lines at each of the ten line breaks and nowhere else |
| `TicketOwnership.CarriageReturnHidesHeading` | scripts/lingdoc_ticket_ownership.py:109-113 | a line that ends in a carriage return is never an ownership heading |
| `TicketOwnership.CrlfTicketHasNoSection` | scripts/lingdoc_ticket_ownership.py:174-184 | a ticket with CRLF line ends has no ownership section if and only if its last line is not the heading itself |
| `ReviewMatching.IndexDecisions` | cmd/lingdoc-docx-demo/main.go:65-71 | the index holds every decision by item, or the first item decided twice is reported |
| `ReviewMatching.BuildChapter` | cmd/lingdoc-docx-demo/main.go:64-82 | succeeds if and only if decision ids are distinct, item ids are distinct and the two id sets are equal; each error names its case, and an orphan is reported only when every item is decided |
| `ReviewMatching.BuildChapters` | cmd/lingdoc-docx-demo/main.go:63-84 | all chapters in order if and only if every one matches; otherwise the error of the first one that does not |
| `ReviewMatching.PairingIsUnique` | cmd/lingdoc-docx-demo/main.go:72-79 | a matching chapter leaves no choice of the pairing |
| `ChunkPaging.ListChunks` | cmd/lingdoc-material-check/main.go:329-354 | returns the chunks of exactly the pages asked for, or an error: the loop goes on while a page is not empty and the chunks are fewer than its total; within max(1, T) requests when totals never exceed T |
| `ChunkPaging.TrueTotalListsAll` | cmd/lingdoc-material-check/main.go:333-353 | with the true total, the whole list in order after max(1, ceil(n/100)) requests |
| `ChunkPaging.ReportedTotalListsAllExactly` | cmd/lingdoc-material-check/main.go:348-351 | with any other total the listing is complete if and only if the list fits one page or the total exceeds all pages but the last |
| `ListenRetry.ListenWithRetry` | cmd/server/listen.go:11-29 | listens if and only if some attempt succeeds; otherwise maxRetries tries, one sleep fewer, the last error, and the i-th sleep is the i-th delay |
| `ListenRetry.DelaysDoubleExactly` | cmd/server/listen.go:20-23 | the delays are min(base * 2^i, 3s) if and only if the largest doubling stays below 2^63 |
| `ListenRetry.SomeDelayOverflows` | cmd/server/listen.go:20-23 | past that some delay is negative |
| `ListenRetry.DelaysAreBounded` | cmd/server/listen.go:19-26 | below it the delays are positive, never shrink and total at most three seconds each |

## Left out

- ParsePipeline: outcomes are values, and `ParseInPlace` states the update of the returned object in place for stages that change no object themselves, so a pipeline nested in another over shared objects is not captured; metadata values are strings, and no two documents share a dictionary.
- CheckRecords: the loader's dynamic type checks of raw records are not modelled, every field has its type.
- ValidateRecords: the same, and the baseline's commit and scope texts are left out.
- GenerateAnswers: each table write is one atomic step, and the model call is a given reply per position and attempt.
- AnswerGenerator: sampling, statistics and the display of results.
- ManifestBaseline: running git and loading manifests from source text, the wording of details and the claimant's name.
- Regex: only the constructs of the two patterns, and only non-empty matches in a search; Unicode digit and word tables are parameters.
- AcceptanceReport: the patterns for test names, commands, heads, tickets, release conditions and the header's citation are parameters of the lexicon.
- MatrixTable: `splitlines` is a parameter.
- AcceptanceJudge: the execution of commands, loading of files and resolving the judged head through git; a row object is made when it is judged.
- AcceptanceStatus: the two blocking gates over status lists and the scans of documents for deferred entries, which are single searches over normalised words.
- SseReaders: HTTP, the line-length cap and JSON decoding; lines are given as `bufio.ScanLines` cuts them, so a lone carriage return as a line end and a byte order mark, which the WHATWG HTML Standard knows, are not compared.
- NamingRegistry: the rules about a path alone and the language scanners are parameters; the baseline's commit and scope texts, the harness flag of files and the scan cache are left out.
- WorkerLimit: a nested call of a thread counts as a call of its own, so a thread that blocks on its own nested call is not excluded by `SomeCallCanStep`.
- SigningKey: writing the key is one step, except for the short write that reports an error; random bytes and base64 appear as a key of 43 bytes.
- TicketOwnership: fetching tickets, comparing them with the registry and finding shorthand paths.
- ReviewMatching: rendering and writing of the document.
- ChunkPaging: HTTP and JSON are a server that answers each page with a list and a total or breaks.
- ListenRetry: opening the socket is a given error per attempt.
- The HTTP client wrappers, the command-line tools, the desktop shell and the frontend hold no state machine of their own.
