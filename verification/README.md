# Formal models of CiteLoom's resource, job and citation logic

CiteLoom answers questions over private documents.  This project models the
parts of it where a mistake would lose a resource, a job or a citation, and
proves what those parts promise.  It stands beside the repository; the files
cited below are the repository's own.

- **Runtime** (`Runtime.dfy`, `RuntimeManager.dfy`).  The application runtime is
  swapped while requests hold leases on older ones.  Each piece of code between
  two suspension points is one event; a run is any interleaving of events.  The
  classes with the original's mutable fields are proved to take these steps.
- **Verification jobs** (`VerificationQueue.dfy`).  Rows, leases and fencing
  tokens, with any number of workers that may crash, stall or repeat themselves.
- **Batch planning** (`HhemPlanner.dfy`).  The greedy planner of the hallucination
  model service, its optimality, and the scatter of scores into request order.
- **Citations** (`Splice.dfy`, `Markup.dfy`, `CitationPlaces.dfy`, `Claims.dfy`,
  `ClaimTexts.dfy`, `Coverage.dfy`, `Offsets.dfy`, `PrunedAnswer.dfy`,
  `ShiftedRanges.dfy`, `Labels.dfy`, `Draft.dfy`, `PublishedModel.dfy`,
  `Published.dfy`, `PublishedProof.dfy`).  Scanning markers, cutting text into
  sentences, pruning what is not cited, and compiling drafts into documents that a
  strict validator accepts.  One theorem on splicing from the right serves pruning,
  canonical citations and claim texts.
- **Budget, stream, scoring** (`ContextBudget.dfy`, `Stream.dfy`,
  `HhemScoring.dfy`, `ClaimVerification.dfy`).
- **Scripts** (`PromotionGate.dfy`, `Migration.dfy`).  The statistics gate and the
  writer that replaces datasets all or none.

`Prelude.dfy` and `Sorting.dfy` hold shared facts.  `dafny verify dfyconfig.toml`
checks the project.  Nothing was executed.

A method models a loop or an update of the original and is proved equal to a
specification function; the lemmas say what that function means on the inputs and
outputs themselves.  Where the original throws, the model returns an error, and the
contract says exactly when.

## Where the code does less than one would expect

- `services/hhem/hhem_service.py:218-223` compares with the memory limits only an
  item that opens the first batch.  An item that follows a flush (224-233) is
  appended unchecked, so a batch of one can exceed the limits
  (`HhemPlanner.OversizedBatchExists`).  All batches are within the limits if and
  only if every item is within them alone (`HhemPlanner.LimitsHoldIffEachFits`).
- `src/answers/coverage.ts:69` applies block ranges, which are measured on the
  answer as written, to its canonical text, in which citations have been
  rewritten.  Where that shifts the text, pruning cuts in the wrong place: of
  "A [1,2]." followed, after a blank line, by the uncited "B." it takes out the
  blank line (`ShiftedRanges.SuchAnAnswerExists`), and a family of answers keeps
  its uncited paragraph whole (`ShiftedRanges.UncitedClaimSurvives`).  The edits
  take out exactly the text they were made for if and only if at each end of
  each edit the rewrites left of it lengthen the text by just what is trimmed
  off its front; at the start of the answer, and where nothing but blanks
  follows, less is asked (`Offsets.StaysPut`,
  `PrunedAnswer.PruningTakesItsTextExactlyWhen`).  When they do, the pruned
  answer is the meant one (`PrunedAnswer.PruneGeneratedAnswer`), which keeps
  every grounded block and none of the uncited ones.
- `scripts/docling-benchmark/promotion-gate.ts:73-94`: the median check is implied
  by the check of every repetition (`PromotionGate.MedianCheckIsImplied`).
- `scripts/docling-benchmark/promotion-gate.ts:18-41`: the documents that the
  baseline was measured on are never compared with the candidate's; with any
  others in their place the gate decides the same
  (`PromotionGate.BaselineDocumentsNeverMatter`), so a candidate measured on one
  document can be promoted over a baseline measured on another
  (`PromotionGate.EligibleOnOtherDocuments`).  With one result a document and
  repetition an eligible candidate was measured on the documents of its baseline
  if and only if the baseline was measured on none but the candidate's
  (`PromotionGate.SameDocumentsExactlyWhen`).  The only callers
  (`scripts/docling-benchmark/runner.ts:367-377` and `837-846`) meet that: they
  pass the results of one run over one corpus, which its fingerprint pins, with at
  least three repetitions and results that are unique by document, candidate and
  repetition, and then both were measured on the whole corpus
  (`PromotionGate.CommonCorpusIsCovered`).
- `src/answers/published.ts:71-159`: an answered draft whose only statement is its
  direct answer compiles, to a document without citations and statements, which
  has the shape of an uncited one (`PublishedProof.SoleStatementCompilesUncited`).
  What compiles is an answered document if and only if the draft has another
  statement or a conflict group (`PublishedProof.CompilesToAnsweredExactlyWhen`).
  The two decoders of model responses, `src/answers/draft.ts:385-450` and
  `src/chat/answer-response.ts:93-137`, always add another statement, so the error
  of `src/answers/inference.ts:1248-1250` cannot occur on their drafts.
- `src/answers/markup.ts:478-484` looks a citation that was read off the source up
  in the parsed text, at the first occurrence of its marker.  Where an entity in
  front of it reads the same once parsed, as in "&#91;1] first. Second [1].", the
  citation goes to the wrong place (`CitationPlaces.EntityMisplacesCitation`).
  Every citation is put at its own place if and only if no marker occurs between
  the end of the one before it and its own place
  (`CitationPlaces.PutInPlaceExactlyWhen`); where the parsed text is its source
  that is always so (`CitationPlaces.SourceTextKeepsPlaces`).

## Model

| member | source | states |
|---|---|---|
| `RuntimeModel.NextKeepsInv` | src/app/runtime.ts:224-369 | Every step of every interleaving keeps the accounting of slots, leases, reloads, retirements, close errors and versions |
| `RuntimeModel.LeaseSafety` | src/app/runtime.ts:456-506 | In every run a slot counts exactly its unreleased leases; close is called once, and exactly when the slot has retired with no lease out; no lease ever sees a closed runtime |
| `RuntimeModel.AcquireSucceeds` | src/app/runtime.ts:304-309 | Before shutdown the current slot is never retired, so the error for a retired snapshot cannot occur |
| `RuntimeModel.ReleaseSucceeds` | src/app/runtime.ts:499-505 | The lease underflow error cannot occur in any run |
| `RuntimeModel.ShutdownClosesEverything` | src/app/runtime.ts:336-368 | When shutdown has finished every runtime ever built, installed or rejected, has had close called exactly once, no lease is out, and shutdown fails exactly if the close of an installed runtime failed |
| `RuntimeModel.HighestRequestWins` | src/app/runtime.ts:228-231 | Whatever order builds finish in, the current version is the highest requested one exactly when that is the first version or its builder delivered it before shutdown |
| `RuntimeModel.InstallsIncrease` | src/app/runtime.ts:321-333 | Slots are only appended and their versions strictly increase, so the current version never goes back |
| `RuntimeModel.ClosingEventsLeaveLess` | src/app/runtime.ts:336-368 | Once shutdown has begun every event changes nothing or leaves strictly less to do |
| `RuntimeModel.ClosingNeverStuck` | src/app/runtime.ts:336-349 | Until shutdown has finished some event that makes progress can happen |
| `RuntimeModel.ShutdownCanFinish` | src/app/runtime.ts:336-349 | From every reachable state in which shutdown has begun it can finish within the work that is left |
| `RuntimeModel.EnabledExactlyWhen` | src/app/runtime.ts:224-369 | After any run calls can come at any time and every continuation runs just when what it waits for has settled; nothing else is asked of an event |
| `RuntimeModel.RunsExtend` | src/app/runtime.ts:224-369 | A run goes on with any event that can happen where it has come to, so runs are all interleavings |
| `RuntimeManager.RuntimeSlot.Acquire` | src/app/runtime.ts:456-472 | Takes the lease step of the slot or reports a retired slot |
| `RuntimeManager.RuntimeSlot.CloseIfDrained` | src/app/runtime.ts:486-497 | Calls close at most once, only when retired and drained, and survives a close that throws |
| `RuntimeManager.RuntimeLease.Release` | src/app/runtime.ts:461-471 | However often it is called only the first call reaches the slot |
| `RuntimeManager.ApplicationRuntimeManager.Reload` | src/app/runtime.ts:224-239 | Refines the request step: the highest version and the pending set |
| `RuntimeManager.ApplicationRuntimeManager.BuildReturned` | src/app/runtime.ts:311-334 | Refines the decision on a built candidate: installed unclosed, with the previous slot retired, or closed at once, one call; the answer of the reload if it has one |
| `RuntimeManager.ApplicationRuntimeManager.CandidateClosed` | src/app/runtime.ts:313-327 | Once a discarded candidate has closed the reload gives the answer it was meant to, or the error of closing |
| `RuntimeModel.ReloadAnswersAreTrue` | src/app/runtime.ts:311-334 | In every run the answer of a reload tells the caller the truth: true exactly if a slot was made for its candidate, false only if a newer version was asked for or one as new is current, and an error only for its reason; what is not installed has had close called once |
| `RuntimeModel.BecomesCurrentExactlyWhen` | src/app/runtime.ts:311-334 | In every run a built candidate of the version asked for becomes current, before shutdown, if and only if its version is above the current one and no reload has asked for a newer one; otherwise all slots stay as they are and the candidate is closed |
| `RuntimeModel.RefusedExactlyWhen` | src/app/runtime.ts:313-327 | Why a candidate is refused: each reason in exactly its own case; the answer stays open until the candidate has closed, unless calling its close function throws |
| `RuntimeModel.ClosingAnswers` | src/app/runtime.ts:313-327 | Once a refused candidate has closed, its reload gives the error of closing exactly if closing failed, else the answer that was meant |
| `RuntimeModel.AnswersAreFinal` | src/app/runtime.ts:224-239 | No answer of a reload changes, whatever happens later |
| `RuntimeManager.EveryRuntimeIsClosedOnce` | src/app/runtime.ts:336-368 | When shutdown has finished, the close function of every runtime object the manager ever had, installed or not, has been called exactly once |
| `RuntimeManager.ApplicationRuntimeManager.Acquire` | src/app/runtime.ts:304-309 | Refines the acquire step of the manager |
| `RuntimeManager.ApplicationRuntimeManager.ReleaseLease` | src/app/runtime.ts:275-302 | Refines the release step for any lease of the manager, released before or not |
| `RuntimeManager.ApplicationRuntimeManager.ClosureRecorded` | src/app/runtime.ts:356-364 | Refines the handlers that run once a slot has closed |
| `RuntimeManager.ApplicationRuntimeManager.Shutdown` | src/app/runtime.ts:241-244 | Refines the beginning of shutdown; later calls change nothing |
| `RuntimeManager.ApplicationRuntimeManager.DrainReloads` | src/app/runtime.ts:338-342 | Refines retiring the current slot once the pending reloads have settled |
| `RuntimeManager.ApplicationRuntimeManager.FinishShutdown` | src/app/runtime.ts:342-348 | Refines the end of shutdown, with the errors of closing |
| `VerificationQueue.TokensAreUnique` | src/answers/verification-job-queue.ts:75-97 | Over every run with any workers each (job, attempt) token is issued to one claim, and no two claims hold a job at once |
| `VerificationQueue.RowsAddUp` | src/answers/verification-job-queue.ts:75-197 | In every reachable state the lease is set exactly while running, and attempts equal failures + releases + takeovers + completion + running; with the worker's retry times failures are at most three and the state is failed exactly at three |
| `VerificationQueue.ResultsAppliedOnce` | src/answers/verification-job-queue.ts:99-143 | The results of a job are applied once if it completed and never otherwise |
| `VerificationQueue.StaleTokenNeverActs` | src/answers/verification-job-queue.ts:107-119 | A token that has lost its row never changes anything again, after any further events |
| `VerificationQueue.FinalRowsNeverChange` | src/answers/verification-job-queue.ts:54-69 | Completed and failed rows, and what was applied for them, never change |
| `VerificationQueue.NoEarlyTakeover` | src/answers/verification-job-queue.ts:56-62 | A running job changes hands without its worker only after the lease of its last claim has run out |
| `VerificationQueue.FailureSchedule` | src/answers/verification-worker.ts:78-99 | The first two failures put the job back one and five seconds later, the third fails it for good |
| `VerificationQueue.RetryDelayIsKept` | src/answers/verification-job-queue.ts:55-58 | In every run a job that was put back until some time is not claimed before that time, whatever happens in between; on the worker's schedule that is one second after the first failure and five after the second |
| `VerificationQueue.VerificationJobQueue.Claim` | src/answers/verification-job-queue.ts:41-97 | Finds nothing exactly if no unlocked row is pending with its time come or running with its lease run out; else takes one of these with the least (availableAt, updatedAt), and the new row and lease are told field by field |
| `VerificationQueue.VerificationJobQueue.Complete` | src/answers/verification-job-queue.ts:99-143 | Applies results and completes the row, told field by field, exactly if the row is running under this token |
| `VerificationQueue.VerificationJobQueue.SettleFailure` | src/answers/verification-job-queue.ts:145-173 | Counts a failure and puts the row back until the retry time, or fails it for good without one, exactly if the row is running under this token |
| `VerificationQueue.VerificationJobQueue.Release` | src/answers/verification-job-queue.ts:175-198 | Gives the row back at once, its failures as they were, exactly if the row is running under this token |
| `VerificationQueue.FinishJob` | src/answers/verification-worker.ts:58-99 | After a claim the worker causes exactly one queue operation with the token of that claim: completion, release if it was aborted, else a failure with the delay of its number, the third for good |
| `VerificationQueue.EnabledExactlyWhen` | src/answers/verification-job-queue.ts:54-69 | After any run a new job can come, any unlocked row that is due and comes no later than the others can be claimed, and any lease ever given out can be presented by anyone, again or late |
| `VerificationQueue.RunsExtend` | src/answers/verification-job-queue.ts:41-198 | A run goes on with any event that can happen where it has come to |
| `HhemPlanner.PlanIsPartition` | services/hhem/hhem_service.py:181-236 | The batches are the items in (tokens, id) order, cut into non-empty pieces, and every batch of two or more obeys the three limits |
| `HhemPlanner.PlanIsInTokenOrder` | services/hhem/hhem_service.py:202 | Shorter items come first, those of one length by their ids |
| `HhemPlanner.StringLeqExactlyWhen` | services/hhem/hhem_service.py:202 | Ids are compared character by character |
| `HhemPlanner.FeasibleExactlyWhen` | services/hhem/hhem_service.py:207-217 | A batch obeys the limits exactly if it is no larger than allowed and, padded to any of its items, has no more tokens and no more attention cells than allowed |
| `HhemPlanner.PlannedBatchesFit` | services/hhem/hhem_service.py:181-236 | What is sent to the model at once is one item, or items that obey the three limits by the tokens of their evidence and claim |
| `HhemPlanner.PlanFailsExactlyWhen` | services/hhem/hhem_service.py:185-223 | Planning fails exactly for an item without tokens or with more than the model takes, the first of which it names, or if no item fits into the memory limits alone |
| `HhemPlanner.LimitsHoldIffEachFits` | services/hhem/hhem_service.py:218-232 | All batches obey the limits exactly if every item fits alone: only the first sorted item is compared with the memory limits by itself |
| `HhemPlanner.OversizedBatchExists` | services/hhem/hhem_service.py:224-233 | Two items whose plan holds a batch over the padded token limit, because an item that follows a flush is not compared by itself |
| `HhemPlanner.MemoryErrorIffNoneFits` | services/hhem/hhem_service.py:218-223 | Planning fails on memory exactly if no item at all fits alone |
| `HhemPlanner.PlanIsOptimal` | services/hhem/hhem_service.py:202-236 | No division of the same items into groups within the limits, in any arrangement, has fewer groups than the plan |
| `HhemPlanner.ModelScorer.Score` | services/hhem/hhem_service.py:140-179 | One result an item in request order; a capacity failure exactly for items too long, else the score the model gave that item: for a model that judges pairs, its judgement on this evidence and this claim, in this order; errors exactly from planning or unusable model output |
| `HhemPlanner.UsableExactlyWhen` | services/hhem/hhem_service.py:432-447 | Model output is usable exactly if it has one score for each pair of evidence and claim that was sent, each between 0 and 1 |
| `HhemPlanner.ModelScorer.PackBatches` | services/hhem/hhem_service.py:203-236 | The packing loop gives the greedy division of the measured items |
| `HhemPlanner.ModelScorer.ScoreBatches` | services/hhem/hhem_service.py:150-159 | Every item of every batch is filed under its id with its own score |
| `Splice.ApplyFromRight` | src/answers/coverage.ts:173-188 | Splicing ordered disjoint edits in from the right is the simultaneous substitution, also if the last reaches past the end of the text |
| `Splice.StretchInResult` | src/answers/markup.ts:941-951 | A stretch that no edit reaches across shows in the result in one piece, edited by what lies inside it |
| `Coverage.GroupClaims` | src/answers/coverage.ts:83-96 | Groups claims by block in order of first occurrence |
| `Coverage.EditedExactlyWhen` | src/answers/coverage.ts:29-62 | Exactly the blocks with an uncited claim are edited: removed if they are table rows or have no cited claim, else left their cited claims |
| `Coverage.RefusedExactlyWhen` | src/answers/coverage.ts:110-139 | Pruning is given up exactly if the range of a block to be removed holds another block with a cited claim |
| `Coverage.CitedTextIsMadeOf` | src/answers/coverage.ts:98-108 | What is left of a rewritten block is one piece for each of its cited claims, in order, with one space between them: the text, a space and the markers |
| `Coverage.MarkersAreJoined` | src/answers/coverage.ts:100-106 | The markers of a claim are one bracketed number each, in order, with one space between them |
| `Coverage.NormalizeEdits` | src/answers/coverage.ts:141-171 | Sorted edits with duplicates and covered removals dropped, or nothing where two clash |
| `Coverage.PruneUncited` | src/answers/coverage.ts:19-81 | For ranges in order, of which the last may reach past the end, the pruned answer is the simultaneous substitution of the normalized edits, trimmed, under its heading; null exactly without edits, with a grounded block inside a removal, or with an empty body; always null if edits clash |
| `Coverage.NormalizeAccounts` | src/answers/coverage.ts:152-170 | What normalizing keeps is ordered and disjoint, and what it drops is a copy of a kept edit or inside a kept removal |
| `Coverage.PruningIsSafe` | src/answers/coverage.ts:110-171 | With nested ranges, and unless a removal would swallow a grounded block, normalizing always succeeds, the kept edits are disjoint, and no rewrite is dropped |
| `Offsets.RewrittenIsSlice` | src/answers/markup.ts:928-951 | What a stretch of the answer becomes stands, before trimming, between the places to which its ends move by the growth of the rewrites left of them |
| `Offsets.TakesItsTextExactlyWhen` | src/answers/coverage.ts:69 | An edit applied to the canonical text takes out exactly the text of its range in the answer as written if and only if both its ends stay put |
| `PrunedAnswer.PruningTakesItsTextExactlyWhen` | src/answers/coverage.ts:23-69 | All edits of pruning take out exactly the text they were made for if and only if all their ranges stay put |
| `PrunedAnswer.StayingMakesTheMeant` | src/answers/coverage.ts:69-73 | If they stay put, splicing them into the canonical text comes, trimmed, to the rewritten answer with each edit at the place its range has moved to |
| `PrunedAnswer.PruneGeneratedAnswer` | src/answers/coverage.ts:19-81 | From the answer as written to the pruned one: if all ranges stay put the result is the meant answer under its heading, and null exactly without edits, with a grounded block inside a removal, or if nothing is left |
| `PrunedAnswer.GroundedBlockStands` | src/answers/coverage.ts:37-62 | In the meant answer every block with a cited claim that is no table row stands in one piece: whole, its citations rewritten, or as exactly its cited claims |
| `PrunedAnswer.RewrittenBlockLeavesItsCitedClaims` | src/answers/coverage.ts:37-62 | In the meant and in the pruned answer the stretch of a block with cited and uncited claims is the pieces of its cited claims, joined by one space, and nothing else |
| `PrunedAnswer.CitedClaimStands` | src/answers/coverage.ts:98-108 | No cited claim of such a block is lost: its text, a space and its markers stand in the meant answer |
| `PrunedAnswer.UncitedBlockIsCut` | src/answers/coverage.ts:45-53 | The meant answer is made only of what stands left and right of a range that holds the removal range of any block without a cited claim, or table row with an uncited one |
| `ShiftedRanges.UncitedClaimSurvives` | src/answers/coverage.ts:69-81 | A family of two-paragraph answers whose pruned text ends in the whole uncited paragraph, because the citation before it grew by at least its length |
| `ShiftedRanges.SecondIsCutExactlyWhen` | src/answers/coverage.ts:45-69 | Of any answer of two paragraphs, one cited and one not, pruning takes out just the uncited one exactly if rewriting the citation keeps its length |
| `ShiftedRanges.TwoParagraphsAreParsed` | src/answers/markup.ts:210-237 | Such answers have all that the theorems on pruning ask of a parse |
| `ShiftedRanges.SuchAnAnswerExists` | src/answers/markup.ts:928-935 | One of them, its edit, and the text that is left: the blank line is gone and the uncited sentence is not |
| `Markup.MarkerParsesBack` | src/answers/markup.ts:776-783 | A canonical marker parses back to the number it was made from |
| `Markup.ParseCitationNumbers` | src/answers/markup.ts:776-783 | The numbers between the commas of a marker, each trimmed and read in base ten |
| `Markup.ListParses` | src/answers/markup.ts:776-783 | However many numbers a marker lists, with whatever blanks around them, they are parsed in order |
| `Markup.ReadUniqueNumbers` | src/answers/markup.ts:879-890 | Every value once, in order of first occurrence |
| `Prelude.UniqueInOrder` | src/answers/markup.ts:879-890 | Of two distinct values the one that comes out first is mentioned before the other |
| `Markup.ExpandCitationRange` | src/answers/markup.ts:863-877 | A range gives its numbers in order, all within 1 .. maximum, an error exactly if an end is out of range, and nothing if it falls |
| `Markup.ValidateCitationNumbers` | src/answers/markup.ts:892-908 | Accepts exactly positive safe integers up to the maximum |
| `Markup.IsEscaped` | src/answers/markup.ts:765-774 | Escaped exactly after an odd run of backslashes |
| `Markup.EscapedExactlyWhen` | src/answers/markup.ts:765-774 | Escaped exactly if an odd number of backslashes, and no more, stands right before the index |
| `Markup.TrimMeans` | src/answers/markup.ts:951 | Trimming takes off exactly the blanks at both ends |
| `Markup.ReadCitationCandidates` | src/answers/markup.ts:679-763 | Candidates are ordered, disjoint and carry their text, and are exactly these matches: the repairable ranges, the markers that meet none of them, and the repairable unclosed markers that meet none of either; without a maximum just the markers |
| `Markup.AppendCitationAwareText` | src/answers/markup.ts:465-516 | Succeeds exactly if every candidate is found in the text after the one before it, and every unescaped one reads as numbers in range; then text spans and markers rebuild the text exactly, and the citations are the unescaped candidates in order, each at the place where it is found |
| `Markup.CandidatesAreFound` | src/answers/markup.ts:479-484 | Where the parsed text is the source text, candidates read off it are always found |
| `CitationPlaces.PutInPlaceExactlyWhen` | src/answers/markup.ts:478-484 | Citations are put at their own places exactly if no marker occurs earlier, after the one before it |
| `CitationPlaces.EntityMisplacesCitation` | src/answers/markup.ts:474-484 | A source with an entity in which the one citation is put where the entity was |
| `CitationPlaces.ScanIsMatches` | src/answers/markup.ts:12 | Scanning for the marker pattern gives ordered disjoint matches, each from a bracket with a digit after it to the first bracket that closes on its line |
| `CitationPlaces.ScanCovers` | src/answers/markup.ts:691-706 | Whatever matches that pattern lies in a match with the same end |
| `CitationPlaces.ScanFindsPattern` | src/answers/markup.ts:12 | Scanning finds only what fits the pattern of markers, told character by character, and whatever fits it lies in a match with the same end |
| `CitationPlaces.OpensAtExactlyWhen` | src/answers/markup.ts:13 | A marker is unclosed exactly if after its bracket and digit a line break comes before every closing bracket |
| `CitationPlaces.SourceTextKeepsPlaces` | src/answers/markup.ts:478-484 | Where the parsed text is its source, with nothing escaped in it, every citation is put at its own place |
| `CitationPlaces.AppendTextNode` | src/answers/markup.ts:465-516 | A whole text node from its source to spans: where its text is its source it fails exactly for numbers that are not accepted, and every citation stands at its own place |
| `Markup.CanonicalizeCitations` | src/answers/markup.ts:922-952 | The canonical text is the simultaneous substitution of the citation rewrites, trimmed |
| `Markup.ReadReplacements` | src/answers/markup.ts:926-944 | One rewrite a citation, in order, to the markers of its numbers; then exactly the removals of the definitions that only repaired links used |
| `Claims.FlattenInlineSpans` | src/answers/claims.ts:347-363 | The text of all spans with canonical markers, and where each marker stands |
| `Claims.FlattenIsWellMarked` | src/answers/claims.ts:347-363 | Markers stand in the flattened text in order, apart and non-empty |
| `ClaimTexts.FlattenMeans` | src/answers/claims.ts:347-363 | The flattened text is what its spans contribute, one after the other, texts as they are and citations as their markers; and each citation, with its numbers, is listed where its span stands |
| `Claims.ReadSentenceEndAfterCitations` | src/answers/claims.ts:486-524 | Skips quotes, blanks and all markers that follow; the loop ends because markers are not empty |
| `Claims.SentenceTakesWhatFollows` | src/answers/claims.ts:486-524 | The sentence of a mark holds the quotes right after it, every citation that follows with only tabs and spaces between, and the blanks after these; what comes next is neither such a citation nor such a blank |
| `Claims.ReadSentenceRanges` | src/answers/claims.ts:365-388 | The loop gives the sentences, for any predicate on periods, each ending as the first mark in it asks, but for a last one without a mark |
| `Claims.SentencesEndAtMarks` | src/answers/claims.ts:365-388 | No sentence ends but at its first mark, with what follows that mark, or at the end of a text that has no further mark |
| `Claims.SentencesTile` | src/answers/claims.ts:365-388 | Sentences are non-empty, tile the text, and none begins or ends inside a marker |
| `Claims.EveryCitationInOneSentence` | src/answers/claims.ts:542-561 | Reading the citations sentence by sentence gives all citations, in order, each once |
| `Claims.ReadSentenceCitationNumbers` | src/answers/claims.ts:542-561 | The distinct numbers of a sentence in order of appearance |
| `Claims.ReadClaimText` | src/answers/claims.ts:526-538 | The text of a claim is its sentence with exactly its own markers cut out at once, its blanks normalized |
| `ClaimTexts.ClaimTextMeans` | src/answers/claims.ts:526-538 | Before its blanks are normalized the text of a claim is all characters of its sentence but those in a marker that lies in it |
| `Claims.NormalizedIsTidy` | src/answers/claims.ts:563-568 | Normalized text has single spaces only, none at an end or before punctuation, and nothing but blanks is lost or added |
| `ClaimTexts.NormalizedKeepsGaps` | src/answers/claims.ts:563-568 | After normalizing a blank stands before a visible character exactly if one stood there before and the character is neither the first nor a punctuation mark, so no words run together |
| `Claims.NormalizedExactlyWhenTidy` | src/answers/claims.ts:563-568 | Exactly such text is left as it is, so normalizing twice changes nothing |
| `Labels.IndexOfLabel` | src/answers/draft.ts:518-526 | Every index is read back from its label |
| `Labels.LabelOfIndex` | src/answers/draft.ts:518-526 | Every non-empty A-Z string is the label of its index |
| `Labels.CreateAlphabeticLabel` | src/answers/draft.ts:518-526 | The loop gives the label |
| `Labels.ReferencesAreDistinct` | src/answers/draft.ts:125-134 | n references, pairwise different, for every n |
| `PublishedModel.ValidatePublishedDocumentReferences` | src/answers/published-model.ts:145-223 | Reports nothing exactly for documents with distinct citation ids and numbers, sections in order, existing unrepeated references, and no citation unused (ReferencesMeet has the rules one by one) |
| `PublishedModel.DecodePublishedAnswerDocument` | src/answers/published-model.ts:84-120 | Accepts exactly documents that meet the rules of the schema and those on references (MeetsSchema has them one by one), and trims every content, changing nothing else |
| `PublishedModel.DecodingIsStable` | src/answers/published-model.ts:114-120 | Decoding what was decoded changes nothing and never fails |
| `PublishedModel.ReadPublishedAnswerClaims` | src/answers/published.ts:393-424 | One claim a statement with its index, its content and, in order, a number listed for each citation it names, none without citations; an error exactly if a named citation is missing, which a valid document rules out |
| `Draft.CompactStatementEvidence` | src/answers/published.ts:352-387 | One reference per element in order of first mention, an error exactly for an unknown reference; the two later lookups cannot fail |
| `Draft.CompactKeepsElements` | src/answers/published.ts:339-387 | Compacting keeps exactly the elements meant and repeats none |
| `Draft.CompactKeepsOrder` | src/answers/published.ts:361-380 | Compacted references keep the order in which their elements are first meant |
| `Draft.AppendPreparedConflictGroup` | src/answers/published.ts:229-280 | A conflict group becomes its scope, its positions and its explanation, the outer two with the evidence of all positions |
| `Draft.GroupMeans` | src/answers/published.ts:235-280 | A conflict group is its scope, each position as a bullet with its own claim and its own evidence, and its explanation; the outer two have the evidence of all positions |
| `Draft.PrepareDraftStatements` | src/answers/published.ts:176-207 | Every statement of the draft and of its distinct conflict groups, in order, compacted |
| `Draft.DistinctGroupsAreStated` | src/answers/published.ts:192-205 | Exactly the groups whose key no earlier one has are stated, in order |
| `Published.ReadDirectAnswerIndex` | src/answers/published.ts:161-174 | The first statement that is a paragraph of the answer section, none exactly if there is none |
| `Published.AppendSection` | src/answers/published.ts:117-147 | The statements of one section in order; their citations are always available |
| `Published.CompileAnswerDraft` | src/answers/published.ts:71-159 | The decoded document of the draft, or an error exactly in the cases of mismatched or unknown references, no direct answer, or an invalid document |
| `PublishedProof.PublishedExactlyWhen` | src/answers/published.ts:71-159 | With distinct known references the compiled document passes the validator exactly if the direct answer has content and every other statement has content and evidence |
| `PublishedProof.CompilesExactlyWhen` | src/answers/published.ts:71-159 | What makes compiling fail, and nothing else does |
| `PublishedProof.AnsweredExactlyWhen` | src/answers/published.ts:107-159 | What is compiled from publishable statements has citations, and statements, exactly if there is more than the direct answer |
| `PublishedProof.CompilesToAnsweredExactlyWhen` | src/answers/published.ts:71-159 | A returned document is an answered one exactly if the draft has more than one statement or a conflict group |
| `PublishedProof.SoleStatementCompilesUncited` | src/answers/published.ts:71-159 | An answered draft of the one statement "Yes." compiles to that content without citations and statements |
| `PublishedProof.CitationsAreTheReferenced` | src/answers/published.ts:107-115 | Citations are exactly the referenced elements, numbered 1..n in retrieval order |
| `PublishedProof.StatementsAreFaithful` | src/answers/published.ts:116-152 | Every published statement says what was drafted and cites exactly the elements its references meant; none is lost or added |
| `PublishedProof.DefaultReferencesAreGood` | src/answers/published.ts:79-82 | References made for a request are as many as its elements and distinct |
| `Stream.CreateAnswerContentUpdate` | src/answers/stream.ts:179-230 | The loop gives the changes between two snapshots |
| `Stream.ChangesAreSaid` | src/answers/stream.ts:179-230 | An update names, in order and once each, exactly the statements that changed: by their citations alone where the text stays, by the rest of the text where it goes on, else whole |
| `Stream.ApplyAnswerContentUpdate` | web/assets/scripts/answer-content.js:200-244 | The receiver: slots with holes, and its three errors |
| `Stream.AppliedExactlyWhen` | web/assets/scripts/answer-content.js:200-235 | An update is rejected exactly if it goes on from a statement that is not there or leaves a hole before one that it names |
| `Stream.ReadAnswerContentUpdate` | web/assets/scripts/answer-content.js:99-198 | The checks on a received update: distinct keyed previews, indexes below the count and unrepeated, citation keys known and unrepeated, text where there must be some |
| `Stream.UpdateRebuilds` | src/answers/stream.ts:179-230 | Applying the update between any two snapshots to the first gives the second |
| `Stream.SilentMeansEqual` | src/answers/stream.ts:160-166 | An update is suppressed exactly if the snapshots are equal |
| `Stream.AnswerContentWriter.Receive` | src/answers/stream.ts:155-176 | One step of the writer |
| `Stream.ReceiverHoldsLast` | src/answers/stream.ts:150-177 | For every sequence of snapshots a receiver that starts empty holds exactly the last one with content |
| `Stream.FirstContentOnce` | src/answers/stream.ts:167-169 | The first-content callback runs once if any snapshot has content, else never |
| `Stream.WellFormedIsAccepted` | web/assets/scripts/answer-content.js:99-198 | The receiver never rejects an update towards a well-formed snapshot, whatever came before |
| `ContextBudget.PlanAnswerRequest` | src/answers/context-budget.ts:51-152 | Errors in exactly their cases; otherwise decisions, selection, expansion and bound are those of the two passes |
| `ContextBudget.PlanMeans` | src/answers/context-budget.ts:62-151 | A planned request takes each source in order of rank that fits beside those taken before it, widens the taken ones in the same order while that fits, costs what its parts cost, and leaves the margin and the smallest answer free |
| `ContextBudget.PlanFailsExactlyWhen` | src/answers/context-budget.ts:58-113 | Each of the four errors, in exactly its own case |
| `ContextBudget.TokensAddUp` | src/answers/context-budget.ts:154-170 | Content costs what its parts cost together |
| `ContextBudget.PlanIsMaximal` | src/answers/context-budget.ts:80-142 | The bound is the cost of exactly what is sent, leaves the margin and the smallest answer, and neither an entry passed over nor a wider form not taken would still fit |
| `ContextBudget.NothingPicked` | src/answers/context-budget.ts:106-113 | Nothing is selected exactly if no entry fits alone |
| `HhemScoring.GroupByContent` | src/answers/claim-verification.ts:467-484 | One group for each pair of claim and evidence, in order of first occurrence, with the ids that share it |
| `HhemScoring.ScoreUniqueHhemItems` | src/answers/claim-verification.ts:457-515 | Each pair is sent once, and every item gets the result that scoring it directly gives |
| `ClaimVerification.PrepareClaimVerifications` | src/answers/claim-verification.ts:310-387 | Errors exactly for repeated claim indexes and unavailable citations; otherwise one entry a citation in order |
| `ClaimVerification.SourceIsLast` | src/answers/claim-verification.ts:314-338 | A citation stands for the source listed last under its number, and is available exactly if there is one |
| `ClaimVerification.ItemIdIsInjective` | src/answers/claim-verification.ts:642-644 | Ids tell claims and citations apart |
| `ClaimVerification.BuildClaimVerificationResults` | src/answers/claim-verification.ts:517-610 | One check a claim in order of first occurrence, with its units in order and its status; an error exactly for an omitted score |
| `ClaimVerification.CheckMeans` | src/answers/claim-verification.ts:517-600 | The direct check of a claim is what is asked of it: each unit's outcome in terms of the source, the limits and the model's probability, the status in terms of the outcomes |
| `ClaimVerification.EvidenceUnitMeans` | src/answers/claim-verification.ts:399-410 | What is sent as evidence is the number, the section if there is one, and the text, on lines of their own |
| `ClaimVerification.VerifyAnswerClaims` | src/answers/claim-verification.ts:243-289 | The whole path gives one check a claim, in order, which is what checking every citation by itself gives, and which is as IsCheckOf asks: one unit a citation, judged on the evidence of the source last listed under its number, an image never judged, supported exactly from the threshold on, and the status told by which outcomes there are |
| `PromotionGate.PercentileIsNearestRank` | scripts/docling-benchmark/promotion-gate.ts:275-285 | The percentile is the value with at least ceil(p n) values at most it and fewer below it, and no other value is |
| `PromotionGate.PercentileImproves` | scripts/docling-benchmark/promotion-gate.ts:250-295 | Improving every repetition by a ratio improves every percentile by it |
| `PromotionGate.MedianCheckIsImplied` | scripts/docling-benchmark/promotion-gate.ts:73-94 | The median check never decides: it passes whenever every repetition passes |
| `PromotionGate.ReadFullCorpusWallTimes` | scripts/docling-benchmark/promotion-gate.ts:218-248 | The total of each repetition in order, exactly if every result is a timed success and every repetition, and no other, has one result a document |
| `PromotionGate.TimeIsConserved` | scripts/docling-benchmark/promotion-gate.ts:224-246 | The repetitions account for all measured time, once |
| `PromotionGate.EvaluateDoclingPromotion` | scripts/docling-benchmark/promotion-gate.ts:15-139 | Eligible exactly if all conditions hold, which is exactly if there is no reason against it; each reason is given exactly in its own case |
| `PromotionGate.EligibleExactlyWhen` | scripts/docling-benchmark/promotion-gate.ts:15-139 | The decision in plain arithmetic: both measured in full with good output, every repetition faster by the threshold, and neither nearest-rank 95th percentile above the baseline's by more than its limit |
| `PromotionGate.SelectedAre` | scripts/docling-benchmark/promotion-gate.ts:169-180 | The results of a candidate, all and in order |
| `PromotionGate.MeasurementsAre` | scripts/docling-benchmark/promotion-gate.ts:204-216 | The measurements are those of the successful results that have them, in order |
| `PromotionGate.EligibleCoversAll` | scripts/docling-benchmark/promotion-gate.ts:36-41 | With one result a document and repetition, an eligible candidate was measured on every document in every repetition |
| `PromotionGate.BaselineDocumentsNeverMatter` | scripts/docling-benchmark/promotion-gate.ts:18-41 | Whatever documents the baseline's results name, the gate decides the same |
| `PromotionGate.SameDocumentsExactlyWhen` | scripts/docling-benchmark/promotion-gate.ts:36-41 | With one result a document and repetition, an eligible candidate was measured on the documents of its baseline in a repetition exactly if each of the baseline's is one of the candidate's |
| `PromotionGate.CommonCorpusIsCovered` | scripts/docling-benchmark/runner.ts:367-377 | With results over one corpus of as many documents as expected, both were measured on all of it, and nothing else, in every repetition |
| `PromotionGate.EligibleOnOtherDocuments` | scripts/docling-benchmark/promotion-gate.ts:18-41 | A candidate measured on one document is promoted over a baseline measured on another |
| `Migration.Stage` | scripts/plan-evaluation-migration.ts:282-299 | Stages every new version, exactly if no dataset has changed and no operation fails; otherwise stops right there with only staged files added |
| `Migration.ReplaceAll` | scripts/plan-evaluation-migration.ts:300-303 | Renames staged files over their datasets until one fails; if none does no staged file is left |
| `Migration.RestoreReplacedDatasets` | scripts/plan-evaluation-migration.ts:318-337 | Puts originals back last replaced first, all of them if no operation fails |
| `Migration.WriteMigrationPlansWithRollback` | scripts/plan-evaluation-migration.ts:276-316 | For every schedule of faults: it migrates exactly if no dataset has changed and no staging or replacing operation fails, and then the files are the originals with every dataset migrated, whatever fails later; otherwise, if nothing fails after the first failure, the files are exactly the originals; at every moment each dataset is whole, old or new |

## Left out

- Markdown parsing and regular expressions, but for the marker pattern (`CitationPlaces.ScanMarkers`): block trees, source ranges and the matches of the patterns for ranges and unclosed markers come in as given, nested as the parser nests them, with no block boundary inside a citation and no blank block; `parseRepairableCitationNumbers` (`src/answers/markup.ts:806-861`) and the tests for legal citations are free functions.
- Which periods end no sentence (`src/answers/claims.ts:394-484`): a free predicate, so the results hold for any abbreviation table.
- Structural lead-ins, pseudo-headings and list labels in `src/answers/claims.ts`: which blocks bear claims comes in as given.
- `RuntimeStreamBridge` beyond releasing its lease, which is covered by a lease that may be released any number of times; the scheduling of web streams.
- The start of the runtime manager before a first runtime exists (`src/app/runtime.ts:208-218`).
- Postgres: each queue method is one atomic step, as its caller's transaction makes it; rows locked by others are a parameter of the claim; clocks are free values.
- Failures of the queue operations themselves inside the worker; a completion whose transaction failed and was rolled back is modelled.
- Hashes are injective, random identifiers are distinct, the key of a conflict group is a free function, and element keys are triples instead of strings joined by NUL.
- What citations copy from a retrieved element besides its identity (excerpts, pages, regions, file names).
- PublishedModel.DecodePublishedAnswerDocument: of the schema's checks of single fields it has those of blank content, empty lists and citation numbers; the formats of identifiers, evidence, pages and regions are not modelled.
- Floating point: ratios and thresholds are real numbers, scores of the model are reals between 0 and 1.
- Token counting, prediction and the size limits of one scoring request are free functions; the lock around the model and the HTTP server are not modelled.
- Migration.WriteMigrationPlansWithRollback: assumes a single writer, a rename that fails without effect, and fresh names for temporary files.
- Telemetry, logging, rationale texts of verification results, and the fallback when the verifier is unavailable.
- Stream.ReadAnswerContentUpdate: the JSON types of the fields are taken as given.
- The HTML that the browser renders from streamed statements.
