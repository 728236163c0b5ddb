# Verification of the review harness's enforcement core

The harness lets a language model review an artifact, but decides itself what the review may
publish, at what severity, and when a recurring defect stops the process. This project models
that deciding part in Dafny and proves what it guarantees, whatever the model answers.

The model of the language model is an adversary: the n-th backend call of a review meets the
n-th entry of an arbitrary `nat -> Reply` tape, each entry a stream of SDK messages (tool uses,
tool results, typed payloads, junk) or a transport failure. Every statement about a review is a
statement for all tapes, all artifacts, all valid oracles and all earlier states.

## The pieces

| file | what it models |
|---|---|
| `Pipeline.dfy` | one review: classify with re-probe, row sweep, gates, judgement, the bounded synthesize / verify / repair loop, refusal, escalation, save, audit bundle; class `SweepState` is the mutable working set |
| `Replay.dfy` | the reference for one review: what it comes to, as a pure function of the tape |
| `Guarantees.dfy` | the main theorems: consequences of a published or refused review that span adapter, pipeline, verifier, severity policy, store and escalator |
| `Provenance.dfy`, `Publications.dfy` | what a review publishes, field by field, in terms of the answers it was given |
| `ManyReviews.dfy` | any sequence of reviews on one store: what the files remember, when a review is stopped |
| `Witness.dfy` | a concrete review that publishes and citations in running prose, so that the theorems are about something |
| `CallBudget.dfy` | a model that makes a review use every call of its budget |
| `Assembly.dfy` | mode resolution, deterministic candidates, how sweep results become findings and log entries |
| `Transcript.dfy`, `Sweeps.dfy` | the adapter's pairing of tool uses with tool results; the typed answers and when they are accepted |
| `Verification.dfy`, `Repair.dfy` | completeness and tool-honesty checks; which rows a defect list sends back |
| `Canonical.dfy` | arXiv ids and DOIs: the four patterns as functions on strings, and `canonicalize` |
| `CanonicalForms.dfy` | the same without matching: ids, DOIs and citations by positions, and what a text is read as |
| `Severity.dfy`, `Oracle.dfy`, `Rebaseline.dfy` | three caps and the blocker rule; oracle tables; re-baselining runs that feed the staleness cap |
| `History.dfy` | the index of open Majors and the cycle escalator, over whole histories |
| `FrontMatter.dfy`, `StoreProtocol.dfy` | the state file's text and the store; the lock / temporary file / rename protocol under any interleaving with crashes |
| `LostUpdates.dfy` | reviews of one artifact at the same time: whose records survive |
| `Consistency.dfy` | fence pairing, the definition map, contradiction candidates |
| `Findings.dfy`, `Squash.dfy`, `Text.dfy`, `Selection.dfy`, `Wrappers.dfy` | severities, slugs and finding keys; quote comparison; string theory used everywhere; what a filter keeps |

Code that works by changing things is a method or a class here (`SweepState`, `FileStateStore`,
the loops of the verifier, adapter, escalator, consistency sweep and re-baseliner), each proved
against a specification function. A whole review is proved equal to `Replay.Reviewed`, error
exits and number of calls included, so a step skipped or a branch taken wrongly breaks a proof
even where no law below would notice. The laws are then lemmas about those functions. Beside each
main one stands a reference definition that does not follow the program's steps, and a lemma that
the two agree: tool targets by the five field names (`IsTarget`), transcripts by positions
(`Answered`), ids, DOIs and citations by positions (`IsPaperId`, `IsDoiText`, `CitesPaper`,
`IsReading`), quotes by words (`SameReading`), findings and log by places in the answers
(`AreFindingsOf`, `IsLogOf`), severities as the largest allowed (`Allowed`), escalation by the
open Majors of a history (`MarksOf`) and by runs (`MajorRuns`), lines, fences and right-hand sides
by positions (`AreLines`, `Hidden`, `SameSide`), mentions by tokens (`Tokens`), filters by the
positions they keep (`IsSelection`).

## Where the code does not do what it seems to promise

The model follows the code in each of these. Where a stated law fails because of it, the inputs
on which it fails and the condition under which it holds are both proved.

- `canonicalize` is not idempotent on a DOI whose suffix is only `.,;:` (`10.1234/.` becomes
  `doi:10.1234/`, which is no identifier: `IdempotenceFails`). `CanonicalizeIdempotentIff` gives
  the condition.
- For the same reason tool honesty can match an entry with a fetch of something that cannot be
  told to be the same work. `TargetIsUnambiguousIff` says for exactly which fetched targets.
- The arXiv patterns are tried first, so a text that cites a DOI is read as a paper that it also
  cites (`OtherPaperWins`). `DoiSpellingsCollapse` says when exactly the DOI is what is read.
- The escalator counts findings, not cycles: a key repeated inside one cycle counts twice, so a
  stop can come early (`RepeatedKeysStopEarly`). `EscalationCounts` says what is counted on every
  history, `StopsByRunsIff` on which histories that is the number of cycles.
- The first tier cap that covers the supports wins, not the lowest, so adding a supporting row
  can lower a severity (`MoreEvidenceCanLower`). `MoreEvidenceNeverLowersIff` says for exactly
  which lists of caps no finding under any oracle is ever lowered so.
- The lock is held for a save, not from load to save, so of two reviews of one artifact at the
  same time the second can erase the first one's record (`SecondReviewLosesFirst`).
  `NothingIsLostIff` says for exactly which interleavings every record survives.
- A finding's id `F<n>` can be a row id of the oracle, and then a completeness defect also sends
  that row back for repair. `SelectsExactly` and `TargetsOfIncomplete` account for it.
- The row-id pattern ends in `$`, which also matches before a final newline. `Oracle.IsRowId`
  admits such ids, and the same two lemmas say what they do to repairs: with rows `D1` and
  `D1` plus newline, a defect about the second also sends the first back.
- The first sweep relabels a mislabelled row answer, the repair does not. `SweepRows` therefore
  promises matching labels and `RepairRows` only an unchanged set of keys.
- The class named by the re-probe is not checked against the declared classes; an unknown one
  ends the run with an error that no handler expects (`Unexpected`).
- The state is saved before the audit bundle is written. If the bundle fails, the call raises
  although the cycle is on record (`AuditFailed`).

## Model

| member | source | states |
|---|---|---|
| Guarantees.PublishedLogIsHonest | src/creative_agent/harness/pipeline.py:446-472 | In every published review, each `fetched=True` log entry is backed by a call whose transcript holds a fetch-class tool use and, later and with no other use of that id between, a non-error result with the id; the target, which of a mapping is the first filled of `url`, `file_path`, `path`, `pattern` and `query` and else the whole input, shares an identifier with the entry |
| Guarantees.HonestEntryNamesTheFetchedWork | src/creative_agent/harness/verification.py:75-99 | That target is the entry's URL, or names the same work as its URL or canonical id, unless the target is a DOI that strips to nothing or the remains of one |
| Guarantees.PublishedLogIsComplete | src/creative_agent/harness/verification.py:55-73 | Every row cited by a model-made finding of a published review has an entry in the published log |
| Guarantees.PublishedSeveritiesAreCapped | src/creative_agent/harness/severity.py:86-128 | No published finding exceeds its original severity or, in advisory mode, the advisory cap; a reason is published iff the severity dropped; every published Blocker has a basis among its supports |
| Publications.PublicationIsTheAnswers | src/creative_agent/harness/pipeline.py:224-292 | Every candidate of the harness and of the accepted row, source-quality and judgement answers has exactly one published finding, in the order of their places: numbered, with the candidate's severity as original severity, its laundered texts, its gate references, its supports without unknown rows, its known rows or else the row it was given for, and the slug of its anchor; every log entry of those answers is published once, in order; the row answers and the headline are the accepted ones; nothing else is published |
| Publications.PublishedSeverityIsLargestAllowed | src/creative_agent/harness/severity.py:32-125 | Every published severity is the largest that the candidate's severity, the advisory cap, the staleness rule, the first tier cap met and the blocker rule allow, each of them stated by the rows that the supports name |
| Publications.PublishedAnswersAreSound | src/creative_agent/models/verification.py:33-42 | Every published log entry has an assertion, a fetch and a source if it is verified, and a guessing confidence if its status is guessing; every published row that does not apply says why |
| Publications.ParsesIff | src/creative_agent/models/sweeps.py:17-116 | Each kind of call accepts exactly the payloads of its own kind with a class name, a row id and a reason where a row does not apply, a headline, and summaries, anchors and log entries that are sound |
| Publications.PublishedProseIsClean | src/creative_agent/harness/pipeline.py:294-301 | The attribution sweep found nothing in the published summaries and in the headline, strengths and risks of the last accepted synthesis |
| Publications.OwnCandidatesAre | src/creative_agent/harness/pipeline.py:397-431 | The harness's own candidates are the contradictions, source-quality, decision and label candidates, and for a class that sweeps rows those of the gates and one for each required section, in order, whose name no heading holds up to case |
| Guarantees.ConformanceIsQuoted | src/creative_agent/harness/pipeline.py:208-222 | In auto mode a conformance review is published only if an accepted classify answer of the run, for the published class, recommends conformance with evidence that is not blank and reads, up to whitespace and case, like some span of the artifact |
| Guarantees.PublishedModeIsCertainUnless | src/creative_agent/harness/pipeline.py:208-222 | A review published in a fixed mode has that mode and is certain; one in auto mode is uncertain iff it is advisory although some marker occurs in the artifact up to case |
| Guarantees.NonInterference | src/creative_agent/harness/pipeline.py:397-406 | Two published reviews of the same inputs in the same mode carry the same consistency, source-quality, decision and label findings, ids and severities and reasons included, whatever two models answered in however many repairs |
| Guarantees.MissingSectionsStand | src/creative_agent/harness/gates.py:134-145 | The findings of a published review are, in this order and by position, those of the deterministic base, of the gates over the accepted claims, of the required sections that the headings lack, and then findings marked as the model's only; so no answer adds, removes or re-grades a missing-section finding |
| Guarantees.UnrepairableMeansComplete | src/creative_agent/harness/pipeline.py:490-509 | A review refused for want of a repairable call has a working set of accepted answers whose own defects, at least one, mention no swept row; unless its class sweeps no rows, the log of that working set is complete |
| Guarantees.PublishingExtendsTheRuns | src/creative_agent/harness/pipeline.py:584-601 | Publishing appends exactly one record to an unchanged history, and the cycle number stays the length of the history |
| Guarantees.StopsExactlyOnRecurrence | src/creative_agent/harness/pipeline.py:535-556 | After any earlier reviews from scratch with distinct keys in each, the new review is a charter-review stop iff some key is at Major or above for at least the escalation-cycle-th time |
| Guarantees.AdvisoryReviewsNeverCount | src/creative_agent/harness/severity.py:91-99 | An advisory review under a cap below Major adds nothing to any key's count and never stops |
| ManyReviews.StoreRemembersSavedReviews | src/creative_agent/harness/pipeline.py:316-602 | After any reviews of any artifacts on a store that starts empty, failed ones included, loading an artifact gives exactly the state its saved reviews add up to: their number as the cycle, and one record for each, in order, with that review's cycle, time, mode, class, text hash and findings; provided the saved states dump faithfully |
| ManyReviews.StopsOverTheTrace | src/creative_agent/harness/pipeline.py:535-556 | In such a sequence no state is ever found corrupt, the n-th saved review of an artifact is its cycle n, and it stops iff enough cycles have passed and one of its Major keys has enough Major findings in the saved reviews before it; without repeated keys, iff some key is Major for at least the threshold-th time |
| ManyReviews.SavedReviewExtends | src/creative_agent/harness/pipeline.py:598-601 | What a review saves extends the history it loaded by exactly one record |
| Pipeline.RunReview | src/creative_agent/harness/pipeline.py:315-636 | One review ends as the reference function of tape and stored state says, after as many backend calls, at most (M+1)(R(M+1)+M+7); a failed one leaves every stored file unchanged; a saved one stores exactly the new state of a publication on which the verifier found no defect, and reading it back gives that state if YAML dumps and parses it faithfully; a refusal rests on defects of the findings and log assembled from this run's accepted answers |
| Pipeline.Call | src/creative_agent/harness/pipeline.py:124-176 | The outcome is the first schema-valid answer among at most M+1 calls; evidence of rejected attempts is kept; one log line for each call that returned a payload, whether the typed call then succeeds or fails |
| Replay.AskAccepts | src/creative_agent/harness/pipeline.py:138-176 | A typed call consumes at most M+1 replies and returns only an answer that one of these replies held and its schema accepts |
| Replay.ReviewedEnds | src/creative_agent/harness/pipeline.py:315-582 | A review proper ends with an error of the model's side or a refusal, never with an error of the store |
| Pipeline.ClassifyArtifact | src/creative_agent/harness/pipeline.py:357-390 | Exactly the reference's calls and exits: unknown class asked again once, re-probe only in auto mode when markers appear without a quote; the mode is resolved from the last accepted answer |
| Pipeline.SweepRows | src/creative_agent/harness/pipeline.py:408-424 | Exactly the oracle's rows are swept, one call each in order; every row holds its own call's answer under its own id; the first failing call ends the sweep with its error |
| Pipeline.SweepModel | src/creative_agent/harness/pipeline.py:408-439 | Rows, claims and judgement are the answers to the calls in that order, or the first error among them; at most R+2 typed calls |
| Pipeline.CollectTags | src/creative_agent/harness/pipeline.py:260-277 | Candidates are collected in the specified order: deterministic, rows by id, source quality, baselines, falsifiability |
| Pipeline.AssembleFindings | src/creative_agent/harness/pipeline.py:254-282 | Succeeds iff every laundered summary is non-empty, and then returns the numbered, capped findings of the working set |
| Pipeline.CollectEntries | src/creative_agent/harness/pipeline.py:284-292 | The log is every entry of every row, source-quality and judgement result, in that order |
| Pipeline.RepairRows | src/creative_agent/harness/pipeline.py:519-533 | Each target holds the answer to its own new call, every other row is untouched, and the set of rows does not change |
| Pipeline.Attempt | src/creative_agent/harness/pipeline.py:449-470 | The defect list is the verifier's answer on the findings, log, evidence and prose of the same working set |
| Pipeline.VerifyAndRepair | src/creative_agent/harness/pipeline.py:446-533 | Ends exactly as the recursive reference does: with clean findings of the final working set, with a justified refusal, or with an error; within M(R+1)+1 typed calls and over the same set of rows |
| Pipeline.CompletenessIsRepairable | src/creative_agent/harness/pipeline.py:488-509 | If no swept row is mentioned by a defect, no completeness defect is left in a class that sweeps all rows |
| Pipeline.Prepare | src/creative_agent/harness/pipeline.py:357-444 | Everything before the loop: resolved mode, declared class, all rows swept or none according to the class, deterministic candidates a function of artifact, class and claims; within R+6 typed calls |
| Pipeline.Conclude | src/creative_agent/harness/pipeline.py:446-600 | From a prepared working set to a publication that meets every clause of `PublishedFrom`, or to a refusal with grounds |
| Pipeline.RefusalIsJustified | src/creative_agent/harness/pipeline.py:494-509 | The unrepairable exit is taken with defects present, none of them mentioning a swept row, and with a complete log when every row was swept |
| Witness.PublicationsExist | src/creative_agent/harness/pipeline.py:315-636 | Some review of a fresh artifact ends, after three backend calls, in a publication that holds a model-made finding about a doctrine row and a log entry that claims a fetch |
| Pipeline.WithinLimit | src/creative_agent/harness/pipeline.py:135-138 | The typed calls of a whole review, each retried at most M times, stay within (M+1)(R(M+1)+M+7) backend calls |
| Pipeline.LimitFormula | src/creative_agent/harness/pipeline.py:135-138 | The limit is (M+1)(R(M+1)+M+7) for M regeneration attempts and R rows, and nothing for a negative M |
| CallBudget.CallLimitIsAttained | src/creative_agent/harness/pipeline.py:135-138 | The limit of `WithinLimit` is met exactly: for every valid oracle, M, collaborators and class that sweeps rows, as long as laundering empties neither the deterministic summaries nor a plain one and the artifact of an automatic review names a marker, some model makes the review use (M+1)(R(M+1)+M+7) calls and end refused with its attempts used up |
| Assembly.AutoConformanceIff | src/creative_agent/harness/pipeline.py:208-222 | Auto mode resolves to conformance iff the model recommends it and gives evidence that is not blank and reads, up to whitespace and case, like some span of the artifact |
| Assembly.ModeIsCertainUnless | src/creative_agent/harness/pipeline.py:208-222 | A fixed mode stands and is certain; an automatic one is uncertain iff it is advisory and some marker occurs in the artifact up to case |
| Provenance.AssembledFromPlaces | src/creative_agent/harness/pipeline.py:254-282 | For every working set the assembled findings are, one for each and in order, the candidates at the places of the answers that hold one |
| Provenance.FindingIs | src/creative_agent/harness/pipeline.py:224-252 | A finding agrees with its candidate in every field that capping leaves alone, the references and supports being exactly those to known rows, in their order |
| Provenance.FindingIsDetermined | src/creative_agent/harness/pipeline.py:224-252 | A candidate, its place and its number determine its finding but for the severity and reasons that capping decides |
| Provenance.LogIsOfPlaces | src/creative_agent/harness/pipeline.py:284-292 | The log is, one line for each and in order, the entries at the places of the answers that hold one |
| Assembly.AssembledKeysAreValid | src/creative_agent/harness/pipeline.py:231-252 | Every assembled finding has a key the key model accepts unchanged, and cites only rows of the oracle |
| Assembly.AssembledWellKeyed | src/creative_agent/harness/pipeline.py:254-282 | The same for all findings of any working set over the oracle's rows, after capping |
| Assembly.DroppedSupportsCarryNothing | src/creative_agent/harness/pipeline.py:235-237 | Dropping supports that name unknown rows leaves the evidence that capping looks at unchanged |
| Assembly.DeterministicFindingsAreFixed | src/creative_agent/harness/pipeline.py:260-282 | The leading findings depend only on the leading deterministic candidates and the mode, not on the model's contributions |
| Transcript.RunAdapter | src/creative_agent/harness/llm/claude_sdk.py:149-198 | A call returns the payload of its last result message with the evidence of its whole transcript, or a typed output error |
| Transcript.TargetIs | src/creative_agent/harness/llm/claude_sdk.py:96-102 | The recorded target of a mapping is its first filled field of `url`, `file_path`, `path`, `pattern` and `query`, and the whole input iff none is filled |
| Transcript.AnswerIsLast | src/creative_agent/harness/llm/claude_sdk.py:187-216 | A call answers with a payload iff that is the structured output, or else the decoded text, of the last message with a result, and the retries did not run out there |
| Transcript.ScanBlocks | src/creative_agent/harness/llm/claude_sdk.py:163-179 | Scanning one message's blocks extends the pending uses and the evidence of everything scanned before |
| Transcript.EvidenceIsAnswered | src/creative_agent/harness/llm/claude_sdk.py:165-179 | A piece of evidence is recorded iff some result block answers the last earlier use of its id with that name, the target of that use's input, and the result's success |
| Verification.CheckCompleteness | src/creative_agent/harness/verification.py:55-73 | The defect list of the specification, in order |
| Verification.DefectsAreUnlogged | src/creative_agent/harness/verification.py:63-73 | A line is reported iff it is the line for a row cited by a model-made finding and absent from the log |
| Verification.CompleteIff | src/creative_agent/harness/verification.py:55-73 | No line is reported iff every row cited by a model-made finding has an entry |
| Verification.EvidenceIdentifiers | src/creative_agent/harness/verification.py:45-53 | Exactly the targets of successful fetch-class results and their canonical identifiers |
| Verification.CheckToolHonesty | src/creative_agent/harness/verification.py:75-99 | One numbered defect for each entry that claims a fetch and matches no counted result, in order |
| Verification.HonestIff | src/creative_agent/harness/verification.py:75-99 | No defect iff every entry that claims a fetch matches a successful fetch-class result |
| Verification.HonestyLinesAre | src/creative_agent/harness/verification.py:75-99 | There is one line for each entry that claims a fetch without backing, in their order, with the entry's number |
| Verification.TargetIsUnambiguousIff | src/creative_agent/harness/verification.py:84-93 | A fetched target matches, among the entries their model accepts, exactly those for the same work iff it is neither a DOI that strips to nothing nor what stripping leaves of one |
| Verification.StrippedDoiMatchesItsRemains | src/creative_agent/harness/verification.py:84-93 | Fetching the text `doi:10.1234/` backs some entry that its model accepts and that is not for the same work |
| Verification.Check | src/creative_agent/harness/verification.py:117-128 | Completeness, honesty and attribution defects, in that order and nothing else |
| Repair.MentionsIffToken | src/creative_agent/harness/pipeline.py:654-656 | A row is mentioned by a defect iff its id is one of the defect's maximal alphanumeric runs |
| Repair.SelectsOwnRow | src/creative_agent/harness/verification.py:69-72 | A completeness defect always mentions the row it is about |
| Repair.SelectsExactly | src/creative_agent/harness/pipeline.py:490-493 | It mentions, of all row ids the schema admits, that row, the finding's own id, and the row's id without a final newline, and no other |
| Repair.TargetsOfIncomplete | src/creative_agent/harness/pipeline.py:490-493 | The rows sent back for completeness defects are exactly the swept ones that are unlogged, share the id of a finding with an unlogged row, or are called like an unlogged row but for a final newline |
| Repair.NothingToRepair | src/creative_agent/harness/pipeline.py:493-494 | The target list is empty iff no swept row is mentioned, and then no completeness defect about a swept row is among the defects |
| Repair.FindingIdIsWord | src/creative_agent/harness/pipeline.py:240 | Every finding id is a single alphanumeric token |
| SeverityPolicy.Cap | src/creative_agent/harness/severity.py:86-125 | The stepwise lowering equals the closed form: the minimum of original severity and applicable caps, then the blocker rule, with exactly the reasons that lowered it |
| SeverityPolicy.SeverityIsLargestAllowed | src/creative_agent/harness/severity.py:32-125 | The capped severity is the largest allowed by the original severity, the advisory cap, the unverified-row cap if rows back the finding and all of them are unverified beyond the budget, the first tier cap whose tiers hold all the rows if nothing else backs it, and the blocker rule |
| SeverityPolicy.StalenessCap | src/creative_agent/harness/severity.py:66-84 | The cap applies iff some support resolves to a known row and every such row is stale |
| SeverityPolicy.CapAccountsForEveryDrop | src/creative_agent/harness/severity.py:86-125 | Severity never rises; a reason is given iff it dropped; at most three; the blocker reason only alone; a Blocker has a basis |
| SeverityPolicy.CapMonotone | src/creative_agent/harness/severity.py:86-125 | With the same supports, a graver original is never capped to something lighter |
| SeverityPolicy.CapAgain | src/creative_agent/harness/severity.py:86-88 | Capping a capped finding in another mode gives what capping the original in that mode gives |
| SeverityPolicy.BlockerSurvivesIff | src/creative_agent/harness/severity.py:32-44 | A Blocker is left iff it was one, no applicable cap is below Blocker, and some support may carry one |
| SeverityPolicy.WeakRowsNeverBlockAlone | src/creative_agent/harness/severity.py:32-44 | Doctrine rows outside the blocker tiers never carry a Blocker alone, however many are cited |
| SeverityPolicy.OnlyEvidenceMatters | src/creative_agent/harness/severity.py:29-84 | Severity and reasons depend only on the set of evidence: order, repetition and unknown row references change nothing |
| SeverityPolicy.WideningNeverLowersIff | src/creative_agent/harness/severity.py:59-63 | Wider sets of tiers never meet a lower cap iff the list of caps never steps down between two caps that can follow each other as first matches |
| SeverityPolicy.MoreEvidenceNeverLowers | src/creative_agent/harness/severity.py:46-84 | Under such a list, further supports never lower a finding that already resolves a known row |
| SeverityPolicy.MoreEvidenceNeverLowersIff | src/creative_agent/harness/severity.py:46-84 | Under every valid oracle with these tier caps no support added to a finding that resolves a known row lowers it, iff the list of caps never steps down between two caps that can follow each other as first matches |
| SeverityPolicy.MoreEvidenceCanLower | src/creative_agent/harness/severity.py:59-63 | Under a valid oracle with another list a second supporting row lowers a finding from Major to Minor |
| Oracle.FindRowAt | src/creative_agent/models/oracle.py:375-379 | With distinct ids every row of the table is found under its id, whatever the order |
| Oracle.RowIdIff | src/creative_agent/models/oracle.py:26 | Row ids are a capital letter, one or more digits, perhaps a small letter, and perhaps a final newline |
| Oracle.PlaceholderNeverCollides | src/creative_agent/models/oracle.py:358-362 | In a valid table a key under the placeholder never renders like a key under a row |
| Rebaseline.RebaselineRow | src/creative_agent/harness/citations.py:113-146 | One row's sources and report lines, in source order |
| Rebaseline.RunRebaseline | src/creative_agent/harness/citations.py:108-163 | The updated table and the whole report, as specified for every outcome of every source |
| Rebaseline.RunsKeepDoctrine | src/creative_agent/harness/citations.py:146-163 | Any number of runs keeps rows, tiers, gaps, source order, policy and budget, adds one per run to the count, and keeps unverified sources undated |
| Rebaseline.LatestOutcomeDecides | src/creative_agent/harness/citations.py:116-141 | After any runs a source is verified and dated by its latest resolved or mismatching outcome, and untouched if there was none |
| Rebaseline.StaleAfterRunsIff | src/creative_agent/models/oracle.py:108-114 | After any runs a row is stale iff it is no disclosed gap, every source ends unverified by its latest conclusive outcome or else its start, and the runs have used up the budget |
| Rebaseline.MoreStaleNeverRaises | src/creative_agent/harness/severity.py:66-84 | A table in which at least the same rows are stale caps no finding higher |
| Rebaseline.NothingResolvedNeverRaises | src/creative_agent/harness/citations.py:108-163 | A run that resolves no source raises no finding's capped severity |
| Rebaseline.VerifyingNeverLowers | src/creative_agent/models/oracle.py:108-114 | At fixed freshness, verifying further sources lowers no finding's capped severity |
| Rebaseline.BudgetSpentCaps | src/creative_agent/models/oracle.py:108-114 | Once the runs use up the budget, a finding resting only on non-gap rows that stayed unverified is at most at the unverified-row cap |
| History.OpenMajorKeys | src/creative_agent/models/state.py:53-60 | The dictionary holds exactly the keys with an occurrence, each with its occurrences' cycles in order and with multiplicity |
| History.OccurrencesAreMarks | src/creative_agent/models/state.py:53-60 | On every history the occurrences of a key are, in order, the findings of all records that are open, Major or graver and have that key, each with the cycle of its record |
| History.IndexRecord | src/creative_agent/models/state.py:57-59 | One record extends the index of the history before it |
| History.CheckEscalation | src/creative_agent/harness/state.py:119-141 | The event for the first finding that recurs often enough, or none |
| History.EscalationIff | src/creative_agent/harness/state.py:119-141 | On every history, whatever its dispositions: it fires iff the cycle has reached the threshold and some finding is Major or graver whose key has, this finding included, as many open Majors as the threshold; then the event's cycle list is long enough for its own model |
| History.EventIsFirst | src/creative_agent/harness/state.py:126-141 | The event names the first such finding and lists the cycles of those open Majors in order and then the current one |
| History.OnlyOpenCounts | src/creative_agent/models/state.py:58 | Removing every addressed, disputed and waived finding from a history changes no decision |
| History.OccurrencesOfRuns | src/creative_agent/models/state.py:53-60 | After runs from scratch with distinct keys, a key's listed cycles are exactly the runs that had it at Major or above, ascending |
| History.EscalationOverRuns | src/creative_agent/harness/state.py:119-141 | After such runs, the next one stops iff some key is at Major or above for at least the threshold-th time; the cycle guard is redundant |
| History.ReportedCycles | src/creative_agent/harness/state.py:128-133 | The reported cycles are strictly increasing, at least the threshold many, end in the current one, and each carried the key at Major or above |
| History.EscalationCounts | src/creative_agent/harness/state.py:119-141 | On every history from scratch, repeated keys included, the next run stops iff some key has enough Major findings and there are enough cycles |
| History.StopsByRunsIff | src/creative_agent/models/state.py:56-59 | Stopping counts cycles, for every next run and threshold, iff no key is repeated inside one cycle while absent from another |
| History.RepeatedKeysStopEarly | src/creative_agent/models/state.py:56-59 | With valid keys throughout, a key seen in two cycles only, twice in the first, stops a review under threshold three |
| History.AdvisoryNeverContributes | src/creative_agent/harness/severity.py:91-99 | Findings capped in advisory mode below Major count for no key |
| FrontMatter.FrontMatterRoundTripIff | src/creative_agent/harness/state.py:58-59 | Reading and matching saved text returns exactly the front matter, for every summary, iff it has no carriage return and no line after its first is `---` |
| FrontMatter.MatchFrontIff | src/creative_agent/harness/state.py:30-63 | Front matter is found in a text iff it opens with a `---` line and a later one closes it; what is found is everything up to the first that does; any other text is corrupt |
| FrontMatter.ContentIs | src/creative_agent/harness/state.py:85-86 | The saved text is the front matter between its two lines and then the summary without the space at its end, or nothing more if the summary is blank |
| FrontMatter.ReadBackIs | src/creative_agent/harness/state.py:58 | Reading turns every kind of line ending into a newline and leaves the rest alone |
| FrontMatter.DecodeEncode | src/creative_agent/harness/state.py:54-86 | Loading what was saved for a state gives that state, for every summary, provided its dump parses back and holds no carriage return and no inner `---` line |
| FrontMatter.FileStateStore.Load | src/creative_agent/harness/state.py:54-81 | A fresh state when there is no file, the recorded one, or a corruption error |
| FrontMatter.FileStateStore.Save | src/creative_agent/harness/state.py:83-105 | Either the whole text is stored under the artifact's name, and loads back if its dump is faithful, or an error is raised and no state file changed; no temporary file stays, no other artifact's file is touched |
| FrontMatter.FileStateStore.Reset | src/creative_agent/harness/state.py:107-110 | Only that artifact's file is removed, and the next load starts fresh |
| StoreProtocol.RunKeepsInv | src/creative_agent/harness/state.py:43-110 | The protocol's invariant holds after every interleaving of savers, loaders, resets, write errors and crashes |
| StoreProtocol.FileIsLatest | src/creative_agent/harness/state.py:87-95 | The state file is absent or exactly the full content of the latest completed replace |
| StoreProtocol.LoadsAreWhole | src/creative_agent/harness/state.py:54-58 | A finished load returns one text that was renamed into place whole |
| StoreProtocol.OnlyHolderTouchesTmp | src/creative_agent/harness/state.py:43-52 | A step that changes the temporary file is a step of the lock holder |
| StoreProtocol.LoadsWereSubmitted | src/creative_agent/harness/state.py:83-91 | That text was handed, as one whole, to some save |
| StoreProtocol.LoadsDecodeToSavedStates | src/creative_agent/harness/state.py:54-91 | If every saver saves an encoded state, every finished load decodes to a state that some save was started with |
| StoreProtocol.SaveRecovers | src/creative_agent/harness/state.py:83-105 | From every reachable state in which the lock is free, a leftover temporary file of a crashed save included, one undisturbed save by a new process ends with its content as the state file, no temporary file, the lock free and every other process where it was |
| StoreProtocol.CrashFreesLock | src/creative_agent/harness/state.py:43-52 | Whoever holds the lock is a live saver, and its crash frees the lock and leaves the state file alone; with `SaveRecovers`, every reachable state can be recovered from |
| StoreProtocol.FailedSaveLeavesNothing | src/creative_agent/harness/state.py:92-95 | A save that meets an error before its rename, wherever it is, leaves the state file as it was, no temporary file and the lock free |
| StoreProtocol.LoadReadsTheFile | src/creative_agent/harness/state.py:54-58 | From every reachable state an undisturbed load returns the text of the state file, or nothing if there is none |
| StoreProtocol.ResetRemovesTheFile | src/creative_agent/harness/state.py:107-110 | From every reachable state an undisturbed reset removes the state file and changes nothing else |
| LostUpdates.NothingIsLostIff | src/creative_agent/harness/state.py:43-95 | Reviews of one artifact that interleave their loads and saves step by step, with write errors and crashes: the state file holds the record of every completed save, in order, iff no other save completed between a review's opening of the file and its own save |
| LostUpdates.RunIsNoted | src/creative_agent/harness/state.py:54-95 | In every such interleaving each completed save extends by one record the version that its own review opened, and that version is one completed before it |
| LostUpdates.SecondReviewLosesFirst | src/creative_agent/harness/state.py:83-95 | A run of reviews in the sense of `NothingIsLostIff` in which two load before either saves: both saves complete, and the file holds one record, not both |
| Consistency.FencedRows | src/creative_agent/harness/consistency.py:67-70 | The skipped lines are exactly those with an odd number of fences before and at least one after |
| ConsistencyForms.FenceIff | src/creative_agent/harness/consistency.py:67 | A fence is a line with three backticks behind nothing but space |
| ConsistencyForms.LinesAre | src/creative_agent/harness/consistency.py:62 | A text is its lines, none with a line boundary inside, each with its boundary, the last perhaps without |
| ConsistencyForms.LinesAreUnique | src/creative_agent/harness/consistency.py:62 | and it falls into lines in no other way |
| Consistency.PairedIffHidden | src/creative_agent/harness/consistency.py:67-70 | A line lies between an opener and its closer, fences paired in order, iff that parity condition holds |
| Consistency.StrayFenceHidesNothing | src/creative_agent/harness/consistency.py:63-70 | One fence after balanced text hides nothing after it and changes nothing before it |
| Consistency.DefineLine | src/creative_agent/harness/consistency.py:74-83 | The first pattern whose symbol is not a prose word decides what a line defines |
| ConsistencyForms.DefinitionIff | src/creative_agent/harness/consistency.py:74-83 | A line defines a symbol as the normal form of a right-hand side iff the first pattern that finds a symbol which is no prose word finds these |
| ConsistencyForms.SidesAgreeIff | src/creative_agent/harness/consistency.py:47-48 | Two right-hand sides have one normal form iff, without space around them and then without dots, semicolons and commas at their ends, they read the same up to whitespace and case and both or neither end in space |
| Consistency.ExtractDefinitions | src/creative_agent/harness/consistency.py:51-84 | The map of the specification: each defined symbol with its distinct right-hand sides in order |
| Consistency.RhsListIs | src/creative_agent/harness/consistency.py:71-83 | A right-hand side is listed iff some scanned line defines the symbol so, and never twice |
| Consistency.ManyRhsIffContradicted | src/creative_agent/harness/consistency.py:102-103 | More than one is listed iff two scanned lines define the symbol differently |
| ConsistencyForms.ContradictedIff | src/creative_agent/harness/consistency.py:71-83 | Two differing normal forms are the same as two lines, neither fence nor hidden, whose right-hand sides differ in that reading |
| ConsistencyForms.ContradictionsAre | src/creative_agent/harness/consistency.py:93-119 | The sweep reports exactly the symbols that clash so, each once, in ascending order, as a Blocker candidate resting on the contradiction |
| Consistency.CheckConsistency | src/creative_agent/harness/consistency.py:93-119 | The candidates of the specification, in the order of the symbols |
| Consistency.BlockerIffContradicted | src/creative_agent/harness/consistency.py:93-119 | A symbol draws a Blocker candidate iff two scanned lines define it with different normalized right-hand sides |
| Canonical.ArxivSpellingsCollapse | src/creative_agent/harness/canonical.py:16-45 | Every arXiv id, with any version suffix, canonicalizes to one identifier in every spelling: `arxiv.org/abs/` or `/pdf/` behind any scheme or none, `arXiv:` with any spacing, inside any text that cites no other arXiv paper before it and goes on with anything but a digit, and bare between spaces |
| CanonicalForms.PaperIdIff | src/creative_agent/harness/canonical.py:16 | The matcher's arXiv ids are exactly four digits, a dot and four or five digits, or letters and hyphens, perhaps a dot and two letters, a slash and seven digits |
| CanonicalForms.IdLenIff | src/creative_agent/harness/canonical.py:16 | The id matched at the start of a text is the longest that the text starts with |
| CanonicalForms.CitesIff | src/creative_agent/harness/canonical.py:17-21 | The arXiv pattern matches where the text has `arxiv` in any case, a dot or colon, any spaces, perhaps `org/abs/` or `org/pdf/`, and then the longest id; and nowhere else |
| CanonicalForms.DoiTextIff | src/creative_agent/harness/canonical.py:28 | The matcher's DOIs are exactly `10.`, four to nine digits, a slash, and one or more characters that are neither space nor quote nor angle bracket |
| CanonicalForms.CitesDoiIff | src/creative_agent/harness/canonical.py:29 | The DOI pattern matches where the text has `doi.org/`, or `doi` and colons or spaces, in any case, and then the longest DOI; and nowhere else |
| CanonicalForms.CanonicalizeIff | src/creative_agent/harness/canonical.py:34-49 | For every text: stripped of space, it is read as the paper it is or else first cites, else as the DOI it is or else first cites, in lower case and without the dots, commas, semicolons and colons at its end, else as nothing |
| Canonical.DoiSpellingsCollapse | src/creative_agent/harness/canonical.py:28-48 | Take any DOI, cited as `doi.org/` behind any scheme or host part or as `doi:` or `doi` and spaces, in any text with no other DOI before it, any sentence punctuation and any text it cannot run into behind it; or bare between spaces. A bare one always canonicalizes to the DOI's one identifier, its own or that of the arXiv paper it names. A cited one does iff either the text before it names no arXiv paper, and the DOI names one or does not come to name one with what follows; or the text before it names, up to case, the very paper that the DOI names |
| Canonical.PaperInText | src/creative_agent/harness/canonical.py:17-45 | In a text that cites a DOI the arXiv patterns find what they find before it, else what they find in the DOI, else what they find in the DOI and the text behind it |
| Canonical.ArxivDoiNamesItsPaper | src/creative_agent/harness/canonical.py:3-6 | The DOI `10.48550/arXiv.<id>` of every arXiv id is a DOI, and its one identifier is that of the paper |
| Witness.ArxivInProse | tests/unit/test_canonical.py:9-19 | For every arXiv id, `see arxiv.org/abs/<id> for details` and `http://arxiv.org/abs/<id>v2` canonicalize to its one identifier |
| Witness.ModernIdIsRead | tests/unit/test_canonical.py:9-19 | `arXiv:` and any modern id is read as that id with all its digits |
| Witness.FiveDigitId | tests/unit/test_canonical.py:9-19 | `arXiv:2208.11173` is read as `arxiv:2208.11173` |
| Witness.DoiInProse | tests/unit/test_canonical.py:79-82 | For every DOI, one that names a paper included, `see doi:<doi>.` canonicalizes to its one identifier |
| Witness.PaperDoiInProse | src/creative_agent/harness/canonical.py:43-45 | For every arXiv id, its DOI in `as in doi:<doi>. It cites arXiv:2208.11173` canonicalizes to the id's identifier |
| Witness.OtherPaperWins | src/creative_agent/harness/canonical.py:43-48 | For every arXiv id, `doi:10.48550/x; arXiv:<id>` canonicalizes to the id's identifier, not to the DOI's |
| Canonical.CanonicalizeIdempotentIff | src/creative_agent/harness/canonical.py:34-49 | Canonicalizing an identifier gives it back, for every text, iff the text's DOI suffix is not only stripped punctuation |
| Canonical.IdempotenceFails | src/creative_agent/harness/canonical.py:34-35 | `10.1234/.` canonicalizes to `doi:10.1234/`, and that to nothing |
| Canonical.PartHasNoArxiv | src/creative_agent/harness/canonical.py:17-21 | A text without an arXiv match has none in any lower-cased part of it |
| Canonical.NoArxivInPart | src/creative_agent/harness/canonical.py:17-21 | A text without an arXiv match has none in any part of it |
| Findings.SlugsAreFixedPoints | src/creative_agent/models/findings.py:67-71 | Normalizing yields hyphen-separated runs of [a-z0-9] or nothing, is idempotent, and its fixed points are exactly those texts |
| Findings.SlugCharIs | src/creative_agent/models/findings.py:64 | A slug keeps small letters and digits |
| Findings.SeveritiesAre | src/creative_agent/models/findings.py:20-23 | There are four severities, Info below Minor below Major below Blocker |
| Findings.SameSlugIff | src/creative_agent/models/findings.py:67-71 | Two anchors share a slug iff their lower-cased alphanumeric runs agree |
| Findings.RenderIsInjective | src/creative_agent/models/findings.py:74-89 | Two validated keys render alike only if they are equal |
| Squashing.SquashIdempotent | src/creative_agent/harness/pipeline.py:650-651 | Squashing twice is squashing once |
| Squashing.SquashEqualIffSameReading | src/creative_agent/harness/pipeline.py:650-651 | Two texts squash alike iff they have the same words up to case |
| Squashing.SquashMonotone | src/creative_agent/harness/pipeline.py:650-651 | A part of a text squashes to a part of the squashed text |
| Squashing.QuoteFoundIff | src/creative_agent/harness/pipeline.py:218-219 | A non-blank quote is found in the squashed artifact iff some span of the artifact reads the same |
| Squashing.SquashOfBlank | src/creative_agent/harness/pipeline.py:218-219 | Exactly the blank texts squash to nothing |
| Squashing.StripReadsSame | src/creative_agent/harness/pipeline.py:217-218 | Stripping a text does not change how it reads |
| Text.LeqIff | src/creative_agent/harness/pipeline.py:261 | Strings are sorted by the first place where they differ, and before what they start |
| Text.SpacesAre | src/creative_agent/harness/canonical.py:41 | Space is the tab, the four line and page moves, the four separators and the blank |
| Text.LettersAre | src/creative_agent/harness/pipeline.py:654-656 | Letters and digits are those of the two alphabets and the ten digits |
| Text.LowerIs | src/creative_agent/harness/canonical.py:35 | Lower-casing turns each capital into the letter at its place in the other alphabet and changes nothing else |
| Text.DecimalIs | src/creative_agent/harness/pipeline.py:240 | A finding's number is written as the decimal numeral of that number without leading zeros |

## Left out

- Text outside ASCII: NFKD and case folding, combining marks and Unicode digits; strings are sequences of characters folded by ASCII rules.
- `all_identifiers` of canonical.py, which the enforcement path does not use.
- The heading pattern, the two definition patterns, prose laundering, the source-quality, label, decision and measurement-gate checkers and the attribution sweep are arbitrary functions of their inputs; missing sections are modelled in full.
- YAML dumping and loading are an arbitrary pair of functions, faithful to a state when the dump parses back and has no carriage return and no inner `---` line; schema-version and validation errors are its parse failures.
- The wording of cap reasons, of the summaries of the harness's own candidates, of defects other than the completeness and honesty lines, escalation messages, prompts, report layout, logging and the contents of the audit bundle; `cap_reason` is a list of the reasons before they are joined.
- Reading the artifact, HTTP resolution of citations, SDK options and hooks, host and path allow-lists, the clock and the hash: parameters, or absent.
- `Severity.parse` of strings and integers; severities are the numbers 0 to 3.
- Two reviews of one artifact at once: `RunReview` has the store to itself between load and save. `LostUpdates` interleaves the loads and saves of reviews, without resets.
- Resets between reviews: the sequences of `ManyReviews` consist of reviews alone.
- Loss of power: `StoreProtocol` lets a process die at any step but keeps what it wrote.
- Pipeline.VerifyAndRepair: the `for` loop with `break` is a `while` loop with returns; the rounds, the calls and the exits are the same.
- Pipeline.RunReview: an oracle is assumed valid, as its loader has validated it; `max_regeneration_attempts` may be any integer, and a negative one ends the first call without a backend call, as in the source.
