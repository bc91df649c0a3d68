# Verified model of the admin backend

This project models the decisions that the Go admin backend (`backend/internal/admin`, and one adapter in `backend/internal/app`) makes around its store, and proves what those decisions guarantee. It has these parts:

- Training pairs. Nested JSON descriptions are flattened to dotted paths (`Json`, `Paths`, `Flatten`), rebuilt by a cursor that walks and creates nested maps on the heap (`Unflatten`), and the two are related in both directions (`RoundTrip`). On top are the export's reconstruction of the approved description (`TrainingExport`), the ingest of HITL corrections (`HitlIngest`) the review of trials (`TrainingTrials`), and what the reviews make of the exported gold (`ReviewedExport`). Go maps are visited in an arbitrary order; every statement holds for all of them.
- Evaluation runs. The two-statement upsert into an array under any interleaving (`EvalStore`), the rollup of results (`EvalTally`), and the worker pool with its semaphore, its lock and its progress writes as a transition system (`EvalPool`).
- Prompts. Versions and promotion with requests side by side (`PromptLifecycle`), A/B tests (`AbTests`), the formats in which versions are written and read (`VersionRefs`), the adapter that serves a body (`PromptAdapter`), the three caches as one protocol of locks, refreshes, writes and invalidations (`CacheProtocol`) and as objects (`CachedReaders`).
- Analytics. Funnels (`Funnels`), retention (`Retention`), the 30-day series (`LedgerSums`, `Overview`, `FeatureSeries`).
- Calendar. The proleptic Gregorian calendar by day number (`Calendar`), ISO weeks and their labels (`IsoWeeks`), the two cron loops (`Crons`), days as strings (`DayStrings`), numerals (`Decimal`), floor division (`Division`), counts and shares (`Counting`).
- Paging and second factor. Keyset and offset pages (`UserPages`, `Strings`), one-time codes and their single use over all interleavings of logins (`Totp`).

Where the source updates something step by step the model does so too: classes for the stored documents, the nested maps, the caches and the review store, and loops for the source's loops. Each such method is proved against a function of the old state, and the theorems are about that function. Where several goroutines or requests interleave, each statement of the store and each lock section is one step of a state machine, and the theorems are about every run.

## Where the code differs from its comments

- The comment on `unflattenDesc` says that the deeper path wins a collision. Depth plays no part: among comparable paths the one visited last wins (`Unflatten.LeafAtBuild`), and the result is independent of the order exactly when no path extends another (`RoundTrip.OrderIndependent`).
- The export's `changed` flag is meant to say that chosen and rejected differ. It does so for every order exactly when the picks are not masked, that is, unless a pick and an untouched path overwrite one another (`TrainingExport.ChangedIffGoldDiffers`, `TrainingExport.MaskedPairExists`).
- The reconstruction of a HITL record is said to yield the corrected description. A patch whose value is an object does not come back (`HitlIngest.ObjectPatchIsLost`), nor does one at a path that starts with a dot (`HitlIngest.LeadingDotPatchIsLost`, `HitlIngest.DottedPatchIsDropped`); for an original without such paths and prefix-free paths the corrected description comes back exactly when all patches are leaves and none starts with a dot (`HitlIngest.HitlReconstructs`).
- The stamp of `CandidateVersionForUser` is said to match the served body always. Body and stamp read the cached test separately. For a test that was started on a stored version they match exactly when both readings put the user in the same arm or, after a failed look-up of the row, the second one in production (`PromptAdapter.StampIsServedVersion`, `PromptAdapter.FailedLookupIsMisstamped`); with no invalidation and no expiry between the readings only the failed look-up is left (`PromptAdapter.StampWithinOneFill`).
- The digit loop of the promote route refuses no numeral for its size; it reads the number exactly when that is positive and fits an int64 (`VersionRefs.PromoteReadsTheNumber`, `VersionRefs.PromoteWraps`). `itoaShort` prints every int64 but the least one (`VersionRefs.ItoaShort`).
- The contract of `MarkTOTPStepUsed` counts an unset step as 0, the statement's filter does not match a record without the field; they agree exactly for records with the field or steps that are not positive (`Totp.StatementMeetsContract`).
- The A/B cache has one expiry for all names: a name not loaded since the last invalidation answers "no test" until then, rightly exactly when the store has been without a test for it (`CacheProtocol.CachedAnswerIsGenuineIff`); `CacheProtocol.UnloadedNameAnswersNone` is a run in which it is not right. An expired entry is served again once another name is refreshed, so the lifetime bounds the age of an answer for prompts, routing and the A/B name refreshed last (`CacheProtocol.BoundedStaleness`), and not for the other A/B names (`CacheProtocol.RevivedEntryIsOld`).
- A first reviewer who submits again after a second review keeps the recorded agreement, which then measures the earlier picks (`TrainingTrials.AgreementIsOfTheLastComparison`); it stays current exactly as long as what they hand in decides the same (`TrainingTrials.AgreementIsCurrentIff`).
- A submit after a failed look-up overwrites another reviewer's review; the first review is canonical exactly as long as that does not happen (`TrainingTrials.StaysUnlessOverwritten`, `TrainingTrials.FirstReviewIsCanonical`).
- In a funnel, each step takes the earliest event after the previous anchor. So a counted user has a chain of events through all the steps, but a chain does not suffice to be counted (`Funnels.ChainDoesNotSuffice`); a chain of earliest events does, and only that (`Funnels.CountedIffEarliestChain`).
- Duplicate tuple ids leave the later case of an eval run pending, and the first one with a result of some tuple with its id (`EvalPool.ShadowedCaseStaysPending`, `EvalPool.FirstOfEqualIds`).
- Calls dated after today count in the ranking of the features but in none of the 30 days (`FeatureSeries.RanksLedger`).

## Model

| member | source | states |
|---|---|---|
| Flatten.Flattener.Rec | backend/internal/admin/training_export.go:262-282 | The recursive walk adds to the map exactly the leaves below its prefix, whatever the order, and keeps every other entry. |
| Flatten.FlattenDesc | backend/internal/admin/training_export.go:262-282 | The outcome is a flattening of the description: each path holds one of the leaves that print as it, and every leaf's path is there. |
| Unflatten.LeafAtBuild | backend/internal/admin/training_export.go:288-307 | The exact outcome for every order and every collision: a path keeps a leaf iff its visit is the last among the visits to comparable paths. |
| Unflatten.BuildShape | backend/internal/admin/training_export.go:288-307 | Rebuilding creates no empty sub-object and no key with a dot. |
| Unflatten.Insert | backend/internal/admin/training_export.go:288-307 | One path: the cursor's walk through the nested maps, replacing scalars on the way, puts the value at the path and nothing else. |
| Unflatten.UnflattenDesc | backend/internal/admin/training_export.go:288-307 | The heap structure that is returned is a tree and represents the description that inserting the paths one by one gives. |
| RoundTrip.TreeRoundTrip | backend/internal/admin/training_export.go:262-307 | Unflatten after flatten is the identity for every order, exactly on the faithful descriptions. |
| RoundTrip.FlatRoundTrip | backend/internal/admin/training_export.go:262-307 | Flatten after unflatten is the identity exactly on the prefix-free leaf maps without a leading dot. |
| RoundTrip.OrderIndependent | backend/internal/admin/training_export.go:284-307 | The rebuilt description is the same for all visiting orders exactly when the paths are prefix-free. |
| TrainingExport.ApplyPicks | backend/internal/admin/training_export.go:220-235 | In any order the picks leave Gemma's leaves with the overriding picks on top. |
| TrainingExport.FlatDiffers | backend/internal/admin/training_export.go:312-328 | The comparison answers whether the two maps differ. |
| TrainingExport.ReconstructGold | backend/internal/admin/training_export.go:216-237 | The whole reconstruction: flatten both sides, apply the picks, rebuild, and compare the flat maps. |
| TrainingExport.GoldLeaf | backend/internal/admin/training_export.go:210-237 | Path by path: the typed text at custom picks, Claude's value at claude picks where Claude has one, Gemma's value everywhere else, nothing more. |
| TrainingExport.ChangedIffGoldDiffers | backend/internal/admin/training_export.go:216-237 | For a faithful Gemma description the changed flag says for every order whether the gold differs from it, exactly when the picks are not masked. |
| TrainingExport.PrefixFreeIsNotMasked | backend/internal/admin/training_export.go:216-237 | Picks that keep the paths prefix-free are never masked. |
| TrainingExport.ExportRow | backend/internal/admin/training_export.go:134-184 | A row is held back without a snapshot or below the agreement bar; otherwise it is the format's row for the reconstruction. |
| TrainingExport.PairsCarryASignal | backend/internal/admin/training_export.go:162-177 | Every emitted preference pair has different halves and every pair held back would have had equal ones. |
| TrainingExport.MaskedPairExists | backend/internal/admin/training_export.go:162-177 | With masked picks a pair with two equal halves can be emitted. |
| HitlIngest.ApplyPatches | backend/internal/admin/training_hitl_ingest.go:90-96 | In any order each patch overwrites its path and becomes a claude pick. |
| HitlIngest.Ingest | backend/internal/admin/training_hitl_ingest.go:86-110 | A record is written iff there is a snapshot and a patch, with the original and the rebuilt corrected description. |
| HitlIngest.HitlReconstructs | backend/internal/admin/training_hitl_ingest.go:86-110 | The export rebuilds the corrected description from the record exactly when every patched value is a leaf and no patched path starts with a dot; then every path holds its patched or original value, and the changed flag tells whether some patch moved a value. |
| HitlIngest.FaithfulOriginal | backend/internal/admin/training_export.go:262-307 | Every description that survives flattening qualifies for that theorem. |
| HitlIngest.LeadingDotPatchIsLost | backend/internal/admin/training_hitl_ingest.go:86-110 | A patch of a path that starts with a dot is in the corrected description and not in the reconstruction. |
| HitlIngest.DottedPatchIsDropped | backend/internal/admin/training_hitl_ingest.go:86-110 | A patch of the path ".x" on an empty description is recorded and reconstructed as the empty, unchanged description. |
| HitlIngest.ObjectPatchIsLost | backend/internal/admin/training_hitl_ingest.go:86-110 | A patch that is an object makes the reconstruction differ from the corrected description. |
| TrainingTrials.PickAgreement | backend/internal/admin/training_trials.go:162-186 | The loop over the union of the paths in any order computes the share of agreed paths, 1 when nobody picked anything. |
| TrainingTrials.AgreementIsSymmetric | backend/internal/admin/training_trials.go:155-186 | The measure does not depend on who reviewed first. |
| TrainingTrials.AgreementRange | backend/internal/admin/training_trials.go:155-186 | The measure is in [0, 1] and is 1 iff both picked the same paths and sides and typed the same texts at custom picks. |
| TrainingTrials.AgreementIsTheShare | backend/internal/admin/training_trials.go:162-186 | The agreement is the number of paths that both decided alike, the same side and for custom picks the same text, over the number of paths that either touched. |
| TrainingTrials.MergeSnapshot | backend/internal/admin/training_trials.go:293-312 | Only the snapshot fields that were supplied are written. |
| TrainingTrials.LastSuppliedIsHeld | backend/internal/admin/training_trials.go:291-312 | Over every run in which no other reviewer's look-up fails, each description and each text of the snapshot is what the reviewer supplied for it last, and keeps its value if they supplied none. |
| TrainingTrials.TrainingTrialsStore.SubmitReview | backend/internal/admin/training_trials.go:565-597 | A submit of a trial that is found submitted by somebody else records the agreement with the canonical review; any other one, also after a failed look-up, submits. |
| TrainingTrials.FirstReviewIsCanonical | backend/internal/admin/training_trials.go:565-597 | Over every run in which no other reviewer's look-up fails, a trial submitted by a reviewer stays submitted by them, with the review they handed in last and the snapshot they supplied. |
| TrainingTrials.StaysUnlessOverwritten | backend/internal/admin/training_trials.go:565-597 | One request moves a reviewed trial to another reviewer exactly when that reviewer submits and the look-up fails. |
| TrainingTrials.UnclaimedIsTaken | backend/internal/admin/training_trials.go:565-597 | A trial that nobody has submitted is taken by whoever submits it, with the review and the descriptions they hand in. |
| TrainingTrials.CreatorIsTheFirst | backend/internal/admin/training_trials.go:313-319 | The creator is the administrator of the request that inserted the row and never changes; a create of a known id changes nothing. |
| TrainingTrials.FiguresAlwaysFit | backend/internal/admin/training_trials.go:280-290 | Over every run the pick count of a submitted trial is the number of its picks, and two reviews are counted exactly for the trials with an agreement. |
| TrainingTrials.OthersOnlyAnnotate | backend/internal/admin/training_trials.go:332-355 | However many others review it, nothing of a submitted trial changes but the measure of agreement. |
| TrainingTrials.SnapshotsAreNeverBlanked | backend/internal/admin/training_trials.go:293-312 | Over every run no snapshot field that was filled is blank again. |
| TrainingTrials.AgreementsStayProper | backend/internal/admin/training_trials.go:565-585 | Over every run each recorded agreement is in [0, 1], and, without failed look-ups, of two different reviewers of a submitted trial. |
| TrainingTrials.AgreementIsOfTheLastComparison | backend/internal/admin/training_trials.go:565-585 | Over every run the recorded agreement is that between the review that was canonical at the last second review and that second review. |
| TrainingTrials.MeasuresTheSameIff | backend/internal/admin/training_trials.go:155-186 | Two canonical reviews measure the same against every second review exactly when they decide the same. |
| TrainingTrials.AgreementIsCurrentIff | backend/internal/admin/training_trials.go:332-355 | After a second review the recorded agreement is current, whatever was handed in, exactly as long as the first reviewer's later submits decide the same as the compared review. |
| TrainingTrials.OtherTrialsUntouched | backend/internal/admin/training_trials.go:565-597 | Requests for other trials change nothing of a trial. |
| ReviewedExport.GoldIsTheFirstReviewers | backend/internal/admin/training_trials.go:564-585 | Over every run in which no other reviewer's look-up fails, the exported gold holds at every path what the first reviewer's last review decides over the descriptions they supplied, for every visiting order. |
| ReviewedExport.OthersDoNotReachTheExport | backend/internal/admin/training_trials.go:564-585 | The export reads the same picks, texts and descriptions as if nobody but the first reviewer had submitted the trial. |
| ReviewedExport.CorrectionIsExported | backend/internal/admin/training_hitl_ingest.go:15-28 | An ingested correction is exported as the corrected description exactly when its patches are leaves at paths without a leading dot, whatever others submit for it later with successful look-ups. |
| EvalStore.EvalRunDoc.SetInPlace | backend/internal/admin/evals.go:240-254 | The first statement sets the matched element iff the id is present and changes nothing otherwise. |
| EvalStore.EvalRunDoc.UpsertCase | backend/internal/admin/evals.go:240-268 | Running alone, the two statements are one upsert. |
| EvalStore.EvalRunDoc.UpdateProgress | backend/internal/admin/evals.go:227-239 | A progress write replaces the status and the aggregate and leaves the cases alone. |
| EvalStore.UpsertsAreLinearizable | backend/internal/admin/evals.go:240-268 | In every interleaving of any number of calls the array is what whole upserts in some order leave; every returned call is in that order, each at most once, and none that has not begun. |
| EvalStore.LinearizationRespectsTime | backend/internal/admin/evals.go:240-268 | That order grows along the run, so it respects real time. |
| EvalStore.ConcurrentUpsertsKeepTheArray | backend/internal/admin/evals.go:240-268 | A duplicate-free array stays so, no id is lost or moved, each id holds the result of the last call on it, and every returned call's id is present. |
| EvalStore.SingleWriterWins | backend/internal/admin/evals.go:240-268 | An id that one call writes ends with that call's result. |
| EvalTally.CaseBody | backend/internal/admin/evals.go:832-858 | A case succeeds iff generation succeeded and the judge, when asked, did not fail; it never stays pending. |
| EvalTally.CaseReports | backend/internal/admin/evals.go:832-858 | The result of a case has the generator's checks and text, the costs of generator and judge, the judge's score only when it was asked and did not fail, and the error of whichever failed. |
| EvalTally.SnapshotIsRollup | backend/internal/admin/evals.go:860-885 | Said of the results themselves: passed is the number of cases with all checks green and, with a judge, a score of at least 4; the average times the number of positive scores is their sum; the cost is the sum of the costs. |
| EvalTally.TallyIsOrderIndependent | backend/internal/admin/evals.go:860-885 | The rollup of the results is the same for every order of completion. |
| EvalTally.Board.Count | backend/internal/admin/evals.go:860-885 | The lock section adds one result to the counters and takes the snapshot of the new totals. |
| EvalTally.Board.Land | backend/internal/admin/evals.go:860-885 | The counters are always the rollup of what has landed, and the snapshot has the passed cases, the average and the cost of these results. |
| EvalPool.InvNext | backend/internal/admin/evals.go:798-915 | Every step of launcher and workers keeps the invariant of the run. |
| EvalPool.AtMostFiveInFlight | backend/internal/admin/evals.go:817-825 | In every schedule at most five cases are in flight. |
| EvalPool.EveryPublishedAggregateIsASnapshot | backend/internal/admin/evals.go:860-898 | What is stored at any moment is the rollup of a prefix of the completion order, with passed at most completed at most total. |
| EvalPool.FinishedRun | backend/internal/admin/evals.go:898-915 | After a run whose final write succeeded the status is completed, and the aggregate has the passed cases, the average score and the cost of all results, however the progress writes landed; no worker is left, and every case with an id of its own holds its result, or is pending if the upsert failed. |
| EvalPool.ResultsAreReports | backend/internal/admin/evals.go:818-858 | In every run each result reports what one generation and one judgement of its own tuple returned. |
| EvalPool.WritesTakeEffect | backend/internal/admin/evals.go:797-915 | Each write of the run that succeeds shows what was written, and one that fails leaves the stored run as it was; the snapshot taken at a landing is the rollup of all results so far. |
| EvalPool.StoredIffWritten | backend/internal/admin/evals.go:886-889 | Over every run a result counts as stored exactly if the set statement of its worker has succeeded. |
| EvalPool.PushIsNeverReached | backend/internal/admin/evals.go:734-737 | With the pending cases that the start stores, the second statement of the upsert is never needed. |
| EvalPool.ShadowedCaseStaysPending | backend/internal/admin/evals.go:734-737 | A tuple whose id an earlier tuple has never gets its case stored. |
| EvalPool.FirstOfEqualIds | backend/internal/admin/evals.go:240-268 | The first case with an id holds the result of some tuple with that id as soon as one of them was stored, and is pending until then. |
| EvalPool.StepsAreBounded | backend/internal/admin/evals.go:798-915 | Every step brings the run closer to its end. |
| EvalPool.NoDeadlock | backend/internal/admin/evals.go:814-900 | In every reachable unfinished state some step that is not a panic is possible, whatever the generator and the judge answer, so the semaphore never blocks for good. |
| EvalPool.CanFinish | backend/internal/admin/evals.go:814-915 | From every reachable state some continuation without a panic ends with the final write done, whatever the generator and the judge answer. |
| PromptLifecycle.NextVersion | backend/internal/admin/prompt_templates_handlers.go:204-209 | In any order of the rows the loop finds the number after the greatest one, or 1. |
| PromptLifecycle.PromptTemplates.ListVersions | backend/internal/admin/prompt_templates.go:141-155 | Exactly the versions of the name, newest first. |
| PromptLifecycle.PromptTemplates.CreateNext | backend/internal/admin/prompt_templates_handlers.go:197-226 | Alone, a create adds exactly the next version, never in production. |
| PromptLifecycle.PromptTemplates.PromoteInternal | backend/internal/admin/prompt_templates.go:202-225 | Count, demote and promote fail without a change for an unknown version and otherwise leave the promoted table. |
| PromptLifecycle.PromptTemplates.Seed | backend/internal/admin/prompt_templates.go:359-391 | Existing rows stay as they are; only names without any version get version 1, in production. |
| PromptLifecycle.PromotedExactly | backend/internal/admin/prompt_templates.go:202-225 | A promote leaves its target as the one production version of the name, no other name's flags moved, and nothing but flags changed. |
| PromptLifecycle.MissingIsNotPromoted | backend/internal/admin/prompt_templates.go:202-225 | A promote of a version that does not exist changes nothing. |
| PromptLifecycle.InvNext | backend/internal/admin/prompt_templates.go:161-225 | Each statement of creators, seeders and promotes keeps versions contiguous and at most one in production per name. |
| PromptLifecycle.OneProductionVersion | backend/internal/admin/prompt_templates.go:175-225 | In every state of every run a name has at most one production version, also between the two writes of a promote, and exactly one once it was given one and no promote is half-way. |
| PromptLifecycle.SettledIff | backend/internal/admin/prompt_templates.go:202-225 | Each statement: a name is settled by a seed that inserts and by a promote that completes, and unsettled only by a promote that stops after it has demoted. |
| PromptLifecycle.CreatedIsFreshMaximum | backend/internal/admin/prompt_templates_handlers.go:197-226 | Whoever creates side by side, a created version is the next after the greatest, and nothing else changes. |
| PromptLifecycle.RefusedOnlyWhenOvertaken | backend/internal/admin/prompt_templates.go:157-173 | A create is refused by the unique index iff another one took its version in between. |
| PromptLifecycle.CompletedPromote | backend/internal/admin/prompt_templates.go:175-225 | A promote that completes leaves exactly the requested version in production, in one transaction or in two writes among other requests. |
| PromptLifecycle.SeedIsFirst | backend/internal/admin/prompt_templates.go:359-391 | A seed that inserts finds a name without versions and leaves version 1 as its one production version. |
| PromptLifecycle.FlagsMoveInPromotes | backend/internal/admin/prompt_templates.go:202-225 | A row changes in no step but a promote of its own name. |
| PromptLifecycle.BodiesAreForever | backend/internal/admin/prompt_templates.go:161-225 | Over any stretch of a run no row is lost and every row keeps its body and author. |
| PromptLifecycle.BodiesAreWritten | backend/internal/admin/prompt_templates_handlers.go:173-180 | With written defaults no version without a body ever appears. |
| AbTests.ABTests.Start | backend/internal/admin/prompt_ab_tests.go:140-159 | The three refusals in order, and otherwise one new active row; it is refused as already active iff the template has an active test or the id is taken. |
| AbTests.ABTests.End | backend/internal/admin/prompt_ab_tests.go:161-179 | Exactly an active row with that id is ended. |
| AbTests.AtMostOneActive | backend/internal/admin/prompt_ab_tests.go:86-103 | Every interleaving of starts and ends keeps at most one active test per template. |
| AbTests.TestsAreProper | backend/internal/admin/prompt_ab_tests.go:140-159 | In every run from an empty store all tests have a template and a share from 1 to 99 percent. |
| AbTests.StartedIff | backend/internal/admin/prompt_ab_tests.go:140-159 | A start succeeds iff the template is named, the share is from 1 to 99, the id is new and every other test of the template has ended. |
| AbTests.LifeOfATest | backend/internal/admin/prompt_ab_tests.go:140-179 | A started test is active with its template, version and share until it is ended, and from then on ended by that administrator with those notes, over every run. |
| AbTests.EndedIsForever | backend/internal/admin/prompt_ab_tests.go:140-179 | No row is lost, nothing but the status of a row changes, and an ended test never changes again. |
| AbTests.ActiveUntilEnded | backend/internal/admin/prompt_ab_tests.go:140-179 | Until its own end an active test stays as it is and every other start on its template fails. |
| AbTests.EndedTemplateIsFree | backend/internal/admin/prompt_ab_tests.go:140-179 | After the end a start with a new id succeeds. |
| VersionRefs.ItoaShort | backend/internal/app/prompt_template_adapter.go:63-83 | The buffer of twenty characters is never too short and holds the decimal numeral of every int64 but the least, for which it holds the sign alone. |
| VersionRefs.ParsePromoteVersion | backend/internal/admin/prompt_templates_handlers.go:263-274 | The digit loop refuses other characters and a zero, and otherwise reads the number modulo 2^64 as an int64. |
| VersionRefs.PromoteReadsTheNumber | backend/internal/admin/prompt_templates_handlers.go:263-274 | A numeral is promoted as the number it denotes exactly when that is positive and fits an int64. |
| VersionRefs.PromoteWraps | backend/internal/admin/prompt_templates_handlers.go:263-274 | A numeral of 2^64 + 1 is read as version 1. |
| VersionRefs.AcceptedRef | backend/internal/admin/evals.go:775-793 | A reference is read as a name and a version iff it is a non-empty name, "@v" and a positive numeral of that value. |
| VersionRefs.RefRoundTrip | backend/internal/admin/evals.go:768-793 | For every version from 1 to the greatest int64 the printed reference, and the printed digits on the promote route, are read back. |
| VersionRefs.FormatsOfAVersion | backend/internal/admin/prompt_templates.go:161-173 | Version 12 of base has the row id pt_base_v12 and the reference base@v12. |
| VersionRefs.RowIdInjective | backend/internal/admin/prompt_templates.go:161-173 | Two row ids are equal only for the same name and version. |
| VersionRefs.RefAddressesItsRow | backend/internal/admin/evals.go:692-712 | A printed reference finds the row of that name and version, and nothing iff there is none. |
| PromptAdapter.BodyForUser | backend/internal/app/prompt_template_adapter.go:42-60 | The body is the candidate's when the user is in its arm and the row is usable, and production otherwise. |
| PromptAdapter.BucketOfTheHash | backend/internal/admin/prompt_ab_tests.go:268-281 | The bucket of a user is the number of the first eight bytes of the hash of user, colon and template, the first byte the highest, modulo 100. |
| PromptAdapter.BucketOfNobody | backend/internal/admin/prompt_ab_tests.go:257-267 | A call without a user would fall into every test by its bucket; that is why the decision excludes it. |
| PromptAdapter.StampIsServedVersion | backend/internal/app/prompt_template_adapter.go:42-99 | Body and stamp read the cached test separately. For a served test started on a version that was found, over every run of creates, seeds and promotes, the stamp is the served version exactly when both readings put the user in the same arm or, after a failed look-up, the second one in production; a served candidate has the body it had at the start. |
| PromptAdapter.StampWithinOneFill | backend/internal/outfit/prompts.go:77-92 | With no invalidation between the two readings and no expiry before the second, whatever else happens, the stamp differs from the served version exactly when the look-up fails. |
| PromptAdapter.FailedLookupIsMisstamped | backend/internal/app/prompt_template_adapter.go:42-99 | With a test that can be started, a user in its arm and a failed look-up, production is served and the candidate stamped. |
| PromptAdapter.ServedRowIsTheCandidates | backend/internal/app/prompt_template_adapter.go:47-55 | A served candidate body is not empty and is that of the row of exactly this template and version. |
| PromptAdapter.TrafficShare | backend/internal/admin/prompt_ab_tests.go:268-301 | Exactly as many of the hundred buckets as the traffic percentage get the candidate, and a larger share only adds to them. |
| PromptAdapter.CandidatesOnlyGrow | backend/internal/admin/prompt_ab_tests.go:283-301 | A user is in the arm iff the bucket is; a larger share moves nobody out, and nobody without an id is ever in. |
| CacheProtocol.InvNext | backend/internal/admin/prompt_templates.go:282-350 | Every step of readers, refreshes, writes and invalidations keeps every cached entry genuine since the last invalidation. |
| CacheProtocol.ReadAfterInvalidateSeesTheWrite | backend/internal/admin/prompt_templates.go:282-350 | In every interleaving a prompt or routing read that starts after a write's invalidation answers what the store held with that write or later; so does an A/B answer other than "no test". |
| CacheProtocol.SomeReadSeesItsWrite | backend/internal/admin/prompt_ab_tests.go:211-250 | A run that meets what that theorem asks for: a new test is written, the cache invalidated, and the next call answers the new test. |
| CacheProtocol.AnswersAreGenuine | backend/internal/admin/routing.go:199-239 | Every answer is what the store held for that name since the last invalidation before the call. |
| CacheProtocol.LoadedNamesAreGenuine | backend/internal/admin/prompt_ab_tests.go:211-250 | What the cache holds for a loaded name, "no test" included, is genuine. |
| CacheProtocol.HeldIsLoaded | backend/internal/admin/prompt_ab_tests.go:211-250 | In every reachable state the A/B cache holds exactly the names loaded since the last invalidation. |
| CacheProtocol.CachedAnswerIsGenuineIff | backend/internal/admin/prompt_ab_tests.go:211-242 | In every reachable state a read from the A/B cache answers "no test" for a name not loaded since the last invalidation, and its answer is genuine exactly when the name was loaded or the store was without a test for it since then. |
| CacheProtocol.BoundedStaleness | backend/internal/admin/prompt_templates.go:282-350 | Also without any invalidation, every answer is what the store held at some moment not before its refresh began; for prompts, routing and the A/B name refreshed last that is at most the lifetime of the cache and the time of that refresh ago. |
| CacheProtocol.RevivedEntryIsOld | backend/internal/admin/prompt_ab_tests.go:211-242 | For every age from the lifetime on there is a run in which an A/B answer is a test that the store has not held for that long: refreshing another name revives an expired entry. |
| CacheProtocol.AnswersAgree | backend/internal/admin/prompt_ab_tests.go:211-250 | Two answers for one name, with no invalidation in between and before the first one's cache expires, are the same, whatever is written meanwhile. |
| CacheProtocol.FailedRefresh | backend/internal/admin/prompt_ab_tests.go:226-241 | A failed read of the store answers no test to an A/B call and an error to a routing call, and leaves the cache as it was. |
| CachedReaders.CachedPromptTemplates.BodyOrFallback | backend/internal/admin/prompt_templates.go:282-341 | A live cache is served unchanged; otherwise the whole cache becomes what the store answers for the seeded and listed names, without the names whose read failed and with the seeded ones only when the listing failed, and the answer is the production body or the fallback. |
| CachedReaders.CachedABTests.ActiveForTemplate | backend/internal/admin/prompt_ab_tests.go:211-242 | A refresh loads the one name, keeps all the others and extends them all; an error answers "no test" and changes nothing. |
| CachedReaders.CachedRoutingReader.ProviderForTier | backend/internal/admin/routing.go:199-229 | A live table is served unchanged, an error is returned, and otherwise the whole table is replaced. |
| CachedReaders.LastRowRoutes | backend/internal/admin/routing.go:226-229 | A tier is routed to the provider of its last row, and only listed tiers are routed. |
| CachedReaders.ValidateRoutingUpdate | backend/internal/admin/routing.go:248-276 | A table is accepted iff it has each known tier exactly once, with allowed providers only. |
| CachedReaders.GoodTableRoutesEveryTier | backend/internal/admin/routing.go:199-276 | An accepted table routes every known tier, to the provider of its own row. |
| Funnels.EarliestIsLeast | backend/internal/admin/funnels.go:313-378 | The anchor of the specification is a matching event's time, none is earlier, and it is missing only when nothing matches. |
| Funnels.MatchesMeans | backend/internal/admin/funnels.go:329-338 | A step takes exactly the events of its name that have every filtered value, where a null filter also takes a missing property. |
| Funnels.AnchorBounds | backend/internal/admin/funnels.go:20-34 | The users, and the least and greatest anchor, attained. |
| Funnels.FoldRows | backend/internal/admin/funnels.go:360-378 | Of each user the first qualifying row is kept. |
| Funnels.BoundedRowsSuffice | backend/internal/admin/funnels.go:313-378 | The pre-filter by the global bounds loses nothing: the new anchors are exactly the earliest matching events in each user's own window. |
| Funnels.Stats | backend/internal/admin/funnels.go:247-401 | For every event log each step's row is what the specification of the whole log says; the drop-off completes the share of the previous step's users and the cumulative rate is the share of the first step's, both 0 behind an empty step. |
| Funnels.RatesAreFractions | backend/internal/admin/funnels.go:380-398 | Counts never increase, and drop-off and cumulative rates are in [0, 1]. |
| Funnels.CountedUserHasChain | backend/internal/admin/funnels.go:298-398 | Every counted user has a strictly increasing chain of step events within the windows, each the earliest one for its step, ending at the anchor. |
| Funnels.CountedIffEarliestChain | backend/internal/admin/funnels.go:298-398 | A user is counted at a step exactly when there is such a chain of earliest events up to it. |
| Retention.TruncateIsTheBucket | backend/internal/admin/retention.go:271-283 | The bucket of an instant contains it and starts at midnight, for weeks on a Monday. |
| Retention.LastBucketIsNow | backend/internal/admin/retention.go:95-106 | The last of the 30 buckets of a day or a week is the one that contains the clock. |
| Retention.IndexIsTheBucket | backend/internal/admin/retention.go:287-293 | An index says in which bucket the instant is. |
| Retention.SameIndexAsTheDay | backend/internal/admin/retention.go:209-222 | The day of an instant has the same day or week index as the instant. |
| Retention.BucketSignups | backend/internal/admin/retention.go:139-152 | In any order the first loop puts each first sign-up into its bucket. |
| Retention.FillCells | backend/internal/admin/retention.go:209-231 | In any order the second loop puts each user's day into the cell of its cohort and offset. |
| Retention.Compute | backend/internal/admin/retention.go:90-266 | The answer is an error for other units, empty without sign-ups, and otherwise 30 rows with exactly the cohorts, and for a clock in the years 1 to 9998 exactly the members active in each later bucket. |
| Retention.CellsAreExact | backend/internal/admin/retention.go:163-231 | Neither the day strings nor the windows of the two queries lose or move anyone. |
| Retention.ExactlyOneCohort | backend/internal/admin/retention.go:107-152 | Users with a sign-up in the window are in exactly one of the 30 cohorts, all others in none. |
| Retention.CohortMeans | backend/internal/admin/retention.go:107-152 | A user is in a cohort iff the first of their sign-ups within the 30 buckets lies in its bucket. |
| Retention.CellsWithinCohort | backend/internal/admin/retention.go:233-263 | The first cell is the whole cohort, every cell a part of it, and every rate in [0, 1]. |
| Retention.RatesOfARow | backend/internal/admin/retention.go:233-263 | The rate of a cell is its number of users over the size of the cohort, and 0 for an empty one. |
| Retention.SizesAddUp | backend/internal/admin/retention.go:107-152 | The cohort sizes add up to the users who signed up in the window. |
| LedgerSums.RowsSumToCalls | backend/internal/admin/overview.go:313-357 | Summing the rows of the store's grouping sums the calls, for every selection and order. |
| LedgerSums.SpendOfDay | backend/internal/admin/overview.go:246-258 | Grouping by the day's string is grouping by the calendar day. |
| LedgerSums.OneCallIsSpent | backend/internal/admin/overview.go:307-360 | A call adds its cost to its own day and its own feature, and one without a feature to the feature unknown. |
| Overview.DailySeries | backend/internal/admin/overview.go:246-295 | 30 days in order, each with its exact spend, number of calls and of distinct users, zeros on quiet days. |
| Overview.TheLastDayIsToday | backend/internal/admin/overview.go:246-258 | The window has thirty days, the last of which is the day of the clock. |
| Overview.DayMeans | backend/internal/admin/overview.go:246-295 | The calls of a day are those between its midnights, and its users are those who made them. |
| FeatureSeries.Pivot | backend/internal/admin/overview.go:343-357 | In any order of the rows, totals by feature and values by feature and day, with nameless features as "unknown". |
| FeatureSeries.RankFeatures | backend/internal/admin/overview.go:359-376 | Every feature once, by total descending and then by name. |
| FeatureSeries.RankingIsUnique | backend/internal/admin/overview.go:359-376 | The order is fully determined by the totals. |
| FeatureSeries.FoldTail | backend/internal/admin/overview.go:395-404 | The in-place accumulation is the sum of the folded features, day by day. |
| FeatureSeries.DailySeriesByFeature | backend/internal/admin/overview.go:307-406 | The ranked features' own spend on each of the 30 days up to the cap, which is 8 when none is given, and all the others' in one series; greater totals come first and ties by name. |
| FeatureSeries.SeriesSumToSpend | backend/internal/admin/overview.go:246-406 | At most cap + 1 series, which add up day by day to the spend that the daily series shows. |
| Calendar.YearOf | backend/internal/admin/reports.go:535-546 | The year of a day by 400-year cycles is a year that contains it. |
| Calendar.YearOfUnique | backend/internal/admin/reports.go:535-546 | It is the only one. |
| Calendar.DateOfDay | backend/internal/admin/reports.go:627-642 | Year, month and day name the day, and adding to the day moves by days across month ends. |
| Calendar.DateIsFound | backend/internal/admin/reports.go:627-642 | Every existing date is the year, month and day of its day number. |
| Calendar.MonthLengths | backend/internal/admin/reports.go:627-642 | The lengths of the months, and leap years at examples. |
| Calendar.KnownDates | backend/internal/admin/reports.go:535-546 | The epoch is a Thursday, and 3 January 2021 a Sunday in week 53 of 2020. |
| IsoWeeks.ParsedWeek | backend/internal/admin/reports.go:552-575 | The Jan-4 construction gives the Monday of that ISO year and week, or week 1 of the next year for a 53rd week that the year has not. |
| IsoWeeks.MondayRoundTrip | backend/internal/admin/reports.go:552-580 | A Monday is found again from its ISO year and week. |
| IsoWeeks.LabelRoundTrip | backend/internal/admin/reports.go:552-580 | Parsing the label of a Monday gives the Monday. |
| IsoWeeks.LabelFormat | backend/internal/admin/reports.go:577-580 | 27 April 2026 is the Monday of the week that is printed 2026-W18. |
| IsoWeeks.AcceptedLabel | backend/internal/admin/reports.go:552-575 | A label that names a year and a week is accepted iff the week is from 1 to 53, with the Monday of that week. |
| Crons.NextSlotIsTheOnlyOne | backend/internal/admin/reports.go:627-642 | The slot of the specification is the only one in (t, t + period]. |
| Crons.NextMondayIsTheNextSlot | backend/internal/admin/reports.go:627-642 | For every instant the function gives the unique Monday 08:00 in (now, now + 7 days]. |
| Crons.MondayAtEight | backend/internal/admin/reports.go:627-642 | The weekly target is a Monday, at eight hours after midnight, within the next seven days. |
| Crons.NextDailyIsTheNextSlot | backend/internal/admin/daily_summary.go:341-348 | For every instant the function gives the unique daily slot in (now, now + 24 h]. |
| Crons.DailyAtTheHour | backend/internal/admin/daily_summary.go:341-348 | The daily target is the given number of hours after a midnight, within the next day. |
| Crons.LastCompletedWeek | backend/internal/admin/reports.go:535-546 | The last completed week runs from a Monday midnight to a Monday midnight, and now lies in the week that starts at its end. |
| Crons.WeeklyCron | backend/internal/admin/reports.go:597-623 | The loop waits for the next slot after each reading of the clock. |
| Crons.DailyCron | backend/internal/admin/daily_summary.go:306-336 | The same for the daily hour, with 7 for an hour out of range. |
| Crons.TargetsAdvance | backend/internal/admin/reports.go:606-622 | The targets advance by one period for every slot passed while late or sending, plus one; by exactly one iff none passed. |
| Crons.NoSlotTwice | backend/internal/admin/reports.go:606-622 | Over the whole run no slot is waited for twice. |
| DayStrings.DayRoundTrip | backend/internal/admin/retention.go:214-217 | A day of the years 0 to 9999 is parsed back from its string. |
| DayStrings.ParsedIsPrinted | backend/internal/admin/retention.go:214-217 | Exactly the strings of the days of four-digit years are parsed, each as its day. |
| DayStrings.DayStringInjective | backend/internal/admin/overview.go:273-292 | Different days have different strings. |
| DayStrings.DayFormat | backend/internal/admin/overview.go:273-292 | 29 February 2024 is printed 2024-02-29. |
| UserPages.ListIndexedSort | backend/internal/admin/users.go:311-364 | A page is the next rows of the whole list behind the cursor, up to the limit, or 20 of them for a limit that is not from 1 to 100, and the next cursor is that of the last row when there are more. |
| UserPages.IndexedPageMeans | backend/internal/admin/users.go:343-363 | A page is full unless it is the last, a next cursor means that rows are left, and it carries the last row's id and its sign-up time, or its activity time when the list is sorted by activity. |
| UserPages.SortedBehind | backend/internal/admin/users.go:311-364 | Filtering by the cursor before sorting is filtering the sorted list. |
| UserPages.PagesAreTheWholeList | backend/internal/admin/users.go:311-364 | Following the cursors lists the whole collection in order, each row once, also with equal stamps. |
| UserPages.ListedBySignUp | backend/internal/admin/users.go:321-342 | The pages sorted by sign-up list later sign-ups first, and among equal ones the greater id. |
| UserPages.ListedByActivity | backend/internal/admin/users.go:321-342 | The pages sorted by activity list later updates first, and among equal ones the greater id. |
| UserPages.StableUsersAreListedOnce | backend/internal/admin/users.go:311-364 | While others come, go and change between the pages, a user that stays is listed exactly once. |
| UserPages.SortSummariesSpec | backend/internal/admin/users.go:541-550 | The computed sort is a permutation in descending order that keeps ties in scan order. |
| UserPages.ListComputedSort | backend/internal/admin/users.go:370-414 | A page is the slice of the sorted scan at the offset of the cursor, there is a next one iff rows are left, and a cursor that is no number from 0 on starts over. |
| UserPages.ComputedPageMeans | backend/internal/admin/users.go:394-414 | An offset page is full unless it is the last, holds the rows from its offset on, and its cursor prints where it ends iff rows are left. |
| UserPages.OffsetPagesAreTheRest | backend/internal/admin/users.go:370-414 | Following the offsets lists the rest of the sorted scan. |
| UserPages.ScanIsTheNewest | backend/internal/admin/users.go:370-393 | The scan is 500 users or all of them, and nobody left out signed up later than one in it, or at the same time with a greater id. |
| UserPages.OffsetPagesAreTheSortedScan | backend/internal/admin/users.go:370-414 | Following the offsets from the start lists the summaries of the scan, each once, with more uploads, outfits or spend first as asked, and ties in the order of the scan. |
| Strings.LexicographicOrder | backend/internal/admin/users.go:321-342 | One string is less than another iff at the first place where they part it ends or has the smaller character. |
| Totp.Hotp | backend/internal/admin/totp.go:114-131 | The code has six digits and denotes the low million of the number whose four bytes are those of the hash from the offset in its last byte on, without the top bit. |
| Totp.ExampleOfTheStandard | backend/internal/admin/totp.go:114-131 | The example of section 5.4 of RFC 4226: the hash with 50 ef 7f 19 at its offset gives 872921. |
| Totp.CodeHasSixDigits | backend/internal/admin/totp.go:114-131 | The truncation has 31 bits, and the code always six digits that denote its low million (section 5.3 of RFC 4226). |
| Totp.VerifyTOTPStep | backend/internal/admin/totp.go:88-110 | The first matching step of the previous, the current and the next one, and none for a code of another length or a bad key. |
| Totp.MatchedStepIsFirst | backend/internal/admin/totp.go:88-110 | A code of six characters matches iff it is that of the previous, the current or the next period of 30 seconds, and the earliest of them is returned. |
| Totp.StepsOfTheStandard | backend/internal/admin/totp.go:97-108 | The steps of the times in appendix B of RFC 6238, and 0 for the two periods around the epoch. |
| Totp.MatchedStepIsNear | backend/internal/admin/totp.go:88-110 | At every instant a matched step is the current one or a neighbour in 64 bits, within one of the quotient away from the ends, and its code is the presented one. |
| Totp.ConsumeRecoveryCode | backend/internal/admin/totp.go:191-202 | A code is accepted iff its hash is stored, and then exactly its first occurrence is removed. |
| Totp.CheckDecides | backend/internal/admin/handler.go:272-316 | On the record as it was loaded a login passes without a factor iff none is needed, and otherwise goes on iff its code matches a step or its recovery code is on the list, of which one occurrence is struck. |
| Totp.LoadAndCheck | backend/internal/admin/handler.go:272-281 | A login checks the record as it was when it was loaded. |
| Totp.LastStepOfALogin | backend/internal/admin/handler.go:281-310 | A step above the stored one is stored, used and lets the login through, any other one is refused; a recovery code lets it through and is struck from the list. |
| Totp.AsInt64Means | backend/internal/admin/handler.go:290 | The stored step is the signed number with the same 64 bits as the matched one. |
| Totp.EnrolmentAndReset | backend/internal/admin/repository.go:186-240 | Enrolment sets the secret, the codes and the enforcement, and is refused without a secret; reset lifts the factor; both keep the last step. |
| Totp.StatementMeetsContract | backend/internal/admin/repository.go:31-37 | The statement meets the contract exactly for records that have the field, or steps that are not positive. |
| Totp.InvNext | backend/internal/admin/handler.go:272-316 | Every step of the logins, enrolments and resets keeps the accepted steps increasing and the last one stored. |
| Totp.StepsAreUsedOnce | backend/internal/admin/handler.go:281-301 | Over every interleaving of logins the accepted steps strictly increase, so none authenticates twice, and each is within one of the step of its check (section 5.2 of RFC 6238). |
| Totp.PassedWithTheFactor | backend/internal/admin/handler.go:272-316 | In every run each login that passed had loaded a record that needs no factor, or had presented the code of a step that is among the uses, or a recovery code that was on the list of that record. |
| Totp.UnsetFieldAcceptsNothing | backend/internal/admin/repository.go:215-224 | With the statement, a record without the field accepts no step in any run. |
| Decimal.ValueOfDigits | backend/internal/app/prompt_template_adapter.go:63-83 | The canonical numeral denotes its number. |
| Decimal.AtoiOfItoa | backend/internal/admin/users.go:373-378 | Every int64 is read back from its numeral, with its sign. |

## Left out

- The MongoDB driver, HTTP transport, JSON and BSON decoding, SMTP, Redis and the model calls: a collection is a map or a sequence, each single statement one atomic step, and an aggregation of the store is a function of the log or any answer that meets its specification.
- HMAC-SHA1, SHA-256 and base32 are parameters; argon2, JWT signing and random ids are not modelled, and generated ids are taken to be new.
- Rounding of floating-point numbers: costs, rates and averages are reals.
- The range of `time.Time` and the saturation of its differences; time zones other than UTC.
- The clock is a parameter.
- Trimming of blanks around codes, references and template names, and the regular expression for template names; the model takes the trimmed, admitted text.
- The password check, sessions and tokens of a login, and logins during storage errors: the second factor starts from the record as it was loaded.
- EvalStore.UpsertsAreLinearizable, EvalPool.FinishedRun: a write that returns an error has had no effect; one that times out at the client and lands later, after the final write say, is outside the model.
- Recovery codes used by several logins at once: reading and writing the list are two steps in the model, and nothing is claimed about two such logins side by side.
- Two promotes of the same name at once outside a transaction: read, demote and promote are separate writes there; the model has at most one such promote per name, and any number of other requests.
- Submits and re-reviews of one trial side by side: the store is read first and written later; the claims are for requests one at a time.
- CacheProtocol.ReadAfterInvalidateSeesTheWrite, CacheProtocol.BoundedStaleness: the store's answers to a refresh succeed; what a refresh leaves after an error is in the contracts of `CachedReaders`, for one call alone.
- The library's sort and the sorting of a slice in place: sorting is a function on sequences, with what the caller relies on proved of it.
- An object-valued patch that the rebuilt tree shares with the request: the model copies it into maps of its own.
- Filters of funnel steps on array-valued properties, for which the store matches elements.
- Base64 and JSON of the list cursors: a cursor is the pair it encodes or is malformed.
- Retention.Compute: the event log is the same for its two queries, and the cells are claimed for a clock in the years 1 to 9998, whose neighbours have four digits.
- FeatureSeries.DailySeriesByFeature: the rows are those of one grouping of one ledger; a feature that is itself named "other" is listed beside the folded series and not merged with it.
- PromptAdapter.StampWithinOneFill: both readings are answered by the cache or by a refresh that succeeds; after a failed refresh the reading is of no test, which `PromptAdapter.StampIsServedVersion` covers.
- The lists that page by `_id` under another sort (audit log, wardrobe, moodboards, outfit batches, eval runs, sessions) and the traces: their pages are not complete in general.
- The parsing of the judge's answer, retries and time limits of an eval case: a case is generated and judged with any outcome.
- The React Native app, proxies, wiring, audit rows, role tables and e-mail rendering: plumbing, or one-branch facts.
