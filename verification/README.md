# Verified models of Zenith Relay

This project models the parts of Zenith Relay that carry real protocols and algorithms, and proves
what they promise: a secret store that survives any failing keyring operation, a catalog that
replicates between browser tabs, the merge of a saved model order, two reference solvers, an editor
of the text it scans, calendar arithmetic, file publication under interleaving and failure, program
replacement with rollback, bounded reading of event streams, retention of language bundles, groups of
account routes and process reachability.

Where the code changes state step by step, the model is a class or a method with loops, proved
against a specification function whose own properties are lemmas. Where several actors interleave
(browser tabs, file writers), the model is a state machine with one step per observable action.
`dafny verify dfyconfig.toml` checks everything.

| file | models |
|---|---|
| `Basics.dfy`, `Text.dfy` | optional values and joined sequences; trimming, ASCII case folding and decimal numerals |
| `SecretChunks.dfy`, `KeyStorage.dfy`, `Keyring.dfy`, `KeyStorageSessions.dfy`, `KeyStorageCases.dfy` | the chunked secret store: splitting and manifests, meaning, operations under failure, whole sessions, one losing case |
| `PreviewTabs.dfy` | replication of the preview catalog between tabs |
| `ModelOrder.dfy`, `ReasoningLevels.dfy` | merging a saved model order; ordering reasoning levels |
| `PathSolver.dfy`, `QualityProbes.dfy` | the reference solvers and the judging of answers |
| `EnvironmentRewriter.dfy` | rewriting the time zone in environment blocks |
| `Calendar.dfy`, `CalendarText.dfy` | Gregorian day numbers (section 21.4.1 of ECMA-262) and dates as text |
| `AtomicWrites.dfy`, `UpdateHelper.dfy` | publishing files; replacing the program and rolling back |
| `EventStream.dfy`, `SseTransport.dfy`, `BodyCollector.dfy` | event boundaries (section 9.2 of the WHATWG HTML Standard), progress and the bounded reader |
| `Languages.dfy`, `LanguageController.dfy` | fallback chains; loading and retaining bundles |
| `AccountRoutes.dfy` | route groups and the commands that change them |
| `Processes.dfy` | descendants in a process table |

Conventions. A failing keyring or file operation has no effect, except that a failed copy may leave a
truncated target. Failures come from an oracle (`faults`), a function from the number of the operation
to whether it fails, so a theorem about all oracles covers every pattern of failures. The ghost field
`history` lists every state passed through, the current one last (`Valid`); a theorem about all its elements
covers stopping the program between any two operations. In the keyring the ghost field `calls` lists the
operations asked for, so that `RestoreFailed` can say that the program tried to put an entry back and was
refused, `FragmentsErased` that no deletion of a fragment was refused, and `EntryServed` that neither reading nor
deleting an entry was. `FaultFree(n)` says that nothing has failed since operation `n`, `Persisted(n)` that since
then something was tried in vain until a deadline or as often as allowed.

Results that differ from what one might expect of the code:

- A short secret is stored as it is and trimmed when it is read. Saving one that is blank, padded or begins
  with the manifest prefix fails its readback, and the earlier value is restored (`LoadShort`,
  `SaveToService`). While such a save is under way the user reads the earlier secret or the stored text as
  it is read, trimmed; `SaveToService` proves that there is no third reading, the next case aside.
- A short secret that is a manifest spelled out by its own fragments passes the readback (`SpellsItself`); if it
  also names the generation in use, a successful save deletes the fragments it needs (`ReusesGeneration`).
  `SavingAgainLoses` constructs such a case, and `SaveToService` proves both sides.
- If a save of a long secret fails and putting the earlier entry back is refused as well, the fragments just
  written are deleted and the user is left with a missing fragment. `SaveToService` proves that a save
  loses the reading of a long secret only then, and always then if the deletions succeed.
- Idle tabs are in step exactly if none has gone beyond the largest safe integer (`TabsConvergeIff`); an edit
  goes beyond exactly if it is made at that revision (`EditSettlesIff`). `UnsafeEditDiverges` and
  `UnsafePairIsAmbiguous` are runs in which it does.
- The update helper returns success also after a rollback: success with no acknowledgement means that the
  old program is back (`RunHelper`).
- An event that ends in CR LF is reported with its line feed as a further, empty event if the line feed
  arrives late (`LateLineFeedIsAnEvent`). The events are those of the whole stream exactly if no chunk
  begins with such a line feed (`SameEventsIff`); otherwise nothing else changes (`ChunkingIndependent`).
- Having the same owner is symmetric but not transitive (`SameOwnerNotTransitive`), so a group must be, and
  is, checked pairwise.

## Model

| member | source | states |
|---|---|---|
| Text.TrimFixed | src-tauri/src/key_storage.rs:176 | a text equals its trimmed form iff neither end is white space |
| Text.TrimCuts | src-tauri/src/key_storage.rs:176 | trimming takes white space off both ends and nothing else |
| Text.TrimMiddle | src-tauri/src/key_storage.rs:176 | a text between white space is what trimming leaves |
| Text.LowerSame | crates/relay-core/src/catalog/order.rs:218-220 | texts fold to the same lower case iff they differ in the case of ASCII letters only |
| Text.TrimIdempotent | crates/relay-core/src/catalog/order.rs:218-220 | trimming twice is trimming once |
| Text.DecimalInjective | src-tauri/src/key_storage/chunks.rs:66-68 | different indices print as different numerals |
| SecretChunks.SplitSecret | src-tauri/src/key_storage/chunks.rs:17-34 | the loop yields the greedy division that the lemmas below describe |
| SecretChunks.SplitIsFull | src-tauri/src/key_storage/chunks.rs:17-34 | the chunks join to the secret, none is empty, none exceeds 1024 UTF-16 units, and none could take the next character |
| SecretChunks.SplitIsShortest | src-tauri/src/key_storage/chunks.rs:17-34 | no order-preserving division within the limit has fewer pieces |
| SecretChunks.SplitCount | src-tauri/src/key_storage/chunks.rs:17-34 | a non-empty secret takes at most (units - 1) / 1023 + 1 chunks |
| SecretChunks.ChunkUserInjective | src-tauri/src/key_storage/chunks.rs:66-68 | chunk names determine user, generation and index, colons in user names notwithstanding |
| SecretChunks.ManifestRoundTrip | src-tauri/src/key_storage/chunks.rs:36-64 | an encoded manifest is read back iff its fields are in bounds, and rejected otherwise |
| KeyStorage.ReadsNothingIff | src-tauri/src/key_storage.rs:171-178 | no secret is read iff there is no entry or a blank one without manifest prefix: a damaged manifest is never taken for a missing secret |
| KeyStorage.ReadsTrimmed | src-tauri/src/key_storage.rs:175-178 | a plain text is read without the white space around it |
| KeyStorage.ReadsManifest | src-tauri/src/key_storage.rs:180-192 | an entry with the manifest prefix reads as an invalid manifest iff it cannot be decoded, as a missing fragment iff it can and one is missing, else as its fragments joined, or a checksum mismatch if the digest differs |
| KeyStorage.LoadChunked | src-tauri/src/key_storage.rs:171-193 | a manifest with all its fragments reads as the secret, whatever the secret |
| KeyStorage.LoadShort | src-tauri/src/key_storage.rs:171-192 | a stored short text reads as itself iff it is trimmed, not blank and without manifest prefix, or a manifest that its own fragments spell |
| KeyStorage.LoadPartial | src-tauri/src/key_storage.rs:180-192 | with fragments intact or gone the reading is the secret or a missing fragment, never a mixture or a checksum error |
| KeyStorage.FirstFragmentGone | src-tauri/src/key_storage.rs:182-186 | a manifest without its first fragment reads as a missing fragment |
| KeyStorage.LoadFrame | src-tauri/src/key_storage.rs:171-193 | changing fragments of a generation is invisible to every reading whose manifest does not name it |
| KeyStorage.LoadOtherService | src-tauri/src/key_storage.rs:171-193 | a reading depends on its own service only |
| KeyStorage.OtherUsersUndisturbed | src-tauri/src/key_storage.rs:83-143 | all that a save or delete touches leaves every other user's reading as it was |
| KeyringProtocol.Keyring.LoadSecret | src-tauri/src/key_storage.rs:171-193 | returns the reading that the lemmas above describe, or a store failure if an operation failed |
| KeyringProtocol.Keyring.VerifySavedSecret | src-tauri/src/key_storage.rs:145-158 | success means the stored text reads as expected; failure means it does not or at least three operations failed, so one or two failed readbacks are tolerated |
| KeyringProtocol.Keyring.DeleteManifestChunks | src-tauri/src/key_storage/chunks.rs:74-88 | only fragments of that manifest ever go; without failures all of them go |
| KeyringProtocol.Keyring.RestoreRawSecret | src-tauri/src/key_storage.rs:160-169 | puts back the earlier entry or its absence, unless the operation fails |
| KeyringProtocol.Keyring.WriteChunks | src-tauri/src/key_storage.rs:106-117 | all fragments are written; or failure is reported, only fragments of the new generation were touched, and if their deletion succeeds the keyring is as before |
| KeyringProtocol.Keyring.DeleteWritten | src-tauri/src/key_storage.rs:111-113 | if no deletion is refused exactly the fragments written so far are gone |
| KeyringProtocol.Keyring.Publish | src-tauri/src/key_storage.rs:126-137 | success means the entry is written and reads as the secret; failure leaves the entry as it was unless putting it back was tried and refused |
| KeyringProtocol.Keyring.RetractChunks | src-tauri/src/key_storage.rs:132-136 | deleting the new fragments after a failed publication leaves the earlier reading, or a missing fragment if the entry still names them |
| KeyringProtocol.Keyring.SaveShort | src-tauri/src/key_storage.rs:89-99 | in every state the user reads the earlier secret or the stored text; success means the new one; a failed save leaves the keyring as it was unless the restore was refused |
| KeyringProtocol.Keyring.SaveChunked | src-tauri/src/key_storage.rs:101-142 | in every state between any two operations the reading is the earlier or the new one, unless the restore was refused; a failed save whose restore and deletions succeed leaves the keyring exactly as it was |
| KeyringProtocol.Keyring.SaveToService | src-tauri/src/key_storage.rs:83-143 | under all failures and stops the reading is lost only if putting the entry back is refused; Ok means the next load returns exactly the secret; if the deletions succeed the final keyring is determined, after a success and after a failure that was undone; without failures saving succeeds iff the secret reads back |
| KeyringProtocol.SavesAreAtomic | src-tauri/src/key_storage.rs:83-143 | every intermediate state of a save, as SaveToService bounds it, reads as the earlier secret or the new one if no restore was refused and a short text is plain |
| KeyringProtocol.Keyring.DeleteSecret | src-tauri/src/key_storage.rs:195-204 | in every state the reading is the earlier one or none; success means that exactly the entry and the fragments it named are gone |
| KeyringProtocol.Keyring.DeleteNamedSecret | src-tauri/src/key_storage.rs:62-67 | success means that exactly both entries and the fragments they named are gone, so neither service has a reading; each entry goes if reading and deleting it succeeds, whatever happens to the other |
| KeyringProtocol.Keyring.LoadNamedSecret | src-tauri/src/key_storage.rs:39-60 | the migrating load returns what the read-only load returns; over a secret or a damaged entry of the current service it changes nothing, and the damage is reported; the reading does not change on the way unless a restore was refused or a short text is not plain; the legacy reading goes only once the new one is there |
| KeyStorageSessions.SessionRepresentsMap | src-tauri/src/key_storage.rs:83-143 | after any session of saves and deletes, from any orderly keyring, each user reads their last accepted secret, and the store holds exactly those entries and the fragments they name |
| KeyStorageSessions.EmptyRepresents | src-tauri/src/key_storage.rs:83-143 | the empty keyring is orderly |
| KeyStorageSessions.SessionGenerationsFresh | src-tauri/src/key_storage.rs:106-117 | distinct generations are fresh in the sense that saving needs |
| KeyStorageCases.SavingAgainLoses | src-tauri/src/key_storage.rs:89-98 | a lawful codec, a store and a short secret exist whose successful save leaves the user with a missing fragment |
| PreviewTabs.PreviewCatalog.OnMessage | web/src/preview/usePreviewCatalog.ts:16-28 | a handler run keeps the greater of the two versions by (revision, sender) and answers a request iff the tab has been edited |
| PreviewTabs.PreviewCatalog.OnChange | web/src/preview/usePreviewCatalog.ts:32-37 | an edit takes the next revision under the tab's name and posts it |
| PreviewTabs.ReceivedIsMaximum | web/src/preview/usePreviewCatalog.ts:21-27 | a received safe version leaves the tab at the greater of both, an unsafe one at its own |
| PreviewTabs.RunInvariant | web/src/preview/usePreviewCatalog.ts:12-37 | in every reachable state versions are accounted for, and every safe version a tab holds or is about to get is covered by what the others hold, will get or have asked for |
| PreviewTabs.TabsConverge | web/src/preview/usePreviewCatalog.ts:12-37 | in every run, when no message is undelivered, all open tabs at safe revisions hold the same settings |
| PreviewTabs.TabsConvergeIff | web/src/preview/usePreviewCatalog.ts:12-37 | in every run, two idle tabs hold the same version, or none but the first, iff both are at safe revisions |
| PreviewTabs.EditSettlesIff | web/src/preview/usePreviewCatalog.ts:21-37 | if no edit follows, the editor and any other tab end up in step iff the edit was made below the largest safe revision |
| PreviewTabs.PairNamesSettings | web/src/preview/usePreviewCatalog.ts:32-37 | a safe (revision, sender) pair names one setting wherever it is held or travels |
| PreviewTabs.PairsOnlyGrow | web/src/preview/usePreviewCatalog.ts:24-36 | in every run no open tab ever falls back to a smaller pair |
| PreviewTabs.NothingUneditedTravels | web/src/preview/usePreviewCatalog.ts:16-20 | in every run only edited versions travel: a tab without one does not answer |
| PreviewTabs.UnsafeEditDiverges | web/src/preview/usePreviewCatalog.ts:21-33 | beyond that revision a run exists that ends with two idle tabs apart |
| PreviewTabs.UnsafePairIsAmbiguous | web/src/preview/usePreviewCatalog.ts:32-37 | beyond it one pair can name two settings |
| ModelOrder.NormalizeModelIds | crates/relay-core/src/catalog/order.rs:226-238 | the loop yields the normalised catalog that the three lemmas below describe |
| ModelOrder.NormalizeLists | crates/relay-core/src/catalog/order.rs:226-238 | the stored list is exactly the first spellings, trimmed, in source order; blank texts and later spellings go |
| ModelOrder.SameKeyIff | crates/relay-core/src/catalog/order.rs:218-220 | keys are equal iff the texts differ in outer white space and letter case only |
| ModelOrder.DedupeKeepsFirst | crates/relay-core/src/catalog/order.rs:226-238 | exactly the first spelling of each key stays, in source order, blanks dropped |
| ModelOrder.DedupeDistinct | crates/relay-core/src/catalog/order.rs:226-238 | no two stored models share a key |
| ModelOrder.CollectAnchors | crates/relay-core/src/catalog/order.rs:158-172 | the loop yields the anchors that the lemma below describes, and the flags say which |
| ModelOrder.AnchorsMean | crates/relay-core/src/catalog/order.rs:158-172 | the anchors are exactly the saved models of the catalog, in the order of their first mention |
| ModelOrder.MatesShareGroup | crates/relay-core/src/catalog/order.rs:178-181 | two models are of one group iff both keys have it |
| ModelOrder.InsertModel | crates/relay-core/src/catalog/order.rs:186-208 | the two searches insert at the place that the lemma below describes |
| ModelOrder.RightPlaceIsFound | crates/relay-core/src/catalog/order.rs:186-204 | that place is the one right place: never behind a later group member, directly before one if there is any, else directly behind the last member; without members all models before are smaller and the next is greater |
| ModelOrder.MergeModelDisplayOrder | crates/relay-core/src/catalog/order.rs:145-214 | the whole merge computes the order that the lemmas below characterise |
| ModelOrder.PlacedIsMerged | crates/relay-core/src/catalog/order.rs:182-209 | every catalog position is placed exactly once and saved models keep their saved order, groups or not |
| ModelOrder.MergeKeepsModels | crates/relay-core/src/catalog/order.rs:145-214 | the result is a permutation of the normalised catalog |
| ModelOrder.NewModelsJoinTheirGroup | crates/relay-core/src/catalog/order.rs:186-198 | a new model whose group is listed goes directly beside a member of it |
| ModelOrder.PlacedInOrder | crates/relay-core/src/catalog/order.rs:182-209 | of its own group only members from earlier in the catalog stand before a new model in the final order |
| ModelOrder.GroupedOrderIsUnique | crates/relay-core/src/catalog/order.rs:182-209 | for all groups: permutation, saved order and the right place of each new model among saved and smaller ones determine the merged order |
| ModelOrder.MergeWithGroups | crates/relay-core/src/catalog/order.rs:145-214 | the merge of a catalog with groups displays that one order |
| ModelOrder.PlacedInPlace | crates/relay-core/src/catalog/order.rs:199-208 | without groups a new model is preceded only by smaller catalog positions and followed by a greater one |
| ModelOrder.MergedOrderIsUnique | crates/relay-core/src/catalog/order.rs:182-209 | permutation, saved order and that placement determine the merged order |
| ModelOrder.MergeWithoutGroups | crates/relay-core/src/catalog/order.rs:135-141 | the group-free merge of a catalog is that one order |
| ModelOrder.MergeIsStable | crates/relay-core/src/catalog/order.rs:145-214 | saving the displayed order and merging again changes nothing |
| ReasoningLevels.CanonicalTwice | crates/relay-core/src/catalog/order.rs:87-93 | a canonical level is its own canonical form |
| ReasoningLevels.CanonicalMeans | crates/relay-core/src/catalog/order.rs:87-93 | exactly eleven spellings of very high become one level, every other level stands for itself, trimmed and in lower case |
| ReasoningLevels.RankIsPlace | crates/relay-core/src/catalog/order.rs:119-131 | the rank is the place in the list none, minimal, low, medium, high, xhigh, max, ultra, and others rank behind |
| ReasoningLevels.CanonicalizeReasoningLevels | crates/relay-core/src/catalog/order.rs:98-117 | the loop and the sort compute the list that the lemma below describes |
| ReasoningLevels.CanonicalizeMeans | crates/relay-core/src/catalog/order.rs:95-117 | every level mentioned is listed once, known levels first in the picker's order, unknown ones in order of mention; doing it again changes nothing |
| ReasoningLevels.SortIsStable | crates/relay-core/src/catalog/order.rs:111-115 | the sort orders by rank and keeps the order within a rank |
| ReasoningLevels.StableOrderIsUnique | crates/relay-core/src/catalog/order.rs:111-115 | only one list is ordered by rank and keeps the order within each rank |
| PathSolver.CodeOrder | crates/relay-core/src/quality.rs:124-125 | numeric order of the bits is R < U order of the words |
| PathSolver.ValidIffSurvives | crates/relay-core/src/quality.rs:133-149 | the early break rejects exactly words that are not valid paths |
| PathSolver.WalkWord | crates/relay-core/src/quality.rs:130-149 | the inner loop accepts a word iff it is a valid path, and spells it |
| PathSolver.SolvePaths | crates/relay-core/src/quality.rs:118-157 | the count is the number of all valid paths, the text the first of them in R < U order, empty iff there is none |
| PathSolver.SolutionIsUnique | crates/relay-core/src/quality.rs:118-157 | only one count and text are a solution |
| QualityProbes.BinaryBits | crates/relay-core/src/quality.rs:173 | the printed bits stand in ABCDEF order |
| QualityProbes.BrokenMeans | crates/relay-core/src/quality.rs:165 | an observation is false iff its two characters of the printed assignment differ though they should agree, or the other way round |
| QualityProbes.PenaltyMeans | crates/relay-core/src/quality.rs:163-168 | the penalty is the total weight of the false observations |
| QualityProbes.SolveXor | crates/relay-core/src/quality.rs:159-177 | the penalty is the least of all 64 assignments and the answers are the list of all that attain it |
| QualityProbes.HavingIsExact | crates/relay-core/src/quality.rs:172-174 | that list holds exactly the assignments with the penalty, ascending, each once |
| QualityProbes.OptimaComeInPairs | crates/relay-core/src/quality.rs:163-174 | flipping all six bits of an optimal assignment gives an optimal one |
| QualityProbes.ReferenceIsUnique | crates/relay-core/src/quality.rs:63-116 | a seed has one reference answer |
| QualityProbes.EvaluateIsFair | crates/relay-core/src/quality.rs:207-240 | judging against the reference is right for every text |
| QualityProbes.ChallengeFromSeed | crates/relay-core/src/quality.rs:63-116 | from any seed the expected answer is the true reference answer of the generated problem; a text is judged correct iff it is short enough and that answer, inconclusive iff it is too long, unreadable or out of bounds, else incorrect |
| EnvironmentRewriter.RewriteEnvironment | crates/relay-core/src/request_timezone.rs:83-114 | the cursor loop that edits the text it scans ends and computes the rewriting of the parsed text |
| EnvironmentRewriter.ParseWellFormed | crates/relay-core/src/request_timezone.rs:89-96 | parsing into blocks loses nothing and finds each marker where the scanner does |
| EnvironmentRewriter.ParseUnparse | crates/relay-core/src/request_timezone.rs:89-96 | well-formed documents print to texts that parse back to them |
| EnvironmentRewriter.ParseIff | crates/relay-core/src/request_timezone.rs:89-96 | a document is what a text parses to iff it is well-formed and prints as the text |
| EnvironmentRewriter.ZoneIff | crates/relay-core/src/request_timezone.rs:97-106 | a block has a zone to replace iff no block opens in it, each zone marker occurs at exactly one place, in order, and nothing between them opens a marker |
| EnvironmentRewriter.OccursAround | crates/relay-core/src/request_timezone.rs:97-105 | no marker starts, ends or straddles in a zone body, so markers move rigidly when it is replaced |
| EnvironmentRewriter.CountedOnce | crates/relay-core/src/request_timezone.rs:99-101 | the count of non-overlapping matches is one iff the marker occurs at exactly one position |
| EnvironmentRewriter.RewriteTwice | crates/relay-core/src/request_timezone.rs:83-114 | rewriting to one zone without `<` and then to another equals rewriting to the second |
| EnvironmentRewriter.OnlyZonesChange | crates/relay-core/src/request_timezone.rs:102-112 | one layout of fixed text and zone bodies explains the text and each rewriting of it |
| Calendar.DayFromYearFormula | web/src/components/calendar-date.ts:15-20 | day numbers counted year by year agree with the closed form of ECMA-262 |
| Calendar.DayOfDate | web/src/components/calendar-date.ts:15-24 | every day number is that of the real date read from it |
| Calendar.DateOfDay | web/src/components/calendar-date.ts:15-24 | every real date is read back from its day number |
| Calendar.MoveDaysAdds | web/src/components/calendar-date.ts:54-58 | running on past the end of months and years is adding days |
| Calendar.MoveMonthsLands | web/src/components/calendar-date.ts:60-67 | the four setter calls land in the shifted month on min(day, month length) |
| CalendarText.PrintRead | web/src/components/calendar-date.ts:15-24 | days of the years 0 to 9999 print as the pattern and read back |
| CalendarText.AcceptsRealDates | web/src/components/calendar-date.ts:41-42 | the check accepts exactly the real dates from year 1 to 9999 |
| CalendarText.DayMovesCompose | web/src/components/calendar-date.ts:54-58 | day moves add up and moving back undoes a move |
| CalendarText.MovedIsAccepted | web/src/components/calendar-date.ts:54-58 | a moved date within years 1 to 9999 is an accepted date |
| CalendarText.MonthMovePrints | web/src/components/calendar-date.ts:60-67 | a month move prints the shifted month and the capped day |
| CalendarText.WeekDayIs | web/src/components/calendar-date.ts:73 | the weekday of every date is the one of the known rule for dates, Sunday being 0 |
| CalendarText.WeekDayOfDay | web/src/components/calendar-date.ts:73 | so it is for every day number |
| CalendarText.GridCoversMonth | web/src/components/calendar-date.ts:71-75 | the grid is 42 consecutive days from a week start and contains every day of the month |
| AtomicWrites.InvStep | src-tauri/src/files.rs:20-54 | every step keeps each staging file to its owner with what that owner wrote, foreign files as they were and destinations whole |
| AtomicWrites.RunsAreAtomic | src-tauri/src/files.rs:20-54 | in every state of every interleaving a destination holds its first content or the whole content of the last writer that succeeded there |
| AtomicWrites.TargetStep | crates/relay-core/src/catalog_io.rs:95-117 | a destination changes only by a rename to it, and then to the renamer's whole content |
| AtomicWrites.OutcomeMatchesEffect | src-tauri/src/files.rs:35-54 | a writer that returned an error has published nothing, one that returned Ok has |
| AtomicWrites.UndisturbedSucceeds | src-tauri/src/files.rs:20-54 | a writer that meets no failure publishes its content, leaves no staging file and changes nothing else |
| AtomicWrites.ExistingBytesEqual | crates/relay-core/src/catalog_io.rs:135-165 | true iff the recorded length is allowed and the bytes read are exactly those expected, however they arrive |
| UpdateHelper.Updater.CopyFile | src-tauri/src/portable_update/helper.rs:119-123 | only the target changes on the way; success means it is complete, failure may leave it truncated |
| UpdateHelper.Updater.Retry | src-tauri/src/portable_update/helper.rs:101-114 | retrying has the effect of one successful attempt; a possible operation is given up only after the deadline or after all attempts have failed |
| UpdateHelper.Updater.RollbackExecutable | src-tauri/src/portable_update/helper.rs:136-139 | the old program stays complete in every state and ends at the target, or at the backup on failure |
| UpdateHelper.Updater.ReplaceExecutable | src-tauri/src/portable_update/helper.rs:116-133 | in every state the old program is complete at the target or at the backup; the result says where it ended and whether the new one is installed; a possible replacement is given up only if some operation failed until the deadline or in all attempts |
| UpdateHelper.Updater.WaitForAck | src-tauri/src/portable_update/helper.rs:196-210 | reports an acknowledgement only if there is one, and gives up only if none could be seen and the program has ended or time is up; touches nothing but what the program itself writes |
| UpdateHelper.Updater.StartReplaced | src-tauri/src/portable_update/helper.rs:229-255 | a program that never acknowledges is not kept, one that does at once is; until an acknowledgement is seen the old program is kept; without one it ends at the target, or at the backup after an operation failed persistently; then success is returned iff the launch succeeded and the backup is back in place |
| UpdateHelper.Updater.RunHelper | src-tauri/src/portable_update/helper.rs:213-255 | from the first step until the acknowledgement is there and seen the old program is complete at one of two places; acknowledged runs return Ok with the new program installed; if the program never acknowledges the run ends with the old one |
| UpdateHelper.UpdatePathsApart | src-tauri/src/portable_update/helper.rs:34-52 | the derived names never collide, as the run requires |
| EventStream.LineEnd | crates/relay-core/src/protocol/sse.rs:56-67 | finds the first line terminator and its end, CR LF counting as one |
| EventStream.EventEndFrom | crates/relay-core/src/protocol/sse.rs:10-22 | from any offset, the end of the first empty line at or after it |
| EventStream.EventIsLines | crates/relay-core/src/protocol/sse.rs:31-41 | split into lines, an event is the lines with text up to the first empty one, that one included, and an incomplete tail has no empty line |
| EventStream.ResumedScan | crates/relay-core/src/protocol/sse.rs:8-10 | a scan that found nothing may be resumed at its last byte once more bytes have come |
| EventStream.EventsPartition | crates/relay-core/src/protocol/sse.rs:3-22 | the events and the incomplete tail make up the stream |
| EventStream.ChunkingIndependent | crates/relay-core/src/transport.rs:153-168 | events cut as chunks arrive are those of the whole stream, but for late line feeds; the tail is the same |
| EventStream.SameEventsIff | crates/relay-core/src/transport.rs:153-168 | the events cut as chunks arrive are those of the whole stream iff no chunk begins with the line feed of an event that has just ended in a carriage return |
| EventStream.EachCutAddsAnEvent | crates/relay-core/src/transport.rs:153-168 | each such chunk adds exactly one event |
| EventStream.LateLineFeedIsAnEvent | crates/relay-core/src/protocol/sse.rs:64-66 | the exception is real: CR and LF in two chunks make two events |
| EventStream.StopIndependent | crates/relay-core/src/transport.rs:156-167 | whether some event is terminal does not depend on the chunks, for tests that ignore such line feeds or streams without one |
| SseTransport.SseProgress.Observe | crates/relay-core/src/transport.rs:61-78 | the two flags follow the automaton that the lemmas below explain |
| SseTransport.ObserveAppends | crates/relay-core/src/transport.rs:61-78 | observing two chunks reports and leaves what observing them joined does |
| SseTransport.StateMeans | crates/relay-core/src/transport.rs:55-73 | the flags say whether the last line has begun and whether it begins with a colon |
| SseTransport.CountsIsVisible | crates/relay-core/src/transport.rs:66-74 | a byte counts iff it is not white space and its line does not begin with a colon |
| SseTransport.ChunksProgress | crates/relay-core/src/transport.rs:61-78 | for any chunking some chunk reports progress iff the whole stream has such a byte |
| BodyCollector.Collect | crates/relay-core/src/transport.rs:91-176 | the outcome is explained by the first arrival that decides it: idle time over budget, the end, an error, the first terminal event within the limit, or the limit |
| BodyCollector.KeepsPrefix | crates/relay-core/src/transport.rs:135-152 | what is retained is always a prefix of the stream of at most max_bytes |
| BodyCollector.AllowanceTold | crates/relay-core/src/transport.rs:108-150 | what remains of the budget expires exactly when the wait since the last progress exceeds it |
| BodyCollector.EarlyEndsWithStop | crates/relay-core/src/transport.rs:156-167 | an early result consists of complete events of which exactly the last is terminal |
| BodyCollector.CollectedIff | crates/relay-core/src/transport.rs:108-175 | for every budget, limit and test: Ok iff a terminal event lies within the limit in the chunks that arrive in time, or the whole body does |
| BodyCollector.FailureMeans | crates/relay-core/src/transport.rs:112-175 | a failure tells a late arrival from the limit and a broken stream, and keeps all that came in time up to the limit |
| BodyCollector.CollectedByBytes | crates/relay-core/src/transport.rs:108-175 | and then the chunks do not matter, only the bytes that arrive in time, under the condition of StopIndependent |
| Languages.ResolveLanguage | src/src/i18n/registry.ts:28-42 | the loop that drops subtags computes the resolution that the lemmas below describe |
| Languages.ResolveMeans | src/src/i18n/registry.ts:28-42 | the longest beginning of the canonical code that consists of whole subtags and is the code or an alias of a locale decides, by the first such locale; if there is none, English |
| Languages.ResolveTwice | src/src/i18n/registry.ts:48-56 | resolving a resolved language again gives it back if its code is canonical and its locale the first to answer to it |
| Languages.ChainMeans | src/src/i18n/registry.ts:48-58 | for every registry, cyclic or not, the chain is finite, duplicate-free, begins with the language, contains English, is closed under fallbacks and is the least such set |
| Languages.ChainIsUnique | src/src/i18n/registry.ts:48-58 | the order is depth first: each next code is the first missing fallback of the latest code that misses one, or English when none is missing; only one list is |
| Languages.FallbacksMean | src/src/i18n/registry.ts:53 | a code has the fallbacks of the first locale with it |
| Languages.ChainBuilder.Add | src/src/i18n/registry.ts:50-54 | the recursive visits push exactly the specified chain |
| LanguageController.RetainMeans | src/src/i18n/controller.ts:45-50 | after an installation everything required is retained, and of the rest exactly the most recently used codes that fill max(4, chain length) |
| LanguageController.Touch | src/src/i18n/controller.ts:45 | deleting and adding again moves the required codes to the end and keeps the order of the rest |
| LanguageController.Evict | src/src/i18n/controller.ts:46-50 | the loop drops the least recently used codes, never a required one, until the limit holds |
| LanguageController.Install | src/src/i18n/controller.ts:44-50 | the store holds exactly the retained bundles afterwards |
| LanguageController.Controller.Change | src/src/i18n/controller.ts:14-42 | a call resolves its value, resolves again for the chain, and loads exactly what is neither installed nor under way, so one load per language is pending at a time |
| LanguageController.Controller.LoadSettles | src/src/i18n/controller.ts:20-23 | of the calls that waited for the load, a success takes it off what they wait for and a failure rejects them; other calls are as before; no call ever waits for a load that is not under way, and what a call neither waits for has been loaded |
| LanguageController.Controller.Resume | src/src/i18n/controller.ts:41-50 | only the newest call installs, and only bundles of which a load has succeeded; installed and retained bundles agree, hold the whole chain and keep the limit |
| LanguageController.Controller.Applied | src/src/i18n/controller.ts:51-56 | only the newest call reports a change and stores its language |
| AccountRoutes.SameOwnerSymmetric | crates/relay-core/src/accounts/routes.rs:46-62 | having the same owner is symmetric |
| AccountRoutes.SameOwnerIff | crates/relay-core/src/accounts/routes.rs:46-62 | two kinds have one owner by workspace and user, or by mail address, letter case and outer white space aside, if one is an e-mail sign-in |
| AccountRoutes.SameOwnerNotTransitive | crates/relay-core/src/accounts/routes.rs:46-62 | it is not transitive, even between three kinds |
| AccountRoutes.ValidateConnection | crates/relay-core/src/accounts/routes.rs:65-80 | accepts iff every connection has the candidate's owner, else reports why for the first that has not |
| AccountRoutes.ValidateGroups | crates/relay-core/src/accounts/routes.rs:82-102 | accepts iff groups are disjoint, of two or three distinct non-empty ids, with selected and notes ids inside |
| AccountRoutes.AkinBound | crates/relay-core/src/accounts/routes.rs:46-49 | connections pairwise of one owner are of different kinds, so at most three |
| AccountRoutes.SelectRecords | src-tauri/src/local_pool/commands/account_routes.rs:196-225 | the chosen group replaces the old one if the groups stay valid, or nothing is returned; the lemma below says which group |
| AccountRoutes.SelectMeans | crates/relay-core/src/accounts/routes.rs:105-136 | selecting succeeds iff the account is selected in the group that holds the route, and makes the route the selected one, ids and notes unchanged |
| AccountRoutes.SelectKeeps | crates/relay-core/src/accounts/routes.rs:105-136 | selecting another member keeps groups sound and their members the same |
| AccountRoutes.JoinedSound | crates/relay-core/src/accounts/routes.rs:124-135 | attaching a checked connection keeps groups sound |
| AccountRoutes.JoinedMembers | crates/relay-core/src/accounts/routes.rs:119-135 | attaching adds the connection, and the account if it had no group, to the grouped ids |
| AccountRoutes.JoinedMeans | crates/relay-core/src/accounts/routes.rs:119-135 | the connection becomes the last and selected one of the group, or of a new pair, with the notes kept or placed |
| AccountRoutes.ChecksAccept | src-tauri/src/local_pool/commands/account_routes.rs:272-295 | the checks made in turn accept exactly the connections that may join; the final validation never rejects one that passed the owner check |
| AccountRoutes.DetachedSound | crates/relay-core/src/accounts/routes.rs:138-160 | detaching keeps groups sound |
| AccountRoutes.DetachedMembers | crates/relay-core/src/accounts/routes.rs:153-158 | detaching takes away the connection and, from a pair, the other member, and no other id |
| AccountRoutes.DetachedMeans | crates/relay-core/src/accounts/routes.rs:153-158 | the connection goes, and with it the notes it had, or the whole pair; nothing else changes |
| AccountRoutes.RunSound | crates/relay-core/src/accounts/routes.rs:82-160 | every sequence of attach, select and detach keeps groups disjoint, proper and each of one owner |
| AccountRoutes.ThreeAttach | src-tauri/src/local_pool/commands/account_routes.rs:248-323 | from no groups two attachments make a sound group of three, which no connection can join |
| AccountRoutes.RouteBook.AttachRoute | src-tauri/src/local_pool/commands/account_routes.rs:248-323 | attaches iff the accounts are admitted and the connection may join; then it is the last and selected one of the group or of a new pair, the notes are kept or given, and the other groups are as before; otherwise nothing changes |
| AccountRoutes.RouteBook.SelectRoute | src-tauri/src/local_pool/commands/account_routes.rs:248-323 | selects iff the accounts are admitted, the account is selected and the route is in its group; then only the selected route of that group changes, otherwise nothing, and the error says why |
| AccountRoutes.RouteBook.DetachRoute | crates/relay-core/src/accounts/routes.rs:138-160 | succeeds iff a group with that selected account holds the connection and it is not selected itself; then the connection and its notes go, or the pair, and nothing else changes; the error says why not |
| Processes.DescendantPids | src-tauri/src/diagnostics/memory.rs:29-51 | ends for every table and selects exactly the processes reachable from the root by web-view edges |
| Processes.LeastClosed | src-tauri/src/diagnostics/memory.rs:40-50 | those processes are the least set that holds the root and is closed under the edges |

## Left out

Foreign code and environment:

- SHA-256 and the JSON form of manifests are parameters (`Codec`), assumed to give 64 hexadecimal digits and to parse what they print (`Lawful`); UUID generation is the assumption that a generation is fresh.
- The process-wide keyring lock, log output, sleeping between attempts and the texts of error messages.
- Creating directories, file permissions, durability and power loss; renaming is atomic.
- Launching, killing and relaunching programs; the started program may only acknowledge, end or remove the helper file, and a relaunched program is not followed.
- Parsing the answer texts and content types as JSON or MIME: the parsed answer and whether the body is an event stream are inputs.
- Time is a count of operations or a wait per chunk; the time spent handling a chunk is not counted.
- `Intl` locale canonicalisation and formatting, and the regular expressions of `parseCalendarInput` before its final check.

Parts of the modelled files:

- KeyStorageSessions.SessionRepresentsMap: the keyring at the start is orderly, as the empty one is; users named like a fragment of a generation that the session uses are excluded, since such names would collide. A short secret that spells itself, as in `SavingAgainLoses`, would have to contain its own SHA-256 digest; the session counts it as not accepted.
- KeyringProtocol.Keyring.LoadNamedSecret: that the reading stays the same on the way is stated for secrets that read back as themselves and if no restore is refused, as for the save it makes.
- PreviewTabs.TabsConverge: tabs beyond the largest safe integer are left aside, where it fails; `TabsConvergeIff` covers all runs. Message shape checks are left out because every tab sends well-formed states.
- PreviewTabs.PairNamesSettings: pairs beyond the largest safe integer are left aside, where it fails.
- EnvironmentRewriter.RewriteTwice: zone names without `<`, as all IANA names are; the walk over the JSON body that calls the rewriter is not modelled.
- PathSolver.SolvePaths: at most 31 moves in all, the width of the bit counter.
- CalendarText.DayMovesCompose: results in the years 1 to 9999, the range of the four-digit form; clipping of dates beyond 275760 is not modelled. MonthMovePrints and MovedIsAccepted share the range.
- CalendarText.GridCoversMonth: the grid is a function from the cell index to its text.
- AtomicWrites.RunsAreAtomic: staging names differ from destinations and are exclusive by creation, not by randomness; a rename replaces an existing destination.
- UpdateHelper.Updater.RunHelper: the acknowledgement is not the target, the backup or the helper, nor the helper the backup, as the derived names guarantee; deadlines are bounds on attempts with an oracle that may end them earlier.
- UpdateHelper.UpdatePathsApart: programs whose name ends in `.exe`; an acknowledgement file of another process is not followed.
- EventStream.StopIndependent: a test that reacts to a lone line feed or to a final one after a carriage return is covered only if no chunk begins with such a line feed; `event_data` and the frame consumers are not modelled.
- BodyCollector.CollectedByBytes: the same condition; CollectedIff and Collect cover every test.
- LanguageController.Controller.Change: which bundle contents are installed, `initialize` and the order in which the instance switches over are not modelled.
- AccountRoutes.SelectRecords: the group list only; account settings and `retarget_pool_routing` are left out.
- AccountRoutes.RouteBook.AttachRoute, SelectRoute: what is checked of the accounts themselves (known, not in recovery, in the pool, no request under way) is one input, `admitted`; roll-back after a failed restart is left out.
- AccountRoutes.RunSound: what a grant says about a connection does not change in the run.
- ModelOrder.MergeModelDisplayOrder: catalog entries carry the key that the code recomputes from the identifier; `NormalizeIdentified` shows that the two agree.
- QualityProbes.ChallengeFromSeed: the prompt text, its hash and drawing distinct random seeds are left out.
- `reasoning_policy_key`, model families, identifier validators and bounded lists in `order.rs`: independent one-line facts.
- `read_bounded`, the removal helpers and TOML or JSON quoting in the file modules: single-function facts that add little.
- Scheduling, pricing, gateway routing, protocol adapters, wake automation and the user interface.
