# clio-relay bootstrap transactions in Dafny

clio-relay moves a cluster host from one installed *generation* to the next: it prepares a
generation directory, publishes five stable links (`current`, the install receipt, two
launchers, the managed JARVIS repository), registers repositories in `repos.yaml`, and keeps a
journal so that a later invocation can finish or discard what a crash interrupted. Power may be
lost before any instruction. This project models that machinery and proves what it is for.

Conventions of the model:

- A pathname holds an object with its device, inode, mode, size, times and content. SHA-256 is
  injective, so identities carry the content. YAML is a document plus the way it is written
  down; dumping yields the canonical form, and file sizes follow from the bytes.
- Each protocol exists twice. A small-step machine gives every observing or durable instruction
  its own state; a crash keeps the durable part and restarts the call. Theorems quantify over
  every schedule of instructions and crashes. Beside it stands the program in its own form:
  classes and methods that update pathnames, journals, trees and buffers in place, proved
  equal to the machine. Recursive deletion, the scratch root and the promotion carry a `power`
  budget instead: each durable step costs one unit, power loss is what happens at zero, and
  the contracts say both what any budget leaves behind and which budget is enough.
- System calls are atomic durable steps. Kernel choices (inodes, times) are arbitrary at every
  instruction, keyed by the instruction's rank; a new object gets an inode that neither
  pathname of its pair already holds.
- A plan is *captured*: each link's snapshot was taken under the contract of its slot and the
  generation directory is complete. What planning knows of `repos.yaml` is that it could be read
  and inspected, not that it converges.
- The `repos.yaml` protocol is proved for any transformation that is a fixpoint operator;
  `HostIsLawful` says that the repository transformation is one, and `ManagedRepositoryPayload`
  is the program that computes it.

Layout: `Objects`, `Identifiers`, `Ordering`, `PosixPaths` (vocabulary); `LinkExchange`,
`ForeignWriter`, `LinkPublication`, `FiveLinks`, `BindingRepair` (stable links); `Repositories`,
`RepositoryExchange`, `RepositoryPublication`, `ForeignRepository`, `RepositoryEvidence`
(`repos.yaml`); `Journals`, `JournalStore`, `OwnedPaths`; `Driver`, `DriverHistory`,
`ReplacementScript` (the whole transaction); `Premises` (what the theorems over schedules
assume); `Tree`, `Discarding`, `ScratchRoot` (deletion); `VenvPromotion`; `Elf`, `ElfAbi`;
`Planning`, `ExactReuse`.

## Findings

Properties that turn out to be false of the code, each with the exact condition under which
the code does meet them:

- Planning does not check that `repos.yaml` converges. A file that registers a superseded path
  twice (`SomeTransactionNeverFinishes`), or whose converged form exceeds the 4 MiB read bound
  (`SomeRewriteIsOversized`), passes planning; the driver then journals `activating`, publishes
  the five links and is refused on this run and on every recovery. Together with a torn exchange
  file these are the only things that stop it (`OnlyRepositoriesStopTheDriver`), and an
  invocation ends its transaction if and only if none of them applies (`InvocationEndsIff`,
  `CompletableIff`).
- When the converged `repos.yaml` exceeds the read bound, a call that finds the file untouched
  installs the new bytes, deletes the original and then fails; that is the only way to lose it
  (`OversizedRewriteLosesTheOriginalIff`).
- A torn exchange file of `repos.yaml` is refused forever, with the original untouched
  (`TornIsRefused`).
- Another writer's `repos.yaml` is swapped back unless the call cannot read what it installed
  (`ForeignFileIsLiveAtTheEndIff`). If power is lost while it is displaced, recovery deletes it
  exactly when it converges to the live file (`RecoveryDeletesForeignFileIff`).
- The binding repair captures its snapshot again on every run. A run completes if and only if no
  earlier crash fell between a swap and the unlink that follows it (`RepairCompletesIff`), and
  such crashes are possible whenever there was a link to displace (`SomeCrashIsRefused`). The
  comment at `src/clio_relay/bootstrap_reconcile_script_recovery.py:516-518` calls the operation
  idempotent.
- A snapshot taken under the plain `file` contract cannot be recovered after the swap, because
  the rerun cannot capture the link it published (`SwappedCrashIsRecoveredIff`). No caller uses
  that contract for an existing path.
- A generation that an earlier, discarded transaction prepared is reused with its manifest. A
  link that has changed since then is refused on every rerun, past the boundary
  (`StaleManifestIsRefusedForever`), and no other link is (`CurrentManifestIsAccepted`).
- The receipt validator recognizes a removed registration only below the home as it is written
  down, on one line, in the POSIX layout (`RecordIsAcceptedIff`). It therefore rejects the
  `Lib/site-packages` layout that the reconciler removes (`WindowsLayoutIsRefused`), every
  builtin directory when home is `/` (`RecognizableAtHomeIff`), and every removal when home is
  reached through a symbolic link (`AliasedHomeIsNeverRecognized`).
- Creating an owned path, checking its kind and recording its identity are separate steps. A
  wrong kind, or a power loss in between, leaves an entry that no later discard accepts
  (`CreateAndRecordOwnedPath`).
- The reuse gate refuses an exact no-op when no worker service is desired, since the endpoint is
  then not observed as active and enabled (`ExactNoopChain`).

## Model

| member | source | states |
|---|---|---|
| `LinkExchange.PublicationIsCrashConvergent` | src/clio_relay/bootstrap_reconcile_activation_paths.py:302-469 | Under every schedule of crashes with one snapshot: a present path is never absent, it is the snapshot object or the desired link, no reachable state is refused, and a completed call leaves the desired link and no exchange name |
| `LinkExchange.InterruptedPublicationCompletes` | src/clio_relay/bootstrap_reconcile_activation_paths.py:319-363 | After any crash schedule, one call left alone for fifteen instructions publishes the link |
| `Premises.LinkScheduleIff` | src/clio_relay/bootstrap_reconcile_activation_paths.py:302-469 | The schedules quantified over: each move is one instruction with a new inode, or a crash that keeps the two pathnames and nothing else |
| `Premises.RecoverableIff` | src/clio_relay/bootstrap_reconcile_activation_paths.py:73-138 | The requests that crash convergence covers, by target, kind, body and size |
| `LinkExchange.CallPublishesIff` | src/clio_relay/bootstrap_reconcile_activation_paths.py:302-469 | For every pair of pathnames whatsoever: a call publishes exactly from the accepted states, and otherwise refuses with the live path untouched |
| `LinkExchange.SnapshotIsPublishedIff` | src/clio_relay/bootstrap_reconcile_activation_paths.py:73-138 | By the body, kind and size of the object found: an uninterrupted call publishes over an absent path (created), a one-line link unless files are demanded, a regular file of 1 byte to 4 MiB unless links are demanded (retargeted), reuses the desired link, and refuses anything else untouched |
| `LinkExchange.DanglingTargetIsRefused` | src/clio_relay/bootstrap_reconcile_activation_paths.py:56-70 | A target that does not resolve is never reported as published, whatever stands at the two names |
| `LinkExchange.DoneWasVerified` | src/clio_relay/bootstrap_reconcile_activation_paths.py:344-363 | A call ends only over a link that names the target and resolves; recovery unlinks the displaced object exactly when the live link leads where the target leads |
| `LinkExchange.SwappedCrashIsRecoveredIff` | src/clio_relay/bootstrap_reconcile_activation_paths.py:319-363 | A crash after the swap is recovered if and only if the snapshot's contract admits links |
| `BindingRepair.RepairCompletesIff` | src/clio_relay/bootstrap_reconcile_repository.py:372-415 | Over every schedule of the repair, whose crashes re-capture the snapshot: a run just started completes if and only if no crash so far fell between a swap and its unlink; otherwise it is refused and keeps both objects |
| `BindingRepair.OnlyExposedCrashesRefuse` | src/clio_relay/bootstrap_reconcile_repository.py:372-415 | No run of the repair is refused for any other reason |
| `BindingRepair.SomeCrashIsRefused` | src/clio_relay/bootstrap_reconcile_script_recovery.py:516-519 | Whenever a link had to be displaced, some schedule ends refused |
| `BindingRepair.RepairBeginsIff` | src/clio_relay/bootstrap_reconcile_repository.py:372-415 | The repair takes an absent path or a one-line link for its snapshot, and refuses anything else |
| `ForeignWriter.ForeignObjectIsNeverDeleted` | src/clio_relay/bootstrap_reconcile_activation_paths.py:373-466 | One foreign replacement at any instant of any crash schedule: that object is always at the path or at the exchange name |
| `ForeignWriter.ForeignObjectIsLiveAtTheEnd` | src/clio_relay/bootstrap_reconcile_activation_paths.py:373-466 | If the struck call is not interrupted, the foreign object is at the path when it ends |
| `ForeignWriter.RaceBeforeTheSwapIsUndone` | src/clio_relay/bootstrap_reconcile_activation_paths.py:407-441 | A replacement between the last check and the swap is swapped back and reported, and only it remains |
| `Premises.LinkIntruderIff` | src/clio_relay/bootstrap_reconcile_activation_paths.py:407-441 | The foreign replacements covered: any object of another inode that is not the snapshot itself; and what it means to be at a name |
| `LinkPublication.Pathnames.Reconcile` | src/clio_relay/bootstrap_reconcile_activation_paths.py:302-469 | The in-place program, amid foreign writes before any instruction and kernel choices of its own at each, ends as the machine does; alone, it publishes exactly from the accepted states |
| `LinkPublication.Pathnames.VerifyExchange` | src/clio_relay/bootstrap_reconcile_activation_paths.py:411-461 | After the exchange: verify the displaced object, then unlink it or hand over to the restoration, as the machine does |
| `LinkPublication.Pathnames.RecoverExchange` | src/clio_relay/bootstrap_reconcile_activation_paths.py:319-363 | Decide from the two pathnames alone where an earlier call died |
| `FiveLinks.ActivationIsCrashConvergent` | src/clio_relay/bootstrap_reconcile_activation_paths.py:472-531 | Over every crash schedule of the five publications: no refusal, each link is its snapshot or its target, and completion means all five published |
| `FiveLinks.CapturedIff` | src/clio_relay/bootstrap_reconcile_activation_paths.py:195-286 | The plans these theorems cover, field by field: one-line targets, an installed generation, and snapshots that are absent, one-line links, or, for the receipt and the launchers, regular files within the bound |
| `FiveLinks.DanglingCurrentIsRefused` | src/clio_relay/bootstrap_reconcile_activation_paths.py:472-531 | The other four links are published only while `current` leads to an installed generation |
| `Premises.ActivationScheduleIff` | src/clio_relay/bootstrap_reconcile_activation_paths.py:472-531 | The schedules of the five publications: a crash keeps all ten pathnames and starts over with the first link |
| `FiveLinks.ActivationCompletes` | src/clio_relay/bootstrap_reconcile_activation_paths.py:472-531 | Left alone for eighty instructions, all five links are published |
| `FiveLinks.OneGenerationAtEveryInstant` | src/clio_relay/bootstrap_reconcile_activation_paths.py:472-531 | On a host already on generations the other four links lead into one and the same generation at every instant, the old one or the new one |
| `FiveLinks.ReconcileLinks` | src/clio_relay/bootstrap_reconcile_activation_paths.py:472-531 | The loop over the five names: published up to the first refusal, later links untouched; it completes if and only if every link is in an accepted state, as every crash state is |
| `FiveLinks.StaleManifestIsRefusedForever` | src/clio_relay/bootstrap_reconcile_script_generation_prepare.py:389-390 | A link that is neither its recorded snapshot nor desired is never passed and never touched, whatever the schedule |
| `FiveLinks.CurrentManifestIsAccepted` | src/clio_relay/bootstrap_reconcile_activation_paths.py:472-531 | From names without exchange files, all links are accepted if and only if none is stale |
| `Repositories.ConvergeIsFixpoint` | src/clio_relay/bootstrap_reconcile_repository.py:47-145 | f(f(x)) = f(x), defined whenever f(x) is, reporting nothing the second time |
| `Repositories.UpdatedIsExact` | src/clio_relay/bootstrap_reconcile_repository.py:88-145 | A rewrite puts the managed repository first, registers the builtin slot once, leaves no previous path and keeps operator entries in order with multiplicity |
| `Repositories.SlotKeepsItsPlace` | src/clio_relay/bootstrap_reconcile_repository.py:109-132 | The builtin slot stands after exactly as many operator entries as its anchor did, at the end without an anchor |
| `Repositories.SlotIsPlacedByEntry` | src/clio_relay/bootstrap_reconcile_repository.py:109-131 | By list positions: the slot stands after the operator entries before the first builtin alias, else before the first previous builtin, else after all of them |
| `Repositories.OperatorsByEntry` | src/clio_relay/bootstrap_reconcile_repository.py:117-128 | By list positions: the operator entries are exactly those that are no alias of a relay-owned path, in order |
| `Repositories.RemovedIsExact` | src/clio_relay/bootstrap_reconcile_repository.py:76-86 | The reported removals are exactly the registered previous paths, increasing and without repetition |
| `Ordering.LessIff` | src/clio_relay/bootstrap_reconcile_repository.py:86-86 | The order of the reported removals: the first differing character decides, and a proper prefix comes first |
| `Repositories.ChangeIsReported` | src/clio_relay/bootstrap_reconcile_repository.py:86-145 | Bytes that change always carry an addition or a removal |
| `Repositories.ConvergesIff` | src/clio_relay/bootstrap_reconcile_repository.py:47-85 | By list positions: the transformation is defined exactly on lists of non-empty strings in which no two entries name the same relay-owned path |
| `Repositories.ConvergeIsSpelledOut` | src/clio_relay/bootstrap_reconcile_repository.py:86-145 | A list with the exact relay-owned paths and no previous one is returned as it is; any other is rewritten, reporting the managed path and the slot exactly where they did not stand, and nothing else of the document changes |
| `Repositories.ManagedRepositoryPayload` | src/clio_relay/bootstrap_reconcile_repository.py:47-145 | The list-building program computes the transformation, and fails exactly where it is undefined |
| `RepositoryExchange.HostIsLawful` | src/clio_relay/bootstrap_reconcile_repository.py:47-145 | The repository transformation is a fixpoint operator that writes no empty file |
| `Premises.RepositoryScheduleIff` | src/clio_relay/bootstrap_reconcile_repository.py:215-347 | The schedules quantified over: a crash keeps both pathnames, except that one during the write may leave any bytes |
| `RepositoryExchange.ReconciliationIsCrashSafe` | src/clio_relay/bootstrap_reconcile_repository.py:215-347 | Over every crash schedule, torn writes included, of every readable file: the path holds the original or f(original); completion installs f(original), and the record's bytes after are those at the path, before are the original's, additions and removals are those of f, all exactly when it says updated; refusal means that f(original) is undefined, torn or too long |
| `Premises.BlockedIff` | src/clio_relay/bootstrap_reconcile_repository.py:229-331 | The three reasons of a refusal, over the bytes at the two names |
| `RepositoryExchange.CallCompletesIff` | src/clio_relay/bootstrap_reconcile_repository.py:229-347 | From every crash point a call completes if and only if f(original) is defined, within the read bound and no exchange file is torn; it then leaves no exchange file, and before the unlink returns the record of an uncrashed call, given field by field |
| `RepositoryExchange.TornIsNotDisplaced` | src/clio_relay/bootstrap_reconcile_repository.py:243-244 | By the fixpoint law, a torn file is never mistaken for the displaced original |
| `RepositoryExchange.TornIsRefused` | src/clio_relay/bootstrap_reconcile_repository.py:254-261 | A torn exchange file is refused and nothing is touched |
| `RepositoryExchange.OversizedRewriteLosesTheOriginalIff` | src/clio_relay/bootstrap_reconcile_repository.py:312-331 | From every crash point that has the original, a call is refused with the original deleted if and only if f(original) is too long and the file was untouched |
| `RepositoryExchange.SomeRewriteIsOversized` | src/clio_relay/bootstrap_reconcile_repository.py:312-331 | A file just under the bound that the managed entry pushes over it |
| `RepositoryExchange.CompletableIff` | src/clio_relay/bootstrap_reconcile_execution_identity.py:226-254 | An inspected file can be finished if and only if no previous path is registered twice and the converged form is within the bound |
| `ForeignRepository.ForeignFileIsLiveAtTheEndIff` | src/clio_relay/bootstrap_reconcile_repository.py:273-340 | One foreign replacement at any instant after the read: the writer's file is at the path at the end if and only if the call does not go on to install bytes it cannot read; it is never deleted |
| `ForeignRepository.RecoveryDeletesForeignFileIff` | src/clio_relay/bootstrap_reconcile_repository.py:229-261 | After a crash with a foreign file displaced, the next call deletes it if and only if it reads both files and the live one is what the foreign one converges to |
| `Premises.RepositoryIntruderIff` | src/clio_relay/bootstrap_reconcile_repository.py:273-340 | The foreign files covered: any file of an inode that is neither the original's nor at a pathname |
| `RepositoryPublication.RepositoryFiles.Reconcile` | src/clio_relay/bootstrap_reconcile_repository.py:215-347 | The in-place program, amid foreign writes and with kernel choices of its own at each instruction, ends as the machine does; alone after any crash it completes exactly when f(original) can be finished and nothing is torn, with a record whose fields are the bytes before and after and what f reports |
| `RepositoryEvidence.BuildContext` | src/clio_relay/bootstrap_reconcile_repository.py:175-208 | The alias families of a call are disjoint and exactly those of its paths; a wrong basename, a wrong slot or an unresolvable parent of either is an error, while an unresolvable previous path stands for itself |
| `RepositoryEvidence.StagedContext` | src/clio_relay/bootstrap_reconcile_generation_staging.py:281-299 | A staged activation calls with a context over its home, or fails exactly when a parent cannot be resolved |
| `RepositoryEvidence.RecognizerIsExact` | src/clio_relay/bootstrap_receipt_validation.py:613-651 | The validator's text recognizer accepts exactly the one-line POSIX builtin paths of relay-owned environments below a home other than the root |
| `RepositoryEvidence.RecordIsAcceptedIff` | src/clio_relay/bootstrap_receipt_validation.py:507-534 | Wherever previous registrations resolve, a record any crash schedule can return is accepted if and only if home is one line and each removed registration resolves to a path the validator recognizes below it |
| `RepositoryEvidence.ValidatedIff` | src/clio_relay/bootstrap_receipt_validation.py:507-611 | The validator on any record whatsoever: no change reported and none made, or different bytes with the managed path, the slot, both in this order or neither added, and strictly increasing recognizable removals, not both lists empty |
| `RepositoryEvidence.PythonLibraryIff` | src/clio_relay/bootstrap_receipt_validation.py:646-651 | A version directory is `python`, digits, a dot and digits |
| `RepositoryEvidence.PosixBuiltinIff` | src/clio_relay/bootstrap_receipt_validation.py:613-651 | The builtin paths recognized, component by component: environment, library directory, version and name |
| `RepositoryEvidence.PathsAreSpelled` | src/clio_relay/bootstrap_receipt_validation.py:490-500 | The relay-owned paths below home, component by component |
| `RepositoryEvidence.RecognizableAtHomeIff` | src/clio_relay/bootstrap_receipt_validation.py:613-643 | Below a home that is its own canonical form the validator misses exactly the Windows layout, and every builtin when home is the root |
| `RepositoryEvidence.AliasedHomeIsNeverRecognized` | src/clio_relay/bootstrap_reconcile_repository.py:199-205 | Below a home reached through a symbolic link no removed registration is recognized |
| `RepositoryEvidence.WindowsLayoutIsRefused` | src/clio_relay/bootstrap_reconcile_builtin_repos.py:102-137 | A concrete builtin the reconciler proves and the validator refuses |
| `PosixPaths.SplitAfterText` | src/clio_relay/bootstrap_receipt_validation.py:617-625 | A normal path is recovered from its text |
| `Journals.JournalsAreBisimilar` | src/clio_relay/bootstrap_reconcile_transaction.py:218-291 | Both programs let exactly the same event sequences survive; in full mode the journals are equal, otherwise they differ in the flag alone, exactly while activating or activated, where one says rollback and the other forward |
| `Premises.LoadsIff` | src/clio_relay/bootstrap_journal.py:504-576 | When a journal on disk loads, by its fields, and how much less the packaged program asks |
| `Premises.NewJournalLoadsIff` | src/clio_relay/bootstrap_journal.py:68-120 | The journals that histories start from, for any mode and owned paths, and exactly when they load |
| `Premises.SharedIff` | src/clio_relay/bootstrap_reconcile_transaction.py:218-232 | The events both programs perform: advances to a digest, and phases under a bounded name |
| `Journals.CommittedPassedEveryMilestone` | src/clio_relay/bootstrap_journal.py:35-61 | Every history that reaches committed passed prepared, activating, activated, migration_started, migrated, service_verified in that order |
| `Journals.AdvanceSurvivesIff` | src/clio_relay/bootstrap_journal.py:35-61 | The exact edges of every history, of either program, and the journal each leads to: the shortcuts of the table never survive, and the boundary is up by state, mode and program alone |
| `Journals.PhaseSurvivesIff` | src/clio_relay/bootstrap_journal.py:165-190 | In every history a phase is recorded exactly under a plain name, with a digest, once, while the journal is open |
| `Journals.OwnedSurvivesIff` | src/clio_relay/bootstrap_journal.py:193-244 | In every history an identity is bound exactly by the dependency-free program, to a declared path of its kind, once |
| `Journals.RecoverySurvivesIff` | src/clio_relay/bootstrap_journal.py:445-501 | In every history a discard survives exactly before migration in full mode, a completion exactly while the packaged journal is open; both name the state they found |
| `Journals.RecoveryIsByState` | src/clio_relay/bootstrap_journal.py:712-722 | The recovery every persisted journal asks for, by state, mode and program |
| `Journals.HistoryOnlyExtends` | src/clio_relay/bootstrap_journal.py:165-244 | The boundary never resets; phases and owned identities are write-once |
| `Journals.NoDiscardAfterMigration` | src/clio_relay/bootstrap_journal.py:445-451 | After migration_started is journaled nothing is discarded and recovery is forward until terminal |
| `Journals.PackagedNeverRollsBack` | src/clio_relay/bootstrap_reconcile_transaction.py:274-291 | No packaged history asks for a rollback |
| `JournalStore.JournalFile.AdvanceJournal` | src/clio_relay/bootstrap_journal.py:130-162 | Load, step, validate, write; a refused call leaves the file as it was |
| `JournalStore.JournalFile.RecordJournalPhase` | src/clio_relay/bootstrap_journal.py:165-190 | A phase is recorded once; a different identity is refused |
| `JournalStore.JournalFile.RecordOwnedPath` | src/clio_relay/bootstrap_journal.py:193-244 | An owned identity is recorded once; a different one is refused |
| `JournalStore.TransactionJournal.Advance` | src/clio_relay/bootstrap_reconcile_transaction.py:218-229 | The packaged advance changes the state and raises the boundary, without validating |
| `JournalStore.TransactionJournal.Complete` | src/clio_relay/bootstrap_reconcile_transaction.py:235-245 | Terminal recovery keeps the first interrupted boundary |
| `JournalStore.JournalAdvance` | src/clio_relay/bootstrap_reconcile_script_recovery.py:130-136 | Load, set the generation, advance, persist; the write survives exactly when it loads again |
| `JournalStore.RecoveryComplete` | src/clio_relay/bootstrap_reconcile_script_recovery.py:202-205 | Load, complete, persist; refused on a terminal journal |
| `Driver.MutationsAreWrittenAhead` | src/clio_relay/bootstrap_reconcile_script_activation.py:451-500 | Over whole driver runs with crashes anywhere, whether or not `repos.yaml` converges: whenever a link or `repos.yaml` differs from its captured value or an exchange name exists, the persisted journal says forward, or the transaction is terminal with everything desired |
| `Premises.DriverCrashIff` | src/clio_relay/bootstrap_reconcile_script_generation_prepare.py:115-150 | A crash of the driver keeps journal, links and `repos.yaml`, except the bytes of a torn write, and the next invocation starts from the journal |
| `Premises.PlannedIff` | src/clio_relay/bootstrap_reconcile_execution_identity.py:226-254 | The transactions covered: captured links, a readable `repos.yaml`, either replacement mode, proper identifiers |
| `Driver.DiscardLeavesTheHostAsCaptured` | src/clio_relay/bootstrap_reconcile_script_generation_prepare.py:140-150 | The journal always loads, never says rollback, and a discard leaves links and `repos.yaml` exactly as captured |
| `Driver.TerminalMeansDesired` | src/clio_relay/bootstrap_reconcile_script_commit.py:41-138 | Committed, or recovered past the boundary, means all five links and `repos.yaml` desired with no exchange name left |
| `DriverHistory.EveryStateIsPassed` | src/clio_relay/bootstrap_reconcile_script_activation.py:451-500 | Over whole driver runs with crashes anywhere: a journal that reached a state, or was recovered from it, passed every earlier state of the script at an earlier instant |
| `DriverHistory.MutationsAreFenced` | src/clio_relay/bootstrap_reconcile_script_activation.py:451-500 | Nothing on the host differs from what was captured unless the journal said fenced at an earlier instant, with the host still as captured |
| `DriverHistory.EveryCheckIsMade` | src/clio_relay/bootstrap_reconcile_script_generation_prepare.py:115-266 | On any disk whatsoever: where recovery dispatches to by state, evidence and boundary, and that link verification stops on any link that does not name its target |
| `Driver.OnlyRepositoriesStopTheDriver` | src/clio_relay/bootstrap_reconcile_script_generation_prepare.py:151-266 | No check of driver or recovery refuses a reachable state but the registration, for one of three reasons, with the journal saying forward |
| `Driver.SomeTransactionNeverFinishes` | src/clio_relay/bootstrap_reconcile_execution_identity.py:226-254 | A superseded path listed twice passes planning and cannot be finished |
| `Driver.SomeTransactionFinishes` | src/clio_relay/bootstrap_reconcile_execution_identity.py:226-254 | A planned transaction that changes links and `repos.yaml` and can be finished |
| `Driver.InvocationEndsIff` | src/clio_relay/bootstrap_reconcile_script_generation_prepare.py:115-266 | On whatever any crash schedule left, an uninterrupted invocation ends terminal within 130 instructions if and only if, where activation is ahead, no previous path is registered twice, the converged file is within the bound and nothing is torn |
| `ReplacementScript.FinishActivation` | src/clio_relay/bootstrap_reconcile_generation_staging.py:280-307 | From any crash state all five links are published, and it succeeds with everything desired if and only if the registration can be finished and nothing is torn |
| `ReplacementScript.Replace` | src/clio_relay/bootstrap_reconcile_script_activation.py:451-500 | On a host as captured the script commits with everything desired if and only if the registration can be finished, and otherwise stops at activating |
| `ReplacementScript.RecoverPreviousTransaction` | src/clio_relay/bootstrap_reconcile_script_generation_prepare.py:115-266 | On any disk a crash can leave, recovery reaches a terminal journal and the disk it promises if and only if the disk may be finished |
| `Tree.FileTree.RemoveEntry` | src/clio_relay/bootstrap_journal.py:1341-1399 | Recursive removal deletes only at or below its path, never a special entry, one entry per unit of power; with power for the subtree it succeeds if and only if nothing special is there |
| `Tree.ShrunkToTheRest` | src/clio_relay/bootstrap_journal.py:1358-1399 | When the roots are gone, what is left is exactly what was not at or below a root |
| `Discarding.SortIsDeepestFirst` | src/clio_relay/bootstrap_journal.py:453-457 | The processing order is a permutation, deepest first |
| `Discarding.ReadyIsKept` | src/clio_relay/bootstrap_journal.py:1182-1188 | Partial deletions never invalidate a recorded identity |
| `Discarding.NotReadyIsKept` | src/clio_relay/bootstrap_journal.py:1298-1321 | An item that cannot be discarded stays so while nothing shallower is touched |
| `Discarding.BoundaryIff` | src/clio_relay/bootstrap_journal.py:688-709 | Which paths may be discarded at all, by their components below home |
| `Discarding.VouchedIff` | src/clio_relay/bootstrap_journal.py:1182-1188 | What is vouched for, field by field: device, inode and type; for files and links also time, size and content; a directory may have changed |
| `Discarding.ReadyIff` | src/clio_relay/bootstrap_journal.py:1298-1338 | An owned path is ready exactly within the boundary, below directories only, and, if anything stands there, vouched for and without special entries |
| `Discarding.DiscardOwned` | src/clio_relay/bootstrap_journal.py:1298-1338 | With power for its subtree, one owned path is removed if and only if its identity, kind, topology and boundary hold; an entry that differs in device, inode or type, or, not being a directory, in time, size or content, is refused with the tree unchanged |
| `Discarding.DiscardAll` | src/clio_relay/bootstrap_journal.py:453-485 | Deletes only below vouched paths; a mismatch stops before anything shallower; with power for what it may delete it succeeds if and only if everything can be discarded, which never changes |
| `Discarding.DiscardAfterCrashes` | src/clio_relay/bootstrap_journal.py:445-501 | After any number of power losses, one call with enough power ends it, and success leaves the original tree minus the subtrees at owned paths |
| `Discarding.DiscardFullTransaction` | src/clio_relay/bootstrap_journal.py:445-501 | With enough power it succeeds if and only if the transaction is a reversible full one and everything can be discarded; the journal says recovered only when all owned paths are gone |
| `Discarding.RevocableIff` | src/clio_relay/bootstrap_journal.py:450-451 | The reversible full transactions are exactly the journals whose discard survives |
| `Discarding.CreateAndRecordOwnedPath` | src/clio_relay/bootstrap_journal.py:348-434 | The whole outcome by what is checked before creation, the power and the kind; unless it succeeds, the path is discardable exactly if nothing was created |
| `ScratchRoot.MovedAside` | src/clio_relay/bootstrap_preparing_root_source.py:101-113 | The quarantine rename moves the whole subtree and nothing else |
| `ScratchRoot.RunScratch` | src/clio_relay/bootstrap_preparing_root_source.py:94-121 | Prepare leaves an empty `active` and no quarantine, cleanup leaves neither, siblings keep their entries; with power for the two subtrees and two steps more it ends if and only if both names are removable |
| `ScratchRoot.PreparedIff` | src/clio_relay/bootstrap_preparing_root_source.py:98-118 | By the names themselves: preparing ends with an empty directory `active` as the only scratch entry, cleaning up with none |
| `ScratchRoot.OthersKeptIff` | src/clio_relay/bootstrap_preparing_root_source.py:94-121 | What it means that siblings keep their entries, field by field |
| `ScratchRoot.RunAfterCrashes` | src/clio_relay/bootstrap_preparing_root_source.py:94-121 | The same after any number of power losses, as soon as one call has enough power |
| `VenvPromotion.Environments.Promote` | src/clio_relay/bootstrap_jarvis_staging.py:93-121 | Refused exactly on the listed conditions; otherwise as many of the two steps as there is power for, completing exactly with power for all; the live name never returns to the old environment |
| `VenvPromotion.EachAtExactlyOneName` | src/clio_relay/bootstrap_jarvis_staging.py:93-121 | In every state the live name holds the whole old or new environment, and each of the two is at exactly one name |
| `VenvPromotion.Environments.PromoteAfterCrashes` | src/clio_relay/bootstrap_jarvis_staging.py:93-121 | Any sequence of interrupted calls only moves forward; with fresh retire names one call with power for two steps completes, with the old environment retired once |
| `Elf.ReadProgramTable` | src/clio_relay/bootstrap_candidate_uv_install_source.py:55-85 | Accepted exactly when every segment lies in the file and at most one is dynamic; returns the load segments in order |
| `Elf.ScanDynamic` | src/clio_relay/bootstrap_candidate_uv_install_source.py:91-103 | Needed offsets and the last string-table address and size before the null tag |
| `Elf.ResolveTable` | src/clio_relay/bootstrap_candidate_uv_install_source.py:106-121 | The table is located exactly when all segments holding its address agree and it ends in the file |
| `Elf.CollectRelocations` | src/clio_relay/bootstrap_candidate_uv_install_source.py:122-154 | Accepted exactly when every needed string is usable; relocations are exactly the needed origin dependencies, inside the table with their NUL |
| `Elf.OriginDependencyRelocations` | src/clio_relay/bootstrap_candidate_uv_install_source.py:50-154 | For any byte sequence: no read outside it, acceptance exactly characterised, relocations exactly the needed origin dependencies |
| `Elf.ProperAreApart` | src/clio_relay/bootstrap_candidate_uv_install_source.py:122-153 | Two relocation ranges are identical or disjoint, terminating NULs included |
| `Elf.Patch` | src/clio_relay/bootstrap_candidate_uv_install_source.py:235-241 | Same length, every range filled with its descriptor path and NULs, nothing else changed; fails exactly when a path does not fit |
| `Elf.PatchIsOrderIndependent` | src/clio_relay/bootstrap_candidate_uv_install_source.py:235-241 | The patched bytes do not depend on order or repetition |
| `Elf.PatchedStrings` | src/clio_relay/bootstrap_candidate_uv_install_source.py:235-241 | At each relocated offset stands a NUL-terminated string equal to its descriptor path |
| `Elf.RelocateProvider` | src/clio_relay/bootstrap_candidate_uv_install_source.py:196-241 | For every payload: success exactly when it is accepted and every descriptor path fits, relocations exactly the needed origin dependencies, the image patched there and nowhere else |
| `ElfAbi.HeaderReadsBack` | src/clio_relay/bootstrap_candidate_uv_install_source.py:55-57 | The parser finds the program table where an encoded ELF64 header puts it |
| `ElfAbi.ProgramReadsBack` | src/clio_relay/bootstrap_candidate_uv_install_source.py:67-79 | From an encoded program header of eight fields the parser reads back the type, the offset, the virtual address and the size in the file |
| `ElfAbi.EntriesReadBack` | src/clio_relay/bootstrap_candidate_uv_install_source.py:91-95 | Encoded dynamic entries are read back up to the first null tag |
| `ElfAbi.WellLaidIff` | src/clio_relay/bootstrap_candidate_uv_install_source.py:53-90 | Over an encoded header and program table: the exact bounds under which the layout is accepted |
| `ElfAbi.EncodedFileIsAcceptedIff` | src/clio_relay/bootstrap_candidate_uv_install_source.py:50-154 | Encoder against parser: the files accepted, over the encoded header, program table and dynamic section, with literal tags and names |
| `ElfAbi.EncodedFileRelocatesIff` | src/clio_relay/bootstrap_candidate_uv_install_source.py:122-154 | Encoder against parser: the relocations are the needed strings that are the origin prefix and a plain name |
| `ElfAbi.StaticFileIsAcceptedIff` | src/clio_relay/bootstrap_candidate_uv_install_source.py:86-87 | A file without a dynamic segment is accepted on its bounds alone and has nothing to relocate |
| `ElfAbi.IsElfIff` | src/clio_relay/bootstrap_candidate_uv_install_source.py:51-52 | Anything that does not start with 127 and `ELF` is left alone |
| `ElfAbi.DecimalIff` | src/clio_relay/bootstrap_candidate_uv_install_source.py:236 | A descriptor number is written in the one way without leading zeros whose digits stand for it |
| `ElfAbi.PatchIsSpelled` | src/clio_relay/bootstrap_candidate_uv_install_source.py:236-241 | A patched range byte for byte: the descriptor's path in decimal, then NULs |
| `ElfAbi.RestIsUntouched` | src/clio_relay/bootstrap_candidate_uv_install_source.py:239-241 | No byte outside the ranges changes |
| `ElfAbi.FitsIff` | src/clio_relay/bootstrap_candidate_uv_install_source.py:237-238 | A descriptor path fits by its written length |
| `Planning.GatherReasons` | src/clio_relay/bootstrap_reconcile_planning.py:149-323 | The reasons equal the upgrade reasons exactly when nothing but version upgrades was found, the skipped uv probe included |
| `Planning.PlanReconcile` | src/clio_relay/bootstrap_reconcile_planning.py:149-409 | The mode is the one the evidence calls for; a component is marked reuse only if all its checks passed |
| `Planning.ModeIff` | src/clio_relay/bootstrap_reconcile_planning.py:149-409 | Each mode by the observations themselves |
| `Planning.ReceiptActions` | src/clio_relay/bootstrap_reconcile_script_commit.py:187-213 | The commit step maps planned actions to receipt actions and defaults the rest to reused |
| `Planning.PlanThroughToReceipt` | src/clio_relay/bootstrap_receipt_validation.py:433-461 | For relay-only and component-upgrade the receipt carries exactly the validator's actions, and reused means verified |
| `ExactReuse.InspectExactNoop` | src/clio_relay/bootstrap_reconcile_inspection.py:57-137 | The reason list stays empty exactly when the desired deployment is live |
| `ExactReuse.ReuseAccepted` | src/clio_relay/bootstrap_acceptance.py:35-171 | The gate accepts exactly in-time, mutation-free receipts that leave the endpoint active and enabled |
| `ExactReuse.NoopValidatedIff` | src/clio_relay/bootstrap_receipt_validation.py:23-341 | Validator against builder: a no-op receipt is accepted exactly when it is what the builder makes, up to the listed components and the states it read, which are bounded |
| `ExactReuse.OperationsIff` | src/clio_relay/bootstrap_receipt_validation.py:100-147 | Which operation counts the validator's common contract admits, whatever the outcome |
| `ExactReuse.BuiltIsValidatedIff` | src/clio_relay/bootstrap_receipt_validation.py:23-341 | What the validator re-checks of an inspection, and hence what it takes on trust |
| `ExactReuse.ValidatedIsAcceptableIff` | src/clio_relay/bootstrap_acceptance.py:35-171 | Whoever built it, a validated no-op receipt passes the gate exactly within 30 seconds and with the endpoint left active and enabled |
| `ExactReuse.RepairIsAcceptableIff` | src/clio_relay/bootstrap_acceptance.py:35-171 | A repair receipt passes exactly within 60 seconds with one start or restart, at most one enable, and nothing else |
| `ExactReuse.ExactNoopChain` | src/clio_relay/bootstrap_reconcile_receipt.py:138-317 | A clean inspection yields a receipt the validator accepts and, with a worker service, the gate accepts exactly for 0 to 30 seconds |

## Left out

- System calls, descriptors, `O_NOFOLLOW` walks, owner and mode checks, fsync ordering and the Windows fallbacks: atomic durable steps stand for them.
- JSON and YAML codecs, SHA-256 and Unicode digits: codecs round-trip, hashing is injective, `isdigit` is ASCII, and a dump has one plain line for each repository, without quoting or folding.
- The repair driver's journal and full-mode promotion of `current`: the repair is modelled as the link publication it repeats.
- More than one transaction in one driver run: what an earlier transaction's manifest does to a later activation is stated for the five links alone.
- Two or more foreign writes within one publication, for the guarantees about the foreign object; the program forms still meet arbitrary ones.
- `verify_atomic_exchange_support`: a crash there leaves a probe file that later runs refuse.
- A failing write (full disk) of the exchange file: its handler unlinks the file, which is the untouched state again.
- The worker fence, systemd control, queue migration and readiness polling: a failure of any of them is a crash of the driver.
- Re-parsing a patched ELF file, dependencies that share the tail of a relocated string, and string tables that overlap headers.
- The receipt validator's `full` branch and the builtin graph result: only the reconciled actions, the repository evidence and the no-op branch are modelled; JSON type checks vanish in a typed receipt.
- Execution-boundary and wheel provenance checks inside planning and inspection: each is one boolean or one failure text.
- SSH deployment, downloads, installs, memfd execution, GitHub provenance, gateway and session code: I/O and clients of other services.
