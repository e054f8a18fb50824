# Verified model of the root-side lifecycle workers

The root-side workers run privileged jobs as transactions over a small persistent state: module flags,
module trees, hotfix records, a trust level, a file tree, a registry. This project models the decisions
of those jobs and their undo logic, with failure allowed at every step, and proves what they promise
over every input, every choice of failing step and every run.

`dafny verify dfyconfig.toml` checks the whole project (Dafny 4.11).

| file | component |
|---|---|
| Manifests, ModuleFlags, FlagRuns, ModuleRemoval | module replacement: rules, enable, disable, hand-back, rollback, whole runs |
| SignedBundles, InstallPlan, BundleInstall | signed nested bundles, binding the plan to them, the install transaction |
| HotfixStack, HotfixRuns | hash-bound file overlays, last in first out |
| SystemUpdate, ReleaseStaging | the update transaction and the staging of signed trees |
| TrustFloor | one ordered level with six writers and a pending revert |
| HostSnapshot, TarNamespace, PublisherMerge, LocalPublication | recovery: host paths, archive members, publisher trust, publication |
| MaintenanceRegistry | action records against an executable folder |
| RateWindow | two nested fixed-window counters |
| Common | options, results, sorted sets of strings |

## How it is modelled

An atomic file write is one step and a held lock makes the steps under it one; a writer that takes no lock
reads in one step and writes in another. Foreign code (installers,
git, signature verification, cache, copies) appears as an outcome given to the job, so "for every
environment" means every combination of outcomes. Hashes are an arbitrary function and are nowhere
assumed injective. Text that a regular expression or a parser reads appears as its parse result, with a
separate case for malformed input. A sorted list of distinct strings is the sorted form of a set.

## What does not hold

These promises fail in the code as written; each has a concrete input and its exact condition in the
table below.

- Enabling a replacement together with its own target in one job leaves both on (`FlagRuns.EnableSettles`, `FlagRuns.ReplacementWithTargetInOneJob`); two replacements of one module in one job both end on (`FlagRuns.EnableUnrivalled`, `FlagRuns.TwoReplacementsInOneJob`). Jobs with one target are not affected.
- The uninstall worker reads manifests the other worker refuses, such as a core module that names a target, or a target written as a number (`ModuleRemoval.HandBackTwinsAgree`, `ModuleRemoval.HandBackTwinsDiffer`, `ModuleRemoval.NumberReadAsText`).
- A hotfix apply that fails while re-reading a file it has just replaced leaves that one file replaced, and one that fails while writing its record or removing its staged files afterwards leaves every target replaced (`HotfixStack.FailedApplyRestores`, `HotfixStack.FailedApplyLeavesPayload`).
- The updater and the migration write without the policy lock, on what they read before, and a restore lays the backup's policy over the live one before it merges: each can lower the floor without a console command (`TrustFloor.LowersExactly`, `TrustFloor.OvertakenUpdaterLowers`). So can a whole restore onto a server without a valid policy file (`TrustFloor.RestoreLowersDefault`).
- A console lowering interrupted between its two writes can forget a higher floor, a first one leaves no revert at all (`TrustFloor.InterruptedConsole`, `TrustFloor.InterruptedFirstLowering`, `TrustFloor.InterruptedLoweringForgets`).
- A bundle install that fails before its backup is complete removes the ordered trees and the module state, and one that fails inside the install loop loses rename sources outside the order (`BundleInstall.WipeExact`, `BundleInstall.OrderedTreeWiped`, `BundleInstall.StateLossExact`, `BundleInstall.StateLossSwitchesOn`, `BundleInstall.RollbackExact`, `BundleInstall.RenameSourceLost`).
- A member beneath a hard link that leads to a symlink is accepted and can be extracted through that link (`TarNamespace.ExtractionStaysInPlace`, `TarNamespace.ChainedHardlinksEscape`).
- The publisher merge keeps the last record of a repeated key id while signature checking uses the first, so a revoked key can come back (`PublisherMerge.RevokedNeverActive`, `PublisherMerge.KeysKeepTheirBytes`, `PublisherMerge.RepeatedIdRevives`). A publisher directory without publisher.json on the target drops no clashing key (`PublisherMerge.WithoutTargetPolicy`, `PublisherMerge.LeftoverFileReplacesKey`).
- A rename source is checked without the blanks around it and used with them (`InstallPlan.RenameSourceExact`, `InstallPlan.PaddedSourceAccepted`).
- A publish whose clean-up itself stops can leave new final names (`LocalPublication.RaisedPublishLeavesNothing`, `LocalPublication.StoppedCleanupLeavesSidecar`).
- An unreadable provenance file is not given back by an update rollback: a readable record is restored as it was, an unreadable one is removed (`SystemUpdate.Updater.RunJob`, `SystemUpdate.Updater.UnreadableProvenanceRemoved`).

## Model

| member | source | states |
|---|---|---|
| `Manifests.NodeIsTheReading` | scripts/module-v2-job-helper.py:411-444 | a manifest is accepted exactly when its fields read as a well-formed one (own id, layered replacement, own capability names, at most 200), and the node then holds just those values |
| `Manifests.ManifestNode` | scripts/module-v2-job-helper.py:427-429 | an accepted manifest is layered: a module that replaces another is never core, server or test and never replaces itself |
| `Manifests.PluginIdMeans` | scripts/module-v2-job-helper.py:413-416 | ids are letters, digits, underscores and hyphens, at least one, so never a path |
| `Manifests.ReadInstalled` | scripts/module-v2-job-helper.py:447-466 | every module read from the extension folders carries its folder's name and obeys the layering rule |
| `Manifests.FirstCode` | scripts/module-v2-job-helper.py:520-526 | no code exactly when every declared capability is offered well enough, otherwise the code of the first failing one in sorted order |
| `Manifests.HonouredMeansCovered` | scripts/module-v2-job-helper.py:501-527 | the rule check passes exactly the replacements that are premium (or without a category on a development server), have an installed switched-off core or server target, are its only enabled one, and offer each of its capabilities at the same major and no lower minor or patch |
| `Manifests.CapabilityCodeMeans` | scripts/module-v2-job-helper.py:487-498 | each of the three capability codes by its numbers, and none exactly for a covered capability |
| `Manifests.ReasonMeans` | scripts/module-v2-job-helper.py:501-519 | what every other reason code says about the replacement it refuses |
| `ModuleFlags.PlanOne` | scripts/module-v2-job-helper.py:549-566 | one requested module is allowed exactly when the rule check passes on the model without the module it displaces and no replacement it switches off is requested too; it then names exactly what goes off |
| `ModuleFlags.PlanEnableDisables` | scripts/module-v2-job-helper.py:538-571 | the plan is accepted exactly when every module is allowed, every disable is confirmed and a switched-off replacement had the second confirmation; the result is the sorted disables |
| `FlagRuns.EnableReplacementExactly` | scripts/module-v2-job-helper.py:538-571 | switching on one replacement is allowed exactly when its category may, its target is an installed core or server module it alone replaces and covers, and a target that is on is confirmed off |
| `FlagRuns.EnableTargetExactly` | scripts/module-v2-job-helper.py:538-571 | switching on one core or server module is allowed exactly when each enabled replacement of it is confirmed off, with the second confirmation |
| `FlagRuns.EnableUnknownExactly` | scripts/module-v2-job-helper.py:549-555 | a module without a trusted manifest is switched on exactly when nothing is confirmed off with it |
| `FlagRuns.EnablePlainAlways` | scripts/module-v2-job-helper.py:538-571 | a module that replaces nothing, and is not replaceable or is on already, is always switched on |
| `FlagRuns.SameJobRefused` | scripts/module-v2-job-helper.py:561-566 | a module that is off and its enabled replacement are never switched on in one job |
| `FlagRuns.OffOnlyWhenRecorded` | scripts/module-v2-job-helper.py:469-476 | only a record that says so switches a module off |
| `ModuleFlags.PlanHandBack` | scripts/module-v2-job-helper.py:616-637 | accepts a hand-back list exactly when each target is an installed switched-off core or server module whose enabled replacements all leave in this job, at least one of them; an error names an offending target |
| `ModuleFlags.ModuleState.SetEnabled` | scripts/module-v2-job-helper.py:288-294 | sets the flag of the listed modules and leaves every other record and field |
| `ModuleFlags.ModuleState.ApplyEnableJob` | scripts/module-v2-job-helper.py:583-613 | one atomic write: requested on, planned disables off, hand-edited conflicts reconciled, with the effective flags before; a refusal changes nothing |
| `ModuleFlags.ModuleState.ApplyDisableJob` | scripts/module-v2-job-helper.py:640-663 | one atomic write of the disables and the confirmed hand-backs, with the effective flags before; a refusal changes nothing |
| `ModuleFlags.ModuleState.RestoreEnabledFlags` | scripts/module-v2-job-helper.py:666-671 | writes back exactly the recorded flags and no other field |
| `ModuleFlags.ModuleState.RunFlagJob` | scripts/module-v2-job-helper.py:1761-1812 | the state after an enable or disable job in all its endings; success means allowed and reloaded, rolled back means allowed, not reloaded and more than the requested modules changed |
| `FlagRuns.EnableSettles` | scripts/module-v2-job-helper.py:583-613 | from any state, hand-edited or not, an accepted enable job leaves no enabled replacement beside its enabled target if and only if it was not asked for a replacement together with its target |
| `FlagRuns.EnableUnrivalled` | scripts/module-v2-job-helper.py:583-613 | an accepted enable job gives no module a second enabled replacement if and only if it asks for no two replacements of one module |
| `FlagRuns.ReplacementWithTargetInOneJob` | scripts/module-v2-job-helper.py:538-613 | a concrete accepted job with a replacement and its own target that leaves both on |
| `FlagRuns.TwoReplacementsInOneJob` | scripts/module-v2-job-helper.py:538-613 | a concrete accepted job with two replacements of one module that leaves both on |
| `FlagRuns.EnableChangesAsConfirmed` | scripts/module-v2-job-helper.py:538-613 | whatever the list: a module goes off only if confirmed or already in conflict, on only if requested, and a replacement is switched off for its target only with the second confirmation; no other field changes |
| `FlagRuns.DisableKeeps` | scripts/module-v2-job-helper.py:616-663 | a disable job with hand-backs keeps both invariants |
| `FlagRuns.EnableRollback` | scripts/module-v2-job-helper.py:583-613 | restoring the recorded flags after an enable job is the identity on every effective flag, reconciled modules included, and on every other field |
| `FlagRuns.DisableRollback` | scripts/module-v2-job-helper.py:640-671 | the same for a disable job |
| `FlagRuns.RolledBackMeansUndone` | scripts/module-v2-job-helper.py:1790-1812 | a job that reports a rollback left every effective flag and every other field as it found it |
| `FlagRuns.UndoneExactly` | scripts/module-v2-job-helper.py:1790-1812 | a failed reload is undone, when the undo works, exactly if an enable job changed a module it was not asked for, or a disable job handed one back |
| `FlagRuns.JobEnds` | scripts/module-v2-job-helper.py:1761-1812 | a refused job changes nothing and reports no rollback; an allowed one that is not undone stays applied |
| `FlagRuns.SingleTargetApart` | scripts/module-v2-job-helper.py:1761-1766 | an enable job with one target always meets the condition of the two if-and-only-if lemmas |
| `FlagRuns.JobKeeps` | scripts/module-v2-job-helper.py:1761-1812 | every job, in every ending, keeps the two invariants |
| `FlagRuns.RunsStaySettled` | scripts/module-v2-job-helper.py:501-671 | over every run of jobs on fixed manifests from a settled state, no replacement runs beside its target and no target has two enabled replacements |
| `ModuleRemoval.PlanRemoveHandBack` | scripts/module-job-helper.py:337-419 | accepts a hand-back list exactly when the uninstall worker's own rule, on fields read as text whatever their type, holds for each target, and returns it sorted |
| `ModuleRemoval.HandBackTwinsAgree` | scripts/module-job-helper.py:384-419 | the uninstall worker and the disable job accept the same hand-back lists, for every state, removed module and list, if and only if every folder that reads as the replacement of a core or server module passes the manifest checks, and so does its target |
| `ModuleRemoval.HandBackTwinsDiffer` | scripts/module-job-helper.py:337-352 | a core module that names a target is read by one worker and refused by the other, and the two then disagree |
| `ModuleRemoval.NumberReadAsText` | scripts/module-job-helper.py:347-352 | a target written as the number 5 beside a core module in the folder 5, on which the two also differ |
| `BundleInstall.VerifyInstallDisables` | scripts/module-v2-job-helper.py:674-698 | accepts exactly when every fresh replacement passes the rule check without its target and everything switched off is confirmed; returns what they switch off |
| `BundleInstall.PassesMeans` | scripts/module-v2-job-helper.py:683-693 | which modules of the order pass: all that are not new enabled replacements, and those that are allowed, alone, covering, and find their installed core or server target off or can switch it off |
| `BundleInstall.FreshTargetOff` | scripts/module-v2-job-helper.py:687-693 | a fresh replacement that passed has its target off already or among the names to switch off |
| `BundleInstall.Server.PrepareDisable` | scripts/module-v2-job-helper.py:755-779 | switches the replaced module off exactly when it stands in the way and is confirmed; refuses exactly when it stands in the way unconfirmed |
| `BundleInstall.Server.PrepareInstall` | scripts/module-v2-job-helper.py:1832-1840 | what a fresh install switches off early, or the refusal, as a function of plan, environment and site |
| `BundleInstall.PreparedMeans` | scripts/module-v2-job-helper.py:755-779 | only the installed core or server module that a new install names, on and not part of the job, is switched off early, and only if confirmed; unconfirmed it is refused |
| `BundleInstall.Server.BackupModules` | scripts/module-v2-job-helper.py:1312-1327 | a finished backup holds exactly the trees, presence records and module state at the listed ids; exactly when contents.json and the state copy are written |
| `BundleInstall.BackupNeeds` | scripts/module-v2-job-helper.py:1378-1385 | a complete backup needs the script, a copy of every tree of the order and of every previous id, and of the module state where there is one |
| `BundleInstall.Server.RestoreModules` | scripts/module-v2-job-helper.py:1330-1346 | each listed tree becomes its backed-up copy or is removed when the backup has no record of it, all others stay, and the module state becomes its copy |
| `BundleInstall.Server.InstallPackages` | scripts/module-v2-job-helper.py:1369-1414 | where the loop gets to, as a function of plan, environment and site; it runs exactly when the backup completes |
| `BundleInstall.LoopRemoves` | scripts/module-v2-job-helper.py:1388-1398 | a loop that gets through removed every rename source, one that fails removed rename sources only |
| `BundleInstall.LoopFlags` | scripts/module-v2-job-helper.py:1832-1840 | the loop switches off confirmed modules that were on, and nothing else |
| `BundleInstall.Server.MoveIdentity` | scripts/module-v2-job-helper.py:321-328 | the state record moves to the new id, exactly when the migration succeeds and that id has no record yet |
| `BundleInstall.RecordStops` | scripts/module-v2-job-helper.py:1849-1853 | recording stops exactly at a rename without a source, whose migration fails or whose new id has a record, and else notes the version |
| `BundleInstall.RenameKeepsFlag` | scripts/module-v2-job-helper.py:1849-1853 | a recorded rename takes the flag of its source along, leaves the source without a record and every other module alone |
| `BundleInstall.Server.RecordInstall` | scripts/module-v2-job-helper.py:1846-1870 | succeeds exactly when categories, every record, sync and registration do, and then leaves the recorded flags with the remaining confirmed disables, renames included |
| `BundleInstall.Server.RollBack` | scripts/module-v2-job-helper.py:1874-1893 | trees of the order (of all backed-up ids once the loop returned) come from the backup, and modules switched off by the job are on again |
| `BundleInstall.Server.InstallJob` | scripts/module-v2-job-helper.py:1816-1893 | succeeds if and only if every step does; a failure leaves exactly the trees and the effective flags that plan, environment and site determine, and no module state when the backup did not complete |
| `BundleInstall.SuccessTrees` | scripts/module-v2-job-helper.py:1388-1414 | a successful job whose rename sources lie outside the order leaves every ordered module as its shell left it, the sources gone and no other tree changed |
| `BundleInstall.SuccessMeans` | scripts/module-v2-job-helper.py:1842-1862 | a successful job without renames switched off confirmed modules only and leaves no fresh replacement beside its enabled target |
| `BundleInstall.SuccessHonours` | scripts/module-v2-job-helper.py:674-698 | with renames or without: after a successful job the target of every new, enabled replacement is installed, core or server, off and without a second enabled replacement, and each of its capabilities is offered at the same major and no lower version |
| `BundleInstall.InstallNeedsEach` | scripts/module-v2-job-helper.py:1816-1873 | a successful job had the script, every copy, every package, every install shell, categories, sync and registration |
| `BundleInstall.RollbackExact` | scripts/module-v2-job-helper.py:1825-1893 | for every plan and server: all jobs that fail after a complete backup give every tree back, if and only if no rename source outside the order has a tree |
| `BundleInstall.WipeExact` | scripts/module-v2-job-helper.py:1330-1346 | a job that fails before contents.json is written gives the trees back if and only if no ordered module has one |
| `BundleInstall.TreesSurviveStateLoss` | scripts/module-v2-job-helper.py:1312-1327 | with contents.json written and the state copy failing, the job fails and gives every tree back |
| `BundleInstall.StateLossExact` | scripts/module-v2-job-helper.py:1342-1346 | a failed job keeps every effective flag and other field if and only if its backup completed or every recorded module was on and had no other field |
| `BundleInstall.RenameSourceLost` | scripts/module-v2-job-helper.py:1388-1398 | a concrete failing rename that loses the old module's tree |
| `BundleInstall.OrderedTreeWiped` | scripts/module-v2-job-helper.py:1330-1346 | a concrete failing backup that loses the tree of an installed module |
| `BundleInstall.StateLossSwitchesOn` | scripts/module-v2-job-helper.py:1342-1346 | a concrete failing state copy after which a switched-off module is on |
| `SignedBundles.SignerNeedsExactly` | scripts/privileged-trust.py:229-301 | the signer is asked for module.install and what the modules anywhere in the nested archive declare, and for nothing else; refused exactly on an unreadable archive or a malformed declaration |
| `SignedBundles.PermissionsOfLeaves` | scripts/privileged-trust.py:229-301 | the permission walk and the module walk read the same manifests, through every level of nesting |
| `SignedBundles.CollectDistinct` | scripts/privileged-trust.py:530-570 | accepts exactly the resolved entries whose files and ids are all different, in order |
| `SignedBundles.EntryFileMeans` | scripts/privileged-trust.py:530-570 | an entry resolves exactly to the one member of its name that declares one module, with the expected id and version where it gives them |
| `SignedBundles.ArtifactBundlePackageFiles` | scripts/privileged-trust.py:499-571 | the file mapping of a bundle, or a refusal exactly when no mapping exists |
| `SignedBundles.FilesMatchModules` | scripts/privileged-trust.py:358-437 | with canonical entry names the file mapping and the signed module list correspond one to one, in order |
| `InstallPlan.AuthenticatedFacts` | scripts/module-v2-job-helper.py:1469-1482 | a fact table that agrees with the signed rows, refused exactly on a bad or repeated id |
| `InstallPlan.ValidateInstallPlan` | scripts/module-v2-job-helper.py:1485-1523 | accepts exactly the plans that name the signed modules, versions and, without the blanks around them, rename sources, and stamps the signed versions on them |
| `InstallPlan.CheckMembers` | scripts/module-v2-job-helper.py:1549-1584 | a bundle is extracted exactly when no member name is an alias or a repetition |
| `InstallPlan.ExtractableNames` | scripts/module-v2-job-helper.py:1549-1584 | in a bundle that may be extracted, and only there, every name is unaliased and the name of one member only |
| `InstallPlan.ExpandBundle` | scripts/module-v2-job-helper.py:1549-1599 | the packages of a bundle, each declaring its own id, all different, standing for the signed module list; refused exactly when a member name is aliased or repeated or the entries do not resolve to proper modules |
| `InstallPlan.SinglePackage` | scripts/module-v2-job-helper.py:1625-1655 | accepted exactly when the verified file declares one module with a proper id |
| `InstallPlan.ArtifactNeeds` | scripts/module-v2-job-helper.py:1610-1655 | an artifact is taken only as the verified file, a bundle only when it may be extracted |
| `InstallPlan.BatchPackages` | scripts/module-v2-job-helper.py:1610-1655 | all artifacts resolve to self-declaring packages with different ids, in the order of the signed lists; a refusal means an artifact that does not resolve or an id signed twice |
| `InstallPlan.ValidatedPlanIsSigned` | scripts/module-v2-job-helper.py:1485-1523 | after validation the order is a permutation of the signed ids, each installed from the one file that declares it at the signed version, and every rename source is signed for |
| `InstallPlan.PlanBatch` | scripts/module-v2-job-helper.py:1469-1655 | from one list of artifacts to a bound plan: the order is a permutation of the ids signed in them, exactly one self-declared package for each at the signed version; with canonical bundle names accepted if and only if the artifacts resolve, their ids are proper and different, and the plan fits them |
| `InstallPlan.RenameSourceExact` | scripts/module-v2-job-helper.py:1385-1388 | the rename source the install loop uses is the signed one, or none, if and only if the plan wrote it without blanks around it |
| `InstallPlan.PaddedSourceAccepted` | scripts/module-v2-job-helper.py:1516-1518 | a concrete accepted action whose padded source is not the signed one |
| `HotfixStack.NormalizeTargets` | scripts/module-hotfix-job-helper.py:449-492 | accepts exactly manifests with a valid identity and 1 to 64 well-formed rows with different keys |
| `HotfixStack.NormalizedMeans` | scripts/module-hotfix-job-helper.py:449-492 | acceptance field by field, and each row holds the component, path and hashes its manifest row gives |
| `HotfixStack.Module.CopyPayload` | scripts/module-hotfix-job-helper.py:606-615 | the files after any copy or re-read fault: payload at the recorded rows and at the one unrecorded row |
| `HotfixStack.Module.RestoreMutated` | scripts/module-hotfix-job-helper.py:622-637 | walking back restores every recorded row whose copy works, and only those |
| `HotfixStack.Module.ApplyJob` | scripts/module-hotfix-job-helper.py:570-662 | the state and outcome of an apply for every fault point, the removals after the record included |
| `HotfixStack.ApplyEnds` | scripts/module-hotfix-job-helper.py:570-605 | an apply is refused exactly when the manifest, a version, an earlier record or a hash on either side speaks against it, and succeeds only when no fault strikes |
| `HotfixStack.FailedApplyRestores` | scripts/module-hotfix-job-helper.py:570-662 | a failed apply leaves every file as it was if and only if no target is left behind with other bytes, which holds for every copy, validate and sync fault with working restores; it leaves the records as they were if and only if it did not fail after writing its own |
| `HotfixStack.FailedApplyLeavesPayload` | scripts/module-hotfix-job-helper.py:606-661 | a concrete apply whose re-read, record write or tidying up fails and whose new bytes stay, with its record in the last case only |
| `HotfixStack.Module.LatestRecord` | scripts/module-hotfix-job-helper.py:665-676 | the last listed record with the greatest time |
| `HotfixRuns.LatestOnTie` | scripts/module-hotfix-job-helper.py:665-676 | the next record listed is the latest when its time is no earlier |
| `HotfixStack.Module.RollbackJob` | scripts/module-hotfix-job-helper.py:679-741 | the state and outcome of a rollback, refusals included |
| `HotfixStack.RollbackEnds` | scripts/module-hotfix-job-helper.py:679-741 | a rollback succeeds exactly for the latest record at its base version with every hash bound on both sides |
| `HotfixStack.Module.Supersede` | scripts/module-hotfix-job-helper.py:744-770 | an upgrade drops every applied record and keeps the backups |
| `HotfixRuns.LatestIsTop` | scripts/module-hotfix-job-helper.py:665-676 | in whatever order the directory is listed, the latest record is the top of the stack |
| `HotfixRuns.RollbackOnlyTop` | scripts/module-hotfix-job-helper.py:679-741 | a rollback succeeds if and only if it names the top of the stack, and then gives the files of the stack without it |
| `HotfixRuns.StepKeepsStack` | scripts/module-hotfix-job-helper.py:570-770 | every apply, failed apply, rollback, refusal and upgrade keeps the files equal to the base under the stack, a failure after the record included |
| `HotfixRuns.RunsKeepStack` | scripts/module-hotfix-job-helper.py:570-770 | so does every run |
| `HotfixRuns.UnwindRestores` | scripts/module-hotfix-job-helper.py:679-741 | rolling back down to any height gives the files and records of the lower stack |
| `HotfixRuns.AppliesThenRollbacks` | scripts/module-hotfix-job-helper.py:570-741 | n applies then n reverse rollbacks give back the original bytes and records |
| `TrustFloor.PolicyRoot.RecoverCorruptPending` | scripts/trust-policy-cli.py:223-251 | a corrupt pending file moves the floor to the strongest level and is cleared once the audit row is written |
| `TrustFloor.PolicyRoot.SetLevel` | scripts/trust-policy-cli.py:315-371 | the floor and pending file after a console set in all its endings, and when it reports success |
| `TrustFloor.ConsoleEnds` | scripts/trust-policy-cli.py:315-371 | what a console command leaves in each ending, by level, reason, hours, confirmation and audit |
| `TrustFloor.ConsoleRecovers` | scripts/trust-policy-cli.py:318-326 | a command on a corrupt pending file moves the floor to the strongest level first, and goes on only once that is audited |
| `TrustFloor.PolicyRoot.RevertDue` | scripts/trust-policy-cli.py:378-397 | a due revert restores the promised level, never lowering a floor raised above it, also when it stops before clearing the pending file |
| `TrustFloor.RevertEnds` | scripts/trust-policy-cli.py:378-397 | a timed revert acts on its own change only, and leaves the promised level unless the floor is above it |
| `TrustFloor.PolicyRoot.CheckRevertDue` | scripts/trust-policy-cli.py:275-297 | reverts a pending lowering exactly when it has expired, recovers a corrupt one |
| `TrustFloor.EarlyCheckKeeps` | scripts/trust-policy-cli.py:286-294 | a check before a pending revert expires changes nothing |
| `TrustFloor.CheckRecovers` | scripts/trust-policy-cli.py:275-282 | a check recovers a corrupt pending file and changes nothing without a pending file or a valid policy |
| `TrustFloor.LoweringIsTimed` | scripts/trust-policy-cli.py:355-366 | a confirmed lowering for some hours holds for just those hours: checks before leave the target level, checks from then on the level from before or a higher promised one |
| `TrustFloor.PolicyRoot.UpdaterRead` | scripts/privileged-trust.py:100-126 | the first process grants exactly requests no lower than the floor, which is the environment's default without a policy file |
| `TrustFloor.GrantedMeans` | scripts/system-update-helper.py:819-834 | nothing is granted over a bad file, else what is no lower than its level or the environment's default |
| `TrustFloor.PolicyRoot.SetPolicy` | scripts/privileged-trust.py:157-172 | the second process writes the level and compares nothing |
| `TrustFloor.PolicyRoot.UpdaterSet` | scripts/system-update-helper.py:819-834 | both processes with nothing between: writes exactly when the file is missing or valid and the request is no lower than its floor or the default |
| `TrustFloor.PickWinner` | scripts/trust-policy-migration.py:130-178 | the winning candidate beats every other |
| `TrustFloor.WinnerUnique` | scripts/trust-policy-migration.py:130-178 | two candidates that beat each other are the same one |
| `TrustFloor.TiesByPreference` | scripts/trust-policy-migration.py:155-162 | the higher level wins; on a tie the current policy, then the legacy one |
| `TrustFloor.MigratedAuthor` | scripts/trust-policy-migration.py:163-171 | level and time are kept, and who a migrated policy says wrote it in each case |
| `TrustFloor.PolicyRoot.Migrate` | scripts/trust-policy-migration.py:130-178 | the migrated policy, written exactly when it differs |
| `TrustFloor.MigrateIsMaximum` | scripts/trust-policy-migration.py:130-178 | migration yields the maximum of default, current and legacy level and keeps a current policy that ties |
| `TrustFloor.MigrateTwice` | scripts/trust-policy-migration.py:130-178 | a second migration changes nothing |
| `TrustFloor.PolicyRoot.RestoreMerge` | scripts/server-backup-helper.py:2232-2241 | the stricter of the captured level and the one in place; the file in place stays when it holds that level or neither gives one |
| `TrustFloor.WritersEnd` | scripts/server-backup-helper.py:2232-2241 | the merge leaves the stricter of two readable levels and otherwise the file in place; a granted update writes the requested level |
| `TrustFloor.LowersExactly` | scripts/system-update-helper.py:819-834 | for every state and every step of every writer, interleaved ones included, the floor goes down if and only if a condition on the step holds: a confirmed console lowering, an updater or migration write below the floor at the write, an extracted policy below it, a merge or restore over a target without a valid policy |
| `TrustFloor.OnlyConsoleLowers` | scripts/trust-policy-cli.py:223-397 | of the writers that act on the policy as it is, only a confirmed console lowering decreases the floor, also without a policy file; a restore is included outside its exact bad case |
| `TrustFloor.RunsNeverLower` | scripts/trust-policy-cli.py:223-397 | a run without a confirmed console command, overtaken write or bad restore never ends below where it began, from any state |
| `TrustFloor.RestoreLowersDefault` | scripts/server-backup-helper.py:2232-2241 | a concrete server without a policy file whose default floor a restored unsigned policy replaces |
| `TrustFloor.OvertakenUpdaterLowers` | scripts/system-update-helper.py:819-834 | a concrete console raise between the updater's read and write that the write undoes |
| `TrustFloor.ChainRemembers` | scripts/trust-policy-cli.py:315-371 | over console and updater runs that are not cut short or overtaken, floor and pending file together remember the highest level since the chain began |
| `TrustFloor.DueRevertRestoresHighest` | scripts/trust-policy-cli.py:275-397 | after any such run a due revert leaves the floor at that highest level |
| `TrustFloor.StoppedRevertIsRepeated` | scripts/trust-policy-cli.py:275-397 | a revert that stops before clearing the pending file has set the same floor, and the next check ends as if it had not stopped |
| `TrustFloor.InterruptedConsole` | scripts/trust-policy-cli.py:340-371 | a completed lowering keeps the level the server comes back to; one cut off between its two writes, a first one included, keeps it if and only if the target is no lower than the floor or a pending revert already promises at least the floor |
| `TrustFloor.InterruptedFirstLowering` | scripts/trust-policy-cli.py:340-371 | a concrete first lowering cut off between its writes that no later check undoes |
| `TrustFloor.InterruptedLoweringForgets` | scripts/trust-policy-cli.py:340-371 | a concrete interrupted lowering after which the revert stops below the earlier floor |
| `SystemUpdate.KeyOrder` | scripts/system-update-helper.py:660-669 | the downgrade gate compares by a strict total order |
| `SystemUpdate.KeyDirection` | scripts/system-update-helper.py:660-669 | which way it goes: a smaller major, minor or patch at the first difference is less; then text is below final, final below rebuild, texts by string order, rebuilds by number |
| `SystemUpdate.GateRefusesSmaller` | scripts/system-update-helper.py:2527-2540 | a package with a smaller number, or over an unreadable version, is admitted only with both switches; a larger number needs neither |
| `SystemUpdate.Updater.RunInstall` | scripts/system-update-helper.py:2377-2392 | an installer runs exactly on a verified stage; a refusing one deploys nothing |
| `SystemUpdate.Updater.InstallForward` | scripts/system-update-helper.py:1440-1467 | the forward installer ran only from a staged tree with the package's manifest and version, and the stage is closed afterwards |
| `SystemUpdate.Updater.Admit` | scripts/system-update-helper.py:2499-2563 | the backup is reached exactly when package, downgrade gate and checkout pass |
| `SystemUpdate.Updater.Finish` | scripts/system-update-helper.py:2601-2630 | the update is recorded exactly when the installer ended well and version, head and runtime checks hold |
| `SystemUpdate.Updater.RollBack` | scripts/system-update-helper.py:2664-2718 | reports success or a warning exactly when the signed old release installs again and the source is back; old head and old provenance record, and no unreadable file is left |
| `SystemUpdate.Updater.RunJob` | scripts/system-update-helper.py:2455-2731 | for every choice of failing step: success if and only if every step passes; success means the verified version is deployed at the pinned or unchanged head with both switches for a downgrade; a failure without rollback moved nothing and ran no installer or a refusing one; installers ran on verified trees only; exactly when a rollback succeeds, and its provenance file is the old one if and only if that was readable |
| `SystemUpdate.SuccessNeedsEach` | scripts/system-update-helper.py:2455-2630 | everything a successful job needs, check by check and step by step |
| `SystemUpdate.StartNeedsEach` | scripts/system-update-helper.py:2499-2600 | everything that must hold before the forward installer runs |
| `SystemUpdate.RollbackNeedsEach` | scripts/system-update-helper.py:2664-2700 | everything a rollback needs that does not fail, and when the installer's refusal ends a job |
| `SystemUpdate.Updater.UnreadableProvenanceRemoved` | scripts/system-update-helper.py:2664-2718 | a concrete failing update whose successful rollback removes an unreadable provenance file |
| `ReleaseStaging.ScanDirectory` | scripts/system-update-helper.py:709-729 | one directory's files and subdirectories, refused exactly on an unsafe or special entry |
| `ReleaseStaging.SafeRelMeans` | scripts/system-update-helper.py:679-691 | a safe path has names only, no Git metadata, and is not a signing output at the top |
| `ReleaseStaging.TreeInventory` | scripts/system-update-helper.py:709-729 | the directory walk returns exactly the path, size and hash of every visible file, or refuses exactly on an unsafe entry or too many files |
| `ReleaseStaging.SignedFileEntries` | scripts/system-update-helper.py:1502-1523 | accepts exactly well-formed manifests without repeated paths and returns their entries |
| `ReleaseStaging.EntryNeeds` | scripts/system-update-helper.py:1502-1523 | every accepted entry has a safe path of its own, a size and a digest, in a schema-2 manifest of 1 to 20000 |
| `ReleaseStaging.CopySigned` | scripts/system-update-helper.py:1526-1553 | copies exactly when every listed file is in the source as signed and the paths can stand side by side; the result holds those files and their parents only |
| `ReleaseStaging.SourceMatchesMeans` | scripts/system-update-helper.py:1526-1553 | a copied file is regular, of the signed size and digest, with real directories all the way to it |
| `ReleaseStaging.StageSignedTree` | scripts/system-update-helper.py:1578-1637 | succeeds exactly under those conditions; the inventory walk accepts the result and gives the declared map, whatever else the source held |
| `HostSnapshot.CanonicalTargets` | scripts/server-backup-helper.py:3326-3350 | exactly the minimal requested paths, an antichain; refused exactly on an unsafe path |
| `HostSnapshot.NormalizeStep` | scripts/server-backup-helper.py:3326-3340 | a name is appended, a climb takes the last one away and stays at the root, blanks and dots do nothing |
| `HostSnapshot.DropCovered` | scripts/server-backup-helper.py:3341-3350 | an antichain of members that covers every member |
| `HostSnapshot.MinimalOnes` | scripts/server-backup-helper.py:3326-3350 | a covering antichain of members is the set of minimal members |
| `HostSnapshot.Host.RequireSafeParentChain` | scripts/server-backup-helper.py:3353-3370 | accepts exactly when every existing parent is a real directory, making the missing ones when asked |
| `HostSnapshot.Host.SnapshotHostPaths` | scripts/server-backup-helper.py:3372-3401 | captures exactly the minimal targets as they are, changing nothing; succeeds exactly when paths and parents are safe |
| `HostSnapshot.Host.RestoreHostPaths` | scripts/server-backup-helper.py:3420-3448 | succeeds exactly when the parents are safe in the later tree, and then decides the whole tree |
| `HostSnapshot.DeepestComeFirst` | scripts/server-backup-helper.py:3420-3430 | captured paths are put back deepest first |
| `HostSnapshot.RestoreIsExact` | scripts/server-backup-helper.py:3372-3448 | the subtree of every requested path is as captured, absence included; nothing else changes except missing parents |
| `TarNamespace.NormalizeTarPath` | scripts/server-backup-helper.py:1330-1353 | the push-and-pop loop computes the lexical path, which never holds an empty, dot or dot-dot part |
| `TarNamespace.DepthLaw` | scripts/server-backup-helper.py:1330-1353 | a text is refused exactly when some prefix of it climbs more often than it and the base go down; otherwise the depth is what the parts add up to |
| `TarNamespace.StepLaw` | scripts/server-backup-helper.py:1341-1352 | a name is appended, a climb after it cancels it, blanks and dots do nothing |
| `TarNamespace.SafeTarMembers` | scripts/server-backup-helper.py:1356-1399 | accepts exactly the lists with different, named members of supported types, links that stay inside and nothing beneath a symlink |
| `TarNamespace.ClimbingIsRefused` | scripts/server-backup-helper.py:1356-1399 | in an accepted list no name, and no link read from where its member stands, is absolute or climbs above the archive; hard links name a member; members are supported, apart, and not beneath a symlink |
| `TarNamespace.ExtractAllPlaced` | scripts/server-backup-helper.py:1356-1399 | after extraction in any order every entry stands at its own member's path or is a parent directory |
| `TarNamespace.LinkedSymlinkEscapes` | scripts/server-backup-helper.py:1356-1399 | an accepted archive with a member beneath a chain of hard links to a symlink has an extraction that goes through a link |
| `TarNamespace.ExtractionStaysInPlace` | scripts/server-backup-helper.py:1356-1399 | no extraction, in any order and selection, goes through a link if and only if no member lies beneath a chain of hard links, of any length, that leads to a symlink |
| `TarNamespace.ChainedHardlinksEscape` | scripts/server-backup-helper.py:1356-1399 | a concrete accepted archive with a hard link to a hard link to a symlink that does |
| `TarNamespace.RegularHardlinksStayInPlace` | scripts/server-backup-helper.py:1356-1399 | when hard links name regular members, every member is written at its own normalised path and never through a link |
| `PublisherMerge.DropClashing` | scripts/server-backup-helper.py:2124-2137 | drops exactly the restored-only keys whose file name the target uses for other bytes; refused exactly on an unsafe name |
| `PublisherMerge.SafeNameMeans` | scripts/server-backup-helper.py:2077-2081 | a safe key file name is one path part that is not a dot or two |
| `PublisherMerge.KeysMeans` | scripts/server-backup-helper.py:2055-2074 | the list of keys counts whenever it is there, without records that have no id; else the older single key does |
| `PublisherMerge.MergeKeys` | scripts/server-backup-helper.py:2139-2154 | each surviving id once, with the chosen record |
| `PublisherMerge.MergePublisherJson` | scripts/server-backup-helper.py:2089-2161 | the merged keys, revoked exactly when one side is; refused exactly on unreadable metadata or an unsafe restored-only key |
| `PublisherMerge.KeysArrive` | scripts/server-backup-helper.py:2118-2154 | every id of the target arrives; a restored-only id arrives exactly when its file does not clash or has the same bytes |
| `PublisherMerge.RecordsMerge` | scripts/server-backup-helper.py:2143-2154 | a known id keeps the target's record but for a revocation on the restored side; a new one is the restored record |
| `PublisherMerge.MergeDirectory` | scripts/server-backup-helper.py:2200-2217 | merged policy, target files over restored files |
| `PublisherMerge.RefusesMeans` | scripts/server-backup-helper.py:2099-2137 | two directories are refused exactly when the target has a policy and one is unreadable or a key new to the target names no plain file |
| `PublisherMerge.TrustStore.MergeRestoreState` | scripts/server-backup-helper.py:2164-2224 | what the merge leaves under every name of the store, and exactly when it refuses; nothing happens without an authoritative capture |
| `PublisherMerge.SameInstallationKeepsTarget` | scripts/server-backup-helper.py:2164-2224 | on the same installation the store equals the target's |
| `PublisherMerge.ReplacementStore` | scripts/server-backup-helper.py:2186-2224 | on a replacement server restored-only names stay, target-only names arrive, and other clashes are the target's |
| `PublisherMerge.RevokedNeverActive` | scripts/server-backup-helper.py:2107-2158 | a key id that signature checking treats as revoked on either side is revoked or gone afterwards, if and only if the id is not retained or no repetition of it hides the revocation; the publisher's status is revoked exactly when it was on a side; merged ids are unique |
| `PublisherMerge.RepeatedIdRevives` | scripts/server-backup-helper.py:2107-2110 | a concrete target list with a revoked and then an active record of one id, which ends active with the other file |
| `PublisherMerge.UniqueIdsHideNothing` | scripts/server-backup-helper.py:2107-2110 | without repeated ids no revocation is hidden |
| `PublisherMerge.KeysKeepTheirBytes` | scripts/server-backup-helper.py:2107-2137 | each retained id keeps the bytes that signature checking found on its side, if and only if the side's last record of it leads to them too; always without repeated ids, even when file names collide |
| `PublisherMerge.WithoutTargetPolicy` | scripts/server-backup-helper.py:2200-2217 | without a publisher.json on the target a restored key keeps its bytes if and only if the target has no other bytes under its name |
| `PublisherMerge.LeftoverFileReplacesKey` | scripts/server-backup-helper.py:2200-2217 | a concrete restored key that ends on the bytes of a file the target left in the directory |
| `LocalPublication.NextKeepsInv` | scripts/server-backup-helper.py:1175-1204 | every step of a publish, clean-up or delete, and a crash at any moment, keeps every visible archive described |
| `LocalPublication.RunsKeepInv` | scripts/server-backup-helper.py:1175-1204 | so does every run |
| `LocalPublication.ReadersSeeDescribedArchives` | scripts/server-backup-helper.py:1175-1204 | a reader at any moment of any run finds a sidecar and hash that describe a visible archive's bytes |
| `LocalPublication.DeleteKeepsInv` | scripts/server-backup-helper.py:4379-4383 | the delete order keeps the description of whatever is still visible |
| `LocalPublication.DeleteCompletes` | scripts/server-backup-helper.py:4379-4383 | a finished delete leaves none of the three names and every other file |
| `LocalPublication.FinalsNeverOverwritten` | scripts/server-backup-helper.py:1183-1184 | no step changes the content of a visible final name |
| `LocalPublication.RaisedPublishLeavesNothing` | scripts/server-backup-helper.py:1185-1203 | a publish that raises at any step leaves exactly the final names it started from, if and only if it raised before its first move or enough unlinks of its two handlers succeeded, counted by the step that raised and the unlinks that did |
| `LocalPublication.CleanupLeaves` | scripts/server-backup-helper.py:1196-1203 | the directory after any clean-up: an unlink that raises in the inner handler moves on to the outer one, there it ends the clean-up |
| `LocalPublication.StoppedCleanupLeavesSidecar` | scripts/server-backup-helper.py:1196-1203 | a raising publish whose clean-up stops at its first unlink leaves a new final name |
| `LocalPublication.PublishSucceeds` | scripts/server-backup-helper.py:1185-1195 | a publish of a free name with a faithful copy adds its three finals and nothing else |
| `MaintenanceRegistry.ModuleActions` | scripts/server-maintenance-helper.py:584-630 | the declared actions, refused exactly on a malformed entry or a repeated id |
| `MaintenanceRegistry.RawOkMeans` | scripts/server-maintenance-helper.py:584-630 | a declared action is well formed, named below its module and has an executable |
| `MaintenanceRegistry.Registry.LoadAction` | scripts/server-maintenance-helper.py:406-420 | loads exactly enabled records under their own id whose executable is present and hashes as registered |
| `MaintenanceRegistry.Registry.RemoveOwnedActions` | scripts/server-maintenance-helper.py:641-665 | drops exactly the owned records outside the kept ids |
| `MaintenanceRegistry.Registry.DisableSurvivors` | scripts/server-maintenance-helper.py:768-801 | disables and marks exactly the hand registrations of a removed module |
| `MaintenanceRegistry.Registry.UnregisterModule` | scripts/server-maintenance-helper.py:804-818 | the registry and folder after a removal |
| `MaintenanceRegistry.Registry.WriteStaged` | scripts/server-maintenance-helper.py:700-740 | the declared executables and records are written, and no other |
| `MaintenanceRegistry.Registry.RegisterModule` | scripts/server-maintenance-helper.py:668-756 | registers exactly when the manifest is well formed, every action can be staged and nothing stops it; refused before staging it changes nothing, stopped at any write it leaves old or freshly declared records and every other folder as it was |
| `MaintenanceRegistry.CanRegisterMeans` | scripts/server-maintenance-helper.py:668-715 | when a manifest registers, field by field: proper entries with different ids, executables there, no other owner |
| `MaintenanceRegistry.RegisterAgrees` | scripts/server-maintenance-helper.py:668-756 | after it the owned managed records are exactly the declared unprotected actions with matching hashes, the folder holds exactly their executables, and other modules' records are unchanged |
| `MaintenanceRegistry.RegisteredCanBeLoaded` | scripts/server-maintenance-helper.py:406-420 | after a registration every declared, unprotected action can be loaded, from the module's folder with the shipped bytes |
| `MaintenanceRegistry.UnregisterSilences` | scripts/server-maintenance-helper.py:804-818 | after a removal no enabled record runs anything under the module's folder, and other modules' managed records are unchanged |
| `MaintenanceRegistry.RemovalOf` | scripts/server-maintenance-helper.py:641-818 | what a removal does to each record: the module's own are dropped, its hand-written enabled ones switched off and marked, the rest kept |
| `MaintenanceRegistry.SilentExactly` | scripts/server-maintenance-helper.py:768-818 | a removal silences the module's folder if and only if no enabled record marked as another module's runs from it |
| `MaintenanceRegistry.StepAgrees` | scripts/server-maintenance-helper.py:377-392 | every step that does not stop half-way keeps managed records in agreement with the disk, a dropped file or a hand-written record if and only if it fits |
| `MaintenanceRegistry.RunsAgree` | scripts/server-maintenance-helper.py:641-818 | so does every run of such steps |
| `MaintenanceRegistry.RunsLoadOnlyAgreeing` | scripts/server-maintenance-helper.py:377-420 | over every run, with registrations stopped anywhere and any files dropped, a managed action that can be loaded is filed under its id, runs from its owner's folder and hashes to what is there |
| `MaintenanceRegistry.RunsStaySilent` | scripts/server-maintenance-helper.py:768-818 | a silent folder stays silent over every run that does not register there again |
| `MaintenanceRegistry.RemovedModuleStaysUnloadable` | scripts/server-maintenance-helper.py:406-420 | after a removal no action under the module's folder can be loaded until someone registers again, whatever files are dropped there |
| `RateWindow.Counter.CountHit` | framwork/tec_tac/accounts.py:196-203 | the counter after add, incr and the reset of an expired key, and after a cache error at either request |
| `RateWindow.CheckRate` | framwork/tec_tac/accounts.py:206-218 | answers, limits or refuses exactly as the two counters say; the day counter is untouched once the window refuses |
| `RateWindow.AnsweredExactly` | framwork/tec_tac/accounts.py:206-218 | a check is answered exactly when the cache replies and fewer than 30 calls in 600 seconds and 300 in 86400 count against it |
| `RateWindow.ErrorLeaves` | framwork/tec_tac/accounts.py:196-203 | what a cache error at each request leaves in the counter |
| `RateWindow.HitLeavesRoom` | framwork/tec_tac/accounts.py:196-203 | a count leaves the key knowing of one call more than was answered in its window, also when the key expired between add and incr |
| `RateWindow.CallKeeps` | framwork/tec_tac/accounts.py:206-218 | one check keeps both counters in step with what was answered |
| `RateWindow.RunsWithinLimits` | framwork/tec_tac/accounts.py:58-61 | in every timed run each window answers at most 30 checks and each day window at most 300, whatever the cache held before |
| `RateWindow.MeetsTwo` | framwork/tec_tac/accounts.py:196-203 | an interval as long as the timeout meets at most two windows |
| `RateWindow.AnyInterval` | framwork/tec_tac/accounts.py:58-61 | so any 600 seconds hold at most 60 answered checks and any 86400 seconds at most 600 |

## Left out

- TarNamespace.ExtractAllPlaced: a hard link whose target is not in the tree yields nothing; the host language's extractor copies the earlier member instead, which in archive order has been extracted already.
- TarNamespace.ExtractionStaysInPlace: over all orders and selections; the exact condition for archive order alone is not stated.
- TarNamespace.LinkedSymlinkEscapes: shows that extraction goes through a link, not where the link then leads.
- HotfixRuns.RunsKeepStack: assumes working restores and record writes, no failed re-read and increasing application times.
- HotfixStack.Module.RollbackJob: a rollback that fails after it began restoring files is not modelled.
- FlagRuns.RunsStaySettled: the installed manifests stay fixed during a run; reinstalling a removed target can bring it back on.
- BundleInstall.Server.InstallJob: an install shell touches only its own module's two trees; the database identity migration and its undo are outcomes; actions are recorded in the install order.
- BundleInstall.Server.RestoreModules: a removal or copy that stops half-way, here and in the rename removal of the install loop, is not modelled.
- BundleInstall.SuccessMeans: the flags of plans without renames; RenameKeepsFlag states one rename, SuccessTrees the trees of plans with renames.
- BundleInstall.SuccessHonours: plans in which a rename takes its source from the order itself are left out.
- InstallPlan.CheckMembers: directory entries of a bundle are not modelled.
- SystemUpdate.Updater.RunJob: the content of a deployed tree is represented by its version; licensing settings, the set of dynamic plugins and service restarts are outcomes.
- ReleaseStaging.StageSignedTree: signed trees only; the unsigned copy of development servers is not modelled.
- TrustFloor.DueRevertRestoresHighest: a chain with an interrupted console command or an overtaken updater write is excluded; InterruptedConsole and LowersExactly give the exact conditions.
- TrustFloor.LowersExactly: the server's environment, and with it the default level, stays fixed.
- HostSnapshot.CanonicalTargets: a path that begins with exactly two slashes is read like one with a single slash.
- HostSnapshot.Host.SnapshotHostPaths: a failing copy is not modelled.
- HostSnapshot.Host.RestoreHostPaths: failing copies and removals and the validation of sudoers files are not modelled, and what a restore stopped by an unsafe parent had already put back is not stated.
- PublisherMerge.TrustStore.MergeRestoreState: files behind links inside a publisher directory are not modelled, since the captured target store holds copies.
- LocalPublication.RunsKeepInv: the local destination only; remote stores can lose a reply, so the effect of a step is unknown.
- MaintenanceRegistry.Registry.RegisterModule: a write is atomic, and registry files that are links are not modelled.
- MaintenanceRegistry.Registry.UnregisterModule: a removal that stops half-way is not modelled.
- RateWindow.AnyInterval: a call is timed by the moment each counter counted it; eviction of a live cache key is not modelled.
- The order in which several error messages of one refusal would be reported.
- Lexing of manifests, paths and version texts; regular expressions, trimming and case folding.
- Ownership and mode checks, descriptors, locks, fsync and temporary files.
- Signature checking and hashing, other than as a given predicate and a given function.
- Repository URL scrubbing, log text, audit rows, redaction, diagnostics and progress labels.
- Remote store adapters, housekeeping, the sudo shim, web views and account self-service: thin wrappers or easy selections.
- The race between running and cancelling a maintenance job: the code does not promise that a terminal status stays.
