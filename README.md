# Drupal artifact builder, modelled in Dafny

The artifact builder is a set of Symfony console commands. They turn a
Drupal project into a deployable artifact: a folder, `deploy-artifact`, that
holds the project's code without development files and carries the `.git`
of a separate artifact repository, so it can be committed and pushed there.

- `build` (the original command):
  - checks that it runs from a clean project root;
  - makes the artifact folder with a plain `mkdir`, clears it, and copies
    `config`, `drush`, `vendor`, `scripts`, the docroot and `patches` with
    `cp -a`;
  - links the docroot under a public name (`public_html` by default). The
    model of this step uses the corrected number of `../` (see Findings),
    not the code as written; the two differ for options with `.`, `..` or
    empty pieces, and `BuildSymlink.SymlinkAsWritten` is the code as written;
  - clones the artifact repository, copies its `.git` into the folder and
    writes the commit hash into `<docroot>/hash.txt`;
  - writes a `.gitignore`, removes documentation files by name and removes
    the `.git` folders of contributed modules.
- `create` makes the artifact folder with `mkdir -p`. It copies the required
  paths (`config`, `drush`, `vendor`, `scripts`, `composer.json`,
  `composer.lock`) and then whichever of `docroot`, `web` and `public_html`
  `file_exists()` finds. That check follows symbolic links, and `cp -a`
  copies a link as the link, so a `public_html` linked to `web` stays a link.
- `git` checks that a generated artifact is present, grafts the repository's
  `.git` into it and cleans it the same way. It finds the docroot instead of
  taking it as an option: the first of `docroot` and `web` that
  `file_exists()` finds and that is not itself a symbolic link (a regular
  file qualifies too, and `docroot` wins over `web`). It also removes nested
  `.git` folders below contributed themes and below `vendor`.
- Two configuration classes read a parsed YAML document: the current one
  (repository, include, author, branches map) and the older one (repository
  and include only).

The model has three layers.

- **File tree.** The project's files are a finite map from paths (sequences of
  names) to entries: file, directory or symbolic link.
- **Shell commands.** Each shell command the builder runs (`mkdir`,
  `mkdir -p`, `cp -a`, `cp -r`, `rm -rf`, `find ... -exec rm`, `ln -s`,
  `echo >`, `git clone`) is a function from a tree to either a new tree or a
  failure. `Shell.Disk` is the mutable working copy the command methods act on.
- **Command steps.** Each step of each command is a method on its command
  class, proved equal to a specification function of the old tree. The
  properties are lemmas about those functions:
  - when each step succeeds, and with which error it fails;
  - what the artifact folder holds afterwards;
  - that nothing outside the artifact folder changes;
  - where the hash ends up;
  - that no cleaned file and no nested `.git` is left;
  - idempotence of the removals.

Failures are the exceptions the PHP code raises, as values of
`Outcomes.Error`: a non-zero exit of a shell command, the root-location,
clean-tree, docroot, branch and artifact checks, and PHP's own `TypeError`,
`ArgumentCountError` and uninitialized-property errors.

Behaviour that follows the code rather than the documentation:

- **Extra paths (`build` and `create`).** `explode(',')` is called with only
  one argument. So the extra-paths branch ends in an `ArgumentCountError`
  whenever the option is non-empty (`ExplodeError`).
- **`build` run twice.** `build` makes the folder with a plain `mkdir`, so
  a second `build` in the same tree fails at that step. `create` uses
  `mkdir -p` and can be re-run.
- **Clearing the folder.** `rm -rf deploy-artifact/*` never fails and keeps
  hidden entries, so the "Removing of dependencies failed" branch cannot be
  reached (`Outcomes.CleanupFailed` is never produced).
- **Docroot lookups in `git`.**
  - The hash step looks the docroot up inside its `try`, so a missing
    docroot there surfaces as the hash error.
  - `generateGitIgnore()` looks it up outside the `try`, so a missing
    docroot there is "Docroot folder not found".
  - The `find`s of nested `.git` folders run after `chdir` into the
    artifact, so their docroot is the artifact's.
- **The older configuration reader.**
  - It checks only `repository` and `include`, and ignores `author`,
    whatever its type.
  - Its `getAuthor()` is then a `TypeError`, and its `getBranch()` before
    `setBranch()` is an uninitialized-property error.
- **`build`'s branch detection.** `build` detects the branch before the
  root-location and clean checks. `git` runs the base checks first.

## Model

| member | source | states |
|---|---|---|
| BaseCommand.FirstQualifying | src/BaseCommand.php:160-167 | the name returned is one of the candidates, exists and is not a link; the lookup fails with "Docroot folder not found" exactly when no candidate qualifies |
| BaseCommand.CalculateDocrootFolder | src/BaseCommand.php:160-167 | `docroot` is chosen exactly when it is a real entry; `web` exactly when `docroot` is not and `web` is; the error exactly when neither is |
| BaseCommand.FirstMissing | src/BaseCommand.php:135-139 | nothing is reported exactly when every listed path exists; a reported path is in the list and does not exist |
| BaseCommand.AssertRootLocation | src/BaseCommand.php:130-140 | passes exactly when `docroot` or `web` exists and both `config` and `composer.json` exist; otherwise the not-a-project-root error |
| BaseCommand.Locate | src/BaseCommand.php:131-136 | the path a relative string names from the working folder, walking `.` and `..`; an empty string or a `..` above the project root names nothing; `BaseCommand.LocatePlain` proves that a plain path names the working folder followed by its pieces |
| BaseCommand.LocatePlain | src/BaseCommand.php:131-136 | a string of plain pieces names the working folder followed by exactly those pieces |
| BaseCommand.FileExists | src/BaseCommand.php:131 | `file_exists()`: the named path is there once symbolic links are followed (at most 40 of them); `ArtifactCopy.FileExistsSimple`, `ArtifactCopy.FileExistsOutside` and `ArtifactCopy.SiblingLinkExists` state its facts |
| BaseCommand.FileIsLink | src/BaseCommand.php:162 | `is_link()`: the named entry is itself a symbolic link, not followed; `BaseCommand.CalculateDocrootFolder` states how it rejects a candidate |
| BaseCommand.BranchCommandOutput | src/BaseCommand.php:119 | what `echo ${GIT_BRANCH:-$(git branch --show-current)}` prints: the variable when set and not empty, else git's output, split into words, joined by spaces, then a newline; `BaseCommand.BranchFromGit` and `BaseCommand.BranchFromEnvironment` state what each source yields |
| BaseCommand.CurrentBranch | src/BaseCommand.php:118-125 | `getCurrentBranch()`: the trimmed output, or the branch-detection error when PHP's `empty()` holds for it; `BaseCommand.CurrentBranchIsUsable`, `BranchFromGit`, `BranchFromEnvironment`, `DetachedHeadRejected` and `ZeroBranchRejected` state its contract |
| BaseCommand.CurrentBranchIsUsable | src/BaseCommand.php:118-125 | a detected branch is never `""` or `"0"` and has no white space at either end |
| BaseCommand.BranchFromGit | src/BaseCommand.php:119 | with `GIT_BRANCH` unset or empty, the branch git prints on its line is detected unchanged |
| BaseCommand.BranchFromEnvironment | src/BaseCommand.php:119 | a non-empty `GIT_BRANCH` is detected unchanged, whatever git would print |
| BaseCommand.DetachedHeadRejected | src/BaseCommand.php:118-123 | a detached HEAD (git prints nothing) with no `GIT_BRANCH` stops with the branch-detection error |
| BaseCommand.ZeroBranchRejected | src/BaseCommand.php:119-122 | a branch named `0` is rejected too, because PHP's `empty("0")` holds |
| BaseCommand.TrimLine | src/BaseCommand.php:119 | `trim()` gives back a line's text without its newline when the text has no white space at its ends |
| BaseCommand.AssertRepositoryIsClean | src/BaseCommand.php:147-152 | fails, with the dirty-tree error, exactly when the integer cast of the trimmed change count is positive |
| BaseCommand.CleanIffNoChanges | src/BaseCommand.php:147-152 | for the line `wc -l` prints for `n` changes, the check fails exactly when `n > 0` |
| BaseCommand.Preflight | src/BaseCommand.php:69-78 | the base `initialize()` passes exactly when the root location and the clean check pass; a root failure is the one reported; once the root check passes the outcome is the clean check's (its `DirtyTree` failure or a pass); no other failure occurs |
| ArtifactBuild.BuildCopies | src/DrupalArtifactBuilder.php:175-180 | six copies, the fifth being the docroot option |
| ArtifactBuild.BuildRootLocation | src/DrupalArtifactBuilder.php:326-332 | passes exactly when the docroot option, `config` and `composer.json` all exist; otherwise the not-a-project-root error |
| ArtifactBuild.BuildInitialize | src/DrupalArtifactBuilder.php:100-118 | `initialize()` of `build`: the repository option, the branch, then the root-location and clean checks; `ArtifactBuild.BuildInitializeOutcome` states its contract |
| ArtifactBuild.BuildInitializeOutcome | src/DrupalArtifactBuilder.php:100-118 | `initialize()` passes exactly when the repository option is given, a branch is detected and both checks pass; each failure is that of the first failing step, in code order |
| ArtifactBuild.MakeFolder | src/DrupalArtifactBuilder.php:292-295 | plain `mkdir` succeeds exactly when nothing is at `deploy-artifact`, adding just that directory; otherwise it fails and changes nothing |
| ArtifactBuild.RunMakeFolder | src/DrupalArtifactBuilder.php:294 | the command line `mkdir deploy-artifact` has exactly that effect |
| ArtifactBuild.BuildPreparedFacts | src/DrupalArtifactBuilder.php:156-170 | a previous artifact makes the build fail at `mkdir` with nothing changed; otherwise preparation passes exactly when the tree is clean, leaves the folder holding only hidden entries and changes nothing outside it |
| ArtifactBuild.BuildCopiesFresh | src/DrupalArtifactBuilder.php:175-180 | a usable docroot makes the six copy targets distinct visible names |
| ArtifactBuild.BuildCopiedFacts | src/DrupalArtifactBuilder.php:156-180 | after a fresh preparation the copies succeed exactly when the project has all six paths; the first missing one is the failure; on success each is an exact copy and nothing else visible is in the folder; nothing outside it changes |
| ArtifactBuild.CopyStageFacts | src/DrupalArtifactBuilder.php:175-180 | the same facts for any list of fresh names copied into a cleared folder |
| ArtifactBuild.BuildGenerate | src/DrupalArtifactBuilder.php:156-216 | `generateArtifact()` of `build`, with the corrected link step (see Findings): `mkdir`, the clean check, the clearing, the six copies, the extra-paths branch, the link; `ArtifactBuild.BuildPreparedFacts`, `BuildCopiedFacts` and `BuildGenerateOutcome` state its contract |
| ArtifactBuild.BuildGenerateOutcome | src/DrupalArtifactBuilder.php:156-216 | an existing folder fails `mkdir`; non-empty extra paths always end in the `explode` argument error after the copies; without a link the step ends with the copies; a failed copy is the outcome |
| ArtifactBuild.HashNotCleaned | src/DrupalArtifactBuilder.php:249-262 | `hash.txt` is not among the names removed |
| ArtifactBuild.BuildGitSetupFailures | src/DrupalArtifactBuilder.php:228-241 | a failed clone stops the setup with nothing changed; a failed `git rev-parse` after the graft becomes the hash error |
| ArtifactBuild.BuildGitSetup | src/DrupalArtifactBuilder.php:221-274 | `gitSetup()` of `build`: the graft, the hash file, `.gitignore`, the removals by name and the `.git` removal below contributed modules; `ArtifactBuild.BuildGitSetupFailures`, `BuildGitSetupSteps`, `BuildGitSetupHash`, `BuildGitSetupCleans` and `BuildGitSetupNoGit` state its contract |
| ArtifactBuild.BuildGitSetupSteps | src/DrupalArtifactBuilder.php:221-274 | a setup that succeeds passed the graft, the hash and the removals by name, and ends with the `.git` removal below contributed modules |
| ArtifactBuild.BuildGitSetupHash | src/DrupalArtifactBuilder.php:232-266 | after a successful setup `deploy-artifact/<docroot>/hash.txt` holds the trimmed hash as one line |
| ArtifactBuild.HashWritten | src/DrupalArtifactBuilder.php:235-236 | a hash write that passes puts the trimmed hash in the docroot's `hash.txt` |
| ArtifactBuild.HashKept | src/DrupalArtifactBuilder.php:243-266 | `.gitignore` and the removals by name keep every file whose name is not listed |
| ArtifactBuild.BuildGitSetupCleans | src/DrupalArtifactBuilder.php:249-266 | after a successful setup no file of a listed name is left below the artifact folder |
| ArtifactBuild.BuildGitSetupNoGit | src/DrupalArtifactBuilder.php:269 | after a successful setup the contributed modules folder was found and no `.git` entry is left below it |
| ArtifactBuild.BuildCommand.constructor | src/DrupalArtifactBuilder.php:100-108 | the command starts with empty options, before `initialize()` |
| ArtifactBuild.BuildCommand.Initialize | src/DrupalArtifactBuilder.php:100-118 | the outcome is `BuildInitialize`; options are stored in code order up to the missing repository; the branch is stored only when detected |
| ArtifactBuild.BuildCommand.GenerateArtifact | src/DrupalArtifactBuilder.php:156-216 | outcome and new tree are those of `BuildGenerate` on the old tree |
| ArtifactBuild.BuildCommand.CopyAll | src/DrupalArtifactBuilder.php:175-180 | the six copies in order, stopping at the first failure |
| ArtifactBuild.BuildCommand.GenerateSymlink | src/DrupalArtifactBuilder.php:189-213 | outcome and new tree are those of `MakeSymlink` (the corrected link, see Findings) |
| ArtifactBuild.BuildCommand.GitSetup | src/DrupalArtifactBuilder.php:221-274 | outcome and new tree are those of `BuildGitSetup` with the command's list of names |
| ArtifactBuild.BuildCommand.CleanNamesOn | src/DrupalArtifactBuilder.php:243-266 | writes `.gitignore`, then removes every listed name below the artifact folder |
| ArtifactCreate.RequiredFresh | src/DrupalArtifactBuilderCreate.php:60-65 | the six required copy targets are distinct visible names |
| ArtifactCreate.OptionalFresh | src/DrupalArtifactBuilderCreate.php:68 | the optional names are distinct and none is a required one |
| ArtifactCreate.PreparedFacts | src/DrupalArtifactBuilderCreate.php:41-55 | `mkdir -p` fails, changing nothing, exactly when a non-directory is in the way; then preparation passes exactly when the tree is clean, leaves only the hidden entries that were there and changes nothing outside the folder |
| ArtifactCreate.AssembleOutcome | src/DrupalArtifactBuilderCreate.php:41-74 | the copies succeed exactly when the folder can be made, the tree is clean and every required path exists; each failure has its own reason; nothing outside the folder changes |
| ArtifactCreate.OptionalCopied | src/DrupalArtifactBuilderCreate.php:68-74 | an optional name whose lookup stays out of the artifact folder is, in the artifact, an exact copy of the project's entry (a link as the link) when `file_exists()` finds it, and nothing when it does not |
| ArtifactCreate.AssembleContents | src/DrupalArtifactBuilderCreate.php:60-74 | afterwards the folder holds exact copies of the required paths; of each optional name whose lookup stays out of the artifact folder, an exact copy (a symbolic link copied as the link) when `file_exists()` finds it and nothing when it does not (a dangling link); exact copies of the optional names that are real files or directories; nothing else visible; and every hidden entry it had |
| ArtifactCreate.Generate | src/DrupalArtifactBuilderCreate.php:41-83 | `generateArtifact()` of `create`: `mkdir -p`, the clean check, the clearing, the required copies, the optional copies, then the extra-paths branch; `ArtifactCreate.GenerateOutcome`, `GenerateContents` and `LinkedPublicHtmlCopied` state its contract |
| ArtifactCreate.GenerateOutcome | src/DrupalArtifactBuilderCreate.php:41-83 | `generateArtifact()` succeeds exactly when the folder can be made, the tree is clean, every required path exists and no extra paths are given; every failure is named; nothing outside the folder ever changes |
| ArtifactCreate.GenerateContents | src/DrupalArtifactBuilderCreate.php:41-83 | what the folder holds once the copies ran, whether or not the extra-paths branch then fails: the required paths; each optional path whose lookup stays out of the artifact folder, copied as it is exactly when `file_exists()` finds it; the optional paths that are real files or directories; the hidden entries |
| ArtifactCreate.LinkedPublicHtmlCopied | src/DrupalArtifactBuilderCreate.php:68-74 | a `public_html` that is a symbolic link to an existing `web` ends up in the artifact as that same link |
| ArtifactCreate.CreateCommand.Initialize | src/BaseCommand.php:69-78 | stores the extra-paths option and returns the base checks' outcome |
| ArtifactCreate.CreateCommand.CreateArtifactFolder | src/DrupalArtifactBuilderCreate.php:88-91 | runs `mkdir -p deploy-artifact` on the working copy |
| ArtifactCreate.CreateCommand.GenerateArtifact | src/DrupalArtifactBuilderCreate.php:41-83 | outcome and new tree are those of `Generate` on the old tree |
| ArtifactCreate.CreateCommand.CopyRequired | src/DrupalArtifactBuilderCreate.php:60-65 | the required copies in order, stopping at the first failure |
| ArtifactCreate.CreateCommand.CopyOptional | src/DrupalArtifactBuilderCreate.php:68-74 | the loop copies each listed path that `file_exists()` finds, stopping at a failed copy |
| ArtifactCopy.CopyPlain | src/DrupalArtifactBuilder.php:303-308 | `copy($path)` copies a plain relative path to the same path inside the artifact folder |
| ArtifactCopy.CopyInto | src/DrupalArtifactBuilder.php:303-308 | runs the `cp -a` line on the working copy |
| ArtifactCopy.MakeFolderExact | src/DrupalArtifactBuilderCreate.php:88-91 | `mkdir -p deploy-artifact` succeeds exactly when nothing or a directory is there, and only adds that directory |
| ArtifactCopy.MakeFolderTwice | src/DrupalArtifactBuilderCreate.php:90 | a second `mkdir -p` changes nothing |
| ArtifactCopy.CheckClean | src/DrupalArtifactBuilderCreate.php:42-43 | the clean check changes no file and passes exactly when the step before passed and the tree is clean |
| ArtifactCopy.ClearEmpties | src/DrupalArtifactBuilderCreate.php:50-55 | clearing passes, keeps only the hidden entries of the folder, keeps those as they were and changes nothing outside it |
| ArtifactCopy.CopyStep | src/DrupalArtifactBuilder.php:306 | one copy of a fresh name succeeds exactly when the project has that entry, and otherwise fails with the `cp` error |
| ArtifactCopy.CopyEachHolds | src/DrupalArtifactBuilder.php:175-180 | copying distinct fresh names succeeds exactly when the project has them all; the failure names the first missing one; nothing outside the folder changes |
| ArtifactCopy.CopyEachAfterPass | src/DrupalArtifactBuilder.php:175-180 | the induction step: the last copy after successful earlier ones keeps the four copy facts |
| ArtifactCopy.FirstMissingSame | src/DrupalArtifactBuilder.php:175-180 | which copy fails depends only on which names the project has |
| ArtifactCopy.CopyPresentStops | src/DrupalArtifactBuilderCreate.php:70-74 | once a copy in the optional loop has failed, the later turns change nothing |
| ArtifactCopy.PresentStep | src/DrupalArtifactBuilderCreate.php:71-73 | one turn never fails and copies the name exactly when `file_exists()` finds it in the current tree; when its lookup stays out of the artifact folder, exactly when `file_exists()` finds it in the project |
| ArtifactCopy.CopyPresentHolds | src/DrupalArtifactBuilderCreate.php:68-74 | the optional loop always passes, copying every listed real entry the project has and no absent name; a name whose lookup stays out of the artifact folder is copied exactly when `file_exists()` finds it, so a link to an existing entry is copied and a dangling link is not |
| ArtifactCopy.FileExistsOutside | src/DrupalArtifactBuilderCreate.php:71 | `file_exists()` of a name whose lookup stays out of the artifact folder does not depend on what the folder holds |
| ArtifactCopy.SiblingLinkExists | src/DrupalArtifactBuilderCreate.php:71 | a link to an existing sibling that is no link itself is found by `file_exists()`, and its lookup stays out of the artifact folder |
| FileTree.ResolveOutside | src/DrupalArtifactBuilderCreate.php:71 | a symbolic-link lookup that never visits a folder gives the same answer in any tree that agrees outside that folder |
| ArtifactCopy.FileExistsSimple | src/DrupalArtifactBuilderCreate.php:71 | `file_exists()` of a name holds for a real entry and never for a missing one |
| ArtifactCopy.HoldsKeepsProject | src/DrupalArtifactBuilder.php:306 | the copies never touch the project's own entries |
| GitSetup.GraftGit | src/DrupalArtifactBuilder.php:228-230 | `git clone`, `cp -r` of its `.git` into the artifact folder and `rm -rf` of the clone; `GitSetup.GraftGitFacts` and `GraftSteps` state its contract |
| GitSetup.WriteGitIgnore | src/DrupalArtifactBuilder.php:349-397 | `generateGitIgnore()`: `file_put_contents()` of the template into `deploy-artifact/.gitignore`, its failure unnoticed; `Shell.PutContents` and `GitIgnore.GitIgnoreShape` state what is written |
| GitSetup.GraftGitFacts | src/DrupalArtifactBuilder.php:228-230 | a failed clone changes nothing; a successful graft leaves no clone folder, puts the repository's `.git` contents under `deploy-artifact/.git` and changes nothing else |
| GitSetup.GraftSteps | src/DrupalArtifactBuilder.php:228-230 | clone, `cp -r` of `.git` and `rm -rf` of the clone, step by step, give that result |
| GitSetup.CloneStep | src/DrupalArtifactBuilder.php:228 | a successful clone keeps the artifact folder and adds only the clone folder, holding the `.git` contents |
| GitSetup.CopyStep | src/DrupalArtifactBuilder.php:229 | the copy of `.git` into the artifact folder changes nothing but `deploy-artifact/.git` |
| GitSetup.RemoveCloneFacts | src/DrupalArtifactBuilder.php:230 | removing the clone keeps everything the graft built beside it |
| GitSetup.WriteHash | src/DrupalArtifactBuilder.php:232-241 | the hash step passes exactly when `git rev-parse` succeeds and the docroot is known; it writes the trimmed hash as one line; otherwise it is the hash error with nothing changed |
| GitSetup.HashFileOfName | src/DrupalArtifactBuilder.php:236 | for a one-name docroot the file is `deploy-artifact/<docroot>/hash.txt` |
| GitSetup.HashLine | src/DrupalArtifactBuilder.php:235-236 | the hash git prints is written back as exactly that line |
| GitSetup.CleanFiles | src/DrupalArtifactBuilder.php:264-266 | the `foreach` of `cleanFileFromArtifact()`, one `find . -name <name> -exec rm {} \;` per name inside the artifact folder; `GitSetup.CleanFilesPurges`, `CleanFilesTwice`, `CleanFilesKeeps` and `CleanFilesLeavesNone` state its contract |
| GitSetup.CleanFilesPurges | src/DrupalArtifactBuilder.php:264-266 | the removals fail (the first `find`) exactly when names are given and there is no artifact folder; otherwise they remove exactly the files of the listed names below it |
| GitSetup.CleanFilesTwice | src/DrupalArtifactBuilder.php:264-266 | running the removals again changes nothing |
| GitSetup.CleanFilesKeeps | src/DrupalArtifactBuilder.php:318-321 | a directory, an entry outside the folder or a file of an unlisted name is kept as it was |
| GitSetup.CleanFilesLeavesNone | src/DrupalArtifactBuilder.php:318-321 | afterwards no file of a listed name is left below the folder |
| GitSetup.CleanFilesDuplicates | src/DrupalArtifactBuilder.php:249-262 | only the set of names matters, so `CHANGELOG.txt` listed twice removes nothing more |
| GitSetup.RemoveGitIn | src/DrupalArtifactBuilder.php:269 | `find <dir> -name ".git" -exec rm -fr {} +` run inside the artifact folder; `GitSetup.RemoveGitInFacts` and `RemoveGitInTwice` state its contract |
| GitSetup.RemoveGitInFacts | src/DrupalArtifactBuilder.php:269 | `find <dir> -name .git -exec rm -fr` fails exactly when the directory is missing; it leaves no `.git` entry below it and removes only such entries |
| GitSetup.RemoveGitInTwice | src/DrupalArtifactBuilder.php:269 | a second `find` of the same directory removes nothing |
| GitSetup.RunClone | src/DrupalArtifactBuilder.php:228 | the `git clone` line has the effect of the clone function |
| GitSetup.RunCopyGit | src/DrupalArtifactBuilder.php:229 | the `cp -r` line has the effect of the `.git` copy |
| GitSetup.RunRemoveClone | src/DrupalArtifactBuilder.php:230 | the `rm -rf` line removes the clone's folder and always succeeds |
| GitSetup.GraftGitOn | src/DrupalArtifactBuilder.php:228-230 | the three commands on the working copy, stopping at the first failure, as `GraftGit` |
| GitSetup.WriteHashOn | src/DrupalArtifactBuilder.php:232-241 | the `try` block on the working copy, as `WriteHash` |
| GitSetup.CleanFilesStops | src/DrupalArtifactBuilder.php:264-266 | once a removal has failed, the later names change nothing |
| GitSetup.CleanFilesOn | src/DrupalArtifactBuilder.php:264-266 | the loop over the names on the working copy, as `CleanFiles` |
| GitSetup.RemoveGitOn | src/DrupalArtifactBuilder.php:269 | the `.git` removal on the working copy, as `RemoveGitIn` |
| ArtifactGitSync.AssertArtifactExists | src/DrupalArtifactBuilderGit.php:187-191 | passes exactly when `deploy-artifact` exists and its glob `*` lists some entry; otherwise the artifact-missing error |
| ArtifactGitSync.Listed | src/DrupalArtifactBuilderGit.php:188 | an entry that `glob('deploy-artifact/*')` lists: directly in the folder and not a dot-file; `ArtifactGitSync.ListedEntryExists` and `DotFilesOnlyIsMissing` state how the check uses it |
| ArtifactGitSync.DotFilesOnlyIsMissing | src/DrupalArtifactBuilderGit.php:188 | a folder holding only dot-files counts as missing |
| ArtifactGitSync.BuiltArtifactExists | src/DrupalArtifactBuilderGit.php:187-191 | the folder a successful build's copies leave passes the check |
| ArtifactGitSync.ListedEntryExists | src/DrupalArtifactBuilderGit.php:188 | one visible entry directly in the folder is enough |
| ArtifactGitSync.GitInitialize | src/DrupalArtifactBuilderGit.php:35-46 | `initialize()` of `git`: the base checks, the repository option, the branch and the artifact check; `ArtifactGitSync.GitInitializeOutcome` states its contract |
| ArtifactGitSync.GitInitializeOutcome | src/DrupalArtifactBuilderGit.php:35-46 | `initialize()` passes exactly when the base checks pass, the repository option is given, a branch is detected and the artifact exists; each failure is the first in code order |
| ArtifactGitSync.RemoveContribGit | src/DrupalArtifactBuilderGit.php:94-95 | with no docroot inside the artifact the `find` stops with "Docroot folder not found"; otherwise it is the `.git` removal below `<docroot>/<sub>` |
| ArtifactGitSync.CleanStage | src/DrupalArtifactBuilderGit.php:132-133 | with no docroot at the project root `generateGitIgnore()` stops with "Docroot folder not found", changing nothing |
| ArtifactGitSync.SyncGitSetup | src/DrupalArtifactBuilderGit.php:61-101 | `gitSetup()` of `git`: the graft, the hash file under the docroot it finds, `.gitignore`, the removals by name and the nested `.git` removals; `ArtifactGitSync.SyncGitSetupSteps`, `SyncGitSetupFailures`, `SyncGitSetupHash` and `SyncGitSetupCleans` state its contract |
| ArtifactGitSync.SyncGitSetupSteps | src/DrupalArtifactBuilderGit.php:61-101 | a setup that succeeds passed the graft, the hash, `.gitignore` and the removals by name, then the nested `.git` removals |
| ArtifactGitSync.SyncGitSetupFailures | src/DrupalArtifactBuilderGit.php:68-81 | a failed clone changes nothing; after the graft, a failed `git rev-parse` or a missing docroot becomes the hash error |
| ArtifactGitSync.RemoveContribGitFacts | src/DrupalArtifactBuilderGit.php:94-95 | a passing `find` found the contributed folder, leaves no `.git` below it and only removes entries |
| ArtifactGitSync.NestedGitStageFacts | src/DrupalArtifactBuilderGit.php:94-96 | after the three `find`s no `.git` entry is left below contributed modules, contributed themes or `vendor`, and every entry left was there before |
| ArtifactGitSync.NestedGitStageKeeps | src/DrupalArtifactBuilderGit.php:94-96 | the `.git` removals keep the hash file |
| ArtifactGitSync.HashSurvivesContrib | src/DrupalArtifactBuilderGit.php:94-95 | one contributed-folder `find` keeps the hash file |
| ArtifactGitSync.CleanStageKeeps | src/DrupalArtifactBuilderGit.php:83-91 | `.gitignore` and the removals by name keep the hash file unless `hash.txt` is listed |
| ArtifactGitSync.HashStageFacts | src/DrupalArtifactBuilderGit.php:72-81 | a passing hash step found a docroot at the project root and wrote the trimmed hash under it |
| ArtifactGitSync.SyncGitSetupHash | src/DrupalArtifactBuilderGit.php:72-96 | after a successful setup the hash file under the docroot holds the trimmed hash as one line |
| ArtifactGitSync.SyncGitSetupCleans | src/DrupalArtifactBuilderGit.php:87-96 | after a successful setup no file of a listed name is left below the artifact folder, and no `.git` below `vendor` |
| ArtifactGitSync.AuthorDefault | src/DrupalArtifactBuilderGit.php:29 | an `author` option left out stands for `Drupal <drupal@artifact-builder>`; a given one is kept |
| ArtifactGitSync.GitCommand.Initialize | src/DrupalArtifactBuilderGit.php:35-46 | the outcome is `GitInitialize`; on success the repository, the detected branch and the author are stored; a failure leaves the author as it was |
| ArtifactGitSync.GitCommand.InitializeOwn | src/DrupalArtifactBuilderGit.php:38-45 | the command's own steps after the base checks, and the fields they set |
| ArtifactGitSync.GitCommand.GitSetup | src/DrupalArtifactBuilderGit.php:61-101 | outcome and new tree are those of `SyncGitSetup` on the old tree |
| ArtifactGitSync.GitCommand.CleanStageOn | src/DrupalArtifactBuilderGit.php:83-91 | `.gitignore` and the removals by name on the working copy, as `CleanStage` |
| ArtifactGitSync.GitCommand.NestedGitStageOn | src/DrupalArtifactBuilderGit.php:94-96 | the three `find`s on the working copy, as `NestedGitStage` |
| ArtifactGitSync.GitCommand.RemoveContribGitOn | src/DrupalArtifactBuilderGit.php:94-95 | one contributed-folder `find` on the working copy |
| GitIgnore.TemplateLines | src/DrupalArtifactBuilder.php:349-395 | the `.gitignore` text is 44 lines |
| GitIgnore.OtherLinesFixed | src/DrupalArtifactBuilder.php:349-395 | only the lines that name the docroot depend on it |
| GitIgnore.DocrootLinesUnderSites | src/DrupalArtifactBuilder.php:350-356 | every docroot-dependent rule lies under `/<docroot>/sites/` |
| GitIgnore.GitIgnoreShape | src/DrupalArtifactBuilder.php:349-396 | the file keeps `.gitkeep` files by a line of its own and ends with the literal's stray quote, without a final newline |
| BuildSymlink.MakeDirsIn | src/DrupalArtifactBuilder.php:198 | `mkdir -p` of the link's folders only adds entries, and a failure changes nothing |
| BuildSymlink.LinkIn | src/DrupalArtifactBuilder.php:204-207 | `ln -s` only adds an entry, and a failure changes nothing |
| BuildSymlink.RunMakeDirs | src/DrupalArtifactBuilder.php:198 | the `mkdir -p` line has that effect |
| BuildSymlink.RunLink | src/DrupalArtifactBuilder.php:204 | the `ln -s` line has that effect |
| BuildSymlink.LevelsAreSlashes | src/DrupalArtifactBuilder.php:192-200 | the code's level count is the number of slashes in the option |
| BuildSymlink.ExplodeImplode | src/DrupalArtifactBuilder.php:192-198 | `explode('/')` after `implode('/')` gives back slash-free pieces |
| BuildSymlink.LinkParentLocated | src/DrupalArtifactBuilder.php:197-198 | the folders `mkdir -p` makes are the link's parent path |
| BuildSymlink.DirectoryLevels | src/DrupalArtifactBuilder.php:199-203 | the loop builds `levels` copies of `../`, `3 * levels` characters |
| BuildSymlink.TargetAsWritten | src/DrupalArtifactBuilder.php:196-204 | the link text as written: one `../` per piece of `explode('/')` before the last, then the docroot; `BuildSymlink.DirectoryLevels` and `LevelsAreSlashes` state its length |
| BuildSymlink.SymlinkAsWritten | src/DrupalArtifactBuilder.php:189-208 | the link step as written (the as-written half of the Finding): `mkdir -p` of the leading pieces and `ln -s` with `TargetAsWritten`, or a plain `ln -s`; `BuildSymlink.AsWrittenEscapes`, `DotPrefixEscapes` and `PlainLinkAgrees` state what it does |
| BuildSymlink.AsWrittenEscapes | src/DrupalArtifactBuilder.php:192-204 | as written, the option `./public_html` with docroot `web` gives a link that resolves to the project's own `web`, outside the artifact |
| BuildSymlink.DotPrefixEscapes | src/DrupalArtifactBuilder.php:192-204 | the same for any `./<name>` |
| BuildSymlink.MakeSymlink | src/DrupalArtifactBuilder.php:189-213 | the corrected link step only ever adds entries |
| BuildSymlink.LinkDepth | src/DrupalArtifactBuilder.php:196-200 | the corrected level count: how many folders below the artifact folder the link actually lands; `BuildSymlink.LinkTargetResolves` states what it achieves |
| BuildSymlink.LinkTarget | src/DrupalArtifactBuilder.php:196-204 | the corrected link text: one `../` per level of `LinkDepth`, then the docroot; `BuildSymlink.LinkTargetResolves` proves it reaches the artifact's docroot |
| BuildSymlink.LinkTargetResolves | src/DrupalArtifactBuilder.php:196-204 | the corrected link text, followed from where the link lands, reaches the docroot inside the artifact |
| BuildSymlink.PlainLinkAgrees | src/DrupalArtifactBuilder.php:192-207 | for options without `.`, `..` or empty pieces the code as written and the corrected step agree |
| BuildSymlink.MakeSymlinkPlain | src/DrupalArtifactBuilder.php:189-208 | for a plain option with room for the link, the step passes and the link reaches the artifact's docroot |
| BuildSymlink.MakeSymlinkNested | src/DrupalArtifactBuilder.php:196-204 | a nested option makes the parent folders and then the link, and nothing else |
| FileTree.Explode | src/DrupalArtifactBuilder.php:192 | `explode('/')` gives at least one piece, none holding a slash |
| FileTree.ImplodeExplode | src/DrupalArtifactBuilder.php:192-198 | `implode('/')` undoes `explode('/')` |
| FileTree.ExplodeLength | src/DrupalArtifactBuilder.php:196 | the pieces number one more than the slashes |
| Php.Trim | src/BaseCommand.php:119 | `trim()`: strips PHP's default characters (space, tab, newline, carriage return, NUL, vertical tab) from both ends; `Php.TrimFacts` states its contract |
| Php.TrimFacts | src/BaseCommand.php:119 | `trim()` leaves no white space at either end, never lengthens, and keeps a string already trimmed |
| Php.IntCast | src/BaseCommand.php:148 | an `(int)` cast stays in the 64-bit range |
| Php.CountLineRoundTrip | src/BaseCommand.php:148 | the cast of a trimmed `wc -l` line gives back the count |
| Php.IntToStringRoundTrip | src/Config/Config.php:86 | an integer array key printed as a string reads back as the same key |
| Php.CanonicalIntIsPrinted | src/Config/Config.php:86 | a canonical decimal string is the printed form of its value |
| Php.KeyOfInjective | src/Config/Config.php:86 | two branch names that select the same array key are the same name |
| Php.Get | src/Config/Config.php:86 | a lookup finds a value exactly when an entry has that key |
| Php.Coalesce | src/Config/Config.php:134 | `??` gives the set, non-null value of a key, else the default |
| Php.CoerceToString | src/Config/Config.php:85-87 | a `string` return type accepts strings, integers and booleans and is a `TypeError` for null and arrays |
| Config.Validate | src/Config/Config.php:108-135 | reading passes exactly when every known key is absent, null or of its declared type; an error names a mistyped key; each setting is the key's value, or its default when unset |
| Config.ValidateSeesOnlyKnownKeys | src/Config/Config.php:108-135 | documents that agree on the four known keys read the same |
| Config.DefaultsWhenAbsent | src/Config/Config.php:134 | an empty document gives no repository, no includes, no author and no branch map |
| Config.UnknownKeyIgnored | src/Config/Config.php:108-135 | an extra key of another name changes nothing |
| Config.NullMeansAbsent | src/Config/Config.php:117-134 | a known key set to null reads as if it were absent |
| Config.MapBranch | src/Config/Config.php:85-87 | an unmapped branch is kept; a mapped one becomes its mapped value, and an array value is a `TypeError` |
| Config.MappedBranchRenamed | src/Config/Config.php:86 | a branch mapped to a string becomes that string |
| Config.NumericBranchMapped | src/Config/Config.php:86 | a numeric branch name finds the integer key PHP stored it under |
| Config.Config.constructor | src/Config/Config.php:31-37 | stores the four settings, the branch not yet set |
| Config.Config.SetRepository | src/Config/Config.php:42-44 | sets the repository and nothing else |
| Config.Config.SetInclude | src/Config/Config.php:49-51 | sets the includes and nothing else |
| Config.Config.SetAuthor | src/Config/Config.php:63-65 | sets the author and nothing else |
| Config.Config.SetBranch | src/Config/Config.php:74-76 | sets the branch and nothing else |
| Config.Config.GetRepository | src/Config/Config.php:56-58 | the repository, or a `TypeError` when it is null |
| Config.Config.GetAuthor | src/Config/Config.php:67-69 | the author, or the default author when none is set |
| Config.Config.GetBranch | src/Config/Config.php:85-87 | the mapped branch; an uninitialized-property error before `setBranch()` |
| Config.Config.GetInclude | src/Config/Config.php:95-97 | the includes |
| Config.CreateFromConfigurationFile | src/Config/Config.php:108-135 | fails exactly when validation fails, with its error; otherwise a new configuration holding the validated settings |
| Config.SetThenGetBranch | src/Config/Config.php:74-87 | a branch just set reads back through the branch map |
| Config.SetThenGetAuthor | src/Config/Config.php:63-69 | an author just set reads back unchanged |
| LegacyConfig.Validate | src/Config.php:105-122 | reading fails exactly when `repository` is set and not a string, or `include` is set and not an array, in that order; the author is never read |
| LegacyConfig.AuthorKeyIgnored | src/Config.php:105-122 | documents that agree on `repository` and `include` read the same |
| LegacyConfig.MistypedAuthorAccepted | src/Config.php:108-121 | an `author` of any type is accepted and dropped |
| LegacyConfig.Config.constructor | src/Config.php:29-34 | stores the settings, the branch not yet set |
| LegacyConfig.Config.SetRepository | src/Config.php:39-41 | sets the repository and nothing else |
| LegacyConfig.Config.SetInclude | src/Config.php:46-48 | sets the includes and nothing else |
| LegacyConfig.Config.GetRepository | src/Config.php:53-55 | the repository, or a `TypeError` when it is null |
| LegacyConfig.Config.SetAuthor | src/Config.php:60-62 | sets the author and nothing else |
| LegacyConfig.Config.GetAuthor | src/Config.php:64-66 | the author, or a `TypeError` when it is null |
| LegacyConfig.Config.SetBranch | src/Config.php:71-73 | sets the branch and nothing else |
| LegacyConfig.Config.GetBranch | src/Config.php:82-84 | the branch; an uninitialized-property error before `setBranch()` |
| LegacyConfig.Config.GetInclude | src/Config.php:92-94 | the includes |
| LegacyConfig.CreateFromConfigurationFile | src/Config.php:105-122 | fails exactly when validation fails; otherwise a new configuration holding the repository and includes |
| LegacyConfig.AuthorOfReadConfiguration | src/Config.php:64-66 | the author of a configuration read from a file is always a `TypeError` |
| Shell.Mkdir | src/DrupalArtifactBuilder.php:294 | `mkdir` succeeds exactly when nothing is at the path and its parent is a directory; it makes the directory and changes nothing else |
| Shell.MkdirP | src/DrupalArtifactBuilderCreate.php:90 | `mkdir -p` succeeds exactly when every prefix is free or a directory; all prefixes are then directories, and only they are added |
| Shell.MkdirPExisting | src/DrupalArtifactBuilderCreate.php:90 | `mkdir -p` of existing directories changes nothing |
| Shell.Copy | src/DrupalArtifactBuilder.php:306 | `cp` succeeds under its conditions, copies the source's entries under the target and changes nothing outside it |
| Shell.CopyFresh | src/DrupalArtifactBuilder.php:306 | a copy to an empty place makes it an exact copy of the source |
| Shell.RemoveGlob | src/DrupalArtifactBuilderCreate.php:51 | `rm -rf <dir>/*` removes every visible entry directly inside the folder with all it holds, keeps the rest unchanged and never fails |
| Shell.RemoveTree | src/DrupalArtifactBuilder.php:230 | `rm -rf` removes the path and everything below it, and nothing else |
| Shell.FindAndRemove | src/DrupalArtifactBuilder.php:319 | `find` fails exactly when its start directory is missing; otherwise it removes the named files below it |
| Shell.Purged | src/DrupalArtifactBuilder.php:264-266 | removing several names keeps exactly the entries none of them matches, unchanged |
| Shell.PurgeStep | src/DrupalArtifactBuilder.php:318-321 | one more `find` of a name extends the removal by that name |
| Shell.PurgeIdempotent | src/DrupalArtifactBuilder.php:318-321 | removing the same names twice is removing them once |
| Shell.RemoveGitEntries | src/DrupalArtifactBuilder.php:269 | `find -name .git -exec rm -fr` removes every `.git` entry below the start and what lies under it, and nothing else |
| Shell.Ln | src/DrupalArtifactBuilder.php:204-207 | `ln -s` succeeds exactly when the link's place is free and its folder exists, adding just the link |
| Shell.WriteFile | src/DrupalArtifactBuilder.php:236 | `echo > file` succeeds exactly when the folder exists and the path is not a directory, and sets just that file |
| Shell.PutContents | src/DrupalArtifactBuilder.php:396 | `file_put_contents()` writes the file, or silently changes nothing when it cannot |
| Shell.Clone | src/DrupalArtifactBuilder.php:228 | a clone succeeds exactly when the repository is reachable and the target is free or an empty directory; it adds only the clone, with its `.git` |
| Shell.Words | src/DrupalArtifactBuilder.php:236 | the shell splits an unquoted operand into non-empty words without blanks |
| Shell.WordsOfWord | src/DrupalArtifactBuilder.php:236 | one word followed by newlines stays one word |
| Shell.Run | src/BaseCommand.php:92-100 | a failing command changes nothing |
| Shell.Disk.constructor | src/BaseCommand.php:69-72 | the working copy starts as the given tree |
| Shell.Disk.RunCommand | src/BaseCommand.php:92-100 | runs one command line on the working copy, as `Run` |
| Shell.Disk.PutFile | src/DrupalArtifactBuilder.php:396 | writes one file on the working copy, as `PutContents` |

## Left out

- Running processes is not modelled: timeouts, quoting, exit codes other than success or failure, and the console output and log lines.
- Git itself is not modelled. The repository a clone fetches is a parameter (`gitDir`: its `.git` contents, or none for a failed clone). The output of `git rev-parse HEAD` is a parameter (`head`). The output of the branch command is a parameter (`branchOutput`, with `BranchCommandOutput` describing it). The output of `git status --porcelain | grep -v .env | wc -l` is a parameter (`status`).
- `gitCommitPush()` (`git add`, `git commit`, `git push`) is left out with the rest of git. So is the author's only use, in the commit. Its `sprintf('git push origin', $this->branch)` ignores the branch, and that is not modelled either.
- YAML parsing is not modelled. The configuration readers take the parsed document as a value: null, boolean, integer, string or array. Floats and dates are not modelled.
- PHP integer array keys are modelled on the 64-bit range through `IntCast` and `KeyOf`; larger numeric strings stay string keys.
- `chdir()` and `getcwd()` are not modelled; the working folder is passed as a path. `..` above the project root, absolute paths and absolute link targets resolve to nothing.
- `find -name` takes the names as plain names, not glob patterns. `echo` option parsing is not modelled.
- A `cp` that fails part-way is modelled as changing nothing.
- MkdirP (`Shell.MkdirP`): a symbolic link on the path is not followed; it counts as an obstacle where `mkdir -p` goes through a link to a directory. So a `deploy-artifact` that is a link to a directory makes the model of `create` fail at `mkdir -p`, where the command would go on.
- Copy (`Shell.Copy`): a destination that is a symbolic link, or that lies below one, is not followed. A link to a directory is not copied into: the model replaces the link, or fails for a source that is a directory, where `cp` copies into the linked directory. So a linked `deploy-artifact` makes the model of the `git` command's `cp -r deploy-artifact-repository/.git deploy-artifact` fail, although its artifact check passes through the link.
- WriteFile (`Shell.WriteFile`): a symbolic link at the path, or on its folder, is not written through; the model replaces a link at the path by the file, where `echo >` writes to the file the link names. The same holds for `Shell.PutContents`.
- CopyPresentHolds (`ArtifactCopy.CopyPresentHolds`, and with it `ArtifactCreate.AssembleContents` and `GenerateContents`): for an optional name whose symbolic-link lookup passes through `deploy-artifact`, only the turn-by-turn fact of `ArtifactCopy.PresentStep` is stated (copied exactly when `file_exists()` finds it in the tree of that turn), because the answer then depends on the copies made before it.
- The command dispatcher in `src/DrupalArtifactBuilderBuild.php` (it runs `create` then `git`) and the interfaces `ConfigInterface` and `ConfigurableInterface` are not part of this model.
- The contents of `FILES_TO_CLEAN` and `DEFAULT_COMMIT_AUTHOR` are not defined in the source files modelled. The `git` command takes its list of names as a parameter, and `Config.Config.GetAuthor` takes the default author as one.
- The exception messages are not modelled, only which check failed. This includes the author-key message of `src/Config/Config.php:118`, which reports the type of `repository`.
- The extra-paths branch always fails, because `explode(',')` is called without a string to split. No corrected version is modelled; the copies of extra paths are therefore not modelled.

## Findings

| source | as written | input that shows it | evidently intended | confidence | as-written member | corrected member |
|---|---|---|---|---|---|---|
| src/DrupalArtifactBuilder.php:196-204 | the number of `../` in the link is the number of textual pieces of `explode('/')` before the last one | symlink option `./public_html`, docroot `web`: the code runs `mkdir -p .` and `ln -s ../web ./public_html` inside the artifact folder, so `deploy-artifact/public_html` points at the project's own `web`, outside the artifact | climb as many folders as the link actually lies below the artifact folder, so that the link reaches the artifact's docroot (the comment at lines 193-195 asks that it "does not appear broken") | not executed; high for the path arithmetic, medium that such options are used | BuildSymlink.AsWrittenEscapes | BuildSymlink.LinkTargetResolves |
