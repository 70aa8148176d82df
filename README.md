# File organizer core, modelled in Dafny

The file organizer watches source directories and moves files into
destination directories. Which destination a file goes to is decided by
the first rule that lists the file's extension. This project models the
core of that program and proves properties of the model:

- **Validation** (`config.dfy`, modules `Config` and `Validation`). The
  configuration records and `Validate` follow the check chain in order:
  log level, delay, worker count, the monitor list, each monitor, then
  each rule. Each passing rule's destination directory is created as it
  is reached. `ParseDelayDuration` refuses an unparsable or negative
  delay.
- **Rule matching** (`rules.dfy`, module `Rules`). `MatchRule` takes the
  extension of the file's base name and lower-cases it. It then returns
  the first rule one of whose extensions is equal to it when
  lower-cased.
- **Moving** (`mover.dfy`, module `Mover`):
  - The file system is a mutable `Disk` object over a map from paths to
    nodes.
  - `MoveFile` stats the source, creates the destination directory,
    resolves a conflict with `handleConflict`, then renames. When the
    rename fails across devices it falls back to `copyFile` and removes
    the source.
  - `generateUniqueName` tries `name_1.ext` up to `name_1000.ext`. When
    all of those exist it falls back to a timestamped name.
- **Watching** (`watcher.dfy`, module `Watcher`):
  - the filter chain of `handleEvent`;
  - the temporary-file test;
  - the three-attempt readiness check;
  - the watch list that `addPath` builds, with its optional recursive
    walk.
- **Paths** (`paths.dfy`, module `Paths`) covers the parts of Go's
  `path/filepath` and `strings` that the core relies on: `Base`, `Ext`,
  `Dir`, `Join`, `TrimSuffix`, `ToLower` and decimal formatting. Paths
  are taken to be clean, as `filepath.Clean` would leave them.
- **Integration** (`integration.dfy`) shows two configurations that the
  validator accepts but the rest of the program cannot act on.

Every operating-system answer is a parameter of the model:
- the results of stat and open;
- whether an `Add`, `MkdirAll`, rename, copy step or remove fails,
  including the removal of a partial copy and how many bytes the failed
  copy wrote;
- the directory walk;
- the clock's timestamp;
- the duration parser.

Within those answers, every branch of the source is modelled. Each
method is proved against a specification function (`ValidateSpec`,
`MoveSpec`, `UniqueName`, `WalkAdds`, `Admit`), and the lemmas state
what those functions promise.

Behaviour that follows from the code as written, and that the model
therefore keeps:

- The validator accepts the conflict strategy `"skip"`, but
  `handleConflict` knows only `"rename"` and `"overwrite"`. A conflict
  under a `"skip"` rule therefore fails with an unknown-strategy error
  (`Integration.SkipValidatesButCannotMove`).
- A rule's `name_contains` and `name_starts_with` lists count as
  matching criteria for the validator, but the matcher never reads them.
  A rule with only those criteria matches no file
  (`Integration.NameOnlyRuleValidatesButNeverMatches`). The matcher is
  modelled as the code has it (extensions only), not as a matcher over
  several criteria.
- Under `"overwrite"`, take a move across devices whose content copy
  then fails. The existing destination is truncated by the create and
  then removed, so it is lost while the source stays in place. When that
  removal fails too (its error is ignored), the destination is left
  holding only the bytes copied so far
  (`Mover.OverwriteCopyFailureLosesOldDestination`).
- A file that passes the readiness check is only logged. `handleEvent`
  neither matches it nor moves it.

## Model

| member | source | states |
|---|---|---|
| Paths.Lower | src/processor/rules.go:18 | ASCII lower-casing: same length, and each upper-case letter is mapped to its lower-case letter with every other character kept |
| Paths.LowerIdempotent | src/processor/rules.go:32 | lower-casing twice is the same as lower-casing once, so an extension that is already normalised compares unchanged |
| Paths.Base | src/processor/rules.go:14 | the last element is never empty, and for a path without a trailing slash it is the text after the last slash |
| Paths.AfterLastSlash | src/processor/rules.go:14 | the text after the last slash is a suffix of the path, preceded by a slash unless it is the whole path |
| Paths.AfterLastSlashHasNoSlash | src/processor/rules.go:14 | the last element never holds a separator |
| Paths.AfterLastSlashOfSlashFree | src/processor/rules.go:14 | a slash-free name is its own last element |
| Paths.AfterLastSlashAfterSeparator | src/processor/mover.go:38 | whatever precedes the last separator, the name after it is the last element |
| Paths.ExtOf | src/processor/rules.go:15 | the extension is a suffix of the name, and is empty or starts with a dot |
| Paths.ExtOfDots | src/processor/rules.go:15 | the extension is empty exactly when the name has no dot; otherwise it starts at the last dot and holds no other dot |
| Paths.ExtOfAppendDot | src/processor/rules.go:15 | a name ending in a dot has the bare dot as its extension |
| Paths.ExtOfAppendChar | src/processor/rules.go:15 | appending a character other than a dot extends an existing extension by it and never creates one |
| Paths.Ext | src/processor/mover.go:117 | the extension of a path comes from its last element only, and is empty or starts with a dot |
| Paths.Dir | src/processor/mover.go:116 | the directory part is never empty ("." when there is no slash) |
| Paths.DirOfChild | src/processor/mover.go:116 | the directory of a slash-free name joined onto a directory is that directory, so splitting undoes the join |
| Paths.Join | src/processor/mover.go:38 | the joined path ends with the joined name |
| Paths.TrimSuffix | src/processor/mover.go:118 | putting the suffix back gives the original when it was a suffix; otherwise the string is unchanged |
| Paths.Decimal | src/processor/mover.go:122 | the counter's decimal form is never empty |
| Paths.DecimalRoundTrip | src/processor/mover.go:122 | the counter's decimal form is made of digits only, and reading them back gives the counter |
| Paths.DecimalInjective | src/processor/mover.go:122 | different counters have different decimal forms, so the candidate names name_1.ext, name_2.ext, ... are distinct |
| Paths.BaseOfJoin | src/processor/mover.go:38 | the last element of dir joined with a slash-free name is that name, so the moved file keeps its name |
| Paths.BaseOfChild | src/processor/rules.go:14 | the last element of `dir/name`, for a slash-free name, is that name |
| Validation.ParseDelayDuration | src/config/config.go:141-153 | accepts exactly the parsable non-negative durations and returns them; reports unparsable and negative input as distinct errors |
| Validation.CheckSettings | src/config/config.go:64-82 | settings pass exactly when the log level is one of debug/info/warn/error, the delay parses to a non-negative value and the worker count is positive; failures are reported in that order: log level, then the delay's own error, then the worker count |
| Validation.CheckMonitor | src/config/config.go:89-102 | a monitor passes exactly when it has a name, its source path exists and it has at least one rule; failures are reported in that order: name, source path, rule list |
| Validation.CheckRule | src/config/config.go:104-127 | a rule passes exactly when it has a name, at least one of the three criteria, a destination, and a strategy among rename/overwrite/skip; failures are reported in that order: name, criterion, destination, strategy |
| Validation.RuleFailure | src/config/config.go:104-133 | a rule fails at its first failing field check, and otherwise exactly when its destination directory cannot be created |
| Validation.RulesFrom | src/config/config.go:104-134 | the rule loop only ever appends to the directories created so far, at most one per remaining rule, and exactly one per remaining rule when it succeeds |
| Validation.MonitorsFrom | src/config/config.go:89-135 | the monitor loop only ever appends to the directories created so far |
| Validation.ValidateSpec | src/config/config.go:62-138 | success requires valid settings and a non-empty monitor list, and no directory is created when either is missing |
| Validation.Validate | src/config/config.go:62-138 | the nested validation loops return the first failure of the check chain, and the destinations created so far, in order |
| Validation.RulesFromOk | src/config/config.go:104-134 | the rule loop succeeds exactly when every remaining rule passes and its directory can be created; it then has created every remaining destination in order |
| Validation.MonitorsFromOk | src/config/config.go:89-135 | the monitor loop succeeds exactly when every remaining monitor passes, and it then has created all their destinations in order |
| Validation.ValidateSucceedsIff | src/config/config.go:62-138 | Validate returns no error if and only if every check on settings, monitors and rules passes |
| Validation.ValidateCreatesAllDestinations | src/config/config.go:129-133 | after a successful validation, every rule's destination of every monitor has been created |
| Validation.DestinationListed | src/config/config.go:129-133 | every rule destination of a monitor from a given position on is among the directories created from that position |
| Validation.RulesFromFirstFailure | src/config/config.go:104-134 | a failing rule loop reports the failure of the first rule that does not pass, all earlier rules having passed |
| Validation.MonitorsFromFirstFailure | src/config/config.go:89-135 | a failing monitor loop reports the first monitor that does not pass, all earlier monitors having passed |
| Validation.ValidateReportsFirstFailure | src/config/config.go:62-138 | a failed validation reports the settings error if there is one, then "no monitors", then the first failing monitor's own or first rule error |
| Validation.LogLevelIsCaseSensitive | src/config/config.go:64-72 | "DEBUG" is rejected as a log level: the comparison does not fold case |
| Validation.DelaySign | src/config/config.go:148-152 | a zero delay is accepted and a negative one is refused as negative |
| Rules.FirstListing | src/processor/rules.go:26-38 | the first rule at or after a position that lists the extension, or none exactly when no later rule lists it |
| Rules.FileExt | src/processor/rules.go:14-18 | the file's lower-cased extension has the length of its extension and is empty or starts with a dot |
| Rules.ListsExt | src/processor/rules.go:30-34 | only a rule with a non-empty extension list can list an extension |
| Rules.MatchIndex | src/processor/rules.go:12-42 | no match for a file without an extension; otherwise the first rule whose lower-cased extensions contain the file's lower-cased extension, and none exactly when no rule does |
| Rules.MatchRule | src/processor/rules.go:12-42 | returns a rule exactly when one matches, and then the rule at the first matching index |
| Rules.EmptyExtensionsNeverMatch | src/processor/rules.go:30-36 | a rule with no extensions is never chosen |
| Rules.ExtensionCaseIgnored | src/processor/rules.go:18 | two files whose extensions agree once lower-cased get the same rule |
| Rules.ListsExtCaseIgnored | src/processor/rules.go:32-34 | rules whose extension lists agree once lower-cased list the same extensions |
| Rules.FirstListingCaseIgnored | src/processor/rules.go:26-38 | rule lists that agree once extensions are lower-cased give the same first listing |
| Rules.RuleCaseIgnored | src/processor/rules.go:32-34 | changing the case of the rules' extensions never changes which rule a file matches |
| Rules.FirstListingSharedPrefix | src/processor/rules.go:26-38 | two rule lists that agree up to the first listing rule give the same first listing |
| Rules.LaterRulesIrrelevant | src/processor/rules.go:26-38 | first match wins: rules after the matching one can be changed freely without changing the match |
| Rules.LoweredFirstChar | src/processor/rules.go:32 | lower-casing keeps the leading dot of an extension and never creates one |
| Rules.DotlessEntryNeverMatches | src/processor/rules.go:30-36 | a rule whose extensions are written without the leading dot never matches, since a file's extension always starts with one |
| Rules.DoubleExtensionMatchesLastPart | src/processor/rules.go:15 | "x/a.tar.gz" matches a rule listing ".GZ": only the last extension counts, case-insensitively |
| Rules.ExtOfTarGz | src/processor/rules.go:15 | the extension of "a.tar.gz" is ".gz" |
| Rules.LowerGz | src/processor/rules.go:32 | ".GZ" lower-cases to ".gz" |
| Rules.DottedDirectoryNoExtension | src/processor/rules.go:14-15 | a dot in a directory name does not give the file an extension, so "x.gz/archive" matches nothing |
| Mover.MkdirAllSpec | src/processor/mover.go:42 | on success the directory exists and nothing else changes; on failure, or when the path already exists, the file system is unchanged |
| Mover.RenameOutcome | src/processor/mover.go:61 | a rename onto itself succeeds; a rename onto an existing directory fails with an ordinary error whatever the device, so the copy fallback is never taken for it; success and the cross-device error imply the target is not a directory |
| Mover.RenameSpec | src/processor/mover.go:61 | after a rename the target holds the source's node, the source is gone (unless it was the target) and every other path is untouched |
| Mover.Written | src/processor/mover.go:159 | the bytes a failed copy has written are a prefix of the source's content, of the given length when the source is that long |
| Mover.CopySpec | src/processor/mover.go:143-181 | copying touches only the destination; a failed open or create changes nothing; after a successful copy or a failed sync the destination holds the source's file |
| Mover.Split | src/processor/mover.go:116-118 | the stem and the extension put back together give the last element, and the extension is empty or starts with a dot |
| Mover.FirstFree | src/processor/mover.go:120-138 | the smallest counter from k to 1000 whose path is free, or none exactly when every one of them is taken |
| Mover.UniqueFor | src/processor/mover.go:120-139 | the chosen name is free, or it is the timestamped fallback |
| Mover.UniqueName | src/processor/mover.go:115-140 | generateUniqueName's answer is a free path, or the timestamped fallback |
| Mover.HandleConflict | src/processor/mover.go:88-111 | succeeds exactly for "overwrite" (same path) and "rename" (the unique name); any other strategy is an unknown-strategy error |
| Mover.Target | src/processor/mover.go:47-57 | the effective destination: the joined path when it is free or under overwrite, the unique name under rename, an unknown-strategy error otherwise |
| Mover.RelocateSpec | src/processor/mover.go:59-77 | a relocation either moves or fails; a move lands on the destination with the source's file, and removes the source exactly when it reports so |
| Mover.MoveSpec | src/processor/mover.go:15-85 | the source-vanished and source-is-directory outcomes arise exactly in their cases, and a successful move leaves the source's file at the reported destination |
| Mover.Disk.MkdirAll | src/processor/mover.go:42-44 | the disk state and result agree with the MkdirAll specification |
| Mover.Disk.Rename | src/processor/mover.go:61 | the disk changes as the rename specification says exactly when the rename succeeds |
| Mover.Disk.Remove | src/processor/mover.go:71 | the path is removed exactly when removal does not fail |
| Mover.Disk.CopyFile | src/processor/mover.go:143-181 | the disk state and error agree with the copy specification: open, create (truncating), copy (removing the partial copy on failure, or leaving it when that removal fails), sync |
| Mover.Disk.GenerateUniqueName | src/processor/mover.go:115-140 | the counter loop returns the unique name: the first free name_k.ext for k up to 1000, else the timestamped name |
| Mover.MoveFile | src/processor/mover.go:15-85 | the new disk state and the outcome are those of the move specification |
| Mover.Relocate | src/processor/mover.go:59-77 | rename, and on a cross-device error copy then remove, with state and outcome as specified |
| Mover.EarlyExitsChangeNothing | src/processor/mover.go:19-30 | a vanished source or a directory source is skipped without error, and a stat error is reported; in all three cases nothing changes |
| Mover.RelocateFailureKeepsSource | src/processor/mover.go:60-77 | a failed rename or copy leaves the source file in place with its content |
| Mover.FailureKeepsSource | src/processor/mover.go:15-85 | whenever MoveFile fails, the source file is still there, unchanged |
| Mover.RelocateEarlyFailureFrame | src/processor/mover.go:60-77 | a failure before any content is written changes nothing at all |
| Mover.EarlyFailureFrame | src/processor/mover.go:15-85 | a move that fails before copying content changes nothing except possibly creating the destination directory |
| Mover.PlainMove | src/processor/mover.go:38-61 | with no conflict and a working rename, the file is moved under its own name into the destination directory; everything else is untouched |
| Mover.CrossDeviceMove | src/processor/mover.go:61-77 | the cross-device fallback: a successful copy moves the content and removes the source unless removal fails; a failed content copy keeps the source and leaves no destination, or the bytes written so far when the rollback removal fails; a failed sync keeps both copies; any other rename error changes nothing |
| Mover.CrossDeviceRelocate | src/processor/mover.go:61-77 | the same four cases for the relocation step onto a free destination |
| Mover.OverwriteCopyFailureLosesOldDestination | src/processor/mover.go:152-163 | with "overwrite", a failed cross-device content copy destroys the old destination file: it is deleted, or, when the rollback removal fails, replaced by the first bytes of the source |
| Mover.OverwriteCopyFailureStep | src/processor/mover.go:152-163 | a failed content copy onto an existing file removes that file, or leaves the partial copy there when the removal fails, and changes nothing else |
| Mover.UniqueNameSmallestFree | src/processor/mover.go:120-128 | when name_k.ext is free, the unique name is the smallest free name_m.ext with m at most k |
| Mover.UniqueNameFallback | src/processor/mover.go:133-137 | when all 1000 counter names are taken, the unique name is the timestamped one |
| Mover.RelocateFrame | src/processor/mover.go:60-77 | moving a file touches only the source and the destination |
| Mover.SlashFreeName | src/processor/mover.go:136 | the timestamped name assembled from a slash-free name and a slash-free timestamp holds no separator |
| Mover.StampPathDiffers | src/processor/mover.go:136-137 | the timestamped name differs from the conflicting destination |
| Mover.UniqueNameDiffers | src/processor/mover.go:115-140 | the generated name never equals the conflicting destination |
| Mover.JoinEndsWithName | src/processor/mover.go:123 | a path joined with a slash-free name does not end with a slash |
| Mover.RenameStepKeepsExisting | src/processor/mover.go:99-106 | moving to the unique name leaves the existing destination file untouched, and a successful move lands on the unique name |
| Mover.RelocateKeepsOther | src/processor/mover.go:60-77 | moving a file leaves every path other than the source and the target as it was, and a move lands on the target |
| Mover.RenameKeepsExistingDestination | src/processor/mover.go:47-61 | with "rename", the file already at the destination is never overwritten, and a successful move goes to a different path |
| Mover.AfterMkdirKeepsExisting | src/processor/mover.go:47-61 | the same guarantee once the destination directory exists |
| Mover.MoveSpecUnderRename | src/processor/mover.go:38-61 | once the destination directory exists and the destination is taken, a rename-strategy move relocates the file to the unique name |
| Mover.DirDocumentPdf | src/processor/mover.go:116 | the directory of "docs/document.pdf" is "docs" |
| Mover.SplitOfChild | src/processor/mover.go:116-118 | a name joined onto a directory splits back into that directory, the stem and the extension |
| Mover.SplitDocumentPdf | src/processor/mover.go:116-118 | "docs/document.pdf" splits into directory "docs", stem "document" and extension ".pdf" |
| Mover.CounterPathDocumentPdf | src/processor/mover.go:122-123 | the first counter name for it is "docs/document_1.pdf" |
| Mover.UniqueNameExample | src/processor/mover.go:114 | with only "docs/document.pdf" present, the unique name is "docs/document_1.pdf" |
| Mover.ExtOfDocumentPdf | src/processor/mover.go:117 | the extension of "document.pdf" is ".pdf" |
| Watcher.EndsWithAny | src/watcher/watcher.go:196-200 | true exactly when some listed suffix ends the string |
| Watcher.IsTempFile | src/watcher/watcher.go:185-203 | a name is temporary exactly when, lower-cased, it ends with .tmp, .temp, .crdownload, .part, .download or .partial |
| Watcher.UpperCasePartIsTemporary | src/watcher/watcher.go:195-196 | "FILE.PART" is temporary: the suffix test ignores case |
| Watcher.Admit | src/watcher/watcher.go:126-170 | Chmod is dropped first; events that are neither Create nor Write are dropped; a stat error drops the event and is distinguished from "not exist"; a directory is watched only on Create under a recursive monitor; a file reaches the readiness check exactly when it is not hidden and not temporary |
| Watcher.ReadyFrom | src/watcher/watcher.go:207-250 | a yes from the remaining attempts needs an attempt that opens the file and stats it |
| Watcher.ReadyFromIff | src/watcher/watcher.go:207-250 | the readiness answer is yes exactly when some attempt within the three opens the file with a working stat, every earlier attempt having found it busy |
| Watcher.IsFileReady | src/watcher/watcher.go:207-250 | one to three attempts, sleeping between attempts only; every attempt but the last found the file busy; ready exactly when the last attempt opened the file and stat succeeded |
| Watcher.FileWatcher.AddPath | src/watcher/watcher.go:50-84 | fails, watching nothing, exactly when the root cannot be added; otherwise the watch list gains the root and then, when recursive, the directories the walk adds |
| Watcher.AddsOnWalk | src/watcher/watcher.go:60-77 | the walk callback adds only a non-empty path other than the root |
| Watcher.WalkAdds | src/watcher/watcher.go:60-77 | the walk adds at most one watch per entry, never the root and never a path whose Add fails |
| Watcher.FileWatcher.HandleEvent | src/watcher/watcher.go:126-182 | the decision is the filter chain's; only a file that passes every filter gets a readiness answer; only a new directory under a recursive monitor extends the watch list |
| Watcher.WalkAddsOntoIsAppend | src/watcher/watcher.go:60-77 | adding the walk's directories one at a time onto the watch list appends exactly the walk's additions |
| Watcher.VisitsDirectorySnoc | src/watcher/watcher.go:60-77 | the walk visits a directory exactly when its earlier part does or its last entry is that directory |
| Watcher.WalkAddsMembers | src/watcher/watcher.go:60-77 | a path is watched by the walk exactly when the walk visits it as a directory, its own name is not hidden, it is not the root and adding it succeeds |
| Watcher.RootNotReadded | src/watcher/watcher.go:68 | the walk never adds the root a second time |
| Watcher.WalkAddsDistinct | src/watcher/watcher.go:60-77 | a walk that visits each path once adds each watch once |
| Watcher.WalkAddsSnoc | src/watcher/watcher.go:67-74 | one more walk entry adds its path exactly when it is a non-hidden directory other than the root whose Add succeeds |
| Watcher.HiddenDirectoryNotPruned | src/watcher/watcher.go:67 | ".git" is not watched, but "r/.git/objects" below it is: hidden directories are skipped, not pruned |
| Integration.OneRuleConfigValid | src/config/config.go:62-138 | a one-monitor configuration whose single rule passes is accepted |
| Integration.SkipValidatesButCannotMove | src/config/config.go:119-124 | a rule with strategy "skip" is accepted by the validator, yet the conflict handler rejects "skip" as unknown |
| Integration.NameOnlyRuleValidatesButNeverMatches | src/processor/rules.go:30-36 | a rule with only a name_contains criterion is accepted by the validator, yet matches no file |

## Left out

- The worker pool (`src/watcher/worker_pool.go`) is left out: it is concurrency only, and no file is ever handed to it.
- `watchLoop`, `Start`, `Stop` and the channel plumbing are left out: they are concurrency and event delivery, not decisions.
- `NewFileWatcher` is covered only through `AddPath` on a fresh `FileWatcher`: creating the fsnotify watcher and closing it on error are foreign calls.
- `LoadConfig` (YAML decoding), `main.go` and `logger.go` are left out: they are I/O and library calls.
- The file system, fsnotify, `filepath.Walk`, `time.ParseDuration` and the clock are parameters. Their answers are inputs, not computed.
- Paths.Lower: lower-cases ASCII letters only. Go's `strings.ToLower` also folds non-ASCII letters.
- Paths are taken as already clean. `filepath.Join`, `Dir` and `Base` also collapse `..`, `.` and repeated slashes, and that cleaning is not modelled.
- Mover.MkdirAllSpec: creates only the named directory, not missing parents, and does not model permission bits.
- Mover.Disk.CopyFile: copying the permission bits and closing the files are not modelled. The chmod is best-effort and its result is ignored.
- Stat failures other than "does not exist" on the destination or on counter names are not modelled: every path in the map exists and every other path does not.
- Watcher.IsFileReady: the sleeps are counted, not timed; the delay value and the zero-size debug log are left out.
- Log messages are not modelled, except where a log is the only effect of a branch: the dropped-event verdicts and a ready file.
- Validation.Validate: directories created by `MkdirAll` are recorded as a list, not applied to a file-system model.
