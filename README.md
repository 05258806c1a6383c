# mono: a verified model of the workspace CLI core

`mono` is a command-line tool for Yarn-workspaces mono repos. It finds the
workspace root by walking up from the working directory. It discovers the
member packages from the root's `workspaces` globs and selects packages with a
comma-separated `--include` filter (exact names, trailing-`*` wildcards, or
`*` alone). It then runs one of five commands over the selection:

- `list` prints `name@version` for each package;
- `find` prints each package's directory relative to the working directory;
- `run` runs an npm script through `yarn run` in each package that declares
  it, one package at a time, and stops at the first non-zero exit code;
- `add` resolves a version for each install target (explicit, local, or from
  the npm registry) and writes the entries into each selected manifest, then
  runs `yarn`;
- `remove` deletes the named entries from both dependency objects of each
  selected manifest, then runs `yarn`.

Every message goes through a console logger. It splits the message into
lines, drops a blank last line, right-trims each line and tags it with a
prefix and the level's name. Per-package log prefixes are coloured by a
module-level colour cycler.

One Dafny module models each core source file:

| module | source |
|---|---|
| `Packages` | `src/packages.ts` |
| `MonoRepo` | `src/mono-repo.ts` |
| `Logger` | `src/logger.ts` |
| `Colors` | `src/colors.ts` |
| `ListCommand`, `FindCommand`, `RunCommand`, `AddCommand`, `RemoveCommand` | `src/commands/*.ts` |

Shared modules:

- `Strings` holds the JavaScript string built-ins the code relies on;
- `Json` holds parsed JSON values;
- `Manifests` is a class standing for the `package.json` files that `add` and
  `remove` read and write back;
- `Messages` holds the log calls and messages the handlers share;
- `Wrappers` holds `Option` and `Result`.

The functional code (the filter, the name and version parsing, the logger's
format, the root search) is written as functions with lemmas. The code that
works step by step is written as methods with loops, each proved against a
function of its inputs. That covers the colour cycler, the `run` executor
loop and the read-modify-write loops of `add` and `remove`.

How the model reads the source:

- **Outside services are parameters.** The filesystem, glob expansion,
  `readJson`, the npm registry, `path.relative` and child exit codes are
  passed in as values or functions.
- **Log calls are recorded.** A handler returns its log calls as a sequence of
  `LogCall(level, message)`.
- **`yarn` is recorded, not run.** `add` and `remove` return, as `yarnAt`,
  the `cwd` they pass to `exec` for `yarn`: the workspace root.
- **Rejections are `Result` or `Option` values.** A rejected promise becomes
  an error value instead of an exception.

Points where the code's behaviour is easy to misread, and which the model follows:

- **The version modifier is one character.** When an explicit version does
  not start with a digit, the code splits off exactly its first character
  as the modifier (`src/packages.ts:152-158`), so `>=1.0` gives modifier `>`
  and version `=1.0`. The written `modifier + version` is the version as
  typed.
- **The logger adds a level tag.** Each line carries the prefix, a space, the
  level name (`error`, `info` or `warn`), a colon and a space
  (`src/logger.ts:34`), not the prefix alone. The logger test text expects the
  form without the level; the model follows the code.
- **A whitespace-only last line is also dropped.** The final piece is dropped
  whenever it trims to nothing, not only when it is empty
  (`src/logger.ts:30-33`).
- **The root search is recursive.** The code walks up by recursion
  (`src/mono-repo.ts:82`), so the model is a recursive function.
- **The packages test uses old names.** Its text calls the name and version
  parsers `extractPackageName` and `extractPackageVersion`. The model uses the
  names in `src/packages.ts`.

## Model

| member | source | states |
|---|---|---|
| `Strings.Split` | src/packages.ts:60 | One-character `split`: there is at least one piece and no piece holds the separator. The first piece is a prefix of the input. It is the whole input exactly when there is one piece; otherwise a separator follows it. |
| `Strings.SplitTail` | src/logger.ts:28 | After the first piece and its separator, the remaining pieces are the split of the rest of the string. |
| `Strings.JoinSplit` | src/logger.ts:28-35 | Joining the pieces of a split with the same separator gives back the original string. |
| `Strings.SplitJoin` | src/logger.ts:28-35 | Splitting a join of separator-free pieces gives back exactly those pieces. |
| `Strings.SplitNoSeparator` | src/packages.ts:60 | A string without the separator splits into itself alone. |
| `Strings.SplitAfterPiece` | src/packages.ts:60 | A separator-free piece followed by the separator is the first piece of the split. |
| `Strings.IndexOf` | src/packages.ts:45 | As used by the first-occurrence `replace`: the index, if any, is an occurrence with no earlier one. None means the pattern occurs nowhere. |
| `Strings.TrimRight` | src/logger.ts:34 | `trimRight` keeps the longest prefix that does not end in whitespace; what it removes is all whitespace. |
| `Strings.TrimLeft` | src/logger.ts:32 | The result is a suffix that does not start with whitespace; what it removes is all whitespace. |
| `Strings.TrimEmptyIffBlank` | src/logger.ts:32 | `trim().length === 0` holds exactly when every character is whitespace. |
| `Strings.NatToString` | src/commands/list.ts:45 | The template rendering of a count is a non-empty run of decimal digits with no leading zero. |
| `Strings.ParseNatToString` | src/commands/list.ts:45 | Reading the rendered digits back gives the number: the rendering loses nothing. |
| `Strings.IntToStringRoundTrip` | src/commands/run.ts:84 | A rendered exit code starts with `-` exactly when it is negative; the digits after the sign read back as its magnitude, so the rendering loses nothing. |
| `Packages.FlattenAppend` | src/packages.ts:32-33 | The `reduce` flattening is concatenation: results of earlier patterns stay in front of later ones. |
| `Packages.DropNodeModules` | src/packages.ts:34 | Keeps exactly the paths in which `node_modules` does not occur. |
| `Packages.DropNodeModulesAppend` | src/packages.ts:34 | The filter works path by path, so it commutes with concatenation and keeps the survivors' order. |
| `Packages.ManifestPathsAppend` | src/packages.ts:32-34 | The paths of two groups of patterns are those of each group in turn: pattern order is kept. |
| `Packages.FlattenMembers` | src/packages.ts:32-33 | A path is in the flattened results exactly when some pattern matched it. |
| `Packages.ManifestPathsMembers` | src/packages.ts:29-34 | A path is loaded exactly when some pattern matched it and it does not contain `node_modules`. |
| `Packages.PackageDirOfManifest` | src/packages.ts:45 | `__dir` of `d/package.json`, when the file name occurs only at the end, is `d`. |
| `Packages.LoadPackages` | src/packages.ts:37-47 | Loading succeeds exactly when every manifest reads. It then gives one package per path, in order, with the manifest's fields and `__dir` taken from the path. An error names a matched path that could not be read. |
| `Packages.GetPackagesFromWorkspaces` | src/packages.ts:12-47 | `getPackages` fails exactly when the root search fails, and gives `[]` without a root. Otherwise every package comes from a path matched by one of the root's workspace patterns, outside `node_modules`, and takes its name from that manifest and its directory from that path. |
| `Packages.DiscoverSkipsNodeModules` | src/packages.ts:34-47 | Discovered package k comes from the k-th surviving path: its path holds no `node_modules` and its dir is that path without `/package.json`. |
| `Packages.NameTokens` | src/packages.ts:63 | The name tokens are exactly the filter tokens without `*`. |
| `Packages.WildcardTokens` | src/packages.ts:64 | The wildcard tokens are exactly the filter tokens containing `*`. |
| `Packages.PassIndices` | src/packages.ts:74-80 | Each `packages.filter` pass returns in-range, strictly increasing positions, exactly those whose name the pass keeps. |
| `Packages.Dedup` | src/packages.ts:72-73 | `Array.from(new Set(...))` has no duplicates and the same elements as its input. |
| `Packages.Without` | src/packages.ts:72-82 | Contains exactly the elements of the first list that are not in the second. |
| `Packages.DedupDistinct` | src/packages.ts:72-73 | A set built from a duplicate-free list gives that list back unchanged. |
| `Packages.DedupConcat` | src/packages.ts:72-82 | The set of `exact ++ wild` is `exact` followed by the wildcard matches not already present. |
| `Packages.FilterIndices` | src/packages.ts:55-83 | `filterPackages` returns distinct input positions, and position k is among them exactly when package k's name is selected. |
| `Packages.FilterOrder` | src/packages.ts:67-82 | With the `*` token, every package in input order. Otherwise the exact-name matches in input order, then the wildcard-only matches in input order. |
| `Packages.WithoutIncreasing` | src/packages.ts:72-82 | Removing elements from an increasing list leaves it increasing and adds nothing. |
| `Packages.FilterStar` | src/packages.ts:67-69 | With the token `*` anywhere in the filter, the input is returned unchanged. |
| `Packages.FilterMembers` | src/packages.ts:55-83 | A package is returned exactly when its name is selected: by `*`, by an exact token, or by a wildcard stem. |
| `Packages.ExactTokenIsNotAPrefix` | src/packages.ts:63-74 | A token without `*` never matches by prefix: filter `o` over `one`, `two`, `three` selects nothing. |
| `Packages.GetPackageName` | src/packages.ts:90-99 | The name is a prefix of the target, scoped exactly when the target is, with no `@` after the scope marker. It is either the whole target or followed by `@`. |
| `Packages.NameIdempotent` | src/packages.ts:90-99 | Taking the name of a name changes nothing. |
| `Packages.NameOfVersionless` | src/packages.ts:90-99 | Without a version `@`, the whole target is its name. |
| `Packages.VersionSegment` | src/packages.ts:112-116 | No version segment exactly when there is no `@` after the scope marker; a segment holds no `@`. |
| `Packages.VersionSegmentPlacement` | src/packages.ts:112-116 | The version segment starts right after the name's `@`. It runs to the end of the target or to the next `@`. |
| `Packages.NameVersionRoundTrip` | src/packages.ts:90-116 | A target built as `name@version` gives back the same name and version. |
| `Packages.ParseVersion` | src/packages.ts:152-158 | Modifier and version concatenate back to the input. The modifier is empty exactly when the input starts with a digit; otherwise it is the first character. |
| `Packages.FindByName` | src/packages.ts:123 | `find` gives the first position with that name; None means no package has it. |
| `Packages.GetPackageVersion` | src/packages.ts:108-159 | An explicit version gives exactly `ParseVersion` of the segment: a one-character modifier unless it starts with a digit, concatenating back to the segment. Otherwise a local package gives `^` plus its version; failing that, the registry's output trimmed behind `^`; an unknown name rejects with `PackageDoesNotExist`. |
| `Packages.LocalVersionNeedsNoRegistry` | src/packages.ts:119-129 | Without a version, a local package of that name resolves to `^` plus its version, whatever the registry says. |
| `MonoRepo.Parent` | src/mono-repo.ts:75 | The parent drops the last segment; the filesystem root is its own parent. |
| `MonoRepo.GetMonoRepo` | src/mono-repo.ts:58-83 | A result is the nearest ancestor-or-self holding a private manifest with a `workspaces` array. An error is the nearest unreadable manifest. None means every directory up to the root was passed over. |
| `MonoRepo.FoundFromDescendant` | src/mono-repo.ts:58-83 | From any directory below a root, with nothing qualifying or unreadable in between, the search finds that root. |
| `MonoRepo.NoneWithoutRoot` | src/mono-repo.ts:74-80 | With no qualifying and no unreadable ancestor, the search ends at the filesystem root with None. |
| `MonoRepo.EmptyWorkspacesQualify` | src/mono-repo.ts:69-71 | Only `Array.isArray` is checked, so an empty `workspaces` array still marks a root. |
| `MonoRepo.PrivateMustBeTrue` | src/mono-repo.ts:69 | A merely truthy `private` (the string "true") does not qualify the directory. |
| `Logger.Kept` | src/logger.ts:30-33 | The filter drops the last piece exactly when it is blank, and keeps every piece otherwise. |
| `Logger.KeptDropsAtMostLast` | src/logger.ts:30-33 | The kept pieces are a prefix of the pieces, losing at most one: a blank final piece. |
| `Logger.KeptByIndexDrops` | src/logger.ts:30-33 | The index-based filter callback keeps every piece from i on, except the last when it trims to nothing. |
| `Logger.OutputLines` | src/logger.ts:26-35 | For every message except the blank single-line ones `Logger.BlankMessage` covers, and when prefix and level hold no line break, the output read back line by line is exactly the formatted kept pieces. |
| `Logger.LineHasNoBreak` | src/logger.ts:34 | A tagged line holds no line break when its parts hold none. |
| `Logger.LineCount` | src/logger.ts:26-35 | The output has as many lines as the message has pieces, or one fewer. |
| `Logger.BlankMessage` | src/logger.ts:28-33 | A blank single-line message formats to the empty string, because its only piece is dropped. The console call is still made, so it prints one empty, untagged line. |
| `Logger.NothingKeptIffBlank` | src/logger.ts:28-33 | No piece is kept exactly when the message is blank and has no line break. So `Logger.BlankMessage` covers precisely the messages that `Logger.OutputLines` and `Logger.EveryLineTagged` exclude. |
| `Logger.InteriorPiecesKept` | src/logger.ts:30-33 | Every piece before the last, blank or not, is kept in place. |
| `Logger.LeadingWhitespaceKept` | src/logger.ts:34 | Right-trimming keeps everything up to the last non-whitespace character, leading whitespace included. |
| `Logger.EveryLineTagged` | src/logger.ts:26-51 | Except for the blank single-line messages `Logger.BlankMessage` covers, every printed line starts with the prefix, a space, the level name, a colon and a space. |
| `Logger.AllTagged` | src/logger.ts:34 | Every line the map step produces carries the tag. |
| `Logger.LineTagged` | src/logger.ts:34 | A formatted line starts with its tag. |
| `Colors.Next` | src/colors.ts:35-36 | The next index stays in the palette and is the current one plus one, modulo the palette length. |
| `Colors.IndexAfter` | src/colors.ts:30-39 | The index reached after any number of calls stays in the palette. |
| `Colors.IndexAfterIsModular` | src/colors.ts:35-36 | n calls from index i reach `(i + n) mod 14`. |
| `Colors.FullRoundReturns` | src/colors.ts:35-36 | A full round of calls brings the index back to where it started. |
| `Colors.ColorCycler.constructor` | src/colors.ts:22 | When the module loads, the index is 0 and no call has been made. |
| `Colors.ColorCycler.ApplyRandomColor` | src/colors.ts:30-39 | Styles with the current colour, then advances the index with wrap-around. The index always equals the number of calls modulo the palette length. |
| `Colors.KthCallColor` | src/colors.ts:22-36 | From a fresh cycler, call k uses colour k mod 14. |
| `Colors.TwoPasses` | src/colors.ts:3-39 | 28 calls from a fresh cycler use the palette in order, twice over, duplicate `redBright` included. |
| `Colors.DoubledPalette` | src/colors.ts:3-20 | Position k of the palette written twice is colour k mod 14. |
| `Messages.HeaderAndLines` | src/commands/add.ts:86-90 | `header + EOL + body.join(EOL)` reads back as the header line followed by the body lines. |
| `Messages.TargetPackagesLines` | src/commands/add.ts:86-90 | The "Target packages:" message reads back as its heading, then one line per target name, in order. |
| `ListCommand.ListHandler` | src/commands/list.ts:30-51 | Exactly one log call: a warning without a root or without a selected package, otherwise the listing of the selected packages. |
| `ListCommand.ListMessageLines` | src/commands/list.ts:44-48 | Read back line by line, the listing is its heading then one `name@version` line per package in filter order. The number in the heading reads back as the count. |
| `ListCommand.ListedIffSelected` | src/commands/list.ts:35-47 | The listing holds a line exactly when some package that the filter selects prints as that line. |
| `FindCommand.FindHandler` | src/commands/find.ts:33-59 | Exactly one log call: a warning without a root or without a selected package, otherwise the directory listing of the selected packages. |
| `FindCommand.FindMessageLines` | src/commands/find.ts:47-56 | Read back, the message is its heading (with the count) then one line per package. A line is the marker exactly when the relative path is empty or is the marker text; otherwise it is the path. |
| `Manifests.ManifestStore.Write` | src/commands/add.ts:120 | Writing replaces that one directory's manifest and records the write, after the earlier ones. |
| `AddCommand.LocalInstallNames` | src/commands/add.ts:48-50 | The local list holds exactly the targets, as typed, whose package name is a local package's. |
| `AddCommand.Pick` | src/commands/add.ts:54-70 | Each `filter` over the targets keeps exactly the targets on its side. |
| `AddCommand.PickCover` | src/commands/add.ts:53-80 | The two filters together are the targets, counted with repetition. |
| `AddCommand.Side` | src/commands/add.ts:55-70 | A side holds exactly the targets whose name is on the local list, or exactly those whose name is not. |
| `AddCommand.SidesPartition` | src/commands/add.ts:53-80 | Every target lands on exactly one side: the sides' sizes add up and their multisets make up the targets. |
| `AddCommand.LocalTargetsAreLocal` | src/commands/add.ts:48-70 | A target on the local side always names a local package. |
| `AddCommand.VersionedTargetGoesToNpm` | src/commands/add.ts:48-70 | A target carrying a version, whose bare name is not itself a target, goes to the npm side even when it names a local package. |
| `AddCommand.EntryOf` | src/commands/add.ts:56-63 | An entry exists exactly when the version lookup succeeds. It holds the target's name and modifier plus version; otherwise the lookup's error. |
| `AddCommand.EntriesEffect` | src/commands/add.ts:53-80 | `Promise.all` succeeds exactly when every target's entry does, giving entry k for target k. Otherwise the error is that of some target. |
| `AddCommand.LocalTargetsResolve` | src/commands/add.ts:68-80 | Targets on the local side always resolve. |
| `AddCommand.EntriesNames` | src/commands/add.ts:53-80 | On success, entry k carries the name of target k. |
| `AddCommand.EntriesFailure` | src/commands/add.ts:53-80 | A failure is the version-lookup failure of one of the targets. |
| `AddCommand.EntriesAppend` | src/commands/add.ts:83 | The entries of two target lists in a row are those of each list in turn, failing at the first failure. |
| `AddCommand.InstallEntriesOrder` | src/commands/add.ts:53-83 | On success there are the npm entries, one per npm target, then the local entries, one per local target: one entry per target in all. |
| `AddCommand.InstallEntriesFailure` | src/commands/add.ts:53-83 | A failure always comes from an npm-side target whose version the registry does not know. |
| `AddCommand.EntriesFor` | src/commands/add.ts:99 | A target gets exactly the entries not named after itself. |
| `AddCommand.LastVersion` | src/commands/add.ts:113-117 | A found version is that of an entry with the name, and no later entry has the name, so later same-name entries overwrite earlier ones. None means no entry has the name. |
| `AddCommand.SetEntriesLookup` | src/commands/add.ts:113-117 | After the inner loop a name is present exactly when it was before or is an entry's. An entry's name maps to its last entry's version; other keys are unchanged. |
| `AddCommand.AddToManifestEffect` | src/commands/add.ts:107-117 | The write fails exactly when the key holds a value that is neither an object nor an array, and other fields are kept. An array is left as it is. Otherwise the key holds an object: each entry's name maps to its last version, and earlier names no entry touches keep their values. |
| `AddCommand.NoSelfEntry` | src/commands/add.ts:97-117 | A package never receives an entry under its own name: whatever it held under that name, it still holds. |
| `AddCommand.StepFrame` | src/commands/add.ts:96-122 | One iteration keeps every directory key and touches and writes only its target's directory. |
| `AddCommand.StepAppends` | src/commands/add.ts:96-122 | An iteration does not depend on earlier writes; it appends its own. |
| `AddCommand.AddWritesNext` | src/commands/add.ts:96-122 | One more target after successful iterations adds that target's own outcome after theirs. |
| `AddCommand.AddFailureStops` | src/commands/add.ts:96-122 | Once the loop has rejected, the later targets change nothing. |
| `AddCommand.WrittenDirsAreTargetDirs` | src/commands/add.ts:101-121 | Every written directory is that of a target with at least one entry left. |
| `AddCommand.AddWritesUntouched` | src/commands/add.ts:96-122 | No manifest is created or lost. A directory that is no target's is untouched and never written. |
| `AddCommand.AddWritesWritten` | src/commands/add.ts:96-122 | Without a rejection, the written directories are those of the targets with entries left, in order. |
| `AddCommand.AddWritesResult` | src/commands/add.ts:96-122 | Without a rejection, and with targets in distinct directories, each target with entries holds its single-manifest write. The others are untouched. |
| `AddCommand.AddWritesLastStep` | src/commands/add.ts:96-122 | The last target is written from the state before it, and every other directory keeps its manifest. |
| `AddCommand.SetInPlace` | src/commands/add.ts:107-117 | The in-place loop (create the key, then set each entry) computes exactly the single-manifest write, error included. |
| `AddCommand.AddToTarget` | src/commands/add.ts:99-121 | One iteration of the loop (read, set, write back) leaves the store as one step of the write loop says. |
| `AddCommand.AddNextTarget` | src/commands/add.ts:96-122 | After target i, the store holds the outcome of the first i+1 targets, or on a rejection that of the whole loop. |
| `AddCommand.AddToTargets` | src/commands/add.ts:96-122 | The write loop leaves the store's manifests and write log as the whole loop's outcome, stopping at the first rejection. |
| `AddCommand.AddHandler` | src/commands/add.ts:34-127 | Warns and changes nothing without a root or without any selected package. Rejects before logging or writing when a version cannot be resolved. Otherwise logs the targets and runs the write loop; `yarn` is started with the root as its `cwd` exactly when the loop completes. |
| `RemoveCommand.DeleteEntry` | src/commands/remove.ts:58-64 | `delete` removes the name from an object field and leaves anything else alone; no field is added. |
| `RemoveCommand.Strip` | src/commands/remove.ts:57-65 | An object loses exactly the removed keys and keeps the others' values; a non-object is unchanged. |
| `RemoveCommand.StripField` | src/commands/remove.ts:57-65 | Only the named field is stripped; no field is created or lost. |
| `RemoveCommand.NameSet` | src/commands/remove.ts:57 | The set holds exactly the names of the list. |
| `RemoveCommand.RemoveNamesClosedForm` | src/commands/remove.ts:57-65 | Whatever the order and repetition of the names, the inner loop strips exactly that set of names from both dependency objects. |
| `RemoveCommand.RemoveIdempotent` | src/commands/remove.ts:57-65 | Removing the same names twice gives the same manifest as removing them once. |
| `RemoveCommand.RemoveNamesEffect` | src/commands/remove.ts:57-65 | After the inner loop no removed name is a key of either dependency object. Every other entry, every other field and every non-object field stay as they were, and no field is created. |
| `RemoveCommand.RemoveFailureStops` | src/commands/remove.ts:53-68 | Once a manifest could not be read, the later targets change nothing. |
| `RemoveCommand.FailureStops` | src/commands/remove.ts:53-68 | As `RemoveFailureStops`, for any per-manifest edit. |
| `RemoveCommand.RemoveWritesEffect` | src/commands/remove.ts:53-68 | No manifest is created or lost, and each is either untouched or has had the names removed once. Non-target directories are untouched and not written. Without a rejection every target is written, in order, with the names removed. A rejection names a target directory without a manifest. |
| `RemoveCommand.WritesFrame` | src/commands/remove.ts:53-68 | Under an idempotent edit, every manifest is untouched or edited once; non-targets are untouched and not written. |
| `RemoveCommand.WritesComplete` | src/commands/remove.ts:53-68 | Without a rejection, every target is written in order and holds its edited manifest. |
| `RemoveCommand.WritesFailure` | src/commands/remove.ts:53-68 | A rejection names a target directory that has no manifest. |
| `RemoveCommand.RemoveFromTargets` | src/commands/remove.ts:53-68 | The nested loops leave the store as the outer-loop model says: manifests, write log and rejection. |
| `RemoveCommand.RemoveHandler` | src/commands/remove.ts:32-71 | Warns and changes nothing without a root or without any selected package. Otherwise logs the targets and runs the loop; `yarn` is started with the root as its `cwd` exactly when no manifest was missing. |
| `RunCommand.ScriptName` | src/commands/run.ts:34 | The script is the first value; there is none exactly when no value is given. |
| `RunCommand.ForwardedArgs` | src/commands/run.ts:34 | The script followed by the forwarded arguments are exactly the values. |
| `RunCommand.Declaring` | src/commands/run.ts:36-38 | Keeps exactly the packages whose `scripts` declares the script, and no more of them than there are packages. |
| `RunCommand.DeclaringAppend` | src/commands/run.ts:36-38 | The selection commutes with concatenation, so the targets come in the order of the filtered packages. |
| `RunCommand.RunTargetMembers` | src/commands/run.ts:36-38 | A package is a target exactly when the filter selects it and it declares the script. Without a script there are no targets. |
| `RunCommand.NothingDeclaresNoScript` | src/commands/run.ts:34-38 | Without a script name, no package declares the script. |
| `RunCommand.FirstFailure` | src/commands/run.ts:76-102 | Gives the first executor whose exit code is non-zero; None means every code is 0. |
| `RunCommand.ExecutedCount` | src/commands/run.ts:99-102 | Executors start in order, up to and including the first failure, with all earlier ones succeeding. |
| `RunCommand.Execute` | src/commands/run.ts:50-102 | Executors run one at a time and stop at the first failure. Each started executor spawned `yarn run` in its directory, styled its prefix with the next colour and logged its outcome. The rejection is the first non-zero code. |
| `RunCommand.FailureAt` | src/commands/run.ts:76-102 | The first non-zero exit code stops the run right after its executor. |
| `RunCommand.FailureStaysFirst` | src/commands/run.ts:99-102 | A failure among the first executors stays the first however many follow. |
| `RunCommand.VerdictOnSuccess` | src/commands/run.ts:99-104 | Without a failure nothing is rejected. |
| `RunCommand.VerdictOnFailure` | src/commands/run.ts:78-87 | The first failure's exit code is a target's non-zero code, and is the rejection. |
| `RunCommand.ReportedOnSuccess` | src/commands/run.ts:44-104 | When every script succeeds, the logs are the target list, one outcome per target, then "All done". |
| `RunCommand.ReportedOnFailure` | src/commands/run.ts:44-104 | When a script fails, the logs are the target list and the outcomes up to the failing one, without "All done". |
| `RunCommand.RunHandler` | src/commands/run.ts:28-104 | Warns, runs nothing and leaves the colour cycler as it was without a root or without targets. Otherwise it logs the targets and runs the executors in order: "All done" exactly when every script exits with 0. The rejection is the exit code of the first failing script, and the cycler has advanced once per executor that ran. |
| `RunCommand.AllDoneIffAllSucceed` | src/commands/run.ts:99-104 | "All done" depends only on the exit codes: it is logged exactly when all are 0, and then every target ran. |
| `RunCommand.StopsAtFirstFailure` | src/commands/run.ts:99-102 | A failing executor is the last to run. |

## Left out

- Output streaming of child processes: the per-package loggers for stdout and stderr (`src/commands/run.ts:64-72`) are not modelled, because they are I/O of the child process. Only their colour-styled prefixes are kept.
- `AddCommand.AddHandler`, `RemoveCommand.RemoveHandler`: `yarnAt` is the workspace root, the `cwd` that `src/commands/add.ts:127` and `src/commands/remove.ts:71` pass. The `exec` in `src/exec.ts:10` takes only a command and options, so called with `[]` as its options it would ignore that `cwd` and run `yarn` in the process's working directory. That `exec` is evidently from another revision (the commands also import types `src/types.ts` does not export), so the model follows the call site.
- `src/exec.ts` and the running of `yarn`: `add` and `remove` return the directory where `yarn` would run, and `run` returns the commands and directories it spawns.
- Glob expansion, `readJson`, `writeJson`, `existsSync` and `path.resolve`/`path.relative`: these are I/O or library code, so they are parameters. A manifest is read with its parsed fields only; JSON key order and the two-space formatting are not modelled.
- `Packages.GlobResults`: each raw `workspaces` entry goes to the glob parameter. A non-string entry makes `resolve(monoRepo.__dir, x, "package.json")` (`src/packages.ts:24-26`) throw a TypeError, so `getPackages` rejects. The model does not raise that error: it takes whatever the glob parameter gives for the entry.
- JSON numbers are integers: the tool never inspects a number.
- Manifests are assumed to be JSON objects, and packages to have string `name` and `version` fields. The types cannot hold a `package.json` that parses to `null` or a number, or a package without those fields. So these behaviours are not modelled:
  - the TypeError `src/commands/add.ts:108` and `src/commands/remove.ts:58` throw on a `null` manifest;
  - the throw at `src/packages.ts:78` when a wildcard filter meets a package with no name;
  - the `"^undefined"` a nameless local version would give.
- Strings are sequences of Unicode characters, while JavaScript strings are UTF-16 code units. `version.substring(0, 1)` (`src/packages.ts:156`) and `w.substring(0, w.length - 1)` (`src/packages.ts:78`) would cut a character outside the Basic Multilingual Plane in half, where the model takes it whole. Package names and versions are ASCII, so this does not arise.
- The npm registry (`npm show <name> version`) is a function from name to output: a version when it printed one, nothing when it exited with a non-zero code. Several `data` chunks of its output, and the output's timing, are not modelled. Nor is a third case: `npm show` exits with 0 but writes nothing to stdout. Then the promise at `src/packages.ts:134-149` never settles and `add` hangs; the model has no outcome for that.
- `Promise.all` runs the version lookups concurrently and rejects with whichever fails first in time. The model rejects with the first failure in list order, because timing is not modelled.
- A `null` exit code from a signal-killed child is left out; exit codes are integers.
- chalk's colour escape codes: a styled string records the colour name and the text. Log messages are compared without colour, since chalk leaves the text itself unchanged.
- `EOL` from `os` is fixed to a line feed.
- The `license` and `__dir` fields of install entries are left out; they are never written.
- `add` on a dependency key holding an array: a name that is an array index would set an element. The model leaves arrays unchanged, which is what holds for package names that are not numerals.
- `remove` on a truthy non-object dependency field (a string or a number): the model leaves it unchanged. That matches `delete` for most names, but in strict mode deleting a string's index (a numeral below its length) or its `length` throws a TypeError, which the model does not raise. An array field is likewise left unchanged, with the same numeral-name edge as for `add`.
- `createMonoRepo`/`deleteMonoRepo` (test helpers), `src/index.ts`, the option definitions and `src/wait.ts` are not part of this model: they are wiring and test support.
- `MonoRepo.GetMonoRepo` models the root search as a recursive function over path segments. The textual `resolve(currentDir, "..")` is not modelled beyond dropping the last segment.
- The concrete examples in the test files are replaced by general lemmas over all inputs.
- `RunCommand.Execute`: a rejection stops the loop, as the awaited `reject` does; the rejected value is modelled as the exit code alone, not as the `{ code }` object.
