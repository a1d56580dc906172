# monaca-cli front end in Dafny

A model of the command-line front end of the Monaca CLI and the properties it
keeps:

- how `monaca <words...> [flags]` is turned into a task: word-by-word
  candidate names, a first-match scan of the task registry by name or alias,
  and the fixed precedence chain of `run`;
- how the top-level help lists the commands: the hidden-task filter, alias
  annotation, the common column width, the stable sort on `order` and dot
  padding;
- how `remote build` frames its QR code and checks its platform and
  sub-command.

The files, one module each:

- `text.dfy` (`Text`): the JavaScript built-ins the code relies on.
  `String.prototype.trim` uses the ECMAScript whitespace set, and
  `Array.prototype.join` is modelled too. It also holds the Option and Result
  wrappers.
- `registry.dfy` (`Registry`): the task registry. It is an ordered sequence of
  (group key, group) pairs, and each group is an ordered sequence of
  (task name, descriptor) pairs, so the order in which objects are iterated is
  explicit. This file also models how the registry is loaded.
- `resolver.dfy` (`Resolver`): `_getTask`. `Resolve` is its specification,
  and `GetTask` with `ScanRegistry` gives the nested loops.
- `dispatch.dfy` (`Dispatch`): the decision chain of `run` as the pure
  function `Decide`, and the `runner` chaining as the loop `RunChain`.
- `info.dfy` (`Info`): `printCommands`, specified by `CommandListing` and
  implemented by `PrintCommands`, and the two modes of `printHelp`.
- `remote.dfy` (`Remote`): `_createQrCode`, specified by `QrText` and
  implemented by `CreateQrCode`, plus the guards of `RemoteTask.run` and
  `build`.

Where the documentation and the code differ, the model follows the code:

- `--help` after a task name never shows that task's help. The `argv.help`
  test at `src/monaca.js:79` sends it to the extended help first, so only
  `-h` reaches per-task help (`HelpFlagNeverReachesTask`).
- A `nextTask` returned by a task is run as it is, with no re-resolution and
  no arity check. A task that throws, or whose promise rejects, ends the
  chain, and so does a `nextTask` without `set`.
- The shortest matching prefix wins. A multi-word name therefore resolves
  only when none of its shorter prefixes names a task (`ResolveExactWords`).
- The candidate name is not the words joined by spaces when a word is empty
  or has whitespace at its ends. The `trim` after each word at
  `src/monaca.js:45` drops the blank an empty word would add, so `a`, `''`,
  `b` give the candidate `a b`, not `a  b` (`EmptyWordBreaksJoin`).
- A group key of `""` (a file named `.json`) makes `task.set` falsy. A task
  found in that group is reported as not valid.
- `remote build --browser` with fewer than three words passes the dispatch
  arity check but always fails afterwards (`BrowserBuildFails`).

## Model

| member | source | states |
|---|---|---|
| Text.Trim | src/monaca.js:45 | the result has no leading or trailing ECMAScript whitespace, and a string already in that form is returned unchanged |
| Text.TrimRemovesOnlySpace | src/monaca.js:45 | `trim` returns a contiguous slice of its input and removes only whitespace before and after it; an all-whitespace string becomes empty |
| Text.TrimAfterBlank | src/monaca.js:45 | the blank separator that `[ '', v ].join(' ')` puts in front of the first word is removed by `trim` |
| Text.JoinPair | src/monaca.js:45 | joining two strings puts the separator between them |
| Text.JoinTriple | src/monaca.js:45 | joining three strings puts the separator between each neighbouring pair |
| Text.TrimBeforeBlank | src/monaca.js:45 | the blank that `[name, ''].join(' ')` adds after a trimmed name is removed by `trim` |
| Registry.GroupKey | src/monaca.js:29 | `filename.split('.')[0]` is the longest dot-free prefix of the file name, and a dot follows it whenever it is shorter than the name |
| Registry.Assign | src/monaca.js:29 | assigning `taskList[key]` keeps keys distinct; an existing key keeps its position and takes the new group, and a new key is appended |
| Registry.LastGroupNone | src/monaca.js:28-30 | no group is stored for a key exactly when no file yields it |
| Registry.FirstFile | src/monaca.js:28-30 | the position found is that of the first file yielding the key, or the end when none does |
| Registry.AssignKeepsOrder | src/monaca.js:28-30 | storing a file's group keeps the keys in the order of the first files yielding them; a new key, which no earlier file yields, is placed last |
| Registry.AssignKeepsLastGroups | src/monaca.js:28-30 | storing a file's group keeps every key bound to the group of the last file read that yields it |
| Registry.LoadStep | src/monaca.js:28-30 | one turn of the `forEach` keeps the keys distinct, bound to their last file's group, and in first-file order |
| Registry.Load | src/monaca.js:28-30 | after loading, the keys are distinct; a key is present exactly when some file yields it; each key maps to the group of the last file that yields it; keys appear in the order of the first file yielding each |
| Resolver.CandidateOf | src/monaca.js:43-45 | every candidate name is trimmed |
| Resolver.CandidateStep | src/monaca.js:44-45 | consuming the next word applies exactly one `[name, v].join(' ').trim()` step |
| Resolver.FirstInGroup | src/monaca.js:49-56 | returns the first task of the group, in order, that answers to the candidate by name or alias; when it returns none, no task of the group does |
| Resolver.Lookup | src/monaca.js:47-57 | every hit from a registry scan carries a group key (`task.set`) |
| Resolver.LookupIsFirstMatch | src/monaca.js:47-57 | a scan finds nothing exactly when no task answers to the candidate; otherwise it reports the canonical name and group key of the first task that answers, groups first, then tasks |
| Resolver.LookupFindsFirstMatch | src/monaca.js:47-57 | the first matching (group, task) position is exactly what the scan reports |
| Resolver.Candidates | src/monaca.js:43-45 | entry k is the candidate after k words, for each k from 0 to the number of words |
| Resolver.Resolve | src/monaca.js:40-41 | with no positional words the result is the name `''` with no group |
| Resolver.ScanRegistry | src/monaca.js:47-60 | the two nested `for...in` loops with their early return compute the registry scan |
| Resolver.GetTask | src/monaca.js:39-64 | the imperative `_getTask` returns exactly the specified resolution |
| Resolver.StepClean | src/monaca.js:45 | extending a trimmed candidate by a non-empty trimmed word just appends it, after a space when the candidate is not empty |
| Resolver.StepEmpty | src/monaca.js:44-45 | an empty word leaves a trimmed candidate unchanged |
| Resolver.CandidateSkipsEmptyWord | src/monaca.js:43-45 | an empty positional word adds nothing to the candidate |
| Resolver.EmptyWordBreaksJoin | src/monaca.js:43-45 | for clean words `a` and `b`, the words `a`, `''`, `b` give the candidate `a b`, which differs from their space-join `a  b` |
| Resolver.CandidateOfCleanWords | src/monaca.js:43-45 | over words without surrounding whitespace, the candidate after k words is those words joined by single spaces, and it is non-empty once k > 0 |
| Resolver.CandidateOfPrefix | src/monaca.js:43-45 | the candidate after k words depends only on those k words |
| Resolver.ScanNoMatch | src/monaca.js:43-63 | from any point on, the search fails exactly when no later candidate matches, and it then yields the last candidate |
| Resolver.ResolveNoMatch | src/monaca.js:43-63 | resolution fails exactly when no candidate matches; the name is then the full candidate, which for clean words is the words joined by spaces |
| Resolver.ScanShortest | src/monaca.js:43-56 | the search returns the hit of the first candidate that has one |
| Resolver.ResolveShortestPrefix | src/monaca.js:43-56 | when the first k words form the first candidate anything answers to, resolution returns that task |
| Resolver.ScanExtend | src/monaca.js:43-56 | a successful search does not change when more candidates are appended |
| Resolver.ResolveIgnoresLaterWords | src/monaca.js:43-56 | once a prefix resolves, appending further words does not change the result |
| Resolver.ScanCanonical | src/monaca.js:50-55 | every hit is the canonical key and group key of some registry task |
| Resolver.ResolvedNameIsCanonical | src/monaca.js:50-55 | a resolved name is always a canonical task key of the reported group, never the alias that matched |
| Resolver.ResolveExactWords | src/monaca.js:43-56 | clean words whose space-joined form is the first candidate any task answers to resolve to that task, whatever words follow |
| Resolver.AliasResolvesToCanonical | src/monaca.js:50-55 | when names and aliases are unique, a task's name and each of its aliases resolve to the canonical name and its group |
| Dispatch.Decide | src/monaca.js:65-96 | the registry is consulted only after the version and top-level help exits, and task help or a run always carries a non-empty group key; the outcome of each branch is stated by `VersionFirst`, `HelpRouting`, `HelpFlagNeverReachesTask`, `InvalidTask` and `ResolvedOutcomes` |
| Dispatch.InvalidTaskMessage | src/monaca.js:88 | the failure message is `Error: `, the name, then ` is not a valid task.` |
| Dispatch.VersionFirst | src/monaca.js:68-83 | the version outcome occurs exactly when it is requested; the version and both help outcomes do not depend on the registry |
| Dispatch.HelpRouting | src/monaca.js:75-83 | summary help comes exactly when there is no first word and no `--help`; extended help comes exactly when the first word is `help` or `--help` is given; `--all` is passed on |
| Dispatch.HelpFlagNeverReachesTask | src/monaca.js:79-96 | with `--help`, the outcome is always the version or extended help, never per-task help or a run |
| Dispatch.InvalidTask | src/monaca.js:85-89 | once resolution is reached, it fails exactly when the result has no non-empty group key; with no match at all, the message names the full candidate |
| Dispatch.ResolvedOutcomes | src/monaca.js:87-96 | task help and runs carry the resolved task; a run needs no `-h`/`--help`, at least two words for `create`, and at least three words for `remote build` unless `--browser` is given |
| Dispatch.ResolveSingleWord | src/monaca.js:43-56 | a single clean word that first matches a task resolves to it, whatever words follow |
| Dispatch.ResolveTwoWords | src/monaca.js:43-56 | two clean words, the first naming no task, that together first match a task resolve to it, whatever words follow |
| Dispatch.CreateNeedsDirectory | src/monaca.js:91-96 | `create` alone shows its help, and `create <dir>` runs it |
| Dispatch.Chain | src/monaca.js:98-106 | the chain starts with the dispatched task and holds at most one task more than the bound; its shape is stated by `ChainShape`, `CrashStopsChain` and `ChainFuelMonotone` |
| Dispatch.ChainShape | src/monaca.js:98-106 | each later task of the chain is the `nextTask` of the one before, which names its module; short of the bound, it stops only on a result that starts nothing: no `nextTask`, one without a module, or an error |
| Dispatch.CrashStopsChain | src/monaca.js:99-104 | a task that throws or whose promise rejects is the last one run, and the chain then ends in an error |
| Dispatch.ChainFuelMonotone | src/monaca.js:98-106 | a larger bound only extends the chain |
| Dispatch.ChainStep | src/monaca.js:99-103 | one turn runs the pending task, then its `nextTask`, if it names a module, is pending |
| Dispatch.RunChain | src/monaca.js:98-106 | the `runner` loop runs exactly the specified chain, and reports an error ending exactly when the chain ends in one |
| Dispatch.Session | src/monaca.js:65-107 | a session takes the dispatch decision; it runs the chain only for a `Run` outcome and reports whether it ended in an error; it runs nothing otherwise |
| Info.DisplayName | src/info.js:44-46 | the listed name starts with the task name, and equals it exactly unless `--all` is given and the task has aliases |
| Info.Visible | src/info.js:39-59 | the listing is never longer than the task list |
| Info.VisibleConcat | src/info.js:54-56 | concatenating the groups and then filtering equals filtering each group and concatenating the results |
| Info.VisibleIsShown | src/info.js:41-59 | every shown task is listed, and every listed entry is the entry of a shown task; hidden tasks are listed only under `--all` |
| Info.VisibleByIndex | src/info.js:41-59 | for either value of `--all`, the listing is exactly the shown tasks, each once, in registry order: entry k is the entry of the k-th shown task, the positions strictly increase, and no shown task is skipped |
| Info.VisibleAll | src/info.js:41-59 | under `--all`, every task is listed exactly once, in registry order |
| Info.WidthIsMax | src/info.js:38-47 | `taskMaxLength` is at least every listed name's length plus 3 and equals one of them; it is 0 when nothing is listed |
| Info.InsertPos | src/info.js:61-67 | the insertion point comes after every entry whose order is not larger and before the first one whose order is larger |
| Info.AfterInsertPos | src/info.js:61-67 | in a sorted listing, every entry from the insertion point on has a larger order |
| Info.InsertAtSorted | src/info.js:61-67 | inserting at the insertion point keeps the listing sorted by order |
| Info.InsertAtCount | src/info.js:61-67 | inserting adds exactly the new entry |
| Info.Insert | src/info.js:61-67 | one insertion keeps the listing sorted and adds exactly the new entry |
| Info.SortByOrder | src/info.js:61-67 | the result is in non-decreasing order and is a permutation of the input |
| Info.InsertStable | src/info.js:61-67 | an insertion places the new entry last among the entries with the same order |
| Info.SortStable | src/info.js:61-67 | the sort is stable: for each order value, the entries with that order keep their relative positions |
| Info.DotsShape | src/info.js:71 | `new Array(n).join('.')` is n - 1 dots, or none when n is 0 |
| Info.LineLayout | src/info.js:71-72 | each line is the two-space indent and the name, two spaces, `max(15, width) - len - 1` dots (at least two), two spaces, then the description; every description starts at column `max(15, width) + 5` |
| Info.WidthCoversPermutation | src/info.js:47-71 | the sorted entries still fit within the width computed before sorting |
| Info.CommandListing | src/info.js:34-76 | the listing throws exactly for an empty registry; it always starts with the header, and a listing that does not throw ends with a blank line; its lines are stated by `ListingShape` |
| Info.ListingShape | src/info.js:34-76 | the listing throws exactly for an empty registry; otherwise it is the header, one laid-out line per shown task in sorted order, and a blank line |
| Info.CollectTask | src/info.js:42-51 | the inner callback adds a shown task's entry, widens `taskMaxLength` to cover it, and adds nothing for a hidden task |
| Info.CollectGroup | src/info.js:41-52 | one group's tasks add their shown entries in order, and `taskMaxLength` stays the width of everything collected |
| Info.CollectEntries | src/info.js:38-59 | the `map`, `reduce` and `filter` calls yield the shown entries, and `taskMaxLength` ends as their width |
| Info.EmitLines | src/info.js:68-73 | the `forEach` prints one laid-out line per sorted entry, in order |
| Info.PrintCommands | src/info.js:34-76 | `printCommands` prints exactly the specified listing |
| Info.Help | src/info.js:168-180 | both modes start with the logo, tagline, version and usage lines, and help throws exactly in summary mode on an empty registry; the full output of each mode is stated by `HelpModes` and `SummaryLayout` |
| Info.HelpModes | src/info.js:168-180 | extended help is the logo and usage lines, the `printExtendedCommands` block and a blank line, whatever the registry and `--all`, and never throws; summary help never uses the extended block and throws exactly for an empty registry, after the logo, usage, description and the listing's header |
| Info.SummaryLayout | src/info.js:168-180 | summary help is the logo, usage and description, then the command listing, then the examples and a blank line |
| Remote.Row | src/remote.js:121-154 | every printed row has `n + 4` blocks, each shaded as the framing says, followed by a line break |
| Remote.Rows | src/remote.js:117-154 | k printed rows hold `k * (n + 5)` tokens |
| Remote.QrText | src/remote.js:109-157 | the framed code is `n + 4` rows of `n + 5` tokens; its contents are stated by `QrLayout` |
| Remote.QrLayout | src/remote.js:109-157 | the text is `n + 4` rows of `n + 4` blocks, each row ending in a line break; module (i, j) is black exactly when `isDark(i, j)`; the two-block border is white |
| Remote.BandRow | src/remote.js:121-126 | a quiet-zone row prints exactly its row of the framed code |
| Remote.ModuleRow | src/remote.js:128-147 | module row i prints exactly row i + 2 of the framed code |
| Remote.CreateQrCode | src/remote.js:109-157 | the nested loops build exactly the framed code |
| Remote.InvalidPlatformText | src/remote.js:74 | the error text is `Invalid platform. Must be one of: ios, android, winrt` |
| Remote.CheckPlatform | src/remote.js:68-76 | the platform is accepted exactly when the third word is `ios`, `android` or `winrt`, and the error text is returned otherwise |
| Remote.RemoteRun | src/remote.js:41-76 | the upload is reached only for this module's task, signed in, with the listed platform that is the third word; every outcome is stated by `RemoteRunOutcomes` |
| Remote.RemoteRunOutcomes | src/remote.js:41-76 | another module's task is ignored; not signed in, a second word other than `build`, and an unlisted platform each fail with their own message; the upload is reached only when all three checks pass |
| Remote.BrowserBuildFails | src/remote.js:68-76 | a dispatched `remote build` with fewer than three words always has `--browser`, and then always fails |
| Remote.RemoteBuildRuns | src/remote.js:49-76 | when `remote` alone names no task and `remote build` first matches that task in a named group, `remote build <platform> ...` without help or version flags is dispatched to it, and with a listed platform it reaches the upload |

## Left out

- Reading `doc/tasks/*.json` and `package.json`, and the logo file: file I/O. The parsed documents are the input of `Registry.Load`. The logo text and the version are parameters of `Info.Help`.
- `optimist`: the command line arrives parsed, as `Dispatch.Argv`. A numeric positional word (`monaca 0`, which `optimist` turns into a falsy number) is not modelled.
- Colours and `String.prototype` colouring (`.bold`, `.info`, `.grey`, `.white`, `.black`): lines are plain text. QR blocks are the abstract shades `White` and `Black`.
- `src/util.js` is not part of this model. `util.fail` and `util.displayHelp` followed by `process.exit` become the terminal outcomes `Invalid` and `TaskHelp`, and `util.print` becomes the lines of a `Printout`.
- `Dispatch.Chain`: the dynamic `require` of the task module and the Promise in `runner` become a function `run` from a task to its `TaskResult`: no `nextTask`, a `nextTask`, or an error, which covers both a throw and a rejected promise. The source has no cycle guard, so the chain is bounded by a `fuel` count, and a chain longer than the bound is not modelled. A `nextTask` without `set` ends the chain in an error, because `path.join` rejects `undefined`. A `nextTask` whose `set` is `""` is treated as loading a module, although `require` of the source directory itself is not modelled. Errors are not distinguished by kind: depending on where it happens, an error either ends the process or surfaces as an unhandled rejection.
- `Remote.RemoteRun`: the `monaca-lib` calls `relogin`, `uploadProject` and `buildProject` are network calls. The outcome of `relogin` is the `signedIn` parameter, and the model stops at the upload.
- The upload progress percentage: floating-point arithmetic and `toString().substr`.
- The `qrcode-npm` encoder: only the framing over `getModuleCount` and `isDark` is modelled, as `n` and `isDark`.
- `buildAndroid`: it calls `_uploadAndBuild`, which is not defined in the shown code.
- `BaseTask.isMyTask` (`task.js` is not part of this model) is the abstract predicate `isMyTask`.
- `Info.SortByOrder`: `order` is required to be an integer. A task without `order` compares equal to everything, so the comparator is not a total order. The sort is modelled as stable, which `Array.prototype.sort` guarantees only in current engines.
- `Registry.Load`: JavaScript lists integer-like object keys before the others, whatever their insertion order. The model keeps insertion order for every key. The same applies to the task names of a parsed group document, whose order `TaskGroup` takes as given. The order of `readdirSync` is the order of the `files` input.
- Lengths are counted in characters, not UTF-16 code units, so `Info.WidthIsMax` and `Info.LineLayout` differ from the source for names outside the Basic Multilingual Plane.
- `printExtendedCommands` is static text. It is the `extendedBlock` parameter of `Info.Help`.
- `printVersion` only prints the version. The model stops at the `ShowVersion` outcome.
- `Resolver.ResolveExactWords`: empty words, or words with whitespace at their ends, are covered only by the general `Resolver.ResolveShortestPrefix`, because `trim` changes the candidate for such words (`Resolver.EmptyWordBreaksJoin`). The same limit applies to `Resolver.CandidateOfCleanWords` and to the last `ensures` of `Resolver.ResolveNoMatch`. Words with whitespace only inside them are covered.
