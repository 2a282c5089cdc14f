# pacm: versions, archive selection and archive assembly

This project models the core of `pacm`, a small package manager. A package
is published as a gzip-compressed tar archive named `<name>-<ver>.tar.gz`,
and fetched again by a version constraint:

- `version.dfy` (module `Version`) covers the version model of
  `pacm/update.go`:
  - `compareVersions` is dotted versions compared component by component as
    integers. Missing, empty and unparseable components count as 0.
  - `getVersionFromArchiveName` is the version read back from an archive
    name.
  - `checkVersion` tests a constraint: empty, exact text, or `>=`, `<=`,
    `>`, `<`.
- `resolver.dfy` (module `Resolver`) covers archive selection in
  `getArchiveName`:
  - the remote `ls` output is trimmed, split into lines and sorted by
    version;
  - it is then scanned for the name to fetch.
  - The SSH session is replaced by its outcome, a `Listing`: a failed
    session, a failed command, or the listed text.
- `archive.dfy` (module `Archive`) covers archive assembly in `getArch` and
  `addFileToTar` of `pacm/create..go`:
  - targets are walked in declared order, and each walked file goes
    through the exclude patterns and then the mask;
  - survivors are appended to a tar writer (`TarWriter`, a class holding
    the written entries), followed by a `meta-<name>-<ver>.json` entry that
    holds the configuration bytes verbatim.
  - The file system is a map from walk root to the visits `filepath.Walk`
    reports, in walk order. `filepath.Match` is a parameter with three
    outcomes. Cancellation is the index of the first target before which
    the context is found done.
- `config.dfy` (module `Config`) holds the configuration records of
  `pacm/main.go`.
- `golib.dfy` (module `GoLib`) holds the Go library functions the core
  relies on, with Go's semantics: `strings.Split`, `TrimSpace`,
  `TrimPrefix`/`TrimSuffix`, `filepath.Base`/`Dir` and `strconv.Atoi`.
- `wrappers.dfy` (module `Wrappers`) holds `Option` and `Result`.

The loops of the source are methods proved against functions:
- `CompareVersions` is proved against `Compare`.
- `SelectArchive`/`GetArchiveName` are proved against `Scan`/`Resolve`.
- `WalkTarget`, `AddTargets` and `GetArch` are proved against
  `WalkOutcome`, `Chain` and `Build`.

The properties of those functions are lemmas.

In these points the model follows the code:
- A version component may be negative, because `strconv.Atoi` accepts a
  sign. So `"-1" < "0"` (`Version.NegativeComponent`).
- A constraint without a leading `>` or `<` is compared as text. So
  `"=1.12"` never matches `"1.12"`.
- A failed archive build leaves the entries written before the failure in
  the archive.
- A listing in which nothing matches resolves to an empty name and no
  error, not to an "archive not found" error (see Findings).

## Model

| member | source | states |
|---|---|---|
| GoLib.Split | pacm/update.go:221-222 | `strings.Split` with a one-character separator: at least one part, no part holds the separator, a separator-free string is its own single part |
| GoLib.SplitJoin | pacm/update.go:184 | joining the parts with the separator gives back the input |
| GoLib.TrimSpace | pacm/update.go:176 | the result neither starts nor ends with white space, and is empty exactly when the input is all white space |
| GoLib.TrimSpaceCutsOnlySpace | pacm/update.go:176 | the result is a slice of the input, and everything cut from either end is white space |
| GoLib.Base | pacm/update.go:197 | `filepath.Base`: non-empty, and "/" or free of slashes |
| GoLib.BaseIdempotent | pacm/update.go:197-198 | the base name of a base name is itself |
| GoLib.BaseOfJoin | pacm/update.go:259-260 | the base name of `dir/name` is `name` for a slash-free non-empty `name` |
| GoLib.Atoi | pacm/update.go:235-239 | `strconv.Atoi`: digits, `+`digits and `-`digits give their signed value when it fits in 64 bits; an out-of-range value, an empty string, a lone sign or any other character gives no value |
| GoLib.Dir | pacm/create..go:129 | `filepath.Dir` is never empty |
| GoLib.DirOfJoin | pacm/create..go:129 | the directory of `dir/name` is `dir`, for a `dir` not ending in a slash and a non-empty slash-free `name` |
| Version.ParseComponent | pacm/update.go:234-247 | an empty or unparseable component reads as 0, otherwise as its `Atoi` value |
| Version.Components | pacm/update.go:221-247 | one integer per dot-separated part, each read as `ParseComponent` reads it |
| Version.LexFrom | pacm/update.go:229-255 | the lexicographic comparison from index `i` is -1, 0 or 1 |
| Version.Compare | pacm/update.go:220-256 | `compareVersions` returns only -1, 0 or 1 |
| Version.CompareVersions | pacm/update.go:220-256 | the loop with its early returns computes `Compare` |
| Version.ReadComponent | pacm/update.go:234-247 | the component read at index `i`, 0 past the end or for an empty part |
| Version.LexFromZeroIff | pacm/update.go:229-255 | the comparison is 0 exactly when all compared components agree |
| Version.LexFromAntisymmetric | pacm/update.go:248-253 | swapping the operands negates the comparison |
| Version.LexFromTransitive | pacm/update.go:248-253 | the comparison is transitive, strictly so when either step is strict |
| Version.LexFromPadding | pacm/update.go:224-229 | comparing further than the longer version changes nothing: missing components are 0 |
| Version.FirstDifference | pacm/update.go:229-255 | a non-zero comparison is decided by the first differing component |
| Version.FirstDifferenceDecides | pacm/update.go:229-255 | the first differing component decides the comparison over any longer range |
| Version.CompareReflexive | pacm/update.go:220-256 | `compareVersions(v, v) == 0` |
| Version.CompareAntisymmetric | pacm/update.go:220-256 | `compareVersions(a, b) == -compareVersions(b, a)` |
| Version.CompareTransitive | pacm/update.go:220-256 | `compareVersions` is transitive, so it is a total preorder |
| Version.CompareZeroIff | pacm/update.go:220-256 | two versions compare equal exactly when their zero-padded components agree |
| Version.TrailingZeroComponent | pacm/update.go:234-247 | appending a component that reads as 0 ("", "0", "x") leaves a version equal to itself ("1" == "1.0" == "1.x") |
| Version.LeadingZeroComponent | pacm/update.go:235 | leading zeros do not change a component ("010" reads as 10) |
| Version.NumericComponents | pacm/update.go:248-253 | single digit-string components compare by their numeric value |
| Version.SmallComponent | pacm/update.go:235 | a one- or two-digit component reads as its value |
| Version.TwoComponents | pacm/update.go:221 | `x.y` without further dots has exactly the components of `x` and `y` |
| Version.SecondComponentDecides | pacm/update.go:248-253 | with equal first components, the second decides |
| Version.NineBelowTen | pacm/update.go:220-256 | `"1.9" < "1.10"` |
| Version.NegativeComponent | pacm/update.go:235-247 | a signed component reads as a negative number: `"-1" < "0"` |
| Version.VersionFromArchiveName | pacm/update.go:258-267 | a version is never empty, and the error names the base name |
| Version.VersionOfBase | pacm/update.go:260 | the version of a path is the version of its base name |
| Version.ArchiveNameRoundTrip | pacm/update.go:258-267 | `dir/<name>-<ver>.tar.gz` yields `ver` back for a non-empty slash-free `ver` |
| Version.TrimArchiveName | pacm/update.go:261-262 | trimming `<name>-` and `.tar.gz` from `<name>-<ver>.tar.gz` leaves `ver` |
| Version.VersionErrorIff | pacm/update.go:258-267 | an error exactly for the base names `<name>-`, `<name>-.tar.gz` and `.tar.gz`; a missing prefix is not an error |
| Version.TrimSuffixEmpty | pacm/update.go:262-263 | trimming a suffix leaves nothing exactly for the empty string and the suffix itself |
| Version.ConstraintOperator | pacm/update.go:279-294 | `>=`/`<=` are recognised before `>`/`<`, the operand is the rest, and any constraint starting with `>` or `<` gets an operator (the `default` branch is unreachable) |
| Version.CheckVersion | pacm/update.go:269-308 | the empty constraint accepts everything; without `>`/`<` it is text equality; `>=`, `<=`, `>`, `<` test `compareVersions(actual, operand)` against 0 |
| Version.GreaterConstraintUpwardClosed | pacm/update.go:296-302 | a `>`/`>=` constraint accepts every version at least as high as an accepted one |
| Version.LessConstraintDownwardClosed | pacm/update.go:299-304 | a `<`/`<=` constraint accepts every version at most as high as an accepted one |
| Version.EqualsSignIsText | pacm/update.go:275-277 | `"=" + v` matches only the text `"=" + v` |
| Version.ExactConstraintIsTextual | pacm/update.go:275-277 | `"1.10"` and `"1.010"` compare equal, yet the constraint `"1.10"` rejects `"1.010"` |
| Version.EmptyActualBelowPositive | pacm/update.go:301-302 | `checkVersion(">1.12", "")` is false |
| Resolver.Insert | pacm/update.go:186-190 | insertion adds exactly one element: the multiset grows by it |
| Resolver.InsertSorted | pacm/update.go:186-190 | inserting into a sorted sequence keeps it sorted under a total preorder |
| Resolver.SortFunc | pacm/update.go:186-190 | the sorted lines are a permutation of the listed lines |
| Resolver.InsertLast | pacm/update.go:186-190 | a line that no sorted line is above goes after all of them, equal ones included |
| Resolver.SortFuncKeepsSorted | pacm/update.go:186-190 | the sort is stable: a listing already in order, ties included, comes back unchanged |
| Resolver.SortFuncSorted | pacm/update.go:186-190 | with a total preorder the sorted lines ascend |
| Resolver.ByVersionTotalPreorder | pacm/update.go:186-190 | the comparator (versions of both names, "" for none, by `compareVersions`) is a total preorder |
| Resolver.Classify | pacm/update.go:197-208 | a line that hits is selected under its base name |
| Resolver.ClassifyMeaning | pacm/update.go:197-205 | a line is invalid exactly when it yields no version, and hits exactly when its version satisfies the constraint |
| Resolver.Verdicts | pacm/update.go:196-198 | one verdict per sorted line, in order |
| Resolver.ScanFromSelectsHit | pacm/update.go:195-216 | the scan selects nothing or the name of a hit |
| Resolver.ScanFromNoHit | pacm/update.go:195-216 | with no hit ahead, the scan ends with the name it held or with nothing, and never selects a new name |
| Resolver.ScanSkipsMisses | pacm/update.go:209-214 | misses before the first hit are passed over |
| Resolver.ScanThroughHits | pacm/update.go:205-208 | a run of hits leaves the last of them selected |
| Resolver.RunOfHitsSelectsLast | pacm/update.go:205-214 | a run of hits ended by a miss or the end of the listing selects its last hit |
| Resolver.ScanSelectsHit | pacm/update.go:196-208 | a non-empty selection is the base name of a sorted line that hits |
| Resolver.NoHitSelectsNothing | pacm/update.go:195-216 | a listing without a hit selects "" |
| Resolver.ScanFromClearedAt | pacm/update.go:195-216 | from any point before an invalid name that the scan reaches, with no hit after it, the scan ends with nothing selected |
| Resolver.InvalidNameClearsSelection | pacm/update.go:199-203 | an invalid name that the scan reaches (no miss after a hit before it) and that no hit follows leaves nothing selected, whatever hits came before |
| Resolver.UpwardHitsSelectLast | pacm/update.go:205-214 | when hits are followed only by hits, the scan selects the last line |
| Resolver.UpwardHitsSelectLastHit | pacm/update.go:205-214 | the same, stated as selecting the last hit |
| Resolver.DownwardHitsSelectLastHit | pacm/update.go:205-214 | when hits are preceded only by hits and no line is invalid, the scan selects the last hit |
| Resolver.GreaterHitUpward | pacm/update.go:186-205 | under `>`/`>=`, a line sorted after a hit is a hit |
| Resolver.LessHitDownward | pacm/update.go:186-205 | under `<`/`<=`, a line sorted before a hit is a hit |
| Resolver.GreaterConstraintHitsUpward | pacm/update.go:186-205 | over sorted valid lines, the hits of `>`/`>=` form a suffix |
| Resolver.LessConstraintHitsDownward | pacm/update.go:186-205 | over sorted valid lines, the hits of `<`/`<=` form a prefix |
| Resolver.GreaterConstraintSelectsLast | pacm/update.go:186-216 | under `>`/`>=` over sorted valid lines, the last line is selected whenever any line hits |
| Resolver.AllValidNoneInvalid | pacm/update.go:198-204 | lines that all carry a version produce no invalid verdict |
| Resolver.LastHitOfNames | pacm/update.go:196-208 | the last hit among the verdicts is the last hitting line |
| Resolver.LessConstraintSelectsLastHit | pacm/update.go:186-216 | under `<`/`<=` over sorted valid lines, the last hitting line is selected |
| Resolver.ListedLines | pacm/update.go:176-184 | a listing always has at least one line |
| Resolver.ResolveErrors | pacm/update.go:158-181 | a failed session or command, or a blank listing, is an error with no name, and these are the only errors |
| Resolver.GetArchiveName | pacm/update.go:158-218 | the method returns what `Resolve` describes: the error paths, then trim, split, sort and scan |
| Resolver.SelectArchive | pacm/update.go:194-216 | the scan loop with its `continue` and `break` selects what `Scan` selects |
| Resolver.PermutedLine | pacm/update.go:186-190 | every sorted line is a listed line |
| Resolver.ListedLineIndex | pacm/update.go:186-190 | every listed line appears among the sorted lines |
| Resolver.SelectedNameIsHit | pacm/update.go:197-205 | the selected base name is itself a hit under its own name |
| Resolver.ResolveSelectsListedHit | pacm/update.go:158-218 | a non-empty selection comes with no error and is the base name of a listed line whose version satisfies the constraint |
| Resolver.SortedKeysAscend | pacm/update.go:186-190 | earlier sorted lines have versions no higher than later ones |
| Resolver.PermutedHits | pacm/update.go:186-190 | sorting keeps every version and every hit |
| Resolver.HitsBelowLastHit | pacm/update.go:186-216 | every listed hit has a version no higher than the last hit of the sorted listing |
| Resolver.AnySortSelectsGreatestHit | pacm/update.go:186-216 | under a relational constraint over valid lines, the scan of any ascending permutation of the listing, whatever order it leaves equal versions in, selects the base name of a hitting line whose version is the highest among the hits |
| Resolver.ResolveSelectsGreatestHit | pacm/update.go:176-216 | under a relational constraint over valid lines, some line hits and `getArchiveName` selects, with no error, the base name of a hitting line with the highest version among the hits |
| Resolver.NoMatchIsSilent | pacm/update.go:195-217 | as written: a listing without a hit resolves to "" with a nil error |
| Resolver.ResolveChecked | pacm/update.go:195-217 | as intended: no error exactly when a name is selected, and the selection is unchanged |
| Resolver.CheckedNoMatchIsReported | pacm/update.go:195-217 | as intended: a listing without a hit is reported as an error |
| Archive.Visits | pacm/create..go:132-135 | a walk root that does not exist is reported to the callback as an error |
| Archive.ArchiveFileName | pacm/create..go:106-107 | the archive name is `<name>-` followed by the version, ending in `.tar.gz` |
| Archive.MetaPath | pacm/create..go:165 | the meta entry is `meta-...json` |
| Archive.UploadedArchiveVersion | pacm/create..go:74-107 | the uploaded `<dir>/<name>-<ver>.tar.gz` yields `ver` back to `getVersionFromArchiveName` |
| Archive.ExcludeScan | pacm/create..go:140-148 | the file is excluded by a pattern that matches its base name, or the walk aborts on a malformed pattern in the list |
| Archive.KeptIff | pacm/create..go:140-148 | a file passes the exclude patterns exactly when each reports "no match" |
| Archive.FirstDecidingPattern | pacm/create..go:140-148 | the first pattern that does not report "no match" decides, in list order |
| Archive.Decide | pacm/create..go:132-157 | walk errors abort, directories are skipped, and an included file is a file the mask `filepath.Base(target.Path)` matches |
| Archive.IncludeIff | pacm/create..go:136-157 | a file is included exactly when no exclude pattern matches or is malformed and the mask matches |
| Archive.ExcludeWins | pacm/create..go:140-144 | an exclude match skips the file whatever the mask says |
| Archive.MalformedExcludeAborts | pacm/create..go:140-147 | a malformed exclude pattern reached before a match aborts with that pattern |
| Archive.MalformedMaskSkips | pacm/create..go:150-156 | a malformed mask skips the file, because the code checks `!ok` before the error |
| Archive.EmptyExclude | pacm/create..go:140 | an empty exclude splits to the single empty pattern; when that pattern does not match, the mask alone decides |
| Archive.VisitEffect | pacm/create..go:132-159 | an added entry is the walked file under its full path with its bytes; directories add nothing; walk errors stop the walk |
| Archive.Effects | pacm/create..go:132-159 | one effect per visit, in walk order |
| Archive.Apply | pacm/create..go:132-159 | after a failure nothing changes; otherwise an entry is appended for an added file, and the walk stops exactly on a stopping effect |
| Archive.Run | pacm/create..go:132-159 | the walk writes at most one entry per visit |
| Archive.RunStep | pacm/create..go:132-159 | the walk of one more visit applies that visit's effect |
| Archive.CleanRun | pacm/create..go:132-159 | a walk that nothing stops adds exactly the surviving entries, in walk order |
| Archive.StoppedRunIsFinal | pacm/create..go:132-159 | once the walk has stopped, later visits change nothing |
| Archive.RunStopsAtFirstFailure | pacm/create..go:132-159 | the walk stops at its first failing visit, keeping the entries added before it |
| Archive.RunSucceedsIff | pacm/create..go:132-159 | the walk ends without error exactly when no visit stops it |
| Archive.RunEntriesAreAdded | pacm/create..go:158 | every written entry was added by some visit |
| Archive.WalkAddsWalkedFiles | pacm/create..go:158-195 | every entry of a walk is a walked file named by its full walked path, not its base name, and holds its bytes |
| Archive.TarWriter.constructor | pacm/create..go:116-118 | a new tar writer holds no entries |
| Archive.TarWriter.AddFile | pacm/create..go:184-204 | a file that cannot be opened writes nothing and reports an error; otherwise one entry named by the walked path is appended |
| Archive.WalkTarget | pacm/create..go:132-159 | the walk of one target appends what `WalkOutcome` describes and returns its error |
| Archive.TargetAddsWalkedFiles | pacm/create..go:129-159 | a target adds only files walked under `filepath.Dir(target.Path)` |
| Archive.TargetOutcomes | pacm/create..go:121-164 | one outcome per target, in declared order |
| Archive.Then | pacm/create..go:160-163 | after an error nothing changes; otherwise the next target's entries are appended and its error is kept |
| Archive.ChainStep | pacm/create..go:121-164 | the loop over one more target applies its outcome |
| Archive.SucceedingChain | pacm/create..go:121-164 | targets that all succeed add all their entries, target after target |
| Archive.StoppedChainIsFinal | pacm/create..go:160-163 | after a failing target, later targets change nothing |
| Archive.ChainStopsAtFirstFailure | pacm/create..go:121-164 | the first failing target ends the loop with its error, keeping the entries written before and during it |
| Archive.ChainSucceedsIff | pacm/create..go:121-164 | the loop ends without error exactly when every target succeeds |
| Archive.MetaEntry | pacm/create..go:165-179 | the meta entry holds the configuration bytes verbatim under a `meta-` name |
| Archive.Build | pacm/create..go:121-181 | a successful build ends with the meta entry |
| Archive.TargetSucceedsIff | pacm/create..go:121-163 | a target succeeds exactly when the context was not done before it and no visit of its walk fails |
| Archive.BuildSucceedsIff | pacm/create..go:121-181 | `getArch` returns no error exactly when every target succeeds |
| Archive.SucceedingTarget | pacm/create..go:129-159 | a successful target adds exactly its surviving files |
| Archive.BuildEntries | pacm/create..go:121-181 | a successful build holds the survivors of the targets in declared order, each in walk order, then the meta entry |
| Archive.BuildStopsAtFirstFailure | pacm/create..go:121-164 | the first failing target ends `getArch` with its error; no later target is processed and no meta entry is written |
| Archive.CancelStopsBuild | pacm/create..go:121-127 | a context done before target `c` ends `getArch` with a cancellation error, keeping the entries of the targets before `c` |
| Archive.AddTargets | pacm/create..go:121-164 | the loop over the targets writes what `Chain` describes and returns its error |
| Archive.GetArch | pacm/create..go:87-182 | `getArch` returns the configured name, the archive name `<name>-<ver>.tar.gz`, and the entries and error `Build` describes |

## Left out

- SSH and SCP transport is not modelled: dialling, sessions, `ls`, `mkdir -p`, upload and download. The `ls` outcome is the `Listing` input of `Resolve`.
- The goroutine fan-out of `UpdatePackages` is not modelled, and neither is unpacking the downloaded archive.
- gzip and tar encoding are not modelled. The archive is its sequence of `(name, bytes)` entries. File headers (`tar.FileInfoHeader`) are not modelled, and neither are header-write or copy errors, nor the flush on close.
- Reading and parsing the configuration file (JSON or YAML, and `Target.UnmarshalJSON`) is not modelled. Neither is `os.Create` of the archive file. `GetArch` takes the parsed configuration and its raw bytes as inputs.
- Writing and stat-ing the meta file on disk (pacm/create..go:168-178) is not modelled. The meta entry is always added when the targets succeed.
- The traversal order of `filepath.Walk` is an input: the visits per root, in walk order.
- The glob semantics of `filepath.Match` are an input: the `glob` parameter. Only its three outcomes are fixed (match, no match, malformed pattern).
- Archive.EmptyExclude: takes as a hypothesis that the empty pattern does not match the base name. That is what `filepath.Match` does for a non-empty name, but the matcher is a parameter.
- Resolver.SortFunc: a stable insertion sort stands for `slices.SortFunc`. Ties keep their listing order, as Go's insertion sort does for slices of up to 12 elements. For longer slices Go's pattern-defeating quicksort may reorder equal versions, and the model does not follow that. `AnySortSelectsGreatestHit` states the highest-hit selection for every ascending permutation of the listing, so that property holds whatever order equal versions end up in; `ResolveSelectsListedHit` and `NoMatchIsSilent` are stated for the stable order only.
- GoLib.Dir: the lexical cleaning that `filepath.Dir` applies (`.`, `..`, doubled slashes) is not modelled. Only the final element and trailing slashes are removed.
- GoLib.TrimSpace: strings are sequences of code points, with no UTF-8 decoding, so invalid UTF-8 bytes are not modelled. White space is the set `unicode.IsSpace` recognises.
- GoLib.Atoi: there is no overflow wrap-around. Values outside the 64-bit range are a parse error, and so read as 0, which is what the code does with the error.
- Logging, timing, the CLI, environment lookups and `NewPackageManager` are not modelled.

## Findings

| source | as written | input that shows it | evidently intended | confidence | as-written member | corrected member |
|---|---|---|---|---|---|---|
| pacm/update.go:195-217 | No check follows the scan loop, so a listing in which no line satisfies the constraint returns an empty name and a nil error. The loop never sets the function's named `err`, because `actualVer, err := ...` at line 198 declares a new one. So not even an invalid name scanned last (as in `pack-0.tar.gz`, `pack-.tar.gz` under `<=0`) reports its error. | the listing `pack-1.0.tar.gz` with the constraint `>2` | a listing without a matching archive is reported as an error, as the "no archive found" path at lines 177-180 is | not executed | Resolver.NoMatchIsSilent | Resolver.ResolveChecked |
