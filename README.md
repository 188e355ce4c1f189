# elm-analyse file gatherer, modelled in Dafny

This project models `js/util/file-gatherer.js` from elm-analyse. That file decides three things:

- which `.elm` files make up a project;
- which files of an installed dependency belong to the modules it exposes;
- which declared dependencies have a resolved version in the lock-file.

The model keeps the code's own steps:

- **Module-path validator** (`isRealElmPaths`). The first occurrence of `sourceDir + '/'` is removed from the path. The rest is split on `/`. Every segment must start with `A`-`Z`.
- **Source collection** (`targetFilesForPathAndPackage`). For each declared source directory that exists, it takes the `.elm` files found below it. A file is dropped when its path, with the first occurrence of `path` removed, contains `elm-stuff` or `node_modules`. The validator is applied next. The per-directory lists are then flattened and deduplicated.
- **Relative-path rewrite** (the `.map` closure). A loop shifts common leading segments off both segment lists. It yields one `../` per leftover directory segment, then the leftover file segments joined with `/`.
- **Exposed-module filter** (`dependencyFiles`). A file is kept when it ends with `'/' + name.replace('.', '/') + '.elm'` for some exposed module.
- **Dependency partition** (`gather`). Each declared dependency is either locked, giving a `(name, version)` pair, or missing, giving a warning.

The file system and the JSON files the code loads are one value, `FileGatherer.Disk`:

- `existing` holds the paths for which `fs.existsSync` is true;
- `walk` holds, per directory, what the recursive walk of `find.fileSync` meets below it;
- `packageFiles` holds the parsed `elm-package.json` files, by path;
- `lockFiles` holds the parsed `exact-dependencies.json` files, by path.

A `require` of a file that is not there gives `Err(MissingFile(path))`. A manifest without a field the code reads gives `Err(MissingField(name))`. The failures are checked in the order the code meets them.

Modules:

- `Collections` (collections.dfy): `filter`, `_.uniq`, and the subsequence and no-duplicates predicates.
- `JsStrings` (js_strings.dfy): `indexOf`, `replace` with a string pattern, `endsWith`, `split` and `join`. It also holds their round-trip lemmas.
- `FileGatherer` (file_gatherer.dfy): the data model, the operations, and the rewrite loop as a method.
- `FileGathererProperties` (file_gatherer_properties.dfy): the lemmas about the operations.

### Behaviour of the code as written

The model follows the code in these places, even where the evident intent is otherwise:

- `dirParts.map(_ => '../').join()` separates with `,`. So `/a/b/x/Y.elm` seen from `/a/b/c/d` becomes `../,../x/Y.elm` (`RelativizeCommaExample`).
- `x.replace('.', '/')` replaces only the first dot. So `A.B.C` gives the suffix `/A/B.C.elm` (`ModuleSuffixThreeParts`).
- Exclusion is a substring test on the path, not a test on whole segments. A directory named `my-elm-stuff` excludes its files too.
- The validator checks whole segments, file name and extension included. Only the first character matters, so the result is the same as checking the name without its extension.
- `exactDeps[x]` is a truthiness test. A lock entry whose version is the empty string counts as missing (`HasLockEntry`).

## Model

| member | source | states |
|---|---|---|
| `JsStrings.IndexOf` | js/util/file-gatherer.js:24-25 | `indexOf` gives -1 exactly when the pattern does not occur; otherwise the index of its first occurrence |
| `JsStrings.Split` | js/util/file-gatherer.js:30-31 | `split('/')` always gives at least one piece, so `""` gives `[""]` |
| `JsStrings.SplitPiecesSeparatorFree` | js/util/file-gatherer.js:30-31 | no piece of a split contains the separator |
| `JsStrings.SplitJoin` | js/util/file-gatherer.js:30-42 | joining the pieces of a split with the separator gives back the original string |
| `JsStrings.JoinSplit` | js/util/file-gatherer.js:30-42 | splitting a join of separator-free pieces gives back the pieces |
| `JsStrings.Join` | js/util/file-gatherer.js:42 | `Array.prototype.join`; specified by `SplitJoin` and `JoinSplit` for `/`, and by `FileGathererProperties.UpLinksShape` for the default `,` |
| `JsStrings.EndsWith` | js/util/file-gatherer.js:55 | the predicate is the definition of `endsWith`: the suffix is no longer than the string and equals its last characters, so the empty suffix always matches |
| `JsStrings.SplitAppend` | js/util/file-gatherer.js:30-31 | splitting `a + '/' + b` gives the pieces of `a` followed by the pieces of `b` |
| `JsStrings.ReplaceFirstAtStart` | js/util/file-gatherer.js:7 | a pattern at the start of the string is the occurrence that `replace` removes |
| `JsStrings.ReplaceFirst` | js/util/file-gatherer.js:7 | `replace` with a string pattern; specified by `ReplaceFirstAtStart`, `ReplaceFirstAfterFreePrefix` and `ReplaceFirstAbsent` |
| `JsStrings.ReplaceFirstAbsent` | js/util/file-gatherer.js:53 | a one-character pattern that does not occur leaves the string unchanged, so a module name without a dot keeps its text |
| `JsStrings.ReplaceFirstAfterFreePrefix` | js/util/file-gatherer.js:53 | `replace` with a one-character pattern changes only its first occurrence and keeps later ones |
| `Collections.Filter` | js/util/file-gatherer.js:22-28 | `filter` keeps every occurrence of an element satisfying the predicate and no other element, so each count is either kept or zero, in the original order |
| `Collections.Uniq` | js/util/file-gatherer.js:14 | `_.uniq` returns a duplicate-free subsequence with exactly the elements of its input |
| `Collections.UniqOfDistinct` | js/util/file-gatherer.js:14 | `_.uniq` leaves a duplicate-free sequence unchanged |
| `Collections.UniqIdempotent` | js/util/file-gatherer.js:14 | applying `_.uniq` twice is the same as applying it once |
| `FileGathererProperties.SegmentsAfterFirst` | js/util/file-gatherer.js:8-9 | every segment after the first starts with A-Z exactly when every `/` is followed by A-Z |
| `FileGatherer.IsRealElmPath` | js/util/file-gatherer.js:6-10 | `isRealElmPaths`; specified by `IsRealElmPathCharacterised` and `IsRealElmPathUnder` |
| `FileGathererProperties.IsRealElmPathCharacterised` | js/util/file-gatherer.js:6-10 | the validator holds exactly when the path left after removing `sourceDir + '/'` is non-empty, starts with A-Z, and has A-Z after every `/`; so one empty or non-capital segment makes it false |
| `FileGathererProperties.IsRealElmPathUnder` | js/util/file-gatherer.js:6-10 | for a file `sourceDir/rest`, only `rest` is checked, by the same character rule |
| `FileGatherer.PassesExclusion` | js/util/file-gatherer.js:22-27 | the exclusion filter callback; specified by `ExclusionUnderPath` |
| `FileGathererProperties.ExclusionUnderPath` | js/util/file-gatherer.js:22-27 | a file `path + rest` survives exactly when `rest` contains neither `elm-stuff` nor `node_modules` as a substring and the path is non-empty |
| `FileGatherer.FoundElmFiles` | js/util/file-gatherer.js:21 | a file is found exactly when the walk of the directory meets it and its path ends in `.elm`; every such occurrence is kept, in walk order; a directory without a walk gives nothing |
| `FileGatherer.SourceDirFiles` | js/util/file-gatherer.js:15-28 | a file is contributed by a source-directory entry exactly when the directory exists, the walk meets the file there, its path ends in `.elm`, and it passes the exclusion filter and the validator |
| `FileGatherer.AllSourceFiles` | js/util/file-gatherer.js:14-29 | the flattened list holds exactly the files that qualify for some declared source directory |
| `FileGatherer.CollectedFiles` | js/util/file-gatherer.js:14-29 | the collected list has no duplicates and holds every file that qualifies for some existing source directory, and no other |
| `FileGathererProperties.MissingDirectoryContributesNothing` | js/util/file-gatherer.js:15-19 | removing a declared source directory that does not exist leaves the collected files unchanged |
| `FileGatherer.TargetFiles` | js/util/file-gatherer.js:12-46 | `targetFilesForPathAndPackage`; specified by `TargetFilesSpec` and `MissingDirectoryContributesNothing` |
| `FileGathererProperties.TargetFilesSpec` | js/util/file-gatherer.js:12-46 | the collector fails only when `source-directories` is missing, never because of a missing directory; otherwise it rewrites each collected file, in order |
| `FileGatherer.DropCommonHead` | js/util/file-gatherer.js:33-40 | the two remainders are suffixes with the same number of heads removed; the removed heads agree; afterwards one list is empty or the heads differ |
| `FileGatherer.Relativize` | js/util/file-gatherer.js:29-44 | the rewrite as a value; specified by `RelativizeUnderDirectory`, `RelativizeSegmentPrefix`, `RelativizeDiverging` and the examples below |
| `FileGatherer.RelativizePath` | js/util/file-gatherer.js:29-44 | the loop ends and yields the rewrite: one `../` per leftover directory segment, joined with `,`, then the leftover file segments joined with `/` |
| `FileGathererProperties.DropCommonHeadAppend` | js/util/file-gatherer.js:33-40 | a shared leading run of segments is removed completely before the loop stops |
| `FileGathererProperties.UpLinksShape` | js/util/file-gatherer.js:42 | no leftover directory segment gives "", one gives `../`, and n >= 2 give `../,` before the rest |
| `FileGathererProperties.RelativizeSegmentPrefix` | js/util/file-gatherer.js:30-42 | when the directory's segments are a prefix of the file's, the result is the remaining file segments joined by `/`, with no `../` |
| `FileGathererProperties.RelativizeOneUp` | js/util/file-gatherer.js:42 | with exactly one leftover directory segment, the result is `../` followed by the remaining file segments |
| `FileGathererProperties.RelativizeUnderDirectory` | js/util/file-gatherer.js:29-44 | a file `directory/rest` is rewritten to `rest`, so `directory + '/' + result` is the file again |
| `FileGathererProperties.RelativizeDiverging` | js/util/file-gatherer.js:30-42 | for paths that share a prefix and then differ, the result has one `../` per directory segment below the prefix, then the file's path below the prefix |
| `FileGathererProperties.RelativizeSibling` | js/util/file-gatherer.js:30-42 | seen from `prefix/c`, the file `prefix/x/y` is `../x/y` |
| `FileGathererProperties.RelativizeTwoUp` | js/util/file-gatherer.js:42 | seen from `prefix/c/d`, the file `prefix/x/y` is `../,../x/y`: the comma that `join()` inserts |
| `FileGathererProperties.RelativizeSiblingExample` | js/util/file-gatherer.js:29-44 | `/a/b/x/Y.elm` seen from `/a/b/c` is `../x/Y.elm` |
| `FileGathererProperties.RelativizeCommaExample` | js/util/file-gatherer.js:42 | `/a/b/x/Y.elm` seen from `/a/b/c/d` is `../,../x/Y.elm` |
| `FileGatherer.FirstEnding` | js/util/file-gatherer.js:55 | `[0]` of the matches is absent exactly when the file ends with none of the suffixes; otherwise it is the earliest listed suffix the file ends with |
| `FileGatherer.ModuleSuffix` | js/util/file-gatherer.js:53 | the suffix for one exposed module; specified by `ModuleSuffixNoDot`, `ModuleSuffixFirstDotOnly` and `ModuleSuffixThreeParts` |
| `FileGathererProperties.ModuleSuffixNoDot` | js/util/file-gatherer.js:53 | a module name without a dot gives the suffix `/` + name + `.elm` |
| `FileGathererProperties.ModuleSuffixFirstDotOnly` | js/util/file-gatherer.js:53 | only the first dot of a module name becomes `/`; later dots are kept |
| `FileGathererProperties.ModuleSuffixThreeParts` | js/util/file-gatherer.js:53 | `A.B.C` gives the suffix `/A/B.C.elm` |
| `FileGatherer.IsExposed` | js/util/file-gatherer.js:55 | the filter callback of `dependencyFiles`; specified by `IsExposedCharacterised` |
| `FileGathererProperties.IsExposedCharacterised` | js/util/file-gatherer.js:53-56 | the filter callback keeps a file exactly when it ends with the suffix of some exposed module |
| `FileGatherer.ExposedFiles` | js/util/file-gatherer.js:54-56 | the exposed-module filter; specified by `ExposedFilesSpec` |
| `FileGathererProperties.ExposedFilesSpec` | js/util/file-gatherer.js:53-56 | the exposed-module filter returns a subsequence of its input, in the same order, holding exactly the files that end with some exposed module's suffix, each with all its occurrences |
| `FileGathererProperties.ExposedKeepsAndDrops` | js/util/file-gatherer.js:54-56 | of two files, the one ending in the exposed suffix is kept and the other is dropped |
| `FileGathererProperties.ExposedFilesExample` | js/util/file-gatherer.js:53-56 | with `Foo.Bar` exposed, `src/Foo/Bar.elm` is kept and `src/Foo/Internal.elm` is dropped |
| `FileGatherer.DependencyFiles` | js/util/file-gatherer.js:48-57 | `dependencyFiles`; specified by `DependencyFilesSpec` |
| `FileGathererProperties.DependencyFilesSpec` | js/util/file-gatherer.js:48-57 | `getDependencyFiles` fails exactly when the dependency's descriptor is absent or lacks `source-directories` or `exposed-modules`; otherwise it returns exactly `ExposedFiles` of the dependency's source files: an order-preserving subsequence in which each file ending with an exposed suffix keeps all its occurrences and no other file appears |
| `FileGatherer.LockedDependencies` | js/util/file-gatherer.js:65 | the locked dependencies are exactly the declared ones with a truthy lock entry, each as often as it is declared |
| `FileGatherer.InterfaceFiles` | js/util/file-gatherer.js:64-66 | `interfaceFiles`; specified by `InterfaceFilesSpec` |
| `FileGatherer.MissingDependencies` | js/util/file-gatherer.js:68 | the dependencies warned about; specified by `DependencyPartition` and `OneWarningPerMissingDependency` |
| `FileGathererProperties.DependencyPartition` | js/util/file-gatherer.js:64-70 | counted with multiplicity, the locked and the warned-about dependencies together are exactly the declared ones |
| `FileGathererProperties.InterfaceFilesSpec` | js/util/file-gatherer.js:64-66 | `interfaceFiles` lists, in declaration order, exactly the declared dependencies with a lock entry, each paired with its locked, non-empty version |
| `FileGathererProperties.OneWarningPerMissingDependency` | js/util/file-gatherer.js:62-70 | with distinct declared names, a dependency without a lock entry gets exactly one warning and no interface entry; one with an entry gets no warning |
| `FileGatherer.Gather` | js/util/file-gatherer.js:59-77 | `gather`; specified by `GatherSpec` |
| `FileGathererProperties.GatherSpec` | js/util/file-gatherer.js:59-77 | `gather` fails exactly when the manifest or the lock-file is missing, or the manifest lacks `dependencies` or `source-directories`; otherwise its `interfaceFiles` are the `(name, version)` pairs of the locked dependencies in declaration order, each version the non-empty lock entry; its warnings are the other declared dependencies; together they partition the declared names; and its source files are the project's rewritten source files |

## Left out

- `fs.existsSync` and `find.fileSync` are not modelled as I/O. They are the fields `existing` and `walk` of `Disk`. What the walk meets, and in what order, is an input. A `find.fileSync` on an existing path that is a file rather than a directory is not modelled.
- `require` is not modelled as file loading and JSON parsing. It is a lookup in `packageFiles` and `lockFiles`. Node's module cache, malformed JSON, and fields of the wrong JSON type are not modelled. Lock-file versions are strings.
- Object-key lookup on the lock-file does not model inherited properties of `Object.prototype`, such as a dependency named `constructor`. Elm package names contain `/`, so they never collide with such properties.
- `dependencies` is the list of `Object.keys` in declaration order. JavaScript's reordering of integer-like keys is not modelled.
- `console.log` is not modelled. The names of the dependencies it warns about are returned in `Input.warnings`. The message text is left out. When `gather` fails after printing warnings, the model returns only the error.
- `path.sep` is taken to be `/`, and `path.normalize` is taken to be the identity. The model matches the code only when `sourceDir + '/'` is already normalized. A source-directory entry such as `.` or `../x` is normalized by the code and not by the model, so its validator result can differ.
- `replace` does not interpret `$` patterns in the replacement string. The replacements the code uses (`''` and `'/'`) contain none.
- The regular expression `^[A-Z].*` is modelled as a test on the first character.
- The `x.length > 0` conjunct of the exclusion filter is modelled as written. No property is built on it.
- Collections.Uniq: its contract states no duplicates, the same elements, and subsequence order. It does not state that the first occurrence of each element is the one kept, although the definition keeps it. Nothing downstream relies on that order: the callers of `gather` and `getDependencyFiles` are given no guarantee about the order of source files.
- FileGatherer.CollectedFiles: its contract states membership and the absence of duplicates. It does not state the order of the collected files, because the order is not part of what the gatherer offers its callers; it follows from the walk order, which is an input.
