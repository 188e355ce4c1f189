/** The file gatherer of elm-analyse (js/util/file-gatherer.js): which `.elm` files
    make up a project, which files of an installed dependency it exposes, and which
    declared dependencies have a resolved version.

    The file system and the JSON files the code `require`s are a `Disk` value; the
    path separator is '/', `path.normalize` is the identity. */
module FileGatherer {
  import opened Collections
  import opened JsStrings

  datatype Option<T> = None | Some(value: T)

  /** The two ways the code fails: `require` of a JSON file that is not there, and a
      manifest that lacks a field the code reads. */
  datatype LoadError =
    | MissingFile(path: string)
    | MissingField(field: string)

  datatype Result<T> = Ok(value: T) | Err(error: LoadError)

  /** An elm-package.json as `require` returns it; a field absent from the JSON is `None`.
      `dependencies` holds `Object.keys` of the dependency object, in declaration order
      (the version constraints are never read). */
  datatype Package = Package(
    dependencies: Option<seq<string>>,
    sourceDirectories: Option<seq<string>>,
    exposedModules: Option<seq<string>>)

  /** What the gatherer observes of the file system:
      `existing` - the paths for which `fs.existsSync` holds;
      `walk` - for a directory, every file the recursive walk of `find.fileSync` meets under it;
      `packageFiles` - the parsed elm-package.json files, by path;
      `lockFiles` - the parsed exact-dependencies.json files (name to version), by path. */
  datatype Disk = Disk(
    existing: set<string>,
    walk: map<string, seq<string>>,
    packageFiles: map<string, Package>,
    lockFiles: map<string, map<string, string>>)

  /** The result of `gather`. The source prints one warning per dependency without a
      resolved version; here the names of those dependencies are returned in `warnings`. */
  datatype Input = Input(
    interfaceFiles: seq<(string, string)>,
    sourceFiles: seq<string>,
    warnings: seq<string>)

  // ---------------------------------------------------------------------------
  // Module-path validator (isRealElmPaths)

  /** The regular expression `^[A-Z].*` matches exactly the strings whose first character is A-Z. */
  predicate IsUpperAscii(c: char)
  {
    'A' <= c <= 'Z'
  }

  predicate StartsWithCapital(segment: string)
  {
    |segment| > 0 && IsUpperAscii(segment[0])
  }

  predicate AllSegmentsCapitalised(parts: seq<string>)
  {
    forall i :: 0 <= i < |parts| ==> StartsWithCapital(parts[i])
  }

  /** The file path with the first occurrence of the source directory and a slash removed. */
  function ModulePath(sourceDir: string, filePath: string): string
  {
    ReplaceFirst(filePath, sourceDir + "/", "")
  }

  predicate IsRealElmPath(sourceDir: string, filePath: string)
  {
    AllSegmentsCapitalised(Split(ModulePath(sourceDir, filePath), '/'))
  }

  // ---------------------------------------------------------------------------
  // Source collection (targetFilesForPathAndPackage, before the rewrite)

  /** The exclusion filter: with the first occurrence of `path` removed, the file path
      mentions neither elm-stuff nor node_modules; and it is not empty. */
  predicate PassesExclusion(path: string, file: string)
  {
    var relativePath := ReplaceFirst(file, path, "");
    IndexOf(relativePath, "elm-stuff") == -1
      && IndexOf(relativePath, "node_modules") == -1
      && |file| > 0
  }

  function SourceDir(path: string, entry: string): string
  {
    path + "/" + entry
  }

  /** `find.fileSync(/\.elm$/, dir)`: every file of the walk whose path ends in ".elm",
      in walk order; nothing for a directory without a walk. */
  function FoundElmFiles(disk: Disk, dir: string): (r: seq<string>)
    ensures forall f :: f in r <==> dir in disk.walk && f in disk.walk[dir] && EndsWith(f, ".elm")
    ensures dir in disk.walk ==> IsSubsequence(r, disk.walk[dir])
    ensures dir in disk.walk ==>
      forall f :: multiset(r)[f] == if EndsWith(f, ".elm") then multiset(disk.walk[dir])[f] else 0
    ensures dir !in disk.walk ==> r == []
  {
    if dir in disk.walk then Filter(f => EndsWith(f, ".elm"), disk.walk[dir]) else []
  }

  /** A file is collected for a source-directory entry: the directory exists, the walk
      finds the file there, and it passes both filters. */
  ghost predicate Qualifies(disk: Disk, path: string, entry: string, file: string)
  {
    var dir := SourceDir(path, entry);
    && dir in disk.existing
    && dir in disk.walk
    && file in disk.walk[dir]
    && EndsWith(file, ".elm")
    && PassesExclusion(path, file)
    && IsRealElmPath(dir, file)
  }

  /** The files one source-directory entry contributes; a directory that does not exist
      contributes none. */
  function SourceDirFiles(disk: Disk, path: string, entry: string): (r: seq<string>)
    ensures forall f :: f in r <==> Qualifies(disk, path, entry, f)
  {
    var dir := SourceDir(path, entry);
    if dir !in disk.existing then []
    else
      var kept := Filter(f => PassesExclusion(path, f), FoundElmFiles(disk, dir));
      Filter(f => IsRealElmPath(dir, f), kept)
  }

  /** `_.flatten` of the per-entry lists. */
  function AllSourceFiles(disk: Disk, path: string, entries: seq<string>): (r: seq<string>)
    ensures forall f :: f in r <==> exists i :: 0 <= i < |entries| && Qualifies(disk, path, entries[i], f)
  {
    if entries == [] then []
    else
      SourceDirFiles(disk, path, entries[0]) + AllSourceFiles(disk, path, entries[1..])
  }

  /** `_.uniq` of the flattened list: every qualifying file exactly once. */
  function CollectedFiles(disk: Disk, path: string, entries: seq<string>): (r: seq<string>)
    ensures NoDuplicates(r)
    ensures forall f :: f in r <==> exists i :: 0 <= i < |entries| && Qualifies(disk, path, entries[i], f)
  {
    Uniq(AllSourceFiles(disk, path, entries))
  }

  // ---------------------------------------------------------------------------
  // Relative-path rewrite (the `.map` closure of targetFilesForPathAndPackage)

  /** Drops the common leading segments of `a` and `b`: what is left of each after their
      longest common prefix. */
  function DropCommonHead(a: seq<string>, b: seq<string>): (r: (seq<string>, seq<string>))
    ensures |r.0| <= |a| && |r.1| <= |b| && |a| - |r.0| == |b| - |r.1|
    ensures r.0 == a[|a| - |r.0|..] && r.1 == b[|b| - |r.1|..]
    ensures forall k :: 0 <= k < |a| - |r.0| ==> a[k] == b[k]
    ensures r.0 == [] || r.1 == [] || r.0[0] != r.1[0]
  {
    if |a| > 0 && |b| > 0 && a[0] == b[0] then DropCommonHead(a[1..], b[1..]) else (a, b)
  }

  /** `dirParts.map(_ => '../').join()`: `join` without an argument separates with ",",
      so two or more leftover directory segments give "../,../". */
  function UpLinks(n: nat): string
  {
    Join(seq(n, _ => "../"), ",")
  }

  /** The path of `s` relative to `directory`, as the closure computes it. */
  function Relativize(directory: string, s: string): string
  {
    var rest := DropCommonHead(Split(s, '/'), Split(directory, '/'));
    UpLinks(|rest.1|) + Join(rest.0, "/")
  }

  /** The closure itself: both paths are split, and the loop shifts one segment off each
      while their heads agree. */
  method RelativizePath(directory: string, s: string) returns (result: string)
    ensures result == Relativize(directory, s)
  {
    var sParts := Split(s, '/');
    var dirParts := Split(directory, '/');
    ghost var sAll, dirAll := sParts, dirParts;
    while |sParts| > 0 && |dirParts| > 0
      invariant DropCommonHead(sParts, dirParts) == DropCommonHead(sAll, dirAll)
      decreases |sParts|
    {
      if sParts[0] == dirParts[0] {
        sParts := sParts[1..];
        dirParts := dirParts[1..];
      } else {
        break;
      }
    }
    assert DropCommonHead(sParts, dirParts) == (sParts, dirParts);
    result := UpLinks(|dirParts|) + Join(sParts, "/");
  }

  /** targetFilesForPathAndPackage(directory, path, pack). Only a manifest without
      "source-directories" fails; a missing source directory is skipped. */
  function TargetFiles(disk: Disk, directory: string, path: string, pack: Package): Result<seq<string>>
  {
    match pack.sourceDirectories
    case None => Err(MissingField("source-directories"))
    case Some(entries) =>
      var files := CollectedFiles(disk, path, entries);
      Ok(seq(|files|, i requires 0 <= i < |files| => Relativize(directory, files[i])))
  }

  // ---------------------------------------------------------------------------
  // Exposed modules of a dependency (dependencyFiles)

  /** `'/' + x.replace('.', '/') + '.elm'`: only the FIRST dot becomes a slash. */
  function ModuleSuffix(moduleName: string): string
  {
    "/" + ReplaceFirst(moduleName, ".", "/") + ".elm"
  }

  function ModuleSuffixes(exposedModules: seq<string>): (r: seq<string>)
    ensures |r| == |exposedModules|
  {
    seq(|exposedModules|, i requires 0 <= i < |exposedModules| => ModuleSuffix(exposedModules[i]))
  }

  /** `suffixes.filter(e => file.endsWith(e))[0]`: the first suffix the file ends with. */
  function FirstEnding(file: string, suffixes: seq<string>): (r: Option<string>)
    ensures r.None? <==> forall i :: 0 <= i < |suffixes| ==> !EndsWith(file, suffixes[i])
    ensures r.Some? ==>
      exists i :: 0 <= i < |suffixes| && r.value == suffixes[i] && EndsWith(file, suffixes[i])
        && forall j :: 0 <= j < i ==> !EndsWith(file, suffixes[j])
  {
    if suffixes == [] then None
    else if EndsWith(file, suffixes[0]) then Some(suffixes[0])
    else
      var r := FirstEnding(file, suffixes[1..]);
      if r.Some? then
        var i :| 0 <= i < |suffixes[1..]| && r.value == suffixes[1..][i] && EndsWith(file, suffixes[1..][i])
          && forall j :: 0 <= j < i ==> !EndsWith(file, suffixes[1..][j]);
        assert r.value == suffixes[i + 1];
        r
      else r
  }

  /** The filter callback keeps a file when that first match is truthy: found and non-empty. */
  predicate IsExposed(file: string, exposedModules: seq<string>)
  {
    match FirstEnding(file, ModuleSuffixes(exposedModules))
    case None => false
    case Some(e) => e != ""
  }

  function ExposedFiles(files: seq<string>, exposedModules: seq<string>): seq<string>
  {
    Filter(f => IsExposed(f, exposedModules), files)
  }

  /** Where a dependency is installed. */
  function DependencyPath(directory: string, dep: string, version: string): string
  {
    directory + "/elm-stuff/packages/" + dep + "/" + version
  }

  /** dependencyFiles(directory, dep, version) (exported as getDependencyFiles). */
  function DependencyFiles(disk: Disk, directory: string, dep: string, version: string): Result<seq<string>>
  {
    var depPath := DependencyPath(directory, dep, version);
    var descriptor := depPath + "/elm-package.json";
    if descriptor !in disk.packageFiles then Err(MissingFile(descriptor))
    else
      var pack := disk.packageFiles[descriptor];
      match TargetFiles(disk, directory, depPath, pack)
      case Err(e) => Err(e)
      case Ok(files) =>
        match pack.exposedModules
        case None => Err(MissingField("exposed-modules"))
        case Some(exposed) => Ok(ExposedFiles(files, exposed))
  }

  // ---------------------------------------------------------------------------
  // Dependency partition and the entry point (gather)

  /** `exactDeps[name]` is truthy: the name has an entry and its version is not "". */
  predicate HasLockEntry(lock: map<string, string>, name: string)
  {
    name in lock && lock[name] != ""
  }

  function LockedDependencies(deps: seq<string>, lock: map<string, string>): (r: seq<string>)
    ensures forall x :: x in r <==> x in deps && HasLockEntry(lock, x)
    ensures forall x :: multiset(r)[x] == if HasLockEntry(lock, x) then multiset(deps)[x] else 0
  {
    Filter(x => HasLockEntry(lock, x), deps)
  }

  /** `dependencies.filter(x => exactDeps[x]).map(x => [x, exactDeps[x]])`. */
  function InterfaceFiles(deps: seq<string>, lock: map<string, string>): seq<(string, string)>
  {
    var names := LockedDependencies(deps, lock);
    seq(|names|, i requires 0 <= i < |names| => assert names[i] in names; (names[i], lock[names[i]]))
  }

  /** `dependencies.filter(x => !exactDeps[x])`: the names a warning is printed for. */
  function MissingDependencies(deps: seq<string>, lock: map<string, string>): seq<string>
  {
    Filter(x => !HasLockEntry(lock, x), deps)
  }

  /** gather(directory): loads the manifest and the lock-file, partitions the declared
      dependencies and collects the project's own source files. */
  function Gather(disk: Disk, directory: string): Result<Input>
  {
    var packagePath := directory + "/elm-package.json";
    var lockPath := directory + "/elm-stuff/exact-dependencies.json";
    if packagePath !in disk.packageFiles then Err(MissingFile(packagePath))
    else if lockPath !in disk.lockFiles then Err(MissingFile(lockPath))
    else
      var pack := disk.packageFiles[packagePath];
      var lock := disk.lockFiles[lockPath];
      match pack.dependencies
      case None => Err(MissingField("dependencies"))
      case Some(deps) =>
        match TargetFiles(disk, directory, directory, pack)
        case Err(e) => Err(e)
        case Ok(sources) =>
          Ok(Input(InterfaceFiles(deps, lock), sources, MissingDependencies(deps, lock)))
  }
}
