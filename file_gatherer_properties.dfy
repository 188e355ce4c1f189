/** What the gatherer guarantees, stated over the model in FileGatherer. */
module FileGathererProperties {
  import opened Collections
  import opened JsStrings
  import opened FileGatherer

  // ---------------------------------------------------------------------------
  // Module-path validator

  /** Every slash is followed by a capital letter (so no slash ends the path and no two are adjacent). */
  ghost predicate CapitalAfterEverySlash(r: string)
  {
    forall i :: 0 <= i < |r| && r[i] == '/' ==> i + 1 < |r| && IsUpperAscii(r[i + 1])
  }

  /** A module path read character by character: it starts with a capital letter and
      every slash is followed by one. */
  ghost predicate IsModulePath(r: string)
  {
    |r| > 0 && IsUpperAscii(r[0]) && CapitalAfterEverySlash(r)
  }

  lemma CapitalAfterEverySlashCons(r: string)
    requires |r| > 0
    ensures CapitalAfterEverySlash(r)
        <==> (r[0] == '/' ==> 1 < |r| && IsUpperAscii(r[1])) && CapitalAfterEverySlash(r[1..])
  {
  }

  lemma AllSegmentsCapitalisedCons(parts: seq<string>)
    requires |parts| > 0
    ensures AllSegmentsCapitalised(parts)
        <==> StartsWithCapital(parts[0]) && AllSegmentsCapitalised(parts[1..])
  {
  }

  /** The segments after the first all start with a capital exactly when every slash
      is followed by a capital. */
  lemma {:induction false} SegmentsAfterFirst(r: string)
    ensures AllSegmentsCapitalised(Split(r, '/')[1..]) <==> CapitalAfterEverySlash(r)
    decreases |r|
  {
    if r != [] {
      var t := r[1..];
      SegmentsAfterFirst(t);
      SplitTail(r, '/');
      CapitalAfterEverySlashCons(r);
      if r[0] == '/' {
        AllSegmentsCapitalisedCons(Split(t, '/'));
        SplitHead(t, '/');
      }
    }
  }

  /** isRealElmPaths holds exactly when what is left of the path after removing the source
      directory is a module path: non-empty, starting with A-Z, and every slash followed by A-Z.
      So one empty segment or one segment starting with anything else makes it false. */
  lemma IsRealElmPathCharacterised(sourceDir: string, filePath: string)
    ensures IsRealElmPath(sourceDir, filePath) <==> IsModulePath(ModulePath(sourceDir, filePath))
  {
    var r := ModulePath(sourceDir, filePath);
    AllSegmentsCapitalisedCons(Split(r, '/'));
    SegmentsAfterFirst(r);
    SplitHead(r, '/');
  }

  /** For a file below the source directory, only the part below it is checked. */
  lemma IsRealElmPathUnder(sourceDir: string, rest: string)
    ensures IsRealElmPath(sourceDir, sourceDir + "/" + rest) <==> IsModulePath(rest)
  {
    ReplaceFirstAtStart(sourceDir + "/", rest, "");
    assert "" + rest == rest;
    IsRealElmPathCharacterised(sourceDir, sourceDir + "/" + rest);
  }

  // ---------------------------------------------------------------------------
  // Exclusion filter

  /** A file below `path` survives the exclusion filter exactly when the part after `path`
      contains neither "elm-stuff" nor "node_modules" (and the path is not empty). */
  lemma ExclusionUnderPath(path: string, rest: string)
    ensures PassesExclusion(path, path + rest)
        <==> !Contains(rest, "elm-stuff") && !Contains(rest, "node_modules") && |path + rest| > 0
  {
    ReplaceFirstAtStart(path, rest, "");
    assert "" + rest == rest;
  }

  // ---------------------------------------------------------------------------
  // Source collection

  /** One step of `_.flatten`: the first entry's files, then the rest. */
  lemma AllSourceFilesCons(disk: Disk, path: string, entry: string, rest: seq<string>)
    ensures AllSourceFiles(disk, path, [entry] + rest)
         == SourceDirFiles(disk, path, entry) + AllSourceFiles(disk, path, rest)
  {
    assert ([entry] + rest)[0] == entry;
    assert ([entry] + rest)[1..] == rest;
  }

  lemma {:induction false} AllSourceFilesAppend(disk: Disk, path: string, a: seq<string>, b: seq<string>)
    ensures AllSourceFiles(disk, path, a + b) == AllSourceFiles(disk, path, a) + AllSourceFiles(disk, path, b)
    decreases |a|
  {
    if a == [] {
      assert a + b == b;
    } else {
      assert a == [a[0]] + a[1..];
      assert a + b == [a[0]] + (a[1..] + b);
      var first := SourceDirFiles(disk, path, a[0]);
      var middle := AllSourceFiles(disk, path, a[1..]);
      var last := AllSourceFiles(disk, path, b);
      AllSourceFilesAppend(disk, path, a[1..], b);
      AllSourceFilesCons(disk, path, a[0], a[1..] + b);
      assert AllSourceFiles(disk, path, a + b) == first + (middle + last);
      AllSourceFilesCons(disk, path, a[0], a[1..]);
      assert AllSourceFiles(disk, path, a) == first + middle;
      assert first + (middle + last) == (first + middle) + last;
    }
  }

  /** A leading entry whose directory does not exist adds nothing to the flattened list. */
  lemma SkipMissingDirectory(disk: Disk, path: string, entry: string, rest: seq<string>)
    requires SourceDir(path, entry) !in disk.existing
    ensures AllSourceFiles(disk, path, [entry] + rest) == AllSourceFiles(disk, path, rest)
  {
    AllSourceFilesCons(disk, path, entry, rest);
    assert SourceDirFiles(disk, path, entry) == [];
  }

  /** A declared source directory that does not exist contributes nothing: dropping it from
      the manifest leaves the collected files as they are (and nothing fails). */
  lemma MissingDirectoryContributesNothing(disk: Disk, path: string, entries: seq<string>, i: nat)
    requires i < |entries|
    requires SourceDir(path, entries[i]) !in disk.existing
    ensures AllSourceFiles(disk, path, entries) == AllSourceFiles(disk, path, entries[..i] + entries[i + 1..])
  {
    var before, after := entries[..i], entries[i + 1..];
    assert entries == before + ([entries[i]] + after);
    AllSourceFilesAppend(disk, path, before, [entries[i]] + after);
    SkipMissingDirectory(disk, path, entries[i], after);
    AllSourceFilesAppend(disk, path, before, after);
  }

  /** targetFilesForPathAndPackage fails only for a manifest without "source-directories";
      otherwise it gives, in order, the rewrite of each collected file, and the collected
      files are exactly the qualifying ones, each once. */
  lemma TargetFilesSpec(disk: Disk, directory: string, path: string, pack: Package)
    ensures TargetFiles(disk, directory, path, pack).Ok? <==> pack.sourceDirectories.Some?
    ensures pack.sourceDirectories.Some? ==>
      var entries := pack.sourceDirectories.value;
      var files := CollectedFiles(disk, path, entries);
      var out := TargetFiles(disk, directory, path, pack).value;
      && NoDuplicates(files)
      && (forall f :: f in files <==> exists i :: 0 <= i < |entries| && Qualifies(disk, path, entries[i], f))
      && |out| == |files|
      && (forall k :: 0 <= k < |out| ==> out[k] == Relativize(directory, files[k]))
  {
  }

  // ---------------------------------------------------------------------------
  // Relative-path rewrite

  lemma {:induction false} DropCommonHeadAppend(p: seq<string>, a: seq<string>, b: seq<string>)
    ensures DropCommonHead(p + a, p + b) == DropCommonHead(a, b)
    decreases |p|
  {
    if p == [] {
      assert p + a == a && p + b == b;
    } else {
      assert (p + a)[0] == p[0] == (p + b)[0];
      assert (p + a)[1..] == p[1..] + a;
      assert (p + b)[1..] == p[1..] + b;
      DropCommonHeadAppend(p[1..], a, b);
    }
  }

  /** The "../" prefix: empty for no leftover directory segment, "../" for one, and
      comma-separated for more, because `join()` separates with ",". */
  lemma UpLinksShape(n: nat)
    ensures n == 0 ==> UpLinks(n) == ""
    ensures n == 1 ==> UpLinks(n) == "../"
    ensures n >= 2 ==> UpLinks(n) == "../," + UpLinks(n - 1)
  {
    if n >= 2 {
      var ups := seq(n, _ => "../");
      assert ups[1..] == seq(n - 1, _ => "../");
    }
  }

  /** If the directory's segments are a prefix of the file's, the result is the remaining
      file segments joined by "/", without any "../". */
  lemma RelativizeSegmentPrefix(directory: string, s: string)
    requires var d := Split(directory, '/'); |d| <= |Split(s, '/')| && Split(s, '/')[..|d|] == d
    ensures Relativize(directory, s) == Join(Split(s, '/')[|Split(directory, '/')|..], "/")
  {
    var d := Split(directory, '/');
    var f := Split(s, '/');
    assert f == d + f[|d|..];
    assert d == d + [];
    DropCommonHeadAppend(d, f[|d|..], []);
    UpLinksShape(0);
  }

  /** If exactly one directory segment is left over, the result is "../" followed by the
      remaining file segments. */
  lemma RelativizeOneUp(directory: string, s: string)
    requires |DropCommonHead(Split(s, '/'), Split(directory, '/')).1| == 1
    ensures Relativize(directory, s) == "../" + Join(DropCommonHead(Split(s, '/'), Split(directory, '/')).0, "/")
  {
  }

  /** A file below the directory is rewritten to its path below the directory; joining the
      directory, a slash and the result gives the file back. */
  lemma RelativizeUnderDirectory(directory: string, rest: string)
    ensures Relativize(directory, directory + "/" + rest) == rest
  {
    var d := Split(directory, '/');
    SplitAppend(directory, rest, '/');
    assert directory + "/" + rest == directory + ['/'] + rest;
    assert d == d + [];
    DropCommonHeadAppend(d, Split(rest, '/'), []);
    UpLinksShape(0);
    SplitJoin(rest, '/');
  }

  /** Paths that share `prefix` and then diverge: one "../" per segment of the directory
      below the prefix, followed by the file's path below the prefix. */
  lemma RelativizeDiverging(prefix: string, up: string, rest: string)
    requires Split(rest, '/')[0] != Split(up, '/')[0]
    ensures Relativize(prefix + "/" + up, prefix + "/" + rest) == UpLinks(|Split(up, '/')|) + rest
  {
    var p := Split(prefix, '/');
    assert prefix + "/" + rest == prefix + ['/'] + rest;
    assert prefix + "/" + up == prefix + ['/'] + up;
    SplitAppend(prefix, rest, '/');
    SplitAppend(prefix, up, '/');
    DropCommonHeadAppend(p, Split(rest, '/'), Split(up, '/'));
    SplitJoin(rest, '/');
  }

  lemma SplitTwo(a: string, b: string)
    requires '/' !in a && '/' !in b
    ensures Split(a + "/" + b, '/') == [a, b]
  {
    assert a + "/" + b == a + ['/'] + b;
    SplitAppend(a, b, '/');
    SplitWithoutSeparator(a, '/');
    SplitWithoutSeparator(b, '/');
  }

  /** A file one directory over: seen from `prefix/c`, the file `prefix/x/y` is "../x/y". */
  lemma RelativizeSibling(prefix: string, c: string, x: string, y: string)
    requires '/' !in c && '/' !in x && '/' !in y && x != c
    ensures Relativize(prefix + "/" + c, prefix + "/" + (x + "/" + y)) == "../" + (x + "/" + y)
  {
    SplitTwo(x, y);
    SplitWithoutSeparator(c, '/');
    RelativizeDiverging(prefix, c, x + "/" + y);
    UpLinksShape(1);
  }

  /** As written, two leftover directory segments put a comma after the first "../":
      seen from `prefix/c/d`, the file `prefix/x/y` is "../,../x/y". */
  lemma RelativizeTwoUp(prefix: string, c: string, d: string, x: string, y: string)
    requires '/' !in c && '/' !in d && '/' !in x && '/' !in y && x != c
    ensures Relativize(prefix + "/" + (c + "/" + d), prefix + "/" + (x + "/" + y)) == "../,../" + (x + "/" + y)
  {
    SplitTwo(x, y);
    SplitTwo(c, d);
    RelativizeDiverging(prefix, c + "/" + d, x + "/" + y);
    UpLinksShape(2);
    UpLinksShape(1);
  }

  /** The example of a file in a sibling directory: "/a/b/x/Y.elm" seen from "/a/b/c". */
  lemma RelativizeSiblingExample(directory: string, file: string)
    requires directory == "/a/b/c" && file == "/a/b/x/Y.elm"
    ensures Relativize(directory, file) == "../x/Y.elm"
  {
    var prefix, c, x, y := "/a/b", "c", "x", "Y.elm";
    assert directory == prefix + "/" + c;
    assert file == prefix + "/" + (x + "/" + y);
    assert '/' !in c && '/' !in x && '/' !in y && x != c;
    RelativizeSibling(prefix, c, x, y);
    assert "../" + (x + "/" + y) == "../x/Y.elm";
  }

  /** "/a/b/x/Y.elm" seen from "/a/b/c/d" is "../,../x/Y.elm". */
  lemma RelativizeCommaExample(directory: string, file: string)
    requires directory == "/a/b/c/d" && file == "/a/b/x/Y.elm"
    ensures Relativize(directory, file) == "../,../x/Y.elm"
  {
    var prefix, c, d, x, y := "/a/b", "c", "d", "x", "Y.elm";
    assert directory == prefix + "/" + (c + "/" + d);
    assert file == prefix + "/" + (x + "/" + y);
    assert '/' !in c && '/' !in d && '/' !in x && '/' !in y && x != c;
    RelativizeTwoUp(prefix, c, d, x, y);
    assert "../,../" + (x + "/" + y) == "../,../x/Y.elm";
  }

  // ---------------------------------------------------------------------------
  // Exposed modules

  /** A module name without a dot becomes "/" + name + ".elm". */
  lemma ModuleSuffixNoDot(m: string)
    requires '.' !in m
    ensures ModuleSuffix(m) == "/" + m + ".elm"
  {
    ReplaceFirstAbsent(m, '.', "/");
  }

  /** Only the first dot becomes a slash: the rest of the name keeps its dots. */
  lemma ModuleSuffixFirstDotOnly(a: string, b: string)
    requires '.' !in a
    ensures ModuleSuffix(a + "." + b) == "/" + a + "/" + b + ".elm"
  {
    ReplaceFirstAfterFreePrefix(a, '.', b, "/");
  }

  /** "A.B.C" becomes "/A/B.C.elm", not "/A/B/C.elm". */
  lemma ModuleSuffixThreeParts()
    ensures ModuleSuffix("A.B.C") == "/A/B.C.elm"
  {
    assert "A.B.C" == "A" + "." + "B.C";
    ModuleSuffixFirstDotOnly("A", "B.C");
  }

  /** The filter callback keeps a file exactly when it ends with the suffix of some exposed module. */
  lemma IsExposedCharacterised(file: string, exposedModules: seq<string>)
    ensures IsExposed(file, exposedModules)
        <==> exists i :: 0 <= i < |exposedModules| && EndsWith(file, ModuleSuffix(exposedModules[i]))
  {
    var suffixes := ModuleSuffixes(exposedModules);
    if IsExposed(file, exposedModules) {
      var e := FirstEnding(file, suffixes).value;
      var i :| 0 <= i < |suffixes| && suffixes[i] == e;
      assert EndsWith(file, ModuleSuffix(exposedModules[i]));
    }
    if exists i :: 0 <= i < |exposedModules| && EndsWith(file, ModuleSuffix(exposedModules[i])) {
      var i :| 0 <= i < |exposedModules| && EndsWith(file, ModuleSuffix(exposedModules[i]));
      assert EndsWith(file, suffixes[i]);
      var e := FirstEnding(file, suffixes).value;
      var j :| 0 <= j < |suffixes| && suffixes[j] == e;
      assert |ModuleSuffix(exposedModules[j])| > 0;
    }
  }

  /** The exposed-module filter keeps, in their order, exactly the files that end with
      the suffix of some exposed module. */
  lemma ExposedFilesSpec(files: seq<string>, exposedModules: seq<string>)
    ensures IsSubsequence(ExposedFiles(files, exposedModules), files)
    ensures forall f :: (f in ExposedFiles(files, exposedModules)
      <==> f in files && exists i :: 0 <= i < |exposedModules| && EndsWith(f, ModuleSuffix(exposedModules[i])))
    ensures forall f :: (multiset(ExposedFiles(files, exposedModules))[f]
      == if exists i :: 0 <= i < |exposedModules| && EndsWith(f, ModuleSuffix(exposedModules[i]))
         then multiset(files)[f] else 0)
  {
    forall f {
      IsExposedCharacterised(f, exposedModules);
    }
  }

  /** Of two files, the exposed-module filter keeps the one ending in the exposed
      module's suffix and drops the other. */
  lemma ExposedKeepsAndDrops(kept: string, dropped: string, exposed: seq<string>)
    requires |exposed| == 1
    requires EndsWith(kept, ModuleSuffix(exposed[0])) && !EndsWith(dropped, ModuleSuffix(exposed[0]))
    ensures ExposedFiles([kept, dropped], exposed) == [kept]
  {
    IsExposedCharacterised(kept, exposed);
    IsExposedCharacterised(dropped, exposed);
    assert IsExposed(kept, exposed);
    assert !IsExposed(dropped, exposed);
    assert [kept, dropped][1..] == [dropped];
    assert [dropped][1..] == [];
    assert ExposedFiles([dropped], exposed) == [];
  }

  lemma FooBarSuffix(m: string)
    requires m == "Foo.Bar"
    ensures ModuleSuffix(m) == "/Foo/Bar.elm"
  {
    assert Occurs(m, ".", 3);
    forall j | 0 <= j < 3 ensures !Occurs(m, ".", j) {
      assert m[j..j + 1] == [m[j]];
    }
    assert IndexOf(m, ".") == 3;
    assert m[..3] == "Foo" && m[4..] == "Bar";
  }

  lemma FooBarEndings(bar: string, internal: string, suffix: string)
    requires bar == "src/Foo/Bar.elm" && internal == "src/Foo/Internal.elm" && suffix == "/Foo/Bar.elm"
    ensures EndsWith(bar, suffix) && !EndsWith(internal, suffix)
  {
  }

  /** With "Foo.Bar" exposed, a file ending in /Foo/Bar.elm is kept and one ending in
      /Foo/Internal.elm is dropped, although both are valid source files. */
  lemma ExposedFilesExample(bar: string, internal: string, exposed: seq<string>)
    requires bar == "src/Foo/Bar.elm" && internal == "src/Foo/Internal.elm" && exposed == ["Foo.Bar"]
    ensures ExposedFiles([bar, internal], exposed) == [bar]
  {
    var m := exposed[0];
    FooBarSuffix(m);
    FooBarEndings(bar, internal, ModuleSuffix(m));
    ExposedKeepsAndDrops(bar, internal, exposed);
  }

  /** getDependencyFiles fails exactly when the dependency's descriptor is not there or
      lacks "source-directories" or "exposed-modules"; otherwise it gives the dependency's
      source files that belong to an exposed module, in order. */
  lemma DependencyFilesSpec(disk: Disk, directory: string, dep: string, version: string)
    ensures var descriptor := DependencyPath(directory, dep, version) + "/elm-package.json";
      (DependencyFiles(disk, directory, dep, version).Ok?
       <==> (descriptor in disk.packageFiles
             && disk.packageFiles[descriptor].sourceDirectories.Some?
             && disk.packageFiles[descriptor].exposedModules.Some?))
    ensures DependencyFiles(disk, directory, dep, version).Ok? ==>
      var depPath := DependencyPath(directory, dep, version);
      var pack := disk.packageFiles[depPath + "/elm-package.json"];
      var exposed := pack.exposedModules.value;
      var targets := TargetFiles(disk, directory, depPath, pack).value;
      var r := DependencyFiles(disk, directory, dep, version).value;
      && r == ExposedFiles(targets, exposed)
      && IsSubsequence(r, targets)
      && (forall f :: f in r <==> f in targets && exists i :: 0 <= i < |exposed| && EndsWith(f, ModuleSuffix(exposed[i])))
      && (forall f :: (multiset(r)[f]
            == if exists i :: 0 <= i < |exposed| && EndsWith(f, ModuleSuffix(exposed[i]))
               then multiset(targets)[f] else 0))
  {
    var depPath := DependencyPath(directory, dep, version);
    var descriptor := depPath + "/elm-package.json";
    if descriptor in disk.packageFiles {
      var pack := disk.packageFiles[descriptor];
      TargetFilesSpec(disk, directory, depPath, pack);
      if pack.sourceDirectories.Some? && pack.exposedModules.Some? {
        ExposedFilesSpec(TargetFiles(disk, directory, depPath, pack).value, pack.exposedModules.value);
      }
    }
  }

  // ---------------------------------------------------------------------------
  // Dependency partition

  function Names(pairs: seq<(string, string)>): seq<string>
  {
    seq(|pairs|, i requires 0 <= i < |pairs| => pairs[i].0)
  }

  /** Every declared dependency goes to exactly one of the two groups: counted with
      multiplicity, the locked ones and the warned-about ones make up the declared list. */
  lemma DependencyPartition(deps: seq<string>, lock: map<string, string>)
    ensures multiset(LockedDependencies(deps, lock)) + multiset(MissingDependencies(deps, lock)) == multiset(deps)
  {
    var locked := multiset(LockedDependencies(deps, lock));
    var missing := multiset(MissingDependencies(deps, lock));
    forall x ensures (locked + missing)[x] == multiset(deps)[x] {
    }
    assert locked + missing == multiset(deps);
  }

  /** interfaceFiles pairs, in declaration order, each dependency that has a lock entry
      with its locked version. */
  lemma InterfaceFilesSpec(deps: seq<string>, lock: map<string, string>)
    ensures Names(InterfaceFiles(deps, lock)) == LockedDependencies(deps, lock)
    ensures IsSubsequence(LockedDependencies(deps, lock), deps)
    ensures forall x :: x in LockedDependencies(deps, lock) <==> x in deps && HasLockEntry(lock, x)
    ensures forall k :: 0 <= k < |InterfaceFiles(deps, lock)| ==>
      var (name, version) := InterfaceFiles(deps, lock)[k];
      name in lock && version == lock[name] && version != ""
  {
    var names := LockedDependencies(deps, lock);
    forall k | 0 <= k < |names| ensures HasLockEntry(lock, names[k]) {
      assert names[k] in names;
    }
  }

  /** With the distinct keys of a JSON object, a dependency without a lock entry produces
      exactly one warning and no interface entry; one with an entry produces no warning. */
  lemma OneWarningPerMissingDependency(deps: seq<string>, lock: map<string, string>, x: string)
    requires NoDuplicates(deps)
    requires x in deps
    ensures !HasLockEntry(lock, x) ==>
      multiset(MissingDependencies(deps, lock))[x] == 1 && x !in Names(InterfaceFiles(deps, lock))
    ensures HasLockEntry(lock, x) ==>
      x !in MissingDependencies(deps, lock) && x in Names(InterfaceFiles(deps, lock))
  {
    DistinctCountsOnce(deps, x);
    DependencyPartition(deps, lock);
    InterfaceFilesSpec(deps, lock);
  }

  lemma {:induction false} DistinctCountsOnce(s: seq<string>, x: string)
    requires NoDuplicates(s)
    requires x in s
    ensures multiset(s)[x] == 1
    decreases |s|
  {
    assert s == [s[0]] + s[1..];
    if s[0] == x {
      forall k | 0 <= k < |s[1..]| ensures s[1..][k] != x {
        assert s[k + 1] != s[0];
      }
      assert x !in multiset(s[1..]);
    } else {
      forall i, j | 0 <= i < j < |s[1..]| ensures s[1..][i] != s[1..][j] {
        assert s[i + 1] != s[j + 1];
      }
      DistinctCountsOnce(s[1..], x);
    }
  }

  // ---------------------------------------------------------------------------
  // gather

  /** gather fails exactly when the manifest or the lock-file is not there, or the manifest
      lacks "dependencies" or "source-directories"; a dependency without a resolved version
      never makes it fail. On success it holds the partition of the declared dependencies
      and the project's own source files. */
  lemma GatherSpec(disk: Disk, directory: string)
    ensures var packagePath := directory + "/elm-package.json";
      (Gather(disk, directory).Ok?
       <==> (packagePath in disk.packageFiles
             && directory + "/elm-stuff/exact-dependencies.json" in disk.lockFiles
             && disk.packageFiles[packagePath].dependencies.Some?
             && disk.packageFiles[packagePath].sourceDirectories.Some?))
    ensures Gather(disk, directory).Ok? ==>
      var pack := disk.packageFiles[directory + "/elm-package.json"];
      var lock := disk.lockFiles[directory + "/elm-stuff/exact-dependencies.json"];
      var deps := pack.dependencies.value;
      var input := Gather(disk, directory).value;
      && input.interfaceFiles == InterfaceFiles(deps, lock)
      && Names(input.interfaceFiles) == LockedDependencies(deps, lock)
      && (forall k :: 0 <= k < |input.interfaceFiles| ==>
            var (name, version) := input.interfaceFiles[k];
            name in lock && version == lock[name] && version != "")
      && input.warnings == MissingDependencies(deps, lock)
      && multiset(Names(input.interfaceFiles)) + multiset(input.warnings) == multiset(deps)
      && input.sourceFiles == TargetFiles(disk, directory, directory, pack).value
  {
    var packagePath := directory + "/elm-package.json";
    var lockPath := directory + "/elm-stuff/exact-dependencies.json";
    if packagePath in disk.packageFiles && lockPath in disk.lockFiles {
      var pack := disk.packageFiles[packagePath];
      TargetFilesSpec(disk, directory, directory, pack);
      if pack.dependencies.Some? {
        InterfaceFilesSpec(pack.dependencies.value, disk.lockFiles[lockPath]);
        DependencyPartition(pack.dependencies.value, disk.lockFiles[lockPath]);
      }
    }
  }
}
