/**
 * The `ProjectAnalyzer` class (project_analyzer.py:18-142): its four fields,
 * updated in place by the collection, scan and classification steps, and the
 * dependency graph it reports.
 *
 * What the Python code takes from the machine is passed in:
 *  - `walk`: what `os.walk(project_root)` reports, directory by directory;
 *  - `fs`: the files that `open(..., encoding='utf-8').read()` succeeds on, with
 *    their text; a path that is absent could not be opened or decoded;
 *  - `parse`: `ast.parse` followed by `ast.walk`, from text to import nodes;
 *  - `existing`: the paths `os.path.exists` accepts;
 *  - `rel`: `os.path.relpath(_, project_root)`.
 */
module Analyzer {
  import opened Text
  import opened PosixPath
  import opened ImportResolution
  import opened ImportExtraction
  import opened DependencyScan

  class ProjectAnalyzer {
    const projectRoot: string
    /** `defaultdict(set)`: file -> the files its imports resolve to. */
    var fileDependencies: map<string, set<string>>
    var allFiles: set<string>
    var usedFiles: set<string>
    var unusedFiles: set<string>

    /** A key is only created when a target is added to it. */
    ghost predicate Valid()
      reads this
    {
      NoEmptyEntries(fileDependencies)
    }

    constructor(root: string)
      ensures projectRoot == root
      ensures fileDependencies == map[] && allFiles == {} && usedFiles == {} && unusedFiles == {}
      ensures Valid()
    {
      projectRoot := root;
      fileDependencies := map[];
      allFiles := {};
      usedFiles := {};
      unusedFiles := {};
    }

    /** `analyze_project`: collect, scan, classify (the logging step is not modelled). */
    method AnalyzeProject(walk: seq<WalkDir>, fs: map<string, string>, parse: string -> ParseResult,
                          existing: set<string>)
      requires Valid()
      modifies this
      ensures Valid()
      ensures allFiles == old(allFiles) + Collected(walk)
      ensures fileDependencies == Scan(old(fileDependencies), projectRoot, allFiles, fs, parse, existing)
      ensures usedFiles == old(usedFiles) + allFiles * fs.Keys + AllTargets(fileDependencies)
      ensures unusedFiles == allFiles - usedFiles
    {
      CollectAllFiles(walk);
      AnalyzeImports(fs, parse, existing);
      FindUnusedFiles();
    }

    /** `_collect_all_files`: every tracked file of the walk is added to the universe. */
    method CollectAllFiles(walk: seq<WalkDir>)
      modifies this
      ensures allFiles == old(allFiles) + Collected(walk)
      ensures fileDependencies == old(fileDependencies)
      ensures usedFiles == old(usedFiles) && unusedFiles == old(unusedFiles)
    {
      for i := 0 to |walk|
        invariant allFiles == old(allFiles) + Collected(walk[..i])
        invariant fileDependencies == old(fileDependencies)
        invariant usedFiles == old(usedFiles) && unusedFiles == old(unusedFiles)
      {
        var dir := walk[i];
        for j := 0 to |dir.files|
          invariant allFiles == old(allFiles) + Collected(walk[..i]) + DirFiles(dir.root, dir.files[..j])
          invariant fileDependencies == old(fileDependencies)
          invariant usedFiles == old(usedFiles) && unusedFiles == old(unusedFiles)
        {
          var file := dir.files[j];
          if Tracked(file) {
            allFiles := allFiles + {Join(dir.root, file)};
          }
          assert dir.files[..j + 1][..j] == dir.files[..j];
        }
        assert dir.files[..|dir.files|] == dir.files;
        assert walk[..i + 1][..i] == walk[..i];
      }
      assert walk[..|walk|] == walk;
    }

    /**
     * `_analyze_imports`: every file of the universe that can be read is
     * scanned for imports by its extension and counted as used.
     */
    method AnalyzeImports(fs: map<string, string>, parse: string -> ParseResult, existing: set<string>)
      requires Valid()
      modifies this
      ensures Valid()
      ensures fileDependencies == Scan(old(fileDependencies), projectRoot, allFiles, fs, parse, existing)
      ensures usedFiles == old(usedFiles) + allFiles * fs.Keys
      ensures allFiles == old(allFiles) && unusedFiles == old(unusedFiles)
    {
      var todo := allFiles;
      ScanNone(fileDependencies, projectRoot, fs, parse, existing);
      while todo != {}
        invariant todo <= allFiles
        invariant Valid()
        invariant fileDependencies == Scan(old(fileDependencies), projectRoot, allFiles - todo, fs, parse, existing)
        invariant usedFiles == old(usedFiles) + (allFiles - todo) * fs.Keys
        invariant allFiles == old(allFiles) && unusedFiles == old(unusedFiles)
        decreases todo
      {
        var filePath :| filePath in todo;
        ghost var done := allFiles - todo;
        AnalyzeFile(filePath, fs, parse, existing);
        ScanNext(old(fileDependencies), projectRoot, done, filePath, fs, parse, existing);
        todo := todo - {filePath};
        assert allFiles - todo == done + {filePath};
      }
      assert allFiles - todo == allFiles;
    }

    /**
     * One pass of the `_analyze_imports` loop: a file that can be read is
     * scanned by its extension and counted as used; one that cannot changes nothing.
     */
    method AnalyzeFile(filePath: string, fs: map<string, string>, parse: string -> ParseResult, existing: set<string>)
      requires Valid()
      modifies this
      ensures Valid()
      ensures fileDependencies == AddTargets(old(fileDependencies), filePath,
                Contribution(projectRoot, filePath, fs, parse, existing))
      ensures usedFiles == old(usedFiles) + {filePath} * fs.Keys
      ensures allFiles == old(allFiles) && unusedFiles == old(unusedFiles)
    {
      if filePath in fs {
        var content := fs[filePath];
        if EndsWith(filePath, PyExt) {
          AnalyzePythonImports(filePath, content, parse, existing);
          ContributionPython(projectRoot, filePath, fs, parse, existing);
        } else if EndsWith(filePath, DartExt) {
          AnalyzeDartImports(filePath, content, existing);
          ContributionDart(projectRoot, filePath, fs, parse, existing);
        } else {
          ContributionNone(fileDependencies, projectRoot, filePath, fs, parse, existing);
        }
        usedFiles := usedFiles + {filePath};
      } else {
        ContributionNone(fileDependencies, projectRoot, filePath, fs, parse, existing);
      }
    }

    /** `_analyze_python_imports`: resolve every import node of the parse, in walk order. */
    method AnalyzePythonImports(filePath: string, content: string, parse: string -> ParseResult, existing: set<string>)
      requires Valid()
      modifies this
      ensures Valid()
      ensures fileDependencies == AddTargets(old(fileDependencies), filePath,
                ResolveAll(projectRoot, filePath, ParsedImports(parse(content)), existing))
      ensures allFiles == old(allFiles) && usedFiles == old(usedFiles) && unusedFiles == old(unusedFiles)
    {
      match parse(content) {
        case SyntaxError =>
        case Parsed(nodes) =>
          for k := 0 to |nodes|
            invariant Valid()
            invariant fileDependencies == AddTargets(old(fileDependencies), filePath,
                        ResolveAll(projectRoot, filePath, PythonImports(nodes[..k]), existing))
            invariant allFiles == old(allFiles) && usedFiles == old(usedFiles) && unusedFiles == old(unusedFiles)
          {
            ghost var before := fileDependencies;
            match nodes[k] {
              case Import(names) =>
                for j := 0 to |names|
                  invariant Valid()
                  invariant fileDependencies == AddTargets(before, filePath,
                              ResolveAll(projectRoot, filePath, names[..j], existing))
                  invariant allFiles == old(allFiles) && usedFiles == old(usedFiles) && unusedFiles == old(unusedFiles)
                {
                  ResolveImport(filePath, names[j], existing);
                  ResolveNextOf(before, projectRoot, filePath, names, j, existing);
                }
                assert names[..|names|] == names;
              case ImportFrom(fromModule) =>
                if fromModule.Some? && fromModule.value != [] {
                  ResolveImport(filePath, fromModule.value, existing);
                  ResolveOne(before, projectRoot, filePath, fromModule.value, existing);
                } else {
                  ResolveNone(before, projectRoot, filePath, existing);
                }
              case OtherNode =>
                ResolveNone(before, projectRoot, filePath, existing);
            }
            assert fileDependencies == AddTargets(before, filePath,
                     ResolveAll(projectRoot, filePath, NodeImports(nodes[k]), existing));
            PythonNodeStep(old(fileDependencies), projectRoot, filePath, nodes, k, existing);
          }
          assert nodes[..|nodes|] == nodes;
      }
    }

    /** `_analyze_dart_imports`: resolve every match of the import pattern, left to right. */
    method AnalyzeDartImports(filePath: string, content: string, existing: set<string>)
      requires Valid()
      modifies this
      ensures Valid()
      ensures fileDependencies == AddTargets(old(fileDependencies), filePath,
                ResolveAll(projectRoot, filePath, DartImports(content), existing))
      ensures allFiles == old(allFiles) && usedFiles == old(usedFiles) && unusedFiles == old(unusedFiles)
    {
      var imports := DartImports(content);
      for j := 0 to |imports|
        invariant Valid()
        invariant fileDependencies == AddTargets(old(fileDependencies), filePath,
                    ResolveAll(projectRoot, filePath, imports[..j], existing))
        invariant allFiles == old(allFiles) && usedFiles == old(usedFiles) && unusedFiles == old(unusedFiles)
      {
        ResolveImport(filePath, imports[j], existing);
        ResolveNextOf(old(fileDependencies), projectRoot, filePath, imports, j, existing);
      }
      assert imports[..|imports|] == imports;
    }

    /**
     * `_resolve_import`: the edge `sourceFile -> candidate` is added exactly
     * when the candidate exists; nothing else changes.
     */
    method ResolveImport(sourceFile: string, importPath: string, existing: set<string>)
      requires Valid()
      modifies this
      ensures Valid()
      ensures fileDependencies == AddTargets(old(fileDependencies), sourceFile,
                Resolved(projectRoot, sourceFile, importPath, existing))
      ensures allFiles == old(allFiles) && usedFiles == old(usedFiles) && unusedFiles == old(unusedFiles)
    {
      var targetPath := Candidate(projectRoot, sourceFile, importPath);
      if targetPath in existing {
        fileDependencies := fileDependencies[sourceFile := Targets(fileDependencies, sourceFile) + {targetPath}];
      }
    }

    /**
     * `_find_unused_files`: every edge target is added to the used files (in
     * place, through the alias), then the unused files are the rest of the universe.
     */
    method FindUnusedFiles()
      modifies this
      ensures usedFiles == old(usedFiles) + AllTargets(fileDependencies)
      ensures unusedFiles == allFiles - usedFiles
      ensures unusedFiles == Unused(allFiles, old(usedFiles), fileDependencies)
      ensures fileDependencies == old(fileDependencies) && allFiles == old(allFiles)
    {
      var keys := fileDependencies.Keys;
      while keys != {}
        invariant keys <= fileDependencies.Keys
        invariant usedFiles == old(usedFiles) + TargetsOf(fileDependencies, fileDependencies.Keys - keys)
        invariant fileDependencies == old(fileDependencies) && allFiles == old(allFiles)
        decreases keys
      {
        var k :| k in keys;
        ghost var done := fileDependencies.Keys - keys;
        usedFiles := usedFiles + fileDependencies[k];
        keys := keys - {k};
        assert TargetsOf(fileDependencies, done + {k}) == TargetsOf(fileDependencies, done) + fileDependencies[k];
        assert fileDependencies.Keys - keys == done + {k};
      }
      assert TargetsOf(fileDependencies, fileDependencies.Keys) == AllTargets(fileDependencies);
      unusedFiles := allFiles - usedFiles;
    }

    /**
     * `get_dependency_graph`: the dependency map with every path made relative
     * to the project root. Requires `rel` to be one-to-one on the map's keys.
     */
    function DependencyGraph(rel: string -> string): (g: map<string, set<string>>)
      reads this
      requires forall a, b :: a in fileDependencies && b in fileDependencies && rel(a) == rel(b) ==> a == b
      ensures forall k :: k in fileDependencies ==> rel(k) in g && g[rel(k)] == set v | v in fileDependencies[k] :: rel(v)
      ensures forall r :: r in g ==> exists k :: k in fileDependencies && r == rel(k)
    {
      map k | k in fileDependencies :: rel(k) := set v | v in fileDependencies[k] :: rel(v)
    }
  }

  /** Every node of the reported graph has at least one dependency. */
  lemma GraphNoEmpty(a: ProjectAnalyzer, rel: string -> string)
    requires a.Valid()
    requires forall x, y :: x in a.fileDependencies && y in a.fileDependencies && rel(x) == rel(y) ==> x == y
    ensures forall r :: r in a.DependencyGraph(rel) ==> a.DependencyGraph(rel)[r] != {}
  {
    var g := a.DependencyGraph(rel);
    forall r | r in g
      ensures g[r] != {}
    {
      var k :| k in a.fileDependencies && r == rel(k);
      var v :| v in a.fileDependencies[k];
      assert rel(v) in g[r];
    }
  }
}
