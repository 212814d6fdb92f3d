# Dead-file analyzer: a verified model of `ProjectAnalyzer`

`project_analyzer.py` walks a project tree and collects every `.py`, `.dart`,
`.kt`, `.java` and `.xml` file. It reads each collected file and pulls import
strings out of it: Python imports come from the syntax tree, Dart imports from
a regular expression. Each import string is resolved to a candidate path by one
of three rules:

- an import ending in `.py` is taken relative to the importing file;
- a `package:` import goes under `<root>/lib`;
- anything else is a dotted name, turned into `a/b/c.dart`.

When the candidate exists, an edge from the importing file is recorded. A file
is classified unused when it was never read successfully and no edge points at
it. The analyzer also reports the edges as a graph with paths relative to the
root.

The Dafny model follows the same structure:

| file | module | contents |
|---|---|---|
| `text.dfy` | `Text` | `startswith`, `endswith`, `replace` of one character, `replace(pattern, '')` |
| `posix_path.dfy` | `PosixPath` | `posixpath.join`, `dirname` and `normpath` as string functions, with `/` as the separator; a normal path is `Render(lead, comps)` |
| `import_resolution.dfy` | `ImportResolution` | the three rules of `_resolve_import` as `Candidate`, with one lemma per rule, one per quirk of the rules, and normal form of every candidate |
| `import_extraction.dfy` | `ImportExtraction` | the Python node filter and the Dart pattern `import\s+['"](.+?)['"]`, with each match and the whole `finditer` scan proved sound and complete against an independent statement of a match |
| `dependency_scan.dfy` | `DependencyScan` | the values the analyzer state is specified by: the collected universe, `defaultdict(set)` updates, the map after a scan, and the unused classification |
| `project_analyzer.dfy` | `Analyzer` | the class itself: its four fields, updated in place by methods whose loops are proved against the functions above |

What the Python code takes from the machine is passed in as parameters:

- `walk` is what `os.walk` reports;
- `fs` maps each file that can be opened and decoded to its text;
- `parse` stands for `ast.parse` followed by `ast.walk`;
- `existing` is the set of paths `os.path.exists` accepts;
- `rel` stands for `os.path.relpath(_, root)`.

Three consequences of the code as written are worth stating plainly:

- A Python `import b` has no `.py` suffix and no `package:` prefix, so it
  takes the dotted-name rule and resolves to `b.dart` (`PlainImportIsDart`).
- Every file that is read successfully counts as used (project_analyzer.py:55).
  So in a project of `a.py` (containing `import b`), `b.py` and `c.py`, no edge
  is recorded and nothing is unused (`DeadFile`).
- Collected paths are joined but never normalised (line 38), while edge targets
  always are (lines 86-101). Under a root such as `./proj`, an unreadable file
  never matches the edge that imports it, and is classified unused even when
  imported (`NonNormalUnused`).

## Model

| member | source | states |
|---|---|---|
| Text.ReplaceChar | project_analyzer.py:100 | `str.replace` of one character keeps the length and replaces exactly the occurrences of that character |
| Text.RemoveAll | project_analyzer.py:95 | `replace(pattern, '')` never lengthens the string |
| Text.ReplaceCharSame | project_analyzer.py:95 | `replace('/', os.sep)` with `os.sep == '/'` changes nothing |
| Text.RemoveAbsent | project_analyzer.py:95 | removing a pattern that does not occur leaves the string unchanged |
| Text.RemoveLeading | project_analyzer.py:95 | a leading `package:` is removed, and removal carries on over the rest |
| Text.RemoveBeforeBarrier | project_analyzer.py:95 | removal goes left to right: an occurrence-free part before a character outside the pattern is kept, and removal resumes after that character |
| PosixPath.JoinSplit | project_analyzer.py:86-89 | joining the pieces of a split gives back the path (the basis of `normpath`) |
| PosixPath.SplitJoin | project_analyzer.py:86-89 | splitting a join of separator-free components gives back the components |
| PosixPath.RenderNormal | project_analyzer.py:86 | a path in normal form is a fixed point of `normpath` |
| PosixPath.NormpathIdempotent | project_analyzer.py:86 | `normpath(normpath(p)) == normpath(p)` for every string |
| PosixPath.JoinOntoDot | project_analyzer.py:98-101 | joining plain components onto `.` and normalising drops the `.` |
| PosixPath.JoinRender | project_analyzer.py:92-96 | joining plain components onto a normal directory and normalising appends them to the directory's components |
| PosixPath.DirnameOfChild | project_analyzer.py:87 | `dirname` of a file joined onto a normal directory is that directory |
| ImportResolution.CandidateNormal | project_analyzer.py:81-101 | every candidate, under every rule, is already in normal form |
| ImportResolution.DartModulePath | project_analyzer.py:100 | a dotted name is looked up at one path component per name |
| ImportResolution.DotsToSeps | project_analyzer.py:100 | replacing the dots of `a.b.c` by separators joins `a`, `b`, `c` with `/` |
| ImportResolution.CandidateSibling | project_analyzer.py:85-89 | rule 1: `name.py` imported from a file in directory `d` resolves to `d/name.py` |
| ImportResolution.PackageRest | project_analyzer.py:91-95 | `package:` plus a relative path selects rule 2, and what remains after the replacements is that path |
| ImportResolution.CandidatePackage | project_analyzer.py:91-96 | rule 2: a `package:` import whose remainder is the relative path `ps` resolves to `<root>/lib/ps`, whatever the importing file |
| ImportResolution.CandidatePackagePath | project_analyzer.py:91-96 | `package:a/b/c` resolves to `<root>/lib/a/b/c` |
| ImportResolution.DottedJoined | project_analyzer.py:97-101 | rule 3 joins the dotted name's path onto the importing file's directory |
| ImportResolution.CandidateDotted | project_analyzer.py:97-101 | rule 3: `a.b.c` imported from a file in directory `d` resolves to `d/a/b/c.dart` |
| ImportResolution.NoDotNoPy | project_analyzer.py:85 | a name without a dot never takes rule 1 |
| ImportResolution.NoColonNoPackage | project_analyzer.py:91 | a name without `:` never takes rule 2 |
| ImportResolution.PlainImportIsDart | project_analyzer.py:64-66 | a Python `import b` resolves to `b.dart` beside the importer, never to `b.py` |
| ImportResolution.RelativeDartImport | project_analyzer.py:97-101 | a relative Dart import `x.dart` resolves to `x/dart.dart`, not to the sibling `x.dart` |
| ImportResolution.RemoveMarkerTwice | project_analyzer.py:95 | both `package:` markers of `package:a/package:b` are removed |
| ImportResolution.RuleOfMarkerTwice | project_analyzer.py:85-91 | `package:a/package:b` takes rule 2 unless it ends in `.py` |
| ImportResolution.PackageTwiceRest | project_analyzer.py:91-95 | the remainder of `package:ps/package:qs` is `ps/qs` |
| ImportResolution.PackageMarkerDroppedEverywhere | project_analyzer.py:91-96 | `package:ps/package:qs` resolves to `<root>/lib/ps/qs`: every marker is dropped, not only the leading one |
| ImportExtraction.PythonImportsAppend | project_analyzer.py:63-70 | the imports of two node lists in a row are the imports of each, in order |
| ImportExtraction.PythonImportsMember | project_analyzer.py:63-70 | a string is resolved exactly when it is an alias name of an `import` node or the non-empty module of a `from` import |
| ImportExtraction.SpaceRun | project_analyzer.py:76 | greedy `\s+` stays inside the text |
| ImportExtraction.CloseQuote | project_analyzer.py:76 | the lazy group stops at a quote inside the text |
| ImportExtraction.SpaceRunSpaces | project_analyzer.py:76 | the run consists of whitespace and is followed by a non-space |
| ImportExtraction.SpaceRunExact | project_analyzer.py:76 | a whitespace run followed by a non-space has exactly the computed length |
| ImportExtraction.CloseQuoteFound | project_analyzer.py:76 | the quote found is the first one, with no newline before it |
| ImportExtraction.CloseQuoteExact | project_analyzer.py:76 | the first quote before any newline is the one found |
| ImportExtraction.MatchAtSound | project_analyzer.py:76-77 | every match the scan takes is a match of the pattern, with the group between the quotes |
| ImportExtraction.MatchAtComplete | project_analyzer.py:76-77 | every match of the pattern at a position is the one the scan takes there |
| ImportExtraction.MatchAt | project_analyzer.py:76-77 | a match ends strictly after it starts and inside the text, so `finditer` always moves forward |
| ImportExtraction.ScanFromWellFormed | project_analyzer.py:76-78 | every group yielded is non-empty and has no newline |
| ImportExtraction.DartImportsWellFormed | project_analyzer.py:76-78 | every Dart import string is non-empty and on one line |
| ImportExtraction.ScanFromMatches | project_analyzer.py:76-78 | every Dart import string is the group of a match of the pattern in the text |
| ImportExtraction.ScanFromFirst | project_analyzer.py:77-79 | the scan misses no match: its first string is the group of the leftmost match, and it resumes where that match ends |
| ImportExtraction.ScanFromNone | project_analyzer.py:77-79 | where the pattern matches nowhere, the scan yields nothing |
| ImportExtraction.ExampleMatch | project_analyzer.py:76-78 | `import 'package:app/utils.dart';` matches at its start, ending after the closing quote |
| ImportExtraction.DartImportsExample | project_analyzer.py:76-79 | the import string of that line is `package:app/utils.dart`, without its quotes or the `;` |
| DependencyScan.DirFilesMember | project_analyzer.py:36-39 | a path is collected from a directory iff some file of it is tracked and the path is the directory joined with its name |
| DependencyScan.CollectedMember | project_analyzer.py:35-39 | the same for a whole walk |
| DependencyScan.JoinEndsWith | project_analyzer.py:37-38 | joining a name onto a directory keeps the name's extension |
| DependencyScan.CollectedTracked | project_analyzer.py:35-39 | every collected path ends in one of the five tracked extensions |
| DependencyScan.ResolveAllMember | project_analyzer.py:103-104 | a path is a target of an import list iff it exists and is the candidate of one of the imports |
| DependencyScan.AddTargetsEffect | project_analyzer.py:104 | `defaultdict(set)` add: the key's targets grow by exactly the added ones, other keys are unchanged, a key is created only by a target, and no empty entry appears |
| DependencyScan.AddTargetsMerge | project_analyzer.py:104 | two additions to one key are one addition of both sets |
| DependencyScan.AddTargetsIdempotent | project_analyzer.py:104 | adding the same targets again changes nothing |
| DependencyScan.ResolveNextOf | project_analyzer.py:77-79 | resolving the next import of a list extends the map to the targets of one more import |
| DependencyScan.ResolveAllAppend | project_analyzer.py:63-70 | the targets of two import lists in a row are the union of each list's targets |
| DependencyScan.PythonNodeStep | project_analyzer.py:63-70 | handling one more node extends the map to the targets of one more node's imports |
| DependencyScan.ResolveOne | project_analyzer.py:67-70 | a `from` import adds the targets of a one-element list |
| DependencyScan.ResolveNone | project_analyzer.py:67-69 | a node without imports leaves the map unchanged |
| DependencyScan.ContributionPython | project_analyzer.py:49-50 | a readable `.py` file contributes the targets of its parsed imports |
| DependencyScan.ContributionDart | project_analyzer.py:51-52 | a readable `.dart` file that is not `.py` contributes the targets of its matched imports |
| DependencyScan.ContributionNone | project_analyzer.py:53-57 | an unreadable file, or a readable file of another language, leaves the map unchanged |
| DependencyScan.SyntaxErrorNoEdges | project_analyzer.py:61-72 | a Python file that fails to parse adds no edge |
| DependencyScan.ScanNone | project_analyzer.py:44 | before any file is scanned the map is unchanged |
| DependencyScan.ScanNext | project_analyzer.py:44-57 | scanning one more file adds that file's contribution under its own key, in any order |
| DependencyScan.ScanTargets | project_analyzer.py:44-57 | after a scan, a file's targets are its earlier targets plus its contribution if it was scanned |
| DependencyScan.ScanNoEmpty | project_analyzer.py:44-57 | a scan creates no empty entry |
| DependencyScan.UnusedPartition | project_analyzer.py:108-117 | the unused files are in the universe, disjoint from the used files and edge targets, and together with those cover the universe |
| DependencyScan.UnusedIdempotent | project_analyzer.py:114-117 | classifying again with the targets already counted gives the same unused files |
| DependencyScan.AllTargetsOfScan | project_analyzer.py:44-57 | after a scan from an empty map, the edge targets are exactly the existing candidates of imports of scanned readable files |
| DependencyScan.DeadFile | project_analyzer.py:42-117 | from a fresh analyzer, a file is unused iff it is in the universe, cannot be read, and no readable file of the universe resolves an import to it |
| DependencyScan.ContributionNormal | project_analyzer.py:86-104 | every edge target is in normal form |
| DependencyScan.NonNormalUnused | project_analyzer.py:38 | an unreadable collected file whose path is not in normal form is unused, even when some file imports it |
| Analyzer.ProjectAnalyzer.constructor | project_analyzer.py:19-24 | the root is stored, the map and the three sets start empty |
| Analyzer.ProjectAnalyzer.AnalyzeProject | project_analyzer.py:26-30 | the universe grows by the collected files; the map is the scan of the universe; used gains the readable files and all edge targets; unused is the rest of the universe |
| Analyzer.ProjectAnalyzer.CollectAllFiles | project_analyzer.py:33-39 | the universe grows by exactly the tracked files of the walk; nothing else changes |
| Analyzer.ProjectAnalyzer.AnalyzeImports | project_analyzer.py:42-57 | the map becomes the scan of the universe, whatever order the set is iterated in; used gains exactly the readable files |
| Analyzer.ProjectAnalyzer.AnalyzeFile | project_analyzer.py:45-57 | one file adds its contribution and is counted as used iff it can be read |
| Analyzer.ProjectAnalyzer.AnalyzePythonImports | project_analyzer.py:59-72 | the file gains the targets of its parsed imports, in walk order; a syntax error adds nothing |
| Analyzer.ProjectAnalyzer.AnalyzeDartImports | project_analyzer.py:74-79 | the file gains the targets of its matched imports, left to right |
| Analyzer.ProjectAnalyzer.ResolveImport | project_analyzer.py:81-106 | an edge to the candidate is added iff the candidate exists; nothing else changes |
| Analyzer.ProjectAnalyzer.FindUnusedFiles | project_analyzer.py:108-117 | used gains every edge target (in place), and unused is the universe minus used |
| Analyzer.ProjectAnalyzer.DependencyGraph | project_analyzer.py:135-142 | each key's relative path maps to the relative paths of its targets, and the graph has no other node |
| Analyzer.GraphNoEmpty | project_analyzer.py:135-142 | every node of the reported graph has at least one dependency |

## Left out

- Logging: `_log_results`, the log configuration and every log call are not modelled.
- The `__main__` block: reading the root from the console, the directory check and the JSON dump are not modelled.
- `os.walk`, `open(...).read()`, `os.path.exists`, `ast.parse`/`ast.walk` and `os.path.relpath` are parameters. Their own behaviour is not modelled: symbolic links, encodings, permissions, the Python grammar, and the breadth-first order of `ast.walk`.
- Exceptions are the absent entries of `fs` (for open and read errors) and `SyntaxError` (for `ast.parse`). Exceptions the code catches elsewhere are treated as impossible; none can be raised by `normpath`, `join` or `exists` on a `str`.
- `os.sep` is fixed to `/` (POSIX). Windows path handling is not modelled.
- The order of the set and dict iterations is not modelled: the loops take files and keys in any order, and the results are proved not to depend on it.
- The lemmas about resolved paths assume the importing file's directory and the root are in normal form, as `Render(lead, comps)`. For other inputs, `Candidate` is still computed, and it is proved to be in normal form.
- Analyzer.ProjectAnalyzer.DependencyGraph: requires `rel` to be one-to-one on the map's keys. With two keys that give the same relative path, Python keeps the later key in insertion order, and the model does not track that order.
- Analyzer.ProjectAnalyzer.DependencyGraph: the values are sets rather than lists, so list order and duplicates from colliding relative paths are not modelled.
