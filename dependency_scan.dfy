/**
 * The values the analyzer's state is specified by: the file universe a
 * directory walk yields, the targets an import list resolves to, the
 * dependency map after a scan, and the classification of files as used or
 * unused. The `ProjectAnalyzer` class (module Analyzer) is proved to compute
 * exactly these; the lemmas here are what they mean.
 *
 * The dependency map is Python's `defaultdict(set)`: a key that is absent
 * reads as the empty set (`Targets`), and a key is only ever created by
 * adding a target to it, so no key maps to an empty set.
 */
module DependencyScan {
  import opened Text
  import opened PosixPath
  import opened ImportResolution
  import opened ImportExtraction

  // ----- the file universe -----

  const KotlinExt := ".kt"
  const JavaExt := ".java"
  const XmlExt := ".xml"

  /** The extension filter of the walk: a file is tracked iff its name ends in one of five suffixes. */
  predicate Tracked(name: string) {
    EndsWith(name, PyExt) || EndsWith(name, DartExt) || EndsWith(name, KotlinExt)
    || EndsWith(name, JavaExt) || EndsWith(name, XmlExt)
  }

  /** One directory reported by the walk: its path and the names of the files in it. */
  datatype WalkDir = WalkDir(root: string, files: seq<string>)

  /** The tracked files of one directory, joined onto its path. */
  function DirFiles(root: string, files: seq<string>): set<string>
    decreases |files|
  {
    if files == [] then {}
    else
      var f := files[|files| - 1];
      DirFiles(root, files[..|files| - 1]) + (if Tracked(f) then {Join(root, f)} else {})
  }

  /** The tracked files of a whole walk. */
  function Collected(walk: seq<WalkDir>): set<string>
    decreases |walk|
  {
    if walk == [] then {}
    else Collected(walk[..|walk| - 1]) + DirFiles(walk[|walk| - 1].root, walk[|walk| - 1].files)
  }

  /** File name `f` of directory `root` is tracked and collected as path `p`. */
  predicate CollectedAs(root: string, f: string, p: string) {
    Tracked(f) && p == Join(root, f)
  }

  lemma {:induction false} DirFilesMember(root: string, files: seq<string>, p: string)
    ensures p in DirFiles(root, files) <==> exists j :: 0 <= j < |files| && CollectedAs(root, files[j], p)
    decreases |files|
  {
    if files != [] {
      var n := |files|;
      var init := files[..n - 1];
      DirFilesMember(root, init, p);
      assert p in DirFiles(root, files) <==> p in DirFiles(root, init) || CollectedAs(root, files[n - 1], p);
      if p in DirFiles(root, init) {
        var j :| 0 <= j < n - 1 && CollectedAs(root, init[j], p);
        assert init[j] == files[j];
      }
      if j :| 0 <= j < n - 1 && CollectedAs(root, files[j], p) {
        assert init[j] == files[j];
      }
    }
  }

  /**
   * A path is collected iff some directory of the walk holds a tracked file
   * of that name and the path is the directory joined with the name.
   */
  lemma {:induction false} CollectedMember(walk: seq<WalkDir>, p: string)
    ensures p in Collected(walk) <==>
      exists i, j :: 0 <= i < |walk| && 0 <= j < |walk[i].files| && CollectedAs(walk[i].root, walk[i].files[j], p)
    decreases |walk|
  {
    if walk != [] {
      var n := |walk|;
      var init := walk[..n - 1];
      CollectedMember(init, p);
      DirFilesMember(walk[n - 1].root, walk[n - 1].files, p);
      if p in Collected(init) {
        var i, j :| 0 <= i < |init| && 0 <= j < |init[i].files| && CollectedAs(init[i].root, init[i].files[j], p);
        assert init[i] == walk[i];
      }
      if i, j :| 0 <= i < n - 1 && 0 <= j < |walk[i].files| && CollectedAs(walk[i].root, walk[i].files[j], p) {
        assert init[i] == walk[i];
      }
    }
  }

  /** Joining a name onto a directory keeps the name as the path's suffix. */
  lemma JoinEndsWith(root: string, f: string, ext: string)
    requires EndsWith(f, ext)
    ensures EndsWith(Join(root, f), ext)
  {
    var p := Join(root, f);
    assert p[|p| - |f|..] == f;
    assert p[|p| - |ext|..] == f[|f| - |ext|..];
  }

  /** Nothing but tracked files is collected: every collected path ends in a tracked extension. */
  lemma CollectedTracked(walk: seq<WalkDir>, p: string)
    requires p in Collected(walk)
    ensures Tracked(p)
  {
    CollectedMember(walk, p);
    var i, j :| 0 <= i < |walk| && 0 <= j < |walk[i].files| && CollectedAs(walk[i].root, walk[i].files[j], p);
    var f := walk[i].files[j];
    if EndsWith(f, PyExt) { JoinEndsWith(walk[i].root, f, PyExt); }
    else if EndsWith(f, DartExt) { JoinEndsWith(walk[i].root, f, DartExt); }
    else if EndsWith(f, KotlinExt) { JoinEndsWith(walk[i].root, f, KotlinExt); }
    else if EndsWith(f, JavaExt) { JoinEndsWith(walk[i].root, f, JavaExt); }
    else { JoinEndsWith(walk[i].root, f, XmlExt); }
  }

  // ----- resolution into edges -----

  /** The edge targets one import adds: its candidate, if that path exists. */
  function Resolved(root: string, source: string, imp: string, existing: set<string>): set<string> {
    var c := Candidate(root, source, imp);
    if c in existing then {c} else {}
  }

  /** The edge targets a list of imports adds, one import after another. */
  function ResolveAll(root: string, source: string, imps: seq<string>, existing: set<string>): set<string>
    decreases |imps|
  {
    if imps == [] then {}
    else ResolveAll(root, source, imps[..|imps| - 1], existing) + Resolved(root, source, imps[|imps| - 1], existing)
  }

  /**
   * A path is a target of an import list iff it exists and is the candidate
   * of one of the imports: edges only ever point at existing files.
   */
  lemma {:induction false} ResolveAllMember(root: string, source: string, imps: seq<string>, existing: set<string>, x: string)
    ensures x in ResolveAll(root, source, imps, existing) <==>
      x in existing && exists i :: 0 <= i < |imps| && x == Candidate(root, source, imps[i])
    decreases |imps|
  {
    if imps != [] {
      var n := |imps|;
      var init := imps[..n - 1];
      ResolveAllMember(root, source, init, existing, x);
      if x in ResolveAll(root, source, init, existing) {
        var i :| 0 <= i < |init| && x == Candidate(root, source, init[i]);
        assert init[i] == imps[i];
      }
      if x in existing && exists i :: 0 <= i < n && x == Candidate(root, source, imps[i]) {
        var i :| 0 <= i < n && x == Candidate(root, source, imps[i]);
        if i < n - 1 {
          assert init[i] == imps[i];
        }
      }
    }
  }

  // ----- the dependency map -----

  /** `defaultdict(set)` lookup: an absent key reads as the empty set. */
  function Targets(m: map<string, set<string>>, k: string): set<string> {
    if k in m then m[k] else {}
  }

  /**
   * Adding the targets `ts` to key `k`, one `.add` at a time: the key is
   * created by the first target added, and not at all when there is none.
   */
  function AddTargets(m: map<string, set<string>>, k: string, ts: set<string>): map<string, set<string>> {
    if ts == {} then m else m[k := Targets(m, k) + ts]
  }

  /** No key of the map is bound to an empty set. */
  predicate NoEmptyEntries(m: map<string, set<string>>) {
    forall k :: k in m ==> m[k] != {}
  }

  /**
   * Adding targets to `k` grows `k`'s targets by exactly those, leaves every
   * other key as it was, creates no key but `k` and no empty entry.
   */
  lemma AddTargetsEffect(m: map<string, set<string>>, k: string, ts: set<string>)
    ensures Targets(AddTargets(m, k, ts), k) == Targets(m, k) + ts
    ensures forall j :: j != k ==> Targets(AddTargets(m, k, ts), j) == Targets(m, j)
    ensures AddTargets(m, k, ts).Keys == m.Keys + (if ts == {} then {} else {k})
    ensures NoEmptyEntries(m) ==> NoEmptyEntries(AddTargets(m, k, ts))
  {
  }

  /** Two additions to the same key are one addition of both target sets. */
  lemma AddTargetsMerge(m: map<string, set<string>>, k: string, a: set<string>, b: set<string>)
    ensures AddTargets(AddTargets(m, k, a), k, b) == AddTargets(m, k, a + b)
  {
    if a != {} && b != {} {
      var t := Targets(m, k);
      var m1 := m[k := t + a];
      assert Targets(m1, k) == t + a;
      assert t + a + b == t + (a + b);
      assert m1[k := t + (a + b)] == m[k := t + (a + b)];
    } else if a == {} {
      assert a + b == b;
    } else {
      assert a + b == a;
    }
  }

  /** Adding the same targets again changes nothing: targets form a set. */
  lemma AddTargetsIdempotent(m: map<string, set<string>>, k: string, ts: set<string>)
    ensures AddTargets(AddTargets(m, k, ts), k, ts) == AddTargets(m, k, ts)
  {
    AddTargetsMerge(m, k, ts, ts);
    assert ts + ts == ts;
  }

  /** Resolving the `j`-th import of a list, after the first `j`, resolves the first `j + 1`. */
  lemma ResolveNextOf(m: map<string, set<string>>, root: string, source: string, imps: seq<string>, j: nat,
                      existing: set<string>)
    requires j < |imps|
    ensures AddTargets(AddTargets(m, source, ResolveAll(root, source, imps[..j], existing)), source,
                       Resolved(root, source, imps[j], existing))
         == AddTargets(m, source, ResolveAll(root, source, imps[..j + 1], existing))
  {
    var ys := imps[..j + 1];
    assert ys[..|ys| - 1] == imps[..j];
    assert ResolveAll(root, source, ys, existing)
        == ResolveAll(root, source, imps[..j], existing) + Resolved(root, source, imps[j], existing);
    AddTargetsMerge(m, source, ResolveAll(root, source, imps[..j], existing), Resolved(root, source, imps[j], existing));
  }

  /** The targets of two import lists in a row are the targets of each. */
  lemma {:induction false} ResolveAllAppend(root: string, source: string, xs: seq<string>, ys: seq<string>,
                                            existing: set<string>)
    ensures ResolveAll(root, source, xs + ys, existing)
         == ResolveAll(root, source, xs, existing) + ResolveAll(root, source, ys, existing)
    decreases |ys|
  {
    if ys == [] {
      assert xs + ys == xs;
    } else {
      var init := ys[..|ys| - 1];
      assert (xs + ys)[..|xs + ys| - 1] == xs + init;
      assert (xs + ys)[|xs + ys| - 1] == ys[|ys| - 1];
      ResolveAllAppend(root, source, xs, init, existing);
    }
  }

  /** Resolving the imports of node `k` after those of the nodes before it resolves the first `k + 1` nodes. */
  lemma PythonNodeStep(m: map<string, set<string>>, root: string, source: string, nodes: seq<PyNode>, k: nat,
                       existing: set<string>)
    requires k < |nodes|
    ensures AddTargets(AddTargets(m, source, ResolveAll(root, source, PythonImports(nodes[..k]), existing)), source,
                       ResolveAll(root, source, NodeImports(nodes[k]), existing))
         == AddTargets(m, source, ResolveAll(root, source, PythonImports(nodes[..k + 1]), existing))
  {
    assert nodes[..k + 1][..k] == nodes[..k];
    assert PythonImports(nodes[..k + 1]) == PythonImports(nodes[..k]) + NodeImports(nodes[k]);
    ResolveAllAppend(root, source, PythonImports(nodes[..k]), NodeImports(nodes[k]), existing);
    AddTargetsMerge(m, source, ResolveAll(root, source, PythonImports(nodes[..k]), existing),
                    ResolveAll(root, source, NodeImports(nodes[k]), existing));
  }

  /** A single import resolves as a list of one. */
  lemma ResolveOne(m: map<string, set<string>>, root: string, source: string, imp: string, existing: set<string>)
    ensures AddTargets(m, source, Resolved(root, source, imp, existing))
         == AddTargets(m, source, ResolveAll(root, source, [imp], existing))
  {
    assert [imp][..0] == [];
    assert ResolveAll(root, source, [imp], existing) == {} + Resolved(root, source, imp, existing);
    assert {} + Resolved(root, source, imp, existing) == Resolved(root, source, imp, existing);
  }

  /** No import adds nothing. */
  lemma ResolveNone(m: map<string, set<string>>, root: string, source: string, existing: set<string>)
    ensures AddTargets(m, source, ResolveAll(root, source, [], existing)) == m
  {
  }

  // ----- one file's contribution -----

  /** The import strings of a file: by extension, Python or Dart extraction, and none for other files. */
  function FileImports(path: string, content: string, parse: string -> ParseResult): seq<string> {
    if EndsWith(path, PyExt) then ParsedImports(parse(content))
    else if EndsWith(path, DartExt) then DartImports(content)
    else []
  }

  /** The edge targets a file adds when it is scanned; a file that cannot be read adds none. */
  function Contribution(root: string, path: string, fs: map<string, string>, parse: string -> ParseResult,
                        existing: set<string>): set<string>
  {
    if path in fs then ResolveAll(root, path, FileImports(path, fs[path], parse), existing) else {}
  }

  /** A readable Python file contributes the targets of its parsed imports. */
  lemma ContributionPython(root: string, path: string, fs: map<string, string>, parse: string -> ParseResult,
                           existing: set<string>)
    requires path in fs && EndsWith(path, PyExt)
    ensures Contribution(root, path, fs, parse, existing)
         == ResolveAll(root, path, ParsedImports(parse(fs[path])), existing)
  {
  }

  /** A readable Dart file contributes the targets of its matched imports. */
  lemma ContributionDart(root: string, path: string, fs: map<string, string>, parse: string -> ParseResult,
                         existing: set<string>)
    requires path in fs && !EndsWith(path, PyExt) && EndsWith(path, DartExt)
    ensures Contribution(root, path, fs, parse, existing) == ResolveAll(root, path, DartImports(fs[path]), existing)
  {
  }

  /** An unreadable file, or one that is neither Python nor Dart, contributes nothing. */
  lemma ContributionNone(m: map<string, set<string>>, root: string, path: string, fs: map<string, string>,
                         parse: string -> ParseResult, existing: set<string>)
    requires path !in fs || (!EndsWith(path, PyExt) && !EndsWith(path, DartExt))
    ensures AddTargets(m, path, Contribution(root, path, fs, parse, existing)) == m
  {
  }

  /**
   * The dependency map after scanning the files `done`, starting from `m`:
   * every key keeps its targets and a scanned file gains its contribution.
   */
  function Scan(m: map<string, set<string>>, root: string, done: set<string>, fs: map<string, string>,
                parse: string -> ParseResult, existing: set<string>): map<string, set<string>>
  {
    map k | k in m.Keys + (set f | f in done && Contribution(root, f, fs, parse, existing) != {}) ::
      Targets(m, k) + (if k in done then Contribution(root, k, fs, parse, existing) else {})
  }

  /** Before any file is scanned the map is as it was. */
  lemma ScanNone(m: map<string, set<string>>, root: string, fs: map<string, string>,
                 parse: string -> ParseResult, existing: set<string>)
    ensures Scan(m, root, {}, fs, parse, existing) == m
  {
    var s := Scan(m, root, {}, fs, parse, existing);
    assert s.Keys == m.Keys;
    forall k | k in m
      ensures s[k] == m[k]
    {
    }
  }

  /** Scanning one more file adds its contribution under its own key. */
  lemma ScanNext(m: map<string, set<string>>, root: string, done: set<string>, f: string, fs: map<string, string>,
                 parse: string -> ParseResult, existing: set<string>)
    requires f !in done
    ensures Scan(m, root, done + {f}, fs, parse, existing)
         == AddTargets(Scan(m, root, done, fs, parse, existing), f, Contribution(root, f, fs, parse, existing))
  {
    var before := Scan(m, root, done, fs, parse, existing);
    var after := Scan(m, root, done + {f}, fs, parse, existing);
    var c := Contribution(root, f, fs, parse, existing);
    var expected := AddTargets(before, f, c);
    assert after.Keys == expected.Keys;
    forall k | k in after.Keys
      ensures after[k] == expected[k]
    {
      if k == f && c != {} {
        assert Targets(before, f) == Targets(m, f);
      }
    }
  }

  /** A file's edges after a scan are exactly its earlier edges plus, if scanned, its contribution. */
  lemma ScanTargets(m: map<string, set<string>>, root: string, done: set<string>, k: string, fs: map<string, string>,
                    parse: string -> ParseResult, existing: set<string>)
    ensures Targets(Scan(m, root, done, fs, parse, existing), k)
         == Targets(m, k) + (if k in done then Contribution(root, k, fs, parse, existing) else {})
  {
  }

  /** A scan creates no empty entry. */
  lemma ScanNoEmpty(m: map<string, set<string>>, root: string, done: set<string>, fs: map<string, string>,
                    parse: string -> ParseResult, existing: set<string>)
    requires NoEmptyEntries(m)
    ensures NoEmptyEntries(Scan(m, root, done, fs, parse, existing))
  {
  }

  /** A Python file that does not parse is scanned but adds no edge. */
  lemma SyntaxErrorNoEdges(root: string, path: string, fs: map<string, string>, parse: string -> ParseResult,
                           existing: set<string>)
    requires path in fs && EndsWith(path, PyExt) && parse(fs[path]) == SyntaxError
    ensures Contribution(root, path, fs, parse, existing) == {}
  {
  }

  // ----- classification -----

  /** Every edge target of the map (the union of its values). */
  function AllTargets(m: map<string, set<string>>): set<string> {
    set k, x | k in m && x in m[k] :: x
  }

  /** The edge targets of the keys in `ks` only. */
  function TargetsOf(m: map<string, set<string>>, ks: set<string>): set<string> {
    set k, x | k in ks && k in m && x in m[k] :: x
  }

  /** The files classified unused: in the universe, neither scanned as used nor an edge target. */
  function Unused(all: set<string>, used: set<string>, m: map<string, set<string>>): set<string> {
    all - (used + AllTargets(m))
  }

  /**
   * The classification partitions the universe: unused files are files of the
   * universe, none of them is used or an edge target, and every file of the
   * universe is one or the other.
   */
  lemma UnusedPartition(all: set<string>, used: set<string>, m: map<string, set<string>>)
    ensures Unused(all, used, m) <= all
    ensures Unused(all, used, m) !! (used + AllTargets(m))
    ensures all <= (used + AllTargets(m)) + Unused(all, used, m)
  {
  }

  /** Classifying again, with the targets already counted as used and no new edge, gives the same unused files. */
  lemma UnusedIdempotent(all: set<string>, used: set<string>, m: map<string, set<string>>)
    ensures Unused(all, used + AllTargets(m), m) == Unused(all, used, m)
  {
    assert used + AllTargets(m) + AllTargets(m) == used + AllTargets(m);
  }

  /**
   * After a scan from an empty map, the edge targets are exactly the paths some
   * scanned, readable file resolves one of its imports to.
   */
  lemma AllTargetsOfScan(root: string, done: set<string>, fs: map<string, string>, parse: string -> ParseResult,
                         existing: set<string>, x: string)
    ensures x in AllTargets(Scan(map[], root, done, fs, parse, existing)) <==>
      exists f :: f in done && x in Contribution(root, f, fs, parse, existing)
  {
    var s := Scan(map[], root, done, fs, parse, existing);
    if exists f :: f in done && x in Contribution(root, f, fs, parse, existing) {
      var f :| f in done && x in Contribution(root, f, fs, parse, existing);
      assert f in s && x in s[f];
    }
  }

  /**
   * The dead-file rule: after collecting, scanning and classifying from an
   * empty analyzer, a file is unused iff it is in the universe, it could not
   * be read, and no readable file of the universe resolves an import to it.
   */
  lemma DeadFile(root: string, all: set<string>, fs: map<string, string>, parse: string -> ParseResult,
                 existing: set<string>, x: string)
    ensures x in Unused(all, all * fs.Keys, Scan(map[], root, all, fs, parse, existing)) <==>
      x in all && x !in fs && forall f :: f in all && f in fs ==> x !in Contribution(root, f, fs, parse, existing)
  {
    AllTargetsOfScan(root, all, fs, parse, existing, x);
  }

  /** Every edge target is a `normpath` result, so it is in normal form. */
  lemma ContributionNormal(root: string, path: string, fs: map<string, string>, parse: string -> ParseResult,
                           existing: set<string>, x: string)
    ensures x in Contribution(root, path, fs, parse, existing) ==> Normpath(x) == x
  {
    if x in Contribution(root, path, fs, parse, existing) {
      var imps := FileImports(path, fs[path], parse);
      ResolveAllMember(root, path, imps, existing, x);
      var i :| 0 <= i < |imps| && x == Candidate(root, path, imps[i]);
      CandidateNormal(root, path, imps[i]);
    }
  }

  /**
   * Collected paths are joined but never normalised, while edge targets always
   * are: an unreadable file of the universe whose path `normpath` would change
   * (one collected under a root such as `./proj`) is unused even when imported.
   */
  lemma NonNormalUnused(root: string, all: set<string>, fs: map<string, string>, parse: string -> ParseResult,
                        existing: set<string>, x: string)
    requires x in all && x !in fs && Normpath(x) != x
    ensures x in Unused(all, all * fs.Keys, Scan(map[], root, all, fs, parse, existing))
  {
    forall f | f in all && f in fs
      ensures x !in Contribution(root, f, fs, parse, existing)
    {
      if x in Contribution(root, f, fs, parse, existing) {
        ContributionNormal(root, f, fs, parse, existing, x);
      }
    }
    DeadFile(root, all, fs, parse, existing, x);
  }
}
