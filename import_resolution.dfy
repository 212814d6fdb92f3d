/**
 * The analyzer's import resolver (`ProjectAnalyzer._resolve_import`,
 * project_analyzer.py:81-106) without its side effect: the candidate path it
 * computes for an import string, and what that path is for well-formed inputs.
 *
 * The three rules are tried in a fixed order and the first that applies wins:
 *  1. an import ending in `.py` is a path relative to the importing file's directory;
 *  2. otherwise one starting with `package:` is a path under `<root>/lib`, with every
 *     `package:` in it removed;
 *  3. otherwise it is a dotted module name: dots become separators and `.dart` is
 *     appended, relative to the importing file's directory.
 */
module ImportResolution {
  import opened Text
  import opened PosixPath
  import opened Seqs

  const PyExt := ".py"
  const DartExt := ".dart"
  const PackageMarker := "package:"
  const LibDir := "lib"

  datatype Rule = RelativePy | Package | Dotted

  /** Which of the three rules applies to an import string. */
  function RuleOf(imp: string): Rule {
    if EndsWith(imp, PyExt) then RelativePy
    else if StartsWith(imp, PackageMarker) then Package
    else Dotted
  }

  /** The joined path of the rule that applies, before `normpath`. */
  function Joined(root: string, source: string, imp: string): string {
    match RuleOf(imp)
    case RelativePy => Join(Dirname(source), imp)
    case Package => Join(Join(root, LibDir), ReplaceChar(RemoveAll(imp, PackageMarker), '/', Sep))
    case Dotted => Join(Dirname(source), ReplaceChar(imp, '.', Sep) + DartExt)
  }

  /** The path the import names, before its existence is checked. */
  function Candidate(root: string, source: string, imp: string): string {
    Normpath(Joined(root, source, imp))
  }

  /** Whatever the import, the candidate is already in normal form. */
  lemma CandidateNormal(root: string, source: string, imp: string)
    ensures Normpath(Candidate(root, source, imp)) == Candidate(root, source, imp)
  {
    NormpathIdempotent(Joined(root, source, imp));
  }

  /** Python's `'.'.join(names)`: a dotted module name. */
  function DottedName(names: seq<string>): string {
    if names == [] then []
    else if |names| == 1 then names[0]
    else names[0] + "." + DottedName(names[1..])
  }

  /** The components a dotted module name `a.b.c` is looked up at: `a`, `b`, `c.dart`. */
  function DartModulePath(names: seq<string>): (ps: seq<string>)
    requires names != []
    ensures |ps| == |names|
  {
    names[..|names| - 1] + [names[|names| - 1] + DartExt]
  }

  /** A module name component: plain, and without dots. */
  predicate ModuleName(name: string) {
    Plain(name) && '.' !in name
  }

  // ----- helpers -----

  lemma {:induction false} ReplaceCharConcat(a: string, b: string, x: char, y: char)
    ensures ReplaceChar(a + b, x, y) == ReplaceChar(a, x, y) + ReplaceChar(b, x, y)
  {
    if a != [] {
      assert (a + b)[1..] == a[1..] + b;
      ReplaceCharConcat(a[1..], b, x, y);
      assert (a + b)[0] == a[0];
    } else {
      assert a + b == b;
    }
  }

  lemma ReplaceCharAbsent(s: string, x: char, y: char)
    requires x !in s
    ensures ReplaceChar(s, x, y) == s
  {
  }

  /** Turning the dots of a dotted name into separators joins its components by `/`. */
  lemma {:induction false} DotsToSeps(names: seq<string>)
    requires forall i :: 0 <= i < |names| ==> '.' !in names[i]
    ensures ReplaceChar(DottedName(names), '.', Sep) == JoinSegs(names)
  {
    if |names| == 1 {
      ReplaceCharAbsent(names[0], '.', Sep);
    } else if |names| > 1 {
      var rest := DottedName(names[1..]);
      DotsToSeps(names[1..]);
      ReplaceCharConcat(names[0] + ".", rest, '.', Sep);
      ReplaceCharConcat(names[0], ".", '.', Sep);
      ReplaceCharAbsent(names[0], '.', Sep);
      assert ReplaceChar(".", '.', Sep) == [Sep];
    }
  }

  lemma JoinSegsSuffix(init: seq<string>, x: string, t: string)
    ensures JoinSegs(init + [x]) + t == JoinSegs(init + [x + t])
  {
    assert JoinSegs([x]) == x;
    assert JoinSegs([x + t]) == x + t;
    if init == [] {
      assert init + [x] == [x];
      assert init + [x + t] == [x + t];
    } else {
      JoinSegsAppend(init, [x]);
      JoinSegsAppend(init, [x + t]);
      Assoc(JoinSegs(init) + [Sep], x, t);
    }
  }

  lemma JoinRenderUnder(lead: nat, dir: seq<string>, x: string, ps: seq<string>)
    requires lead <= 2 && NormalComps(dir, lead > 0) && Plain(x)
    requires ps != [] && forall i :: 0 <= i < |ps| ==> Plain(ps[i])
    ensures Normpath(Join(Render(lead, dir), JoinSegs([x] + ps))) == Render(lead, dir + [x] + ps)
  {
    var xps := [x] + ps;
    assert forall i :: 0 <= i < |xps| ==> Plain(xps[i]);
    JoinRender(lead, dir, xps);
    Assoc(dir, [x], ps);
  }

  lemma JoinJoin(d: string, x: string, b: string)
    requires x != [] && x[0] != Sep && x[|x| - 1] != Sep
    requires b != [] && b[0] != Sep
    ensures Join(Join(d, x), b) == Join(d, x + [Sep] + b)
  {
    var xb := x + [Sep] + b;
    assert xb[0] == x[0];
    if d == [] || d[|d| - 1] == Sep {
      Assoc(d, x + [Sep], b);
      Assoc(d, x, [Sep]);
    } else {
      Assoc(d + [Sep], x + [Sep], b);
      Assoc(d + [Sep], x, [Sep]);
    }
  }

  lemma PlainEnds(x: string)
    requires Plain(x)
    ensures x[0] != Sep && x[|x| - 1] != Sep
  {
    assert x[0] in x;
    assert x[|x| - 1] in x;
  }

  // ----- the three rules on normal paths -----

  /**
   * Rule 1: an import `name.py` from a file in a normal directory resolves to
   * the sibling file `name.py` in that same directory.
   */
  lemma CandidateSibling(root: string, lead: nat, dir: seq<string>, file: string, name: string)
    requires lead <= 2 && NormalComps(dir, lead > 0) && Plain(file) && Plain(name)
    requires EndsWith(name, PyExt)
    ensures Candidate(root, Join(Render(lead, dir), file), name) == Render(lead, dir + [name])
  {
    DirnameOfChild(lead, dir, file);
    assert JoinSegs([name]) == name;
    JoinRender(lead, dir, [name]);
  }

  /** `package:` followed by a relative path is a package import whose remainder is that path. */
  lemma PackageRest(ps: seq<string>)
    requires ps != [] && forall i :: 0 <= i < |ps| ==> Plain(ps[i])
    requires !HasInfix(JoinSegs(ps), PackageMarker)
    requires !EndsWith(PackageMarker + JoinSegs(ps), PyExt)
    ensures RuleOf(PackageMarker + JoinSegs(ps)) == Package
    ensures ReplaceChar(RemoveAll(PackageMarker + JoinSegs(ps), PackageMarker), '/', Sep) == JoinSegs(ps)
  {
    var rest := JoinSegs(ps);
    var imp := PackageMarker + rest;
    assert imp[..|PackageMarker|] == PackageMarker;
    RemoveLeading(PackageMarker, rest);
    RemoveAbsent(rest, PackageMarker);
    ReplaceCharSame(rest, Sep);
  }

  /**
   * Rule 2: a `package:` import whose remainder, once every `package:` is
   * removed, is a relative path of plain components resolves to that path
   * under the `lib` directory of a normal project root.
   */
  lemma CandidatePackage(lead: nat, rootDir: seq<string>, source: string, imp: string, ps: seq<string>)
    requires lead <= 2 && NormalComps(rootDir, lead > 0)
    requires ps != [] && forall i :: 0 <= i < |ps| ==> Plain(ps[i])
    requires RuleOf(imp) == Package
    requires ReplaceChar(RemoveAll(imp, PackageMarker), '/', Sep) == JoinSegs(ps)
    ensures Candidate(Render(lead, rootDir), source, imp) == Render(lead, rootDir + [LibDir] + ps)
  {
    JoinSegsNoLeadingSep(ps);
    PlainEnds(LibDir);
    JoinJoin(Render(lead, rootDir), LibDir, JoinSegs(ps));
    JoinSegsAppend([LibDir], ps);
    JoinRenderUnder(lead, rootDir, LibDir, ps);
  }

  /** The common case of rule 2: `package:a/b/c` resolves to `<root>/lib/a/b/c`. */
  lemma CandidatePackagePath(lead: nat, rootDir: seq<string>, source: string, ps: seq<string>)
    requires lead <= 2 && NormalComps(rootDir, lead > 0)
    requires ps != [] && forall i :: 0 <= i < |ps| ==> Plain(ps[i])
    requires !HasInfix(JoinSegs(ps), PackageMarker)
    requires !EndsWith(PackageMarker + JoinSegs(ps), PyExt)
    ensures Candidate(Render(lead, rootDir), source, PackageMarker + JoinSegs(ps))
         == Render(lead, rootDir + [LibDir] + ps)
  {
    PackageRest(ps);
    CandidatePackage(lead, rootDir, source, PackageMarker + JoinSegs(ps), ps);
  }

  lemma DartModulePathPlain(names: seq<string>)
    requires names != [] && forall i :: 0 <= i < |names| ==> ModuleName(names[i])
    ensures forall i :: 0 <= i < |names| ==> Plain(DartModulePath(names)[i])
  {
    var ps := DartModulePath(names);
    forall i | 0 <= i < |ps| ensures Plain(ps[i]) {
      if i == |names| - 1 {
        var last := names[i] + DartExt;
        assert ps[i] == last;
        assert last[0] == names[i][0];
        assert Sep !in last by {
          forall k | 0 <= k < |last| ensures last[k] != Sep {
            if k < |names[i]| { assert last[k] in names[i]; }
          }
        }
        assert |last| > 2;
      } else {
        assert ps[i] == names[i];
      }
    }
  }

  lemma DottedJoined(root: string, source: string, names: seq<string>)
    requires names != [] && forall i :: 0 <= i < |names| ==> ModuleName(names[i])
    requires !EndsWith(DottedName(names), PyExt) && !StartsWith(DottedName(names), PackageMarker)
    ensures Joined(root, source, DottedName(names)) == Join(Dirname(source), JoinSegs(DartModulePath(names)))
  {
    var d := DottedName(names);
    assert RuleOf(d) == Dotted;
    assert Joined(root, source, d) == Join(Dirname(source), ReplaceChar(d, '.', Sep) + DartExt);
    DotsToSeps(names);
    var n := |names|;
    InitLast(names);
    JoinSegsSuffix(names[..n - 1], names[n - 1], DartExt);
    assert ReplaceChar(d, '.', Sep) + DartExt == JoinSegs(DartModulePath(names));
  }

  /**
   * Rule 3: a dotted module name `a.b.c` from a file in a normal directory
   * resolves to `a/b/c.dart` below that directory.
   */
  lemma CandidateDotted(root: string, lead: nat, dir: seq<string>, file: string, names: seq<string>)
    requires lead <= 2 && NormalComps(dir, lead > 0) && Plain(file)
    requires names != [] && forall i :: 0 <= i < |names| ==> ModuleName(names[i])
    requires !EndsWith(DottedName(names), PyExt) && !StartsWith(DottedName(names), PackageMarker)
    ensures Candidate(root, Join(Render(lead, dir), file), DottedName(names))
         == Render(lead, dir + DartModulePath(names))
  {
    DottedJoined(root, Join(Render(lead, dir), file), names);
    DirnameOfChild(lead, dir, file);
    DartModulePathPlain(names);
    JoinRender(lead, dir, DartModulePath(names));
  }

  // ----- behaviours of the rules that are easy to misread -----

  /** A name without a dot cannot end in `.py`. */
  lemma NoDotNoPy(name: string)
    requires '.' !in name
    ensures !EndsWith(name, PyExt)
  {
    if |name| >= 3 {
      assert name[|name| - 3] in name;
    }
  }

  /**
   * A plain Python `import b` goes through rule 3: it resolves to `b.dart`
   * next to the importing file, never to the sibling `b.py`.
   */
  lemma PlainImportIsDart(root: string, lead: nat, dir: seq<string>, file: string, name: string)
    requires lead <= 2 && NormalComps(dir, lead > 0) && Plain(file)
    requires ModuleName(name) && !StartsWith(name, PackageMarker)
    ensures Candidate(root, Join(Render(lead, dir), file), name) == Render(lead, dir + [name + DartExt])
    ensures Candidate(root, Join(Render(lead, dir), file), name) != Render(lead, dir + [name + PyExt])
  {
    assert DottedName([name]) == name;
    NoDotNoPy(name);
    CandidateDotted(root, lead, dir, file, [name]);
    assert DartModulePath([name]) == [name + DartExt];
    RenderLast(lead, dir + [name + DartExt]);
    RenderLast(lead, dir + [name + PyExt]);
  }

  /** A string without `:` cannot start with `package:`. */
  lemma NoColonNoPackage(s: string)
    requires ':' !in s
    ensures !StartsWith(s, PackageMarker)
  {
    if |s| >= 8 {
      assert s[7] in s;
    }
  }

  /**
   * A relative Dart import `x.dart` also goes through rule 3: its dot becomes
   * a separator, so it resolves to `x/dart.dart`, not to the sibling `x.dart`.
   */
  lemma RelativeDartImport(root: string, lead: nat, dir: seq<string>, file: string, x: string)
    requires lead <= 2 && NormalComps(dir, lead > 0) && Plain(file)
    requires ModuleName(x) && ':' !in x
    ensures Candidate(root, Join(Render(lead, dir), file), x + DartExt) == Render(lead, dir + [x, "dart" + DartExt])
  {
    var names := [x, "dart"];
    assert DottedName(names) == x + DartExt by {
      assert DottedName(names[1..]) == "dart";
    }
    assert ModuleName("dart");
    assert (x + DartExt)[|x + DartExt| - 1] == 't';
    assert ':' !in x + DartExt;
    NoColonNoPackage(x + DartExt);
    CandidateDotted(root, lead, dir, file, names);
    assert DartModulePath(names) == [x, "dart" + DartExt];
  }

  /**
   * Rule 2 drops every `package:` in the import, not just the leading one:
   * `package:a/package:b` resolves to `<root>/lib/a/b`.
   */
  lemma PackageMarkerDroppedEverywhere(lead: nat, rootDir: seq<string>, source: string, ps: seq<string>, qs: seq<string>)
    requires lead <= 2 && NormalComps(rootDir, lead > 0)
    requires ps != [] && forall i :: 0 <= i < |ps| ==> Plain(ps[i])
    requires qs != [] && forall i :: 0 <= i < |qs| ==> Plain(qs[i])
    requires !HasInfix(JoinSegs(ps), PackageMarker) && !HasInfix(JoinSegs(qs), PackageMarker)
    requires !EndsWith(PackageMarker + JoinSegs(qs), PyExt)
    ensures Candidate(Render(lead, rootDir), source, PackageMarker + JoinSegs(ps) + [Sep] + PackageMarker + JoinSegs(qs))
         == Render(lead, rootDir + [LibDir] + (ps + qs))
  {
    var imp := PackageMarker + JoinSegs(ps) + [Sep] + PackageMarker + JoinSegs(qs);
    PackageTwiceRest(ps, qs);
    assert forall i :: 0 <= i < |ps + qs| ==> Plain((ps + qs)[i]);
    CandidatePackage(lead, rootDir, source, imp, ps + qs);
  }

  lemma RemoveMarkerTwice(a: string, b: string)
    requires !HasInfix(a, PackageMarker) && !HasInfix(b, PackageMarker)
    ensures RemoveAll(PackageMarker + a + [Sep] + PackageMarker + b, PackageMarker) == a + [Sep] + b
  {
    var rest := a + [Sep] + (PackageMarker + b);
    Regroup(PackageMarker, a, Sep, b);
    RemoveLeading(PackageMarker, rest);
    assert Sep !in PackageMarker;
    RemoveBeforeBarrier(a, Sep, PackageMarker + b, PackageMarker);
    RemoveLeading(PackageMarker, b);
    RemoveAbsent(b, PackageMarker);
  }

  lemma RuleOfMarkerTwice(a: string, b: string)
    requires !EndsWith(PackageMarker + b, PyExt)
    ensures RuleOf(PackageMarker + a + [Sep] + PackageMarker + b) == Package
  {
    var imp := PackageMarker + a + [Sep] + PackageMarker + b;
    var tail := PackageMarker + b;
    assert imp == PackageMarker + a + [Sep] + tail;
    assert imp[|imp| - 3..] == tail[|tail| - 3..];
    assert imp[..|PackageMarker|] == PackageMarker;
  }

  lemma PackageTwiceRest(ps: seq<string>, qs: seq<string>)
    requires ps != [] && qs != []
    requires !HasInfix(JoinSegs(ps), PackageMarker) && !HasInfix(JoinSegs(qs), PackageMarker)
    requires !EndsWith(PackageMarker + JoinSegs(qs), PyExt)
    ensures RuleOf(PackageMarker + JoinSegs(ps) + [Sep] + PackageMarker + JoinSegs(qs)) == Package
    ensures ReplaceChar(RemoveAll(PackageMarker + JoinSegs(ps) + [Sep] + PackageMarker + JoinSegs(qs), PackageMarker), '/', Sep)
         == JoinSegs(ps + qs)
  {
    RuleOfMarkerTwice(JoinSegs(ps), JoinSegs(qs));
    RemoveMarkerTwice(JoinSegs(ps), JoinSegs(qs));
    JoinSegsAppend(ps, qs);
    ReplaceCharSame(JoinSegs(ps + qs), Sep);
  }
}
