/**
 * The two import extractors of the analyzer, as pure functions from a file's
 * content to the import strings handed to the resolver, in the order the
 * analyzer resolves them.
 *
 *  - Python (`_analyze_python_imports`, project_analyzer.py:59-72): the parser
 *    is not modelled; a file's parse is a list of nodes in `ast.walk` order, or
 *    a syntax error. Every alias name of an `import` is used, and the module of
 *    a `from ... import` when it is present and non-empty.
 *  - Dart (`_analyze_dart_imports`, project_analyzer.py:74-79): the regular
 *    expression `import\s+['"](.+?)['"]` run by `re.finditer`, written out as a
 *    scan from left to right.
 */
module ImportExtraction {
  import opened Text

  // ----- Python -----

  /** The nodes of a Python syntax tree the extractor looks at; every other node is `OtherNode`. */
  datatype PyNode =
    | Import(names: seq<string>)          // `import a.b, c as d`: the alias names `a.b`, `c`
    | ImportFrom(fromModule: Option<string>)  // `from m import x`; `from . import x` has no module
    | OtherNode

  /** The outcome of `ast.parse` followed by `ast.walk`. */
  datatype ParseResult = Parsed(nodes: seq<PyNode>) | SyntaxError

  /** The import strings one node contributes; an absent or empty module is falsy and contributes none. */
  function NodeImports(n: PyNode): seq<string> {
    match n
    case Import(names) => names
    case ImportFrom(m) => if m.Some? && m.value != [] then [m.value] else []
    case OtherNode => []
  }

  /** The import strings of a node list, node by node in walk order. */
  function PythonImports(nodes: seq<PyNode>): seq<string>
    decreases |nodes|
  {
    if nodes == [] then [] else PythonImports(nodes[..|nodes| - 1]) + NodeImports(nodes[|nodes| - 1])
  }

  /** The import strings of a whole parse: a syntax error yields none. */
  function ParsedImports(p: ParseResult): seq<string> {
    match p
    case Parsed(nodes) => PythonImports(nodes)
    case SyntaxError => []
  }

  /** Extraction is compositional: the imports of two node lists are the imports of each, in order. */
  lemma {:induction false} PythonImportsAppend(xs: seq<PyNode>, ys: seq<PyNode>)
    ensures PythonImports(xs + ys) == PythonImports(xs) + PythonImports(ys)
    decreases |ys|
  {
    if ys == [] {
      assert xs + ys == xs;
    } else {
      var init := ys[..|ys| - 1];
      assert (xs + ys)[..|xs + ys| - 1] == xs + init;
      assert (xs + ys)[|xs + ys| - 1] == ys[|ys| - 1];
      PythonImportsAppend(xs, init);
    }
  }

  /** Whether node `n` names import string `imp`, stated without `NodeImports`. */
  predicate Names(n: PyNode, imp: string) {
    || (n.Import? && imp in n.names)
    || (n.ImportFrom? && n.fromModule == Some(imp) && imp != [])
  }

  /**
   * An import string is resolved exactly when it is an alias name of some
   * `import` node, or the non-empty module of some `from ... import` node.
   */
  lemma {:induction false} PythonImportsMember(nodes: seq<PyNode>, imp: string)
    ensures imp in PythonImports(nodes) <==> exists k :: 0 <= k < |nodes| && Names(nodes[k], imp)
    decreases |nodes|
  {
    if nodes != [] {
      var n := |nodes|;
      var init := nodes[..n - 1];
      PythonImportsMember(init, imp);
      assert imp in NodeImports(nodes[n - 1]) <==> Names(nodes[n - 1], imp);
      if imp in PythonImports(init) {
        var k :| 0 <= k < |init| && Names(init[k], imp);
        assert nodes[k] == init[k];
      }
      if k :| 0 <= k < n && Names(nodes[k], imp) {
        if k < n - 1 {
          assert init[k] == nodes[k];
        }
      }
    }
  }

  // ----- Dart -----

  const ImportWord := "import"

  /** Python's `\s` on a `str` pattern: the characters `str.isspace()` accepts. */
  predicate IsSpace(c: char) {
    || ('\t' <= c <= '\r')
    || ('\U{1C}' <= c <= ' ')
    || c == '\U{85}' || c == '\U{A0}' || c == '\U{1680}'
    || ('\U{2000}' <= c <= '\U{200A}')
    || c == '\U{2028}' || c == '\U{2029}' || c == '\U{202F}' || c == '\U{205F}' || c == '\U{3000}'
  }

  /** The character class `['"]`. */
  predicate IsQuote(c: char) {
    c == '\'' || c == '"'
  }

  /** How many whitespace characters start at `k` (greedy `\s*`). */
  function SpaceRun(t: string, k: nat): (n: nat)
    requires k <= |t|
    ensures k + n <= |t|
    decreases |t| - k
  {
    if k < |t| && IsSpace(t[k]) then 1 + SpaceRun(t, k + 1) else 0
  }

  /**
   * The first quote at or after `k`, as long as no newline comes before it:
   * where the lazy `.+?` stops, since `.` does not match a newline.
   */
  function CloseQuote(t: string, k: nat): (r: Option<nat>)
    requires k <= |t|
    ensures r.Some? ==> k <= r.value < |t|
    decreases |t| - k
  {
    if k == |t| || t[k] == '\n' then None
    else if IsQuote(t[k]) then Some(k)
    else CloseQuote(t, k + 1)
  }

  /**
   * The match of `import\s+['"](.+?)['"]` that starts exactly at `i`, if any:
   * the group and the index just past the closing quote. A match ends after
   * it starts, so `re.finditer` always moves forward.
   */
  function MatchAt(t: string, i: nat): (r: Option<(string, nat)>)
    requires i <= |t|
    ensures r.Some? ==> i < r.value.1 <= |t|
  {
    if StartsWith(t[i..], ImportWord) then
      var k := i + |ImportWord|;
      var q := k + SpaceRun(t, k);
      if q > k && q + 1 < |t| && IsQuote(t[q]) && t[q + 1] != '\n' then
        match CloseQuote(t, q + 2)
        case Some(c) => Some((t[q + 1..c], c + 1))
        case None => None
      else None
    else None
  }

  /** `re.finditer` from position `i`: try each position in turn, resume after a match. */
  function ScanFrom(t: string, i: nat): seq<string>
    requires i <= |t|
    decreases |t| - i
  {
    if i == |t| then []
    else
      match MatchAt(t, i)
      case Some(m) => [m.0] + ScanFrom(t, m.1)
      case None => ScanFrom(t, i + 1)
  }

  /** The import strings of a Dart file, left to right. */
  function DartImports(t: string): seq<string> {
    ScanFrom(t, 0)
  }

  /**
   * What it means for the pattern to match `t[i..e]`, written independently of
   * the scan: `import`, a run of `w >= 1` whitespace characters, a quote at `q`,
   * then a group of at least one character other than a newline, closed by the
   * first quote after the group's first character.
   */
  predicate MatchSpec(t: string, i: nat, w: nat, e: nat) {
    var q := i + |ImportWord| + w;
    && q + 3 <= e <= |t|
    && t[i..i + |ImportWord|] == ImportWord
    && w >= 1
    && (forall j :: i + |ImportWord| <= j < q ==> IsSpace(t[j]))
    && IsQuote(t[q]) && IsQuote(t[e - 1])
    && (forall j :: q + 1 <= j < e - 1 ==> t[j] != '\n')
    && (forall j :: q + 2 <= j < e - 1 ==> !IsQuote(t[j]))
  }

  lemma {:induction false} SpaceRunSpaces(t: string, k: nat)
    requires k <= |t|
    ensures forall j :: k <= j < k + SpaceRun(t, k) ==> IsSpace(t[j])
    ensures k + SpaceRun(t, k) < |t| ==> !IsSpace(t[k + SpaceRun(t, k)])
    decreases |t| - k
  {
    if k < |t| && IsSpace(t[k]) {
      SpaceRunSpaces(t, k + 1);
    }
  }

  /** A run of spaces followed by a non-space has exactly the run's length. */
  lemma {:induction false} SpaceRunExact(t: string, k: nat, w: nat)
    requires k + w < |t|
    requires forall j :: k <= j < k + w ==> IsSpace(t[j])
    requires !IsSpace(t[k + w])
    ensures SpaceRun(t, k) == w
    decreases w
  {
    if w > 0 {
      SpaceRunExact(t, k + 1, w - 1);
    }
  }

  lemma {:induction false} CloseQuoteFound(t: string, k: nat)
    requires k <= |t|
    ensures CloseQuote(t, k).Some? ==>
      IsQuote(t[CloseQuote(t, k).value]) &&
      forall j :: k <= j < CloseQuote(t, k).value ==> t[j] != '\n' && !IsQuote(t[j])
    decreases |t| - k
  {
    if k < |t| && t[k] != '\n' && !IsQuote(t[k]) {
      CloseQuoteFound(t, k + 1);
    }
  }

  lemma {:induction false} CloseQuoteExact(t: string, k: nat, c: nat)
    requires k <= c < |t| && IsQuote(t[c])
    requires forall j :: k <= j < c ==> t[j] != '\n' && !IsQuote(t[j])
    ensures CloseQuote(t, k) == Some(c)
    decreases c - k
  {
    if k < c {
      CloseQuoteExact(t, k + 1, c);
    }
  }

  /** Every match the scan finds is a match of the pattern. */
  lemma MatchAtSound(t: string, i: nat)
    requires i <= |t| && MatchAt(t, i).Some?
    ensures var q := i + |ImportWord| + SpaceRun(t, i + |ImportWord|);
      MatchSpec(t, i, SpaceRun(t, i + |ImportWord|), MatchAt(t, i).value.1) &&
      MatchAt(t, i).value.0 == t[q + 1..MatchAt(t, i).value.1 - 1]
  {
    var k := i + |ImportWord|;
    var w := SpaceRun(t, k);
    var q := k + w;
    SpaceRunSpaces(t, k);
    CloseQuoteFound(t, q + 2);
    assert t[i..k] == t[i..][..|ImportWord|];
  }

  /** Every match of the pattern at `i` is the one the scan finds there. */
  lemma MatchAtComplete(t: string, i: nat, w: nat, e: nat)
    requires MatchSpec(t, i, w, e)
    ensures i <= |t|
    ensures MatchAt(t, i) == Some((t[i + |ImportWord| + w + 1..e - 1], e))
  {
    var k := i + |ImportWord|;
    var q := k + w;
    assert !IsSpace(t[q]);
    SpaceRunExact(t, k, w);
    CloseQuoteExact(t, q + 2, e - 1);
    assert t[i..][..|ImportWord|] == t[i..k];
  }

  /** Each string the scan yields is the non-empty group of a match, without a newline. */
  lemma {:induction false} ScanFromWellFormed(t: string, i: nat)
    requires i <= |t|
    ensures forall g :: g in ScanFrom(t, i) ==> g != [] && '\n' !in g
    decreases |t| - i
  {
    if i < |t| {
      match MatchAt(t, i)
      case Some(m) =>
        MatchAtSound(t, i);
        ScanFromWellFormed(t, m.1);
        var q := i + |ImportWord| + SpaceRun(t, i + |ImportWord|);
        assert forall j :: 0 <= j < |m.0| ==> m.0[j] == t[q + 1 + j];
      case None =>
        ScanFromWellFormed(t, i + 1);
    }
  }

  /** Every Dart import string is non-empty and lies on one line. */
  lemma DartImportsWellFormed(t: string)
    ensures forall g :: g in DartImports(t) ==> g != [] && '\n' !in g
  {
    ScanFromWellFormed(t, 0);
  }

  /** Every Dart import string is the group of a match of the pattern somewhere in the text. */
  lemma {:induction false} ScanFromMatches(t: string, i: nat, g: string)
    requires i <= |t| && g in ScanFrom(t, i)
    ensures exists s, w, e :: i <= s && MatchSpec(t, s, w, e) && g == t[s + |ImportWord| + w + 1..e - 1]
    decreases |t| - i
  {
    match MatchAt(t, i)
    case Some(m) =>
      MatchAtSound(t, i);
      if g == m.0 {
        var w := SpaceRun(t, i + |ImportWord|);
        assert MatchSpec(t, i, w, m.1);
      } else {
        ScanFromMatches(t, m.1, g);
      }
    case None =>
      ScanFromMatches(t, i + 1, g);
  }

  /**
   * The scan misses no match: from `i`, the first string yielded is the group
   * of the leftmost match of the pattern, and the scan resumes where that match ends.
   */
  lemma {:induction false} ScanFromFirst(t: string, i: nat, s: nat, w: nat, e: nat)
    requires i <= s && MatchSpec(t, s, w, e)
    requires forall s', w', e' :: i <= s' < s ==> !MatchSpec(t, s', w', e')
    ensures i <= |t| && e <= |t|
    ensures ScanFrom(t, i) == [t[s + |ImportWord| + w + 1..e - 1]] + ScanFrom(t, e)
    decreases s - i
  {
    MatchAtComplete(t, s, w, e);
    if i < s {
      if MatchAt(t, i).Some? {
        MatchAtSound(t, i);
        assert false;
      }
      ScanFromFirst(t, i + 1, s, w, e);
    }
  }

  /** Where the pattern matches nowhere from `i` on, the scan yields nothing. */
  lemma {:induction false} ScanFromNone(t: string, i: nat)
    requires i <= |t|
    requires forall s, w, e :: i <= s < |t| ==> !MatchSpec(t, s, w, e)
    ensures ScanFrom(t, i) == []
    decreases |t| - i
  {
    if i < |t| {
      if MatchAt(t, i).Some? {
        MatchAtSound(t, i);
        assert false;
      }
      ScanFromNone(t, i + 1);
    }
  }

  const ExampleImport := "package:app/utils.dart"
  const ExampleLine := "import '" + ExampleImport + "';"

  lemma ExampleSpec()
    ensures MatchSpec(ExampleLine, 0, 1, 31)
  {
    var t := ExampleLine;
    assert t[..6] == ImportWord;
    assert IsSpace(t[6]) && IsQuote(t[7]) && IsQuote(t[30]);
  }

  lemma ExampleGroup()
    ensures |ExampleLine| == 32
    ensures ExampleLine[8..30] == ExampleImport
  {
    assert ExampleLine[8..30] == ("import '" + ExampleImport + "';")[|"import '"|..|"import '" + ExampleImport|];
  }

  lemma ExampleMatch()
    ensures |ExampleLine| == 32
    ensures MatchAt(ExampleLine, 0) == Some((ExampleImport, 31))
  {
    ExampleSpec();
    MatchAtComplete(ExampleLine, 0, 1, 31);
    ExampleGroup();
  }

  lemma ExampleTail()
    ensures |ExampleLine| == 32
    ensures ScanFrom(ExampleLine, 31) == []
  {
    var t := ExampleLine;
    assert MatchAt(t, 31) == None by {
      assert t[31..][0] != ImportWord[0];
    }
  }

  /** The package import on a Dart file's line is found, without its quotes or the `;`. */
  lemma DartImportsExample()
    ensures DartImports(ExampleLine) == [ExampleImport]
  {
    ExampleMatch();
    ExampleTail();
  }
}
