/**
 * The parts of Python's `posixpath` (`os.path` with `os.sep == '/'`) that the
 * analyzer calls: `str.split('/')`, `join`, `dirname` and `normpath`.
 *
 * A normalised path is described by `Render(lead, comps)`: `lead` leading
 * separators (0, 1 or 2, as `normpath` keeps them) followed by the components
 * `comps` joined with `/`, where `comps` satisfies `NormalComps`.
 */
module PosixPath {
  import opened Text
  import opened Seqs

  const Sep: char := '/'

  /** A string of `n` separators. */
  function Slashes(n: nat): (r: string)
    ensures |r| == n
  {
    seq(n, _ => Sep)
  }

  /** `n` empty strings: what `Split` makes of `n` leading separators. */
  function Empties(n: nat): (r: seq<string>)
    ensures |r| == n
  {
    seq(n, _ => [])
  }

  /** Python's `s.split('/')`: the pieces between separators, empty ones included. */
  function Split(s: string): (r: seq<string>)
    ensures |r| >= 1
  {
    if s == [] then [[]]
    else
      var rest := Split(s[1..]);
      if s[0] == Sep then [[]] + rest
      else [[s[0]] + rest[0]] + rest[1..]
  }

  /** Python's `'/'.join(segs)`. */
  function JoinSegs(segs: seq<string>): string {
    if segs == [] then []
    else if |segs| == 1 then segs[0]
    else segs[0] + [Sep] + JoinSegs(segs[1..])
  }

  /** Python's `posixpath.join(a, b)`. */
  function Join(a: string, b: string): string {
    if b != [] && b[0] == Sep then b
    else if a == [] || a[|a| - 1] == Sep then a + b
    else a + [Sep] + b
  }

  /** `p.rfind('/') + 1`: the index just past the last separator, 0 if there is none. */
  function LastSepEnd(p: string): (r: nat)
    ensures r <= |p|
  {
    if p == [] then 0
    else if p[|p| - 1] == Sep then |p|
    else LastSepEnd(p[..|p| - 1])
  }

  /** `s.rstrip('/')`. */
  function RStripSep(s: string): (r: string)
    ensures |r| <= |s|
  {
    if s != [] && s[|s| - 1] == Sep then RStripSep(s[..|s| - 1]) else s
  }

  predicate AllSep(s: string) {
    forall i :: 0 <= i < |s| ==> s[i] == Sep
  }

  /** Python's `posixpath.dirname(p)`. */
  function Dirname(p: string): string {
    var head := p[..LastSepEnd(p)];
    if head != [] && !AllSep(head) then RStripSep(head) else head
  }

  /** The number of leading separators `normpath` keeps: two exactly when there are exactly two. */
  function Lead(p: string): (r: nat)
    ensures r <= 2
  {
    if |p| >= 1 && p[0] == Sep then
      (if |p| >= 2 && p[1] == Sep && !(|p| >= 3 && p[2] == Sep) then 2 else 1)
    else 0
  }

  /** One step of `normpath`'s loop: component `comp` is dropped, appended, or pops the last one. */
  function Push(acc: seq<string>, comp: string, absolute: bool): seq<string> {
    if comp == [] || comp == "." then acc
    else if comp != ".." || (!absolute && acc == []) || (acc != [] && acc[|acc| - 1] == "..") then acc + [comp]
    else if acc != [] then acc[..|acc| - 1]
    else acc
  }

  /** `normpath`'s loop over `comps`, starting from the components `acc` already kept. */
  function NormFold(acc: seq<string>, comps: seq<string>, absolute: bool): seq<string>
    decreases |comps|
  {
    if comps == [] then acc else NormFold(Push(acc, comps[0], absolute), comps[1..], absolute)
  }

  /** `lead` separators followed by `comps` joined by `/`, or `.` if that is empty. */
  function Render(lead: nat, comps: seq<string>): (r: string)
    ensures r != []
  {
    var p := Slashes(lead) + JoinSegs(comps);
    if p == [] then "." else p
  }

  /** Python's `posixpath.normpath(p)`. */
  function Normpath(p: string): (r: string)
    ensures r != []
  {
    if p == [] then "."
    else
      var lead := Lead(p);
      Render(lead, NormFold([], Split(p), lead > 0))
  }

  /** A single path component that `normpath` keeps as it is wherever it stands. */
  predicate Plain(seg: string) {
    seg != [] && seg != "." && seg != ".." && Sep !in seg
  }

  /**
   * Components of a normalised path: none empty, `.` or containing a separator,
   * and `..` only in a leading run of a relative path.
   */
  predicate NormalComps(cs: seq<string>, absolute: bool) {
    forall i :: 0 <= i < |cs| ==>
      && cs[i] != [] && cs[i] != "." && Sep !in cs[i]
      && (cs[i] == ".." ==> !absolute && forall j :: 0 <= j < i ==> cs[j] == "..")
  }

  // ----- split and join -----

  lemma SplitCons(c: char, s: string)
    ensures Split([c] + s) == if c == Sep then [[]] + Split(s) else [[c] + Split(s)[0]] + Split(s)[1..]
  {
    assert ([c] + s)[0] == c && ([c] + s)[1..] == s;
  }

  /** Joining undoes splitting. */
  lemma {:induction false} JoinSplit(s: string)
    ensures JoinSegs(Split(s)) == s
  {
    if s != [] {
      var rest := Split(s[1..]);
      JoinSplit(s[1..]);
      HeadTail(s);
      SplitCons(s[0], s[1..]);
      if s[0] == Sep {
        assert Split(s) == [[]] + rest;
        assert ([[]] + rest)[1..] == rest;
      } else if |rest| == 1 {
        assert Split(s) == [[s[0]] + rest[0]];
      } else {
        var segs := [[s[0]] + rest[0]] + rest[1..];
        assert Split(s) == segs;
        assert segs[1..] == rest[1..];
        assert JoinSegs(rest) == rest[0] + [Sep] + JoinSegs(rest[1..]);
        Assoc([s[0]], rest[0] + [Sep], JoinSegs(rest[1..]));
        Assoc([s[0]], rest[0], [Sep]);
      }
    }
  }

  /** No piece of a split contains the separator. */
  lemma {:induction false} SplitPieces(s: string)
    ensures forall i :: 0 <= i < |Split(s)| ==> Sep !in Split(s)[i]
  {
    if s != [] {
      SplitPieces(s[1..]);
      var rest := Split(s[1..]);
      if s[0] != Sep {
        assert rest[0] == Split(s)[0][1..];
        assert Split(s)[1..] == rest[1..];
      }
    }
  }

  /** Splitting around one separator splits each side. */
  lemma {:induction false} SplitAroundSep(a: string, b: string)
    ensures Split(a + [Sep] + b) == Split(a) + Split(b)
  {
    if a == [] {
      assert a + [Sep] + b == [Sep] + b;
      SplitCons(Sep, b);
    } else {
      var c, a' := a[0], a[1..];
      var A, B := Split(a'), Split(b);
      assert a + [Sep] + b == [c] + (a' + [Sep] + b) by {
        HeadTail(a);
        Assoc([c], a', [Sep]);
        Assoc([c], a' + [Sep], b);
      }
      SplitAroundSep(a', b);
      SplitCons(c, a' + [Sep] + b);
      SplitCons(c, a');
      HeadTail(a);
      if c == Sep {
        Assoc([[]], A, B);
      } else {
        assert (A + B)[0] == A[0];
        assert (A + B)[1..] == A[1..] + B;
        Assoc([[c] + A[0]], A[1..], B);
      }
    }
  }

  /** Splitting undoes joining, for components without separators. */
  lemma {:induction false} SplitJoin(segs: seq<string>)
    requires |segs| >= 1
    requires forall i :: 0 <= i < |segs| ==> Sep !in segs[i]
    ensures Split(JoinSegs(segs)) == segs
  {
    if |segs| == 1 {
      SplitOfPiece(segs[0]);
    } else {
      SplitJoin(segs[1..]);
      SplitAroundSep(segs[0], JoinSegs(segs[1..]));
      SplitOfPiece(segs[0]);
      assert segs == [segs[0]] + segs[1..];
    }
  }

  /** A string without separators splits into itself. */
  lemma {:induction false} SplitOfPiece(a: string)
    requires Sep !in a
    ensures Split(a) == [a]
  {
    if a != [] {
      assert a[0] in a;
      assert Sep !in a[1..] by {
        forall k | 0 <= k < |a[1..]| ensures a[1..][k] != Sep {
          assert a[1..][k] == a[k + 1];
        }
      }
      SplitOfPiece(a[1..]);
      HeadTail(a);
      SplitCons(a[0], a[1..]);
    }
  }

  lemma {:induction false} SplitSlashes(n: nat, x: string)
    ensures Split(Slashes(n) + x) == Empties(n) + Split(x)
  {
    if n > 0 {
      var p := Slashes(n) + x;
      assert p == [Sep] + (Slashes(n - 1) + x) by {
        assert Slashes(n) == [Sep] + Slashes(n - 1);
        Assoc([Sep], Slashes(n - 1), x);
      }
      SplitCons(Sep, Slashes(n - 1) + x);
      SplitSlashes(n - 1, x);
      assert Empties(n) == [[]] + Empties(n - 1);
      Assoc([[]], Empties(n - 1), Split(x));
    } else {
      assert Slashes(n) + x == x;
      assert Empties(n) + Split(x) == Split(x);
    }
  }

  lemma SplitDot()
    ensures Split(".") == ["."]
  {
    SplitOfPiece(".");
  }

  lemma {:induction false} JoinSegsAppend(xs: seq<string>, ys: seq<string>)
    requires xs != [] && ys != []
    ensures JoinSegs(xs + ys) == JoinSegs(xs) + [Sep] + JoinSegs(ys)
  {
    if |xs| == 1 {
      assert (xs + ys)[1..] == ys;
    } else {
      JoinSegsAppend(xs[1..], ys);
      assert (xs + ys)[1..] == xs[1..] + ys;
    }
  }

  lemma {:induction false} JoinSegsFirst(segs: seq<string>)
    requires segs != [] && segs[0] != []
    ensures JoinSegs(segs) != [] && JoinSegs(segs)[0] == segs[0][0]
  {
  }

  lemma {:induction false} JoinSegsLast(segs: seq<string>)
    requires segs != [] && segs[|segs| - 1] != []
    ensures JoinSegs(segs) != []
    ensures JoinSegs(segs)[|JoinSegs(segs)| - 1] == segs[|segs| - 1][|segs[|segs| - 1]| - 1]
  {
    if |segs| > 1 {
      var init := segs[..|segs| - 1];
      JoinSegsAppend(init, [segs[|segs| - 1]]);
      assert init + [segs[|segs| - 1]] == segs;
    }
  }

  /** A rendered path ends with the last character of its last component. */
  lemma RenderLast(lead: nat, cs: seq<string>)
    requires cs != [] && cs[|cs| - 1] != []
    ensures Render(lead, cs)[|Render(lead, cs)| - 1] == cs[|cs| - 1][|cs[|cs| - 1]| - 1]
  {
    JoinSegsLast(cs);
  }

  // ----- the normalising fold -----

  lemma {:induction false} NormFoldNormal(acc: seq<string>, comps: seq<string>, absolute: bool)
    requires NormalComps(acc, absolute)
    requires forall i :: 0 <= i < |comps| ==> Sep !in comps[i]
    ensures NormalComps(NormFold(acc, comps, absolute), absolute)
    decreases |comps|
  {
    if comps != [] {
      var next := Push(acc, comps[0], absolute);
      assert NormalComps(next, absolute);
      NormFoldNormal(next, comps[1..], absolute);
    }
  }

  /** The fold leaves components that are already normal untouched. */
  lemma {:induction false} NormFoldOfNormal(acc: seq<string>, comps: seq<string>, absolute: bool)
    requires NormalComps(acc + comps, absolute)
    ensures NormFold(acc, comps, absolute) == acc + comps
    decreases |comps|
  {
    if comps != [] {
      assert (acc + comps)[|acc|] == comps[0];
      if comps[0] == ".." && acc != [] {
        assert (acc + comps)[|acc| - 1] == acc[|acc| - 1];
      }
      assert Push(acc, comps[0], absolute) == acc + [comps[0]];
      assert acc + [comps[0]] + comps[1..] == acc + comps;
      NormFoldOfNormal(acc + [comps[0]], comps[1..], absolute);
    }
  }

  lemma {:induction false} NormFoldSkipEmpty(n: nat, comps: seq<string>, absolute: bool)
    ensures NormFold([], Empties(n) + comps, absolute) == NormFold([], comps, absolute)
  {
    if n > 0 {
      var e := Empties(n) + comps;
      assert e != [] && e[0] == [];
      assert Push([], e[0], absolute) == [];
      assert NormFold([], e, absolute) == NormFold([], e[1..], absolute);
      assert e[1..] == Empties(n - 1) + comps;
      NormFoldSkipEmpty(n - 1, comps, absolute);
    } else {
      assert Empties(n) + comps == comps;
    }
  }

  lemma NormalAppendPlain(cs: seq<string>, ps: seq<string>, absolute: bool)
    requires NormalComps(cs, absolute)
    requires forall i :: 0 <= i < |ps| ==> Plain(ps[i])
    ensures NormalComps(cs + ps, absolute)
  {
    forall i | 0 <= i < |cs + ps|
      ensures (cs + ps)[i] != [] && (cs + ps)[i] != "." && Sep !in (cs + ps)[i]
      ensures (cs + ps)[i] == ".." ==> !absolute && forall j :: 0 <= j < i ==> (cs + ps)[j] == ".."
    {
      if i >= |cs| {
        assert (cs + ps)[i] == ps[i - |cs|];
      } else {
        assert (cs + ps)[i] == cs[i];
        assert forall j :: 0 <= j < i ==> (cs + ps)[j] == cs[j];
      }
    }
  }

  // ----- normpath -----

  lemma LeadOfRender(lead: nat, cs: seq<string>)
    requires lead <= 2 && NormalComps(cs, lead > 0)
    requires lead > 0 || cs != []
    ensures Lead(Slashes(lead) + JoinSegs(cs)) == lead
  {
    var p := Slashes(lead) + JoinSegs(cs);
    if cs != [] {
      JoinSegsFirst(cs);
      assert p[lead] == cs[0][0];
      assert cs[0][0] in cs[0];
    }
  }

  /** A rendered normal path is a fixed point of `normpath`. */
  lemma {:induction false} RenderNormal(lead: nat, cs: seq<string>)
    requires lead <= 2 && NormalComps(cs, lead > 0)
    ensures Normpath(Render(lead, cs)) == Render(lead, cs)
  {
    var p := Slashes(lead) + JoinSegs(cs);
    if p == [] {
      SplitDot();
    } else {
      LeadOfRender(lead, cs);
      SplitSlashes(lead, JoinSegs(cs));
      if cs == [] {
        NormFoldSkipEmpty(lead, [[]], lead > 0);
      } else {
        SplitJoin(cs);
        NormFoldSkipEmpty(lead, cs, lead > 0);
        NormFoldOfNormal([], cs, lead > 0);
        assert [] + cs == cs;
      }
    }
  }

  /** `normpath` is idempotent. */
  lemma NormpathIdempotent(p: string)
    ensures Normpath(Normpath(p)) == Normpath(p)
  {
    if p == [] {
      RenderNormal(0, []);
    } else {
      var lead := Lead(p);
      SplitPieces(p);
      NormFoldNormal([], Split(p), lead > 0);
      RenderNormal(lead, NormFold([], Split(p), lead > 0));
    }
  }

  lemma JoinSegsNoLeadingSep(ps: seq<string>)
    requires ps != [] && forall i :: 0 <= i < |ps| ==> Plain(ps[i])
    ensures JoinSegs(ps) != [] && JoinSegs(ps)[0] != Sep
  {
    JoinSegsFirst(ps);
    assert JoinSegs(ps)[0] in ps[0];
  }

  lemma JoinSegsNoTrailingSep(dir: seq<string>)
    requires dir != [] && dir[|dir| - 1] != [] && Sep !in dir[|dir| - 1]
    ensures JoinSegs(dir) != [] && JoinSegs(dir)[|JoinSegs(dir)| - 1] != Sep
  {
    JoinSegsLast(dir);
    assert JoinSegs(dir)[|JoinSegs(dir)| - 1] in dir[|dir| - 1];
  }

  /** Joining onto a root of one or two separators just appends. */
  lemma JoinOntoRoot(lead: nat, ps: seq<string>)
    requires 0 < lead <= 2
    requires ps != [] && forall i :: 0 <= i < |ps| ==> Plain(ps[i])
    ensures Join(Render(lead, []), JoinSegs(ps)) == Slashes(lead) + JoinSegs(ps)
  {
    JoinSegsNoLeadingSep(ps);
    assert Render(lead, []) == Slashes(lead);
  }

  /** Joining onto a normal directory with components inserts one separator. */
  lemma JoinOntoDir(lead: nat, dir: seq<string>, ps: seq<string>)
    requires lead <= 2 && NormalComps(dir, lead > 0) && dir != []
    requires ps != [] && forall i :: 0 <= i < |ps| ==> Plain(ps[i])
    ensures Join(Render(lead, dir), JoinSegs(ps)) == Slashes(lead) + JoinSegs(dir + ps)
  {
    var j := JoinSegs(dir);
    var b := JoinSegs(ps);
    assert Join(Render(lead, dir), b) == Slashes(lead) + j + [Sep] + b by {
      JoinSegsNoLeadingSep(ps);
      JoinSegsNoTrailingSep(dir);
    }
    JoinSegsAppend(dir, ps);
    Assoc4(Slashes(lead), j, [Sep], b);
  }

  lemma SplitDotJoin(ps: seq<string>)
    requires ps != [] && forall i :: 0 <= i < |ps| ==> Plain(ps[i])
    ensures Join(".", JoinSegs(ps)) == "." + [Sep] + JoinSegs(ps)
    ensures Split(Join(".", JoinSegs(ps))) == ["."] + ps
  {
    var b := JoinSegs(ps);
    JoinSegsNoLeadingSep(ps);
    SplitAroundSep(".", b);
    SplitDot();
    SplitJoin(ps);
  }

  lemma NormFoldDotPlain(ps: seq<string>)
    requires forall i :: 0 <= i < |ps| ==> Plain(ps[i])
    ensures NormFold([], ["."] + ps, false) == ps
  {
    assert (["."] + ps)[1..] == ps;
    NormalAppendPlain([], ps, false);
    assert [] + ps == ps;
    NormFoldOfNormal([], ps, false);
  }

  /** Joining onto `.` and normalising drops the `.`. */
  lemma JoinOntoDot(ps: seq<string>)
    requires ps != [] && forall i :: 0 <= i < |ps| ==> Plain(ps[i])
    ensures Normpath(Join(".", JoinSegs(ps))) == Render(0, ps)
  {
    var j := Join(".", JoinSegs(ps));
    SplitDotJoin(ps);
    assert j[0] == '.';
    NormFoldDotPlain(ps);
  }

  /**
   * Joining plain components onto a normal directory and normalising gives the
   * directory's components followed by the new ones.
   */
  lemma JoinRender(lead: nat, dir: seq<string>, ps: seq<string>)
    requires lead <= 2 && NormalComps(dir, lead > 0)
    requires ps != [] && forall i :: 0 <= i < |ps| ==> Plain(ps[i])
    ensures Normpath(Join(Render(lead, dir), JoinSegs(ps))) == Render(lead, dir + ps)
  {
    if lead == 0 && dir == [] {
      JoinOntoDot(ps);
      assert dir + ps == ps;
    } else if dir == [] {
      JoinRenderRoot(lead, ps);
      assert dir + ps == ps;
    } else {
      JoinRenderDir(lead, dir, ps);
    }
  }

  lemma JoinRenderRoot(lead: nat, ps: seq<string>)
    requires 0 < lead <= 2
    requires ps != [] && forall i :: 0 <= i < |ps| ==> Plain(ps[i])
    ensures Normpath(Join(Render(lead, []), JoinSegs(ps))) == Render(lead, ps)
  {
    JoinOntoRoot(lead, ps);
    JoinSegsNoLeadingSep(ps);
    assert Render(lead, ps) == Slashes(lead) + JoinSegs(ps);
    NormalAppendPlain([], ps, true);
    assert [] + ps == ps;
    RenderNormal(lead, ps);
  }

  lemma JoinRenderDir(lead: nat, dir: seq<string>, ps: seq<string>)
    requires lead <= 2 && NormalComps(dir, lead > 0) && dir != []
    requires ps != [] && forall i :: 0 <= i < |ps| ==> Plain(ps[i])
    ensures Normpath(Join(Render(lead, dir), JoinSegs(ps))) == Render(lead, dir + ps)
  {
    JoinOntoDir(lead, dir, ps);
    NormalAppendPlain(dir, ps, lead > 0);
    RenderNormal(lead, dir + ps);
  }

  lemma {:induction false} LastSepEndAfter(x: string, f: string)
    requires Sep !in f
    ensures LastSepEnd(x + [Sep] + f) == |x| + 1
  {
    if f != [] {
      var init := f[..|f| - 1];
      assert (x + [Sep] + f)[..|x + [Sep] + f| - 1] == x + [Sep] + init;
      LastSepEndAfter(x, init);
    }
  }

  lemma DirnameOfDotChild(f: string)
    requires Plain(f)
    ensures Dirname(Join(Render(0, []), f)) == Render(0, [])
  {
    assert Render(0, []) == ".";
    assert f[0] in f;
    assert Join(".", f) == "." + [Sep] + f;
    LastSepEndAfter(".", f);
    assert ("." + [Sep] + f)[..2] == "./";
    assert "./"[..1] == ".";
  }

  lemma DirnameOfRootChild(lead: nat, f: string)
    requires 0 < lead <= 2 && Plain(f)
    ensures Dirname(Join(Render(lead, []), f)) == Render(lead, [])
  {
    var s := Slashes(lead);
    assert Render(lead, []) == s;
    assert s[lead - 1] == Sep;
    assert f[0] in f;
    assert Join(s, f) == s + f;
    LastSepEndNone(s, f);
    assert (s + f)[..lead] == s;
    assert AllSep(s);
  }

  lemma RStripOne(d: string)
    requires d != [] && d[|d| - 1] != Sep
    ensures RStripSep(d + [Sep]) == d
  {
    assert (d + [Sep])[..|d|] == d;
  }

  /** `dirname` of `d/f`, where `f` holds no separator and `d` does not end in one, is `d`. */
  lemma DirnameAfterSep(d: string, f: string)
    requires d != [] && d[|d| - 1] != Sep && Sep !in f
    ensures Dirname(d + [Sep] + f) == d
  {
    var j := d + [Sep] + f;
    LastSepEndAfter(d, f);
    var head := j[..|d| + 1];
    assert head == d + [Sep];
    assert head[|d| - 1] == d[|d| - 1];
    RStripOne(d);
  }

  lemma RenderNoTrailingSep(lead: nat, dir: seq<string>)
    requires lead <= 2 && NormalComps(dir, lead > 0) && dir != []
    ensures Render(lead, dir) == Slashes(lead) + JoinSegs(dir)
    ensures Render(lead, dir)[|Render(lead, dir)| - 1] != Sep
  {
    var j := JoinSegs(dir);
    JoinSegsNoTrailingSep(dir);
    assert (Slashes(lead) + j)[|Slashes(lead) + j| - 1] == j[|j| - 1];
  }

  lemma DirnameOfDirChild(lead: nat, dir: seq<string>, f: string)
    requires lead <= 2 && NormalComps(dir, lead > 0) && dir != [] && Plain(f)
    ensures Dirname(Join(Render(lead, dir), f)) == Render(lead, dir)
  {
    var d := Render(lead, dir);
    RenderNoTrailingSep(lead, dir);
    assert f[0] != Sep by {
      assert f[0] in f;
    }
    assert Join(d, f) == d + [Sep] + f;
    DirnameAfterSep(d, f);
  }

  /** The directory of a file joined onto a normal directory is that directory. */
  lemma DirnameOfChild(lead: nat, dir: seq<string>, f: string)
    requires lead <= 2 && NormalComps(dir, lead > 0) && Plain(f)
    ensures Dirname(Join(Render(lead, dir), f)) == Render(lead, dir)
  {
    if lead == 0 && dir == [] {
      DirnameOfDotChild(f);
    } else if dir == [] {
      DirnameOfRootChild(lead, f);
    } else {
      DirnameOfDirChild(lead, dir, f);
    }
  }

  lemma {:induction false} LastSepEndNone(s: string, f: string)
    requires s != [] && s[|s| - 1] == Sep && Sep !in f
    ensures LastSepEnd(s + f) == |s|
  {
    if f != [] {
      var init := f[..|f| - 1];
      assert (s + f)[..|s + f| - 1] == s + init;
      LastSepEndNone(s, init);
    } else {
      assert s + f == s;
    }
  }
}
