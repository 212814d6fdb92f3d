/**
 * The handful of Python `str` operations the analyzer relies on, stated over
 * `string` (a sequence of `char`): `startswith`, `endswith`, `replace` of a
 * single character and `replace(pattern, '')` with a longer pattern.
 */
module Text {

  datatype Option<+T> = None | Some(value: T)

  /** Python's `s.startswith(prefix)`. */
  predicate StartsWith(s: string, prefix: string) {
    |prefix| <= |s| && s[..|prefix|] == prefix
  }

  /** Python's `s.endswith(suffix)`. */
  predicate EndsWith(s: string, suffix: string) {
    |suffix| <= |s| && s[|s| - |suffix|..] == suffix
  }

  /** True when `pat` occurs in `s` at some position (Python's `pat in s`). */
  predicate HasInfix(s: string, pat: string)
    decreases |s|
  {
    StartsWith(s, pat) || (s != [] && HasInfix(s[1..], pat))
  }

  /**
   * Python's `s.replace(a, b)` for single characters: every `a` becomes `b`,
   * everything else stays where it is.
   */
  function ReplaceChar(s: string, a: char, b: char): (r: string)
    ensures |r| == |s|
    ensures forall i :: 0 <= i < |s| ==> r[i] == (if s[i] == a then b else s[i])
  {
    if s == [] then [] else [if s[0] == a then b else s[0]] + ReplaceChar(s[1..], a, b)
  }

  /**
   * Python's `s.replace(pat, '')`: occurrences of `pat` are found from left to
   * right, without overlap, and every one of them is dropped.
   */
  function RemoveAll(s: string, pat: string): (r: string)
    requires pat != []
    ensures |r| <= |s|
    decreases |s|
  {
    if StartsWith(s, pat) then RemoveAll(s[|pat|..], pat)
    else if s == [] then []
    else [s[0]] + RemoveAll(s[1..], pat)
  }

  /** Replacing a character by itself changes nothing. */
  lemma {:induction false} ReplaceCharSame(s: string, c: char)
    ensures ReplaceChar(s, c, c) == s
  {
    if s != [] {
      ReplaceCharSame(s[1..], c);
    }
  }

  /** A string that lacks some character of `pat` cannot contain `pat`. */
  lemma {:induction false} NoInfixWithoutChar(s: string, pat: string, c: char)
    requires c in pat && c !in s
    ensures !HasInfix(s, pat)
    decreases |s|
  {
    if s != [] {
      NoInfixWithoutChar(s[1..], pat, c);
    }
  }

  /** Removing a pattern that does not occur leaves the string as it was. */
  lemma {:induction false} RemoveAbsent(s: string, pat: string)
    requires pat != [] && !HasInfix(s, pat)
    ensures RemoveAll(s, pat) == s
    decreases |s|
  {
    if s != [] {
      RemoveAbsent(s[1..], pat);
    }
  }

  /** A leading occurrence is removed, and so is every later one. */
  lemma RemoveLeading(pat: string, s: string)
    requires pat != []
    ensures RemoveAll(pat + s, pat) == RemoveAll(s, pat)
  {
    assert (pat + s)[..|pat|] == pat;
    assert (pat + s)[|pat|..] == s;
  }

  /** A string cannot start with `pat` once a character outside `pat` comes before its end. */
  lemma BarrierNotPrefix(a: string, c: char, z: string, pat: string)
    requires c !in pat && !StartsWith(a, pat)
    ensures !StartsWith(a + [c] + z, pat)
  {
    var s := a + [c] + z;
    if |pat| <= |a| {
      assert s[..|pat|] == a[..|pat|];
    } else if |pat| <= |s| {
      assert s[..|pat|][|a|] == c;
      assert pat[|a|] in pat;
    }
  }

  /**
   * A character that is not part of `pat` is a barrier: an occurrence-free
   * stretch before it is kept as it is, and removal resumes after it.
   */
  lemma {:induction false} RemoveBeforeBarrier(a: string, c: char, z: string, pat: string)
    requires pat != [] && c !in pat && !HasInfix(a, pat)
    ensures RemoveAll(a + [c] + z, pat) == a + [c] + RemoveAll(z, pat)
    decreases |a|
  {
    var s := a + [c] + z;
    BarrierNotPrefix(a, c, z, pat);
    if a == [] {
      assert s[1..] == z;
    } else {
      assert s[1..] == a[1..] + [c] + z;
      RemoveBeforeBarrier(a[1..], c, z, pat);
    }
  }
}
