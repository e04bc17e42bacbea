/** Go's `path.Base` and `path.Ext`, which operate on slash-separated paths. */
module GoPath {
  import opened Strings

  /** `p` without its trailing slashes. */
  function StripTrailingSlashes(p: string): (q: string)
    ensures |q| <= |p| && q == p[..|q|]
    ensures q == [] || q[|q| - 1] != '/'
    decreases |p|
  {
    if p != [] && p[|p| - 1] == '/' then StripTrailingSlashes(p[..|p| - 1]) else p
  }

  /** Index of the last `c` in `s`, or -1 when there is none (Go's `strings.LastIndex`). */
  function LastIndex(s: string, c: char): (i: int)
    ensures -1 <= i < |s|
    ensures i >= 0 ==> s[i] == c
    ensures forall k :: i < k < |s| ==> s[k] != c
    decreases |s|
  {
    if s == [] then -1
    else if s[|s| - 1] == c then |s| - 1
    else LastIndex(s[..|s| - 1], c)
  }

  /** Go's `path.Base`: the last element of `p` once trailing slashes are dropped;
      "." for the empty path and "/" for a path made only of slashes. */
  function Base(p: string): (b: string)
    ensures b != ""
    ensures b == "/" || '/' !in b
  {
    if p == "" then "."
    else
      var q := StripTrailingSlashes(p);
      var last := q[LastIndex(q, '/') + 1..];
      if last == "" then "/" else last
  }

  /** Go's loop in `path.Ext`: scanning back from index `i`, the index of the
      first '.' met before any '/', or -1. */
  function ExtStart(p: string, i: int): (k: int)
    requires -1 <= i < |p|
    ensures -1 <= k <= i
    ensures k >= 0 ==> p[k] == '.' && forall m :: k < m <= i ==> p[m] != '.' && p[m] != '/'
    decreases i + 1
  {
    if i < 0 || p[i] == '/' then -1
    else if p[i] == '.' then i
    else ExtStart(p, i - 1)
  }

  /** Go's `path.Ext`: the suffix of `p` that starts at the last '.' of its final
      slash-separated element, or "" when that element has no '.'. */
  function Ext(p: string): (e: string)
    ensures e == "" || (e[0] == '.' && HasSuffix(p, e))
    ensures forall m :: 0 < m < |e| ==> e[m] != '.' && e[m] != '/'
    ensures p != [] && p[|p| - 1] == '/' ==> e == ""
  {
    var k := ExtStart(p, |p| - 1);
    if k < 0 then "" else p[k..]
  }

  /** Base is the final element: a suffix of the path without its trailing
      slashes, which is either that whole path or starts right after a '/'. */
  lemma BaseIsLastElement(p: string)
    requires p != "" && Base(p) != "/"
    ensures var q := StripTrailingSlashes(p);
      && HasSuffix(q, Base(p))
      && (|Base(p)| == |q| || q[|q| - |Base(p)| - 1] == '/')
  {
    var q := StripTrailingSlashes(p);
    AfterLastIndex(q, '/');
  }

  /** What follows the last `c` of `s` ends `s`, and is all of `s` or follows a `c`. */
  lemma AfterLastIndex(s: string, c: char)
    ensures var b := s[LastIndex(s, c) + 1..];
      && HasSuffix(s, b) && (|b| == |s| || s[|s| - |b| - 1] == c)
  {
  }

  /** A non-empty path without '/' is its own base. */
  lemma BaseOfPlain(p: string)
    requires p != "" && forall k :: 0 <= k < |p| ==> p[k] != '/'
    ensures Base(p) == p
  {
    assert StripTrailingSlashes(p) == p;
    assert LastIndex(p, '/') == -1;
  }

  /** The root path is its own base and has no extension. */
  lemma BaseOfRoot()
    ensures Base("/") == "/" && Ext("/") == ""
  {
    assert StripTrailingSlashes("/") == "" by {
      assert "/"[..0] == "";
    }
    assert LastIndex("", '/') == -1;
  }

  /** A path without '.' has no extension. */
  lemma ExtOfDotless(p: string)
    requires forall m :: 0 <= m < |p| ==> p[m] != '.'
    ensures Ext(p) == ""
  {
  }

  /** Unless the path ends in '/', its extension is a suffix of its base. */
  lemma ExtOfBase(p: string)
    requires p != "" && p[|p| - 1] != '/'
    ensures HasSuffix(Base(p), Ext(p))
  {
    assert StripTrailingSlashes(p) == p;
    var i := LastIndex(p, '/');
    var k := ExtStart(p, |p| - 1);
    assert Base(p) == p[i + 1..];
    if k >= 0 {
      assert i < 0 || p[i] == '/';
      var b := p[i + 1..];
      assert b[|b| - (|p| - k)..] == p[k..];
    }
  }

  /** The last '/' of a path is the one followed by no other. */
  lemma LastIndexAt(s: string, c: char, i: nat)
    requires i < |s| && s[i] == c && c !in s[i + 1..]
    ensures LastIndex(s, c) == i
  {
    forall m | i < m < |s|
      ensures s[m] != c
    {
      assert s[m] == s[i + 1..][m - i - 1];
    }
  }

  /** The base of `dir/name` is `name`. */
  lemma BaseOfJoin(dir: string, name: string)
    requires name != "" && '/' !in name
    ensures Base(dir + "/" + name) == name
  {
    var p := dir + "/" + name;
    assert StripTrailingSlashes(p) == p;
    assert p[|dir| + 1..] == name;
    LastIndexAt(p, '/', |dir|);
  }

  /** The base of `dir/name/` is `name` too: trailing slashes are dropped. */
  lemma BaseOfJoinSlash(dir: string, name: string)
    requires name != "" && '/' !in name
    ensures Base(dir + "/" + name + "/") == name
  {
    var q := dir + "/" + name;
    var p := q + "/";
    assert p[..|p| - 1] == q;
    assert StripTrailingSlashes(p) == StripTrailingSlashes(q) == q;
    assert q[|dir| + 1..] == name;
    LastIndexAt(q, '/', |dir|);
  }

  /** The scan of `path.Ext` stops at the last '.' when no '/' follows it. */
  lemma {:induction false} ExtStartFinds(p: string, i: int, j: nat)
    requires j <= i < |p| && p[j] == '.'
    requires forall m :: j < m <= i ==> p[m] != '.' && p[m] != '/'
    ensures ExtStart(p, i) == j
    decreases i - j
  {
    if i > j {
      ExtStartFinds(p, i - 1, j);
    }
  }

  /** The extension of `stem.suffix`, when `suffix` has no '.' and no '/', is ".suffix". */
  lemma ExtOfJoin(stem: string, suffix: string)
    requires '.' !in suffix && '/' !in suffix
    ensures Ext(stem + "." + suffix) == "." + suffix
  {
    var p := stem + "." + suffix;
    forall m | |stem| < m <= |p| - 1
      ensures p[m] != '.' && p[m] != '/'
    {
      assert p[m] == suffix[m - |stem| - 1];
    }
    ExtStartFinds(p, |p| - 1, |stem|);
    assert p[|stem|..] == "." + suffix;
  }
}
