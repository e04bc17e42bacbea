/** The pieces of Go's `strings` package that the engine uses, on strings
    modelled as sequences of characters. */
module Strings {

  /** Index of the first `c` in `s` at or after `i`, or `|s|` when there is none. */
  function IndexFrom(s: string, c: char, i: nat): (j: nat)
    requires i <= |s|
    ensures i <= j <= |s|
    ensures j < |s| ==> s[j] == c
    decreases |s| - i
  {
    if i == |s| || s[i] == c then i else IndexFrom(s, c, i + 1)
  }

  /** IndexFrom skips no `c`: none occurs between `i` and the index found. */
  lemma {:induction false} IndexFromFirst(s: string, c: char, i: nat)
    requires i <= |s|
    ensures forall k :: i <= k < IndexFrom(s, c, i) ==> s[k] != c
    decreases |s| - i
  {
    if i < |s| && s[i] != c {
      IndexFromFirst(s, c, i + 1);
    }
  }

  /** The index of the first `c` at or after `i` is the one IndexFrom finds. */
  lemma {:induction false} IndexFromAt(s: string, c: char, i: nat, j: nat)
    requires i <= j <= |s| && (j < |s| ==> s[j] == c)
    requires forall k :: i <= k < j ==> s[k] != c
    ensures IndexFrom(s, c, i) == j
    decreases j - i
  {
    if i < j {
      IndexFromAt(s, c, i + 1, j);
    }
  }

  /** Number of occurrences of `c` in `s`. */
  function Count(s: string, c: char): nat
  {
    if s == [] then 0 else (if s[0] == c then 1 else 0) + Count(s[1..], c)
  }

  lemma {:induction false} CountAppend(a: string, b: string, c: char)
    ensures Count(a + b, c) == Count(a, c) + Count(b, c)
  {
    if a != [] {
      assert (a + b)[1..] == a[1..] + b;
      CountAppend(a[1..], b, c);
    } else {
      assert a + b == b;
    }
  }

  lemma {:induction false} CountAbsent(s: string, c: char)
    requires forall k :: 0 <= k < |s| ==> s[k] != c
    ensures Count(s, c) == 0
  {
    if s != [] {
      CountAbsent(s[1..], c);
    }
  }

  lemma {:induction false} CountPositive(s: string, c: char, i: nat)
    requires i < |s| && s[i] == c
    ensures Count(s, c) >= 1
  {
    if i > 0 {
      CountPositive(s[1..], c, i - 1);
    }
  }

  /** Two occurrences at different positions count twice. */
  lemma CountTwo(s: string, c: char, i: nat, j: nat)
    requires i < j < |s| && s[i] == c && s[j] == c
    ensures Count(s, c) >= 2
  {
    assert s == s[..j] + s[j..];
    CountAppend(s[..j], s[j..], c);
    CountPositive(s[..j], c, i);
    CountPositive(s[j..], c, 0);
  }

  /** Go's `strings.Split(s, string(sep))`: the pieces of `s` between the separators. */
  function Split(s: string, sep: char): (parts: seq<string>)
    ensures |parts| >= 1
    decreases |s|
  {
    var j := IndexFrom(s, sep, 0);
    if j == |s| then [s] else [s[..j]] + Split(s[j + 1..], sep)
  }

  /** Go's `strings.Join(parts, string(sep))`. */
  function Join(parts: seq<string>, sep: char): string
  {
    if parts == [] then ""
    else if |parts| == 1 then parts[0]
    else parts[0] + [sep] + Join(parts[1..], sep)
  }

  /** Split yields one piece more than there are separators. */
  lemma {:induction false} SplitCount(s: string, sep: char)
    ensures |Split(s, sep)| == Count(s, sep) + 1
    decreases |s|
  {
    var j := IndexFrom(s, sep, 0);
    IndexFromFirst(s, sep, 0);
    CountAbsent(s[..j], sep);
    if j == |s| {
      assert s[..j] == s;
    } else {
      assert s == s[..j] + ([sep] + s[j + 1..]);
      CountAppend(s[..j], [sep] + s[j + 1..], sep);
      assert ([sep] + s[j + 1..])[1..] == s[j + 1..];
      SplitCount(s[j + 1..], sep);
    }
  }

  /** No piece contains the separator, and joining the pieces gives back the input. */
  lemma {:induction false} SplitJoin(s: string, sep: char)
    ensures forall p :: p in Split(s, sep) ==> sep !in p
    ensures Join(Split(s, sep), sep) == s
    decreases |s|
  {
    var j := IndexFrom(s, sep, 0);
    IndexFromFirst(s, sep, 0);
    if j == |s| {
      assert s[..j] == s;
    } else {
      var rest := Split(s[j + 1..], sep);
      SplitJoin(s[j + 1..], sep);
      assert Split(s, sep) == [s[..j]] + rest;
      assert (Split(s, sep))[1..] == rest;
      assert s == s[..j] + [sep] + s[j + 1..];
    }
  }

  /** The strings of `ls` one after the other. */
  function Concat(ls: seq<string>): string
  {
    if ls == [] then "" else ls[0] + Concat(ls[1..])
  }

  lemma ConcatCons(l: string, ls: seq<string>)
    ensures Concat([l] + ls) == l + Concat(ls)
  {
    assert ([l] + ls)[1..] == ls;
  }

  /** Gluing a string in front of a concatenation followed by a fragment. */
  lemma ConcatGlue(l: string, ls: seq<string>, t: string, r: string)
    requires Concat(ls) + t == r
    ensures Concat([l] + ls) + t == l + r
  {
    ConcatCons(l, ls);
    assert (l + Concat(ls)) + t == l + (Concat(ls) + t);
  }

  /** Taking the first string off a concatenation followed by a fragment. */
  lemma ConcatFirst(ls: seq<string>, t: string)
    requires ls != []
    ensures ls == [ls[0]] + ls[1..]
    ensures Concat(ls) + t == ls[0] + (Concat(ls[1..]) + t)
  {
  }

  /** Two adjacent slices make one. */
  lemma SliceSplit(s: string, i: nat, j: nat)
    requires i <= j <= |s|
    ensures s[i..j] + s[j..] == s[i..]
  {
  }

  /** When `s` from `i` on reads `a` then `b`, each sits at its own position. */
  lemma SliceParts(s: string, i: nat, a: string, b: string)
    requires i <= |s| && s[i..] == a + b
    ensures i + |a| <= |s| && s[i..i + |a|] == a && s[i + |a|..] == b
  {
    assert forall m :: i <= m < |s| ==> s[m] == (a + b)[m - i];
  }

  lemma {:induction false} ConcatAppend(a: seq<string>, b: seq<string>)
    ensures Concat(a + b) == Concat(a) + Concat(b)
  {
    if a != [] {
      assert (a + b)[1..] == a[1..] + b;
      ConcatAppend(a[1..], b);
    } else {
      assert a + b == b;
    }
  }

  /** Go's `strings.HasSuffix`. */
  predicate HasSuffix(s: string, suffix: string)
  {
    |suffix| <= |s| && s[|s| - |suffix|..] == suffix
  }

  /** Go's `strings.TrimSuffix`: `s` without `suffix` when it ends with it, else `s`. */
  function TrimSuffix(s: string, suffix: string): (r: string)
    ensures HasSuffix(s, suffix) ==> r + suffix == s
    ensures !HasSuffix(s, suffix) ==> r == s
  {
    if HasSuffix(s, suffix) then s[..|s| - |suffix|] else s
  }

  /** Trimming a suffix that was appended gives back the original. */
  lemma TrimAppended(s: string, suffix: string)
    ensures TrimSuffix(s + suffix, suffix) == s
  {
    assert (s + suffix)[|s|..] == suffix;
  }
}
