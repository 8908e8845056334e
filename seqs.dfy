/** Order-preserving selection from a sequence, as list comprehensions with a condition do. */
module Seqs {

  /** The elements of `s` that satisfy `p`, in their order in `s`. */
  function Filter<T>(s: seq<T>, p: T -> bool): (r: seq<T>)
    ensures |r| <= |s|
    ensures forall i :: 0 <= i < |r| ==> r[i] in s && p(r[i])
  {
    if s == [] then []
    else Filter(s[..|s| - 1], p) + (if p(s[|s| - 1]) then [s[|s| - 1]] else [])
  }

  /** Every element of `s` that satisfies `p` is selected. */
  lemma {:induction false} FilterKeeps<T>(s: seq<T>, p: T -> bool, k: nat)
    requires k < |s| && p(s[k])
    ensures s[k] in Filter(s, p)
  {
    if k < |s| - 1 {
      FilterKeeps(s[..|s| - 1], p, k);
    }
  }

  /** Two conditions that agree on every element select the same elements. */
  lemma {:induction false} FilterAgree<T>(s: seq<T>, p: T -> bool, q: T -> bool)
    requires forall i :: 0 <= i < |s| ==> p(s[i]) == q(s[i])
    ensures Filter(s, p) == Filter(s, q)
  {
    if s != [] {
      FilterAgree(s[..|s| - 1], p, q);
    }
  }

  ghost predicate Distinct<T>(s: seq<T>) {
    forall i, j :: 0 <= i < j < |s| ==> s[i] != s[j]
  }

  /** Selecting from `[x] + s` looks at `x` first. */
  lemma {:induction false} FilterCons<T>(x: T, s: seq<T>, p: T -> bool)
    ensures Filter([x] + s, p) == (if p(x) then [x] else []) + Filter(s, p)
  {
    if s == [] {
      assert [x] + s == [x];
      assert [x][..0] == [];
    } else {
      var t := [x] + s;
      assert t[..|t| - 1] == [x] + s[..|s| - 1];
      assert t[|t| - 1] == s[|s| - 1];
      FilterCons(x, s[..|s| - 1], p);
    }
  }

  /** Selection keeps the relative order of the elements it keeps. */
  lemma {:induction false} FilterOrder<T>(s: seq<T>, p: T -> bool, a: nat, c: nat)
    requires a < c < |Filter(s, p)|
    ensures exists i, j :: 0 <= i < j < |s| && Filter(s, p)[a] == s[i] && Filter(s, p)[c] == s[j]
  {
    var prefix := s[..|s| - 1];
    var f := Filter(s, p);
    var fp := Filter(prefix, p);
    if c < |fp| {
      FilterOrder(prefix, p, a, c);
      var i, j :| 0 <= i < j < |prefix| && fp[a] == prefix[i] && fp[c] == prefix[j];
      assert f[a] == s[i] && f[c] == s[j];
    } else {
      assert f[c] == s[|s| - 1];
      assert f[a] == fp[a] && fp[a] in prefix;
      var i :| 0 <= i < |prefix| && prefix[i] == fp[a];
      assert f[a] == s[i];
    }
  }

  /** Selecting from a sequence without repetitions gives one without repetitions. */
  lemma FilterDistinct<T>(s: seq<T>, p: T -> bool)
    requires Distinct(s)
    ensures Distinct(Filter(s, p))
  {
    var f := Filter(s, p);
    forall a, c | 0 <= a < c < |f| ensures f[a] != f[c] {
      FilterOrder(s, p, a, c);
    }
  }
}
