/**
 * Python's `sorted(...)` of a set of keys: the elements of the set in
 * increasing order, for a strict total order (code-point order on strings,
 * numeric order on integers).
 */
module Ordering {

  /** Python's `a < b` on strings: lexicographic order of code points. */
  predicate StrLt(a: string, b: string) {
    if a == [] then b != []
    else if b == [] then false
    else if a[0] != b[0] then a[0] < b[0]
    else StrLt(a[1..], b[1..])
  }

  predicate IntLt(a: int, b: int) {
    a < b
  }

  ghost predicate StrictTotalOrder<T(!new)>(lt: (T, T) -> bool) {
    && (forall a :: !lt(a, a))
    && (forall a, b, c :: lt(a, b) && lt(b, c) ==> lt(a, c))
    && (forall a, b :: a != b ==> lt(a, b) || lt(b, a))
  }

  lemma {:induction false} StrLtIrreflexive(a: string)
    ensures !StrLt(a, a)
  {
    if a != [] {
      StrLtIrreflexive(a[1..]);
    }
  }

  lemma {:induction false} StrLtTransitive(a: string, b: string, c: string)
    requires StrLt(a, b) && StrLt(b, c)
    ensures StrLt(a, c)
  {
    if a != [] && b != [] && c != [] && a[0] == b[0] && b[0] == c[0] {
      StrLtTransitive(a[1..], b[1..], c[1..]);
    }
  }

  lemma {:induction false} StrLtTotal(a: string, b: string)
    requires a != b
    ensures StrLt(a, b) || StrLt(b, a)
  {
    if a != [] && b != [] && a[0] == b[0] {
      assert a == [a[0]] + a[1..] && b == [b[0]] + b[1..];
      StrLtTotal(a[1..], b[1..]);
    }
  }

  /** Python's string order is a strict total order. */
  lemma StrLtIsStrictTotalOrder()
    ensures StrictTotalOrder(StrLt)
  {
    forall a: string ensures !StrLt(a, a) {
      StrLtIrreflexive(a);
    }
    forall a: string, b: string, c: string | StrLt(a, b) && StrLt(b, c) ensures StrLt(a, c) {
      StrLtTransitive(a, b, c);
    }
    forall a: string, b: string | a != b ensures StrLt(a, b) || StrLt(b, a) {
      StrLtTotal(a, b);
    }
  }

  lemma IntLtIsStrictTotalOrder()
    ensures StrictTotalOrder(IntLt)
  {
  }

  predicate IsLeast<T(!new)>(m: T, s: set<T>, lt: (T, T) -> bool) {
    m in s && forall x :: x in s && x != m ==> lt(m, x)
  }

  lemma {:induction false} LeastExists<T(!new)>(s: set<T>, lt: (T, T) -> bool)
    requires StrictTotalOrder(lt)
    requires s != {}
    ensures exists m :: IsLeast(m, s, lt)
    decreases |s|
  {
    var x :| x in s;
    if s - {x} == {} {
      assert s == {x};
      assert IsLeast(x, s, lt);
    } else {
      LeastExists(s - {x}, lt);
      var m :| IsLeast(m, s - {x}, lt);
      if lt(m, x) {
        assert IsLeast(m, s, lt);
      } else {
        assert IsLeast(x, s, lt);
      }
    }
  }

  ghost predicate Increasing<T>(r: seq<T>, lt: (T, T) -> bool) {
    forall i, j :: 0 <= i < j < |r| ==> lt(r[i], r[j])
  }

  /**
   * The elements of `s` listed in increasing order: exactly the members of
   * `s`, each once, strictly increasing under `lt`.
   */
  function Sorted<T(==,!new)>(s: set<T>, lt: (T, T) -> bool): (r: seq<T>)
    requires StrictTotalOrder(lt)
    ensures forall x :: x in r <==> x in s
    ensures Increasing(r, lt)
    ensures |r| == |s|
    decreases |s|
  {
    if s == {} then []
    else
      LeastExists(s, lt);
      var m :| IsLeast(m, s, lt);
      var rest := Sorted(s - {m}, lt);
      [m] + rest
  }
}
