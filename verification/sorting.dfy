/**
 * Ordering a finite set along a strict total order. The source sorts
 * `allPrefixes()` and attribute keys with Swift's `sorted`; the model
 * uses this one definition for both, and for the deterministic choice
 * among the keys of a dictionary whose iteration order Swift leaves open.
 */
module Sorting {

  ghost predicate StrictTotal<T(!new)>(lt: (T, T) -> bool)
  {
    && (forall a :: !lt(a, a))
    && (forall a, b, c :: lt(a, b) && lt(b, c) ==> lt(a, c))
    && (forall a, b :: a != b ==> lt(a, b) || lt(b, a))
  }

  /** `m` is the least element of `s`. */
  predicate IsLeast<T>(m: T, s: set<T>, lt: (T, T) -> bool)
  {
    m in s && forall y | y in s && y != m :: lt(m, y)
  }

  lemma LeastExists<T(!new)>(s: set<T>, lt: (T, T) -> bool) returns (m: T)
    requires StrictTotal(lt) && s != {}
    ensures IsLeast(m, s, lt)
    decreases |s|
  {
    var x :| x in s;
    if s == {x} {
      m := x;
    } else {
      var m' := LeastExists(s - {x}, lt);
      if lt(x, m') {
        m := x;
        forall y | y in s && y != x ensures lt(x, y) {
          if y != m' { assert lt(m', y); }
        }
      } else {
        m := m';
        assert lt(m', x);
      }
    }
  }

  lemma HasLeast<T(!new)>(s: set<T>, lt: (T, T) -> bool)
    requires StrictTotal(lt) && s != {}
    ensures exists m :: IsLeast(m, s, lt)
  {
    var m := LeastExists(s, lt);
  }

  /** The least element of a non-empty set; unique because the order is total. */
  function Least<T(!new)>(s: set<T>, lt: (T, T) -> bool): (m: T)
    requires StrictTotal(lt) && s != {}
    ensures IsLeast(m, s, lt)
  {
    HasLeast(s, lt);
    var m :| IsLeast(m, s, lt); m
  }

  /** The elements of `s`, each once, in increasing order. */
  function SortSet<T(!new)>(s: set<T>, lt: (T, T) -> bool): (r: seq<T>)
    requires StrictTotal(lt)
    ensures |r| == |s|
    ensures forall i :: 0 <= i < |r| ==> r[i] in s
    ensures forall x :: x in s ==> x in r
    ensures forall i, j :: 0 <= i < j < |r| ==> lt(r[i], r[j])
    decreases |s|
  {
    if s == {} then []
    else
      var m := Least(s, lt);
      var rest := SortSet(s - {m}, lt);
      assert forall j :: 0 <= j < |rest| ==> lt(m, rest[j]);
      [m] + rest
  }
}
