/** Facts about numbers, sequences and sets. */
module Collections {
  predicate Distinct<T(==)>(x: seq<T>) {
    forall i, j :: 0 <= i < j < |x| ==> x[i] != x[j]
  }

  lemma {:induction false} SubsetSize<T>(a: set<T>, b: set<T>)
    requires a <= b
    ensures |a| <= |b|
  {
    if a != {} {
      var x :| x in a;
      SubsetSize(a - {x}, b - {x});
    }
  }

  /** A sequence that lists the elements of a set, each once. */
  lemma {:induction false} DistinctSize<T>(x: seq<T>, s: set<T>)
    requires Distinct(x) && forall y :: y in x <==> y in s
    ensures |x| == |s|
  {
    if x == [] {
      assert s == {};
    } else {
      assert x == [x[0]] + x[1..];
      assert x[0] in s && x[0] !in x[1..];
      DistinctSize(x[1..], s - {x[0]});
    }
  }

  ghost function Range(lo: nat, hi: nat): (r: set<nat>)
    requires lo <= hi
    ensures |r| == hi - lo && forall i :: i in r <==> lo <= i < hi
    decreases hi - lo
  {
    if lo == hi then {} else Range(lo, hi - 1) + {hi - 1}
  }

  /** The least power of two that is at least `x`, starting the search at `p`. */
  function NextPow2(x: nat, p: nat): (r: nat)
    requires p > 0
    ensures r >= x && r >= p && (r == p || r < 2 * x)
    decreases if p < x then x - p else 0
  {
    if p >= x then p else NextPow2(x, 2 * p)
  }
}
