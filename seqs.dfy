// Facts about sequences without repeated elements, shared by the initial
// layout, the body invariant and the counting of free cells.

module Seqs {

  predicate Distinct<T(==)>(s: seq<T>)
  {
    forall i, j :: 0 <= i < j < |s| ==> s[i] != s[j]
  }

  lemma DistinctCons<T>(x: T, s: seq<T>)
    requires Distinct(s) && x !in s
    ensures Distinct([x] + s)
  {
  }

  /** Pigeonhole: a sequence of distinct values all drawn from b is no longer than b. */
  lemma {:induction false} DistinctWithin<T>(a: seq<T>, b: seq<T>)
    requires Distinct(a)
    requires forall v :: v in a ==> v in b
    ensures |a| <= |b|
  {
    if a != [] {
      assert a[0] in a;
      var k :| 0 <= k < |b| && b[k] == a[0];
      var rest := b[..k] + b[k + 1..];
      forall v | v in a[1..] ensures v in rest {
        var i :| 1 <= i < |a| && a[i] == v;
        assert v in a;
        var j :| 0 <= j < |b| && b[j] == v;
        assert j != k;
        if j < k { assert rest[j] == v; } else { assert rest[j - 1] == v; }
      }
      DistinctWithin(a[1..], rest);
    }
  }
}
