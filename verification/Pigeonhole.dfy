/** More steps than values: some value comes twice. */
module Pigeonhole {

  function Below(n: nat): (s: set<nat>)
    ensures forall k: nat :: k in s <==> k < n
  {
    if n == 0 then {} else Below(n - 1) + {n - 1}
  }

  lemma {:induction false} SomeValueTwice<T>(f: nat -> T, values: set<T>) returns (i: nat, j: nat)
    requires forall k: nat | k <= |values| :: f(k) in values
    ensures i < j <= |values| && f(i) == f(j)
    decreases |values|
  {
    var n := |values|;
    assert f(n) in values;
    if k: nat :| k < n && f(k) == f(n) {
      return k, n;
    }
    i, j := SomeValueTwice(f, values - {f(n)});
  }
}
