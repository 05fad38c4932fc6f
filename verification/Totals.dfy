/** The sum of the values of a map. */
module Totals {
  import opened Primitives

  ghost function Pick(m: map<string, nat>): (k: string)
    requires m != map[]
    ensures k in m
  {
    var k :| k in m; k
  }

  ghost function Total(m: map<string, nat>): nat
    decreases |m|
  {
    if m == map[] then 0 else var k := Pick(m); m[k] + Total(m - {k})
  }

  lemma {:induction false} TotalWithout(m: map<string, nat>, k: string)
    requires k in m
    ensures Total(m) == m[k] + Total(m - {k})
    decreases |m|
  {
    var j := Pick(m);
    if j != k {
      TotalWithout(m - {j}, k);
      TotalWithout(m - {k}, j);
      assert m - {j} - {k} == m - {k} - {j};
    }
  }

  function At(m: map<string, nat>, k: string): nat {
    if k in m then m[k] else 0
  }

  lemma TotalUpdate(m: map<string, nat>, k: string, v: nat)
    ensures Total(m[k := v]) == Total(m) - At(m, k) + v
  {
    TotalWithout(m[k := v], k);
    if k in m {
      TotalWithout(m, k);
      assert m[k := v] - {k} == m - {k};
    } else {
      assert m[k := v] - {k} == m;
    }
  }

  lemma TotalBounds(m: map<string, nat>, j: string, k: string)
    ensures At(m, k) <= Total(m)
    ensures j != k ==> At(m, j) + At(m, k) <= Total(m)
  {
    if k in m {
      TotalWithout(m, k);
      if j in m && j != k {
        TotalWithout(m - {k}, j);
      }
    } else if j in m {
      TotalWithout(m, j);
    }
  }
}
