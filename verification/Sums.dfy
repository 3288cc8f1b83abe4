/** Sums over finite sets and sequences, independent of the order of summation. */
module Sums {

  ghost function SumOver(keys: set<string>, f: string -> int): (n: int) {
    if keys == {} then 0
    else
      var k :| k in keys;
      f(k) + SumOver(keys - {k}, f)
  }

  /** Any element can be taken out first, so the order in which a map is ranged over does not matter. */
  lemma {:induction false} SumRemove(keys: set<string>, x: string, f: string -> int)
    requires x in keys
    ensures SumOver(keys, f) == f(x) + SumOver(keys - {x}, f)
    decreases |keys|
  {
    var k :| k in keys && SumOver(keys, f) == f(k) + SumOver(keys - {k}, f);
    if k != x {
      SumRemove(keys - {k}, x, f);
      SumRemove(keys - {x}, k, f);
      assert keys - {k} - {x} == keys - {x} - {k};
    }
  }

  lemma {:induction false} SumSame(keys: set<string>, f: string -> int, g: string -> int)
    requires forall k :: k in keys ==> f(k) == g(k)
    ensures SumOver(keys, f) == SumOver(keys, g)
  {
    if keys != {} {
      var k :| k in keys;
      SumRemove(keys, k, f);
      SumRemove(keys, k, g);
      SumSame(keys - {k}, f, g);
    }
  }
}
