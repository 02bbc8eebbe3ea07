/**
 * Sums of a function over a finite set of keys. Python's `sum(...)` over the
 * values of a dict has no fixed order; a set-indexed sum is the order-free
 * counterpart, and the lemmas below say how it changes when one key changes.
 */
module Sums {

  /** The sum of f(k) over every k in keys. */
  ghost function SumOver<K>(keys: set<K>, f: K -> int): int
    decreases keys
  {
    if keys == {} then 0
    else
      var k :| k in keys;
      f(k) + SumOver(keys - {k}, f)
  }

  /** Any key may be taken out first. */
  lemma {:induction false} SumOverRemove<K>(keys: set<K>, f: K -> int, k: K)
    requires k in keys
    ensures SumOver(keys, f) == f(k) + SumOver(keys - {k}, f)
    decreases |keys|
  {
    var j :| j in keys && SumOver(keys, f) == f(j) + SumOver(keys - {j}, f);
    if j != k {
      SumOverRemove(keys - {j}, f, k);
      SumOverRemove(keys - {k}, f, j);
      assert keys - {j} - {k} == keys - {k} - {j};
    }
  }

  /** The sum depends only on the values on the keys. */
  lemma {:induction false} SumOverExt<K>(keys: set<K>, f: K -> int, g: K -> int)
    requires forall j :: j in keys ==> f(j) == g(j)
    ensures SumOver(keys, f) == SumOver(keys, g)
    decreases |keys|
  {
    if keys != {} {
      var j :| j in keys;
      SumOverRemove(keys, f, j);
      SumOverRemove(keys, g, j);
      SumOverExt(keys - {j}, f, g);
    }
  }

  /**
   * Changing the value at one key (or adding that key) changes the sum by the
   * difference at that key only.
   */
  lemma SumOverPut<K>(keys: set<K>, f: K -> int, g: K -> int, k: K)
    requires forall j :: j in keys && j != k ==> f(j) == g(j)
    ensures SumOver(keys + {k}, g) == SumOver(keys, f) - (if k in keys then f(k) else 0) + g(k)
  {
    SumOverRemove(keys + {k}, g, k);
    SumOverExt(keys - {k}, f, g);
    assert keys + {k} - {k} == keys - {k};
    if k in keys {
      SumOverRemove(keys, f, k);
    } else {
      assert keys - {k} == keys;
    }
  }

  /** A sum of zeros is zero. */
  lemma {:induction false} SumOverZero<K>(keys: set<K>, f: K -> int)
    requires forall j :: j in keys ==> f(j) == 0
    ensures SumOver(keys, f) == 0
    decreases |keys|
  {
    if keys != {} {
      var j :| j in keys;
      SumOverRemove(keys, f, j);
      SumOverZero(keys - {j}, f);
    }
  }
}
