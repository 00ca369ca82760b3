/** Sums over finite sets, for totals over maps that the source iterates in no fixed order. */
module Sums {

  ghost function Sum<K>(keys: set<K>, f: K -> int): int {
    if keys == {} then 0
    else
      var k :| k in keys;
      f(k) + Sum(keys - {k}, f)
  }

  /** Any key may be taken out first. */
  lemma {:induction false} SumOut<K>(keys: set<K>, f: K -> int, x: K)
    requires x in keys
    ensures Sum(keys, f) == f(x) + Sum(keys - {x}, f)
    decreases |keys|
  {
    var k :| k in keys && Sum(keys, f) == f(k) + Sum(keys - {k}, f);
    if k != x {
      SumOut(keys - {k}, f, x);
      SumOut(keys - {x}, f, k);
      assert keys - {k} - {x} == keys - {x} - {k};
    }
  }

  lemma SumIn<K>(keys: set<K>, f: K -> int, x: K)
    requires x !in keys
    ensures Sum(keys + {x}, f) == f(x) + Sum(keys, f)
  {
    SumOut(keys + {x}, f, x);
    assert keys + {x} - {x} == keys;
  }

  lemma {:induction false} SumSame<K>(keys: set<K>, f: K -> int, g: K -> int)
    requires forall k :: k in keys ==> f(k) == g(k)
    ensures Sum(keys, f) == Sum(keys, g)
    decreases |keys|
  {
    if keys != {} {
      var k :| k in keys;
      SumOut(keys, f, k);
      SumOut(keys, g, k);
      SumSame(keys - {k}, f, g);
    }
  }

  /** Changing one term changes the sum by the difference. */
  lemma SumChange<K>(keys: set<K>, f: K -> int, g: K -> int, x: K)
    requires x in keys && forall k :: k in keys && k != x ==> f(k) == g(k)
    ensures Sum(keys, g) == Sum(keys, f) + g(x) - f(x)
  {
    SumOut(keys, f, x);
    SumOut(keys, g, x);
    SumSame(keys - {x}, f, g);
  }

  /** Keys with a zero term do not matter. */
  lemma {:induction false} SumSupport<K>(small: set<K>, large: set<K>, f: K -> int)
    requires small <= large && forall k :: k in large && k !in small ==> f(k) == 0
    ensures Sum(large, f) == Sum(small, f)
    decreases |large|
  {
    if small == large {
    } else {
      var k :| k in large && k !in small;
      SumOut(large, f, k);
      SumSupport(small, large - {k}, f);
    }
  }

  lemma {:induction false} SumNonNegative<K>(keys: set<K>, f: K -> int)
    requires forall k :: k in keys ==> f(k) >= 0
    ensures Sum(keys, f) >= 0
    ensures forall k :: k in keys ==> f(k) <= Sum(keys, f)
    decreases |keys|
  {
    if keys != {} {
      var k :| k in keys;
      SumOut(keys, f, k);
      SumNonNegative(keys - {k}, f);
    }
  }

  lemma {:induction false} SumSubset<K>(small: set<K>, large: set<K>, f: K -> int)
    requires small <= large && forall k :: k in large ==> f(k) >= 0
    ensures Sum(small, f) <= Sum(large, f)
    decreases |large|
  {
    if small != large {
      var k :| k in large && k !in small;
      SumOut(large, f, k);
      SumSubset(small, large - {k}, f);
    }
  }

  /** A list of the elements of a set, each once: one way to iterate it. */
  ghost predicate Enumerates<K(!new)>(order: seq<K>, keys: set<K>) {
    && (forall i, j :: 0 <= i < j < |order| ==> order[i] != order[j])
    && (forall k :: k in order <==> k in keys)
  }
}
