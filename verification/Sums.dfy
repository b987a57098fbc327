/** Sums over distinct keys. */
module Sums {
  function SumOver<K>(keys: seq<K>, f: K -> nat): nat
  {
    if keys == [] then 0 else f(keys[0]) + SumOver(keys[1..], f)
  }

  ghost predicate NoRepeat<K>(keys: seq<K>) { forall i, j :: 0 <= i < j < |keys| ==> keys[i] != keys[j] }

  /** Sums over the same keys differ by what one key differs by. */
  lemma {:induction false} SumStep<K>(keys: seq<K>, f: K -> nat, g: K -> nat, k: K, d: nat)
    requires NoRepeat(keys) && forall x :: x in keys ==> g(x) == f(x) + (if x == k then d else 0)
    ensures SumOver(keys, g) == SumOver(keys, f) + (if k in keys then d else 0)
  {
    if keys != [] {
      assert keys[0] !in keys[1..];
      SumStep(keys[1..], f, g, k, d);
    }
  }

  lemma {:induction false} SumAdds<K>(keys: seq<K>, f: K -> nat, g: K -> nat, h: K -> nat, total: K -> nat)
    requires forall x :: x in keys ==> total(x) == f(x) + g(x) + h(x)
    ensures SumOver(keys, total) == SumOver(keys, f) + SumOver(keys, g) + SumOver(keys, h)
  {
    if keys != [] { SumAdds(keys[1..], f, g, h, total); }
  }

  lemma {:induction false} SumZero<K>(keys: seq<K>, f: K -> nat)
    requires forall x :: x in keys ==> f(x) == 0
    ensures SumOver(keys, f) == 0
  {
    if keys != [] { SumZero(keys[1..], f); }
  }

  lemma {:induction false} SumIsZero<K>(keys: seq<K>, f: K -> nat)
    ensures SumOver(keys, f) == 0 <==> forall x :: x in keys ==> f(x) == 0
  {
    if keys != [] {
      SumIsZero(keys[1..], f);
      assert forall x :: x in keys <==> x == keys[0] || x in keys[1..];
    }
  }

  lemma {:induction false} SumSame<K>(keys: seq<K>, f: K -> nat, g: K -> nat)
    requires forall x :: x in keys ==> f(x) == g(x)
    ensures SumOver(keys, f) == SumOver(keys, g)
  {
    if keys != [] { SumSame(keys[1..], f, g); }
  }

  /** Sums of functions that agree everywhere but at one key. */
  lemma {:induction false} SumShift<K>(keys: seq<K>, f: K -> nat, g: K -> nat, k: K)
    requires NoRepeat(keys) && k in keys && forall x :: x in keys && x != k ==> f(x) == g(x)
    ensures SumOver(keys, g) + f(k) == SumOver(keys, f) + g(k)
  {
    if f(k) <= g(k) { SumStep(keys, f, g, k, g(k) - f(k)); } else { SumStep(keys, g, f, k, f(k) - g(k)); }
  }
}
