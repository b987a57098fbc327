/** Positions of an open-addressed table: the way from a home cell forward, wrapping at the
    end of the table. */
module Probing {
  /** The position that `hash & (capacity - 1)` names; capacities are powers of two. */
  function Home(hash: nat, cap: nat): (p: nat)
    ensures cap > 0 ==> p < cap
  {
    if cap == 0 then 0 else hash % cap
  }

  ghost predicate PowerOfTwo(n: nat) { n == 1 || (n > 1 && n % 2 == 0 && PowerOfTwo(n / 2)) }

  /** The bits that two numbers share. */
  function BitAnd(a: nat, b: nat): nat
  {
    if a == 0 || b == 0 then 0 else 2 * BitAnd(a / 2, b / 2) + (a % 2) * (b % 2)
  }

  /** The home cell is the one that the mask names. */
  lemma {:induction false} MaskIsHome(hash: nat, cap: nat)
    requires PowerOfTwo(cap)
    ensures BitAnd(hash, cap - 1) == Home(hash, cap)
    decreases cap
  {
    if cap > 1 {
      var c := cap / 2;
      MaskIsHome(hash / 2, c);
      assert (cap - 1) / 2 == c - 1 && (cap - 1) % 2 == 1;
      HalfRemainder(hash, c);
    }
  }

  lemma HalfRemainder(h: nat, c: nat)
    requires c > 0
    ensures h % (2 * c) == 2 * (h / 2 % c) + h % 2
  {
    var q := h / 2;
    assert q == c * (q / c) + q % c;
    assert h == 2 * c * (q / c) + (2 * (q % c) + h % 2);
    OneRemainder(h, 2 * c, q / c, 2 * (q % c) + h % 2);
  }

  lemma OneRemainder(a: nat, n: nat, k: nat, r: nat)
    requires a == n * k + r && r < n
    ensures a % n == r
  {
    var d := k - a / n;
    assert a == n * (a / n) + a % n;
    assert n * d == n * k - n * (a / n);
    assert d >= 1 ==> n * d >= n;
    assert d <= -1 ==> n * d <= 0 - n;
  }

  function Next(p: nat, cap: nat): nat { if p + 1 >= cap then 0 else p + 1 }

  /** `x` lies on the way from `a` forward to `b`, both ends included. */
  predicate Between(a: int, x: int, b: int) { if a <= b then a <= x <= b else x >= a || x <= b }

  /** `x` lies strictly after `a` on the way to `b`. */
  predicate After(a: int, x: int, b: int) { a != b && x != a && Between(a, x, b) }

  ghost function Range(n: nat): (r: set<int>)
    ensures |r| == n && forall p :: p in r <==> 0 <= p < n
  {
    if n == 0 then {} else Range(n - 1) + {n - 1}
  }

  /** `q` is one of the first `n` cells on the way from `home`. */
  predicate Passed(home: nat, n: nat, q: int, cap: nat)
  {
    home <= q < home + n || home <= q + cap < home + n
  }

  /** The cell of the `i`-th probe. */
  function ProbeAt(home: nat, i: nat, cap: nat): nat { if home + i >= cap then home + i - cap else home + i }

  lemma PassedNext(home: nat, i: nat, ix: nat, cap: nat)
    requires home < cap && i < cap && ix == if home + i >= cap then home + i - cap else home + i
    ensures forall q :: 0 <= q < cap && Passed(home, i + 1, q, cap) ==> q == ix || Passed(home, i, q, cap)
  {
  }
}
