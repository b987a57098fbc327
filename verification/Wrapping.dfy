/** Machine words: sums and differences that wrap, and sequences taken apart. */
module Wrapping {
  const TWO31 := 0x8000_0000
  const TWO32 := 0x1_0000_0000
  const TWO64 := 0x1_0000_0000_0000_0000

  lemma WrapShift(q: int, x: nat)
    ensures (TWO64 * q + x) % TWO64 == x % TWO64 <= x
  {
  }

  /** Adding to a wrapped value or to the value itself comes to the same. */
  lemma WrapAdd(p: nat, d: nat)
    ensures (p + d) % TWO64 == (p % TWO64 + d) % TWO64 <= p % TWO64 + d
  {
    assert p + d == TWO64 * (p / TWO64) + (p % TWO64 + d);
    WrapShift(p / TWO64, p % TWO64 + d);
  }

  lemma WrapSub(p: nat, d: nat)
    requires d <= p % TWO64
    ensures p >= d && (p - d) % TWO64 == p % TWO64 - d
  {
    assert p - d == TWO64 * (p / TWO64) + (p % TWO64 - d);
    WrapShift(p / TWO64, p % TWO64 - d);
  }

  lemma Regroup<T>(a: seq<T>, b: seq<T>, c: seq<T>)
    ensures (a + b) + c == a + (b + c)
  {
  }

  lemma SliceOfSlice<T>(xs: seq<T>, a: nat, b: nat)
    requires a + b <= |xs|
    ensures xs[a..][b..] == xs[a + b..]
  {
  }

  lemma AppendToSlice<T>(xs: seq<T>, a: nat, x: T)
    requires a <= |xs|
    ensures xs[a..] + [x] == (xs + [x])[a..]
  {
  }
}
