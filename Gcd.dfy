/** Euclid's algorithm as `Converter.gcd(_:_:)` and `Converter.gcd(values:)` run it,
    on Swift's truncating remainder. */
module Gcd {

  function Abs(x: int): nat
  {
    if x < 0 then -x else x
  }

  /** `d` divides `n`: `n` is an integer multiple of `d`. */
  ghost predicate Divides(d: int, n: int)
  {
    exists k :: n == d * k
  }

  /** `d` divides every entry of `values`. */
  ghost predicate CommonDivisor(d: int, values: seq<int>)
  {
    forall i :: 0 <= i < |values| ==> Divides(d, values[i])
  }

  predicate AllNonZero(values: seq<int>)
  {
    forall i :: 0 <= i < |values| ==> values[i] != 0
  }

  predicate AllPositive(values: seq<int>)
  {
    forall i :: 0 <= i < |values| ==> values[i] > 0
  }

  /** Swift's `a % b` on `Int`: the remainder of the division truncated toward
      zero, so it takes the sign of the dividend (Dafny's own `%` is Euclidean
      and never negative). It is smaller than the divisor in magnitude and
      differs from the dividend by a multiple of the divisor. */
  function Rem(a: int, b: int): (r: int)
    requires b != 0
    ensures Abs(r) < Abs(b)
    ensures a >= 0 ==> r >= 0
    ensures a < 0 ==> r <= 0
    ensures Divides(b, a - r)
  {
    if a >= 0 then
      assert a - a % b == b * (a / b);
      a % b
    else
      assert a + (-a) % b == b * -((-a) / b);
      -((-a) % b)
  }

  lemma {:induction false} DividesCombination(d: int, x: int, y: int, q: int)
    requires Divides(d, x) && Divides(d, y)
    ensures Divides(d, x + y * q)
  {
    var k1 :| x == d * k1;
    var k2 :| y == d * k2;
    assert x + y * q == d * (k1 + k2 * q);
  }

  lemma {:induction false} DividesTransitive(d: int, e: int, n: int)
    requires Divides(d, e) && Divides(e, n)
    ensures Divides(d, n)
  {
    var k1 :| e == d * k1;
    var k2 :| n == e * k2;
    assert n == d * (k1 * k2);
  }

  lemma ProductAtLeastFactor(x: nat, y: nat)
    requires y >= 1
    ensures x * y >= x
  {
    assert x * y == x * (y - 1) + x;
  }

  /** A divisor of a nonzero number is no larger than it in magnitude. */
  lemma {:induction false} DividesBound(d: int, n: int)
    requires Divides(d, n) && n != 0
    ensures Abs(d) <= Abs(n)
  {
    var k :| n == d * k;
    assert Abs(n) == Abs(d) * Abs(k) by {
      if d < 0 && k < 0 {
        assert n == (-d) * (-k);
      } else if d < 0 {
        assert -n == (-d) * k;
      } else if k < 0 {
        assert -n == d * (-k);
      }
    }
    ProductAtLeastFactor(Abs(d), Abs(k));
  }

  /** One step of Euclid's loop keeps the set of common divisors. */
  lemma {:induction false} RemKeepsCommonDivisors(a: int, b: int, d: int)
    requires b != 0
    ensures Divides(d, a) && Divides(d, b) <==> Divides(d, b) && Divides(d, Rem(a, b))
  {
    var r := Rem(a, b);
    var q :| a - r == b * q;
    if Divides(d, a) && Divides(d, b) {
      DividesCombination(d, a, b, -q);
      assert a + b * -q == r;
    }
    if Divides(d, b) && Divides(d, r) {
      DividesCombination(d, r, b, q);
      assert r + b * q == a;
    }
  }

  /** The value `gcd(a, b)` returns: Euclid's algorithm on Swift's remainder.
      It is never zero, since the loop only returns a divisor it has checked. */
  function GcdOf(a: int, b: int): (g: int)
    requires b != 0
    ensures g != 0
    decreases Abs(b)
  {
    var r := Rem(a, b);
    if r == 0 then b else GcdOf(b, r)
  }

  /** `GcdOf(a, b)` is a common divisor of `a` and `b`, and every common divisor divides it. */
  lemma {:induction false} GcdOfIsGcd(a: int, b: int)
    requires b != 0
    ensures Divides(GcdOf(a, b), a) && Divides(GcdOf(a, b), b)
    ensures forall d :: Divides(d, a) && Divides(d, b) ==> Divides(d, GcdOf(a, b))
    decreases Abs(b)
  {
    var r := Rem(a, b);
    if r == 0 {
      assert b == b * 1;
    } else {
      GcdOfIsGcd(b, r);
      RemKeepsCommonDivisors(a, b, GcdOf(b, r));
      forall d | Divides(d, a) && Divides(d, b)
        ensures Divides(d, GcdOf(a, b))
      {
        RemKeepsCommonDivisors(a, b, d);
      }
    }
  }

  /** No common divisor of `a` and `b` is larger in magnitude than `GcdOf(a, b)`. */
  lemma GcdOfIsGreatest(a: int, b: int, d: int)
    requires b != 0
    requires Divides(d, a) && Divides(d, b)
    ensures Abs(d) <= Abs(GcdOf(a, b))
  {
    GcdOfIsGcd(a, b);
    DividesBound(d, GcdOf(a, b));
  }

  /** For a non-negative `a` and a positive `b` every remainder is non-negative,
      so the result is positive. */
  lemma {:induction false} GcdOfPositive(a: int, b: int)
    requires a >= 0 && b > 0
    ensures GcdOf(a, b) > 0
    decreases b
  {
    var r := Rem(a, b);
    if r != 0 {
      GcdOfPositive(b, r);
    }
  }

  /** `gcd(v, v)` returns `v` after one remainder, whatever the sign of `v`. */
  lemma GcdOfSelf(v: int)
    requires v != 0
    ensures GcdOf(v, v) == v
  {
    if v > 0 {
      assert v == v * 1 + 0;
      assert v % v == 0;
    } else {
      assert -v == v * -1 + 0;
      assert (-v) % v == 0;
    }
  }

  /** `gcd(_:_:)`: the `while true` loop of Euclid's algorithm. The division by
      `b` traps when `b` is zero, which the callers must rule out. */
  method Gcd(aNumber: int, anotherNumber: int) returns (g: int)
    requires anotherNumber != 0
    ensures g == GcdOf(aNumber, anotherNumber)
    ensures g != 0 && Divides(g, aNumber) && Divides(g, anotherNumber)
    ensures forall d :: Divides(d, aNumber) && Divides(d, anotherNumber) ==> Divides(d, g)
    ensures aNumber >= 0 && anotherNumber > 0 ==> g > 0
  {
    GcdOfIsGcd(aNumber, anotherNumber);
    if aNumber >= 0 && anotherNumber > 0 {
      GcdOfPositive(aNumber, anotherNumber);
    }
    var a := aNumber;
    var b := anotherNumber;
    while true
      invariant b != 0
      invariant GcdOf(a, b) == GcdOf(aNumber, anotherNumber)
      decreases Abs(b)
    {
      var r := Rem(a, b);
      if r == 0 {
        return b;
      }
      a := b;
      b := r;
    }
  }

  /** The value of `currentGCD` once the loop of `gcd(values:)` has folded the
      first `n` entries into it, starting from `values[0]`. */
  function GcdPrefix(values: seq<int>, n: nat): (g: int)
    requires 0 < |values| && n <= |values| && AllNonZero(values)
    ensures g != 0
  {
    if n == 0 then values[0] else GcdOf(GcdPrefix(values, n - 1), values[n - 1])
  }

  /** The value `gcd(values:)` returns: 1 for an empty array, the fold otherwise. */
  function GcdOfValues(values: seq<int>): (g: int)
    requires AllNonZero(values)
    ensures g != 0
    ensures |values| == 0 ==> g == 1
  {
    if |values| == 0 then 1 else GcdPrefix(values, |values|)
  }

  /** `d` divides each of the first `n` entries of `values`. */
  ghost predicate DividesFirst(d: int, values: seq<int>, n: nat)
    requires n <= |values|
  {
    forall i :: 0 <= i < n ==> Divides(d, values[i])
  }

  /** After folding at least one entry, the running value divides the first `n`
      entries and every common divisor of them divides it. */
  lemma {:induction false} GcdPrefixIsGcd(values: seq<int>, n: nat)
    requires 0 < n <= |values| && AllNonZero(values)
    ensures DividesFirst(GcdPrefix(values, n), values, n)
    ensures forall d :: DividesFirst(d, values, n) ==> Divides(d, GcdPrefix(values, n))
  {
    var g := GcdPrefix(values, n);
    if n == 1 {
      assert GcdPrefix(values, 0) == values[0];
      assert g == GcdOf(values[0], values[0]);
      GcdOfIsGcd(values[0], values[0]);
    } else {
      var h := GcdPrefix(values, n - 1);
      GcdPrefixIsGcd(values, n - 1);
      GcdOfIsGcd(h, values[n - 1]);
      forall i | 0 <= i < n - 1
        ensures Divides(g, values[i])
      {
        DividesTransitive(g, h, values[i]);
      }
    }
  }

  /** On a non-empty array `gcd(values:)` is a greatest common divisor of all entries. */
  lemma GcdOfValuesIsGcd(values: seq<int>)
    requires 0 < |values| && AllNonZero(values)
    ensures CommonDivisor(GcdOfValues(values), values)
    ensures forall d :: CommonDivisor(d, values) ==> Divides(d, GcdOfValues(values))
  {
    GcdPrefixIsGcd(values, |values|);
    forall d | CommonDivisor(d, values)
      ensures DividesFirst(d, values, |values|)
    {
    }
  }

  /** On a one-element array `[v]` the loop computes `gcd(v, v)`, which is `v`. */
  lemma GcdOfValuesSingle(v: int)
    requires v != 0
    ensures GcdOfValues([v]) == v
  {
    assert GcdPrefix([v], 0) == v;
    assert GcdOfValues([v]) == GcdPrefix([v], 1) == GcdOf(v, v);
    GcdOfSelf(v);
  }

  lemma {:induction false} GcdPrefixPositive(values: seq<int>, n: nat)
    requires 0 < |values| && n <= |values| && AllPositive(values)
    ensures GcdPrefix(values, n) > 0
  {
    if n > 0 {
      GcdPrefixPositive(values, n - 1);
      GcdOfPositive(GcdPrefix(values, n - 1), values[n - 1]);
    }
  }

  /** On positive entries (delays in centiseconds) the result is positive, so it
      can be used as a divisor. */
  lemma GcdOfValuesPositive(values: seq<int>)
    requires AllPositive(values)
    ensures GcdOfValues(values) > 0
  {
    if |values| > 0 {
      GcdPrefixPositive(values, |values|);
    }
  }

  /** `gcd(values:)`: folds `gcd(_:_:)` over the array into `currentGCD`; note that
      the loop starts at index 0, so its first step is `gcd(values[0], values[0])`.
      Every entry is used as a divisor, so a zero entry traps. */
  method GcdValues(values: seq<int>) returns (g: int)
    requires AllNonZero(values)
    ensures g == GcdOfValues(values)
    ensures |values| == 0 ==> g == 1
    ensures |values| > 0 ==> CommonDivisor(g, values) && forall d :: CommonDivisor(d, values) ==> Divides(d, g)
    ensures AllPositive(values) ==> g > 0
  {
    if AllPositive(values) {
      GcdOfValuesPositive(values);
    }
    if |values| == 0 {
      return 1;
    }
    GcdOfValuesIsGcd(values);
    var currentGCD := values[0];
    for i := 0 to |values|
      invariant currentGCD == GcdPrefix(values, i)
    {
      currentGCD := Gcd(currentGCD, values[i]);
    }
    return currentGCD;
  }
}
