/**
  Division, remainder and multiples by repeated subtraction, so that proofs about them stay linear.
  QuotientRemainder says that they are the `/` and `%` that the modelled code uses.
 */
module Arith {

  function Quot(d: nat, x: nat): nat
    requires d > 0
  {
    if x < d then 0 else 1 + Quot(d, x - d)
  }

  function Rem(d: nat, x: nat): (r: nat)
    requires d > 0
    ensures r < d && r <= x
  {
    if x < d then x else Rem(d, x - d)
  }

  /** x is 0, d, 2d, ... */
  predicate Multiple(x: nat, d: nat)
    requires d > 0
  {
    x == 0 || (x >= d && Multiple(x - d, d))
  }

  lemma Scale(a: int, b: int, s: nat)
    requires a <= b
    ensures a * s <= b * s
  {
    assert (b - a) * s >= 0;
    assert b * s == a * s + (b - a) * s;
  }

  lemma DivMod(x: nat, z: nat, q: nat)
    requires z > 0 && q * z <= x < q * z + z
    ensures x / z == q && x % z == x - q * z
  {
    var p := x / z;
    assert x == p * z + x % z;
    assert (q - p) * z == q * z - p * z;
    assert (p - q) * z == p * z - q * z;
    if q > p { Scale(1, q - p, z); }
    if q < p { Scale(1, p - q, z); }
  }

  lemma {:induction false} QuotTimes(d: nat, x: nat)
    requires d > 0
    ensures x == Quot(d, x) * d + Rem(d, x)
  {
    if x >= d {
      QuotTimes(d, x - d);
      assert (1 + Quot(d, x - d)) * d == d + Quot(d, x - d) * d;
    }
  }

  lemma QuotientRemainder(d: nat, x: nat)
    requires d > 0
    ensures x / d == Quot(d, x) && x % d == Rem(d, x)
  {
    QuotTimes(d, x);
    DivMod(x, d, Quot(d, x));
  }

  /** `/` and `%`, stated by Quot and Rem. */
  method Divide(x: nat, d: nat) returns (q: nat, r: nat)
    requires d > 0
    ensures q == Quot(d, x) && r == Rem(d, x)
  {
    QuotientRemainder(d, x);
    q, r := x / d, x % d;
  }

  lemma {:induction false} QuotRemInjective(d: nat, i: nat, j: nat)
    requires d > 0 && Quot(d, i) == Quot(d, j) && Rem(d, i) == Rem(d, j)
    ensures i == j
  {
    if i >= d && j >= d { QuotRemInjective(d, i - d, j - d); }
  }

  lemma {:induction false} MultiplePlus(x: nat, y: nat, d: nat)
    requires d > 0 && Multiple(x, d) && Multiple(y, d)
    ensures Multiple(x + y, d)
  {
    if x > 0 { MultiplePlus(x - d, y, d); }
  }

  lemma {:induction false} MultipleMinus(x: nat, y: nat, d: nat)
    requires d > 0 && Multiple(x, d) && Multiple(y, d) && y <= x
    ensures Multiple(x - y, d)
  {
    if y > 0 { MultipleMinus(x - d, y - d, d); }
  }

  /** Two different multiples of d are at least d apart. */
  lemma {:induction false} MultipleGap(x: nat, y: nat, d: nat)
    requires d > 0 && Multiple(x, d) && Multiple(y, d) && x < y
    ensures x + d <= y
  {
    if x > 0 { MultipleGap(x - d, y - d, d); }
  }

  lemma {:induction false} MultipleTrans(x: nat, y: nat, d: nat)
    requires d > 0 && y > 0 && Multiple(x, y) && Multiple(y, d)
    ensures Multiple(x, d)
  {
    if x > 0 {
      MultipleTrans(x - y, y, d);
      MultiplePlus(x - y, y, d);
    }
  }

  lemma {:induction false} RemOfMultiple(x: nat, y: nat, d: nat)
    requires d > 0 && y > 0 && Multiple(x, d) && Multiple(y, d)
    ensures Multiple(Rem(y, x), d)
  {
    if x >= y {
      MultipleMinus(x, y, d);
      RemOfMultiple(x - y, y, d);
    }
  }

  lemma MultipleIsSmaller(s: nat, d: nat)
    requires 0 < s < d
    ensures !Multiple(s, d)
  {}

  lemma {:induction false} RemZero(x: nat, d: nat)
    requires d > 0
    ensures Multiple(x, d) <==> Rem(d, x) == 0
  {
    if x >= d { RemZero(x - d, d); }
  }
}
