/** Multiplication in Z/q: associativity, inverses, and the absence of zero divisors. */
module Inverses {
  import opened Products
  import opened Words
  import opened Modulus
  import opened Primality
  import opened ModulusPrime

  predicate IsInverse(v: nat, x: nat) {
    Times(v, x) % Q == 1
  }

  ghost predicate Invertible(v: nat) {
    exists x: nat :: IsInverse(v, x)
  }

  lemma InverseMeans(v: nat, x: nat)
    ensures IsInverse(v, x) <==> (v * x) % Q == 1
  {
    TimesIsProduct(v, x);
  }

  lemma ModRight(v: int, x: int)
    ensures (v * (x % Q)) % Q == (v * x) % Q
  {
    Commute(v, x % Q);
    Commute(v, x);
    MulModLeft(x, v);
  }

  /** Multiplication modulo q is associative. */
  lemma AssocTimes(x: nat, y: nat, z: nat)
    ensures Times(Times(x, y) % Q, z) % Q == Times(x, Times(y, z) % Q) % Q
  {
    hide Times;
    TimesIsProduct(x, y);
    TimesIsProduct(y, z);
    TimesIsProduct(Times(x, y) % Q, z);
    TimesIsProduct(x, Times(y, z) % Q);
    MulModLeft(x * y, z);
    Associate(x, y, z);
    ModRight(x, y * z);
  }

  lemma RemainderZero(x: int)
    ensures x % Q == 0 <==> Divides(Q, x)
  {
    if x % Q == 0 {
      assert IsMultiple(x, Q, x / Q);
    }
    if k :| IsMultiple(x, Q, k) {
      Congruent(x, 0, k);
    }
  }

  /** A number that q does not divide has 1 as a combination with q. */
  lemma CombineToOne(x: nat) returns (u: int, v: int)
    requires x % Q != 0
    ensures u * x + v * Q == 1
  {
    ModulusIsPrime();
    var g;
    g, u, v := Bezout(x, Q);
    RemainderZero(x);
  }

  /** Exactly the numbers that q does not divide are invertible. */
  lemma InvertibleExactly(x: nat)
    ensures Invertible(x) <==> x % Q != 0
  {
    if x % Q != 0 {
      var u, v := CombineToOne(x);
      InverseOf(x, u, v);
      assert IsInverse(x, u % Q);
    }
    if Invertible(x) {
      var y: nat :| IsInverse(x, y);
      TimesIsProduct(x, y);
      MulModLeft(x, y);
    }
  }

  lemma InverseOf(x: nat, u: int, v: int)
    requires u * x + v * Q == 1
    ensures IsInverse(x, u % Q)
  {
    TimesIsProduct(x, u % Q);
    Commute(x, u % Q);
    MulModLeft(u, x);
    Congruent(u * x, 1, -v);
  }

  /** A product is 0 modulo q only if a factor is. */
  lemma NoZeroDivisors(x: nat, y: int)
    requires (x * y) % Q == 0
    ensures x % Q == 0 || y % Q == 0
  {
    if x % Q != 0 {
      var u, v := CombineToOne(x);
      RemainderZero(x * y);
      DividesProduct(Q, x * y, u);
      DividesSelf(Q, v * y);
      DividesSum(Q, u * (x * y), Q * (v * y));
      Isolate(x, y, u, v);
      RemainderZero(y);
    }
  }

  lemma Isolate(x: int, y: int, u: int, v: int)
    requires u * x + v * Q == 1
    ensures u * (x * y) + Q * (v * y) == y
  {
    assert u * (x * y) == (u * x) * y;
    assert Q * (v * y) == (v * Q) * y;
    assert (u * x) * y + (v * Q) * y == (u * x + v * Q) * y;
  }
}
