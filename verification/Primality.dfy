/**
  Primality certificates: an element whose powers return to 1 after F steps and
  no sooner shows that every factor of n is at least F.
 */
module Primality {
  import opened Products

  // ---- divisibility ---------------------------------------------------------------------------------

  ghost predicate IsMultiple(n: int, d: int, k: int) {
    n == d * k
  }

  ghost predicate Divides(d: int, n: int) {
    exists k :: IsMultiple(n, d, k)
  }

  ghost predicate Prime(p: nat) {
    p > 1 && forall d: nat :: Divides(d, p) ==> d == 1 || d == p
  }

  lemma DividesSum(d: int, m: int, n: int)
    requires Divides(d, m) && Divides(d, n)
    ensures Divides(d, m + n) && Divides(d, m - n)
  {
    var j :| IsMultiple(m, d, j);
    var k :| IsMultiple(n, d, k);
    Distribute(d, j, k);
    assert IsMultiple(m + n, d, j + k) && IsMultiple(m - n, d, j - k);
  }

  lemma Distribute(d: int, j: int, k: int)
    ensures d * j + d * k == d * (j + k) && d * j - d * k == d * (j - k)
  {
  }

  lemma DividesProduct(d: int, m: int, n: int)
    requires Divides(d, m)
    ensures Divides(d, m * n) && Divides(d, n * m)
  {
    var j :| IsMultiple(m, d, j);
    Associate(d, j, n);
    assert IsMultiple(m * n, d, j * n);
  }

  lemma DividesSelf(d: int, k: int)
    ensures Divides(d, d * k) && Divides(d, 0)
  {
    assert IsMultiple(d * k, d, k) && IsMultiple(0, d, 0);
  }

  lemma DividesTransitive(d: int, m: int, n: int)
    requires Divides(d, m) && Divides(m, n)
    ensures Divides(d, n)
  {
    var k :| IsMultiple(n, m, k);
    DividesProduct(d, m, k);
  }

  // ---- congruence and powers ------------------------------------------------------------------------

  ghost predicate Cong(r: int, x: int, y: int) {
    Divides(r, x - y)
  }

  lemma CongSymmetric(r: int, x: int, y: int)
    requires Cong(r, x, y)
    ensures Cong(r, y, x)
  {
    DividesSelf(r, 0);
    DividesSum(r, 0, x - y);
    assert 0 - (x - y) == y - x;
  }

  lemma CongTransitive(r: int, x: int, y: int, z: int)
    requires Cong(r, x, y) && Cong(r, y, z)
    ensures Cong(r, x, z)
  {
    DividesSum(r, x - y, y - z);
    assert (x - y) + (y - z) == x - z;
  }

  lemma CongProduct(r: int, x: int, y: int, u: int, v: int)
    requires Cong(r, x, y) && Cong(r, u, v)
    ensures Cong(r, x * u, y * v)
  {
    DividesProduct(r, x - y, u);
    DividesProduct(r, u - v, y);
    DividesSum(r, (x - y) * u, (u - v) * y);
    CrossTerms(x, y, u, v);
  }

  lemma CrossTerms(x: int, y: int, u: int, v: int)
    ensures (x - y) * u + (u - v) * y == x * u - y * v
  {
  }

  lemma CongFactor(d: int, n: int, x: int, y: int)
    requires Divides(d, n) && Cong(n, x, y)
    ensures Cong(d, x, y)
  {
    DividesTransitive(d, n, x - y);
  }

  function IntPow(c: nat, e: nat): nat {
    if e == 0 then 1 else c * IntPow(c, e - 1)
  }

  lemma {:induction false} PowAdd(c: nat, a: nat, b: nat)
    ensures IntPow(c, a + b) == IntPow(c, a) * IntPow(c, b)
  {
    if a > 0 {
      PowAdd(c, a - 1, b);
      Associate(c, IntPow(c, a - 1), IntPow(c, b));
    }
  }

  /** An exponent after which the powers are back at 1. */
  ghost predicate Returns(r: int, c: nat, e: nat) {
    Cong(r, IntPow(c, e), 1)
  }

  lemma ReturnsSum(r: int, c: nat, a: nat, b: nat)
    requires Returns(r, c, b)
    ensures Returns(r, c, a + b) <==> Returns(r, c, a)
  {
    PowAdd(c, a, b);
    DividesSelf(r, 0);
    CongProduct(r, IntPow(c, a), IntPow(c, a), IntPow(c, b), 1);
    if Returns(r, c, a) {
      CongTransitive(r, IntPow(c, a + b), IntPow(c, a), 1);
    }
    if Returns(r, c, a + b) {
      CongSymmetric(r, IntPow(c, a + b), IntPow(c, a));
      CongTransitive(r, IntPow(c, a), IntPow(c, a + b), 1);
    }
  }

  lemma {:induction false} ReturnsMultiple(r: int, c: nat, a: nat, k: nat)
    requires Returns(r, c, a)
    ensures Returns(r, c, k * a)
  {
    if k == 0 {
      DividesSelf(r, 0);
    } else {
      ReturnsMultiple(r, c, a, k - 1);
      ReturnsSum(r, c, (k - 1) * a, a);
      assert (k - 1) * a + a == k * a;
    }
  }

  /** Euclid's algorithm in the exponents. */
  lemma {:induction false} CommonExponent(r: int, c: nat, a: nat, b: nat) returns (g: nat)
    requires a > 0 && Returns(r, c, a) && Returns(r, c, b)
    ensures g > 0 && Divides(g, a) && Divides(g, b) && Returns(r, c, g)
    decreases b
  {
    if b == 0 {
      g := a;
      DividesSelf(a, 1);
    } else {
      var q, m := a / b, a % b;
      DivisionSplits(a, b);
      ReturnsMultiple(r, c, b, q);
      ReturnsSum(r, c, m, q * b);
      g := CommonExponent(r, c, b, m);
      DividesProduct(g, b, q);
      DividesSum(g, b * q, m);
    }
  }

  lemma DivisionSplits(a: nat, b: nat)
    requires b > 0
    ensures a == (a / b) * b + a % b == b * (a / b) + a % b && a % b < b
  {
  }

  // ---- counting -------------------------------------------------------------------------------------

  /** Distinct numbers below m are at most m. */
  lemma {:induction false} PigeonHole(s: seq<nat>, m: nat)
    requires forall i :: 0 <= i < |s| ==> s[i] < m
    requires forall i, j :: 0 <= i < j < |s| ==> s[i] != s[j]
    ensures |s| <= m
    decreases m
  {
    if s != [] {
      assert s[0] < m;
      if j :| 0 <= j < |s| && s[j] == m - 1 {
        var t := s[..j] + s[j + 1..];
        forall i | 0 <= i < |t|
          ensures t[i] < m - 1
        {
          assert t[i] == if i < j then s[i] else s[i + 1];
        }
        PigeonHole(t, m - 1);
      } else {
        PigeonHole(s, m - 1);
      }
    }
  }

  lemma EqualRemainders(r: nat, x: nat, y: nat)
    requires r > 0 && x % r == y % r
    ensures Cong(r, x, y)
  {
    DivisionSplits(x, r);
    DivisionSplits(y, r);
    Distribute(r, x / r, y / r);
    assert IsMultiple(x - y, r, x / r - y / r);
  }

  /** If the first f powers leave distinct remainders, r is at least f. */
  lemma ManyPowers(r: nat, c: nat, f: nat)
    requires r > 0 && Returns(r, c, f)
    requires forall m: nat :: 0 < m < f ==> !Returns(r, c, m)
    ensures f <= r
  {
    var s := seq(f, i requires 0 <= i < f => IntPow(c, i) % r);
    forall i, j | 0 <= i < j < |s|
      ensures s[i] != s[j]
    {
      if s[i] == s[j] {
        EarlierReturn(r, c, f, i, j);
      }
    }
    PigeonHole(s, r);
  }

  /** Congruent powers stay congruent k steps on. */
  lemma CongShift(r: int, c: nat, i: nat, j: nat, k: nat)
    requires Cong(r, IntPow(c, i), IntPow(c, j))
    ensures Cong(r, IntPow(c, i + k), IntPow(c, j + k))
  {
    hide IntPow;
    DividesSelf(r, 0);
    CongProduct(r, IntPow(c, i), IntPow(c, j), IntPow(c, k), IntPow(c, k));
    PowAdd(c, i, k);
    PowAdd(c, j, k);
  }

  lemma EarlierReturn(r: nat, c: nat, f: nat, i: nat, j: nat)
    requires r > 0 && Returns(r, c, f) && i < j < f
    requires IntPow(c, i) % r == IntPow(c, j) % r
    ensures Returns(r, c, j - i)
  {
    EqualRemainders(r, IntPow(c, j), IntPow(c, i));
    ReturnShifted(r, c, f, j - i, i);
  }

  lemma ReturnShifted(r: nat, c: nat, f: nat, m: nat, i: nat)
    requires Returns(r, c, f) && i <= f
    requires Cong(r, IntPow(c, m + i), IntPow(c, i))
    ensures Returns(r, c, m)
  {
    hide IntPow, Cong;
    CongShift(r, c, m + i, i, f - i);
    CongTransitive(r, IntPow(c, m + i + (f - i)), IntPow(c, i + (f - i)), 1);
    ReturnsSum(r, c, m, f);
  }

  // ---- shared primes --------------------------------------------------------------------------------

  function Prod(s: seq<nat>): nat {
    if s == [] then 1 else s[0] * Prod(s[1..])
  }

  /** A common divisor as a combination. */
  lemma {:induction false} Bezout(a: nat, b: nat) returns (g: nat, u: int, v: int)
    requires a > 0
    ensures g > 0 && Divides(g, a) && Divides(g, b) && u * a + v * b == g
    decreases b
  {
    if b == 0 {
      g, u, v := a, 1, 0;
      DividesSelf(a, 1);
      DividesSelf(a, 0);
    } else {
      var q, m := a / b, a % b;
      DivisionSplits(a, b);
      var x, y;
      g, x, y := Bezout(b, m);
      u, v := y, x - q * y;
      DividesProduct(g, b, q);
      DividesSum(g, b * q, m);
      BackSubstitute(a, b, q, m, x, y);
    }
  }

  lemma BackSubstitute(a: int, b: int, q: int, m: int, x: int, y: int)
    requires a == q * b + m
    ensures y * a + (x - q * y) * b == x * b + y * m
  {
    assert y * a == y * (q * b) + y * m;
    assert y * (q * b) == (q * y) * b;
  }

  lemma Combination(h: int, p: int, f: int, u: int, v: int)
    requires u * h + v * p == 1
    ensures h * (u * f) + v * (p * f) == f
  {
    Associate(u, h, f);
    Associate(v, p, f);
    assert (u * h) * f + (v * p) * f == (u * h + v * p) * f;
  }

  /** A divisor of p * f that shares nothing with p divides f. */
  lemma CancelCoprime(h: nat, p: nat, f: nat, u: int, v: int)
    requires Divides(h, p * f) && u * h + v * p == 1
    ensures Divides(h, f)
  {
    DividesSelf(h, u * f);
    DividesProduct(h, p * f, v);
    DividesSum(h, h * (u * f), v * (p * f));
    Combination(h, p, f, u, v);
    hide Divides;
  }

  /** A divisor greater than 1 of a product of primes is divisible by one of them. */
  lemma {:induction false} SharedPrime(h: nat, s: seq<nat>) returns (i: nat)
    requires h > 1 && Divides(h, Prod(s))
    requires forall k :: 0 <= k < |s| ==> Prime(s[k])
    ensures i < |s| && Divides(s[i], h)
    decreases |s|
  {
    if s == [] {
      UnitDivisor(h);
    } else {
      var p := s[0];
      var g, u, v := Bezout(h, p);
      if g == 1 {
        CancelCoprime(h, p, Prod(s[1..]), u, v);
        i := SharedPrime(h, s[1..]);
        i := i + 1;
      } else {
        i := 0;
        assert g == p;
      }
    }
  }

  lemma UnitDivisor(h: nat)
    requires h > 1
    ensures !Divides(h, 1)
  {
    if k :| IsMultiple(1, h, k) {
      if k >= 1 {
        Larger(h, k);
      } else {
        Smaller(h, k);
      }
    }
  }

  lemma Larger(h: int, k: int)
    requires h > 1 && k >= 1
    ensures h * k >= h
  {
  }

  lemma Smaller(h: int, k: int)
    requires h > 1 && k <= 0
    ensures h * k <= 0
  {
  }

  // ---- the certificate ------------------------------------------------------------------------------

  /** c returns to 1 after f steps, and c^(f/p) - 1 is invertible for the prime p. */
  ghost predicate NotSooner(n: nat, c: nat, f: nat, p: nat) {
    exists k: nat, w: int :: f == p * k && Witness(n, c, k, w)
  }

  ghost predicate Witness(n: nat, c: nat, k: nat, w: int) {
    Cong(n, (IntPow(c, k) - 1) * w, 1)
  }

  ghost predicate Certified(n: nat, c: nat, s: seq<nat>) {
    && Returns(n, c, Prod(s))
    && forall i :: 0 <= i < |s| ==> Prime(s[i]) && NotSooner(n, c, Prod(s), s[i])
  }

  /** Every factor of n is at least the certified part of n - 1. */
  lemma FactorsAreLarge(n: nat, c: nat, s: seq<nat>, r: nat)
    requires Certified(n, c, s) && Prod(s) > 0
    requires r > 1 && Divides(r, n)
    ensures Prod(s) <= r
  {
    var f := Prod(s);
    CongFactor(r, n, IntPow(c, f), 1);
    forall m: nat | 0 < m < f
      ensures !Returns(r, c, m)
    {
      if Returns(r, c, m) {
        NoEarlyReturn(n, c, s, r, m);
      }
    }
    ManyPowers(r, c, f);
  }

  lemma NoEarlyReturn(n: nat, c: nat, s: seq<nat>, r: nat, m: nat)
    requires Certified(n, c, s) && r > 1 && Divides(r, n)
    requires 0 < m < Prod(s) && Returns(r, c, Prod(s))
    ensures !Returns(r, c, m)
  {
    if Returns(r, c, m) {
      var f := Prod(s);
      var g := CommonExponent(r, c, m, f);
      var h := Cofactor(g, m, f);
      var i := SharedPrime(h, s);
      NotSoonerFails(n, c, f, s[i], r, g, h);
    }
  }

  /** A divisor g of m < f has a cofactor in f that is greater than 1. */
  lemma Cofactor(g: nat, m: nat, f: nat) returns (h: nat)
    requires g > 0 && 0 < m < f && Divides(g, m) && Divides(g, f)
    ensures h > 1 && f == g * h && Divides(h, f)
  {
    var k :| IsMultiple(m, g, k);
    var l :| IsMultiple(f, g, l);
    if l <= k {
      MulMonotone(g, l, k);
    }
    if k <= 0 {
      MulMonotone(g, k, 0);
    }
    h := l;
    assert IsMultiple(f, h, g);
  }

  lemma NotSoonerFails(n: nat, c: nat, f: nat, p: nat, r: nat, g: nat, h: nat)
    requires NotSooner(n, c, f, p) && p > 0 && r > 1 && Divides(r, n)
    requires f == g * h && Divides(p, h)
    ensures !Returns(r, c, g)
  {
    var k: nat, w: int :| f == p * k && Witness(n, c, k, w);
    var l :| IsMultiple(h, p, l);
    SameCofactor(p, k, g, l);
    if l < 0 {
      MulMonotone(p, l, -1);
    }
    if Returns(r, c, g) {
      ReturnsMultiple(r, c, g, l);
      assert Returns(r, c, k);
      DividesProduct(r, IntPow(c, k) - 1, w);
      CongFactor(r, n, (IntPow(c, k) - 1) * w, 1);
      DividesSum(r, (IntPow(c, k) - 1) * w, (IntPow(c, k) - 1) * w - 1);
      UnitDivisor(r);
    }
  }

  lemma SameCofactor(p: nat, k: int, g: int, l: int)
    requires p > 0 && p * k == g * (p * l)
    ensures k == l * g
  {
    Associate(g, p, l);
    CancelFactor(p, k, g * l);
  }

  lemma CancelFactor(p: nat, x: int, y: int)
    requires p > 0 && p * x == p * y
    ensures x == y
  {
    if x < y {
      MulMonotone(p, x + 1, y);
    } else if y < x {
      MulMonotone(p, y + 1, x);
    }
  }

  /** A certified part above the square root makes n prime. */
  lemma CertifiedPrime(n: nat, c: nat, s: seq<nat>)
    requires n > 1 && Certified(n, c, s) && Prod(s) > 0 && Prod(s) * Prod(s) > n
    ensures Prime(n)
  {
    forall d: nat | Divides(d, n)
      ensures d == 1 || d == n
    {
      var k :| IsMultiple(n, d, k);
      PositiveFactors(d, k);
      if d > 1 && k > 1 {
        assert IsMultiple(n, k, d);
        FactorsAreLarge(n, c, s, d);
        FactorsAreLarge(n, c, s, k);
        ProductsOrdered(Prod(s), d, k);
      }
    }
  }

  lemma PositiveFactors(d: nat, k: int)
    requires d * k > 1
    ensures d >= 1 && k >= 1
  {
    if k <= 0 {
      MulMonotone(d, k, 0);
    }
  }

  lemma ProductsOrdered(f: nat, x: nat, y: nat)
    requires f <= x && f <= y
    ensures f * f <= x * y
  {
    MulMonotone(f, f, y);
    MulMonotone(y, f, x);
  }

  // ---- small primes ---------------------------------------------------------------------------------

  /** Not divisible by a prime below 37, unless it is that prime. */
  predicate Sieved(n: nat) {
    && (n % 2 != 0 || n == 2) && (n % 3 != 0 || n == 3) && (n % 5 != 0 || n == 5) && (n % 7 != 0 || n == 7)
    && (n % 11 != 0 || n == 11) && (n % 13 != 0 || n == 13) && (n % 17 != 0 || n == 17) && (n % 19 != 0 || n == 19)
    && (n % 23 != 0 || n == 23) && (n % 29 != 0 || n == 29) && (n % 31 != 0 || n == 31)
  }

  lemma SmallPrime(n: nat)
    requires 1 < n < 37 * 37 && Sieved(n)
    ensures Prime(n)
  {
    forall d: nat | Divides(d, n)
      ensures d == 1 || d == n
    {
      var k :| IsMultiple(n, d, k);
      PositiveFactors(d, k);
      if d > 1 && k > 1 {
        if d <= k {
          SmallFactor(n, d, k);
        } else {
          SmallFactor(n, k, d);
        }
      }
    }
  }

  lemma SmallFactor(n: nat, d: nat, k: nat)
    requires n < 37 * 37 && n == d * k && 1 < d <= k
    ensures !Sieved(n)
  {
    if d >= 37 {
      ProductsOrdered(37, d, k);
    } else {
      SmallMultiple(n, d, k);
    }
  }

  /** A number below 37 shares a factor with the sieve. */
  lemma SmallMultiple(n: nat, d: nat, k: nat)
    requires n == d * k && 1 < d < 37 && d <= k
    ensures !Sieved(n)
  {
    var p := SieveFactor(d);
    FactorDivides(n, d, k, p);
    NotSieved(n, p);
  }

  predicate InSieve(p: nat) {
    p in {2, 3, 5, 7, 11, 13, 17, 19, 23, 29, 31}
  }

  lemma SieveFactor(d: nat) returns (p: nat)
    requires 1 < d < 37
    ensures InSieve(p) && p <= d && d % p == 0
  {
    p := if d % 2 == 0 then 2 else if d % 3 == 0 then 3 else if d % 5 == 0 then 5 else d;
  }

  lemma NotSieved(n: nat, p: nat)
    requires InSieve(p) && n % p == 0 && n != p
    ensures !Sieved(n)
  {
  }

  /** The prime p divides d, so it divides n, which is greater. */
  lemma FactorDivides(n: nat, d: nat, k: nat, p: nat)
    requires n == d * k && 1 < p <= d <= k && d % p == 0
    ensures n % p == 0 && n != p
  {
    DivisionSplits(d, p);
    Associate(p, d / p, k);
    RemainderOfMultiple(n, p, (d / p) * k);
    ProductsOrdered(2, d, k);
    MulMonotone(d, 2, k);
  }

  lemma RemainderOfMultiple(n: nat, e: nat, k: int)
    requires e > 0 && n == e * k
    ensures n % e == 0
  {
    var q := n / e;
    DivisionSplits(n, e);
    Distribute(e, k, q);
    if k > q {
      MulMonotone(e, 1, k - q);
    } else if k < q {
      MulMonotone(e, k - q, -1);
    }
  }

  // ---- checking a certificate -------------------------------------------------------------------------

  lemma RemainderCong(n: nat, x: nat)
    requires n > 0
    ensures Cong(n, x, x % n)
  {
    DivisionSplits(x, n);
    assert IsMultiple(x - x % n, n, x / n);
  }

  /** One step of square and multiply. */
  function Square(x: nat, n: nat): nat
    requires n > 0
  {
    x * x % n
  }

  function SquareTimes(x: nat, c: nat, n: nat): nat
    requires n > 0
  {
    x * x * c % n
  }

  /** c^e leaves x. */
  ghost predicate Leaves(n: nat, c: nat, e: nat, x: nat) {
    Cong(n, IntPow(c, e), x)
  }

  lemma LeavesOne(n: nat, c: nat, e: nat)
    requires Leaves(n, c, e, 1)
    ensures Returns(n, c, e)
  {
  }

  lemma First(n: nat, c: nat)
    ensures Leaves(n, c, 1, c)
  {
    assert IntPow(c, 0) == 1;
    DividesSelf(n, 0);
  }

  lemma Even(n: nat, c: nat, e: nat, x: nat, y: nat) returns (f: nat, z: nat)
    requires n > 0 && Leaves(n, c, e, x) && Square(x, n) == y
    ensures f == 2 * e && z == y && Leaves(n, c, f, z)
  {
    f, z := e + e, y;
    CongProduct(n, IntPow(c, e), x, IntPow(c, e), x);
    PowAdd(c, e, e);
    RemainderCong(n, x * x);
    CongTransitive(n, IntPow(c, f), x * x, y);
  }

  lemma Odd(n: nat, c: nat, e: nat, x: nat, y: nat) returns (f: nat, z: nat)
    requires n > 0 && Leaves(n, c, e, x) && SquareTimes(x, c, n) == y
    ensures f == 2 * e + 1 && z == y && Leaves(n, c, f, z)
  {
    f, z := e + e + 1, y;
    CongProduct(n, IntPow(c, e), x, IntPow(c, e), x);
    PowAdd(c, e, e);
    DividesSelf(n, 0);
    CongProduct(n, IntPow(c, e + e), x * x, c, c);
    PowAdd(c, e + e, 1);
    assert IntPow(c, 0) == 1 && IntPow(c, 1) == c * IntPow(c, 0);
    RemainderCong(n, x * x * c);
    CongTransitive(n, IntPow(c, f), x * x * c, y);
  }

  /** Powers of a power. */
  lemma {:induction false} PowPow(c: nat, a: nat, b: nat)
    ensures IntPow(c, a * b) == IntPow(IntPow(c, a), b)
  {
    if b > 0 {
      PowPow(c, a, b - 1);
      PowAdd(c, a, a * (b - 1));
      assert a + a * (b - 1) == a * b;
    } else {
      assert a * b == 0;
    }
  }

  lemma {:induction false} PowCong(n: nat, x: nat, y: nat, e: nat)
    requires Cong(n, x, y)
    ensures Cong(n, IntPow(x, e), IntPow(y, e))
  {
    if e == 0 {
      DividesSelf(n, 0);
    } else {
      PowCong(n, x, y, e - 1);
      CongProduct(n, x, y, IntPow(x, e - 1), IntPow(y, e - 1));
    }
  }

  /** If c^a leaves x and x^b leaves y then c^(a * b) leaves y. */
  lemma Compose(n: nat, c: nat, a: nat, x: nat, b: nat, y: nat)
    requires Leaves(n, c, a, x) && Leaves(n, x, b, y)
    ensures Leaves(n, c, a * b, y)
  {
    PowPow(c, a, b);
    PowCong(n, IntPow(c, a), x, b);
    CongTransitive(n, IntPow(c, a * b), IntPow(x, b), y);
  }

  /** v - 1 is invertible, by its inverse w. */
  lemma NotSoonerBy(n: nat, c: nat, f: nat, p: nat, k: nat, v: nat, w: nat, t: nat)
    requires n > 0 && v > 0 && f == p * k && Leaves(n, c, k, v) && (v - 1) * w == n * t + 1
    ensures NotSooner(n, c, f, p)
  {
    assert IsMultiple((v - 1) * w - 1, n, t);
    assert (IntPow(c, k) - 1) - (v - 1) == IntPow(c, k) - v;
    DividesSelf(n, 0);
    CongProduct(n, IntPow(c, k) - 1, v - 1, w, w);
    CongTransitive(n, (IntPow(c, k) - 1) * w, (v - 1) * w, 1);
    assert Witness(n, c, k, w);
  }

  lemma ProdOne(p: nat)
    ensures Prod([p]) == p
  {
    assert [p][1..] == [];
  }

  lemma ProdTwo(p: nat, q: nat)
    ensures Prod([p, q]) == p * q
  {
    assert [p, q][1..] == [q];
    ProdOne(q);
  }

  /** A certificate with one prime. */
  lemma CertifiedByOne(n: nat, c: nat, p: nat, w: nat, t: nat)
    requires n > 1 && c > 0 && Prime(p) && p * p > n
    requires Leaves(n, c, p, 1) && (c - 1) * w == n * t + 1
    ensures Prime(n)
  {
    ProdOne(p);
    First(n, c);
    NotSoonerBy(n, c, p, p, 1, c, w, t);
    CertifiedPrime(n, c, [p]);
  }

  /** A certificate with two primes. */
  lemma CertifiedByTwo(n: nat, c: nat, p: nat, q: nat, x: nat, wx: nat, tx: nat, y: nat, wy: nat, ty: nat)
    requires n > 1 && Prime(p) && Prime(q) && (p * q) * (p * q) > n
    requires x > 0 && y > 0
    requires Leaves(n, c, p, x) && (x - 1) * wx == n * tx + 1
    requires Leaves(n, c, q, y) && (y - 1) * wy == n * ty + 1
    requires Leaves(n, x, q, 1)
    ensures Prime(n)
  {
    ProdTwo(p, q);
    Compose(n, c, p, x, q, 1);
    assert p * q == q * p;
    NotSoonerBy(n, c, p * q, q, p, x, wx, tx);
    NotSoonerBy(n, c, p * q, p, q, y, wy, ty);
    CertifiedPrime(n, c, [p, q]);
  }
}
