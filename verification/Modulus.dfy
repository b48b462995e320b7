/**
  The BN254 scalar field modulus q, the Montgomery radix R = 2^256, and the
  algebra of Montgomery forms. Everything here is over the naturals; no limb
  appears.
 */
module Modulus {
  import opened Products

  const Q: nat := 0x30644e72e131a029b85045b68181585d2833e84879b9709143e1f593f0000001

  // (q - 1) / 2
  const HALF: nat := 0x183227397098d014dc2822db40c0ac2e9419f4243cdcb848a1f0fac9f8000000

  const R: nat := 0x10000000000000000000000000000000000000000000000000000000000000000

  // R^2 mod q and R^3 mod q
  const R2: nat := 0x0216d0b17f4e44a58c49833d53bb808553fe3ab1e35c59e31bb8e645ae216da7
  const R3: nat := 0x0cf8594b7fcc657c893cc664a19fcfed2a489cbe1cfbb6b85e94d8e1b4bf0040

  // The inverse of R modulo q: R * RINV == 1 + K * Q
  const RINV: nat := 0x15ebf95182c5551cc8260de4aeb85d5d090ef5a9e111ec87dc5ba0056db1194e
  const K: nat := 0x73f82f1d0d8341b2e39a9828990623916586864b4c6911b3c2e1f593efffffff

  lemma ConstantsAgree()
    ensures R * RINV == 1 + K * Q
    ensures Q == 2 * HALF + 1
    ensures R2 == (R * R) % Q
    ensures R3 == (R * R2) % Q
  {
  }

  /** Montgomery reduction: x / R in Z/q. */
  function Redc(x: int): (r: nat)
    ensures r < Q
  {
    (x * RINV) % Q
  }

  /** The Montgomery form of x. */
  function ToMont(x: int): (r: nat)
    ensures r < Q
  {
    (x * R) % Q
  }

  // ---- congruences modulo q ------------------------------------------------

  lemma AddMultiple(x: int, k: int)
    ensures (x + k * Q) % Q == x % Q
  {
  }

  lemma Congruent(x: int, y: int, k: int)
    requires x == y + k * Q
    ensures x % Q == y % Q
  {
  }

  lemma MulModLeft(x: int, y: int)
    ensures ((x % Q) * y) % Q == (x * y) % Q
  {
    var k := x / Q;
    assert x == x % Q + k * Q;
    Expand(x % Q, k, y);
    Congruent(x * y, (x % Q) * y, k * y);
  }

  lemma Expand(r: int, k: int, y: int)
    ensures (r + k * Q) * y == r * y + (k * y) * Q
  {
  }

  lemma MulMod(x: int, y: int)
    ensures ((x % Q) * (y % Q)) % Q == (x * y) % Q
  {
    MulModLeft(x, y % Q);
    MulModLeft(y, x);
  }

  lemma AddMod(x: int, y: int)
    ensures (x % Q + y % Q) % Q == (x + y) % Q
    ensures (x % Q - y % Q) % Q == (x - y) % Q
  {
    var k, l := x / Q, y / Q;
    Congruent(x + y, x % Q + y % Q, k + l);
    Congruent(x - y, x % Q - y % Q, k - l);
  }

  // ---- Montgomery algebra ---------------------------------------------------

  lemma RedcMod(x: int)
    ensures Redc(x % Q) == Redc(x)
  {
    MulModLeft(x, RINV);
  }

  lemma RadixCancels(x: int)
    ensures (x * R * RINV) % Q == x % Q
  {
    assert x * R * RINV == x * (R * RINV) by { Associate(x, R, RINV); }
    assert R * RINV == 1 + K * Q;
    Expand(1, K, x);
    Congruent(x * (R * RINV), x, x * K);
  }

  lemma RedcToMont(x: int)
    ensures Redc(ToMont(x)) == x % Q
  {
    MulModLeft(x * R, RINV);
    RadixCancels(x);
  }

  lemma ToMontRedc(x: int)
    ensures ToMont(Redc(x)) == x % Q
  {
    MulModLeft(x * RINV, R);
    Associate(x, RINV, R);
    RadixCancels(x);
  }

  /** Distinct residues have distinct Montgomery forms, and conversely. */
  lemma RedcInjective(x: nat, y: nat)
    requires x < Q && y < Q
    ensures Redc(x) == Redc(y) <==> x == y
  {
    ToMontRedc(x);
    ToMontRedc(y);
    assert x % Q == x && y % Q == y;
  }

  /** What the reduction loop produces: an exact quotient by R, up to multiples of q. */
  lemma RedcOfQuotient(t: nat, p: nat, m: nat)
    requires t * R == p + m * Q
    ensures t % Q == Redc(p)
  {
    RadixCancels(t);
    assert t * R * RINV == p * RINV + (m * RINV) * Q;
    AddMultiple(p * RINV, m * RINV);
  }

  /** Montgomery reduction pulls out of a product. */
  lemma RedcFactor(x: int, y: int, r: nat)
    requires r == Redc(y)
    ensures Redc(x * y) == (x * r) % Q
  {
    MulModLeft(y * RINV, x);
    Commute(x, Redc(y));
    Commute(x, y * RINV);
    Associate(x, y, RINV);
  }

  lemma Commute(x: int, y: int)
    ensures x * y == y * x
  {
  }

  /** Reducing twice a product of Montgomery forms denotes the product. */
  lemma RedcProduct(x: int, y: int)
    ensures Redc(Redc(x * y)) == (Redc(x) * Redc(y)) % Q
  {
    Commute(x, y);
    RedcFactor(y, x, Redc(x));
    Commute(y, Redc(x));
    RedcMod(Redc(x) * y);
    RedcFactor(Redc(x), y, Redc(y));
  }

  /** A second Montgomery product by R^3 puts a plain Montgomery product into Montgomery form. */
  lemma RedcRestoredByR3(p: int)
    ensures Redc(Redc(Redc(p) * R3)) == p % Q
  {
    var u := Redc(p);
    RedcFactor(u, R3, Redc(R3));
    RedcOfR3();
    RedcMod(u * R2);
    RedcFactor(u, R2, Redc(R2));
    TimesRedcOfR2(u);
    ToMontRedc(p);
  }

  lemma RedcOfR3()
    ensures Redc(R3) == R2
  {
  }

  lemma TimesRedcOfR2(x: int)
    ensures (x * Redc(R2)) % Q == ToMont(x)
  {
    assert Redc(R2) == R % Q;
    MulModLeft(R, x);
    Commute(x, R % Q);
    Commute(x, R);
  }
}
