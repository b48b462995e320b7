/** Powers of two and bitwise operations on naturals. */
module Bits {
  import opened Products

  function Pow2(n: nat): (p: nat)
    ensures p >= 1
  {
    if n == 0 then 1 else 2 * Pow2(n - 1)
  }

  lemma {:induction false} Pow2Add(m: nat, n: nat)
    ensures Pow2(m + n) == Pow2(m) * Pow2(n)
  {
    if m > 0 {
      Pow2Add(m - 1, n);
      Double(Pow2(m - 1), Pow2(n));
    }
  }

  lemma Double(x: int, y: int)
    ensures 2 * (x * y) == (2 * x) * y
  {
  }

  lemma Pow2Limb()
    ensures Pow2(62) == 0x4000_0000_0000_0000
    ensures Pow2(64) == 0x1_0000_0000_0000_0000
  {
    assert Pow2(2) == 4;
    hide Pow2;
    Pow2Add(2, 2); Pow2Add(4, 4); Pow2Add(8, 8); Pow2Add(16, 16);
    Pow2Add(4, 2); Pow2Add(8, 6); Pow2Add(16, 14); Pow2Add(32, 30); Pow2Add(62, 2);
  }

  lemma Pow2At31()
    ensures Pow2(31) == 0x8000_0000
  {
    assert Pow2(3) == 8 && Pow2(4) == 16;
    hide Pow2;
    Pow2Add(4, 3);
    Pow2Add(4, 4);
    Pow2Add(8, 8);
    Pow2Add(8, 7);
    Pow2Add(16, 15);
  }

  lemma Pow2Limbs()
    ensures Pow2(128) == 0x1_0000000000000000_0000000000000000
    ensures Pow2(192) == 0x1_0000000000000000_0000000000000000_0000000000000000
    ensures Pow2(254) == 0x40000000_00000000_00000000_00000000_00000000_00000000_00000000_00000000
  {
    hide Pow2;
    Pow2Limb();
    Pow2Add(64, 64);
    Pow2Add(128, 64);
    Pow2Add(192, 62);
  }

  datatype BitwiseOp = And | Or | Xor

  function OnBits(op: BitwiseOp, p: nat, q: nat): (b: nat)
    requires p <= 1 && q <= 1
    ensures b <= 1
  {
    match op
    case And => if p + q == 2 then 1 else 0
    case Or => if p + q >= 1 then 1 else 0
    case Xor => if p + q == 1 then 1 else 0
  }

  /** A bitwise operation, bit by bit from the least significant end. */
  function Bitwise(op: BitwiseOp, x: nat, y: nat): nat
    decreases x + y
  {
    if x == 0 && y == 0 then 0
    else OnBits(op, x % 2, y % 2) + 2 * Bitwise(op, x / 2, y / 2)
  }

  lemma BitwiseStep(op: BitwiseOp, b: nat, m: nat, c: nat, n: nat)
    requires b <= 1 && c <= 1
    ensures Bitwise(op, b + 2 * m, c + 2 * n) == OnBits(op, b, c) + 2 * Bitwise(op, m, n)
  {
    assert (b + 2 * m) % 2 == b && (b + 2 * m) / 2 == m;
    assert (c + 2 * n) % 2 == c && (c + 2 * n) / 2 == n;
  }

  /** v with k zero bits below it. */
  function ShiftUp(k: nat, v: nat): nat {
    if k == 0 then v else 2 * ShiftUp(k - 1, v)
  }

  lemma {:induction false} ShiftUpScales(k: nat, v: nat)
    ensures ShiftUp(k, v) == Pow2(k) * v
  {
    if k > 0 {
      ShiftUpScales(k - 1, v);
      Double(Pow2(k - 1), v);
    }
  }

  lemma {:induction false} BitwiseShifted(op: BitwiseOp, k: nat, x: nat, xs: nat, y: nat, ys: nat)
    requires x < Pow2(k) && y < Pow2(k)
    ensures Bitwise(op, x + ShiftUp(k, xs), y + ShiftUp(k, ys))
         == Bitwise(op, x, y) + ShiftUp(k, Bitwise(op, xs, ys))
    ensures Bitwise(op, x, y) < Pow2(k)
  {
    hide Bitwise;
    if k == 0 {
      BitwiseOfZeros(op);
    } else {
      var b, m, c, n := x % 2, x / 2, y % 2, y / 2;
      assert x == b + 2 * m && y == c + 2 * n;
      BitwiseShifted(op, k - 1, m, xs, n, ys);
      StepSplit(op, Pow2(k - 1), b, m, ShiftUp(k - 1, xs), c, n, ShiftUp(k - 1, ys),
                ShiftUp(k - 1, Bitwise(op, xs, ys)));
    }
  }

  lemma BitwiseOfZeros(op: BitwiseOp)
    ensures Bitwise(op, 0, 0) == 0
  {
  }

  /** A bitwise operation acts on the low k bits and on the rest separately. */
  lemma BitwiseSplit(op: BitwiseOp, k: nat, x: nat, xs: nat, y: nat, ys: nat)
    requires x < Pow2(k) && y < Pow2(k)
    ensures Bitwise(op, x + Pow2(k) * xs, y + Pow2(k) * ys)
         == Bitwise(op, x, y) + Pow2(k) * Bitwise(op, xs, ys)
    ensures Bitwise(op, x, y) < Pow2(k)
  {
    BitwiseShifted(op, k, x, xs, y, ys);
    ShiftUpScales(k, xs);
    ShiftUpScales(k, ys);
    ShiftUpScales(k, Bitwise(op, xs, ys));
  }

  lemma StepSplit(op: BitwiseOp, p: nat, b: nat, m: nat, u: nat, c: nat, n: nat, v: nat, w: nat)
    requires b <= 1 && c <= 1
    requires Bitwise(op, m + u, n + v) == Bitwise(op, m, n) + w
    requires Bitwise(op, m, n) < p
    ensures Bitwise(op, b + 2 * m + 2 * u, c + 2 * n + 2 * v) == Bitwise(op, b + 2 * m, c + 2 * n) + 2 * w
    ensures Bitwise(op, b + 2 * m, c + 2 * n) < 2 * p
  {
    hide Bitwise;
    BitwiseStep(op, b, m + u, c, n + v);
    BitwiseStep(op, b, m, c, n);
    assert b + 2 * m + 2 * u == b + 2 * (m + u);
    assert c + 2 * n + 2 * v == c + 2 * (n + v);
  }

  lemma {:induction false} BitwiseWithZero(op: BitwiseOp, x: nat)
    ensures Bitwise(op, x, 0) == Bitwise(op, 0, x) == if op == And then 0 else x
  {
    if x > 0 {
      BitwiseWithZero(op, x / 2);
    }
  }

  /** All-ones masks. */
  lemma {:induction false} AndOnes(k: nat, x: nat)
    requires x < Pow2(k)
    ensures Bitwise(And, x, Pow2(k) - 1) == x
  {
    if k > 0 {
      AndOnes(k - 1, x / 2);
      BitwiseStep(And, x % 2, x / 2, 1, Pow2(k - 1) - 1);
    }
  }

  /** Masking with 2^k - 1 keeps the low k bits. */
  lemma AndLowMask(k: nat, x: nat)
    ensures Bitwise(And, x, Pow2(k) - 1) == x % Pow2(k)
  {
    hide Bitwise, Pow2;
    var p := Pow2(k);
    SplitAt(x, p);
    BitwiseSplit(And, k, x % p, x / p, p - 1, 0);
    AndOnes(k, x % p);
    BitwiseWithZero(And, x / p);
  }

  lemma SplitAt(x: nat, p: nat)
    requires p > 0
    ensures x == x % p + p * (x / p)
  {
  }

  /** Masking a word of k + j bits with all but its k low bits clears those. */
  lemma AndHighMask(k: nat, j: nat, x: nat)
    requires x < Pow2(k + j)
    ensures Pow2(k + j) - 1 - (Pow2(k) - 1) >= 0
    ensures Bitwise(And, x, Pow2(k + j) - 1 - (Pow2(k) - 1)) == x - x % Pow2(k)
  {
    hide Bitwise, Pow2;
    var p, m := Pow2(k), Pow2(j);
    Pow2Add(k, j);
    SplitAt(x, p);
    HighPart(x, p, m);
    BitwiseSplit(And, k, x % p, x / p, 0, m - 1);
    BitwiseWithZero(And, x % p);
    AndOnes(j, x / p);
    LessOne(p, m);
  }

  lemma LessOne(p: nat, m: nat)
    ensures p * m - 1 - (p - 1) == p * (m - 1)
  {
  }

  lemma HighPart(x: nat, p: nat, m: nat)
    requires p > 0 && x < p * m
    ensures x / p < m
  {
    SplitAt(x, p);
    var q := x / p;
    if q >= m {
      MulMonotone(p, m, q);
    }
  }

  /** Quotient and remainder are determined. */
  lemma DivModUnique(x: nat, m: nat, d: nat, r: nat)
    requires x == m * d + r && r < m
    ensures x / m == d && x % m == r
  {
    var e := x / m;
    SplitAt(x, m);
    if e < d {
      MulMonotone(m, e + 1, d);
    } else if e > d {
      MulMonotone(m, d + 1, e);
    }
  }

  /** Or-ing disjoint bits adds them. */
  lemma OrDisjoint(k: nat, low: nat, high: nat)
    requires low < Pow2(k)
    ensures Bitwise(Or, low, Pow2(k) * high) == Bitwise(Or, Pow2(k) * high, low) == low + Pow2(k) * high
  {
    hide Bitwise;
    BitwiseSplit(Or, k, low, 0, 0, high);
    BitwiseSplit(Or, k, 0, high, low, 0);
    BitwiseWithZero(Or, low);
    BitwiseWithZero(Or, high);
  }
}
