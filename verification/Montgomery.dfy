/**
  The Montgomery routines of fr.asm: multiplication, squaring, multiplication
  by one word, and reduction. The four share their building blocks: a row of
  partial products ("FirstLoop") and one reduction step ("SecondLoop"), each
  with two interleaved carry chains.
 */
module Montgomery {
  import opened Words
  import opened Modulus
  import opened RawField

  // -q^-1 mod 2^64
  const NP: Word := 0xc2e1f593efffffff

  /** Round 0 of "FirstLoop": x times the four limbs, into five registers. */
  method FirstRow(x: Word, b: array<Word>, cf0: Flag) returns (r11: Word, r12: Word, r13: Word, r14: Word, r15: Word, cf: Flag)
    requires b.Length == 4 && cf0 == 0
    ensures Value5(r11, r12, r13, r14, r15) == Times(x, Value(b[..]))
    ensures cf == 0
  {
    hide Times;
    var rax, r8;
    rax, r11 := MulX(x, b[0]);
    r8, r12 := MulX(x, b[1]);
    r12, cf := AddCarry(r12, rax, cf0);
    rax, r13 := MulX(x, b[2]);
    r13, cf := AddCarry(r13, r8, cf);
    r8, r14 := MulX(x, b[3]);
    r14, cf := AddCarry(r14, rax, cf);
    r15, cf := AddCarry(0, r8, cf);
    TimesLimbs(x, b[0], b[1], b[2], b[3]);
  }

  /** Later rounds of "FirstLoop": add x times the four limbs to the accumulator. */
  method AccumulateRow(x: Word, b: array<Word>, t11: Word, t12: Word, t13: Word, t14: Word, cf0: Flag, of0: Flag)
      returns (r11: Word, r12: Word, r13: Word, r14: Word, r15: Word, cf: Flag, of: Flag)
    requires b.Length == 4 && cf0 == of0 == 0
    ensures Value5(r11, r12, r13, r14, r15) == Value4(t11, t12, t13, t14) + Times(x, Value(b[..]))
    ensures cf == of == 0
  {
    hide Times;
    var rax, r8;
    r8, rax := MulX(x, b[0]);
    r11, cf := AddCarry(t11, rax, cf0);
    r12, of := AddCarry(t12, r8, of0);
    r8, rax := MulX(x, b[1]);
    r12, cf := AddCarry(r12, rax, cf);
    r13, of := AddCarry(t13, r8, of);
    r8, rax := MulX(x, b[2]);
    r13, cf := AddCarry(r13, rax, cf);
    r14, of := AddCarry(t14, r8, of);
    r8, rax := MulX(x, b[3]);
    r14, cf := AddCarry(r14, rax, cf);
    r15, of := AddCarry(0, r8, of);
    assert of == 0;
    r15, cf := AddCarry(r15, 0, cf);
    TimesLimbs(x, b[0], b[1], b[2], b[3]);
    RowFits(Value5(r11, r12, r13, r14, r15), cf, Value4(t11, t12, t13, t14), x, Value(b[..]));
  }

  /** A row added to four limbs fits in five. */
  lemma RowFits(v: nat, cf: Flag, t: nat, x: Word, b: nat)
    requires v + TWO_64 * TWO_256 * cf == t + Times(x, b)
    requires t < TWO_256 && b < TWO_256
    ensures cf == 0
  {
    TimesBound(x, b);
  }

  /**
    One "SecondLoop": add the multiple m of q that clears the lowest limb and
    drop that limb. m is determined by the lowest limb alone.
   */
  method ReduceRow(t11: Word, t12: Word, t13: Word, t14: Word, t15: Word, cf0: Flag, of0: Flag)
      returns (r11: Word, r12: Word, r13: Word, r14: Word, cf: Flag, of: Flag, ghost m: Word)
    requires cf0 == of0 == 0
    requires Value5(t11, t12, t13, t14, t15) + TWO_64 * Q <= TWO_256 * TWO_64
    ensures Value4(r11, r12, r13, r14) * TWO_64 == Value5(t11, t12, t13, t14, t15) + m * Q
    ensures cf == of == 0
  {
    hide Times;
    var rax, rdx, r8, lo;
    rax, rdx := MulX(NP, t11);
    m := rdx;
    ghost var hi := rax;
    TimesIsProduct(NP, t11);
    TimesIsProduct(rdx, Q0); TimesIsProduct(rdx, Q1); TimesIsProduct(rdx, Q2); TimesIsProduct(rdx, Q3);
    r8, lo := MulX(rdx, Q0);
    rax, cf := AddCarry(lo, t11, cf0);
    LowLimbClears(t11, hi, m, r8, lo, rax, cf);
    rax, r11 := MulX(rdx, Q1);
    r11, cf := AddCarry(r11, r8, cf);
    r11, of := AddCarry(r11, t12, of0);
    r8, r12 := MulX(rdx, Q2);
    r12, cf := AddCarry(r12, rax, cf);
    r12, of := AddCarry(r12, t13, of);
    rax, r13 := MulX(rdx, Q3);
    r13, cf := AddCarry(r13, r8, cf);
    r13, of := AddCarry(r13, t14, of);
    r14, cf := AddCarry(0, rax, cf);
    assert cf == 0;
    r14, of := AddCarry(r14, t15, of);
    ReducedFits(Value4(r11, r12, r13, r14), of, Value5(t11, t12, t13, t14, t15), m);
  }

  lemma ReducedFits(v: nat, of: Flag, t: nat, m: Word)
    requires v * TWO_64 + TWO_64 * TWO_256 * of == t + m * Q
    requires t + TWO_64 * Q <= TWO_256 * TWO_64
    ensures of == 0
  {
  }

  /** With m = t * (-q^-1) mod 2^64, the lowest limb of m * q + t is 0. */
  lemma LowLimbClears(t: Word, hi: Word, m: Word, phi: Word, plo: Word, s: Word, out: Flag)
    requires hi * TWO_64 + m == NP * t
    requires phi * TWO_64 + plo == m * Q0
    requires s + TWO_64 * out == plo + t
    ensures s == 0
  {
    var c := 0x33ad26d16d505ede; // (NP * Q0 + 1) / 2^64
    MultipleBelowWord(s, c * t - hi * Q0 - phi - out);
  }

  lemma MultipleBelowWord(s: Word, k: int)
    requires s == TWO_64 * k
    ensures s == 0
  {
  }

  // ---- the final comparison ----------------------------------------------------

  /** The `comparison` block: one conditional subtraction of q, then the stores. */
  method StoreReduced(r: array<Word>, r11: Word, r12: Word, r13: Word, r14: Word)
    requires r.Length == 4
    requires Value4(r11, r12, r13, r14) < 2 * Q
    modifies r
    ensures Value(r[..]) == Value4(r11, r12, r13, r14) % Q
  {
    ghost var t := Value4(r11, r12, r13, r14);
    var below := BelowModulus(r11, r12, r13, r14);
    if below {
      r[0], r[1], r[2], r[3] := r11, r12, r13, r14;
    } else {
      var cf;
      r[0], r[1], r[2], r[3], cf := SubLimbs(r11, r12, r13, r14, Q0, Q1, Q2, Q3);
      ModulusLimbs();
      DropBorrow(Value(r[..]), t - Q, cf);
    }
    OneSubtraction(t);
  }

  lemma OneSubtraction(t: nat)
    requires t < 2 * Q
    ensures t % Q == if t < Q then t else t - Q
  {
  }

  // ---- the four routines -----------------------------------------------------------

  /** The accumulator before each later row is below b + q, so no carry is lost in any row. */
  lemma RowBound(x: Word, b: nat, t: nat)
    requires b < Q && t < b + Q
    ensures t + Times(x, b) + TWO_64 * Q <= TWO_256 * TWO_64
  {
    TimesBound(x, b);
  }

  /** Each round keeps the accumulator below b + q. */
  lemma AccumulatorBound(x: Word, b: nat, t: nat, m: Word, next: nat)
    requires b < Q && t < b + Q
    requires next * TWO_64 == t + Times(x, b) + m * Q
    ensures next < b + Q
  {
    TimesBound(x, b);
  }

  /** Four exact divisions by 2^64 are one by 2^256. */
  lemma RoundsTelescope(p: nat, p0: int, p1: int, p2: int, p3: int, t1: nat, t2: nat, t3: nat, t4: nat,
                        m0: Word, m1: Word, m2: Word, m3: Word)
    requires p == p0 + 0x1_0000_0000_0000_0000 * p1
                  + 0x1_0000000000000000_0000000000000000 * p2
                  + 0x1_0000000000000000_0000000000000000_0000000000000000 * p3
    requires t1 * TWO_64 == p0 + m0 * Q
    requires t2 * TWO_64 == t1 + p1 + m1 * Q
    requires t3 * TWO_64 == t2 + p2 + m2 * Q
    requires t4 * TWO_64 == t3 + p3 + m3 * Q
    ensures t4 * R == p + Value4(m0, m1, m2, m3) * Q
    ensures t4 % Q == Redc(p)
  {
    RedcOfQuotient(t4, p, Value4(m0, m1, m2, m3));
  }

  /** Four rounds divide a * b plus a multiple of q by 2^256. */
  lemma RoundsCompose(a: seq<Word>, b: nat, t1: nat, t2: nat, t3: nat, t4: nat, m0: Word, m1: Word, m2: Word, m3: Word)
    requires |a| == 4
    requires t1 * TWO_64 == Times(a[0], b) + m0 * Q
    requires t2 * TWO_64 == t1 + Times(a[1], b) + m1 * Q
    requires t3 * TWO_64 == t2 + Times(a[2], b) + m2 * Q
    requires t4 * TWO_64 == t3 + Times(a[3], b) + m3 * Q
    ensures t4 % Q == Redc(Times(Value(a), b))
  {
    TimesSwap(a[0], b); TimesSwap(a[1], b); TimesSwap(a[2], b); TimesSwap(a[3], b);
    TimesLimbs(b, a[0], a[1], a[2], a[3]);
    RoundsTelescope(Times(b, Value(a)), Times(b, a[0]), Times(b, a[1]), Times(b, a[2]), Times(b, a[3]),
                    t1, t2, t3, t4, m0, m1, m2, m3);
    TimesSwap(b, Value(a));
  }

  /**
    `Fr_rawMMul`: for every a and every canonical b the result is the
    canonical a * b / 2^256 modulo q.
   */
  method RawMMul(r: array<Word>, a: array<Word>, b: array<Word>)
    requires r.Length == a.Length == b.Length == 4
    requires Value(b[..]) < Q
    modifies r
    ensures Value(r[..]) == Redc(old(Value(a[..])) * old(Value(b[..])))
  {
    ghost var va, vb := a[..], Value(b[..]);
    var cf, of: Flag := 0, 0;
    ghost var m0, m1, m2, m3;
    var r11, r12, r13, r14, r15;

    r11, r12, r13, r14, r15, cf := FirstRow(a[0], b, cf);
    RowBound(va[0], vb, 0);
    r11, r12, r13, r14, cf, of, m0 := ReduceRow(r11, r12, r13, r14, r15, cf, of);
    ghost var t1 := Value4(r11, r12, r13, r14);
    AccumulatorBound(va[0], vb, 0, m0, t1);

    RowBound(va[1], vb, t1);
    r11, r12, r13, r14, r15, cf, of := AccumulateRow(a[1], b, r11, r12, r13, r14, cf, of);
    r11, r12, r13, r14, cf, of, m1 := ReduceRow(r11, r12, r13, r14, r15, cf, of);
    ghost var t2 := Value4(r11, r12, r13, r14);
    AccumulatorBound(va[1], vb, t1, m1, t2);

    RowBound(va[2], vb, t2);
    r11, r12, r13, r14, r15, cf, of := AccumulateRow(a[2], b, r11, r12, r13, r14, cf, of);
    r11, r12, r13, r14, cf, of, m2 := ReduceRow(r11, r12, r13, r14, r15, cf, of);
    ghost var t3 := Value4(r11, r12, r13, r14);
    AccumulatorBound(va[2], vb, t2, m2, t3);

    RowBound(va[3], vb, t3);
    r11, r12, r13, r14, r15, cf, of := AccumulateRow(a[3], b, r11, r12, r13, r14, cf, of);
    r11, r12, r13, r14, cf, of, m3 := ReduceRow(r11, r12, r13, r14, r15, cf, of);
    ghost var t4 := Value4(r11, r12, r13, r14);
    AccumulatorBound(va[3], vb, t3, m3, t4);

    RoundsCompose(va, vb, t1, t2, t3, t4, m0, m1, m2, m3);
    TimesIsProduct(Value(va), vb);
    StoreReduced(r, r11, r12, r13, r14);
  }

  /** `Fr_rawMSquare`: the same rounds with the operand in both roles. */
  method RawMSquare(r: array<Word>, a: array<Word>)
    requires r.Length == a.Length == 4
    requires Value(a[..]) < Q
    modifies r
    ensures Value(r[..]) == Redc(old(Value(a[..])) * old(Value(a[..])))
  {
    ghost var va, v := a[..], Value(a[..]);
    var cf, of: Flag := 0, 0;
    ghost var m0, m1, m2, m3;
    var r11, r12, r13, r14, r15;

    r11, r12, r13, r14, r15, cf := FirstRow(a[0], a, cf);
    RowBound(va[0], v, 0);
    r11, r12, r13, r14, cf, of, m0 := ReduceRow(r11, r12, r13, r14, r15, cf, of);
    ghost var t1 := Value4(r11, r12, r13, r14);
    AccumulatorBound(va[0], v, 0, m0, t1);

    RowBound(va[1], v, t1);
    r11, r12, r13, r14, r15, cf, of := AccumulateRow(a[1], a, r11, r12, r13, r14, cf, of);
    r11, r12, r13, r14, cf, of, m1 := ReduceRow(r11, r12, r13, r14, r15, cf, of);
    ghost var t2 := Value4(r11, r12, r13, r14);
    AccumulatorBound(va[1], v, t1, m1, t2);

    RowBound(va[2], v, t2);
    r11, r12, r13, r14, r15, cf, of := AccumulateRow(a[2], a, r11, r12, r13, r14, cf, of);
    r11, r12, r13, r14, cf, of, m2 := ReduceRow(r11, r12, r13, r14, r15, cf, of);
    ghost var t3 := Value4(r11, r12, r13, r14);
    AccumulatorBound(va[2], v, t2, m2, t3);

    RowBound(va[3], v, t3);
    r11, r12, r13, r14, r15, cf, of := AccumulateRow(a[3], a, r11, r12, r13, r14, cf, of);
    r11, r12, r13, r14, cf, of, m3 := ReduceRow(r11, r12, r13, r14, r15, cf, of);
    ghost var t4 := Value4(r11, r12, r13, r14);
    AccumulatorBound(va[3], v, t3, m3, t4);

    RoundsCompose(va, v, t1, t2, t3, t4, m0, m1, m2, m3);
    TimesIsProduct(Value(va), v);
    StoreReduced(r, r11, r12, r13, r14);
  }

  /** `Fr_rawMMul1`: one row, then four reductions: the Montgomery product with a single word. */
  method RawMMul1(r: array<Word>, a: array<Word>, s: Word)
    requires r.Length == a.Length == 4
    requires Value(a[..]) < Q
    modifies r
    ensures Value(r[..]) == Redc(s * old(Value(a[..])))
  {
    ghost var v := Value(a[..]);
    var cf, of: Flag := 0, 0;
    ghost var m0, m1, m2, m3;
    var r11, r12, r13, r14, r15;

    r11, r12, r13, r14, r15, cf := FirstRow(s, a, cf);
    RowBound(s, v, 0);
    r11, r12, r13, r14, cf, of, m0 := ReduceRow(r11, r12, r13, r14, r15, cf, of);
    ghost var t1 := Value4(r11, r12, r13, r14);
    AccumulatorBound(s, v, 0, m0, t1);

    RowBound(0, v, t1);
    r11, r12, r13, r14, cf, of, m1 := ReduceRow(r11, r12, r13, r14, 0, cf, of);
    ghost var t2 := Value4(r11, r12, r13, r14);
    AccumulatorBound(0, v, t1, m1, t2);

    RowBound(0, v, t2);
    r11, r12, r13, r14, cf, of, m2 := ReduceRow(r11, r12, r13, r14, 0, cf, of);
    ghost var t3 := Value4(r11, r12, r13, r14);
    AccumulatorBound(0, v, t2, m2, t3);

    RowBound(0, v, t3);
    r11, r12, r13, r14, cf, of, m3 := ReduceRow(r11, r12, r13, r14, 0, cf, of);
    ghost var t4 := Value4(r11, r12, r13, r14);
    AccumulatorBound(0, v, t3, m3, t4);

    TimesIsProduct(s, v);
    RoundsTelescope(s * v, s * v, 0, 0, 0, t1, t2, t3, t4, m0, m1, m2, m3);
    StoreReduced(r, r11, r12, r13, r14);
  }

  /** `Fr_rawFromMontgomery`: four reductions of any four limbs, canonical or not. */
  method RawFromMontgomery(r: array<Word>, a: array<Word>)
    requires r.Length == a.Length == 4
    modifies r
    ensures Value(r[..]) == Redc(old(Value(a[..])))
  {
    ghost var v := Value(a[..]);
    var cf, of: Flag := 0, 0;
    ghost var m0, m1, m2, m3;
    var r11, r12, r13, r14 := a[0], a[1], a[2], a[3];

    r11, r12, r13, r14, cf, of, m0 := ReduceRow(r11, r12, r13, r14, 0, cf, of);
    ghost var t1 := Value4(r11, r12, r13, r14);
    r11, r12, r13, r14, cf, of, m1 := ReduceRow(r11, r12, r13, r14, 0, cf, of);
    ghost var t2 := Value4(r11, r12, r13, r14);
    r11, r12, r13, r14, cf, of, m2 := ReduceRow(r11, r12, r13, r14, 0, cf, of);
    ghost var t3 := Value4(r11, r12, r13, r14);
    r11, r12, r13, r14, cf, of, m3 := ReduceRow(r11, r12, r13, r14, 0, cf, of);
    ghost var t4 := Value4(r11, r12, r13, r14);

    RoundsTelescope(v, v, 0, 0, 0, t1, t2, t3, t4, m0, m1, m2, m3);
    QuotientBound(t4, v, Value4(m0, m1, m2, m3));
    StoreReduced(r, r11, r12, r13, r14);
  }

  lemma QuotientBound(t: nat, v: nat, m: nat)
    requires v < R && m < R
    requires t * R == v + m * Q
    ensures t <= Q
  {
  }

  /** `Fr_rawToMontgomery`: the Montgomery product with R^2 mod q. */
  method RawToMontgomery(r: array<Word>, a: array<Word>)
    requires r.Length == a.Length == 4
    modifies r
    ensures Value(r[..]) == ToMont(old(Value(a[..])))
  {
    ghost var v := Value(a[..]);
    var r2 := RadixSquared();
    RawMMul(r, a, r2);
    ToMontByR2(v);
  }

  /** The limbs `R2` of the data section. */
  method RadixSquared() returns (r: array<Word>)
    ensures fresh(r) && r.Length == 4 && Value(r[..]) == R2
  {
    r := new Word[4][0x1bb8e645ae216da7, 0x53fe3ab1e35c59e3, 0x8c49833d53bb8085, 0x0216d0b17f4e44a5];
  }

  /** The limbs `R3` of the data section. */
  method RadixCubed() returns (r: array<Word>)
    ensures fresh(r) && r.Length == 4 && Value(r[..]) == R3
  {
    r := new Word[4][0x5e94d8e1b4bf0040, 0x2a489cbe1cfbb6b8, 0x893cc664a19fcfed, 0x0cf8594b7fcc657c];
  }

  lemma ToMontByR2(x: int)
    ensures Redc(x * R2) == ToMont(x)
    ensures Redc(R2 * x) == ToMont(x)
  {
    RedcFactor(x, R2, Redc(R2));
    TimesRedcOfR2(x);
    Commute(x, R2);
  }
}
