/** `Fr_band`, `Fr_bor`, `Fr_bxor` and `Fr_bnot`. */
module TaggedBitwise {
  import opened Products
  import opened Words
  import opened Modulus
  import opened RawField
  import opened Elements
  import opened Bits
  import opened Comparison
  import opened Shift

  // ---- laws that pin the operations down ----------------------------------------------------

  /** Every bit set in x or y is counted once by Or and once more by And; Xor is the difference. */
  lemma {:induction false} AndOrXor(x: nat, y: nat)
    ensures Bitwise(And, x, y) + Bitwise(Or, x, y) == x + y
    ensures Bitwise(Xor, x, y) + Bitwise(And, x, y) == Bitwise(Or, x, y)
    decreases x + y
  {
    if x + y > 0 {
      AndOrXor(x / 2, y / 2);
    }
  }

  /** Bit k of a result is decided by bits k of the operands: both for And, either for Or, exactly one for Xor. */
  lemma {:induction false} BitOfResult(op: BitwiseOp, x: nat, y: nat, k: nat)
    ensures var p, q, b := x / Pow2(k) % 2, y / Pow2(k) % 2, Bitwise(op, x, y) / Pow2(k) % 2;
            b == 1 <==> match op
                        case And => p == 1 && q == 1
                        case Or => p == 1 || q == 1
                        case Xor => p != q
    decreases k
  {
    var r := Bitwise(op, x, y);
    BitwiseHalves(op, x, y);
    if k > 0 {
      BitOfResult(op, x / 2, y / 2, k - 1);
      HalfThenShift(x, k - 1);
      HalfThenShift(y, k - 1);
      HalfThenShift(r, k - 1);
    }
  }

  lemma BitwiseHalves(op: BitwiseOp, x: nat, y: nat)
    ensures Bitwise(op, x, y) % 2 == OnBits(op, x % 2, y % 2) && Bitwise(op, x, y) / 2 == Bitwise(op, x / 2, y / 2)
  {
  }

  lemma HalfThenShift(x: nat, k: nat)
    ensures x / Pow2(k + 1) == x / 2 / Pow2(k)
  {
    hide Pow2;
    var p := Pow2(k);
    DoubledPower(k);
    SplitAt(x, 2);
    SplitAt(x / 2, p);
    var q, r := x / 2 / p, x / 2 % p;
    Associate(2, p, q);
    DivModUnique(x, 2 * p, q, x % 2 + 2 * r);
  }

  lemma Pow2Zero()
    ensures Pow2(0) == 1
  {
  }

  lemma DoubledPower(k: nat)
    ensures Pow2(k + 1) == 2 * Pow2(k)
  {
  }

  /** Flipping all of k bits is subtracting from k ones. */
  lemma {:induction false} FlipAll(k: nat, x: nat)
    requires x < Pow2(k)
    ensures Bitwise(Xor, x, Pow2(k) - 1) == Pow2(k) - 1 - x
  {
    hide Bitwise, Pow2;
    if k == 0 {
      assert Pow2(0) == 1 by { Pow2Zero(); }
      BitwiseOfZeros(Xor);
    } else {
      DoubledPower(k - 1);
      FlipAll(k - 1, x / 2);
      BitwiseStep(Xor, x % 2, x / 2, 1, Pow2(k - 1) - 1);
    }
  }

  /** The complement has every one of the 254 bits flipped, and is then reduced. */
  lemma ComplementFlips(v: nat)
    requires v < Pow2(254)
    ensures Complement(v) == Bitwise(Xor, v, Pow2(254) - 1) % Q == (Pow2(254) - 1 - v) % Q
  {
    hide Pow2, Bitwise;
    FlipAll(254, v);
    Pow2Limbs();
  }

  /** What `bnot` leaves of a residue: its 254-bit complement, reduced. */
  function Complement(v: nat): (c: nat)
    ensures c < Q
  {
    (TWO_254 - 1 - v) % Q
  }

  /** Complementing twice gives the residue back, although the complement itself is reduced. */
  lemma ComplementInvolution(v: nat)
    requires v < Q
    ensures Complement(Complement(v)) == v
  {
  }

  // ---- limbs -------------------------------------------------------------------------------------

  lemma LimbwiseValue(op: BitwiseOp, x0: Word, x1: Word, x2: Word, x3: Word, y0: Word, y1: Word, y2: Word, y3: Word)
    ensures Bitwise(op, x0, y0) < TWO_64 && Bitwise(op, x1, y1) < TWO_64
    ensures Bitwise(op, x2, y2) < TWO_64 && Bitwise(op, x3, y3) < TWO_64
    ensures Value4(Bitwise(op, x0, y0), Bitwise(op, x1, y1), Bitwise(op, x2, y2), Bitwise(op, x3, y3))
         == Bitwise(op, Value4(x0, x1, x2, x3), Value4(y0, y1, y2, y3))
  {
    hide Bitwise, High, Value4;
    var x23, y23 := High(x2, x3), High(y2, y3);
    var x123, y123 := High(x1, x23), High(y1, y23);
    ByHalves(x0, x1, x2, x3);
    ByHalves(y0, y1, y2, y3);
    LowLimb(op, x0, x123, y0, y123);
    LowLimb(op, x1, x23, y1, y23);
    LowLimb(op, x2, x3, y2, y3);
    LowLimb(op, x3, 0, y3, 0);
    ByHalves(Bitwise(op, x0, y0), Bitwise(op, x1, y1), Bitwise(op, x2, y2), Bitwise(op, x3, y3));
  }

  lemma LowLimb(op: BitwiseOp, x: Word, m: nat, y: Word, n: nat)
    ensures Bitwise(op, x, y) < TWO_64
    ensures Bitwise(op, High(x, m), High(y, n)) == High(Bitwise(op, x, y), Bitwise(op, m, n))
  {
    hide Bitwise, Pow2;
    Pow2Limb();
    BitwiseSplit(op, 64, x, m, y, n);
  }

  lemma ByHalves(x0: Word, x1: Word, x2: Word, x3: Word)
    ensures Value4(x0, x1, x2, x3) == High(x0, High(x1, High(x2, x3)))
  {
  }

  /** Residues have 254 bits, and so has any bitwise combination of them. */
  lemma CombinationFits(op: BitwiseOp, x: nat, y: nat)
    requires x < Q && y < Q
    ensures Bitwise(op, x, y) < TWO_254
  {
    hide Bitwise, Pow2;
    Pow2Limbs();
    BitwiseSplit(op, 254, x, 0, y, 0);
  }

  /** The limbs of any two buffers are combined, masked to 254 bits and reduced once. */
  method LimbsBitwise(op: BitwiseOp, r: array<Word>, x: array<Word>, y: array<Word>)
    requires r.Length == x.Length == y.Length == 4
    modifies r
    ensures Value(r[..]) == Bitwise(op, old(Value(x[..])), old(Value(y[..]))) % TWO_254 % Q
  {
    hide Bitwise, Value4;
    LimbwiseValue(op, x[0], x[1], x[2], x[3], y[0], y[1], y[2], y[3]);
    var b0, b1, b2, b3 := Bitwise(op, x[0], y[0]), Bitwise(op, x[1], y[1]), Bitwise(op, x[2], y[2]), Bitwise(op, x[3], y[3]);
    var top := TopMask(b3);
    MaskLimbs(b0, b1, b2, b3, top);
    r[0], r[1], r[2], r[3] := b0, b1, b2, top;
    ReduceMasked(r);
  }

  lemma MaskLimbs(x0: Word, x1: Word, x2: Word, x3: Word, top: Word)
    requires top == x3 % 0x4000_0000_0000_0000
    ensures Value4(x0, x1, x2, top) == Value4(x0, x1, x2, x3) % TWO_254 < TWO_254
  {
    MaskedTop(Value4(x0, x1, x2, x3), x0, x1, x2, x3, top);
  }

  // ---- dispatch ------------------------------------------------------------------------------------

  /**
    The operand x is the destination and is converted only after the
    destination was tagged long normal: a long Montgomery element, a negative
    short, or any short beside a negative short. Its limbs are then read as
    they lie there.
   */
  ghost predicate ReadsStale(r: FrElement, x: FrElement, other: FrElement)
    reads x, other
  {
    && r == x
    && (x.tag == LongMontgomery
        || (!x.tag.IsLong() && (x.shortVal < 0 || (!other.tag.IsLong() && other.shortVal < 0))))
  }

  /** The number an operand contributes. */
  ghost function Contributes(r: FrElement, x: FrElement, other: FrElement): nat
    requires x.WellFormed()
    reads x, x.longVal, other
  {
    if ReadsStale(r, x, other) then Value(x.longVal[..]) else x.Denotes()
  }

  /** The limbs of an operand after the destination was tagged; a non-negative short beside a long is used directly. */
  method OperandLimbs(x: FrElement, direct: bool) returns (limbs: array<Word>)
    requires x.longVal.Length == 4 && (direct ==> x.shortVal >= 0)
    requires direct || x.tag == LongNormal || x.WellFormed()
    ensures limbs.Length == 4
    ensures direct ==> Value(limbs[..]) == x.shortVal
    ensures !direct && x.tag == LongNormal ==> limbs == x.longVal
    ensures !direct && x.WellFormed() ==> Value(limbs[..]) == x.Denotes()
  {
    if direct {
      limbs := new Word[4][x.shortVal, 0, 0, 0];
    } else {
      limbs := NormalLimbs(x);
    }
  }

  /**
    `Fr_band`, `Fr_bor`, `Fr_bxor`. Two non-negative shorts give a short; every
    other pair goes through limbs, with the destination tagged first. The
    result is right unless an operand is read through that tag.
   */
  method Combine(op: BitwiseOp, r: FrElement, a: FrElement, b: FrElement)
    requires r.longVal.Length == 4 && a.WellFormed() && b.WellFormed()
    requires Apart(r, a) && Apart(r, b) && Apart(a, b)
    modifies r, r.longVal
    ensures r.WellFormed() && !r.tag.IsMontgomery()
    ensures r.Denotes() == Bitwise(op, old(Contributes(r, a, b)), old(Contributes(r, b, a))) % TWO_254 % Q
    ensures !old(ReadsStale(r, a, b)) && !old(ReadsStale(r, b, a)) ==>
              r.Denotes() == Bitwise(op, old(a.Denotes()), old(b.Denotes())) % Q
  {
    hide Redc, Bitwise, Value4;
    UnmaskedCombination(op, a.View(), b.View());
    if !a.tag.IsLong() && !b.tag.IsLong() && a.shortVal >= 0 && b.shortVal >= 0 {
      SmallResidue(a.shortVal);
      SmallResidue(b.shortVal);
      CombineShorts(op, r, a.shortVal, b.shortVal);
    } else {
      CombineLimbs(op, r, a, b);
    }
  }

  /** Of two residues the mask loses nothing. */
  lemma UnmaskedCombination(op: BitwiseOp, a: Repr, b: Repr)
    requires a.WellFormed() && b.WellFormed()
    ensures Bitwise(op, a.Denotes(), b.Denotes()) % TWO_254 % Q == Bitwise(op, a.Denotes(), b.Denotes()) % Q
  {
    hide Redc, Bitwise;
    ResidueBelow(a);
    ResidueBelow(b);
    CombinationFits(op, a.Denotes(), b.Denotes());
  }

  method CombineShorts(op: BitwiseOp, r: FrElement, x: nat, y: nat)
    requires r.longVal.Length == 4 && x < 0x8000_0000 && y < 0x8000_0000
    modifies r
    ensures r.WellFormed() && r.tag == Short
    ensures r.Denotes() == Bitwise(op, x, y) % TWO_254 % Q
  {
    hide Bitwise;
    ShortCombination(op, x, y);
    r.tag, r.shortVal := Short, Bitwise(op, x, y);
    SmallResidue(r.shortVal);
  }

  /** Every pair but two non-negative shorts. */
  method CombineLimbs(op: BitwiseOp, r: FrElement, a: FrElement, b: FrElement)
    requires r.longVal.Length == 4 && a.WellFormed() && b.WellFormed()
    requires Apart(r, a) && Apart(r, b) && Apart(a, b)
    requires a.tag.IsLong() || b.tag.IsLong() || a.shortVal < 0 || b.shortVal < 0
    modifies r, r.longVal
    ensures r.WellFormed() && r.tag == LongNormal
    ensures r.Denotes() == Bitwise(op, old(Contributes(r, a, b)), old(Contributes(r, b, a))) % TWO_254 % Q
  {
    hide Redc, Bitwise, Value4;
    ghost var va, vb := Contributes(r, a, b), Contributes(r, b, a);
    var aDirect := !a.tag.IsLong() && b.tag.IsLong() && a.shortVal >= 0;
    var bDirect := !b.tag.IsLong() && a.tag.IsLong() && b.shortVal >= 0;
    SmallResidue(a.shortVal);
    SmallResidue(b.shortVal);
    r.tag := LongNormal;
    var y := OperandLimbs(b, bDirect);
    var x := OperandLimbs(a, aDirect);
    assert Value(x[..]) == va;
    assert Value(y[..]) == vb;
    LimbsBitwise(op, r.longVal, x, y);
  }

  lemma ShortCombination(op: BitwiseOp, x: nat, y: nat)
    requires x < 0x8000_0000 && y < 0x8000_0000
    ensures Bitwise(op, x, y) < 0x8000_0000
  {
    hide Bitwise, Pow2;
    Pow2At31();
    BitwiseSplit(op, 31, x, 0, y, 0);
  }

  lemma ComplementedLimbs(x0: Word, x1: Word, x2: Word, x3: Word, top: Word)
    requires top == (0xffff_ffff_ffff_ffff - x3) % 0x4000_0000_0000_0000
    ensures Value4(0xffff_ffff_ffff_ffff - x0, 0xffff_ffff_ffff_ffff - x1, 0xffff_ffff_ffff_ffff - x2, top)
            == TWO_254 - 1 - Value4(x0, x1, x2, x3) % TWO_254
  {
    var low := x3 % 0x4000_0000_0000_0000;
    assert top == 0x3fff_ffff_ffff_ffff - low;
    MaskLimbs(x0, x1, x2, x3, low);
  }

  /** `Fr_bnot`. Like the others it tags first: a converted operand must not be the destination. */
  method Not(r: FrElement, a: FrElement)
    requires r.longVal.Length == 4 && a.WellFormed() && Apart(r, a)
    modifies r, r.longVal
    ensures r.WellFormed() && r.tag == LongNormal
    ensures r != a || old(a.tag) == LongNormal ==>
              r.Denotes() == Bitwise(Xor, old(a.Denotes()), Pow2(254) - 1) % Q == (Pow2(254) - 1 - old(a.Denotes())) % Q
    ensures r == a && old(a.tag) != LongNormal ==>
              r.Denotes() == (Pow2(254) - 1 - old(Value(a.longVal[..])) % Pow2(254)) % Q
  {
    hide Redc, Value4, Complement, Bitwise, Pow2;
    Pow2Limbs();
    ComplementFlips(a.Denotes() % TWO_254);
    ComplementFlips(Value(a.longVal[..]) % TWO_254);
    ResidueBelow(a.View());
    ResidueFits(a.Denotes());
    r.tag := LongNormal;
    var x := NormalLimbs(a);
    ComplementLimbs(r.longVal, x);
  }

  method ComplementLimbs(r: array<Word>, x: array<Word>)
    requires r.Length == x.Length == 4
    modifies r
    ensures Value(r[..]) == Complement(old(Value(x[..])) % TWO_254)
  {
    hide Value4;
    var ones: Word := 0xffff_ffff_ffff_ffff;
    var top := TopMask(ones - x[3]);
    ComplementedLimbs(x[0], x[1], x[2], x[3], top);
    r[0], r[1], r[2], r[3] := ones - x[0], ones - x[1], ones - x[2], top;
    ReduceMasked(r);
  }

  lemma ResidueFits(v: nat)
    requires v < Q
    ensures v % TWO_254 == v
  {
  }

  // ---- when an aliased destination is harmless -----------------------------------------------------

  lemma {:induction false} BitwiseCommutes(op: BitwiseOp, x: nat, y: nat)
    ensures Bitwise(op, x, y) == Bitwise(op, y, x)
    decreases x + y
  {
    if x + y > 0 {
      BitwiseCommutes(op, x / 2, y / 2);
    }
  }

  /** The mask drops what a stale operand has above bit 253. */
  lemma OnlyLowBits(op: BitwiseOp, x: nat, stale: nat)
    requires x < TWO_254
    ensures Bitwise(op, x, stale) % TWO_254 == Bitwise(op, x, stale % TWO_254)
  {
    hide Bitwise, Pow2;
    Pow2Limbs();
    var s, h := stale % TWO_254, stale / TWO_254;
    BitwiseSplit(op, 254, x, 0, s, h);
    DivModUnique(Bitwise(op, x, stale), TWO_254, Bitwise(op, 0, h), Bitwise(op, x, s));
  }

  lemma {:induction false} AndBelow(x: nat, y: nat)
    ensures Bitwise(And, x, y) <= x
    decreases x + y
  {
    if x + y > 0 {
      AndBelow(x / 2, y / 2);
    }
  }

  /** A number is determined by its conjunctions with the powers of two. */
  lemma {:induction false} BitsDetermine(x: nat, y: nat, n: nat)
    requires x < Pow2(n) && y < Pow2(n)
    requires forall k: nat :: k < n ==> Bitwise(And, Pow2(k), x) == Bitwise(And, Pow2(k), y)
    ensures x == y
  {
    if n > 0 {
      LowBit(x);
      LowBit(y);
      assert Bitwise(And, Pow2(0), x) == Bitwise(And, Pow2(0), y);
      forall k: nat | k < n - 1
        ensures Bitwise(And, Pow2(k), x / 2) == Bitwise(And, Pow2(k), y / 2)
      {
        HigherBit(k, x);
        HigherBit(k, y);
        assert Bitwise(And, Pow2(k + 1), x) == Bitwise(And, Pow2(k + 1), y);
      }
      BitsDetermine(x / 2, y / 2, n - 1);
    }
  }

  lemma LowBit(x: nat)
    ensures Bitwise(And, Pow2(0), x) == x % 2
  {
    BitwiseWithZero(And, x / 2);
  }

  lemma HigherBit(k: nat, x: nat)
    ensures Bitwise(And, Pow2(k + 1), x) == 2 * Bitwise(And, Pow2(k), x / 2)
  {
    BitwiseStep(And, 0, Pow2(k), x % 2, x / 2);
  }

  /** What Or and Xor with 1 do to a number. */
  lemma WithOne(x: nat)
    ensures Bitwise(Or, 1, x) == x + 1 - x % 2
    ensures Bitwise(Xor, 1, x) == x + 1 - 2 * (x % 2)
  {
    BitwiseWithZero(Or, x / 2);
    BitwiseWithZero(Xor, x / 2);
  }

  lemma Pow2BelowModulus(k: nat)
    requires k < 254
    ensures Pow2(k) < Q
  {
    hide Pow2;
    Pow2Limbs();
    Pow2Add(k, 253 - k);
    Pow2Add(253, 1);
    assert Pow2(1) == 2 by { Pow2One(); }
    MulMonotone(Pow2(k), 1, Pow2(253 - k));
  }

  lemma Pow2One()
    ensures Pow2(1) == 2
  {
    assert Pow2(0) == 1;
  }

  /** A stale operand gives the right result beside every other operand. */
  ghost predicate Harmless(op: BitwiseOp, stale: nat, d: nat) {
    forall x: nat :: x < Q ==> Bitwise(op, x, stale) % TWO_254 % Q == Bitwise(op, x, d) % Q
  }

  /**
    Limbs read through the destination's new tag are harmless beside every
    other operand exactly when their low 254 bits are the operand's residue.
   */
  lemma StaleOperandHarmless(op: BitwiseOp, stale: nat, d: nat)
    requires d < Q
    ensures Harmless(op, stale, d) <==> stale % TWO_254 == d
  {
    hide Bitwise;
    var s := stale % TWO_254;
    forall x: nat | x < Q
      ensures Bitwise(op, x, stale) % TWO_254 == Bitwise(op, x, s)
    {
      OnlyLowBits(op, x, stale);
    }
    if Harmless(op, stale, d) {
      forall x: nat | x < Q
        ensures Bitwise(op, x, s) % Q == Bitwise(op, x, d) % Q
      {
        assert Bitwise(op, x, stale) % TWO_254 % Q == Bitwise(op, x, d) % Q;
      }
      AgreementDetermines(op, s, d);
    }
  }

  lemma AgreementDetermines(op: BitwiseOp, s: nat, d: nat)
    requires s < TWO_254 && d < Q
    requires forall x: nat :: x < Q ==> Bitwise(op, x, s) % Q == Bitwise(op, x, d) % Q
    ensures s == d
  {
    hide Bitwise;
    if op == And {
      ConjunctionsDetermine(s, d);
    } else {
      OneDetermines(op, s, d);
    }
  }

  /** For And, the powers of two below q are enough. */
  lemma ConjunctionsDetermine(s: nat, d: nat)
    requires s < TWO_254 && d < Q
    requires forall x: nat :: x < Q ==> Bitwise(And, x, s) % Q == Bitwise(And, x, d) % Q
    ensures s == d
  {
    hide Bitwise, Pow2;
    Pow2Limbs();
    forall k: nat | k < 254
      ensures Bitwise(And, Pow2(k), s) == Bitwise(And, Pow2(k), d)
    {
      Pow2BelowModulus(k);
      AndBelow(Pow2(k), s);
      AndBelow(Pow2(k), d);
      assert Bitwise(And, Pow2(k), s) % Q == Bitwise(And, Pow2(k), d) % Q;
    }
    BitsDetermine(s, d, 254);
  }

  /** For Or and Xor, 0 and 1 are enough. */
  lemma OneDetermines(op: BitwiseOp, s: nat, d: nat)
    requires op != And && s < TWO_254 && d < Q
    requires Bitwise(op, 0, s) % Q == Bitwise(op, 0, d) % Q
    requires Bitwise(op, 1, s) % Q == Bitwise(op, 1, d) % Q
    ensures s == d
  {
    hide Bitwise;
    BitwiseWithZero(op, s);
    BitwiseWithZero(op, d);
    WithOne(s);
    WithOne(d);
    if op == Or {
      OddModulusOr(s, d);
    } else {
      OddModulusXor(s, d);
    }
  }

  /** Adding the odd modulus changes the lowest bit, which the operation with 1 shows. */
  lemma OddModulusOr(s: nat, d: nat)
    requires s < TWO_254 && d < Q && s % Q == d % Q
    requires (s + 1 - s % 2) % Q == (d + 1 - d % 2) % Q
    ensures s == d
  {
    Wraps(s, d);
    Wraps(s + 1 - s % 2, d + 1 - d % 2);
  }

  lemma OddModulusXor(s: nat, d: nat)
    requires s < TWO_254 && d < Q && s % Q == d % Q
    requires (s + 1 - 2 * (s % 2)) % Q == (d + 1 - 2 * (d % 2)) % Q
    ensures s == d
  {
    Wraps(s, d);
    Wraps(s + 1 - 2 * (s % 2), d + 1 - 2 * (d % 2));
  }

  /** Below 2^254, congruent numbers are equal or q apart. */
  lemma Wraps(s: int, d: int)
    requires -1 <= s <= TWO_254 && -1 <= d <= Q && s % Q == d % Q
    ensures s == d || s == d + Q || s == d - Q
  {
    var k := s / Q - d / Q;
    assert s - d == k * Q;
  }

  /**
    If both operands are the destination, both are read stale: Xor is always
    right, And and Or exactly when the low 254 bits denote the residue.
   */
  lemma StalePairRight(op: BitwiseOp, stale: nat, d: nat)
    requires d < Q
    ensures Bitwise(op, stale, stale) % TWO_254 % Q == Bitwise(op, d, d) % Q <==> op == Xor || stale % TWO_254 % Q == d
  {
    hide Bitwise;
    WithItself(op, stale);
    WithItself(op, d);
  }

  lemma {:induction false} WithItself(op: BitwiseOp, x: nat)
    ensures Bitwise(op, x, x) == if op == Xor then 0 else x
  {
    if x > 0 {
      WithItself(op, x / 2);
    }
  }

  /** A complement through a stale operand is right exactly when its low 254 bits denote the residue. */
  lemma StaleComplementRight(stale: nat, d: nat)
    requires d < Q
    ensures Complement(stale % TWO_254) == Complement(d) <==> stale % TWO_254 % Q == d
  {
  }

  /** A destination that fails: 0 or -1, the short -1 with zeroed limbs being the destination, gives 0. */
  method AliasedOrExample() returns (wrong: FrElement)
    ensures wrong.WellFormed() && wrong.Denotes() == 0 != Bitwise(Or, 0, Q - 1) % Q
  {
    hide Redc, Bitwise, Value4;
    var zero := new FrElement();
    zero.tag := LongNormal;
    RawZero(zero.longVal);
    wrong := new FrElement();
    wrong.tag, wrong.shortVal := Short, -1;
    RawZero(wrong.longVal);
    assert Contributes(wrong, zero, wrong) == 0 && Contributes(wrong, wrong, zero) == 0;
    Combine(Or, wrong, zero, wrong);
    BitwiseWithZero(Or, Q - 1);
    BitwiseOfZeros(Or);
  }

  /** A destination that fails: the complement of the short 1 with zeroed limbs, stored over it, is that of 0. */
  method AliasedNotExample() returns (wrong: FrElement)
    ensures wrong.WellFormed() && wrong.Denotes() == Complement(0) != Complement(1)
  {
    hide Redc, Value4, Complement, Bitwise, Pow2;
    wrong := new FrElement();
    wrong.tag, wrong.shortVal := Short, 1;
    RawZero(wrong.longVal);
    assert Value(wrong.longVal[..]) % TWO_254 == 0;
    Pow2Limbs();
    ComplementFlips(0);
    Not(wrong, wrong);
    ComplementInvolution(0);
    ComplementInvolution(1);
  }
}
