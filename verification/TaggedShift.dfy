/** `Fr_shr` and `Fr_shl`: decode the count, turn round on a negative one, dispatch on the operand. */
module TaggedShift {
  import opened Products
  import opened Words
  import opened Modulus
  import opened RawField
  import opened Elements
  import opened Bits
  import opened Comparison
  import opened Shift

  /** Shifting a residue left by a signed count; a negative count shifts right. */
  function Shifted(v: nat, count: int): nat {
    if count >= 0 then ShlSpec(v, count) else ShrSpec(v, 0 - count)
  }

  /** Counts of 254 or more, either way, leave nothing. */
  lemma FarShift(v: nat, count: int)
    requires v < Q && (count >= 254 || count <= -254)
    ensures Shifted(v, count) == 0
  {
    hide ShlSpec, Pow2;
    if count >= 254 {
      ShlVanishes(v, count);
    } else {
      ShrVanishes(v, 0 - count);
    }
  }

  /** A left shift that loses no bits is undone by the right shift by the same count. */
  lemma ShiftRoundTrip(v: nat, n: nat)
    requires v * Pow2(n) < Q
    ensures Shifted(Shifted(v, n), 0 - n) == v
  {
    hide Pow2, ShlSpec, ShrSpec;
    ShlExact(v, n);
    ShrExact(v, n);
    if n == 0 {
      Pow2Zero();
      ShlByZero(v);
    }
  }

  lemma ShlExact(v: nat, n: nat)
    requires 0 <= v * Pow2(n) < Q
    ensures ShlSpec(v, n) == v * Pow2(n)
  {
    hide Pow2;
    NoReduction(v * Pow2(n));
  }

  lemma NoReduction(x: nat)
    requires x < Q
    ensures x % TWO_254 % Q == x
  {
  }

  lemma ShrExact(v: nat, n: nat)
    requires 0 <= v * Pow2(n)
    ensures ShrSpec(v * Pow2(n), n) == v
  {
    hide Pow2;
    Commute(v, Pow2(n));
    DivModUnique(v * Pow2(n), Pow2(n), v, 0);
  }

  /** Right shifts compose by adding their counts. */
  lemma RightShiftsCompose(v: nat, m: nat, n: nat)
    requires m > 0 && n > 0
    ensures Shifted(Shifted(v, 0 - m), 0 - n) == Shifted(v, 0 - (m + n))
  {
    hide Pow2;
    Pow2Add(m, n);
    DivTwice(v, Pow2(m), Pow2(n));
  }

  // ---- the count ---------------------------------------------------------------------------

  /** The signed count, if its magnitude is below 254. */
  method DecodeCount(b: FrElement) returns (inRange: bool, count: int)
    requires b.WellFormed()
    ensures inRange <==> -254 < Signed(b.Denotes()) < 254
    ensures inRange ==> count == Signed(b.Denotes())
  {
    if !b.tag.IsLong() {
      SignedShort(b.shortVal);
      count := b.shortVal;
      inRange := -254 < count < 254;
    } else {
      var x := NormalLimbs(b);
      inRange, count := DecodeLongCount(x);
    }
  }

  /** Either three zero limbs over a small one, or the same for q minus the value. */
  method DecodeLongCount(x: array<Word>) returns (inRange: bool, count: int)
    requires x.Length == 4 && Value(x[..]) < Q
    ensures inRange <==> -254 < Signed(Value(x[..])) < 254
    ensures inRange ==> count == Signed(Value(x[..]))
  {
    hide Value4, Signed;
    ghost var v := Value(x[..]);
    SmallLimbs(x[0], x[1], x[2], x[3]);
    SmallCounts(v);
    if x[0] < 254 && x[1] == 0 && x[2] == 0 && x[3] == 0 {
      inRange, count := true, x[0];
    } else {
      var d0, d1, d2, d3, cf := SubLimbs(Q0, Q1, Q2, Q3, x[0], x[1], x[2], x[3]);
      ModulusLimbs();
      SmallLimbs(d0, d1, d2, d3);
      inRange := d0 < 254 && d1 == 0 && d2 == 0 && d3 == 0;
      count := -(d0 as int);
    }
  }

  lemma SmallLimbs(x0: Word, x1: Word, x2: Word, x3: Word)
    ensures Value4(x0, x1, x2, x3) < 254 <==> x0 < 254 && x1 == x2 == x3 == 0
    ensures x1 == x2 == x3 == 0 ==> Value4(x0, x1, x2, x3) == x0
  {
  }

  /** A small magnitude is a small residue or a small distance to q. */
  lemma SmallCounts(v: nat)
    requires v < Q
    ensures -254 < Signed(v) < 254 <==> v < 254 || Q - v < 254
    ensures v < 254 ==> Signed(v) == v
    ensures Q - v < 254 ==> Signed(v) == v - Q
  {
  }

  // ---- the operand -----------------------------------------------------------------------------

  method SetZero(r: FrElement)
    requires r.longVal.Length == 4
    modifies r
    ensures r.WellFormed() && r.Denotes() == 0
  {
    r.tag, r.shortVal := Short, 0;
  }

  /** `do_shl`: a small positive short stays short while the result fits 31 bits. */
  method ShiftLeft(r: FrElement, a: FrElement, n: nat)
    requires r.longVal.Length == 4 && a.WellFormed() && Apart(r, a) && n < 254
    modifies r, r.longVal
    ensures r.WellFormed() && r.Denotes() == ShlSpec(old(a.Denotes()), n)
  {
    hide Redc, ShlSpec, Pow2;
    if !a.tag.IsLong() {
      var s: int := a.shortVal;
      SmallResidue(s);
      if s == 0 {
        ZeroShifted(n);
        SetZero(r);
        return;
      }
      if s > 0 && n < 31 {
        SmallShift(s, n);
        var x := s * Pow2(n);
        if x < 0x8000_0000 {
          r.tag, r.shortVal := Short, x;
          SmallResidue(x);
          return;
        }
      }
    }
    var x := NormalLimbs(a);
    r.tag := LongNormal;
    RawShl(r.longVal, x, n);
    ResidueOfShift(old(a.Denotes()), n);
  }

  lemma ResidueOfShift(v: nat, n: nat)
    ensures ShlSpec(v, n) < Q
  {
  }

  lemma ZeroShifted(n: nat)
    ensures ShlSpec(0, n) == 0
    ensures 0 / Pow2(n) == 0
  {
    DivModUnique(0, Pow2(n), 0, 0);
  }

  lemma SmallShift(s: nat, n: nat)
    requires 0 < s < 0x8000_0000 && n < 31
    ensures s * Pow2(n) < Q && 0 <= s * Pow2(n)
    ensures ShlSpec(s, n) == s * Pow2(n)
  {
    hide Pow2;
    Pow2Add(n, 31 - n);
    Pow2Add(31, 31);
    Pow2Limb();
    MulMonotone(Pow2(n), 1, Pow2(31 - n));
    assert Pow2(62) == Pow2(31) * Pow2(31);
    Pow2At31();
    MulMonotone(s, Pow2(n), 0x8000_0000);
  }

  /** `do_shr`. */
  method ShiftRight(r: FrElement, a: FrElement, n: nat)
    requires r.longVal.Length == 4 && a.WellFormed() && Apart(r, a) && n < 254
    modifies r, r.longVal
    ensures r.WellFormed() && r.Denotes() == old(a.Denotes()) / Pow2(n)
  {
    hide Redc, Pow2;
    if !a.tag.IsLong() && a.shortVal >= 0 {
      var s: int := a.shortVal;
      SmallResidue(s);
      if s == 0 {
        ZeroShifted(n);
        SetZero(r);
      } else if n >= 31 {
        ShortVanishes(s, n);
        SetZero(r);
      } else {
        QuotientShrinks(s, Pow2(n));
        r.tag, r.shortVal := Short, s / Pow2(n);
        SmallResidue(s / Pow2(n));
      }
    } else {
      var x := NormalLimbs(a);
      QuotientShrinks(a.Denotes(), Pow2(n));
      r.tag := LongNormal;
      RawShr(r.longVal, x, n);
    }
  }

  lemma QuotientShrinks(v: nat, p: nat)
    requires p >= 1
    ensures 0 <= v / p <= v
  {
    SplitAt(v, p);
    MulMonotone(v / p, 1, p);
    Commute(v / p, p);
  }

  lemma ShortVanishes(s: nat, n: nat)
    requires s < 0x8000_0000 && n >= 31
    ensures s / Pow2(n) == 0
  {
    hide Pow2;
    Pow2At31();
    Pow2Add(31, n - 31);
    MulMonotone(0x8000_0000, 1, Pow2(n - 31));
    DivModUnique(s, Pow2(n), 0, s);
  }

  // ---- the two operations -------------------------------------------------------------------------

  method Shl(r: FrElement, a: FrElement, b: FrElement)
    requires r.longVal.Length == 4 && a.WellFormed() && b.WellFormed() && Apart(r, a) && Apart(r, b)
    modifies r, r.longVal
    ensures r.WellFormed()
    ensures var v, count := old(a.Denotes()), Signed(old(b.Denotes()));
            && r.Denotes() == Shifted(v, count)
            && (count >= 0 ==> r.Denotes() == v * Pow2(count) % Pow2(254) % Q)
            && (count < 0 ==> r.Denotes() == v / Pow2(0 - count))
  {
    ShiftedMeans(a.Denotes(), Signed(b.Denotes()));
    hide Redc, ShlSpec, Pow2;
    var inRange, count := DecodeCount(b);
    if !inRange {
      FarShift(a.Denotes(), Signed(b.Denotes()));
      SetZero(r);
    } else if count >= 0 {
      ShiftLeft(r, a, count);
    } else {
      ShiftRight(r, a, 0 - count);
    }
  }

  method Shr(r: FrElement, a: FrElement, b: FrElement)
    requires r.longVal.Length == 4 && a.WellFormed() && b.WellFormed() && Apart(r, a) && Apart(r, b)
    modifies r, r.longVal
    ensures r.WellFormed()
    ensures var v, count := old(a.Denotes()), Signed(old(b.Denotes()));
            && r.Denotes() == Shifted(v, 0 - count)
            && (count >= 0 ==> r.Denotes() == v / Pow2(count))
            && (count < 0 ==> r.Denotes() == v * Pow2(0 - count) % Pow2(254) % Q)
  {
    hide Redc, ShlSpec, Pow2, Shifted;
    ResidueBelow(a.View());
    TurnedMeans(a.Denotes(), Signed(b.Denotes()));
    var inRange, count := DecodeCount(b);
    if !inRange {
      FarShift(a.Denotes(), 0 - Signed(b.Denotes()));
      SetZero(r);
    } else if count >= 0 {
      ShiftRight(r, a, count);
    } else {
      ShiftLeft(r, a, 0 - count);
    }
  }

  lemma ShiftedMeans(v: nat, count: int)
    ensures count >= 0 ==> Shifted(v, count) == v * Pow2(count) % Pow2(254) % Q
    ensures count < 0 ==> Shifted(v, count) == v / Pow2(0 - count)
  {
    hide Pow2;
    Pow2Limbs();
  }

  /** The opposite count. */
  lemma TurnedMeans(v: nat, count: int)
    requires v < Q
    ensures count >= 0 ==> Shifted(v, 0 - count) == v / Pow2(count)
    ensures count < 0 ==> Shifted(v, 0 - count) == v * Pow2(0 - count) % Pow2(254) % Q == ShlSpec(v, 0 - count)
  {
    ByZero(v);
    hide Pow2;
    Pow2Limbs();
  }

  lemma ByZero(v: nat)
    requires v < Q
    ensures v / Pow2(0) == ShlSpec(v, 0) == v
  {
    ShlByZero(v);
    DivModUnique(v, 1, v, 0);
  }
}
