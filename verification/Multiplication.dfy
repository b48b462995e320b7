/** `Fr_mul` and `Fr_square`. */
module Multiplication {
  import opened Products
  import opened Words
  import opened Modulus
  import opened RawField
  import opened Montgomery
  import opened Elements

  // ---- what the limb routines mean for the denoted residues ------------------------

  /**
    The Montgomery product of limbs that hold a residue or its Montgomery form:
    two forms give a form, a mixed pair gives the residue itself, and two
    residues need a second product, by R^3.
   */
  lemma LimbProduct(xm: bool, ym: bool, x: nat, y: nat, dx: nat, dy: nat, v: nat)
    requires dx == if xm then Redc(x) else x
    requires dy == if ym then Redc(y) else y
    requires v == Redc(x * y)
    ensures xm && ym ==> Redc(v) == (dx * dy) % Q
    ensures xm != ym ==> v == (dx * dy) % Q
    ensures !xm && !ym ==> Redc(Redc(v * R3)) == (dx * dy) % Q
  {
    if !xm && !ym {
      RedcRestoredByR3(x * y);
    } else if xm && ym {
      RedcProduct(x, y);
    } else if xm {
      RedcFactor(y, x, Redc(x));
      Commute(x, y);
      Commute(dx, y);
    } else {
      RedcFactor(x, y, Redc(y));
    }
  }

  /** Scaling limbs by a signed short. */
  lemma ScaledByShort(v: nat, s: int)
    ensures NegSpec(Redc((0 - s) * v)) == Redc(s * v)
  {
    NegateResidue((0 - s) * v * RINV);
    assert -((0 - s) * v * RINV) == s * v * RINV by { SignPulls(s, v); }
  }

  lemma SignPulls(s: int, v: int)
    ensures (0 - s) * v == 0 - s * v
  {
  }

  lemma ShortTimesResidue(s: int, v: int)
    ensures ((s % Q) * v) % Q == (s * v) % Q
    ensures (v * (s % Q)) % Q == (s * v) % Q
  {
    MulModLeft(s, v);
    Commute(v, s % Q);
  }

  lemma ProductRange(x: Int32, y: Int32)
    ensures -0x4000_0000_0000_0000 <= x * y <= 0x4000_0000_0000_0000
  {
    var p, q: nat := if x < 0 then 0 - x else x, if y < 0 then 0 - y else y;
    MulMonotone(p, q, 0x8000_0000);
    MulMonotone(0x8000_0000, p, 0x8000_0000);
    assert x * y == p * q || x * y == 0 - p * q;
  }

  // ---- multiplication ------------------------------------------------------------------

  /** The result is in Montgomery form when the operands are of one kind, normal when they are mixed. */
  function ProductTag(a: Tag, b: Tag): Tag {
    if !a.IsLong() && !b.IsLong() then LongNormal
    else if a.IsMontgomery() == b.IsMontgomery() then LongMontgomery
    else LongNormal
  }

  method Mul(r: FrElement, a: FrElement, b: FrElement)
    requires r.longVal.Length == 4 && a.WellFormed() && b.WellFormed()
    requires Apart(r, a) && Apart(r, b) && Apart(a, b)
    modifies r, r.longVal
    ensures r.WellFormed() && r.Denotes() == (old(a.Denotes()) * old(b.Denotes())) % Q
    ensures r.tag == ProductTag(old(a.tag), old(b.tag))
  {
    if !a.tag.IsLong() && !b.tag.IsLong() {
      MulShorts(r, a.shortVal, b.shortVal);
    } else if a.tag.IsLong() && b.tag == Short {
      MulLongByShort(r, a, b.shortVal);
    } else if b.tag.IsLong() && a.tag == Short {
      Commute(a.Denotes(), b.Denotes());
      MulLongByShort(r, b, a.shortVal);
    } else {
      MulLimbs(r, a, b);
    }
  }

  /**
    `mul_s1s2`. A product that fits 32 bits is stored as a short, but there is
    no return: control falls into the overflow case, which stores it as a long.
   */
  method MulShorts(r: FrElement, x: Int32, y: Int32)
    requires r.longVal.Length == 4
    modifies r, r.longVal
    ensures r.WellFormed() && r.tag == LongNormal
    ensures r.Denotes() == ((x % Q) * (y % Q)) % Q
  {
    ProductRange(x, y);
    MulMod(x, y);
    var p: int := x * y;
    if -0x8000_0000 <= p < 0x8000_0000 {
      r.tag, r.shortVal := Short, p;
    }
    CopyIntToLong(r, p);
  }

  /** `Fr_rawMMul1` by the magnitude of a short, negated for a negative one. */
  method ScaleByShort(r: array<Word>, a: array<Word>, s: Int32)
    requires r.Length == a.Length == 4 && Value(a[..]) < Q
    modifies r
    ensures Value(r[..]) == Redc(s * old(Value(a[..])))
  {
    ghost var v := Value(a[..]);
    if s < 0 {
      RawMMul1(r, a, 0 - s);
      ScaledByShort(v, s);
      RawNeg(r, r);
    } else {
      RawMMul1(r, a, s);
    }
  }

  /** `mul_l1ns2n`, `mul_l1ms2n` and their mirror images. */
  method MulLongByShort(r: FrElement, a: FrElement, s: Int32)
    requires r.longVal.Length == 4 && a.WellFormed() && a.tag.IsLong() && Apart(r, a)
    modifies r, r.longVal
    ensures r.WellFormed() && r.tag == if old(a.tag) == LongNormal then LongMontgomery else LongNormal
    ensures r.Denotes() == (old(a.Denotes()) * (s % Q)) % Q
  {
    ghost var v := Value(a.longVal[..]);
    if a.tag == LongNormal {
      ShortTimesResidue(s, v);
      r.tag := LongMontgomery;
      ScaleByShort(r.longVal, a.longVal, s);
      TimesR3(r.longVal);
      RedcRestoredByR3(s * v);
    } else {
      ShortTimesResidue(s, Redc(v));
      RedcFactor(s, v, Redc(v));
      r.tag := LongNormal;
      ScaleByShort(r.longVal, a.longVal, s);
    }
  }

  method TimesR3(r: array<Word>)
    requires r.Length == 4
    modifies r
    ensures Value(r[..]) == Redc(old(Value(r[..])) * R3)
  {
    var r3 := RadixCubed();
    RawMMul(r, r, r3);
  }

  /** The branches that multiply limbs with limbs. */
  method MulLimbs(r: FrElement, a: FrElement, b: FrElement)
    requires r.longVal.Length == 4 && a.WellFormed() && b.WellFormed()
    requires Apart(r, a) && Apart(r, b) && Apart(a, b)
    requires a.tag != Short && b.tag != Short && (a.tag.IsLong() || b.tag.IsLong())
    modifies r, r.longVal
    ensures r.WellFormed() && r.Denotes() == (old(a.Denotes()) * old(b.Denotes())) % Q
    ensures r.tag == ProductTag(old(a.tag), old(b.tag))
  {
    hide Redc;
    ghost var va, vb := Value(a.longVal[..]), Value(b.longVal[..]);
    var am, bm := a.tag.IsMontgomery(), b.tag.IsMontgomery();
    if am { MontgomeryLimbs(a.View()); }
    if bm { MontgomeryLimbs(b.View()); }
    ghost var da, db := a.Denotes(), b.Denotes();
    r.tag := if am == bm then LongMontgomery else LongNormal;
    RawMMul(r.longVal, a.longVal, b.longVal);
    LimbProduct(am, bm, va, vb, da, db, Value(r.longVal[..]));
    if !am && !bm {
      TimesR3(r.longVal);
    }
  }

  // ---- squaring --------------------------------------------------------------------------

  method Square(r: FrElement, a: FrElement)
    requires r.longVal.Length == 4 && a.WellFormed() && Apart(r, a)
    modifies r, r.longVal
    ensures r.WellFormed() && r.Denotes() == (old(a.Denotes()) * old(a.Denotes())) % Q
    ensures r.tag == ProductTag(old(a.tag), old(a.tag))
  {
    hide Redc;
    if !a.tag.IsLong() {
      MulShorts(r, a.shortVal, a.shortVal);
    } else {
      ghost var v, d := Value(a.longVal[..]), a.Denotes();
      var montgomery := a.tag.IsMontgomery();
      r.tag := LongMontgomery;
      RawMSquare(r.longVal, a.longVal);
      LimbProduct(montgomery, montgomery, v, v, d, d, Value(r.longVal[..]));
      if !montgomery {
        TimesR3(r.longVal);
      }
    }
  }
}
