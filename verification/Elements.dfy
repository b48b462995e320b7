/**
  Tagged field elements and the conversions between their four representations.
 */
module Elements {
  import opened Words
  import opened Modulus
  import opened RawField
  import opened Montgomery

  // The two type bits: bit 31 says "long", bit 30 says "Montgomery".
  datatype Tag = Short | ShortMontgomery | LongNormal | LongMontgomery {
    predicate IsLong() { LongNormal? || LongMontgomery? }
    predicate IsMontgomery() { ShortMontgomery? || LongMontgomery? }
  }

  type Int32 = x: int | -0x8000_0000 <= x < 0x8000_0000
  type Int64 = x: int | -0x8000_0000_0000_0000 <= x < 0x8000_0000_0000_0000

  /** The contents of an element. */
  datatype Repr = Repr(tag: Tag, short: Int32, limbs: seq<Word>) {

    // The limbs are canonical where the tag says they matter; a short
    // Montgomery element carries its Montgomery form as well.
    ghost predicate WellFormed() {
      && |limbs| == 4
      && (tag.IsLong() ==> Value(limbs) < Q)
      && (tag == ShortMontgomery ==> Value(limbs) == ToMont(short))
    }

    /** The residue an element stands for. */
    ghost function Denotes(): nat
      requires WellFormed()
    {
      match tag
      case Short | ShortMontgomery => short % Q
      case LongNormal => Value(limbs)
      case LongMontgomery => Redc(Value(limbs))
    }
  }

  /** In both Montgomery representations the limbs are the Montgomery form of the residue. */
  lemma MontgomeryLimbs(e: Repr)
    requires e.WellFormed() && e.tag.IsMontgomery()
    ensures Value(e.limbs) < Q && Redc(Value(e.limbs)) == e.Denotes()
  {
    RedcToMont(e.short);
  }

  lemma ResidueBelow(e: Repr)
    requires e.WellFormed()
    ensures e.Denotes() < Q
  {
  }

  class FrElement {
    var shortVal: Int32
    var tag: Tag
    const longVal: array<Word>

    constructor ()
      ensures longVal.Length == 4 && fresh(longVal)
    {
      shortVal, tag := 0, Short;
      longVal := new Word[4];
    }

    ghost function View(): Repr
      reads this, longVal
    {
      Repr(tag, shortVal, longVal[..])
    }

    ghost predicate WellFormed()
      reads this, longVal
    {
      longVal.Length == 4 && View().WellFormed()
    }

    ghost function Denotes(): nat
      requires WellFormed()
      reads this, longVal
    {
      View().Denotes()
    }
  }

  /** The limbs are part of the element: distinct elements do not share them. */
  ghost predicate Apart(r: FrElement, a: FrElement) {
    r == a || r.longVal != a.longVal
  }

  // ---- conversions --------------------------------------------------------------

  method Copy(r: FrElement, a: FrElement)
    requires r.longVal.Length == a.longVal.Length == 4
    modifies r, r.longVal
    ensures r.View() == old(a.View())
  {
    r.tag, r.shortVal := a.tag, a.shortVal;
    r.longVal[0], r.longVal[1], r.longVal[2], r.longVal[3] := a.longVal[0], a.longVal[1], a.longVal[2], a.longVal[3];
    assert r.longVal[..] == old(a.longVal[..]);
  }

  /** `rawCopyS2L`: a signed 64-bit integer as a long normal element; q is added to a negative one. */
  method CopyIntToLong(r: FrElement, s: Int64)
    requires r.longVal.Length == 4
    modifies r, r.longVal
    ensures r.tag == LongNormal
    ensures Value(r.longVal[..]) == s % Q
  {
    r.tag, r.shortVal := LongNormal, 0;
    if s >= 0 {
      r.longVal[0], r.longVal[1], r.longVal[2], r.longVal[3] := s, 0, 0, 0;
    } else {
      var ones: Word := 0xffff_ffff_ffff_ffff;
      var cf;
      r.longVal[0], r.longVal[1], r.longVal[2], r.longVal[3], cf :=
        AddLimbs(s + TWO_64, ones, ones, ones, Q0, Q1, Q2, Q3);
      ModulusLimbs();
      DropCarry(Value(r.longVal[..]), s + TWO_256 + Q, cf);
    }
    SmallResidue(s);
  }

  lemma SmallResidue(s: Int64)
    ensures s % Q == if s >= 0 then s else s + Q
  {
  }

  method ToMontgomery(r: FrElement, a: FrElement)
    requires r.longVal.Length == a.longVal.Length == 4 && Apart(r, a)
    requires a.tag.IsMontgomery() || a.WellFormed()
    modifies r, r.longVal
    ensures old(a.WellFormed()) ==> r.WellFormed() && r.Denotes() == old(a.Denotes())
    ensures r.tag == if old(a.tag.IsLong()) then LongMontgomery else ShortMontgomery
    ensures old(a.tag.IsMontgomery()) ==> r.View() == old(a.View())
    ensures !old(a.tag.IsLong()) ==> r.shortVal == old(a.shortVal)
  {
    if a.tag.IsMontgomery() {
      Copy(r, a);
    } else if a.tag.IsLong() {
      LongToMontgomery(r, a);
    } else {
      ShortToMontgomery(r, a.shortVal);
    }
  }

  /** `toMontgomeryLong`. */
  method LongToMontgomery(r: FrElement, a: FrElement)
    requires r.longVal.Length == 4 && a.WellFormed() && a.tag == LongNormal && Apart(r, a)
    modifies r, r.longVal
    ensures r.WellFormed() && r.tag == LongMontgomery && r.Denotes() == old(a.Denotes())
  {
    ghost var v := Value(a.longVal[..]);
    r.tag, r.shortVal := a.tag, a.shortVal;
    RawToMontgomery(r.longVal, a.longVal);
    r.tag := LongMontgomery;
    CanonicalForm(v);
  }

  lemma CanonicalForm(v: nat)
    requires v < Q
    ensures ToMont(v) < Q && Redc(ToMont(v)) == v
  {
    RedcToMont(v);
  }

  /** `toMontgomeryShort`: multiply the magnitude, then negate a negative one. */
  method ShortToMontgomery(r: FrElement, s: Int32)
    requires r.longVal.Length == 4
    modifies r, r.longVal
    ensures r.View().WellFormed() && r.tag == ShortMontgomery && r.shortVal == s
  {
    r.shortVal := s;
    if s < 0 {
      var magnitude: int := s;
      MagnitudeToMontgomery(r.longVal, -magnitude);
      RawNeg(r.longVal, r.longVal);
      NegatedMont(s);
    } else {
      MagnitudeToMontgomery(r.longVal, s);
    }
    r.tag := ShortMontgomery;
  }

  method MagnitudeToMontgomery(r: array<Word>, s: Word)
    requires r.Length == 4
    modifies r
    ensures Value(r[..]) == ToMont(s)
  {
    var r2 := RadixSquared();
    RawMMul1(r, r2, s);
    ToMontByR2(s);
  }

  lemma NegatedMont(s: int)
    ensures NegSpec(ToMont(-s)) == ToMont(s)
  {
    NegateResidue((-s) * R);
  }

  lemma NegateResidue(x: int)
    ensures NegSpec(x % Q) == (-x) % Q
  {
    var k, m := x / Q, x % Q;
    Congruent(-x, if m == 0 then 0 else Q - m, if m == 0 then -k else -k - 1);
  }

  method ToNormal(r: FrElement, a: FrElement)
    requires r.longVal.Length == 4 && a.WellFormed() && Apart(r, a)
    modifies r, r.longVal
    ensures r.WellFormed() && r.Denotes() == old(a.Denotes())
    ensures r.tag == if old(a.tag.IsLong()) then LongNormal else old(a.tag)
    ensures !old(a.tag.IsLong()) ==> r.View() == old(a.View())
  {
    if a.tag.IsMontgomery() && a.tag.IsLong() {
      RawFromMontgomery(r.longVal, a.longVal);
      r.tag := LongNormal;
    } else {
      Copy(r, a);
    }
  }

  method ToLongNormal(r: FrElement, a: FrElement)
    requires r.longVal.Length == 4 && a.WellFormed() && Apart(r, a)
    modifies r, r.longVal
    ensures r.WellFormed() && r.tag == LongNormal
    ensures r.Denotes() == Value(r.longVal[..]) == old(a.Denotes())
  {
    if !a.tag.IsLong() {
      CopyIntToLong(r, a.shortVal);
    } else if a.tag.IsMontgomery() {
      RawFromMontgomery(r.longVal, a.longVal);
      r.tag := LongNormal;
    } else {
      Copy(r, a);
    }
  }
}
