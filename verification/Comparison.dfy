/** The comparisons: `Fr_rgt`, `Fr_rlt`, `Fr_req` and the six operations that store their answers. */
module Comparison {
  import opened Words
  import opened Modulus
  import opened Elements

  /** The signed reading of a residue: the upper half is negative. */
  function Signed(v: nat): int {
    if v <= HALF then v else v - Q
  }

  lemma SignedShort(s: Int32)
    ensures Signed(s % Q) == s
  {
    SmallResidue(s);
  }

  /** Signed reading is one-to-one, so the comparisons below form a total order on residues. */
  lemma SignedOrder(x: nat, y: nat)
    requires x < Q && y < Q
    ensures Signed(x) == Signed(y) <==> x == y
    ensures 0 - HALF <= Signed(x) <= HALF
    ensures Signed(x) % Q == x
  {
  }

  // ---- limb comparisons --------------------------------------------------------------

  method AboveHalf(x: array<Word>) returns (above: bool)
    requires x.Length == 4
    ensures above <==> Value(x[..]) > HALF
  {
    if x[3] != 0x183227397098d014 { return x[3] > 0x183227397098d014; }
    if x[2] != 0xdc2822db40c0ac2e { return x[2] > 0xdc2822db40c0ac2e; }
    if x[1] != 0x9419f4243cdcb848 { return x[1] > 0x9419f4243cdcb848; }
    return x[0] > 0xa1f0fac9f8000000;
  }

  /** `rgtRawL1L2`. */
  method LimbsGreater(x: array<Word>, y: array<Word>) returns (greater: bool)
    requires x.Length == y.Length == 4
    ensures greater <==> Value(x[..]) > Value(y[..])
  {
    if x[3] != y[3] { return x[3] > y[3]; }
    if x[2] != y[2] { return x[2] > y[2]; }
    if x[1] != y[1] { return x[1] > y[1]; }
    return x[0] > y[0];
  }

  /** `reqL1L2`. */
  method LimbsEqual(x: array<Word>, y: array<Word>) returns (equal: bool)
    requires x.Length == y.Length == 4
    ensures equal <==> Value(x[..]) == Value(y[..])
  {
    equal := x[0] == y[0] && x[1] == y[1] && x[2] == y[2] && x[3] == y[3];
    if Value(x[..]) == Value(y[..]) {
      LimbsUnique(x[..], y[..]);
      assert x[0] == x[..][0] && x[1] == x[..][1] && x[2] == x[..][2] && x[3] == x[..][3];
      assert y[0] == y[..][0] && y[1] == y[..][1] && y[2] == y[..][2] && y[3] == y[..][3];
    }
  }

  /** `rgtL1L2`: the signs first, then the limbs. */
  method SignedGreater(x: array<Word>, y: array<Word>) returns (greater: bool)
    requires x.Length == y.Length == 4
    requires Value(x[..]) < Q && Value(y[..]) < Q
    ensures greater <==> Signed(Value(x[..])) > Signed(Value(y[..]))
  {
    var xNegative := AboveHalf(x);
    var yNegative := AboveHalf(y);
    if xNegative == yNegative {
      greater := LimbsGreater(x, y);
    } else {
      greater := yNegative;
    }
  }

  // ---- dispatch ------------------------------------------------------------------------

  /**
    The normal limbs of an operand: its own, or those of a converted stack copy.
    An element tagged long normal is read as it is, canonical or not.
   */
  method NormalLimbs(a: FrElement) returns (x: array<Word>)
    requires a.longVal.Length == 4 && (a.tag == LongNormal || a.WellFormed())
    ensures x.Length == 4
    ensures a.tag == LongNormal ==> x == a.longVal
    ensures a.WellFormed() ==> Value(x[..]) == a.Denotes() < Q
  {
    if a.tag == LongNormal {
      x := a.longVal;
    } else {
      var tmp := new FrElement();
      if a.tag.IsLong() {
        ToNormal(tmp, a);
      } else {
        ToLongNormal(tmp, a);
      }
      x := tmp.longVal;
    }
  }

  /** The Montgomery limbs of an operand: its own, or those of a converted stack copy. */
  method MontgomeryForm(a: FrElement) returns (x: array<Word>)
    requires a.WellFormed()
    ensures x.Length == 4 && Value(x[..]) < Q && Redc(Value(x[..])) == a.Denotes()
  {
    if a.tag == LongMontgomery {
      x := a.longVal;
    } else {
      var tmp := new FrElement();
      ToMontgomery(tmp, a);
      MontgomeryLimbs(tmp.View());
      x := tmp.longVal;
    }
  }

  method Greater(a: FrElement, b: FrElement) returns (res: bool)
    requires a.WellFormed() && b.WellFormed()
    ensures res <==> Signed(a.Denotes()) > Signed(b.Denotes())
  {
    hide Redc;
    if !a.tag.IsLong() && !b.tag.IsLong() {
      SignedShort(a.shortVal);
      SignedShort(b.shortVal);
      res := a.shortVal > b.shortVal;
    } else {
      var x := NormalLimbs(a);
      var y := NormalLimbs(b);
      res := SignedGreater(x, y);
    }
  }

  method Less(a: FrElement, b: FrElement) returns (res: bool)
    requires a.WellFormed() && b.WellFormed()
    ensures res <==> Signed(a.Denotes()) < Signed(b.Denotes())
  {
    hide Redc;
    if !a.tag.IsLong() && !b.tag.IsLong() {
      SignedShort(a.shortVal);
      SignedShort(b.shortVal);
      res := a.shortVal < b.shortVal;
    } else {
      var x := NormalLimbs(a);
      var y := NormalLimbs(b);
      res := SignedGreater(y, x);
    }
  }

  /** Two longs of different kinds are compared in Montgomery form, which is one-to-one. */
  method Equal(a: FrElement, b: FrElement) returns (res: bool)
    requires a.WellFormed() && b.WellFormed()
    ensures res <==> a.Denotes() == b.Denotes()
  {
    hide Redc;
    if !a.tag.IsLong() && !b.tag.IsLong() {
      SignedShort(a.shortVal);
      SignedShort(b.shortVal);
      res := a.shortVal == b.shortVal;
    } else if a.tag == LongMontgomery || b.tag == LongMontgomery {
      var x := MontgomeryForm(a);
      var y := MontgomeryForm(b);
      RedcInjective(Value(x[..]), Value(y[..]));
      res := LimbsEqual(x, y);
    } else {
      var x := NormalLimbs(a);
      var y := NormalLimbs(b);
      res := LimbsEqual(x, y);
    }
  }

  // ---- stored answers ------------------------------------------------------------------

  method StoreFlag(r: FrElement, flag: bool)
    requires r.longVal.Length == 4
    modifies r
    ensures r.WellFormed() && r.tag == Short && r.Denotes() == if flag then 1 else 0
  {
    r.tag, r.shortVal := Short, if flag then 1 else 0;
  }

  method Gt(r: FrElement, a: FrElement, b: FrElement)
    requires r.longVal.Length == 4 && a.WellFormed() && b.WellFormed()
    modifies r
    ensures r.WellFormed() && r.tag == Short
    ensures r.Denotes() == if Signed(old(a.Denotes())) > Signed(old(b.Denotes())) then 1 else 0
  {
    var flag := Greater(a, b);
    StoreFlag(r, flag);
  }

  method Lt(r: FrElement, a: FrElement, b: FrElement)
    requires r.longVal.Length == 4 && a.WellFormed() && b.WellFormed()
    modifies r
    ensures r.WellFormed() && r.tag == Short
    ensures r.Denotes() == if Signed(old(a.Denotes())) < Signed(old(b.Denotes())) then 1 else 0
  {
    var flag := Less(a, b);
    StoreFlag(r, flag);
  }

  method Geq(r: FrElement, a: FrElement, b: FrElement)
    requires r.longVal.Length == 4 && a.WellFormed() && b.WellFormed()
    modifies r
    ensures r.WellFormed() && r.tag == Short
    ensures r.Denotes() == if Signed(old(a.Denotes())) >= Signed(old(b.Denotes())) then 1 else 0
  {
    var flag := Less(a, b);
    StoreFlag(r, !flag);
  }

  method Leq(r: FrElement, a: FrElement, b: FrElement)
    requires r.longVal.Length == 4 && a.WellFormed() && b.WellFormed()
    modifies r
    ensures r.WellFormed() && r.tag == Short
    ensures r.Denotes() == if Signed(old(a.Denotes())) <= Signed(old(b.Denotes())) then 1 else 0
  {
    var flag := Greater(a, b);
    StoreFlag(r, !flag);
  }

  method Eq(r: FrElement, a: FrElement, b: FrElement)
    requires r.longVal.Length == 4 && a.WellFormed() && b.WellFormed()
    modifies r
    ensures r.WellFormed() && r.tag == Short
    ensures r.Denotes() == if old(a.Denotes()) == old(b.Denotes()) then 1 else 0
  {
    var flag := Equal(a, b);
    StoreFlag(r, flag);
  }

  method Neq(r: FrElement, a: FrElement, b: FrElement)
    requires r.longVal.Length == 4 && a.WellFormed() && b.WellFormed()
    modifies r
    ensures r.WellFormed() && r.tag == Short
    ensures r.Denotes() == if old(a.Denotes()) != old(b.Denotes()) then 1 else 0
  {
    var flag := Equal(a, b);
    StoreFlag(r, !flag);
  }

  /** A stored Gt, Lt or Eq: exactly one of the three is 1, whatever the representations. */
  method Trichotomy(gt: FrElement, lt: FrElement, eq: FrElement, a: FrElement, b: FrElement)
    requires a.WellFormed() && b.WellFormed()
    requires gt.longVal.Length == lt.longVal.Length == eq.longVal.Length == 4
    requires gt != lt && gt != eq && lt != eq
    requires gt != a && gt != b && lt != a && lt != b && eq != a && eq != b
    modifies gt, lt, eq
    ensures gt.WellFormed() && lt.WellFormed() && eq.WellFormed()
    ensures gt.Denotes() + lt.Denotes() + eq.Denotes() == 1
  {
    Gt(gt, a, b);
    Lt(lt, a, b);
    Eq(eq, a, b);
    SignedOrder(a.Denotes(), b.Denotes());
  }
}
