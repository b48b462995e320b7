/**
  `Fr_add`, `Fr_sub` and `Fr_neg`: dispatch on the tags of the operands, ending
  in one of the limb routines.
 */
module Arithmetic {
  import opened Words
  import opened Modulus
  import opened RawField
  import opened Elements

  // ---- what the limb routines mean for the denoted residues ---------------------

  /** Adding, subtracting and negating Montgomery forms adds, subtracts and negates what they denote. */
  lemma MontgomeryLinear(x: nat, y: nat)
    requires x < Q && y < Q
    ensures 0 <= AddSpec(x, y) < Q && Redc(AddSpec(x, y)) == (Redc(x) + Redc(y)) % Q
    ensures 0 <= SubSpec(x, y) < Q && Redc(SubSpec(x, y)) == (Redc(x) - Redc(y)) % Q
  {
    CanonicalArithmetic(x, y);
    RedcMod(x + y);
    RedcMod(x - y);
    AddMod(x * RINV, y * RINV);
    assert (x + y) * RINV == x * RINV + y * RINV;
    assert (x - y) * RINV == x * RINV - y * RINV;
  }

  lemma MontgomeryNegated(x: nat)
    requires x < Q
    ensures 0 <= NegSpec(x) < Q && Redc(NegSpec(x)) == (0 - Redc(x)) % Q
  {
    CanonicalArithmetic(x, x);
    RedcMod(0 - x);
    AddMod(0, x * RINV);
    assert (0 - x) * RINV == 0 - x * RINV;
  }

  /** A long plus or minus the magnitude of a short. */
  lemma LongAndShort(v: nat, s: Int32)
    requires v < Q
    ensures s >= 0 ==> AddSpec(v, s) == (v + s % Q) % Q
    ensures s < 0 ==> SubSpec(v, 0 - s) == (v + s % Q) % Q
  {
    SmallResidue(s);
  }

  lemma ShortSum(x: Int32, y: Int32)
    ensures (x % Q + y % Q) % Q == (x + y) % Q
  {
    AddMod(x, y);
  }

  // ---- addition -------------------------------------------------------------------

  /**
    The destination aliases the operand that is about to be converted. The
    destination is tagged before the conversion reads the operand's tag, so the
    stale limbs are taken for a Montgomery form.
   */
  ghost predicate RetagsConverted(r: FrElement, a: FrElement, b: FrElement)
    reads a, b
  {
    || (r == b && a.tag == LongMontgomery && !b.tag.IsMontgomery())
    || (r == a && b.tag == LongMontgomery && !a.tag.IsMontgomery())
  }

  method Add(r: FrElement, a: FrElement, b: FrElement)
    requires r.longVal.Length == 4 && a.WellFormed() && b.WellFormed()
    requires Apart(r, a) && Apart(r, b) && Apart(a, b)
    modifies r, r.longVal
    ensures !old(RetagsConverted(r, a, b)) ==>
              r.WellFormed() && r.Denotes() == (old(a.Denotes()) + old(b.Denotes())) % Q
    ensures old(RetagsConverted(r, a, b)) ==>
              r.tag == LongMontgomery
              && Value(r.longVal[..]) == AddSpec(old(Value(a.longVal[..])), old(Value(b.longVal[..])))
    ensures r.tag == LongMontgomery <==> old(a.tag) == LongMontgomery || old(b.tag) == LongMontgomery
  {
    hide Redc, AddSpec;
    ghost var va, vb := Value(a.longVal[..]), Value(b.longVal[..]);
    if !a.tag.IsLong() && !b.tag.IsLong() {
      AddShorts(r, a.shortVal, b.shortVal);
    } else if a.tag == LongMontgomery || b.tag == LongMontgomery {
      AddMontgomery(r, a, b);
    } else if a.tag.IsLong() && b.tag.IsLong() {
      r.tag := LongNormal;
      RawAdd(r.longVal, a.longVal, b.longVal);
      CanonicalArithmetic(va, vb);
    } else if a.tag.IsLong() {
      AddShortToLong(r, a, b.shortVal);
    } else {
      AddShortToLong(r, b, a.shortVal);
    }
  }

  /** `add_s1s2`: a 32-bit sum, or a long one when it overflows. */
  method AddShorts(r: FrElement, x: Int32, y: Int32)
    requires r.longVal.Length == 4
    modifies r, r.longVal
    ensures r.WellFormed() && !r.tag.IsMontgomery()
    ensures r.Denotes() == (x % Q + y % Q) % Q
    ensures r.tag == Short <==> -0x8000_0000 <= x as int + y as int < 0x8000_0000
  {
    var sum: int := x as int + y as int;
    ShortSum(x, y);
    if -0x8000_0000 <= sum < 0x8000_0000 {
      r.tag, r.shortVal := Short, sum;
    } else {
      CopyIntToLong(r, sum);
    }
  }

  /** `add_l1ns2` and `add_s1l2n`. */
  method AddShortToLong(r: FrElement, a: FrElement, s: Int32)
    requires r.longVal.Length == 4 && a.WellFormed() && a.tag == LongNormal && Apart(r, a)
    modifies r, r.longVal
    ensures r.WellFormed() && r.tag == LongNormal
    ensures r.Denotes() == (old(a.Denotes()) + s % Q) % Q
  {
    LongAndShort(Value(a.longVal[..]), s);
    r.tag := LongNormal;
    if s < 0 {
      RawSubLS(r.longVal, a.longVal, 0 - s);
    } else {
      RawAddLS(r.longVal, a.longVal, s);
    }
  }

  /** The branches with a long Montgomery operand: bring the other one to Montgomery form, then add limbs. */
  method AddMontgomery(r: FrElement, a: FrElement, b: FrElement)
    requires r.longVal.Length == 4 && a.WellFormed() && b.WellFormed()
    requires Apart(r, a) && Apart(r, b) && Apart(a, b)
    requires a.tag == LongMontgomery || b.tag == LongMontgomery
    modifies r, r.longVal
    ensures r.tag == LongMontgomery
    ensures !old(RetagsConverted(r, a, b)) ==>
              r.WellFormed() && r.Denotes() == (old(a.Denotes()) + old(b.Denotes())) % Q
    ensures old(RetagsConverted(r, a, b)) ==>
              Value(r.longVal[..]) == AddSpec(old(Value(a.longVal[..])), old(Value(b.longVal[..])))
  {
    hide Redc, AddSpec;
    if !a.tag.IsMontgomery() {
      AddConverted(r, a, b);
    } else if !b.tag.IsMontgomery() {
      SumCommutes(Value(a.longVal[..]), Value(b.longVal[..]));
      AddConverted(r, b, a);
    } else {
      MontgomeryLimbs(a.View());
      MontgomeryLimbs(b.View());
      MontgomeryLinear(Value(a.longVal[..]), Value(b.longVal[..]));
      r.tag := LongMontgomery;
      RawAdd(r.longVal, a.longVal, b.longVal);
    }
  }

  lemma SumCommutes(x: nat, y: nat)
    ensures AddSpec(x, y) == AddSpec(y, x)
  {
  }

  /** A normal operand c, converted, plus a long Montgomery operand m. */
  method AddConverted(r: FrElement, c: FrElement, m: FrElement)
    requires r.longVal.Length == 4 && c.WellFormed() && m.WellFormed()
    requires Apart(r, c) && Apart(r, m) && Apart(c, m)
    requires !c.tag.IsMontgomery() && m.tag == LongMontgomery
    modifies r, r.longVal
    ensures r.tag == LongMontgomery
    ensures r != c ==> r.WellFormed() && r.Denotes() == (old(c.Denotes()) + old(m.Denotes())) % Q
    ensures r == c ==> Value(r.longVal[..]) == AddSpec(old(Value(c.longVal[..])), old(Value(m.longVal[..])))
  {
    hide Redc, AddSpec;
    ghost var vm := Value(m.longVal[..]);
    r.tag := LongMontgomery;
    var x := Converted(c, r == c);
    if r != c {
      MontgomeryLinear(Value(x[..]), vm);
    }
    RawAdd(r.longVal, x, m.longVal);
  }

  /** The stack copy of an operand in Montgomery form; a retagged operand is copied as it stands. */
  method Converted(a: FrElement, retagged: bool) returns (x: array<Word>)
    requires a.longVal.Length == 4
    requires if retagged then a.tag == LongMontgomery else a.WellFormed() && !a.tag.IsMontgomery()
    ensures fresh(x) && x.Length == 4
    ensures retagged ==> Value(x[..]) == Value(a.longVal[..])
    ensures !retagged ==> Value(x[..]) < Q && Redc(Value(x[..])) == a.Denotes()
  {
    var tmp := new FrElement();
    ToMontgomery(tmp, a);
    x := tmp.longVal;
    if retagged {
      assert tmp.View().limbs == a.View().limbs;
    } else {
      MontgomeryLimbs(tmp.View());
    }
  }

  // ---- subtraction ----------------------------------------------------------------

  lemma ShortDifference(x: Int32, y: Int32)
    ensures (x % Q - y % Q) % Q == (x as int - y as int) % Q
  {
    AddMod(x, y);
  }

  /** A long minus a short, and a short minus a long. */
  lemma LongMinusShort(v: nat, s: Int32)
    requires v < Q
    ensures s >= 0 ==> SubSpec(v, s) == (v - s % Q) % Q
    ensures s < 0 ==> AddSpec(v, 0 - s) == (v - s % Q) % Q
    ensures s >= 0 ==> SubSpec(s, v) == (s % Q - v) % Q
    ensures s < 0 ==> SubSpec(Q - (0 - s), v) == (s % Q - v) % Q
  {
    SmallResidue(s);
  }

  /**
    The destination aliases the long operand of a negative short minus a long:
    the limb routine overwrites that operand before reading it.
   */
  ghost predicate OverwritesSubtrahend(r: FrElement, a: FrElement, b: FrElement)
    reads a, b
  {
    r == b && b.tag == LongNormal && !a.tag.IsLong() && a.shortVal < 0
  }

  method Sub(r: FrElement, a: FrElement, b: FrElement)
    requires r.longVal.Length == 4 && a.WellFormed() && b.WellFormed()
    requires Apart(r, a) && Apart(r, b) && Apart(a, b)
    modifies r, r.longVal
    ensures !old(RetagsConverted(r, a, b)) && !old(OverwritesSubtrahend(r, a, b)) ==>
              r.WellFormed() && r.Denotes() == (old(a.Denotes()) - old(b.Denotes())) % Q
    ensures old(RetagsConverted(r, a, b)) ==>
              r.tag == LongMontgomery
              && Value(r.longVal[..]) == SubSpec(old(Value(a.longVal[..])), old(Value(b.longVal[..])))
    ensures old(OverwritesSubtrahend(r, a, b)) ==> r.WellFormed() && r.Denotes() == 0
    ensures r.tag == LongMontgomery <==> old(a.tag) == LongMontgomery || old(b.tag) == LongMontgomery
  {
    hide Redc, SubSpec;
    ghost var va, vb := Value(a.longVal[..]), Value(b.longVal[..]);
    if !a.tag.IsLong() && !b.tag.IsLong() {
      SubShorts(r, a.shortVal, b.shortVal);
    } else if a.tag == LongMontgomery || b.tag == LongMontgomery {
      SubMontgomery(r, a, b);
    } else if a.tag.IsLong() && b.tag.IsLong() {
      r.tag := LongNormal;
      RawSub(r.longVal, a.longVal, b.longVal);
      CanonicalArithmetic(va, vb);
    } else if a.tag.IsLong() {
      SubShortFromLong(r, a, b.shortVal);
    } else {
      SubLongFromShort(r, a.shortVal, b);
    }
  }

  /** `sub_s1s2`. */
  method SubShorts(r: FrElement, x: Int32, y: Int32)
    requires r.longVal.Length == 4
    modifies r, r.longVal
    ensures r.WellFormed() && !r.tag.IsMontgomery()
    ensures r.Denotes() == (x % Q - y % Q) % Q
    ensures r.tag == Short <==> -0x8000_0000 <= x as int - y as int < 0x8000_0000
  {
    var diff: int := x as int - y as int;
    ShortDifference(x, y);
    if -0x8000_0000 <= diff < 0x8000_0000 {
      r.tag, r.shortVal := Short, diff;
    } else {
      CopyIntToLong(r, diff);
    }
  }

  /** `sub_l1ns2`. */
  method SubShortFromLong(r: FrElement, a: FrElement, s: Int32)
    requires r.longVal.Length == 4 && a.WellFormed() && a.tag == LongNormal && Apart(r, a)
    modifies r, r.longVal
    ensures r.WellFormed() && r.tag == LongNormal
    ensures r.Denotes() == (old(a.Denotes()) - s % Q) % Q
  {
    LongMinusShort(Value(a.longVal[..]), s);
    r.tag := LongNormal;
    if s < 0 {
      RawAddLS(r.longVal, a.longVal, 0 - s);
    } else {
      RawSubLS(r.longVal, a.longVal, s);
    }
  }

  /** `sub_s1l2n`. */
  method SubLongFromShort(r: FrElement, s: Int32, b: FrElement)
    requires r.longVal.Length == 4 && b.WellFormed() && b.tag == LongNormal && Apart(r, b)
    modifies r, r.longVal
    ensures r.WellFormed() && r.tag == LongNormal
    ensures r.Denotes() == if r == b && s < 0 then 0 else (s % Q - old(b.Denotes())) % Q
  {
    LongMinusShort(Value(b.longVal[..]), s);
    r.tag := LongNormal;
    if s < 0 {
      RawNegLS(r.longVal, b.longVal, 0 - s);
    } else {
      RawSubSL(r.longVal, s, b.longVal);
    }
  }

  method SubMontgomery(r: FrElement, a: FrElement, b: FrElement)
    requires r.longVal.Length == 4 && a.WellFormed() && b.WellFormed()
    requires Apart(r, a) && Apart(r, b) && Apart(a, b)
    requires a.tag == LongMontgomery || b.tag == LongMontgomery
    modifies r, r.longVal
    ensures r.tag == LongMontgomery
    ensures !old(RetagsConverted(r, a, b)) ==>
              r.WellFormed() && r.Denotes() == (old(a.Denotes()) - old(b.Denotes())) % Q
    ensures old(RetagsConverted(r, a, b)) ==>
              Value(r.longVal[..]) == SubSpec(old(Value(a.longVal[..])), old(Value(b.longVal[..])))
  {
    hide Redc, SubSpec;
    if !a.tag.IsMontgomery() {
      SubConverted(r, a, b, true);
    } else if !b.tag.IsMontgomery() {
      SubConverted(r, b, a, false);
    } else {
      MontgomeryLimbs(a.View());
      MontgomeryLimbs(b.View());
      MontgomeryLinear(Value(a.longVal[..]), Value(b.longVal[..]));
      r.tag := LongMontgomery;
      RawSub(r.longVal, a.longVal, b.longVal);
    }
  }

  /** A normal operand c, converted, and a long Montgomery operand m: c - m when c comes first, else m - c. */
  method SubConverted(r: FrElement, c: FrElement, m: FrElement, first: bool)
    requires r.longVal.Length == 4 && c.WellFormed() && m.WellFormed()
    requires Apart(r, c) && Apart(r, m) && Apart(c, m)
    requires !c.tag.IsMontgomery() && m.tag == LongMontgomery
    modifies r, r.longVal
    ensures r.tag == LongMontgomery
    ensures r != c ==> r.WellFormed()
    ensures r != c && first ==> r.Denotes() == (old(c.Denotes()) - old(m.Denotes())) % Q
    ensures r != c && !first ==> r.Denotes() == (old(m.Denotes()) - old(c.Denotes())) % Q
    ensures r == c && first ==>
              Value(r.longVal[..]) == SubSpec(old(Value(c.longVal[..])), old(Value(m.longVal[..])))
    ensures r == c && !first ==>
              Value(r.longVal[..]) == SubSpec(old(Value(m.longVal[..])), old(Value(c.longVal[..])))
  {
    hide Redc, SubSpec;
    ghost var vm := Value(m.longVal[..]);
    r.tag := LongMontgomery;
    var x := Converted(c, r == c);
    if r != c {
      MontgomeryLinear(Value(x[..]), vm);
      MontgomeryLinear(vm, Value(x[..]));
    }
    if first {
      RawSub(r.longVal, x, m.longVal);
    } else {
      RawSub(r.longVal, m.longVal, x);
    }
  }

  // ---- negation ---------------------------------------------------------------------

  method Neg(r: FrElement, a: FrElement)
    requires r.longVal.Length == 4 && a.WellFormed() && Apart(r, a)
    modifies r, r.longVal
    ensures r.WellFormed() && r.Denotes() == (0 - old(a.Denotes())) % Q
    ensures old(a.tag.IsLong()) ==> r.tag == old(a.tag)
  {
    hide Redc, NegSpec;
    if a.tag.IsLong() {
      ghost var v := Value(a.longVal[..]);
      MontgomeryNegated(v);
      CanonicalArithmetic(v, v);
      r.tag, r.shortVal := a.tag, a.shortVal;
      RawNeg(r.longVal, a.longVal);
    } else {
      NegShort(r, a.shortVal);
    }
  }

  /** `neg_s`: only -2^31 overflows. */
  method NegShort(r: FrElement, s: Int32)
    requires r.longVal.Length == 4
    modifies r, r.longVal
    ensures r.WellFormed() && r.Denotes() == (0 - s % Q) % Q
  {
    AddMod(0, s);
    var n: int := s;
    if n == -0x8000_0000 {
      CopyIntToLong(r, -n);
    } else {
      r.tag, r.shortVal := Short, -n;
    }
  }

  // ---- when an aliased destination is harmless ---------------------------------------

  /** Limbs that are the canonical Montgomery form of a residue. */
  ghost predicate IsForm(limbs: int, d: int) {
    0 <= limbs < Q && Redc(limbs) == d % Q
  }

  /** Limbs are the form of a residue exactly when they are its Montgomery form. */
  lemma FormIsUnique(limbs: int, d: int)
    ensures IsForm(limbs, d) <==> limbs == ToMont(d)
  {
    hide Redc, ToMont;
    RedcToMont(d);
    if IsForm(limbs, d) {
      RedcInjective(limbs, ToMont(d));
    }
  }

  /**
    An operand read through the destination's new tag, its stale limbs being
    any number: the sum is right exactly when they are congruent to the
    operand's Montgomery form and one subtraction of q is enough.
   */
  lemma RetaggedSumRight(x: nat, stale: nat, d: nat)
    requires x < Q && stale < R && d < Q
    ensures IsForm(AddSpec(x, stale), Redc(x) + d) <==> stale % Q == ToMont(d) && x + stale < 2 * Q
  {
    hide Redc, ToMont;
    RedcToMont(d);
    SumOfForms(x, ToMont(d), d);
    FormIsUnique(AddSpec(x, stale), Redc(x) + d);
    StaleSum(x, stale, ToMont(d));
  }

  /** The same for the stale operand as subtrahend: it must not exceed the other operand by more than q. */
  lemma RetaggedSubtrahendRight(x: nat, stale: nat, d: nat)
    requires x < Q && stale < R && d < Q
    ensures IsForm(SubSpec(x, stale), Redc(x) - d) <==> stale % Q == ToMont(d) && stale <= x + Q
  {
    hide Redc, ToMont;
    RedcToMont(d);
    DifferenceOfForms(x, ToMont(d), d);
    FormIsUnique(SubSpec(x, stale), Redc(x) - d);
    StaleSubtrahend(x, stale, ToMont(d));
  }

  /** And as minuend: the difference must stay below q. */
  lemma RetaggedMinuendRight(x: nat, stale: nat, d: nat)
    requires x < Q && stale < R && d < Q
    ensures IsForm(SubSpec(stale, x), d - Redc(x)) <==> stale % Q == ToMont(d) && stale < x + Q
  {
    hide Redc, ToMont;
    RedcToMont(d);
    DifferenceFromForm(x, ToMont(d), d);
    FormIsUnique(SubSpec(stale, x), d - Redc(x));
    StaleMinuend(x, stale, ToMont(d));
  }

  /** The Montgomery forms of a sum and of a difference, from those of the operands. */
  lemma SumOfForms(x: nat, m: nat, d: nat)
    requires x < Q && m < Q && Redc(m) == d
    ensures ToMont(Redc(x) + d) == (x + m) % Q
  {
    hide Redc, ToMont, AddSpec, SubSpec;
    MontgomeryLinear(x, m);
    CanonicalArithmetic(x, m);
    FormIsUnique(AddSpec(x, m), Redc(x) + d);
  }

  lemma DifferenceOfForms(x: nat, m: nat, d: nat)
    requires x < Q && m < Q && Redc(m) == d
    ensures ToMont(Redc(x) - d) == (x - m) % Q
  {
    hide Redc, ToMont, SubSpec;
    MontgomeryLinear(x, m);
    CanonicalArithmetic(x, m);
    FormIsUnique(SubSpec(x, m), Redc(x) - d);
  }

  lemma DifferenceFromForm(x: nat, m: nat, d: nat)
    requires x < Q && m < Q && Redc(m) == d
    ensures ToMont(d - Redc(x)) == (m - x) % Q
  {
    hide Redc, ToMont, SubSpec;
    MontgomeryLinear(m, x);
    CanonicalArithmetic(m, x);
    FormIsUnique(SubSpec(m, x), d - Redc(x));
  }

  lemma StaleSum(x: nat, stale: nat, m: nat)
    requires x < Q && stale < R && m < Q
    ensures AddSpec(x, stale) == (x + m) % Q <==> stale % Q == m && x + stale < 2 * Q
  {
    assert (x + m) % Q == if x + m < Q then x + m else x + m - Q;
    assert stale < 2 * Q ==> stale % Q == if stale < Q then stale else stale - Q;
  }

  lemma StaleSubtrahend(x: nat, stale: nat, m: nat)
    requires x < Q && stale < R && m < Q
    ensures SubSpec(x, stale) == (x - m) % Q <==> stale % Q == m && stale <= x + Q
  {
    assert (x - m) % Q == if m <= x then x - m else x - m + Q;
    assert stale < 2 * Q ==> stale % Q == if stale < Q then stale else stale - Q;
  }

  lemma StaleMinuend(x: nat, stale: nat, m: nat)
    requires x < Q && stale < R && m < Q
    ensures SubSpec(stale, x) == (m - x) % Q <==> stale % Q == m && stale < x + Q
  {
    assert (m - x) % Q == if x <= m then m - x else m - x + Q;
    assert stale < 2 * Q ==> stale % Q == if stale < Q then stale else stale - Q;
  }

  /** An overwritten subtrahend gives 0, which is right exactly when the operands were equal. */
  lemma OverwrittenSubtrahendRight(x: nat, y: nat)
    requires x < Q && y < Q
    ensures (x - y) % Q == 0 <==> x == y
  {
  }

  lemma ZeroSum()
    ensures AddSpec(0, 0) == 0 && Redc(0) == 0
  {
  }

  /** A destination that fails: zero in Montgomery form plus the short 1 with zeroed limbs, stored over the 1. */
  method AliasedSumExample() returns (wrong: FrElement)
    ensures wrong.WellFormed() && wrong.Denotes() == 0 != (0 + 1) % Q
  {
    hide Redc, AddSpec;
    ZeroSum();
    var zero := new FrElement();
    zero.tag := LongMontgomery;
    RawZero(zero.longVal);
    wrong := new FrElement();
    wrong.tag, wrong.shortVal := Short, 1;
    RawZero(wrong.longVal);
    Add(wrong, zero, wrong);
  }

  lemma ZeroDifference()
    ensures SubSpec(0, 0) == 0 && Redc(0) == 0
  {
  }

  /** A destination that fails: zero in Montgomery form minus the short 1 with zeroed limbs, stored over the 1. */
  method AliasedDifferenceExample() returns (wrong: FrElement)
    ensures wrong.WellFormed() && wrong.Denotes() == 0 != (0 - 1) % Q
  {
    hide Redc, SubSpec;
    ZeroDifference();
    var zero := new FrElement();
    zero.tag := LongMontgomery;
    RawZero(zero.longVal);
    wrong := new FrElement();
    wrong.tag, wrong.shortVal := Short, 1;
    RawZero(wrong.longVal);
    Sub(wrong, zero, wrong);
  }

  /** Another: the short -1 minus the long normal zero, stored over the zero. */
  method OverwrittenSubtrahendExample() returns (wrong: FrElement)
    ensures wrong.WellFormed() && wrong.Denotes() == 0 != (-1 - 0) % Q
  {
    hide Redc, SubSpec;
    var minusOne := new FrElement();
    minusOne.tag, minusOne.shortVal := Short, -1;
    wrong := new FrElement();
    wrong.tag := LongNormal;
    RawZero(wrong.longVal);
    Sub(wrong, minusOne, wrong);
  }
}
