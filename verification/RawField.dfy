/**
  The raw limb routines of fr.asm: addition, subtraction and negation on
  four-limb buffers with explicit carries. A buffer is an array of four words
  and the destination may be one of the operands: in every carry chain the
  limbs of index i are read before limb i is stored, so storing the four
  results after the chain leaves the same memory.
 */
module RawField {
  import opened Words
  import opened Modulus

  const Q0: Word := 0x43e1f593f0000001
  const Q1: Word := 0x2833e84879b97091
  const Q2: Word := 0xb85045b68181585d
  const Q3: Word := 0x30644e72e131a029

  lemma ModulusLimbs()
    ensures Value4(Q0, Q1, Q2, Q3) == Q
  {
  }

  // ---- carry chains ----------------------------------------------------------

  method AddLimbs(x0: Word, x1: Word, x2: Word, x3: Word, y0: Word, y1: Word, y2: Word, y3: Word)
      returns (s0: Word, s1: Word, s2: Word, s3: Word, cf: Flag)
    ensures Value4(s0, s1, s2, s3) + TWO_256 * cf == Value4(x0, x1, x2, x3) + Value4(y0, y1, y2, y3)
  {
    s0, cf := AddCarry(x0, y0, 0);
    s1, cf := AddCarry(x1, y1, cf);
    s2, cf := AddCarry(x2, y2, cf);
    s3, cf := AddCarry(x3, y3, cf);
  }

  method SubLimbs(x0: Word, x1: Word, x2: Word, x3: Word, y0: Word, y1: Word, y2: Word, y3: Word)
      returns (d0: Word, d1: Word, d2: Word, d3: Word, cf: Flag)
    ensures Value4(d0, d1, d2, d3) == Value4(x0, x1, x2, x3) - Value4(y0, y1, y2, y3) + TWO_256 * cf
  {
    d0, cf := SubBorrow(x0, y0, 0);
    d1, cf := SubBorrow(x1, y1, cf);
    d2, cf := SubBorrow(x2, y2, cf);
    d3, cf := SubBorrow(x3, y3, cf);
  }

  /** The number left in four limbs when the last carry or borrow is dropped. */
  function Wrap(x: int): int {
    if x < 0 then x + TWO_256 else if x >= TWO_256 then x - TWO_256 else x
  }

  lemma DropBorrow(v: nat, x: int, cf: Flag)
    requires v < TWO_256 && 0 - TWO_256 <= x < TWO_256
    requires v == x + TWO_256 * cf
    ensures v == Wrap(x) && (cf == 1 <==> x < 0)
  {
  }

  lemma DropCarry(v: nat, x: int, cf: Flag)
    requires v < TWO_256 && 0 <= x
    requires v + TWO_256 * cf == x
    ensures v == Wrap(x) && (cf == 1 <==> x >= TWO_256)
  {
  }

  // ---- comparing, adding and subtracting the modulus -------------------------

  /** The `cmp`/`jc`/`jnz` chain, most significant limb first. */
  method BelowModulus(x0: Word, x1: Word, x2: Word, x3: Word) returns (below: bool)
    ensures below <==> Value4(x0, x1, x2, x3) < Q
  {
    if x3 != Q3 { return x3 < Q3; }
    if x2 != Q2 { return x2 < Q2; }
    if x1 != Q1 { return x1 < Q1; }
    return x0 < Q0;
  }

  /** Subtract the modulus in place; the final borrow is dropped. */
  method SubtractModulus(r: array<Word>)
    requires r.Length == 4
    modifies r
    ensures Value(r[..]) == Wrap(Value(old(r[..])) - Q)
  {
    ghost var v := Value(r[..]);
    var cf;
    r[0], r[1], r[2], r[3], cf := SubLimbs(r[0], r[1], r[2], r[3], Q0, Q1, Q2, Q3);
    ModulusLimbs();
    DropBorrow(Value(r[..]), v - Q, cf);
  }

  /** Add the modulus in place; the final carry is dropped. */
  method AddModulus(r: array<Word>)
    requires r.Length == 4
    modifies r
    ensures Value(r[..]) == Wrap(Value(old(r[..])) + Q)
  {
    ghost var v := Value(r[..]);
    var cf;
    r[0], r[1], r[2], r[3], cf := AddLimbs(r[0], r[1], r[2], r[3], Q0, Q1, Q2, Q3);
    ModulusLimbs();
    DropCarry(Value(r[..]), v + Q, cf);
  }

  // ---- addition, subtraction, negation ---------------------------------------

  /** What one conditional subtraction of the modulus leaves of a sum. */
  function AddSpec(x: int, y: int): int {
    if x + y >= Q then Wrap(x + y - Q) else x + y
  }

  /** What one conditional addition of the modulus leaves of a difference. */
  function SubSpec(x: int, y: int): int {
    if x < y then Wrap(x - y + Q) else x - y
  }

  function NegSpec(x: int): int {
    if x == 0 then 0 else Wrap(Q - x)
  }

  /** The tail of both additions: on a carry, or when the stored limbs reach q, subtract q once. */
  method ReduceSum(r: array<Word>, cf: Flag, ghost sum: nat)
    requires r.Length == 4
    requires Value(r[..]) + TWO_256 * cf == sum
    modifies r
    ensures Value(r[..]) == AddSpec(sum, 0)
  {
    ghost var v := Value(r[..]);
    var below := false;
    if cf == 0 {
      below := BelowModulus(r[0], r[1], r[2], r[3]);
    }
    if !below {
      SubtractModulus(r);
      WrapSum(v, cf);
    }
  }

  lemma WrapSum(v: nat, cf: Flag)
    requires v < TWO_256
    requires cf == 1 || v >= Q
    ensures Wrap(v - Q) == AddSpec(v + TWO_256 * cf, 0)
  {
  }

  /** The tail of the subtractions: on a borrow, add q once. */
  method RestoreDifference(r: array<Word>, cf: Flag, ghost diff: int)
    requires r.Length == 4
    requires 0 - TWO_256 <= diff < TWO_256
    requires Value(r[..]) == diff + TWO_256 * cf
    modifies r
    ensures Value(r[..]) == SubSpec(diff, 0)
  {
    DropBorrow(Value(r[..]), diff, cf);
    if cf == 1 {
      AddModulus(r);
    }
  }

  method RawAdd(r: array<Word>, a: array<Word>, b: array<Word>)
    requires r.Length == a.Length == b.Length == 4
    modifies r
    ensures Value(r[..]) == AddSpec(old(Value(a[..])), old(Value(b[..])))
  {
    ghost var sum := Value(a[..]) + Value(b[..]);
    var cf;
    r[0], r[1], r[2], r[3], cf := AddLimbs(a[0], a[1], a[2], a[3], b[0], b[1], b[2], b[3]);
    ReduceSum(r, cf, sum);
  }

  /** `rawAddLS`: a long plus an unsigned 64-bit value. */
  method RawAddLS(r: array<Word>, a: array<Word>, s: Word)
    requires r.Length == a.Length == 4
    modifies r
    ensures Value(r[..]) == AddSpec(old(Value(a[..])), s)
  {
    ghost var sum := Value(a[..]) + s;
    var cf;
    r[0], r[1], r[2], r[3], cf := AddLimbs(s, 0, 0, 0, a[0], a[1], a[2], a[3]);
    ReduceSum(r, cf, sum);
  }

  method RawSub(r: array<Word>, a: array<Word>, b: array<Word>)
    requires r.Length == a.Length == b.Length == 4
    modifies r
    ensures Value(r[..]) == SubSpec(old(Value(a[..])), old(Value(b[..])))
  {
    ghost var diff := Value(a[..]) - Value(b[..]);
    var cf;
    r[0], r[1], r[2], r[3], cf := SubLimbs(a[0], a[1], a[2], a[3], b[0], b[1], b[2], b[3]);
    RestoreDifference(r, cf, diff);
  }

  /** `rawSubLS`: a long minus an unsigned 64-bit value. */
  method RawSubLS(r: array<Word>, a: array<Word>, s: Word)
    requires r.Length == a.Length == 4
    modifies r
    ensures Value(r[..]) == SubSpec(old(Value(a[..])), s)
  {
    ghost var diff := Value(a[..]) - s;
    var cf;
    r[0], r[1], r[2], r[3], cf := SubLimbs(a[0], a[1], a[2], a[3], s, 0, 0, 0);
    RestoreDifference(r, cf, diff);
  }

  /** `rawSubSL`: an unsigned 64-bit value minus a long. */
  method RawSubSL(r: array<Word>, s: Word, b: array<Word>)
    requires r.Length == b.Length == 4
    modifies r
    ensures Value(r[..]) == SubSpec(s, old(Value(b[..])))
  {
    ghost var diff := s - Value(b[..]);
    var cf;
    r[0], r[1], r[2], r[3], cf := SubLimbs(s, 0, 0, 0, b[0], b[1], b[2], b[3]);
    RestoreDifference(r, cf, diff);
  }

  /**
    `rawNegLS`: minus a long minus an unsigned 64-bit value. The first chain
    stores q - s through the destination before the second chain reads the
    operand, so an aliased operand is lost: the result is then 0.
   */
  method RawNegLS(r: array<Word>, a: array<Word>, s: Word)
    requires r.Length == a.Length == 4
    modifies r
    ensures Value(r[..]) == if r == a then 0 else SubSpec(Q - s, old(Value(a[..])))
  {
    ghost var v := Value(a[..]);
    var dl, dh;
    r[0], r[1], r[2], r[3], dl := SubLimbs(Q0, Q1, Q2, Q3, s, 0, 0, 0);
    ModulusLimbs();
    DropBorrow(Value(r[..]), Q - s, dl);
    ghost var diff := if r == a then 0 else Q - s - v;
    r[0], r[1], r[2], r[3], dh := SubLimbs(r[0], r[1], r[2], r[3], a[0], a[1], a[2], a[3]);
    assert dl == 0;
    RestoreDifference(r, if dl == 1 then dl else dh, diff);
  }

  lemma ZeroLimbs(x0: Word, x1: Word, x2: Word, x3: Word)
    ensures Value4(x0, x1, x2, x3) == 0 <==> x0 == x1 == x2 == x3 == 0
  {
  }

  method RawIsZero(a: array<Word>) returns (zero: bool)
    requires a.Length == 4
    ensures zero <==> Value(a[..]) == 0
  {
    ZeroLimbs(a[0], a[1], a[2], a[3]);
    zero := a[0] == 0 && a[1] == 0 && a[2] == 0 && a[3] == 0;
  }

  method RawZero(r: array<Word>)
    requires r.Length == 4
    modifies r
    ensures Value(r[..]) == 0
  {
    r[0], r[1], r[2], r[3] := 0, 0, 0, 0;
    ZeroLimbs(r[0], r[1], r[2], r[3]);
  }

  method RawNeg(r: array<Word>, a: array<Word>)
    requires r.Length == a.Length == 4
    modifies r
    ensures Value(r[..]) == NegSpec(old(Value(a[..])))
  {
    ghost var v := Value(a[..]);
    var zero := RawIsZero(a);
    if zero {
      RawZero(r);
    } else {
      var cf;
      r[0], r[1], r[2], r[3], cf := SubLimbs(Q0, Q1, Q2, Q3, a[0], a[1], a[2], a[3]);
      ModulusLimbs();
      DropBorrow(Value(r[..]), Q - v, cf);
    }
  }

  /** On canonical operands the three raw operations are the field operations. */
  lemma CanonicalArithmetic(x: nat, y: nat)
    requires x < Q && y < Q
    ensures AddSpec(x, y) == (x + y) % Q
    ensures SubSpec(x, y) == (x - y) % Q
    ensures NegSpec(x) == (0 - x) % Q
  {
  }
}
