/**
  The 64-bit machine the assembly runs on: words, carry flags, and the four
  instructions every limb routine is made of (adc/adcx/adox, sbb, mulx), plus
  the value of a four-limb buffer.
 */
module Words {
  import opened Products

  // One limb: a 64-bit register or memory word.
  type Word = x: nat | x < 0x1_0000_0000_0000_0000

  // A carry or overflow flag.
  type Flag = f: nat | f <= 1

  const TWO_64: nat := 0x1_0000_0000_0000_0000
  const TWO_256: nat := 0x1_0000000000000000_0000000000000000_0000000000000000_0000000000000000

  /** `add`, `adc`, `adcx` and `adox`: the sum of two words and a flag, with the carry out. */
  method AddCarry(x: Word, y: Word, carry: Flag) returns (sum: Word, out: Flag)
    ensures sum + 0x1_0000_0000_0000_0000 * out == x + y + carry
  {
    var t := x + y + carry;
    if t >= 0x1_0000_0000_0000_0000 {
      sum, out := t - 0x1_0000_0000_0000_0000, 1;
    } else {
      sum, out := t, 0;
    }
  }

  /** `sub` and `sbb`: the difference of two words and a flag, with the borrow out. */
  method SubBorrow(x: Word, y: Word, borrow: Flag) returns (diff: Word, out: Flag)
    ensures diff + y + borrow == x + 0x1_0000_0000_0000_0000 * out
  {
    var t := x - y - borrow;
    if t < 0 {
      diff, out := t + 0x1_0000_0000_0000_0000, 1;
    } else {
      diff, out := t, 0;
    }
  }

  /**
    Multiplication as repeated addition. The limb routines are specified with
    Times so that their carry chains stay linear; TimesIsProduct says what it is.
   */
  function Times(x: nat, y: nat): nat {
    if x == 0 then 0 else y + Times(x - 1, y)
  }

  lemma {:induction false} TimesIsProduct(x: nat, y: nat)
    ensures Times(x, y) == x * y
  {
    if x > 0 {
      TimesIsProduct(x - 1, y);
    }
  }

  lemma TimesSwap(x: nat, y: nat)
    ensures Times(x, y) == Times(y, x)
  {
    TimesIsProduct(x, y);
    TimesIsProduct(y, x);
  }

  lemma TimesBound(x: Word, y: nat)
    ensures Times(x, y) <= 0xffff_ffff_ffff_ffff * y
  {
    TimesIsProduct(x, y);
    MulMonotone(y, x, 0xffff_ffff_ffff_ffff);
  }

  /** `mulx`: the full 128-bit product of two words. */
  method MulX(x: Word, y: Word) returns (hi: Word, lo: Word)
    ensures hi * 0x1_0000_0000_0000_0000 + lo == Times(x, y)
    ensures hi <= 0xffff_ffff_ffff_fffe
  {
    TimesIsProduct(x, y);
    TimesBound(x, y);
    var p: nat := x * y;
    hi, lo := p / 0x1_0000_0000_0000_0000, p % 0x1_0000_0000_0000_0000;
  }

  /** The number held by four limbs, least significant first. */
  function Value(s: seq<Word>): nat
    requires |s| == 4
  {
    Value4(s[0], s[1], s[2], s[3])
  }

  function Value4(x0: Word, x1: Word, x2: Word, x3: Word): (v: nat)
    ensures v < 0x1_0000000000000000_0000000000000000_0000000000000000_0000000000000000
  {
    x0 + 0x1_0000_0000_0000_0000 * x1
    + 0x1_0000000000000000_0000000000000000 * x2
    + 0x1_0000000000000000_0000000000000000_0000000000000000 * x3
  }

  function Value5(x0: Word, x1: Word, x2: Word, x3: Word, x4: Word): nat {
    Value4(x0, x1, x2, x3)
    + 0x1_0000000000000000_0000000000000000_0000000000000000_0000000000000000 * x4
  }

  /** Four limbs hold exactly one number below 2^256. */
  lemma LimbsUnique(x: seq<Word>, y: seq<Word>)
    requires |x| == |y| == 4
    requires Value(x) == Value(y)
    ensures x == y
  {
    var x2, y2 := High(x[2], x[3]), High(y[2], y[3]);
    var x1, y1 := High(x[1], x2), High(y[1], y2);
    SplitLow(x[0], x1, y[0], y1);
    SplitLow(x[1], x2, y[1], y2);
    SplitLow(x[2], x[3], y[2], y[3]);
  }

  function High(low: Word, rest: nat): nat {
    low + 0x1_0000_0000_0000_0000 * rest
  }

  lemma SplitLow(x: Word, m: nat, y: Word, n: nat)
    requires x + 0x1_0000_0000_0000_0000 * m == y + 0x1_0000_0000_0000_0000 * n
    ensures x == y && m == n
  {
  }

  /** A multiple of a four-limb number is the sum of the four partial products. */
  lemma TimesLimbs(k: nat, x0: Word, x1: Word, x2: Word, x3: Word)
    ensures Times(k, Value4(x0, x1, x2, x3))
         == Times(k, x0) + 0x1_0000_0000_0000_0000 * Times(k, x1)
            + 0x1_0000000000000000_0000000000000000 * Times(k, x2)
            + 0x1_0000000000000000_0000000000000000_0000000000000000 * Times(k, x3)
  {
    TimesIsProduct(k, Value4(x0, x1, x2, x3));
    TimesIsProduct(k, x0); TimesIsProduct(k, x1); TimesIsProduct(k, x2); TimesIsProduct(k, x3);
    Distribute(k, x0, x1, x2, x3);
  }

  lemma Distribute(k: int, x0: int, x1: int, x2: int, x3: int)
    ensures k * (x0 + 0x1_0000_0000_0000_0000 * x1
                 + 0x1_0000000000000000_0000000000000000 * x2
                 + 0x1_0000000000000000_0000000000000000_0000000000000000 * x3)
         == k * x0 + 0x1_0000_0000_0000_0000 * (k * x1)
            + 0x1_0000000000000000_0000000000000000 * (k * x2)
            + 0x1_0000000000000000_0000000000000000_0000000000000000 * (k * x3)
  {
  }
}
