/**
  The C++ half of the field runtime: exponentiation and inversion on raw
  Montgomery elements, the conversions between elements and integers, and
  inversion and division on tagged elements.
 */
module FieldRuntime {
  import opened Products
  import opened Words
  import opened Modulus
  import opened Montgomery
  import opened Inverses
  import opened Elements
  import opened Multiplication

  // ---- exponentiation --------------------------------------------------------------------------

  type Byte = b: nat | b < 256

  /** x to the n-th power in Z/q. */
  function Power(x: nat, n: nat): nat {
    if n == 0 then 1 else Times(x, Power(x, n - 1)) % Q
  }

  lemma PowerBelow(x: nat, n: nat)
    ensures Power(x, n) < Q
  {
  }

  lemma PowerStep(x: nat, n: nat)
    ensures Power(x, n + 1) == Times(x, Power(x, n)) % Q
  {
  }

  lemma PowerAddStep(x: nat, m: nat, n: nat)
    requires Power(x, m + n) == Times(Power(x, m), Power(x, n)) % Q
    ensures Power(x, m + 1 + n) == Times(Power(x, m + 1), Power(x, n)) % Q
  {
    hide Power, Times;
    PowerStep(x, m + n);
    PowerStep(x, m);
    AssocTimes(x, Power(x, m), Power(x, n));
  }

  lemma {:induction false} PowerAdd(x: nat, m: nat, n: nat)
    ensures Power(x, m + n) == Times(Power(x, m), Power(x, n)) % Q
  {
    PowerBelow(x, n);
    TimesIsProduct(1, Power(x, n));
    if m > 0 {
      PowerAdd(x, m - 1, n);
      PowerAddStep(x, m - 1, n);
    }
  }

  /** The number whose little-endian bytes are s. */
  function LittleEndian(s: seq<Byte>): nat {
    if s == [] then 0 else s[0] + 256 * LittleEndian(s[1..])
  }

  /** One byte is itself, and what follows n bytes weighs 256^n times as much. */
  lemma {:induction false} LittleEndianAppend(s: seq<Byte>, t: seq<Byte>)
    ensures LittleEndian(s + t) == LittleEndian(s) + Weight256(|s|) * LittleEndian(t)
    ensures |s| == 1 ==> LittleEndian(s) == s[0]
  {
    if s == [] {
      assert s + t == t;
    } else {
      assert (s + t)[1..] == s[1..] + t;
      LittleEndianAppend(s[1..], t);
      Associate(256, Weight256(|s| - 1), LittleEndian(t));
    }
  }

  function Weight256(n: nat): nat {
    if n == 0 then 1 else 256 * Weight256(n - 1)
  }

  /** The two bytes 1 and 2 are the number 0x201. */
  lemma ByteOrder()
    ensures LittleEndian([1, 2]) == 0x201
  {
    assert [1, 2][1..] == [2];
    assert LittleEndian([2]) == 2;
  }

  /** BIT_IS_SET: bit p of the byte array. */
  function BitAt(s: seq<Byte>, p: nat): (b: nat)
    requires p < 8 * |s|
    ensures b <= 1
  {
    (s[p / 8] / Weight(p % 8)) % 2
  }

  /** The scalar without its p low bits. */
  function Above(s: seq<Byte>, p: nat): nat
    requires p <= 8 * |s|
    decreases 8 * |s| - p
  {
    if p == 8 * |s| then 0 else BitAt(s, p) + 2 * Above(s, p + 1)
  }

  /** With no bits dropped this is the little-endian number. */
  lemma {:induction false} AboveIsLittleEndian(s: seq<Byte>)
    ensures Above(s, 0) == LittleEndian(s)
  {
    if s == [] {
    } else {
      AboveOfTail(s, 8);
      AboveIsLittleEndian(s[1..]);
      FirstByte(s, 0);
    }
  }

  lemma {:induction false} AboveOfTail(s: seq<Byte>, p: nat)
    requires s != [] && 8 <= p <= 8 * |s|
    ensures Above(s, p) == Above(s[1..], p - 8)
    decreases 8 * |s| - p
  {
    if p < 8 * |s| {
      AboveOfTail(s, p + 1);
      assert p / 8 - 1 == (p - 8) / 8 && p % 8 == (p - 8) % 8;
    }
  }

  /** The bits of the first byte, from bit k up. */
  lemma {:induction false} FirstByte(s: seq<Byte>, k: nat)
    requires s != [] && k <= 8
    ensures Above(s, k) == s[0] / Weight(k) + Weight(8 - k) * Above(s, 8)
    decreases 8 - k
  {
    if k < 8 {
      FirstByte(s, k + 1);
      HalfByte(s[0], k, Above(s, 8));
      assert k / 8 == 0 && k % 8 == k;
    }
  }

  function Weight(k: nat): nat
    requires k <= 8
  {
    [1, 2, 4, 8, 16, 32, 64, 128, 256][k]
  }

  lemma HalfByte(b: Byte, k: nat, rest: nat)
    requires k < 8
    ensures b / Weight(k) == (b / Weight(k)) % 2 + 2 * (b / Weight(k + 1))
    ensures Weight(8 - k) * rest == 2 * (Weight(7 - k) * rest)
  {
  }

  /** Squaring, with an optional multiplication, appends one bit to the exponent. */
  lemma AppendBit(x: nat, n: nat, b: nat)
    requires b <= 1
    ensures Power(x, 2 * n + b)
         == if b == 1 then Times(Times(Power(x, n), Power(x, n)) % Q, Power(x, 1)) % Q
            else Times(Power(x, n), Power(x, n)) % Q
  {
    PowerAdd(x, n, n);
    PowerAdd(x, n + n, 1);
  }

  /** `fOne`: 1 in Montgomery form. */
  method SetOne(r: array<Word>)
    requires r.Length == 4
    modifies r
    ensures Value(r[..]) < Q && Redc(Value(r[..])) == 1
  {
    r[0], r[1], r[2], r[3] := 1, 0, 0, 0;
    RawToMontgomery(r, r);
    CanonicalForm(1);
  }

  method CopyLimbs(r: array<Word>, a: array<Word>)
    requires r.Length == a.Length == 4
    modifies r
    ensures r[..] == old(a[..])
  {
    r[0], r[1], r[2], r[3] := a[0], a[1], a[2], a[3];
    assert r[..] == old(a[..]);
  }

  /**
    `RawFr::exp`: square and multiply from the most significant bit. Leading
    zero bits are skipped; with no bit set the result is one. The destination
    may be the base, which is copied first.
   */
  method Exp(r: array<Word>, base: array<Word>, scalar: seq<Byte>)
    requires r.Length == base.Length == 4 && Value(base[..]) < Q
    modifies r
    ensures Value(r[..]) < Q
    ensures Redc(Value(r[..])) == Power(Redc(old(Value(base[..]))), LittleEndian(scalar))
  {
    hide Redc, Times;
    ghost var x := Redc(Value(base[..]));
    var oneFound := false;
    var copyBase := new Word[4];
    CopyLimbs(copyBase, base);
    var i := 8 * |scalar|;
    while i > 0
      invariant 0 <= i <= 8 * |scalar|
      invariant copyBase[..] == old(base[..])
      invariant oneFound <==> Above(scalar, i) != 0
      invariant oneFound ==> Value(r[..]) < Q && Redc(Value(r[..])) == Power(x, Above(scalar, i))
    {
      i := i - 1;
      AppendBit(x, Above(scalar, i + 1), BitAt(scalar, i));
      assert Power(x, 1) == x by { FirstPower(x); }
      if !oneFound {
        if BitAt(scalar, i) == 1 {
          CopyLimbs(r, copyBase);
          oneFound := true;
        }
      } else {
        RedcTimes(Value(r[..]), Value(r[..]));
        RawMSquare(r, r);
        if BitAt(scalar, i) == 1 {
          RedcTimes(Value(r[..]), Value(copyBase[..]));
          RawMMul(r, r, copyBase);
        }
      }
    }
    if !oneFound {
      SetOne(r);
    }
    AboveIsLittleEndian(scalar);
  }

  /** The powers start at 1 and x; PowerAdd gives the others. */
  lemma FirstPower(x: nat)
    requires x < Q
    ensures Power(x, 0) == 1 && Power(x, 1) == x
  {
    assert Power(x, 0) == 1;
    TimesIsProduct(x, 1);
  }

  lemma RedcTimes(v: nat, w: nat)
    ensures Redc(Redc(v * w)) == Times(Redc(v), Redc(w)) % Q
  {
    RedcProduct(v, w);
    TimesIsProduct(Redc(v), Redc(w));
  }

  // ---- integers ---------------------------------------------------------------------------------

  /** `mpz_export` into zeroed limbs. */
  method ExportLimbs(r: array<Word>, v: nat)
    requires r.Length == 4 && v < Q
    modifies r
    ensures Value(r[..]) == v
  {
    r[0] := v % 0x1_0000_0000_0000_0000;
    r[1] := v / 0x1_0000_0000_0000_0000 % 0x1_0000_0000_0000_0000;
    r[2] := v / 0x1_0000000000000000_0000000000000000 % 0x1_0000_0000_0000_0000;
    r[3] := v / 0x1_0000000000000000_0000000000000000_0000000000000000;
    ExportedLimbs(v, r[0], r[1], r[2], r[3]);
  }

  lemma ExportedLimbs(v: nat, x0: Word, x1: Word, x2: Word, x3: Word)
    requires x0 == v % 0x1_0000_0000_0000_0000
    requires x1 == v / 0x1_0000_0000_0000_0000 % 0x1_0000_0000_0000_0000
    requires x2 == v / 0x1_0000000000000000_0000000000000000 % 0x1_0000_0000_0000_0000
    requires x3 == v / 0x1_0000000000000000_0000000000000000_0000000000000000
    ensures Value4(x0, x1, x2, x3) == v
  {
    var v1 := v / 0x1_0000_0000_0000_0000;
    var v2 := v1 / 0x1_0000_0000_0000_0000;
    assert v2 == v / 0x1_0000000000000000_0000000000000000;
    assert x3 == v2 / 0x1_0000_0000_0000_0000;
  }

  /** `Fr_toMpz`. */
  method ToInteger(e: FrElement) returns (v: nat)
    requires e.WellFormed()
    ensures v == e.Denotes()
  {
    hide Redc;
    var tmp := new FrElement();
    ToNormal(tmp, e);
    if !tmp.tag.IsLong() {
      SmallResidue(tmp.shortVal);
      v := if tmp.shortVal < 0 then tmp.shortVal + Q else tmp.shortVal;
    } else {
      v := Value4(tmp.longVal[0], tmp.longVal[1], tmp.longVal[2], tmp.longVal[3]);
    }
  }

  /**
    `Fr_fromMpz`: a value that fits 32 bits becomes a short. `mpz_export` writes
    magnitudes, so a negative value that does not fit loses its sign.
   */
  method FromInteger(r: FrElement, v: int)
    requires r.longVal.Length == 4 && 0 - Q < v < Q
    modifies r, r.longVal
    ensures r.WellFormed()
    ensures r.tag == if -0x8000_0000 <= v < 0x8000_0000 then Short else LongNormal
    ensures r.Denotes() == if v >= -0x8000_0000 then v % Q else 0 - v
  {
    if -0x8000_0000 <= v < 0x8000_0000 {
      r.tag, r.shortVal := Short, v;
    } else {
      r.tag := LongNormal;
      ExportLimbs(r.longVal, if v < 0 then 0 - v else v);
    }
  }

  /** The sign is lost exactly for the negative values that do not fit. */
  lemma SignLost(v: int)
    requires 0 - Q < v < 0
    ensures 0 - v != v % Q
  {
    assert v % Q == v + Q;
    ConstantsAgree();
  }

  // ---- inversion ----------------------------------------------------------------------------------

  /** The contract of `mpz_invert` modulo q, which promises nothing for multiples of q. */
  method MpzInvert(v: nat) returns (x: nat)
    requires v % Q != 0
    ensures x < Q && IsInverse(v, x)
  {
    InvertibleExactly(v);
    ghost var y: nat :| IsInverse(v, y);
    TimesIsProduct(v, y);
    TimesIsProduct(v, y % Q);
    ModRight(v, y);
    assert IsInverse(v, y % Q);
    x :| 0 <= x < Q && IsInverse(v, x);
  }

  /** The limbs of a Montgomery form are a multiple of q only for the residue 0. */
  lemma LimbsNotZero(v: nat)
    requires Redc(v) != 0
    ensures v % Q != 0
  {
    RedcMod(v);
  }

  /** Inverting limbs v gives x; the Montgomery product with R^3 makes it the form of the inverse. */
  lemma InverseByR3(v: nat, x: nat)
    requires IsInverse(v, x)
    ensures IsInverse(Redc(v), Redc(Redc(x * R3)))
  {
    RedcFactor(x, R3, Redc(R3));
    RedcOfR3();
    RedcMod(x * R2);
    RedcFactor(x, R2, Redc(R2));
    TimesRedcOfR2(x);
    FormsInverse(v, x);
  }

  lemma FormsInverse(v: nat, x: nat)
    requires IsInverse(v, x)
    ensures IsInverse(Redc(v), ToMont(x))
  {
    TimesIsProduct(v, x);
    TimesIsProduct(Redc(v), ToMont(x));
    RedcToMont(x);
    RedcFactor(v, ToMont(x), Redc(ToMont(x)));
    RedcFactor(ToMont(x), v, Redc(v));
    Commute(v, ToMont(x));
    Commute(Redc(v), ToMont(x));
    ModRight(v, x);
  }

  /** `RawFr::inv`. */
  method RawInv(r: array<Word>, a: array<Word>)
    requires r.Length == a.Length == 4
    requires Redc(Value(a[..])) != 0
    modifies r
    ensures Value(r[..]) < Q
    ensures IsInverse(Redc(old(Value(a[..]))), Redc(Value(r[..])))
    ensures (Redc(old(Value(a[..]))) * Redc(Value(r[..]))) % Q == 1
  {
    hide Redc;
    ghost var v := Value(a[..]);
    LimbsNotZero(v);
    var x := MpzInvert(Value4(a[0], a[1], a[2], a[3]));
    ExportLimbs(r, x);
    TimesR3(r);
    InverseByR3(v, x);
    InverseMeans(Redc(v), Redc(Value(r[..])));
  }

  /** `RawFr::div`: multiplying the quotient by the divisor gives the dividend back. */
  method RawDiv(r: array<Word>, a: array<Word>, b: array<Word>)
    requires r.Length == a.Length == b.Length == 4 && Value(a[..]) < Q
    requires Redc(Value(b[..])) != 0
    modifies r
    ensures Value(r[..]) < Q
    ensures (Redc(Value(r[..])) * Redc(old(Value(b[..])))) % Q == Redc(old(Value(a[..])))
  {
    hide Redc, IsInverse;
    var tmp := new Word[4];
    ghost var va, db := Value(a[..]), Redc(Value(b[..]));
    RawInv(tmp, b);
    ghost var t := Redc(Value(tmp[..]));
    RedcProduct(va, Value(tmp[..]));
    RawMMul(r, a, tmp);
    QuotientTimesDivisor(Redc(va), db, t);
    TimesIsProduct(Redc(va), t);
    TimesIsProduct(Redc(Value(r[..])), db);
  }

  lemma QuotientTimesDivisor(x: nat, d: nat, t: nat)
    requires x < Q && IsInverse(d, t)
    ensures Times(Times(x, t) % Q, d) % Q == x
  {
    hide Times;
    AssocTimes(x, t, d);
    TimesSwap(t, d);
    TimesIsProduct(x, 1);
  }

  lemma Reduced(v: nat)
    requires v < Q
    ensures v % Q == v
  {
  }

  /** `Fr_inv`. */
  method Inv(r: FrElement, a: FrElement)
    requires r.longVal.Length == 4 && a.WellFormed() && Apart(r, a)
    requires a.Denotes() != 0
    modifies r, r.longVal
    ensures r.WellFormed() && IsInverse(old(a.Denotes()), r.Denotes())
    ensures (old(a.Denotes()) * r.Denotes()) % Q == 1
  {
    hide Redc, IsInverse, Value4;
    ResidueBelow(a.View());
    var ma := ToInteger(a);
    var mr := MpzInvert(ma);
    Reduced(mr);
    FromInteger(r, mr);
    assert r.Denotes() == mr;
    InverseMeans(ma, mr);
  }

  /** `Fr_div`, followed by `Fr_mul` with the divisor, is the identity. */
  method Div(r: FrElement, a: FrElement, b: FrElement)
    requires r.longVal.Length == 4 && a.WellFormed() && b.WellFormed()
    requires Apart(r, a) && Apart(r, b) && Apart(a, b)
    requires b.Denotes() != 0
    modifies r, r.longVal
    ensures r.WellFormed() && r.Denotes() < Q
    ensures (r.Denotes() * old(b.Denotes())) % Q == old(a.Denotes())
  {
    hide Redc, IsInverse;
    ghost var da, db := a.Denotes(), b.Denotes();
    var tmp := new FrElement();
    Inv(tmp, b);
    ghost var t := tmp.Denotes();
    Mul(r, a, tmp);
    ResidueBelow(a.View());
    QuotientTimesDivisor(da, db, t);
    TimesIsProduct(da, t);
    TimesIsProduct(r.Denotes(), db);
  }

  /** Two quotients of the same residues agree, whichever of the two divisions computed them. */
  lemma QuotientUnique(x: nat, d: nat, p: nat, q: nat)
    requires d % Q != 0 && p < Q && q < Q
    requires Times(p, d) % Q == x && Times(q, d) % Q == x
    ensures p == q
  {
    InvertibleExactly(d);
    var t: nat :| IsInverse(d, t);
    DividendTimesInverse(x, d, p, t);
    DividendTimesInverse(x, d, q, t);
  }

  lemma DividendTimesInverse(x: nat, d: nat, p: nat, t: nat)
    requires IsInverse(d, t) && p < Q && Times(p, d) % Q == x
    ensures p == Times(x, t) % Q
  {
    hide Times;
    AssocTimes(p, d, t);
    TimesIsProduct(p, 1);
  }
}
