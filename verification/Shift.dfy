/** `rawShr` and `rawShl`: shifts of four limbs by any number of bits. */
module Shift {
  import opened Products
  import opened Words
  import opened Modulus
  import opened RawField
  import opened Bits

  const TWO_254: nat := 0x40000000_00000000_00000000_00000000_00000000_00000000_00000000_00000000

  // ---- one limb -------------------------------------------------------------------------

  /**
    The masked pair of shifts that makes one result limb: the high bits of lo
    over the low bits of hi. A right shift by c uses it with c, a left shift by c
    with 64 - c.
   */
  method Funnel(lo: Word, hi: Word, c: nat) returns (x: Word)
    requires 0 < c < 64
    ensures x == lo / Pow2(c) + (hi % Pow2(c)) * Pow2(64 - c)
  {
    hide Bitwise, Pow2;
    var s := Pow2(64 - c);
    WordShifts(lo, hi, c);
    var low: Word := lo / Pow2(c);
    var high: Word := (hi * s) % 0x1_0000_0000_0000_0000;
    var mask: Word := s - 1;
    MaskedLow(lo, c, low);
    MaskedHigh(hi, c, high);
    FunnelJoin(lo, hi, c, low);
    x := Bitwise(Or, Bitwise(And, low, mask), Bitwise(And, high, 0x1_0000_0000_0000_0000 - 1 - mask));
  }

  lemma WordShifts(lo: Word, hi: Word, c: nat)
    requires 0 < c < 64
    ensures Pow2(64 - c) <= 0x1_0000_0000_0000_0000
    ensures 0 <= lo / Pow2(c) < Pow2(64 - c)
  {
    hide Pow2;
    Pow2Add(c, 64 - c);
    Pow2Limb();
    HighPart(lo, Pow2(c), Pow2(64 - c));
    MulMonotone(Pow2(64 - c), 1, Pow2(c));
  }

  lemma FunnelJoin(lo: Word, hi: Word, c: nat, low: nat)
    requires 0 < c < 64 && low == lo / Pow2(c)
    ensures 0 <= (hi % Pow2(c)) * Pow2(64 - c)
    ensures Bitwise(Or, low, (hi % Pow2(c)) * Pow2(64 - c)) == low + (hi % Pow2(c)) * Pow2(64 - c)
    ensures low + (hi % Pow2(c)) * Pow2(64 - c) < 0x1_0000_0000_0000_0000
  {
    hide Pow2, Bitwise;
    Pow2Add(c, 64 - c);
    Pow2Limb();
    WordShifts(lo, hi, c);
    JoinHalves(c, low, hi % Pow2(c), Pow2(c), Pow2(64 - c));
  }

  lemma JoinHalves(c: nat, low: nat, high: nat, p: nat, s: nat)
    requires 0 < c < 64 && s == Pow2(64 - c) && p * s == 0x1_0000_0000_0000_0000
    requires low < s && high < p
    ensures 0 <= high * s && Bitwise(Or, low, high * s) == low + high * s < 0x1_0000_0000_0000_0000
  {
    hide Pow2, Bitwise;
    Commute(high, s);
    OrDisjoint(64 - c, low, high);
    HighFits(high, p, s);
  }

  lemma MaskedLow(lo: Word, c: nat, low: nat)
    requires 0 < c < 64 && low == lo / Pow2(c)
    ensures Bitwise(And, low, Pow2(64 - c) - 1) == low
  {
    hide Bitwise, Pow2;
    WordShifts(lo, 0, c);
    AndLowMask(64 - c, low);
    SmallMod(low, Pow2(64 - c));
  }

  lemma MaskedHigh(hi: Word, c: nat, high: Word)
    requires 0 < c < 64 && high == (hi * Pow2(64 - c)) % 0x1_0000_0000_0000_0000
    requires Pow2(64 - c) <= 0x1_0000_0000_0000_0000
    ensures Bitwise(And, high, 0x1_0000_0000_0000_0000 - 1 - (Pow2(64 - c) - 1))
         == (hi % Pow2(c)) * Pow2(64 - c)
  {
    hide Bitwise, Pow2;
    var p, s := Pow2(c), Pow2(64 - c);
    Pow2Add(c, 64 - c);
    Pow2Limb();
    ShiftedOut(hi, p, s);
    HighFits(hi % p, p, s);
    AndHighMask(64 - c, c, (hi % p) * s);
  }

  lemma SmallMod(x: nat, m: nat)
    requires x < m
    ensures x % m == x
  {
  }

  /** A left shift drops the bits that leave the word. */
  lemma ShiftedOut(x: nat, p: nat, s: nat)
    requires p >= 1 && s >= 1 && p * s == 0x1_0000_0000_0000_0000
    ensures (x * s) % 0x1_0000_0000_0000_0000 == (x % p) * s
    ensures ((x % p) * s) % s == 0
  {
    var l, h := x % p, x / p;
    SplitAt(x, p);
    Regroup(l, h, p, s);
    HighFits(l, p, s);
    MultipleMod(l, s);
  }

  lemma Regroup(l: nat, h: nat, p: nat, s: nat)
    ensures (l + p * h) * s == l * s + h * (p * s)
  {
  }

  lemma HighFits(l: nat, p: nat, s: nat)
    requires l < p && s >= 1
    ensures l * s + s <= p * s
  {
    MulMonotone(s, l + 1, p);
  }

  lemma MultipleMod(l: nat, s: nat)
    requires s >= 1
    ensures (l * s) % s == 0
  {
    Commute(l, s);
    DivModUnique(l * s, s, l, 0);
  }

  // ---- right shift ------------------------------------------------------------------------

  /** The limb at a position, 0 outside the buffer. */
  function At(s: seq<Word>, j: int): Word
    requires |s| == 4
  {
    if 0 <= j < 4 then s[j] else 0
  }

  /** Shifting right by whole limbs divides by a power of 2^64. */
  lemma LimbsDown(s: seq<Word>, d: nat)
    requires |s| == 4 && d < 4
    ensures Value4(At(s, d), At(s, d + 1), At(s, d + 2), At(s, d + 3)) == Value(s) / Pow2(64 * d)
  {
    hide Pow2;
    Pow2Zero();
    Pow2Limb();
    Pow2Limbs();
    var w := Value4(At(s, d), At(s, d + 1), At(s, d + 2), At(s, d + 3));
    if d == 1 {
      DivModUnique(Value(s), 0x1_0000000000000000, w, s[0]);
    } else if d == 2 {
      DivModUnique(Value(s), 0x1_0000000000000000_0000000000000000, w, Value4(s[0], s[1], 0, 0));
    } else if d == 3 {
      DivModUnique(Value(s), 0x1_0000000000000000_0000000000000000_0000000000000000, w, Value4(s[0], s[1], s[2], 0));
    }
  }

  /** Four funnelled limbs divide by a further power of two. */
  lemma FunnelsDivide(w0: Word, w1: Word, w2: Word, w3: Word, r0: Word, r1: Word, r2: Word, r3: Word, p: nat, s: nat)
    requires p >= 1 && s >= 1 && p * s == 0x1_0000_0000_0000_0000
    requires r0 == w0 / p + (w1 % p) * s
    requires r1 == w1 / p + (w2 % p) * s
    requires r2 == w2 / p + (w3 % p) * s
    requires r3 == w3 / p
    ensures Value4(r0, r1, r2, r3) == Value4(w0, w1, w2, w3) / p
  {
    FunnelScaled(w0, w1, r0, p, s);
    FunnelScaled(w1, w2, r1, p, s);
    FunnelScaled(w2, w3, r2, p, s);
    SplitAt(w3, p);
    ScaledDivide(w0, w1, w2, w3, r0, r1, r2, r3, w0 % p, w1 % p, w2 % p, w3 % p, p);
  }

  lemma ScaledDivide(w0: Word, w1: Word, w2: Word, w3: Word, r0: Word, r1: Word, r2: Word, r3: Word,
                     l0: nat, l1: nat, l2: nat, l3: nat, p: nat)
    requires l0 < p
    requires p * r0 == w0 - l0 + 0x1_0000_0000_0000_0000 * l1
    requires p * r1 == w1 - l1 + 0x1_0000_0000_0000_0000 * l2
    requires p * r2 == w2 - l2 + 0x1_0000_0000_0000_0000 * l3
    requires p * r3 == w3 - l3
    ensures Value4(r0, r1, r2, r3) == Value4(w0, w1, w2, w3) / p
  {
    Distribute(p, r0, r1, r2, r3);
    DivModUnique(Value4(w0, w1, w2, w3), p, Value4(r0, r1, r2, r3), l0);
  }

  lemma FunnelScaled(lo: Word, hi: Word, x: Word, p: nat, s: nat)
    requires p >= 1 && p * s == 0x1_0000_0000_0000_0000
    requires x == lo / p + (hi % p) * s
    ensures p * x == lo - lo % p + 0x1_0000_0000_0000_0000 * (hi % p)
  {
    SplitAt(lo, p);
    Interchange(p, lo / p, hi % p, s);
  }

  lemma Interchange(p: nat, d: nat, m: nat, s: nat)
    ensures p * (d + m * s) == p * d + (p * s) * m
  {
  }

  /** Dividing twice divides by the product. */
  lemma DivTwice(v: nat, x: nat, p: nat)
    requires x >= 1 && p >= 1 && x * p >= 1
    ensures v / (x * p) == (v / x) / p
  {
    var w := v / x;
    SplitAt(v, x);
    SplitAt(w, p);
    TwoRemainders(v, x, p, w, v % x, w / p, w % p);
  }

  lemma TwoRemainders(v: nat, x: nat, p: nat, w: nat, e: nat, t: nat, l: nat)
    requires x >= 1 && e < x && l < p && x * p >= 1
    requires v == e + x * w && w == l + p * t
    ensures v / (x * p) == t
  {
    HighFits(l, p, x);
    Commute(x, p);
    Refold(x, p, t, l, e);
    DivModUnique(v, x * p, t, l * x + e);
  }

  lemma Refold(x: nat, p: nat, t: nat, l: nat, e: nat)
    ensures x * (l + p * t) + e == (x * p) * t + (l * x + e)
  {
  }

  function Quotient(v: nat, p: nat): nat
    requires p > 0
  {
    v / p
  }

  /** What a right shift computes: the floor of v / 2^n. */
  function ShrSpec(v: nat, n: nat): nat {
    Quotient(v, Pow2(n))
  }

  /** One result limb of a right shift by 64 * d + c. */
  method ShrLimb(a: array<Word>, d: nat, c: nat, i: nat) returns (x: Word)
    requires a.Length == 4 && 0 < c < 64 && d < 4 && i < 4
    ensures x == At(a[..], i + d) / Pow2(c) + (At(a[..], i + d + 1) % Pow2(c)) * Pow2(64 - c)
  {
    hide Pow2;
    if d < 3 - i {
      x := Funnel(a[i + d], a[i + d + 1], c);
    } else {
      x := Funnel(if d == 3 - i then a[i + d] else 0, 0, c);
    }
  }

  /** `rawShr`: the quotient by 2^n, for every n. */
  method RawShr(r: array<Word>, a: array<Word>, n: Word)
    requires r.Length == a.Length == 4 && Value(a[..]) < Q
    modifies r
    ensures Value(r[..]) == old(Value(a[..])) / Pow2(n)
  {
    hide Pow2;
    ghost var s := a[..];
    if n == 0 {
      assert Pow2(0) == 1 by { Pow2Zero(); }
      r[0], r[1], r[2], r[3] := a[0], a[1], a[2], a[3];
    } else if n >= 254 {
      ShrVanishes(Value(s), n);
      RawZero(r);
    } else {
      var d, c := n / 64, n % 64;
      if c == 0 {
        LimbsDown(s, d);
        r[0], r[1], r[2], r[3] :=
          if d <= 3 then a[d] else 0, if d <= 2 then a[d + 1] else 0,
          if d <= 1 then a[d + 2] else 0, 0; // d is at least 1 here
      } else {
        var x0 := ShrLimb(a, d, c, 0);
        var x1 := ShrLimb(a, d, c, 1);
        var x2 := ShrLimb(a, d, c, 2);
        var x3 := ShrLimb(a, d, c, 3);
        r[0], r[1], r[2], r[3] := x0, x1, x2, x3;
        ShrCombines(s, n, d, c, x0, x1, x2, x3);
      }
    }
  }

  lemma Pow2Zero()
    ensures Pow2(0) == 1
  {
  }

  /** A canonical value has no bit at 254 or above. */
  lemma ShrVanishes(v: nat, n: nat)
    requires v < Q && n >= 254
    ensures v / Pow2(n) == 0
  {
    hide Pow2;
    Pow2Limbs();
    Pow2Add(254, n - 254);
    MulMonotone(TWO_254, 1, Pow2(n - 254));
    DivModUnique(v, Pow2(n), 0, v);
  }

  lemma ShrCombines(s: seq<Word>, n: nat, d: nat, c: nat, x0: Word, x1: Word, x2: Word, x3: Word)
    requires |s| == 4 && d < 4 && 0 < c < 64 && n == 64 * d + c
    requires x0 == At(s, d) / Pow2(c) + (At(s, d + 1) % Pow2(c)) * Pow2(64 - c)
    requires x1 == At(s, d + 1) / Pow2(c) + (At(s, d + 2) % Pow2(c)) * Pow2(64 - c)
    requires x2 == At(s, d + 2) / Pow2(c) + (At(s, d + 3) % Pow2(c)) * Pow2(64 - c)
    requires x3 == At(s, d + 3) / Pow2(c) + (At(s, d + 4) % Pow2(c)) * Pow2(64 - c)
    ensures Value4(x0, x1, x2, x3) == Value(s) / Pow2(n)
  {
    hide Pow2;
    var p, q := Pow2(c), Pow2(64 - c);
    Pow2Add(c, 64 - c);
    Pow2Limb();
    SmallMod(0, p);
    FunnelsDivide(At(s, d), At(s, d + 1), At(s, d + 2), At(s, d + 3), x0, x1, x2, x3, p, q);
    LimbsDown(s, d);
    Pow2Add(64 * d, c);
    DivTwice(Value(s), Pow2(64 * d), p);
  }

  // ---- left shift ----------------------------------------------------------------------------

  function Scaled(v: nat, p: nat): int {
    v * p
  }

  /** Shifting left by whole limbs multiplies by a power of 2^64, up to a multiple of 2^256. */
  lemma LimbsUp(s: seq<Word>, d: nat) returns (lost: nat)
    requires |s| == 4 && d < 4
    ensures Scaled(Value(s), Pow2(64 * d))
         == Value4(At(s, 0 - d), At(s, 1 - d), At(s, 2 - d), At(s, 3 - d)) + TWO_256 * lost
  {
    hide Pow2;
    Pow2Zero();
    Pow2Limb();
    Pow2Limbs();
    LimbMultiples(s[0], s[1], s[2], s[3]);
    hide Value4, Scaled;
    if d == 0 {
      lost := 0;
    } else if d == 1 {
      lost := s[3];
    } else if d == 2 {
      lost := Value4(s[2], s[3], 0, 0);
    } else {
      lost := Value4(s[1], s[2], s[3], 0);
    }
  }

  lemma LimbMultiples(x0: Word, x1: Word, x2: Word, x3: Word)
    ensures Scaled(Value4(x0, x1, x2, x3), 1) == Value4(x0, x1, x2, x3)
    ensures Scaled(Value4(x0, x1, x2, x3), 0x1_0000000000000000) == Value4(0, x0, x1, x2) + TWO_256 * x3
    ensures Scaled(Value4(x0, x1, x2, x3), 0x1_0000000000000000_0000000000000000)
         == Value4(0, 0, x0, x1) + TWO_256 * Value4(x2, x3, 0, 0)
    ensures Scaled(Value4(x0, x1, x2, x3), 0x1_0000000000000000_0000000000000000_0000000000000000)
         == Value4(0, 0, 0, x0) + TWO_256 * Value4(x1, x2, x3, 0)
  {
  }

  /** Four funnelled limbs multiply by a further power of two, up to a multiple of 2^256. */
  lemma FunnelsMultiply(w0: Word, w1: Word, w2: Word, w3: Word, u0: Word, u1: Word, u2: Word, u3: Word, p: nat, s: nat)
    requires p >= 1 && s >= 1 && p * s == 0x1_0000_0000_0000_0000
    requires u0 == (w0 % s) * p
    requires u1 == w0 / s + (w1 % s) * p
    requires u2 == w1 / s + (w2 % s) * p
    requires u3 == w2 / s + (w3 % s) * p
    ensures p * Value4(w0, w1, w2, w3) == Value4(u0, u1, u2, u3) + TWO_256 * (w3 / s)
  {
    LimbTimes(w0, p, s);
    LimbTimes(w1, p, s);
    LimbTimes(w2, p, s);
    LimbTimes(w3, p, s);
    Distribute(p, w0, w1, w2, w3);
    ScaledMultiply(p * w0, p * w1, p * w2, p * w3, u0, u1, u2, u3, w0 / s, w1 / s, w2 / s, w3 / s);
  }

  lemma LimbTimes(w: Word, p: nat, s: nat)
    requires p >= 1 && s >= 1 && p * s == 0x1_0000_0000_0000_0000
    ensures (w % s) * p == p * w - 0x1_0000_0000_0000_0000 * (w / s)
  {
    SplitAt(w, s);
    Spread(p, w % s, s, w / s);
  }

  lemma Spread(p: nat, l: nat, s: nat, h: nat)
    ensures p * (l + s * h) == l * p + (p * s) * h
  {
  }

  lemma ScaledMultiply(p0: int, p1: int, p2: int, p3: int, u0: Word, u1: Word, u2: Word, u3: Word,
                       v0: int, v1: int, v2: int, v3: int)
    requires u0 == p0 - 0x1_0000_0000_0000_0000 * v0
    requires u1 == v0 + p1 - 0x1_0000_0000_0000_0000 * v1
    requires u2 == v1 + p2 - 0x1_0000_0000_0000_0000 * v2
    requires u3 == v2 + p3 - 0x1_0000_0000_0000_0000 * v3
    ensures p0 + 0x1_0000_0000_0000_0000 * p1
            + 0x1_0000000000000000_0000000000000000 * p2
            + 0x1_0000000000000000_0000000000000000_0000000000000000 * p3
         == Value4(u0, u1, u2, u3) + TWO_256 * v3
  {
  }

  /** One result limb of a left shift by 64 * d + c. */
  method ShlLimb(a: array<Word>, d: nat, c: nat, i: nat) returns (x: Word)
    requires a.Length == 4 && 0 < c < 64 && d < 4 && i < 4
    ensures x == At(a[..], i - d - 1) / Pow2(64 - c) + (At(a[..], i - d) % Pow2(64 - c)) * Pow2(c)
  {
    hide Pow2;
    if d < i {
      x := Funnel(a[i - d - 1], a[i - d], 64 - c);
    } else {
      x := Funnel(0, if d == i then a[0] else 0, 64 - c);
    }
  }

  /** The four limbs of a left shift by 64 * d + c: c bits of multiplication, losing a multiple of 2^256. */
  method ShlFunnels(a: array<Word>, d: nat, c: nat) returns (u0: Word, u1: Word, u2: Word, u3: Word, ghost lost: nat)
    requires a.Length == 4 && 0 < c < 64 && d < 4
    ensures Pow2(c) * Value4(At(a[..], 0 - d), At(a[..], 1 - d), At(a[..], 2 - d), At(a[..], 3 - d))
         == Value4(u0, u1, u2, u3) + TWO_256 * lost
  {
    hide Pow2, Value4;
    ghost var s := a[..];
    u3 := ShlLimb(a, d, c, 3);
    u2 := ShlLimb(a, d, c, 2);
    u1 := ShlLimb(a, d, c, 1);
    u0 := ShlLimb(a, d, c, 0);
    Pow2Add(c, 64 - c);
    Pow2Limb();
    DivModUnique(0, Pow2(64 - c), 0, 0);
    FunnelsMultiply(At(s, 0 - d), At(s, 1 - d), At(s, 2 - d), At(s, 3 - d), u0, u1, u2, u3, Pow2(c), Pow2(64 - c));
    lost := At(s, 3 - d) / Pow2(64 - c);
  }

  /** What a left shift of a residue keeps: the low 254 bits, then the residue. */
  function ShlSpec(v: nat, n: nat): nat {
    (v * Pow2(n)) % TWO_254 % Q
  }

  /** `rawShl`: multiply by 2^n, keep 254 bits, subtract q once if that is not below q. */
  method RawShl(r: array<Word>, a: array<Word>, n: Word)
    requires r.Length == a.Length == 4 && Value(a[..]) < Q
    modifies r
    ensures Value(r[..]) == ShlSpec(old(Value(a[..])), n)
  {
    hide Pow2, ShlSpec;
    ghost var s := a[..];
    if n == 0 {
      ShlByZero(Value(s));
      r[0], r[1], r[2], r[3] := a[0], a[1], a[2], a[3];
    } else if n >= 254 {
      ShlVanishes(Value(s), n);
      RawZero(r);
    } else {
      var d, c := n / 64, n % 64;
      var u0, u1, u2, u3: Word;
      if c == 0 {
        u0, u1, u2, u3 := 0, if d <= 1 then a[1 - d] else 0, if d <= 2 then a[2 - d] else 0, a[3 - d];
        ShlAligned(s, n, d, u0, u1, u2, u3);
      } else {
        ghost var lost;
        u0, u1, u2, u3, lost := ShlFunnels(a, d, c);
        ShlLosses(s, n, d, c, Value4(u0, u1, u2, u3), lost);
      }
      var top := TopMask(u3);
      r[0], r[1], r[2], r[3] := u0, u1, u2, top;
      MaskTop(Value(s), n, u0, u1, u2, u3, top);
      ReduceMasked(r);
    }
  }

  /** `lboMask` on the top limb. */
  method TopMask(x: Word) returns (top: Word)
    ensures top == x % 0x4000_0000_0000_0000
  {
    Pow2Limb();
    AndLowMask(62, x);
    top := Bitwise(And, x, 0x3fff_ffff_ffff_ffff);
  }

  /** 254 bits are below 2 * q, so one subtraction is enough. */
  method ReduceMasked(r: array<Word>)
    requires r.Length == 4 && Value(r[..]) < TWO_254
    modifies r
    ensures Value(r[..]) == old(Value(r[..])) % Q
  {
    var below := BelowModulus(r[0], r[1], r[2], r[3]);
    if !below {
      SubtractModulus(r);
    }
  }

  lemma ShlByZero(v: nat)
    requires v < Q
    ensures ShlSpec(v, 0) == v
  {
    assert Pow2(0) == 1;
  }

  lemma ShlVanishes(v: nat, n: nat)
    requires n >= 254
    ensures ShlSpec(v, n) == 0
  {
    hide Pow2;
    Pow2Limbs();
    Pow2Add(254, n - 254);
    Regroup(0, v, Pow2(n - 254), TWO_254);
    assert v * Pow2(n) == TWO_254 * (v * Pow2(n - 254)) by { Shuffle(v, TWO_254, Pow2(n - 254)); }
  }

  lemma Shuffle(x: int, y: int, z: int)
    ensures x * (y * z) == y * (x * z)
  {
  }

  lemma ShlAligned(s: seq<Word>, n: nat, d: nat, u0: Word, u1: Word, u2: Word, u3: Word)
    requires |s| == 4 && 0 < d < 4 && n == 64 * d
    requires u0 == At(s, 0 - d) && u1 == At(s, 1 - d) && u2 == At(s, 2 - d) && u3 == At(s, 3 - d)
    ensures (Value(s) * Pow2(n)) % TWO_256 == Value4(u0, u1, u2, u3)
  {
    hide Pow2;
    var lost := LimbsUp(s, d);
    DivModUnique(Value(s) * Pow2(n), TWO_256, lost, Value4(u0, u1, u2, u3));
  }

  /** Whole limbs and the remaining bits together give the low 256 bits of the product. */
  lemma ShlLosses(s: seq<Word>, n: nat, d: nat, c: nat, u: nat, top: nat)
    requires |s| == 4 && d < 4 && n == 64 * d + c && u < TWO_256
    requires Pow2(c) * Value4(At(s, 0 - d), At(s, 1 - d), At(s, 2 - d), At(s, 3 - d)) == u + TWO_256 * top
    ensures (Value(s) * Pow2(n)) % TWO_256 == u
  {
    hide Pow2, At;
    var lost := LimbsUp(s, d);
    Pow2Add(64 * d, c);
    var w := Value4(At(s, 0 - d), At(s, 1 - d), At(s, 2 - d), At(s, 3 - d));
    LossAdds(Value(s), Pow2(64 * d), Pow2(c), w, lost, u, top);
  }

  lemma LossAdds(v: nat, x: nat, p: nat, w: nat, lost: nat, u: nat, top: nat)
    requires v * x == w + TWO_256 * lost
    requires p * w == u + TWO_256 * top && u < TWO_256
    ensures (v * (x * p)) % TWO_256 == u
  {
    Spread(p, w, TWO_256, lost);
    assert v * (x * p) == p * (v * x);
    assert v * (x * p) == u + TWO_256 * (top + p * lost);
  }

  lemma MaskTop(v: nat, n: nat, u0: Word, u1: Word, u2: Word, u3: Word, top: Word)
    requires (v * Pow2(n)) % TWO_256 == Value4(u0, u1, u2, u3)
    requires top == u3 % 0x4000_0000_0000_0000
    ensures Value4(u0, u1, u2, top) < TWO_254
    ensures ShlSpec(v, n) == Value4(u0, u1, u2, top) % Q
  {
    hide Pow2;
    MaskedTop(v * Pow2(n), u0, u1, u2, u3, top);
  }

  lemma MaskedTop(x: nat, u0: Word, u1: Word, u2: Word, u3: Word, top: Word)
    requires x % TWO_256 == Value4(u0, u1, u2, u3)
    requires top == u3 % 0x4000_0000_0000_0000
    ensures Value4(u0, u1, u2, top) < TWO_254
    ensures x % TWO_254 == Value4(u0, u1, u2, top)
  {
    var h := x / TWO_256;
    var g := u3 / 0x4000_0000_0000_0000;
    MultipleAdded(x, Value4(u0, u1, u2, top), g + 4 * h);
  }

  lemma MultipleAdded(x: nat, t: nat, k: nat)
    requires t < TWO_254 && x == t + TWO_254 * k
    ensures x % TWO_254 == t
  {
  }
}
